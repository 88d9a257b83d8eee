/** The typed layer of the client (crates/runnel-client/src/lib.rs): a typed value is returned only for a
    response the server confirmed, and a reply of the wrong shape discards the connection. */
module TypedReplies {
  import opened Prelude
  import opened ClientConnection
  import opened PublishReplies

  datatype TypedResponse<T> = Value(value: T) | NoValue(outcome: AttemptOutcome)

  const WrongShape := NotConfirmed(Unknown, FromClient(UnexpectedResponse))

  function FromParsed<T>(parsed: Option<T>): TypedResponse<T> {
    if parsed.Some? then Value(parsed.value) else NoValue(WrongShape)
  }

  function FromOutcome<T>(outcome: AttemptOutcome, parse: Response -> Option<T>): TypedResponse<T> {
    if outcome.Confirmed? then FromParsed(parse(outcome.response)) else NoValue(outcome)
  }

  /** The items of a batch reply agree with its per-item metadata. */
  predicate MetadataMatches(response: Response, items: seq<Verdict>) {
    match response
    case PollBatchResponse(messages) => |messages| == |items| && forall i :: 0 <= i < |items| ==> items[i] == VConfirmed
    case BatchResponse(_, outcomes) =>
      && |outcomes| == |items|
      && forall i :: 0 <= i < |items| ==> (items[i] == VConfirmed <==> outcomes[i].Published?)
    case AckBatchResponse(outcomes) =>
      && |outcomes| == |items|
      && forall i :: 0 <= i < |items| ==> (items[i] == VConfirmed <==> outcomes[i] != AckRejected)
    case _ => false
  }

  function TypedReply<T>(reply: Reply, parse: Response -> Option<T>): TypedResponse<T> {
    if reply.outcome.Some? then FromOutcome(ClassifyReply(reply), parse)
    else if !MetadataMatches(reply.response, reply.items) then NoValue(WrongShape)
    else FromParsed(parse(reply.response))
  }

  // ---------------------------------------------------------------- what a typed reply means

  /** The server vouched for the response: by a verdict on the whole operation that is no error, or item
      by item. */
  predicate Vouched(reply: Reply) {
    if reply.outcome.Some? then reply.outcome == Some(VConfirmed) && !reply.response.ErrorResponse?
    else MetadataMatches(reply.response, reply.items)
  }

  /** A verdict that settles the operation without a value. */
  predicate Declined(reply: Reply) {
    reply.outcome.Some? && !Vouched(reply)
  }

  /** A value is returned exactly for a vouched response that parses. A declined operation reports the
      server's own verdict and response. Everything else is a reply of the wrong shape. */
  lemma TypedReplyIsFaithful<T>(reply: Reply, parse: Response -> Option<T>)
    ensures var t := TypedReply(reply, parse);
            && (t.Value? <==> Vouched(reply) && parse(reply.response).Some?)
            && (t.Value? ==> Some(t.value) == parse(reply.response))
            && (Declined(reply) ==> t.NoValue? && t.outcome.NotConfirmed?
                                    && t.outcome.failure == Broker(reply.response))
            && (Declined(reply) ==>
                  && (t.outcome.kind == Rejected <==> reply.outcome == Some(VRejected))
                  && (t.outcome.kind == Retryable <==> reply.outcome == Some(VRetryable)))
            && (t == NoValue(WrongShape) <==> !t.Value? && !Declined(reply))
  {
  }

  /** Without a verdict on the whole operation, a publish batch is vouched for exactly when the reply answers
      it record by record, a poll batch exactly when every message is confirmed, an acknowledgement batch
      exactly when the rejected items are those not confirmed, and nothing else is. */
  lemma ItemsAreVouchedExactlyWhen(reply: Reply)
    requires reply.outcome.None?
    ensures Vouched(reply) <==>
            match reply.response
            case BatchResponse(stream, _) => Answers(stream, |reply.items|, reply)
            case PollBatchResponse(messages) => reply.items == seq(|messages|, i => VConfirmed)
            case AckBatchResponse(acks) =>
              && |acks| == |reply.items|
              && forall i :: 0 <= i < |acks| ==> (acks[i] == AckRejected <==> reply.items[i] != VConfirmed)
            case _ => false
  {
  }

  // ---------------------------------------------------------------- the whole call

  datatype TypedCall<T> = TypedCall(connection: Option<Wire>, result: TypedResponse<T>)

  /** A typed request; none if it is cancelled. */
  function CallTyped<T>(connection: Option<Wire>, call: Call, decode: Bytes -> ServerFrame<Reply>,
                        parse: Response -> Option<T>): Option<TypedCall<T>>
  {
    var r := RequestWithReply(connection, call, decode);
    match r.outcome
    case WasCancelled => None
    case FailedWith(error) =>
      Some(TypedCall(r.connection, NoValue(NotConfirmed(FromClientError(error), FromClient(error)))))
    case Replied(reply) =>
      var t := TypedReply(reply, parse);
      Some(TypedCall(if t == NoValue(WrongShape) then None else r.connection, t))
  }

  /** On the connection, a typed request is a request of a run that may refuse its reply. */
  lemma CallTypedIsRequest<T>(connection: Option<Wire>, call: Call, decode: Bytes -> ServerFrame<Reply>,
                              parse: Response -> Option<T>)
    requires CallTyped(connection, call, decode, parse).Some?
    ensures var t := CallTyped(connection, call, decode, parse).value;
            t.connection == Perform(connection, Op.Request(call, t.result == NoValue(WrongShape)), decode)
  {
    var r := RequestWithReply(connection, call, decode);
    if r.outcome.Replied? {
      TypedReplyIsFaithful(r.outcome.reply, parse);
    }
  }

  /** A typed value comes from a vouched response in the frame paired with this very request; a client-side
      failure is classified soundly; and an available connection is at rest. */
  lemma TypedValuesAreVouched<T>(connection: Option<Wire>, call: Call, decode: Bytes -> ServerFrame<Reply>,
                                 parse: Response -> Option<T>)
    requires Ready(connection) && CallTyped(connection, call, decode, parse).Some?
    ensures var t := CallTyped(connection, call, decode, parse).value;
            var r := RequestWithReply(connection, call, decode);
            && Ready(t.connection)
            && (t.result.Value? ==>
                  && r.outcome.Replied? && Vouched(r.outcome.reply)
                  && parse(r.outcome.reply.response) == Some(t.result.value)
                  && r.used.Some? && Paired(r.used.value, call.tag, r.outcome.reply, decode)
                  && t.connection == r.used)
            && (r.outcome.Replied? ==> (t.connection == None <==> t.result == NoValue(WrongShape)))
            && (r.outcome.FailedWith? ==>
                  ClassifiedSoundly(connection, call, r, decode) &&
                  t.result == NoValue(NotConfirmed(FromClientError(r.outcome.error), FromClient(r.outcome.error))))
  {
    RequestKeepsPairing(connection, call, decode);
    var r := RequestWithReply(connection, call, decode);
    if r.outcome.Replied? {
      TypedReplyIsFaithful(r.outcome.reply, parse);
    } else if r.outcome.FailedWith? {
      FailureClassIsSound(connection, call, decode);
    }
  }

  method RequestTyped<T(==)>(client: Client<Reply>, call: Call, decode: Bytes -> ServerFrame<Reply>,
                             parse: Response -> Option<T>)
    returns (result: Option<TypedResponse<T>>)
    modifies client
    ensures match CallTyped(old(client.connection), call, decode, parse)
            case Some(t) => result == Some(t.result) && client.connection == t.connection
            case None => result.None? && client.connection == None
  {
    var outcome := client.Request(call, decode);
    match outcome {
      case WasCancelled => result := None;
      case FailedWith(error) => result := Some(NoValue(NotConfirmed(FromClientError(error), FromClient(error))));
      case Replied(reply) =>
        var typed := TypedReply(reply, parse);
        if typed == NoValue(WrongShape) {
          client.connection := None;
        }
        result := Some(typed);
    }
  }
}
