/** What the client reports for a publish batch (crates/runnel-client/src/lib.rs): one outcome for every
    supplied record, in input order, and never a confirmation the server did not give. */
module PublishReplies {
  import opened Prelude
  import opened ClientConnection

  const MAX_PUBLISH_BATCH_RECORDS: nat := 1024

  /** Safety metadata in a reply, for the whole operation or for one record. */
  datatype Verdict = VConfirmed | VRejected | VRetryable | VUnknown

  datatype WireOutcome = Published(offset: nat) | RecordError(code: string, message: string)

  datatype AckOutcome = AckConfirmed | AckAlreadyConfirmed | AckRejected

  datatype Response =
    | ErrorResponse(code: string, message: string)
    | BatchResponse(stream: string, outcomes: seq<WireOutcome>)
    | PollBatchResponse(messages: seq<string>)
    | AckBatchResponse(acks: seq<AckOutcome>)
    | OtherResponse(kind: string)

  datatype Reply = Reply(response: Response, outcome: Option<Verdict>, items: seq<Verdict>)

  datatype Failure = Broker(response: Response) | FromClient(error: ClientError)

  datatype AttemptOutcome = Confirmed(response: Response) | NotConfirmed(kind: Class, failure: Failure)

  datatype RecordOutcome = RecordConfirmed(stream: string, offset: nat)
                         | RecordFailed(kind: Class, code: string, message: string)

  datatype Attempt = Attempt(outcomes: seq<RecordOutcome>, failure: Option<Failure>)

  /** A confirmation that carries an error, and a missing verdict, count as unknown. */
  function ClassifyReply(reply: Reply): AttemptOutcome {
    match reply.outcome
    case Some(VConfirmed) =>
      if reply.response.ErrorResponse? then NotConfirmed(Unknown, Broker(reply.response)) else Confirmed(reply.response)
    case Some(VRejected) => NotConfirmed(Rejected, Broker(reply.response))
    case Some(VRetryable) => NotConfirmed(Retryable, Broker(reply.response))
    case _ => NotConfirmed(Unknown, Broker(reply.response))
  }

  function Kind(response: Response): string {
    match response
    case ErrorResponse(_, _) => "error"
    case BatchResponse(_, _) => "publish_batch"
    case PollBatchResponse(_) => "poll_batch"
    case AckBatchResponse(_) => "ack_batch"
    case OtherResponse(kind) => kind
  }

  function Describe(failure: Failure): (string, string) {
    match failure
    case Broker(ErrorResponse(code, message)) => (code, message)
    case Broker(response) => ("unexpected_response", "unexpected " + Kind(response) + " response")
    case FromClient(_) => ("client_error", "client error")
  }

  /** The same failure for every record. */
  function AllFailed(count: nat, kind: Class, failure: Failure): Attempt {
    var (code, message) := Describe(failure);
    Attempt(seq(count, i => RecordFailed(kind, code, message)), Some(failure))
  }

  function Unexpected(count: nat): Attempt {
    AllFailed(count, Unknown, FromClient(UnexpectedResponse))
  }

  function FromAttempt(count: nat, outcome: AttemptOutcome): Attempt {
    match outcome
    case Confirmed(_) => Unexpected(count)
    case NotConfirmed(kind, failure) => AllFailed(count, kind, failure)
  }

  function RecordResult(stream: string, verdict: Verdict, wire: WireOutcome): Option<RecordOutcome> {
    match (verdict, wire)
    case (VConfirmed, Published(offset)) => Some(RecordConfirmed(stream, offset))
    case (VRejected, RecordError(code, message)) => Some(RecordFailed(Rejected, code, message))
    case (VRetryable, RecordError(code, message)) => Some(RecordFailed(Retryable, code, message))
    case (VUnknown, RecordError(code, message)) => Some(RecordFailed(Unknown, code, message))
    case _ => None
  }

  /** One result per record, or none at all if any pair is inconsistent. */
  function Zip(stream: string, verdicts: seq<Verdict>, wires: seq<WireOutcome>): Option<seq<RecordOutcome>>
    requires |verdicts| == |wires|
  {
    if verdicts == [] then Some([]) else
    match (RecordResult(stream, verdicts[0], wires[0]), Zip(stream, verdicts[1..], wires[1..]))
    case (Some(first), Some(rest)) => Some([first] + rest)
    case _ => None
  }

  function BatchReply(stream: string, count: nat, reply: Reply): Attempt {
    if reply.outcome.Some? then FromAttempt(count, ClassifyReply(reply))
    else if !reply.response.BatchResponse? then Unexpected(count)
    else if reply.response.stream != stream || |reply.items| != count || |reply.response.outcomes| != count then
      Unexpected(count)
    else
      match Zip(stream, reply.items, reply.response.outcomes)
      case Some(outcomes) => Attempt(outcomes, None)
      case None => Unexpected(count)
  }

  // ---------------------------------------------------------------- what is reported

  /** How the result for one record relates to the server's verdict and outcome for it. */
  ghost predicate ReportedAs(stream: string, verdict: Verdict, wire: WireOutcome, o: RecordOutcome) {
    && (verdict == VConfirmed <==> o.RecordConfirmed?)
    && (verdict == VRejected <==> o.RecordFailed? && o.kind == Rejected)
    && (verdict == VRetryable <==> o.RecordFailed? && o.kind == Retryable)
    && (verdict == VUnknown <==> o.RecordFailed? && o.kind == Unknown)
    && (o.RecordConfirmed? ==> o.stream == stream && wire == Published(o.offset))
    && (o.RecordFailed? ==> wire == RecordError(o.code, o.message))
  }

  lemma ResultIsReported(stream: string, verdict: Verdict, wire: WireOutcome)
    ensures RecordResult(stream, verdict, wire).Some? <==> (verdict == VConfirmed <==> wire.Published?)
    ensures RecordResult(stream, verdict, wire).Some? ==>
              ReportedAs(stream, verdict, wire, RecordResult(stream, verdict, wire).value)
  {
  }

  /** Combining verdicts and outcomes succeeds exactly when every record is confirmed if and only if it was
      published, and reports each record by its own verdict and outcome. */
  lemma {:induction false} ZipIsPointwise(stream: string, verdicts: seq<Verdict>, wires: seq<WireOutcome>)
    requires |verdicts| == |wires|
    ensures Zip(stream, verdicts, wires).Some? <==>
            forall i :: 0 <= i < |wires| ==> RecordResult(stream, verdicts[i], wires[i]).Some?
    ensures Zip(stream, verdicts, wires).Some? ==>
              && |Zip(stream, verdicts, wires).value| == |wires|
              && forall i :: 0 <= i < |wires| ==>
                               RecordResult(stream, verdicts[i], wires[i])
                               == Some(Zip(stream, verdicts, wires).value[i])
    ensures Zip(stream, verdicts, wires).Some? <==>
            forall i :: 0 <= i < |wires| ==> (verdicts[i] == VConfirmed <==> wires[i].Published?)
    ensures Zip(stream, verdicts, wires).Some? ==>
              forall i :: 0 <= i < |wires| ==>
                            ReportedAs(stream, verdicts[i], wires[i], Zip(stream, verdicts, wires).value[i])
  {
    forall i | 0 <= i < |wires|
      ensures RecordResult(stream, verdicts[i], wires[i]).Some? <==>
              (verdicts[i] == VConfirmed <==> wires[i].Published?)
    {
      ResultIsReported(stream, verdicts[i], wires[i]);
    }
    if verdicts == [] {
    } else {
      ZipIsPointwise(stream, verdicts[1..], wires[1..]);
      forall i | 0 < i < |wires|
        ensures verdicts[i] == verdicts[1..][i - 1] && wires[i] == wires[1..][i - 1] {
      }
      if Zip(stream, verdicts, wires).None? && RecordResult(stream, verdicts[0], wires[0]).Some? {
        var j :| 0 <= j < |wires[1..]| && RecordResult(stream, verdicts[1..][j], wires[1..][j]).None?;
        assert RecordResult(stream, verdicts[j + 1], wires[j + 1]).None?;
      }
    }
  }

  /** The reply answers the batch record by record and consistently. */
  ghost predicate Answers(stream: string, count: nat, reply: Reply) {
    && reply.outcome.None? && reply.response.BatchResponse?
    && reply.response.stream == stream && |reply.items| == count && |reply.response.outcomes| == count
    && forall i :: 0 <= i < count ==> (reply.items[i] == VConfirmed <==> reply.response.outcomes[i].Published?)
  }

  /** The server settled the whole batch by a verdict other than a clean confirmation. */
  predicate Settled(reply: Reply) {
    && reply.outcome.Some?
    && (reply.outcome == Some(VConfirmed) ==> reply.response.ErrorResponse?)
  }

  /** How the one failure for every record relates to a reply that does not answer the batch: a settled
      batch reports the server's verdict, code and message; any other reply is an unexpected response. */
  ghost predicate FailedAs(reply: Reply, failure: Failure, o: RecordOutcome) {
    && o.RecordFailed?
    && failure == (if Settled(reply) then Broker(reply.response) else FromClient(UnexpectedResponse))
    && (o.kind == Rejected <==> reply.outcome == Some(VRejected))
    && (o.kind == Retryable <==> reply.outcome == Some(VRetryable))
    && (Settled(reply) && reply.response.ErrorResponse? ==> reply.response == ErrorResponse(o.code, o.message))
    && (Settled(reply) && !reply.response.ErrorResponse? ==> o.code == "unexpected_response")
    && (!Settled(reply) ==> o.code == "client_error")
  }

  /** There is always exactly one outcome per record. A consistent reply is reported record by
      record: confirmed exactly where the server published, with its offset, and otherwise with the
      server's verdict, code and message. Any other reply is reported as one failure for every record,
      and confirms nothing. */
  lemma BatchReplyIsFaithful(stream: string, count: nat, reply: Reply)
    ensures var r := BatchReply(stream, count, reply);
            && |r.outcomes| == count
            && (r.failure.None? <==> Answers(stream, count, reply))
            && (r.failure.None? ==>
                  forall i :: 0 <= i < count ==>
                                ReportedAs(stream, reply.items[i], reply.response.outcomes[i], r.outcomes[i]))
            && (r.failure.Some? ==>
                  && (forall i :: 0 <= i < count ==> FailedAs(reply, r.failure.value, r.outcomes[i]))
                  && forall i, j :: 0 <= i < count && 0 <= j < count ==> r.outcomes[i] == r.outcomes[j])
  {
    if reply.outcome.None? && reply.response.BatchResponse? && |reply.items| == count
       && |reply.response.outcomes| == count {
      ZipIsPointwise(stream, reply.items, reply.response.outcomes);
      assert forall i :: 0 <= i < count ==>
                           (RecordResult(stream, reply.items[i], reply.response.outcomes[i]).Some? <==>
                            (reply.items[i] == VConfirmed <==> reply.response.outcomes[i].Published?));
    }
  }

  // ---------------------------------------------------------------- the whole call

  datatype BatchCall = BatchCall(connection: Option<Wire>, attempt: Attempt)

  /** An invalid batch is refused before the connection is used; an unexpected reply discards it. A
      cancelled call reports nothing. */
  function PublishBatch(connection: Option<Wire>, stream: string, count: nat, call: Call,
                        decode: Bytes -> ServerFrame<Reply>): Option<BatchCall>
  {
    if count == 0 || count > MAX_PUBLISH_BATCH_RECORDS then
      Some(BatchCall(connection, AllFailed(count, Rejected, FromClient(InvalidBatch))))
    else
      var r := RequestWithReply(connection, call, decode);
      match r.outcome
      case WasCancelled => None
      case FailedWith(error) =>
        Some(BatchCall(r.connection, AllFailed(count, FromClientError(error), FromClient(error))))
      case Replied(reply) =>
        var attempt := BatchReply(stream, count, reply);
        Some(BatchCall(if attempt.failure == Some(FromClient(UnexpectedResponse)) then None else r.connection, attempt))
  }

  /** A batch of no records, or of more than 1,024, is rejected for every record and leaves the connection
      alone. */
  lemma InvalidBatchIsRejected(connection: Option<Wire>, stream: string, count: nat, call: Call,
                               decode: Bytes -> ServerFrame<Reply>)
    requires count == 0 || count > 1024
    ensures var r := PublishBatch(connection, stream, count, call, decode);
            && r.Some? && r.value.connection == connection
            && r.value.attempt.failure == Some(FromClient(InvalidBatch))
            && |r.value.attempt.outcomes| == count
            && forall i :: 0 <= i < count ==> r.value.attempt.outcomes[i].RecordFailed?
                                              && r.value.attempt.outcomes[i].kind == Rejected
                                              && r.value.attempt.outcomes[i].code == "client_error"
  {
  }

  /** A valid batch that gets no reply fails for every record alike, with the class of the failure. */
  ghost predicate FailedTogether(connection: Option<Wire>, call: Call, attempt: Attempt, count: nat) {
    && |attempt.outcomes| == count && attempt.failure.Some? && attempt.failure.value.FromClient?
    && forall i :: 0 <= i < count ==>
                     && attempt.outcomes[i].RecordFailed? && attempt.outcomes[i].code == "client_error"
                     && (attempt.outcomes[i].kind == Retryable <==> call.encodes && connection.None?)
                     && (Sendable(connection, call) ==>
                           (attempt.outcomes[i].kind == Rejected <==>
                            attempt.failure == Some(FromClient(AuthenticationFailed))))
                     && (call.encodes && connection.Some? && !Sendable(connection, call) ==>
                           attempt.outcomes[i].kind == Rejected)
                     && (!call.encodes ==> attempt.outcomes[i].kind == Rejected)
  }

  lemma FailedBatchIsClassified(connection: Option<Wire>, stream: string, count: nat, call: Call,
                                decode: Bytes -> ServerFrame<Reply>)
    requires Ready(connection) && 0 < count <= 1024
    requires RequestWithReply(connection, call, decode).outcome.FailedWith?
    ensures var r := PublishBatch(connection, stream, count, call, decode);
            r.Some? && FailedTogether(connection, call, r.value.attempt, count)
  {
    FailureClassIsSound(connection, call, decode);
  }

  /** After a reply to a valid batch the connection is kept exactly when the reply answers the batch or
      settles it as a whole. */
  lemma ConnectionIsKeptExactlyWhen(connection: Option<Wire>, stream: string, count: nat, call: Call,
                                    decode: Bytes -> ServerFrame<Reply>)
    requires Ready(connection) && 0 < count <= 1024 && RequestWithReply(connection, call, decode).outcome.Replied?
    ensures var r := RequestWithReply(connection, call, decode);
            var after := PublishBatch(connection, stream, count, call, decode);
            && after.Some? && r.used.Some?
            && after.value.connection ==
               if Answers(stream, count, r.outcome.reply) || Settled(r.outcome.reply) then r.used else None
  {
    RequestKeepsPairing(connection, call, decode);
    BatchReplyIsFaithful(stream, count, RequestWithReply(connection, call, decode).outcome.reply);
    var attempt := BatchReply(stream, count, RequestWithReply(connection, call, decode).outcome.reply);
    if attempt.failure.Some? {
      assert FailedAs(RequestWithReply(connection, call, decode).outcome.reply, attempt.failure.value,
                      attempt.outcomes[0]);
    }
  }

  /** A confirmed record was published according to the frame paired with this very request. */
  lemma ConfirmedRecordsWerePublished(connection: Option<Wire>, stream: string, count: nat, call: Call,
                                      decode: Bytes -> ServerFrame<Reply>, i: nat)
    requires Ready(connection) && PublishBatch(connection, stream, count, call, decode).Some?
    requires i < count && i < |PublishBatch(connection, stream, count, call, decode).value.attempt.outcomes|
    requires PublishBatch(connection, stream, count, call, decode).value.attempt.outcomes[i].RecordConfirmed?
    ensures var r := RequestWithReply(connection, call, decode);
            && r.outcome.Replied? && r.used.Some? && Paired(r.used.value, call.tag, r.outcome.reply, decode)
            && Answers(stream, count, r.outcome.reply)
            && r.outcome.reply.response.outcomes[i] ==
               Published(PublishBatch(connection, stream, count, call, decode).value.attempt.outcomes[i].offset)
  {
    RequestKeepsPairing(connection, call, decode);
    var r := RequestWithReply(connection, call, decode);
    if r.outcome.Replied? {
      BatchReplyIsFaithful(stream, count, r.outcome.reply);
    }
  }

  /** After any publish batch the connection is still fit for use, or gone. */
  lemma PublishBatchKeepsReady(connection: Option<Wire>, stream: string, count: nat, call: Call,
                               decode: Bytes -> ServerFrame<Reply>)
    requires Ready(connection)
    ensures var r := PublishBatch(connection, stream, count, call, decode);
            r.Some? ==> Ready(r.value.connection) && |r.value.attempt.outcomes| == count
  {
    RequestKeepsPairing(connection, call, decode);
    var r := RequestWithReply(connection, call, decode);
    if r.outcome.Replied? {
      BatchReplyIsFaithful(stream, count, r.outcome.reply);
    }
  }
}
