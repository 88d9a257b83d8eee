/**
 The sequential client connection (crates/runnel-client/src/lib.rs): a request takes the connection,
 writes one frame, reads one frame and puts the connection back only if a reply was decoded.

 `Wire.inbound` is everything the server ever sends on a connection after negotiation, so the frame a
 reply came from is a position in it. Timeouts, I/O errors and cancellation are inputs.
 */
module ClientConnection {
  import opened Prelude

  type Bytes = seq<Byte>

  datatype ClientError =
    | ConnectTimeout | Connect | InvalidSecurityConfiguration | CredentialFile | TlsHandshake
    | InvalidTrustRoots | InvalidServerName | HandshakeRefused | InvalidHello | AuthenticationRequired
    | AuthenticationFailed | SecurityMismatch | Protocol | RequestTooLarge | ConnectionUnavailable
    | RequestEncoding | InvalidBatch | WriteTimeout | Write | ResponseTimeout | ResponseTooLarge
    | InvalidResponseLimit | ReadFailed | Eof | InvalidResponse | UnexpectedResponse

  datatype ServerFrame<R> = Application(reply: R) | AuthFailed | Authenticated | Undecodable

  /** A connection: what the server sends, the requests written completely, the bytes of a request
      written in part, and how much of the server's output has been read. */
  datatype Wire = Wire(inbound: Bytes, sent: seq<nat>, torn: nat, consumed: nat, maxRequest: nat, maxResponse: nat)

  // ---------------------------------------------------------------- frames

  function BigEndian32(b: Bytes): nat
    requires |b| == 4
  {
    0x100_0000 * (b[0] as int) + 0x1_0000 * (b[1] as int) + 0x100 * (b[2] as int) + b[3] as int
  }

  /** The body of the frame that starts at pos, if all of it is there. */
  function FrameBody(inbound: Bytes, pos: nat): Option<Bytes> {
    if pos + 4 > |inbound| then None else
    var size := BigEndian32(inbound[pos..pos + 4]);
    if pos + 4 + size > |inbound| then None else Some(inbound[pos + 4..pos + 4 + size])
  }

  /** Where frame n starts. */
  function FrameStart(inbound: Bytes, n: nat): Option<nat> {
    if n == 0 then Some(0) else
    match FrameStart(inbound, n - 1)
    case None => None
    case Some(pos) =>
      match FrameBody(inbound, pos)
      case None => None
      case Some(body) => Some(pos + 4 + |body|)
  }

  /** The n-th frame the server sends. */
  function Frame(inbound: Bytes, n: nat): Option<Bytes> {
    match FrameStart(inbound, n)
    case None => None
    case Some(pos) => FrameBody(inbound, pos)
  }

  // ---------------------------------------------------------------- one request

  datatype Stop = TimedOut | Failed | Cancelled

  /** What the network does to a request: it stops after some bytes, or lets it complete. */
  datatype Io = WriteStops(written: nat, how: Stop) | ReadStops(read: nat, how: Stop) | Completes

  datatype Call = Call(tag: nat, encodes: bool, bodyBytes: nat, io: Io)

  datatype Outcome<R> = Replied(reply: R) | FailedWith(error: ClientError) | WasCancelled

  /** The connection after a call, the wire the call used as it left it, and how many bytes of the
      request it may have written. */
  datatype Called<R> = Called(connection: Option<Wire>, outcome: Outcome<R>, used: Option<Wire>, wrote: nat)

  /** Reads one frame: a length, which must be positive and within the limit, then the body. */
  datatype FrameRead = GotFrame(wire: Wire, body: Bytes) | BadLength(wire: Wire) | EndOfStream(wire: Wire)

  function ReadFrame(w: Wire): FrameRead {
    if w.consumed + 4 > |w.inbound| then EndOfStream(w.(consumed := Max(w.consumed, |w.inbound|))) else
    var size := BigEndian32(w.inbound[w.consumed..w.consumed + 4]);
    if size == 0 || size > w.maxResponse then BadLength(w.(consumed := w.consumed + 4))
    else if w.consumed + 4 + size > |w.inbound| then EndOfStream(w.(consumed := |w.inbound|))
    else GotFrame(w.(consumed := w.consumed + 4 + size), w.inbound[w.consumed + 4..w.consumed + 4 + size])
  }

  function Stopped<R>(how: Stop, timeout: ClientError, failure: ClientError): Outcome<R> {
    match how
    case TimedOut => FailedWith(timeout)
    case Failed => FailedWith(failure)
    case Cancelled => WasCancelled
  }

  /** The exchange on a connection that has been taken. */
  function Exchange<R>(w: Wire, call: Call, decode: Bytes -> ServerFrame<R>): Called<R> {
    var size := call.bodyBytes + 4;
    match call.io
    case WriteStops(n, how) =>
      Called(None, Stopped(how, WriteTimeout, Write), Some(w.(torn := n)), n)
    case ReadStops(n, how) =>
      Called(None, Stopped(how, ResponseTimeout, ReadFailed),
             Some(w.(sent := w.sent + [call.tag], consumed := w.consumed + n)), size)
    case Completes =>
      var written := w.(sent := w.sent + [call.tag]);
      match ReadFrame(written)
      case EndOfStream(after) => Called(None, FailedWith(Eof), Some(after), size)
      case BadLength(after) => Called(None, FailedWith(ResponseTooLarge), Some(after), size)
      case GotFrame(after, body) =>
        match decode(body)
        case Application(reply) => Called(Some(after), Replied(reply), Some(after), size)
        case AuthFailed => Called(None, FailedWith(AuthenticationFailed), Some(after), size)
        case Authenticated => Called(None, FailedWith(Protocol), Some(after), size)
        case Undecodable => Called(None, FailedWith(InvalidResponse), Some(after), size)
  }

  /** A request on a client: local checks first, then the connection is taken. */
  function RequestWithReply<R>(connection: Option<Wire>, call: Call, decode: Bytes -> ServerFrame<R>): Called<R> {
    if !call.encodes then Called(connection, FailedWith(RequestEncoding), None, 0)
    else if connection.None? then Called(None, FailedWith(ConnectionUnavailable), None, 0)
    else if call.bodyBytes > connection.value.maxRequest then Called(connection, FailedWith(RequestTooLarge), None, 0)
    else Exchange(connection.value, call, decode)
  }

  // ---------------------------------------------------------------- pairing

  /** A connection at rest: every request was written completely and had exactly one frame read. */
  ghost predicate Synced(w: Wire) {
    w.torn == 0 && FrameStart(w.inbound, |w.sent|) == Some(w.consumed)
  }

  ghost predicate Ready(connection: Option<Wire>) {
    connection.Some? ==> Synced(connection.value)
  }

  /** The reply to a request is the frame with the request's own position on the connection. */
  ghost predicate Paired<R>(w: Wire, tag: nat, reply: R, decode: Bytes -> ServerFrame<R>) {
    var i := |w.sent| - 1;
    && w.sent != [] && w.sent[i] == tag
    && Frame(w.inbound, i).Some?
    && decode(Frame(w.inbound, i).value) == Application(reply)
  }

  // ---------------------------------------------------------------- what a call comes to

  /** The request may be written: it encodes, there is a connection, and the connection takes its size. */
  predicate Sendable(connection: Option<Wire>, call: Call) {
    call.encodes && connection.Some? && call.bodyBytes <= connection.value.maxRequest
  }

  /** The length of the server's next frame, if all four bytes of it arrive. */
  function NextLength(w: Wire): Option<nat> {
    match FrameStart(w.inbound, |w.sent|)
    case None => None
    case Some(pos) => if pos + 4 > |w.inbound| then None else Some(BigEndian32(w.inbound[pos..pos + 4]))
  }

  /** The frame that answers the next request: the one with the request's position, of an accepted size. */
  function Answer(w: Wire): Option<Bytes> {
    match Frame(w.inbound, |w.sent|)
    case Some(body) => if 0 < |body| <= w.maxResponse then Some(body) else None
    case None => None
  }

  /** What a completed exchange comes to. */
  ghost predicate Answered<R>(w: Wire, decode: Bytes -> ServerFrame<R>, o: Outcome<R>) {
    match Answer(w)
    case Some(body) =>
      (match decode(body)
       case Application(reply) => o == Replied(reply)
       case AuthFailed => o == FailedWith(AuthenticationFailed)
       case Authenticated => o == FailedWith(Protocol)
       case Undecodable => o == FailedWith(InvalidResponse))
    case None =>
      if NextLength(w).None? || 0 < NextLength(w).value <= w.maxResponse then o == FailedWith(Eof)
      else o == FailedWith(ResponseTooLarge)
  }

  /** What a call comes to, in terms of the request, the network and the bytes the server sends. */
  ghost predicate ComesTo<R>(connection: Option<Wire>, call: Call, decode: Bytes -> ServerFrame<R>, o: Outcome<R>) {
    if !call.encodes then o == FailedWith(RequestEncoding)
    else if connection.None? then o == FailedWith(ConnectionUnavailable)
    else if !Sendable(connection, call) then o == FailedWith(RequestTooLarge)
    else
      match call.io
      case WriteStops(_, TimedOut) => o == FailedWith(WriteTimeout)
      case WriteStops(_, Failed) => o == FailedWith(Write)
      case ReadStops(_, TimedOut) => o == FailedWith(ResponseTimeout)
      case ReadStops(_, Failed) => o == FailedWith(ReadFailed)
      case Completes => Answered(connection.value, decode, o)
      case _ => o == WasCancelled
  }

  lemma ExchangeIsAnswered<R>(w: Wire, call: Call, decode: Bytes -> ServerFrame<R>)
    requires Synced(w) && call.io.Completes?
    ensures Answered(w, decode, Exchange(w, call, decode).outcome)
  {
    var written := w.(sent := w.sent + [call.tag]);
    assert FrameStart(w.inbound, |w.sent|) == Some(w.consumed);
    assert ReadFrame(written).GotFrame? <==> Answer(w).Some?;
    assert ReadFrame(written).GotFrame? ==> Answer(w) == Some(ReadFrame(written).body);
  }

  /** The outcome of a call on a connection at rest is determined by the request, the network and the
      frame with the request's own position. The connection is used exactly for a sendable request, and is
      then available again exactly after a reply. */
  lemma OutcomeIsDetermined<R>(connection: Option<Wire>, call: Call, decode: Bytes -> ServerFrame<R>)
    requires Ready(connection)
    ensures ComesTo(connection, call, decode, RequestWithReply(connection, call, decode).outcome)
    ensures var r := RequestWithReply(connection, call, decode);
            && (r.used.Some? <==> Sendable(connection, call))
            && r.connection == (if !Sendable(connection, call) then connection
                                else if r.outcome.Replied? then r.used else None)
  {
    if Sendable(connection, call) && call.io.Completes? {
      ExchangeIsAnswered(connection.value, call, decode);
    }
  }

  lemma ReadFrameIsNext(w: Wire, tag: nat)
    requires Synced(w)
    requires ReadFrame(w.(sent := w.sent + [tag])).GotFrame?
    ensures var r := ReadFrame(w.(sent := w.sent + [tag]));
            Synced(r.wire) && Frame(w.inbound, |w.sent|) == Some(r.body)
  {
    var r := ReadFrame(w.(sent := w.sent + [tag]));
    assert FrameBody(w.inbound, w.consumed) == Some(r.body);
  }

  /** A request keeps the connection ready, and a reply belongs to the request. */
  lemma RequestKeepsPairing<R>(connection: Option<Wire>, call: Call, decode: Bytes -> ServerFrame<R>)
    requires Ready(connection)
    ensures var r := RequestWithReply(connection, call, decode);
            && Ready(r.connection)
            && (r.outcome.Replied? ==> r.used.Some? && r.connection == r.used
                                       && Paired(r.used.value, call.tag, r.outcome.reply, decode))
  {
    if connection.Some? && call.encodes && call.bodyBytes <= connection.value.maxRequest && call.io.Completes? {
      var w := connection.value;
      if ReadFrame(w.(sent := w.sent + [call.tag])).GotFrame? {
        ReadFrameIsNext(w, call.tag);
      }
    }
  }

  // ---------------------------------------------------------------- classification

  datatype Class = Rejected | Retryable | Unknown

  function FromClientError(error: ClientError): Class {
    match error
    case ConnectTimeout | Connect | ConnectionUnavailable => Retryable
    case RequestEncoding | InvalidBatch | InvalidResponseLimit | InvalidSecurityConfiguration | CredentialFile
      | InvalidTrustRoots | InvalidServerName | HandshakeRefused | InvalidHello | AuthenticationRequired
      | AuthenticationFailed | SecurityMismatch | RequestTooLarge => Rejected
    case _ => Unknown
  }

  /** The frame at the request's own position says that authentication failed. */
  ghost predicate AnsweredAuthFailed<R>(r: Called<R>, decode: Bytes -> ServerFrame<R>) {
    && r.used.Some? && r.used.value.sent != []
    && var frame := Frame(r.used.value.inbound, |r.used.value.sent| - 1);
    frame.Some? && decode(frame.value).AuthFailed?
  }

  lemma AuthFailureWasAnswered<R>(w: Wire, call: Call, decode: Bytes -> ServerFrame<R>)
    requires Synced(w) && Exchange(w, call, decode).outcome == FailedWith(AuthenticationFailed)
    ensures AnsweredAuthFailed(Exchange(w, call, decode), decode)
  {
    ReadFrameIsNext(w, call.tag);
  }

  /** The class of a failure, in terms of the request, the connection and the server's answer: retryable
      exactly when there was no connection for a request that encodes, rejected exactly when the request
      does not encode, exceeds the connection's limit or was answered with an authentication failure. */
  ghost predicate ClassifiedSoundly<R>(connection: Option<Wire>, call: Call, r: Called<R>,
                                       decode: Bytes -> ServerFrame<R>)
    requires r.outcome.FailedWith?
  {
    var kind := FromClientError(r.outcome.error);
    && (kind == Retryable <==> call.encodes && connection.None?)
    && (kind == Rejected <==>
        || !call.encodes
        || (connection.Some? && call.bodyBytes > connection.value.maxRequest)
        || (call.io.Completes? && Sendable(connection, call) && Answer(connection.value).Some?
            && decode(Answer(connection.value).value).AuthFailed?))
    && (r.used.Some? <==> Sendable(connection, call))
    && (kind == Retryable ==> r.wrote == 0 && r.used.None?)
    && (kind == Rejected ==> (r.wrote == 0 && r.used.None?) || AnsweredAuthFailed(r, decode))
    && (kind == Unknown <==> r.used.Some? && r.outcome.error != AuthenticationFailed)
  }

  /** Every failure is classified by what happened to the request: a retryable one wrote nothing, a
      rejected one wrote nothing or was answered with an authentication failure, and one is unknown exactly
      when the connection had been taken and the error is not that answer. */
  lemma FailureClassIsSound<R>(connection: Option<Wire>, call: Call, decode: Bytes -> ServerFrame<R>)
    requires Ready(connection)
    requires RequestWithReply(connection, call, decode).outcome.FailedWith?
    ensures ClassifiedSoundly(connection, call, RequestWithReply(connection, call, decode), decode)
  {
    OutcomeIsDetermined(connection, call, decode);
    var r := RequestWithReply(connection, call, decode);
    if r.used.Some? && r.outcome.error == AuthenticationFailed {
      AuthFailureWasAnswered(connection.value, call, decode);
    }
  }

  // ---------------------------------------------------------------- whole runs

  datatype Op =
    | Request(call: Call, unexpected: bool)  // unexpected: the typed layer refuses the reply's shape
    | Reconnect(renewed: Option<Wire>)         // None: the attempt failed or was cancelled

  function Perform<R>(connection: Option<Wire>, op: Op, decode: Bytes -> ServerFrame<R>): Option<Wire> {
    match op
    case Request(call, unexpected) =>
      var r := RequestWithReply(connection, call, decode);
      if unexpected && r.outcome.Replied? then None else r.connection
    case Reconnect(renewed) => if renewed.Some? then renewed else connection
  }

  /** A new connection starts with nothing written and nothing read. */
  ghost predicate Allowed(op: Op) {
    op.Reconnect? && op.renewed.Some? ==> op.renewed.value.sent == [] && op.renewed.value.torn == 0
                                          && op.renewed.value.consumed == 0
  }

  function PerformAll<R>(connection: Option<Wire>, ops: seq<Op>, decode: Bytes -> ServerFrame<R>): Option<Wire> {
    if ops == [] then connection else Perform(PerformAll(connection, ops[..|ops| - 1], decode), ops[|ops| - 1], decode)
  }

  lemma {:induction false} RunStaysReady<R>(ops: seq<Op>, decode: Bytes -> ServerFrame<R>)
    requires forall op :: op in ops ==> Allowed(op)
    ensures Ready(PerformAll(None, ops, decode))
  {
    if ops == [] {
    } else {
      var before, op := PerformAll(None, ops[..|ops| - 1], decode), ops[|ops| - 1];
      RunStaysReady(ops[..|ops| - 1], decode);
      assert op in ops;
      if op.Request? {
        RequestKeepsPairing(before, op.call, decode);
      }
    }
  }

  /** Over any run of requests, failures, cancellations, refused replies and reconnects: the reply to
      every request is the response frame with that request's position on its connection. */
  lemma RepliesAreNeverMisattributed<R>(ops: seq<Op>, i: nat, decode: Bytes -> ServerFrame<R>)
    requires forall op :: op in ops ==> Allowed(op)
    requires i < |ops| && ops[i].Request?
    ensures var r := RequestWithReply(PerformAll(None, ops[..i], decode), ops[i].call, decode);
            r.outcome.Replied? ==> r.used.Some? && Paired(r.used.value, ops[i].call.tag, r.outcome.reply, decode)
  {
    RunStaysReady(ops[..i], decode);
    RequestKeepsPairing(PerformAll(None, ops[..i], decode), ops[i].call, decode);
  }

  /** Over the same runs: the class of every failure says what may have happened to that request. */
  lemma FailuresAreNeverMisclassified<R>(ops: seq<Op>, i: nat, decode: Bytes -> ServerFrame<R>)
    requires forall op :: op in ops ==> Allowed(op)
    requires i < |ops| && ops[i].Request?
    ensures var before := PerformAll(None, ops[..i], decode);
            var r := RequestWithReply(before, ops[i].call, decode);
            r.outcome.FailedWith? ==> ClassifiedSoundly(before, ops[i].call, r, decode)
  {
    RunStaysReady(ops[..i], decode);
    var before := PerformAll(None, ops[..i], decode);
    if RequestWithReply(before, ops[i].call, decode).outcome.FailedWith? {
      FailureClassIsSound(before, ops[i].call, decode);
    }
  }

  // ---------------------------------------------------------------- the client object

  class Client<R> {
    var connection: Option<Wire>

    constructor (wire: Wire)
      ensures connection == Some(wire)
    {
      connection := Some(wire);
    }

    /** Takes the connection, uses it, and puts it back only after a reply. */
    method Request(call: Call, decode: Bytes -> ServerFrame<R>) returns (outcome: Outcome<R>)
      modifies this
      ensures var r := RequestWithReply(old(connection), call, decode);
              connection == r.connection && outcome == r.outcome
    {
      if !call.encodes {
        return FailedWith(RequestEncoding);
      }
      if connection.None? {
        return FailedWith(ConnectionUnavailable);
      }
      if call.bodyBytes > connection.value.maxRequest {
        return FailedWith(RequestTooLarge);
      }
      var wire := connection.value;
      connection := None;
      if call.io.WriteStops? {
        return Stopped(call.io.how, WriteTimeout, Write);
      }
      wire := wire.(sent := wire.sent + [call.tag]);
      if call.io.ReadStops? {
        return Stopped(call.io.how, ResponseTimeout, ReadFailed);
      }
      var read := ReadFrame(wire);
      if read.EndOfStream? {
        return FailedWith(Eof);
      }
      if read.BadLength? {
        return FailedWith(ResponseTooLarge);
      }
      var frame := decode(read.body);
      match frame {
        case Application(reply) =>
          connection := Some(read.wire);
          return Replied(reply);
        case AuthFailed => return FailedWith(AuthenticationFailed);
        case Authenticated => return FailedWith(Protocol);
        case Undecodable => return FailedWith(InvalidResponse);
      }
    }

    method Renew(renewed: Option<Wire>, decode: Bytes -> ServerFrame<R>)
      modifies this
      ensures connection == Perform(old(connection), Reconnect(renewed), decode)
      ensures connection == if renewed.Some? then renewed else old(connection)
    {
      if renewed.Some? {
        connection := renewed;
      }
    }
  }
}
