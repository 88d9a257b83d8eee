/** Application requests of the workflow client (scripts/benchmarks/v2_client.py). `EncodeRequest` is the
    client's encoder; `Recover` reads a request back with the client's own field parser and lookups.
    Text is taken as its UTF-8 bytes. */
module WorkflowRequests {
  import opened Prelude
  import opened Varint
  import opened ProtoFields

  const MAX_PUBLISH_BATCH_RECORDS: nat := 1024

  datatype Record = Record(key: Option<Bytes>, payload: Option<Bytes>, requestId: Option<Bytes>)

  /** A request as the caller passes it; an absent entry is None. */
  datatype Request =
    | CreateStream(stream: Option<Bytes>)
    | Publish(stream: Option<Bytes>, key: Option<Bytes>, payload: Option<Bytes>, requestId: Option<Bytes>)
    | PublishBatch(stream: Option<Bytes>, records: seq<Record>)
    | Poll(stream: Option<Bytes>, consumer: Option<Bytes>)
    | Replay(stream: Option<Bytes>, consumer: Option<Bytes>, offset: Option<int>)
    | PollGroup(stream: Option<Bytes>, consumer: Option<Bytes>, member: Option<Bytes>)
    | Ack(stream: Option<Bytes>, consumer: Option<Bytes>, offset: Option<int>)
    | AckGroup(stream: Option<Bytes>, consumer: Option<Bytes>, member: Option<Bytes>, offset: Option<int>,
               token: Option<Bytes>)
    | OtherOperation

  function Number(r: Request): nat {
    match r
    case CreateStream(_) => 1
    case Publish(_, _, _, _) => 2
    case PublishBatch(_, _) => 3
    case Poll(_, _) => 4
    case Replay(_, _, _) => 6
    case PollGroup(_, _, _) => 7
    case Ack(_, _, _) => 11
    case AckGroup(_, _, _, _, _) => 13
    case OtherOperation => 0
  }

  // ---------------------------------------------------------------- messages

  /** One call of a field writer. */
  datatype Part =
    | Text(number: nat, text: Bytes)
    | Maybe(number: nat, maybe: Option<Bytes>)
    | Payload(number: nat, payload: Bytes)
    | Uint(number: nat, value: nat)

  function PartBytes(p: Part): Bytes {
    match p
    case Text(n, text) => TextField(n, text)
    case Maybe(n, maybe) => OptionalField(n, maybe)
    case Payload(n, payload) => BytesField(n, payload)
    case Uint(n, value) => VarintField(n, value)
  }

  /** The writers refuse integers and lengths above 64 bits. */
  predicate Fits(p: Part) {
    match p
    case Text(_, text) => |text| <= U64_MAX
    case Maybe(_, maybe) => maybe.Some? ==> |maybe.value| <= U64_MAX
    case Payload(_, payload) => |payload| <= U64_MAX
    case Uint(_, value) => value <= U64_MAX
  }

  function Joined(parts: seq<Part>): Bytes {
    if parts == [] then [] else PartBytes(parts[0]) + Joined(parts[1..])
  }

  function Message(parts: seq<Part>): Result<Bytes, ProtocolError> {
    if exists p :: p in parts && !Fits(p) then Err(OutOfRange) else Ok(Joined(parts))
  }

  // ---------------------------------------------------------------- the encoder

  predicate ValidOffset(offset: Option<int>) {
    offset.Some? && 0 <= offset.value <= U64_MAX
  }

  function RecordParts(r: Record): seq<Part>
    requires r.payload.Some?
  {
    [Maybe(1, r.key), Payload(2, r.payload.value), Maybe(3, r.requestId)]
  }

  function RecordBytes(r: Record): Result<Bytes, ProtocolError> {
    if r.payload.None? then Err(InvalidPayload) else Message(RecordParts(r))
  }

  /** Applies a fallible step to every element in order, stopping at the first error. */
  function Each<A, B>(f: A -> Result<B, ProtocolError>, xs: seq<A>): Result<seq<B>, ProtocolError> {
    if xs == [] then Ok([]) else
    match f(xs[0])
    case Err(error) => Err(error)
    case Ok(y) =>
      match Each(f, xs[1..])
      case Err(error) => Err(error)
      case Ok(ys) => Ok([y] + ys)
  }

  function ItemParts(items: seq<Bytes>): seq<Part> {
    seq(|items|, i requires 0 <= i < |items| => Payload(2, items[i]))
  }

  function OffsetParts(stream: Option<Bytes>, consumer: Option<Bytes>, offset: Option<int>): Result<seq<Part>,
    ProtocolError> {
    if !ValidOffset(offset) then Err(OutOfRange)
    else if stream.None? || consumer.None? then Err(MissingText)
    else Ok([Text(1, stream.value), Text(2, consumer.value), Uint(3, offset.value)])
  }

  /** The field writers an operation calls, in order; the first failing check decides the error. */
  function Parts(r: Request): Result<seq<Part>, ProtocolError> {
    match r
    case CreateStream(stream) =>
      if stream.None? then Err(MissingText) else Ok([Text(1, stream.value)])
    case Publish(stream, key, payload, requestId) =>
      if payload.None? then Err(InvalidPayload)
      else if stream.None? then Err(MissingText)
      else Ok([Text(1, stream.value), Maybe(2, key), Payload(3, payload.value), Maybe(4, requestId)])
    case PublishBatch(stream, records) =>
      if !(1 <= |records| <= MAX_PUBLISH_BATCH_RECORDS) then Err(InvalidBatch)
      else if stream.None? then Err(MissingText)
      else
        (match Each(RecordBytes, records)
         case Err(error) => Err(error)
         case Ok(items) => Ok([Text(1, stream.value)] + ItemParts(items)))
    case Poll(stream, consumer) =>
      if stream.None? || consumer.None? then Err(MissingText)
      else Ok([Text(1, stream.value), Text(2, consumer.value)])
    case Replay(stream, consumer, offset) => OffsetParts(stream, consumer, offset)
    case PollGroup(stream, consumer, member) =>
      if stream.None? || consumer.None? || member.None? then Err(MissingText)
      else Ok([Text(1, stream.value), Text(2, consumer.value), Text(3, member.value)])
    case Ack(stream, consumer, offset) => OffsetParts(stream, consumer, offset)
    case AckGroup(stream, consumer, member, offset, token) =>
      if !ValidOffset(offset) then Err(OutOfRange)
      else if stream.None? || consumer.None? || member.None? || token.None? then Err(MissingText)
      else Ok([Text(1, stream.value), Text(2, consumer.value), Text(3, member.value),
               Uint(4, offset.value), Text(5, token.value)])
    case OtherOperation => Err(UnsupportedOperation)
  }

  function Wrap(number: nat, r: Result<Bytes, ProtocolError>): Result<Bytes, ProtocolError> {
    match r
    case Err(error) => Err(error)
    case Ok(b) => if |b| > U64_MAX then Err(OutOfRange) else Ok(BytesField(number, b))
  }

  function EncodeRequest(r: Request): Result<Bytes, ProtocolError> {
    match Parts(r)
    case Err(error) => Err(error)
    case Ok(parts) => Wrap(2, Wrap(Number(r), Message(parts)))
  }

  // ---------------------------------------------------------------- reading it back

  function TextOf(fields: seq<Field>, number: nat): Result<Option<Bytes>, ProtocolError> {
    match One(fields, number, 2)
    case Ok(None) => Ok(None)
    case Ok(Some(Raw(b))) => Ok(Some(b))
    case _ => Err(InvalidOrDuplicateField)
  }

  /** A required text defaults to the empty string. */
  function TextOrEmpty(fields: seq<Field>, number: nat): Option<Bytes> {
    match TextOf(fields, number)
    case Ok(None) => Some([])
    case Ok(text) => text
    case Err(_) => None
  }

  function UintOrZero(fields: seq<Field>, number: nat): Option<int> {
    match One(fields, number, 0)
    case Ok(None) => Some(0)
    case Ok(Some(Int(n))) => Some(n)
    case _ => None
  }

  function RecoverRecord(item: Value): Result<Record, ProtocolError> {
    if item.Int? then Err(InvalidOrDuplicateField) else
    match Parse(item.bytes)
    case Err(error) => Err(error)
    case Ok(fields) =>
      match (TextOf(fields, 1), TextOf(fields, 2), TextOf(fields, 3))
      case (Ok(key), Ok(payload), Ok(requestId)) => Ok(Record(key, payload, requestId))
      case _ => Err(InvalidOrDuplicateField)
  }

  function RecoverBody(number: nat, f: seq<Field>): Result<Request, ProtocolError> {
    if number == 1 then Ok(CreateStream(TextOrEmpty(f, 1)))
    else if number == 2 then
      match (TextOf(f, 2), TextOf(f, 3), TextOf(f, 4))
      case (Ok(key), Ok(payload), Ok(requestId)) => Ok(Publish(TextOrEmpty(f, 1), key, payload, requestId))
      case _ => Err(InvalidOrDuplicateField)
    else if number == 3 then
      match Repeated(f, 2, 2)
      case Err(error) => Err(error)
      case Ok(items) =>
        match Each(RecoverRecord, items)
        case Err(error) => Err(error)
        case Ok(records) => Ok(PublishBatch(TextOrEmpty(f, 1), records))
    else if number == 4 then Ok(Poll(TextOrEmpty(f, 1), TextOrEmpty(f, 2)))
    else if number == 6 then Ok(Replay(TextOrEmpty(f, 1), TextOrEmpty(f, 2), UintOrZero(f, 3)))
    else if number == 7 then Ok(PollGroup(TextOrEmpty(f, 1), TextOrEmpty(f, 2), TextOrEmpty(f, 3)))
    else if number == 11 then Ok(Ack(TextOrEmpty(f, 1), TextOrEmpty(f, 2), UintOrZero(f, 3)))
    else if number == 13 then
      Ok(AckGroup(TextOrEmpty(f, 1), TextOrEmpty(f, 2), TextOrEmpty(f, 3), UintOrZero(f, 4), TextOrEmpty(f, 5)))
    else Err(UnsupportedOperation)
  }

  /** The frame holds one application request, which holds one operation. */
  function Recover(b: Bytes): Result<Request, ProtocolError> {
    match Parse(b)
    case Err(error) => Err(error)
    case Ok(frame) =>
      match TextOf(frame, 2)
      case Ok(Some(application)) =>
        (match Parse(application)
         case Err(error) => Err(error)
         case Ok(operation) =>
           if |operation| != 1 || operation[0].wire != 2 || !operation[0].value.Raw? then
             Err(InvalidOrDuplicateField) else
             match Parse(operation[0].value.bytes)
             case Err(error) => Err(error)
             case Ok(fields) => RecoverBody(operation[0].number, fields))
      case _ => Err(MissingField)
  }
}
