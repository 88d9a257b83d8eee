/** Which requests the workflow client can encode, how long the encoding is, and which error any other
    request gets (scripts/benchmarks/v2_client.py), all in terms of the request's own fields. */
module RequestAcceptance {
  import opened Prelude
  import opened Varint
  import opened ProtoFields
  import opened WorkflowRequests
  import opened RequestRoundTrip

  // ---------------------------------------------------------------- lengths

  /** How many groups of seven bits a value needs. */
  function Groups(value: nat): nat {
    if value < 0x80 then 1 else 1 + Groups(value / 0x80)
  }

  /** A field with content of n bytes: a key of one byte, the length, the content. */
  function FieldLength(n: nat): nat {
    1 + Groups(n) + n
  }

  function TextLength(text: Option<Bytes>): nat {
    if text.None? || text.value == [] then 0 else FieldLength(|text.value|)
  }

  function OptionalLength(text: Option<Bytes>): nat {
    if text.None? then 0 else FieldLength(|text.value|)
  }

  function UintLength(value: Option<int>): nat {
    if value.None? || value.value <= 0 then 0 else 1 + Groups(value.value)
  }

  function Sum(lengths: seq<nat>): nat {
    if lengths == [] then 0 else lengths[0] + Sum(lengths[1..])
  }

  function RecordLength(r: Record): nat {
    Sum([OptionalLength(r.key), OptionalLength(r.payload), OptionalLength(r.requestId)])
  }

  /** The lengths of the fields of an operation, in order. */
  function Lengths(r: Request): seq<nat> {
    match r
    case CreateStream(stream) => [TextLength(stream)]
    case Publish(stream, key, payload, id) =>
      [TextLength(stream), OptionalLength(key), OptionalLength(payload), OptionalLength(id)]
    case PublishBatch(stream, records) =>
      [TextLength(stream)] + seq(|records|, i requires 0 <= i < |records| => FieldLength(RecordLength(records[i])))
    case Poll(stream, consumer) => [TextLength(stream), TextLength(consumer)]
    case Replay(stream, consumer, offset) => [TextLength(stream), TextLength(consumer), UintLength(offset)]
    case PollGroup(stream, consumer, member) => [TextLength(stream), TextLength(consumer), TextLength(member)]
    case Ack(stream, consumer, offset) => [TextLength(stream), TextLength(consumer), UintLength(offset)]
    case AckGroup(stream, consumer, member, offset, token) =>
      [TextLength(stream), TextLength(consumer), TextLength(member), UintLength(offset), TextLength(token)]
    case OtherOperation => []
  }

  /** The length of the application request: the operation as one field. */
  function ApplicationLength(r: Request): nat {
    FieldLength(Sum(Lengths(r)))
  }

  // ---------------------------------------------------------------- refusals

  predicate OffsetOutside(r: Request) {
    && (r.Replay? || r.Ack? || r.AckGroup?)
    && (r.offset.None? || r.offset.value < 0 || r.offset.value >= 0x1_0000_0000_0000_0000)
  }

  predicate PayloadMissing(r: Request) {
    r.Publish? && r.payload.None?
  }

  predicate BatchSizeWrong(r: Request) {
    r.PublishBatch? && (|r.records| < 1 || |r.records| > 1024)
  }

  predicate TextMissing(r: Request) {
    match r
    case CreateStream(stream) => stream.None?
    case Publish(stream, _, _, _) => stream.None?
    case PublishBatch(stream, _) => stream.None?
    case Poll(stream, consumer) => stream.None? || consumer.None?
    case Replay(stream, consumer, _) => stream.None? || consumer.None?
    case PollGroup(stream, consumer, member) => stream.None? || consumer.None? || member.None?
    case Ack(stream, consumer, _) => stream.None? || consumer.None?
    case AckGroup(stream, consumer, member, _, token) =>
      stream.None? || consumer.None? || member.None? || token.None?
    case OtherOperation => false
  }

  /** Every record of a batch has a payload. */
  predicate RecordsComplete(r: Request) {
    r.PublishBatch? ==> forall i :: 0 <= i < |r.records| ==> r.records[i].payload.Some?
  }

  /** What a request must have before its length matters. */
  predicate Complete(r: Request) {
    && !r.OtherOperation? && !OffsetOutside(r) && !PayloadMissing(r) && !BatchSizeWrong(r) && !TextMissing(r)
    && RecordsComplete(r)
  }

  // ---------------------------------------------------------------- the encoder's lengths

  lemma {:induction false} EncodeLength(value: nat)
    ensures |Encode(value)| == Groups(value)
  {
    if value < 0x80 {
    } else {
      EncodeLength(value / 0x80);
    }
  }

  lemma BytesFieldLength(number: nat, b: Bytes)
    requires number <= 15
    ensures |BytesField(number, b)| == FieldLength(|b|)
  {
    EncodeLength(number * 8 + 2);
    EncodeLength(|b|);
  }

  /** The length of what a part writes. */
  function PartLength(p: Part): nat {
    match p
    case Text(_, text) => TextLength(Some(text))
    case Maybe(_, maybe) => OptionalLength(maybe)
    case Payload(_, payload) => FieldLength(|payload|)
    case Uint(_, value) => UintLength(Some(value))
  }

  lemma PartBytesLength(p: Part)
    requires p.number <= 15
    ensures |PartBytes(p)| == PartLength(p)
  {
    match p
    case Text(n, text) => BytesFieldLength(n, text);
    case Maybe(n, maybe) => if maybe.Some? { BytesFieldLength(n, maybe.value); }
    case Payload(n, payload) => BytesFieldLength(n, payload);
    case Uint(n, value) => EncodeLength(n * 8); EncodeLength(value);
  }

  /** The parts have these lengths, one by one. */
  ghost predicate Measured(parts: seq<Part>, lengths: seq<nat>) {
    && |parts| == |lengths|
    && forall i :: 0 <= i < |parts| ==> parts[i].number <= 15 && PartLength(parts[i]) == lengths[i]
  }

  lemma {:induction false} JoinedLength(parts: seq<Part>, lengths: seq<nat>)
    requires Measured(parts, lengths)
    ensures |Joined(parts)| == Sum(lengths)
  {
    if parts == [] {
    } else {
      PartBytesLength(parts[0]);
      JoinedLength(parts[1..], lengths[1..]);
    }
  }

  lemma {:induction false} SumExceeds(lengths: seq<nat>, i: nat)
    requires i < |lengths|
    ensures lengths[i] <= Sum(lengths)
  {
    if i == 0 {
    } else {
      SumExceeds(lengths[1..], i - 1);
    }
  }

  /** A message is written exactly when its parts fit, and is then as long as they are together; parts
      that do not fit are together longer than 64 bits can say. */
  lemma MessageLength(parts: seq<Part>, lengths: seq<nat>)
    requires Measured(parts, lengths) && forall i :: 0 <= i < |parts| ==> parts[i].Uint? ==> parts[i].value <= U64_MAX
    ensures Message(parts).Ok? ==> |Message(parts).value| == Sum(lengths)
    ensures Message(parts).Err? ==> Message(parts) == Err(OutOfRange) && Sum(lengths) > U64_MAX
  {
    JoinedLength(parts, lengths);
    if Message(parts).Err? {
      var p :| p in parts && !Fits(p);
      var i :| 0 <= i < |parts| && parts[i] == p;
      SumExceeds(lengths, i);
    }
  }

  lemma RecordBytesLength(r: Record)
    requires r.payload.Some?
    ensures RecordBytes(r).Ok? ==> |RecordBytes(r).value| == RecordLength(r)
    ensures RecordBytes(r).Err? ==> RecordBytes(r) == Err(OutOfRange) && RecordLength(r) > U64_MAX
  {
    MessageLength(RecordParts(r), [OptionalLength(r.key), OptionalLength(r.payload), OptionalLength(r.requestId)]);
  }

  // ---------------------------------------------------------------- batches

  /** The first failing element decides the error. */
  lemma {:induction false} EachFails<A, B>(f: A -> Result<B, ProtocolError>, xs: seq<A>) returns (i: nat)
    requires Each(f, xs).Err?
    ensures i < |xs| && f(xs[i]) == Err(Each(f, xs).error)
    ensures forall j :: 0 <= j < i ==> f(xs[j]).Ok?
  {
    if f(xs[0]).Err? {
      i := 0;
    } else {
      i := EachFails(f, xs[1..]);
      i := i + 1;
    }
  }

  lemma RecordsOverflow(r: Request, i: nat)
    requires r.PublishBatch? && i < |r.records| && RecordLength(r.records[i]) > U64_MAX
    ensures ApplicationLength(r) > U64_MAX
  {
    SumExceeds(Lengths(r), i + 1);
  }

  lemma BatchPartsMeasured(r: Request)
    requires r.PublishBatch? && Complete(r)
    ensures Parts(r).Ok? ==> Measured(Parts(r).value, Lengths(r)) && forall p :: p in Parts(r).value ==> !p.Uint?
    ensures Parts(r).Err? ==> Parts(r) == Err(OutOfRange) && ApplicationLength(r) > U64_MAX
  {
    if Parts(r).Ok? {
      EachElement(RecordBytes, r.records);
      forall i | 0 <= i < |r.records| ensures |Each(RecordBytes, r.records).value[i]| == RecordLength(r.records[i]) {
        RecordBytesLength(r.records[i]);
      }
    } else {
      var i := EachFails(RecordBytes, r.records);
      RecordBytesLength(r.records[i]);
      RecordsOverflow(r, i);
    }
  }

  lemma PartsMeasured(r: Request)
    requires !r.PublishBatch? && Complete(r)
    ensures Parts(r).Ok? && Measured(Parts(r).value, Lengths(r))
    ensures forall p :: p in Parts(r).value ==> p.Uint? ==> p.value <= U64_MAX
  {
  }

  // ---------------------------------------------------------------- main results

  lemma WrappedLength(number: nat, b: Bytes)
    requires 1 <= number <= 15
    ensures var w := Wrap(2, Wrap(number, Ok(b)));
            if FieldLength(|b|) <= U64_MAX then w.Ok? && |w.value| == FieldLength(FieldLength(|b|))
            else w == Err(OutOfRange)
  {
    BytesFieldLength(number, b);
    BytesFieldLength(2, BytesField(number, b));
  }

  /** A complete request is encoded exactly when its application request fits a 64-bit length, and the
      frame is then exactly as long as its fields make it. */
  lemma CompleteRequestIsEncoded(r: Request)
    requires Complete(r)
    ensures if ApplicationLength(r) <= U64_MAX
            then EncodeRequest(r).Ok? && |EncodeRequest(r).value| == FieldLength(ApplicationLength(r))
            else EncodeRequest(r) == Err(OutOfRange)
  {
    if r.PublishBatch? {
      BatchPartsMeasured(r);
    } else {
      PartsMeasured(r);
    }
    if Parts(r).Ok? {
      MessageLength(Parts(r).value, Lengths(r));
      if Message(Parts(r).value).Ok? {
        WrappedLength(Number(r), Message(Parts(r).value).value);
      }
    }
  }

  /** A record with a payload whose texts and payload fit 64-bit lengths. */
  predicate RecordFits(r: Record) {
    && r.payload.Some? && |r.payload.value| <= U64_MAX
    && (r.key.Some? ==> |r.key.value| <= U64_MAX)
    && (r.requestId.Some? ==> |r.requestId.value| <= U64_MAX)
  }

  lemma RecordFitsExactlyWhen(r: Record)
    ensures RecordBytes(r).Ok? <==> RecordFits(r)
    ensures r.payload.None? ==> RecordBytes(r) == Err(InvalidPayload)
  {
    if r.payload.Some? {
      var parts := RecordParts(r);
      assert RecordFits(r) <==> Fits(parts[0]) && Fits(parts[1]) && Fits(parts[2]);
      assert forall p :: p in parts ==> p == parts[0] || p == parts[1] || p == parts[2];
    }
  }

  /** A batch with an incomplete record reports its first unfit record. */
  ghost predicate FirstUnfit(records: seq<Record>, error: ProtocolError) {
    exists i :: && 0 <= i < |records| && !RecordFits(records[i])
                && (forall j :: 0 <= j < i ==> RecordFits(records[j]))
                && error == if records[i].payload.None? then InvalidPayload else OutOfRange
  }

  lemma IncompleteBatchIsRefused(r: Request)
    requires r.PublishBatch? && !BatchSizeWrong(r) && !TextMissing(r) && !RecordsComplete(r)
    ensures EncodeRequest(r).Err? && FirstUnfit(r.records, EncodeRequest(r).error)
  {
    var bad :| 0 <= bad < |r.records| && r.records[bad].payload.None?;
    assert Each(RecordBytes, r.records).Err? by {
      if Each(RecordBytes, r.records).Ok? {
        EachElement(RecordBytes, r.records);
      }
    }
    var i := EachFails(RecordBytes, r.records);
    RecordFitsExactlyWhen(r.records[i]);
    forall j | 0 <= j < i ensures RecordFits(r.records[j]) {
      RecordFitsExactlyWhen(r.records[j]);
    }
    if r.records[i].payload.Some? {
      RecordBytesLength(r.records[i]);
    }
  }

  /** The encoder accepts exactly the requests of a supported operation with an offset in 0..2^64-1 where
      one is needed, 1 to 1,024 records, every required text and payload, and an encoding whose length fits
      64 bits. Every other request gets the error of the first of these checks it fails. */
  lemma RequestIsEncodedExactlyWhen(r: Request)
    ensures EncodeRequest(r).Ok? <==> Complete(r) && ApplicationLength(r) <= U64_MAX
    ensures r.OtherOperation? ==> EncodeRequest(r) == Err(UnsupportedOperation)
    ensures OffsetOutside(r) ==> EncodeRequest(r) == Err(OutOfRange)
    ensures PayloadMissing(r) ==> EncodeRequest(r) == Err(InvalidPayload)
    ensures BatchSizeWrong(r) ==> EncodeRequest(r) == Err(InvalidBatch)
    ensures !OffsetOutside(r) && !PayloadMissing(r) && !BatchSizeWrong(r) && TextMissing(r) ==>
              EncodeRequest(r) == Err(MissingText)
    ensures !BatchSizeWrong(r) && !TextMissing(r) && !RecordsComplete(r) ==>
              EncodeRequest(r).Err? && FirstUnfit(r.records, EncodeRequest(r).error)
    ensures Complete(r) && ApplicationLength(r) > U64_MAX ==> EncodeRequest(r) == Err(OutOfRange)
  {
    if Complete(r) {
      CompleteRequestIsEncoded(r);
    } else if r.PublishBatch? && !BatchSizeWrong(r) && !TextMissing(r) {
      IncompleteBatchIsRefused(r);
    }
  }

  /** So the client can encode every complete request, and what it writes is read back as that request. */
  lemma CompleteRequestIsRecovered(r: Request)
    requires Complete(r) && ApplicationLength(r) <= U64_MAX
    ensures EncodeRequest(r).Ok? && Recover(EncodeRequest(r).value) == Ok(r)
  {
    CompleteRequestIsEncoded(r);
    EncodedRequestIsRecovered(r);
  }
}
