/** Parsing an encoded request recovers the operation and every field, so the encoder is injective. */
module RequestRoundTrip {
  import opened Prelude
  import opened Varint
  import opened ProtoFields
  import opened WorkflowRequests

  // ---------------------------------------------------------------- messages

  /** The fields a part puts on the wire. */
  function PartFields(p: Part): seq<Field> {
    match p
    case Text(n, text) => if text == [] then [] else [Field(n, 2, Raw(text))]
    case Maybe(n, maybe) => if maybe.None? then [] else [Field(n, 2, Raw(maybe.value))]
    case Payload(n, payload) => [Field(n, 2, Raw(payload))]
    case Uint(n, value) => if value == 0 then [] else [Field(n, 0, Int(value))]
  }

  function FieldsOf(parts: seq<Part>): seq<Field> {
    if parts == [] then [] else PartFields(parts[0]) + FieldsOf(parts[1..])
  }

  ghost predicate Writable(parts: seq<Part>) {
    forall p :: p in parts ==> Fits(p) && FieldNumber(p.number)
  }

  lemma ParseOfPart(p: Part)
    requires Fits(p) && FieldNumber(p.number)
    ensures Parse(PartBytes(p)) == Ok(PartFields(p))
  {
    FirstFieldAdvances();
    match p
    case Text(n, text) => if text != [] { ParseOfBytesField(n, text); }
    case Maybe(n, maybe) => if maybe.Some? { ParseOfBytesField(n, maybe.value); }
    case Payload(n, payload) => ParseOfBytesField(n, payload);
    case Uint(n, value) => ParseOfVarintField(n, value);
  }

  lemma {:induction false} ParseOfJoined(parts: seq<Part>)
    requires Writable(parts)
    ensures Parse(Joined(parts)) == Ok(FieldsOf(parts))
  {
    if parts == [] {
      FirstFieldAdvances();
    } else {
      ParseOfPart(parts[0]);
      ParseOfJoined(parts[1..]);
      ParseOfConcatenation(PartBytes(parts[0]), Joined(parts[1..]));
    }
  }

  ghost predicate DistinctNumbers(parts: seq<Part>) {
    forall i, j :: 0 <= i < j < |parts| ==> parts[i].number != parts[j].number
  }

  lemma {:induction false} NoMatches(parts: seq<Part>, number: nat)
    requires forall p :: p in parts ==> p.number != number
    ensures Matches(FieldsOf(parts), number) == []
  {
    if parts == [] {
    } else {
      assert parts[0] in parts;
      NoMatches(parts[1..], number);
      MatchesOfConcatenation(PartFields(parts[0]), FieldsOf(parts[1..]), number);
    }
  }

  lemma OwnMatches(p: Part)
    ensures Matches(PartFields(p), p.number) == PartFields(p)
  {
  }

  lemma MatchesOfFirst(parts: seq<Part>)
    requires DistinctNumbers(parts) && parts != []
    ensures Matches(FieldsOf(parts), parts[0].number) == PartFields(parts[0])
  {
    var n := parts[0].number;
    OwnMatches(parts[0]);
    NoMatches(parts[1..], n);
    MatchesOfConcatenation(PartFields(parts[0]), FieldsOf(parts[1..]), n);
  }

  lemma MatchesSkipFirst(parts: seq<Part>, n: nat)
    requires parts != [] && parts[0].number != n
    ensures Matches(FieldsOf(parts), n) == Matches(FieldsOf(parts[1..]), n)
  {
    assert Matches(PartFields(parts[0]), n) == [] by {
      NoMatches([parts[0]], n);
      assert FieldsOf([parts[0]]) == PartFields(parts[0]);
    }
    MatchesOfConcatenation(PartFields(parts[0]), FieldsOf(parts[1..]), n);
  }

  /** Looking up the number of a part finds exactly what that part wrote. */
  lemma {:induction false} MatchesOfPart(parts: seq<Part>, i: nat)
    requires DistinctNumbers(parts) && i < |parts|
    ensures Matches(FieldsOf(parts), parts[i].number) == PartFields(parts[i])
  {
    if i == 0 {
      MatchesOfFirst(parts);
    } else {
      MatchesSkipFirst(parts, parts[i].number);
      MatchesOfPart(parts[1..], i - 1);
    }
  }

  ghost predicate Found(p: Part, fields: seq<Field>) {
    match p
    case Text(n, text) => TextOrEmpty(fields, n) == Some(text)
    case Maybe(n, maybe) => TextOf(fields, n) == Ok(maybe)
    case Payload(n, payload) => TextOf(fields, n) == Ok(Some(payload))
    case Uint(n, value) => UintOrZero(fields, n) == Some(value)
  }

  lemma PartIsFound(p: Part, fields: seq<Field>)
    requires Matches(fields, p.number) == PartFields(p)
    ensures Found(p, fields)
  {
  }

  /** Omitted defaults, absent and empty optional strings included. */
  lemma EveryPartIsFound(parts: seq<Part>)
    requires DistinctNumbers(parts)
    ensures forall i :: 0 <= i < |parts| ==> Found(parts[i], FieldsOf(parts))
  {
    forall i | 0 <= i < |parts| ensures Found(parts[i], FieldsOf(parts)) {
      MatchesOfPart(parts, i);
      PartIsFound(parts[i], FieldsOf(parts));
    }
  }

  lemma MessageIsParsed(parts: seq<Part>)
    requires Message(parts).Ok? && forall p :: p in parts ==> FieldNumber(p.number)
    ensures Writable(parts) && Parse(Message(parts).value) == Ok(FieldsOf(parts))
  {
    ParseOfJoined(parts);
  }

  // ---------------------------------------------------------------- batches

  lemma RecordIsRecovered(r: Record)
    requires RecordBytes(r).Ok?
    ensures RecoverRecord(Raw(RecordBytes(r).value)) == Ok(r)
  {
    var parts := RecordParts(r);
    MessageIsParsed(parts);
    EveryPartIsFound(parts);
    assert Found(parts[0], FieldsOf(parts)) && Found(parts[1], FieldsOf(parts)) && Found(parts[2], FieldsOf(parts));
  }

  lemma {:induction false} EachElement<A, B>(f: A -> Result<B, ProtocolError>, xs: seq<A>)
    requires Each(f, xs).Ok?
    ensures |Each(f, xs).value| == |xs|
    ensures forall i :: 0 <= i < |xs| ==> f(xs[i]) == Ok(Each(f, xs).value[i])
  {
    if xs == [] {
    } else {
      EachElement(f, xs[1..]);
    }
  }

  lemma {:induction false} EachSucceeds<A, B>(f: A -> Result<B, ProtocolError>, xs: seq<A>, ys: seq<B>)
    requires |xs| == |ys| && forall i :: 0 <= i < |xs| ==> f(xs[i]) == Ok(ys[i])
    ensures Each(f, xs) == Ok(ys)
  {
    if xs == [] {
    } else {
      EachSucceeds(f, xs[1..], ys[1..]);
      assert ys == [ys[0]] + ys[1..];
    }
  }

  function RawItems(items: seq<Bytes>): seq<Value> {
    seq(|items|, i requires 0 <= i < |items| => Raw(items[i]))
  }

  lemma RecordsAreRecovered(records: seq<Record>)
    requires Each(RecordBytes, records).Ok?
    ensures Each(RecoverRecord, RawItems(Each(RecordBytes, records).value)) == Ok(records)
  {
    var items := Each(RecordBytes, records).value;
    EachElement(RecordBytes, records);
    forall i | 0 <= i < |records| ensures RecoverRecord(RawItems(items)[i]) == Ok(records[i]) {
      RecordIsRecovered(records[i]);
    }
    EachSucceeds(RecoverRecord, RawItems(items), records);
  }

  lemma {:induction false} ItemsAreFields(items: seq<Bytes>)
    ensures FieldsOf(ItemParts(items)) == seq(|items|, i requires 0 <= i < |items| => Field(2, 2, Raw(items[i])))
  {
    if items == [] {
    } else {
      ItemsAreFields(items[1..]);
      assert ItemParts(items)[1..] == ItemParts(items[1..]);
    }
  }

  lemma {:induction false} AllMatch(fields: seq<Field>, number: nat)
    requires forall f :: f in fields ==> f.number == number
    ensures Matches(fields, number) == fields
  {
    if fields == [] {
    } else {
      assert fields[0] in fields;
      AllMatch(fields[1..], number);
    }
  }

  lemma BatchMatches(stream: Bytes, items: seq<Bytes>)
    ensures var fields := FieldsOf([Text(1, stream)] + ItemParts(items));
            && Matches(fields, 1) == PartFields(Text(1, stream))
            && Matches(fields, 2) == FieldsOf(ItemParts(items))
  {
    var first, rest := Text(1, stream), ItemParts(items);
    var own := FieldsOf(rest);
    assert ([first] + rest)[1..] == rest;
    assert own == seq(|items|, i requires 0 <= i < |items| => Field(2, 2, Raw(items[i]))) by { ItemsAreFields(items); }
    AllMatch(own, 2);
    NoMatches(rest, 1);
    MatchesOfConcatenation(PartFields(first), own, 1);
    MatchesOfConcatenation(PartFields(first), own, 2);
  }

  lemma BatchFields(stream: Bytes, items: seq<Bytes>)
    ensures var fields := FieldsOf([Text(1, stream)] + ItemParts(items));
            && TextOrEmpty(fields, 1) == Some(stream)
            && Repeated(fields, 2, 2) == Ok(RawItems(items))
  {
    BatchMatches(stream, items);
    PartIsFound(Text(1, stream), FieldsOf([Text(1, stream)] + ItemParts(items)));
    ItemsAreFields(items);
    assert Values(FieldsOf(ItemParts(items))) == RawItems(items);
  }

  // ---------------------------------------------------------------- all operations

  ghost predicate BodyIsRecovered(r: Request) {
    && Parts(r).Ok?
    && (forall p :: p in Parts(r).value ==> FieldNumber(p.number))
    && RecoverBody(Number(r), FieldsOf(Parts(r).value)) == Ok(r)
  }

  lemma BatchIsRecovered(r: Request)
    requires r.PublishBatch? && Parts(r).Ok?
    ensures BodyIsRecovered(r)
  {
    var items := Each(RecordBytes, r.records).value;
    var parts := [Text(1, r.stream.value)] + ItemParts(items);
    assert Parts(r) == Ok(parts);
    BatchFields(r.stream.value, items);
    RecordsAreRecovered(r.records);
    assert RecoverBody(Number(r), FieldsOf(parts)) == Ok(r);
  }

  ghost predicate AllFound(parts: seq<Part>, fields: seq<Field>) {
    forall i :: 0 <= i < |parts| ==> Found(parts[i], fields)
  }

  lemma TextsAreRecovered(r: Request, f: seq<Field>)
    requires (r.CreateStream? || r.Poll? || r.PollGroup?) && Parts(r).Ok? && AllFound(Parts(r).value, f)
    ensures RecoverBody(Number(r), f) == Ok(r)
  {
    var parts := Parts(r).value;
    assert Found(parts[0], f);
    assert |parts| > 1 ==> Found(parts[1], f);
    assert |parts| > 2 ==> Found(parts[2], f);
  }

  lemma PublishIsRecovered(r: Request, f: seq<Field>)
    requires r.Publish? && Parts(r).Ok? && AllFound(Parts(r).value, f)
    ensures RecoverBody(Number(r), f) == Ok(r)
  {
    var parts := Parts(r).value;
    assert Found(parts[0], f) && Found(parts[1], f) && Found(parts[2], f) && Found(parts[3], f);
  }

  lemma OffsetRequestIsRecovered(r: Request, f: seq<Field>)
    requires (r.Replay? || r.Ack?) && Parts(r).Ok? && AllFound(Parts(r).value, f)
    ensures RecoverBody(Number(r), f) == Ok(r)
  {
    var parts := Parts(r).value;
    assert Found(parts[0], f) && Found(parts[1], f) && Found(parts[2], f);
  }

  lemma AckGroupIsRecovered(r: Request, f: seq<Field>)
    requires r.AckGroup? && Parts(r).Ok? && AllFound(Parts(r).value, f)
    ensures RecoverBody(Number(r), f) == Ok(r)
  {
    var parts := Parts(r).value;
    assert TextOrEmpty(f, 1) == r.stream by { assert Found(parts[0], f); }
    assert TextOrEmpty(f, 2) == r.consumer by { assert Found(parts[1], f); }
    assert TextOrEmpty(f, 3) == r.member by { assert Found(parts[2], f); }
    assert UintOrZero(f, 4) == r.offset by { assert Found(parts[3], f); }
    assert TextOrEmpty(f, 5) == r.token by { assert Found(parts[4], f); }
  }

  lemma FoundIsRecovered(r: Request, f: seq<Field>)
    requires !r.PublishBatch? && Parts(r).Ok? && AllFound(Parts(r).value, f)
    ensures RecoverBody(Number(r), f) == Ok(r)
  {
    match r
    case Publish(_, _, _, _) => PublishIsRecovered(r, f);
    case Replay(_, _, _) => OffsetRequestIsRecovered(r, f);
    case Ack(_, _, _) => OffsetRequestIsRecovered(r, f);
    case AckGroup(_, _, _, _, _) => AckGroupIsRecovered(r, f);
    case _ => TextsAreRecovered(r, f);
  }

  lemma NumbersAreDistinct(r: Request)
    requires !r.PublishBatch? && Parts(r).Ok?
    ensures DistinctNumbers(Parts(r).value)
    ensures forall p :: p in Parts(r).value ==> FieldNumber(p.number)
  {
  }

  lemma EveryBodyIsRecovered(r: Request)
    requires Parts(r).Ok?
    ensures BodyIsRecovered(r)
  {
    if r.PublishBatch? {
      BatchIsRecovered(r);
    } else {
      NumbersAreDistinct(r);
      EveryPartIsFound(Parts(r).value);
      FoundIsRecovered(r, FieldsOf(Parts(r).value));
    }
  }

  /** The frame around a message: one application request with one operation. */
  lemma FrameIsOpened(number: nat, message: Bytes, fields: seq<Field>)
    requires FieldNumber(number) && |message| <= U64_MAX && |BytesField(number, message)| <= U64_MAX
    requires Parse(message) == Ok(fields)
    ensures Recover(BytesField(2, BytesField(number, message))) == RecoverBody(number, fields)
  {
    var application := BytesField(number, message);
    ParseOfBytesField(number, message);
    ParseOfBytesField(2, application);
    var frame := [Field(2, 2, Raw(application))];
    assert Matches(frame, 2) == frame;
    assert TextOf(frame, 2) == Ok(Some(application));
  }

  /** Every request the encoder accepts is recovered exactly. */
  lemma EncodedRequestIsRecovered(r: Request)
    requires EncodeRequest(r).Ok?
    ensures Recover(EncodeRequest(r).value) == Ok(r)
  {
    var parts := Parts(r).value;
    EveryBodyIsRecovered(r);
    MessageIsParsed(parts);
    FrameIsOpened(Number(r), Message(parts).value, FieldsOf(parts));
  }

  /** Distinct requests have distinct encodings. */
  lemma EncoderIsInjective(r: Request, q: Request)
    requires EncodeRequest(r).Ok? && EncodeRequest(q) == EncodeRequest(r)
    ensures r == q
  {
    EncodedRequestIsRecovered(r);
    EncodedRequestIsRecovered(q);
  }
}
