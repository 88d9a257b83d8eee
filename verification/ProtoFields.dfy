/** Protocol Buffers fields as the workflow client writes and parses them
    (scripts/benchmarks/v2_client.py; "Message Structure" in the Protocol Buffers Encoding document). */
module ProtoFields {
  import opened Prelude
  import opened Varint

  const MAX_FIELD_NUMBER: nat := 0x1FFF_FFFF

  datatype Value = Int(n: nat) | Raw(bytes: Bytes)

  datatype Field = Field(number: nat, wire: nat, value: Value)

  // ---------------------------------------------------------------- writing

  function VarintField(number: nat, value: nat): Bytes {
    if value == 0 then [] else Encode(number * 8) + Encode(value)
  }

  function BytesField(number: nat, value: Bytes): Bytes {
    Encode(number * 8 + 2) + Encode(|value|) + value
  }

  /** A required string is omitted when empty. */
  function TextField(number: nat, text: Bytes): Bytes {
    if text == [] then [] else BytesField(number, text)
  }

  /** An optional string is omitted only when absent. */
  function OptionalField(number: nat, text: Option<Bytes>): Bytes {
    if text.None? then [] else BytesField(number, text.value)
  }

  // ---------------------------------------------------------------- parsing

  datatype Content = Content(value: Value, length: nat)

  datatype Parsed = Parsed(field: Field, length: nat)

  function Slice(b: Bytes, at: nat, size: nat): Result<Content, ProtocolError> {
    if at + size > |b| then Err(TruncatedField) else Ok(Content(Raw(b[at..at + size]), at + size))
  }

  /** The content of a field, by wire type, at the front of b. */
  function FieldContent(wire: nat, b: Bytes): Result<Content, ProtocolError> {
    if wire == 0 then
      match ReadVarint(b)
      case Err(error) => Err(error)
      case Ok(read) => Ok(Content(Int(read.value), read.length))
    else if wire == 1 then Slice(b, 0, 8)
    else if wire == 2 then
      match ReadVarint(b)
      case Err(error) => Err(error)
      case Ok(size) => Slice(b, size.length, size.value)
    else if wire == 5 then Slice(b, 0, 4)
    else Err(UnsupportedWireType)
  }

  /** The field at the front of b. */
  function FirstField(b: Bytes): Result<Parsed, ProtocolError> {
    match ReadVarint(b)
    case Err(error) => Err(error)
    case Ok(key) =>
      var number, wire := key.value / 8, key.value % 8;
      if number == 0 || number > MAX_FIELD_NUMBER then Err(InvalidFieldNumber) else
      AcceptedVarint(b);
      match FieldContent(wire, b[key.length..])
      case Err(error) => Err(error)
      case Ok(content) => Ok(Parsed(Field(number, wire, content.value), key.length + content.length))
  }

  type Reader = Bytes -> Result<Parsed, ProtocolError>

  ghost predicate Advances(first: Reader) {
    forall b :: first(b).Ok? ==> 0 < first(b).value.length <= |b|
  }

  ghost predicate Local(first: Reader) {
    forall a, b {:trigger first(a + b)} :: first(a).Ok? ==> first(a + b) == first(a)
  }

  function Prepend(fields: seq<Field>, r: Result<seq<Field>, ProtocolError>): Result<seq<Field>, ProtocolError> {
    match r
    case Ok(rest) => Ok(fields + rest)
    case Err(error) => Err(error)
  }

  /** Repeats a field reader until the body is used up. */
  function ParseWith(first: Reader, b: Bytes): Result<seq<Field>, ProtocolError>
    requires Advances(first)
    decreases |b|
  {
    if b == [] then Ok([]) else
    match first(b)
    case Err(error) => Err(error)
    case Ok(parsed) => Prepend([parsed.field], ParseWith(first, b[parsed.length..]))
  }

  lemma PrependTwice(x: seq<Field>, y: seq<Field>, r: Result<seq<Field>, ProtocolError>)
    ensures Prepend(x, Prepend(y, r)) == Prepend(x + y, r)
    ensures Prepend([], r) == r
  {
    if r.Ok? {
      assert x + (y + r.value) == x + y + r.value;
      assert [] + r.value == r.value;
    }
  }

  lemma FieldContentAdvances(wire: nat, b: Bytes)
    ensures FieldContent(wire, b).Ok? ==> FieldContent(wire, b).value.length <= |b|
  {
    AcceptedVarint(b);
  }

  /** Every field moves the cursor forward, within the body. */
  lemma FirstFieldAdvances()
    ensures Advances(FirstField)
  {
    forall b | FirstField(b).Ok? ensures 0 < FirstField(b).value.length <= |b| {
      AcceptedVarint(b);
      var key := ReadVarint(b).value;
      FieldContentAdvances(key.value % 8, b[key.length..]);
    }
  }

  function Parse(b: Bytes): Result<seq<Field>, ProtocolError> {
    FirstFieldAdvances();
    ParseWith(FirstField, b)
  }

  // ---------------------------------------------------------------- progress and locality

  lemma SliceIsLocal(a: Bytes, b: Bytes, at: nat, size: nat)
    requires Slice(a, at, size).Ok?
    ensures Slice(a + b, at, size) == Slice(a, at, size)
  {
    assert (a + b)[at..at + size] == a[at..at + size];
  }

  lemma FieldContentIsLocal(wire: nat, a: Bytes, b: Bytes)
    requires FieldContent(wire, a).Ok?
    ensures FieldContent(wire, a + b) == FieldContent(wire, a)
  {
    if wire == 0 || wire == 2 {
      ReadIsLocal(a, b);
    }
    if wire == 1 || wire == 5 {
      SliceIsLocal(a, b, 0, if wire == 1 then 8 else 4);
    } else if wire == 2 {
      SliceIsLocal(a, b, ReadVarint(a).value.length, ReadVarint(a).value.value);
    }
  }

  lemma FirstFieldIsLocal()
    ensures Local(FirstField)
  {
    forall a, b | FirstField(a).Ok? ensures FirstField(a + b) == FirstField(a) {
      AcceptedVarint(a);
      ReadIsLocal(a, b);
      var key := ReadVarint(a).value;
      assert (a + b)[key.length..] == a[key.length..] + b;
      FieldContentIsLocal(key.value % 8, a[key.length..], b);
    }
  }

  lemma {:induction false} ParseWithOfConcatenation(first: Reader, a: Bytes, b: Bytes)
    requires Advances(first) && Local(first) && ParseWith(first, a).Ok?
    ensures ParseWith(first, a + b) == Prepend(ParseWith(first, a).value, ParseWith(first, b))
    decreases |a|
  {
    if a == [] {
      assert a + b == b;
    } else {
      var n := first(a).value.length;
      assert (a + b)[n..] == a[n..] + b;
      assert first(a + b) == first(a);
      ParseWithOfConcatenation(first, a[n..], b);
      PrependTwice([first(a).value.field], ParseWith(first, a[n..]).value, ParseWith(first, b));
    }
    PrependTwice([], [], ParseWith(first, b));
  }

  /** Parsing a concatenation is concatenating the parses, errors of the second part included. */
  lemma ParseOfConcatenation(a: Bytes, b: Bytes)
    requires Parse(a).Ok?
    ensures Parse(a + b) == Prepend(Parse(a).value, Parse(b))
  {
    FirstFieldAdvances();
    FirstFieldIsLocal();
    ParseWithOfConcatenation(FirstField, a, b);
  }

  // ---------------------------------------------------------------- the parsing loop

  function Moved(r: Result<Content, ProtocolError>, cursor: nat): Result<Content, ProtocolError> {
    match r
    case Ok(content) => Ok(Content(content.value, cursor + content.length))
    case Err(error) => Err(error)
  }

  lemma SliceOfRest(body: Bytes, cursor: nat, start: nat, end: nat)
    requires cursor <= start <= end <= |body|
    ensures body[cursor..][start - cursor..end - cursor] == body[start..end]
  {
  }

  method ReadContent(body: Bytes, cursor: nat, wire: nat) returns (r: Result<Content, ProtocolError>)
    requires cursor <= |body|
    ensures r == Moved(FieldContent(wire, body[cursor..]), cursor)
  {
    if wire == 0 {
      var read := ReadVarintAt(body, cursor);
      if read.Err? {
        return Err(read.error);
      }
      return Ok(Content(Int(read.value.value), read.value.length));
    }
    if wire != 1 && wire != 2 && wire != 5 {
      return Err(UnsupportedWireType);
    }
    var start, size := cursor, if wire == 1 then 8 else 4;
    AcceptedVarint(body[cursor..]);
    if wire == 2 {
      var read := ReadVarintAt(body, cursor);
      if read.Err? {
        return Err(read.error);
      }
      start, size := read.value.length, read.value.value;
    }
    var end := start + size;
    if end > |body| {
      return Err(TruncatedField);
    }
    SliceOfRest(body, cursor, start, end);
    return Ok(Content(Raw(body[start..end]), end));
  }

  method NextField(body: Bytes, cursor: nat) returns (r: Result<Parsed, ProtocolError>)
    requires cursor <= |body|
    ensures match FirstField(body[cursor..])
            case Ok(parsed) => r == Ok(Parsed(parsed.field, cursor + parsed.length))
            case Err(error) => r == Err(error)
  {
    var key := ReadVarintAt(body, cursor);
    if key.Err? {
      return Err(key.error);
    }
    var number, wire := key.value.value / 8, key.value.value % 8;
    if number == 0 || number > MAX_FIELD_NUMBER {
      return Err(InvalidFieldNumber);
    }
    AcceptedVarint(body[cursor..]);
    assert body[cursor..][key.value.length - cursor..] == body[key.value.length..];
    var content := ReadContent(body, key.value.length, wire);
    if content.Err? {
      return Err(content.error);
    }
    return Ok(Parsed(Field(number, wire, content.value.value), content.value.length));
  }

  method ParseFields(body: Bytes) returns (r: Result<seq<Field>, ProtocolError>)
    ensures r == Parse(body)
  {
    FirstFieldAdvances();
    var fields: seq<Field> := [];
    var cursor := 0;
    assert body[0..] == body;
    PrependTwice([], [], Parse(body));
    while cursor < |body|
      invariant 0 <= cursor <= |body|
      invariant Prepend(fields, Parse(body[cursor..])) == Parse(body)
      decreases |body| - cursor
    {
      var next := NextField(body, cursor);
      if next.Err? {
        return Err(next.error);
      }
      ghost var b := body[cursor..];
      assert b[next.value.length - cursor..] == body[next.value.length..];
      ghost var rest := Parse(body[next.value.length..]);
      PrependTwice(fields, [next.value.field], rest);
      cursor := next.value.length;
      fields := fields + [next.value.field];
    }
    assert fields + [] == fields;
    return Ok(fields);
  }

  // ---------------------------------------------------------------- round trip of one field

  ghost predicate FieldNumber(number: nat) {
    0 < number <= MAX_FIELD_NUMBER
  }

  lemma ParseOfSingle(b: Bytes, field: Field)
    requires FirstField(b) == Ok(Parsed(field, |b|))
    ensures Parse(b) == Ok([field])
  {
    FirstFieldAdvances();
    assert 0 < |b| by {
      AcceptedVarint(b);
    }
    assert b[|b|..] == [];
    assert ParseWith(FirstField, []) == Ok([]);
    assert [field] + [] == [field];
  }

  lemma SizedContent(value: Bytes)
    requires |value| <= U64_MAX
    ensures FieldContent(2, Encode(|value|) + value) == Ok(Content(Raw(value), |Encode(|value|)| + |value|))
  {
    var size := Encode(|value|);
    ReadOfEncoding(|value|, value);
    assert (size + value)[|size|..|size| + |value|] == value;
  }

  lemma FirstFieldAfterKey(head: Bytes, key: nat, rest: Bytes, value: Value)
    requires ReadVarint(head + rest) == Ok(Read(key, |head|)) && FieldNumber(key / 8)
    requires FieldContent(key % 8, rest) == Ok(Content(value, |rest|))
    ensures FirstField(head + rest) == Ok(Parsed(Field(key / 8, key % 8, value), |head| + |rest|))
  {
    assert (head + rest)[|head|..] == rest;
  }

  lemma FirstFieldOfKey(key: nat, rest: Bytes, value: Value)
    requires key <= U64_MAX && FieldNumber(key / 8)
    requires FieldContent(key % 8, rest) == Ok(Content(value, |rest|))
    ensures FirstField(Encode(key) + rest) == Ok(Parsed(Field(key / 8, key % 8, value), |Encode(key)| + |rest|))
  {
    ReadOfEncoding(key, rest);
    FirstFieldAfterKey(Encode(key), key, rest, value);
  }

  lemma ParseOfKeyed(number: nat, wire: nat, rest: Bytes, value: Value)
    requires FieldNumber(number) && wire < 8
    requires FieldContent(wire, rest) == Ok(Content(value, |rest|))
    ensures Parse(Encode(number * 8 + wire) + rest) == Ok([Field(number, wire, value)])
  {
    var key := number * 8 + wire;
    assert key / 8 == number && key % 8 == wire;
    FirstFieldOfKey(key, rest, value);
    ParseOfSingle(Encode(key) + rest, Field(number, wire, value));
  }

  lemma ParseOfBytesField(number: nat, value: Bytes)
    requires FieldNumber(number) && |value| <= U64_MAX
    ensures Parse(BytesField(number, value)) == Ok([Field(number, 2, Raw(value))])
  {
    var rest := Encode(|value|) + value;
    SizedContent(value);
    ParseOfKeyed(number, 2, rest, Raw(value));
    assert BytesField(number, value) == Encode(number * 8 + 2) + rest;
  }

  lemma ParseOfVarintField(number: nat, value: nat)
    requires FieldNumber(number) && value <= U64_MAX
    ensures Parse(VarintField(number, value)) == Ok(if value == 0 then [] else [Field(number, 0, Int(value))])
  {
    FirstFieldAdvances();
    if value != 0 {
      ReadOfEncoding(value, []);
      assert Encode(value) + [] == Encode(value);
      ParseOfKeyed(number, 0, Encode(value), Int(value));
    }
  }

  // ---------------------------------------------------------------- looking up fields

  /** The fields with a given number, in order. */
  function Matches(fields: seq<Field>, number: nat): (r: seq<Field>)
    ensures forall f :: f in r <==> f in fields && f.number == number
  {
    if fields == [] then [] else
    (if fields[0].number == number then [fields[0]] else []) + Matches(fields[1..], number)
  }

  function One(fields: seq<Field>, number: nat, wire: nat): Result<Option<Value>, ProtocolError> {
    var matches := Matches(fields, number);
    if matches == [] then Ok(None)
    else if |matches| != 1 || matches[0].wire != wire then Err(InvalidOrDuplicateField)
    else Ok(Some(matches[0].value))
  }

  function Values(fields: seq<Field>): seq<Value> {
    seq(|fields|, i requires 0 <= i < |fields| => fields[i].value)
  }

  function Repeated(fields: seq<Field>, number: nat, wire: nat): Result<seq<Value>, ProtocolError> {
    var matches := Matches(fields, number);
    if exists f :: f in matches && f.wire != wire then Err(InvalidOrDuplicateField) else Ok(Values(matches))
  }

  lemma {:induction false} MatchesOfConcatenation(a: seq<Field>, b: seq<Field>, number: nat)
    ensures Matches(a + b, number) == Matches(a, number) + Matches(b, number)
  {
    if a == [] {
      assert a + b == b;
    } else {
      assert (a + b)[1..] == a[1..] + b;
      MatchesOfConcatenation(a[1..], b, number);
    }
  }
}
