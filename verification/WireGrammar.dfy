/** The wire format as a grammar, and the workflow client's reader and parser as recognisers of it
    (scripts/benchmarks/v2_client.py): what is accepted, with which value, and which error anything else
    gets. */
module WireGrammar {
  import opened Prelude
  import opened Varint
  import opened ProtoFields

  // ---------------------------------------------------------------- varints

  /** Groups of seven bits, the lowest first. */
  function GroupsValue(b: Bytes): nat {
    if b == [] then 0 else b[0] % 0x80 + 0x80 * GroupsValue(b[1..])
  }

  /** Every byte of the range says that another follows. */
  ghost predicate Continues(b: Bytes, from: nat, to: int) {
    forall i :: from <= i < to && i < |b| ==> b[i] >= 0x80
  }

  /** The bytes are one varint of at most ten bytes and 64 bits. */
  ghost predicate IsVarint(b: Bytes, value: nat) {
    && 0 < |b| <= 10 && Continues(b, 0, |b| - 1) && b[|b| - 1] < 0x80 && (|b| == 10 ==> b[9] <= 1)
    && value == GroupsValue(b)
  }

  /** What reading from group i on says about the bytes from there. */
  ghost predicate ReadsAs(b: Bytes, i: nat, r: Result<Read, ProtocolError>)
    requires i <= 9 && i <= |b|
  {
    match r
    case Ok(read) =>
      && i < read.length <= |b| && read.length <= 10
      && Continues(b, i, read.length - 1) && b[read.length - 1] < 0x80 && (read.length == 10 ==> b[9] <= 1)
      && read.value == GroupsValue(b[i..read.length])
    case Err(TruncatedVarint) => |b| < 10 && Continues(b, i, |b|)
    case Err(VarintTooLarge) => |b| >= 10 && Continues(b, i, 9) && b[9] > 1
    case Err(_) => false
  }

  lemma {:induction false} GroupsAreRead(b: Bytes, i: nat)
    requires i <= 9 && i <= |b|
    ensures ReadsAs(b, i, ReadGroups(b, i))
    decreases 10 - i
  {
    if i == |b| || i == 9 || b[i] < 0x80 {
      if i < |b| && b[i] < 0x80 {
        assert b[i..i + 1] == [b[i]];
        assert GroupsValue([b[i]]) == b[i] as int;
      }
    } else {
      GroupsAreRead(b, i + 1);
      if ReadGroups(b, i + 1).Ok? {
        var n := ReadGroups(b, i + 1).value.length;
        assert b[i..n][1..] == b[i + 1..n];
      }
    }
  }

  lemma VarintReads(b: Bytes, value: nat, n: nat)
    ensures ReadVarint(b) == Ok(Read(value, n)) <==> n <= |b| && IsVarint(b[..n], value)
  {
    GroupsAreRead(b, 0);
    if ReadVarint(b) == Ok(Read(value, n)) {
      assert b[0..n] == b[..n];
    }
    if n <= |b| && IsVarint(b[..n], value) {
      assert b[n - 1] == b[..n][n - 1];
      forall i | 0 <= i < n - 1 ensures b[i] >= 0x80 {
        assert b[..n][i] >= 0x80;
      }
      assert n == 10 ==> b[9] == b[..n][9];
      assert b[0..n] == b[..n];
    }
  }

  /** A varint is read exactly from bytes that start with one, with its length and value. Too few bytes are
      truncated, and a tenth byte above one is too large; there is no other error. */
  lemma VarintIsReadExactlyWhen(b: Bytes)
    ensures forall value: nat, n: nat ::
              ReadVarint(b) == Ok(Read(value, n)) <==> n <= |b| && IsVarint(b[..n], value)
    ensures ReadVarint(b) == Err(TruncatedVarint) <==> |b| < 10 && Continues(b, 0, |b|)
    ensures ReadVarint(b) == Err(VarintTooLarge) <==> |b| >= 10 && Continues(b, 0, 9) && b[9] > 1
    ensures ReadVarint(b).Err? ==> ReadVarint(b).error in {TruncatedVarint, VarintTooLarge}
  {
    GroupsAreRead(b, 0);
    forall value: nat, n: nat ensures ReadVarint(b) == Ok(Read(value, n)) <==> n <= |b| && IsVarint(b[..n], value) {
      VarintReads(b, value, n);
    }
  }

  // ---------------------------------------------------------------- fields

  /** The bytes are the content of a field of this wire type. */
  ghost predicate IsContent(wire: nat, b: Bytes, value: Value) {
    match wire
    case 0 => value.Int? && IsVarint(b, value.n)
    case 1 => value == Raw(b) && |b| == 8
    case 2 => value.Raw? && exists n :: 0 <= n <= |b| && IsVarint(b[..n], |value.bytes|) && b[n..] == value.bytes
    case 5 => value == Raw(b) && |b| == 4
    case _ => false
  }

  /** The bytes are a field: a key with its number and wire type, then its content. */
  ghost predicate IsField(b: Bytes, f: Field) {
    && 1 <= f.number < 0x2000_0000 && f.wire < 8
    && exists n :: 0 <= n <= |b| && IsVarint(b[..n], f.number * 8 + f.wire) && IsContent(f.wire, b[n..], f.value)
  }

  /** The bytes are these fields, one after the other. */
  ghost predicate IsFields(b: Bytes, fs: seq<Field>)
    decreases |fs|
  {
    if fs == [] then b == [] else
    exists n :: 0 <= n <= |b| && IsField(b[..n], fs[0]) && IsFields(b[n..], fs[1..])
  }

  lemma ContentIsRead(wire: nat, b: Bytes, value: Value)
    requires IsContent(wire, b, value)
    ensures FieldContent(wire, b) == Ok(Content(value, |b|))
  {
    assert b[..|b|] == b;
    if wire == 0 {
      VarintReads(b, value.n, |b|);
    } else if wire == 2 {
      var n :| 0 <= n <= |b| && IsVarint(b[..n], |value.bytes|) && b[n..] == value.bytes;
      VarintReads(b, |value.bytes|, n);
      assert b[n..n + |value.bytes|] == b[n..];
    }
  }

  lemma ReadContentIsOne(wire: nat, b: Bytes)
    requires FieldContent(wire, b).Ok?
    ensures var c := FieldContent(wire, b).value; c.length <= |b| && IsContent(wire, b[..c.length], c.value)
  {
    var c := FieldContent(wire, b).value;
    FieldContentAdvances(wire, b);
    if wire == 0 {
      VarintReads(b, c.value.n, c.length);
    } else if wire == 2 {
      var size := ReadVarint(b).value;
      VarintReads(b, size.value, size.length);
      assert b[..c.length][..size.length] == b[..size.length];
      assert b[..c.length][size.length..] == b[size.length..c.length];
    }
  }

  lemma KeyedIsRead(b: Bytes, n: nat, f: Field)
    requires ReadVarint(b) == Ok(Read(f.number * 8 + f.wire, n)) && n <= |b| && FieldNumber(f.number) && f.wire < 8
    requires FieldContent(f.wire, b[n..]) == Ok(Content(f.value, |b| - n))
    ensures FirstField(b) == Ok(Parsed(f, |b|))
  {
    var key := f.number * 8 + f.wire;
    assert key / 8 == f.number && key % 8 == f.wire;
  }

  lemma FieldIsReadAt(b: Bytes, n: nat, f: Field)
    requires FieldNumber(f.number) && f.wire < 8 && n <= |b|
    requires IsVarint(b[..n], f.number * 8 + f.wire) && IsContent(f.wire, b[n..], f.value)
    ensures FirstField(b) == Ok(Parsed(f, |b|))
  {
    assert ReadVarint(b) == Ok(Read(f.number * 8 + f.wire, n)) by { VarintReads(b, f.number * 8 + f.wire, n); }
    assert FieldContent(f.wire, b[n..]) == Ok(Content(f.value, |b| - n)) by { ContentIsRead(f.wire, b[n..], f.value); }
    KeyedIsRead(b, n, f);
  }

  lemma FieldIsRead(b: Bytes, f: Field)
    requires IsField(b, f)
    ensures FirstField(b) == Ok(Parsed(f, |b|))
  {
    var n: nat :| n <= |b| && IsVarint(b[..n], f.number * 8 + f.wire) && IsContent(f.wire, b[n..], f.value);
    FieldIsReadAt(b, n, f);
  }

  lemma ReadFieldIsOne(b: Bytes)
    requires FirstField(b).Ok?
    ensures var p := FirstField(b).value; p.length <= |b| && IsField(b[..p.length], p.field)
  {
    var p, key := FirstField(b).value, ReadVarint(b).value;
    var n := key.length;
    VarintReads(b, key.value, n);
    ReadContentIsOne(p.field.wire, b[n..]);
    assert key.value == p.field.number * 8 + p.field.wire;
    assert b[..p.length][..n] == b[..n];
    assert b[..p.length][n..] == b[n..][..p.length - n];
  }

  // ---------------------------------------------------------------- messages

  lemma ParseStep(b: Bytes)
    requires b != []
    ensures Parse(b) == match FirstField(b)
                        case Err(error) => Err(error)
                        case Ok(p) => Prepend([p.field], Parse(b[p.length..]))
    ensures FirstField(b).Ok? ==> 0 < FirstField(b).value.length <= |b|
  {
    FirstFieldAdvances();
  }

  lemma FieldIsNotEmpty(b: Bytes, f: Field)
    requires IsField(b, f)
    ensures 0 < |b|
  {
  }

  lemma FirstOf(b: Bytes, n: nat, f: Field)
    requires n <= |b| && IsField(b[..n], f)
    ensures FirstField(b) == Ok(Parsed(f, n))
  {
    FieldIsRead(b[..n], f);
    FirstFieldIsLocal();
    assert b == b[..n] + b[n..];
  }

  lemma {:induction false} FieldsAreParsed(b: Bytes, fs: seq<Field>)
    requires IsFields(b, fs)
    ensures Parse(b) == Ok(fs)
    decreases |fs|
  {
    if fs == [] {
      FirstFieldAdvances();
    } else {
      var n :| 0 <= n <= |b| && IsField(b[..n], fs[0]) && IsFields(b[n..], fs[1..]);
      FieldIsNotEmpty(b[..n], fs[0]);
      FirstOf(b, n, fs[0]);
      ParseStep(b);
      FieldsAreParsed(b[n..], fs[1..]);
      assert fs == [fs[0]] + fs[1..];
    }
  }

  lemma {:induction false} ParsedAreFields(b: Bytes)
    requires Parse(b).Ok?
    ensures IsFields(b, Parse(b).value)
    decreases |b|
  {
    if b == [] {
      FirstFieldAdvances();
    } else {
      ParseStep(b);
      ReadFieldIsOne(b);
      var p := FirstField(b).value;
      ParsedAreFields(b[p.length..]);
      var rest := Parse(b[p.length..]).value;
      assert Parse(b).value == [p.field] + rest;
      assert ([p.field] + rest)[1..] == rest;
    }
  }

  /** A body is parsed into fields exactly when it is those fields, one after the other. */
  lemma BodyIsParsedExactlyWhen(b: Bytes, fs: seq<Field>)
    ensures Parse(b) == Ok(fs) <==> IsFields(b, fs)
  {
    if IsFields(b, fs) {
      FieldsAreParsed(b, fs);
    }
    if Parse(b) == Ok(fs) {
      ParsedAreFields(b);
    }
  }

  // ---------------------------------------------------------------- lookups

  /** The positions of the fields with a number. */
  function Positions(fields: seq<Field>, number: nat): set<int> {
    set i | 0 <= i < |fields| && fields[i].number == number
  }

  lemma PositionsExtend(init: seq<Field>, last: Field, number: nat)
    ensures |Positions(init + [last], number)| == |Positions(init, number)| + if last.number == number then 1 else 0
  {
    var here := if last.number == number then {|init|} else {};
    assert Positions(init + [last], number) == Positions(init, number) + here;
  }

  lemma {:induction false} MatchesCount(fields: seq<Field>, number: nat)
    ensures |Matches(fields, number)| == |Positions(fields, number)|
  {
    if fields == [] {
    } else {
      var init, last := fields[..|fields| - 1], fields[|fields| - 1];
      MatchesCount(init, number);
      assert fields == init + [last];
      MatchesOfConcatenation(init, [last], number);
      PositionsExtend(init, last, number);
    }
  }

  lemma OnlyMatch(fields: seq<Field>, number: nat, i: nat)
    requires i < |fields| && Positions(fields, number) == {i}
    ensures Matches(fields, number) == [fields[i]]
  {
    MatchesCount(fields, number);
    assert i in Positions(fields, number);
    assert fields[i] in Matches(fields, number);
  }

  /** A lookup finds nothing exactly when no field has the number, a value exactly when a single field has
      it, with the right wire type, and is otherwise an error. */
  lemma LookupIsExact(fields: seq<Field>, number: nat, wire: nat)
    ensures One(fields, number, wire) == Ok(None) <==> forall f :: f in fields ==> f.number != number
    ensures forall i :: 0 <= i < |fields| && Positions(fields, number) == {i} ==>
                          One(fields, number, wire) == if fields[i].wire == wire then Ok(Some(fields[i].value))
                          else Err(InvalidOrDuplicateField)
    ensures |Positions(fields, number)| > 1 ==> One(fields, number, wire) == Err(InvalidOrDuplicateField)
  {
    MatchesCount(fields, number);
    var matches := Matches(fields, number);
    assert matches != [] ==> matches[0] in matches;
    forall i | 0 <= i < |fields| && Positions(fields, number) == {i} ensures matches == [fields[i]] {
      OnlyMatch(fields, number, i);
    }
  }
}
