/** Base 128 varints as the workflow client writes and reads them
    (scripts/benchmarks/v2_client.py; "Base 128 Varints" in the Protocol Buffers Encoding document). */
module Varint {
  import opened Prelude

  type Bytes = seq<Byte>

  datatype ProtocolError =
    | OutOfRange            // integer outside the uint64 range
    | TruncatedVarint
    | VarintTooLarge
    | MalformedVarint
    | InvalidFieldNumber
    | TruncatedField
    | UnsupportedWireType
    | MissingField
    | InvalidOrDuplicateField
    | MissingText
    | InvalidPayload
    | InvalidBatch
    | UnsupportedOperation

  function Encode(value: nat): (b: Bytes)
    ensures 0 < |b|
  {
    if value < 0x80 then [value] else [value % 0x80 + 0x80] + Encode(value / 0x80)
  }

  datatype Read = Read(value: nat, length: nat)

  /** Reads the groups from position i on; group i is the lowest. */
  function ReadGroups(b: Bytes, i: nat): Result<Read, ProtocolError>
    requires i <= 10
    decreases 10 - i
  {
    if i == 10 then Err(MalformedVarint)
    else if i >= |b| then Err(TruncatedVarint)
    else if i == 9 && b[i] > 1 then Err(VarintTooLarge)
    else if b[i] < 0x80 then Ok(Read(b[i], i + 1))
    else
      match ReadGroups(b, i + 1)
      case Ok(high) => Ok(Read(b[i] % 0x80 + 0x80 * high.value, high.length))
      case Err(error) => Err(error)
  }

  /** Reads a varint at the front of b. */
  function ReadVarint(b: Bytes): Result<Read, ProtocolError> {
    ReadGroups(b, 0)
  }

  // ---------------------------------------------------------------- the loops

  method EncodeVarint(value: int) returns (r: Result<Bytes, ProtocolError>)
    ensures r == if 0 <= value <= U64_MAX then Ok(Encode(value)) else Err(OutOfRange)
  {
    if value < 0 || value > U64_MAX {
      return Err(OutOfRange);
    }
    var encoded: Bytes := [];
    var rest := value;
    while rest >= 0x80
      invariant rest >= 0
      invariant encoded + Encode(rest) == Encode(value)
      decreases rest
    {
      encoded := encoded + [rest % 0x80 + 0x80];
      rest := rest / 0x80;
    }
    encoded := encoded + [rest];
    return Ok(encoded);
  }

  /** The loop adds group i at its place: or-ing in bits above the accumulated ones is adding them. */
  function Accumulated(acc: nat, scale: nat, r: Result<Read, ProtocolError>): Result<Read, ProtocolError> {
    match r
    case Ok(high) => Ok(Read(acc + scale * high.value, high.length))
    case Err(error) => Err(error)
  }

  lemma AccumulateGroup(b: Bytes, i: nat, acc: nat, scale: nat, group: nat)
    requires i < 10 && i < |b| && !(i == 9 && b[i] > 1)
    requires group == b[i] % 0x80 * scale
    ensures Accumulated(acc, scale, ReadGroups(b, i)) ==
            if b[i] < 0x80 then Ok(Read(acc + group, i + 1))
            else Accumulated(acc + group, 0x80 * scale, ReadGroups(b, i + 1))
  {
    if b[i] >= 0x80 && ReadGroups(b, i + 1).Ok? {
      var low, high := b[i] % 0x80, ReadGroups(b, i + 1).value.value;
      assert acc + scale * (low + 0x80 * high) == acc + low * scale + 0x80 * scale * high;
    }
  }

  /** Reads a varint at the cursor; returns the value and the new cursor. `scale` is two to the
      power of the shift. */
  method ReadVarintAt(body: Bytes, cursor: nat) returns (r: Result<Read, ProtocolError>)
    requires cursor <= |body|
    ensures r == match ReadVarint(body[cursor..])
                 case Ok(read) => Ok(Read(read.value, cursor + read.length))
                 case Err(error) => Err(error)
  {
    ghost var b := body[cursor..];
    var value: nat, scale: nat, at: nat := 0, 1, cursor;
    for i := 0 to 10
      invariant at == cursor + i && i <= |b|
      invariant Accumulated(value, scale, ReadGroups(b, i)) == ReadVarint(b)
    {
      if at >= |body| {
        return Err(TruncatedVarint);
      }
      var byte := body[at];
      assert byte == b[i];
      at := at + 1;
      if i == 9 && byte > 1 {
        return Err(VarintTooLarge);
      }
      var group: nat := byte % 0x80 * scale;
      AccumulateGroup(b, i, value, scale, group);
      value := value + group;
      if byte < 0x80 {
        return Ok(Read(value, at));
      }
      scale := 0x80 * scale;
    }
    return Err(MalformedVarint);
  }

  // ---------------------------------------------------------------- round trip

  /** One more than the largest value that groups i to 9 can hold. */
  function Room(i: nat): nat
    requires i <= 9
    decreases 10 - i
  {
    if i == 9 then 2 else 0x80 * Room(i + 1)
  }

  lemma RoomOfAll()
    ensures Room(0) == U64_MAX + 1
  {
    assert Room(6) == 0x40_0000;
    assert Room(3) == 0x800_0000_0000;
  }

  lemma {:induction false} ReadGroupsOfEncoding(head: Bytes, value: nat, rest: Bytes)
    requires |head| <= 9 && value < Room(|head|)
    ensures ReadGroups(head + Encode(value) + rest, |head|) == Ok(Read(value, |head| + |Encode(value)|))
    decreases 10 - |head|
  {
    var i, b := |head|, head + Encode(value) + rest;
    assert b[i] == Encode(value)[0];
    if value < 0x80 {
    } else {
      var longer := head + [b[i]];
      assert b == longer + Encode(value / 0x80) + rest;
      ReadGroupsOfEncoding(longer, value / 0x80, rest);
    }
  }

  /** Whatever follows, reading an encoding returns the value and the encoding's length. */
  lemma ReadOfEncoding(value: nat, rest: Bytes)
    requires value <= U64_MAX
    ensures ReadVarint(Encode(value) + rest) == Ok(Read(value, |Encode(value)|))
  {
    RoomOfAll();
    assert [] + Encode(value) + rest == Encode(value) + rest;
    ReadGroupsOfEncoding([], value, rest);
  }

  // ---------------------------------------------------------------- what is accepted

  lemma {:induction false} RoomIsWide(i: nat)
    requires i < 9
    ensures Room(i) >= 0x80
    decreases 10 - i
  {
    if i == 8 {
    } else {
      RoomIsWide(i + 1);
    }
  }

  lemma {:induction false} ReadGroupsBounds(b: Bytes, i: nat)
    requires i <= 9
    ensures ReadGroups(b, i) != Err(MalformedVarint)
    ensures ReadGroups(b, i).Ok? ==>
              var r := ReadGroups(b, i).value;
              i < r.length <= |b| && r.length <= 10 && r.value < Room(i) && i + |Encode(r.value)| <= r.length
    decreases 10 - i
  {
    if i < |b| && b[i] >= 0x80 && i < 9 {
      ReadGroupsBounds(b, i + 1);
    }
    if i < 9 {
      RoomIsWide(i);
    }
  }

  /** An accepted varint is a 64-bit value, at least as long as the encoder's output for it; the
      reader always advances and its final "malformed" error cannot occur. */
  lemma AcceptedVarint(b: Bytes)
    ensures ReadVarint(b) != Err(MalformedVarint)
    ensures ReadVarint(b).Ok? ==>
              var r := ReadVarint(b).value;
              && r.value <= U64_MAX && 0 < r.length <= |b|
              && |Encode(r.value)| <= r.length <= 10
  {
    RoomOfAll();
    ReadGroupsBounds(b, 0);
  }

  lemma {:induction false} ReadGroupsIsLocal(a: Bytes, b: Bytes, i: nat)
    requires i <= 10 && ReadGroups(a, i).Ok?
    ensures ReadGroups(a + b, i) == ReadGroups(a, i)
    decreases 10 - i
  {
    if a[i] < 0x80 {
    } else {
      ReadGroupsIsLocal(a, b, i + 1);
    }
  }

  /** Bytes after an accepted varint do not change how it is read. */
  lemma ReadIsLocal(a: Bytes, b: Bytes)
    requires ReadVarint(a).Ok?
    ensures ReadVarint(a + b) == ReadVarint(a)
  {
    ReadGroupsIsLocal(a, b, 0);
  }
}
