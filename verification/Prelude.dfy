/** Types shared by every part of the model. */
module Prelude {

  datatype Option<+T> = None | Some(value: T)

  datatype Result<+T, +E> = Ok(value: T) | Err(error: E)

  /** A log offset. The source uses u64; ProgressTheorems.CommittedOffsetLeavesRangeExactlyWhen says when
      the committed offset can leave that range. */
  type Offset = nat

  type Byte = x: int | 0 <= x < 256

  const U32_MAX: nat := 0xFFFF_FFFF
  const U64_MAX: nat := 0xFFFF_FFFF_FFFF_FFFF

  type U32 = x: int | 0 <= x <= U32_MAX

  function Max(a: nat, b: nat): nat {
    if a < b then b else a
  }

  /** The decimal digits of a number. */
  function Digits(n: nat): (text: string)
    ensures text != [] && forall c :: c in text ==> '0' <= c <= '9'
  {
    var digit := [('0' as int + n % 10) as char];
    if n < 10 then digit else Digits(n / 10) + digit
  }

  lemma {:induction false} DigitsInjective(a: nat, b: nat)
    requires Digits(a) == Digits(b)
    ensures a == b
  {
    var x, y := Digits(a), Digits(b);
    assert x[|x| - 1] == ('0' as int + a % 10) as char;
    assert y[|y| - 1] == ('0' as int + b % 10) as char;
    assert a % 10 == b % 10;
    assert |x| == 1 <==> a < 10;
    assert |y| == 1 <==> b < 10;
    if a < 10 {
    } else {
      assert Digits(a / 10) == x[..|x| - 1] == Digits(b / 10);
      DigitsInjective(a / 10, b / 10);
    }
  }

  // ---------------------------------------------------------------- sizes of sets

  lemma SubsetSize<T>(a: set<T>, b: set<T>)
    requires a <= b
    ensures |a| <= |b|
  {
    assert b == a + (b - a);
  }

  lemma SubsetOfEqualSize<T>(a: set<T>, b: set<T>)
    requires a <= b && |a| >= |b|
    ensures a == b
  {
    assert b == a + (b - a);
  }
}
