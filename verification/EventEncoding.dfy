/**
 The laws the journal theorems ask of an event serializer can be met: a self-delimiting encoding of
 consumer events, so that no theorem about lawful logs is empty.
 */
module EventEncoding {
  import opened Prelude
  import opened ConsumerProgress
  import EL = EventLog
  import opened ConsumerJournal

  /** A code can be cancelled from the front of any text: it is injective and no code is a strict
      prefix of another. */
  ghost predicate Cancels<T(!new), B(!new)>(f: T -> seq<B>) {
    forall a, b, x, y :: f(a) + x == f(b) + y ==> a == b && x == y
  }

  function Items<T, B>(f: T -> seq<B>, xs: seq<T>): seq<B> {
    if xs == [] then [] else f(xs[0]) + Items(f, xs[1..])
  }

  lemma {:induction false} ItemsCancel<T(!new), B(!new)>(f: T -> seq<B>, a: seq<T>, b: seq<T>, x: seq<B>, y: seq<B>)
    requires Cancels(f) && |a| == |b| && Items(f, a) + x == Items(f, b) + y
    ensures a == b && x == y
  {
    if a == [] {
      assert [] + x == x && [] + y == y;
    } else {
      assert Items(f, a) + x == f(a[0]) + (Items(f, a[1..]) + x);
      assert Items(f, b) + y == f(b[0]) + (Items(f, b[1..]) + y);
      assert a[0] == b[0] && Items(f, a[1..]) + x == Items(f, b[1..]) + y;
      ItemsCancel(f, a[1..], b[1..], x, y);
      assert a == [a[0]] + a[1..] && b == [b[0]] + b[1..];
    }
  }

  // ---------------------------------------------------------------- events as numbers

  type Numbers = seq<nat>

  function OptionalNumber(n: Option<U32>): Numbers {
    if n.Some? then [1, n.value] else [0, 0]
  }

  function PolicyNumbers(p: Policy): Numbers {
    [p.version, if p.configured then 1 else 0, p.ackTimeoutMs, p.retryDelayMs] + OptionalNumber(p.maxDeliveryAttempts)
  }

  function AttemptNumbers(d: Attempt): Numbers {
    [d.offset, d.attempt] + PolicyNumbers(d.policy)
  }

  function CharNumber(c: char): Numbers {
    [c as int]
  }

  function RetryNumbers(r: RetryRequest): Numbers {
    var key := if r.key.Some? then r.key.value else [];
    [r.offset, r.notBeforeMs, if r.key.Some? then 1 else 0, |key|] + Items(CharNumber, key)
  }

  function OffsetNumber(o: Offset): Numbers {
    [o]
  }

  function EventNumbers(e: Event): Numbers {
    match e
    case DeliveryAttempt(d) => [0, 0] + AttemptNumbers(d)
    case DeliveryAttempts(ds) => [1, |ds|] + Items(AttemptNumbers, ds)
    case RetrySchedules(rs) => [2, |rs|] + Items(RetryNumbers, rs)
    case Acknowledge(o) => [3, 0] + OffsetNumber(o)
    case AcknowledgeBatch(os) => [4, |os|] + Items(OffsetNumber, os)
    case PolicyConfigured(p) => [5, 0] + PolicyNumbers(p)
  }

  /** Codes that start with the same numbers have equal remainders. */
  lemma SplitFront(head: Numbers, a: Numbers, x: Numbers, head': Numbers, b: Numbers, y: Numbers)
    requires |head| == |head'| && (head + a) + x == (head' + b) + y
    ensures head == head' && a + x == b + y
  {
    assert (head + a) + x == head + (a + x) && (head' + b) + y == head' + (b + y);
    assert head == (head + (a + x))[..|head|] && head' == (head' + (b + y))[..|head|];
    assert a + x == (head + (a + x))[|head|..] && b + y == (head' + (b + y))[|head|..];
  }

  lemma SameWidth<B>(p: seq<B>, x: seq<B>, q: seq<B>, y: seq<B>)
    requires |p| == |q| && p + x == q + y
    ensures p == q && x == y
  {
    assert p == (p + x)[..|p|] && q == (q + y)[..|p|];
    assert x == (p + x)[|p|..] && y == (q + y)[|p|..];
  }

  lemma PolicyCancels()
    ensures Cancels(PolicyNumbers)
  {
    forall a, b, x, y | PolicyNumbers(a) + x == PolicyNumbers(b) + y ensures a == b && x == y {
      SameWidth(PolicyNumbers(a), x, PolicyNumbers(b), y);
      var p, q := PolicyNumbers(a), PolicyNumbers(b);
      assert p[0] == q[0] && p[1] == q[1] && p[2] == q[2] && p[3] == q[3] && p[4] == q[4] && p[5] == q[5];
    }
  }

  lemma AttemptCancels()
    ensures Cancels(AttemptNumbers)
  {
    forall a, b, x, y | AttemptNumbers(a) + x == AttemptNumbers(b) + y ensures a == b && x == y {
      SplitFront([a.offset, a.attempt], PolicyNumbers(a.policy), x, [b.offset, b.attempt], PolicyNumbers(b.policy), y);
      PolicyCancels();
    }
  }

  lemma CharsCancel()
    ensures Cancels(CharNumber)
  {
    forall a, b, x, y | CharNumber(a) + x == CharNumber(b) + y ensures a == b && x == y {
      SameWidth(CharNumber(a), x, CharNumber(b), y);
    }
  }

  lemma RetryCancels()
    ensures Cancels(RetryNumbers)
  {
    forall a, b, x, y | RetryNumbers(a) + x == RetryNumbers(b) + y ensures a == b && x == y {
      var p := if a.key.Some? then a.key.value else [];
      var q := if b.key.Some? then b.key.value else [];
      var f := [a.offset, a.notBeforeMs, if a.key.Some? then 1 else 0, |p|];
      var g := [b.offset, b.notBeforeMs, if b.key.Some? then 1 else 0, |q|];
      SplitFront(f, Items(CharNumber, p), x, g, Items(CharNumber, q), y);
      assert f[0] == g[0] && f[1] == g[1] && f[2] == g[2] && f[3] == g[3];
      CharsCancel();
      ItemsCancel(CharNumber, p, q, x, y);
    }
  }

  lemma OffsetsCancel()
    ensures Cancels(OffsetNumber)
  {
    forall a, b, x, y | OffsetNumber(a) + x == OffsetNumber(b) + y ensures a == b && x == y {
      SameWidth(OffsetNumber(a), x, OffsetNumber(b), y);
    }
  }

  lemma EventNumbersInjective(a: Event, b: Event)
    requires EventNumbers(a) == EventNumbers(b)
    ensures a == b
  {
    assert EventNumbers(a)[0] == EventNumbers(b)[0] && EventNumbers(a)[1] == EventNumbers(b)[1];
    var p, q := EventNumbers(a)[2..], EventNumbers(b)[2..];
    assert p + [] == q + [];
    match a {
      case DeliveryAttempt(d) =>
        assert p == AttemptNumbers(d) && q == AttemptNumbers(b.delivery);
        AttemptCancels();
      case DeliveryAttempts(ds) =>
        assert p == Items(AttemptNumbers, ds) && q == Items(AttemptNumbers, b.deliveries);
        AttemptCancels();
        ItemsCancel(AttemptNumbers, ds, b.deliveries, [], []);
      case RetrySchedules(rs) =>
        assert p == Items(RetryNumbers, rs) && q == Items(RetryNumbers, b.schedules);
        RetryCancels();
        ItemsCancel(RetryNumbers, rs, b.schedules, [], []);
      case Acknowledge(o) =>
        assert p == OffsetNumber(o) && q == OffsetNumber(b.offset);
        OffsetsCancel();
      case AcknowledgeBatch(os) =>
        assert p == Items(OffsetNumber, os) && q == Items(OffsetNumber, b.offsets);
        OffsetsCancel();
        ItemsCancel(OffsetNumber, os, b.offsets, [], []);
      case PolicyConfigured(c) =>
        assert p == PolicyNumbers(c) && q == PolicyNumbers(b.policy);
        PolicyCancels();
    }
  }

  // ---------------------------------------------------------------- numbers as bytes

  /** The number as that many ones and a zero. */
  function Unary(n: nat): seq<Byte> {
    seq(n, _ => 1) + [0]
  }

  lemma UnaryCancel(a: nat, b: nat, x: seq<Byte>, y: seq<Byte>)
    requires Unary(a) + x == Unary(b) + y
    ensures a == b && x == y
  {
    var s, t := Unary(a) + x, Unary(b) + y;
    assert s[a] == 0 && t[b] == 0;
    SameWidth(Unary(a), x, Unary(b), y);
  }

  lemma UnaryCancels()
    ensures Cancels(Unary)
  {
    forall a, b, x, y | Unary(a) + x == Unary(b) + y ensures a == b && x == y {
      UnaryCancel(a, b, x, y);
    }
  }

  lemma ListCancels(p: Numbers, q: Numbers, x: seq<Byte>, y: seq<Byte>)
    requires |p| == |q| && Items(Unary, p) + x == Items(Unary, q) + y
    ensures p == q && x == y
  {
    UnaryCancels();
    ItemsCancel(Unary, p, q, x, y);
  }

  function EventBytes(e: Event): seq<Byte> {
    Unary(|EventNumbers(e)|) + Items(Unary, EventNumbers(e))
  }

  lemma EventsCancel(a: Event, b: Event, x: seq<Byte>, y: seq<Byte>)
    requires EventBytes(a) + x == EventBytes(b) + y
    ensures a == b && x == y
  {
    var p, q := EventNumbers(a), EventNumbers(b);
    assert EventBytes(a) + x == Unary(|p|) + (Items(Unary, p) + x);
    assert EventBytes(b) + y == Unary(|q|) + (Items(Unary, q) + y);
    UnaryCancel(|p|, |q|, Items(Unary, p) + x, Items(Unary, q) + y);
    ListCancels(p, q, x, y);
    EventNumbersInjective(a, b);
  }

  lemma UnaryIsBits(n: nat)
    ensures forall c :: c in Unary(n) ==> c <= 1
  {
  }

  lemma {:induction false} OnlyBits(ns: Numbers)
    ensures forall c :: c in Items(Unary, ns) ==> c <= 1
  {
    if ns == [] {
    } else {
      UnaryIsBits(ns[0]);
      OnlyBits(ns[1..]);
    }
  }

  // ---------------------------------------------------------------- a lawful log

  ghost predicate IsCode(b: seq<Byte>) {
    exists e :: EventBytes(e) == b
  }

  ghost function Decoded(b: seq<Byte>): Option<Event> {
    if IsCode(b) then var e :| EventBytes(e) == b; Some(e) else None
  }

  ghost function SampleCodec(): Codec {
    Codec(EventBytes, b => Decoded(b), b => IsCode(b))
  }

  /** There is a lawful log of the consumer's state machine. */
  lemma LawfulConsumerLogsExist()
    ensures EL.Lawful(ConsumerLog(SampleCodec()))
  {
    var l := ConsumerLog(SampleCodec());
    forall e ensures l.decode(l.encode(e)) == Some(e) && EL.NEWLINE !in l.encode(e) {
      var b := EventBytes(e);
      assert IsCode(b);
      EventsCancel(e, Decoded(b).value, [], []);
      UnaryIsBits(|EventNumbers(e)|);
      OnlyBits(EventNumbers(e));
    }
    forall e, p | p < l.encode(e) ensures !l.isJson(p) {
      if IsCode(p) {
        var short :| EventBytes(short) == p;
        var rest := EventBytes(e)[|p|..];
        assert EventBytes(e) + [] == EventBytes(short) + rest;
        EventsCancel(e, short, [], rest);
      }
    }
    ConsumerLogIsLawful(SampleCodec());
  }
}
