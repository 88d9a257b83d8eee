/**
 Durable progress of one consumer (crates/runnel-core/src/consumer_state.rs).

 `State` is the value that is cloned, cached and written to a checkpoint. An event is a sequence
 of touches, each about one offset or about the configured policy. What an event does to a single
 offset is given independently by `Touched`, on a four-part `Slot`; most theorems are proved
 slot by slot and lifted to whole states by `SlotsDetermineState`.
 */
module ConsumerProgress {
  import opened Prelude

  const MAX_POLICY_MS: nat := 7 * 24 * 60 * 60 * 1000

  datatype Policy = Policy(
    version: nat,
    configured: bool,
    ackTimeoutMs: nat,
    maxDeliveryAttempts: Option<U32>,
    retryDelayMs: nat)

  datatype Schedule = Schedule(notBeforeMs: nat, key: Option<string>)

  datatype Attempt = Attempt(offset: Offset, attempt: U32, policy: Policy)

  datatype RetryRequest = RetryRequest(offset: Offset, notBeforeMs: nat, key: Option<string>)

  datatype Event =
    | DeliveryAttempt(delivery: Attempt)
    | DeliveryAttempts(deliveries: seq<Attempt>)
    | RetrySchedules(schedules: seq<RetryRequest>)
    | Acknowledge(offset: Offset)
    | AcknowledgeBatch(offsets: seq<Offset>)
    | PolicyConfigured(policy: Policy)

  datatype EventError =
    | ZeroAttempt
    | UnconfiguredPolicy
    | AckTimeoutTooLong
    | ZeroMaxAttempts
    | RetryDelayTooLong

  datatype StateError = MissingPinnedPolicy | InconsistentState

  datatype State = State(
    committed: Offset,
    acked: set<Offset>,
    attempts: map<Offset, U32>,
    policy: Option<Policy>,
    policies: map<Offset, Policy>,
    retries: map<Offset, Schedule>)

  const Empty := State(0, {}, map[], None, map[], map[])

  // ---------------------------------------------------------------- what the code does

  predicate Settled(s: State, o: Offset) {
    o < s.committed || o in s.acked
  }

  function Deliver(s: State, d: Attempt): State {
    if Settled(s, d.offset) then s else
    s.(attempts := s.attempts[d.offset :=
    if d.offset in s.attempts then Max(s.attempts[d.offset], d.attempt) else d.attempt],
    retries := s.retries - {d.offset},
    policies := if d.offset in s.policies then s.policies else s.policies[d.offset := d.policy])
  }

  function Reschedule(s: State, r: RetryRequest): State {
    if Settled(s, r.offset) || r.offset !in s.attempts || r.offset in s.retries then s else
    s.(retries := s.retries[r.offset := Schedule(r.notBeforeMs, r.key)])
  }

  function DrainStep(s: State): State {
    s.(acked := s.acked - {s.committed}, attempts := s.attempts - {s.committed},
    policies := s.policies - {s.committed}, committed := s.committed + 1)
  }

  /** The drain loop. It forgets attempts and policies of the offsets it passes, not retries. */
  function Drain(s: State): State
    decreases |s.acked|
  {
    if s.committed in s.acked then Drain(DrainStep(s)) else s
  }

  function Forget(s: State, o: Offset): State {
    s.(attempts := s.attempts - {o}, policies := s.policies - {o}, retries := s.retries - {o})
  }

  function Ack(s: State, o: Offset): State {
    if Settled(s, o) then s
    else if o == s.committed then Drain(Forget(s, o).(committed := o + 1))
    else Forget(s, o).(acked := s.acked + {o})
  }

  datatype Touch =
    | Delivered(delivery: Attempt)
    | Rescheduled(request: RetryRequest)
    | Acked(offset: Offset)
    | Configured(policy: Policy)

  function Apply(s: State, t: Touch): State {
    match t
    case Delivered(d) => Deliver(s, d)
    case Rescheduled(r) => Reschedule(s, r)
    case Acked(o) => Ack(s, o)
    case Configured(p) => s.(policy := Some(p))
  }

  function Run(s: State, ts: seq<Touch>): State {
    if ts == [] then s else Apply(Run(s, ts[..|ts| - 1]), ts[|ts| - 1])
  }

  function Touches(e: Event): (ts: seq<Touch>) {
    match e
    case DeliveryAttempt(d) => [Delivered(d)]
    case DeliveryAttempts(ds) => seq(|ds|, i requires 0 <= i < |ds| => Delivered(ds[i]))
    case RetrySchedules(rs) => seq(|rs|, i requires 0 <= i < |rs| => Rescheduled(rs[i]))
    case Acknowledge(o) => [Acked(o)]
    case AcknowledgeBatch(os) => seq(|os|, i requires 0 <= i < |os| => Acked(os[i]))
    case PolicyConfigured(p) => [Configured(p)]
  }

  function PolicyProblem(p: Policy): Option<EventError> {
    if p.version == 0 || !p.configured then Some(UnconfiguredPolicy)
    else if p.ackTimeoutMs > MAX_POLICY_MS then Some(AckTimeoutTooLong)
    else if p.maxDeliveryAttempts == Some(0) then Some(ZeroMaxAttempts)
    else if p.retryDelayMs > MAX_POLICY_MS then Some(RetryDelayTooLong)
    else None
  }

  /** Why an event is refused. It does not depend on the state the event is applied to. */
  function Problem(e: Event): Option<EventError> {
    match e
    case DeliveryAttempt(d) => if d.attempt == 0 then Some(ZeroAttempt) else None
    case DeliveryAttempts(ds) => if exists d :: d in ds && d.attempt == 0 then Some(ZeroAttempt) else None
    case PolicyConfigured(p) => PolicyProblem(p)
    case _ => None
  }

  predicate Accepted(e: Event) {
    Problem(e).None?
  }

  function ApplyEvent(s: State, e: Event): Result<State, EventError> {
    match Problem(e)
    case Some(error) => Err(error)
    case None => Ok(Run(s, Touches(e)))
  }

  /** Replay stops at the first event that is refused. */
  function ApplyEvents(s: State, es: seq<Event>): Result<State, EventError>
    decreases |es|
  {
    if es == [] then Ok(s) else
    match ApplyEvent(s, es[0])
    case Err(error) => Err(error)
    case Ok(next) => ApplyEvents(next, es[1..])
  }

  /** The self-check run at the end of every load. */
  predicate PassesValidate(s: State) {
    && (forall o :: o in s.attempts ==> s.attempts[o] != 0 && o in s.policies)
    && (forall o :: o in s.policies ==> o in s.attempts)
    && (forall o :: o in s.retries ==> o in s.attempts)
  }

  function PolicyFor(s: State, o: Offset, legacy: Policy): Result<Policy, StateError> {
    if o in s.policies then Ok(s.policies[o])
    else if o in s.attempts then Err(MissingPinnedPolicy)
    else Ok(if s.policy.Some? then s.policy.value else legacy)
  }

  // ---------------------------------------------------------------- invariant and slots

  /** (committed, acked) is a normal form: committed is the least offset not yet settled. */
  predicate Normal(s: State) {
    forall o :: o in s.acked ==> s.committed < o
  }

  /** The inductive invariant: normal form, the self-check, and nothing kept about settled offsets. */
  predicate WellFormed(s: State) {
    && Normal(s)
    && PassesValidate(s)
    && (forall o :: o in s.attempts ==> !Settled(s, o))
  }

  /** Everything a state says about one offset. */
  datatype Slot =
    | Done
    | Open(attempt: Option<U32>, policy: Option<Policy>, retry: Option<Schedule>)

  function Lookup<V>(m: map<Offset, V>, o: Offset): Option<V> {
    if o in m then Some(m[o]) else None
  }

  function SlotOf(s: State, o: Offset): Slot {
    if Settled(s, o) then Done
    else Open(Lookup(s.attempts, o), Lookup(s.policies, o), Lookup(s.retries, o))
  }

  /** What a touch means for offset o: attempts merge by maximum, the first policy wins, the first
      schedule wins until a new attempt clears it, and Done absorbs everything. */
  function Touched(x: Slot, o: Offset, t: Touch): Slot {
    if x.Done? then Done else
    match t
    case Delivered(d) =>
      if d.offset != o then x else
      Open(Some(if x.attempt.Some? then Max(x.attempt.value, d.attempt) else d.attempt),
           if x.policy.Some? then x.policy else Some(d.policy),
           None)
    case Rescheduled(r) =>
      if r.offset == o && x.attempt.Some? && x.retry.None? then x.(retry := Some(Schedule(r.notBeforeMs, r.key)))
      else x
    case Acked(a) => if a == o then Done else x
    case Configured(_) => x
  }

  function SlotRun(x: Slot, o: Offset, ts: seq<Touch>): Slot {
    if ts == [] then x else Touched(SlotRun(x, o, ts[..|ts| - 1]), o, ts[|ts| - 1])
  }

  predicate GoodTouch(t: Touch) {
    t.Delivered? ==> t.delivery.attempt != 0
  }

  // ---------------------------------------------------------------- acknowledgement normal form

  /** A normal form is determined by the set of settled offsets. */
  lemma NormalFormUnique(s: State, t: State)
    requires Normal(s) && Normal(t)
    requires forall o: Offset :: Settled(s, o) <==> Settled(t, o)
    ensures s.committed == t.committed && s.acked == t.acked
  {
    assert !Settled(s, s.committed) && !Settled(t, t.committed);
    assert !Settled(t, s.committed) && !Settled(s, t.committed);
    forall o ensures o in s.acked <==> o in t.acked {
      assert Settled(s, o) <==> Settled(t, o);
    }
  }

  /** From any state, draining forgets exactly the attempts and policies of the offsets it passes. */
  lemma {:induction false} DrainForgets(s: State)
    ensures s.committed <= Drain(s).committed
    ensures Drain(s).retries == s.retries && Drain(s).policy == s.policy
    ensures forall o :: o in Drain(s).attempts <==> o in s.attempts && !(s.committed <= o < Drain(s).committed)
    ensures forall o :: o in Drain(s).policies <==> o in s.policies && !(s.committed <= o < Drain(s).committed)
    ensures forall o :: o in Drain(s).attempts ==> Drain(s).attempts[o] == s.attempts[o]
    ensures forall o :: o in Drain(s).policies ==> Drain(s).policies[o] == s.policies[o]
    decreases |s.acked|
  {
    if s.committed !in s.acked {
    } else {
      DrainForgets(DrainStep(s));
    }
  }

  /** From any state, the drain passes offset d exactly if every offset from committed to d is in the set. */
  lemma {:induction false} DrainPassesExactly(s: State, d: Offset)
    requires s.committed <= d
    ensures d < Drain(s).committed <==> forall e: Offset :: s.committed <= e <= d ==> e in s.acked
    decreases |s.acked|
  {
    if s.committed !in s.acked {
    } else {
      var next := DrainStep(s);
      DrainForgets(next);
      if d > s.committed {
        DrainPassesExactly(next, d);
        assert forall e: Offset :: next.committed <= e ==> (e in next.acked <==> e in s.acked);
      }
    }
  }

  /** Draining settles nothing new; it restores the normal form. */
  lemma {:induction false} DrainSettles(s: State)
    requires forall o :: o in s.acked ==> s.committed <= o
    ensures Normal(Drain(s))
    ensures forall o :: Settled(Drain(s), o) <==> Settled(s, o)
    decreases |s.acked|
  {
    if s.committed !in s.acked {
    } else {
      var next := DrainStep(s);
      DrainSettles(next);
      assert forall o :: Settled(next, o) <==> Settled(s, o);
    }
  }

  lemma DeliverKeepsSlots(s: State, d: Attempt)
    requires WellFormed(s) && d.attempt != 0
    ensures WellFormed(Deliver(s, d))
    ensures forall o :: SlotOf(Deliver(s, d), o) == Touched(SlotOf(s, o), o, Delivered(d))
  {
    var t := Deliver(s, d);
    assert forall o :: Settled(t, o) <==> Settled(s, o);
    forall o ensures SlotOf(t, o) == Touched(SlotOf(s, o), o, Delivered(d)) {
    }
  }

  lemma RescheduleKeepsSlots(s: State, r: RetryRequest)
    requires WellFormed(s)
    ensures WellFormed(Reschedule(s, r))
    ensures forall o :: SlotOf(Reschedule(s, r), o) == Touched(SlotOf(s, o), o, Rescheduled(r))
  {
    var t := Reschedule(s, r);
    assert forall o :: Settled(t, o) <==> Settled(s, o);
    forall o ensures SlotOf(t, o) == Touched(SlotOf(s, o), o, Rescheduled(r)) {
    }
  }

  lemma ForgetKeepsOthers(s: State, a: Offset)
    requires WellFormed(s)
    ensures PassesValidate(Forget(s, a))
    ensures forall o :: o in Forget(s, a).attempts ==> o != a && !Settled(s, o)
    ensures forall o :: o != a ==> SlotOf(Forget(s, a), o) == SlotOf(s, o)
  {
  }

  lemma AckKeepsSlots(s: State, a: Offset)
    requires WellFormed(s)
    ensures WellFormed(Ack(s, a))
    ensures forall o :: SlotOf(Ack(s, a), o) == Touched(SlotOf(s, o), o, Acked(a))
    ensures s.committed <= Ack(s, a).committed
  {
    if !Settled(s, a) {
      var t := Ack(s, a);
      ForgetKeepsOthers(s, a);
      if a == s.committed {
        var mid := Forget(s, a).(committed := a + 1);
        DrainForgets(mid);
        DrainSettles(mid);
        assert forall o :: Settled(mid, o) <==> Settled(s, o) || o == a;
      }
      assert forall o :: Settled(t, o) <==> Settled(s, o) || o == a;
      assert forall o :: o in t.attempts <==> o in s.attempts && o != a;
      assert forall o :: o in t.policies <==> o in s.policies && o != a;
      forall o ensures SlotOf(t, o) == Touched(SlotOf(s, o), o, Acked(a)) {
      }
    }
  }

  /** Every touch keeps the invariant and acts on each slot as `Touched` says. */
  lemma ApplyKeepsSlots(s: State, t: Touch)
    requires WellFormed(s) && GoodTouch(t)
    ensures WellFormed(Apply(s, t))
    ensures forall o :: SlotOf(Apply(s, t), o) == Touched(SlotOf(s, o), o, t)
    ensures s.committed <= Apply(s, t).committed
  {
    match t
    case Delivered(d) => DeliverKeepsSlots(s, d);
    case Rescheduled(r) => RescheduleKeepsSlots(s, r);
    case Acked(a) => AckKeepsSlots(s, a);
    case Configured(p) =>
      forall o ensures SlotOf(Apply(s, t), o) == SlotOf(s, o) {
      }
  }

  lemma LookupsDetermineMap<V>(m: map<Offset, V>, n: map<Offset, V>)
    requires forall o :: Lookup(m, o) == Lookup(n, o)
    ensures m == n
  {
    forall o: Offset
      ensures o in m <==> o in n
      ensures o in m && o in n ==> m[o] == n[o]
    {
      assert Lookup(m, o) == Lookup(n, o);
    }
  }

  lemma SlotsDetermineState(s: State, t: State)
    requires WellFormed(s) && WellFormed(t)
    requires s.policy == t.policy
    requires forall o :: SlotOf(s, o) == SlotOf(t, o)
    ensures s == t
  {
    forall o ensures Settled(s, o) <==> Settled(t, o) {
      assert SlotOf(s, o) == SlotOf(t, o);
    }
    NormalFormUnique(s, t);
    forall o
      ensures Lookup(s.attempts, o) == Lookup(t.attempts, o)
      ensures Lookup(s.policies, o) == Lookup(t.policies, o)
      ensures Lookup(s.retries, o) == Lookup(t.retries, o)
    {
      assert SlotOf(s, o) == SlotOf(t, o);
    }
    LookupsDetermineMap(s.attempts, t.attempts);
    LookupsDetermineMap(s.policies, t.policies);
    LookupsDetermineMap(s.retries, t.retries);
  }

}
