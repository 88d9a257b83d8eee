/**
 What the broker does inside a request once it holds a consumer state
 (crates/runnel-core/src/broker.rs). Each action persists one event and then updates its own copy of
 the state by hand; `LocalUpdateIsEvent` shows that the hand-written update is the event's effect,
 so that the copy it caches is the state the files stand for.
 */
module BrokerActions {
  import opened Prelude
  import opened ConsumerProgress
  import opened ProgressTheorems
  import opened DeliveryIndex

  datatype Pending = Pending(delivery: InFlight, policy: Policy)

  datatype Action =
    | Configure(policy: Policy)
    | DeliverOne(pending: Pending)
    | DeliverMany(batch: seq<Pending>)
    | AckOne(offset: Offset)
    | AckMany(offsets: seq<Offset>)
    | DeadLetter(offset: Offset)
    | ScheduleExpired(schedules: seq<RetryRequest>, released: seq<DeliveryKey>)
    | ScheduleOrphan(request: RetryRequest)

  function AttemptOf(p: Pending): Attempt {
    Attempt(p.delivery.offset, p.delivery.attempt, p.policy)
  }

  function EventOf(a: Action): Event {
    match a
    case Configure(p) => PolicyConfigured(p)
    case DeliverOne(p) => DeliveryAttempt(AttemptOf(p))
    case DeliverMany(ps) => DeliveryAttempts(seq(|ps|, i requires 0 <= i < |ps| => AttemptOf(ps[i])))
    case AckOne(o) => Acknowledge(o)
    case AckMany(os) => AcknowledgeBatch(os)
    case DeadLetter(o) => Acknowledge(o)
    case ScheduleExpired(rs, _) => RetrySchedules(rs)
    case ScheduleOrphan(r) => RetrySchedules([r])
  }

  // ---------------------------------------------------------------- the hand-written updates

  /** A delivery overwrites the attempt counter, clears the schedule and pins the policy if absent. */
  function Assign(s: State, p: Pending): State {
    var o := p.delivery.offset;
    s.(attempts := s.attempts[o := p.delivery.attempt],
    retries := s.retries - {o},
    policies := if o in s.policies then s.policies else s.policies[o := p.policy])
  }

  function AssignAll(s: State, ps: seq<Pending>): State {
    if ps == [] then s else Assign(AssignAll(s, ps[..|ps| - 1]), ps[|ps| - 1])
  }

  function AckAll(s: State, os: seq<Offset>): State {
    if os == [] then s else Ack(AckAll(s, os[..|os| - 1]), os[|os| - 1])
  }

  function KeepOrInsert(s: State, r: RetryRequest): State {
    if r.offset in s.retries then s else s.(retries := s.retries[r.offset := Schedule(r.notBeforeMs, r.key)])
  }

  function KeepOrInsertAll(s: State, rs: seq<RetryRequest>): State {
    if rs == [] then s else KeepOrInsert(KeepOrInsertAll(s, rs[..|rs| - 1]), rs[|rs| - 1])
  }

  function Local(s: State, a: Action): State {
    match a
    case Configure(p) => s.(policy := Some(p))
    case DeliverOne(p) => Assign(s, p)
    case DeliverMany(ps) => AssignAll(s, ps)
    case AckOne(o) => Ack(s, o)
    case AckMany(os) => AckAll(s, os)
    case DeadLetter(o) => Ack(s, o)
    case ScheduleExpired(rs, _) => KeepOrInsertAll(s, rs)
    case ScheduleOrphan(r) => s.(retries := s.retries[r.offset := Schedule(r.notBeforeMs, r.key)])
  }

  // ---------------------------------------------------------------- when an action is taken

  function NextAttempt(s: State, o: Offset): U32 {
    var current := if o in s.attempts then s.attempts[o] else 0;
    if current == U32_MAX then U32_MAX else current + 1
  }

  /** A record the candidate search may return: not settled, offset and key not in flight. */
  predicate Candidate(ix: Indexes, c: string, s: State, p: Pending) {
    var d := p.delivery;
    && !Settled(s, d.offset)
    && Permitted(ix, InsertOp(c, d))
    && d.attempt == NextAttempt(s, d.offset)
  }

  /** Within a batch, chosen offsets and keys are excluded from the next search. */
  predicate Apart(p: Pending, q: Pending) {
    && p.delivery.offset != q.delivery.offset
    && (p.delivery.key.Some? ==> p.delivery.key != q.delivery.key)
  }

  ghost predicate Enabled(ix: Indexes, c: string, s: State, a: Action) {
    match a
    case Configure(p) => PolicyProblem(p).None?
    case DeliverOne(p) => Candidate(ix, c, s, p)
    case DeliverMany(ps) =>
      && (forall i :: 0 <= i < |ps| ==> Candidate(ix, c, s, ps[i]))
      && (forall i, j :: 0 <= i < j < |ps| ==> Apart(ps[i], ps[j]))
    case AckOne(o) => DeliveryKey(c, o) in ix.inFlight
    case AckMany(os) => forall o :: o in os ==> DeliveryKey(c, o) in ix.inFlight
    case DeadLetter(o) => DeliveryKey(c, o) !in ix.inFlight
    case ScheduleExpired(rs, ks) =>
      && (forall k :: k in ks ==> k in ix.inFlight && k.consumer == c)
      && (forall r :: r in rs ==> DeliveryKey(c, r.offset) in ks && r.offset !in s.retries)
    case ScheduleOrphan(r) => r.offset in s.attempts && r.offset !in s.retries
  }

  /** Every delivery in flight is an attempt the state records, with the same counter. */
  ghost predicate FlightsRecorded(f: Flights, c: string, s: State) {
    forall k :: k in f && k.consumer == c ==> k.offset in s.attempts && s.attempts[k.offset] == f[k].attempt
  }

  // ---------------------------------------------------------------- local update == event

  lemma {:induction false} AssignAllFrame(s: State, ps: seq<Pending>, o: Offset)
    requires forall i :: 0 <= i < |ps| ==> ps[i].delivery.offset != o
    ensures AssignAll(s, ps).committed == s.committed && AssignAll(s, ps).acked == s.acked
    ensures Lookup(AssignAll(s, ps).attempts, o) == Lookup(s.attempts, o)
  {
    if ps == [] {
    } else {
      AssignAllFrame(s, ps[..|ps| - 1], o);
    }
  }

  lemma {:induction false} AssignAllRecords(s: State, ps: seq<Pending>, i: nat)
    requires i < |ps|
    requires forall i, j :: 0 <= i < j < |ps| ==> ps[i].delivery.offset != ps[j].delivery.offset
    ensures Lookup(AssignAll(s, ps).attempts, ps[i].delivery.offset) == Some(ps[i].delivery.attempt)
  {
    if i == |ps| - 1 {
    } else {
      AssignAllRecords(s, ps[..|ps| - 1], i);
    }
  }

  lemma {:induction false} AssignIsDeliver(s: State, ps: seq<Pending>, ts: seq<Touch>)
    requires |ts| == |ps| && forall i :: 0 <= i < |ps| ==> ts[i] == Delivered(AttemptOf(ps[i]))
    requires forall i :: 0 <= i < |ps| ==> !Settled(s, ps[i].delivery.offset)
    requires forall i :: 0 <= i < |ps| ==> ps[i].delivery.attempt == NextAttempt(s, ps[i].delivery.offset)
    requires forall i, j :: 0 <= i < j < |ps| ==> ps[i].delivery.offset != ps[j].delivery.offset
    ensures AssignAll(s, ps) == Run(s, ts)
  {
    if ps == [] {
    } else {
      var n := |ps| - 1;
      AssignIsDeliver(s, ps[..n], ts[..n]);
      var mid, o := AssignAll(s, ps[..n]), ps[n].delivery.offset;
      AssignAllFrame(s, ps[..n], o);
      assert NextAttempt(mid, o) == NextAttempt(s, o);
      assert Assign(mid, ps[n]) == Deliver(mid, AttemptOf(ps[n]));
    }
  }

  lemma {:induction false} AckAllIsRun(s: State, os: seq<Offset>, ts: seq<Touch>)
    requires |ts| == |os| && forall i :: 0 <= i < |os| ==> ts[i] == Acked(os[i])
    ensures AckAll(s, os) == Run(s, ts)
  {
    if os == [] {
    } else {
      AckAllIsRun(s, os[..|os| - 1], ts[..|os| - 1]);
    }
  }

  lemma {:induction false} KeepOrInsertIsReschedule(s: State, rs: seq<RetryRequest>, ts: seq<Touch>)
    requires WellFormed(s)
    requires |ts| == |rs| && forall i :: 0 <= i < |rs| ==> ts[i] == Rescheduled(rs[i])
    requires forall r :: r in rs ==> r.offset in s.attempts
    ensures KeepOrInsertAll(s, rs) == Run(s, ts)
    ensures KeepOrInsertAll(s, rs) == s.(retries := KeepOrInsertAll(s, rs).retries)
  {
    if rs == [] {
    } else {
      var n := |rs| - 1;
      KeepOrInsertIsReschedule(s, rs[..n], ts[..n]);
      var mid := KeepOrInsertAll(s, rs[..n]);
      assert rs[n] in rs;
      assert !Settled(s, rs[n].offset);
      assert KeepOrInsert(mid, rs[n]) == Reschedule(mid, rs[n]);
    }
  }

  lemma DeliveryUpdateIsEvent(ix: Indexes, c: string, s: State, ps: seq<Pending>)
    requires Enabled(ix, c, s, DeliverMany(ps))
    ensures ApplyEvent(s, EventOf(DeliverMany(ps))) == Ok(AssignAll(s, ps))
  {
    var e := EventOf(DeliverMany(ps));
    forall d | d in e.deliveries ensures d.attempt != 0 {
      var i :| 0 <= i < |ps| && d == AttemptOf(ps[i]);
      assert Candidate(ix, c, s, ps[i]);
    }
    forall i, j | 0 <= i < j < |ps| ensures ps[i].delivery.offset != ps[j].delivery.offset {
      assert Apart(ps[i], ps[j]);
    }
    forall i | 0 <= i < |ps| ensures !Settled(s, ps[i].delivery.offset)
                                     && ps[i].delivery.attempt == NextAttempt(s, ps[i].delivery.offset) {
      assert Candidate(ix, c, s, ps[i]);
    }
    AssignIsDeliver(s, ps, Touches(e));
  }

  lemma ScheduleUpdateIsEvent(ix: Indexes, c: string, s: State, rs: seq<RetryRequest>, ks: seq<DeliveryKey>)
    requires WellFormed(s) && FlightsRecorded(ix.inFlight, c, s) && Enabled(ix, c, s, ScheduleExpired(rs, ks))
    ensures ApplyEvent(s, RetrySchedules(rs)) == Ok(KeepOrInsertAll(s, rs))
  {
    forall r | r in rs ensures r.offset in s.attempts {
      assert DeliveryKey(c, r.offset) in ks;
    }
    KeepOrInsertIsReschedule(s, rs, Touches(RetrySchedules(rs)));
  }

  lemma RunOne(s: State, t: Touch)
    ensures Run(s, [t]) == Apply(s, t)
  {
    assert [t][..0] == [];
  }

  /** The broker's own update of its copy is exactly what replaying the event would do. */
  lemma LocalUpdateIsEvent(ix: Indexes, c: string, s: State, a: Action)
    requires WellFormed(s) && FlightsRecorded(ix.inFlight, c, s) && Enabled(ix, c, s, a)
    ensures ApplyEvent(s, EventOf(a)) == Ok(Local(s, a))
  {
    match a
    case DeliverMany(ps) => DeliveryUpdateIsEvent(ix, c, s, ps);
    case AckMany(os) => AckAllIsRun(s, os, Touches(AcknowledgeBatch(os)));
    case ScheduleExpired(rs, ks) => ScheduleUpdateIsEvent(ix, c, s, rs, ks);
    case ScheduleOrphan(r) => RunOne(s, Rescheduled(r));
    case _ => RunOne(s, Touches(EventOf(a))[0]);
  }

  // ---------------------------------------------------------------- what an action does to an offset

  /** A delivery counts the next attempt, keeps a pinned policy or pins its own, and clears the schedule. */
  function Handed(x: Slot, p: Pending): Slot
    requires x.Open?
  {
    Open(Some(p.delivery.attempt), if x.policy.Some? then x.policy else Some(p.policy), None)
  }

  lemma {:induction false} AssignAllSlots(s: State, ps: seq<Pending>, o: Offset)
    requires forall i, j :: 0 <= i < j < |ps| ==> ps[i].delivery.offset != ps[j].delivery.offset
    requires !Settled(s, o)
    ensures AssignAll(s, ps).committed == s.committed && AssignAll(s, ps).acked == s.acked
    ensures forall i :: 0 <= i < |ps| && ps[i].delivery.offset == o ==>
                          SlotOf(AssignAll(s, ps), o) == Handed(SlotOf(s, o), ps[i])
    ensures (forall i :: 0 <= i < |ps| ==> ps[i].delivery.offset != o) ==> SlotOf(AssignAll(s, ps), o) == SlotOf(s, o)
  {
    if ps == [] {
    } else {
      AssignAllSlots(s, ps[..|ps| - 1], o);
    }
  }

  lemma {:induction false} AckAllSlots(s: State, os: seq<Offset>, o: Offset)
    requires WellFormed(s)
    ensures WellFormed(AckAll(s, os)) && SlotOf(AckAll(s, os), o) == if o in os then Done else SlotOf(s, o)
  {
    if os == [] {
    } else {
      var init, last := os[..|os| - 1], os[|os| - 1];
      AckAllSlots(s, init, o);
      AckKeepsSlots(AckAll(s, init), last);
      assert os == init + [last];
    }
  }

  /** The retry becomes that of a request for the offset; nothing else of the offset changes. */
  ghost predicate WaitsFor(x: Slot, y: Slot, rs: seq<RetryRequest>, o: Offset) {
    exists r :: r in rs && r.offset == o && x.Open? && y == x.(retry := Some(Schedule(r.notBeforeMs, r.key)))
  }

  lemma {:induction false} KeepOrInsertAllSlots(s: State, rs: seq<RetryRequest>, o: Offset)
    requires !Settled(s, o) && o !in s.retries
    ensures var t := KeepOrInsertAll(s, rs); t == s.(retries := t.retries)
    ensures var t := KeepOrInsertAll(s, rs);
            if exists r :: r in rs && r.offset == o then WaitsFor(SlotOf(s, o), SlotOf(t, o), rs, o)
            else SlotOf(t, o) == SlotOf(s, o)
  {
    if rs == [] {
    } else {
      var init, last := rs[..|rs| - 1], rs[|rs| - 1];
      KeepOrInsertAllSlots(s, init, o);
      assert rs == init + [last];
    }
  }

  /** What an action means for an offset: a handed-out record counts the attempt and pins its policy,
      acknowledged and dead-lettered offsets are settled, scheduled ones wait, and every other offset is as
      it was. */
  ghost predicate Felt(x: Slot, y: Slot, o: Offset, a: Action) {
    match a
    case Configure(_) => y == x
    case DeliverOne(p) => y == if o == p.delivery.offset && x.Open? then Handed(x, p) else x
    case DeliverMany(ps) =>
      if x.Open? then
        && (forall i :: 0 <= i < |ps| && ps[i].delivery.offset == o ==> y == Handed(x, ps[i]))
        && ((forall i :: 0 <= i < |ps| ==> ps[i].delivery.offset != o) ==> y == x)
      else y.Done?
    case AckOne(q) => y == if o == q then Done else x
    case AckMany(os) => y == if o in os then Done else x
    case DeadLetter(q) => y == if o == q then Done else x
    case ScheduleExpired(rs, _) =>
      if exists r :: r in rs && r.offset == o then WaitsFor(x, y, rs, o) else y == x
    case ScheduleOrphan(r) => if o == r.offset then WaitsFor(x, y, [r], o) else y == x
  }

  lemma {:induction false} NotScheduled(s: State, rs: seq<RetryRequest>, o: Offset)
    requires forall r :: r in rs ==> r.offset != o
    ensures SlotOf(KeepOrInsertAll(s, rs), o) == SlotOf(s, o)
  {
    if rs == [] {
    } else {
      NotScheduled(s, rs[..|rs| - 1], o);
      assert rs[|rs| - 1] in rs;
    }
  }

  lemma ScheduleIsFelt(ix: Indexes, c: string, s: State, rs: seq<RetryRequest>, ks: seq<DeliveryKey>, o: Offset)
    requires WellFormed(s) && FlightsRecorded(ix.inFlight, c, s) && Enabled(ix, c, s, ScheduleExpired(rs, ks))
    ensures Felt(SlotOf(s, o), SlotOf(KeepOrInsertAll(s, rs), o), o, ScheduleExpired(rs, ks))
  {
    if exists r :: r in rs && r.offset == o {
      var r :| r in rs && r.offset == o;
      assert DeliveryKey(c, o) in ks;
      KeepOrInsertAllSlots(s, rs, o);
    } else {
      NotScheduled(s, rs, o);
    }
  }

  lemma BatchIsFelt(ix: Indexes, c: string, s: State, ps: seq<Pending>, o: Offset)
    requires Enabled(ix, c, s, DeliverMany(ps))
    ensures Felt(SlotOf(s, o), SlotOf(AssignAll(s, ps), o), o, DeliverMany(ps))
  {
    forall i | 0 <= i < |ps| ensures !Settled(s, ps[i].delivery.offset) {
      assert Candidate(ix, c, s, ps[i]);
    }
    if Settled(s, o) {
      AssignAllFrame(s, ps, o);
    } else {
      forall i, j | 0 <= i < j < |ps| ensures ps[i].delivery.offset != ps[j].delivery.offset {
        assert Apart(ps[i], ps[j]);
      }
      AssignAllSlots(s, ps, o);
    }
  }

  /** Every action does to every offset what it means, and configuring a policy does nothing else. */
  lemma ActionIsFelt(ix: Indexes, c: string, s: State, a: Action, o: Offset)
    requires WellFormed(s) && FlightsRecorded(ix.inFlight, c, s) && Enabled(ix, c, s, a)
    ensures Felt(SlotOf(s, o), SlotOf(Local(s, a), o), o, a)
    ensures a.Configure? ==> Local(s, a) == s.(policy := Some(a.policy))
  {
    match a
    case DeliverMany(ps) => BatchIsFelt(ix, c, s, ps, o);
    case AckOne(q) => AckKeepsSlots(s, q);
    case AckMany(os) => AckAllSlots(s, os, o);
    case DeadLetter(q) => AckKeepsSlots(s, q);
    case ScheduleExpired(rs, ks) => ScheduleIsFelt(ix, c, s, rs, ks, o);
    case _ =>
  }
}
