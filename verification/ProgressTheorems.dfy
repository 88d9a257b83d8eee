/** What every run of consumer events keeps: idempotent replay, lifetime of a delivery,
    order-independent acknowledgement and the self-check. */
module ProgressTheorems {
  import opened Prelude
  import opened ConsumerProgress

  ghost predicate GoodTouches(ts: seq<Touch>) {
    forall t :: t in ts ==> GoodTouch(t)
  }

  lemma {:induction false} RunKeepsSlots(s: State, ts: seq<Touch>)
    requires WellFormed(s) && GoodTouches(ts)
    ensures WellFormed(Run(s, ts))
    ensures forall o :: SlotOf(Run(s, ts), o) == SlotRun(SlotOf(s, o), o, ts)
    ensures s.committed <= Run(s, ts).committed
  {
    if ts == [] {
    } else {
      RunKeepsSlots(s, ts[..|ts| - 1]);
      ApplyKeepsSlots(Run(s, ts[..|ts| - 1]), ts[|ts| - 1]);
    }
  }

  lemma {:induction false} RunAppend(s: State, ts: seq<Touch>, us: seq<Touch>)
    ensures Run(s, ts + us) == Run(Run(s, ts), us)
  {
    if us == [] {
      assert ts + us == ts;
    } else {
      RunAppend(s, ts, us[..|us| - 1]);
      assert (ts + us)[..|ts + us| - 1] == ts + us[..|us| - 1];
    }
  }

  // ---------------------------------------------------------------- replaying twice

  lemma {:induction false} DoneAbsorbs(o: Offset, ts: seq<Touch>)
    ensures SlotRun(Done, o, ts) == Done
  {
    if ts == [] {
    } else {
      DoneAbsorbs(o, ts[..|ts| - 1]);
    }
  }

  /** An open slot saw no acknowledgement, and its attempt dominates every attempt of the run. */
  lemma {:induction false} OpenSlotDominates(x: Slot, o: Offset, ts: seq<Touch>)
    requires SlotRun(x, o, ts).Open?
    ensures x.Open? && Acked(o) !in ts
    ensures forall t :: t in ts && t.Delivered? && t.delivery.offset == o ==>
                          SlotRun(x, o, ts).attempt.Some? && t.delivery.attempt <= SlotRun(x, o, ts).attempt.value
    ensures x.attempt.Some? ==> SlotRun(x, o, ts).attempt.Some? && x.attempt.value <= SlotRun(x, o, ts).attempt.value
    ensures x.policy.Some? ==> SlotRun(x, o, ts).policy == x.policy
  {
    if ts == [] {
    } else {
      OpenSlotDominates(x, o, ts[..|ts| - 1]);
    }
  }

  /** Attempts that are already dominated change neither attempt nor policy of a pinned slot. */
  lemma {:induction false} DominatedRunKeepsAttempt(z: Slot, o: Offset, ts: seq<Touch>)
    requires z.Open? && z.attempt.Some? && z.policy.Some?
    requires Acked(o) !in ts
    requires forall t :: t in ts && t.Delivered? && t.delivery.offset == o ==> t.delivery.attempt <= z.attempt.value
    ensures SlotRun(z, o, ts).Open?
    ensures SlotRun(z, o, ts).attempt == z.attempt && SlotRun(z, o, ts).policy == z.policy
  {
    if ts == [] {
    } else {
      DominatedRunKeepsAttempt(z, o, ts[..|ts| - 1]);
    }
  }

  /** Starting the same run with a schedule already in place ends either with that schedule
      or, once an attempt cleared it, exactly where the other run ends. */
  lemma {:induction false} EarlyScheduleIsKeptOrForgotten(y: Slot, o: Offset, ts: seq<Touch>, r: Schedule)
    requires y.Open? && y.attempt.Some?
    ensures var u := SlotRun(y.(retry := Some(r)), o, ts);
            var w := SlotRun(y, o, ts);
            u == w || (w.Open? && w.attempt.Some? && u == w.(retry := Some(r)))
  {
    if ts == [] {
    } else {
      EarlyScheduleIsKeptOrForgotten(y, o, ts[..|ts| - 1], r);
    }
  }

  /** One more touch after a run that is already absorbed is absorbed as well. */
  lemma {:induction false} SlotReplayStep(y: Slot, o: Offset, ts: seq<Touch>, t: Touch)
    requires SlotRun(y, o, ts) == y
    ensures Touched(SlotRun(Touched(y, o, t), o, ts), o, t) == Touched(y, o, t)
  {
    var z := Touched(y, o, t);
    if z.Done? {
      DoneAbsorbs(o, ts);
    } else if z != y && t.Delivered? {
      OpenSlotDominates(y, o, ts);
      DominatedRunKeepsAttempt(z, o, ts);
    } else if z != y {
      EarlyScheduleIsKeptOrForgotten(y, o, ts, z.retry.value);
    }
  }

  /** Replaying a run over its own result changes no slot. */
  lemma {:induction false} SlotReplay(x: Slot, o: Offset, ts: seq<Touch>)
    ensures SlotRun(SlotRun(x, o, ts), o, ts) == SlotRun(x, o, ts)
  {
    if ts == [] {
    } else {
      SlotReplay(x, o, ts[..|ts| - 1]);
      SlotReplayStep(SlotRun(x, o, ts[..|ts| - 1]), o, ts[..|ts| - 1], ts[|ts| - 1]);
    }
  }

  lemma ApplyKeepsOtherPolicy(s: State, t: Touch)
    requires WellFormed(s)
    ensures !t.Configured? ==> Apply(s, t).policy == s.policy
  {
    if t.Acked? && t.offset == s.committed {
      DrainForgets(Forget(s, t.offset).(committed := t.offset + 1));
    }
  }

  lemma {:induction false} ConfiguredPolicyIsLast(s: State, s': State, ts: seq<Touch>)
    requires WellFormed(s) && WellFormed(s') && GoodTouches(ts)
    ensures (exists t :: t in ts && t.Configured?) ==> Run(s, ts).policy == Run(s', ts).policy
    ensures (forall t :: t in ts ==> !t.Configured?) ==> Run(s, ts).policy == s.policy
  {
    if ts == [] {
    } else {
      var init := ts[..|ts| - 1];
      ConfiguredPolicyIsLast(s, s', init);
      RunKeepsSlots(s, init);
      RunKeepsSlots(s', init);
      ApplyKeepsOtherPolicy(Run(s, init), ts[|ts| - 1]);
      ApplyKeepsOtherPolicy(Run(s', init), ts[|ts| - 1]);
    }
  }

  /** Replaying touches over their own result changes nothing. */
  lemma {:induction false} ReplayIsIdempotent(s: State, ts: seq<Touch>)
    requires WellFormed(s) && GoodTouches(ts)
    ensures Run(Run(s, ts), ts) == Run(s, ts)
  {
    var once := Run(s, ts);
    RunKeepsSlots(s, ts);
    RunKeepsSlots(once, ts);
    ConfiguredPolicyIsLast(s, once, ts);
    ConfiguredPolicyIsLast(once, s, ts);
    forall o ensures SlotOf(Run(once, ts), o) == SlotOf(once, o) {
      SlotReplay(SlotOf(s, o), o, ts);
    }
    SlotsDetermineState(Run(once, ts), once);
  }

  // ---------------------------------------------------------------- events

  ghost predicate AllAccepted(es: seq<Event>) {
    forall e :: e in es ==> Accepted(e)
  }

  function AllTouches(es: seq<Event>): seq<Touch> {
    if es == [] then [] else Touches(es[0]) + AllTouches(es[1..])
  }

  /** Delivery events are accepted exactly with positive attempt numbers, and a policy exactly when it is
      configured, has a version, bounds both times by seven days and does not forbid every attempt. */
  lemma EventIsAcceptedExactlyWhen(e: Event)
    ensures Accepted(e) <==>
            match e
            case DeliveryAttempt(d) => d.attempt >= 1
            case DeliveryAttempts(ds) => forall i :: 0 <= i < |ds| ==> ds[i].attempt >= 1
            case PolicyConfigured(p) =>
              && p.configured && p.version >= 1 && p.ackTimeoutMs <= 604_800_000 && p.retryDelayMs <= 604_800_000
              && (p.maxDeliveryAttempts.Some? ==> p.maxDeliveryAttempts.value >= 1)
            case _ => true
    ensures Problem(e) == Some(ZeroAttempt) <==> !Accepted(e) && !e.PolicyConfigured?
  {
    if e.DeliveryAttempts? {
      assert forall d :: d in e.deliveries <==> exists i :: 0 <= i < |e.deliveries| && e.deliveries[i] == d;
    }
  }

  lemma AcceptedTouchesAreGood(e: Event)
    requires Accepted(e)
    ensures GoodTouches(Touches(e))
  {
    forall t | t in Touches(e) ensures GoodTouch(t) {
      if e.DeliveryAttempts? && t.Delivered? {
        assert t.delivery in e.deliveries;
      }
    }
  }

  lemma {:induction false} AllTouchesGood(es: seq<Event>)
    requires AllAccepted(es)
    ensures GoodTouches(AllTouches(es))
  {
    if es == [] {
    } else {
      AcceptedTouchesAreGood(es[0]);
      AllTouchesGood(es[1..]);
    }
  }

  /** Replay succeeds exactly when no event is refused, whatever state it starts from. */
  lemma {:induction false} ReplayRunsTouches(s: State, es: seq<Event>)
    ensures ApplyEvents(s, es).Ok? <==> AllAccepted(es)
    ensures AllAccepted(es) ==> ApplyEvents(s, es) == Ok(Run(s, AllTouches(es)))
    decreases |es|
  {
    if es == [] {
    } else {
      assert es == [es[0]] + es[1..];
      if Accepted(es[0]) {
        ReplayRunsTouches(Run(s, Touches(es[0])), es[1..]);
        RunAppend(s, Touches(es[0]), AllTouches(es[1..]));
      }
    }
  }

  lemma {:induction false} ReplayAppend(s: State, es: seq<Event>, fs: seq<Event>)
    ensures ApplyEvents(s, es + fs) ==
            match ApplyEvents(s, es) case Ok(mid) => ApplyEvents(mid, fs) case Err(error) => Err(error)
    decreases |es|
  {
    if es == [] {
      assert es + fs == fs;
    } else {
      assert (es + fs)[1..] == es[1..] + fs;
      if Accepted(es[0]) {
        ReplayAppend(Run(s, Touches(es[0])), es[1..], fs);
      }
    }
  }

  /** Every state a run of events reaches is well formed; in particular it passes the self-check
      and never misses a pinned policy. */
  lemma {:induction false} ReachableStatesPassValidate(s: State, es: seq<Event>, o: Offset, legacy: Policy)
    requires WellFormed(s)
    requires ApplyEvents(s, es).Ok?
    ensures var t := ApplyEvents(s, es).value;
            && WellFormed(t)
            && PassesValidate(t)
            && PolicyFor(t, o, legacy).Ok?
            && (o in t.attempts ==> PolicyFor(t, o, legacy) == Ok(t.policies[o]))
            && (o !in t.attempts ==> PolicyFor(t, o, legacy) == Ok(if t.policy.Some? then t.policy.value else legacy))
  {
    ReplayRunsTouches(s, es);
    AllTouchesGood(es);
    RunKeepsSlots(s, AllTouches(es));
  }

  /** Compaction publishes the checkpoint before it truncates the journal. A stop in between leaves
      checkpoint s1 under the old journal es: replay still succeeds and recovers exactly s1, and
      whatever is appended later is recovered as if the compaction had not happened. */
  lemma CrashSafeCompaction(s0: State, es: seq<Event>, fs: seq<Event>)
    requires WellFormed(s0)
    requires ApplyEvents(s0, es).Ok?
    ensures var s1 := ApplyEvents(s0, es).value;
            && ApplyEvents(s1, es) == Ok(s1)
            && ApplyEvents(s1, es + fs) == ApplyEvents(s0, es + fs)
  {
    var s1 := ApplyEvents(s0, es).value;
    ReplayRunsTouches(s0, es);
    AllTouchesGood(es);
    ReplayIsIdempotent(s0, AllTouches(es));
    ReplayRunsTouches(s1, es);
    ReplayAppend(s1, es, fs);
    ReplayAppend(s0, es, fs);
  }

  /** Along any run: the committed offset never falls; a settled offset stays settled and carries
      no attempt, policy or schedule; until then its attempt never decreases and its policy is pinned. */
  lemma {:induction false} DeliveryLifetime(s: State, es: seq<Event>, o: Offset)
    requires WellFormed(s)
    requires ApplyEvents(s, es).Ok?
    ensures var t := ApplyEvents(s, es).value;
            && s.committed <= t.committed
            && (Settled(s, o) ==> Settled(t, o))
            && (Settled(t, o) ==> o !in t.attempts && o !in t.policies && o !in t.retries)
            && (o in s.attempts && !Settled(t, o) ==>
                  && o in t.attempts && s.attempts[o] <= t.attempts[o]
                  && o in t.policies && t.policies[o] == s.policies[o])
  {
    var ts := AllTouches(es);
    ReplayRunsTouches(s, es);
    AllTouchesGood(es);
    RunKeepsSlots(s, ts);
    if Settled(s, o) {
      DoneAbsorbs(o, ts);
      assert SlotOf(Run(s, ts), o) == SlotRun(SlotOf(s, o), o, ts);
    } else if !Settled(Run(s, ts), o) {
      assert SlotOf(Run(s, ts), o) == SlotRun(SlotOf(s, o), o, ts);
      OpenSlotDominates(SlotOf(s, o), o, ts);
    }
  }

  // ---------------------------------------------------------------- acknowledgement

  ghost predicate AckOnly(es: seq<Event>) {
    forall e :: e in es ==> e.Acknowledge? || e.AcknowledgeBatch?
  }

  /** The offsets a sequence of acknowledgement events names. */
  ghost predicate Names(es: seq<Event>, o: Offset) {
    exists e :: e in es && ((e.Acknowledge? && e.offset == o) || (e.AcknowledgeBatch? && o in e.offsets))
  }

  lemma AckTouchesOfOne(e: Event)
    requires e.Acknowledge? || e.AcknowledgeBatch?
    ensures forall t :: t in Touches(e) ==> t.Acked?
    ensures forall o :: Acked(o) in Touches(e) <==> Names([e], o)
  {
    forall o ensures Acked(o) in Touches(e) <==> Names([e], o) {
      if e.AcknowledgeBatch? && o in e.offsets {
        var i :| 0 <= i < |e.offsets| && e.offsets[i] == o;
        assert Touches(e)[i] == Acked(o);
      }
      assert e in [e];
    }
  }

  lemma NamesAppend(es: seq<Event>, fs: seq<Event>, o: Offset)
    ensures Names(es + fs, o) <==> Names(es, o) || Names(fs, o)
  {
    assert forall e :: e in es + fs <==> e in es || e in fs;
  }

  lemma {:induction false} AckTouches(es: seq<Event>)
    requires AckOnly(es)
    ensures AllAccepted(es)
    ensures forall t :: t in AllTouches(es) ==> t.Acked?
    ensures forall o :: Acked(o) in AllTouches(es) <==> Names(es, o)
  {
    if es == [] {
    } else {
      AckTouches(es[1..]);
      AckTouchesOfOne(es[0]);
      assert es == [es[0]] + es[1..];
      forall o ensures Acked(o) in AllTouches(es) <==> Names(es, o) {
        NamesAppend([es[0]], es[1..], o);
      }
    }
  }

  lemma {:induction false} AckSlot(x: Slot, o: Offset, ts: seq<Touch>)
    requires forall t :: t in ts ==> t.Acked?
    ensures SlotRun(x, o, ts) == if Acked(o) in ts then Done else x
  {
    if ts == [] {
    } else {
      var init, last := ts[..|ts| - 1], ts[|ts| - 1];
      AckSlot(x, o, init);
      assert ts == init + [last];
      assert last in ts;
      assert Acked(o) in ts <==> Acked(o) in init || last == Acked(o);
    }
  }

  /** Acknowledgement settles exactly the named offsets and commits to the least unsettled one. */
  lemma {:induction false} AcknowledgementSettlesExactly(s: State, es: seq<Event>)
    requires WellFormed(s) && AckOnly(es)
    ensures ApplyEvents(s, es).Ok?
    ensures var t := ApplyEvents(s, es).value;
            && WellFormed(t) && t.policy == s.policy
            && (forall o :: Settled(t, o) <==> Settled(s, o) || Names(es, o))
            && (forall o :: !Settled(t, o) ==> SlotOf(t, o) == SlotOf(s, o))
            && !(Settled(s, t.committed) || Names(es, t.committed))
            && (forall o: Offset :: o < t.committed ==> Settled(s, o) || Names(es, o))
  {
    var ts := AllTouches(es);
    AckTouches(es);
    ReplayRunsTouches(s, es);
    AllTouchesGood(es);
    RunKeepsSlots(s, ts);
    ConfiguredPolicyIsLast(s, s, ts);
    var t := ApplyEvents(s, es).value;
    forall o
      ensures Settled(t, o) <==> Settled(s, o) || Names(es, o)
      ensures !Settled(t, o) ==> SlotOf(t, o) == SlotOf(s, o)
    {
      AckSlot(SlotOf(s, o), o, ts);
      assert SlotOf(t, o) == SlotRun(SlotOf(s, o), o, ts);
    }
    assert !Settled(t, t.committed);
    forall o: Offset | o < t.committed ensures Settled(s, o) || Names(es, o) {
      assert Settled(t, o);
    }
  }

  /** Any permutation, repetition or batching of the same acknowledgements gives the same state. */
  lemma AcknowledgementIsCanonical(s: State, es: seq<Event>, fs: seq<Event>)
    requires WellFormed(s) && AckOnly(es) && AckOnly(fs)
    requires forall o :: Names(es, o) <==> Names(fs, o)
    ensures ApplyEvents(s, es) == ApplyEvents(s, fs)
  {
    AcknowledgementSettlesExactly(s, es);
    AcknowledgementSettlesExactly(s, fs);
    var t, u := ApplyEvents(s, es).value, ApplyEvents(s, fs).value;
    forall o ensures SlotOf(t, o) == SlotOf(u, o) {
      assert Settled(t, o) <==> Settled(u, o);
    }
    SlotsDetermineState(t, u);
  }

  lemma {:induction false} DoneExactly(x: Slot, o: Offset, ts: seq<Touch>)
    ensures SlotRun(x, o, ts).Done? <==> x.Done? || Acked(o) in ts
  {
    if ts == [] {
    } else {
      var init, last := ts[..|ts| - 1], ts[|ts| - 1];
      DoneExactly(x, o, init);
      assert ts == init + [last];
    }
  }

  /** The committed offset passes the last u64 offset exactly when every u64 offset is acknowledged. */
  lemma CommittedOffsetLeavesRangeExactlyWhen(s: State, es: seq<Event>)
    requires WellFormed(s) && ApplyEvents(s, es).Ok?
    ensures ApplyEvents(s, es).value.committed > U64_MAX <==>
            forall o: Offset :: o <= U64_MAX ==> Settled(s, o) || Acked(o) in AllTouches(es)
  {
    var ts := AllTouches(es);
    ReplayRunsTouches(s, es);
    AllTouchesGood(es);
    RunKeepsSlots(s, ts);
    var t := Run(s, ts);
    forall o: Offset ensures Settled(t, o) <==> Settled(s, o) || Acked(o) in ts {
      DoneExactly(SlotOf(s, o), o, ts);
      assert SlotOf(t, o) == SlotRun(SlotOf(s, o), o, ts);
    }
    assert !Settled(t, t.committed);
  }

  // ---------------------------------------------------------------- the self-check alone

  /** The self-check is not inductive: the drain loop keeps retry schedules. */
  lemma ValidateAloneIsNotInductive(p: Policy)
    ensures var s := State(0, {1}, map[1 := 1], None, map[1 := p], map[1 := Schedule(5, None)]);
            PassesValidate(s) && !PassesValidate(Ack(s, 0))
  {
    var s := State(0, {1}, map[1 := 1], None, map[1 := p], map[1 := Schedule(5, None)]);
    var mid := Forget(s, 0).(committed := 1);
    assert mid.retries == s.retries;
    DrainForgets(mid);
    DrainPassesExactly(mid, 1);
    assert 1 in Ack(s, 0).retries && 1 !in Ack(s, 0).attempts;
  }

  /** An acknowledgement makes the drain pass offset d: it fills the gap at committed, and everything
      between it and d is acknowledged already. */
  predicate WouldPass(s: State, o: Offset, d: Offset) {
    o == s.committed && o !in s.acked && o < d && forall e: Offset :: o < e <= d ==> e in s.acked
  }

  /** From any state that passes the self-check, an acknowledgement keeps it exactly when the drain
      will pass no offset that has a retry schedule. */
  lemma ValidateSurvivesAckExactlyWhen(s: State, o: Offset)
    requires PassesValidate(s)
    ensures PassesValidate(Ack(s, o)) <==> forall d :: d in s.retries ==> !WouldPass(s, o, d)
  {
    if o == s.committed && o !in s.acked {
      var mid := Forget(s, o).(committed := o + 1);
      DrainForgets(mid);
      var t := Drain(mid);
      forall d | d in s.retries && o < d ensures d < t.committed <==> WouldPass(s, o, d) {
        DrainPassesExactly(mid, d);
      }
      forall d | d in t.retries ensures d in t.attempts <==> !WouldPass(s, o, d) {
        assert d in s.retries && d in mid.attempts;
      }
      assert forall d :: d in s.retries && d !in t.retries ==> d == o;
    }
  }

  // ---------------------------------------------------------------- progress

  ghost predicate KeptAttempt(s: State, t: State, o: Offset) {
    && o in s.attempts && o in t.attempts && s.attempts[o] <= t.attempts[o]
    && o in s.policies && o in t.policies && t.policies[o] == s.policies[o]
  }

  /** What a later state owes an earlier one: committed does not fall, acknowledged offsets stay so,
      and until then attempt counters do not decrease and pinned policies do not change. */
  ghost predicate Later(s: State, t: State) {
    && s.committed <= t.committed
    && (forall o :: Settled(s, o) ==> Settled(t, o))
    && (forall o :: o in s.attempts && !Settled(t, o) ==> KeptAttempt(s, t, o))
  }

  lemma LaterIsReflexive(s: State)
    requires WellFormed(s)
    ensures Later(s, s)
  {
  }

  lemma LaterIsTransitive(s: State, t: State, u: State)
    requires Later(s, t) && Later(t, u)
    ensures Later(s, u)
  {
    forall o | o in s.attempts && !Settled(u, o) ensures KeptAttempt(s, u, o) {
      assert !Settled(t, o);
      assert KeptAttempt(s, t, o) && KeptAttempt(t, u, o);
    }
  }

  /** Any accepted events lead to a later state. */
  lemma EventsLeadLater(s: State, es: seq<Event>)
    requires WellFormed(s) && ApplyEvents(s, es).Ok?
    ensures Later(s, ApplyEvents(s, es).value)
  {
    var t := ApplyEvents(s, es).value;
    DeliveryLifetime(s, es, 0);
    forall o: Offset ensures Settled(s, o) ==> Settled(t, o) {
      DeliveryLifetime(s, es, o);
    }
    forall o | o in s.attempts && !Settled(t, o) ensures KeptAttempt(s, t, o) {
      DeliveryLifetime(s, es, o);
    }
  }
}
