/**
 Limits the broker keeps over whole runs, which follow from its own checks before each action: how many
 deliveries a member holds, and how often a record is attempted.
 */
module BrokerLimits {
  import opened Prelude
  import opened DeliveryIndex
  import opened EventLog
  import opened BrokerMemory
  import opened BrokerActions
  import opened BrokerEffects
  import opened BrokerGuards
  import opened BrokerRun
  import CP = ConsumerProgress

  // ---------------------------------------------------------------- deliveries of a member

  ghost function HeldBy(f: Flights, c: string, m: string): set<DeliveryKey> {
    set k | k in f && k.consumer == c && f[k].member == m
  }

  ghost predicate MembersLimited(f: Flights) {
    forall c, m :: |HeldBy(f, c, m)| <= MAX_CONSUME_BATCH_RECORDS
  }

  lemma FewerStayLimited(f: Flights, g: Flights)
    requires MembersLimited(f)
    requires forall k :: k in g ==> k in f && g[k] == f[k]
    ensures MembersLimited(g)
  {
    forall c, m ensures |HeldBy(g, c, m)| <= MAX_CONSUME_BATCH_RECORDS {
      SubsetSize(HeldBy(g, c, m), HeldBy(f, c, m));
    }
  }

  function HandedKeys(c: string, ps: seq<Pending>): set<DeliveryKey> {
    set p | p in ps :: DeliveryKey(c, p.delivery.offset)
  }

  lemma {:induction false} HandedKeysCount(c: string, ps: seq<Pending>)
    ensures |HandedKeys(c, ps)| <= |ps|
  {
    if ps == [] {
    } else {
      var init, last := ps[..|ps| - 1], ps[|ps| - 1];
      HandedKeysCount(c, init);
      assert ps == init + [last];
      assert HandedKeys(c, ps) == HandedKeys(c, init) + {DeliveryKey(c, last.delivery.offset)};
    }
  }

  /** What an action hands out goes to one member that held nothing, and is at most one batch. */
  ghost predicate HandsToFreeMember(f: Flights, c: string, ps: seq<Pending>, m: string) {
    && |ps| <= MAX_CONSUME_BATCH_RECORDS && MemberFree(f, c, m)
    && forall p :: p in ps ==> p.delivery.member == m
  }

  lemma GuardedHandsOut(cfg: Config, f: Flights, c: string, s: CP.State, a: Action)
    requires Guarded(cfg, f, c, s, a) && HandsOut(a) != []
    ensures HandsToFreeMember(f, c, HandsOut(a), HandsOut(a)[0].delivery.member)
  {
  }

  ghost predicate Handed(g: Flights, c: string, ps: seq<Pending>, k: DeliveryKey)
    requires k in g
  {
    exists p :: p in ps && k == DeliveryKey(c, p.delivery.offset) && g[k] == p.delivery
  }

  lemma OldOrHanded(ix: Indexes, c: string, s: CP.State, a: Action, k: DeliveryKey)
    requires Exact(ix) && Enabled(ix, c, s, a) && k in Effect(ix, c, a).inFlight
    ensures var g := Effect(ix, c, a).inFlight;
            (k in ix.inFlight && g[k] == ix.inFlight[k]) || Handed(g, c, HandsOut(a), k)
  {
    FlightsAfter(ix, c, s, a, k);
    var g := Effect(ix, c, a).inFlight;
    if a.DeliverOne? && k == DeliveryKey(c, g[k].offset) && g[k] == a.pending.delivery {
      assert a.pending in HandsOut(a);
    }
  }

  /** Flights that were there before, or were handed to one free member, stay limited. */
  lemma HandingStaysLimited(f: Flights, g: Flights, c: string, ps: seq<Pending>, c': string, m: string)
    requires MembersLimited(f)
    requires forall k :: k in g ==> (k in f && g[k] == f[k]) || Handed(g, c, ps, k)
    requires ps != [] ==> HandsToFreeMember(f, c, ps, ps[0].delivery.member)
    ensures |HeldBy(g, c', m)| <= MAX_CONSUME_BATCH_RECORDS
  {
    if ps != [] && c' == c && m == ps[0].delivery.member {
      forall k | k in HeldBy(g, c, m) ensures k in HandedKeys(c, ps) {
        assert k == DeliveryKey(c, k.offset) && !Belongs(f, c, k.offset, m);
      }
      HandedKeysCount(c, ps);
      SubsetSize(HeldBy(g, c, m), HandedKeys(c, ps));
    } else {
      SubsetSize(HeldBy(g, c', m), HeldBy(f, c', m));
    }
  }

  lemma ActionKeepsMembersLimited(cfg: Config, ix: Indexes, c: string, s: CP.State, a: Action)
    requires Exact(ix) && Enabled(ix, c, s, a) && Guarded(cfg, ix.inFlight, c, s, a) && MembersLimited(ix.inFlight)
    ensures MembersLimited(Effect(ix, c, a).inFlight)
  {
    var f, g, ps := ix.inFlight, Effect(ix, c, a).inFlight, HandsOut(a);
    forall k | k in g ensures (k in f && g[k] == f[k]) || Handed(g, c, ps, k) {
      OldOrHanded(ix, c, s, a, k);
    }
    if ps != [] {
      GuardedHandsOut(cfg, f, c, s, a);
    }
    forall c', m ensures |HeldBy(g, c', m)| <= MAX_CONSUME_BATCH_RECORDS {
      HandingStaysLimited(f, g, c, ps, c', m);
    }
  }

  lemma RequestKeepsMembersLimited(l: ConsumerLog, m: Memory, d: ConsumerDisk, c: string, fault: LoadFault,
                                   syncFails: bool, m': Memory, d': ConsumerDisk, r: LoadResult)
    requires MemoryOk(m) && MembersLimited(m.index.inFlight)
    requires Requested(l, m, d, c, fault, syncFails, m', d', r)
    ensures MembersLimited(m'.index.inFlight)
  {
    if m' != m {
      ReconcileDropsExactlyStale(m, c, Load(l, d, fault).result.value, m');
      FewerStayLimited(m.index.inFlight, m'.index.inFlight);
    }
  }

  lemma StepKeepsMembersLimited(l: ConsumerLog, w: World, step: Step, w': World)
    requires MemoryOk(w.memory) && MembersLimited(w.memory.index.inFlight) && Next(l, w, step, w')
    ensures MembersLimited(w'.memory.index.inFlight)
  {
    match step
    case Begin(c, fault, syncFails) =>
      var r: LoadResult :| Requested(l, w.memory, DiskOf(w, c), c, fault, syncFails, w'.memory, DiskOf(w', c), r);
      RequestKeepsMembersLimited(l, w.memory, DiskOf(w, c), c, fault, syncFails, w'.memory, DiskOf(w', c), r);
    case Commit(a, fault) =>
      var c, s := w.session.value.consumer, w.session.value.state;
      ActionKeepsMembersLimited(w.config, w.memory.index, c, s, a);
      if Persist(l, DiskOf(w, c), s, EventOf(a), fault).result.Ok? {
        CommittedMemory(w.memory, c, Local(s, a), a, w'.memory);
      }
    case Release(ks) =>
      RemoveAllRemoves(w.memory.index, ks);
      FewerStayLimited(w.memory.index.inFlight, w'.memory.index.inFlight);
    case Finish =>
    case Stop => FewerStayLimited(w.memory.index.inFlight, map[]);
  }

  lemma NothingIsHeld(w: World)
    requires w.memory == EmptyMemory
    ensures MembersLimited(w.memory.index.inFlight)
  {
    forall c, m ensures HeldBy(w.memory.index.inFlight, c, m) == {} {
    }
  }

  /** At every point of every run, a member holds at most one batch of a consumer's records. */
  lemma MembersHoldAtMostOneBatch(l: ConsumerLog, ws: seq<World>, steps: seq<Step>, i: nat, c: string, m: string)
    requires Lawful(l) && IsConsumerLog(l) && IsRun(l, ws, steps) && i < |ws|
    ensures |HeldBy(ws[i].memory.index.inFlight, c, m)| <= MAX_CONSUME_BATCH_RECORDS
  {
    var holds := (w: World) => MembersLimited(w.memory.index.inFlight);
    NothingIsHeld(ws[0]);
    forall k | 0 <= k < i && holds(ws[k]) ensures holds(ws[k + 1]) {
      RunKeepsInvariant(l, ws, steps, k);
      StepKeepsMembersLimited(l, ws[k], steps[k], ws[k + 1]);
    }
    KeptAlong(ws, holds, 0, i);
  }

  // ---------------------------------------------------------------- attempts of a record

  lemma LimitsAreStable()
    ensures Stable(s => WithinLimits(s), false)
  {
    forall cfg: Config, ix: Indexes, c: string, s: CP.State, a: Action
      | !cfg.deadLetters && CP.WellFormed(s) && FlightsRecorded(ix.inFlight, c, s) && Enabled(ix, c, s, a)
        && Guarded(cfg, ix.inFlight, c, s, a) && WithinLimits(s)
      ensures WithinLimits(Local(s, a))
    {
      ActionKeepsLimits(cfg, ix, c, s, a);
    }
  }

  /** On a stream that holds no dead letters, at every point of every run, across failed writes and
      process stops: no attempt counter exceeds the limit of its pinned policy, neither in a state a load
      recovers nor in one the broker holds or has cached. */
  lemma AttemptsStayWithinLimits(l: ConsumerLog, ws: seq<World>, steps: seq<Step>, i: nat, c: string)
    requires Lawful(l) && IsConsumerLog(l) && IsRun(l, ws, steps) && i < |ws|
    requires !ws[0].config.deadLetters
    ensures Recovered(l, ws[i], c).Ok? ==> WithinLimits(Recovered(l, ws[i], c).value)
    ensures Held(ws[i], c).Some? ==> WithinLimits(Held(ws[i], c).value)
    ensures c in ws[i].memory.states ==> WithinLimits(ws[i].memory.states[c])
  {
    var keeps := s => WithinLimits(s);
    StartAgrees(l, ws[0], c, keeps);
    LimitsAreStable();
    RunKeepsAgreement(l, ws, steps, 0, i, c, keeps);
    AgreementShows(l, ws[i], c, keeps);
  }

  /** A stream that holds dead letters has no such limit: a record at its limit is delivered again. */
  lemma DeadLettersHaveNoLimit()
    ensures var once := CP.Policy(1, true, 5, Some(1), 0);
            var s := CP.State(0, {}, map[0 := 1], Some(once), map[0 := once], map[]);
            var a := DeliverOne(Pending(InFlight("m", 0, None, 2, "t", false, 5), once));
            && CP.WellFormed(s) && WithinLimits(s) && Enabled(NoDeliveries, "c", s, a)
            && Guarded(Config(CP.Policy(0, false, 5, None, 0), true), NoDeliveries.inFlight, "c", s, a)
            && !WithinLimits(Local(s, a))
  {
    var once := CP.Policy(1, true, 5, Some(1), 0);
    var s := CP.State(0, {}, map[0 := 1], Some(once), map[0 := once], map[]);
    var p := Pending(InFlight("m", 0, None, 2, "t", false, 5), once);
    assert Deliverable(Config(CP.Policy(0, false, 5, None, 0), true), s, p, 0);
    assert !AttemptAllowed(Assign(s, p), 0);
  }
}
