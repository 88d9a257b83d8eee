/**
 The journal bound is not a theorem of the broker: a run that reaches files no load accepts.

 All expired deliveries of a consumer are scheduled by one event (crates/runnel-core/src/broker.rs:1670-1764),
 so its line grows with their number. The run delivers many records, lets them expire, and schedules them.
 */
module JournalOverflow {
  import opened Prelude
  import opened ConsumerProgress
  import opened DeliveryIndex
  import opened EventLog
  import opened EventLogTheorems
  import opened BrokerMemory
  import opened BrokerActions
  import opened BrokerEffects
  import opened BrokerGuards
  import opened BrokerRun
  import opened EventEncoding
  import CJ = ConsumerJournal

  const CROWD: nat := MAX_JOURNAL_BYTES / 4 + 1

  const ACK_TIMEOUT_MS: nat := 300000

  const CONFIG := Config(Policy(0, false, 30000, None, 0), false)

  const POLICY := Policy(1, true, ACK_TIMEOUT_MS, None, 5)

  /** Delivered one millisecond after the other, each to a member of its own. */
  function Flight(o: Offset): InFlight {
    InFlight(Digits(o), o, None, 1, "t", false, o + ACK_TIMEOUT_MS)
  }

  function Handed(o: Offset): Pending {
    Pending(Flight(o), POLICY)
  }

  ghost function SampleLog(): ConsumerLog {
    CJ.ConsumerLog(SampleCodec())
  }

  // ---------------------------------------------------------------- how long lines are

  function Sum(ns: Numbers): nat {
    if ns == [] then 0 else ns[0] + Sum(ns[1..])
  }

  lemma {:induction false} ItemsLength(ns: Numbers)
    ensures |Items(Unary, ns)| == Sum(ns) + |ns|
  {
    if ns == [] {
    } else {
      ItemsLength(ns[1..]);
    }
  }

  lemma {:induction false} SchedulesAreLong(rs: seq<RetryRequest>)
    ensures |Items(RetryNumbers, rs)| >= 4 * |rs|
  {
    if rs == [] {
    } else {
      SchedulesAreLong(rs[1..]);
    }
  }

  lemma ScheduleLineIsLong(rs: seq<RetryRequest>)
    ensures |Line(SampleLog(), RetrySchedules(rs))| > 4 * |rs|
  {
    SchedulesAreLong(rs);
    ItemsLength(EventNumbers(RetrySchedules(rs)));
  }

  lemma {:induction false} SumAppend(a: Numbers, b: Numbers)
    ensures Sum(a + b) == Sum(a) + Sum(b)
  {
    if a == [] {
      assert a + b == b;
    } else {
      assert (a + b)[1..] == a[1..] + b;
      SumAppend(a[1..], b);
    }
  }

  lemma SumOfTwo(a: nat, b: nat)
    ensures Sum([a, b]) == a + b
  {
    assert [a, b][1..] == [b] && [b][1..] == [];
    assert Sum([b]) == b + Sum([]);
  }

  lemma SumOfThree(a: nat, b: nat, c: nat)
    ensures Sum([a, b, c]) == a + b + c
  {
    assert [a, b, c][1..] == [b, c];
    SumOfTwo(b, c);
  }

  lemma DeliveryLineIsShort(o: Offset)
    ensures |Line(SampleLog(), DeliveryAttempt(AttemptOf(Handed(o))))| <= o + ACK_TIMEOUT_MS + 100
  {
    var ns := EventNumbers(DeliveryAttempt(AttemptOf(Handed(o))));
    assert ns == [0, 0, o] + ([1, 1, 1] + ([ACK_TIMEOUT_MS, 5] + [0, 0]));
    ItemsLength(ns);
    SumAppend([0, 0, o], [1, 1, 1] + ([ACK_TIMEOUT_MS, 5] + [0, 0]));
    SumAppend([1, 1, 1], [ACK_TIMEOUT_MS, 5] + [0, 0]);
    SumAppend([ACK_TIMEOUT_MS, 5], [0, 0]);
    SumOfThree(0, 0, o);
    SumOfThree(1, 1, 1);
    SumOfTwo(ACK_TIMEOUT_MS, 5);
    SumOfTwo(0, 0);
  }

  lemma PolicyLineIsShort()
    ensures |Line(SampleLog(), PolicyConfigured(POLICY))| <= ACK_TIMEOUT_MS + 100
  {
    var ns := EventNumbers(PolicyConfigured(POLICY));
    assert ns == [5, 0] + ([1, 1] + ([ACK_TIMEOUT_MS, 5] + [0, 0]));
    ItemsLength(ns);
    SumAppend([5, 0], [1, 1] + ([ACK_TIMEOUT_MS, 5] + [0, 0]));
    SumAppend([1, 1], [ACK_TIMEOUT_MS, 5] + [0, 0]);
    SumAppend([ACK_TIMEOUT_MS, 5], [0, 0]);
    SumOfTwo(5, 0);
    SumOfTwo(1, 1);
    SumOfTwo(ACK_TIMEOUT_MS, 5);
    SumOfTwo(0, 0);
  }

  // ---------------------------------------------------------------- many deliveries in flight

  function Crowd(n: nat): Indexes {
    if n == 0 then NoDeliveries else Insert(Crowd(n - 1), "c", Flight(n - 1))
  }

  function CrowdState(n: nat): State {
    if n == 0 then Empty.(policy := Some(POLICY)) else Assign(CrowdState(n - 1), Handed(n - 1))
  }

  /** Exactly the first n records are in flight for consumer "c". */
  ghost predicate FirstInFlight(f: Flights, n: nat) {
    && (forall k :: k in f <==> k.consumer == "c" && k.offset < n)
    && (forall k :: k in f ==> f[k] == Flight(k.offset))
  }

  lemma OneMoreInFlight(f: Flights, n: nat, d: InFlight)
    requires FirstInFlight(f, n) && d == Flight(n)
    ensures FirstInFlight(f[DeliveryKey("c", n) := d], n + 1)
  {
  }

  lemma {:induction false} CrowdShape(n: nat)
    ensures FirstInFlight(Crowd(n).inFlight, n)
  {
    if n == 0 {
    } else {
      CrowdShape(n - 1);
      OneMoreInFlight(Crowd(n - 1).inFlight, n - 1, Flight(n - 1));
    }
  }

  lemma {:induction false} CrowdStateShape(n: nat)
    ensures CrowdState(n).committed == 0 && CrowdState(n).acked == {} && CrowdState(n).retries == map[]
    ensures CrowdState(n).policy == Some(POLICY)
    ensures forall o: Offset :: o in CrowdState(n).attempts <==> o < n
    ensures forall o :: o in CrowdState(n).attempts ==> CrowdState(n).attempts[o] == 1
    ensures forall o: Offset :: o in CrowdState(n).policies <==> o < n
    ensures forall o :: o in CrowdState(n).policies ==> CrowdState(n).policies[o] == POLICY
  {
    if n == 0 {
    } else {
      CrowdStateShape(n - 1);
    }
  }

  lemma NextIsCandidate(n: nat)
    ensures Enabled(Crowd(n), "c", CrowdState(n), DeliverOne(Handed(n)))
  {
    CrowdShape(n);
    CrowdStateShape(n);
  }

  lemma NextMemberIsFree(n: nat)
    ensures MemberFree(Crowd(n).inFlight, "c", Digits(n))
  {
    CrowdShape(n);
    forall o ensures !Belongs(Crowd(n).inFlight, "c", o, Digits(n)) {
      if Belongs(Crowd(n).inFlight, "c", o, Digits(n)) {
        DigitsInjective(o, n);
      }
    }
  }

  lemma NextIsGuarded(n: nat)
    ensures Guarded(CONFIG, Crowd(n).inFlight, "c", CrowdState(n), DeliverOne(Handed(n)))
  {
    NextMemberIsFree(n);
    CrowdStateShape(n);
    assert Deliverable(CONFIG, CrowdState(n), Handed(n), 0);
  }

  lemma CrowdIsRecorded(n: nat)
    ensures FlightsRecorded(Crowd(n).inFlight, "c", CrowdState(n))
  {
    CrowdShape(n);
    CrowdStateShape(n);
  }

  /** All deliveries in flight expire and are scheduled by one event. */
  function ScheduleAll(n: nat): Action {
    ScheduleExpired(seq(n, o requires 0 <= o => RetryRequest(o, 10, None)),
                    seq(n, o requires 0 <= o => DeliveryKey("c", o)))
  }

  lemma ScheduleIsEnabled(n: nat)
    ensures Enabled(Crowd(n), "c", CrowdState(n), ScheduleAll(n))
  {
    CrowdShape(n);
    CrowdStateShape(n);
    forall r | r in ScheduleAll(n).schedules ensures DeliveryKey("c", r.offset) in ScheduleAll(n).released {
      assert ScheduleAll(n).released[r.offset] == DeliveryKey("c", r.offset);
    }
  }

  lemma AttemptNeedsRetry(n: nat, o: Offset)
    requires o < n
    ensures NeedsRetry(CONFIG, CrowdState(n), o)
    ensures ScheduledFrom(CONFIG, CrowdState(n), RetryRequest(o, 10, None), 5)
  {
    CrowdStateShape(n);
  }

  lemma CrowdIsPlanned(n: nat)
    ensures var a := ScheduleAll(n);
            Planned(CONFIG, Crowd(n).inFlight, "c", CrowdState(n), a.schedules, a.released, n + ACK_TIMEOUT_MS, 5)
  {
    var rs, ks := ScheduleAll(n).schedules, ScheduleAll(n).released;
    CrowdShape(n);
    forall k ensures k in ks <==> k.consumer == "c" && k.offset < n {
      if k.consumer == "c" && k.offset < n {
        assert ks[k.offset] == k;
      }
    }
    forall k | k in ks ensures Schedules(rs, k.offset) {
      assert rs[k.offset] in rs;
    }
    forall r | r in rs
      ensures NeedsRetry(CONFIG, CrowdState(n), r.offset) && ScheduledFrom(CONFIG, CrowdState(n), r, 5)
    {
      AttemptNeedsRetry(n, r.offset);
    }
  }

  lemma ScheduleIsGuarded(n: nat)
    requires 0 < n
    ensures Guarded(CONFIG, Crowd(n).inFlight, "c", CrowdState(n), ScheduleAll(n))
  {
    CrowdIsPlanned(n);
    assert |ScheduleAll(n).schedules| == n;
  }

  // ---------------------------------------------------------------- persisting

  /** Without failures, an action whose line fits is persisted. */
  lemma FittingActionIsPersisted(l: ConsumerLog, ix: Indexes, d: ConsumerDisk, s: State, a: Action)
    requires Lawful(l) && IsConsumerLog(l) && DurableClean(l, d, s)
    requires FlightsRecorded(ix.inFlight, "c", s) && Enabled(ix, "c", s, a)
    requires |Line(l, EventOf(a))| <= MAX_JOURNAL_BYTES
    ensures var p := Persist(l, d, s, EventOf(a), NoFault);
            p.result == Ok(()) && DurableClean(l, p.disk, Local(s, a)) && p.disk.journal.Some?
  {
    CleanIsDurable(l, d, s);
    DurableIsGood(l, d, s);
    ConsumerLogFacts(l, s, EventOf(a));
    LocalUpdateIsEvent(ix, "c", s, a);
    PersistIsAtomic(l, d, s, EventOf(a), NoFault);
  }

  lemma PersistGrows(n: nat, d: ConsumerDisk)
    requires n < CROWD && DurableClean(SampleLog(), d, CrowdState(n))
    ensures var p := Persist(SampleLog(), d, CrowdState(n), EventOf(DeliverOne(Handed(n))), NoFault);
            p.result == Ok(()) && DurableClean(SampleLog(), p.disk, CrowdState(n + 1)) && p.disk.journal.Some?
  {
    var a := DeliverOne(Handed(n));
    LawfulConsumerLogsExist();
    assert EventOf(a) == DeliveryAttempt(AttemptOf(Handed(n)));
    DeliveryLineIsShort(n);
    NextIsCandidate(n);
    CrowdIsRecorded(n);
    FittingActionIsPersisted(SampleLog(), Crowd(n), d, CrowdState(n), a);
  }

  /** Without failures, an action whose line is too long is persisted, and the files can no longer be
      loaded. */
  lemma LongActionOverflows(l: ConsumerLog, ix: Indexes, d: ConsumerDisk, s: State, a: Action)
    requires Lawful(l) && IsConsumerLog(l) && DurableClean(l, d, s) && d.journal.Some?
    requires FlightsRecorded(ix.inFlight, "c", s) && Enabled(ix, "c", s, a)
    requires |Line(l, EventOf(a))| > MAX_JOURNAL_BYTES
    ensures var p := Persist(l, d, s, EventOf(a), NoFault);
            p.result == Ok(()) && Load(l, p.disk, NoLoadFault).result == Err(JournalTooLarge)
  {
    CleanIsDurable(l, d, s);
    DurableIsGood(l, d, s);
    ConsumerLogFacts(l, s, EventOf(a));
    LocalUpdateIsEvent(ix, "c", s, a);
    OverflowNeedsLongLine(l, d, EventOf(a), NoFault);
    PersistIsAtomic(l, d, s, EventOf(a), NoFault);
    PersistThenLoad(l, d, s, EventOf(a), NoFault);
  }

  /** The broker schedules a crowd of expired deliveries, the event is persisted without a failure, and the
      files can no longer be loaded. */
  lemma ScheduleOverflows(n: nat, d: ConsumerDisk)
    requires n >= CROWD && DurableClean(SampleLog(), d, CrowdState(n)) && d.journal.Some?
    ensures Enabled(Crowd(n), "c", CrowdState(n), ScheduleAll(n))
    ensures Guarded(CONFIG, Crowd(n).inFlight, "c", CrowdState(n), ScheduleAll(n))
    ensures var p := Persist(SampleLog(), d, CrowdState(n), EventOf(ScheduleAll(n)), NoFault);
            p.result == Ok(()) && Load(SampleLog(), p.disk, NoLoadFault).result == Err(JournalTooLarge)
  {
    LawfulConsumerLogsExist();
    ScheduleIsEnabled(n);
    ScheduleIsGuarded(n);
    CrowdIsRecorded(n);
    assert EventOf(ScheduleAll(n)) == RetrySchedules(ScheduleAll(n).schedules);
    ScheduleLineIsLong(ScheduleAll(n).schedules);
    LongActionOverflows(SampleLog(), Crowd(n), d, CrowdState(n), ScheduleAll(n));
  }

  // ---------------------------------------------------------------- the run

  ghost predicate Reached(l: ConsumerLog, w: World) {
    exists ws, steps :: IsRun(l, ws, steps) && ws[|ws| - 1] == w
  }

  lemma ReachedNext(l: ConsumerLog, w: World, step: Step, w': World)
    requires Reached(l, w) && Next(l, w, step, w')
    ensures Reached(l, w')
  {
    var ws, steps :| IsRun(l, ws, steps) && ws[|ws| - 1] == w;
    var us, more := ws + [w'], steps + [step];
    forall i | 0 <= i < |more| ensures Next(l, us[i], more[i], us[i + 1]) {
      if i < |steps| {
        assert Next(l, ws[i], steps[i], ws[i + 1]);
      }
    }
    assert IsRun(l, us, more) && us[|us| - 1] == w';
  }

  /** The broker has cached consumer "c" alone, and serves a request for it or none. */
  function Idle(d: ConsumerDisk, s: State, ix: Indexes): World {
    World(map["c" := d], Memory(map["c" := s], ix, {}), None, CONFIG)
  }

  function Serving(d: ConsumerDisk, s: State, ix: Indexes): World {
    Idle(d, s, ix).(session := Some(Session("c", s)))
  }

  /** The first request for the consumer has loaded its state. */
  const Loading := World(map["c" := Disk(None, None)], EmptyMemory, Some(Session("c", Empty)), CONFIG)

  lemma LoadingIsReached(l: ConsumerLog)
    requires Lawful(l) && IsConsumerLog(l) && l.initial == Empty
    ensures Reached(l, Loading)
  {
    var none: ConsumerDisk := Disk(None, None);
    var start := World(map[], EmptyMemory, None, CONFIG);
    EmptyDiskIsFresh(l);
    CleanIsDurable(l, none, Empty);
    LoadKeepsMeaning(l, none, Empty, NoLoadFault);
    var r := Load(l, none, NoLoadFault).result;
    assert Requested(l, EmptyMemory, none, "c", NoLoadFault, false, EmptyMemory, none, r);
    assert BeginStep(l, start, "c", NoLoadFault, false, Loading);
    assert IsRun(l, [start], []) && [start][|[start]| - 1] == start;
    ReachedNext(l, start, Begin("c", NoLoadFault, false), Loading);
  }

  lemma RequestFollows(l: ConsumerLog, d: ConsumerDisk, s: State, ix: Indexes)
    requires Reached(l, Idle(d, s, ix))
    ensures Reached(l, Serving(d, s, ix))
  {
    var w, w' := Idle(d, s, ix), Serving(d, s, ix);
    var r: LoadResult := Ok(s);
    assert Requested(l, w.memory, d, "c", NoLoadFault, false, w'.memory, d, r);
    assert w.disks["c" := d] == w.disks;
    assert BeginStep(l, w, "c", NoLoadFault, false, w');
    ReachedNext(l, w, Begin("c", NoLoadFault, false), w');
  }

  lemma NothingEvicted(m: Memory, t: State)
    requires m.states.Keys <= {"c"}
    ensures m.states["c" := t] == map["c" := t] && CachedAs(m, "c", t, m.(states := map["c" := t]))
  {
  }

  lemma CommittedAlone(m: Memory, t: State, a: Action)
    requires m.states.Keys <= {"c"}
    ensures Committed(m, "c", t, a, Memory(map["c" := t], Effect(m.index, "c", a), m.reconcile))
  {
    NothingEvicted(m, t);
    NothingEvicted(m.(index := Effect(m.index, "c", a)), t);
    assert a.ScheduleExpired? ==> CachedAs(m, "c", t, m.(states := map["c" := t]));
  }

  function After(d: ConsumerDisk, t: State, ix: Indexes, a: Action): World {
    if EndsRequest(a) then Idle(d, t, ix) else Serving(d, t, ix)
  }

  /** A commit without failures, when nothing has to be evicted. */
  lemma CommitFollows(l: ConsumerLog, d: ConsumerDisk, m: Memory, s: State, a: Action, d': ConsumerDisk)
    requires m.states.Keys <= {"c"} && m.reconcile == {}
    requires Enabled(m.index, "c", s, a) && Guarded(CONFIG, m.index.inFlight, "c", s, a)
    requires Persist(l, d, s, EventOf(a), NoFault) == Persisted(d', Ok(()))
    ensures Next(l, World(map["c" := d], m, Some(Session("c", s)), CONFIG), Commit(a, NoFault),
                 After(d', Local(s, a), Effect(m.index, "c", a), a))
  {
    CommittedAlone(m, Local(s, a), a);
    assert map["c" := d]["c" := d'] == map["c" := d'];
  }

  /** From an idle broker, a request that commits one action. */
  lemma RequestCommits(l: ConsumerLog, d: ConsumerDisk, s: State, ix: Indexes, a: Action, d': ConsumerDisk)
    requires Reached(l, Idle(d, s, ix))
    requires Enabled(ix, "c", s, a) && Guarded(CONFIG, ix.inFlight, "c", s, a)
    requires Persist(l, d, s, EventOf(a), NoFault) == Persisted(d', Ok(()))
    ensures Reached(l, After(d', Local(s, a), Effect(ix, "c", a), a))
  {
    RequestFollows(l, d, s, ix);
    CommitFollows(l, d, Memory(map["c" := s], ix, {}), s, a, d');
    ReachedNext(l, Serving(d, s, ix), Commit(a, NoFault), After(d', Local(s, a), Effect(ix, "c", a), a));
  }

  /** An idle broker with n deliveries in flight, and files that stand for its state. */
  ghost predicate CrowdReached(n: nat, d: ConsumerDisk) {
    && DurableClean(SampleLog(), d, CrowdState(n)) && d.journal.Some?
    && Reached(SampleLog(), Idle(d, CrowdState(n), Crowd(n)))
  }

  lemma ConfigureIsTaken()
    ensures Enabled(NoDeliveries, "c", Empty, Configure(POLICY))
    ensures Guarded(CONFIG, NoDeliveries.inFlight, "c", Empty, Configure(POLICY))
    ensures Local(Empty, Configure(POLICY)) == CrowdState(0)
  {
  }

  lemma CrowdStarts() returns (d: ConsumerDisk)
    ensures CrowdReached(0, d)
  {
    var l, a, none := SampleLog(), Configure(POLICY), Disk(None, None);
    LawfulConsumerLogsExist();
    LoadingIsReached(l);
    EmptyDiskIsFresh(l);
    ConfigureIsTaken();
    PolicyLineIsShort();
    FittingActionIsPersisted(l, NoDeliveries, none, Empty, a);
    d := Persist(l, none, Empty, EventOf(a), NoFault).disk;
    CommitFollows(l, none, EmptyMemory, Empty, a, d);
    ReachedNext(l, Loading, Commit(a, NoFault), Idle(d, CrowdState(0), Crowd(0)));
  }

  lemma CrowdDelivers(n: nat, d: ConsumerDisk, d': ConsumerDisk)
    requires Reached(SampleLog(), Idle(d, CrowdState(n), Crowd(n)))
    requires Persist(SampleLog(), d, CrowdState(n), EventOf(DeliverOne(Handed(n))), NoFault) == Persisted(d', Ok(()))
    ensures Reached(SampleLog(), Idle(d', CrowdState(n + 1), Crowd(n + 1)))
  {
    NextIsCandidate(n);
    NextIsGuarded(n);
    RequestCommits(SampleLog(), d, CrowdState(n), Crowd(n), DeliverOne(Handed(n)), d');
  }

  lemma CrowdGrows(n: nat, d: ConsumerDisk) returns (d': ConsumerDisk)
    requires n < CROWD && CrowdReached(n, d)
    ensures CrowdReached(n + 1, d')
  {
    PersistGrows(n, d);
    d' := Persist(SampleLog(), d, CrowdState(n), EventOf(DeliverOne(Handed(n))), NoFault).disk;
    CrowdDelivers(n, d, d');
  }

  lemma {:induction false} StepByStep(holds: nat -> bool, n: nat)
    requires n <= CROWD && holds(0)
    requires forall k: nat :: k < CROWD && holds(k) ==> holds(k + 1)
    ensures holds(n)
  {
    if n == 0 {
    } else {
      StepByStep(holds, n - 1);
      assert holds(n - 1 + 1);
    }
  }

  lemma CrowdIsReachable() returns (d: ConsumerDisk)
    ensures CrowdReached(CROWD, d)
  {
    var holds := (n: nat) => exists x :: CrowdReached(n, x);
    var start := CrowdStarts();
    assert holds(0);
    forall k: nat | k < CROWD && holds(k) ensures holds(k + 1) {
      var x :| CrowdReached(k, x);
      var y := CrowdGrows(k, x);
      assert CrowdReached(k + 1, y);
    }
    StepByStep(holds, CROWD);
    d :| CrowdReached(CROWD, d);
  }

  /** A run of the broker in which every call succeeds, at the end of which the consumer's files cannot
      be loaded: a policy with a retry delay is configured, records are delivered to one member each, all
      deliveries expire, and the next request schedules them. */
  lemma OverflowIsReachable()
    ensures Lawful(SampleLog()) && IsConsumerLog(SampleLog())
    ensures exists w ::
              && Reached(SampleLog(), w) && w.session.Some?
              && Recovered(SampleLog(), w, "c") == Err(JournalTooLarge)
  {
    LawfulConsumerLogsExist();
    var d := CrowdIsReachable();
    ScheduleOverflows(CROWD, d);
    var s, a := CrowdState(CROWD), ScheduleAll(CROWD);
    var after := Persist(SampleLog(), d, s, EventOf(a), NoFault).disk;
    RequestCommits(SampleLog(), d, s, Crowd(CROWD), a, after);
    var w := Serving(after, Local(s, a), Effect(Crowd(CROWD), "c", a));
    assert Recovered(SampleLog(), w, "c") == Err(JournalTooLarge);
  }
}
