/**
 Whole runs of the broker over one stream: requests that load a consumer state, actions that persist
 an event and cache the result, failed writes at any point, and process stops at any point.

 The invariant ties every cached state and every state a request holds to the state the consumer's
 files stand for, and every delivery in flight to an attempt recorded there.
 */
module BrokerRun {
  import opened Prelude
  import opened DeliveryIndex
  import opened EventLog
  import opened EventLogTheorems
  import opened BrokerMemory
  import opened BrokerActions
  import opened BrokerEffects
  import opened BrokerGuards
  import opened ConsumerJournal
  import CP = ConsumerProgress
  import PT = ProgressTheorems

  /** The request being served: the consumer and the broker's copy of its state. */
  datatype Session = Session(consumer: string, state: CP.State)

  datatype World = World(
    disks: map<string, ConsumerDisk>,
    memory: Memory,
    session: Option<Session>,
    config: Config)

  /** A process started on these files, with any legacy policy. */
  predicate Started(w: World, disks: map<string, ConsumerDisk>, deadLetters: bool) {
    && w.disks == disks && w.memory == EmptyMemory && w.session == None
    && IsLegacy(w.config.legacy) && w.config.deadLetters == deadLetters
  }

  function DiskOf(w: World, c: string): ConsumerDisk {
    if c in w.disks then w.disks[c] else Disk(None, None)
  }

  datatype Step =
    | Begin(consumer: string, loadFault: LoadFault, syncFails: bool)
    | Commit(action: Action, fault: PersistFault)
    | Release(keys: seq<DeliveryKey>)
    | Finish
    | Stop

  /** Memory after a successful action. Expired deliveries are released after caching, all other
      changes to the deliveries come before it. */
  ghost predicate Committed(m: Memory, c: string, s: CP.State, a: Action, m': Memory) {
    if a.ScheduleExpired? then
      exists mid :: CachedAs(m, c, s, mid) && m' == mid.(index := Effect(mid.index, c, a))
    else CachedAs(m.(index := Effect(m.index, c, a)), c, s, m')
  }

  ghost predicate BeginStep(l: ConsumerLog, w: World, c: string, fault: LoadFault, syncFails: bool, w': World) {
    exists r: LoadResult ::
      && Requested(l, w.memory, DiskOf(w, c), c, fault, syncFails, w'.memory, DiskOf(w', c), r)
      && w'.disks == w.disks[c := DiskOf(w', c)]
      && w'.session == (if r.Ok? then Some(Session(c, r.value)) else None)
      && w'.config == w.config
  }

  ghost predicate CommitStep(l: ConsumerLog, w: World, a: Action, fault: PersistFault, w': World)
    requires w.session.Some?
  {
    var c, s := w.session.value.consumer, w.session.value.state;
    var p := Persist(l, DiskOf(w, c), s, EventOf(a), fault);
    && Enabled(w.memory.index, c, s, a) && Guarded(w.config, w.memory.index.inFlight, c, s, a)
    && w'.disks == w.disks[c := p.disk] && w'.config == w.config
    && (if p.result.Ok? then
          && Committed(w.memory, c, Local(s, a), a, w'.memory)
          && w'.session == (if EndsRequest(a) then None else Some(Session(c, Local(s, a))))
        else
          && w'.memory == Marked(w.memory, c)
          && w'.session == None)
  }

  /** One step. `Release` removes expired deliveries none of which needs a schedule; `Stop` is the end of the
      process, possibly in the middle of a persist, so it follows a failed commit as well. */
  ghost predicate Next(l: ConsumerLog, w: World, step: Step, w': World) {
    match step
    case Begin(c, fault, syncFails) => w.session.None? && BeginStep(l, w, c, fault, syncFails, w')
    case Commit(a, fault) => w.session.Some? && CommitStep(l, w, a, fault, w')
    case Release(ks) =>
      && w.session.Some?
      && (exists now: nat, nowMs: nat ::
            Planned(w.config, w.memory.index.inFlight, w.session.value.consumer, w.session.value.state, [], ks,
                    now, nowMs))
      && w' == w.(memory := w.memory.(index := RemoveAll(w.memory.index, ks)))
    case Finish => w' == w.(session := None)
    case Stop => Started(w', w.disks, w.config.deadLetters)
  }

  // ---------------------------------------------------------------- the invariant

  /** Readable files stand for truth; a cached or held state is truth; the deliveries in flight are
      recorded in truth, or acknowledged there while a reconcile is pending. */
  ghost predicate FilesAgree(l: ConsumerLog, d: ConsumerDisk, m: Memory, held: Option<CP.State>, c: string,
                             truth: CP.State) {
    && Durable(l, d, truth)
    && (c in m.states ==> c !in m.reconcile && m.states[c] == truth && DurableClean(l, d, truth))
    && (held.Some? ==> c !in m.reconcile && held.value == truth && DurableClean(l, d, truth))
    && (if c in m.reconcile then FlightsKnown(m.index.inFlight, c, truth)
        else FlightsRecorded(m.index.inFlight, c, truth))
  }

  /** Whatever the files hold: if the broker still knows a state, cached or held, it is truth. */
  ghost predicate MemoryKeeps(l: ConsumerLog, m: Memory, held: Option<CP.State>, c: string, truth: CP.State) {
    c in m.states || held.Some? ==>
      && l.good(truth) && c !in m.reconcile
      && (c in m.states ==> m.states[c] == truth)
      && (held.Some? ==> held.value == truth)
      && FlightsRecorded(m.index.inFlight, c, truth)
  }

  /** No load accepts a journal past its bound. */
  predicate Readable(d: ConsumerDisk) {
    |JournalBytes(d)| <= MAX_JOURNAL_BYTES
  }

  ghost predicate ConsumerAgrees(l: ConsumerLog, d: ConsumerDisk, m: Memory, held: Option<CP.State>, c: string,
                                 truth: CP.State) {
    if Readable(d) then FilesAgree(l, d, m, held, c, truth) else MemoryKeeps(l, m, held, c, truth)
  }

  function Held(w: World, c: string): Option<CP.State> {
    if w.session.Some? && w.session.value.consumer == c then Some(w.session.value.state) else None
  }

  predicate Any(s: CP.State) {
    true
  }

  /** Every action of the broker keeps the property. */
  ghost predicate Stable(keeps: CP.State -> bool, deadLetters: bool) {
    forall cfg: Config, ix: Indexes, c: string, s: CP.State, a: Action ::
      && cfg.deadLetters == deadLetters && CP.WellFormed(s) && FlightsRecorded(ix.inFlight, c, s)
      && Enabled(ix, c, s, a) && Guarded(cfg, ix.inFlight, c, s, a) && keeps(s)
      ==> keeps(Local(s, a))
  }

  /** Consumer c agrees with some truth that has the property. */
  ghost predicate Agrees(l: ConsumerLog, w: World, c: string, keeps: CP.State -> bool) {
    exists truth :: ConsumerAgrees(l, DiskOf(w, c), w.memory, Held(w, c), c, truth) && keeps(truth)
  }

  ghost predicate MemoryOk(m: Memory) {
    && Exact(m.index) && KeysExclusive(m.index.inFlight)
    && |m.states| <= MAX_CACHED_CONSUMER_STATES
  }

  ghost predicate Invariant(l: ConsumerLog, w: World) {
    MemoryOk(w.memory) && forall c :: Agrees(l, w, c, Any)
  }

  /** The machine of the log is the consumer's. */
  ghost predicate IsConsumerLog(l: ConsumerLog) {
    exists codec :: l == ConsumerJournal.ConsumerLog(codec)
  }

  lemma ConsumerLogFacts(l: ConsumerLog, s: CP.State, e: CP.Event)
    requires IsConsumerLog(l)
    ensures l.good(s) <==> CP.WellFormed(s)
    ensures Accepted(l, e) <==> CP.Accepted(e)
    ensures l.apply(s, e) == After(s, e)
  {
  }

  // ---------------------------------------------------------------- one consumer

  ghost predicate SameFlights(f: Flights, g: Flights, c: string) {
    forall k: DeliveryKey :: k.consumer == c ==> (k in f <==> k in g) && (k in f ==> f[k] == g[k])
  }

  /** A consumer that a step leaves alone, except that its cached state may be evicted, still agrees. */
  lemma UntouchedConsumerAgrees(l: ConsumerLog, d: ConsumerDisk, m: Memory, m': Memory, held: Option<CP.State>,
                                held': Option<CP.State>,
                                c: string, truth: CP.State)
    requires ConsumerAgrees(l, d, m, held, c, truth)
    requires SameFlights(m.index.inFlight, m'.index.inFlight, c)
    requires c in m'.reconcile <==> c in m.reconcile
    requires c in m'.states ==> c in m.states && m'.states[c] == m.states[c]
    requires held'.Some? ==> held' == held
    ensures ConsumerAgrees(l, d, m', held', c, truth)
  {
  }

  lemma DurableIsReadable(l: ConsumerLog, d: ConsumerDisk, truth: CP.State)
    requires Durable(l, d, truth)
    ensures Readable(d)
  {
  }

  lemma ReconciledAgrees(l: ConsumerLog, m: Memory, d: ConsumerDisk, c: string, m': Memory, truth: CP.State)
    requires Exact(m.index) && KeysExclusive(m.index.inFlight)
    requires FlightsKnown(m.index.inFlight, c, truth)
    requires DurableClean(l, d, truth)
    requires Reconciled(m, c, truth, m')
    ensures FilesAgree(l, d, m', Some(truth), c, truth)
  {
    ReconcileDropsExactlyStale(m, c, truth, m');
    CleanIsDurable(l, d, truth);
  }

  lemma ReadableRequestAgrees(l: ConsumerLog, m: Memory, d: ConsumerDisk, c: string, fault: LoadFault, syncFails: bool,
                              m': Memory, d': ConsumerDisk, r: LoadResult, truth: CP.State)
    requires Lawful(l) && Exact(m.index) && KeysExclusive(m.index.inFlight)
    requires FilesAgree(l, d, m, None, c, truth)
    requires Requested(l, m, d, c, fault, syncFails, m', d', r)
    ensures r.Ok? ==> r.value == truth
    ensures Durable(l, d', truth) && FilesAgree(l, d', m', if r.Ok? then Some(r.value) else None, c, truth)
  {
    LoadKeepsMeaning(l, d, truth, fault);
    if c in m.reconcile && r.Ok? {
      ReconciledAgrees(l, m, d', c, m', truth);
    }
  }

  /** A request obtains truth or an error, and the consumer agrees afterwards. */
  lemma RequestedAgrees(l: ConsumerLog, m: Memory, d: ConsumerDisk, c: string, fault: LoadFault, syncFails: bool,
                        m': Memory, d': ConsumerDisk, r: LoadResult, truth: CP.State)
    requires Lawful(l) && Exact(m.index) && KeysExclusive(m.index.inFlight)
    requires ConsumerAgrees(l, d, m, None, c, truth)
    requires Requested(l, m, d, c, fault, syncFails, m', d', r)
    ensures r.Ok? ==> r.value == truth
    ensures ConsumerAgrees(l, d', m', if r.Ok? then Some(r.value) else None, c, truth)
  {
    if Readable(d) {
      ReadableRequestAgrees(l, m, d, c, fault, syncFails, m', d', r, truth);
      DurableIsReadable(l, d', truth);
    } else {
      OverflownIsRefused(l, d, fault);
    }
  }

  /** When no call fails, a request is served exactly if the broker has the state cached or the journal is
      within its bound; a cached state is served whatever fails, and without touching the files. */
  lemma RequestIsServed(l: ConsumerLog, m: Memory, d: ConsumerDisk, c: string, fault: LoadFault, syncFails: bool,
                        m': Memory, d': ConsumerDisk, r: LoadResult, truth: CP.State)
    requires Lawful(l) && ConsumerAgrees(l, d, m, None, c, truth)
    requires Requested(l, m, d, c, fault, syncFails, m', d', r)
    ensures c in m.states ==> r == Ok(truth) && d' == d && m' == m
    ensures fault == NoLoadFault && !syncFails ==> (r.Ok? <==> c in m.states || |JournalBytes(d)| <= MAX_JOURNAL_BYTES)
  {
    if Readable(d) {
      LoadKeepsMeaning(l, d, truth, fault);
    } else {
      OverflownIsRefused(l, d, fault);
    }
  }

  /** What a successful action leaves in memory, whatever is evicted. */
  lemma CommittedMemory(m: Memory, c: string, s: CP.State, a: Action, m': Memory)
    requires Committed(m, c, s, a, m')
    ensures m'.index == Effect(m.index, c, a) && m'.reconcile == m.reconcile
    ensures |m'.states| <= MAX_CACHED_CONSUMER_STATES
    ensures forall x :: x in m'.states && x != c ==> x in m.states && m'.states[x] == m.states[x]
    ensures c in m'.states ==> m'.states[c] == s
  {
  }

  /** The event of an action is accepted, and the broker's own update is its effect. */
  lemma ActionEvent(l: ConsumerLog, m: Memory, c: string, s: CP.State, a: Action)
    requires IsConsumerLog(l) && l.good(s)
    requires FlightsRecorded(m.index.inFlight, c, s) && Enabled(m.index, c, s, a)
    ensures Accepted(l, EventOf(a)) && l.apply(s, EventOf(a)) == Local(s, a)
  {
    ConsumerLogFacts(l, s, EventOf(a));
    LocalUpdateIsEvent(m.index, c, s, a);
  }

  /** A successful action: the files, if readable, and the broker's copy stand for the same new state. */
  lemma CommittedAgrees(l: ConsumerLog, m: Memory, d: ConsumerDisk, c: string, s: CP.State, a: Action, m': Memory)
    requires IsConsumerLog(l) && l.good(s) && l.good(Local(s, a)) && Exact(m.index) && c !in m.reconcile
    requires FlightsRecorded(m.index.inFlight, c, s) && Enabled(m.index, c, s, a)
    requires Readable(d) ==> DurableClean(l, d, Local(s, a))
    requires Committed(m, c, Local(s, a), a, m')
    ensures ConsumerAgrees(l, d, m', Some(Local(s, a)), c, Local(s, a))
  {
    ConsumerLogFacts(l, s, EventOf(a));
    CommittedMemory(m, c, Local(s, a), a, m');
    FlightsRecordedAfterAction(m.index, c, s, a);
    if Readable(d) {
      CleanIsDurable(l, d, Local(s, a));
    }
  }

  /** A failed action: whichever state the files stand for now, the deliveries in flight are known there. */
  lemma MarkedAgrees(l: ConsumerLog, m: Memory, d: ConsumerDisk, c: string, s: CP.State, a: Action, truth: CP.State)
    requires IsConsumerLog(l) && l.good(s)
    requires FlightsRecorded(m.index.inFlight, c, s) && Enabled(m.index, c, s, a)
    requires truth == s || truth == Local(s, a)
    requires Readable(d) ==> Durable(l, d, truth)
    ensures ConsumerAgrees(l, d, Marked(m, c), None, c, truth)
  {
    ConsumerLogFacts(l, s, EventOf(a));
    if truth == Local(s, a) {
      FlightsKnownAfterEvent(m.index, c, s, a);
    }
  }

  // ---------------------------------------------------------------- one step

  /** Nothing about the consumers other than c changes, except that cached states may be evicted. */
  ghost predicate OthersKept(m: Memory, c: string, m': Memory) {
    && (forall x :: x != c ==> SameFlights(m.index.inFlight, m'.index.inFlight, x))
    && (forall x :: x != c ==> (x in m'.reconcile <==> x in m.reconcile))
    && (forall x :: x != c && x in m'.states ==> x in m.states && m'.states[x] == m.states[x])
  }

  lemma AgreesBy(l: ConsumerLog, w: World, c: string, truth: CP.State, keeps: CP.State -> bool)
    requires ConsumerAgrees(l, DiskOf(w, c), w.memory, Held(w, c), c, truth) && keeps(truth)
    ensures Agrees(l, w, c, keeps)
  {
  }

  lemma OtherAgrees(l: ConsumerLog, w: World, c: string, w': World, x: string, keeps: CP.State -> bool)
    requires x != c && Agrees(l, w, x, keeps)
    requires OthersKept(w.memory, c, w'.memory)
    requires DiskOf(w', x) == DiskOf(w, x) && Held(w', x).None?
    ensures Agrees(l, w', x, keeps)
  {
    var truth :| ConsumerAgrees(l, DiskOf(w, x), w.memory, Held(w, x), x, truth) && keeps(truth);
    UntouchedConsumerAgrees(l, DiskOf(w, x), w.memory, w'.memory, Held(w, x), None, x, truth);
    AgreesBy(l, w', x, truth, keeps);
  }

  lemma ReconciledKeepsOthers(m: Memory, c: string, s: CP.State, m': Memory)
    requires Exact(m.index) && KeysExclusive(m.index.inFlight) && Reconciled(m, c, s, m')
    ensures OthersKept(m, c, m')
  {
    ReconcileDropsExactlyStale(m, c, s, m');
    forall x | x != c ensures SameFlights(m.index.inFlight, m'.index.inFlight, x) {
    }
  }

  lemma ReconciledKeepsMemoryOk(m: Memory, c: string, s: CP.State, m': Memory)
    requires Exact(m.index) && KeysExclusive(m.index.inFlight) && Reconciled(m, c, s, m')
    ensures MemoryOk(m')
  {
    ReconcileDropsExactlyStale(m, c, s, m');
  }

  lemma RequestedKeepsOthers(l: ConsumerLog, m: Memory, d: ConsumerDisk, c: string, fault: LoadFault, syncFails: bool,
                             m': Memory, d': ConsumerDisk, r: LoadResult)
    requires MemoryOk(m)
    requires Requested(l, m, d, c, fault, syncFails, m', d', r)
    ensures OthersKept(m, c, m') && MemoryOk(m')
  {
    if m' != m {
      ReconciledKeepsOthers(m, c, Load(l, d, fault).result.value, m');
      ReconciledKeepsMemoryOk(m, c, Load(l, d, fault).result.value, m');
    }
  }

  lemma BeginKeepsAgreement(l: ConsumerLog, w: World, c: string, fault: LoadFault, syncFails: bool, w': World,
                            x: string, keeps: CP.State -> bool)
    requires Lawful(l) && MemoryOk(w.memory) && w.session.None? && Agrees(l, w, x, keeps)
    requires BeginStep(l, w, c, fault, syncFails, w')
    ensures MemoryOk(w'.memory) && Agrees(l, w', x, keeps)
  {
    var r: LoadResult :|
      && Requested(l, w.memory, DiskOf(w, c), c, fault, syncFails, w'.memory, DiskOf(w', c), r)
      && w'.disks == w.disks[c := DiskOf(w', c)]
      && w'.session == if r.Ok? then Some(Session(c, r.value)) else None;
    RequestedKeepsOthers(l, w.memory, DiskOf(w, c), c, fault, syncFails, w'.memory, DiskOf(w', c), r);
    if x == c {
      var truth :| ConsumerAgrees(l, DiskOf(w, c), w.memory, Held(w, c), c, truth) && keeps(truth);
      RequestedAgrees(l, w.memory, DiskOf(w, c), c, fault, syncFails, w'.memory, DiskOf(w', c), r, truth);
      AgreesBy(l, w', c, truth, keeps);
    } else {
      OtherAgrees(l, w, c, w', x, keeps);
    }
  }

  lemma EffectKeepsFlights(ix: Indexes, c: string, s: CP.State, a: Action, x: string)
    requires Exact(ix) && Enabled(ix, c, s, a) && x != c
    ensures SameFlights(ix.inFlight, Effect(ix, c, a).inFlight, x)
  {
    forall k: DeliveryKey | k.consumer == x
      ensures (k in ix.inFlight <==> k in Effect(ix, c, a).inFlight)
      ensures k in ix.inFlight ==> ix.inFlight[k] == Effect(ix, c, a).inFlight[k]
    {
      EffectKeepsOtherConsumers(ix, c, s, a, k);
    }
  }

  lemma EffectKeepsOthers(m: Memory, c: string, s: CP.State, a: Action, m': Memory)
    requires Exact(m.index) && Enabled(m.index, c, s, a)
    requires m'.index == Effect(m.index, c, a) || m'.index == m.index
    requires forall x :: x != c ==> (x in m'.reconcile <==> x in m.reconcile)
    requires forall x :: x != c && x in m'.states ==> x in m.states && m'.states[x] == m.states[x]
    ensures OthersKept(m, c, m')
  {
    forall x | x != c ensures SameFlights(m.index.inFlight, m'.index.inFlight, x) {
      EffectKeepsFlights(m.index, c, s, a, x);
    }
  }

  lemma ApplyOneEvent(s: CP.State, e: CP.Event)
    requires CP.Accepted(e)
    ensures CP.ApplyEvents(s, [e]) == Ok(After(s, e))
  {
    assert [e][1..] == [];
  }

  /** The state a request holds is good, its deliveries are recorded, and its action leads to a good
      and later state. */
  lemma HeldStateActs(l: ConsumerLog, m: Memory, d: ConsumerDisk, c: string, s: CP.State, a: Action)
    requires Lawful(l) && IsConsumerLog(l)
    requires ConsumerAgrees(l, d, m, Some(s), c, s) && Enabled(m.index, c, s, a)
    ensures l.good(s) && c !in m.reconcile && FlightsRecorded(m.index.inFlight, c, s)
    ensures Accepted(l, EventOf(a)) && l.apply(s, EventOf(a)) == Local(s, a)
    ensures l.good(Local(s, a)) && PT.Later(s, Local(s, a))
  {
    if Readable(d) {
      DurableIsGood(l, d, s);
    }
    ActionEvent(l, m, c, s, a);
    ConsumerLogFacts(l, s, EventOf(a));
    ApplyOneEvent(s, EventOf(a));
    PT.EventsLeadLater(s, [EventOf(a)]);
  }

  /** What the consumer's files stand for after an action was persisted or failed to be. */
  lemma CommitOutcome(l: ConsumerLog, m: Memory, d: ConsumerDisk, c: string, s: CP.State, a: Action,
                      fault: PersistFault)
    requires Lawful(l) && IsConsumerLog(l)
    requires ConsumerAgrees(l, d, m, Some(s), c, s) && Enabled(m.index, c, s, a)
    ensures var p := Persist(l, d, s, EventOf(a), fault);
            Readable(p.disk) ==>
              if p.result.Ok? then DurableClean(l, p.disk, Local(s, a))
              else Durable(l, p.disk, s) || Durable(l, p.disk, Local(s, a))
  {
    HeldStateActs(l, m, d, c, s, a);
    var p := Persist(l, d, s, EventOf(a), fault);
    if Readable(d) {
      PersistIsAtomic(l, d, s, EventOf(a), fault);
      if Readable(p.disk) && LineWritten(l, d, EventOf(a), fault) {
        CleanIsDurable(l, p.disk, Local(s, a));
      }
    } else {
      PersistRepairs(l, d, s, EventOf(a), fault);
    }
  }

  lemma SucceededAgrees(l: ConsumerLog, m: Memory, d: ConsumerDisk, c: string, s: CP.State, a: Action,
                        fault: PersistFault, m': Memory)
    requires Lawful(l) && IsConsumerLog(l) && Exact(m.index)
    requires ConsumerAgrees(l, d, m, Some(s), c, s) && Enabled(m.index, c, s, a)
    requires Persist(l, d, s, EventOf(a), fault).result.Ok? && Committed(m, c, Local(s, a), a, m')
    ensures var d' := Persist(l, d, s, EventOf(a), fault).disk;
            ConsumerAgrees(l, d', m', Some(Local(s, a)), c, Local(s, a))
  {
    HeldStateActs(l, m, d, c, s, a);
    CommitOutcome(l, m, d, c, s, a, fault);
    CommittedAgrees(l, m, Persist(l, d, s, EventOf(a), fault).disk, c, s, a, m');
  }

  lemma FailedAgrees(l: ConsumerLog, m: Memory, d: ConsumerDisk, c: string, s: CP.State, a: Action, fault: PersistFault)
    returns (truth: CP.State)
    requires Lawful(l) && IsConsumerLog(l)
    requires ConsumerAgrees(l, d, m, Some(s), c, s) && Enabled(m.index, c, s, a)
    requires Persist(l, d, s, EventOf(a), fault).result.Err?
    ensures truth == s || truth == Local(s, a)
    ensures ConsumerAgrees(l, Persist(l, d, s, EventOf(a), fault).disk, Marked(m, c), None, c, truth)
  {
    var d' := Persist(l, d, s, EventOf(a), fault).disk;
    HeldStateActs(l, m, d, c, s, a);
    CommitOutcome(l, m, d, c, s, a, fault);
    truth := if Readable(d') && !Durable(l, d', s) then Local(s, a) else s;
    MarkedAgrees(l, m, d', c, s, a, truth);
  }

  lemma HeldAgrees(l: ConsumerLog, w: World, c: string, s: CP.State, keeps: CP.State -> bool)
    requires Agrees(l, w, c, keeps) && w.session == Some(Session(c, s))
    ensures ConsumerAgrees(l, DiskOf(w, c), w.memory, Some(s), c, s) && keeps(s)
  {
  }

  lemma LocalKeeps(l: ConsumerLog, m: Memory, d: ConsumerDisk, c: string, s: CP.State, a: Action, cfg: Config,
                   keeps: CP.State -> bool)
    requires Lawful(l) && IsConsumerLog(l) && Stable(keeps, cfg.deadLetters) && keeps(s)
    requires ConsumerAgrees(l, d, m, Some(s), c, s) && Enabled(m.index, c, s, a)
    requires Guarded(cfg, m.index.inFlight, c, s, a)
    ensures keeps(Local(s, a))
  {
    HeldStateActs(l, m, d, c, s, a);
    ConsumerLogFacts(l, s, EventOf(a));
  }

  lemma SucceededCommitAgrees(l: ConsumerLog, m: Memory, d: ConsumerDisk, c: string, s: CP.State, a: Action,
                              fault: PersistFault, w': World, keeps: CP.State -> bool)
    requires Lawful(l) && IsConsumerLog(l) && Exact(m.index)
    requires ConsumerAgrees(l, d, m, Some(s), c, s) && Enabled(m.index, c, s, a) && keeps(Local(s, a))
    requires Persist(l, d, s, EventOf(a), fault).result.Ok? && Committed(m, c, Local(s, a), a, w'.memory)
    requires DiskOf(w', c) == Persist(l, d, s, EventOf(a), fault).disk
    requires Held(w', c).Some? ==> Held(w', c) == Some(Local(s, a))
    ensures Agrees(l, w', c, keeps)
  {
    SucceededAgrees(l, m, d, c, s, a, fault, w'.memory);
    UntouchedConsumerAgrees(l, DiskOf(w', c), w'.memory, w'.memory, Some(Local(s, a)), Held(w', c), c, Local(s, a));
    AgreesBy(l, w', c, Local(s, a), keeps);
  }

  lemma FailedCommitAgrees(l: ConsumerLog, m: Memory, d: ConsumerDisk, c: string, s: CP.State, a: Action,
                           fault: PersistFault, w': World, keeps: CP.State -> bool)
    requires Lawful(l) && IsConsumerLog(l)
    requires ConsumerAgrees(l, d, m, Some(s), c, s) && Enabled(m.index, c, s, a)
    requires keeps(s) && keeps(Local(s, a))
    requires Persist(l, d, s, EventOf(a), fault).result.Err? && w'.memory == Marked(m, c)
    requires DiskOf(w', c) == Persist(l, d, s, EventOf(a), fault).disk && Held(w', c) == None
    ensures Agrees(l, w', c, keeps)
  {
    var truth := FailedAgrees(l, m, d, c, s, a, fault);
    AgreesBy(l, w', c, truth, keeps);
  }

  lemma CommitAgrees(l: ConsumerLog, w: World, a: Action, fault: PersistFault, w': World, keeps: CP.State -> bool)
    requires Stable(keeps, w.config.deadLetters)
    requires Lawful(l) && IsConsumerLog(l) && Exact(w.memory.index) && w.session.Some?
    requires Agrees(l, w, w.session.value.consumer, keeps)
    requires CommitStep(l, w, a, fault, w')
    ensures Agrees(l, w', w.session.value.consumer, keeps)
  {
    var c, s, d := w.session.value.consumer, w.session.value.state, DiskOf(w, w.session.value.consumer);
    HeldAgrees(l, w, c, s, keeps);
    LocalKeeps(l, w.memory, d, c, s, a, w.config, keeps);
    if Persist(l, d, s, EventOf(a), fault).result.Ok? {
      SucceededCommitAgrees(l, w.memory, d, c, s, a, fault, w', keeps);
    } else {
      FailedCommitAgrees(l, w.memory, d, c, s, a, fault, w', keeps);
    }
  }

  lemma MarkedShrinks(m: Memory, c: string)
    ensures |Marked(m, c).states| <= |m.states|
  {
    assert (m.states - {c}).Keys == m.states.Keys - {c};
  }

  lemma CommitKeepsMemoryOk(l: ConsumerLog, w: World, a: Action, fault: PersistFault, w': World)
    requires MemoryOk(w.memory) && w.session.Some?
    requires CommitStep(l, w, a, fault, w')
    ensures MemoryOk(w'.memory)
  {
    var c, s := w.session.value.consumer, w.session.value.state;
    EffectKeepsExact(w.memory.index, c, s, a);
    MarkedShrinks(w.memory, c);
    if Persist(l, DiskOf(w, c), s, EventOf(a), fault).result.Ok? {
      CommittedMemory(w.memory, c, Local(s, a), a, w'.memory);
    }
  }

  lemma CommitKeepsOthers(l: ConsumerLog, w: World, a: Action, fault: PersistFault, w': World)
    requires MemoryOk(w.memory) && w.session.Some?
    requires CommitStep(l, w, a, fault, w')
    ensures OthersKept(w.memory, w.session.value.consumer, w'.memory)
  {
    var c, s := w.session.value.consumer, w.session.value.state;
    if Persist(l, DiskOf(w, c), s, EventOf(a), fault).result.Ok? {
      CommittedMemory(w.memory, c, Local(s, a), a, w'.memory);
    }
    EffectKeepsOthers(w.memory, c, s, a, w'.memory);
  }

  lemma CommitKeepsOtherAgreement(l: ConsumerLog, w: World, a: Action, fault: PersistFault, w': World, x: string,
                                  keeps: CP.State -> bool)
    requires MemoryOk(w.memory) && w.session.Some? && w.session.value.consumer != x && Agrees(l, w, x, keeps)
    requires CommitStep(l, w, a, fault, w')
    ensures Agrees(l, w', x, keeps)
  {
    CommitKeepsOthers(l, w, a, fault, w');
    OtherAgrees(l, w, w.session.value.consumer, w', x, keeps);
  }

  lemma CommitKeepsAgreement(l: ConsumerLog, w: World, a: Action, fault: PersistFault, w': World, x: string,
                             keeps: CP.State -> bool)
    requires Stable(keeps, w.config.deadLetters)
    requires Lawful(l) && IsConsumerLog(l) && MemoryOk(w.memory) && w.session.Some? && Agrees(l, w, x, keeps)
    requires CommitStep(l, w, a, fault, w')
    ensures MemoryOk(w'.memory) && Agrees(l, w', x, keeps)
  {
    CommitKeepsMemoryOk(l, w, a, fault, w');
    if x == w.session.value.consumer {
      CommitAgrees(l, w, a, fault, w', keeps);
    } else {
      CommitKeepsOtherAgreement(l, w, a, fault, w', x, keeps);
    }
  }

  /** Fewer deliveries in flight, fewer cached states or an ended request: the consumer still agrees. */
  lemma FewerAgrees(l: ConsumerLog, w: World, w': World, x: string, keeps: CP.State -> bool)
    requires Agrees(l, w, x, keeps)
    requires DiskOf(w', x) == DiskOf(w, x)
    requires Held(w', x).Some? ==> Held(w', x) == Held(w, x)
    requires forall k :: k in w'.memory.index.inFlight ==>
                           k in w.memory.index.inFlight && w'.memory.index.inFlight[k] == w.memory.index.inFlight[k]
    requires x in w'.memory.states ==> x in w.memory.states && w'.memory.states[x] == w.memory.states[x]
    requires (x in w'.memory.reconcile <==> x in w.memory.reconcile) || w'.memory == EmptyMemory
    ensures Agrees(l, w', x, keeps)
  {
    var truth :| ConsumerAgrees(l, DiskOf(w, x), w.memory, Held(w, x), x, truth) && keeps(truth);
    assert ConsumerAgrees(l, DiskOf(w', x), w'.memory, Held(w', x), x, truth);
    AgreesBy(l, w', x, truth, keeps);
  }

  lemma ReleaseKeepsAgreement(l: ConsumerLog, w: World, ks: seq<DeliveryKey>, w': World, x: string,
                              keeps: CP.State -> bool)
    requires MemoryOk(w.memory) && Agrees(l, w, x, keeps) && Next(l, w, Release(ks), w')
    ensures MemoryOk(w'.memory) && Agrees(l, w', x, keeps)
  {
    RemoveAllKeepsExact(w.memory.index, ks);
    RemoveAllRemoves(w.memory.index, ks);
    FewerAgrees(l, w, w', x, keeps);
  }

  lemma FinishKeepsAgreement(l: ConsumerLog, w: World, w': World, x: string, keeps: CP.State -> bool)
    requires Agrees(l, w, x, keeps) && w' == w.(session := None)
    ensures Agrees(l, w', x, keeps)
  {
    FewerAgrees(l, w, w', x, keeps);
  }

  lemma StopKeepsAgreement(l: ConsumerLog, w: World, w': World, x: string, keeps: CP.State -> bool)
    requires Agrees(l, w, x, keeps) && Started(w', w.disks, w.config.deadLetters)
    ensures Agrees(l, w', x, keeps)
  {
    FewerAgrees(l, w, w', x, keeps);
  }

  lemma EmptyMemoryIsOk()
    ensures MemoryOk(EmptyMemory)
  {
  }

  /** Every step keeps a consumer in agreement with a truth that is no earlier than before. */
  lemma StepKeepsAgreement(l: ConsumerLog, w: World, step: Step, w': World, x: string, keeps: CP.State -> bool)
    requires Stable(keeps, w.config.deadLetters)
    requires Lawful(l) && IsConsumerLog(l) && MemoryOk(w.memory) && Agrees(l, w, x, keeps) && Next(l, w, step, w')
    ensures MemoryOk(w'.memory) && Agrees(l, w', x, keeps)
  {
    match step
    case Begin(c, fault, syncFails) => BeginKeepsAgreement(l, w, c, fault, syncFails, w', x, keeps);
    case Commit(a, fault) => CommitKeepsAgreement(l, w, a, fault, w', x, keeps);
    case Release(ks) => ReleaseKeepsAgreement(l, w, ks, w', x, keeps);
    case Finish => FinishKeepsAgreement(l, w, w', x, keeps);
    case Stop =>
      EmptyMemoryIsOk();
      StopKeepsAgreement(l, w, w', x, keeps);
  }

  lemma StepKeepsConfig(l: ConsumerLog, w: World, step: Step, w': World)
    requires Next(l, w, step, w')
    ensures w'.config.deadLetters == w.config.deadLetters
  {
  }

  lemma StepKeepsInvariant(l: ConsumerLog, w: World, step: Step, w': World)
    requires Lawful(l) && IsConsumerLog(l) && Invariant(l, w) && Next(l, w, step, w')
    ensures Invariant(l, w')
  {
    forall x: string ensures MemoryOk(w'.memory) && Agrees(l, w', x, Any) {
      StepKeepsAgreement(l, w, step, w', x, Any);
    }
    StepKeepsAgreement(l, w, step, w', "", Any);
  }

  lemma StartAgrees(l: ConsumerLog, w: World, c: string, keeps: CP.State -> bool)
    requires Lawful(l) && IsConsumerLog(l) && Started(w, map[], w.config.deadLetters) && keeps(CP.Empty)
    ensures Agrees(l, w, c, keeps)
  {
    EmptyDiskIsFresh(l);
    CleanIsDurable(l, DiskOf(w, c), l.initial);
    AgreesBy(l, w, c, l.initial, keeps);
  }

  lemma StartMeetsInvariant(l: ConsumerLog, w: World)
    requires Lawful(l) && IsConsumerLog(l) && Started(w, map[], w.config.deadLetters)
    ensures Invariant(l, w)
  {
    EmptyMemoryIsOk();
    forall x ensures Agrees(l, w, x, Any) {
      StartAgrees(l, w, x, Any);
    }
  }

  // ---------------------------------------------------------------- whole runs

  ghost predicate IsRun(l: ConsumerLog, ws: seq<World>, steps: seq<Step>) {
    && |ws| == |steps| + 1
    && Started(ws[0], map[], ws[0].config.deadLetters)
    && forall i :: 0 <= i < |steps| ==> Next(l, ws[i], steps[i], ws[i + 1])
  }

  /** A property that every step of a stretch keeps holds at its end. */
  lemma {:induction false} KeptAlong(ws: seq<World>, holds: World -> bool, i: nat, j: nat)
    requires i <= j < |ws| && holds(ws[i])
    requires forall k :: i <= k < j && holds(ws[k]) ==> holds(ws[k + 1])
    ensures holds(ws[j])
    decreases j
  {
    if i == j {
    } else {
      KeptAlong(ws, holds, i, j - 1);
      assert holds(ws[j - 1 + 1]);
    }
  }

  lemma RunKeepsInvariant(l: ConsumerLog, ws: seq<World>, steps: seq<Step>, i: nat)
    requires Lawful(l) && IsConsumerLog(l) && IsRun(l, ws, steps) && i < |ws|
    ensures Invariant(l, ws[i])
  {
    var holds := w => Invariant(l, w);
    StartMeetsInvariant(l, ws[0]);
    forall k | 0 <= k < i && holds(ws[k]) ensures holds(ws[k + 1]) {
      StepKeepsInvariant(l, ws[k], steps[k], ws[k + 1]);
    }
    KeptAlong(ws, holds, 0, i);
  }

  lemma RunStepKeepsAgreement(l: ConsumerLog, ws: seq<World>, steps: seq<Step>, j: nat, c: string,
                              keeps: CP.State -> bool)
    requires Lawful(l) && IsConsumerLog(l) && IsRun(l, ws, steps) && j < |steps| && Agrees(l, ws[j], c, keeps)
    requires Stable(keeps, ws[j].config.deadLetters)
    ensures Agrees(l, ws[j + 1], c, keeps)
  {
    RunKeepsInvariant(l, ws, steps, j);
    StepKeepsAgreement(l, ws[j], steps[j], ws[j + 1], c, keeps);
  }

  lemma RunKeepsConfig(l: ConsumerLog, ws: seq<World>, steps: seq<Step>, j: nat)
    requires IsRun(l, ws, steps) && j < |ws|
    ensures ws[j].config.deadLetters == ws[0].config.deadLetters
  {
    var holds := (w: World) => w.config.deadLetters == ws[0].config.deadLetters;
    forall k | 0 <= k < j && holds(ws[k]) ensures holds(ws[k + 1]) {
      StepKeepsConfig(l, ws[k], steps[k], ws[k + 1]);
    }
    KeptAlong(ws, holds, 0, j);
  }

  lemma RunKeepsAgreement(l: ConsumerLog, ws: seq<World>, steps: seq<Step>, i: nat, j: nat, c: string,
                          keeps: CP.State -> bool)
    requires Lawful(l) && IsConsumerLog(l) && IsRun(l, ws, steps) && i <= j < |ws| && Agrees(l, ws[i], c, keeps)
    requires Stable(keeps, ws[0].config.deadLetters)
    ensures Agrees(l, ws[j], c, keeps)
  {
    var holds := w => Agrees(l, w, c, keeps);
    forall k | i <= k < j && holds(ws[k]) ensures holds(ws[k + 1]) {
      RunKeepsConfig(l, ws, steps, k);
      RunStepKeepsAgreement(l, ws, steps, k, c, keeps);
    }
    KeptAlong(ws, holds, i, j);
  }

  function Recovered(l: ConsumerLog, w: World, c: string): LoadResult {
    Load(l, DiskOf(w, c), NoLoadFault).result
  }

  /** What truth means for an observer who loads the files. */
  lemma AgreementMeans(l: ConsumerLog, w: World, c: string, truth: CP.State)
    requires Lawful(l) && IsConsumerLog(l) && ConsumerAgrees(l, DiskOf(w, c), w.memory, Held(w, c), c, truth)
    ensures if Readable(DiskOf(w, c)) then Recovered(l, w, c) == Ok(truth) && CP.WellFormed(truth)
            else Recovered(l, w, c) == Err(JournalTooLarge)
  {
    if Readable(DiskOf(w, c)) {
      LoadKeepsMeaning(l, DiskOf(w, c), truth, NoLoadFault);
      DurableIsGood(l, DiskOf(w, c), truth);
      ConsumerLogFacts(l, truth, CP.Acknowledge(0));
    } else {
      OverflownIsRefused(l, DiskOf(w, c), NoLoadFault);
    }
  }

  /** At every point of every run the indexes are exact, record keys in flight are exclusive and the
      cache is within its bound. A load of a consumer's files succeeds exactly if the journal is within
      its bound, and fails for no other reason. When it succeeds, the state a request holds and every
      cached state are what it recovers, and, unless a reconcile is pending, every delivery in flight is
      recorded there with its attempt number and is not acknowledged. */
  lemma CacheRefinesFiles(l: ConsumerLog, ws: seq<World>, steps: seq<Step>, i: nat, c: string)
    requires Lawful(l) && IsConsumerLog(l) && IsRun(l, ws, steps) && i < |ws|
    ensures var w := ws[i];
            var recovered := Recovered(l, w, c);
            && Exact(w.memory.index) && KeysExclusive(w.memory.index.inFlight)
            && |w.memory.states| <= MAX_CACHED_CONSUMER_STATES
            && (recovered.Ok? <==> |JournalBytes(DiskOf(w, c))| <= MAX_JOURNAL_BYTES)
            && (recovered.Err? ==> recovered.error == JournalTooLarge)
            && (recovered.Ok? ==>
                  && (w.session.Some? && w.session.value.consumer == c ==> recovered.value == w.session.value.state)
                  && (c in w.memory.states ==> recovered.value == w.memory.states[c] && c !in w.memory.reconcile)
                  && (c !in w.memory.reconcile ==>
                        forall k :: k in w.memory.index.inFlight && k.consumer == c ==>
                                      && Recorded(recovered.value, k.offset, w.memory.index.inFlight[k].attempt)
                                      && !CP.Settled(recovered.value, k.offset)))
  {
    var w := ws[i];
    RunKeepsInvariant(l, ws, steps, i);
    assert Agrees(l, w, c, Any);
    var truth :| ConsumerAgrees(l, DiskOf(w, c), w.memory, Held(w, c), c, truth) && Any(truth);
    AgreementMeans(l, w, c, truth);
  }

  // ---------------------------------------------------------------- progress over whole runs

  /** The deliveries an action hands out. */
  function HandsOut(a: Action): seq<Pending> {
    match a
    case DeliverOne(p) => [p]
    case DeliverMany(ps) => ps
    case _ => []
  }

  /** A delivery that respects what an earlier state had recorded: its offset was not acknowledged, and
      its attempt number is above the recorded one, as far as 32 bits allow. */
  ghost predicate HandedOutAfter(earlier: CP.State, p: Pending) {
    && !CP.Settled(earlier, p.delivery.offset)
    && (p.delivery.offset in earlier.attempts ==>
          earlier.attempts[p.delivery.offset] < p.delivery.attempt || p.delivery.attempt == U32_MAX)
  }

  lemma DeliveriesAreFresh(ix: Indexes, c: string, earlier: CP.State, s: CP.State, a: Action)
    requires PT.Later(earlier, s) && Enabled(ix, c, s, a)
    ensures forall p :: p in HandsOut(a) ==> HandedOutAfter(earlier, p)
  {
    forall p | p in HandsOut(a) ensures HandedOutAfter(earlier, p) {
      assert Candidate(ix, c, s, p);
      if p.delivery.offset in earlier.attempts {
        assert PT.KeptAttempt(earlier, s, p.delivery.offset);
      }
    }
  }

  lemma LaterIsStable(earlier: CP.State, deadLetters: bool)
    ensures Stable(t => PT.Later(earlier, t), deadLetters)
  {
    forall cfg: Config, ix: Indexes, c: string, s: CP.State, a: Action
      | CP.WellFormed(s) && FlightsRecorded(ix.inFlight, c, s) && Enabled(ix, c, s, a)
        && Guarded(cfg, ix.inFlight, c, s, a) && PT.Later(earlier, s)
      ensures PT.Later(earlier, Local(s, a))
    {
      LocalUpdateIsEvent(ix, c, s, a);
      ApplyOneEvent(s, EventOf(a));
      PT.EventsLeadLater(s, [EventOf(a)]);
      PT.LaterIsTransitive(earlier, s, Local(s, a));
    }
  }

  /** Readable files agree with the very state they recover. */
  lemma RecoveredAgrees(l: ConsumerLog, ws: seq<World>, steps: seq<Step>, i: nat, c: string)
    requires Lawful(l) && IsConsumerLog(l) && IsRun(l, ws, steps) && i < |ws| && Recovered(l, ws[i], c).Ok?
    ensures Agrees(l, ws[i], c, t => PT.Later(Recovered(l, ws[i], c).value, t))
  {
    RunKeepsInvariant(l, ws, steps, i);
    assert Agrees(l, ws[i], c, Any);
    var truth :| ConsumerAgrees(l, DiskOf(ws[i], c), ws[i].memory, Held(ws[i], c), c, truth) && Any(truth);
    AgreementMeans(l, ws[i], c, truth);
    PT.LaterIsReflexive(truth);
  }

  lemma AgreementShows(l: ConsumerLog, w: World, c: string, keeps: CP.State -> bool)
    requires Lawful(l) && IsConsumerLog(l) && Agrees(l, w, c, keeps)
    ensures Recovered(l, w, c).Ok? ==> keeps(Recovered(l, w, c).value)
    ensures Held(w, c).Some? ==> keeps(Held(w, c).value)
    ensures c in w.memory.states ==> keeps(w.memory.states[c])
  {
    var truth :| ConsumerAgrees(l, DiskOf(w, c), w.memory, Held(w, c), c, truth) && keeps(truth);
    AgreementMeans(l, w, c, truth);
  }

  lemma CommitIsEnabled(l: ConsumerLog, w: World, step: Step, w': World)
    requires Next(l, w, step, w') && step.Commit?
    ensures w.session.Some?
    ensures Enabled(w.memory.index, w.session.value.consumer, w.session.value.state, step.action)
  {
  }

  /** Across requests, failed writes and process stops: a state recovered later is a later state, so no
      acknowledged offset is revived and no attempt counter falls; and what is handed out later
      respects what was recovered before. */
  lemma ProgressIsNeverLost(l: ConsumerLog, ws: seq<World>, steps: seq<Step>, i: nat, j: nat, c: string)
    requires Lawful(l) && IsConsumerLog(l) && IsRun(l, ws, steps) && i <= j < |ws|
    requires Recovered(l, ws[i], c).Ok?
    ensures var earlier := Recovered(l, ws[i], c).value;
            && (Recovered(l, ws[j], c).Ok? ==> PT.Later(earlier, Recovered(l, ws[j], c).value))
            && (j < |steps| && steps[j].Commit? && Held(ws[j], c).Some? ==>
                  forall p :: p in HandsOut(steps[j].action) ==> HandedOutAfter(earlier, p))
  {
    var earlier := Recovered(l, ws[i], c).value;
    var keeps := t => PT.Later(earlier, t);
    RecoveredAgrees(l, ws, steps, i, c);
    LaterIsStable(earlier, ws[0].config.deadLetters);
    RunKeepsAgreement(l, ws, steps, i, j, c, keeps);
    AgreementShows(l, ws[j], c, keeps);
    if j < |steps| && steps[j].Commit? && Held(ws[j], c).Some? {
      CommitIsEnabled(l, ws[j], steps[j], ws[j + 1]);
      DeliveriesAreFresh(ws[j].memory.index, c, earlier, Held(ws[j], c).value, steps[j].action);
    }
  }

  // ---------------------------------------------------------------- past the bound

  /** A commit on readable files takes them past the bound exactly if its append overflows. */
  lemma CommitOverflowsExactlyWhen(l: ConsumerLog, ws: seq<World>, steps: seq<Step>, i: nat)
    requires Lawful(l) && IsConsumerLog(l) && IsRun(l, ws, steps) && i < |steps|
    requires steps[i].Commit? && ws[i].session.Some? && Readable(DiskOf(ws[i], ws[i].session.value.consumer))
    ensures var c := ws[i].session.value.consumer;
            Readable(DiskOf(ws[i + 1], c)) <==>
            !Overflows(l, DiskOf(ws[i], c), EventOf(steps[i].action), steps[i].fault)
  {
    var w, c, s := ws[i], ws[i].session.value.consumer, ws[i].session.value.state;
    RunKeepsInvariant(l, ws, steps, i);
    assert Agrees(l, w, c, Any);
    assert Next(l, w, steps[i], ws[i + 1]);
    HeldStateActs(l, w.memory, DiskOf(w, c), c, s, steps[i].action);
    PersistIsAtomic(l, DiskOf(w, c), s, EventOf(steps[i].action), steps[i].fault);
  }

  lemma LoadKeepsReadable(l: ConsumerLog, d: ConsumerDisk, fault: LoadFault)
    requires Readable(d)
    ensures Readable(Load(l, d, fault).disk)
  {
  }

  /** The commit at step k takes its consumer's readable files past the bound. */
  ghost predicate OverflowsAt(l: ConsumerLog, ws: seq<World>, steps: seq<Step>, k: nat)
    requires k < |steps| && k < |ws|
  {
    && steps[k].Commit? && ws[k].session.Some?
    && Overflows(l, DiskOf(ws[k], ws[k].session.value.consumer), EventOf(steps[k].action), steps[k].fault)
  }

  lemma StepKeepsReadable(l: ConsumerLog, ws: seq<World>, steps: seq<Step>, k: nat, c: string)
    requires Lawful(l) && IsConsumerLog(l) && IsRun(l, ws, steps) && k < |steps|
    requires Readable(DiskOf(ws[k], c)) && !OverflowsAt(l, ws, steps, k)
    ensures Readable(DiskOf(ws[k + 1], c))
  {
    assert Next(l, ws[k], steps[k], ws[k + 1]);
    match steps[k]
    case Begin(x, fault, _) => LoadKeepsReadable(l, DiskOf(ws[k], c), fault);
    case Commit(_, _) =>
      if ws[k].session.value.consumer == c {
        CommitOverflowsExactlyWhen(l, ws, steps, k);
      }
    case Release(_) =>
    case Finish =>
    case Stop =>
  }

  /** As long as no commit overflows, every consumer's files can be loaded. */
  lemma RunsWithoutOverflowStayReadable(l: ConsumerLog, ws: seq<World>, steps: seq<Step>, i: nat, c: string)
    requires Lawful(l) && IsConsumerLog(l) && IsRun(l, ws, steps) && i < |ws|
    requires forall k :: 0 <= k < i ==> !OverflowsAt(l, ws, steps, k)
    ensures Recovered(l, ws[i], c).Ok?
  {
    var holds := w => Readable(DiskOf(w, c));
    forall k | 0 <= k < i && holds(ws[k]) ensures holds(ws[k + 1]) {
      StepKeepsReadable(l, ws, steps, k, c);
    }
    KeptAlong(ws, holds, 0, i);
    CacheRefinesFiles(l, ws, steps, i, c);
  }

  /** If every committed event has a line that fits the journal, every load of the run succeeds. */
  lemma FittingEventsStayReadable(l: ConsumerLog, ws: seq<World>, steps: seq<Step>, i: nat, c: string)
    requires Lawful(l) && IsConsumerLog(l) && IsRun(l, ws, steps) && i < |ws|
    requires forall k :: 0 <= k < i && steps[k].Commit? ==> |Line(l, EventOf(steps[k].action))| <= MAX_JOURNAL_BYTES
    ensures Recovered(l, ws[i], c).Ok?
  {
    forall k | 0 <= k < i ensures !OverflowsAt(l, ws, steps, k) {
      if OverflowsAt(l, ws, steps, k) {
        OverflowNeedsLongLine(l, DiskOf(ws[k], ws[k].session.value.consumer), EventOf(steps[k].action), steps[k].fault);
      }
    }
    RunsWithoutOverflowStayReadable(l, ws, steps, i, c);
  }

  lemma UnknownStaysUnknown(l: ConsumerLog, w: World, step: Step, w': World, c: string)
    requires Next(l, w, step, w') && !Readable(DiskOf(w, c)) && c !in w.memory.states && Held(w, c).None?
    ensures DiskOf(w', c) == DiskOf(w, c) && c !in w'.memory.states && Held(w', c).None?
  {
    match step
    case Begin(x, fault, syncFails) =>
      OverflownIsRefused(l, DiskOf(w, c), fault);
    case Commit(a, fault) =>
      var x, s := w.session.value.consumer, w.session.value.state;
      if w'.session.Some? {
        CommittedMemory(w.memory, x, Local(s, a), a, w'.memory);
      }
    case Release(_) =>
    case Finish =>
    case Stop =>
  }

  /** Files past the bound of a consumer the broker no longer knows stay as they are for the rest of the
      run: no request for it begins again. */
  lemma {:induction false} OverflownStaysRefused(l: ConsumerLog, ws: seq<World>, steps: seq<Step>, i: nat, j: nat,
                                                 c: string)
    requires IsRun(l, ws, steps) && i <= j < |ws| && !Readable(DiskOf(ws[i], c))
    requires c !in ws[i].memory.states && Held(ws[i], c).None?
    ensures DiskOf(ws[j], c) == DiskOf(ws[i], c) && c !in ws[j].memory.states && Held(ws[j], c).None?
    decreases j
  {
    if i == j {
    } else {
      OverflownStaysRefused(l, ws, steps, i, j - 1, c);
      assert Next(l, ws[j - 1], steps[j - 1], ws[j - 1 + 1]);
      UnknownStaysUnknown(l, ws[j - 1], steps[j - 1], ws[j], c);
    }
  }

}
