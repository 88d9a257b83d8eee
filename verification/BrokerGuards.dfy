/**
 When the broker takes an action (crates/runnel-core/src/broker.rs). `BrokerActions.Enabled` is what the
 proofs about states and indexes need; the guards here are the remaining checks of the code, so that a
 run of the model is one the code can make.
 */
module BrokerGuards {
  import opened Prelude
  import opened ConsumerProgress
  import opened DeliveryIndex
  import opened BrokerActions

  const MAX_CONSUME_BATCH_RECORDS: nat := 1024

  /** The policy of consumers that were never configured, and whether the stream holds dead letters. */
  datatype Config = Config(legacy: Policy, deadLetters: bool)

  predicate IsLegacy(p: Policy) {
    p.version == 0 && !p.configured && p.retryDelayMs == 0
  }

  function Attempts(s: State, o: Offset): U32 {
    if o in s.attempts then s.attempts[o] else 0
  }

  predicate Exhausted(p: Policy, attempts: U32) {
    p.maxDeliveryAttempts.Some? && attempts >= p.maxDeliveryAttempts.value
  }

  function SaturatingAdd(a: nat, b: nat): nat {
    if a + b > U64_MAX then U64_MAX else a + b
  }

  function NextVersion(s: State): nat {
    if s.policy.Some? then SaturatingAdd(s.policy.value.version, 1) else 1
  }

  /** A policy with the same settings is not configured again. */
  predicate Changes(s: State, p: Policy) {
    s.policy.Some? ==>
      var q := s.policy.value;
      || q.ackTimeoutMs != p.ackTimeoutMs
      || q.maxDeliveryAttempts != p.maxDeliveryAttempts
      || q.retryDelayMs != p.retryDelayMs
  }

  // ---------------------------------------------------------------- retries

  /** An attempt that ended must wait: its policy has a retry delay and allows another attempt. */
  predicate NeedsRetry(cfg: Config, s: State, o: Offset) {
    && o !in s.retries
    && PolicyFor(s, o, cfg.legacy).Ok?
    && var p := PolicyFor(s, o, cfg.legacy).value;
    p.retryDelayMs != 0 && !Exhausted(p, Attempts(s, o))
  }

  predicate ScheduledFrom(cfg: Config, s: State, r: RetryRequest, nowMs: nat) {
    && PolicyFor(s, r.offset, cfg.legacy).Ok?
    && r.notBeforeMs == SaturatingAdd(nowMs, PolicyFor(s, r.offset, cfg.legacy).value.retryDelayMs)
  }

  ghost predicate Schedules(rs: seq<RetryRequest>, o: Offset) {
    exists r :: r in rs && r.offset == o
  }

  /** The plan for expired deliveries: all of them are released, and exactly those that must wait are
      scheduled, with their record key. */
  ghost predicate Planned(cfg: Config, f: Flights, c: string, s: State, rs: seq<RetryRequest>, ks: seq<DeliveryKey>,
                          now: nat, nowMs: nat)
  {
    && (forall k :: k in ks <==> k in f && k.consumer == c && f[k].deadline <= now)
    && (forall k :: k in ks && NeedsRetry(cfg, s, k.offset) ==> Schedules(rs, k.offset))
    && (forall r :: r in rs ==>
                      && DeliveryKey(c, r.offset) in ks && DeliveryKey(c, r.offset) in f
                      && r.key == f[DeliveryKey(c, r.offset)].key
                      && NeedsRetry(cfg, s, r.offset) && ScheduledFrom(cfg, s, r, nowMs))
  }

  // ---------------------------------------------------------------- deliveries

  /** The member holds no delivery of the consumer; otherwise it is handed its own again. */
  ghost predicate MemberFree(f: Flights, c: string, m: string) {
    forall o :: !Belongs(f, c, o, m)
  }

  /** No schedule keeps the record, or another record with its key, waiting. */
  predicate Due(s: State, p: Pending, nowMs: nat) {
    forall o :: o in s.retries && s.retries[o].notBeforeMs > nowMs ==>
                  o != p.delivery.offset && (s.retries[o].key.Some? ==> s.retries[o].key != p.delivery.key)
  }

  /** The record is due, an earlier attempt does not have to be scheduled first, its policy applies, and
      that policy allows another attempt unless the stream itself holds dead letters. */
  predicate Deliverable(cfg: Config, s: State, p: Pending, nowMs: nat) {
    var o := p.delivery.offset;
    && Due(s, p, nowMs)
    && (o in s.attempts ==> !NeedsRetry(cfg, s, o))
    && PolicyFor(s, o, cfg.legacy) == Ok(p.policy)
    && (Exhausted(p.policy, Attempts(s, o)) ==> cfg.deadLetters)
  }

  ghost predicate BatchDeliverable(cfg: Config, s: State, ps: seq<Pending>, nowMs: nat) {
    forall i :: 0 <= i < |ps| ==> Deliverable(cfg, s, ps[i], nowMs)
  }

  // ---------------------------------------------------------------- all actions

  ghost predicate Guarded(cfg: Config, f: Flights, c: string, s: State, a: Action) {
    match a
    case Configure(p) => p.configured && p.version == NextVersion(s) && Changes(s, p)
    case DeliverOne(p) =>
      MemberFree(f, c, p.delivery.member) && exists nowMs: nat :: Deliverable(cfg, s, p, nowMs)
    case DeliverMany(ps) =>
      && 0 < |ps| <= MAX_CONSUME_BATCH_RECORDS
      && (forall i :: 0 <= i < |ps| ==> ps[i].delivery.member == ps[0].delivery.member)
      && MemberFree(f, c, ps[0].delivery.member)
      && exists nowMs: nat :: BatchDeliverable(cfg, s, ps, nowMs)
    case AckOne(_) => true
    case AckMany(os) =>
      && 0 < |os| <= MAX_CONSUME_BATCH_RECORDS
      && forall i, j :: 0 <= i < j < |os| ==> os[i] != os[j]
    case DeadLetter(o) =>
      && !cfg.deadLetters && !Settled(s, o)
      && PolicyFor(s, o, cfg.legacy).Ok? && Exhausted(PolicyFor(s, o, cfg.legacy).value, Attempts(s, o))
    case ScheduleExpired(rs, ks) => rs != [] && exists now: nat, nowMs: nat :: Planned(cfg, f, c, s, rs, ks, now, nowMs)
    case ScheduleOrphan(r) =>
      && DeliveryKey(c, r.offset) !in f && r.offset in s.attempts && NeedsRetry(cfg, s, r.offset)
      && exists nowMs: nat :: ScheduledFrom(cfg, s, r, nowMs)
  }

  /** The request returns after these actions; after the others it goes on. */
  predicate EndsRequest(a: Action) {
    a.Configure? || a.DeliverOne? || a.DeliverMany? || a.AckOne? || a.AckMany?
  }

  // ---------------------------------------------------------------- attempt limits

  ghost predicate AttemptAllowed(s: State, o: Offset)
    requires o in s.attempts
  {
    && o in s.policies
    && var limit := s.policies[o].maxDeliveryAttempts;
    limit.Some? ==> s.attempts[o] <= limit.value
  }

  /** No attempt counter exceeds the limit of the policy pinned for it. */
  ghost predicate WithinLimits(s: State) {
    forall o :: o in s.attempts ==> AttemptAllowed(s, o)
  }

  lemma AssignKeepsLimits(cfg: Config, s: State, t: State, p: Pending, nowMs: nat)
    requires WithinLimits(t) && !cfg.deadLetters && Deliverable(cfg, s, p, nowMs)
    requires p.delivery.attempt == NextAttempt(s, p.delivery.offset)
    requires Lookup(t.attempts, p.delivery.offset) == Lookup(s.attempts, p.delivery.offset)
    requires Lookup(t.policies, p.delivery.offset) == Lookup(s.policies, p.delivery.offset)
    ensures WithinLimits(Assign(t, p))
  {
  }

  lemma {:induction false} AssignAllPolicies(s: State, ps: seq<Pending>, o: Offset)
    requires forall i :: 0 <= i < |ps| ==> ps[i].delivery.offset != o
    ensures Lookup(AssignAll(s, ps).policies, o) == Lookup(s.policies, o)
  {
    if ps == [] {
    } else {
      AssignAllPolicies(s, ps[..|ps| - 1], o);
    }
  }

  lemma {:induction false} AssignAllKeepsLimits(cfg: Config, s: State, ps: seq<Pending>, nowMs: nat)
    requires WithinLimits(s) && !cfg.deadLetters && BatchDeliverable(cfg, s, ps, nowMs)
    requires forall i :: 0 <= i < |ps| ==> ps[i].delivery.attempt == NextAttempt(s, ps[i].delivery.offset)
    requires forall i, j :: 0 <= i < j < |ps| ==> ps[i].delivery.offset != ps[j].delivery.offset
    ensures WithinLimits(AssignAll(s, ps))
  {
    if ps == [] {
    } else {
      var init, last := ps[..|ps| - 1], ps[|ps| - 1];
      AssignAllKeepsLimits(cfg, s, init, nowMs);
      AssignAllFrame(s, init, last.delivery.offset);
      AssignAllPolicies(s, init, last.delivery.offset);
      AssignKeepsLimits(cfg, s, AssignAll(s, init), last, nowMs);
    }
  }

  lemma AckKeepsLimits(s: State, o: Offset)
    requires WellFormed(s) && WithinLimits(s)
    ensures WellFormed(Ack(s, o)) && WithinLimits(Ack(s, o))
  {
    AckKeepsSlots(s, o);
    var t := Ack(s, o);
    forall x | x in t.attempts ensures AttemptAllowed(t, x) {
      assert SlotOf(t, x) == Touched(SlotOf(s, x), x, Acked(o));
      assert AttemptAllowed(s, x);
    }
  }

  lemma {:induction false} AckAllKeepsLimits(s: State, os: seq<Offset>)
    requires WellFormed(s) && WithinLimits(s)
    ensures WellFormed(AckAll(s, os)) && WithinLimits(AckAll(s, os))
  {
    if os == [] {
    } else {
      AckAllKeepsLimits(s, os[..|os| - 1]);
      AckKeepsLimits(AckAll(s, os[..|os| - 1]), os[|os| - 1]);
    }
  }

  lemma {:induction false} SchedulesKeepLimits(s: State, rs: seq<RetryRequest>)
    requires WithinLimits(s)
    ensures WithinLimits(KeepOrInsertAll(s, rs))
  {
    if rs == [] {
    } else {
      SchedulesKeepLimits(s, rs[..|rs| - 1]);
      var mid := KeepOrInsertAll(s, rs[..|rs| - 1]);
      var t := KeepOrInsert(mid, rs[|rs| - 1]);
      forall o | o in t.attempts ensures AttemptAllowed(t, o) {
        assert AttemptAllowed(mid, o);
      }
    }
  }

  /** On a stream that holds no dead letters, no action of the broker exceeds an attempt limit. */
  lemma ActionKeepsLimits(cfg: Config, ix: Indexes, c: string, s: State, a: Action)
    requires WellFormed(s) && WithinLimits(s) && !cfg.deadLetters
    requires Enabled(ix, c, s, a) && Guarded(cfg, ix.inFlight, c, s, a)
    ensures WithinLimits(Local(s, a))
  {
    match a
    case Configure(p) =>
      assert forall o :: o in s.attempts ==> AttemptAllowed(s, o);
    case DeliverOne(p) =>
      var nowMs: nat :| Deliverable(cfg, s, p, nowMs);
      AssignKeepsLimits(cfg, s, s, p, nowMs);
    case DeliverMany(ps) =>
      var nowMs: nat :| BatchDeliverable(cfg, s, ps, nowMs);
      forall i, j | 0 <= i < j < |ps| ensures ps[i].delivery.offset != ps[j].delivery.offset {
        assert Apart(ps[i], ps[j]);
      }
      forall i | 0 <= i < |ps| ensures ps[i].delivery.attempt == NextAttempt(s, ps[i].delivery.offset) {
        assert Candidate(ix, c, s, ps[i]);
      }
      AssignAllKeepsLimits(cfg, s, ps, nowMs);
    case AckOne(o) => AckKeepsLimits(s, o);
    case AckMany(os) => AckAllKeepsLimits(s, os);
    case DeadLetter(o) => AckKeepsLimits(s, o);
    case ScheduleExpired(rs, _) => SchedulesKeepLimits(s, rs);
    case ScheduleOrphan(r) =>
      assert forall o :: o in s.attempts ==> AttemptAllowed(s, o);
  }
}
