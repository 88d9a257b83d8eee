/**
 The hot-ordering recorder as the benchmark's workers use it, an object updated in place under a lock,
 and the builder of its record schedule (scripts/benchmarks/cluster_scenarios.py).
 */
module HotOrderingRecorder {
  import opened Prelude
  import opened HotOrdering

  const MAX_HOT_ORDERING_MESSAGES := 4096

  class HotOrderingObservation {
    const expected: map<string, seq<nat>>
    const hotKey: string
    const hotTotal: nat
    var delivered: map<string, seq<nat>>
    var completed: map<string, seq<nat>>
    var attempts: map<nat, int>
    var completedOffsets: set<nat>
    var active: set<nat>
    var processing: set<nat>
    var ackStarted: set<nat>
    var activeByKey: map<string, int>
    var maxByKey: map<string, int>
    var maxInFlight: nat
    var hotCompleted: nat
    var backlogAtDelivery: seq<int>
    var backlogAtColdCompletion: seq<int>
    var coldProgressed: set<string>
    var coldFinished: set<string>

    ghost function View(): Observation
      reads this
    {
      Observation(expected, hotKey, hotTotal, delivered, completed, attempts, completedOffsets, active, processing,
                  ackStarted, activeByKey, maxByKey, maxInFlight, hotCompleted, backlogAtDelivery,
                  backlogAtColdCompletion, coldProgressed, coldFinished)
    }

    ghost predicate Valid()
      reads this
    {
      SameKeys(View())
    }

    constructor (records: seq<Rec>, hotKey: string)
      ensures Valid() && View() == Fresh(records, hotKey)
    {
      var grouped := GroupByKey(records);
      this.expected, this.hotKey := grouped, hotKey;
      hotTotal := if hotKey in grouped then |grouped[hotKey]| else 0;
      delivered, completed := map key | key in grouped :: [], map key | key in grouped :: [];
      attempts, completedOffsets, active, processing, ackStarted := map[], {}, {}, {}, {};
      activeByKey, maxByKey := map key | key in grouped :: 0, map key | key in grouped :: 0;
      maxInFlight, hotCompleted, backlogAtDelivery, backlogAtColdCompletion := 0, 0, [], [];
      coldProgressed, coldFinished := {}, {};
    }

    method CheckDelivery(offset: nat, key: string, attempt: int) returns (problem: Option<Problem>)
      requires key in expected ==> key in delivered
      ensures problem == DeliveryProblem(View(), offset, key, attempt)
    {
      if key !in expected || offset !in expected[key] {
        return Some(UnexpectedDelivery);
      }
      if attempt != 1 {
        return Some(Redelivery);
      }
      if offset in attempts {
        return Some(DuplicateDelivery);
      }
      var observed := delivered[key];
      if observed != [] && offset <= observed[|observed| - 1] {
        return Some(OutOfOrder);
      }
      problem := None;
    }

    method Enter(offset: nat, key: string, attempt: int)
      requires key in delivered
      modifies this
      ensures View() == HotOrdering.Enter(old(View()), offset, key, attempt)
    {
      delivered := delivered[key := delivered[key] + [offset]];
      attempts := attempts[offset := attempt];
      active := active + {offset};
      processing := processing + {offset};
    }

    method CountDelivery(key: string)
      requires key in activeByKey && key in maxByKey
      modifies this
      ensures View() == HotOrdering.CountDelivery(old(View()), key)
    {
      activeByKey := activeByKey[key := activeByKey[key] + 1];
      maxByKey := maxByKey[key := if maxByKey[key] < activeByKey[key] then activeByKey[key] else maxByKey[key]];
      maxInFlight := Max(maxInFlight, |processing|);
      if key == hotKey {
        backlogAtDelivery := backlogAtDelivery + [hotTotal - hotCompleted];
      }
    }

    method RecordDelivery(offset: nat, key: string, attempt: int) returns (problem: Option<Problem>)
      requires Valid()
      modifies this
      ensures Valid()
      ensures match HotOrdering.RecordDelivery(old(View()), offset, key, attempt)
              case Ok(next) => problem.None? && View() == next
              case Err(e) => problem == Some(e) && View() == old(View())
    {
      problem := CheckDelivery(offset, key, attempt);
      if problem.Some? {
        return;
      }
      Enter(offset, key, attempt);
      CountDelivery(key);
    }

    method CountAckStart(offset: nat, key: string)
      requires key in activeByKey
      modifies this
      ensures View() == HotOrdering.CountAckStart(old(View()), offset, key)
    {
      activeByKey := activeByKey[key := activeByKey[key] - 1];
      ackStarted := ackStarted + {offset};
    }

    method RecordAckStart(offset: nat, key: string) returns (problem: Option<Problem>)
      requires Valid()
      modifies this
      ensures Valid()
      ensures match HotOrdering.RecordAckStart(old(View()), offset, key)
              case Ok(next) => problem.None? && View() == next
              case Err(UnknownKey) =>
                problem == Some(UnknownKey) && View() == LeaveProcessingSet(old(View()), offset)
              case Err(e) => problem == Some(e) && View() == old(View())
    {
      if offset !in processing {
        return Some(NotProcessing);
      }
      processing := processing - {offset};
      if key !in activeByKey {
        return Some(UnknownKey);
      }
      CountAckStart(offset, key);
      problem := None;
    }

    method MoveToCompleted(offset: nat)
      modifies this
      ensures View() == HotOrdering.MoveToCompleted(old(View()), offset)
    {
      active := active - {offset};
      ackStarted := ackStarted - {offset};
      completedOffsets := completedOffsets + {offset};
    }

    method CountCompletion(key: string)
      requires key in completed && key in expected
      modifies this
      ensures View() == HotOrdering.CountCompletion(old(View()), key)
    {
      if key == hotKey {
        hotCompleted := hotCompleted + 1;
        return;
      }
      var backlog := hotTotal - hotCompleted;
      if backlog > 0 {
        backlogAtColdCompletion := backlogAtColdCompletion + [backlog];
        coldProgressed := coldProgressed + {key};
        if |completed[key]| == |expected[key]| {
          coldFinished := coldFinished + {key};
        }
      }
    }

    method RecordCompletion(offset: nat, key: string) returns (problem: Option<Problem>)
      requires Valid()
      modifies this
      ensures Valid()
      ensures match HotOrdering.RecordCompletion(old(View()), offset, key)
              case Ok(next) => problem.None? && View() == next
              case Err(UnknownKey) => problem == Some(UnknownKey)
                                      && View() == HotOrdering.MoveToCompleted(old(View()), offset)
              case Err(e) => problem == Some(e) && View() == old(View())
    {
      if offset !in active || offset !in ackStarted {
        return Some(NotAcknowledged);
      }
      MoveToCompleted(offset);
      if key !in completed {
        return Some(UnknownKey);
      }
      completed := completed[key := completed[key] + [offset]];
      CountCompletion(key);
      problem := None;
    }

  }

  // ---------------------------------------------------------------- the record schedule

  function ColdKey(i: nat): string {
    "cold-key-" + Digits(i)
  }

  lemma ColdKeysDiffer(i: nat, j: nat)
    requires i != j
    ensures ColdKey(i) != ColdKey(j)
  {
    if ColdKey(i) == ColdKey(j) {
      assert Digits(i) == ColdKey(i)[9..] == Digits(j);
      DigitsInjective(i, j);
    }
  }

  function ColdKeys(n: nat): (names: seq<string>)
    ensures |names| == n
  {
    if n == 0 then [] else ColdKeys(n - 1) + [ColdKey(n - 1)]
  }

  datatype Plan = Plan(hot: nat, cold: nat, perCold: nat, hotKey: string)

  function Round(p: Plan, i: nat): seq<string> {
    (if i < p.hot then [p.hotKey] else []) + (if i < p.perCold then ColdKeys(p.cold) else [])
  }

  function Rounds(p: Plan, n: nat): seq<string> {
    if n == 0 then [] else Rounds(p, n - 1) + Round(p, n - 1)
  }

  /** The keys in publish order: as many rounds as the longest key needs. */
  function Schedule(p: Plan): seq<string> {
    Rounds(p, Max(p.hot, p.perCold))
  }

  function Numbered(names: seq<string>): seq<Rec> {
    seq(|names|, i requires 0 <= i < |names| => Rec(i, names[i]))
  }

  lemma NumberedAppend(names: seq<string>, name: string)
    ensures Numbered(names + [name]) == Numbered(names) + [Rec(|names|, name)]
  {
  }

  /** One record for each cold key, in order. */
  method AppendColdKeys(records: seq<Rec>, ghost names: seq<string>, cold: nat) returns (longer: seq<Rec>)
    requires records == Numbered(names)
    ensures longer == Numbered(names + ColdKeys(cold))
  {
    longer := records;
    assert names + ColdKeys(0) == names;
    for k := 0 to cold
      invariant longer == Numbered(names + ColdKeys(k))
    {
      NumberedAppend(names + ColdKeys(k), ColdKey(k));
      assert names + ColdKeys(k + 1) == names + ColdKeys(k) + [ColdKey(k)];
      longer := longer + [Rec(|longer|, ColdKey(k))];
    }
  }

  method BuildRecords(hot: nat, cold: nat, perCold: nat, hotKey: string) returns (records: seq<Rec>)
    ensures records == Numbered(Schedule(Plan(hot, cold, perCold, hotKey)))
  {
    ghost var plan := Plan(hot, cold, perCold, hotKey);
    records := [];
    for i := 0 to Max(hot, perCold)
      invariant records == Numbered(Rounds(plan, i))
    {
      ghost var names := Rounds(plan, i);
      if i < hot {
        NumberedAppend(names, hotKey);
        names := names + [hotKey];
        records := records + [Rec(|records|, hotKey)];
      }
      assert Rounds(plan, i + 1) == names + if i < perCold then ColdKeys(cold) else [];
      if i < perCold {
        records := AppendColdKeys(records, names, cold);
      }
    }
  }

  method HotOrderingRecords(hot: int, cold: int, perCold: int, hotKey: string) returns (r: Result<seq<Rec>, Problem>)
    ensures r == if hot <= 0 || cold <= 0 || perCold <= 0 then Err(InvalidDimensions)
                 else if hot + cold * perCold > MAX_HOT_ORDERING_MESSAGES then Err(TooManyRecords)
                 else Ok(Numbered(Schedule(Plan(hot, cold, perCold, hotKey))))
  {
    if hot <= 0 || cold <= 0 || perCold <= 0 {
      return Err(InvalidDimensions);
    }
    if hot + cold * perCold > MAX_HOT_ORDERING_MESSAGES {
      return Err(TooManyRecords);
    }
    var records := BuildRecords(hot, cold, perCold, hotKey);
    r := Ok(records);
  }

  // ---------------------------------------------------------------- what the schedule contains

  function Occurrences(names: seq<string>, key: string): nat {
    if names == [] then 0 else
    Occurrences(names[..|names| - 1], key) + if names[|names| - 1] == key then 1 else 0
  }

  lemma {:induction false} OccurrencesAppend(a: seq<string>, b: seq<string>, key: string)
    ensures Occurrences(a + b, key) == Occurrences(a, key) + Occurrences(b, key)
  {
    if b == [] {
      assert a + b == a;
    } else {
      assert (a + b)[..|a + b| - 1] == a + b[..|b| - 1];
      OccurrencesAppend(a, b[..|b| - 1], key);
    }
  }

  lemma {:induction false} ColdKeysHoldEachOnce(n: nat, k: nat)
    ensures Occurrences(ColdKeys(n), ColdKey(k)) == if k < n then 1 else 0
  {
    if n == 0 {
    } else {
      ColdKeysHoldEachOnce(n - 1, k);
      assert ColdKeys(n)[..n - 1] == ColdKeys(n - 1);
      if k != n - 1 {
        ColdKeysDiffer(k, n - 1);
      }
    }
  }

  /** The hot key is none of the cold keys of the plan. */
  ghost predicate HotIsNotCold(p: Plan) {
    forall k: nat :: k < p.cold ==> ColdKey(k) != p.hotKey
  }

  lemma DefaultHotKeyIsNotCold(p: Plan)
    requires p.hotKey == "hot-key"
    ensures HotIsNotCold(p)
  {
    forall k: nat ensures ColdKey(k) != p.hotKey {
      assert ColdKey(k)[0] == 'c';
    }
  }

  lemma {:induction false} ColdKeysLackHot(n: nat, key: string)
    requires forall k: nat :: k < n ==> ColdKey(k) != key
    ensures Occurrences(ColdKeys(n), key) == 0
  {
    if n == 0 {
    } else {
      ColdKeysLackHot(n - 1, key);
      assert ColdKeys(n)[..n - 1] == ColdKeys(n - 1);
    }
  }

  function Least(a: nat, b: nat): nat {
    if a < b then a else b
  }

  lemma RoundHolds(p: Plan, i: nat, key: string)
    ensures Occurrences(Round(p, i), key) == (if i < p.hot && key == p.hotKey then 1 else 0)
                                             + (if i < p.perCold then Occurrences(ColdKeys(p.cold), key) else 0)
  {
    OccurrencesAppend(if i < p.hot then [p.hotKey] else [], if i < p.perCold then ColdKeys(p.cold) else [], key);
  }

  /** How often a key occurs in n rounds, where `cold` says whether it is a cold key of the plan. */
  lemma {:induction false} CountInRounds(p: Plan, n: nat, key: string, cold: bool)
    requires Occurrences(ColdKeys(p.cold), key) == if cold then 1 else 0
    ensures Occurrences(Rounds(p, n), key) ==
            (if key == p.hotKey then Least(n, p.hot) else 0) + if cold then Least(n, p.perCold) else 0
  {
    if n == 0 {
    } else {
      CountInRounds(p, n - 1, key, cold);
      OccurrencesAppend(Rounds(p, n - 1), Round(p, n - 1), key);
      RoundHolds(p, n - 1, key);
    }
  }

  lemma {:induction false} RoundsLength(p: Plan, n: nat)
    ensures |Rounds(p, n)| == Least(n, p.hot) + p.cold * Least(n, p.perCold)
  {
    if n == 0 {
    } else {
      RoundsLength(p, n - 1);
      assert n - 1 < p.perCold ==> p.cold * n == p.cold * (n - 1) + p.cold;
    }
  }

  lemma {:induction false} NumberedOccurrences(names: seq<string>, key: string)
    ensures |OffsetsOf(Numbered(names), key)| == Occurrences(names, key)
  {
    if names == [] {
    } else {
      var init, last := names[..|names| - 1], names[|names| - 1];
      assert names == init + [last];
      NumberedAppend(init, last);
      NumberedOccurrences(init, key);
      assert Numbered(names)[..|init|] == Numbered(init);
    }
  }

  lemma CountInSchedule(p: Plan, key: string, cold: bool)
    requires Occurrences(ColdKeys(p.cold), key) == if cold then 1 else 0
    ensures |OffsetsOf(Numbered(Schedule(p)), key)| ==
            (if key == p.hotKey then p.hot else 0) + if cold then p.perCold else 0
  {
    CountInRounds(p, Max(p.hot, p.perCold), key, cold);
    NumberedOccurrences(Schedule(p), key);
  }

  /** The hot key and every cold key have exactly the requested number of records. */
  ghost predicate MeetsPlan(p: Plan, records: seq<Rec>) {
    && |OffsetsOf(records, p.hotKey)| == p.hot
    && forall k: nat :: k < p.cold ==> |OffsetsOf(records, ColdKey(k))| == p.perCold
  }

  /** A hot key that is the k-th cold key gets the records of both. */
  lemma ClashMergesCounts(p: Plan, k: nat)
    requires k < p.cold && p.hotKey == ColdKey(k)
    ensures |OffsetsOf(Numbered(Schedule(p)), p.hotKey)| == p.hot + p.perCold
  {
    ColdKeysHoldEachOnce(p.cold, k);
    CountInSchedule(p, p.hotKey, true);
  }

  lemma NoClashMeetsPlan(p: Plan)
    requires HotIsNotCold(p)
    ensures MeetsPlan(p, Numbered(Schedule(p)))
  {
    ColdKeysLackHot(p.cold, p.hotKey);
    CountInSchedule(p, p.hotKey, false);
    forall k: nat | k < p.cold ensures |OffsetsOf(Numbered(Schedule(p)), ColdKey(k))| == p.perCold {
      ColdKeysHoldEachOnce(p.cold, k);
      CountInSchedule(p, ColdKey(k), true);
    }
  }

  /** The schedule is published in order and has exactly the requested total. It gives the hot key and
      every cold key exactly the requested number of records if and only if the hot key is none of the
      plan's cold keys. */
  lemma ScheduleMeetsPlan(p: Plan)
    requires p.hot > 0 && p.cold > 0 && p.perCold > 0
    ensures Published(Numbered(Schedule(p)))
    ensures |Numbered(Schedule(p))| == p.hot + p.cold * p.perCold
    ensures MeetsPlan(p, Numbered(Schedule(p))) <==> HotIsNotCold(p)
  {
    RoundsLength(p, Max(p.hot, p.perCold));
    if HotIsNotCold(p) {
      NoClashMeetsPlan(p);
    } else {
      var k: nat :| k < p.cold && ColdKey(k) == p.hotKey;
      ClashMergesCounts(p, k);
    }
  }

  lemma {:induction false} RoundsExtend(p: Plan, n: nat, m: nat)
    requires n <= m
    ensures Rounds(p, n) <= Rounds(p, m)
  {
    if n == m {
    } else {
      RoundsExtend(p, n, m - 1);
    }
  }

  lemma {:induction false} ColdKeyAt(n: nat, k: nat)
    requires k < n
    ensures ColdKeys(n)[k] == ColdKey(k)
  {
    if k == n - 1 {
    } else {
      ColdKeyAt(n - 1, k);
    }
  }

  /** The schedule position by position: each round starts with a hot record while there are any left,
      followed by one record of every cold key, in order, while there are any left. */
  lemma ScheduleInterleaves(p: Plan, i: nat)
    requires i < Max(p.hot, p.perCold)
    ensures var at := Least(i, p.hot) + p.cold * Least(i, p.perCold);
            var names := Schedule(p);
            && (i < p.hot ==> at < |names| && names[at] == p.hotKey)
            && (i < p.perCold ==>
                  forall k: nat :: k < p.cold ==>
                                     var after := at + (if i < p.hot then 1 else 0) + k;
                                     after < |names| && names[after] == ColdKey(k))
  {
    RoundsLength(p, i);
    RoundsExtend(p, i + 1, Max(p.hot, p.perCold));
    assert Rounds(p, i + 1) == Rounds(p, i) + Round(p, i);
    forall k: nat | k < p.cold ensures ColdKeys(p.cold)[k] == ColdKey(k) {
      ColdKeyAt(p.cold, k);
    }
  }

  /** One hot and one cold record, and the hot key "cold-key-0": both records have the hot key. */
  lemma ClashingPlan()
    ensures var p := Plan(1, 1, 1, "cold-key-0");
            |OffsetsOf(Numbered(Schedule(p)), p.hotKey)| == 2 && !MeetsPlan(p, Numbered(Schedule(p)))
  {
    assert Digits(0) == "0";
    assert ColdKey(0) == "cold-key-0";
    ClashMergesCounts(Plan(1, 1, 1, "cold-key-0"), 0);
  }
}
