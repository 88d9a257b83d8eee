/**
 The recorder of the hot-ordering benchmark (scripts/benchmarks/cluster_scenarios.py). It checks each
 delivery, acknowledgement start and completion as it happens; the theorem is that these local checks
 imply the global order flag: once every record is completed, every key was delivered in publish order.
 */
module HotOrdering {
  import opened Prelude

  datatype Rec = Rec(offset: nat, key: string)

  datatype Problem =
    | InvalidDimensions
    | TooManyRecords
    | UnexpectedDelivery
    | Redelivery
    | DuplicateDelivery
    | OutOfOrder
    | NotProcessing
    | NotAcknowledged
    | UnknownKey

  datatype Observation = Observation(
    expected: map<string, seq<nat>>,
    hotKey: string,
    hotTotal: nat,
    delivered: map<string, seq<nat>>,
    completed: map<string, seq<nat>>,
    attempts: map<nat, int>,
    completedOffsets: set<nat>,
    active: set<nat>,
    processing: set<nat>,
    ackStarted: set<nat>,
    activeByKey: map<string, int>,
    maxByKey: map<string, int>,
    maxInFlight: nat,
    hotCompleted: nat,
    backlogAtDelivery: seq<int>,
    backlogAtColdCompletion: seq<int>,
    coldProgressed: set<string>,
    coldFinished: set<string>)

  // ---------------------------------------------------------------- building the expectation

  /** The offsets published under a key, in publish order. */
  function OffsetsOf(records: seq<Rec>, key: string): seq<nat> {
    if records == [] then [] else
    var init, last := records[..|records| - 1], records[|records| - 1];
    if last.key == key then OffsetsOf(init, key) + [last.offset] else OffsetsOf(init, key)
  }

  function Keys(records: seq<Rec>): set<string> {
    set r | r in records :: r.key
  }

  function Expected(records: seq<Rec>): map<string, seq<nat>> {
    map key | key in Keys(records) :: OffsetsOf(records, key)
  }

  function Fresh(records: seq<Rec>, hotKey: string): Observation {
    var expected := Expected(records);
    Observation(expected, hotKey, if hotKey in expected then |expected[hotKey]| else 0,
                map key | key in expected :: [], map key | key in expected :: [], map[], {}, {}, {}, {},
                map key | key in expected :: 0, map key | key in expected :: 0, 0, 0, [], [], {}, {})
  }

  lemma {:induction false} NoOffsets(records: seq<Rec>, key: string)
    requires key !in Keys(records)
    ensures OffsetsOf(records, key) == []
  {
    if records == [] {
    } else {
      var init, last := records[..|records| - 1], records[|records| - 1];
      assert last in records;
      assert last.key in Keys(records);
      forall r | r in init ensures r in records {
      }
      assert Keys(init) <= Keys(records);
      NoOffsets(init, key);
    }
  }

  lemma ExpectedExtends(records: seq<Rec>, r: Rec)
    ensures var before := Expected(records);
            Expected(records + [r]) == before[r.key := (if r.key in before then before[r.key] else []) + [r.offset]]
  {
    var longer := records + [r];
    assert longer[..|records|] == records;
    assert Keys(longer) == Keys(records) + {r.key};
    if r.key !in Keys(records) {
      NoOffsets(records, r.key);
    }
  }

  method GroupByKey(records: seq<Rec>) returns (expected: map<string, seq<nat>>)
    ensures expected == Expected(records)
  {
    expected := map[];
    for i := 0 to |records|
      invariant expected == Expected(records[..i])
    {
      var r := records[i];
      ExpectedExtends(records[..i], r);
      assert records[..i + 1] == records[..i] + [r];
      var before := if r.key in expected then expected[r.key] else [];
      expected := expected[r.key := before + [r.offset]];
    }
    assert records[..|records|] == records;
  }

  // ---------------------------------------------------------------- recording

  function DeliveryProblem(o: Observation, offset: nat, key: string, attempt: int): Option<Problem>
    requires key in o.expected ==> key in o.delivered
  {
    if key !in o.expected || offset !in o.expected[key] then Some(UnexpectedDelivery)
    else if attempt != 1 then Some(Redelivery)
    else if offset in o.attempts then Some(DuplicateDelivery)
    else if o.delivered[key] != [] && offset <= o.delivered[key][|o.delivered[key]| - 1] then Some(OutOfOrder)
    else None
  }

  /** The offset joins its key's delivered list and is being processed. */
  function Enter(o: Observation, offset: nat, key: string, attempt: int): Observation
    requires key in o.delivered
  {
    o.(delivered := o.delivered[key := o.delivered[key] + [offset]],
    attempts := o.attempts[offset := attempt],
    active := o.active + {offset},
    processing := o.processing + {offset})
  }

  /** The in-flight counters and the hot backlog after a delivery. */
  function CountDelivery(o: Observation, key: string): Observation
    requires key in o.activeByKey && key in o.maxByKey
  {
    var current := o.activeByKey[key] + 1;
    o.(activeByKey := o.activeByKey[key := current],
    maxByKey := o.maxByKey[key := if o.maxByKey[key] < current then current else o.maxByKey[key]],
    maxInFlight := Max(o.maxInFlight, |o.processing|),
    backlogAtDelivery := if key == o.hotKey then o.backlogAtDelivery + [o.hotTotal - o.hotCompleted]
    else o.backlogAtDelivery)
  }

  function RecordDelivery(o: Observation, offset: nat, key: string, attempt: int): Result<Observation, Problem>
    requires key in o.expected ==> key in o.delivered && key in o.activeByKey && key in o.maxByKey
  {
    match DeliveryProblem(o, offset, key, attempt)
    case Some(problem) => Err(problem)
    case None =>
      Ok(CountDelivery(Enter(o, offset, key, attempt), key))
  }

  function LeaveProcessingSet(o: Observation, offset: nat): Observation {
    o.(processing := o.processing - {offset})
  }

  function CountAckStart(o: Observation, offset: nat, key: string): Observation
    requires key in o.activeByKey
  {
    o.(activeByKey := o.activeByKey[key := o.activeByKey[key] - 1], ackStarted := o.ackStarted + {offset})
  }

  function RecordAckStart(o: Observation, offset: nat, key: string): Result<Observation, Problem> {
    if offset !in o.processing then Err(NotProcessing)
    else if key !in o.activeByKey then Err(UnknownKey)
    else Ok(CountAckStart(LeaveProcessingSet(o, offset), offset, key))
  }

  /** The offset leaves the active sets and is completed. */
  function MoveToCompleted(o: Observation, offset: nat): Observation {
    o.(active := o.active - {offset}, ackStarted := o.ackStarted - {offset},
    completedOffsets := o.completedOffsets + {offset})
  }

  function List(o: Observation, offset: nat, key: string): Observation
    requires key in o.completed
  {
    o.(completed := o.completed[key := o.completed[key] + [offset]])
  }

  /** The hot-key drain and the cold progress made while hot records remain. */
  function CountCompletion(o: Observation, key: string): Observation
    requires key in o.completed && key in o.expected
  {
    if key == o.hotKey then o.(hotCompleted := o.hotCompleted + 1) else
    var backlog := o.hotTotal - o.hotCompleted;
    if backlog <= 0 then o else
    o.(backlogAtColdCompletion := o.backlogAtColdCompletion + [backlog],
    coldProgressed := o.coldProgressed + {key},
    coldFinished := if |o.completed[key]| == |o.expected[key]| then o.coldFinished + {key} else o.coldFinished)
  }

  function RecordCompletion(o: Observation, offset: nat, key: string): Result<Observation, Problem>
    requires key in o.completed <==> key in o.expected
  {
    if offset !in o.active || offset !in o.ackStarted then Err(NotAcknowledged)
    else if key !in o.completed then Err(UnknownKey)
    else Ok(CountCompletion(List(MoveToCompleted(o, offset), offset, key), key))
  }

  // ---------------------------------------------------------------- the invariant

  ghost predicate Ascending(s: seq<nat>) {
    |s| <= 1 || (s[|s| - 2] < s[|s| - 1] && Ascending(s[..|s| - 1]))
  }

  ghost predicate Published(records: seq<Rec>) {
    forall i, j :: 0 <= i < j < |records| ==> records[i].offset < records[j].offset
  }

  type Lists = map<string, seq<nat>>

  ghost predicate SameKeys(o: Observation) {
    o.delivered.Keys == o.expected.Keys == o.completed.Keys == o.activeByKey.Keys == o.maxByKey.Keys
  }

  ghost predicate Has(m: Lists, key: string, x: nat) {
    key in m && x in m[key]
  }

  /** Each key's delivered list is ascending and expected; `seen` is all of them together. */
  ghost predicate DeliveriesOk(expected: Lists, delivered: Lists, seen: set<nat>) {
    && (forall key :: key in delivered ==> Ascending(delivered[key]))
    && (forall key, x :: Has(delivered, key, x) ==> Has(expected, key, x) && x in seen)
    && (forall x :: x in seen ==> exists key :: Has(delivered, key, x))
  }

  /** Delivered offsets split disjointly into processing, acknowledgement-started and completed. */
  ghost predicate Split(seen: set<nat>, active: set<nat>, processing: set<nat>, acking: set<nat>, done: set<nat>) {
    && (forall x :: x in processing ==> x !in acking && x !in done)
    && (forall x :: x in acking ==> x !in done)
    && (forall x :: x in active <==> x in processing || x in acking)
    && (forall x :: x in seen <==> x in active || x in done)
  }

  ghost function Within(s: set<nat>, list: seq<nat>): set<nat> {
    set x | x in s && x in list
  }

  /** The per-key counter is the number of that key's offsets in processing. */
  ghost predicate CountersOk(delivered: Lists, processing: set<nat>, counters: map<string, int>)
    requires delivered.Keys == counters.Keys
  {
    forall key :: key in counters ==> counters[key] == |Within(processing, delivered[key])|
  }

  ghost predicate NoRepeats(s: seq<nat>) {
    s == [] || (s[|s| - 1] !in s[..|s| - 1] && NoRepeats(s[..|s| - 1]))
  }

  /** Each key's completion list holds its completed offsets, once each. */
  ghost predicate CompletionsOk(delivered: Lists, completed: Lists, done: set<nat>) {
    && (forall key, x :: Has(completed, key, x) <==> x in done && Has(delivered, key, x))
    && (forall key :: key in completed ==> NoRepeats(completed[key]))
  }

  ghost predicate SplitOk(o: Observation) {
    Split(o.attempts.Keys, o.active, o.processing, o.ackStarted, o.completedOffsets)
  }

  ghost predicate HotCountOk(o: Observation) {
    o.hotCompleted == (if o.hotKey in o.completed then |o.completed[o.hotKey]| else 0)
  }

  ghost predicate Invariant(o: Observation) {
    && SameKeys(o) && SplitOk(o) && HotCountOk(o)
    && DeliveriesOk(o.expected, o.delivered, o.attempts.Keys)
    && CountersOk(o.delivered, o.processing, o.activeByKey)
    && CompletionsOk(o.delivered, o.completed, o.completedOffsets)
  }

  // ---------------------------------------------------------------- expectations are disjoint

  lemma {:induction false} OffsetsOfIsExact(records: seq<Rec>, key: string, x: nat)
    ensures x in OffsetsOf(records, key) <==> Rec(x, key) in records
  {
    if records == [] {
    } else {
      var init, last := records[..|records| - 1], records[|records| - 1];
      OffsetsOfIsExact(init, key, x);
      assert Rec(x, key) in records <==> Rec(x, key) in init || Rec(x, key) == last by {
        assert records == init + [last];
      }
    }
  }

  lemma EarlierIsSmaller(records: seq<Rec>, x: nat, key: string)
    requires Published(records) && records != [] && Rec(x, key) in records[..|records| - 1]
    ensures x < records[|records| - 1].offset
  {
    var i :| 0 <= i < |records| - 1 && records[i] == Rec(x, key);
  }

  lemma AscendingAppend(s: seq<nat>, x: nat)
    requires Ascending(s) && (s == [] || s[|s| - 1] < x)
    ensures Ascending(s + [x])
  {
    assert (s + [x])[..|s|] == s;
  }

  lemma {:induction false} OffsetsAreAscending(records: seq<Rec>, key: string)
    requires Published(records)
    ensures Ascending(OffsetsOf(records, key))
  {
    if records == [] {
    } else {
      var init, last := records[..|records| - 1], records[|records| - 1];
      OffsetsAreAscending(init, key);
      var list := OffsetsOf(init, key);
      if last.key == key && list != [] {
        OffsetsOfIsExact(init, key, list[|list| - 1]);
        EarlierIsSmaller(records, list[|list| - 1], key);
      }
      if last.key == key {
        AscendingAppend(list, last.offset);
      }
    }
  }

  lemma OffsetsComeFromRecords(records: seq<Rec>, key: string)
    requires Published(records)
    ensures Ascending(OffsetsOf(records, key))
    ensures forall x :: x in OffsetsOf(records, key) <==> Rec(x, key) in records
  {
    OffsetsAreAscending(records, key);
    forall x ensures x in OffsetsOf(records, key) <==> Rec(x, key) in records {
      OffsetsOfIsExact(records, key, x);
    }
  }

  lemma {:induction false} LastIsGreatest(s: seq<nat>, y: nat)
    requires Ascending(s) && y in s
    ensures y <= s[|s| - 1]
  {
    if y == s[|s| - 1] {
    } else {
      assert y in s[..|s| - 1];
      LastIsGreatest(s[..|s| - 1], y);
    }
  }

  /** An offset is published under one key. */
  lemma OneKeyPerOffset(records: seq<Rec>, x: nat, a: string, b: string)
    requires Published(records) && Rec(x, a) in records && Rec(x, b) in records
    ensures a == b
  {
    var i :| 0 <= i < |records| && records[i] == Rec(x, a);
    var j :| 0 <= j < |records| && records[j] == Rec(x, b);
    assert i == j;
  }

  ghost predicate Disjoint(m: Lists) {
    forall a, b, x :: Has(m, a, x) && Has(m, b, x) ==> a == b
  }

  lemma ExpectedIsDisjoint(records: seq<Rec>)
    requires Published(records)
    ensures Disjoint(Expected(records))
  {
    forall a, b, x | Has(Expected(records), a, x) && Has(Expected(records), b, x) ensures a == b {
      OffsetsComeFromRecords(records, a);
      OffsetsComeFromRecords(records, b);
      OneKeyPerOffset(records, x, a, b);
    }
  }

  // ---------------------------------------------------------------- every step keeps the invariant

  lemma FreshMeetsInvariant(records: seq<Rec>, hotKey: string)
    ensures Invariant(Fresh(records, hotKey))
  {
  }

  function Append(m: Lists, key: string, x: nat): Lists
    requires key in m
  {
    m[key := m[key] + [x]]
  }

  lemma HasAppended(m: Lists, key: string, x: nat)
    requires key in m
    ensures forall k, y :: Has(Append(m, key, x), k, y) <==> Has(m, k, y) || (k == key && y == x)
  {
  }

  lemma AppendDelivery(expected: Lists, delivered: Lists, seen: set<nat>, key: string, x: nat)
    requires DeliveriesOk(expected, delivered, seen) && key in delivered && Has(expected, key, x)
    requires delivered[key] == [] || delivered[key][|delivered[key]| - 1] < x
    ensures DeliveriesOk(expected, Append(delivered, key, x), seen + {x})
  {
    var list, after := delivered[key], Append(delivered, key, x);
    HasAppended(delivered, key, x);
    AscendingAppend(list, x);
    forall y | y in seen + {x} ensures exists k :: Has(after, k, y) {
      if y == x {
        assert Has(after, key, x);
      } else {
        var k :| Has(delivered, k, y);
        assert Has(after, k, y);
      }
    }
  }

  ghost predicate OnlyUnder(delivered: Lists, key: string, x: nat) {
    forall k :: Has(delivered, k, x) ==> k == key
  }

  lemma DeliveredUnderOneKey(expected: Lists, delivered: Lists, seen: set<nat>, key: string, x: nat)
    requires DeliveriesOk(expected, delivered, seen) && Disjoint(expected) && Has(expected, key, x)
    ensures OnlyUnder(delivered, key, x)
  {
  }

  lemma EnterProcessing(delivered: Lists, processing: set<nat>, counters: map<string, int>, key: string, x: nat)
    requires delivered.Keys == counters.Keys && CountersOk(delivered, processing, counters) && key in delivered
    requires x !in processing && OnlyUnder(delivered, key, x)
    ensures CountersOk(Append(delivered, key, x), processing + {x}, counters[key := counters[key] + 1])
  {
    var after := Append(delivered, key, x);
    forall k | k in counters && k != key
      ensures Within(processing + {x}, after[k]) == Within(processing, delivered[k]) {
      assert !Has(delivered, k, x);
    }
    assert Within(processing + {x}, after[key]) == Within(processing, delivered[key]) + {x};
  }

  lemma LeaveProcessing(delivered: Lists, processing: set<nat>, counters: map<string, int>, key: string, x: nat)
    requires delivered.Keys == counters.Keys && CountersOk(delivered, processing, counters)
    requires x in processing && Has(delivered, key, x) && OnlyUnder(delivered, key, x)
    ensures CountersOk(delivered, processing - {x}, counters[key := counters[key] - 1])
  {
    forall k | k in counters && k != key
      ensures Within(processing - {x}, delivered[k]) == Within(processing, delivered[k]) {
      assert !Has(delivered, k, x);
    }
    assert Within(processing, delivered[key]) == Within(processing - {x}, delivered[key]) + {x};
  }

  lemma Complete(delivered: Lists, completed: Lists, done: set<nat>, key: string, x: nat)
    requires CompletionsOk(delivered, completed, done) && key in completed
    requires x !in done && Has(delivered, key, x) && OnlyUnder(delivered, key, x)
    ensures CompletionsOk(delivered, Append(completed, key, x), done + {x})
  {
    HasAppended(completed, key, x);
    var list := completed[key] + [x];
    assert !Has(completed, key, x);
    assert list[..|list| - 1] == completed[key];
  }

  /** While processing, an offset is not yet completed; the completion list of the key does not hold it. */
  lemma DeliveryKeepsCompletions(delivered: Lists, completed: Lists, done: set<nat>, key: string, x: nat)
    requires CompletionsOk(delivered, completed, done) && key in delivered && x !in done
    ensures CompletionsOk(Append(delivered, key, x), completed, done)
  {
    HasAppended(delivered, key, x);
  }

  // ---------------------------------------------------------------- whole runs

  datatype Op =
    | Deliver(offset: nat, key: string, attempt: int)
    | StartAck(offset: nat, key: string)
    | Finish(offset: nat, key: string)

  /** The worker passes the key it received with the offset at every step. */
  ghost predicate SameKeyUsed(o: Observation, op: Op) {
    SameKeys(o) && (op.Deliver? || Has(o.delivered, op.key, op.offset))
  }

  ghost function Step(o: Observation, op: Op): Result<Observation, Problem>
    requires SameKeyUsed(o, op)
  {
    match op
    case Deliver(x, key, attempt) => RecordDelivery(o, x, key, attempt)
    case StartAck(x, key) => RecordAckStart(o, x, key)
    case Finish(x, key) => RecordCompletion(o, x, key)
  }

  /** A run in which no check fails. */
  ghost predicate Passes(o: Observation, ops: seq<Op>, end: Observation)
    decreases |ops|
  {
    if ops == [] then end == o else
    SameKeyUsed(o, ops[0]) && Step(o, ops[0]).Ok? && Passes(Step(o, ops[0]).value, ops[1..], end)
  }

  lemma StepKeepsKeys(o: Observation, op: Op)
    requires SameKeyUsed(o, op) && Step(o, op).Ok?
    ensures SameKeys(Step(o, op).value) && Step(o, op).value.expected == o.expected
  {
  }

  lemma StepKeepsHotCount(o: Observation, op: Op)
    requires SameKeyUsed(o, op) && Step(o, op).Ok? && HotCountOk(o)
    ensures HotCountOk(Step(o, op).value)
  {
  }

  lemma StepKeepsSplit(o: Observation, op: Op)
    requires SameKeyUsed(o, op) && Step(o, op).Ok? && SplitOk(o)
    ensures SplitOk(Step(o, op).value)
  {
  }

  lemma EnterKeepsDeliveries(o: Observation, x: nat, key: string, attempt: int)
    requires DeliveriesOk(o.expected, o.delivered, o.attempts.Keys) && key in o.delivered
    requires DeliveryProblem(o, x, key, attempt).None?
    ensures var n := Enter(o, x, key, attempt); DeliveriesOk(o.expected, n.delivered, n.attempts.Keys)
  {
    assert Has(o.expected, key, x);
    AppendDelivery(o.expected, o.delivered, o.attempts.Keys, key, x);
    assert o.attempts[x := attempt].Keys == o.attempts.Keys + {x};
  }

  lemma StepKeepsDeliveries(o: Observation, op: Op)
    requires SameKeyUsed(o, op) && Step(o, op).Ok?
    requires DeliveriesOk(o.expected, o.delivered, o.attempts.Keys)
    ensures var n := Step(o, op).value; DeliveriesOk(o.expected, n.delivered, n.attempts.Keys)
  {
    if op.Deliver? {
      EnterKeepsDeliveries(o, op.offset, op.key, op.attempt);
    }
  }

  lemma StepKeepsCounters(o: Observation, op: Op)
    requires SameKeyUsed(o, op) && Step(o, op).Ok? && SplitOk(o) && OnlyUnder(o.delivered, op.key, op.offset)
    requires CountersOk(o.delivered, o.processing, o.activeByKey) && SameKeys(Step(o, op).value)
    ensures var n := Step(o, op).value; CountersOk(n.delivered, n.processing, n.activeByKey)
  {
    match op {
      case Deliver(x, key, _) => EnterProcessing(o.delivered, o.processing, o.activeByKey, key, x);
      case StartAck(x, key) => LeaveProcessing(o.delivered, o.processing, o.activeByKey, key, x);
      case Finish(_, _) =>
    }
  }

  lemma FinishKeepsCompletions(o: Observation, x: nat, key: string)
    requires SameKeys(o) && Has(o.delivered, key, x) && OnlyUnder(o.delivered, key, x) && SplitOk(o)
    requires CompletionsOk(o.delivered, o.completed, o.completedOffsets) && RecordCompletion(o, x, key).Ok?
    ensures var n := RecordCompletion(o, x, key).value;
            CompletionsOk(o.delivered, n.completed, n.completedOffsets)
  {
    assert x !in o.completedOffsets;
    Complete(o.delivered, o.completed, o.completedOffsets, key, x);
    var n := RecordCompletion(o, x, key).value;
    assert n.completed == Append(o.completed, key, x) && n.completedOffsets == o.completedOffsets + {x};
  }

  lemma StepKeepsCompletions(o: Observation, op: Op)
    requires SameKeyUsed(o, op) && Step(o, op).Ok? && SplitOk(o) && OnlyUnder(o.delivered, op.key, op.offset)
    requires CompletionsOk(o.delivered, o.completed, o.completedOffsets)
    ensures var n := Step(o, op).value; CompletionsOk(n.delivered, n.completed, n.completedOffsets)
  {
    match op {
      case Deliver(x, key, _) => DeliveryKeepsCompletions(o.delivered, o.completed, o.completedOffsets, key, x);
      case StartAck(_, _) =>
      case Finish(x, key) => FinishKeepsCompletions(o, x, key);
    }
  }

  lemma StepIsUnderOneKey(o: Observation, op: Op)
    requires SameKeyUsed(o, op) && Step(o, op).Ok? && Disjoint(o.expected)
    requires DeliveriesOk(o.expected, o.delivered, o.attempts.Keys)
    ensures OnlyUnder(o.delivered, op.key, op.offset)
  {
    assert Has(o.expected, op.key, op.offset);
    DeliveredUnderOneKey(o.expected, o.delivered, o.attempts.Keys, op.key, op.offset);
  }

  lemma StepKeepsInvariant(o: Observation, op: Op)
    requires Invariant(o) && Disjoint(o.expected) && SameKeyUsed(o, op) && Step(o, op).Ok?
    ensures Invariant(Step(o, op).value) && Step(o, op).value.expected == o.expected
  {
    StepIsUnderOneKey(o, op);
    StepKeepsKeys(o, op);
    StepKeepsHotCount(o, op);
    StepKeepsSplit(o, op);
    StepKeepsDeliveries(o, op);
    StepKeepsCounters(o, op);
    StepKeepsCompletions(o, op);
  }

  lemma {:induction false} RunKeepsInvariant(o: Observation, ops: seq<Op>, end: Observation)
    requires Invariant(o) && Disjoint(o.expected) && Passes(o, ops, end)
    ensures Invariant(end) && end.expected == o.expected
    decreases |ops|
  {
    if ops == [] {
    } else {
      StepKeepsInvariant(o, ops[0]);
      RunKeepsInvariant(Step(o, ops[0]).value, ops[1..], end);
    }
  }

  // ---------------------------------------------------------------- the order flag

  function AllOffsets(records: seq<Rec>): set<nat> {
    set r | r in records :: r.offset
  }

  lemma {:induction false} AllOffsetsCount(records: seq<Rec>)
    requires Published(records)
    ensures |AllOffsets(records)| == |records|
  {
    if records == [] {
    } else {
      var init, last := records[..|records| - 1], records[|records| - 1];
      AllOffsetsCount(init);
      assert records == init + [last];
      assert AllOffsets(records) == AllOffsets(init) + {last.offset};
    }
  }

  lemma LastIsNew(s: seq<nat>)
    requires Ascending(s) && s != []
    ensures s[|s| - 1] !in s[..|s| - 1]
  {
    if s[|s| - 1] in s[..|s| - 1] {
      LastIsGreatest(s[..|s| - 1], s[|s| - 1]);
    }
  }

  lemma {:induction false} AscendingListsAgree(a: seq<nat>, b: seq<nat>)
    requires Ascending(a) && Ascending(b) && forall x :: x in a <==> x in b
    ensures a == b
  {
    assert |a| > 0 ==> a[0] in b;
    assert |b| > 0 ==> b[0] in a;
    if a == [] || b == [] {
    } else {
      var x, y := a[|a| - 1], b[|b| - 1];
      assert x in b && y in a;
      LastIsGreatest(a, y);
      LastIsGreatest(b, x);
      var p, q := a[..|a| - 1], b[..|b| - 1];
      assert a == p + [x] && b == q + [x];
      LastIsNew(a);
      LastIsNew(b);
      forall z ensures z in p <==> z in q {
        assert z in a <==> z in p || z == x;
        assert z in b <==> z in q || z == x;
      }
      AscendingListsAgree(p, q);
    }
  }

  lemma SeenIsPublished(o: Observation, records: seq<Rec>)
    requires Published(records) && o.expected == Expected(records)
    requires DeliveriesOk(o.expected, o.delivered, o.attempts.Keys)
    ensures o.attempts.Keys <= AllOffsets(records)
  {
    forall x | x in o.attempts ensures x in AllOffsets(records) {
      var key :| Has(o.delivered, key, x);
      assert Has(o.expected, key, x);
      OffsetsComeFromRecords(records, key);
      assert Rec(x, key) in records;
    }
  }

  /** If every published offset was seen, each key was delivered completely and in order. */
  lemma SeenAllIsInOrder(o: Observation, records: seq<Rec>, key: string)
    requires Published(records) && o.expected == Expected(records) && o.attempts.Keys == AllOffsets(records)
    requires DeliveriesOk(o.expected, o.delivered, o.attempts.Keys) && key in o.expected && key in o.delivered
    ensures o.delivered[key] == o.expected[key]
  {
    OffsetsComeFromRecords(records, key);
    ExpectedIsDisjoint(records);
    forall x ensures x in o.expected[key] <==> x in o.delivered[key] {
      if x in o.expected[key] {
        assert Rec(x, key) in records;
        assert x in AllOffsets(records);
        var k :| Has(o.delivered, k, x);
        assert Has(o.expected, k, x) && Has(o.expected, key, x);
      }
      if x in o.delivered[key] {
        assert Has(o.delivered, key, x);
      }
    }
    AscendingListsAgree(o.delivered[key], o.expected[key]);
  }

  lemma AllDone(all: set<nat>, seen: set<nat>, active: set<nat>, processing: set<nat>, acking: set<nat>, done: set<nat>)
    requires Split(seen, active, processing, acking, done) && seen <= all && |done| == |all|
    ensures done == seen == all && active == {} && processing == {} && acking == {}
  {
    assert done <= all;
    SubsetOfEqualSize(done, all);
    assert forall x :: x in active ==> x in seen && x !in done;
  }

  /** Completing as many offsets as there are records leaves nothing in progress. */
  lemma CompletedAll(o: Observation, records: seq<Rec>)
    requires Published(records) && o.expected == Expected(records) && SplitOk(o)
    requires DeliveriesOk(o.expected, o.delivered, o.attempts.Keys) && |o.completedOffsets| == |records|
    ensures o.completedOffsets == o.attempts.Keys == AllOffsets(records)
    ensures o.active == {} && o.processing == {} && o.ackStarted == {}
  {
    SeenIsPublished(o, records);
    AllOffsetsCount(records);
    AllDone(AllOffsets(records), o.attempts.Keys, o.active, o.processing, o.ackStarted, o.completedOffsets);
  }

  lemma CompletionsAreTheDeliveries(o: Observation, key: string)
    requires SameKeys(o) && key in o.delivered && DeliveriesOk(o.expected, o.delivered, o.completedOffsets)
    requires CompletionsOk(o.delivered, o.completed, o.completedOffsets)
    ensures NoRepeats(o.completed[key]) && forall x :: x in o.completed[key] <==> x in o.delivered[key]
  {
    forall x ensures x in o.completed[key] <==> x in o.delivered[key] {
      assert Has(o.completed, key, x) <==> x in o.completedOffsets && Has(o.delivered, key, x);
      assert Has(o.delivered, key, x) ==> x in o.completedOffsets;
    }
  }

  /** A run that passes every check and completes as many offsets as there are records delivered every
      key exactly in publish order; nothing is left in progress, and each key's completions are a
      rearrangement of its records. */
  lemma CompletedRunsAreInOrder(records: seq<Rec>, hotKey: string, ops: seq<Op>, end: Observation)
    requires Published(records) && Passes(Fresh(records, hotKey), ops, end)
    requires |end.completedOffsets| == |records|
    ensures SameKeys(end) && end.expected == Expected(records)
    ensures forall key :: key in end.expected ==> end.delivered[key] == end.expected[key]
    ensures end.active == {} && end.processing == {} && end.ackStarted == {}
    ensures forall key :: key in end.expected ==>
                            NoRepeats(end.completed[key]) && forall x :: x in end.completed[key] <==>
                                                                         x in end.expected[key]
  {
    FreshMeetsInvariant(records, hotKey);
    ExpectedIsDisjoint(records);
    RunKeepsInvariant(Fresh(records, hotKey), ops, end);
    CompletedAll(end, records);
    forall key | key in end.expected
      ensures end.delivered[key] == end.expected[key]
      ensures NoRepeats(end.completed[key]) && forall x :: x in end.completed[key] <==> x in end.expected[key]
    {
      SeenAllIsInOrder(end, records, key);
      CompletionsAreTheDeliveries(end, key);
    }
  }

  // ---------------------------------------------------------------- the same-key overlap flag

  ghost function InProcessing(o: Observation, key: string): set<nat> {
    if key in o.delivered then Within(o.processing, o.delivered[key]) else {}
  }

  /** At every moment of the run at most one of the key's offsets is in processing. */
  ghost predicate NeverOverlaps(o: Observation, ops: seq<Op>, end: Observation, key: string)
    requires Passes(o, ops, end)
    decreases |ops|
  {
    && |InProcessing(o, key)| <= 1
    && (ops != [] ==> NeverOverlaps(Step(o, ops[0]).value, ops[1..], end, key))
  }

  /** One step moves a key's high-water mark to the new counter, and only upwards. */
  lemma StepMovesMark(o: Observation, op: Op, key: string)
    requires SameKeyUsed(o, op) && Step(o, op).Ok? && key in o.maxByKey && o.activeByKey[key] <= o.maxByKey[key]
    ensures var n := Step(o, op).value;
            key in n.maxByKey && key in n.activeByKey &&
            n.maxByKey[key] == (if n.activeByKey[key] > o.maxByKey[key] then n.activeByKey[key] else o.maxByKey[key])
  {
  }

  /** The high-water mark stays at most one exactly when the key's offsets never overlap in processing. */
  lemma {:induction false} MarkIsExact(o: Observation, ops: seq<Op>, end: Observation, key: string)
    requires Invariant(o) && Disjoint(o.expected) && Passes(o, ops, end)
    requires key in o.expected && o.activeByKey[key] <= o.maxByKey[key]
    ensures key in end.maxByKey
    ensures end.maxByKey[key] <= 1 <==> o.maxByKey[key] <= 1 && NeverOverlaps(o, ops, end, key)
    decreases |ops|
  {
    assert o.activeByKey[key] == |InProcessing(o, key)|;
    if ops == [] {
    } else {
      StepKeepsInvariant(o, ops[0]);
      StepMovesMark(o, ops[0], key);
      var n := Step(o, ops[0]).value;
      assert n.activeByKey[key] == |InProcessing(n, key)|;
      MarkIsExact(n, ops[1..], end, key);
    }
  }

  /** In a run from the start, the overlap flag of a key is exactly the absence of overlap. */
  lemma OverlapFlagIsExact(records: seq<Rec>, hotKey: string, ops: seq<Op>, end: Observation, key: string)
    requires Published(records) && Passes(Fresh(records, hotKey), ops, end) && key in Keys(records)
    ensures key in end.maxByKey
    ensures end.maxByKey[key] <= 1 <==> NeverOverlaps(Fresh(records, hotKey), ops, end, key)
  {
    FreshMeetsInvariant(records, hotKey);
    ExpectedIsDisjoint(records);
    MarkIsExact(Fresh(records, hotKey), ops, end, key);
  }

  // ---------------------------------------------------------------- the hot backlog

  function Elements(s: seq<nat>): set<nat> {
    set x | x in s
  }

  lemma {:induction false} ElementsAtMost(s: seq<nat>)
    ensures |Elements(s)| <= |s|
  {
    if s == [] {
    } else {
      var init, last := s[..|s| - 1], s[|s| - 1];
      ElementsAtMost(init);
      assert s == init + [last];
      assert Elements(s) == Elements(init) + {last};
    }
  }

  lemma {:induction false} ElementsWithoutRepeats(s: seq<nat>)
    requires NoRepeats(s)
    ensures |Elements(s)| == |s|
  {
    if s == [] {
    } else {
      var init, last := s[..|s| - 1], s[|s| - 1];
      ElementsWithoutRepeats(init);
      assert s == init + [last];
      assert Elements(s) == Elements(init) + {last};
    }
  }

  /** Distinct members of a list that leave one of its members out are fewer than the list. */
  lemma LeavesRoom(part: seq<nat>, whole: seq<nat>, x: nat)
    requires NoRepeats(part) && (forall y :: y in part ==> y in whole) && x in whole && x !in part
    ensures |part| < |whole|
  {
    ElementsWithoutRepeats(part);
    ElementsAtMost(whole);
    SubsetSize(Elements(part) + {x}, Elements(whole));
  }

  ghost predicate PositiveUpTo(values: seq<int>, most: nat) {
    forall i :: 0 <= i < |values| ==> 1 <= values[i] <= most
  }

  ghost predicate FullyCompleted(o: Observation, key: string) {
    key in o.expected && key in o.completed && |o.completed[key]| >= |o.expected[key]|
  }

  /** Every recorded backlog counts at least one hot record and at most all of them; progress while hot
      records remained is recorded for cold keys only, and a key finished then had all its records completed. */
  ghost predicate BacklogOk(o: Observation) {
    && o.hotTotal == (if o.hotKey in o.expected then |o.expected[o.hotKey]| else 0)
    && PositiveUpTo(o.backlogAtDelivery, o.hotTotal) && PositiveUpTo(o.backlogAtColdCompletion, o.hotTotal)
    && o.coldFinished <= o.coldProgressed && o.hotKey !in o.coldProgressed
    && (forall key :: key in o.coldFinished ==> FullyCompleted(o, key))
  }

  /** When a hot record is delivered, it is itself still missing from the completions. */
  lemma HotBacklogIsPositive(o: Observation, x: nat, attempt: int)
    requires Invariant(o) && BacklogOk(o)
    requires o.hotKey in o.expected && DeliveryProblem(o, x, o.hotKey, attempt).None?
    ensures o.hotCompleted < o.hotTotal
  {
    var part, whole := o.completed[o.hotKey], o.expected[o.hotKey];
    forall y | y in part ensures y in whole && y != x {
      assert Has(o.completed, o.hotKey, y);
      assert Has(o.delivered, o.hotKey, y);
      assert Has(o.expected, o.hotKey, y);
    }
    LeavesRoom(part, whole, x);
  }

  lemma DeliveryKeepsBacklog(o: Observation, x: nat, key: string, attempt: int)
    requires Invariant(o) && BacklogOk(o) && RecordDelivery(o, x, key, attempt).Ok?
    ensures BacklogOk(RecordDelivery(o, x, key, attempt).value)
  {
    var n := RecordDelivery(o, x, key, attempt).value;
    if key == o.hotKey {
      HotBacklogIsPositive(o, x, attempt);
    }
    assert forall k :: k in o.coldFinished ==> FullyCompleted(o, k) && FullyCompleted(n, k);
  }

  lemma CompletionKeepsBacklog(o: Observation, x: nat, key: string)
    requires SameKeys(o) && BacklogOk(o) && key in o.expected && RecordCompletion(o, x, key).Ok?
    ensures BacklogOk(RecordCompletion(o, x, key).value)
  {
    var n := RecordCompletion(o, x, key).value;
    assert forall k :: k in o.coldFinished ==> FullyCompleted(o, k) && FullyCompleted(n, k);
  }

  lemma StepKeepsBacklog(o: Observation, op: Op)
    requires Invariant(o) && BacklogOk(o) && SameKeyUsed(o, op) && Step(o, op).Ok?
    ensures BacklogOk(Step(o, op).value)
  {
    match op {
      case Deliver(x, key, attempt) => DeliveryKeepsBacklog(o, x, key, attempt);
      case StartAck(_, _) =>
        assert forall k :: k in o.coldFinished ==> FullyCompleted(o, k) && FullyCompleted(Step(o, op).value, k);
      case Finish(x, key) => CompletionKeepsBacklog(o, x, key);
    }
  }

  lemma {:induction false} RunKeepsBacklog(o: Observation, ops: seq<Op>, end: Observation)
    requires Invariant(o) && Disjoint(o.expected) && BacklogOk(o) && Passes(o, ops, end)
    ensures BacklogOk(end)
    decreases |ops|
  {
    if ops == [] {
    } else {
      StepKeepsInvariant(o, ops[0]);
      StepKeepsBacklog(o, ops[0]);
      RunKeepsBacklog(Step(o, ops[0]).value, ops[1..], end);
    }
  }

  /** In every run from the start the recorded backlogs and the cold progress are meaningful. */
  lemma BacklogsAreMeaningful(records: seq<Rec>, hotKey: string, ops: seq<Op>, end: Observation)
    requires Published(records) && Passes(Fresh(records, hotKey), ops, end)
    ensures BacklogOk(end)
  {
    FreshMeetsInvariant(records, hotKey);
    ExpectedIsDisjoint(records);
    RunKeepsBacklog(Fresh(records, hotKey), ops, end);
  }
}
