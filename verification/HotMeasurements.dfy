/**
 What the recorder of the hot-ordering benchmark accepts and measures, in terms of the events alone
 (scripts/benchmarks/cluster_scenarios.py): which runs pass its checks, and what its counters, marks and
 backlogs are after a run.
 */
module HotMeasurements {
  import opened Prelude
  import opened HotOrdering

  // ---------------------------------------------------------------- a run, read event by event

  datatype Kind = Delivery | AckStart | Completion

  function KindOf(op: Op): Kind {
    match op
    case Deliver(_, _, _) => Delivery
    case StartAck(_, _) => AckStart
    case Finish(_, _) => Completion
  }

  /** The offsets with an event of this kind. */
  function Offsets(ops: seq<Op>, kind: Kind): set<nat> {
    if ops == [] then {} else
    var init, last := ops[..|ops| - 1], ops[|ops| - 1];
    if KindOf(last) == kind then Offsets(init, kind) + {last.offset} else Offsets(init, kind)
  }

  /** The offsets of a key with an event of this kind, in order. */
  function Listed(ops: seq<Op>, kind: Kind, key: string): seq<nat> {
    if ops == [] then [] else
    var init, last := ops[..|ops| - 1], ops[|ops| - 1];
    if KindOf(last) == kind && last.key == key then Listed(init, kind, key) + [last.offset]
    else Listed(init, kind, key)
  }

  /** Delivered, and acknowledgement not started. */
  function InFlight(ops: seq<Op>): set<nat> {
    Offsets(ops, Delivery) - Offsets(ops, AckStart)
  }

  function InFlightOf(ops: seq<Op>, key: string): set<nat> {
    set x | x in InFlight(ops) && x in Listed(ops, Delivery, key)
  }

  /** The most offsets ever in flight at once. */
  function Peak(ops: seq<Op>): nat {
    if ops == [] then 0 else Max(Peak(ops[..|ops| - 1]), |InFlight(ops)|)
  }

  function PeakOf(ops: seq<Op>, key: string): nat {
    if ops == [] then 0 else Max(PeakOf(ops[..|ops| - 1], key), |InFlightOf(ops, key)|)
  }

  /** The records of a key that are not completed. */
  function Backlog(records: seq<Rec>, key: string, ops: seq<Op>): int {
    |OffsetsOf(records, key)| - |Listed(ops, Completion, key)|
  }

  /** The hot backlog at every delivery of a hot record. */
  function DeliveryBacklogs(records: seq<Rec>, hotKey: string, ops: seq<Op>): seq<int> {
    if ops == [] then [] else
    var init, last := ops[..|ops| - 1], ops[|ops| - 1];
    DeliveryBacklogs(records, hotKey, init)
    + if last.Deliver? && last.key == hotKey then [Backlog(records, hotKey, init)] else []
  }

  /** A cold record is completed while hot records remain. */
  predicate UnderBacklog(records: seq<Rec>, hotKey: string, ops: seq<Op>, op: Op) {
    op.Finish? && op.key != hotKey && Backlog(records, hotKey, ops) > 0
  }

  function ColdBacklogs(records: seq<Rec>, hotKey: string, ops: seq<Op>): seq<int> {
    if ops == [] then [] else
    var init, last := ops[..|ops| - 1], ops[|ops| - 1];
    ColdBacklogs(records, hotKey, init)
    + if UnderBacklog(records, hotKey, init, last) then [Backlog(records, hotKey, init)] else []
  }

  function ColdProgress(records: seq<Rec>, hotKey: string, ops: seq<Op>): set<string> {
    if ops == [] then {} else
    var init, last := ops[..|ops| - 1], ops[|ops| - 1];
    ColdProgress(records, hotKey, init) + if UnderBacklog(records, hotKey, init, last) then {last.key} else {}
  }

  /** The cold keys whose last record was completed while hot records remained. */
  function ColdFinished(records: seq<Rec>, hotKey: string, ops: seq<Op>): set<string> {
    if ops == [] then {} else
    var init, last := ops[..|ops| - 1], ops[|ops| - 1];
    ColdFinished(records, hotKey, init)
    + if UnderBacklog(records, hotKey, init, last) && Backlog(records, last.key, ops) == 0 then {last.key} else {}
  }

  // ---------------------------------------------------------------- runs that pass

  /** What the checks allow after a run: a first delivery of a published record, beyond its key's earlier
      ones; one acknowledgement of a delivered offset; one completion of an acknowledged one. */
  ghost predicate Permitted(records: seq<Rec>, ops: seq<Op>, op: Op) {
    match op
    case Deliver(x, key, attempt) =>
      && Rec(x, key) in records && attempt == 1 && x !in Offsets(ops, Delivery)
      && forall y :: y in Listed(ops, Delivery, key) ==> y < x
    case StartAck(x, key) => x in Listed(ops, Delivery, key) && x !in Offsets(ops, AckStart)
    case Finish(x, key) =>
      x in Listed(ops, Delivery, key) && x in Offsets(ops, AckStart) && x !in Offsets(ops, Completion)
  }

  /** Every event is permitted after those before it. */
  ghost predicate OrderlyAfter(records: seq<Rec>, done: seq<Op>, ops: seq<Op>)
    decreases |ops|
  {
    ops == [] || (Permitted(records, done, ops[0]) && OrderlyAfter(records, done + [ops[0]], ops[1..]))
  }

  ghost predicate Orderly(records: seq<Rec>, ops: seq<Op>) {
    OrderlyAfter(records, [], ops)
  }

  // ---------------------------------------------------------------- the recorder follows the events

  ghost predicate SetsTraced(ops: seq<Op>, o: Observation) {
    && o.attempts.Keys == Offsets(ops, Delivery)
    && o.processing == InFlight(ops)
    && o.ackStarted == Offsets(ops, AckStart) - Offsets(ops, Completion)
    && o.active == Offsets(ops, Delivery) - Offsets(ops, Completion)
    && o.completedOffsets == Offsets(ops, Completion)
  }

  function ListOf(m: Lists, key: string): seq<nat> {
    if key in m then m[key] else []
  }

  ghost predicate ListsTraced(ops: seq<Op>, o: Observation) {
    && (forall key :: ListOf(o.delivered, key) == Listed(ops, Delivery, key))
    && (forall key :: ListOf(o.completed, key) == Listed(ops, Completion, key))
  }

  ghost predicate MarksTraced(ops: seq<Op>, o: Observation) {
    && o.maxInFlight == Peak(ops)
    && forall key :: key in o.maxByKey ==> o.maxByKey[key] == PeakOf(ops, key)
  }

  ghost predicate BacklogsTraced(records: seq<Rec>, hotKey: string, ops: seq<Op>, o: Observation) {
    && o.hotKey == hotKey && o.hotTotal == |OffsetsOf(records, hotKey)|
    && o.hotCompleted == |Listed(ops, Completion, hotKey)|
    && o.backlogAtDelivery == DeliveryBacklogs(records, hotKey, ops)
    && o.backlogAtColdCompletion == ColdBacklogs(records, hotKey, ops)
    && o.coldProgressed == ColdProgress(records, hotKey, ops)
    && o.coldFinished == ColdFinished(records, hotKey, ops)
  }

  ghost predicate Traced(records: seq<Rec>, hotKey: string, ops: seq<Op>, o: Observation) {
    && o.expected == Expected(records) && Invariant(o)
    && SetsTraced(ops, o) && ListsTraced(ops, o) && MarksTraced(ops, o) && BacklogsTraced(records, hotKey, ops, o)
  }

  /** What one more event adds. */
  lemma OffsetsExtend(ops: seq<Op>, op: Op, kind: Kind)
    ensures Offsets(ops + [op], kind) == Offsets(ops, kind) + if KindOf(op) == kind then {op.offset} else {}
  {
    assert (ops + [op])[..|ops|] == ops;
  }

  lemma ListedExtends(ops: seq<Op>, op: Op, kind: Kind, key: string)
    ensures Listed(ops + [op], kind, key) ==
            Listed(ops, kind, key) + if KindOf(op) == kind && op.key == key then [op.offset] else []
  {
    assert (ops + [op])[..|ops|] == ops;
  }

  /** What a step does to the sets. */
  ghost predicate SetsMove(o: Observation, op: Op, n: Observation) {
    match op
    case Deliver(x, _, _) =>
      && n.attempts.Keys == o.attempts.Keys + {x} && n.processing == o.processing + {x}
      && n.active == o.active + {x} && n.ackStarted == o.ackStarted && n.completedOffsets == o.completedOffsets
    case StartAck(x, _) =>
      && n.attempts.Keys == o.attempts.Keys && n.processing == o.processing - {x}
      && n.active == o.active && n.ackStarted == o.ackStarted + {x} && n.completedOffsets == o.completedOffsets
    case Finish(x, _) =>
      && n.attempts.Keys == o.attempts.Keys && n.processing == o.processing && n.active == o.active - {x}
      && n.ackStarted == o.ackStarted - {x} && n.completedOffsets == o.completedOffsets + {x}
  }

  lemma StepMovesSets(o: Observation, op: Op)
    requires SplitOk(o) && SameKeyUsed(o, op) && Step(o, op).Ok?
    ensures SetsMove(o, op, Step(o, op).value)
    ensures op.Deliver? ==> op.offset !in o.attempts
    ensures op.StartAck? ==> op.offset in o.processing
    ensures op.Finish? ==> op.offset in o.ackStarted
  {
  }

  /** An offset is completed after its acknowledgement starts, and that after its delivery. */
  lemma SetsAreTraced(ops: seq<Op>, o: Observation, op: Op, n: Observation)
    requires SetsTraced(ops, o) && SplitOk(o) && SetsMove(o, op, n)
    requires op.Deliver? ==> op.offset !in o.attempts
    requires op.StartAck? ==> op.offset in o.processing
    requires op.Finish? ==> op.offset in o.ackStarted
    ensures SetsTraced(ops + [op], n)
  {
    OffsetsExtend(ops, op, Delivery);
    OffsetsExtend(ops, op, AckStart);
    OffsetsExtend(ops, op, Completion);
    assert forall x :: x in Offsets(ops, AckStart) || x in Offsets(ops, Completion) ==> x in Offsets(ops, Delivery);
  }

  lemma StepTracesSets(ops: seq<Op>, o: Observation, op: Op)
    requires SetsTraced(ops, o) && SplitOk(o) && SameKeyUsed(o, op) && Step(o, op).Ok?
    ensures SetsTraced(ops + [op], Step(o, op).value)
  {
    StepMovesSets(o, op);
    SetsAreTraced(ops, o, op, Step(o, op).value);
  }

  lemma StepTracesLists(ops: seq<Op>, o: Observation, op: Op)
    requires ListsTraced(ops, o) && SameKeyUsed(o, op) && Step(o, op).Ok?
    ensures ListsTraced(ops + [op], Step(o, op).value)
  {
    var n := Step(o, op).value;
    forall key
      ensures ListOf(n.delivered, key) == Listed(ops + [op], Delivery, key)
      ensures ListOf(n.completed, key) == Listed(ops + [op], Completion, key)
    {
      assert ListOf(o.delivered, key) == Listed(ops, Delivery, key);
      assert ListOf(o.completed, key) == Listed(ops, Completion, key);
      ListedExtends(ops, op, Delivery, key);
      ListedExtends(ops, op, Completion, key);
    }
  }

  /** The counter of a key is the number of its offsets in flight. */
  lemma CounterIsInFlight(ops: seq<Op>, o: Observation, key: string)
    requires SameKeys(o) && SetsTraced(ops, o) && ListsTraced(ops, o) && key in o.delivered
    requires CountersOk(o.delivered, o.processing, o.activeByKey)
    ensures o.activeByKey[key] == |InFlightOf(ops, key)|
  {
    assert ListOf(o.delivered, key) == Listed(ops, Delivery, key);
    assert Within(o.processing, o.delivered[key]) == InFlightOf(ops, key);
  }

  lemma PeakCovers(ops: seq<Op>, key: string)
    ensures |InFlight(ops)| <= Peak(ops) && |InFlightOf(ops, key)| <= PeakOf(ops, key)
  {
  }

  lemma PeakExtends(ops: seq<Op>, op: Op)
    ensures Peak(ops + [op]) == Max(Peak(ops), |InFlight(ops + [op])|)
  {
    assert (ops + [op])[..|ops|] == ops;
  }

  lemma PeakFollows(ops: seq<Op>, op: Op)
    requires !op.Deliver? ==> |InFlight(ops + [op])| <= |InFlight(ops)|
    ensures Peak(ops + [op]) == if op.Deliver? then Max(Peak(ops), |InFlight(ops + [op])|) else Peak(ops)
  {
    PeakExtends(ops, op);
    PeakCovers(ops, op.key);
  }

  lemma StepMovesMax(o: Observation, op: Op)
    requires SameKeyUsed(o, op) && Step(o, op).Ok?
    ensures var n := Step(o, op).value;
            && n.maxInFlight == (if op.Deliver? then Max(o.maxInFlight, |n.processing|) else o.maxInFlight)
            && (!op.Deliver? ==> n.processing <= o.processing)
  {
  }

  /** Only a delivery adds to the offsets in flight. */
  lemma StepMovesPeak(ops: seq<Op>, o: Observation, op: Op)
    requires SetsTraced(ops, o) && o.maxInFlight == Peak(ops) && SplitOk(o) && SameKeyUsed(o, op) && Step(o, op).Ok?
    ensures Step(o, op).value.maxInFlight == Peak(ops + [op])
  {
    var after := Step(o, op).value.processing;
    assert after == InFlight(ops + [op]) by { StepTracesSets(ops, o, op); }
    StepMovesMax(o, op);
    if !op.Deliver? {
      SubsetSize(after, o.processing);
    }
    PeakFollows(ops, op);
  }

  lemma StepTracesMarks(ops: seq<Op>, o: Observation, op: Op)
    requires SetsTraced(ops, o) && ListsTraced(ops, o) && MarksTraced(ops, o)
    requires Invariant(o) && Disjoint(o.expected) && SameKeyUsed(o, op) && Step(o, op).Ok?
    ensures MarksTraced(ops + [op], Step(o, op).value)
  {
    var n := Step(o, op).value;
    StepKeepsInvariant(o, op);
    StepTracesSets(ops, o, op);
    StepTracesLists(ops, o, op);
    StepMovesPeak(ops, o, op);
    assert (ops + [op])[..|ops|] == ops;
    forall key | key in n.maxByKey ensures n.maxByKey[key] == PeakOf(ops + [op], key) {
      CounterIsInFlight(ops, o, key);
      PeakCovers(ops, key);
      CounterIsInFlight(ops + [op], n, key);
      StepMovesMark(o, op, key);
    }
  }

  /** What a step does to the backlogs, in terms of the records of the hot key left before it. */
  ghost predicate BacklogsMove(o: Observation, op: Op, n: Observation) {
    var left := o.hotTotal - o.hotCompleted;
    var cold := op.Finish? && op.key != o.hotKey && left > 0;
    && n.hotKey == o.hotKey && n.hotTotal == o.hotTotal
    && n.hotCompleted == o.hotCompleted + (if op.Finish? && op.key == o.hotKey then 1 else 0)
    && n.backlogAtDelivery == o.backlogAtDelivery + (if op.Deliver? && op.key == o.hotKey then [left] else [])
    && n.backlogAtColdCompletion == o.backlogAtColdCompletion + (if cold then [left] else [])
    && n.coldProgressed == o.coldProgressed + (if cold then {op.key} else {})
    && n.coldFinished == o.coldFinished
                         + (if cold && |ListOf(n.completed, op.key)| == |ListOf(o.expected, op.key)| then {op.key}
                            else {})
  }

  lemma DeliveryMovesBacklogs(o: Observation, x: nat, key: string, attempt: int)
    requires SameKeys(o) && RecordDelivery(o, x, key, attempt).Ok?
    ensures BacklogsMove(o, Deliver(x, key, attempt), RecordDelivery(o, x, key, attempt).value)
  {
  }

  lemma CompletionMovesBacklogs(o: Observation, x: nat, key: string)
    requires SameKeys(o) && RecordCompletion(o, x, key).Ok?
    ensures BacklogsMove(o, Finish(x, key), RecordCompletion(o, x, key).value)
  {
  }

  lemma StepMovesBacklogs(o: Observation, op: Op)
    requires SameKeyUsed(o, op) && Step(o, op).Ok?
    ensures BacklogsMove(o, op, Step(o, op).value)
  {
    match op
    case Deliver(x, key, attempt) => DeliveryMovesBacklogs(o, x, key, attempt);
    case StartAck(_, _) =>
    case Finish(x, key) => CompletionMovesBacklogs(o, x, key);
  }

  lemma ExpectedList(records: seq<Rec>, key: string)
    ensures ListOf(Expected(records), key) == OffsetsOf(records, key)
  {
    if key !in Keys(records) {
      NoOffsets(records, key);
    }
  }

  lemma BacklogsAreTraced(records: seq<Rec>, hotKey: string, ops: seq<Op>, o: Observation, op: Op, n: Observation)
    requires BacklogsTraced(records, hotKey, ops, o) && BacklogsMove(o, op, n)
    requires |ListOf(o.expected, op.key)| == |OffsetsOf(records, op.key)|
    requires |ListOf(n.completed, op.key)| == |Listed(ops + [op], Completion, op.key)|
    ensures BacklogsTraced(records, hotKey, ops + [op], n)
  {
    assert (ops + [op])[..|ops|] == ops;
    ListedExtends(ops, op, Completion, hotKey);
  }

  lemma StepTracesBacklogs(records: seq<Rec>, hotKey: string, ops: seq<Op>, o: Observation, op: Op)
    requires o.expected == Expected(records) && ListsTraced(ops, o) && BacklogsTraced(records, hotKey, ops, o)
    requires SameKeys(o) && SameKeyUsed(o, op) && Step(o, op).Ok?
    ensures BacklogsTraced(records, hotKey, ops + [op], Step(o, op).value)
  {
    var n := Step(o, op).value;
    assert |ListOf(n.completed, op.key)| == |Listed(ops + [op], Completion, op.key)| by {
      StepTracesLists(ops, o, op);
    }
    ExpectedList(records, op.key);
    StepMovesBacklogs(o, op);
    BacklogsAreTraced(records, hotKey, ops, o, op, n);
  }

  lemma StepIsTraced(records: seq<Rec>, hotKey: string, ops: seq<Op>, o: Observation, op: Op)
    requires Published(records) && Traced(records, hotKey, ops, o) && SameKeyUsed(o, op) && Step(o, op).Ok?
    ensures Traced(records, hotKey, ops + [op], Step(o, op).value)
  {
    ExpectedIsDisjoint(records);
    StepKeepsInvariant(o, op);
    StepTracesSets(ops, o, op);
    StepTracesLists(ops, o, op);
    StepTracesMarks(ops, o, op);
    StepTracesBacklogs(records, hotKey, ops, o, op);
  }

  lemma FreshIsTraced(records: seq<Rec>, hotKey: string)
    ensures Traced(records, hotKey, [], Fresh(records, hotKey))
  {
    FreshMeetsInvariant(records, hotKey);
    ExpectedList(records, hotKey);
  }

  // ---------------------------------------------------------------- a step passes exactly when permitted

  lemma PublishedExactly(records: seq<Rec>, key: string, x: nat)
    ensures key in Expected(records) && x in Expected(records)[key] <==> Rec(x, key) in records
  {
    OffsetsOfIsExact(records, key, x);
    assert Rec(x, key) in records ==> key in Keys(records);
  }

  lemma BeyondAll(list: seq<nat>, x: nat)
    requires Ascending(list)
    ensures (list == [] || list[|list| - 1] < x) <==> forall y :: y in list ==> y < x
  {
    if list == [] {
    } else if list[|list| - 1] < x {
      forall y | y in list ensures y < x {
        LastIsGreatest(list, y);
      }
    } else {
      assert list[|list| - 1] in list;
    }
  }

  lemma DeliveryPermitted(records: seq<Rec>, ops: seq<Op>, o: Observation, x: nat, key: string, attempt: int)
    requires SameKeys(o) && o.expected == Expected(records) && o.attempts.Keys == Offsets(ops, Delivery)
    requires key in o.delivered ==> o.delivered[key] == Listed(ops, Delivery, key) && Ascending(o.delivered[key])
    ensures DeliveryProblem(o, x, key, attempt).None? <==> Permitted(records, ops, Deliver(x, key, attempt))
  {
    PublishedExactly(records, key, x);
    if key in o.expected {
      BeyondAll(o.delivered[key], x);
    }
  }

  lemma AckPermitted(records: seq<Rec>, ops: seq<Op>, o: Observation, op: Op)
    requires SameKeys(o) && SplitOk(o) && SetsTraced(ops, o) && !op.Deliver? && Has(o.delivered, op.key, op.offset)
    requires op.offset in Listed(ops, Delivery, op.key) && op.offset in Offsets(ops, Delivery)
    ensures Step(o, op).Ok? <==> Permitted(records, ops, op)
  {
  }

  lemma StepPermitted(records: seq<Rec>, hotKey: string, ops: seq<Op>, o: Observation, op: Op)
    requires Traced(records, hotKey, ops, o)
    ensures (SameKeyUsed(o, op) && Step(o, op).Ok?) <==> Permitted(records, ops, op)
  {
    assert ListOf(o.delivered, op.key) == Listed(ops, Delivery, op.key);
    if op.Deliver? {
      DeliveryPermitted(records, ops, o, op.offset, op.key, op.attempt);
    } else if Has(o.delivered, op.key, op.offset) {
      AckPermitted(records, ops, o, op);
    }
  }

  // ---------------------------------------------------------------- whole runs

  type Following = (seq<Op>, Observation) -> bool

  ghost predicate KeptByStep(p: Following) {
    forall done, o, op :: p(done, o) && SameKeyUsed(o, op) && Step(o, op).Ok? ==> p(done + [op], Step(o, op).value)
  }

  lemma {:induction false} KeptByRun(p: Following, done: seq<Op>, o: Observation, ops: seq<Op>, end: Observation,
                                     all: seq<Op>)
    requires KeptByStep(p) && p(done, o) && Passes(o, ops, end) && all == done + ops
    ensures p(all, end)
    decreases |ops|
  {
    if ops == [] {
      assert all == done;
    } else {
      KeptByRun(p, done + [ops[0]], Step(o, ops[0]).value, ops[1..], end, all);
    }
  }

  ghost function Tracing(records: seq<Rec>, hotKey: string): Following {
    (done, o) => Traced(records, hotKey, done, o)
  }

  lemma TracingIsKept(records: seq<Rec>, hotKey: string)
    requires Published(records)
    ensures KeptByStep(Tracing(records, hotKey))
  {
    forall done, o, op | Tracing(records, hotKey)(done, o) && SameKeyUsed(o, op) && Step(o, op).Ok?
      ensures Tracing(records, hotKey)(done + [op], Step(o, op).value) {
      StepIsTraced(records, hotKey, done, o, op);
    }
  }

  /** A run that passes follows its events. */
  lemma RunIsTraced(records: seq<Rec>, hotKey: string, ops: seq<Op>, end: Observation)
    requires Published(records) && Passes(Fresh(records, hotKey), ops, end)
    ensures Traced(records, hotKey, ops, end)
  {
    TracingIsKept(records, hotKey);
    FreshIsTraced(records, hotKey);
    KeptByRun(Tracing(records, hotKey), [], Fresh(records, hotKey), ops, end, ops);
  }

  lemma {:induction false} RunIsOrderly(records: seq<Rec>, hotKey: string, done: seq<Op>, o: Observation, ops: seq<Op>,
                                        end: Observation)
    requires Published(records) && Traced(records, hotKey, done, o) && Passes(o, ops, end)
    ensures OrderlyAfter(records, done, ops)
    decreases |ops|
  {
    if ops == [] {
    } else {
      StepIsTraced(records, hotKey, done, o, ops[0]);
      StepPermitted(records, hotKey, done, o, ops[0]);
      RunIsOrderly(records, hotKey, done + [ops[0]], Step(o, ops[0]).value, ops[1..], end);
    }
  }

  lemma {:induction false} OrderlyRunPasses(records: seq<Rec>, hotKey: string, done: seq<Op>, o: Observation,
                                            ops: seq<Op>)
    returns (end: Observation)
    requires Published(records) && Traced(records, hotKey, done, o) && OrderlyAfter(records, done, ops)
    ensures Passes(o, ops, end)
    decreases |ops|
  {
    if ops == [] {
      end := o;
    } else {
      StepPermitted(records, hotKey, done, o, ops[0]);
      StepIsTraced(records, hotKey, done, o, ops[0]);
      end := OrderlyRunPasses(records, hotKey, done + [ops[0]], Step(o, ops[0]).value, ops[1..]);
    }
  }

  lemma {:induction false} FirstAttemptsOnly(records: seq<Rec>, done: seq<Op>, ops: seq<Op>)
    requires OrderlyAfter(records, done, ops)
    ensures forall op :: op in ops && op.Deliver? ==> op.attempt == 1
    decreases |ops|
  {
    if ops == [] {
    } else {
      FirstAttemptsOnly(records, done + [ops[0]], ops[1..]);
    }
  }

  // ---------------------------------------------------------------- main results

  /** No check of the recorder fails. */
  ghost predicate Passing(records: seq<Rec>, hotKey: string, ops: seq<Op>) {
    exists end :: Passes(Fresh(records, hotKey), ops, end)
  }

  /** The recorder's checks pass exactly for the orderly runs: every delivery is the first of a published
      record, with attempt 1 and beyond its key's earlier ones, and every offset is acknowledged at most once
      after its delivery and completed at most once after that. */
  lemma RunPassesExactlyWhenOrderly(records: seq<Rec>, hotKey: string, ops: seq<Op>)
    requires Published(records)
    ensures Passing(records, hotKey, ops) <==> Orderly(records, ops)
  {
    var start := Fresh(records, hotKey);
    FreshIsTraced(records, hotKey);
    if Orderly(records, ops) {
      var end := OrderlyRunPasses(records, hotKey, [], start, ops);
    }
    if Passing(records, hotKey, ops) {
      var end :| Passes(start, ops, end);
      RunIsOrderly(records, hotKey, [], start, ops, end);
    }
  }

  lemma {:induction false} PeakBounds(ops: seq<Op>, i: nat)
    requires i <= |ops|
    ensures |InFlight(ops[..i])| <= Peak(ops)
    decreases |ops|
  {
    if i == |ops| {
      assert ops[..i] == ops;
    } else {
      assert ops[..|ops| - 1][..i] == ops[..i];
      PeakBounds(ops[..|ops| - 1], i);
    }
  }

  lemma {:induction false} PeakIsReached(ops: seq<Op>) returns (i: nat)
    ensures i <= |ops| && |InFlight(ops[..i])| == Peak(ops)
    decreases |ops|
  {
    if ops == [] || Peak(ops) == |InFlight(ops)| {
      i := |ops|;
      assert ops[..i] == ops;
    } else {
      i := PeakIsReached(ops[..|ops| - 1]);
      assert ops[..|ops| - 1][..i] == ops[..i];
    }
  }

  lemma PeakIsLargest(ops: seq<Op>)
    ensures forall i :: 0 <= i <= |ops| ==> |InFlight(ops[..i])| <= Peak(ops)
    ensures exists i :: 0 <= i <= |ops| && |InFlight(ops[..i])| == Peak(ops)
  {
    forall i | 0 <= i <= |ops| ensures |InFlight(ops[..i])| <= Peak(ops) {
      PeakBounds(ops, i);
    }
    var j := PeakIsReached(ops);
  }

  /** After every run that passes: the sets, lists and marks are those of the events, each backlog is the
      number of hot records published and not yet completed at that moment, and the in-flight mark is the
      largest number of offsets in processing at any moment. */
  lemma MeasurementsAreExact(records: seq<Rec>, hotKey: string, ops: seq<Op>, end: Observation)
    requires Published(records) && Passes(Fresh(records, hotKey), ops, end)
    ensures SetsTraced(ops, end) && ListsTraced(ops, end) && MarksTraced(ops, end)
    ensures BacklogsTraced(records, hotKey, ops, end)
    ensures forall i :: 0 <= i <= |ops| ==> |InFlight(ops[..i])| <= end.maxInFlight
    ensures exists i :: 0 <= i <= |ops| && |InFlight(ops[..i])| == end.maxInFlight
    ensures forall op :: op in ops && op.Deliver? ==> op.attempt == 1
  {
    FreshIsTraced(records, hotKey);
    RunIsTraced(records, hotKey, ops, end);
    PeakIsLargest(ops);
    RunIsOrderly(records, hotKey, [], Fresh(records, hotKey), ops, end);
    FirstAttemptsOnly(records, [], ops);
  }
}
