/**
 The in-flight deliveries of one stream and the three indexes kept beside them
 (crates/runnel-core/src/delivery_state.rs): deadline buckets, per-consumer offsets and keys, and
 per-member offsets. `Exact` says the indexes are exactly the projections of the in-flight map.
 */
module DeliveryIndex {
  import opened Prelude

  datatype DeliveryKey = DeliveryKey(consumer: string, offset: Offset)

  datatype InFlight = InFlight(
    member: string,
    offset: Offset,
    key: Option<string>,
    attempt: U32,
    token: string,
    requiresReceipt: bool,
    deadline: nat)

  datatype ConsumerIndex = ConsumerIndex(
    offsets: set<Offset>,
    keys: set<string>,
    members: map<string, set<Offset>>)

  type Flights = map<DeliveryKey, InFlight>

  type Buckets = map<nat, seq<DeliveryKey>>

  datatype Indexes = Indexes(inFlight: Flights, deadlines: Buckets, consumers: map<string, ConsumerIndex>)

  const NoDeliveries := Indexes(map[], map[], map[])

  // ---------------------------------------------------------------- what the code does

  function KeySet(key: Option<string>): set<string> {
    if key.Some? then {key.value} else {}
  }

  function AddToIndex(x: ConsumerIndex, d: InFlight): ConsumerIndex {
    var mine := if d.member in x.members then x.members[d.member] else {};
    ConsumerIndex(x.offsets + {d.offset}, x.keys + KeySet(d.key), x.members[d.member := mine + {d.offset}])
  }

  function Insert(ix: Indexes, consumer: string, d: InFlight): Indexes {
    var k := DeliveryKey(consumer, d.offset);
    var bucket := if d.deadline in ix.deadlines then ix.deadlines[d.deadline] else [];
    var index := if consumer in ix.consumers then ix.consumers[consumer] else ConsumerIndex({}, {}, map[]);
    Indexes(ix.inFlight[k := d],
            ix.deadlines[d.deadline := bucket + [k]],
            ix.consumers[consumer := AddToIndex(index, d)])
  }

  /** The first position of k in a bucket, or its length. */
  function Position(b: seq<DeliveryKey>, k: DeliveryKey): (i: nat)
    ensures i <= |b| && (i < |b| ==> b[i] == k) && (i == |b| ==> k !in b)
  {
    if b == [] || b[0] == k then 0 else 1 + Position(b[1..], k)
  }

  /** Removes position i by moving the last element there. */
  function SwapRemove(b: seq<DeliveryKey>, i: nat): seq<DeliveryKey>
    requires i < |b|
  {
    b[i := b[|b| - 1]][..|b| - 1]
  }

  function DropDeadline(dl: Buckets, t: nat, k: DeliveryKey): Buckets {
    if t !in dl then dl else
    var i := Position(dl[t], k);
    var b := if i < |dl[t]| then SwapRemove(dl[t], i) else dl[t];
    if b == [] then dl - {t} else dl[t := b]
  }

  function DropMember(ms: map<string, set<Offset>>, member: string, o: Offset): map<string, set<Offset>> {
    if member !in ms then ms
    else if ms[member] - {o} == {} then ms - {member}
    else ms[member := ms[member] - {o}]
  }

  function DropConsumer(cs: map<string, ConsumerIndex>, k: DeliveryKey, d: InFlight): map<string, ConsumerIndex> {
    if k.consumer !in cs then cs else
    var x := cs[k.consumer];
    var offsets := x.offsets - {k.offset};
    if offsets == {} then cs - {k.consumer} else
    cs[k.consumer := ConsumerIndex(offsets, x.keys - KeySet(d.key), DropMember(x.members, d.member, k.offset))]
  }

  function Remove(ix: Indexes, k: DeliveryKey): Indexes {
    if k !in ix.inFlight then ix else
    var d := ix.inFlight[k];
    Indexes(ix.inFlight - {k}, DropDeadline(ix.deadlines, d.deadline, k), DropConsumer(ix.consumers, k, d))
  }

  // ---------------------------------------------------------------- what the indexes mean

  ghost predicate Distinct<T>(s: seq<T>) {
    forall i, j :: 0 <= i < j < |s| ==> s[i] != s[j]
  }

  /** Each in-flight key is in exactly one bucket, once, under its own deadline; no bucket is empty. */
  ghost predicate DeadlinesExact(f: Flights, dl: Buckets) {
    && (forall t :: t in dl ==> dl[t] != [] && Distinct(dl[t]))
    && (forall t, k :: t in dl && k in dl[t] ==> k in f && f[k].deadline == t)
    && (forall k :: k in f ==> f[k].deadline in dl && k in dl[f[k].deadline])
  }

  ghost predicate HasDelivery(f: Flights, c: string) {
    exists o :: DeliveryKey(c, o) in f
  }

  ghost predicate Reserves(f: Flights, c: string, o: Offset, key: string) {
    DeliveryKey(c, o) in f && f[DeliveryKey(c, o)].key == Some(key)
  }

  ghost predicate Belongs(f: Flights, c: string, o: Offset, m: string) {
    DeliveryKey(c, o) in f && f[DeliveryKey(c, o)].member == m
  }

  ghost predicate KeysExact(f: Flights, c: string, keys: set<string>) {
    forall key :: key in keys <==> exists o :: Reserves(f, c, o, key)
  }

  ghost predicate MembersExact(f: Flights, c: string, ms: map<string, set<Offset>>) {
    && (forall m :: m in ms ==> ms[m] != {})
    && (forall m, o :: m in ms && o in ms[m] ==> Belongs(f, c, o, m))
    && (forall m, o :: Belongs(f, c, o, m) ==> m in ms && o in ms[m])
  }

  ghost predicate OffsetsExact(f: Flights, c: string, offsets: set<Offset>) {
    offsets != {} && forall o :: o in offsets <==> DeliveryKey(c, o) in f
  }

  ghost predicate IndexExact(f: Flights, c: string, x: ConsumerIndex) {
    OffsetsExact(f, c, x.offsets) && KeysExact(f, c, x.keys) && MembersExact(f, c, x.members)
  }

  ghost predicate ConsumersExact(f: Flights, cs: map<string, ConsumerIndex>) {
    && (forall c :: c in cs ==> IndexExact(f, c, cs[c]))
    && (forall k :: k in f ==> k.consumer in cs)
  }

  ghost predicate OffsetsAgree(f: Flights) {
    forall k :: k in f ==> f[k].offset == k.offset
  }

  ghost predicate Exact(ix: Indexes) {
    && OffsetsAgree(ix.inFlight)
    && DeadlinesExact(ix.inFlight, ix.deadlines)
    && ConsumersExact(ix.inFlight, ix.consumers)
  }

  /** No other delivery of the consumer reserves the key of k. */
  ghost predicate SoleHolder(f: Flights, k: DeliveryKey)
    requires k in f
  {
    f[k].key.Some? ==> forall o :: Reserves(f, k.consumer, o, f[k].key.value) ==> o == k.offset
  }

  /** No two deliveries of a consumer reserve the same key. */
  ghost predicate KeysExclusive(f: Flights) {
    forall k :: k in f ==> SoleHolder(f, k)
  }

  // ---------------------------------------------------------------- insertion

  /** After an insertion exactly the new delivery is added to those in flight. */
  lemma InsertStores(ix: Indexes, c: string, d: InFlight)
    ensures var f := Insert(ix, c, d).inFlight;
            && DeliveryKey(c, d.offset) in f && f[DeliveryKey(c, d.offset)] == d
            && f.Keys == ix.inFlight.Keys + {DeliveryKey(c, d.offset)}
            && forall k :: k in f && k != DeliveryKey(c, d.offset) ==> f[k] == ix.inFlight[k]
  {
  }

  /** After a removal exactly that delivery is gone. */
  lemma RemoveDrops(ix: Indexes, k: DeliveryKey)
    ensures Remove(ix, k).inFlight == ix.inFlight - {k}
  {
  }

  lemma InsertKeepsDeadlines(ix: Indexes, c: string, d: InFlight)
    requires DeadlinesExact(ix.inFlight, ix.deadlines)
    requires DeliveryKey(c, d.offset) !in ix.inFlight
    ensures DeadlinesExact(Insert(ix, c, d).inFlight, Insert(ix, c, d).deadlines)
  {
  }

  /** The index of a consumer depends only on that consumer's deliveries. */
  lemma IndexDependsOnConsumer(f: Flights, g: Flights, c: string, x: ConsumerIndex)
    requires IndexExact(f, c, x)
    requires forall o :: DeliveryKey(c, o) in f <==> DeliveryKey(c, o) in g
    requires forall o :: DeliveryKey(c, o) in f ==> f[DeliveryKey(c, o)] == g[DeliveryKey(c, o)]
    ensures IndexExact(g, c, x)
  {
    assert forall o, key :: Reserves(g, c, o, key) <==> Reserves(f, c, o, key);
    assert forall o, m :: Belongs(g, c, o, m) <==> Belongs(f, c, o, m);
  }

  lemma AddToIndexKeepsExact(f: Flights, c: string, x: ConsumerIndex, d: InFlight)
    requires DeliveryKey(c, d.offset) !in f
    requires IndexExact(f, c, x) || (x == ConsumerIndex({}, {}, map[]) && !HasDelivery(f, c))
    ensures IndexExact(f[DeliveryKey(c, d.offset) := d], c, AddToIndex(x, d))
  {
    var g, y := f[DeliveryKey(c, d.offset) := d], AddToIndex(x, d);
    assert forall o, key :: Reserves(g, c, o, key) <==> Reserves(f, c, o, key) || (o == d.offset && d.key == Some(key));
    assert forall o, m :: Belongs(g, c, o, m) <==> Belongs(f, c, o, m) || (o == d.offset && d.member == m);
    forall key ensures key in y.keys <==> exists o :: Reserves(g, c, o, key) {
      if d.key == Some(key) {
        assert Reserves(g, c, d.offset, key);
      } else if key in x.keys {
        var o :| Reserves(f, c, o, key);
        assert Reserves(g, c, o, key);
      }
    }
  }

  lemma InsertKeepsConsumers(ix: Indexes, c: string, d: InFlight)
    requires ConsumersExact(ix.inFlight, ix.consumers)
    requires DeliveryKey(c, d.offset) !in ix.inFlight
    ensures ConsumersExact(Insert(ix, c, d).inFlight, Insert(ix, c, d).consumers)
  {
    var f, g, cs := ix.inFlight, Insert(ix, c, d).inFlight, Insert(ix, c, d).consumers;
    forall c' | c' in cs ensures IndexExact(g, c', cs[c']) {
      if c' == c {
        AddToIndexKeepsExact(f, c, if c in ix.consumers then ix.consumers[c] else ConsumerIndex({}, {}, map[]), d);
      } else {
        IndexDependsOnConsumer(f, g, c', cs[c']);
      }
    }
  }

  /** Inserting a delivery whose offset is not in flight keeps the indexes exact. */
  lemma InsertKeepsExact(ix: Indexes, c: string, d: InFlight)
    requires Exact(ix) && DeliveryKey(c, d.offset) !in ix.inFlight
    ensures Exact(Insert(ix, c, d)) && Insert(ix, c, d).inFlight == ix.inFlight[DeliveryKey(c, d.offset) := d]
  {
    InsertKeepsDeadlines(ix, c, d);
    InsertKeepsConsumers(ix, c, d);
  }

  /** ... and keeps keys exclusive exactly when the key is not reserved for that consumer. */
  lemma InsertKeepsKeysExclusive(ix: Indexes, c: string, d: InFlight)
    requires Exact(ix) && KeysExclusive(ix.inFlight) && DeliveryKey(c, d.offset) !in ix.inFlight
    ensures KeysExclusive(Insert(ix, c, d).inFlight) <==>
            !(d.key.Some? && c in ix.consumers && d.key.value in ix.consumers[c].keys)
  {
    var k := DeliveryKey(c, d.offset);
    var f, g := ix.inFlight, ix.inFlight[k := d];
    if d.key.Some? && c in ix.consumers && d.key.value in ix.consumers[c].keys {
      var o :| Reserves(f, c, o, d.key.value);
      assert Reserves(g, c, o, d.key.value) && o != d.offset;
      assert !SoleHolder(g, k);
    } else {
      forall j | j in g ensures SoleHolder(g, j) {
        forall o, key | Reserves(g, j.consumer, o, key) && g[j].key == Some(key) ensures o == j.offset {
          if j != k {
            assert SoleHolder(f, j);
            assert Reserves(f, j.consumer, j.offset, key);
          }
          assert DeliveryKey(j.consumer, o) != k ==> Reserves(f, j.consumer, o, key);
        }
      }
    }
  }

  // ---------------------------------------------------------------- removal

  lemma SwapRemoveDrops(b: seq<DeliveryKey>, i: nat)
    requires i < |b| && Distinct(b)
    ensures Distinct(SwapRemove(b, i))
    ensures forall k :: k in SwapRemove(b, i) <==> k in b && k != b[i]
  {
    var r := SwapRemove(b, i);
    forall k | k in b && k != b[i] ensures k in r {
      var j :| 0 <= j < |b| && b[j] == k;
      if j == |b| - 1 {
        assert r[i] == k;
      } else {
        assert r[j] == k;
      }
    }
    forall k | k in r ensures k in b && k != b[i] {
      var j :| 0 <= j < |r| && r[j] == k;
    }
  }

  lemma RemoveKeepsDeadlines(ix: Indexes, k: DeliveryKey)
    requires DeadlinesExact(ix.inFlight, ix.deadlines)
    ensures DeadlinesExact(Remove(ix, k).inFlight, Remove(ix, k).deadlines)
  {
    if k in ix.inFlight {
      var t := ix.inFlight[k].deadline;
      if t in ix.deadlines {
        var i := Position(ix.deadlines[t], k);
        if i < |ix.deadlines[t]| {
          SwapRemoveDrops(ix.deadlines[t], i);
        }
      }
    }
  }

  /** Removal keeps offsets and members of the consumer exact. */
  lemma RemoveKeepsOwnIndex(f: Flights, k: DeliveryKey, x: ConsumerIndex)
    requires k in f && IndexExact(f, k.consumer, x)
    ensures x.offsets - {k.offset} != {} ==> OffsetsExact(f - {k}, k.consumer, x.offsets - {k.offset})
    ensures MembersExact(f - {k}, k.consumer, DropMember(x.members, f[k].member, k.offset))
  {
    var c, g := k.consumer, f - {k};
    assert forall o, m :: Belongs(g, c, o, m) <==> Belongs(f, c, o, m) && o != k.offset;
    assert Belongs(f, c, k.offset, f[k].member);
    var ms := DropMember(x.members, f[k].member, k.offset);
    forall m, o | Belongs(g, c, o, m) ensures m in ms && o in ms[m] {
      assert o in x.members[m];
      assert o in x.members[m] - {k.offset};
    }
  }

  /** Removal keeps the key index exact exactly when the removed delivery was the sole holder of its key. */
  lemma RemoveKeepsKeysExactlyWhen(f: Flights, k: DeliveryKey, keys: set<string>)
    requires k in f && KeysExact(f, k.consumer, keys)
    ensures KeysExact(f - {k}, k.consumer, keys - KeySet(f[k].key)) <==> SoleHolder(f, k)
  {
    var c, g, d := k.consumer, f - {k}, f[k];
    assert forall o, key :: Reserves(g, c, o, key) <==> Reserves(f, c, o, key) && o != k.offset;
    if SoleHolder(f, k) {
      forall key ensures key in keys - KeySet(d.key) <==> exists o :: Reserves(g, c, o, key) {
        if key in keys - KeySet(d.key) {
          var o :| Reserves(f, c, o, key);
          assert Reserves(g, c, o, key);
        }
      }
    } else {
      var o :| Reserves(f, c, o, d.key.value) && o != k.offset;
      assert Reserves(g, c, o, d.key.value);
    }
  }

  lemma RemoveKeepsConsumersExactlyWhen(ix: Indexes, k: DeliveryKey)
    requires ConsumersExact(ix.inFlight, ix.consumers) && k in ix.inFlight
    ensures ConsumersExact(Remove(ix, k).inFlight, Remove(ix, k).consumers) <==> SoleHolder(ix.inFlight, k)
  {
    var f, c, x := ix.inFlight, k.consumer, ix.consumers[k.consumer];
    var g, cs := Remove(ix, k).inFlight, Remove(ix, k).consumers;
    RemoveKeepsOwnIndex(f, k, x);
    RemoveKeepsKeysExactlyWhen(f, k, x.keys);
    forall c' | c' in cs && c' != c ensures IndexExact(g, c', cs[c']) {
      IndexDependsOnConsumer(f, g, c', cs[c']);
    }
    forall j | j in g ensures j.consumer in cs {
      if j.consumer == c {
        assert j == DeliveryKey(c, j.offset);
        assert j.offset in x.offsets - {k.offset};
      }
    }
    if c !in cs {
      assert SoleHolder(f, k) by {
        forall o, key | Reserves(f, c, o, key) ensures o == k.offset {
          assert o in x.offsets;
          assert o !in x.offsets - {k.offset};
        }
      }
    }
  }

  /** Removing an in-flight delivery keeps the indexes exact if and only if no other delivery of the
      consumer reserves its key. */
  lemma RemoveKeepsExactExactlyWhen(ix: Indexes, k: DeliveryKey)
    requires Exact(ix) && k in ix.inFlight
    ensures Exact(Remove(ix, k)) <==> SoleHolder(ix.inFlight, k)
  {
    RemoveKeepsDeadlines(ix, k);
    RemoveKeepsConsumersExactlyWhen(ix, k);
  }

  lemma RemoveKeepsKeysExclusive(f: Flights, ks: set<DeliveryKey>)
    requires KeysExclusive(f)
    ensures KeysExclusive(f - ks)
  {
    var g := f - ks;
    forall k | k in g ensures SoleHolder(g, k) {
      assert SoleHolder(f, k);
      assert forall o, key :: Reserves(g, k.consumer, o, key) ==> Reserves(f, k.consumer, o, key);
    }
  }

  lemma RemoveKeepsExact(ix: Indexes, k: DeliveryKey)
    requires Exact(ix) && KeysExclusive(ix.inFlight)
    ensures Exact(Remove(ix, k)) && KeysExclusive(Remove(ix, k).inFlight)
  {
    if k in ix.inFlight {
      RemoveKeepsExactExactlyWhen(ix, k);
      RemoveKeepsKeysExclusive(ix.inFlight, {k});
    }
  }

  function RemoveAll(ix: Indexes, ks: seq<DeliveryKey>): Indexes {
    if ks == [] then ix else Remove(RemoveAll(ix, ks[..|ks| - 1]), ks[|ks| - 1])
  }

  lemma {:induction false} RemoveAllKeepsExact(ix: Indexes, ks: seq<DeliveryKey>)
    requires Exact(ix) && KeysExclusive(ix.inFlight)
    ensures Exact(RemoveAll(ix, ks)) && KeysExclusive(RemoveAll(ix, ks).inFlight)
  {
    if ks == [] {
    } else {
      RemoveAllKeepsExact(ix, ks[..|ks| - 1]);
      RemoveKeepsExact(RemoveAll(ix, ks[..|ks| - 1]), ks[|ks| - 1]);
    }
  }

  lemma {:induction false} RemoveAllRemoves(ix: Indexes, ks: seq<DeliveryKey>)
    ensures RemoveAll(ix, ks).inFlight == ix.inFlight - set k | k in ks
  {
    if ks == [] {
    } else {
      var init, last := ks[..|ks| - 1], ks[|ks| - 1];
      RemoveAllRemoves(ix, init);
      assert ks == init + [last];
      assert (set k | k in ks) == (set k | k in init) + {last};
    }
  }

  // ---------------------------------------------------------------- whole runs

  datatype Op = InsertOp(consumer: string, delivery: InFlight) | RemoveOp(key: DeliveryKey)

  function Perform(ix: Indexes, op: Op): Indexes {
    match op
    case InsertOp(c, d) => Insert(ix, c, d)
    case RemoveOp(k) => Remove(ix, k)
  }

  /** What the caller of insert must respect: the offset is free and the key is not reserved, as the
      consumer's own in-flight filter reports it. */
  predicate Permitted(ix: Indexes, op: Op) {
    op.InsertOp? ==>
      && DeliveryKey(op.consumer, op.delivery.offset) !in ix.inFlight
      && !(op.delivery.key.Some? && op.consumer in ix.consumers &&
           op.delivery.key.value in ix.consumers[op.consumer].keys)
  }

  ghost predicate PermittedRun(ix: Indexes, ops: seq<Op>)
    decreases |ops|
  {
    ops != [] ==> Permitted(ix, ops[0]) && PermittedRun(Perform(ix, ops[0]), ops[1..])
  }

  function PerformAll(ix: Indexes, ops: seq<Op>): Indexes
    decreases |ops|
  {
    if ops == [] then ix else PerformAll(Perform(ix, ops[0]), ops[1..])
  }

  lemma StepKeepsExact(ix: Indexes, op: Op)
    requires Exact(ix) && KeysExclusive(ix.inFlight) && Permitted(ix, op)
    ensures Exact(Perform(ix, op)) && KeysExclusive(Perform(ix, op).inFlight)
  {
    match op
    case InsertOp(c, d) =>
      InsertKeepsExact(ix, c, d);
      InsertKeepsKeysExclusive(ix, c, d);
    case RemoveOp(k) =>
      RemoveKeepsExact(ix, k);
  }

  /** Along every permitted run of insertions and removals the indexes stay exact. */
  lemma {:induction false} RunKeepsExact(ix: Indexes, ops: seq<Op>)
    requires Exact(ix) && KeysExclusive(ix.inFlight) && PermittedRun(ix, ops)
    ensures Exact(PerformAll(ix, ops)) && KeysExclusive(PerformAll(ix, ops).inFlight)
    decreases |ops|
  {
    if ops == [] {
    } else {
      StepKeepsExact(ix, ops[0]);
      RunKeepsExact(Perform(ix, ops[0]), ops[1..]);
    }
  }

  /** Two deliveries with one key: removing the first frees the key although the second still holds it. */
  lemma SharedKeyBreaksTheIndex()
    ensures var d := InFlight("m", 0, Some("k"), 1, "t", false, 5);
            var two := Insert(Insert(NoDeliveries, "c", d), "c", d.(offset := 1));
            Exact(two) && !Exact(Remove(two, DeliveryKey("c", 0)))
  {
    var d := InFlight("m", 0, Some("k"), 1, "t", false, 5);
    var one := Insert(NoDeliveries, "c", d);
    var two := Insert(one, "c", d.(offset := 1));
    assert Exact(NoDeliveries);
    InsertKeepsExact(NoDeliveries, "c", d);
    InsertKeepsExact(one, "c", d.(offset := 1));
    RemoveKeepsExactExactlyWhen(two, DeliveryKey("c", 0));
    assert Reserves(two.inFlight, "c", 1, "k");
  }
}
