/** Expiry: bucket by bucket, in order of deadline. Each bucket is popped before its deliveries leave
    the in-flight map, so the deadline index is out of step inside the loop and exact after it. */
module DeliveryExpiry {
  import opened DeliveryIndex
  import opened DeliveryQueries

  function ExpireKeys(ix: Indexes, ks: seq<DeliveryKey>, now: nat): Indexes {
    if ks == [] then ix else
    var done := ExpireKeys(ix, ks[..|ks| - 1], now);
    var k := ks[|ks| - 1];
    if k in done.inFlight && done.inFlight[k].deadline <= now then Remove(done, k) else done
  }

  function ExpireBucket(ix: Indexes, t: nat, now: nat): Indexes
    requires t in ix.deadlines
  {
    ExpireKeys(ix.(deadlines := ix.deadlines - {t}), ix.deadlines[t], now)
  }

  lemma {:induction false} ExpireKeysShrinks(ix: Indexes, ks: seq<DeliveryKey>, now: nat)
    ensures ExpireKeys(ix, ks, now).deadlines.Keys <= ix.deadlines.Keys
  {
    if ks == [] {
    } else {
      ExpireKeysShrinks(ix, ks[..|ks| - 1], now);
    }
  }

  lemma ExpireStepShrinks(ix: Indexes, t: nat, now: nat)
    requires t in ix.deadlines
    ensures |ExpireBucket(ix, t, now).deadlines| < |ix.deadlines|
  {
    var rest, done := ix.deadlines.Keys - {t}, ExpireBucket(ix, t, now).deadlines.Keys;
    ExpireKeysShrinks(ix.(deadlines := ix.deadlines - {t}), ix.deadlines[t], now);
    assert done <= rest;
    assert |done| + |rest - done| == |rest| by {
      assert rest == done + (rest - done);
    }
  }

  function ExpireBuckets(ix: Indexes, now: nat): Indexes
    decreases |ix.deadlines|
  {
    if ix.deadlines == map[] then ix else
    var t := Least(ix.deadlines.Keys);
    if t > now then ix else
    ExpireStepShrinks(ix, t, now);
    ExpireBuckets(ExpireBucket(ix, t, now), now)
  }

  // ---------------------------------------------------------------- exactness

  /** The part of the indexes that is in step throughout. */
  ghost predicate Mirrored(ix: Indexes) {
    OffsetsAgree(ix.inFlight) && KeysExclusive(ix.inFlight) && ConsumersExact(ix.inFlight, ix.consumers)
  }

  lemma RemoveKeepsMirrored(ix: Indexes, k: DeliveryKey)
    requires Mirrored(ix)
    ensures Mirrored(Remove(ix, k))
  {
    if k in ix.inFlight {
      RemoveKeepsConsumersExactlyWhen(ix, k);
      RemoveKeepsKeysExclusive(ix.inFlight, {k});
    }
  }

  lemma {:induction false} ExpireKeysMirrored(ix: Indexes, ks: seq<DeliveryKey>, now: nat)
    requires Mirrored(ix)
    ensures Mirrored(ExpireKeys(ix, ks, now))
  {
    if ks == [] {
    } else {
      ExpireKeysMirrored(ix, ks[..|ks| - 1], now);
      RemoveKeepsMirrored(ExpireKeys(ix, ks[..|ks| - 1], now), ks[|ks| - 1]);
    }
  }

  lemma {:induction false} ExpireKeysRemoves(ix: Indexes, ks: seq<DeliveryKey>, now: nat)
    requires forall k :: k in ks ==> k in ix.inFlight && ix.inFlight[k].deadline <= now
    ensures ExpireKeys(ix, ks, now).inFlight == ix.inFlight - set k | k in ks
  {
    if ks == [] {
    } else {
      var init, last := ks[..|ks| - 1], ks[|ks| - 1];
      ExpireKeysRemoves(ix, init, now);
      assert last in ks;
      assert (set k | k in ks) == (set k | k in init) + {last} by {
        assert ks == init + [last];
      }
    }
  }

  /** Expiring keys that are in no bucket leaves the buckets alone. */
  lemma {:induction false} ExpireKeysKeepsBuckets(ix: Indexes, ks: seq<DeliveryKey>, now: nat)
    requires forall k :: k in ks && k in ix.inFlight ==> ix.inFlight[k].deadline !in ix.deadlines
    ensures ExpireKeys(ix, ks, now).deadlines == ix.deadlines
    ensures forall k :: k in ExpireKeys(ix, ks, now).inFlight ==>
                          k in ix.inFlight && ExpireKeys(ix, ks, now).inFlight[k] == ix.inFlight[k]
  {
    if ks == [] {
    } else {
      ExpireKeysKeepsBuckets(ix, ks[..|ks| - 1], now);
    }
  }

  ghost predicate KeepsOthers(f: Flights, g: Flights, t: nat) {
    && (forall k :: k in g <==> k in f && f[k].deadline != t)
    && (forall k :: k in g ==> g[k] == f[k])
  }

  lemma PoppedBucketIsExact(f: Flights, g: Flights, dl: Buckets, t: nat)
    requires DeadlinesExact(f, dl) && t in dl && g == f - set k | k in dl[t]
    ensures KeepsOthers(f, g, t) && DeadlinesExact(g, dl - {t})
  {
  }

  lemma ExpireBucketIsExact(ix: Indexes, t: nat, now: nat)
    requires Exact(ix) && KeysExclusive(ix.inFlight) && t in ix.deadlines && t <= now
    ensures var r := ExpireBucket(ix, t, now);
            Exact(r) && KeysExclusive(r.inFlight) && KeepsOthers(ix.inFlight, r.inFlight, t)
  {
    var popped, r := ix.(deadlines := ix.deadlines - {t}), ExpireBucket(ix, t, now);
    ExpireKeysRemoves(popped, ix.deadlines[t], now);
    ExpireKeysKeepsBuckets(popped, ix.deadlines[t], now);
    PoppedBucketIsExact(ix.inFlight, r.inFlight, ix.deadlines, t);
    assert Mirrored(r) by {
      assert Mirrored(popped);
      ExpireKeysMirrored(popped, ix.deadlines[t], now);
    }
  }

  /** Expiry leaves exactly the deliveries with a deadline after now, and exact indexes. */
  lemma {:induction false} ExpiryIsExact(ix: Indexes, now: nat)
    requires Exact(ix) && KeysExclusive(ix.inFlight)
    ensures var r := ExpireBuckets(ix, now);
            && Exact(r) && KeysExclusive(r.inFlight)
            && (forall k :: k in r.inFlight <==> k in ix.inFlight && ix.inFlight[k].deadline > now)
            && (forall k :: k in r.inFlight ==> r.inFlight[k] == ix.inFlight[k])
    decreases |ix.deadlines|
  {
    if ix.deadlines == map[] {
    } else {
      var t := Least(ix.deadlines.Keys);
      if t <= now {
        ExpireStepShrinks(ix, t, now);
        ExpireBucketIsExact(ix, t, now);
        ExpiryIsExact(ExpireBucket(ix, t, now), now);
      }
    }
  }
}
