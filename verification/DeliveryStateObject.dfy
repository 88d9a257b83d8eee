/** The mutable delivery state of one stream: in-flight deliveries with their indexes, a bounded cache
    of consumer states, and the consumers whose files must be reloaded after a failed write. */
module DeliveryStateObject {
  import opened Prelude
  import opened DeliveryIndex
  import opened DeliveryQueries
  import opened DeliveryExpiry
  import opened EventLog
  import opened BrokerMemory
  import opened LogFiles
  import CP = ConsumerProgress

  // ---------------------------------------------------------------- proof support

  /** Part of the way through the evictions. */
  ghost predicate Evicted(full: map<string, CP.State>, states: map<string, CP.State>, f: Flights) {
    && (forall x :: x in states ==> x in full && states[x] == full[x])
    && (|full| <= MAX_CACHED_CONSUMER_STATES ==> states == full)
    && (|full| > MAX_CACHED_CONSUMER_STATES ==> |states| >= MAX_CACHED_CONSUMER_STATES)
    && (forall x, y :: x in full && x !in states && y in states && Active(f, x) ==> Active(f, y))
  }

  lemma EvictOne(full: map<string, CP.State>, states: map<string, CP.State>, f: Flights, evicted: string)
    requires Evicted(full, states, f) && |states| > MAX_CACHED_CONSUMER_STATES && evicted in states
    requires Active(f, evicted) ==> forall x :: x in states ==> Active(f, x)
    ensures Evicted(full, states - {evicted}, f) && |states - {evicted}| == |states| - 1
  {
    assert (states - {evicted}).Keys == states.Keys - {evicted};
  }

  lemma MemberIndexExact(ix: Indexes, c: string, m: string)
    requires ConsumersExact(ix.inFlight, ix.consumers)
    ensures forall o :: Belongs(ix.inFlight, c, o, m) <==>
                        c in ix.consumers && m in ix.consumers[c].members && o in ix.consumers[c].members[m]
    ensures c in ix.consumers && m in ix.consumers[c].members ==> ix.consumers[c].members[m] != {}
  {
    forall o | Belongs(ix.inFlight, c, o, m) ensures c in ix.consumers {
      assert DeliveryKey(c, o).consumer in ix.consumers;
    }
    if c in ix.consumers {
      assert IndexExact(ix.inFlight, c, ix.consumers[c]);
    }
  }

  // ---------------------------------------------------------------- the delivery state

  class DeliveryState {
    var consumerStates: map<string, CP.State>
    var inFlight: Flights
    var deadlines: Buckets
    var byConsumer: map<string, ConsumerIndex>
    var needsReconcile: set<string>

    function Index(): Indexes
      reads this
    {
      Indexes(inFlight, deadlines, byConsumer)
    }

    function Contents(): Memory
      reads this
    {
      Memory(consumerStates, Index(), needsReconcile)
    }

    ghost predicate Valid()
      reads this
    {
      Exact(Index()) && KeysExclusive(inFlight)
    }

    constructor ()
      ensures Valid() && Index() == NoDeliveries && consumerStates == map[] && needsReconcile == {}
    {
      consumerStates, inFlight, deadlines, byConsumer, needsReconcile := map[], map[], map[], map[], {};
    }

    method Add(consumer: string, d: InFlight)
      requires DeliveryKey(consumer, d.offset) !in inFlight
      modifies this`inFlight, this`deadlines, this`byConsumer
      ensures Index() == Insert(old(Index()), consumer, d)
      ensures inFlight == old(inFlight)[DeliveryKey(consumer, d.offset) := d]
      ensures old(Valid()) && Permitted(old(Index()), InsertOp(consumer, d)) ==> Valid()
    {
      var k := DeliveryKey(consumer, d.offset);
      inFlight := inFlight[k := d];
      var bucket := if d.deadline in deadlines then deadlines[d.deadline] else [];
      deadlines := deadlines[d.deadline := bucket + [k]];
      var index := if consumer in byConsumer then byConsumer[consumer] else ConsumerIndex({}, {}, map[]);
      var keys := if d.key.Some? then index.keys + {d.key.value} else index.keys;
      var mine := if d.member in index.members then index.members[d.member] else {};
      var members := index.members[d.member := mine + {d.offset}];
      assert keys == index.keys + KeySet(d.key);
      byConsumer := byConsumer[consumer := ConsumerIndex(index.offsets + {d.offset}, keys, members)];
      if old(Valid()) && Permitted(old(Index()), InsertOp(consumer, d)) {
        StepKeepsExact(old(Index()), InsertOp(consumer, d));
      }
    }

    method RemoveInFlight(k: DeliveryKey) returns (r: Option<InFlight>)
      modifies this`inFlight, this`deadlines, this`byConsumer
      ensures Index() == Remove(old(Index()), k)
      ensures inFlight == old(inFlight) - {k}
      ensures r == if k in old(inFlight) then Some(old(inFlight)[k]) else None
      ensures old(Valid()) ==> Valid()
    {
      if old(Valid()) {
        RemoveKeepsExact(old(Index()), k);
      }
      if k !in inFlight {
        return None;
      }
      var d := inFlight[k];
      inFlight := inFlight - {k};
      if d.deadline in deadlines {
        var bucket := deadlines[d.deadline];
        var i := Position(bucket, k);
        if i < |bucket| {
          bucket := SwapRemove(bucket, i);
        }
        if bucket == [] {
          deadlines := deadlines - {d.deadline};
        } else {
          deadlines := deadlines[d.deadline := bucket];
        }
      }
      if k.consumer in byConsumer {
        var index := byConsumer[k.consumer];
        index := index.(offsets := index.offsets - {k.offset});
        assert index.keys - {} == index.keys;
        if d.key.Some? {
          index := index.(keys := index.keys - {d.key.value});
        }
        if d.member in index.members {
          var offsets := index.members[d.member] - {k.offset};
          if offsets == {} {
            index := index.(members := index.members - {d.member});
          } else {
            index := index.(members := index.members[d.member := offsets]);
          }
        }
        if index.offsets == {} {
          byConsumer := byConsumer - {k.consumer};
        } else {
          byConsumer := byConsumer[k.consumer := index];
        }
      }
      return Some(d);
    }

    // -------------------------------------------------------------- expiry

    method ExpireBucketKeys(keys: seq<DeliveryKey>, now: nat) returns (expiredAny: bool)
      modifies this`inFlight, this`deadlines, this`byConsumer
      ensures Index() == ExpireKeys(old(Index()), keys, now)
      ensures inFlight.Keys <= old(inFlight).Keys
      ensures expiredAny <==> inFlight.Keys != old(inFlight).Keys
    {
      expiredAny := false;
      for i := 0 to |keys|
        invariant Index() == ExpireKeys(old(Index()), keys[..i], now)
        invariant inFlight.Keys <= old(inFlight).Keys
        invariant expiredAny <==> inFlight.Keys < old(inFlight).Keys
      {
        var k := keys[i];
        assert keys[..i + 1][..i] == keys[..i];
        if k in inFlight && inFlight[k].deadline <= now {
          var _ := RemoveInFlight(k);
          expiredAny := true;
        }
      }
      assert keys[..|keys|] == keys;
    }

    /** Pops due buckets in order of deadline and removes their deliveries;
        DeliveryExpiry.ExpiryIsExact says what that leaves. */
    method Expire(now: nat) returns (expiredAny: bool)
      modifies this`inFlight, this`deadlines, this`byConsumer
      ensures Index() == ExpireBuckets(old(Index()), now)
      ensures expiredAny <==> inFlight.Keys != old(inFlight).Keys
      ensures old(Valid()) ==> Valid()
    {
      if old(Valid()) {
        ExpiryIsExact(old(Index()), now);
      }
      expiredAny := false;
      while deadlines != map[]
        invariant ExpireBuckets(Index(), now) == ExpireBuckets(old(Index()), now)
        invariant inFlight.Keys <= old(inFlight).Keys
        invariant expiredAny <==> inFlight.Keys < old(inFlight).Keys
        decreases |deadlines|
      {
        var t := Least(deadlines.Keys);
        if t > now {
          break;
        }
        ExpireStepShrinks(Index(), t, now);
        var keys := deadlines[t];
        deadlines := deadlines - {t};
        var any := ExpireBucketKeys(keys, now);
        expiredAny := expiredAny || any;
      }
    }

    // -------------------------------------------------------------- queries

    method ExpiredDeliveries(consumer: string, now: nat) returns (r: seq<InFlight>)
      requires Valid()
      ensures IsExpiredList(inFlight, consumer, now, r)
    {
      var all := DueKeys(inFlight, deadlines, now);
      r := Select(inFlight, all, consumer, now);
    }

    /** The member's least offset in flight; the index never points to a missing delivery. */
    method MemberDelivery(consumer: string, member: string) returns (r: Result<Option<InFlight>, Offset>)
      requires Valid()
      ensures r.Ok?
      ensures r.value.None? ==> forall o :: !Belongs(inFlight, consumer, o, member)
      ensures r.value.Some? ==>
                && Belongs(inFlight, consumer, r.value.value.offset, member)
                && Flying(inFlight, consumer, r.value.value)
                && forall o :: Belongs(inFlight, consumer, o, member) ==> r.value.value.offset <= o
    {
      MemberIndexExact(Index(), consumer, member);
      if consumer !in byConsumer || member !in byConsumer[consumer].members {
        return Ok(None);
      }
      var offset := Least(byConsumer[consumer].members[member]);
      assert Belongs(inFlight, consumer, offset, member);
      var k := DeliveryKey(consumer, offset);
      if k !in inFlight {
        return Err(offset);
      }
      return Ok(Some(inFlight[k]));
    }

    method MemberDeliveries(consumer: string, member: string) returns (r: Result<seq<InFlight>, Offset>)
      requires Valid()
      ensures r.Ok? && IsMemberList(inFlight, consumer, member, r.value)
    {
      MemberIndexExact(Index(), consumer, member);
      if consumer !in byConsumer || member !in byConsumer[consumer].members {
        forall d | Flying(inFlight, consumer, d) ensures d.member != member {
          assert !Belongs(inFlight, consumer, d.offset, member);
        }
        return Ok([]);
      }
      r := InOrder(inFlight, consumer, member, byConsumer[consumer].members[member]);
    }

    method NextDeadline(consumer: string) returns (r: Option<nat>)
      ensures IsNextDeadline(inFlight, consumer, r)
    {
      r := EarliestDeadline(inFlight, consumer);
    }

    method InFlightFilter(consumer: string) returns (r: Option<ConsumerIndex>)
      requires Valid()
      ensures r.None? <==> !HasDelivery(inFlight, consumer)
      ensures r.Some? ==> IsFilter(inFlight, consumer, {}, r.value.offsets, r.value.keys)
    {
      if consumer !in byConsumer {
        assert forall o :: DeliveryKey(consumer, o) in inFlight ==> DeliveryKey(consumer, o).consumer in byConsumer;
        return None;
      }
      var x := byConsumer[consumer];
      assert IndexExact(inFlight, consumer, x);
      ghost var o :| o in x.offsets;
      assert DeliveryKey(consumer, o) in inFlight;
      return Some(x);
    }

    /** Both branches compute the same function of the in-flight map. */
    method FilterExcluding(consumer: string, excluded: set<Offset>) returns (offsets: set<Offset>, keys: set<string>)
      requires Valid()
      ensures IsFilter(inFlight, consumer, excluded, offsets, keys)
    {
      if excluded == {} {
        var x := InFlightFilter(consumer);
        if x.Some? {
          return x.value.offsets, x.value.keys;
        }
        assert forall o, key :: !Reserves(inFlight, consumer, o, key);
        return {}, {};
      }
      offsets, keys := ScanFilter(inFlight, consumer, excluded);
    }

    // -------------------------------------------------------------- cache and reconcile

    method CacheConsumerState(consumer: string, state: CP.State)
      modifies this`consumerStates
      ensures CachedAs(old(Contents()), consumer, state, Contents())
      ensures old(Valid()) ==> Valid()
    {
      consumerStates := consumerStates[consumer := state];
      ghost var full := consumerStates;
      while |consumerStates| > MAX_CACHED_CONSUMER_STATES
        invariant Evicted(full, consumerStates, inFlight)
        decreases |consumerStates|
      {
        var active := set k | k in inFlight :: k.consumer;
        var idle := set x | x in consumerStates && x !in active;
        var evicted;
        if idle != {} {
          evicted :| evicted in idle;
        } else {
          evicted :| evicted in consumerStates.Keys;
          assert forall x :: x in consumerStates ==> x in active && Active(inFlight, x);
        }
        EvictOne(full, consumerStates, inFlight, evicted);
        consumerStates := consumerStates - {evicted};
      }
    }

    method MarkNeedsReconcile(consumer: string)
      modifies this`consumerStates, this`needsReconcile
      ensures Contents() == Marked(old(Contents()), consumer)
      ensures old(Valid()) ==> Valid()
    {
      needsReconcile := needsReconcile + {consumer};
      consumerStates := consumerStates - {consumer};
    }

    method RemoveStale(consumer: string, recovered: CP.State) returns (ghost ks: seq<DeliveryKey>)
      modifies this`inFlight, this`deadlines, this`byConsumer
      ensures StaleKeys(old(Index()), consumer, recovered, ks)
      ensures Index() == RemoveAll(old(Index()), ks)
      ensures old(Valid()) ==> Valid()
    {
      var stale := set k | k in inFlight && k.consumer == consumer &&
                           (k.offset < recovered.committed || k.offset in recovered.acked);
      var rest := stale;
      ks := [];
      while rest != {}
        invariant rest <= stale
        invariant forall k :: k in ks <==> k in stale && k !in rest
        invariant Index() == RemoveAll(old(Index()), ks)
        invariant old(Valid()) ==> Valid()
        decreases |rest|
      {
        var k :| k in rest;
        rest := rest - {k};
        var _ := RemoveInFlight(k);
        assert (ks + [k])[..|ks|] == ks;
        ks := ks + [k];
      }
    }

    method LoadForRequest(files: Files<CP.State, CP.Event, CP.EventError>, consumer: string, fault: LoadFault,
                          syncFails: bool)
      returns (r: LoadResult)
      modifies this, files`journal
      ensures Requested(files.log, old(Contents()), old(files.Contents()), consumer, fault, syncFails,
                        Contents(), files.Contents(), r)
      ensures old(Valid()) ==> Valid()
    {
      if consumer in needsReconcile {
        r := files.LoadState(fault);
        if r.Err? {
          return;
        }
        if syncFails && files.journal.Some? {
          return Err(LoadIo);
        }
        ghost var ks := RemoveStale(consumer, r.value);
        needsReconcile := needsReconcile - {consumer};
        CacheConsumerState(consumer, r.value);
        return;
      }
      if consumer in consumerStates {
        return Ok(consumerStates[consumer]);
      }
      r := files.LoadState(fault);
    }
  }
}
