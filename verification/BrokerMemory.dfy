/** What the broker keeps in memory for one stream, and how a request obtains a consumer state:
    from the cache, from the files, or by reconciling after a failed write. */
module BrokerMemory {
  import opened Prelude
  import opened DeliveryIndex
  import opened EventLog
  import CP = ConsumerProgress

  const MAX_CACHED_CONSUMER_STATES: nat := 1024

  type ConsumerLog = Log<CP.State, CP.Event, CP.EventError>

  type ConsumerDisk = Disk<CP.State>

  datatype Memory = Memory(states: map<string, CP.State>, index: Indexes, reconcile: set<string>)

  const EmptyMemory := Memory(map[], NoDeliveries, {})

  ghost predicate Active(f: Flights, c: string) {
    exists k :: k in f && k.consumer == c
  }

  /** Caching s for c, with evictions in any order: exactly as many entries go as exceed the bound, the
      rest is unchanged, and an active consumer goes only if every consumer left is active. */
  ghost predicate CachedAs(m: Memory, c: string, s: CP.State, m': Memory) {
    var full := m.states[c := s];
    var f := m.index.inFlight;
    && m'.index == m.index && m'.reconcile == m.reconcile
    && |m'.states| == (if |full| <= MAX_CACHED_CONSUMER_STATES then |full| else MAX_CACHED_CONSUMER_STATES)
    && (|full| <= MAX_CACHED_CONSUMER_STATES ==> m'.states == full)
    && (forall x :: x in m'.states ==> x in full && m'.states[x] == full[x])
    && (forall x, y :: x in full && x !in m'.states && Active(f, x) && y in m'.states ==> Active(f, y))
  }

  /** From a cache within its bound at most one consumer is evicted, and an active one only if every
      consumer that was cached, the new one included, is active. */
  lemma ActiveIsEvictedLast(m: Memory, c: string, s: CP.State, m': Memory, x: string)
    requires CachedAs(m, c, s, m') && |m.states| <= MAX_CACHED_CONSUMER_STATES
    requires x in m.states[c := s] && x !in m'.states
    ensures forall y :: y in m.states[c := s] && y != x ==> y in m'.states
    ensures Active(m.index.inFlight, x) ==> forall y :: y in m.states[c := s] ==> Active(m.index.inFlight, y)
  {
    var full, kept := m.states[c := s].Keys, m'.states.Keys;
    assert full == m.states.Keys + {c};
    assert |full| <= |m.states.Keys| + 1;
    assert kept + {x} <= full && |kept + {x}| == |kept| + 1;
    SubsetOfEqualSize(kept + {x}, full);
  }

  function Marked(m: Memory, c: string): Memory {
    m.(states := m.states - {c}, reconcile := m.reconcile + {c})
  }

  /** The in-flight keys of c that the recovered state counts as acknowledged. */
  ghost predicate StaleKeys(ix: Indexes, c: string, s: CP.State, ks: seq<DeliveryKey>) {
    forall k :: k in ks <==> k in ix.inFlight && k.consumer == c && CP.Settled(s, k.offset)
  }

  ghost predicate Reconciled(m: Memory, c: string, s: CP.State, m': Memory) {
    exists ks ::
      && StaleKeys(m.index, c, s, ks)
      && CachedAs(m.(index := RemoveAll(m.index, ks), reconcile := m.reconcile - {c}), c, s, m')
  }

  type LoadResult = Result<CP.State, LoadError<CP.EventError>>

  /** The state a request works with. A reconciling load also syncs the journal, if it exists. */
  ghost predicate Requested(l: ConsumerLog, m: Memory, d: ConsumerDisk, c: string, fault: LoadFault, syncFails: bool,
                            m': Memory, d': ConsumerDisk, r: LoadResult)
  {
    var loaded := Load(l, d, fault);
    if c in m.reconcile then
      && d' == loaded.disk
      && (if loaded.result.Err? then r == loaded.result && m' == m
          else if syncFails && d'.journal.Some? then r == Err(LoadIo) && m' == m
          else r == loaded.result && Reconciled(m, c, loaded.result.value, m'))
    else if c in m.states then r == Ok(m.states[c]) && m' == m && d' == d
    else r == loaded.result && m' == m && d' == loaded.disk
  }

  /** After a reconcile no in-flight delivery of the consumer is acknowledged, every other delivery
      of every consumer survives unchanged, the indexes are exact, and a cached entry is the
      recovered state. */
  lemma ReconcileDropsExactlyStale(m: Memory, c: string, s: CP.State, m': Memory)
    requires Reconciled(m, c, s, m')
    requires Exact(m.index) && KeysExclusive(m.index.inFlight)
    ensures Exact(m'.index) && KeysExclusive(m'.index.inFlight)
    ensures forall k :: k in m'.index.inFlight <==>
                        k in m.index.inFlight && !(k.consumer == c && CP.Settled(s, k.offset))
    ensures forall k :: k in m'.index.inFlight ==> m'.index.inFlight[k] == m.index.inFlight[k]
    ensures c in m'.states ==> m'.states[c] == s
    ensures forall x :: x in m'.states && x != c ==> x in m.states && m'.states[x] == m.states[x]
    ensures |m'.states| <= MAX_CACHED_CONSUMER_STATES
    ensures m'.reconcile == m.reconcile - {c}
  {
    var ks :| StaleKeys(m.index, c, s, ks) &&
              CachedAs(m.(index := RemoveAll(m.index, ks), reconcile := m.reconcile - {c}), c, s, m');
    RemoveAllKeepsExact(m.index, ks);
    RemoveAllRemoves(m.index, ks);
  }
}
