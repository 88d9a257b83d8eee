/** What the queries over the in-flight deliveries must return, stated over the in-flight map alone. */
module DeliveryQueries {
  import opened Prelude
  import opened DeliveryIndex

  ghost predicate Flying(f: Flights, c: string, d: InFlight) {
    DeliveryKey(c, d.offset) in f && f[DeliveryKey(c, d.offset)] == d
  }

  /** Every due delivery of the consumer exactly once, in order of deadline. */
  ghost predicate IsExpiredList(f: Flights, c: string, now: nat, r: seq<InFlight>) {
    && (forall d :: d in r <==> Flying(f, c, d) && d.deadline <= now)
    && Distinct(r)
    && (forall i, j :: 0 <= i < j < |r| ==> r[i].deadline <= r[j].deadline)
  }

  ghost predicate IsNextDeadline(f: Flights, c: string, r: Option<nat>) {
    match r
    case None => !HasDelivery(f, c)
    case Some(t) =>
      && (exists o :: DeliveryKey(c, o) in f && f[DeliveryKey(c, o)].deadline == t)
      && (forall o :: DeliveryKey(c, o) in f ==> t <= f[DeliveryKey(c, o)].deadline)
  }

  /** The member's deliveries in ascending order of offset, complete. */
  ghost predicate IsMemberList(f: Flights, c: string, m: string, r: seq<InFlight>) {
    && (forall d :: d in r <==> Flying(f, c, d) && d.member == m)
    && (forall i, j :: 0 <= i < j < |r| ==> r[i].offset < r[j].offset)
  }

  /** Offsets and keys of the consumer's deliveries outside `excluded`. */
  ghost predicate IsFilter(f: Flights, c: string, excluded: set<Offset>, offsets: set<Offset>, keys: set<string>) {
    && (forall o :: o in offsets <==> DeliveryKey(c, o) in f && o !in excluded)
    && (forall key :: key in keys <==> exists o :: o !in excluded && Reserves(f, c, o, key))
  }

  /** Something is expired exactly when the next deadline has come. */
  lemma ExpiredExactlyWhenDue(f: Flights, c: string, now: nat, expired: seq<InFlight>, next: Option<nat>)
    requires OffsetsAgree(f)
    requires IsExpiredList(f, c, now, expired) && IsNextDeadline(f, c, next)
    ensures expired != [] <==> next.Some? && next.value <= now
  {
    if expired != [] {
      var d := expired[0];
      assert d in expired;
      assert Flying(f, c, d);
      assert HasDelivery(f, c);
    }
    if next.Some? && next.value <= now {
      var o :| DeliveryKey(c, o) in f && f[DeliveryKey(c, o)].deadline == next.value;
      assert Flying(f, c, f[DeliveryKey(c, o)]);
      assert f[DeliveryKey(c, o)] in expired;
    }
  }

  // ---------------------------------------------------------------- the query loops

  lemma DistinctAppend<T>(a: seq<T>, b: seq<T>)
    requires Distinct(a) && Distinct(b)
    requires forall x :: x in a ==> x !in b
    ensures Distinct(a + b)
  {
    var s := a + b;
    forall i, j | 0 <= i < j < |s| ensures s[i] != s[j] {
      assert i < |a| ==> s[i] in a;
      assert j >= |a| ==> s[j] in b;
    }
  }

  lemma LeastExists(s: set<nat>)
    requires s != {}
    ensures exists m :: m in s && forall x :: x in s ==> m <= x
  {
    var m :| m in s;
    while exists x :: x in s && x < m
      invariant m in s
      decreases m
    {
      var x :| x in s && x < m;
      m := x;
    }
  }

  /** The first key of an ordered collection. */
  function Least(s: set<nat>): (m: nat)
    requires s != {}
    ensures m in s && forall x :: x in s ==> m <= x
  {
    LeastExists(s);
    var m :| m in s && forall x :: x in s ==> m <= x;
    m
  }

  /** Walks the buckets up to now in order of deadline. */
  method DueKeys(f: Flights, dl: Buckets, now: nat) returns (all: seq<DeliveryKey>)
    requires DeadlinesExact(f, dl)
    ensures forall k :: k in all <==> k in f && f[k].deadline <= now
    ensures Distinct(all)
    ensures forall i, j :: 0 <= i < j < |all| ==> f[all[i]].deadline <= f[all[j]].deadline
  {
    all := [];
    var due := set t | t in dl && t <= now;
    while due != {}
      invariant forall t :: t in due ==> t in dl && t <= now
      invariant forall k :: k in all <==> k in f && f[k].deadline <= now && f[k].deadline !in due
      invariant Distinct(all)
      invariant forall i, j :: 0 <= i < j < |all| ==> f[all[i]].deadline <= f[all[j]].deadline
      invariant forall k, t :: k in all && t in due ==> f[k].deadline < t
      decreases |due|
    {
      var t := Least(due);
      DistinctAppend(all, dl[t]);
      all := all + dl[t];
      due := due - {t};
    }
  }

  /** Keeps the deliveries of one consumer. */
  method Select(f: Flights, all: seq<DeliveryKey>, c: string, now: nat) returns (r: seq<InFlight>)
    requires OffsetsAgree(f) && Distinct(all)
    requires forall k :: k in all <==> k in f && f[k].deadline <= now
    requires forall i, j :: 0 <= i < j < |all| ==> f[all[i]].deadline <= f[all[j]].deadline
    ensures IsExpiredList(f, c, now, r)
  {
    r := [];
    for i := 0 to |all|
      invariant forall d :: d in r <==> Flying(f, c, d) && DeliveryKey(c, d.offset) in all[..i]
      invariant Distinct(r)
      invariant forall a, b :: 0 <= a < b < |r| ==> r[a].deadline <= r[b].deadline
      invariant i < |all| ==> forall d :: d in r ==> d.deadline <= f[all[i]].deadline
    {
      var k := all[i];
      assert all[..i + 1] == all[..i] + [k];
      assert k in all && k !in all[..i];
      if k.consumer == c {
        var d := f[k];
        assert k == DeliveryKey(c, d.offset) && Flying(f, c, d) && d !in r;
        r := r + [d];
      }
    }
    assert all[..|all|] == all;
  }

  lemma FlyingOfMember(f: Flights, c: string, m: string)
    requires OffsetsAgree(f)
    ensures forall d :: Flying(f, c, d) ==> (Belongs(f, c, d.offset, m) <==> d.member == m)
  {
  }

  /** The deliveries of a set of offsets, in ascending order. */
  method InOrder(f: Flights, c: string, m: string, offsets: set<Offset>) returns (r: Result<seq<InFlight>, Offset>)
    requires OffsetsAgree(f)
    requires forall o :: o in offsets <==> Belongs(f, c, o, m)
    ensures r.Ok? && IsMemberList(f, c, m, r.value)
  {
    var rest := offsets;
    var out: seq<InFlight> := [];
    while rest != {}
      invariant rest <= offsets
      invariant forall d :: d in out <==> Flying(f, c, d) && d.offset in offsets && d.offset !in rest
      invariant forall i, j :: 0 <= i < j < |out| ==> out[i].offset < out[j].offset
      invariant forall d, o :: d in out && o in rest ==> d.offset < o
      decreases |rest|
    {
      var offset := Least(rest);
      assert Belongs(f, c, offset, m);
      rest := rest - {offset};
      var k := DeliveryKey(c, offset);
      if k !in f {
        return Err(offset);
      }
      assert Flying(f, c, f[k]);
      out := out + [f[k]];
    }
    FlyingOfMember(f, c, m);
    return Ok(out);
  }

  method EarliestDeadline(f: Flights, c: string) returns (r: Option<nat>)
    ensures IsNextDeadline(f, c, r)
  {
    r := None;
    var rest := f.Keys;
    while rest != {}
      invariant rest <= f.Keys
      invariant r.None? ==> forall k :: k in f && k !in rest ==> k.consumer != c
      invariant r.Some? ==> exists o :: DeliveryKey(c, o) in f && f[DeliveryKey(c, o)].deadline == r.value
      invariant r.Some? ==> forall k :: k in f && k !in rest && k.consumer == c ==> r.value <= f[k].deadline
      decreases |rest|
    {
      var k :| k in rest;
      rest := rest - {k};
      if k.consumer == c {
        assert k == DeliveryKey(c, k.offset);
        if r.None? || f[k].deadline < r.value {
          r := Some(f[k].deadline);
        }
      }
    }
  }

  /** The full scan for offsets and keys outside `excluded`. */
  method ScanFilter(f: Flights, c: string, excluded: set<Offset>) returns (offsets: set<Offset>, keys: set<string>)
    requires OffsetsAgree(f)
    ensures IsFilter(f, c, excluded, offsets, keys)
  {
    offsets, keys := {}, {};
    var rest := f.Keys;
    ghost var seen: Flights := map[];
    while rest != {}
      invariant rest <= f.Keys
      invariant seen == f - rest
      invariant IsFilter(seen, c, excluded, offsets, keys)
      decreases |rest|
    {
      var k :| k in rest;
      rest := rest - {k};
      var d := f[k];
      ghost var before := seen;
      seen := seen[k := d];
      assert seen == f - rest;
      assert forall o, key :: Reserves(seen, c, o, key) <==>
                              Reserves(before, c, o, key) || (k == DeliveryKey(c, o) && d.key == Some(key));
      if k.consumer != c || d.offset in excluded {
        continue;
      }
      assert k == DeliveryKey(c, d.offset);
      offsets := offsets + {d.offset};
      ghost var oldKeys := keys;
      if d.key.Some? {
        keys := keys + {d.key.value};
      }
      forall key ensures key in keys <==> exists o :: o !in excluded && Reserves(seen, c, o, key) {
        if key in oldKeys {
          var o :| o !in excluded && Reserves(before, c, o, key);
          assert Reserves(seen, c, o, key);
        } else if key in keys {
          assert Reserves(seen, c, d.offset, key);
        }
      }
    }
    assert seen == f;
  }
}
