/** What a broker action does to the in-flight deliveries, and why they stay in agreement with the
    consumer state: every delivery in flight is an attempt the state records. */
module BrokerEffects {
  import opened Prelude
  import opened ConsumerProgress
  import opened ProgressTheorems
  import opened DeliveryIndex
  import opened BrokerActions

  function InsertAll(ix: Indexes, c: string, ps: seq<Pending>): Indexes {
    if ps == [] then ix else Insert(InsertAll(ix, c, ps[..|ps| - 1]), c, ps[|ps| - 1].delivery)
  }

  function KeysOf(c: string, os: seq<Offset>): seq<DeliveryKey> {
    seq(|os|, i requires 0 <= i < |os| => DeliveryKey(c, os[i]))
  }

  function Effect(ix: Indexes, c: string, a: Action): Indexes {
    match a
    case DeliverOne(p) => Insert(ix, c, p.delivery)
    case DeliverMany(ps) => InsertAll(ix, c, ps)
    case AckOne(o) => Remove(ix, DeliveryKey(c, o))
    case AckMany(os) => RemoveAll(ix, KeysOf(c, os))
    case ScheduleExpired(_, ks) => RemoveAll(ix, ks)
    case _ => ix
  }

  // ---------------------------------------------------------------- indexes

  /** No delivery of c has the offset or the key of d. */
  ghost predicate Free(f: Flights, c: string, d: InFlight) {
    && DeliveryKey(c, d.offset) !in f
    && (d.key.Some? ==> forall o :: !Reserves(f, c, o, d.key.value))
  }

  lemma PermittedExactlyWhenFree(ix: Indexes, c: string, d: InFlight)
    requires Exact(ix)
    ensures Permitted(ix, InsertOp(c, d)) <==> Free(ix.inFlight, c, d)
  {
    if c in ix.consumers {
      assert IndexExact(ix.inFlight, c, ix.consumers[c]);
    }
    forall o, key | Reserves(ix.inFlight, c, o, key) ensures c in ix.consumers {
      assert DeliveryKey(c, o).consumer in ix.consumers;
    }
  }

  lemma {:induction false} InsertAllFlights(ix: Indexes, c: string, ps: seq<Pending>)
    requires forall i, j :: 0 <= i < j < |ps| ==> Apart(ps[i], ps[j])
    requires forall i :: 0 <= i < |ps| ==> Free(ix.inFlight, c, ps[i].delivery)
    ensures forall k :: k in ix.inFlight ==> k in InsertAll(ix, c, ps).inFlight
                                             && InsertAll(ix, c, ps).inFlight[k] == ix.inFlight[k]
    ensures forall k :: k in InsertAll(ix, c, ps).inFlight && k !in ix.inFlight ==>
                          exists i :: 0 <= i < |ps| && k == DeliveryKey(c, ps[i].delivery.offset) &&
                                      InsertAll(ix, c, ps).inFlight[k] == ps[i].delivery
  {
    if ps == [] {
    } else {
      var n := |ps| - 1;
      InsertAllFlights(ix, c, ps[..n]);
      var g, d := InsertAll(ix, c, ps[..n]).inFlight, ps[n].delivery;
      var h := InsertAll(ix, c, ps).inFlight;
      assert h == g[DeliveryKey(c, d.offset) := d];
      forall k | k in h && k !in ix.inFlight
        ensures exists i :: 0 <= i < |ps| && k == DeliveryKey(c, ps[i].delivery.offset) && h[k] == ps[i].delivery
      {
        if k == DeliveryKey(c, d.offset) {
          assert h[k] == ps[n].delivery;
        } else {
          var i :| 0 <= i < n && k == DeliveryKey(c, ps[..n][i].delivery.offset) && g[k] == ps[..n][i].delivery;
          assert ps[..n][i] == ps[i];
        }
      }
    }
  }

  lemma {:induction false} InsertAllStaysFree(ix: Indexes, c: string, ps: seq<Pending>, p: Pending)
    requires Free(ix.inFlight, c, p.delivery)
    requires forall i :: 0 <= i < |ps| ==> Apart(ps[i], p)
    ensures Free(InsertAll(ix, c, ps).inFlight, c, p.delivery)
  {
    if ps == [] {
    } else {
      var g, d := InsertAll(ix, c, ps[..|ps| - 1]).inFlight, ps[|ps| - 1].delivery;
      InsertAllStaysFree(ix, c, ps[..|ps| - 1], p);
      assert Apart(ps[|ps| - 1], p);
      var h := InsertAll(ix, c, ps).inFlight;
      assert h == g[DeliveryKey(c, d.offset) := d];
      assert forall o, key :: Reserves(h, c, o, key) ==> Reserves(g, c, o, key) || d.key == Some(key);
    }
  }

  lemma {:induction false} InsertAllKeepsExact(ix: Indexes, c: string, ps: seq<Pending>)
    requires Exact(ix) && KeysExclusive(ix.inFlight)
    requires forall i :: 0 <= i < |ps| ==> Free(ix.inFlight, c, ps[i].delivery)
    requires forall i, j :: 0 <= i < j < |ps| ==> Apart(ps[i], ps[j])
    ensures Exact(InsertAll(ix, c, ps)) && KeysExclusive(InsertAll(ix, c, ps).inFlight)
  {
    if ps == [] {
    } else {
      var n := |ps| - 1;
      var before := InsertAll(ix, c, ps[..n]);
      InsertAllKeepsExact(ix, c, ps[..n]);
      InsertAllStaysFree(ix, c, ps[..n], ps[n]);
      PermittedExactlyWhenFree(before, c, ps[n].delivery);
      StepKeepsExact(before, InsertOp(c, ps[n].delivery));
    }
  }

  ghost predicate HandedAs(c: string, ps: seq<Pending>, k: DeliveryKey, d: InFlight) {
    exists p :: p in ps && k == DeliveryKey(c, p.delivery.offset) && d == p.delivery
  }

  /** The flights f and, over them, the deliveries of a batch. */
  ghost predicate HandedOver(f: Flights, c: string, ps: seq<Pending>, g: Flights) {
    && (forall p :: p in ps ==> var k := DeliveryKey(c, p.delivery.offset); k in g && g[k] == p.delivery)
    && (forall k :: k in f ==> k in g)
    && (forall k :: k in g ==> (k in f && g[k] == f[k]) || HandedAs(c, ps, k, g[k]))
  }

  /** One more delivery, of another offset. */
  lemma HandedOneMore(f: Flights, c: string, init: seq<Pending>, last: Pending, mid: Flights)
    requires HandedOver(f, c, init, mid)
    requires forall i :: 0 <= i < |init| ==> init[i].delivery.offset != last.delivery.offset
    ensures HandedOver(f, c, init + [last], mid[DeliveryKey(c, last.delivery.offset) := last.delivery])
  {
    var ps, key := init + [last], DeliveryKey(c, last.delivery.offset);
    var g := mid[key := last.delivery];
    forall k | k in g && !(k in f && g[k] == f[k]) ensures HandedAs(c, ps, k, g[k]) {
      if k == key {
        assert last in ps;
      } else {
        assert HandedAs(c, init, k, g[k]);
        var p :| p in init && k == DeliveryKey(c, p.delivery.offset) && g[k] == p.delivery;
        assert p in ps;
      }
    }
  }

  /** The flights with a batch put over them. */
  function Overlaid(f: Flights, c: string, ps: seq<Pending>): Flights {
    if ps == [] then f else
    var last := ps[|ps| - 1].delivery;
    Overlaid(f, c, ps[..|ps| - 1])[DeliveryKey(c, last.offset) := last]
  }

  lemma {:induction false} InsertAllOverlays(ix: Indexes, c: string, ps: seq<Pending>)
    ensures InsertAll(ix, c, ps).inFlight == Overlaid(ix.inFlight, c, ps)
  {
    if ps == [] {
    } else {
      InsertAllOverlays(ix, c, ps[..|ps| - 1]);
    }
  }

  lemma {:induction false} OverlaidIsHandedOver(f: Flights, c: string, ps: seq<Pending>)
    requires forall i, j :: 0 <= i < j < |ps| ==> ps[i].delivery.offset != ps[j].delivery.offset
    ensures HandedOver(f, c, ps, Overlaid(f, c, ps))
  {
    if ps == [] {
    } else {
      var init, last := ps[..|ps| - 1], ps[|ps| - 1];
      OverlaidIsHandedOver(f, c, init);
      HandedOneMore(f, c, init, last, Overlaid(f, c, init));
      assert ps == init + [last];
    }
  }

  lemma InsertAllStores(ix: Indexes, c: string, ps: seq<Pending>)
    requires forall i, j :: 0 <= i < j < |ps| ==> Apart(ps[i], ps[j])
    ensures HandedOver(ix.inFlight, c, ps, InsertAll(ix, c, ps).inFlight)
  {
    InsertAllOverlays(ix, c, ps);
    forall i, j | 0 <= i < j < |ps| ensures ps[i].delivery.offset != ps[j].delivery.offset {
      assert Apart(ps[i], ps[j]);
    }
    OverlaidIsHandedOver(ix.inFlight, c, ps);
  }

  lemma KeysOfAll(c: string, os: seq<Offset>)
    ensures (set k | k in KeysOf(c, os)) == set o | o in os :: DeliveryKey(c, o)
  {
    var a, b := set k | k in KeysOf(c, os), set o | o in os :: DeliveryKey(c, o);
    forall k | k in b ensures k in a {
      var i :| 0 <= i < |os| && k == DeliveryKey(c, os[i]);
      assert KeysOf(c, os)[i] == k;
    }
  }

  /** The deliveries in flight after every action, in terms of those before. */
  lemma EffectFlights(ix: Indexes, c: string, s: State, a: Action)
    requires Enabled(ix, c, s, a)
    ensures var f, g := ix.inFlight, Effect(ix, c, a).inFlight;
            match a
            case DeliverOne(p) => g == f[DeliveryKey(c, p.delivery.offset) := p.delivery]
            case DeliverMany(ps) => HandedOver(f, c, ps, g)
            case AckOne(o) => g == f - {DeliveryKey(c, o)}
            case AckMany(os) => g == f - set o | o in os :: DeliveryKey(c, o)
            case ScheduleExpired(_, ks) => g == f - set k | k in ks
            case _ => g == f
  {
    match a
    case DeliverMany(ps) => InsertAllStores(ix, c, ps);
    case AckMany(os) =>
      RemoveAllRemoves(ix, KeysOf(c, os));
      KeysOfAll(c, os);
    case ScheduleExpired(_, ks) => RemoveAllRemoves(ix, ks);
    case _ =>
  }

  lemma CandidatesAreFree(ix: Indexes, c: string, s: State, ps: seq<Pending>)
    requires Exact(ix) && Enabled(ix, c, s, DeliverMany(ps))
    ensures forall i :: 0 <= i < |ps| ==> Free(ix.inFlight, c, ps[i].delivery)
  {
    forall i | 0 <= i < |ps| ensures Free(ix.inFlight, c, ps[i].delivery) {
      assert Candidate(ix, c, s, ps[i]);
      PermittedExactlyWhenFree(ix, c, ps[i].delivery);
    }
  }

  /** Every action keeps the indexes exact and keys exclusive. */
  lemma EffectKeepsExact(ix: Indexes, c: string, s: State, a: Action)
    requires Exact(ix) && KeysExclusive(ix.inFlight) && Enabled(ix, c, s, a)
    ensures Exact(Effect(ix, c, a)) && KeysExclusive(Effect(ix, c, a).inFlight)
  {
    match a
    case DeliverOne(p) => StepKeepsExact(ix, InsertOp(c, p.delivery));
    case DeliverMany(ps) =>
      CandidatesAreFree(ix, c, s, ps);
      InsertAllKeepsExact(ix, c, ps);
    case AckOne(o) => RemoveKeepsExact(ix, DeliveryKey(c, o));
    case AckMany(os) => RemoveAllKeepsExact(ix, KeysOf(c, os));
    case ScheduleExpired(_, ks) => RemoveAllKeepsExact(ix, ks);
    case _ =>
  }

  // ---------------------------------------------------------------- deliveries and attempts

  /** A run without an attempt at o leaves its counter alone, unless it acknowledges o. */
  lemma {:induction false} SparedSlot(x: Slot, o: Offset, ts: seq<Touch>)
    requires x.Open?
    requires forall t :: t in ts && t.Delivered? ==> t.delivery.offset != o
    ensures SlotRun(x, o, ts).Done? ==> Acked(o) in ts
    ensures SlotRun(x, o, ts).Open? ==> SlotRun(x, o, ts).attempt == x.attempt
  {
    if ts == [] {
    } else {
      var init, last := ts[..|ts| - 1], ts[|ts| - 1];
      SparedSlot(x, o, init);
      assert last in ts;
      assert forall t :: t in init ==> t in ts;
    }
  }

  ghost predicate Recorded(s: State, o: Offset, attempt: U32) {
    o in s.attempts && s.attempts[o] == attempt
  }

  lemma SparedAttempt(s: State, e: Event, o: Offset)
    requires WellFormed(s) && Accepted(e) && o in s.attempts
    requires forall t :: t in Touches(e) && t.Delivered? ==> t.delivery.offset != o
    ensures var r := Run(s, Touches(e));
            Recorded(r, o, s.attempts[o]) || (Settled(r, o) && Acked(o) in Touches(e))
  {
    var ts := Touches(e);
    AcceptedTouchesAreGood(e);
    RunKeepsSlots(s, ts);
    SparedSlot(SlotOf(s, o), o, ts);
    assert SlotOf(Run(s, ts), o) == SlotRun(SlotOf(s, o), o, ts);
  }

  /** An action attempts nothing that is already in flight. */
  lemma ActionSparesFlights(ix: Indexes, c: string, s: State, a: Action, o: Offset)
    requires Enabled(ix, c, s, a) && DeliveryKey(c, o) in ix.inFlight
    ensures forall t :: t in Touches(EventOf(a)) && t.Delivered? ==> t.delivery.offset != o
  {
    forall t | t in Touches(EventOf(a)) && t.Delivered? ensures t.delivery.offset != o {
      if a.DeliverMany? {
        var i :| 0 <= i < |a.batch| && t == Delivered(AttemptOf(a.batch[i]));
        assert Candidate(ix, c, s, a.batch[i]);
      }
    }
  }

  /** Every delivery in flight is recorded or already acknowledged. */
  ghost predicate FlightsKnown(f: Flights, c: string, s: State) {
    forall k :: k in f && k.consumer == c ==> Recorded(s, k.offset, f[k].attempt) || Settled(s, k.offset)
  }

  /** Whether or not the event of a failed action reached the files, the deliveries in flight are
      recorded or acknowledged there. */
  lemma FlightsKnownAfterEvent(ix: Indexes, c: string, s: State, a: Action)
    requires WellFormed(s) && FlightsRecorded(ix.inFlight, c, s) && Enabled(ix, c, s, a)
    ensures FlightsKnown(ix.inFlight, c, Local(s, a))
  {
    LocalUpdateIsEvent(ix, c, s, a);
    forall k | k in ix.inFlight && k.consumer == c
      ensures Recorded(Local(s, a), k.offset, ix.inFlight[k].attempt) || Settled(Local(s, a), k.offset)
    {
      assert k == DeliveryKey(c, k.offset);
      ActionSparesFlights(ix, c, s, a, k.offset);
      SparedAttempt(s, EventOf(a), k.offset);
    }
  }

  /** An acknowledged offset is no longer in flight once the action is complete. */
  lemma AckedLeavesFlight(ix: Indexes, c: string, s: State, a: Action, o: Offset)
    requires Enabled(ix, c, s, a) && Acked(o) in Touches(EventOf(a))
    ensures DeliveryKey(c, o) !in Effect(ix, c, a).inFlight
  {
    if a.AckMany? {
      var i :| 0 <= i < |a.offsets| && a.offsets[i] == o;
      assert KeysOf(c, a.offsets)[i] == DeliveryKey(c, o);
      RemoveAllRemoves(ix, KeysOf(c, a.offsets));
    }
  }

  /** A delivery in flight after the action was there before, or is one the action made. */
  lemma FlightsAfter(ix: Indexes, c: string, s: State, a: Action, k: DeliveryKey)
    requires Exact(ix) && Enabled(ix, c, s, a) && k in Effect(ix, c, a).inFlight
    ensures var d := Effect(ix, c, a).inFlight[k];
            || (k in ix.inFlight && d == ix.inFlight[k])
            || (a.DeliverOne? && k == DeliveryKey(c, d.offset) && d == a.pending.delivery)
            || (a.DeliverMany? && k == DeliveryKey(c, d.offset) && exists i :: 0 <= i < |a.batch|
                                                                               && d == a.batch[i].delivery)
  {
    match a
    case DeliverMany(ps) =>
      CandidatesAreFree(ix, c, s, ps);
      InsertAllFlights(ix, c, ps);
    case AckMany(os) => RemoveAllRemoves(ix, KeysOf(c, os));
    case ScheduleExpired(_, ks) => RemoveAllRemoves(ix, ks);
    case _ =>
  }

  lemma FlightRecordedAfterAction(ix: Indexes, c: string, s: State, a: Action, k: DeliveryKey)
    requires WellFormed(s) && FlightsRecorded(ix.inFlight, c, s) && Enabled(ix, c, s, a) && Exact(ix)
    requires k in Effect(ix, c, a).inFlight && k.consumer == c
    ensures Recorded(Local(s, a), k.offset, Effect(ix, c, a).inFlight[k].attempt)
  {
    FlightsAfter(ix, c, s, a, k);
    if k in ix.inFlight && Effect(ix, c, a).inFlight[k] == ix.inFlight[k] {
      assert k == DeliveryKey(c, k.offset);
      LocalUpdateIsEvent(ix, c, s, a);
      ActionSparesFlights(ix, c, s, a, k.offset);
      SparedAttempt(s, EventOf(a), k.offset);
      if Acked(k.offset) in Touches(EventOf(a)) {
        AckedLeavesFlight(ix, c, s, a, k.offset);
      }
    } else if a.DeliverMany? {
      var i :| 0 <= i < |a.batch| && Effect(ix, c, a).inFlight[k] == a.batch[i].delivery;
      forall i, j | 0 <= i < j < |a.batch| ensures a.batch[i].delivery.offset != a.batch[j].delivery.offset {
        assert Apart(a.batch[i], a.batch[j]);
      }
      AssignAllRecords(s, a.batch, i);
    }
  }

  /** After a successful action every delivery in flight is recorded again. */
  lemma FlightsRecordedAfterAction(ix: Indexes, c: string, s: State, a: Action)
    requires WellFormed(s) && FlightsRecorded(ix.inFlight, c, s) && Enabled(ix, c, s, a) && Exact(ix)
    ensures FlightsRecorded(Effect(ix, c, a).inFlight, c, Local(s, a))
  {
    forall k | k in Effect(ix, c, a).inFlight && k.consumer == c
      ensures Recorded(Local(s, a), k.offset, Effect(ix, c, a).inFlight[k].attempt)
    {
      FlightRecordedAfterAction(ix, c, s, a, k);
    }
  }

  /** An action touches only the deliveries of its own consumer. */
  lemma EffectKeepsOtherConsumers(ix: Indexes, c: string, s: State, a: Action, k: DeliveryKey)
    requires Exact(ix) && Enabled(ix, c, s, a) && k.consumer != c
    ensures k in ix.inFlight <==> k in Effect(ix, c, a).inFlight
    ensures k in ix.inFlight ==> ix.inFlight[k] == Effect(ix, c, a).inFlight[k]
  {
    match a
    case DeliverMany(ps) =>
      CandidatesAreFree(ix, c, s, ps);
      InsertAllFlights(ix, c, ps);
    case AckMany(os) => RemoveAllRemoves(ix, KeysOf(c, os));
    case ScheduleExpired(_, ks) => RemoveAllRemoves(ix, ks);
    case _ =>
  }
}
