/** The mutable consumer state: methods that update the fields in place, each proved equal to the
    value-level function of ConsumerProgress. */
module ConsumerStateObject {
  import opened Prelude
  import opened ConsumerProgress
  import opened ProgressTheorems

  lemma RunExtend(s: State, ts: seq<Touch>, i: nat)
    requires i < |ts|
    ensures Run(s, ts[..i + 1]) == Apply(Run(s, ts[..i]), ts[i])
  {
    assert ts[..i + 1][..i] == ts[..i];
  }

  class ConsumerState {
    var committed: Offset
    var acked: set<Offset>
    var attempts: map<Offset, U32>
    var policy: Option<Policy>
    var policies: map<Offset, Policy>
    var retries: map<Offset, Schedule>

    function Value(): State
      reads this
    {
      State(committed, acked, attempts, policy, policies, retries)
    }

    constructor (s: State)
      ensures Value() == s
    {
      committed, acked, attempts := s.committed, s.acked, s.attempts;
      policy, policies, retries := s.policy, s.policies, s.retries;
    }

    method Acknowledge(offset: Offset)
      modifies this
      ensures Value() == Ack(old(Value()), offset)
    {
      if offset < committed || offset in acked {
        return;
      }
      attempts := attempts - {offset};
      policies := policies - {offset};
      retries := retries - {offset};
      if offset == committed {
        committed := committed + 1;
        while committed in acked
          invariant Drain(Value()) == Ack(old(Value()), offset)
          decreases |acked|
        {
          acked := acked - {committed};
          attempts := attempts - {committed};
          policies := policies - {committed};
          committed := committed + 1;
        }
      } else {
        acked := acked + {offset};
      }
    }

    method DeliverOne(d: Attempt)
      modifies this
      ensures Value() == Deliver(old(Value()), d)
    {
      if d.offset >= committed && d.offset !in acked {
        if d.offset in attempts {
          attempts := attempts[d.offset := Max(attempts[d.offset], d.attempt)];
        } else {
          attempts := attempts[d.offset := d.attempt];
        }
        retries := retries - {d.offset};
        if d.offset !in policies {
          policies := policies[d.offset := d.policy];
        }
      }
    }

    /** A refused event leaves the state unchanged; an accepted one performs its touches in order. */
    method ApplyOne(event: Event) returns (r: Result<(), EventError>)
      modifies this
      ensures r.Ok? <==> Accepted(event)
      ensures r.Ok? ==> ApplyEvent(old(Value()), event) == Ok(Value())
      ensures r.Err? ==> Value() == old(Value()) && Problem(event) == Some(r.error)
    {
      ghost var s0 := Value();
      ghost var ts := Touches(event);
      match event {
        case DeliveryAttempt(d) =>
          if d.attempt == 0 {
            return Err(ZeroAttempt);
          }
          RunExtend(s0, ts, 0);
          DeliverOne(d);
        case DeliveryAttempts(ds) =>
          if exists d :: d in ds && d.attempt == 0 {
            return Err(ZeroAttempt);
          }
          for i := 0 to |ds|
            invariant Value() == Run(s0, ts[..i])
          {
            RunExtend(s0, ts, i);
            DeliverOne(ds[i]);
          }
          assert ts[..|ds|] == ts;
        case RetrySchedules(rs) =>
          for i := 0 to |rs|
            invariant Value() == Run(s0, ts[..i])
          {
            RunExtend(s0, ts, i);
            var r := rs[i];
            if !(r.offset < committed || r.offset in acked || r.offset !in attempts) {
              if r.offset !in retries {
                retries := retries[r.offset := Schedule(r.notBeforeMs, r.key)];
              }
            }
          }
          assert ts[..|rs|] == ts;
        case Acknowledge(o) =>
          RunExtend(s0, ts, 0);
          Acknowledge(o);
        case AcknowledgeBatch(os) =>
          for i := 0 to |os|
            invariant Value() == Run(s0, ts[..i])
          {
            RunExtend(s0, ts, i);
            Acknowledge(os[i]);
          }
          assert ts[..|os|] == ts;
        case PolicyConfigured(p) =>
          var problem := PolicyProblem(p);
          if problem.Some? {
            return Err(problem.value);
          }
          RunExtend(s0, ts, 0);
          policy := Some(p);
      }
      return Ok(());
    }

    method Validate() returns (ok: bool)
      ensures ok <==> PassesValidate(Value())
    {
      var badAttempt := exists o :: o in attempts && (attempts[o] == 0 || o !in policies);
      var badPolicy := exists o :: o in policies && o !in attempts;
      var badRetry := exists o :: o in retries && o !in attempts;
      ok := !(badAttempt || badPolicy || badRetry);
    }

    /** The offsets and keys that must not be delivered yet: exactly those whose schedule is later
        than now. */
    method RetryFilter(nowMs: nat) returns (offsets: set<Offset>, keys: set<string>)
      ensures forall o :: o in offsets <==> o in retries && retries[o].notBeforeMs > nowMs
      ensures forall k :: k in keys <==> exists o :: o in offsets && o in retries && retries[o].key == Some(k)
    {
      offsets, keys := {}, {};
      var remaining := retries.Keys;
      while remaining != {}
        invariant remaining <= retries.Keys
        invariant forall o :: o in offsets <==> o in retries && o !in remaining && retries[o].notBeforeMs > nowMs
        invariant forall k :: k in keys <==> exists o :: o in offsets && o in retries && retries[o].key == Some(k)
        decreases |remaining|
      {
        var o :| o in remaining;
        remaining := remaining - {o};
        var schedule := retries[o];
        if schedule.notBeforeMs <= nowMs {
          continue;
        }
        ghost var before := offsets;
        offsets := offsets + {o};
        assert forall p :: p in before ==> p in offsets;
        if schedule.key.Some? {
          keys := keys + {schedule.key.value};
        }
      }
    }
  }
}
