/** The consumer's event log: ConsumerProgress as the state machine of an EventLog. */
module ConsumerJournal {
  import opened Prelude
  import CP = ConsumerProgress
  import PT = ProgressTheorems
  import EL = EventLog

  /** The event serializer. */
  datatype Codec = Codec(
    encode: CP.Event -> seq<Byte>,
    decode: seq<Byte> -> Option<CP.Event>,
    isJson: seq<Byte> -> bool)

  function After(s: CP.State, e: CP.Event): CP.State {
    CP.Run(s, CP.Touches(e))
  }

  predicate IsBatch(e: CP.Event) {
    e.DeliveryAttempts? || e.RetrySchedules? || e.AcknowledgeBatch?
  }

  function ConsumerLog(c: Codec): EL.Log<CP.State, CP.Event, CP.EventError> {
    EL.Log(c.encode, c.decode, c.isJson, IsBatch, CP.Problem, After, CP.PassesValidate, CP.WellFormed, CP.Empty)
  }

  lemma {:induction false} FoldIsReplay(c: Codec, s: CP.State, es: seq<CP.Event>)
    requires EL.AllAccepted(ConsumerLog(c), es)
    ensures CP.ApplyEvents(s, es) == Ok(EL.Fold(ConsumerLog(c), s, es))
    decreases |es|
  {
    if es == [] {
    } else {
      assert EL.Accepted(ConsumerLog(c), es[0]);
      FoldIsReplay(c, After(s, es[0]), es[1..]);
    }
  }

  lemma AfterIsGood(s: CP.State, e: CP.Event)
    requires CP.WellFormed(s) && CP.Accepted(e)
    ensures CP.WellFormed(After(s, e))
  {
    PT.AcceptedTouchesAreGood(e);
    PT.RunKeepsSlots(s, CP.Touches(e));
  }

  /** The consumer state machine meets the laws an event log needs; in particular its replay is
      idempotent. */
  lemma ConsumerLogIsLawful(c: Codec)
    ensures EL.LawfulMachine(ConsumerLog(c))
  {
    var l := ConsumerLog(c);
    forall s, e | l.good(s) && EL.Accepted(l, e) ensures l.good(l.apply(s, e)) {
      AfterIsGood(s, e);
    }
    forall s, es | l.good(s) && EL.AllAccepted(l, es)
      ensures EL.Fold(l, EL.Fold(l, s, es), es) == EL.Fold(l, s, es)
    {
      FoldIsReplay(c, s, es);
      FoldIsReplay(c, EL.Fold(l, s, es), es);
      PT.CrashSafeCompaction(s, es, []);
    }
  }
}
