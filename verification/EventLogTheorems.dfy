/** Crash safety of a lawful event log: loading recovers exactly what was appended, appending is
    atomic under every fault, and the journal stays within its bound. */
module EventLogTheorems {
  import opened Prelude
  import opened EventLog

  // ---------------------------------------------------------------- recovery

  function Texts<S, E, X>(l: Log<S, E, X>, es: seq<E>): seq<seq<Byte>> {
    if es == [] then [] else [l.encode(es[0])] + Texts(l, es[1..])
  }

  lemma FirstNewlineOfLine(text: seq<Byte>, rest: seq<Byte>)
    requires NEWLINE !in text
    ensures FirstNewline(text + [NEWLINE] + rest) == |text|
  {
    var b := text + [NEWLINE] + rest;
    FirstNewlineStops(b);
    assert b[|text|] == NEWLINE;
    assert forall i :: 0 <= i < |text| ==> b[i] == text[i];
  }

  lemma SplitOfLine(text: seq<Byte>, rest: seq<Byte>)
    requires NEWLINE !in text
    ensures SplitLines(text + [NEWLINE] + rest) == Split([text] + SplitLines(rest).lines, SplitLines(rest).tail)
  {
    var b := text + [NEWLINE] + rest;
    FirstNewlineOfLine(text, rest);
    assert b[..|text|] == text && b[|text| + 1..] == rest;
  }

  /** Splitting is the inverse of writing lines. */
  lemma {:induction false} SplitOfLines<S, E(!new), X>(l: Log<S, E, X>, es: seq<E>, tail: seq<Byte>)
    requires SoundCodec(l) && NEWLINE !in tail
    ensures SplitLines(Lines(l, es) + tail) == Split(Texts(l, es), tail)
  {
    if es == [] {
      assert Lines(l, es) + tail == tail;
      FirstNewlineStops(tail);
    } else {
      var rest := Lines(l, es[1..]) + tail;
      assert Lines(l, es) + tail == l.encode(es[0]) + [NEWLINE] + rest;
      SplitOfLine(l.encode(es[0]), rest);
      SplitOfLines(l, es[1..], tail);
    }
  }

  lemma {:induction false} ReplayOfTexts<S, E(!new), X>(l: Log<S, E, X>, s: S, es: seq<E>)
    requires SoundCodec(l) && AllAccepted(l, es)
    ensures ReplayLines(l, s, Texts(l, es)) == Ok(Fold(l, s, es))
    decreases |es|
  {
    if es == [] {
    } else {
      assert Accepted(l, es[0]);
      ReplayOfTexts(l, l.apply(s, es[0]), es[1..]);
      assert Texts(l, es)[1..] == Texts(l, es[1..]);
    }
  }

  lemma TornTailIsHarmless<S, E(!new), X>(l: Log<S, E, X>, tail: seq<Byte>)
    requires SoundCodec(l) && TornTail(l, tail)
    ensures NEWLINE !in tail
    ensures tail != [] && l.isJson(tail) ==> l.decode(tail).Some?
  {
    if tail != [] {
      var e :| tail <= l.encode(e);
      assert forall i :: 0 <= i < |tail| ==> tail[i] == l.encode(e)[i];
      if tail != l.encode(e) {
        assert tail < l.encode(e);
      }
    }
  }

  lemma {:induction false} FoldIsGood<S(!new), E(!new), X>(l: Log<S, E, X>, s: S, es: seq<E>)
    requires LawfulMachine(l) && l.good(s) && AllAccepted(l, es)
    ensures l.good(Fold(l, s, es))
    decreases |es|
  {
    if es == [] {
    } else {
      assert Accepted(l, es[0]);
      FoldIsGood(l, l.apply(s, es[0]), es[1..]);
    }
  }

  lemma {:induction false} FoldAppend<S, E, X>(l: Log<S, E, X>, s: S, es: seq<E>, fs: seq<E>)
    ensures Fold(l, s, es + fs) == Fold(l, Fold(l, s, es), fs)
    decreases |es|
  {
    if es == [] {
      assert es + fs == fs;
    } else {
      assert (es + fs)[1..] == es[1..] + fs;
      FoldAppend(l, l.apply(s, es[0]), es[1..], fs);
    }
  }

  lemma ReplayRecovers<S, E(!new), X>(l: Log<S, E, X>, d: Disk<S>, es: seq<E>, tail: seq<Byte>)
    requires SoundCodec(l) && Holds(l, d, es, tail)
    ensures Replay(l, d) == Ok(Fold(l, Base(l, d), es))
    ensures SplitLines(JournalBytes(d)).tail == tail
  {
    TornTailIsHarmless(l, tail);
    SplitOfLines(l, es, tail);
    ReplayOfTexts(l, Base(l, d), es);
  }

  lemma CutTail<S, E(!new), X>(l: Log<S, E, X>, d: Disk<S>, es: seq<E>, tail: seq<Byte>)
    requires Holds(l, d, es, tail)
    ensures JournalBytes(d)[..|JournalBytes(d)| - |tail|] == Lines(l, es)
    ensures Holds(l, d.(journal := Some(Lines(l, es))), es, [])
  {
    assert JournalBytes(d)[..|JournalBytes(d)| - |tail|] == Lines(l, es);
    assert Lines(l, es) + [] == Lines(l, es);
  }

  /** A fault-free load succeeds, returns the state the files stand for, and leaves the journal equal
      to the encoding of exactly the events that were applied. */
  lemma LoadRecovers<S(!new), E(!new), X>(l: Log<S, E, X>, d: Disk<S>, es: seq<E>, tail: seq<Byte>)
    requires Lawful(l) && Holds(l, d, es, tail)
    ensures var loaded := Load(l, d, NoLoadFault);
            && loaded.result == Ok(Fold(l, Base(l, d), es))
            && loaded.disk.checkpoint == d.checkpoint
            && JournalBytes(loaded.disk) == Lines(l, es)
            && Holds(l, loaded.disk, es, [])
  {
    FoldIsGood(l, Base(l, d), es);
    ReplayRecovers(l, d, es, tail);
    CutTail(l, d, es, tail);
  }

  /** Loading never changes what the files stand for; without a fault it succeeds. */
  lemma LoadKeepsMeaning<S(!new), E(!new), X>(l: Log<S, E, X>, d: Disk<S>, s: S, fault: LoadFault)
    requires Lawful(l) && Durable(l, d, s)
    ensures var loaded := Load(l, d, fault);
            && Durable(l, loaded.disk, s)
            && (loaded.result.Ok? ==> loaded.result.value == s && DurableClean(l, loaded.disk, s))
            && (loaded.result.Err? ==> loaded.result.error == LoadIo && fault != NoLoadFault)
  {
    var es, tail :| Holds(l, d, es, tail) && Fold(l, Base(l, d), es) == s;
    LoadRecovers(l, d, es, tail);
    assert Load(l, d, fault).disk == d || Load(l, d, fault).disk == Load(l, d, NoLoadFault).disk;
  }

  /** The files stand for at most one state. */
  lemma DurableIsFunctional<S(!new), E(!new), X>(l: Log<S, E, X>, d: Disk<S>, s: S, t: S)
    requires Lawful(l) && Durable(l, d, s) && Durable(l, d, t)
    ensures s == t
  {
    LoadKeepsMeaning(l, d, s, NoLoadFault);
    LoadKeepsMeaning(l, d, t, NoLoadFault);
  }

  lemma DurableIsGood<S(!new), E(!new), X>(l: Log<S, E, X>, d: Disk<S>, s: S)
    requires Lawful(l) && Durable(l, d, s)
    ensures l.good(s)
  {
    var es, tail :| Holds(l, d, es, tail) && Fold(l, Base(l, d), es) == s;
    FoldIsGood(l, Base(l, d), es);
  }

  lemma CleanIsDurable<S, E(!new), X>(l: Log<S, E, X>, d: Disk<S>, s: S)
    requires DurableClean(l, d, s)
    ensures Durable(l, d, s)
  {
  }

  lemma EmptyDiskIsFresh<S(!new), E(!new), X>(l: Log<S, E, X>)
    requires Lawful(l)
    ensures DurableClean(l, Disk(None, None), l.initial)
  {
    var d: Disk<S> := Disk(None, None);
    assert Holds(l, d, [], []);
    assert Fold(l, Base(l, d), []) == l.initial;
  }

  // ---------------------------------------------------------------- persisting

  lemma {:induction false} LinesAppend<S, E, X>(l: Log<S, E, X>, es: seq<E>, e: E)
    ensures Lines(l, es + [e]) == Lines(l, es) + Line(l, e)
  {
    if es == [] {
      assert es + [e] == [e];
      assert Lines(l, [e]) == Line(l, e) + Lines(l, [e][1..]);
    } else {
      assert (es + [e])[1..] == es[1..] + [e];
      LinesAppend(l, es[1..], e);
    }
  }

  lemma AppendedTornLine<S, E(!new), X>(l: Log<S, E, X>, d: Disk<S>, s: S, e: E, k: nat)
    requires DurableClean(l, d, s) && k < |Line(l, e)|
    requires |JournalBytes(d)| + k <= MAX_JOURNAL_BYTES
    ensures Durable(l, d.(journal := Some(JournalBytes(d) + Line(l, e)[..k])), s)
  {
    var es :| Holds(l, d, es, []) && Fold(l, Base(l, d), es) == s;
    var torn := Line(l, e)[..k];
    assert torn == l.encode(e)[..k];
    assert torn <= l.encode(e);
    assert Holds(l, d.(journal := Some(JournalBytes(d) + torn)), es, torn);
  }

  lemma FoldExtended<S, E, X>(l: Log<S, E, X>, s: S, es: seq<E>, e: E)
    ensures Fold(l, s, es + [e]) == l.apply(Fold(l, s, es), e)
  {
    FoldAppend(l, s, es, [e]);
    assert [e][1..] == [];
  }

  lemma HoldsExtended<S, E(!new), X>(l: Log<S, E, X>, d: Disk<S>, es: seq<E>, e: E)
    requires Holds(l, d, es, []) && Accepted(l, e) && |JournalBytes(d)| + |Line(l, e)| <= MAX_JOURNAL_BYTES
    ensures Holds(l, d.(journal := Some(JournalBytes(d) + Line(l, e))), es + [e], [])
  {
    assert JournalBytes(d) == Lines(l, es);
    assert JournalBytes(d) + Line(l, e) == Lines(l, es + [e]) + [] by {
      LinesAppend(l, es, e);
    }
  }

  lemma AppendedLine<S, E(!new), X>(l: Log<S, E, X>, d: Disk<S>, s: S, e: E)
    requires DurableClean(l, d, s) && Accepted(l, e)
    requires |JournalBytes(d)| + |Line(l, e)| <= MAX_JOURNAL_BYTES
    ensures DurableClean(l, d.(journal := Some(JournalBytes(d) + Line(l, e))), l.apply(s, e))
  {
    var es :| Holds(l, d, es, []) && Fold(l, Base(l, d), es) == s;
    HoldsExtended(l, d, es, e);
    FoldExtended(l, Base(l, d), es, e);
  }

  /** A compaction of files that stand for s, stopped anywhere, still stands for s. */
  lemma CompactKeepsMeaning<S(!new), E(!new), X>(l: Log<S, E, X>, d: Disk<S>, s: S, fault: PersistFault)
    requires Lawful(l) && DurableClean(l, d, s)
    ensures var r := Compact(d, s, fault);
            DurableClean(l, r.disk, s) && (r.done ==> JournalBytes(r.disk) == [])
  {
    var es :| Holds(l, d, es, []) && Fold(l, Base(l, d), es) == s;
    FoldIsGood(l, Base(l, d), es);
    var published := d.(checkpoint := Some(s));
    assert Holds(l, published, es, []) && Fold(l, s, es) == s;
    var empty := published.(journal := Some([]));
    assert Holds(l, empty, [], []) && Fold(l, Base(l, empty), []) == s;
  }

  /** The append is reached: no earlier call fails. Compaction fails without a journal file. */
  predicate AppendReached<S, E, X>(l: Log<S, E, X>, d: Disk<S>, e: E, fault: PersistFault) {
    && !fault.MetadataFails? && !fault.OpenFails?
    && (|JournalBytes(d)| + |Line(l, e)| > MAX_JOURNAL_BYTES ==>
          d.journal.Some? && !fault.CheckpointFails? && !fault.TruncateFails? && !fault.TruncateSyncFails?)
  }

  /** How many bytes of the event line reach the file. */
  function BytesAppended<S, E, X>(l: Log<S, E, X>, d: Disk<S>, e: E, fault: PersistFault): nat {
    if !AppendReached(l, d, e, fault) then 0
    else if fault.AppendFails? && fault.written < |Line(l, e)| then fault.written
    else |Line(l, e)|
  }

  /** Whether the event line reaches the file completely. */
  predicate LineWritten<S, E, X>(l: Log<S, E, X>, d: Disk<S>, e: E, fault: PersistFault) {
    BytesAppended(l, d, e, fault) == |Line(l, e)|
  }

  /** The append alone exceeds the journal bound: only an event whose line is longer than the bound
      can do that, and only if a journal file exists. */
  predicate Overflows<S, E, X>(l: Log<S, E, X>, d: Disk<S>, e: E, fault: PersistFault) {
    BytesAppended(l, d, e, fault) > MAX_JOURNAL_BYTES
  }

  lemma OverflowNeedsLongLine<S, E, X>(l: Log<S, E, X>, d: Disk<S>, e: E, fault: PersistFault)
    ensures Overflows(l, d, e, fault) ==> |Line(l, e)| > MAX_JOURNAL_BYTES && d.journal.Some?
    ensures Overflows(l, d, e, NoFault) <==> |Line(l, e)| > MAX_JOURNAL_BYTES && d.journal.Some?
  {
  }

  /** A journal past its bound is refused by every load, which leaves the files alone. */
  lemma OverflownIsRefused<S, E, X>(l: Log<S, E, X>, d: Disk<S>, fault: LoadFault)
    requires |JournalBytes(d)| > MAX_JOURNAL_BYTES
    ensures Load(l, d, fault) == Loaded(d, Err(if fault.ReadFails? then LoadIo else JournalTooLarge))
  {
  }

  /** A torn append: the event counts exactly if its newline is in the file. */
  lemma AppendIsAtomic<S(!new), E(!new), X>(l: Log<S, E, X>, d: Disk<S>, s: S, e: E, fault: PersistFault)
    requires DurableClean(l, d, s) && Accepted(l, e)
    ensures var p := AppendLine(l, d, e, fault);
            var written := if fault.AppendFails? && fault.written < |Line(l, e)| then fault.written else |Line(l, e)|;
            && |JournalBytes(p.disk)| == |JournalBytes(d)| + written
            && (|JournalBytes(p.disk)| <= MAX_JOURNAL_BYTES ==>
                  if written == |Line(l, e)| then DurableClean(l, p.disk, l.apply(s, e))
                  else Durable(l, p.disk, s))
  {
    var line := Line(l, e);
    assert line[..|line|] == line;
    if fault.AppendFails? && fault.written < |line| {
      if |JournalBytes(d)| + fault.written <= MAX_JOURNAL_BYTES {
        AppendedTornLine(l, d, s, e, fault.written);
      }
    } else if |JournalBytes(d)| + |line| <= MAX_JOURNAL_BYTES {
      AppendedLine(l, d, s, e);
    }
  }

  /** Making room keeps the meaning of the files, even when it fails; when it succeeds the line fits, or
      the journal is empty and the line alone is too long. */
  lemma MakeRoomKeepsMeaning<S(!new), E(!new), X>(l: Log<S, E, X>, d: Disk<S>, s: S, e: E, fault: PersistFault)
    requires Lawful(l) && DurableClean(l, d, s)
    ensures var ready := MakeRoom(l, d, s, e, fault);
            && DurableClean(l, ready.disk, s)
            && |JournalBytes(ready.disk)| <= MAX_JOURNAL_BYTES
            && (ready.done ==>
                  || |JournalBytes(ready.disk)| + |Line(l, e)| <= MAX_JOURNAL_BYTES
                  || (JournalBytes(ready.disk) == [] && |Line(l, e)| > MAX_JOURNAL_BYTES))
            && (AppendReached(l, d, e, fault) <==> ready.done && !fault.MetadataFails? && !fault.OpenFails?)
  {
    if |JournalBytes(d)| + |Line(l, e)| > MAX_JOURNAL_BYTES {
      CompactKeepsMeaning(l, d, s, fault);
    }
  }

  lemma CleanIsBounded<S, E(!new), X>(l: Log<S, E, X>, d: Disk<S>, s: S)
    requires DurableClean(l, d, s)
    ensures |JournalBytes(d)| <= MAX_JOURNAL_BYTES
  {
  }

  /** Persisting any accepted event under any fault: it reports success exactly when no call fails; the
      journal stays within its bound exactly when the append alone does; and then the files stand for
      the state after the event exactly if its line was written, and otherwise for the state before it. */
  lemma PersistIsAtomic<S(!new), E(!new), X>(l: Log<S, E, X>, d: Disk<S>, s: S, e: E, fault: PersistFault)
    requires Lawful(l) && DurableClean(l, d, s) && Accepted(l, e)
    ensures var p := Persist(l, d, s, e, fault);
            && (p.result.Ok? <==> AppendReached(l, d, e, fault) && !fault.AppendFails? && !fault.SyncFails?)
            && (|JournalBytes(p.disk)| <= MAX_JOURNAL_BYTES <==> !Overflows(l, d, e, fault))
            && (!Overflows(l, d, e, fault) ==>
                  if LineWritten(l, d, e, fault) then DurableClean(l, p.disk, l.apply(s, e)) else Durable(l, p.disk, s))
  {
    MakeRoomKeepsMeaning(l, d, s, e, fault);
    var ready := MakeRoom(l, d, s, e, fault);
    CleanIsDurable(l, d, s);
    CleanIsDurable(l, ready.disk, s);
    CleanIsBounded(l, d, s);
    if AppendReached(l, d, e, fault) {
      AppendIsAtomic(l, ready.disk, s, e, fault);
    }
  }

  /** What a load finds after a persist that any fault, or a stop of the process, interrupted: an error
      exactly if the journal overflowed, and otherwise exactly the state before or after the event. */
  lemma PersistThenLoad<S(!new), E(!new), X>(l: Log<S, E, X>, d: Disk<S>, s: S, e: E, fault: PersistFault)
    requires Lawful(l) && DurableClean(l, d, s) && Accepted(l, e)
    ensures Load(l, Persist(l, d, s, e, fault).disk, NoLoadFault).result ==
            if Overflows(l, d, e, fault) then Err(JournalTooLarge)
            else Ok(if LineWritten(l, d, e, fault) then l.apply(s, e) else s)
  {
    var p := Persist(l, d, s, e, fault);
    PersistIsAtomic(l, d, s, e, fault);
    if Overflows(l, d, e, fault) {
      OverflownIsRefused(l, p.disk, NoLoadFault);
    } else if LineWritten(l, d, e, fault) {
      CleanIsDurable(l, p.disk, l.apply(s, e));
      LoadKeepsMeaning(l, p.disk, l.apply(s, e), NoLoadFault);
    } else {
      LoadKeepsMeaning(l, p.disk, s, NoLoadFault);
    }
  }

  /** The bound matters exactly for an event that alone exceeds it. With a journal file the append
      then succeeds and every later load fails; without one the compaction fails and the state is kept. */
  lemma OversizedEventIsLostExactlyWhen<S(!new), E(!new), X>(l: Log<S, E, X>, d: Disk<S>, s: S, e: E)
    requires Lawful(l) && DurableClean(l, d, s) && Accepted(l, e)
    ensures var p := Persist(l, d, s, e, NoFault);
            && (p.result.Ok? <==> |Line(l, e)| <= MAX_JOURNAL_BYTES || d.journal.Some?)
            && (Load(l, p.disk, NoLoadFault).result.Ok? <==> |Line(l, e)| <= MAX_JOURNAL_BYTES || d.journal.None?)
  {
    PersistIsAtomic(l, d, s, e, NoFault);
    PersistThenLoad(l, d, s, e, NoFault);
    OverflowNeedsLongLine(l, d, e, NoFault);
  }

  /** From files past the bound, persisting over a known state compacts first. It either leaves them past
      the bound, or they stand for the state before or after the event again. */
  lemma PersistRepairs<S(!new), E(!new), X>(l: Log<S, E, X>, d: Disk<S>, s: S, e: E, fault: PersistFault)
    requires Lawful(l) && l.good(s) && Accepted(l, e) && |JournalBytes(d)| > MAX_JOURNAL_BYTES
    ensures var p := Persist(l, d, s, e, fault);
            || |JournalBytes(p.disk)| > MAX_JOURNAL_BYTES
            || (if p.result.Ok? then DurableClean(l, p.disk, l.apply(s, e))
                else Durable(l, p.disk, s) || Durable(l, p.disk, l.apply(s, e)))
  {
    var p := Persist(l, d, s, e, fault);
    var empty := Disk(Some(s), Some([]));
    assert DurableClean(l, empty, s) by {
      assert Holds(l, empty, [], []) && Fold(l, Base(l, empty), []) == s;
    }
    CleanIsDurable(l, empty, s);
    var ready := MakeRoom(l, d, s, e, fault);
    if ready.done && !fault.MetadataFails? && !fault.OpenFails? {
      assert ready.disk == empty;
      AppendIsAtomic(l, empty, s, e, fault);
      if |JournalBytes(p.disk)| <= MAX_JOURNAL_BYTES && !(fault.AppendFails? && fault.written < |Line(l, e)|) {
        CleanIsDurable(l, p.disk, l.apply(s, e));
      }
    }
  }
}
