/**
 What a load does with arbitrary files, and what a persist reports, stated over the bytes
 (crates/runnel-core/src/consumer_state.rs:244-268, 348-512): loads fail closed, and a failed persist names
 the stage that failed.
 */
module LoadSafety {
  import opened Prelude
  import opened EventLog
  import opened EventLogTheorems
  import opened ConsumerJournal
  import CP = ConsumerProgress

  // ---------------------------------------------------------------- bytes and lines

  /** Lines, each followed by a newline. */
  function Terminated(lines: seq<seq<Byte>>): seq<Byte> {
    if lines == [] then [] else lines[0] + [NEWLINE] + Terminated(lines[1..])
  }

  /** The bytes are these complete lines and this unterminated rest. */
  ghost predicate IsSplit(b: seq<Byte>, lines: seq<seq<Byte>>, tail: seq<Byte>) {
    && b == Terminated(lines) + tail && NEWLINE !in tail
    && forall i :: 0 <= i < |lines| ==> NEWLINE !in lines[i]
  }

  lemma SplitGrows(line: seq<Byte>, rest: seq<Byte>, lines: seq<seq<Byte>>, tail: seq<Byte>)
    requires NEWLINE !in line && IsSplit(rest, lines, tail)
    ensures IsSplit(line + [NEWLINE] + rest, [line] + lines, tail)
  {
    var all := [line] + lines;
    assert all[1..] == lines;
    assert line + [NEWLINE] + (Terminated(lines) + tail) == line + [NEWLINE] + Terminated(lines) + tail;
  }

  lemma Unsplit(b: seq<Byte>, n: nat)
    requires n < |b| && b[n] == NEWLINE
    ensures b == b[..n] + [NEWLINE] + b[n + 1..]
  {
  }

  lemma {:induction false} SplitExists(b: seq<Byte>)
    ensures IsSplit(b, SplitLines(b).lines, SplitLines(b).tail)
    decreases |b|
  {
    var n := FirstNewline(b);
    SplitLinesUnfolds(b, n);
    FirstNewlineStops(b);
    if n == |b| {
      assert b[..n] == b;
      assert IsSplit(b, [], b);
    } else {
      var line, rest := b[..n], b[n + 1..];
      SplitExists(rest);
      SplitGrows(line, rest, SplitLines(rest).lines, SplitLines(rest).tail);
      Unsplit(b, n);
    }
  }

  lemma SplitShrinks(b: seq<Byte>, lines: seq<seq<Byte>>, tail: seq<Byte>)
    requires IsSplit(b, lines, tail) && lines != []
    ensures var rest := Terminated(lines[1..]) + tail;
            b == lines[0] + [NEWLINE] + rest && IsSplit(rest, lines[1..], tail)
  {
    assert forall i :: 0 <= i < |lines[1..]| ==> lines[1..][i] == lines[i + 1];
  }

  lemma NoLines(tail: seq<Byte>)
    requires NEWLINE !in tail
    ensures SplitLines(tail) == Split([], tail)
  {
    FirstNewlineStops(tail);
  }

  lemma {:induction false} SplitIsUnique(b: seq<Byte>, lines: seq<seq<Byte>>, tail: seq<Byte>)
    requires IsSplit(b, lines, tail)
    ensures SplitLines(b) == Split(lines, tail)
    decreases |lines|
  {
    if lines == [] {
      assert b == tail;
      NoLines(tail);
    } else {
      var rest := Terminated(lines[1..]) + tail;
      SplitShrinks(b, lines, tail);
      SplitIsUnique(rest, lines[1..], tail);
      SplitOfLine(lines[0], rest);
      assert lines == [lines[0]] + lines[1..];
    }
  }

  // ---------------------------------------------------------------- loads

  predicate LineOk<S, E, X>(l: Log<S, E, X>, line: seq<Byte>) {
    l.decode(line).Some? && Accepted(l, l.decode(line).value)
  }

  ghost predicate LinesOk<S, E, X>(l: Log<S, E, X>, lines: seq<seq<Byte>>) {
    forall i :: 0 <= i < |lines| ==> LineOk(l, lines[i])
  }

  /** What may follow the last newline: nothing, a torn record, or a whole event. */
  predicate TailOk<S, E, X>(l: Log<S, E, X>, tail: seq<Byte>) {
    tail == [] || !l.isJson(tail) || l.decode(tail).Some?
  }

  /** The events the lines hold. */
  ghost function EventsIn<S, E, X>(l: Log<S, E, X>, lines: seq<seq<Byte>>): seq<E>
    requires LinesOk(l, lines)
  {
    seq(|lines|, i requires 0 <= i < |lines| => l.decode(lines[i]).value)
  }

  /** Why a line is refused. */
  ghost predicate RefusedAs<S, E, X>(l: Log<S, E, X>, line: seq<Byte>, error: LoadError<X>) {
    if l.decode(line).None? then error == MalformedRecord
    else l.problem(l.decode(line).value).Some? && error == Refused(l.problem(l.decode(line).value).value)
  }

  lemma {:induction false} GoodLinesFold<S, E, X>(l: Log<S, E, X>, s: S, lines: seq<seq<Byte>>)
    requires LinesOk(l, lines)
    ensures ReplayLines(l, s, lines) == Ok(Fold(l, s, EventsIn(l, lines)))
    decreases |lines|
  {
    if lines == [] {
    } else {
      assert LineOk(l, lines[0]);
      var es := EventsIn(l, lines);
      assert es[1..] == EventsIn(l, lines[1..]);
      GoodLinesFold(l, l.apply(s, es[0]), lines[1..]);
    }
  }

  lemma {:induction false} BadLineStops<S, E, X>(l: Log<S, E, X>, s: S, lines: seq<seq<Byte>>, i: nat)
    requires i < |lines| && !LineOk(l, lines[i]) && forall j :: 0 <= j < i ==> LineOk(l, lines[j])
    ensures ReplayLines(l, s, lines).Err? && RefusedAs(l, lines[i], ReplayLines(l, s, lines).error)
    decreases |lines|
  {
    if i == 0 {
    } else {
      assert LineOk(l, lines[0]);
      assert forall j :: 0 <= j < i - 1 ==> lines[1..][j] == lines[j + 1];
      BadLineStops(l, l.apply(s, l.decode(lines[0]).value), lines[1..], i - 1);
    }
  }

  lemma {:induction false} FirstBadLine<S, E, X>(l: Log<S, E, X>, lines: seq<seq<Byte>>) returns (i: nat)
    requires !LinesOk(l, lines)
    ensures i < |lines| && !LineOk(l, lines[i]) && forall j :: 0 <= j < i ==> LineOk(l, lines[j])
    decreases |lines|
  {
    var n := |lines| - 1;
    if LinesOk(l, lines[..n]) {
      i := n;
      assert forall j :: 0 <= j < n ==> lines[..n][j] == lines[j];
    } else {
      i := FirstBadLine(l, lines[..n]);
      assert forall j :: 0 <= j <= i ==> lines[..n][j] == lines[j];
    }
  }

  /** Loads fail closed. For any files within the bound, and without I/O failures: a load succeeds exactly
      if every line is an accepted event, the rest is empty, torn or a whole event, and the result passes
      the self-check. It then returns the events applied to the checkpoint and leaves exactly the lines.
      Otherwise it changes nothing, except that a failed self-check comes after a torn rest is cut off. */
  lemma LoadFailsClosed<S, E, X>(l: Log<S, E, X>, d: Disk<S>, lines: seq<seq<Byte>>, tail: seq<Byte>)
    requires |JournalBytes(d)| <= MAX_JOURNAL_BYTES && IsSplit(JournalBytes(d), lines, tail)
    ensures var loaded := Load(l, d, NoLoadFault);
            var cut := if tail == [] then d else d.(journal := Some(Terminated(lines)));
            if !LinesOk(l, lines) then loaded.disk == d && loaded.result.Err?
            else if !TailOk(l, tail) then loaded == Loaded(d, Err(UnsupportedRecord))
            else
              var s := Fold(l, Base(l, d), EventsIn(l, lines));
              loaded == Loaded(cut, if l.check(s) then Ok(s) else Err(Inconsistent))
  {
    var b := JournalBytes(d);
    SplitIsUnique(b, lines, tail);
    assert b[..|b| - |tail|] == Terminated(lines);
    if LinesOk(l, lines) {
      GoodLinesFold(l, Base(l, d), lines);
    } else {
      var i := FirstBadLine(l, lines);
      BadLineStops(l, Base(l, d), lines, i);
    }
  }

  /** The first line that is no accepted event decides the error. */
  lemma FirstBadLineIsReported<S, E, X>(l: Log<S, E, X>, d: Disk<S>, lines: seq<seq<Byte>>, tail: seq<Byte>, i: nat)
    requires |JournalBytes(d)| <= MAX_JOURNAL_BYTES && IsSplit(JournalBytes(d), lines, tail)
    requires i < |lines| && !LineOk(l, lines[i]) && forall j :: 0 <= j < i ==> LineOk(l, lines[j])
    ensures var loaded := Load(l, d, NoLoadFault);
            loaded.disk == d && loaded.result.Err? && RefusedAs(l, lines[i], loaded.result.error)
  {
    SplitIsUnique(JournalBytes(d), lines, tail);
    BadLineStops(l, Base(l, d), lines, i);
  }

  /** An I/O failure can only stop a load early: it reports that failure, and the files are as before or
      as the load without it leaves them. */
  lemma LoadFaultsOnlyStop<S, E, X>(l: Log<S, E, X>, d: Disk<S>, fault: LoadFault)
    ensures var loaded, whole := Load(l, d, fault), Load(l, d, NoLoadFault);
            && (loaded.result == whole.result || loaded.result == Err(LoadIo))
            && (loaded.disk == d || loaded.disk == whole.disk)
            && (loaded.result.Ok? ==> loaded == whole)
            && (fault.ReadFails? ==> loaded == Loaded(d, Err(LoadIo)))
  {
  }

  // ---------------------------------------------------------------- what a persist leaves and reports

  /** The files after a persist: appended to, or replaced by the checkpoint and the new bytes. */
  lemma PersistLeaves<S, E, X>(l: Log<S, E, X>, d: Disk<S>, s: S, e: E, fault: PersistFault)
    requires AppendReached(l, d, e, fault)
    ensures var p, text := Persist(l, d, s, e, fault), Line(l, e)[..BytesAppended(l, d, e, fault)];
            if |JournalBytes(d)| + |Line(l, e)| <= MAX_JOURNAL_BYTES
            then p.disk == Disk(d.checkpoint, Some(JournalBytes(d) + text))
            else p.disk == Disk(Some(s), Some(text))
  {
    assert Line(l, e)[..|Line(l, e)|] == Line(l, e);
    assert [] + Line(l, e)[..BytesAppended(l, d, e, fault)] == Line(l, e)[..BytesAppended(l, d, e, fault)];
  }

  /** The journal is as before, or empty after a compaction. */
  predicate NothingAppended<S>(d: Disk<S>, d': Disk<S>) {
    d'.journal == d.journal || d'.journal == Some([])
  }

  /** A failed persist of a batch event names its stage, and of a single event the bare I/O error. The stage
      before the append means that no byte of the event reached the file; the other two are exactly the
      calls that failed. */
  lemma PersistReports<S, E, X>(l: Log<S, E, X>, d: Disk<S>, s: S, e: E, fault: PersistFault)
    ensures var r := Persist(l, d, s, e, fault).result;
            && (r.Err? ==> (r.error.Staged? <==> l.isBatch(e)))
            && (r.Err? && l.isBatch(e) ==>
                  && (r.error.stage == BeforeAppend <==> !AppendReached(l, d, e, fault))
                  && (r.error.stage == Append <==> AppendReached(l, d, e, fault) && fault.AppendFails?)
                  && (r.error.stage == Sync <==> AppendReached(l, d, e, fault) && fault.SyncFails?))
            && (!AppendReached(l, d, e, fault) ==> r.Err? && NothingAppended(d, Persist(l, d, s, e, fault).disk))
  {
  }

  /** For the consumer's log: failures of batch events, and of no others, are staged. */
  lemma BatchFailuresAreStaged(codec: Codec, d: Disk<CP.State>, s: CP.State, e: CP.Event, fault: PersistFault)
    ensures var r := Persist(ConsumerLog(codec), d, s, e, fault).result;
            r.Err? ==> (r.error.Staged? <==> e.DeliveryAttempts? || e.RetrySchedules? || e.AcknowledgeBatch?)
  {
    PersistReports(ConsumerLog(codec), d, s, e, fault);
  }
}
