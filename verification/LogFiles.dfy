/** The file operations of one event log, step by step, proved equal to EventLog.Load and
    EventLog.Persist. */
module LogFiles {
  import opened Prelude
  import opened EventLog

  function ReplayNext<S, E, X>(l: Log<S, E, X>, s: S, line: seq<Byte>, rest: Split): Result<S, LoadError<X>> {
    match l.decode(line)
    case None => Err(MalformedRecord)
    case Some(e) =>
      match l.problem(e)
      case Some(problem) => Err(Refused(problem))
      case None => ReplaySplit(l, l.apply(s, e), rest)
  }

  lemma ReplayFirst<S, E, X>(l: Log<S, E, X>, s: S, line: seq<Byte>, rest: Split)
    ensures ReplaySplit(l, s, Split([line] + rest.lines, rest.tail)) == ReplayNext(l, s, line, rest)
  {
    assert ([line] + rest.lines)[1..] == rest.lines;
  }

  /** Replaying bytes that hold a newline is replaying their first line and then the bytes after it. */
  lemma ReplayFirstLine<S, E, X>(l: Log<S, E, X>, s: S, b: seq<Byte>, n: nat)
    requires n == FirstNewline(b) < |b|
    ensures ReplaySplit(l, s, SplitLines(b)) == ReplayNext(l, s, b[..n], SplitLines(b[n + 1..]))
    ensures SplitLines(b).tail == SplitLines(b[n + 1..]).tail
  {
    SplitLinesUnfolds(b, n);
    ReplayFirst(l, s, b[..n], SplitLines(b[n + 1..]));
  }

  class Files<S, E, X> {
    const log: Log<S, E, X>
    var checkpoint: Option<S>
    var journal: Option<seq<Byte>>

    function Contents(): Disk<S>
      reads this
    {
      Disk(checkpoint, journal)
    }

    constructor (log: Log<S, E, X>, disk: Disk<S>)
      ensures this.log == log && Contents() == disk
    {
      this.log := log;
      checkpoint, journal := disk.checkpoint, disk.journal;
    }

    /** Replays the journal line by line over the checkpoint state; also returns the number of bytes
        in complete lines. */
    method ReplayJournal(base: S) returns (r: Result<S, LoadError<X>>, valid: nat)
      requires base == Base(log, Contents())
      ensures r == Replay(log, Contents())
      ensures r.Ok? ==> valid + |SplitLines(JournalBytes(Contents())).tail| == |JournalBytes(Contents())|
    {
      valid := 0;
      if journal.None? {
        return Ok(base), 0;
      }
      var bytes := journal.value;
      if |bytes| > MAX_JOURNAL_BYTES {
        return Err(JournalTooLarge), 0;
      }
      var state := base;
      assert bytes[0..] == bytes;
      while valid < |bytes|
        invariant 0 <= valid <= |bytes|
        invariant ReplaySplit(log, state, SplitLines(bytes[valid..])) == Replay(log, Contents())
        invariant SplitLines(bytes[valid..]).tail == SplitLines(bytes).tail
        decreases |bytes| - valid
      {
        var rest := bytes[valid..];
        var n := FirstNewline(rest);
        if n == |rest| {
          if log.isJson(rest) && log.decode(rest).None? {
            return Err(UnsupportedRecord), valid;
          }
          break;
        }
        ReplayFirstLine(log, state, rest, n);
        var event := log.decode(rest[..n]);
        if event.None? {
          return Err(MalformedRecord), valid;
        }
        var problem := log.problem(event.value);
        if problem.Some? {
          return Err(Refused(problem.value)), valid;
        }
        assert rest[n + 1..] == bytes[valid + n + 1..];
        state := log.apply(state, event.value);
        valid := valid + n + 1;
      }
      return Ok(state), valid;
    }

    method TruncateJournal(length: nat, setLengthFails: bool, syncFails: bool) returns (ok: bool)
      requires journal.Some? ==> length <= |journal.value|
      modifies this`journal
      ensures ok <==> old(journal).Some? && !setLengthFails && !syncFails
      ensures journal == if old(journal).None? || setLengthFails then old(journal)
                         else Some(old(journal).value[..length])
    {
      if journal.None? || setLengthFails {
        return false;
      }
      journal := Some(journal.value[..length]);
      return !syncFails;
    }

    method LoadState(fault: LoadFault) returns (r: Result<S, LoadError<X>>)
      modifies this`journal
      ensures Loaded(Contents(), r) == Load(log, old(Contents()), fault)
    {
      if fault.ReadFails? {
        return Err(LoadIo);
      }
      var valid: nat;
      r, valid := ReplayJournal(if checkpoint.Some? then checkpoint.value else log.initial);
      if r.Err? {
        return;
      }
      if journal.Some? && valid != |journal.value| {
        var ok := TruncateJournal(valid, fault.TruncateTailFails?, fault.SyncTailFails?);
        if !ok {
          return Err(LoadIo);
        }
      }
      if !log.check(r.value) {
        return Err(Inconsistent);
      }
    }

    method PersistEvent(current: S, event: E, fault: PersistFault) returns (r: Result<(), PersistError>)
      modifies this
      ensures Persisted(Contents(), r) == Persist(log, old(Contents()), current, event, fault)
    {
      var encoded := log.encode(event) + [NEWLINE];
      if fault.MetadataFails? {
        return Failure(log, event, BeforeAppend);
      }
      var length := if journal.Some? then |journal.value| else 0;
      if length + |encoded| > MAX_JOURNAL_BYTES {
        if fault.CheckpointFails? {
          return Failure(log, event, BeforeAppend);
        }
        checkpoint := Some(current);
        var ok := TruncateJournal(0, fault.TruncateFails?, fault.TruncateSyncFails?);
        if !ok {
          return Failure(log, event, BeforeAppend);
        }
      }
      if fault.OpenFails? {
        return Failure(log, event, BeforeAppend);
      }
      if journal.None? {
        journal := Some([]);
      }
      if fault.AppendFails? {
        var written := if fault.written < |encoded| then fault.written else |encoded|;
        journal := Some(journal.value + encoded[..written]);
        return Failure(log, event, Append);
      }
      journal := Some(journal.value + encoded);
      if fault.SyncFails? {
        return Failure(log, event, Sync);
      }
      return Ok(());
    }
  }
}
