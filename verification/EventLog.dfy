/**
 A checkpoint and an append-only journal of newline-terminated events, for any state machine whose
 replay is idempotent (crates/runnel-core/src/consumer_state.rs:244-543; ConsumerJournal gives the
 consumer's own machine). The state machine is a parameter, so that what follows uses only its laws.

 The checkpoint is replaced atomically; appends may be torn. I/O failures are inputs: `LoadFault`
 and `PersistFault` name the call that fails, and a process that stops at some call leaves the same
 files as that call failing.
 */
module EventLog {
  import opened Prelude

  const NEWLINE: Byte := 10
  const MAX_JOURNAL_BYTES: nat := 1024 * 1024

  datatype Log<!S, !E, !X> = Log(
    encode: E -> seq<Byte>,
    decode: seq<Byte> -> Option<E>,
    isJson: seq<Byte> -> bool,   // is the text a complete JSON value?
    isBatch: E -> bool,
    problem: E -> Option<X>,     // why an event is refused
    apply: (S, E) -> S,
    check: S -> bool,            // the self-check at the end of a load
    good: S -> bool,             // the invariant of reachable states
    initial: S)                    // the state without a checkpoint

  // ---------------------------------------------------------------- assumptions

  /** Events round-trip, control characters are escaped inside strings (section 7 of RFC 8259), and
      no strict prefix of an object is a JSON text (section 4 of RFC 8259). */
  ghost predicate SoundCodec<S, E(!new), X>(l: Log<S, E, X>) {
    && (forall e :: l.decode(l.encode(e)) == Some(e))
    && (forall e :: NEWLINE !in l.encode(e))
    && (forall e, p :: p < l.encode(e) ==> !l.isJson(p))
  }

  predicate Accepted<S, E, X>(l: Log<S, E, X>, e: E) {
    l.problem(e).None?
  }

  ghost predicate AllAccepted<S, E(!new), X>(l: Log<S, E, X>, es: seq<E>) {
    forall e :: e in es ==> Accepted(l, e)
  }

  function Fold<S, E, X>(l: Log<S, E, X>, s: S, es: seq<E>): S
    decreases |es|
  {
    if es == [] then s else Fold(l, l.apply(s, es[0]), es[1..])
  }

  /** Accepted events keep the invariant, the invariant implies the self-check, and replaying
      accepted events over their own result changes nothing. */
  ghost predicate LawfulMachine<S(!new), E(!new), X>(l: Log<S, E, X>) {
    && l.good(l.initial)
    && (forall s, e :: l.good(s) && Accepted(l, e) ==> l.good(l.apply(s, e)))
    && (forall s :: l.good(s) ==> l.check(s))
    && (forall s, es {:trigger Fold(l, Fold(l, s, es), es)} ::
          l.good(s) && AllAccepted(l, es) ==> Fold(l, Fold(l, s, es), es) == Fold(l, s, es))
  }

  ghost predicate Lawful<S(!new), E(!new), X>(l: Log<S, E, X>) {
    SoundCodec(l) && LawfulMachine(l)
  }

  // ---------------------------------------------------------------- files and loading

  datatype Disk<S> = Disk(checkpoint: Option<S>, journal: Option<seq<Byte>>)

  function Base<S, E, X>(l: Log<S, E, X>, d: Disk<S>): S {
    if d.checkpoint.Some? then d.checkpoint.value else l.initial
  }

  function JournalBytes<S>(d: Disk<S>): seq<Byte> {
    if d.journal.Some? then d.journal.value else []
  }

  datatype LoadError<X> =
    | JournalTooLarge
    | UnsupportedRecord
    | MalformedRecord
    | Refused(problem: X)
    | Inconsistent
    | LoadIo

  function FirstNewline(b: seq<Byte>): (n: nat)
    ensures n <= |b|
  {
    if b == [] || b[0] == NEWLINE then 0 else 1 + FirstNewline(b[1..])
  }

  lemma {:induction false} FirstNewlineStops(b: seq<Byte>)
    ensures var n := FirstNewline(b); (forall i :: 0 <= i < n ==> b[i] != NEWLINE) && (n < |b| ==> b[n] == NEWLINE)
  {
    if b == [] || b[0] == NEWLINE {
    } else {
      FirstNewlineStops(b[1..]);
    }
  }

  datatype Split = Split(lines: seq<seq<Byte>>, tail: seq<Byte>)

  /** The complete lines of b, without their newlines, and what follows the last newline. */
  function SplitLines(b: seq<Byte>): (r: Split)
    ensures |r.tail| <= |b|
    decreases |b|
  {
    var n := FirstNewline(b);
    if n == |b| then Split([], b) else
    var rest := SplitLines(b[n + 1..]);
    Split([b[..n]] + rest.lines, rest.tail)
  }

  lemma {:induction false} SplitLinesUnfolds(b: seq<Byte>, n: nat)
    requires n == FirstNewline(b)
    ensures n == |b| ==> SplitLines(b) == Split([], b)
    ensures n < |b| ==>
              var rest := SplitLines(b[n + 1..]);
              SplitLines(b) == Split([b[..n]] + rest.lines, rest.tail)
  {
  }

  /** Replays complete lines over s. */
  function ReplayLines<S, E, X>(l: Log<S, E, X>, s: S, lines: seq<seq<Byte>>): Result<S, LoadError<X>>
    decreases |lines|
  {
    if lines == [] then Ok(s) else
    match l.decode(lines[0])
    case None => Err(MalformedRecord)
    case Some(e) =>
      match l.problem(e)
      case Some(problem) => Err(Refused(problem))
      case None => ReplayLines(l, l.apply(s, e), lines[1..])
  }

  /** A tail that is a complete JSON text but no event is an error; any other tail is ignored. */
  function ReplaySplit<S, E, X>(l: Log<S, E, X>, s: S, b: Split): Result<S, LoadError<X>> {
    match ReplayLines(l, s, b.lines)
    case Err(error) => Err(error)
    case Ok(t) =>
      if b.tail != [] && l.isJson(b.tail) && l.decode(b.tail).None? then Err(UnsupportedRecord) else Ok(t)
  }

  function Replay<S, E, X>(l: Log<S, E, X>, d: Disk<S>): Result<S, LoadError<X>> {
    if |JournalBytes(d)| > MAX_JOURNAL_BYTES then Err(JournalTooLarge)
    else ReplaySplit(l, Base(l, d), SplitLines(JournalBytes(d)))
  }

  datatype LoadFault = NoLoadFault | ReadFails | TruncateTailFails | SyncTailFails

  datatype Loaded<S, X> = Loaded(disk: Disk<S>, result: Result<S, LoadError<X>>)

  /** Loading: replay, cut the torn tail off the file, then the self-check. */
  function Load<S, E, X>(l: Log<S, E, X>, d: Disk<S>, fault: LoadFault): Loaded<S, X> {
    if fault.ReadFails? then Loaded(d, Err(LoadIo)) else
    match Replay(l, d)
    case Err(error) => Loaded(d, Err(error))
    case Ok(s) =>
      var b := JournalBytes(d);
      var tail := SplitLines(b).tail;
      if tail != [] && fault.TruncateTailFails? then Loaded(d, Err(LoadIo)) else
      var cut := if tail != [] then d.(journal := Some(b[..|b| - |tail|])) else d;
      if tail != [] && fault.SyncTailFails? then Loaded(cut, Err(LoadIo))
      else Loaded(cut, if l.check(s) then Ok(s) else Err(Inconsistent))
  }

  // ---------------------------------------------------------------- persisting

  datatype Stage = BeforeAppend | Append | Sync

  /** Batch events report the stage that failed; other events report the bare I/O error. */
  datatype PersistError = Staged(stage: Stage) | BareIo

  function Failure<S, E, X>(l: Log<S, E, X>, e: E, stage: Stage): Result<(), PersistError> {
    Err(if l.isBatch(e) then Staged(stage) else BareIo)
  }

  datatype PersistFault =
    | NoFault
    | MetadataFails
    | CheckpointFails
    | TruncateFails
    | TruncateSyncFails
    | OpenFails
    | AppendFails(written: nat)
    | SyncFails

  datatype Persisted<S> = Persisted(disk: Disk<S>, result: Result<(), PersistError>)

  datatype Compacted<S> = Compacted(disk: Disk<S>, done: bool)

  function Line<S, E, X>(l: Log<S, E, X>, e: E): seq<Byte> {
    l.encode(e) + [NEWLINE]
  }

  /** Publish the checkpoint, then truncate the journal. Truncation needs an existing file. */
  function Compact<S>(d: Disk<S>, current: S, fault: PersistFault): Compacted<S> {
    if fault.CheckpointFails? then Compacted(d, false) else
    var published := d.(checkpoint := Some(current));
    if d.journal.None? || fault.TruncateFails? then Compacted(published, false)
    else Compacted(published.(journal := Some([])), !fault.TruncateSyncFails?)
  }

  function AppendLine<S, E, X>(l: Log<S, E, X>, d: Disk<S>, e: E, fault: PersistFault): Persisted<S> {
    var before, line := JournalBytes(d), Line(l, e);
    match fault
    case AppendFails(k) =>
      Persisted(d.(journal := Some(before + line[..if k < |line| then k else |line|])), Failure(l, e, Append))
    case SyncFails => Persisted(d.(journal := Some(before + line)), Failure(l, e, Sync))
    case _ => Persisted(d.(journal := Some(before + line)), Ok(()))
  }

  /** Makes room for the event when the journal would exceed its bound. */
  function MakeRoom<S, E, X>(l: Log<S, E, X>, d: Disk<S>, current: S, e: E, fault: PersistFault): Compacted<S> {
    if |JournalBytes(d)| + |Line(l, e)| > MAX_JOURNAL_BYTES then Compact(d, current, fault) else Compacted(d, true)
  }

  /** Append one event, compacting first when needed. */
  function Persist<S, E, X>(l: Log<S, E, X>, d: Disk<S>, current: S, e: E, fault: PersistFault): Persisted<S> {
    if fault.MetadataFails? then Persisted(d, Failure(l, e, BeforeAppend)) else
    var ready := MakeRoom(l, d, current, e, fault);
    if !ready.done || fault.OpenFails? then Persisted(ready.disk, Failure(l, e, BeforeAppend))
    else AppendLine(l, ready.disk, e, fault)
  }

  // ---------------------------------------------------------------- what the files mean

  function Lines<S, E, X>(l: Log<S, E, X>, es: seq<E>): seq<Byte> {
    if es == [] then [] else Line(l, es[0]) + Lines(l, es[1..])
  }

  /** What a torn append can leave after the last newline: a prefix of some encoded event. */
  ghost predicate TornTail<S, E(!new), X>(l: Log<S, E, X>, tail: seq<Byte>) {
    tail == [] || exists e :: tail <= l.encode(e)
  }

  /** The files hold the events es over their checkpoint, followed by a torn tail. */
  ghost predicate Holds<S, E(!new), X>(l: Log<S, E, X>, d: Disk<S>, es: seq<E>, tail: seq<Byte>) {
    && l.good(Base(l, d))
    && AllAccepted(l, es)
    && TornTail(l, tail)
    && JournalBytes(d) == Lines(l, es) + tail
    && |JournalBytes(d)| <= MAX_JOURNAL_BYTES
  }

  /** The files stand for state s. */
  ghost predicate Durable<S, E(!new), X>(l: Log<S, E, X>, d: Disk<S>, s: S) {
    exists es, tail :: Holds(l, d, es, tail) && Fold(l, Base(l, d), es) == s
  }

  /** ... and the journal ends at a line boundary. */
  ghost predicate DurableClean<S, E(!new), X>(l: Log<S, E, X>, d: Disk<S>, s: S) {
    exists es :: Holds(l, d, es, []) && Fold(l, Base(l, d), es) == s
  }
}
