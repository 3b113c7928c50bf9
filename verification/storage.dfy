/** The shared map, its dirty flag and the publishing worker, as interleaved steps with a stop anywhere. */
module Storage {
  import opened Bytes
  import opened KVFile
  import opened AtomicMap
  import Publishing

  /** Where the single worker stands in `UpdateFile`. `seen`: the writes whose flag store came before its flag read. */
  datatype Worker =
    | Sleeping
    | SawFlag(seen: set<nat>)
    | Copied(seen: set<nat>, version: nat, text: bytes)
    | Publishing(seen: set<nat>, version: nat)

  /** `log` numbers what `Get` and `Set` do to the map in lock order; `flagged` are the writes whose flag store is
      done; `version` is the place in the log at which the last published snapshot was taken. */
  datatype Store = Store(
    m: Dict, dirty: bool, up: bool, worker: Worker, file: Publishing.Publisher,
    log: seq<Op>, flagged: set<nat>, version: nat)

  datatype Event =
    | Load
    | Access(op: Op)
    | RaiseFlag(i: nat)
    | ReadFlag
    | Copy(order: seq<bytes>)
    | File(e: Publishing.FileEvent)

  ghost predicate Enabled(s: Store, e: Event) {
    && !s.file.stage.Stopped?
    && match e
       case Load => !s.up && s.file.disk.current.Some?
       case Access(_) => s.up
       case RaiseFlag(i) => i < |s.log| && s.log[i].Put? && i !in s.flagged
       case ReadFlag => s.worker.Sleeping?
       case Copy(order) => s.worker.SawFlag? && Enumerates(order, s.m)
       case File(e) =>
         && Publishing.Enabled(s.file, e)
         && (e.Stop? || (if e.Open? then s.worker.Copied? && e.text == s.worker.text else s.worker.Publishing?))
  }

  ghost function Next(s: Store, e: Event): Store
    requires Enabled(s, e)
  {
    match e
    case Load => s.(m := Loaded(s.m, s.file.disk.current.value), up := true)
    case Access(op) => s.(m := Apply(s.m, op), log := s.log + [op])
    case RaiseFlag(i) => s.(dirty := true, flagged := s.flagged + {i})
    case ReadFlag => if s.dirty then s.(worker := SawFlag(s.flagged)) else s
    case Copy(order) => s.(worker := Copied(s.worker.seen, |s.log|, Stored(order, s.m)))
    case File(e) =>
      var file := Publishing.Next(s.file, e);
      var worker :=
        if e.Stop? then s.worker
        else if e.Open? && e.ok then Publishing(s.worker.seen, s.worker.version)
        else if file.stage.Idle? then Sleeping
        else s.worker;
      s.(file := file, worker := worker, version := if e.MoveIn? && e.ok then s.worker.version else s.version)
  }

  ghost predicate ValidRun(s: Store, events: seq<Event>)
    decreases |events|, 0
  {
    events == [] ||
    (var before := events[..|events| - 1];
     ValidRun(s, before) && Enabled(Run(s, before), events[|events| - 1]))
  }

  ghost function Run(s: Store, events: seq<Event>): Store
    requires ValidRun(s, events)
    decreases |events|, 1
  {
    if events == [] then s else Next(Run(s, events[..|events| - 1]), events[|events| - 1])
  }

  /** The process as it starts on a file `F` holding `text`, whatever `F.old` and `F.new` hold. */
  function Start(text: bytes, leftOver: Option<bytes>, draft: Option<bytes>): Store {
    Store(map[], false, false, Sleeping,
          Publishing.Publisher(Publishing.Disk(Some(text), leftOver, draft), Publishing.Idle, text), [], {}, 0)
  }

  /** The text form can carry what is written. */
  ghost predicate Storable(log: seq<Op>) {
    forall op <- log :: op.Put? ==> SPACE !in op.key && NEWLINE !in op.key && NEWLINE !in op.value
  }

  /** `text` is a faithful copy of what the logged writes made of `base`. */
  ghost predicate Saves(text: bytes, base: Dict, log: seq<Op>) {
    Storable(log) ==> Loaded(map[], text) == Replay(base, log)
  }

  ghost predicate TextOfStage(stage: Publishing.Stage, base: Dict, log: seq<Op>) {
    match stage
    case Writing(text, _) => Saves(text, base, log)
    case Ready(text) => Saves(text, base, log)
    case Away(text) => Saves(text, base, log)
    case _ => true
  }

  ghost predicate WorkerInv(s: Store, base: Dict) {
    match s.worker
    case Sleeping => s.file.stage.Idle? || s.file.stage.Stopped?
    case SawFlag(seen) =>
      (s.file.stage.Idle? || s.file.stage.Stopped?) && seen <= s.flagged && s.up
    case Copied(seen, version, text) =>
      && (s.file.stage.Idle? || s.file.stage.Stopped?)
      && s.version <= version <= |s.log|
      && (forall i <- seen :: i < version)
      && Saves(text, base, s.log[..version])
    case Publishing(seen, version) =>
      && !s.file.stage.Idle?
      && s.version <= version <= |s.log|
      && (forall i <- seen :: i < version)
      && TextOfStage(s.file.stage, base, s.log[..version])
      && (s.file.stage.Placed? ==> s.version == version)
  }

  ghost predicate Inv(s: Store, base: Dict) {
    && KeysSplit(base) && NewlineFree(base)
    && Publishing.Safe(s.file)
    && (if s.up then s.m == Replay(base, s.log)
        else s.m == map[] && s.log == [] && s.worker.Sleeping? && s.file.disk.current.Some?)
    && (forall i <- s.flagged :: i < |s.log| && s.log[i].Put?)
    && (s.dirty <==> s.flagged != {})
    && (!s.worker.Sleeping? ==> s.dirty)
    && s.version <= |s.log|
    && Saves(s.file.published, base, s.log[..s.version])
    && WorkerInv(s, base)
  }

  lemma {:induction false} ReplayClean(base: Dict, log: seq<Op>)
    requires KeysSplit(base)
    ensures (forall op <- log :: op.Put? ==> SPACE !in op.key) ==> KeysSplit(Replay(base, log))
    ensures NewlineFree(base) && Storable(log) ==> NewlineFree(Replay(base, log))
  {
    if log != [] {
      ReplayClean(base, log[..|log| - 1]);
      assert log[|log| - 1] in log;
    }
  }

  lemma SnapshotSaves(base: Dict, log: seq<Op>, order: seq<bytes>)
    requires KeysSplit(base) && NewlineFree(base)
    requires Enumerates(order, Replay(base, log))
    ensures Saves(Stored(order, Replay(base, log)), base, log)
  {
    ReplayClean(base, log);
    StoreLoadRoundTrip(Replay(base, log), order);
  }

  lemma AccessKeeps(s: Store, op: Op, base: Dict)
    requires Inv(s, base) && Enabled(s, Access(op))
    ensures Inv(Next(s, Access(op)), base)
  {
    var log := s.log + [op];
    assert log[..|log| - 1] == s.log;
    assert log[..s.version] == s.log[..s.version];
    if s.worker.Copied? || s.worker.Publishing? {
      assert log[..s.worker.version] == s.log[..s.worker.version];
    }
  }

  lemma FileKeeps(s: Store, e: Publishing.FileEvent, base: Dict)
    requires Inv(s, base) && Enabled(s, File(e))
    ensures Inv(Next(s, File(e)), base)
  {
    Publishing.StepSafe(s.file, e);
  }

  lemma StepKeeps(s: Store, e: Event, base: Dict)
    requires Inv(s, base) && Enabled(s, e)
    ensures Inv(Next(s, e), base)
  {
    match e
    case Load =>
      assert s.log[..s.version] == [];
    case Access(op) => AccessKeeps(s, op, base);
    case Copy(order) =>
      SnapshotSaves(base, s.log, order);
      assert s.log[..|s.log|] == s.log;
    case File(f) => FileKeeps(s, f, base);
    case RaiseFlag(i) =>
    case ReadFlag =>
  }

  /** The storage invariant, over every run from a file that could be loaded. */
  lemma {:induction false} RunKeeps(s: Store, events: seq<Event>, base: Dict)
    requires Inv(s, base) && ValidRun(s, events)
    ensures Inv(Run(s, events), base)
    decreases |events|
  {
    if events != [] {
      RunKeeps(s, events[..|events| - 1], base);
      StepKeeps(Run(s, events[..|events| - 1]), events[|events| - 1], base);
    }
  }

  lemma {:induction false} StartKeeps(text: bytes, leftOver: Option<bytes>, draft: Option<bytes>)
    ensures Inv(Start(text, leftOver, draft), Loaded(map[], text))
  {
    LoadedIsClean(map[], Lines(text));
  }

  /** Nothing holds the machine back: accesses, flag stores and a stop may come at any time ... */
  lemma AnyAccess(s: Store, op: Op, i: nat)
    requires !s.file.stage.Stopped?
    ensures Enabled(s, File(Publishing.Stop))
    ensures s.up ==> Enabled(s, Access(op))
    ensures i < |s.log| && s.log[i].Put? && i !in s.flagged ==> Enabled(s, RaiseFlag(i))
    ensures s.worker.Sleeping? ==> Enabled(s, ReadFlag)
    ensures s.worker.Copied? && s.file.stage.Idle? ==> forall ok :: Enabled(s, File(Publishing.Open(s.worker.text, ok)))
  {
  }

  /** ... and every file operation of the update under way may succeed or fail, except that a missing `F` cannot be
      moved. */
  lemma AnyOutcome(s: Store, base: Dict, n: nat, ok: bool)
    requires Inv(s, base) && !s.file.stage.Stopped? && !s.file.stage.Idle?
    ensures match s.file.stage
            case Writing(text, written) =>
              if n < |text| - written then Enabled(s, File(Publishing.Append(n + 1)))
              else written == |text| ==> Enabled(s, File(Publishing.Close))
            case Ready(_) => Enabled(s, File(Publishing.MoveAway(ok && s.file.disk.current.Some?)))
            case Away(_) => Enabled(s, File(Publishing.MoveIn(ok)))
            case Placed => Enabled(s, File(Publishing.Unlink(ok)))
  {
    assert s.worker.Publishing?;
  }

  lemma StepLog(s: Store, e: Event, v: nat, base: Dict)
    requires Inv(s, base) && Enabled(s, e) && v < |Next(s, e).log|
    ensures s.up && v <= |s.log| && Next(s, e).log[..v] == s.log[..v]
  {
  }

  lemma LogBefore(s: Store, events: seq<Event>, v: nat, base: Dict)
    requires Inv(s, base) && ValidRun(s, events)
    requires |s.log| <= v < |Run(s, events).log|
    ensures events != []
    ensures var t := Run(s, events[..|events| - 1]);
            t.up && v <= |t.log| && t.log[..v] == Run(s, events).log[..v]
  {
    var before := events[..|events| - 1];
    RunKeeps(s, before, base);
    StepLog(Run(s, before), events[|events| - 1], v, base);
  }

  /** There was a moment of the run at which exactly the first `v` writes had been made. */
  lemma {:induction false} MomentOf(s: Store, events: seq<Event>, v: nat, base: Dict) returns (j: nat)
    requires Inv(s, base) && ValidRun(s, events)
    requires |s.log| <= v <= |Run(s, events).log| && Run(s, events).up
    ensures j <= |events| && ValidRun(s, events[..j])
    ensures Run(s, events[..j]).up && Run(s, events[..j]).log == Run(s, events).log[..v]
    decreases |events|
  {
    var t := Run(s, events);
    if v == |t.log| {
      j := |events|;
      assert events[..j] == events && t.log[..v] == t.log;
    } else {
      LogBefore(s, events, v, base);
      var before := events[..|events| - 1];
      j := MomentOf(s, before, v, base);
      assert before[..j] == events[..j];
    }
  }

  /** Recovery: at every point of every run whose writes the text form can carry, a stopped process leaves a file
      (`F`, or `F.old` while `F` is missing) that loads to the in-memory map of an earlier moment: the one
      snapshot that the last successful update published. */
  lemma Recovery(text: bytes, leftOver: Option<bytes>, draft: Option<bytes>, events: seq<Event>) returns (j: nat)
    requires ValidRun(Start(text, leftOver, draft), events)
    requires Run(Start(text, leftOver, draft), events).up
    requires Storable(Run(Start(text, leftOver, draft), events).log)
    ensures var start := Start(text, leftOver, draft);
            var t := Run(start, events);
            var saved := if t.file.disk.current.Some? then t.file.disk.current else t.file.disk.previous;
            && j <= |events| && ValidRun(start, events[..j])
            && t.version <= |t.log| && Run(start, events[..j]).log == t.log[..t.version]
            && saved.Some? && Loaded(map[], saved.value) == Run(start, events[..j]).m
  {
    var start, base := Start(text, leftOver, draft), Loaded(map[], text);
    StartKeeps(text, leftOver, draft);
    RunKeeps(start, events, base);
    var t := Run(start, events);
    j := MomentOf(start, events, t.version, base);
    RunKeeps(start, events[..j], base);
    assert forall op <- t.log[..t.version] :: op in t.log;
  }

  lemma StepAdvances(s: Store, e: Event, base: Dict)
    requires Inv(s, base) && Enabled(s, e)
    ensures s.version <= Next(s, e).version
    ensures s.log <= Next(s, e).log && s.flagged <= Next(s, e).flagged
  {
  }

  /** Over every run: if no written key holds a space, no key of the map does; if moreover no newline is written,
      the map has none, and every snapshot of it is one that the text form carries. */
  lemma MapStaysClean(text: bytes, leftOver: Option<bytes>, draft: Option<bytes>, events: seq<Event>)
    requires ValidRun(Start(text, leftOver, draft), events)
    ensures var t := Run(Start(text, leftOver, draft), events);
            && ((forall op <- t.log :: op.Put? ==> SPACE !in op.key) ==> KeysSplit(t.m))
            && (Storable(t.log) ==> NewlineFree(t.m))
  {
    StartKeeps(text, leftOver, draft);
    RunKeeps(Start(text, leftOver, draft), events, Loaded(map[], text));
    ReplayClean(Loaded(map[], text), Run(Start(text, leftOver, draft), events).log);
  }

  /** Published moments never go backwards, and the write log only grows. */
  lemma {:induction false} VersionsAdvance(s: Store, events: seq<Event>, base: Dict)
    requires Inv(s, base) && ValidRun(s, events)
    ensures s.version <= Run(s, events).version
    ensures s.log <= Run(s, events).log && s.flagged <= Run(s, events).flagged
    decreases |events|
  {
    if events != [] {
      var before := events[..|events| - 1];
      VersionsAdvance(s, before, base);
      RunKeeps(s, before, base);
      StepAdvances(Run(s, before), events[|events| - 1], base);
    }
  }

  /** A clear flag means that every write since the load is still between its insert and its flag store, and that no
      update has got past its flag read. */
  lemma ClearFlag(s: Store, events: seq<Event>, base: Dict)
    requires Inv(s, base) && ValidRun(s, events)
    ensures var t := Run(s, events);
            && (!t.dirty <==> t.flagged == {}) && (!t.dirty ==> t.worker.Sleeping?)
            && (t.up && !t.dirty ==> t.m == Replay(base, t.log) && forall i | 0 <= i < |t.log| :: i !in t.flagged)
  {
    RunKeeps(s, events, base);
  }

  /** The `UpdateFile` under way, if any, takes write `i` to the file. */
  ghost predicate Carries(s: Store, i: nat) {
    match s.worker
    case Sleeping => true
    case SawFlag(seen) => i in seen
    case Copied(_, version, _) => i < version
    case Publishing(_, version) => i < version
  }

  lemma CarryStep(s: Store, e: Event, i: nat, base: Dict)
    requires Inv(s, base) && Enabled(s, e) && i in s.flagged
    requires e == ReadFlag || Carries(s, i)
    ensures Carries(Next(s, e), i)
    ensures e == File(Publishing.MoveIn(true)) ==> i < Next(s, e).version
  {
  }

  lemma LastOf(events: seq<Event>, e: Event)
    requires events != []
    ensures var before, last := events[..|events| - 1], events[|events| - 1];
            && (e in events <==> e in before || e == last)
            && (before != [] ==> before[0] == events[0] && (e in events[1..] <==> e in before[1..] || e == last))
  {
    var before, last := events[..|events| - 1], events[|events| - 1];
    assert events == before + [last];
    assert before != [] ==> events[1..] == before[1..] + [last];
  }

  /** No lost update: a write whose flag store precedes an `UpdateFile`'s flag read is in the snapshot that
      this `UpdateFile` copies, and in the published file from the moment it is moved in. */
  lemma {:induction false} FlaggedIsCovered(s: Store, events: seq<Event>, i: nat, base: Dict)
    requires Inv(s, base) && ValidRun(s, events)
    requires i in s.flagged && s.worker.Sleeping?
    requires events != [] && events[0] == ReadFlag && ReadFlag !in events[1..]
    ensures Carries(Run(s, events), i)
    ensures File(Publishing.MoveIn(true)) in events ==> i < Run(s, events).version
    decreases |events|
  {
    var before, last := events[..|events| - 1], events[|events| - 1];
    var t := Run(s, before);
    RunKeeps(s, before, base);
    VersionsAdvance(s, before, base);
    LastOf(events, ReadFlag);
    LastOf(events, File(Publishing.MoveIn(true)));
    if before != [] {
      FlaggedIsCovered(s, before, i, base);
    }
    StepAdvances(t, last, base);
    CarryStep(t, last, i, base);
  }

  ghost predicate ReadsFrom(ops: seq<Op>, n: nat) {
    forall i | n <= i < |ops| :: ops[i].Get?
  }

  lemma {:induction false} ReadsChangeNothing(m: Dict, ops: seq<Op>, n: nat)
    requires n <= |ops| && ReadsFrom(ops, n)
    ensures Replay(m, ops) == Replay(m, ops[..n])
    decreases |ops|
  {
    if n < |ops| {
      var front := ops[..|ops| - 1];
      ReadsChangeNothing(m, front, n);
      assert front[..n] == ops[..n];
    } else {
      assert ops[..n] == ops;
    }
  }

  lemma {:induction false} NoWriteNoChange(s: Store, events: seq<Event>)
    requires ValidRun(s, events) && s.up && forall e <- events :: e.Access? ==> e.op.Get?
    ensures s.log <= Run(s, events).log && ReadsFrom(Run(s, events).log, |s.log|)
    ensures Run(s, events).up && Run(s, events).m == s.m
    decreases |events|
  {
    if events != [] {
      var before := events[..|events| - 1];
      assert events[|events| - 1] in events && forall e <- before :: e in events;
      NoWriteNoChange(s, before);
    }
  }

  lemma CoversWrites(s: Store, events: seq<Event>, base: Dict)
    requires Inv(s, base) && ValidRun(s, events)
    requires s.worker.Sleeping? && forall i | 0 <= i < |s.log| && s.log[i].Put? :: i in s.flagged
    requires events != [] && events[0] == ReadFlag && ReadFlag !in events[1..]
    requires File(Publishing.MoveIn(true)) in events
    ensures forall i | 0 <= i < |s.log| && s.log[i].Put? :: i < Run(s, events).version
  {
    forall i | 0 <= i < |s.log| && s.log[i].Put?
      ensures i < Run(s, events).version
    {
      FlaggedIsCovered(s, events, i, base);
    }
  }

  /** Once writing has stopped and all flags are stored, one update that moves its file in makes what is on disk
      load to what is in memory. */
  lemma QuietUpdate(s: Store, events: seq<Event>, base: Dict)
    requires Inv(s, base) && ValidRun(s, events) && s.up && Storable(s.log)
    requires s.worker.Sleeping? && forall i | 0 <= i < |s.log| && s.log[i].Put? :: i in s.flagged
    requires events != [] && events[0] == ReadFlag && ReadFlag !in events[1..]
    requires File(Publishing.MoveIn(true)) in events && forall e <- events :: e.Access? ==> e.op.Get?
    ensures var t := Run(s, events);
            var saved := if t.file.disk.current.Some? then t.file.disk.current else t.file.disk.previous;
            saved.Some? && Loaded(map[], saved.value) == t.m == s.m
  {
    var t := Run(s, events);
    RunKeeps(s, events, base);
    NoWriteNoChange(s, events);
    CoversWrites(s, events, base);
    forall i | t.version <= i < |t.log|
      ensures t.log[i].Get?
    {
      assert i < |s.log| ==> t.log[i] == s.log[i];
    }
    ReadsChangeNothing(base, t.log, t.version);
    StorableUpTo(s.log, t.log, t.version);
  }

  lemma StorableUpTo(first: seq<Op>, log: seq<Op>, n: nat)
    requires Storable(first) && first <= log && ReadsFrom(log, |first|) && n <= |log|
    ensures Storable(log[..n])
  {
    forall op | op in log[..n] && op.Put?
      ensures op in first
    {
      var i :| 0 <= i < n && log[i] == op;
      assert i < |first| ==> first[i] == op;
    }
  }

  // ---------------------------------------------------------------- the class

  lemma RunSnoc(s: Store, events: seq<Event>, e: Event)
    requires ValidRun(s, events) && Enabled(Run(s, events), e)
    ensures ValidRun(s, events + [e]) && Run(s, events + [e]) == Next(Run(s, events), e)
  {
    assert (events + [e])[..|events|] == events;
  }

  ghost predicate Reaches(s: Store, t: Store) {
    exists events :: ValidRun(s, events) && Run(s, events) == t
  }

  function FileEvents(events: seq<Publishing.FileEvent>): seq<Event> {
    seq(|events|, i requires 0 <= i < |events| => File(events[i]))
  }

  lemma OpenStep(t: Store, e: Publishing.FileEvent)
    requires t.worker.Copied? && t.file.stage.Idle? && e.Open? && e.text == t.worker.text
    ensures Enabled(t, File(e))
    ensures var next := Next(t, File(e));
            && next.file == Publishing.Next(t.file, e) && !next.file.stage.Stopped?
            && (if next.file.stage.Idle? then next.worker.Sleeping? else next.worker.Publishing?)
            && next.m == t.m && next.dirty == t.dirty && next.up == t.up
            && next.log == t.log && next.flagged == t.flagged
  {
  }

  lemma FileEventsSnoc(soFar: seq<Event>, events: seq<Publishing.FileEvent>)
    requires events != []
    ensures soFar + FileEvents(events)
            == soFar + FileEvents(events[..|events| - 1]) + [File(events[|events| - 1])]
    ensures |events| == 1 ==> soFar + FileEvents(events[..|events| - 1]) == soFar
  {
  }

  lemma UpdateOfFront(events: seq<Publishing.FileEvent>, text: bytes)
    requires Publishing.UpdateOf(events, text)
    ensures var before, last := events[..|events| - 1], events[|events| - 1];
            if before == [] then last.Open? && last.text == text
            else Publishing.UpdateOf(before, text) && !last.Open? && !last.Stop?
  {
  }

  /** One file operation of an update that is under way. */
  lemma FileStep(t: Store, e: Publishing.FileEvent)
    requires t.worker.Publishing? && !t.file.stage.Stopped? && Publishing.Enabled(t.file, e) && !e.Open? && !e.Stop?
    ensures Enabled(t, File(e))
    ensures var next := Next(t, File(e));
            && next.file == Publishing.Next(t.file, e) && !next.file.stage.Stopped?
            && next.worker == (if next.file.stage.Idle? then Sleeping else t.worker)
            && next.m == t.m && next.dirty == t.dirty && next.up == t.up
            && next.log == t.log && next.flagged == t.flagged
  {
  }

  /** The file operations of one update, after a run that ended with the worker's copy, prolong that run. */
  lemma {:induction false} UpdateIsARun(s: Store, soFar: seq<Event>, events: seq<Publishing.FileEvent>)
    requires ValidRun(s, soFar)
    requires var c := Run(s, soFar);
             && c.worker.Copied? && c.file.stage.Idle? && Publishing.UpdateOf(events, c.worker.text)
             && Publishing.ValidRun(c.file, events)
    ensures ValidRun(s, soFar + FileEvents(events))
    ensures var c, t := Run(s, soFar), Run(s, soFar + FileEvents(events));
            && t.file == Publishing.Run(c.file, events) && !t.file.stage.Stopped?
            && (if t.file.stage.Idle? then t.worker.Sleeping? else t.worker.Publishing?)
            && t.m == c.m && t.dirty == c.dirty && t.up == c.up && t.log == c.log && t.flagged == c.flagged
    decreases |events|
  {
    var before, last := events[..|events| - 1], events[|events| - 1];
    FileEventsSnoc(soFar, events);
    UpdateOfFront(events, Run(s, soFar).worker.text);
    if before == [] {
      OpenStep(Run(s, soFar), last);
    } else {
      UpdateIsARun(s, soFar, before);
      FileStep(Run(s, soFar + FileEvents(before)), last);
    }
    RunSnoc(s, soFar + FileEvents(before), File(last));
  }

  /** One call at a time, as the code runs it; the machine keeps step. */
  class KVStorage {
    var m: Dict
    var dirty: bool
    const file: Publishing.KVStorageFile
    ghost var now: Store
    ghost const base: Dict

    ghost predicate Valid()
      reads this, file
    {
      && file.Valid()
      && now.m == m && now.dirty == dirty && now.file == file.now
      && now.worker.Sleeping? && now.file.stage.Idle?
      && Inv(now, base)
    }

    constructor (file: Publishing.KVStorageFile)
      requires file.Valid() && file.now.stage.Idle? && file.disk.current.Some?
      ensures Valid() && this.file == file
      ensures now == Store(map[], false, false, Sleeping, file.now, [], {}, 0)
      ensures base == Loaded(map[], file.now.published)
    {
      this.file := file;
      m, dirty := map[], false;
      now := Store(map[], false, false, Sleeping, file.now, [], {}, 0);
      base := Loaded(map[], file.now.published);
      new;
      LoadedIsClean(map[], Lines(file.now.published));
    }

    /** Called once, by `Start`. */
    method Load()
      requires Valid() && !now.up
      modifies this`m, this`now
      ensures Valid() && now == Next(old(now), Event.Load) && m == base
    {
      StepKeeps(now, Event.Load, base);
      var r := LoadFile(file.disk.current, m);
      m := r.m;
      now := Next(now, Event.Load);
    }

    /** One step of the machine; the answer is the atomic map's, after all that `Get` and `Set` have logged. */
    method Get(key: bytes) returns (found: bool, value: bytes)
      requires Valid() && now.up
      modifies this`now
      ensures Valid() && now == Next(old(now), Access(Op.Get(key)))
      ensures var before := Replay(base, old(now).log);
              (found <==> Lookup(before, key).Some?) && value == Answer(before, Op.Get(key))
    {
      StepKeeps(now, Access(Op.Get(key)), base);
      found := key in m;
      value := if found then m[key] else [];
      now := Next(now, Access(Op.Get(key)));
    }

    /** Two steps of the machine: the insert under the lock, and the flag store after it. */
    method Set(key: bytes, value: bytes)
      requires Valid() && now.up
      modifies this`m, this`dirty, this`now
      ensures Valid() && now.up
      ensures m == old(m)[key := value] && dirty
      ensures now == Next(Next(old(now), Access(Put(key, value))), RaiseFlag(|old(now).log|))
    {
      SetSteps(now, Put(key, value), base);
      m := m[key := value];
      dirty := true;
      now := Next(Next(now, Access(Put(key, value))), RaiseFlag(|now.log|));
    }

    /** One call is one run of the machine. A clean map is left alone; a dirty one is written, moved in and published
        exactly when every file operation goes through, and then loads back to the map exactly when the text form can
        carry it. */
    method UpdateFile(order: seq<bytes>, created: bool, away: bool, movedIn: bool, removed: bool)
      returns (published: bool)
      requires Valid() && Enumerates(order, m)
      modifies this`now, file
      ensures Valid() && Reaches(old(now), now)
      ensures !dirty ==> unchanged(file)
      ensures dirty ==>
                file.disk == Publishing.Updated(old(file.disk), Stored(order, m), created, away, movedIn, removed)
      ensures published <==> dirty && created && away && movedIn && removed && old(file.disk.current).Some?
      ensures published ==> file.disk.current.Some? && file.disk.previous.None?
      ensures published ==> (Loaded(map[], file.disk.current.value) == m <==> KeysSplit(m) && NewlineFree(m))
    {
      ghost var before := now;
      if !dirty {
        assert ValidRun(before, []) && Run(before, []) == before;
        return false;
      }
      var copy := m;
      published := file.UpdateFile(copy, order, created, away, movedIn, removed);
      StoreLoadRoundTrip(copy, order);
      now := AfterUpdate(before, order, file.done, base);
    }
  }

  lemma SetSteps(s: Store, op: Op, base: Dict)
    requires Inv(s, base) && s.up && op.Put? && !s.file.stage.Stopped?
    ensures Enabled(s, Access(op)) && Enabled(Next(s, Access(op)), RaiseFlag(|s.log|))
    ensures var t := Next(Next(s, Access(op)), RaiseFlag(|s.log|));
            && Inv(t, base) && t.m == s.m[op.key := op.value] && t.dirty && t.up
            && t.worker == s.worker && t.file == s.file
  {
    StepKeeps(s, Access(op), base);
    StepKeeps(Next(s, Access(op)), RaiseFlag(|s.log|), base);
  }

  lemma AfterUpdate(s: Store, order: seq<bytes>, events: seq<Publishing.FileEvent>, base: Dict) returns (t: Store)
    requires Inv(s, base) && s.worker.Sleeping? && s.file.stage.Idle? && s.dirty && Enumerates(order, s.m)
    requires Publishing.UpdateOf(events, Stored(order, s.m)) && Publishing.ValidRun(s.file, events)
    requires Publishing.Run(s.file, events).stage.Idle?
    ensures Reaches(s, t) && Inv(t, base) && t.worker.Sleeping?
    ensures t.file == Publishing.Run(s.file, events) && t.m == s.m && t.dirty == s.dirty
    ensures t.up == s.up && t.log == s.log
  {
    assert ValidRun(s, []) && Run(s, []) == s;
    RunSnoc(s, [], ReadFlag);
    RunSnoc(s, [] + [ReadFlag], Copy(order));
    var all := [] + [ReadFlag] + [Copy(order)];
    UpdateIsARun(s, all, events);
    RunKeeps(s, all + FileEvents(events), base);
    t := Run(s, all + FileEvents(events));
  }
}
