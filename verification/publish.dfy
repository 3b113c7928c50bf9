/** Replacing the dictionary file: write `F.new`, move `F` to `F.old`, move `F.new` to `F`, remove `F.old`. */
module Publishing {
  import opened Bytes
  import opened KVFile

  /** The contents of `F`, `F.old` and `F.new`. */
  datatype Disk = Disk(current: Option<bytes>, previous: Option<bytes>, draft: Option<bytes>)

  datatype Stage =
    | Idle
    | Writing(text: bytes, written: nat)
    | Ready(text: bytes)
    | Away(text: bytes)
    | Placed
    | Stopped

  /** `published` is what the last successful move into `F` put there. */
  datatype Publisher = Publisher(disk: Disk, stage: Stage, published: bytes)

  datatype FileEvent =
    | Open(text: bytes, ok: bool)
    | Append(n: nat)
    | Close
    | MoveAway(ok: bool)
    | MoveIn(ok: bool)
    | Unlink(ok: bool)
    | Stop

  predicate Enabled(p: Publisher, e: FileEvent) {
    match e
    case Open(_, _) => p.stage.Idle?
    case Append(n) => p.stage.Writing? && 1 <= n && p.stage.written + n <= |p.stage.text|
    case Close => p.stage.Writing? && p.stage.written == |p.stage.text|
    case MoveAway(ok) => p.stage.Ready? && (ok ==> p.disk.current.Some?)
    case MoveIn(_) => p.stage.Away?
    case Unlink(_) => p.stage.Placed?
    case Stop => !p.stage.Stopped?
  }

  function Next(p: Publisher, e: FileEvent): Publisher
    requires Enabled(p, e)
  {
    match e
    case Open(text, ok) =>
      if ok then p.(disk := p.disk.(draft := Some([])), stage := Writing(text, 0)) else p
    case Append(n) =>
      var end := p.stage.written + n;
      p.(disk := p.disk.(draft := Some(p.stage.text[..end])), stage := p.stage.(written := end))
    case Close => p.(stage := Ready(p.stage.text))
    case MoveAway(ok) =>
      if ok then p.(disk := p.disk.(previous := p.disk.current, current := None), stage := Away(p.stage.text))
      else p.(stage := Idle)
    case MoveIn(ok) =>
      if ok then Publisher(p.disk.(current := p.disk.draft, draft := None), Placed, p.stage.text)
      else p.(stage := Idle)
    case Unlink(ok) =>
      if ok then p.(disk := p.disk.(previous := None), stage := Idle) else p.(stage := Idle)
    case Stop => p.(stage := Stopped)
  }

  predicate ValidRun(p: Publisher, events: seq<FileEvent>)
    decreases |events|, 0
  {
    events == [] ||
    (var before := events[..|events| - 1];
     ValidRun(p, before) && Enabled(Run(p, before), events[|events| - 1]))
  }

  function Run(p: Publisher, events: seq<FileEvent>): Publisher
    requires ValidRun(p, events)
    decreases |events|, 1
  {
    if events == [] then p else Next(Run(p, events[..|events| - 1]), events[|events| - 1])
  }

  lemma RunSnoc(p: Publisher, events: seq<FileEvent>, e: FileEvent)
    requires ValidRun(p, events) && Enabled(Run(p, events), e)
    ensures ValidRun(p, events + [e]) && Run(p, events + [e]) == Next(Run(p, events), e)
  {
    assert (events + [e])[..|events|] == events;
  }

  /** The last published text is whole, in `F` or, while `F` is missing, in `F.old`. */
  ghost predicate Recoverable(p: Publisher) {
    if p.disk.current.Some? then p.disk.current.value == p.published else p.disk.previous == Some(p.published)
  }

  ghost predicate Safe(p: Publisher) {
    && Recoverable(p)
    && match p.stage
       case Writing(text, written) => written <= |text| && p.disk.draft == Some(text[..written])
       case Ready(text) => p.disk.draft == Some(text)
       case Away(text) => p.disk.draft == Some(text) && p.disk.current.None?
       case Placed => p.disk.current.Some?
       case _ => true
  }

  lemma StepSafe(p: Publisher, e: FileEvent)
    requires Safe(p) && Enabled(p, e)
    ensures Safe(Next(p, e))
    ensures Next(p, e).published != p.published ==> e == MoveIn(true) && p.stage.Away?
    ensures p.disk.current != Next(p, e).disk.current ==> e == MoveAway(true) || e == MoveIn(true)
    ensures p.disk.previous != Next(p, e).disk.previous ==>
              || (e == MoveAway(true) && Next(p, e).disk.previous == p.disk.current == Some(p.published))
              || (e == Unlink(true) && Next(p, e).disk.previous.None?)
  {
    if e.Close? {
      assert p.stage.text[..p.stage.written] == p.stage.text;
    }
  }

  /** Stopping anywhere, and failing anywhere: `F` is never partial, and the last published text is never lost. */
  lemma {:induction false} PublishSafe(p: Publisher, events: seq<FileEvent>, i: nat)
    requires Safe(p) && ValidRun(p, events) && i <= |events|
    ensures ValidRun(p, events[..i])
    ensures Safe(Run(p, events[..i]))
    decreases |events|
  {
    if i < |events| {
      PublishSafe(p, events[..|events| - 1], i);
      assert events[..|events| - 1][..i] == events[..i];
    } else {
      assert events[..i] == events;
      if events != [] {
        var before := events[..|events| - 1];
        PublishSafe(p, before, |before|);
        assert before[..|before|] == before;
        StepSafe(Run(p, before), events[|events| - 1]);
      }
    }
  }

  /** Every text that has been published up to here, the one at the start included. */
  function Publications(p: Publisher, events: seq<FileEvent>): seq<bytes>
    requires ValidRun(p, events)
    decreases |events|
  {
    if events == [] then [p.published]
    else
      Publications(p, events[..|events| - 1])
      + (if events[|events| - 1] == MoveIn(true) then [Run(p, events).published] else [])
  }

  /** `F.old` is what it was at the start, or absent, or a published text whole: partial text is in `F.new` only. */
  lemma {:induction false} OldIsWhole(p: Publisher, events: seq<FileEvent>)
    requires Safe(p) && ValidRun(p, events)
    ensures var q := Run(p, events);
            && Safe(q) && q.published in Publications(p, events)
            && (q.disk.current.Some? ==> q.disk.current.value in Publications(p, events))
            && (|| q.disk.previous == p.disk.previous || q.disk.previous.None?
                || q.disk.previous.value in Publications(p, events))
    decreases |events|
  {
    if events != [] {
      var before := events[..|events| - 1];
      OldIsWhole(p, before);
      StepSafe(Run(p, before), events[|events| - 1]);
    }
  }

  lemma StepMissing(p: Publisher, e: FileEvent)
    requires Safe(p) && Enabled(p, e) && p.disk.current.None? && !p.stage.Away?
    ensures var q := Next(p, e);
            Safe(q) && q.disk.current.None? && !q.stage.Away? && q.published == p.published
  {
    StepSafe(p, e);
  }

  /** A failed second move is final: with `F` missing between two updates, no later update brings it back. */
  lemma {:induction false} MissingForGood(p: Publisher, events: seq<FileEvent>)
    requires Safe(p) && ValidRun(p, events)
    requires p.disk.current.None? && !p.stage.Away?
    ensures var q := Run(p, events);
            && Safe(q) && !q.stage.Away?
            && q.disk.current.None? && q.disk.previous == Some(p.published) && q.published == p.published
    decreases |events|
  {
    if events != [] {
      var before := events[..|events| - 1];
      MissingForGood(p, before);
      StepMissing(Run(p, before), events[|events| - 1]);
    }
  }

  /** `p` can go on, through these operations, to where `F` is present. */
  ghost predicate BringsBack(p: Publisher, events: seq<FileEvent>) {
    ValidRun(p, events) && Run(p, events).disk.current.Some?
  }

  lemma SecondMoveBringsBack(p: Publisher) returns (events: seq<FileEvent>)
    requires Safe(p) && p.stage.Away?
    ensures BringsBack(p, events)
  {
    RunSnoc(p, [], MoveIn(true));
    events := [] + [MoveIn(true)];
  }

  /** Exactly when a missing `F` can still come back: only between the two moves of an update. */
  lemma FileComesBack(p: Publisher)
    requires Safe(p) && !p.stage.Stopped?
    ensures (exists events :: BringsBack(p, events)) <==> p.disk.current.Some? || p.stage.Away?
  {
    if p.disk.current.Some? {
      assert BringsBack(p, []);
    } else if p.stage.Away? {
      var events := SecondMoveBringsBack(p);
    } else {
      forall events
        ensures !BringsBack(p, events)
      {
        if ValidRun(p, events) {
          MissingForGood(p, events);
        }
      }
    }
  }

  lemma RowsFrom(order: seq<bytes>, m: Dict, i: nat)
    requires (forall k <- order :: k in m) && i < |order|
    ensures forall k <- order[i..] :: k in m
    ensures Unlines(Rows(order[i..], m))
            == Row(order[i], m[order[i]]) + [NEWLINE] + Unlines(Rows(order[i + 1..], m))
  {
    assert order[i..][1..] == order[i + 1..];
  }

  /** The operations of one update with `text`, from the opening of `F.new` on. */
  ghost predicate UpdateOf(events: seq<FileEvent>, text: bytes) {
    && events != [] && events[0].Open? && events[0].text == text
    && forall i | 0 < i < |events| :: !events[i].Open? && !events[i].Stop?
  }

  lemma UpdateSnoc(events: seq<FileEvent>, e: FileEvent, text: bytes)
    requires UpdateOf(events, text) && !e.Open? && !e.Stop?
    ensures UpdateOf(events + [e], text)
  {
  }

  /** What the disk is after an update with these outcomes of its file operations. */
  function Updated(before: Disk, text: bytes, created: bool, away: bool, movedIn: bool, removed: bool): Disk {
    if !created then before
    else if !away || before.current.None? then before.(draft := Some(text))
    else if !movedIn then Disk(None, before.current, Some(text))
    else if !removed then Disk(Some(text), before.current, None)
    else Disk(Some(text), None, None)
  }

  /** The update as the code runs it: whether an operation fails is up to the file system. The machine keeps
      step: `done` are its events since `from`, so `PublishSafe` covers a stop between any two operations. */
  class KVStorageFile {
    var disk: Disk
    ghost var now: Publisher
    ghost var from: Publisher
    ghost var done: seq<FileEvent>

    ghost predicate Valid()
      reads this
    {
      && now.disk == disk
      && Safe(now) && Safe(from)
      && ValidRun(from, done) && now == Run(from, done)
    }

    constructor (text: bytes, leftOver: Option<bytes>, draft: Option<bytes>)
      ensures Valid() && now == Publisher(Disk(Some(text), leftOver, draft), Idle, text)
    {
      disk := Disk(Some(text), leftOver, draft);
      now := Publisher(Disk(Some(text), leftOver, draft), Idle, text);
      from := Publisher(Disk(Some(text), leftOver, draft), Idle, text);
      done := [];
    }

    /** Notes the machine step that the last operation on `disk` amounts to. */
    ghost method Note(e: FileEvent)
      requires Safe(now) && Safe(from) && ValidRun(from, done) && now == Run(from, done)
      requires Enabled(now, e) && disk == Next(now, e).disk
      modifies this`now, this`done
      ensures Valid() && now == Next(old(now), e) && done == old(done) + [e]
    {
      StepSafe(now, e);
      RunSnoc(from, done, e);
      now := Next(now, e);
      done := done + [e];
    }

    /** The first operation of an update; `created` is whether `F.new` could be opened. */
    method OpenDraft(ghost text: bytes, created: bool) returns (ok: bool)
      requires Valid() && now.stage.Idle?
      modifies this
      ensures Valid() && now == Next(old(now), Open(text, ok)) && from == old(now) && done == [Open(text, ok)]
      ensures ok == created
    {
      ok := created;
      if ok {
        disk := disk.(draft := Some([]));
      }
      from, done := now, [];
      Note(Open(text, ok));
    }

    method Put(part: bytes, ghost rest: bytes)
      requires Valid() && now.stage.Writing? && part != []
      requires disk.draft.Some? && now.stage.text == disk.draft.value + part + rest
      modifies this
      ensures Valid() && now == Next(old(now), Append(|part|))
      ensures from == old(from) && done == old(done) + [Append(|part|)]
      ensures disk == old(disk).(draft := Some(old(disk).draft.value + part))
      ensures now.stage.Writing? && now.stage.text == old(now).stage.text && now.published == old(now).published
    {
      assert now.stage.text[..now.stage.written + |part|] == disk.draft.value + part;
      disk := disk.(draft := Some(disk.draft.value + part));
      Note(Append(|part|));
    }

    ghost predicate LeftToWrite(text: bytes, order: seq<bytes>, m: Dict, i: nat)
      reads this
      requires forall k <- order :: k in m
    {
      && i <= |order| && disk.draft.Some? && now.stage.Writing? && now.stage.text == text
      && text == disk.draft.value + Unlines(Rows(order[i..], m))
    }

    /** Part-way through `StoreFile`, which began at `start`: the rows from `i` on are still to be written. */
    ghost predicate Storing(start: Publisher, text: bytes, order: seq<bytes>, m: Dict, i: nat)
      reads this
      requires forall k <- order :: k in m
    {
      && Valid() && from == start && UpdateOf(done, text) && now.published == start.published
      && disk == start.disk.(draft := disk.draft)
      && LeftToWrite(text, order, m, i)
    }

    method PutRow(ghost start: Publisher, ghost text: bytes, order: seq<bytes>, m: Dict, i: nat)
      requires (forall k <- order :: k in m) && i < |order| && Storing(start, text, order, m, i)
      modifies this
      ensures Storing(start, text, order, m, i + 1)
    {
      var row := Row(order[i], m[order[i]]) + [NEWLINE];
      ghost var rest := Unlines(Rows(order[i + 1..], m));
      RowsFrom(order, m, i);
      assert disk.draft.value + (row + rest) == disk.draft.value + row + rest;
      UpdateSnoc(done, Append(|row|), text);
      Put(row, rest);
    }

    method PutRows(ghost start: Publisher, ghost text: bytes, order: seq<bytes>, m: Dict)
      requires (forall k <- order :: k in m) && Storing(start, text, order, m, 0)
      modifies this
      ensures Storing(start, text, order, m, |order|)
    {
      var i := 0;
      while i < |order|
        invariant 0 <= i <= |order|
        invariant Storing(start, text, order, m, i)
      {
        PutRow(start, text, order, m, i);
        i := i + 1;
      }
    }

    /** All rows are written, and the stream goes out of scope. */
    ghost method CloseDraft(start: Publisher, text: bytes, order: seq<bytes>, m: Dict)
      requires (forall k <- order :: k in m) && Storing(start, text, order, m, |order|)
      modifies this`now, this`done
      ensures Valid() && from == start && UpdateOf(done, text)
      ensures now.published == start.published && disk == start.disk.(draft := disk.draft) && now.stage == Ready(text)
    {
      assert order[|order|..] == [];
      assert disk.draft.value == text;
      UpdateSnoc(done, Close, text);
      Note(Close);
    }

    ghost method StoringStarts(start: Publisher, text: bytes, order: seq<bytes>, m: Dict)
      requires (forall k <- order :: k in m) && text == Stored(order, m)
      requires Valid() && from == start && start.stage.Idle? && done == [Open(text, true)]
      requires now == Next(start, Open(text, true))
      ensures Storing(start, text, order, m, 0)
    {
      assert order[0..] == order;
      assert disk.draft.value + Unlines(Rows(order, m)) == text;
    }

    /** Writes `F.new` in the order in which the iteration meets the entries. */
    method StoreFile(m: Dict, order: seq<bytes>, created: bool) returns (ok: bool)
      requires Valid() && now.stage.Idle? && Enumerates(order, m)
      modifies this
      ensures Valid() && from == old(now) && UpdateOf(done, Stored(order, m))
      ensures now.published == old(now.published)
      ensures ok == created
      ensures disk == if ok then old(disk).(draft := Some(Stored(order, m))) else old(disk)
      ensures if ok then now.stage == Ready(Stored(order, m)) else now.stage.Idle?
    {
      ghost var start, text := now, Stored(order, m);
      ok := OpenDraft(text, created);
      if !ok {
        return;
      }
      StoringStarts(start, text, order, m);
      PutRows(start, text, order, m);
      CloseDraft(start, text, order, m);
    }

    /** `away`, `movedIn` and `removed` are whether the file system lets the two renames and the removal through. */
    method ChangeStorageFile(ghost text: bytes, away: bool, movedIn: bool, removed: bool) returns (ok: bool)
      requires Valid() && now.stage == Ready(text) && UpdateOf(done, text)
      modifies this
      ensures Valid() && now.stage.Idle? && from == old(from) && UpdateOf(done, text)
      ensures ok <==> away && movedIn && removed && old(disk.current).Some?
      ensures disk == Updated(old(disk), text, true, away, movedIn, removed)
      ensures now.published ==
              if disk.current == old(disk.current) || disk.current.None? then old(now.published) else text
    {
      ok := away && disk.current.Some?;
      if ok {
        disk := disk.(previous := disk.current, current := None);
      }
      UpdateSnoc(done, MoveAway(ok), text);
      Note(MoveAway(ok));
      if !ok {
        return;
      }

      ok := movedIn;
      if ok {
        disk := disk.(current := disk.draft, draft := None);
      }
      UpdateSnoc(done, MoveIn(ok), text);
      Note(MoveIn(ok));
      if !ok {
        return;
      }

      ok := removed;
      if ok {
        disk := disk.(previous := None);
      }
      UpdateSnoc(done, Unlink(ok), text);
      Note(Unlink(ok));
    }

    /** One call is one run of the machine, through the operations of one update, and leaves the disk as their
        outcomes tell. */
    method UpdateFile(m: Dict, order: seq<bytes>, created: bool, away: bool, movedIn: bool, removed: bool)
      returns (ok: bool)
      requires Valid() && now.stage.Idle? && Enumerates(order, m)
      modifies this
      ensures Valid() && now.stage.Idle? && from == old(now) && UpdateOf(done, Stored(order, m))
      ensures ok <==> created && away && movedIn && removed && old(disk.current).Some?
      ensures disk == Updated(old(disk), Stored(order, m), created, away, movedIn, removed)
      ensures now.published == if disk.current == old(disk.current) || disk.current.None? then old(now.published)
                               else Stored(order, m)
    {
      ok := StoreFile(m, order, created);
      if ok {
        ok := ChangeStorageFile(Stored(order, m), away, movedIn, removed);
      }
    }
  }
}
