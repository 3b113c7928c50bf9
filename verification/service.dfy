/** The whole process: the sockets of `System` over the storage of `Storage`. A map operation, its flag store and its
    reply are three steps, between which the worker, the other connections and a stop may come. */
module Service {
  import opened Bytes
  import opened KVFile
  import opened AtomicMap
  import opened Server
  import ClientConfig
  import Exactly
  import Publishing
  import Storage
  import System
  import Progress
  import Theorems

  datatype Process = Process(net: System.State, store: Storage.Store)

  datatype Step = Net(e: System.Event) | Disk(d: Storage.Event)

  const READ_FLAG := Disk(Storage.ReadFlag)
  const MOVED_IN := Disk(Storage.File(Publishing.MoveIn(true)))

  /** What a step of the sockets does to the shared map, under its lock. */
  ghost function Performs(s: System.State, e: System.Event): Option<Op>
    requires System.Enabled(s, e)
  {
    if e.ExecuteLate? then Some(OpOfFrame(s.orphans[e.k].request))
    else if e.Execute? then Some(OpOfFrame(s.clients[e.c].serverHeld))
    else None
  }

  /** `Get` or `Set` has returned for the operation at this place of the log. */
  ghost predicate Returned(store: Storage.Store, ticket: nat) {
    ticket < |store.log| && (store.log[ticket].Put? ==> ticket in store.flagged)
  }

  /** The sockets open once the file is loaded. A stopped server does nothing more; its clients may still send, and
      read what is on the wire. A reply is written after `Get` or `Set` has returned. */
  ghost predicate Enabled(s: Process, step: Step) {
    match step
    case Net(e) =>
      && System.Enabled(s.net, e) && s.store.up
      && (s.store.file.stage.Stopped? ==> e.Send? || e.ClientRead?)
      && (e.Reply? ==> s.net.clients[e.c].phase.Settled? && Returned(s.store, s.net.clients[e.c].phase.ticket))
    case Disk(d) => Storage.Enabled(s.store, d) && !d.Access?
  }

  ghost function Next(s: Process, step: Step): Process
    requires Enabled(s, step)
  {
    match step
    case Net(e) =>
      var op := Performs(s.net, e);
      Process(System.Next(s.net, e), if op.Some? then Storage.Next(s.store, Storage.Access(op.value)) else s.store)
    case Disk(d) => s.(store := Storage.Next(s.store, d))
  }

  ghost predicate ValidRun(s: Process, steps: seq<Step>)
    decreases |steps|, 0
  {
    steps == [] ||
    (var before := steps[..|steps| - 1];
     ValidRun(s, before) && Enabled(Run(s, before), steps[|steps| - 1]))
  }

  ghost function Run(s: Process, steps: seq<Step>): Process
    requires ValidRun(s, steps)
    decreases |steps|, 1
  {
    if steps == [] then s else Next(Run(s, steps[..|steps| - 1]), steps[|steps| - 1])
  }

  /** The state after the first `i` steps. */
  ghost function At(s: Process, steps: seq<Step>, i: nat): Process
    requires ValidRun(s, steps) && i <= |steps|
    decreases |steps|
  {
    if i == |steps| then Run(s, steps) else At(s, steps[..|steps| - 1], i)
  }

  function Begin(text: bytes, leftOver: Option<bytes>, draft: Option<bytes>,
                 scripts: seq<seq<ClientConfig.Command>>): Process {
    Process(System.Start(Loaded(map[], text), scripts), Storage.Start(text, leftOver, draft))
  }

  // ---------------------------------------------------------------- both sides

  function NetOf(steps: seq<Step>): seq<System.Event> {
    if steps == [] then []
    else NetOf(steps[..|steps| - 1]) + (if steps[|steps| - 1].Net? then [steps[|steps| - 1].e] else [])
  }

  ghost function DiskStep(s: Process, step: Step): seq<Storage.Event>
    requires Enabled(s, step)
  {
    match step
    case Net(e) => if Performs(s.net, e).Some? then [Storage.Access(Performs(s.net, e).value)] else []
    case Disk(d) => [d]
  }

  ghost function DiskOf(s: Process, steps: seq<Step>): seq<Storage.Event>
    requires ValidRun(s, steps)
    decreases |steps|
  {
    if steps == [] then []
    else DiskOf(s, steps[..|steps| - 1]) + DiskStep(Run(s, steps[..|steps| - 1]), steps[|steps| - 1])
  }

  /** Every run of the process is a run of the socket side ... */
  lemma {:induction false} NetRuns(s: Process, steps: seq<Step>)
    requires ValidRun(s, steps)
    ensures System.ValidRun(s.net, NetOf(steps)) && System.Run(s.net, NetOf(steps)) == Run(s, steps).net
    decreases |steps|
  {
    if steps != [] {
      var before, last := steps[..|steps| - 1], steps[|steps| - 1];
      NetRuns(s, before);
      if last.Net? {
        Progress.RunSnoc(s.net, NetOf(before), last.e);
      } else {
        assert NetOf(before) + [] == NetOf(before);
      }
    }
  }

  /** ... and of the storage side, the accesses to the map included: what is proved of either holds of the whole. */
  lemma {:induction false} DiskRuns(s: Process, steps: seq<Step>)
    requires ValidRun(s, steps)
    ensures Storage.ValidRun(s.store, DiskOf(s, steps)) && Storage.Run(s.store, DiskOf(s, steps)) == Run(s, steps).store
    decreases |steps|
  {
    if steps != [] {
      var before, last := steps[..|steps| - 1], steps[|steps| - 1];
      DiskRuns(s, before);
      var did := DiskStep(Run(s, before), last);
      if did != [] {
        Storage.RunSnoc(s.store, DiskOf(s, before), did[0]);
        assert did == [did[0]];
      } else {
        assert DiskOf(s, before) + [] == DiskOf(s, before);
      }
    }
  }

  /** The two sides have one map and one order of the operations on it. A client has read no answer, and has none
      on the way, of an operation that has not returned. */
  ghost predicate Inv(s: Process, base: Dict) {
    && System.Inv(s.net, base) && Storage.Inv(s.store, base)
    && s.store.log == Ops(s.net.log)
    && (s.store.up ==> s.store.m == s.net.m)
    && forall c | 0 <= c < |s.net.clients| :: Told(s.net.clients[c], s.store)
  }

  ghost predicate Told(cl: System.Client, store: Storage.Store) {
    && (forall j | 0 <= j < |cl.accepted| :: Returned(store, cl.accepted[j]))
    && (cl.phase.Settled? && !cl.stage.Replying? ==> Returned(store, cl.phase.ticket))
  }

  lemma ToldStays(cl: System.Client, store: Storage.Store, next: Storage.Store)
    requires Told(cl, store) && store.log <= next.log && store.flagged <= next.flagged
    ensures Told(cl, next)
  {
  }

  lemma LocalKeepsTold(cl: System.Client, e: System.Event, store: Storage.Store)
    requires System.WireInv(cl) && !e.Execute? && !e.ExecuteLate? && System.Ready(cl, e) && Told(cl, store)
    requires e.Reply? ==> cl.phase.Settled? && Returned(store, cl.phase.ticket)
    ensures Told(System.Local(cl, e), store)
  {
    if e.ClientRead? {
      System.ClientReadKeepsWire(cl, e.n);
    } else if e.ServerRead? {
      System.ServerReadKeepsWire(cl, e.n);
    }
  }

  lemma NetKeepsLog(s: Process, e: System.Event)
    requires Enabled(s, Net(e)) && s.store.log == Ops(s.net.log)
    ensures var next := Next(s, Net(e));
            && next.store.log == Ops(next.net.log)
            && s.store.log <= next.store.log && s.store.flagged == next.store.flagged
  {
    if Performs(s.net, e).Some? {
      var last := System.Next(s.net, e).log[|s.net.log|];
      assert System.Next(s.net, e).log == s.net.log + [last];
      LogPush(s.net.log, last, last.client);
    }
  }

  lemma NetKeepsTold(s: Process, e: System.Event, base: Dict, c: nat)
    requires Inv(s, base) && Enabled(s, Net(e)) && c < |s.net.clients|
    ensures var next := Next(s, Net(e));
            c < |next.net.clients| && Told(next.net.clients[c], next.store)
  {
    var store := Next(s, Net(e)).store;
    NetKeepsLog(s, e);
    ToldStays(s.net.clients[c], s.store, store);
    if !e.ExecuteLate? && !e.Execute? && e.c == c {
      assert System.ClientInv(s.net.clients, s.net.log, c);
      LocalKeepsTold(s.net.clients[c], e, store);
    }
  }

  lemma NetKeepsStore(s: Process, e: System.Event, base: Dict)
    requires Enabled(s, Net(e)) && Storage.Inv(s.store, base)
    ensures Storage.Inv(Next(s, Net(e)).store, base) && Next(s, Net(e)).store.up
  {
    if Performs(s.net, e).Some? {
      Storage.StepKeeps(s.store, Storage.Access(Performs(s.net, e).value), base);
    }
  }

  lemma StepKeeps(s: Process, step: Step, base: Dict)
    requires Inv(s, base) && Enabled(s, step)
    ensures Inv(Next(s, step), base)
  {
    var next := Next(s, step);
    match step
    case Net(e) =>
      System.StepKeeps(s.net, e, base);
      NetKeepsStore(s, e, base);
      NetKeepsLog(s, e);
      forall c | 0 <= c < |next.net.clients|
        ensures Told(next.net.clients[c], next.store)
      {
        NetKeepsTold(s, e, base, c);
      }
    case Disk(d) =>
      Storage.StepKeeps(s.store, d, base);
      Storage.StepAdvances(s.store, d, base);
      forall c | 0 <= c < |next.net.clients|
        ensures Told(next.net.clients[c], next.store)
      {
        ToldStays(s.net.clients[c], s.store, next.store);
      }
  }

  lemma {:induction false} RunKeeps(s: Process, steps: seq<Step>, base: Dict)
    requires Inv(s, base) && ValidRun(s, steps)
    ensures Inv(Run(s, steps), base)
    decreases |steps|
  {
    if steps != [] {
      RunKeeps(s, steps[..|steps| - 1], base);
      StepKeeps(Run(s, steps[..|steps| - 1]), steps[|steps| - 1], base);
    }
  }

  lemma BeginKeeps(text: bytes, leftOver: Option<bytes>, draft: Option<bytes>, scripts: seq<seq<ClientConfig.Command>>)
    requires System.FittingStart(Loaded(map[], text), scripts)
    ensures Inv(Begin(text, leftOver, draft, scripts), Loaded(map[], text))
  {
    System.StartKeeps(Loaded(map[], text), scripts);
    Storage.StartKeeps(text, leftOver, draft);
  }

  lemma ReplyingIsSettled(s: Process, base: Dict, c: nat)
    requires Inv(s, base) && c < |s.net.clients| && s.net.clients[c].stage.Replying?
    ensures s.net.clients[c].phase.Settled?
  {
    assert System.ClientInv(s.net.clients, s.net.log, c);
  }

  lemma TicketLogged(s: Process, base: Dict, c: nat)
    requires Inv(s, base) && c < |s.net.clients| && s.net.clients[c].phase.Settled?
    ensures s.net.clients[c].phase.ticket < |s.store.log|
  {
    assert System.ClientInv(s.net.clients, s.net.log, c);
    Theorems.OpsAt(s.net.log);
  }

  /** While the process runs, no client is stuck: its next step, or the flag store its reply waits for, can come. */
  lemma NoDeadlock(s: Process, base: Dict, c: nat) returns (step: Step)
    requires Inv(s, base) && s.store.up && !s.store.file.stage.Stopped?
    requires c < |s.net.clients| && s.net.clients[c].pos < |s.net.clients[c].script|
    ensures Enabled(s, step)
    ensures step.Net? ==> Progress.Quiet(step.e) && step.e.c == c
    ensures step.Disk? ==> s.net.clients[c].phase.Settled? && step.d == Storage.RaiseFlag(s.net.clients[c].phase.ticket)
  {
    var e := Progress.NoDeadlock(s.net, base, c);
    step := Net(e);
    if e.Reply? {
      ReplyingIsSettled(s, base, c);
      TicketLogged(s, base, c);
      if !Returned(s.store, s.net.clients[c].phase.ticket) {
        step := Disk(Storage.RaiseFlag(s.net.clients[c].phase.ticket));
      }
    }
  }

  // ---------------------------------------------------------------- what is saved

  ghost predicate NewlineFreeScripts(scripts: seq<seq<ClientConfig.Command>>) {
    forall c, i | 0 <= c < |scripts| && 0 <= i < |scripts[c]| :: NEWLINE !in scripts[c][i].args
  }

  lemma CommandStorable(c: ClientConfig.Command)
    requires NEWLINE !in c.args
    ensures OpOf(c).Put? ==> SPACE !in OpOf(c).key && NEWLINE !in OpOf(c).key && NEWLINE !in OpOf(c).value
  {
  }

  /** Keys that come in requests have no space, and the text form can carry what has no newline. */
  lemma LogStorable(s: System.State, init: Dict, scripts: seq<seq<ClientConfig.Command>>)
    requires System.Inv(s, init) && Theorems.RunsScripts(s, scripts) && NewlineFreeScripts(scripts)
    ensures Storage.Storable(Ops(s.log))
  {
    forall op | op in Ops(s.log) && op.Put?
      ensures SPACE !in op.key && NEWLINE !in op.key && NEWLINE !in op.value
    {
      var c := Theorems.LoggedIsInScript(s, init, op);
      var i :| 0 <= i < |scripts[c]| && OpOf(scripts[c][i]) == op;
      CommandStorable(scripts[c][i]);
    }
  }

  lemma {:induction false} NetScripts(s: Process, steps: seq<Step>, scripts: seq<seq<ClientConfig.Command>>)
    requires ValidRun(s, steps) && Theorems.RunsScripts(s.net, scripts)
    ensures Theorems.RunsScripts(Run(s, steps).net, scripts)
  {
    NetRuns(s, steps);
    Theorems.ScriptsStay(s.net, NetOf(steps));
  }

  /** In every run of the process, whatever the scripts, no key of the map holds a space; and none of its entries
      holds a newline unless a script does. */
  lemma MapIsClean(text: bytes, leftOver: Option<bytes>, draft: Option<bytes>,
                   scripts: seq<seq<ClientConfig.Command>>, steps: seq<Step>)
    requires System.FittingStart(Loaded(map[], text), scripts)
    requires ValidRun(Begin(text, leftOver, draft, scripts), steps)
    ensures var t := Run(Begin(text, leftOver, draft, scripts), steps);
            KeysSplit(t.store.m) && (NewlineFreeScripts(scripts) ==> NewlineFree(t.store.m))
  {
    var s, base := Begin(text, leftOver, draft, scripts), Loaded(map[], text);
    var t := Run(s, steps);
    BeginKeeps(text, leftOver, draft, scripts);
    RunKeeps(s, steps, base);
    NetScripts(s, steps, scripts);
    LoadedIsClean(map[], Lines(text));
    forall op | op in t.store.log && op.Put?
      ensures SPACE !in op.key
    {
      var c := Theorems.LoggedIsInScript(t.net, base, op);
      var i := Theorems.CommandOf(scripts[c], op);
    }
    if NewlineFreeScripts(scripts) {
      LogStorable(t.net, base, scripts);
    }
    Storage.ReplayClean(base, t.store.log);
  }

  lemma OpsPrefix(log: seq<Entry>, n: nat)
    requires n <= |log|
    ensures n <= |Ops(log)| && Ops(log[..n]) == Ops(log)[..n]
  {
    Theorems.OpsAt(log);
    Theorems.OpsAt(log[..n]);
  }

  /** The file that a stop would leave: `F`, or `F.old` while `F` is missing. */
  function Saved(s: Process): Option<bytes> {
    if s.store.file.disk.current.Some? then s.store.file.disk.current else s.store.file.disk.previous
  }

  /** At every point of every run, whatever the interleaving of clients, handlers, worker, failures and stop, the
      surviving file loads to what a prefix of the one total order makes of the file that the process began with. */
  lemma SavedIsPrefix(text: bytes, leftOver: Option<bytes>, draft: Option<bytes>,
                      scripts: seq<seq<ClientConfig.Command>>, steps: seq<Step>)
    requires System.FittingStart(Loaded(map[], text), scripts) && NewlineFreeScripts(scripts)
    requires ValidRun(Begin(text, leftOver, draft, scripts), steps)
    ensures var t := Run(Begin(text, leftOver, draft, scripts), steps);
            && t.store.version <= |t.net.log| && Saved(t).Some?
            && Loaded(map[], Saved(t).value) == Replay(Loaded(map[], text), Ops(t.net.log[..t.store.version]))
  {
    var s, base := Begin(text, leftOver, draft, scripts), Loaded(map[], text);
    var t := Run(s, steps);
    BeginKeeps(text, leftOver, draft, scripts);
    RunKeeps(s, steps, base);
    NetScripts(s, steps, scripts);
    LogStorable(t.net, base, scripts);
    Theorems.OpsAt(t.net.log);
    OpsPrefix(t.net.log, t.store.version);
    assert forall op <- t.store.log[..t.store.version] :: op in t.store.log;
  }

  lemma {:induction false} AtStep(s: Process, steps: seq<Step>, i: nat)
    requires ValidRun(s, steps) && i < |steps|
    ensures Enabled(At(s, steps, i), steps[i]) && At(s, steps, i + 1) == Next(At(s, steps, i), steps[i])
    decreases |steps|
  {
    var before := steps[..|steps| - 1];
    if i < |before| {
      AtStep(s, before, i);
    } else {
      assert At(s, steps, i) == Run(s, before);
    }
  }

  lemma {:induction false} AtKeeps(s: Process, steps: seq<Step>, i: nat, base: Dict)
    requires Inv(s, base) && ValidRun(s, steps) && i <= |steps|
    ensures Inv(At(s, steps, i), base)
    decreases |steps|
  {
    if i == |steps| {
      RunKeeps(s, steps, base);
    } else {
      AtKeeps(s, steps[..|steps| - 1], i, base);
    }
  }

  /** `u` knows at least what `t` knows. */
  ghost predicate KnowsMore(t: Process, u: Process) {
    && t.net.log <= u.net.log && t.store.log <= u.store.log && t.store.flagged <= u.store.flagged
    && t.store.version <= u.store.version
  }

  lemma NetGrows(s: System.State, e: System.Event)
    requires System.Enabled(s, e)
    ensures s.log <= System.Next(s, e).log
  {
  }

  lemma StepGrows(s: Process, step: Step, base: Dict)
    requires Inv(s, base) && Enabled(s, step)
    ensures KnowsMore(s, Next(s, step))
  {
    match step
    case Net(e) =>
      NetKeepsLog(s, e);
      NetGrows(s.net, e);
    case Disk(d) => Storage.StepAdvances(s.store, d, base);
  }

  lemma KnowsMoreStill(t: Process, u: Process, v: Process)
    requires KnowsMore(t, u) && KnowsMore(u, v)
    ensures KnowsMore(t, v)
  {
  }

  lemma StepAt(s: Process, steps: seq<Step>, i: nat, base: Dict) returns (t: Process, next: Process)
    requires Inv(s, base) && ValidRun(s, steps) && i < |steps|
    ensures t == At(s, steps, i) && next == At(s, steps, i + 1)
    ensures Inv(t, base) && Enabled(t, steps[i]) && next == Next(t, steps[i])
  {
    AtKeeps(s, steps, i, base);
    AtStep(s, steps, i);
    t, next := At(s, steps, i), At(s, steps, i + 1);
  }

  lemma GrowsAt(s: Process, steps: seq<Step>, i: nat, j: nat, base: Dict) returns (t: Process, next: Process)
    requires Inv(s, base) && ValidRun(s, steps) && i < j == i + 1 <= |steps|
    ensures t == At(s, steps, i) && next == At(s, steps, j) && KnowsMore(t, next)
  {
    t, next := StepAt(s, steps, i, base);
    StepGrows(t, steps[i], base);
  }

  /** Later states know more: the log, the flags and the published place only grow. */
  lemma {:induction false} Grows(s: Process, steps: seq<Step>, i: nat, j: nat, base: Dict)
    returns (t: Process, u: Process)
    requires Inv(s, base) && ValidRun(s, steps) && i <= j <= |steps|
    ensures t == At(s, steps, i) && u == At(s, steps, j) && KnowsMore(t, u)
    decreases j
  {
    if i == j {
      t, u := At(s, steps, i), At(s, steps, i);
    } else {
      var k := j - 1;
      var before, from;
      t, before := Grows(s, steps, i, k, base);
      from, u := GrowsAt(s, steps, k, j, base);
      KnowsMoreStill(t, from, u);
    }
  }

  lemma StepCarries(s: Process, step: Step, w: nat, base: Dict)
    requires Inv(s, base) && Enabled(s, step) && w in s.store.flagged
    requires step == READ_FLAG || Storage.Carries(s.store, w)
    ensures w in Next(s, step).store.flagged && Storage.Carries(Next(s, step).store, w)
    ensures step == MOVED_IN ==> w < Next(s, step).store.version
  {
    match step
    case Net(e) =>
      if Performs(s.net, e).Some? {
        Storage.CarryStep(s.store, Storage.Access(Performs(s.net, e).value), w, base);
      }
    case Disk(d) =>
      Storage.CarryStep(s.store, d, w, base);
  }

  /** Step `r` reads the flag, and until step `k` it is not read again: what the worker does is one `UpdateFile`. */
  ghost predicate OneUpdate(steps: seq<Step>, r: nat, k: nat) {
    r < k <= |steps| && steps[r] == READ_FLAG && forall i | r < i < k :: steps[i] != READ_FLAG
  }

  lemma UpdateGoesOn(steps: seq<Step>, r: nat, k: nat)
    requires OneUpdate(steps, r, k) && k < |steps| && steps[k] == MOVED_IN
    ensures OneUpdate(steps, r, k + 1)
  {
  }

  lemma UpdateSoFar(steps: seq<Step>, r: nat, k: nat)
    requires OneUpdate(steps, r, k + 1) && r < k
    ensures OneUpdate(steps, r, k)
  {
  }

  /** From an `UpdateFile`'s flag read on, until the next one, write `w` is on its way to the file; step `k` is the
      last one so far, and `m` is the state after it. */
  lemma {:induction false} Carried(s: Process, steps: seq<Step>, r: nat, k: nat, m: nat, u: Process, w: nat, base: Dict)
    returns (next: Process)
    requires Inv(s, base) && ValidRun(s, steps) && OneUpdate(steps, r, m) && m == k + 1
    requires u == At(s, steps, r) && w in u.store.flagged
    ensures next == At(s, steps, m) && w in next.store.flagged && Storage.Carries(next.store, w)
    ensures steps[k] == MOVED_IN ==> w < next.store.version
    decreases k
  {
    if r == k {
      next := CarriedOn(s, steps, r, m, u, w, base);
    } else {
      UpdateSoFar(steps, r, k);
      var t := Carried(s, steps, r, k - 1, k, u, w, base);
      next := CarriedOn(s, steps, k, m, t, w, base);
    }
  }

  lemma CarriedOn(s: Process, steps: seq<Step>, k: nat, m: nat, t: Process, w: nat, base: Dict) returns (next: Process)
    requires Inv(s, base) && ValidRun(s, steps) && k < m == k + 1 <= |steps| && t == At(s, steps, k)
    requires w in t.store.flagged && (steps[k] == READ_FLAG || Storage.Carries(t.store, w))
    ensures next == At(s, steps, m) && w in next.store.flagged && Storage.Carries(next.store, w)
    ensures steps[k] == MOVED_IN ==> w < next.store.version
  {
    var from;
    from, next := StepAt(s, steps, k, base);
    StepCarries(from, steps[k], w, base);
  }

  /** The reply to the operation at place `w` of the log has been written before step `r`, or its client has it. */
  ghost predicate Answered(s: Process, steps: seq<Step>, r: nat, w: nat)
    requires ValidRun(s, steps) && r <= |steps|
  {
    || (exists i | 0 <= i < r :: ReplyAt(s, steps, i, w))
    || (exists c | 0 <= c < |At(s, steps, r).net.clients| :: w in At(s, steps, r).net.clients[c].accepted)
  }

  ghost predicate ReplyAt(s: Process, steps: seq<Step>, i: nat, w: nat)
    requires ValidRun(s, steps) && i < |steps|
  {
    && steps[i].Net? && steps[i].e.Reply?
    && var clients, c := At(s, steps, i).net.clients, steps[i].e.c;
       c < |clients| && clients[c].phase.Settled? && clients[c].phase.ticket == w
  }

  lemma ReplyHasReturned(s: Process, steps: seq<Step>, i: nat, w: nat, base: Dict) returns (t: Process)
    requires Inv(s, base) && ValidRun(s, steps) && i < |steps| && ReplyAt(s, steps, i, w)
    ensures t == At(s, steps, i) && Returned(t.store, w)
  {
    var next;
    t, next := StepAt(s, steps, i, base);
  }

  lemma AnsweredHasReturned(s: Process, steps: seq<Step>, r: nat, w: nat, base: Dict) returns (u: Process)
    requires Inv(s, base) && ValidRun(s, steps) && r <= |steps| && Answered(s, steps, r, w)
    ensures u == At(s, steps, r) && Inv(u, base) && Returned(u.store, w)
  {
    AtKeeps(s, steps, r, base);
    u := At(s, steps, r);
    if i: nat :| i < r && ReplyAt(s, steps, i, w) {
      var t := ReplyHasReturned(s, steps, i, w, base);
      var from, to := Grows(s, steps, i, r, base);
      assert from == t && to == u;
    } else {
      var c :| 0 <= c < |u.net.clients| && w in u.net.clients[c].accepted;
      assert Told(u.net.clients[c], u.store);
    }
  }

  /** What is certain to be saved: every write answered before the flag read of an update that has moved its file in.
      The surviving file then loads to a prefix of the total order that holds the write. */
  lemma AnsweredIsSaved(text: bytes, leftOver: Option<bytes>, draft: Option<bytes>,
                        scripts: seq<seq<ClientConfig.Command>>, steps: seq<Step>, r: nat, k: nat, w: nat)
    requires System.FittingStart(Loaded(map[], text), scripts)
    requires ValidRun(Begin(text, leftOver, draft, scripts), steps)
    requires OneUpdate(steps, r, k) && k < |steps| && steps[k] == MOVED_IN
    requires Answered(Begin(text, leftOver, draft, scripts), steps, r, w)
    ensures var u, t := At(Begin(text, leftOver, draft, scripts), steps, r),
                        Run(Begin(text, leftOver, draft, scripts), steps);
            && w < |u.net.log| && u.net.log <= t.net.log
            && (t.net.log[w].op.Put? ==> w < t.store.version)
  {
    BeginKeeps(text, leftOver, draft, scripts);
    AnsweredIsCarried(Begin(text, leftOver, draft, scripts), steps, r, k, w, Loaded(map[], text));
  }

  lemma GrowsToTheEnd(s: Process, steps: seq<Step>, i: nat, base: Dict) returns (t: Process, end: Process)
    requires Inv(s, base) && ValidRun(s, steps) && i <= |steps|
    ensures t == At(s, steps, i) && end == Run(s, steps)
    ensures KnowsMore(t, end)
  {
    t, end := Grows(s, steps, i, |steps|, base);
  }

  lemma CarriedToTheEnd(s: Process, steps: seq<Step>, r: nat, k: nat, u: Process, w: nat, base: Dict)
    returns (end: Process)
    requires Inv(s, base) && ValidRun(s, steps) && OneUpdate(steps, r, k) && k < |steps| && steps[k] == MOVED_IN
    requires u == At(s, steps, r) && w in u.store.flagged
    ensures end == Run(s, steps) && w < end.store.version
  {
    UpdateGoesOn(steps, r, k);
    var m := k + 1;
    var next := Carried(s, steps, r, k, m, u, w, base);
    var from;
    from, end := GrowsToTheEnd(s, steps, m, base);
  }

  lemma AnsweredIsCarried(s: Process, steps: seq<Step>, r: nat, k: nat, w: nat, base: Dict)
    requires Inv(s, base) && ValidRun(s, steps) && OneUpdate(steps, r, k) && k < |steps| && steps[k] == MOVED_IN
    requires Answered(s, steps, r, w)
    ensures var u, t := At(s, steps, r), Run(s, steps);
            && w < |u.net.log| && u.net.log <= t.net.log
            && (t.net.log[w].op.Put? ==> w < t.store.version)
  {
    var u := AnsweredInLog(s, steps, r, w, base);
    var from, end := GrowsToTheEnd(s, steps, r, base);
    assert end.net.log[w] == u.net.log[w];
    if u.net.log[w].op.Put? {
      var _ := CarriedToTheEnd(s, steps, r, k, u, w, base);
    }
  }

  lemma AnsweredInLog(s: Process, steps: seq<Step>, r: nat, w: nat, base: Dict) returns (u: Process)
    requires Inv(s, base) && ValidRun(s, steps) && r <= |steps| && Answered(s, steps, r, w)
    ensures u == At(s, steps, r) && w < |u.net.log| && (u.net.log[w].op.Put? ==> w in u.store.flagged)
  {
    u := AnsweredHasReturned(s, steps, r, w, base);
    Theorems.OpsAt(u.net.log);
  }

  lemma AcceptedAt(s: System.State, init: Dict, scripts: seq<seq<ClientConfig.Command>>, op: Op)
    returns (c: nat, w: nat)
    requires System.Inv(s, init) && Theorems.AllDone(s) && Theorems.RunsScripts(s, scripts)
    requires op in Exactly.Joined(scripts)
    ensures c < |s.clients| && w in s.clients[c].accepted && w < |s.log| && s.log[w].op == op
  {
    Exactly.InJoined(scripts, op);
    c :| c < |scripts| && op in System.ScriptOps(scripts[c]);
    var j := Theorems.CommandOf(scripts[c], op);
    assert System.ClientInv(s.clients, s.log, c);
    assert System.Accepted(s.clients[c], c, s.log, j);
    w := s.clients[c].accepted[j];
  }

  /** Every write of the scripts is in the prefix that is saved, if they were done by the flag read. */
  lemma DoneIsSaved(s: Process, steps: seq<Step>, r: nat, k: nat, op: Op,
                    scripts: seq<seq<ClientConfig.Command>>, base: Dict)
    requires Inv(s, base) && ValidRun(s, steps) && Theorems.RunsScripts(s.net, scripts)
    requires OneUpdate(steps, r, k) && k < |steps| && steps[k] == MOVED_IN
    requires Theorems.AllDone(At(s, steps, r).net) && op in Exactly.Joined(scripts) && op.Put?
    ensures var t := Run(s, steps);
            t.store.version <= |t.net.log| && op in Ops(t.net.log[..t.store.version])
  {
    var u, t := At(s, steps, r), Run(s, steps);
    AtKeeps(s, steps, r, base);
    AtScripts(s, steps, r, scripts);
    var c, w := AcceptedAt(u.net, base, scripts, op);
    assert Answered(s, steps, r, w);
    AnsweredIsCarried(s, steps, r, k, w, base);
    RunKeeps(s, steps, base);
    InPrefix(t.net.log, t.store.version, w);
  }

  lemma InPrefix(log: seq<Entry>, n: nat, w: nat)
    requires w < n <= |Ops(log)|
    ensures n <= |log| && log[w].op in Ops(log[..n])
  {
    Theorems.OpsAt(log);
    Theorems.OpsAt(log[..n]);
    assert Ops(log[..n])[w] == log[w].op;
  }

  lemma {:induction false} AtScripts(s: Process, steps: seq<Step>, i: nat, scripts: seq<seq<ClientConfig.Command>>)
    requires ValidRun(s, steps) && i <= |steps| && Theorems.RunsScripts(s.net, scripts)
    ensures Theorems.RunsScripts(At(s, steps, i).net, scripts)
    decreases |steps|
  {
    if i == |steps| {
      NetScripts(s, steps, scripts);
    } else {
      AtScripts(s, steps[..|steps| - 1], i, scripts);
    }
  }

  lemma SavedWrites(t: Process, scripts: seq<seq<ClientConfig.Command>>, n: nat, base: Dict, key: bytes)
    requires Inv(t, base) && Theorems.RunsScripts(t.net, scripts) && n <= |t.net.log|
    requires forall op <- Exactly.Joined(scripts) :: op.Put? ==> op in Ops(t.net.log[..n])
    ensures SameWrites(Ops(t.net.log[..n]), Exactly.Joined(scripts), key)
  {
    OpsPrefix(t.net.log, n);
    forall op | op in Ops(t.net.log[..n])
      ensures op in Exactly.Joined(scripts)
    {
      var c := Theorems.LoggedIsInScript(t.net, base, op);
      Exactly.InJoined(scripts, op);
    }
  }

  /** End to end: scripts that are done before the flag read of an update that has moved its file in, and that write
      no key with two different values, are in the file as if they had run one after another. */
  lemma FinishedIsSaved(text: bytes, leftOver: Option<bytes>, draft: Option<bytes>,
                        scripts: seq<seq<ClientConfig.Command>>, steps: seq<Step>, r: nat, k: nat)
    requires System.FittingStart(Loaded(map[], text), scripts) && NewlineFreeScripts(scripts)
    requires OneValue(Exactly.Joined(scripts))
    requires ValidRun(Begin(text, leftOver, draft, scripts), steps)
    requires OneUpdate(steps, r, k) && k < |steps| && steps[k] == MOVED_IN
    requires Theorems.AllDone(At(Begin(text, leftOver, draft, scripts), steps, r).net)
    ensures var t := Run(Begin(text, leftOver, draft, scripts), steps);
            Saved(t).Some? && Loaded(map[], Saved(t).value) == Replay(Loaded(map[], text), Exactly.Joined(scripts))
  {
    var s, base := Begin(text, leftOver, draft, scripts), Loaded(map[], text);
    BeginKeeps(text, leftOver, draft, scripts);
    SavedIsPrefix(text, leftOver, draft, scripts, steps);
    RunKeeps(s, steps, base);
    NetScripts(s, steps, scripts);
    forall op | op in Exactly.Joined(scripts) && op.Put?
      ensures op in Ops(Run(s, steps).net.log[..Run(s, steps).store.version])
    {
      DoneIsSaved(s, steps, r, k, op, scripts, base);
    }
    PrefixDecides(Run(s, steps), scripts, base);
  }

  lemma PrefixDecides(t: Process, scripts: seq<seq<ClientConfig.Command>>, base: Dict)
    requires Inv(t, base) && Theorems.RunsScripts(t.net, scripts) && t.store.version <= |t.net.log|
    requires OneValue(Exactly.Joined(scripts))
    requires forall op <- Exactly.Joined(scripts) :: op.Put? ==> op in Ops(t.net.log[..t.store.version])
    ensures Replay(base, Ops(t.net.log[..t.store.version])) == Replay(base, Exactly.Joined(scripts))
  {
    var saved, joined := Ops(t.net.log[..t.store.version]), Exactly.Joined(scripts);
    forall key
      ensures Lookup(Replay(base, saved), key) == Lookup(Replay(base, joined), key)
    {
      SavedWrites(t, scripts, t.store.version, base, key);
      OneValueDecides(base, saved, joined, key);
    }
    SameMap(Replay(base, saved), Replay(base, joined));
  }
}
