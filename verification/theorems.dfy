/** What holds of every run of the whole system. */
module Theorems {
  import opened Bytes
  import opened Proto
  import opened KVFile
  import opened AtomicMap
  import opened Server
  import opened System

  lemma {:induction false} ScriptsStay(s: State, events: seq<Event>)
    requires ValidRun(s, events)
    ensures |Run(s, events).clients| == |s.clients|
    ensures forall c | 0 <= c < |s.clients| :: Run(s, events).clients[c].script == s.clients[c].script
    decreases |events|
  {
    if events != [] {
      ScriptsStay(s, events[..|events| - 1]);
    }
  }

  /** The clients of `s` run `scripts`. */
  ghost predicate RunsScripts(s: State, scripts: seq<seq<Command>>) {
    |s.clients| == |scripts| && forall c | 0 <= c < |scripts| :: s.clients[c].script == scripts[c]
  }

  lemma Reached(init: Dict, scripts: seq<seq<Command>>, events: seq<Event>)
    requires FittingStart(init, scripts) && ValidRun(Start(init, scripts), events)
    ensures var t := Run(Start(init, scripts), events);
            Inv(t, init) && RunsScripts(t, scripts)
  {
    StartKeeps(init, scripts);
    RunKeeps(Start(init, scripts), events, init);
    ScriptsStay(Start(init, scripts), events);
  }

  /** The log holds a client's commands in script order, each repeated in a row as often as it was executed in
      time: at least once if it is behind the client, not at all if it is still to come. What was executed late is
      one of the commands up to the current one. Each answer that the client has accepted is the one its command
      got at its place in the log. */
  ghost predicate Explains(log: seq<Entry>, c: nat, script: seq<Command>, cl: Client) {
    && cl.script == script
    && cl.pos <= |script| == |cl.times| && |cl.answers| == |cl.accepted| == cl.pos
    && OpsOf(log, c) == Stutter(ScriptOps(script), cl.times)
    && (forall i | 0 <= i < cl.pos :: cl.times[i] >= 1)
    && (forall i | cl.pos < i < |cl.times| :: cl.times[i] == 0)
    && LateOk(log, c, OpsSoFar(cl))
    && (forall j | 0 <= j < cl.pos ::
          cl.accepted[j] < |log| && log[cl.accepted[j]] == Entry(c, OpOf(script[j]), cl.answers[j], false))
  }

  lemma HistExplains(log: seq<Entry>, c: nat, cl: Client)
    requires HistInv(cl, c, log)
    ensures Explains(log, c, cl.script, cl)
  {
    forall j | 0 <= j < cl.pos
      ensures cl.accepted[j] < |log| && log[cl.accepted[j]] == Entry(c, OpOf(cl.script[j]), cl.answers[j], false)
    {
      assert Accepted(cl, c, log, j);
    }
  }

  /** The server refines an atomic map, over every run: one total order of the operations explains the map, every
      answer in it, and every client. */
  lemma Linearizable(init: Dict, scripts: seq<seq<Command>>, events: seq<Event>)
    requires FittingStart(init, scripts) && ValidRun(Start(init, scripts), events)
    ensures var t := Run(Start(init, scripts), events);
            && t.m == Replay(init, Ops(t.log)) && Legal(init, t.log)
            && |t.clients| == |scripts|
            && forall c | 0 <= c < |scripts| :: Explains(t.log, c, scripts[c], t.clients[c])
  {
    Reached(init, scripts, events);
    var t := Run(Start(init, scripts), events);
    forall c | 0 <= c < |scripts|
      ensures Explains(t.log, c, scripts[c], t.clients[c])
    {
      assert ClientInv(t.clients, t.log, c);
      HistExplains(t.log, c, t.clients[c]);
    }
  }

  /** A read in the log is of the latest write of its key before it; without one, of the initial value, or empty. */
  lemma ReadIsLatest(init: Dict, log: seq<Entry>, i: nat)
    requires Legal(init, log) && i < |log| && log[i].op.Get?
    ensures forall p: nat | IsLatestPut(Ops(log[..i]), log[i].op.key, p) :: log[i].answer == Ops(log[..i])[p].value
    ensures (forall op <- Ops(log[..i]) :: !(op.Put? && op.key == log[i].op.key)) ==>
              log[i].answer == if log[i].op.key in init then init[log[i].op.key] else []
  {
    ReplayIsLatest(init, Ops(log[..i]), log[i].op.key);
    var now := Lookup(Replay(init, Ops(log[..i])), log[i].op.key);
    assert log[i].answer == if now.Some? then now.value else [];
  }

  /** Since the log had `n` entries: what client `c` has executed or accepted since is after these. */
  ghost predicate Later(s: State, c: nat, n: nat, acceptedBefore: nat) {
    && n <= |s.log| && c < |s.clients| && acceptedBefore <= |s.clients[c].accepted|
    && (s.clients[c].phase.Settled? ==> n <= s.clients[c].phase.ticket)
    && (forall j | acceptedBefore <= j < |s.clients[c].accepted| :: n <= s.clients[c].accepted[j])
  }

  lemma StepLater(s: State, e: Event, c: nat, n: nat, acceptedBefore: nat)
    requires Enabled(s, e) && Later(s, c, n, acceptedBefore)
    ensures s.log <= Next(s, e).log && Later(Next(s, e), c, n, acceptedBefore)
  {
  }

  /** Real-time order: the log only grows, and what a client asks for later takes a later place in it than
      everything that had been executed before. */
  lemma {:induction false} RealTimeOrder(s: State, events: seq<Event>, c: nat)
    requires ValidRun(s, events) && c < |s.clients| && !s.clients[c].phase.Settled?
    ensures s.log <= Run(s, events).log && Later(Run(s, events), c, |s.log|, |s.clients[c].accepted|)
    decreases |events|
  {
    if events != [] {
      var before := events[..|events| - 1];
      RealTimeOrder(s, before, c);
      StepLater(Run(s, before), events[|events| - 1], c, |s.log|, |s.clients[c].accepted|);
    }
  }

  function LateCount(log: seq<Entry>): nat {
    if log == [] then 0 else LateCount(log[..|log| - 1]) + (if log[|log| - 1].late then 1 else 0)
  }

  /** How often connections broke. */
  function Breaks(events: seq<Event>): nat {
    if events == [] then 0
    else Breaks(events[..|events| - 1]) + (if events[|events| - 1].Disconnect? then 1 else 0)
  }

  lemma LateCountPush(log: seq<Entry>, e: Entry)
    ensures LateCount(log + [e]) == LateCount(log) + (if e.late then 1 else 0)
  {
    assert (log + [e])[..|log|] == log;
  }

  lemma StepLateCount(s: State, e: Event)
    requires Enabled(s, e)
    ensures var next := Next(s, e);
            LateCount(next.log) + |next.orphans| <= LateCount(s.log) + |s.orphans| + (if e.Disconnect? then 1 else 0)
  {
    if e.Execute? || e.ExecuteLate? {
      var last := Next(s, e).log[|s.log|];
      assert Next(s, e).log == s.log + [last];
      LateCountPush(s.log, last);
    }
  }

  /** A broken connection costs at most one late execution. */
  lemma {:induction false} LateAtMostOnce(s: State, events: seq<Event>)
    requires ValidRun(s, events)
    ensures var t := Run(s, events);
            LateCount(t.log) + |t.orphans| <= LateCount(s.log) + |s.orphans| + Breaks(events)
    decreases |events|
  {
    if events != [] {
      var before := events[..|events| - 1];
      LateAtMostOnce(s, before);
      StepLateCount(Run(s, before), events[|events| - 1]);
    }
  }

  // ---------------------------------------------------------------- final maps

  ghost predicate AllDone(s: State) {
    forall c | 0 <= c < |s.clients| :: s.clients[c].pos == |s.clients[c].script|
  }

  function AllOps(scripts: seq<seq<Command>>): seq<seq<Op>> {
    seq(|scripts|, c requires 0 <= c < |scripts| => ScriptOps(scripts[c]))
  }

  function AllTimes(s: State): seq<seq<nat>> {
    seq(|s.clients|, c requires 0 <= c < |s.clients| => s.clients[c].times)
  }

  lemma DoneIsARun(s: State, init: Dict, scripts: seq<seq<Command>>)
    requires Inv(s, init) && AllDone(s) && RunsScripts(s, scripts)
    ensures Runs(s.log, AllOps(scripts), AllTimes(s))
  {
    forall c | 0 <= c < |scripts|
      ensures |ScriptOps(scripts[c])| == |s.clients[c].times|
      ensures forall n <- s.clients[c].times :: n >= 1
      ensures OpsOf(s.log, c) == Stutter(ScriptOps(scripts[c]), s.clients[c].times)
    {
      assert ClientInv(s.clients, s.log, c);
    }
  }

  /** Every client touches only keys that `owner` gives to it. */
  ghost predicate SeparateScripts(scripts: seq<seq<Command>>, owner: bytes -> nat) {
    forall c, i | 0 <= c < |scripts| && 0 <= i < |scripts[c]| :: owner(OpOf(scripts[c][i]).key) == c
  }

  lemma {:induction false} OpsOfContains(log: seq<Entry>, e: Entry)
    requires e in log && !e.late
    ensures e.op in OpsOf(log, e.client)
  {
    var front, last := log[..|log| - 1], log[|log| - 1];
    assert log == front + [last];
    if last != e {
      OpsOfContains(front, e);
    }
  }

  lemma {:induction false} StutterContains(ops: seq<Op>, times: seq<nat>, op: Op)
    requires |ops| == |times| && op in Stutter(ops, times)
    ensures op in ops
  {
    var n := |ops| - 1;
    if op in Stutter(ops[..n], times[..n]) {
      StutterContains(ops[..n], times[..n], op);
    } else {
      assert op in Copies(ops[n], times[n]);
    }
  }

  /** Whatever was executed for a client, in time or late, is in its script. */
  lemma EntryInScript(cl: Client, c: nat, log: seq<Entry>, e: Entry)
    requires HistInv(cl, c, log) && e in log && e.client == c
    ensures e.op in ScriptOps(cl.script)
  {
    if e.late {
      var i :| 0 <= i < |log| && log[i] == e;
      assert e.op in OpsSoFar(cl);
    } else {
      OpsOfContains(log, e);
      StutterContains(ScriptOps(cl.script), cl.times, e.op);
    }
  }

  lemma CommandOf(script: seq<Command>, op: Op) returns (i: nat)
    requires op in ScriptOps(script)
    ensures i < |script| && OpOf(script[i]) == op
  {
    i :| i < |script| && ScriptOps(script)[i] == op;
  }

  lemma SeparateLog(s: State, init: Dict, scripts: seq<seq<Command>>, owner: bytes -> nat)
    requires Inv(s, init) && RunsScripts(s, scripts) && SeparateScripts(scripts, owner)
    ensures Separate(s.log, owner)
  {
    forall e | e in s.log
      ensures owner(e.op.key) == e.client
    {
      assert ClientInv(s.clients, s.log, e.client);
      EntryInScript(s.clients[e.client], e.client, s.log, e);
      var i := CommandOf(scripts[e.client], e.op);
    }
  }

  lemma {:induction false} OpsAt(log: seq<Entry>)
    ensures |Ops(log)| == |log| && forall i | 0 <= i < |log| :: Ops(log)[i] == log[i].op
  {
    if log != [] {
      OpsAt(log[..|log| - 1]);
    }
  }

  /** With all scripts done, every command is in the log. */
  lemma DoneIsLogged(s: State, init: Dict, c: nat, op: Op)
    requires Inv(s, init) && AllDone(s) && c < |s.clients| && op in ScriptOps(s.clients[c].script)
    ensures op in Ops(s.log)
  {
    var cl := s.clients[c];
    assert ClientInv(s.clients, s.log, c);
    var j :| 0 <= j < |cl.script| && op == OpOf(cl.script[j]);
    assert Accepted(cl, c, s.log, j);
    OpsAt(s.log);
    assert Ops(s.log)[cl.accepted[j]] == op;
  }

  lemma LoggedIsInScript(s: State, init: Dict, op: Op) returns (c: nat)
    requires Inv(s, init) && op in Ops(s.log)
    ensures c < |s.clients| && op in ScriptOps(s.clients[c].script)
    ensures exists e <- s.log :: e.client == c && e.op == op
  {
    OpsAt(s.log);
    var i :| 0 <= i < |s.log| && s.log[i].op == op;
    c := s.log[i].client;
    assert s.log[i] in s.log;
    assert ClientInv(s.clients, s.log, c);
    EntryInScript(s.clients[c], c, s.log, s.log[i]);
  }

  lemma OwnersWrites(s: State, init: Dict, scripts: seq<seq<Command>>, owner: bytes -> nat, key: bytes)
    requires Inv(s, init) && AllDone(s) && RunsScripts(s, scripts) && Separate(s.log, owner) && owner(key) < |scripts|
    ensures SameWrites(Ops(s.log), ScriptOps(scripts[owner(key)]), key)
  {
    forall op | op in Ops(s.log) && op.Put? && op.key == key
      ensures op in ScriptOps(scripts[owner(key)])
    {
      var _ := LoggedIsInScript(s, init, op);
    }
    forall op | op in ScriptOps(scripts[owner(key)])
      ensures op in Ops(s.log)
    {
      DoneIsLogged(s, init, owner(key), op);
    }
  }

  /** No late write of `key`, or only one value to write. */
  ghost predicate Harmless(log: seq<Entry>, scripts: seq<seq<Command>>, owner: bytes -> nat, key: bytes) {
    InTime(log, key) || (owner(key) < |scripts| ==> OneValueOf(ScriptOps(scripts[owner(key)]), key))
  }

  /** Clients with separate keys leave under a key what its owner's script alone makes of it, if no abandoned write
      of the key was executed late, or could not have mattered. */
  lemma FinalMap(init: Dict, scripts: seq<seq<Command>>, events: seq<Event>, owner: bytes -> nat, key: bytes)
    requires FittingStart(init, scripts) && SeparateScripts(scripts, owner)
    requires ValidRun(Start(init, scripts), events) && AllDone(Run(Start(init, scripts), events))
    requires Harmless(Run(Start(init, scripts), events).log, scripts, owner, key)
    ensures Lookup(Run(Start(init, scripts), events).m, key)
            == if owner(key) < |scripts| then Lookup(Replay(init, ScriptOps(scripts[owner(key)])), key)
               else Lookup(init, key)
  {
    var t := Run(Start(init, scripts), events);
    Reached(init, scripts, events);
    SeparateLog(t, init, scripts, owner);
    if InTime(t.log, key) || owner(key) >= |scripts| {
      DoneIsARun(t, init, scripts);
      OwnScriptDecides(init, t.log, AllOps(scripts), AllTimes(t), owner, key);
    } else {
      OwnersWrites(t, init, scripts, owner, key);
      OneValueDecides(init, Ops(t.log), ScriptOps(scripts[owner(key)]), key);
    }
  }

  /** Then clients with separate keys end in one and the same map, whatever the interleaving, chunking and retries. */
  lemma SameFinalMap(init: Dict, scripts: seq<seq<Command>>, a: seq<Event>, b: seq<Event>, owner: bytes -> nat)
    requires FittingStart(init, scripts) && SeparateScripts(scripts, owner)
    requires ValidRun(Start(init, scripts), a) && AllDone(Run(Start(init, scripts), a))
    requires ValidRun(Start(init, scripts), b) && AllDone(Run(Start(init, scripts), b))
    requires forall key :: Harmless(Run(Start(init, scripts), a).log, scripts, owner, key)
    requires forall key :: Harmless(Run(Start(init, scripts), b).log, scripts, owner, key)
    ensures Run(Start(init, scripts), a).m == Run(Start(init, scripts), b).m
  {
    forall key
      ensures Lookup(Run(Start(init, scripts), a).m, key) == Lookup(Run(Start(init, scripts), b).m, key)
    {
      FinalMap(init, scripts, a, owner, key);
      FinalMap(init, scripts, b, owner, key);
    }
    SameMap(Run(Start(init, scripts), a).m, Run(Start(init, scripts), b).m);
  }

  /** Retries alone are exactly-once in effect: with no late write, a client alone ends with each command of its
      script applied once. */
  lemma ExactlyOnce(init: Dict, script: seq<Command>, events: seq<Event>)
    requires FittingStart(init, [script]) && ValidRun(Start(init, [script]), events)
    requires AllDone(Run(Start(init, [script]), events))
    requires forall key :: InTime(Run(Start(init, [script]), events).log, key)
    ensures Run(Start(init, [script]), events).m == Replay(init, ScriptOps(script))
  {
    var t := Run(Start(init, [script]), events);
    forall key
      ensures Lookup(t.m, key) == Lookup(Replay(init, ScriptOps(script)), key)
    {
      FinalMap(init, [script], events, _ => 0, key);
    }
    SameMap(t.m, Replay(init, ScriptOps(script)));
  }

  // ---------------------------------------------------------------- reads

  lemma {:induction false} StutterHas(ops: seq<Op>, times: seq<nat>, op: Op)
    requires |ops| == |times| && op in ops && forall n <- times :: n >= 1
    ensures op in Stutter(ops, times)
  {
    var n := |ops| - 1;
    assert ops == ops[..n] + [ops[n]];
    assert times[n] in times && forall x <- times[..n] :: x in times;
    if op in ops[..n] {
      StutterHas(ops[..n], times[..n], op);
    } else {
      assert Copies(ops[n], times[n])[0] == op;
    }
  }

  lemma {:induction false} OpsOfInOps(log: seq<Entry>, c: nat, op: Op)
    requires op in OpsOf(log, c)
    ensures op in Ops(log)
  {
    if op in OpsOf(log[..|log| - 1], c) {
      OpsOfInOps(log[..|log| - 1], c, op);
    }
  }

  lemma SameAnswer(m: Dict, n: Dict, op: Op)
    requires Lookup(m, op.key) == Lookup(n, op.key)
    ensures Answer(m, op) == Answer(n, op)
  {
  }

  lemma OpsOfNext(log: seq<Entry>, i: nat)
    requires i < |log| && !log[i].late
    ensures OpsOf(log[..i + 1], log[i].client) == OpsOf(log[..i], log[i].client) + [log[i].op]
  {
    assert log[..i + 1] == log[..i] + [log[i]];
    LogPush(log[..i], log[i], log[i].client);
  }

  lemma SeparatePrefix(log: seq<Entry>, owner: bytes -> nat, i: nat)
    requires Separate(log, owner) && i < |log|
    ensures Separate(log[..i], owner) && owner(log[i].op.key) == log[i].client
  {
    assert log[i] in log && forall e <- log[..i] :: e in log;
  }

  /** Entry `i` of the log is the last execution of the last of `ops`, and what its client had executed before, in
      time or late, is in `ops`. */
  ghost predicate Reads(log: seq<Entry>, i: nat, ops: seq<Op>, times: seq<nat>) {
    && i < |log| && log[i].op.Get? && !log[i].late
    && |ops| == |times| > 0 && ops[|ops| - 1] == log[i].op && (forall n <- times :: n >= 1)
    && OpsOf(log[..i + 1], log[i].client) == Stutter(ops, times)
    && LateOk(log[..i + 1], log[i].client, ops)
  }

  lemma ReadInTime(init: Dict, log: seq<Entry>, owner: bytes -> nat, i: nat, ops: seq<Op>, times: seq<nat>)
    requires Legal(init, log) && Separate(log, owner) && Reads(log, i, ops, times)
    requires InTime(log, log[i].op.key)
    ensures log[i].answer == Answer(Replay(init, ops[..|ops| - 1]), log[i].op)
  {
    var e, before := log[i], OpsOf(log[..i], log[i].client);
    OpsOfNext(log, i);
    ReplayPush(init, before, e.op);
    StutterIsOnce(init, ops, times);
    SeparatePrefix(log, owner, i);
    assert forall x <- log[..i] :: x in log;
    OwnOpsDecide(init, log[..i], owner, e.op.key);
    SameAnswer(Replay(init, Ops(log[..i])), Replay(init, ops[..|ops| - 1]), e.op);
  }

  lemma WriteBefore(log: seq<Entry>, owner: bytes -> nat, i: nat, ops: seq<Op>, times: seq<nat>, op: Op)
    requires Separate(log, owner) && Reads(log, i, ops, times) && op.Put? && op.key == log[i].op.key
    ensures op in Ops(log[..i]) ==> op in ops[..|ops| - 1]
    ensures op in ops[..|ops| - 1] ==> op in Ops(log[..i])
  {
    var e, n := log[i], |ops| - 1;
    assert ops == ops[..n] + [e.op];
    OpsOfNext(log, i);
    if op in Ops(log[..i]) {
      OpsAt(log[..i]);
      var q :| 0 <= q < i && log[q].op == op;
      SeparatePrefix(log, owner, q);
      SeparatePrefix(log, owner, i);
      if log[q].late {
        assert log[..i + 1][q].op in ops;
      } else {
        assert log[..i][q] in log[..i];
        OpsOfContains(log[..i], log[q]);
        StutterContains(ops, times, op);
      }
    }
    if op in ops[..n] {
      StutterHas(ops, times, op);
      OpsOfInOps(log[..i], e.client, op);
    }
  }

  lemma ReadOfOneValue(init: Dict, log: seq<Entry>, owner: bytes -> nat, i: nat, ops: seq<Op>, times: seq<nat>)
    requires Legal(init, log) && Separate(log, owner) && Reads(log, i, ops, times)
    requires OneValueOf(ops[..|ops| - 1], log[i].op.key)
    ensures log[i].answer == Answer(Replay(init, ops[..|ops| - 1]), log[i].op)
  {
    var e, front := log[i], ops[..|ops| - 1];
    forall op: Op | op.Put? && op.key == e.op.key
      ensures op in Ops(log[..i]) <==> op in front
    {
      WriteBefore(log, owner, i, ops, times, op);
    }
    assert SameWrites(Ops(log[..i]), front, e.op.key);
    OneValueDecides(init, Ops(log[..i]), front, e.op.key);
    SameAnswer(Replay(init, Ops(log[..i])), Replay(init, front), e.op);
  }

  lemma AcceptedReads(cl: Client, c: nat, log: seq<Entry>, j: nat)
    requires HistInv(cl, c, log) && j < cl.pos && OpOf(cl.script[j]).Get?
    ensures Reads(log, cl.accepted[j], ScriptOps(cl.script)[..j + 1], cl.times[..j + 1])
    ensures log[cl.accepted[j]] == Entry(c, OpOf(cl.script[j]), cl.answers[j], false)
  {
    assert Accepted(cl, c, log, j);
    var times := cl.times[..j + 1];
    assert forall i | 0 <= i < |times| :: times[i] >= 1;
  }

  lemma ReadOfEither(init: Dict, log: seq<Entry>, owner: bytes -> nat, i: nat, ops: seq<Op>, times: seq<nat>)
    requires Legal(init, log) && Separate(log, owner) && Reads(log, i, ops, times)
    requires InTime(log, log[i].op.key) || OneValueOf(ops[..|ops| - 1], log[i].op.key)
    ensures log[i].answer == Answer(Replay(init, ops[..|ops| - 1]), log[i].op)
  {
    if InTime(log, log[i].op.key) {
      ReadInTime(init, log, owner, i, ops, times);
    } else {
      ReadOfOneValue(init, log, owner, i, ops, times);
    }
  }

  lemma AcceptedIsOwn(init: Dict, log: seq<Entry>, owner: bytes -> nat, cl: Client, c: nat, j: nat)
    requires Legal(init, log) && Separate(log, owner) && HistInv(cl, c, log) && j < cl.pos
    requires OpOf(cl.script[j]).Get?
    requires var key := OpOf(cl.script[j]).key;
             InTime(log, key) || OneValueOf(ScriptOps(cl.script)[..j], key)
    ensures cl.answers[j] == Answer(Replay(init, ScriptOps(cl.script)[..j]), OpOf(cl.script[j]))
  {
    AcceptedReads(cl, c, log, j);
    PrefixOf(ScriptOps(cl.script), j);
    ReadOfEither(init, log, owner, cl.accepted[j], ScriptOps(cl.script)[..j + 1], cl.times[..j + 1]);
  }

  lemma PrefixOf(ops: seq<Op>, j: nat)
    requires j < |ops|
    ensures |ops[..j + 1]| == j + 1 && ops[..j + 1][..j] == ops[..j]
  {
  }

  /** With separate keys, an accepted read is of the client's own latest write, else of the initial value, if no
      abandoned write of the key was executed late, or the client had only one value to write. */
  lemma OwnReads(init: Dict, scripts: seq<seq<Command>>, events: seq<Event>, owner: bytes -> nat, c: nat, j: nat)
    requires FittingStart(init, scripts) && SeparateScripts(scripts, owner)
    requires ValidRun(Start(init, scripts), events)
    requires c < |scripts| && j < |scripts[c]| && c < |Run(Start(init, scripts), events).clients|
    requires j < Run(Start(init, scripts), events).clients[c].pos
    requires var key := OpOf(scripts[c][j]).key;
             InTime(Run(Start(init, scripts), events).log, key) || OneValueOf(ScriptOps(scripts[c])[..j], key)
    ensures var cl := Run(Start(init, scripts), events).clients[c];
            j < |cl.answers| && cl.answers[j] == Answer(Replay(init, ScriptOps(scripts[c])[..j]), OpOf(scripts[c][j]))
  {
    Reached(init, scripts, events);
    var t := Run(Start(init, scripts), events);
    SeparateLog(t, init, scripts, owner);
    assert ClientInv(t.clients, t.log, c);
    assert Accepted(t.clients[c], c, t.log, j);
    if OpOf(scripts[c][j]).Get? {
      AcceptedIsOwn(init, t.log, owner, t.clients[c], c, j);
    }
  }
}
