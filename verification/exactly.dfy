/** Exactly when a client that repeats its commands gets what it asked for, in every run of the whole system. */
module Exactly {
  import opened Bytes
  import opened KVFile
  import opened AtomicMap
  import opened Server
  import opened System
  import opened Theorems
  import opened Progress

  /** The commands of all scripts, one script after the other. */
  function Joined(scripts: seq<seq<Command>>): seq<Op> {
    if scripts == [] then [] else Joined(scripts[..|scripts| - 1]) + ScriptOps(scripts[|scripts| - 1])
  }

  lemma {:induction false} InJoined(scripts: seq<seq<Command>>, op: Op)
    ensures op in Joined(scripts) <==> exists c | 0 <= c < |scripts| :: op in ScriptOps(scripts[c])
  {
    if scripts != [] {
      var front, last := scripts[..|scripts| - 1], scripts[|scripts| - 1];
      InJoined(front, op);
      if c: nat :| c < |front| && op in ScriptOps(front[c]) {
        assert op in ScriptOps(scripts[c]);
      }
      if c: nat :| c < |scripts| && op in ScriptOps(scripts[c]) {
        assert c < |front| ==> op in ScriptOps(front[c]);
      }
    }
  }

  lemma AllWrites(s: State, init: Dict, scripts: seq<seq<Command>>, key: bytes)
    requires Inv(s, init) && AllDone(s) && RunsScripts(s, scripts)
    ensures SameWrites(Ops(s.log), Joined(scripts), key)
  {
    forall op | op in Ops(s.log)
      ensures op in Joined(scripts)
    {
      var c := LoggedIsInScript(s, init, op);
      InJoined(scripts, op);
    }
    forall op | op in Joined(scripts)
      ensures op in Ops(s.log)
    {
      InJoined(scripts, op);
      var c: nat :| c < |scripts| && op in ScriptOps(scripts[c]);
      DoneIsLogged(s, init, c, op);
    }
  }

  /** A step of one client's connection leaves it where it is in its script, or behind the command, at rest. */
  lemma OwnStep(s: State, e: Event)
    requires Enabled(s, e) && Quiet(e)
    ensures var cl, next := s.clients[e.c], Next(s, e).clients[e.c];
            next.script == cl.script && (next.pos == cl.pos || (next.pos == cl.pos + 1 && next.phase.Resting?))
  {
  }

  /** Client `c` alone can go on until it rests before command `p`. */
  lemma {:induction false} Drive(s: State, events: seq<Event>, init: Dict, c: nat, p: nat, n: nat)
    returns (more: seq<Event>, t: State)
    requires ValidRun(s, events) && Inv(Run(s, events), init) && Work(Run(s, events)) <= n
    requires var u := Run(s, events);
             && c < |u.clients| && u.clients[c].pos <= p <= |u.clients[c].script|
             && (u.clients[c].pos == p ==> u.clients[c].phase.Resting?)
    ensures ValidRun(s, more) && t == Run(s, more) && Inv(t, init)
    ensures c < |t.clients| && t.clients[c].pos == p && t.clients[c].phase.Resting?
    ensures t.orphans == Run(s, events).orphans && t.clients[c].script == Run(s, events).clients[c].script
    decreases n
  {
    var u := Run(s, events);
    if u.clients[c].pos == p {
      more, t := events, u;
    } else {
      var e := QuietStep(u, init, c);
      OwnStep(u, e);
      RunSnoc(s, events, e);
      more, t := Drive(s, events + [e], init, c, p, n - 1);
    }
  }

  lemma RestingIsEmpty(s: State, init: Dict, c: nat)
    requires Inv(s, init) && c < |s.clients| && s.clients[c].phase.Resting? && s.clients[c].pos < |s.clients[c].script|
    ensures s.clients[c].clientHeld == [] && Enabled(s, Send(c))
  {
    assert ClientInv(s.clients, s.log, c);
  }

  lemma SendStep(s: State, init: Dict, c: nat) returns (next: State)
    requires Inv(s, init) && c < |s.clients| && s.clients[c].phase.Resting? && s.clients[c].pos < |s.clients[c].script|
    ensures Enabled(s, Send(c)) && next == Next(s, Send(c)) && Inv(next, init) && c < |next.clients|
    ensures next.clients[c] == Sent(s.clients[c]) && next.orphans == s.orphans
    ensures next.clients[c].phase.Asking? && next.clients[c].clientHeld == []
  {
    RestingIsEmpty(s, init, c);
    next := Next(s, Send(c));
    StepKeeps(s, Send(c), init);
  }

  lemma DisconnectStep(s: State, init: Dict, c: nat) returns (next: State)
    requires Inv(s, init) && c < |s.clients| && s.clients[c].phase.Asking? && s.clients[c].clientHeld == []
    ensures Enabled(s, Disconnect(c)) && next == Next(s, Disconnect(c)) && Inv(next, init) && c < |next.clients|
    ensures next.clients[c] == Dropped(s.clients[c]) && s.clients[c].pos < |s.clients[c].script|
    ensures Fitting(s.clients[c].script[s.clients[c].pos])
    ensures next.orphans
            == s.orphans + [Orphan(c, s.clients[c].pos, RequestFrame(s.clients[c].script[s.clients[c].pos]))]
  {
    assert ClientInv(s.clients, s.log, c);
    AbandonedIsRequest(s.clients[c]);
    next := Next(s, Disconnect(c));
    StepKeeps(s, Disconnect(c), init);
  }

  /** A client at rest sends its next command and gives it up. */
  lemma GiveUp(s: State, events: seq<Event>, init: Dict, c: nat) returns (more: seq<Event>, t: State)
    requires ValidRun(s, events) && Inv(Run(s, events), init)
    requires var u := Run(s, events);
             c < |u.clients| && u.clients[c].phase.Resting? && u.clients[c].pos < |u.clients[c].script|
    ensures ValidRun(s, more) && t == Run(s, more) && Inv(t, init)
    ensures var u := Run(s, events);
            && c < |t.clients| && t.clients[c].pos == u.clients[c].pos && t.clients[c].phase.Resting?
            && t.clients[c].script == u.clients[c].script && |t.orphans| == |u.orphans| + 1
            && t.orphans[|u.orphans|].client == c && t.orphans[|u.orphans|].pos == u.clients[c].pos
  {
    var u := Run(s, events);
    var sent := SendStep(u, init, c);
    RunSnoc(s, events, Send(c));
    t := DisconnectStep(sent, init, c);
    RunSnoc(s, events + [Send(c)], Disconnect(c));
    more := events + [Send(c)] + [Disconnect(c)];
  }

  /** The one request that was given up is executed now. */
  lemma ExecuteTheLate(s: State, events: seq<Event>, init: Dict, op: Op) returns (more: seq<Event>, t: State)
    requires ValidRun(s, events) && Inv(Run(s, events), init)
    requires var u := Run(s, events);
             && |u.orphans| == 1 && OrphanInv(u.clients, u.orphans[0])
             && op == OpOf(u.clients[u.orphans[0].client].script[u.orphans[0].pos])
    ensures ValidRun(s, more) && t == Run(s, more) && Inv(t, init)
    ensures t.clients == Run(s, events).clients && t.m == Apply(Run(s, events).m, op)
  {
    var u := Run(s, events);
    LateStep(u, 0);
    LateKeeps(u, 0, init);
    RunSnoc(s, events, ExecuteLate(0));
    more, t := events + [ExecuteLate(0)], Next(u, ExecuteLate(0));
  }

  /** Any write of any script can come last: given up by its client, and executed after all else is done. */
  lemma CanComeLast(init: Dict, scripts: seq<seq<Command>>, c: nat, p: nat) returns (events: seq<Event>)
    requires FittingStart(init, scripts) && c < |scripts| && p < |scripts[c]| && OpOf(scripts[c][p]).Put?
    ensures ValidRun(Start(init, scripts), events) && AllDone(Run(Start(init, scripts), events))
    ensures var op := OpOf(scripts[c][p]);
            Lookup(Run(Start(init, scripts), events).m, op.key) == Some(op.value)
  {
    var s := Start(init, scripts);
    StartKeeps(init, scripts);
    assert ValidRun(s, []) && Run(s, []) == s;
    var before, atRest := Drive(s, [], init, c, p, Work(s));
    var givenUp, waiting := GiveUp(s, before, init, c);
    InvWires(waiting, init);
    var finished := CanFinish(s, givenUp, init, Work(waiting));
    Reached(init, scripts, finished);
    var done := Run(s, finished);
    assert OrphanInv(done.clients, done.orphans[0]);
    var last;
    events, last := ExecuteTheLate(s, finished, init, OpOf(scripts[c][p]));
  }

  /** A run of these scripts from `init` that brings all of them to their ends. */
  ghost predicate Finishes(init: Dict, scripts: seq<seq<Command>>, events: seq<Event>) {
    ValidRun(Start(init, scripts), events) && AllDone(Run(Start(init, scripts), events))
  }

  lemma WriteCanComeLast(init: Dict, scripts: seq<seq<Command>>, op: Op) returns (events: seq<Event>)
    requires FittingStart(init, scripts) && op in Joined(scripts) && op.Put?
    ensures Finishes(init, scripts, events)
    ensures Lookup(Run(Start(init, scripts), events).m, op.key) == Some(op.value)
  {
    InJoined(scripts, op);
    var c: nat :| c < |scripts| && op in ScriptOps(scripts[c]);
    var p := CommandOf(scripts[c], op);
    events := CanComeLast(init, scripts, c, p);
  }

  /** Exactly when every finished run, late executions and all, leaves the map as if the scripts had run one after
      another: when no key is written with two different values. */
  lemma ExactlyOnceIff(init: Dict, scripts: seq<seq<Command>>)
    requires FittingStart(init, scripts)
    ensures (forall events | Finishes(init, scripts, events) ::
               Run(Start(init, scripts), events).m == Replay(init, Joined(scripts)))
            <==> OneValue(Joined(scripts))
  {
    if OneValue(Joined(scripts)) {
      forall events | Finishes(init, scripts, events)
        ensures Run(Start(init, scripts), events).m == Replay(init, Joined(scripts))
      {
        OneValueIsEnough(init, scripts, events);
      }
    } else {
      var key :| !OneValueOf(Joined(scripts), key);
      var op := SomeWriteIsLost(init, Joined(scripts), key);
      var events := WriteCanComeLast(init, scripts, op);
    }
  }

  lemma OneValueIsEnough(init: Dict, scripts: seq<seq<Command>>, events: seq<Event>)
    requires FittingStart(init, scripts) && OneValue(Joined(scripts)) && Finishes(init, scripts, events)
    ensures Run(Start(init, scripts), events).m == Replay(init, Joined(scripts))
  {
    Reached(init, scripts, events);
    var t := Run(Start(init, scripts), events);
    forall key
      ensures Lookup(t.m, key) == Lookup(Replay(init, Joined(scripts)), key)
    {
      AllWrites(t, init, scripts, key);
      OneValueDecides(init, Ops(t.log), Joined(scripts), key);
    }
    SameMap(t.m, Replay(init, Joined(scripts)));
  }

  /** Exactly when any two finished runs end in one map: on the same condition. */
  lemma SameMapIff(init: Dict, scripts: seq<seq<Command>>)
    requires FittingStart(init, scripts)
    ensures (forall a, b | Finishes(init, scripts, a) && Finishes(init, scripts, b) ::
               Run(Start(init, scripts), a).m == Run(Start(init, scripts), b).m)
            <==> OneValue(Joined(scripts))
  {
    if OneValue(Joined(scripts)) {
      forall a, b | Finishes(init, scripts, a) && Finishes(init, scripts, b)
        ensures Run(Start(init, scripts), a).m == Run(Start(init, scripts), b).m
      {
        OneValueIsEnough(init, scripts, a);
        OneValueIsEnough(init, scripts, b);
      }
    } else {
      var key :| !OneValueOf(Joined(scripts), key);
      var one, other := TwoValues(Joined(scripts), key);
      var a := WriteCanComeLast(init, scripts, one);
      var b := WriteCanComeLast(init, scripts, other);
      assert Run(Start(init, scripts), a).m != Run(Start(init, scripts), b).m;
    }
  }

  lemma TwoValues(ops: seq<Op>, key: bytes) returns (a: Op, b: Op)
    requires !OneValueOf(ops, key)
    ensures a in ops && b in ops && a.Put? && b.Put? && a.key == b.key == key && a.value != b.value
  {
    a, b :| a in ops && b in ops && a.Put? && b.Put? && a.key == b.key == key && a.value != b.value;
  }

  /** For a client alone, each command applied once: exactly when its script writes no key with two different values. */
  lemma ExactlyOnceAlone(init: Dict, script: seq<Command>)
    requires FittingStart(init, [script])
    ensures (forall events | Finishes(init, [script], events) ::
               Run(Start(init, [script]), events).m == Replay(init, ScriptOps(script)))
            <==> OneValue(ScriptOps(script))
  {
    assert [script][..0] == [] && Joined([script]) == [] + ScriptOps(script) == ScriptOps(script);
    ExactlyOnceIff(init, [script]);
  }

  // ---------------------------------------------------------------- each command once, in some order

  /** The value last written to `key`, if any. */
  function LastValue(ops: seq<Op>, key: bytes): Option<bytes> {
    Lookup(Replay(map[], ops), key)
  }

  lemma {:induction false} LastValueDecides(m: Dict, ops: seq<Op>, key: bytes)
    ensures Lookup(Replay(m, ops), key)
            == if LastValue(ops, key).Some? then LastValue(ops, key) else Lookup(m, key)
  {
    if ops != [] {
      LastValueDecides(m, ops[..|ops| - 1], key);
    }
  }

  lemma LastValueOfJoin(a: seq<Op>, b: seq<Op>, key: bytes)
    ensures LastValue(a + b, key) == if LastValue(b, key).Some? then LastValue(b, key) else LastValue(a, key)
  {
    ReplayJoin(map[], a, b);
    LastValueDecides(Replay(map[], a), b, key);
  }

  lemma {:induction false} LastValueIsWritten(ops: seq<Op>, key: bytes)
    ensures LastValue(ops, key).Some? ==> Put(key, LastValue(ops, key).value) in ops
    ensures LastValue(ops, key).None? ==> forall op <- ops :: op.Put? ==> op.key != key
  {
    if ops != [] {
      var front, last := ops[..|ops| - 1], ops[|ops| - 1];
      assert ops == front + [last];
      LastValueIsWritten(front, key);
    }
  }

  lemma {:induction false} WrittenIsThere(m: Dict, ops: seq<Op>, op: Op)
    requires op in ops && op.Put?
    ensures Lookup(Replay(m, ops), op.key).Some?
  {
    var front, last := ops[..|ops| - 1], ops[|ops| - 1];
    assert ops == front + [last];
    if last != op {
      WrittenIsThere(m, front, op);
    }
  }

  /** Each client's part of the log is its script, each command once. */
  ghost predicate Interleaving(log: seq<Entry>, scripts: seq<seq<Command>>) {
    && (forall c | 0 <= c < |scripts| :: OpsOf(log, c) == ScriptOps(scripts[c]))
    && (forall e <- log :: e.client < |scripts| && !e.late)
  }

  /** In any order, the last write of a key is the last one of some client. */
  lemma {:induction false} LastWriter(log: seq<Entry>, key: bytes) returns (c: nat)
    requires (forall e <- log :: !e.late) && LastValue(Ops(log), key).Some?
    ensures LastValue(OpsOf(log, c), key) == LastValue(Ops(log), key)
    ensures exists e <- log :: e.client == c
  {
    var front, last := log[..|log| - 1], log[|log| - 1];
    assert log == front + [last];
    assert last in log && forall e <- front :: e in log;
    ReplayPush(map[], Ops(front), last.op);
    if last.op.Put? && last.op.key == key {
      c := last.client;
      ReplayPush(map[], OpsOf(front, c), last.op);
    } else {
      c := LastWriter(front, key);
      LogPush(front, last, c);
      ReplayPush(map[], OpsOf(front, c), last.op);
      assert OpsOf(front, c) + [] == OpsOf(front, c);
    }
  }

  function Block(script: seq<Command>, c: nat): seq<Entry> {
    if script == [] then []
    else Block(script[..|script| - 1], c) + [Entry(c, OpOf(script[|script| - 1]), [], false)]
  }

  lemma {:induction false} BlockOps(script: seq<Command>, c: nat)
    ensures Ops(Block(script, c)) == OpsOf(Block(script, c), c) == ScriptOps(script)
    ensures forall e <- Block(script, c) :: e.client == c && !e.late
  {
    if script != [] {
      var front, e := script[..|script| - 1], Entry(c, OpOf(script[|script| - 1]), [], false);
      BlockOps(front, c);
      LogPush(Block(front, c), e, c);
      assert Block(script, c) == Block(front, c) + [e];
      assert ScriptOps(script) == ScriptOps(front) + [e.op];
    }
  }

  lemma {:induction false} LogJoin(a: seq<Entry>, b: seq<Entry>, c: nat)
    ensures Ops(a + b) == Ops(a) + Ops(b)
    ensures OpsOf(a + b, c) == OpsOf(a, c) + OpsOf(b, c)
    decreases |b|
  {
    if b == [] {
      assert a + b == a;
    } else {
      var front, last := b[..|b| - 1], b[|b| - 1];
      assert a + b == a + front + [last] && b == front + [last];
      LogJoin(a, front, c);
      LogPush(a + front, last, c);
      LogPush(front, last, c);
    }
  }

  /** All scripts, one after another. */
  function Blocks(scripts: seq<seq<Command>>): seq<Entry> {
    if scripts == [] then []
    else Blocks(scripts[..|scripts| - 1]) + Block(scripts[|scripts| - 1], |scripts| - 1)
  }

  lemma BlockBehind(before: seq<Entry>, script: seq<Command>, b: nat, c: nat)
    ensures c == b && OpsOf(before, c) == [] ==> OpsOf(before + Block(script, b), c) == ScriptOps(script)
    ensures c != b ==> OpsOf(before + Block(script, b), c) == OpsOf(before, c)
  {
    BlockOps(script, b);
    LogJoin(before, Block(script, b), c);
    if c == b {
      assert [] + ScriptOps(script) == ScriptOps(script);
    } else {
      NoOpsOf(Block(script, b), c);
      assert OpsOf(before, c) + [] == OpsOf(before, c);
    }
  }

  lemma {:induction false} BlocksOps(scripts: seq<seq<Command>>, c: nat)
    ensures OpsOf(Blocks(scripts), c) == if c < |scripts| then ScriptOps(scripts[c]) else []
  {
    if scripts != [] {
      var k := |scripts| - 1;
      BlocksOps(scripts[..k], c);
      BlockBehind(Blocks(scripts[..k]), scripts[k], k, c);
    }
  }

  lemma EachOf(a: seq<Entry>, b: seq<Entry>, n: nat)
    requires (forall e <- a :: e.client < n && !e.late) && (forall e <- b :: e.client < n && !e.late)
    ensures forall e <- a + b :: e.client < n && !e.late
  {
  }

  lemma {:induction false} BlocksAre(scripts: seq<seq<Command>>)
    ensures forall e <- Blocks(scripts) :: e.client < |scripts| && !e.late
  {
    if scripts != [] {
      var k := |scripts| - 1;
      BlocksAre(scripts[..k]);
      BlockOps(scripts[k], k);
      EachOf(Blocks(scripts[..k]), Block(scripts[k], k), |scripts|);
    }
  }

  lemma SomeInterleaving(scripts: seq<seq<Command>>) returns (log: seq<Entry>)
    ensures Interleaving(log, scripts)
  {
    log := Blocks(scripts);
    BlocksAre(scripts);
    forall c | 0 <= c < |scripts|
      ensures OpsOf(log, c) == ScriptOps(scripts[c])
    {
      BlocksOps(scripts, c);
    }
  }

  /** Some order has client `last` at its end. */
  lemma EndsWith(scripts: seq<seq<Command>>, last: nat, key: bytes) returns (log: seq<Entry>)
    requires last < |scripts|
    ensures Interleaving(log, scripts)
    ensures LastValue(ScriptOps(scripts[last]), key).Some? ==>
              LastValue(Ops(log), key) == LastValue(ScriptOps(scripts[last]), key)
  {
    var others := scripts[last := []];
    var before, block := Blocks(others), Block(scripts[last], last);
    log := before + block;
    BlocksAre(others);
    BlockOps(scripts[last], last);
    EachOf(before, block, |scripts|);
    forall c | 0 <= c < |scripts|
      ensures OpsOf(log, c) == ScriptOps(scripts[c])
    {
      BlocksOps(others, c);
      BlockBehind(before, scripts[last], last, c);
    }
    LogJoin(before, block, last);
    LastValueOfJoin(Ops(before), Ops(block), key);
  }

  /** The run leaves under `key` what each command once, in some order of all scripts, leaves there. */
  ghost predicate AsInSomeOrder(init: Dict, scripts: seq<seq<Command>>, m: Dict, key: bytes) {
    exists log :: Interleaving(log, scripts) && Lookup(m, key) == Lookup(Replay(init, Ops(log)), key)
  }

  /** Some script writes this value to the key last. */
  ghost predicate IsLastOfSome(scripts: seq<seq<Command>>, op: Op) {
    op.Put? && exists c | 0 <= c < |scripts| :: LastValue(ScriptOps(scripts[c]), op.key) == Some(op.value)
  }

  lemma InterleavingHas(log: seq<Entry>, scripts: seq<seq<Command>>, op: Op)
    requires Interleaving(log, scripts)
    ensures op in Ops(log) <==> op in Joined(scripts)
  {
    InJoined(scripts, op);
    if op in Ops(log) {
      OpsAt(log);
      var i :| 0 <= i < |log| && log[i].op == op;
      assert log[i] in log;
      OpsOfContains(log, log[i]);
    }
    if op in Joined(scripts) {
      var c: nat :| c < |scripts| && op in ScriptOps(scripts[c]);
      OpsOfInOps(log, c, op);
    }
  }

  lemma OrderedWriteIsLast(init: Dict, scripts: seq<seq<Command>>, m: Dict, op: Op)
    requires op in Joined(scripts) && op.Put? && Lookup(m, op.key) == Some(op.value)
    requires AsInSomeOrder(init, scripts, m, op.key)
    ensures IsLastOfSome(scripts, op)
  {
    var log :| Interleaving(log, scripts) && Lookup(m, op.key) == Lookup(Replay(init, Ops(log)), op.key);
    InterleavingHas(log, scripts, op);
    WrittenIsThere(map[], Ops(log), op);
    LastValueDecides(init, Ops(log), op.key);
    var c := LastWriter(log, op.key);
    assert LastValue(ScriptOps(scripts[c]), op.key) == Some(op.value);
  }

  lemma LastWriteHasOrder(init: Dict, scripts: seq<seq<Command>>, s: State, key: bytes)
    requires Inv(s, init) && AllDone(s) && RunsScripts(s, scripts)
    requires forall op <- Joined(scripts) :: op.Put? && op.key == key ==> IsLastOfSome(scripts, op)
    ensures AsInSomeOrder(init, scripts, s.m, key)
  {
    var v := LastValue(Ops(s.log), key);
    AllWrites(s, init, scripts, key);
    LastValueIsWritten(Ops(s.log), key);
    LastValueDecides(init, Ops(s.log), key);
    var log;
    if v.Some? {
      assert IsLastOfSome(scripts, Put(key, v.value));
      var c: nat :| c < |scripts| && LastValue(ScriptOps(scripts[c]), key) == v;
      log := EndsWith(scripts, c, key);
    } else {
      log := SomeInterleaving(scripts);
      LastValueIsWritten(Ops(log), key);
      if LastValue(Ops(log), key).Some? {
        InterleavingHas(log, scripts, Put(key, LastValue(Ops(log), key).value));
      }
    }
    LastValueDecides(init, Ops(log), key);
  }

  /** Exactly when every finished run leaves under a key what each command once, in some order, leaves there: when
      each value written to the key is the last that some script writes to it. Clients may share the key. */
  lemma SomeOrderIff(init: Dict, scripts: seq<seq<Command>>, key: bytes)
    requires FittingStart(init, scripts)
    ensures (forall events | Finishes(init, scripts, events) ::
               AsInSomeOrder(init, scripts, Run(Start(init, scripts), events).m, key))
            <==> forall op <- Joined(scripts) :: op.Put? && op.key == key ==> IsLastOfSome(scripts, op)
  {
    if forall op <- Joined(scripts) :: op.Put? && op.key == key ==> IsLastOfSome(scripts, op) {
      forall events | Finishes(init, scripts, events)
        ensures AsInSomeOrder(init, scripts, Run(Start(init, scripts), events).m, key)
      {
        Reached(init, scripts, events);
        LastWriteHasOrder(init, scripts, Run(Start(init, scripts), events), key);
      }
    } else {
      var op :| op in Joined(scripts) && op.Put? && op.key == key && !IsLastOfSome(scripts, op);
      var events := WriteCanComeLast(init, scripts, op);
      if AsInSomeOrder(init, scripts, Run(Start(init, scripts), events).m, key) {
        OrderedWriteIsLast(init, scripts, Run(Start(init, scripts), events).m, op);
      }
    }
  }

  // ---------------------------------------------------------------- reads

  /** At the read `op` of client `c`, nothing but reads under way, and the answer so far, if any, is `a`. */
  ghost predicate AtRead(s: State, c: nat, op: Op, a: bytes) {
    && c < |s.clients| && s.clients[c].pos < |s.clients[c].script| && OpOf(s.clients[c].script[s.clients[c].pos]) == op
    && op.Get? && a == Answer(s.m, op)
    && (s.clients[c].phase.Settled? ==> s.clients[c].phase.answer == a)
  }

  lemma ReadStep(s: State, e: Event, init: Dict, op: Op, a: bytes)
    requires Inv(s, init) && Enabled(s, e) && Quiet(e) && AtRead(s, e.c, op, a)
    ensures var cl, next := s.clients[e.c], Next(s, e).clients[e.c];
            if next.pos == cl.pos then AtRead(Next(s, e), e.c, op, a)
            else next.pos == cl.pos + 1 && next.answers == cl.answers + [a]
  {
    assert ClientInv(s.clients, s.log, e.c);
    if e.Execute? {
      ExecuteStep(s, e.c);
    } else if e.ClientRead? {
      ClientReadKeepsWire(s.clients[e.c], e.n);
    }
  }

  /** Client `c` alone can go on until its read is answered, with what the map holds now. */
  lemma {:induction false} DriveRead(s: State, events: seq<Event>, init: Dict, c: nat, op: Op, a: bytes, n: nat)
    returns (more: seq<Event>)
    requires ValidRun(s, events) && Inv(Run(s, events), init) && Work(Run(s, events)) <= n
    requires AtRead(Run(s, events), c, op, a)
    ensures ValidRun(s, more) && c < |Run(s, more).clients|
    ensures var cl, next := Run(s, events).clients[c], Run(s, more).clients[c];
            next.pos == cl.pos + 1 && |next.answers| == next.pos && next.answers[cl.pos] == a
    decreases n
  {
    var u := Run(s, events);
    assert ClientInv(u.clients, u.log, c);
    var e := QuietStep(u, init, c);
    ReadStep(u, e, init, op, a);
    RunSnoc(s, events, e);
    if Next(u, e).clients[c].pos == u.clients[c].pos {
      more := DriveRead(s, events + [e], init, c, op, a, n - 1);
    } else {
      more := events + [e];
    }
  }

  /** Client `c` gives up command `p`, runs it again, and rests before command `j`. */
  lemma GiveUpOnTheWay(init: Dict, scripts: seq<seq<Command>>, c: nat, p: nat, j: nat)
    returns (events: seq<Event>, t: State)
    requires FittingStart(init, scripts) && c < |scripts| && p < j < |scripts[c]|
    ensures ValidRun(Start(init, scripts), events) && t == Run(Start(init, scripts), events) && Inv(t, init)
    ensures c < |t.clients| && t.clients[c].pos == j && t.clients[c].phase.Resting? && t.clients[c].script == scripts[c]
    ensures |t.orphans| == 1 && t.orphans[0].client == c && t.orphans[0].pos == p
  {
    var s := Start(init, scripts);
    StartKeeps(init, scripts);
    assert ValidRun(s, []) && Run(s, []) == s;
    var before, atRest := Drive(s, [], init, c, p, Work(s));
    var givenUp, waiting := GiveUp(s, before, init, c);
    events, t := Drive(s, givenUp, init, c, j, Work(waiting));
  }

  /** Any earlier write of the same script can come right before a read. */
  lemma CanComeBeforeRead(init: Dict, scripts: seq<seq<Command>>, c: nat, p: nat, j: nat) returns (events: seq<Event>)
    requires FittingStart(init, scripts) && c < |scripts| && p < j < |scripts[c]|
    requires OpOf(scripts[c][p]).Put? && OpOf(scripts[c][j]) == Get(OpOf(scripts[c][p]).key)
    ensures ValidRun(Start(init, scripts), events) && c < |Run(Start(init, scripts), events).clients|
    ensures var cl := Run(Start(init, scripts), events).clients[c];
            cl.pos == j + 1 == |cl.answers| && cl.answers[j] == OpOf(scripts[c][p]).value
  {
    var s, write, read := Start(init, scripts), OpOf(scripts[c][p]), OpOf(scripts[c][j]);
    var before, waiting := GiveUpOnTheWay(init, scripts, c, p, j);
    assert OrphanInv(waiting.clients, waiting.orphans[0]);
    var late, now := ExecuteTheLate(s, before, init, write);
    assert AtRead(now, c, read, write.value);
    events := DriveRead(s, late, init, c, read, write.value, Work(now));
  }

  /** Client `c`, once past its command `j`, has got for it what its own commands before it make of the map. */
  ghost predicate OwnAnswer(init: Dict, scripts: seq<seq<Command>>, events: seq<Event>, c: nat, j: nat)
    requires ValidRun(Start(init, scripts), events) && c < |scripts| && j < |scripts[c]|
  {
    var t := Run(Start(init, scripts), events);
    c < |t.clients| && t.clients[c].pos > j ==>
      && j < |t.clients[c].answers|
      && t.clients[c].answers[j] == Answer(Replay(init, ScriptOps(scripts[c])[..j]), OpOf(scripts[c][j]))
  }

  /** With two values written to the key before a read, one of these writes is not what the read should see. */
  lemma LostBefore(init: Dict, script: seq<Command>, j: nat) returns (p: nat)
    requires j < |script| && OpOf(script[j]).Get?
    requires !OneValueOf(ScriptOps(script)[..j], OpOf(script[j]).key)
    ensures p < j && OpOf(script[p]).Put? && OpOf(script[j]) == Get(OpOf(script[p]).key)
    ensures Answer(Replay(init, ScriptOps(script)[..j]), OpOf(script[j])) != OpOf(script[p]).value
  {
    var ops, key := ScriptOps(script)[..j], OpOf(script[j]).key;
    var op := SomeWriteIsLost(init, ops, key);
    WrittenIsThere(init, ops, op);
    p :| p < j && ops[p] == op;
  }

  lemma LateAnswer(init: Dict, scripts: seq<seq<Command>>, c: nat, j: nat) returns (events: seq<Event>)
    requires FittingStart(init, scripts) && c < |scripts| && j < |scripts[c]| && OpOf(scripts[c][j]).Get?
    requires !OneValueOf(ScriptOps(scripts[c])[..j], OpOf(scripts[c][j]).key)
    ensures ValidRun(Start(init, scripts), events) && !OwnAnswer(init, scripts, events, c, j)
  {
    var p := LostBefore(init, scripts[c], j);
    events := CanComeBeforeRead(init, scripts, c, p, j);
  }

  /** Exactly when a client with keys of its own reads its own writes in every run: when it has written no two
      different values to the key before. */
  lemma OwnReadsIff(init: Dict, scripts: seq<seq<Command>>, owner: bytes -> nat, c: nat, j: nat)
    requires FittingStart(init, scripts) && SeparateScripts(scripts, owner)
    requires c < |scripts| && j < |scripts[c]| && OpOf(scripts[c][j]).Get?
    ensures (forall events | ValidRun(Start(init, scripts), events) :: OwnAnswer(init, scripts, events, c, j))
            <==> OneValueOf(ScriptOps(scripts[c])[..j], OpOf(scripts[c][j]).key)
  {
    if OneValueOf(ScriptOps(scripts[c])[..j], OpOf(scripts[c][j]).key) {
      forall events | ValidRun(Start(init, scripts), events)
        ensures OwnAnswer(init, scripts, events, c, j)
      {
        var t := Run(Start(init, scripts), events);
        if c < |t.clients| && t.clients[c].pos > j {
          OwnReads(init, scripts, events, owner, c, j);
        }
      }
    } else {
      var events := LateAnswer(init, scripts, c, j);
    }
  }
}
