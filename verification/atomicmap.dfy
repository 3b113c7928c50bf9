/** The reference: one map, and operations that take effect one after the other. */
module AtomicMap {
  import opened Bytes
  import opened KVFile

  datatype Op = Get(key: bytes) | Put(key: bytes, value: bytes)

  function Lookup(m: Dict, key: bytes): Option<bytes> {
    if key in m then Some(m[key]) else None
  }

  function Apply(m: Dict, op: Op): Dict {
    if op.Put? then m[op.key := op.value] else m
  }

  /** What the operation answers: a missing key reads as the empty value. */
  function Answer(m: Dict, op: Op): bytes {
    if op.Get? && op.key in m then m[op.key] else []
  }

  function Replay(m: Dict, ops: seq<Op>): Dict {
    if ops == [] then m else Apply(Replay(m, ops[..|ops| - 1]), ops[|ops| - 1])
  }

  lemma ReplayPush(m: Dict, ops: seq<Op>, op: Op)
    ensures Replay(m, ops + [op]) == Apply(Replay(m, ops), op)
  {
    assert (ops + [op])[..|ops|] == ops;
  }

  lemma {:induction false} ReplayJoin(m: Dict, a: seq<Op>, b: seq<Op>)
    ensures Replay(m, a + b) == Replay(Replay(m, a), b)
    decreases |b|
  {
    if b == [] {
      assert a + b == a;
    } else {
      var front := b[..|b| - 1];
      assert (a + b)[..|a + b| - 1] == a + front;
      ReplayJoin(m, a, front);
    }
  }

  lemma SameMap(m: Dict, n: Dict)
    requires forall k :: Lookup(m, k) == Lookup(n, k)
    ensures m == n
  {
    assert forall k :: k in m <==> Lookup(m, k).Some?;
    assert forall k :: k in n <==> Lookup(n, k).Some?;
    assert forall k | k in m :: m[k] == Lookup(m, k).value == Lookup(n, k).value == n[k];
  }

  /** The latest write of `key` among `ops`: its position, or `|ops|` if there is none. */
  ghost predicate IsLatestPut(ops: seq<Op>, key: bytes, i: nat) {
    && i < |ops| && ops[i].Put? && ops[i].key == key
    && forall j | i < j < |ops| :: !(ops[j].Put? && ops[j].key == key)
  }

  /** A key holds the value of its latest write, else what it held at the start. */
  lemma {:induction false} ReplayIsLatest(m: Dict, ops: seq<Op>, key: bytes)
    ensures forall i: nat | IsLatestPut(ops, key, i) :: Lookup(Replay(m, ops), key) == Some(ops[i].value)
    ensures (forall op <- ops :: !(op.Put? && op.key == key)) ==> Lookup(Replay(m, ops), key) == Lookup(m, key)
  {
    if ops != [] {
      var front := ops[..|ops| - 1];
      ReplayIsLatest(m, front, key);
      forall i: nat | IsLatestPut(ops, key, i)
        ensures Lookup(Replay(m, ops), key) == Some(ops[i].value)
      {
        if i < |front| {
          assert IsLatestPut(front, key, i);
        }
      }
      assert forall op <- front :: op in ops;
    }
  }

  // ---------------------------------------------------------------- repeated commands

  function Copies(op: Op, n: nat): seq<Op> {
    seq(n, _ => op)
  }

  /** Each operation in turn, the i-th of them `times[i]` times in a row. */
  function Stutter(ops: seq<Op>, times: seq<nat>): seq<Op>
    requires |ops| == |times|
  {
    if ops == [] then []
    else Stutter(ops[..|ops| - 1], times[..|ops| - 1]) + Copies(ops[|ops| - 1], times[|ops| - 1])
  }

  lemma {:induction false} ReplayCopies(m: Dict, op: Op, n: nat)
    ensures Replay(m, Copies(op, n)) == if n == 0 then m else Apply(m, op)
  {
    if n > 0 {
      assert Copies(op, n)[..n - 1] == Copies(op, n - 1);
      ReplayCopies(m, op, n - 1);
    }
  }

  /** Repeating a command in a row changes nothing: at least once is exactly once in effect. */
  lemma {:induction false} StutterIsOnce(m: Dict, ops: seq<Op>, times: seq<nat>)
    requires |ops| == |times|
    requires forall n <- times :: n >= 1
    ensures Replay(m, Stutter(ops, times)) == Replay(m, ops)
  {
    if ops != [] {
      var n := |ops| - 1;
      assert forall t <- times[..n] :: t in times;
      StutterIsOnce(m, ops[..n], times[..n]);
      assert times[n] in times;
      ReplayJoin(m, Stutter(ops[..n], times[..n]), Copies(ops[n], times[n]));
      ReplayCopies(Replay(m, ops[..n]), ops[n], times[n]);
    }
  }

  lemma {:induction false} StutterNothingLeft(ops: seq<Op>, times: seq<nat>, p: nat)
    requires |ops| == |times| && p <= |ops|
    requires forall i | p <= i < |times| :: times[i] == 0
    ensures Stutter(ops, times) == Stutter(ops[..p], times[..p])
    decreases |ops|
  {
    if p == |ops| {
      assert ops[..p] == ops && times[..p] == times;
    } else {
      var n := |ops| - 1;
      StutterNothingLeft(ops[..n], times[..n], p);
      assert ops[..n][..p] == ops[..p] && times[..n][..p] == times[..p];
    }
  }

  /** One more execution of the current command, none of the later ones having run. */
  lemma StutterOnceMore(ops: seq<Op>, times: seq<nat>, p: nat)
    requires |ops| == |times| && p < |ops|
    requires forall i | p < i < |times| :: times[i] == 0
    ensures Stutter(ops, times[p := times[p] + 1]) == Stutter(ops, times) + [ops[p]]
  {
    var more := times[p := times[p] + 1];
    StutterNothingLeft(ops, times, p + 1);
    StutterNothingLeft(ops, more, p + 1);
    assert ops[..p + 1][..p] == ops[..p] && times[..p + 1][..p] == times[..p] && more[..p + 1][..p] == times[..p];
    assert Copies(ops[p], more[p]) == Copies(ops[p], times[p]) + [ops[p]];
  }

  // ---------------------------------------------------------------- commands in any order

  /** No write of `key` differs from another one of it. */
  ghost predicate OneValueOf(ops: seq<Op>, key: bytes) {
    forall a <- ops, b <- ops :: a.Put? && b.Put? && a.key == b.key == key ==> a.value == b.value
  }

  ghost predicate OneValue(ops: seq<Op>) {
    forall key :: OneValueOf(ops, key)
  }

  /** The writes of `key` in both are the same, however often and in whatever order. */
  ghost predicate SameWrites(a: seq<Op>, b: seq<Op>, key: bytes) {
    && (forall op <- a :: op.Put? && op.key == key ==> op in b)
    && (forall op <- b :: op.Put? && op.key == key ==> op in a)
  }

  lemma {:induction false} OnlyValue(m: Dict, ops: seq<Op>, key: bytes, value: bytes)
    requires forall op <- ops :: op.Put? && op.key == key ==> op.value == value
    ensures Lookup(Replay(m, ops), key) == if Put(key, value) in ops then Some(value) else Lookup(m, key)
  {
    if ops != [] {
      var front, last := ops[..|ops| - 1], ops[|ops| - 1];
      assert ops == front + [last];
      assert last in ops;
      OnlyValue(m, front, key, value);
    }
  }

  /** With one value per key, neither order nor repetition matters. */
  lemma {:induction false} OneValueDecides(m: Dict, ran: seq<Op>, script: seq<Op>, key: bytes)
    requires OneValueOf(script, key) && SameWrites(ran, script, key)
    ensures Lookup(Replay(m, ran), key) == Lookup(Replay(m, script), key)
  {
    if op :| op in script && op.Put? && op.key == key {
      OnlyValue(m, ran, key, op.value);
      OnlyValue(m, script, key, op.value);
    } else {
      OnlyValue(m, ran, key, []);
      OnlyValue(m, script, key, []);
    }
  }

  /** With two, some write is lost in `ops`; executed once more at the end, it would not be. */
  lemma SomeWriteIsLost(m: Dict, ops: seq<Op>, key: bytes) returns (op: Op)
    requires !OneValueOf(ops, key)
    ensures op in ops && op.Put? && op.key == key
    ensures Lookup(Replay(m, ops), key) != Some(op.value) == Lookup(Replay(m, ops + [op]), key)
  {
    var a, b :| a in ops && b in ops && a.Put? && b.Put? && a.key == b.key == key && a.value != b.value;
    op := if Lookup(Replay(m, ops), key) == Some(a.value) then b else a;
    ReplayPush(m, ops, op);
  }

  // ---------------------------------------------------------------- interleaved clients

  /** `late`: executed from a connection that its client had given up. */
  datatype Entry = Entry(client: nat, op: Op, answer: bytes, late: bool)

  function Ops(log: seq<Entry>): seq<Op> {
    if log == [] then [] else Ops(log[..|log| - 1]) + [log[|log| - 1].op]
  }

  /** The operations that one client asked for on the connection it had at the time, in log order. */
  function OpsOf(log: seq<Entry>, client: nat): seq<Op> {
    if log == [] then []
    else
      var last := log[|log| - 1];
      OpsOf(log[..|log| - 1], client) + (if last.client == client && !last.late then [last.op] else [])
  }

  /** Every answer in the log is the one the atomic map gives at that point. */
  ghost predicate Legal(init: Dict, log: seq<Entry>) {
    forall i | 0 <= i < |log| :: log[i].answer == Answer(Replay(init, Ops(log[..i])), log[i].op)
  }

  lemma LogPush(log: seq<Entry>, e: Entry, client: nat)
    ensures Ops(log + [e]) == Ops(log) + [e.op]
    ensures OpsOf(log + [e], client) == OpsOf(log, client) + (if e.client == client && !e.late then [e.op] else [])
  {
    assert (log + [e])[..|log|] == log;
  }

  /** `owner` says whose keys are whose; a client touches its own keys only. */
  ghost predicate Separate(log: seq<Entry>, owner: bytes -> nat) {
    forall e <- log :: owner(e.op.key) == e.client
  }

  /** No write of `key` was executed late. */
  ghost predicate InTime(log: seq<Entry>, key: bytes) {
    forall e <- log :: e.late && e.op.Put? ==> e.op.key != key
  }

  lemma ApplyAt(m: Dict, n: Dict, op: Op, key: bytes)
    requires Lookup(m, key) == Lookup(n, key)
    ensures Lookup(Apply(m, op), key) == Lookup(Apply(n, op), key)
    ensures op.key != key || op.Get? ==> Lookup(Apply(m, op), key) == Lookup(n, key)
  {
  }

  /** Among separate clients, a key whose writes come in time sees its owner's operations only, in their order. */
  lemma {:induction false} OwnOpsDecide(init: Dict, log: seq<Entry>, owner: bytes -> nat, key: bytes)
    requires Separate(log, owner) && InTime(log, key)
    ensures Lookup(Replay(init, Ops(log)), key) == Lookup(Replay(init, OpsOf(log, owner(key))), key)
  {
    if log != [] {
      var front, last, c := log[..|log| - 1], log[|log| - 1], owner(key);
      assert log == front + [last];
      assert last in log && forall e <- front :: e in log;
      OwnOpsDecide(init, front, owner, key);
      ApplyAt(Replay(init, Ops(front)), Replay(init, OpsOf(front, c)), last.op, key);
      ReplayPush(init, Ops(front), last.op);
      ReplayPush(init, OpsOf(front, c), last.op);
      assert OpsOf(front, c) + [] == OpsOf(front, c);
    }
  }

  /** Each client's timely part of the log is its script, with retries. */
  ghost predicate Runs(log: seq<Entry>, scripts: seq<seq<Op>>, times: seq<seq<nat>>) {
    && |scripts| == |times|
    && (forall c | 0 <= c < |scripts| :: |scripts[c]| == |times[c]| && forall n <- times[c] :: n >= 1)
    && (forall c | 0 <= c < |scripts| :: OpsOf(log, c) == Stutter(scripts[c], times[c]))
    && (forall e <- log :: e.client < |scripts|)
  }

  lemma OwnScriptDecides(init: Dict, log: seq<Entry>, scripts: seq<seq<Op>>, times: seq<seq<nat>>,
                         owner: bytes -> nat, key: bytes)
    requires Runs(log, scripts, times) && Separate(log, owner) && InTime(log, key)
    ensures Lookup(Replay(init, Ops(log)), key)
            == if owner(key) < |scripts| then Lookup(Replay(init, scripts[owner(key)]), key) else Lookup(init, key)
  {
    var c := owner(key);
    OwnOpsDecide(init, log, owner, key);
    if c < |scripts| {
      StutterIsOnce(init, scripts[c], times[c]);
    } else {
      NoOpsOf(log, c);
    }
  }

  lemma {:induction false} NoOpsOf(log: seq<Entry>, c: nat)
    requires forall e <- log :: e.client != c
    ensures OpsOf(log, c) == []
  {
    if log != [] {
      assert log[|log| - 1] in log;
      NoOpsOf(log[..|log| - 1], c);
    }
  }

  /** Confluence: with no late write, separate clients end in the same map whatever the interleaving and the retries. */
  lemma Confluence(init: Dict, a: seq<Entry>, b: seq<Entry>, scripts: seq<seq<Op>>,
                   timesA: seq<seq<nat>>, timesB: seq<seq<nat>>, owner: bytes -> nat)
    requires Runs(a, scripts, timesA) && Separate(a, owner)
    requires Runs(b, scripts, timesB) && Separate(b, owner)
    requires forall key :: InTime(a, key) && InTime(b, key)
    ensures Replay(init, Ops(a)) == Replay(init, Ops(b))
  {
    forall k
      ensures Lookup(Replay(init, Ops(a)), k) == Lookup(Replay(init, Ops(b)), k)
    {
      OwnScriptDecides(init, a, scripts, timesA, owner, k);
      OwnScriptDecides(init, b, scripts, timesB, owner, k);
    }
    SameMap(Replay(init, Ops(a)), Replay(init, Ops(b)));
  }
}
