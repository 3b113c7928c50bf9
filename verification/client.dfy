/** The client driver: one request at a time, a promise for its outcome, and a retry after every reconnection. */
module GJClients {
  import opened Bytes
  import opened Proto
  import opened KVFile
  import opened AtomicMap
  import opened Server
  import opened System
  import ClientConfig

  const RECONNECT_ATTEMPTS: nat := 5

  datatype ClientError = EOK | EUNEXP | EDISCON_SUCCESS | EDISCON_FAILED

  datatype Outcome = Outcome(error: ClientError, value: bytes)

  /** What becomes of one request: it is answered, or the connection breaks, before or after the server has
      processed it, and the reconnection attempts go as told. */
  datatype Attempt = Answered | Lost(processed: bool, reconnects: seq<bool>)

  ghost predicate WellFormed(a: Attempt) {
    a.Lost? ==> |a.reconnects| == 5
  }

  /** Some reconnection attempt succeeds. */
  predicate Reconnects(a: Attempt) {
    a.Lost? && true in a.reconnects
  }

  /** The driver goes on after it: with the next command, or with the same one again. */
  predicate GoesOn(a: Attempt) {
    a.Answered? || Reconnects(a)
  }

  function CountAnswered(attempts: seq<Attempt>): nat {
    if attempts == [] then 0
    else CountAnswered(attempts[..|attempts| - 1]) + (if attempts[|attempts| - 1].Answered? then 1 else 0)
  }

  datatype Status = Done | Retry | Thrown

  datatype FileStatus = Returned | Waiting | Failed

  class GJClient {
    const server: GJServer
    var promise: Option<Outcome>
    /** A promise was completed a second time, which the library answers with an exception. */
    var completedTwice: bool
    ghost var applied: seq<Op>

    constructor (server: GJServer)
      ensures this.server == server && promise == None && !completedTwice && applied == []
    {
      this.server := server;
      promise, completedTwice, applied := None, false, [];
    }

    /** The server has started, and its values fit a reply. */
    ghost predicate Serving()
      reads server, server.storage, server.storage.file
    {
      server.storage.Valid() && server.storage.now.up && Bounded(server.storage.m, MAX - HEADER_SIZE)
    }

    method SetValue(o: Outcome)
      modifies this`promise, this`completedTwice
      ensures promise == if old(promise).Some? then old(promise) else Some(o)
      ensures completedTwice <==> old(completedTwice) || old(promise).Some?
    {
      if promise.Some? {
        completedTwice := true;
      } else {
        promise := Some(o);
      }
    }

    method ResolveHandler(message: bytes) returns (ok: bool)
      requires IsFrame(message)
      modifies this`promise, this`completedTwice
      ensures ok <==> DecodeHeader(message).version == 0 && DecodeHeader(message).cmd != 0
      ensures old(promise).None? ==>
                completedTwice == old(completedTwice)
                && promise == Some(if ok then Outcome(EOK, AnswerOf(message)) else Outcome(EUNEXP, []))
      ensures old(promise).Some? ==> completedTwice && promise == old(promise)
    {
      if !DecodeHeader(message).VerifyResponse() {
        SetValue(Outcome(EUNEXP, []));
        return false;
      }
      var value := [];
      if DecodeHeader(message).cmd == READ_RESPONSE {
        value := ContentView(message);
      }
      SetValue(Outcome(EOK, value));
      ok := true;
    }

    /** `tried` reconnections, up to the first that succeeds. After five failed ones the promise is completed with the
        failure, and then once more. So is one that was complete when the disconnect came. */
    method ProcessDisconnect(reconnects: seq<bool>) returns (tried: nat)
      requires |reconnects| == 5
      modifies this`promise, this`completedTwice
      ensures 1 <= tried <= 5 && (tried < 5 ==> reconnects[tried - 1])
      ensures forall i | 0 <= i < tried - 1 :: !reconnects[i]
      ensures completedTwice <==> old(completedTwice) || old(promise).Some? || true !in reconnects
      ensures promise ==
              if old(promise).Some? then old(promise)
              else Some(Outcome(if true in reconnects then EDISCON_SUCCESS else EDISCON_FAILED, []))
    {
      var attemptCount := RECONNECT_ATTEMPTS;
      while attemptCount > 0 && !reconnects[RECONNECT_ATTEMPTS - attemptCount]
        invariant 0 <= attemptCount <= RECONNECT_ATTEMPTS
        invariant true !in reconnects[..RECONNECT_ATTEMPTS - attemptCount]
      {
        attemptCount := attemptCount - 1;
      }
      tried := if attemptCount == 0 then RECONNECT_ATTEMPTS else RECONNECT_ATTEMPTS - attemptCount + 1;
      assert forall i | 0 <= i < RECONNECT_ATTEMPTS - attemptCount ::
          reconnects[i] in reconnects[..RECONNECT_ATTEMPTS - attemptCount];
      if attemptCount == 0 {
        assert reconnects[..RECONNECT_ATTEMPTS] == reconnects;
        SetValue(Outcome(EDISCON_FAILED, []));
      }
      SetValue(Outcome(EDISCON_SUCCESS, []));
    }

    /** Hands one request to the server, which nobody else talks to meanwhile. */
    method Request(command: ClientConfig.Command) returns (reply: bytes)
      requires Fitting(command) && Serving()
      modifies this`applied, server.storage`m, server.storage`dirty, server.storage`now
      ensures applied == old(applied) + [OpOf(command)]
      ensures server.storage.m == Apply(old(server.storage.m), OpOf(command))
      ensures Serving()
      ensures IsFrame(reply) && DecodeHeader(reply).VerifyResponse()
      ensures AnswerOf(reply) == Answer(old(server.storage.m), OpOf(command))
    {
      var content := command.args;
      if command.cmd == WRITE_REQUEST {
        var key, value := SplitKeyValue(command.args);
        content := key + [SPACE] + value;
      }
      var request := MakeCommand(command.cmd, content);
      RequestIsFrame(command);
      SizeClosure(server.storage.m, RequestFrame(command), MAX);
      ReplyRoundTrip(OpOf(command), Answer(server.storage.m, OpOf(command)));
      var _, replies := server.ResolveHandler(request[..]);
      reply := replies[0];
      applied := applied + [OpOf(command)];
    }

    method ProcessCommand(command: ClientConfig.Command, attempt: Attempt) returns (status: Status, value: bytes)
      requires ClientConfig.Valid(command) ==> Fitting(command)
      requires WellFormed(attempt) && Serving()
      modifies this, server.storage`m, server.storage`dirty, server.storage`now
      ensures Serving()
      ensures var ran := ClientConfig.Valid(command) && (attempt.Answered? || attempt.processed);
              && applied == old(applied) + (if ran then [OpOf(command)] else [])
              && server.storage.m == if ran then Apply(old(server.storage.m), OpOf(command)) else old(server.storage.m)
      ensures status ==
              if !ClientConfig.Valid(command) then Thrown
              else if attempt.Answered? then Done
              else if Reconnects(attempt) then Retry else Thrown
      ensures status.Done? ==> value == Answer(old(server.storage.m), OpOf(command))
      ensures completedTwice <==>
              old(completedTwice) || (ClientConfig.Valid(command) && attempt.Lost? && !Reconnects(attempt))
    {
      promise := None;
      value := [];
      if !ClientConfig.Valid(command) {
        // The error report calls `ToString`, which throws before the promise is completed.
        return Thrown, [];
      }
      if attempt.Answered? || attempt.processed {
        var reply := Request(command);
        if attempt.Answered? {
          var _ := ResolveHandler(reply);
        }
      }
      if attempt.Lost? {
        var _ := ProcessDisconnect(attempt.reconnects);
      }
      var ret := promise.value;
      match ret.error {
        case EOK => return Done, ret.value;
        case EDISCON_SUCCESS => return Retry, [];
        case EDISCON_FAILED => return Thrown, [];
        case EUNEXP => return Thrown, [];
      }
    }

    /** One more round of the retry loop, after `n` executions on the map `init`. */
    method Again(command: ClientConfig.Command, attempt: Attempt, ghost init: Dict, ghost before: seq<Op>, ghost n: nat)
      returns (status: Status, value: bytes, ghost next: nat)
      requires ClientConfig.Valid(command) ==> Fitting(command)
      requires WellFormed(attempt) && Serving()
      requires applied == before + Copies(OpOf(command), n)
      requires server.storage.m == Replay(init, Copies(OpOf(command), n))
      modifies this, server.storage`m, server.storage`dirty, server.storage`now
      ensures Serving()
      ensures applied == before + Copies(OpOf(command), next)
      ensures server.storage.m == Replay(init, Copies(OpOf(command), next))
      ensures status == After(command, attempt)
      ensures status.Done? ==> next >= 1 && value == Answer(init, OpOf(command))
      ensures completedTwice <==> old(completedTwice) || (status.Thrown? && ClientConfig.Valid(command))
    {
      CopiesOn(init, before, OpOf(command), n);
      status, value := ProcessCommand(command, attempt);
      next := if ClientConfig.Valid(command) && (attempt.Answered? || attempt.processed) then n + 1 else n;
    }

    /** `while (!ProcessCommand(...))` for one command: `n` executions in a row, with the effect of one. It ends with
        the first attempt that is answered, or after which no reconnection succeeds. */
    method RunCommand(command: ClientConfig.Command, attempts: seq<Attempt>, from: nat)
      returns (status: Status, used: nat, value: bytes, ghost n: nat)
      requires ClientConfig.Valid(command) ==> Fitting(command)
      requires (forall a <- attempts :: WellFormed(a)) && from <= |attempts|
      requires Serving()
      modifies this, server.storage`m, server.storage`dirty, server.storage`now
      ensures Serving() && from <= used <= |attempts|
      ensures applied == old(applied) + Copies(OpOf(command), n)
      ensures server.storage.m == Replay(old(server.storage.m), Copies(OpOf(command), n))
      ensures status.Done? ==> n >= 1 && value == Answer(old(server.storage.m), OpOf(command))
      ensures status.Retry? ==> used == |attempts|
      ensures Rounds(command, attempts, from, used, status)
      ensures used == from ==> n == 0 && from == |attempts|
      ensures completedTwice <==> old(completedTwice) || (status.Thrown? && ClientConfig.Valid(command))
    {
      ghost var init, before := server.storage.m, applied;
      status, used, value, n := Retry, from, [], 0;
      assert before + Copies(OpOf(command), 0) == before;
      while status.Retry? && used < |attempts|
        invariant from <= used <= |attempts|
        invariant Serving()
        invariant applied == before + Copies(OpOf(command), n)
        invariant server.storage.m == Replay(init, Copies(OpOf(command), n))
        invariant status.Done? ==> n >= 1 && value == Answer(init, OpOf(command))
        invariant Rounds(command, attempts, from, used, status)
        invariant used == from ==> n == 0
        invariant completedTwice <==> old(completedTwice) || (status.Thrown? && ClientConfig.Valid(command))
        decreases |attempts| - used
      {
        assert attempts[used] in attempts;
        status, value, n := Again(command, attempts[used], init, before, n);
        RoundsOn(command, attempts, from, used);
        used := used + 1;
      }
    }

    /** Runs the script against as many attempts as are given; `pos` commands are behind it at the end, and `used`
        attempts. Whatever was lost and repeated on the way, the map is as if each of them had run once. */
    method ProcessFile(commands: seq<ClientConfig.Command>, attempts: seq<Attempt>)
      returns (status: FileStatus, pos: nat, used: nat, answers: seq<bytes>, ghost times: seq<nat>)
      requires forall i | 0 <= i < |commands| :: ClientConfig.Valid(commands[i]) ==> Fitting(commands[i])
      requires forall a <- attempts :: WellFormed(a)
      requires Serving()
      modifies this, server.storage`m, server.storage`dirty, server.storage`now
      ensures Ended(commands, attempts, status, pos, used)
      ensures Ran(old(server.storage.m), ScriptOps(commands), times, pos, server.storage.m, answers)
      ensures applied == old(applied) + Stutter(ScriptOps(commands), times)
      ensures status.Returned? ==> server.storage.m == Replay(old(server.storage.m), ScriptOps(commands))
      ensures completedTwice <==>
              old(completedTwice) || (status.Failed? && pos < |commands| && ClientConfig.Valid(commands[pos]))
    {
      ghost var init, first, ops := server.storage.m, applied, ScriptOps(commands);
      pos, used, answers, times := 0, 0, [], Zeros(|commands|);
      StutterNothingLeft(ops, times, 0);
      assert first + Stutter(ops, times) == first;
      while pos < |commands|
        invariant Passed(commands, attempts, pos, used) && Serving()
        invariant Behind(init, ops, times, pos, server.storage.m, answers)
        invariant applied == first + Stutter(ops, times)
        invariant completedTwice == old(completedTwice)
        decreases |commands| - pos
      {
        var commandStatus, value;
        ghost var n;
        ghost var before, m, from := Stutter(ops, times), server.storage.m, used;
        commandStatus, used, value, n := RunCommand(commands[pos], attempts, used);
        ScriptAdvances(init, ops, times, pos, n, m, answers, value);
        JoinJoin(first, before, Copies(ops[pos], n));
        times := times[pos := n];
        if !commandStatus.Done? {
          status := if commandStatus.Retry? then Waiting else Failed;
          CommandStops(commands, attempts, pos, from, used, status);
          return;
        }
        CommandPasses(commands, attempts, pos, from, used);
        answers := answers + [value];
        pos := pos + 1;
      }
      assert ops[..pos] == ops;
      status := Returned;
    }
  }

  /** What one attempt makes of a command. */
  function After(command: ClientConfig.Command, a: Attempt): Status {
    if !ClientConfig.Valid(command) then Thrown
    else if a.Answered? then Done
    else if Reconnects(a) then Retry
    else Thrown
  }

  /** The attempts from `from` up to `used` have been made at a command: all but the last of them led to a retry, and
      `status` is what the last one led to. */
  ghost predicate Rounds(command: ClientConfig.Command, attempts: seq<Attempt>, from: nat, used: nat, status: Status) {
    && from <= used <= |attempts|
    && status == (if used == from then Retry else After(command, attempts[used - 1]))
    && forall i | from <= i < used - 1 :: After(command, attempts[i]).Retry?
  }

  lemma RoundsOn(command: ClientConfig.Command, attempts: seq<Attempt>, from: nat, used: nat)
    requires Rounds(command, attempts, from, used, Retry) && used < |attempts|
    ensures Rounds(command, attempts, from, used + 1, After(command, attempts[used]))
  {
  }

  /** The first `used` attempts let the driver go on, and `pos` valid commands have been answered with them. */
  ghost predicate Answers(commands: seq<ClientConfig.Command>, attempts: seq<Attempt>, pos: nat, used: nat) {
    && pos <= |commands| && used <= |attempts|
    && (forall i | 0 <= i < pos :: ClientConfig.Valid(commands[i]))
    && (forall i | 0 <= i < used :: GoesOn(attempts[i]))
    && CountAnswered(attempts[..used]) == pos
  }

  /** ... the last of them by the last of these. */
  ghost predicate Passed(commands: seq<ClientConfig.Command>, attempts: seq<Attempt>, pos: nat, used: nat) {
    Answers(commands, attempts, pos, used) && (used > 0 ==> attempts[used - 1].Answered?)
  }

  /** How the driver ends on a script and a row of attempts: past the last command; out of attempts, all of which let
      it go on; or at an invalid command or an attempt after which no reconnection succeeds. */
  ghost predicate Ended(commands: seq<ClientConfig.Command>, attempts: seq<Attempt>, status: FileStatus,
                        pos: nat, used: nat) {
    match status
    case Returned => pos == |commands| && Passed(commands, attempts, pos, used)
    case Waiting =>
      && pos < |commands| && used == |attempts| && Answers(commands, attempts, pos, used)
      && (used > 0 && !attempts[used - 1].Answered? ==> ClientConfig.Valid(commands[pos]))
    case Failed =>
      && pos < |commands| && 0 < used <= |attempts| && Answers(commands, attempts, pos, used - 1)
      && After(commands[pos], attempts[used - 1]).Thrown?
      && (!ClientConfig.Valid(commands[pos]) && used > 1 ==> attempts[used - 2].Answered?)
  }

  lemma {:induction false} NoneAnswered(attempts: seq<Attempt>, i: nat, j: nat)
    requires i <= j <= |attempts| && forall k | i <= k < j :: !attempts[k].Answered?
    ensures CountAnswered(attempts[..j]) == CountAnswered(attempts[..i])
    decreases j
  {
    if i < j {
      assert attempts[..j][..j - 1] == attempts[..j - 1];
      NoneAnswered(attempts, i, j - 1);
    }
  }

  lemma CommandPasses(commands: seq<ClientConfig.Command>, attempts: seq<Attempt>, pos: nat, from: nat, used: nat)
    requires Passed(commands, attempts, pos, from) && pos < |commands|
    requires Rounds(commands[pos], attempts, from, used, Done)
    ensures Passed(commands, attempts, pos + 1, used)
  {
    NoneAnswered(attempts, from, used - 1);
    assert attempts[..used][..used - 1] == attempts[..used - 1];
  }

  lemma CommandStops(commands: seq<ClientConfig.Command>, attempts: seq<Attempt>, pos: nat, from: nat, used: nat,
                     status: FileStatus)
    requires Passed(commands, attempts, pos, from) && pos < |commands|
    requires Rounds(commands[pos], attempts, from, used, if status.Waiting? then Retry else Thrown)
    requires (status.Waiting? && used == |attempts|) || status.Failed?
    ensures Ended(commands, attempts, status, pos, used)
  {
    if status.Waiting? {
      NoneAnswered(attempts, from, used);
      assert attempts[..used] == attempts;
    } else {
      NoneAnswered(attempts, from, used - 1);
    }
  }

  lemma {:induction false} CountGrows(attempts: seq<Attempt>, i: nat, j: nat)
    requires i <= j <= |attempts|
    ensures CountAnswered(attempts[..i]) <= CountAnswered(attempts[..j])
    decreases j
  {
    if i < j {
      assert attempts[..j][..j - 1] == attempts[..j - 1];
      CountGrows(attempts, i, j - 1);
    }
  }

  lemma NotAnsweredAgain(attempts: seq<Attempt>, i: nat, j: nat)
    requires i < j <= |attempts| && CountAnswered(attempts[..i]) == CountAnswered(attempts[..j])
    ensures !attempts[j - 1].Answered?
  {
    CountGrows(attempts, i, j - 1);
    assert attempts[..j][..j - 1] == attempts[..j - 1];
  }

  /** Past the first attempt that does not let a command go on, nothing is answered. */
  lemma FailedIsLast(commands: seq<ClientConfig.Command>, attempts: seq<Attempt>, pos: nat, used: nat,
                     otherPos: nat, otherUsed: nat)
    requires Ended(commands, attempts, Failed, pos, used) && Answers(commands, attempts, otherPos, otherUsed)
    requires used <= otherUsed
    ensures otherPos == pos && pos < |commands| && !ClientConfig.Valid(commands[pos])
    ensures otherUsed > 0 && !attempts[otherUsed - 1].Answered?
  {
    assert GoesOn(attempts[used - 1]);
    CountGrows(attempts, used - 1, otherUsed);
    NotAnsweredAgain(attempts, used - 1, otherUsed);
  }

  /** The outcome is settled by the script and the attempts. */
  lemma EndedOnce(commands: seq<ClientConfig.Command>, attempts: seq<Attempt>,
                  status: FileStatus, pos: nat, used: nat, otherStatus: FileStatus, otherPos: nat, otherUsed: nat)
    requires Ended(commands, attempts, status, pos, used)
    requires Ended(commands, attempts, otherStatus, otherPos, otherUsed)
    ensures status == otherStatus && pos == otherPos && used == otherUsed
  {
    EndsLikeThis(commands, attempts, status, pos, used, otherStatus, otherPos, otherUsed);
    EndsLikeThis(commands, attempts, otherStatus, otherPos, otherUsed, status, pos, used);
  }

  lemma EndsLikeThis(commands: seq<ClientConfig.Command>, attempts: seq<Attempt>,
                     status: FileStatus, pos: nat, used: nat, otherStatus: FileStatus, otherPos: nat, otherUsed: nat)
    requires Ended(commands, attempts, status, pos, used)
    requires Ended(commands, attempts, otherStatus, otherPos, otherUsed)
    ensures used <= otherUsed && (used == otherUsed ==> pos == otherPos && status == otherStatus)
  {
    match status {
      case Failed =>
        match otherStatus {
          case Failed =>
            if otherUsed < used {
              FailedIsLast(commands, attempts, otherPos, otherUsed, pos, used - 1);
            }
          case Waiting => FailedIsLast(commands, attempts, pos, used, otherPos, otherUsed);
          case Returned =>
            if used <= otherUsed {
              FailedIsLast(commands, attempts, pos, used, otherPos, otherUsed);
            } else {
              CountGrows(attempts, otherUsed, used - 1);
            }
        }
      case Waiting =>
        match otherStatus {
          case Failed => FailedIsLast(commands, attempts, otherPos, otherUsed, pos, used);
          case Waiting =>
          case Returned => CountGrows(attempts, otherUsed, used);
        }
      case Returned =>
        match otherStatus {
          case Failed =>
            if otherUsed <= used {
              FailedIsLast(commands, attempts, otherPos, otherUsed, pos, used);
            } else {
              CountGrows(attempts, used, otherUsed - 1);
            }
          case Waiting => CountGrows(attempts, used, otherUsed);
          case Returned =>
            if otherUsed < used {
              NotAnsweredAgain(attempts, otherUsed, used);
            }
        }
    }
  }

  /** A valid script returns exactly when as many attempts as it has commands are answered before one is lost for
      good; so always, if every attempt is answered or reconnected and there are enough answered ones. */
  lemma EnoughAnswered(commands: seq<ClientConfig.Command>, attempts: seq<Attempt>,
                       status: FileStatus, pos: nat, used: nat)
    requires Ended(commands, attempts, status, pos, used)
    requires forall i | 0 <= i < |commands| :: ClientConfig.Valid(commands[i])
    ensures status.Returned? <==>
            exists k | 0 <= k <= |attempts| ::
              CountAnswered(attempts[..k]) >= |commands| && forall i | 0 <= i < k :: GoesOn(attempts[i])
  {
    if status.Returned? {
      assert CountAnswered(attempts[..used]) >= |commands|;
    } else if k: nat :| k <= |attempts| && CountAnswered(attempts[..k]) >= |commands|
                        && forall i | 0 <= i < k :: GoesOn(attempts[i]) {
      var sure := if status.Waiting? then used else used - 1;
      assert k <= sure;
      CountGrows(attempts, k, sure);
    }
  }

  /** `pos` commands are done, each executed at least once, nothing after the current one has run, and each
      answer is the one the commands before it make. */
  ghost predicate Ran(init: Dict, ops: seq<Op>, times: seq<nat>, pos: nat, m: Dict, answers: seq<bytes>) {
    && pos <= |ops| == |times| && |answers| == pos
    && (forall i | 0 <= i < pos :: times[i] >= 1)
    && (forall i | pos < i < |times| :: times[i] == 0)
    && m == Replay(init, Stutter(ops, times))
    && (forall j | 0 <= j < pos :: answers[j] == Answer(Replay(init, ops[..j]), ops[j]))
  }

  /** The same, between two commands. */
  ghost predicate Behind(init: Dict, ops: seq<Op>, times: seq<nat>, pos: nat, m: Dict, answers: seq<bytes>) {
    && Ran(init, ops, times, pos, m, answers)
    && (pos < |times| ==> times[pos] == 0)
    && m == Replay(init, ops[..pos])
  }

  lemma ScriptAdvances(init: Dict, ops: seq<Op>, times: seq<nat>, p: nat, n: nat,
                       m: Dict, answers: seq<bytes>, value: bytes)
    requires p < |ops| && Behind(init, ops, times, p, m, answers)
    ensures var next := Replay(m, Copies(ops[p], n));
            && Stutter(ops, times[p := n]) == Stutter(ops, times) + Copies(ops[p], n)
            && Ran(init, ops, times[p := n], p, next, answers)
            && (n >= 1 && value == Answer(m, ops[p]) ==>
                  Behind(init, ops, times[p := n], p + 1, next, answers + [value]))
  {
    CommandAdvances(init, ops, times, p, n);
    assert Ran(init, ops, times[p := n], p, Replay(m, Copies(ops[p], n)), answers);
    if n >= 1 && value == Answer(m, ops[p]) {
      CommandDone(init, ops, times[p := n], p, Replay(m, Copies(ops[p], n)), answers, value);
    }
  }

  lemma CommandDone(init: Dict, ops: seq<Op>, times: seq<nat>, p: nat, m: Dict, answers: seq<bytes>, value: bytes)
    requires p < |ops| && Ran(init, ops, times, p, m, answers) && times[p] >= 1
    requires value == Answer(Replay(init, ops[..p]), ops[p]) && m == Replay(init, ops[..p + 1])
    ensures Behind(init, ops, times, p + 1, m, answers + [value])
  {
  }

  lemma CopiesOn(init: Dict, before: seq<Op>, op: Op, n: nat)
    ensures before + Copies(op, n) + [op] == before + Copies(op, n + 1)
    ensures before + Copies(op, n) + [] == before + Copies(op, n)
    ensures Apply(Replay(init, Copies(op, n)), op) == Replay(init, Copies(op, n + 1))
    ensures Answer(Replay(init, Copies(op, n)), op) == Answer(init, op)
  {
    ReplayCopies(init, op, n);
    ReplayCopies(init, op, n + 1);
    assert Copies(op, n) + [op] == Copies(op, n + 1);
  }

  lemma JoinJoin(a: seq<Op>, b: seq<Op>, c: seq<Op>)
    ensures a + b + c == a + (b + c)
  {
  }

  lemma CommandAdvances(init: Dict, ops: seq<Op>, times: seq<nat>, p: nat, n: nat)
    requires |ops| == |times| && p < |ops|
    requires forall i | 0 <= i < p :: times[i] >= 1
    requires forall i | p <= i < |times| :: times[i] == 0
    ensures Stutter(ops, times[p := n]) == Stutter(ops, times) + Copies(ops[p], n)
    ensures Replay(init, Stutter(ops, times[p := n])) == Replay(Replay(init, ops[..p]), Copies(ops[p], n))
    ensures n >= 1 ==> Replay(init, Stutter(ops, times[p := n])) == Replay(init, ops[..p + 1])
  {
    var next := times[p := n];
    StutterNothingLeft(ops, times, p);
    StutterNothingLeft(ops, next, p + 1);
    assert ops[..p + 1][..p] == ops[..p] && next[..p + 1][..p] == times[..p];
    StutterIsOnce(init, ops[..p], times[..p]);
    ReplayJoin(init, Stutter(ops[..p], times[..p]), Copies(ops[p], n));
    ReplayCopies(Replay(init, ops[..p]), ops[p], n);
  }
}
