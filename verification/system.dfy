/** The whole system: clients that run scripts with retries, byte streams delivered in any chunks, one server. */
module System {
  import opened Bytes
  import opened Proto
  import opened KVFile
  import opened AtomicMap
  import opened Server
  import ClientConfig
  import Framing

  /** `DEFAULT_MAX_MESSAGE_SIZE`, the buffer of every session on both sides. */
  const MAX: nat := 4096

  /** The server side of one connection: reading, a complete frame in the handler, the map operation done and
      the reply not yet written, the reply written and the buffer not yet reset. */
  datatype Stage = Reading | Dispatched | Replying(reply: bytes) | Replied

  /** `Asking` and `Settled` are one phase to the client; they record whether the map operation has happened,
      and, if so, at which place of the log and with which answer. */
  datatype Phase = Resting | Asking | Settled(ticket: nat, answer: bytes)

  /** `up` and `down` are bytes on the wire, `serverHeld` and `clientHeld` the session buffers.
      `times` and `accepted` are history: executions of each command, and where the accepted one is in the log. */
  datatype Client = Client(
    script: seq<Command>, pos: nat, phase: Phase, answers: seq<bytes>,
    up: bytes, serverHeld: bytes, stage: Stage, down: bytes, clientHeld: bytes,
    times: seq<nat>, accepted: seq<nat>)

  /** A request that its client has given up with its connection, and that the server may still execute;
      `pos` is history: which command of the script it is. */
  datatype Orphan = Orphan(client: nat, pos: nat, request: bytes)

  datatype State = State(m: Dict, log: seq<Entry>, clients: seq<Client>, orphans: seq<Orphan>)

  datatype Event =
    | Send(c: nat)
    | ServerRead(c: nat, n: nat)
    | Execute(c: nat)
    | Reply(c: nat)
    | Resume(c: nat)
    | ClientRead(c: nat, n: nat)
    | Disconnect(c: nat)
    | ExecuteLate(k: nat)

  predicate Fitting(c: Command) {
    ClientConfig.Valid(c) && |RequestContent(c)| <= MAX - HEADER_SIZE
  }

  /** A request fits exactly when its frame is no longer than the 4096 bytes of a session's buffer. */
  lemma FitsTheBuffer(c: Command)
    requires ClientConfig.Valid(c) && |RequestContent(c)| <= CONTENT_LIMIT
    ensures Fitting(c) <==> |RequestFrame(c)| <= 4096
  {
    FrameRoundTrip(c.cmd, RequestContent(c), []);
  }

  ghost predicate FittingScript(script: seq<Command>) {
    forall i | 0 <= i < |script| :: Fitting(script[i])
  }

  // ---------------------------------------------------------------- steps of one client

  function Sent(cl: Client): Client
    requires cl.pos < |cl.script| && Fitting(cl.script[cl.pos])
  {
    cl.(phase := Asking, up := cl.up + RequestFrame(cl.script[cl.pos]))
  }

  function ServerGot(cl: Client, n: nat): Client
    requires n <= |cl.up|
  {
    var held := cl.serverHeld + cl.up[..n];
    cl.(up := cl.up[n..], serverHeld := held, stage := if Framing.Complete(held) then Dispatched else Reading)
  }

  function Executed(cl: Client, ticket: nat, answer: bytes, reply: bytes): Client {
    cl.(phase := Settled(ticket, answer), stage := Replying(reply),
        times := if cl.pos < |cl.times| then cl.times[cl.pos := cl.times[cl.pos] + 1] else cl.times)
  }

  function Written(cl: Client): Client
    requires cl.stage.Replying?
  {
    cl.(stage := Replied, down := cl.down + cl.stage.reply)
  }

  function Resumed(cl: Client): Client {
    cl.(stage := Reading, serverHeld := [])
  }

  function ClientGot(cl: Client, n: nat): Client
    requires n <= |cl.down|
  {
    var held := cl.clientHeld + cl.down[..n];
    if Framing.Complete(held) && DecodeHeader(held).VerifyResponse() && cl.phase.Settled? then
      cl.(down := cl.down[n..], clientHeld := [], phase := Resting, pos := cl.pos + 1,
          answers := cl.answers + [AnswerOf(held)], accepted := cl.accepted + [cl.phase.ticket])
    else
      cl.(down := cl.down[n..], clientHeld := held)
  }

  /** The connection breaks and is made anew: replies on the wire are gone; the client will send the same command
      again. */
  function Dropped(cl: Client): Client {
    cl.(phase := Resting, up := [], serverHeld := [], stage := Reading, down := [])
  }

  /** What the old connection still holds of a request that was not executed when it broke: bytes under way, in
      the server's buffer, or in a handler that has been entered. Nothing takes them back. */
  function Abandoned(cl: Client): bytes {
    if cl.stage.Reading? || cl.stage.Dispatched? then cl.serverHeld + cl.up else cl.up
  }

  function Orphaned(orphans: seq<Orphan>, c: nat, cl: Client): seq<Orphan> {
    if Abandoned(cl) == [] then orphans else orphans + [Orphan(c, cl.pos, Abandoned(cl))]
  }

  // ---------------------------------------------------------------- the machine

  ghost predicate Ready(cl: Client, e: Event)
    requires !e.ExecuteLate?
  {
    match e
    case Send(_) => cl.phase.Resting? && cl.pos < |cl.script| && Fitting(cl.script[cl.pos])
    case ServerRead(_, n) => cl.stage.Reading? && 1 <= n <= |cl.up| && n <= Framing.ReadSize(cl.serverHeld)
    case Execute(_) => cl.stage.Dispatched? && IsFrame(cl.serverHeld) && IsRequest(DecodeHeader(cl.serverHeld))
    case Reply(_) => cl.stage.Replying?
    case Resume(_) => cl.stage.Replied?
    case ClientRead(_, n) => 1 <= n <= |cl.down| && n <= Framing.ReadSize(cl.clientHeld)
    case Disconnect(_) => !cl.phase.Resting? && cl.clientHeld == []
  }

  /** A step that concerns one connection only. */
  ghost function Local(cl: Client, e: Event): Client
    requires !e.Execute? && !e.ExecuteLate? && Ready(cl, e)
  {
    match e
    case Send(_) => Sent(cl)
    case ServerRead(_, n) => ServerGot(cl, n)
    case Reply(_) => Written(cl)
    case Resume(_) => Resumed(cl)
    case ClientRead(_, n) => ClientGot(cl, n)
    case Disconnect(_) => Dropped(cl)
  }

  ghost predicate Enabled(s: State, e: Event) {
    if e.ExecuteLate? then
      && e.k < |s.orphans|
      && IsFrame(s.orphans[e.k].request) && IsRequest(DecodeHeader(s.orphans[e.k].request))
      && Bounded(s.m, CONTENT_LIMIT)
    else
      && e.c < |s.clients|
      && Ready(s.clients[e.c], e)
      && (e.Execute? ==> Bounded(s.m, CONTENT_LIMIT))
  }

  ghost function Next(s: State, e: Event): State
    requires Enabled(s, e)
  {
    if e.ExecuteLate? then
      // The reply goes to a socket that nobody reads.
      var orphan := s.orphans[e.k];
      var op := OpOfFrame(orphan.request);
      State(Serve(s.m, orphan.request).m, s.log + [Entry(orphan.client, op, Answer(s.m, op), true)],
            s.clients, s.orphans[..e.k] + s.orphans[e.k + 1..])
    else if e.Execute? then
      var cl := s.clients[e.c];
      var served := Serve(s.m, cl.serverHeld);
      var op := OpOfFrame(cl.serverHeld);
      State(served.m, s.log + [Entry(e.c, op, Answer(s.m, op), false)],
            s.clients[e.c := Executed(cl, |s.log|, Answer(s.m, op), served.replies[0])], s.orphans)
    else
      s.(clients := s.clients[e.c := Local(s.clients[e.c], e)],
         orphans := if e.Disconnect? then Orphaned(s.orphans, e.c, s.clients[e.c]) else s.orphans)
  }

  ghost predicate ValidRun(s: State, events: seq<Event>)
    decreases |events|, 0
  {
    events == [] ||
    (var before := events[..|events| - 1];
     ValidRun(s, before) && Enabled(Run(s, before), events[|events| - 1]))
  }

  ghost function Run(s: State, events: seq<Event>): State
    requires ValidRun(s, events)
    decreases |events|, 1
  {
    if events == [] then s else Next(Run(s, events[..|events| - 1]), events[|events| - 1])
  }

  function Zeros(n: nat): seq<nat> {
    seq(n, _ => 0)
  }

  function Fresh(script: seq<Command>): Client {
    Client(script, 0, Resting, [], [], [], Reading, [], [], Zeros(|script|), [])
  }

  function Start(init: Dict, scripts: seq<seq<Command>>): State {
    State(init, [], seq(|scripts|, i requires 0 <= i < |scripts| => Fresh(scripts[i])), [])
  }

  function ScriptOps(script: seq<Command>): seq<Op> {
    seq(|script|, i requires 0 <= i < |script| => OpOf(script[i]))
  }

  // ---------------------------------------------------------------- what is on the wire

  ghost predicate WireInv(cl: Client) {
    && FittingScript(cl.script)
    && cl.pos <= |cl.script|
    && (!cl.phase.Resting? ==> cl.pos < |cl.script|)
    && match cl.phase
       case Resting =>
         && cl.up == [] && cl.down == [] && cl.clientHeld == []
         && (cl.stage.Replied? || (cl.stage.Reading? && cl.serverHeld == []))
       case Asking =>
         var request := RequestFrame(cl.script[cl.pos]);
         && cl.down == [] && cl.clientHeld == []
         && (|| (cl.stage.Reading? && cl.serverHeld + cl.up == request && cl.up != [])
             || (cl.stage.Dispatched? && cl.serverHeld == request && cl.up == [])
             || (cl.stage.Replied? && cl.up == request))
       case Settled(_, answer) =>
         var op := OpOf(cl.script[cl.pos]);
         && |answer| <= MAX - HEADER_SIZE && (op.Put? ==> answer == [])
         && cl.up == []
         && var reply := ReplyFrame(op, answer);
            || (cl.stage == Replying(reply) && cl.down == [] && cl.clientHeld == [])
            || (&& (cl.stage.Replied? || (cl.stage.Reading? && cl.serverHeld == []))
                && cl.clientHeld + cl.down == reply && cl.down != [])
  }

  /** Part of a frame: complete exactly when nothing is missing, and never asked to go past the end. */
  lemma PartOfFrame(held: bytes, rest: bytes)
    requires IsFrame(held + rest)
    ensures Framing.Complete(held) <==> rest == []
    ensures Framing.ReadSize(held) <= |rest|
    ensures rest != [] ==> 1 <= Framing.ReadSize(held)
  {
    if |held| >= HEADER_SIZE {
      Framing.HeaderOfPrefix(held, rest);
    }
  }

  /** Reading `n` more bytes of a frame: the parts still make it up, and it is complete when nothing is left. */
  lemma ReadOn(f: bytes, held: bytes, wire: bytes, n: nat)
    requires IsFrame(f) && held + wire == f && n <= |wire|
    ensures held + wire[..n] + wire[n..] == f
    ensures Framing.Complete(held + wire[..n]) <==> n == |wire|
    ensures n == |wire| ==> held + wire[..n] == f && wire[n..] == []
  {
    assert wire == wire[..n] + wire[n..];
    PartOfFrame(held + wire[..n], wire[n..]);
  }

  lemma RequestIsFrame(c: Command)
    requires Fitting(c)
    ensures IsFrame(RequestFrame(c)) && IsRequest(DecodeHeader(RequestFrame(c)))
    ensures OpOfFrame(RequestFrame(c)) == OpOf(c)
    ensures HEADER_SIZE <= |RequestFrame(c)| <= MAX
  {
    DoubleParse(c);
  }

  lemma ServerReadKeepsWire(cl: Client, n: nat)
    requires WireInv(cl) && cl.stage.Reading? && 1 <= n <= |cl.up|
    ensures WireInv(ServerGot(cl, n)) && ServerGot(cl, n).phase == Asking
    ensures ServerGot(cl, n).stage.Dispatched? <==> n == |cl.up|
  {
    assert cl.phase == Asking;
    RequestIsFrame(cl.script[cl.pos]);
    ReadOn(RequestFrame(cl.script[cl.pos]), cl.serverHeld, cl.up, n);
  }

  lemma ExecuteKeepsWire(cl: Client, ticket: nat, answer: bytes)
    requires WireInv(cl) && cl.stage.Dispatched?
    requires |answer| <= MAX - HEADER_SIZE && (OpOf(cl.script[cl.pos]).Put? ==> answer == [])
    ensures WireInv(Executed(cl, ticket, answer, ReplyFrame(OpOf(cl.script[cl.pos]), answer)))
  {
  }

  lemma ReplyKeepsWire(cl: Client)
    requires WireInv(cl) && cl.stage.Replying?
    ensures WireInv(Written(cl))
  {
    assert cl.phase.Settled?;
    ReplyRoundTrip(OpOf(cl.script[cl.pos]), cl.phase.answer);
    assert cl.clientHeld + (cl.down + cl.stage.reply) == cl.stage.reply;
  }

  lemma ResumeKeepsWire(cl: Client)
    requires WireInv(cl) && cl.stage.Replied?
    ensures WireInv(Resumed(cl))
  {
    if cl.phase.Asking? {
      RequestIsFrame(cl.script[cl.pos]);
      assert [] + cl.up == cl.up;
    }
  }

  /** The client accepts exactly when the reply is whole, and then reads the answer that was given. */
  lemma ClientReadKeepsWire(cl: Client, n: nat)
    requires WireInv(cl) && 1 <= n <= |cl.down|
    ensures WireInv(ClientGot(cl, n)) && cl.phase.Settled?
    ensures if n == |cl.down|
            then ClientGot(cl, n) == cl.(down := [], clientHeld := [], phase := Resting, pos := cl.pos + 1,
                   answers := cl.answers + [cl.phase.answer], accepted := cl.accepted + [cl.phase.ticket])
            else ClientGot(cl, n) == cl.(down := cl.down[n..], clientHeld := cl.clientHeld + cl.down[..n])
  {
    assert cl.phase.Settled?;
    var reply := ReplyFrame(OpOf(cl.script[cl.pos]), cl.phase.answer);
    ReplyRoundTrip(OpOf(cl.script[cl.pos]), cl.phase.answer);
    ReadOn(reply, cl.clientHeld, cl.down, n);
  }

  lemma SendKeepsWire(cl: Client)
    requires WireInv(cl) && cl.phase.Resting? && cl.pos < |cl.script|
    ensures WireInv(Sent(cl))
  {
    RequestIsFrame(cl.script[cl.pos]);
    assert [] + cl.up + RequestFrame(cl.script[cl.pos]) == RequestFrame(cl.script[cl.pos]);
  }

  // ---------------------------------------------------------------- history

  /** What was executed late for client `c` is among these commands. */
  ghost predicate LateOk(log: seq<Entry>, c: nat, ops: seq<Op>) {
    forall i | 0 <= i < |log| && log[i].late && log[i].client == c :: log[i].op in ops
  }

  /** The commands up to the current one. */
  function OpsSoFar(cl: Client): seq<Op>
    requires cl.pos <= |cl.script|
  {
    if cl.pos < |cl.script| then ScriptOps(cl.script)[..cl.pos + 1] else ScriptOps(cl.script)
  }

  /** The accepted answer to command `j` is the one its last timely execution got. */
  ghost predicate Accepted(cl: Client, c: nat, log: seq<Entry>, j: nat)
    requires j < |cl.script| == |cl.times| && j < |cl.accepted| == |cl.answers|
  {
    && cl.accepted[j] < |log|
    && log[cl.accepted[j]] == Entry(c, OpOf(cl.script[j]), cl.answers[j], false)
    && OpsOf(log[..cl.accepted[j] + 1], c) == Stutter(ScriptOps(cl.script)[..j + 1], cl.times[..j + 1])
    && LateOk(log[..cl.accepted[j] + 1], c, ScriptOps(cl.script)[..j + 1])
  }

  ghost predicate Settles(cl: Client, c: nat, log: seq<Entry>)
    requires cl.phase.Settled? && cl.pos < |cl.script| == |cl.times|
  {
    && cl.phase.ticket < |log|
    && log[cl.phase.ticket] == Entry(c, OpOf(cl.script[cl.pos]), cl.phase.answer, false)
    && OpsOf(log[..cl.phase.ticket + 1], c) == OpsOf(log, c)
    && cl.times[cl.pos] >= 1
  }

  /** The log holds, for this client, its script up to here, each command once or several times in a row. */
  ghost predicate HistInv(cl: Client, c: nat, log: seq<Entry>) {
    && cl.pos <= |cl.script| == |cl.times|
    && |cl.answers| == |cl.accepted| == cl.pos
    && (forall i | 0 <= i < cl.pos :: cl.times[i] >= 1)
    && (forall i | cl.pos < i < |cl.times| :: cl.times[i] == 0)
    && OpsOf(log, c) == Stutter(ScriptOps(cl.script), cl.times)
    && LateOk(log, c, OpsSoFar(cl))
    && (forall j | 0 <= j < cl.pos :: Accepted(cl, c, log, j))
    && (cl.phase.Settled? ==> cl.pos < |cl.script| && Settles(cl, c, log))
  }

  ghost predicate ClientInv(clients: seq<Client>, log: seq<Entry>, c: nat)
    requires c < |clients|
  {
    WireInv(clients[c]) && HistInv(clients[c], c, log)
  }

  ghost predicate ClientsInv(clients: seq<Client>, log: seq<Entry>) {
    forall c | 0 <= c < |clients| :: ClientInv(clients, log, c)
  }

  ghost predicate OrphanInv(clients: seq<Client>, o: Orphan) {
    && o.client < |clients| && o.pos <= clients[o.client].pos <= |clients[o.client].script|
    && o.pos < |clients[o.client].script|
    && Fitting(clients[o.client].script[o.pos])
    && o.request == RequestFrame(clients[o.client].script[o.pos])
  }

  ghost predicate OrphansInv(clients: seq<Client>, orphans: seq<Orphan>) {
    forall k | 0 <= k < |orphans| :: OrphanInv(clients, orphans[k])
  }

  /** The map is what the atomic map makes of the log, answers included. */
  ghost predicate LogInv(m: Dict, log: seq<Entry>, init: Dict) {
    m == Replay(init, Ops(log)) && Legal(init, log)
  }

  ghost predicate Inv(s: State, init: Dict) {
    && LogInv(s.m, s.log, init)
    && Bounded(s.m, MAX - HEADER_SIZE)
    && (forall e <- s.log :: e.client < |s.clients|)
    && ClientsInv(s.clients, s.log)
    && OrphansInv(s.clients, s.orphans)
  }

  lemma AcceptedStays(cl: Client, next: Client, c: nat, log: seq<Entry>, e: Entry, j: nat)
    requires j < |cl.script| == |cl.times| && j < |cl.accepted| == |cl.answers|
    requires Accepted(cl, c, log, j)
    requires next.script == cl.script && |next.times| == |cl.times| && next.times[..j + 1] == cl.times[..j + 1]
    requires next.accepted == cl.accepted && next.answers == cl.answers
    ensures Accepted(next, c, log + [e], j)
  {
    assert (log + [e])[..cl.accepted[j] + 1] == log[..cl.accepted[j] + 1];
  }

  lemma LateOkPush(log: seq<Entry>, c: nat, ops: seq<Op>, e: Entry)
    requires LateOk(log, c, ops) && (e.client == c && e.late ==> e.op in ops)
    ensures LateOk(log + [e], c, ops)
  {
  }

  lemma LateOkWidens(log: seq<Entry>, c: nat, cl: Client, next: Client)
    requires cl.pos < |cl.script| && next.script == cl.script && next.pos == cl.pos + 1
    requires LateOk(log, c, OpsSoFar(cl))
    ensures LateOk(log, c, OpsSoFar(next))
  {
    var ops := ScriptOps(cl.script);
    forall op | op in OpsSoFar(cl)
      ensures op in OpsSoFar(next)
    {
      var i :| 0 <= i < cl.pos + 1 && ops[i] == op;
      assert OpsSoFar(next)[i] == op;
    }
  }

  lemma SettlesStays(cl: Client, c: nat, log: seq<Entry>, e: Entry)
    requires cl.phase.Settled? && cl.pos < |cl.script| == |cl.times| && Settles(cl, c, log)
    requires OpsOf(log + [e], c) == OpsOf(log, c)
    ensures Settles(cl, c, log + [e])
  {
    assert (log + [e])[..cl.phase.ticket + 1] == log[..cl.phase.ticket + 1];
  }

  /** Another client's operation, or a late one of a command already sent, leaves the client's history as it is. */
  lemma AppendKeepsHist(cl: Client, c: nat, log: seq<Entry>, e: Entry)
    requires HistInv(cl, c, log) && (e.client == c ==> e.late && e.op in OpsSoFar(cl))
    ensures HistInv(cl, c, log + [e])
  {
    LogPush(log, e, c);
    assert OpsOf(log, c) + [] == OpsOf(log, c);
    LateOkPush(log, c, OpsSoFar(cl), e);
    forall j | 0 <= j < cl.pos
      ensures Accepted(cl, c, log + [e], j)
    {
      AcceptedStays(cl, cl, c, log, e, j);
    }
    if cl.phase.Settled? {
      SettlesStays(cl, c, log, e);
    }
  }

  lemma ExecuteKeepsHist(cl: Client, c: nat, log: seq<Entry>, answer: bytes, reply: bytes)
    requires HistInv(cl, c, log) && cl.pos < |cl.script|
    ensures HistInv(Executed(cl, |log|, answer, reply), c, log + [Entry(c, OpOf(cl.script[cl.pos]), answer, false)])
  {
    var e := Entry(c, OpOf(cl.script[cl.pos]), answer, false);
    var next := Executed(cl, |log|, answer, reply);
    LogPush(log, e, c);
    StutterOnceMore(ScriptOps(cl.script), cl.times, cl.pos);
    LateOkPush(log, c, OpsSoFar(cl), e);
    forall j | 0 <= j < cl.pos
      ensures Accepted(next, c, log + [e], j)
    {
      assert next.times[..j + 1] == cl.times[..j + 1];
      AcceptedStays(cl, next, c, log, e, j);
    }
    assert (log + [e])[..|log| + 1] == log + [e];
  }

  lemma AcceptsNow(cl: Client, c: nat, log: seq<Entry>, next: Client)
    requires HistInv(cl, c, log) && cl.phase.Settled? && next.script == cl.script && next.times == cl.times
    requires next.answers == cl.answers + [cl.phase.answer] && next.accepted == cl.accepted + [cl.phase.ticket]
    ensures cl.pos < |next.script| == |next.times| && cl.pos < |next.accepted| == |next.answers|
    ensures Accepted(next, c, log, cl.pos)
  {
    StutterNothingLeft(ScriptOps(cl.script), cl.times, cl.pos + 1);
    assert LateOk(log[..cl.phase.ticket + 1], c, OpsSoFar(cl));
  }

  lemma AcceptKeepsHist(cl: Client, c: nat, log: seq<Entry>, next: Client)
    requires HistInv(cl, c, log) && cl.phase.Settled?
    requires next == cl.(down := [], clientHeld := [], phase := Resting, pos := cl.pos + 1,
               answers := cl.answers + [cl.phase.answer], accepted := cl.accepted + [cl.phase.ticket])
    ensures HistInv(next, c, log)
  {
    AcceptsNow(cl, c, log, next);
    LateOkWidens(log, c, cl, next);
    forall j | 0 <= j < cl.pos
      ensures Accepted(next, c, log, j)
    {
      assert Accepted(cl, c, log, j);
    }
  }

  lemma SameHist(cl: Client, next: Client, c: nat, log: seq<Entry>)
    requires HistInv(cl, c, log)
    requires next.script == cl.script && next.pos == cl.pos && next.times == cl.times
    requires next.answers == cl.answers && next.accepted == cl.accepted
    requires next.phase.Settled? ==> next.phase == cl.phase
    ensures HistInv(next, c, log)
  {
    forall j | 0 <= j < cl.pos
      ensures Accepted(next, c, log, j)
    {
      assert Accepted(cl, c, log, j);
    }
  }

  lemma LocalKeepsWire(cl: Client, e: Event)
    requires WireInv(cl) && !e.Execute? && !e.ExecuteLate? && Ready(cl, e)
    ensures WireInv(Local(cl, e))
  {
    match e
    case Send(_) => SendKeepsWire(cl);
    case ServerRead(_, n) => ServerReadKeepsWire(cl, n);
    case Reply(_) => ReplyKeepsWire(cl);
    case Resume(_) => ResumeKeepsWire(cl);
    case ClientRead(_, n) => ClientReadKeepsWire(cl, n);
    case Disconnect(_) =>
  }

  lemma LocalKeepsHist(cl: Client, e: Event, c: nat, log: seq<Entry>)
    requires WireInv(cl) && !e.Execute? && !e.ExecuteLate? && Ready(cl, e) && HistInv(cl, c, log)
    ensures HistInv(Local(cl, e), c, log)
  {
    if e.ClientRead? {
      ClientReadKeepsWire(cl, e.n);
    }
    if e.ClientRead? && e.n == |cl.down| {
      AcceptKeepsHist(cl, c, log, Local(cl, e));
    } else {
      SameHist(cl, Local(cl, e), c, log);
    }
  }

  /** The frame in the handler is the client's current command; executing it is one atomic operation. */
  lemma ExecuteStep(s: State, c: nat)
    requires Enabled(s, Execute(c)) && WireInv(s.clients[c]) && Bounded(s.m, MAX - HEADER_SIZE)
    ensures var cl, next := s.clients[c], Next(s, Execute(c));
            var op := OpOf(cl.script[cl.pos]);
            var answer := Answer(s.m, op);
            && |answer| <= MAX - HEADER_SIZE && (op.Put? ==> answer == [])
            && Bounded(next.m, MAX - HEADER_SIZE)
            && next == State(Apply(s.m, op), s.log + [Entry(c, op, answer, false)],
                             s.clients[c := Executed(cl, |s.log|, answer, ReplyFrame(op, answer))], s.orphans)
  {
    var cl := s.clients[c];
    RequestIsFrame(cl.script[cl.pos]);
    assert cl.serverHeld == RequestFrame(cl.script[cl.pos]);
    ServeIsAtomic(s.m, cl.serverHeld);
    SizeClosure(s.m, cl.serverHeld, MAX);
  }

  lemma ExecuteKeepsClients(clients: seq<Client>, log: seq<Entry>, c: nat, answer: bytes)
    requires c < |clients| && clients[c].stage.Dispatched? && clients[c].pos < |clients[c].script|
    requires ClientsInv(clients, log)
    requires |answer| <= MAX - HEADER_SIZE && (OpOf(clients[c].script[clients[c].pos]).Put? ==> answer == [])
    ensures var op := OpOf(clients[c].script[clients[c].pos]);
            var nextClients := clients[c := Executed(clients[c], |log|, answer, ReplyFrame(op, answer))];
            ClientsInv(nextClients, log + [Entry(c, op, answer, false)])
  {
    var cl := clients[c];
    var op := OpOf(cl.script[cl.pos]);
    var next := Executed(cl, |log|, answer, ReplyFrame(op, answer));
    assert ClientInv(clients, log, c);
    ExecuteKeepsWire(cl, |log|, answer);
    ExecuteKeepsHist(cl, c, log, answer, ReplyFrame(op, answer));
    var nextClients, nextLog := clients[c := next], log + [Entry(c, op, answer, false)];
    forall i | 0 <= i < |clients|
      ensures ClientInv(nextClients, nextLog, i)
    {
      if i != c {
        assert ClientInv(clients, log, i);
        AppendKeepsHist(clients[i], i, log, Entry(c, op, answer, false));
      }
    }
  }

  /** Clients only move forward in their scripts, so what they have given up stays behind them. */
  lemma OrphansStay(clients: seq<Client>, orphans: seq<Orphan>, c: nat, next: Client)
    requires OrphansInv(clients, orphans) && c < |clients|
    requires next.script == clients[c].script && clients[c].pos <= next.pos <= |next.script|
    ensures OrphansInv(clients[c := next], orphans)
  {
    forall k | 0 <= k < |orphans|
      ensures OrphanInv(clients[c := next], orphans[k])
    {
      assert OrphanInv(clients, orphans[k]);
    }
  }

  lemma ExecutedInv(s: State, c: nat, answer: bytes, init: Dict) returns (next: State)
    requires Inv(s, init) && c < |s.clients| && s.clients[c].stage.Dispatched?
    requires s.clients[c].pos < |s.clients[c].script|
    requires var op := OpOf(s.clients[c].script[s.clients[c].pos]);
             && answer == Answer(s.m, op) && |answer| <= MAX - HEADER_SIZE && (op.Put? ==> answer == [])
             && Bounded(Apply(s.m, op), MAX - HEADER_SIZE)
    ensures Inv(next, init)
    ensures var op := OpOf(s.clients[c].script[s.clients[c].pos]);
            next == State(Apply(s.m, op), s.log + [Entry(c, op, answer, false)],
                          s.clients[c := Executed(s.clients[c], |s.log|, answer, ReplyFrame(op, answer))], s.orphans)
  {
    var cl, op := s.clients[c], OpOf(s.clients[c].script[s.clients[c].pos]);
    var executed := Executed(cl, |s.log|, answer, ReplyFrame(op, answer));
    OrphansStay(s.clients, s.orphans, c, executed);
    ExecuteKeepsClients(s.clients, s.log, c, answer);
    LogInvPush(s.m, s.log, init, Entry(c, op, answer, false));
    next := State(Apply(s.m, op), s.log + [Entry(c, op, answer, false)], s.clients[c := executed], s.orphans);
  }

  lemma ExecuteKeeps(s: State, c: nat, init: Dict)
    requires Inv(s, init) && Enabled(s, Execute(c))
    ensures Inv(Next(s, Execute(c)), init)
  {
    assert ClientInv(s.clients, s.log, c);
    ExecuteStep(s, c);
    var next := ExecutedInv(s, c, Answer(s.m, OpOf(s.clients[c].script[s.clients[c].pos])), init);
    assert next == Next(s, Execute(c));
  }

  lemma LogInvPush(m: Dict, log: seq<Entry>, init: Dict, e: Entry)
    requires LogInv(m, log, init) && e.answer == Answer(m, e.op)
    ensures LogInv(Apply(m, e.op), log + [e], init)
  {
    ReplayPush(init, Ops(log), e.op);
    LogPush(log, e, e.client);
    forall i | 0 <= i < |log + [e]|
      ensures (log + [e])[i].answer == Answer(Replay(init, Ops((log + [e])[..i])), (log + [e])[i].op)
    {
      assert (log + [e])[..i] == log[..i];
      assert log[..|log|] == log;
    }
  }

  /** What a connection leaves behind when it breaks is the request of the current command, whole, or nothing. */
  lemma AbandonedIsRequest(cl: Client)
    requires WireInv(cl)
    ensures if cl.phase.Asking? then Abandoned(cl) == RequestFrame(cl.script[cl.pos]) && Abandoned(cl) != []
            else cl.phase.Settled? ==> Abandoned(cl) == []
  {
    if cl.phase.Asking? {
      RequestIsFrame(cl.script[cl.pos]);
      assert cl.serverHeld + [] == cl.serverHeld;
    }
  }

  lemma DisconnectKeepsOrphans(clients: seq<Client>, orphans: seq<Orphan>, c: nat)
    requires c < |clients| && WireInv(clients[c]) && !clients[c].phase.Resting? && OrphansInv(clients, orphans)
    ensures OrphansInv(clients[c := Dropped(clients[c])], Orphaned(orphans, c, clients[c]))
  {
    var next := clients[c := Dropped(clients[c])];
    OrphansStay(clients, orphans, c, Dropped(clients[c]));
    AbandonedIsRequest(clients[c]);
    if Abandoned(clients[c]) != [] {
      assert OrphanInv(next, Orphan(c, clients[c].pos, Abandoned(clients[c])));
    }
  }

  lemma OrphanOp(clients: seq<Client>, o: Orphan)
    requires OrphanInv(clients, o)
    ensures IsFrame(o.request) && IsRequest(DecodeHeader(o.request)) && |o.request| <= MAX
    ensures OpOfFrame(o.request) == OpOf(clients[o.client].script[o.pos])
    ensures OpOfFrame(o.request) in OpsSoFar(clients[o.client])
  {
    var cl := clients[o.client];
    RequestIsFrame(cl.script[o.pos]);
    assert OpsSoFar(cl)[o.pos] == ScriptOps(cl.script)[o.pos] == OpOf(cl.script[o.pos]);
  }

  lemma ExecuteLateStep(s: State, k: nat)
    requires k < |s.orphans| && Bounded(s.m, MAX - HEADER_SIZE)
    requires IsFrame(s.orphans[k].request) && IsRequest(DecodeHeader(s.orphans[k].request))
    requires |s.orphans[k].request| <= MAX
    ensures Enabled(s, ExecuteLate(k)) && Bounded(Next(s, ExecuteLate(k)).m, MAX - HEADER_SIZE)
    ensures var op := OpOfFrame(s.orphans[k].request);
            Next(s, ExecuteLate(k))
            == State(Apply(s.m, op), s.log + [Entry(s.orphans[k].client, op, Answer(s.m, op), true)], s.clients,
                     s.orphans[..k] + s.orphans[k + 1..])
  {
    ServeIsAtomic(s.m, s.orphans[k].request);
    SizeClosure(s.m, s.orphans[k].request, MAX);
  }

  /** A late execution is one atomic operation too: of a command that its client has sent before. */
  lemma LateStep(s: State, k: nat)
    requires k < |s.orphans| && OrphanInv(s.clients, s.orphans[k]) && Bounded(s.m, MAX - HEADER_SIZE)
    ensures Enabled(s, ExecuteLate(k)) && Bounded(Next(s, ExecuteLate(k)).m, MAX - HEADER_SIZE)
    ensures var o := s.orphans[k];
            var op := OpOf(s.clients[o.client].script[o.pos]);
            && op in OpsSoFar(s.clients[o.client])
            && Next(s, ExecuteLate(k))
               == State(Apply(s.m, op), s.log + [Entry(o.client, op, Answer(s.m, op), true)], s.clients,
                        s.orphans[..k] + s.orphans[k + 1..])
  {
    OrphanOp(s.clients, s.orphans[k]);
    ExecuteLateStep(s, k);
  }

  lemma LateKeepsClients(clients: seq<Client>, log: seq<Entry>, e: Entry)
    requires ClientsInv(clients, log) && e.client < |clients| && e.late
    requires clients[e.client].pos <= |clients[e.client].script| && e.op in OpsSoFar(clients[e.client])
    ensures ClientsInv(clients, log + [e])
  {
    forall c | 0 <= c < |clients|
      ensures ClientInv(clients, log + [e], c)
    {
      assert ClientInv(clients, log, c);
      AppendKeepsHist(clients[c], c, log, e);
    }
  }

  lemma OneOrphanLess(clients: seq<Client>, orphans: seq<Orphan>, k: nat)
    requires OrphansInv(clients, orphans) && k < |orphans|
    ensures OrphansInv(clients, orphans[..k] + orphans[k + 1..])
  {
  }

  lemma LateKeeps(s: State, k: nat, init: Dict)
    requires Inv(s, init) && k < |s.orphans|
    ensures Enabled(s, ExecuteLate(k)) && Inv(Next(s, ExecuteLate(k)), init)
  {
    var o := s.orphans[k];
    assert OrphanInv(s.clients, o);
    LateStep(s, k);
    var op := OpOf(s.clients[o.client].script[o.pos]);
    var e := Entry(o.client, op, Answer(s.m, op), true);
    LogInvPush(s.m, s.log, init, e);
    LateKeepsClients(s.clients, s.log, e);
    OneOrphanLess(s.clients, s.orphans, k);
  }

  lemma OneClientMoves(clients: seq<Client>, log: seq<Entry>, c: nat, next: Client)
    requires ClientsInv(clients, log) && c < |clients| && WireInv(next) && HistInv(next, c, log)
    ensures ClientsInv(clients[c := next], log)
  {
    var moved := clients[c := next];
    forall i | 0 <= i < |moved|
      ensures ClientInv(moved, log, i)
    {
      assert i != c ==> ClientInv(clients, log, i) && moved[i] == clients[i];
    }
  }

  lemma LocalKeepsOrphans(s: State, e: Event)
    requires Enabled(s, e) && !e.Execute? && !e.ExecuteLate?
    requires WireInv(s.clients[e.c]) && WireInv(Local(s.clients[e.c], e)) && OrphansInv(s.clients, s.orphans)
    ensures OrphansInv(Next(s, e).clients, Next(s, e).orphans)
  {
    if e.Disconnect? {
      DisconnectKeepsOrphans(s.clients, s.orphans, e.c);
    } else {
      OrphansStay(s.clients, s.orphans, e.c, Local(s.clients[e.c], e));
    }
  }

  lemma LocalKeeps(s: State, e: Event, init: Dict)
    requires Inv(s, init) && Enabled(s, e) && !e.Execute? && !e.ExecuteLate?
    ensures Inv(Next(s, e), init)
  {
    assert ClientInv(s.clients, s.log, e.c);
    LocalKeepsWire(s.clients[e.c], e);
    LocalKeepsHist(s.clients[e.c], e, e.c, s.log);
    OneClientMoves(s.clients, s.log, e.c, Local(s.clients[e.c], e));
    LocalKeepsOrphans(s, e);
  }

  lemma StepKeeps(s: State, e: Event, init: Dict)
    requires Inv(s, init) && Enabled(s, e)
    ensures Inv(Next(s, e), init)
  {
    if e.ExecuteLate? {
      LateKeeps(s, e.k, init);
    } else if e.Execute? {
      ExecuteKeeps(s, e.c, init);
    } else {
      LocalKeeps(s, e, init);
    }
  }

  /** Over every run: any number of clients, any interleaving, any chunking, any number of broken connections, and
      any of the requests given up with them executed at any later time. */
  lemma {:induction false} RunKeeps(s: State, events: seq<Event>, init: Dict)
    requires Inv(s, init) && ValidRun(s, events)
    ensures Inv(Run(s, events), init)
    decreases |events|
  {
    if events != [] {
      RunKeeps(s, events[..|events| - 1], init);
      StepKeeps(Run(s, events[..|events| - 1]), events[|events| - 1], init);
    }
  }

  ghost predicate FittingStart(init: Dict, scripts: seq<seq<Command>>) {
    Bounded(init, MAX - HEADER_SIZE) && forall c | 0 <= c < |scripts| :: FittingScript(scripts[c])
  }

  lemma StartKeeps(init: Dict, scripts: seq<seq<Command>>)
    requires FittingStart(init, scripts)
    ensures Inv(Start(init, scripts), init)
  {
    var s := Start(init, scripts);
    forall c | 0 <= c < |s.clients|
      ensures ClientInv(s.clients, s.log, c)
    {
      StutterNothingLeft(ScriptOps(scripts[c]), Zeros(|scripts[c]|), 0);
    }
  }
}
