/** Readers that stay inside their buffers, no deadlock, and an end to every run of the whole system. */
module Progress {
  import opened Bytes
  import opened Proto
  import opened KVFile
  import opened AtomicMap
  import opened Server
  import opened System
  import opened Theorems
  import Framing

  ghost predicate SafeToRead(held: bytes) {
    1 <= Framing.ReadSize(held) && |held| + Framing.ReadSize(held) <= 4096
  }

  lemma ServerReaderSafe(cl: Client)
    requires WireInv(cl) && cl.stage.Reading?
    ensures SafeToRead(cl.serverHeld)
  {
    if cl.phase.Asking? {
      RequestIsFrame(cl.script[cl.pos]);
      PartOfFrame(cl.serverHeld, cl.up);
    }
  }

  lemma ClientReaderSafe(cl: Client)
    requires WireInv(cl)
    ensures SafeToRead(cl.clientHeld)
  {
    if cl.phase.Settled? && !cl.stage.Replying? {
      ReplyRoundTrip(OpOf(cl.script[cl.pos]), cl.phase.answer);
      PartOfFrame(cl.clientHeld, cl.down);
    }
  }

  /** Both readers of every connection always ask for at least one byte, inside their buffers: the assertion in
      `Read` holds throughout. */
  lemma ReadersSafe(s: State, init: Dict, c: nat)
    requires Inv(s, init) && c < |s.clients|
    ensures s.clients[c].stage.Reading? ==> SafeToRead(s.clients[c].serverHeld)
    ensures SafeToRead(s.clients[c].clientHeld)
  {
    assert ClientInv(s.clients, s.log, c);
    if s.clients[c].stage.Reading? {
      ServerReaderSafe(s.clients[c]);
    }
    ClientReaderSafe(s.clients[c]);
  }

  predicate AcceptsRequest(f: bytes) {
    |f| >= HEADER_SIZE && DecodeHeader(f).VerifyRequest()
  }

  predicate AcceptsResponse(f: bytes) {
    |f| >= HEADER_SIZE && DecodeHeader(f).VerifyResponse()
  }

  /** A session that takes the next part of a frame: it goes on reading, or has the frame whole and dispatches it. */
  lemma PartDelivered(held: bytes, chunk: bytes, rest: bytes, accepts: bytes -> bool)
    requires IsFrame(held + chunk + rest) && |held + chunk + rest| <= MAX && accepts(held + chunk + rest)
    ensures Framing.Deliver(Framing.Reader(held, [], Framing.Reading), chunk, MAX, accepts)
            == if rest == [] then Framing.Reader([], [held + chunk], Framing.Reading)
               else Framing.Reader(held + chunk, [], Framing.Reading)
  {
    PartOfFrame(held + chunk, rest);
    if |held + chunk| >= HEADER_SIZE {
      Framing.HeaderOfPrefix(held + chunk, rest);
    }
    if rest == [] {
      assert held + chunk + rest == held + chunk;
    }
  }

  /** The server's end of a connection is a session: it takes each chunk as the session's completion handler does. */
  lemma ServerIsASession(cl: Client, n: nat)
    requires WireInv(cl) && cl.stage.Reading? && 1 <= n <= |cl.up|
    ensures var next := ServerGot(cl, n);
            Framing.Deliver(Framing.Reader(cl.serverHeld, [], Framing.Reading), cl.up[..n], MAX, AcceptsRequest)
            == if next.stage.Dispatched? then Framing.Reader([], [next.serverHeld], Framing.Reading)
               else Framing.Reader(next.serverHeld, [], Framing.Reading)
  {
    ServerReadKeepsWire(cl, n);
    RequestIsFrame(cl.script[cl.pos]);
    assert cl.serverHeld + cl.up[..n] + cl.up[n..] == cl.serverHeld + cl.up;
    PartDelivered(cl.serverHeld, cl.up[..n], cl.up[n..], AcceptsRequest);
  }

  /** So is the client's end. */
  lemma ClientIsASession(cl: Client, n: nat)
    requires WireInv(cl) && 1 <= n <= |cl.down|
    ensures var next, held := ClientGot(cl, n), cl.clientHeld + cl.down[..n];
            Framing.Deliver(Framing.Reader(cl.clientHeld, [], Framing.Reading), cl.down[..n], MAX, AcceptsResponse)
            == Framing.Reader(next.clientHeld, if next.pos > cl.pos then [held] else [], Framing.Reading)
  {
    ClientReadKeepsWire(cl, n);
    ReplyRoundTrip(OpOf(cl.script[cl.pos]), cl.phase.answer);
    assert cl.clientHeld + cl.down[..n] + cl.down[n..] == cl.clientHeld + cl.down;
    PartDelivered(cl.clientHeld, cl.down[..n], cl.down[n..], AcceptsResponse);
  }

  /** Nothing holds the network back: a read brings any number of bytes, from one to what was asked for, of those on
      the wire, and a connection may break at any time while a request is outstanding and no reply is under way. */
  lemma NetworkIsFree(s: State, init: Dict, c: nat, n: nat)
    requires Inv(s, init) && c < |s.clients|
    ensures var cl := s.clients[c];
            && (cl.stage.Reading? && cl.up != [] && 1 <= n <= Framing.ReadSize(cl.serverHeld) ==>
                  Enabled(s, ServerRead(c, n)))
            && (cl.down != [] && 1 <= n <= Framing.ReadSize(cl.clientHeld) ==> Enabled(s, ClientRead(c, n)))
            && (!cl.phase.Resting? && cl.clientHeld == [] ==> Enabled(s, Disconnect(c)))
  {
    var cl := s.clients[c];
    assert ClientInv(s.clients, s.log, c);
    if cl.stage.Reading? && cl.up != [] {
      RequestIsFrame(cl.script[cl.pos]);
      PartOfFrame(cl.serverHeld, cl.up);
    }
    if cl.down != [] {
      ReplyRoundTrip(OpOf(cl.script[cl.pos]), cl.phase.answer);
      PartOfFrame(cl.clientHeld, cl.down);
    }
  }

  /** A step that goes on with the connections as they are. */
  predicate Quiet(e: Event) {
    !e.Disconnect? && !e.ExecuteLate?
  }

  /** No deadlock: while a script is unfinished, its connection can go on without being broken. */
  lemma NoDeadlock(s: State, init: Dict, c: nat) returns (e: Event)
    requires Inv(s, init) && c < |s.clients| && s.clients[c].pos < |s.clients[c].script|
    ensures Quiet(e) && e.c == c && Enabled(s, e)
  {
    var cl := s.clients[c];
    assert ClientInv(s.clients, s.log, c);
    ReadersSafe(s, init, c);
    if cl.phase.Resting? {
      e := Send(c);
    } else if cl.stage.Replied? {
      e := Resume(c);
    } else if cl.stage.Replying? {
      e := Reply(c);
    } else if cl.phase.Settled? {
      e := ClientRead(c, 1);
    } else if cl.stage.Dispatched? {
      RequestIsFrame(cl.script[cl.pos]);
      e := Execute(c);
    } else {
      e := ServerRead(c, 1);
    }
  }

  /** More than one command can take in steps: both frames byte by byte, and the steps in between. */
  const PER_COMMAND: nat := 2 * MAX + 20

  /** An upper bound on the steps a client still has to take if its connection does not break again. */
  function Left(cl: Client): nat {
    var later := if cl.pos < |cl.script| then |cl.script| - cl.pos - 1 else 0;
    var toResume := if cl.stage.Replied? then 1 else 0;
    match cl.phase
    case Resting => (if cl.pos < |cl.script| then later * PER_COMMAND + PER_COMMAND else 0) + toResume
    case Asking =>
      later * PER_COMMAND + MAX + 12 + |cl.up| + toResume + (if cl.stage.Dispatched? then 0 else 1)
    case Settled(_, _) =>
      later * PER_COMMAND + |cl.down| + toResume + (if cl.stage.Replying? then |cl.stage.reply| + 3 else 0)
  }

  /** The steps that a broken connection makes its client take again, the break and a late execution included. */
  const PER_BREAK: nat := PER_COMMAND + 2

  lemma SendGetsOn(cl: Client)
    requires WireInv(cl) && cl.phase.Resting? && cl.pos < |cl.script|
    ensures Left(Sent(cl)) + 1 <= Left(cl)
  {
    RequestIsFrame(cl.script[cl.pos]);
  }

  lemma ServerReadGetsOn(cl: Client, n: nat)
    requires WireInv(cl) && cl.stage.Reading? && 1 <= n <= |cl.up|
    ensures ServerGot(cl, n).phase == cl.phase && Left(ServerGot(cl, n)) + 1 <= Left(cl)
  {
    ServerReadKeepsWire(cl, n);
  }

  lemma ClientReadGetsOn(cl: Client, n: nat)
    requires WireInv(cl) && 1 <= n <= |cl.down|
    ensures WireInv(ClientGot(cl, n)) && Left(ClientGot(cl, n)) + 1 <= Left(cl)
  {
    ClientReadKeepsWire(cl, n);
  }

  lemma ReplyGetsOn(cl: Client)
    requires WireInv(cl) && cl.stage.Replying?
    ensures WireInv(Written(cl)) && Left(Written(cl)) + 1 <= Left(cl)
  {
    ReplyKeepsWire(cl);
  }

  lemma DisconnectGetsOn(cl: Client)
    requires WireInv(cl) && !cl.phase.Resting? && cl.clientHeld == []
    ensures WireInv(Dropped(cl)) && Left(Dropped(cl)) <= Left(cl) + PER_COMMAND
  {
  }

  lemma LocalGetsOn(cl: Client, e: Event)
    requires WireInv(cl) && !e.Execute? && !e.ExecuteLate? && Ready(cl, e)
    ensures WireInv(Local(cl, e)) && Left(Local(cl, e)) + 1 <= Left(cl) + (if e.Disconnect? then PER_COMMAND + 1 else 0)
  {
    LocalKeepsWire(cl, e);
    match e
    case Send(_) => SendGetsOn(cl);
    case ServerRead(_, n) => ServerReadGetsOn(cl, n);
    case ClientRead(_, n) => ClientReadGetsOn(cl, n);
    case Reply(_) => ReplyGetsOn(cl);
    case Disconnect(_) => DisconnectGetsOn(cl);
    case Resume(_) =>
  }

  lemma ExecuteGetsOn(cl: Client, ticket: nat, answer: bytes)
    requires WireInv(cl) && cl.stage.Dispatched? && |answer| <= MAX - HEADER_SIZE
    requires OpOf(cl.script[cl.pos]).Put? ==> answer == []
    ensures var next := Executed(cl, ticket, answer, ReplyFrame(OpOf(cl.script[cl.pos]), answer));
            Left(next) + 1 <= Left(cl)
  {
    ReplyRoundTrip(OpOf(cl.script[cl.pos]), answer);
  }

  function Total(clients: seq<Client>): nat {
    if clients == [] then 0 else Total(clients[..|clients| - 1]) + Left(clients[|clients| - 1])
  }

  lemma {:induction false} TotalUpdate(clients: seq<Client>, c: nat, next: Client)
    requires c < |clients|
    ensures Total(clients[c := next]) + Left(clients[c]) == Total(clients) + Left(next)
  {
    var n := |clients| - 1;
    if c < n {
      assert clients[c := next][..n] == clients[..n][c := next];
      TotalUpdate(clients[..n], c, next);
    } else {
      assert clients[c := next][..n] == clients[..n];
    }
  }

  ghost predicate WiresInv(s: State) {
    forall i | 0 <= i < |s.clients| :: WireInv(s.clients[i])
  }

  lemma InvWires(s: State, init: Dict)
    requires Inv(s, init)
    ensures WiresInv(s)
  {
    assert forall i | 0 <= i < |s.clients| :: ClientInv(s.clients, s.log, i) ==> WireInv(s.clients[i]);
  }

  /** An upper bound on the steps that are left if no connection breaks again. */
  function Work(s: State): nat {
    Total(s.clients) + |s.orphans|
  }

  lemma ClientGetsOn(s: State, c: nat, next: Client, bound: nat)
    requires WiresInv(s) && c < |s.clients| && WireInv(next) && Left(next) + 1 <= Left(s.clients[c]) + bound
    ensures WiresInv(s.(clients := s.clients[c := next]))
    ensures Work(s.(clients := s.clients[c := next])) + 1 <= Work(s) + bound
  {
    TotalUpdate(s.clients, c, next);
  }

  lemma ExecuteStepGetsOn(s: State, c: nat)
    requires WiresInv(s) && Enabled(s, Execute(c)) && Bounded(s.m, MAX - HEADER_SIZE)
    ensures WiresInv(Next(s, Execute(c))) && Work(Next(s, Execute(c))) + 1 <= Work(s)
  {
    var cl := s.clients[c];
    ExecuteStep(s, c);
    var answer := Answer(s.m, OpOf(cl.script[cl.pos]));
    ExecuteKeepsWire(cl, |s.log|, answer);
    ExecuteGetsOn(cl, |s.log|, answer);
    ClientGetsOn(s, c, Executed(cl, |s.log|, answer, ReplyFrame(OpOf(cl.script[cl.pos]), answer)), 0);
  }

  lemma StepGetsOn(s: State, e: Event, init: Dict)
    requires Inv(s, init) && Enabled(s, e)
    ensures WiresInv(s) && WiresInv(Next(s, e))
    ensures Work(Next(s, e)) + 1 <= Work(s) + (if e.Disconnect? then PER_BREAK else 0)
  {
    InvWires(s, init);
    if e.Execute? {
      ExecuteStepGetsOn(s, e.c);
    } else if !e.ExecuteLate? {
      LocalGetsOn(s.clients[e.c], e);
      ClientGetsOn(s, e.c, Local(s.clients[e.c], e), if e.Disconnect? then PER_COMMAND + 1 else 0);
    }
  }

  /** What all broken connections of a run together make their clients take again. */
  function Repeated(events: seq<Event>): nat {
    if events == [] then 0
    else Repeated(events[..|events| - 1]) + (if events[|events| - 1].Disconnect? then PER_BREAK else 0)
  }

  /** Termination: the length of a run is bounded by the scripts and the number of broken connections. With
      `NoDeadlock`, every run that breaks connections finitely often can be completed, and cannot go on for ever. */
  lemma {:induction false} RunsEnd(s: State, events: seq<Event>, init: Dict) returns (t: State)
    requires Inv(s, init) && ValidRun(s, events)
    ensures t == Run(s, events) && Inv(t, init) && WiresInv(s) && WiresInv(t)
    ensures |events| + Work(t) <= Work(s) + Repeated(events)
    decreases |events|
  {
    InvWires(s, init);
    if events == [] {
      t := s;
    } else {
      var before, last := events[..|events| - 1], events[|events| - 1];
      var previous := RunsEnd(s, before, init);
      StepKeeps(previous, last, init);
      t := LastStepGetsOn(previous, last, init);
    }
  }

  lemma LastStepGetsOn(s: State, e: Event, init: Dict) returns (next: State)
    requires Inv(s, init) && Enabled(s, e)
    ensures next == Next(s, e) && WiresInv(s) && WiresInv(next)
    ensures Work(next) + 1 <= Work(s) + (if e.Disconnect? then PER_BREAK else 0)
  {
    next := Next(s, e);
    StepGetsOn(s, e, init);
  }

  lemma RunSnoc(s: State, events: seq<Event>, e: Event)
    requires ValidRun(s, events) && Enabled(Run(s, events), e)
    ensures ValidRun(s, events + [e]) && Run(s, events + [e]) == Next(Run(s, events), e)
  {
    assert (events + [e])[..|events|] == events;
  }

  /** `more` goes on where `events` stopped, breaking no connection. */
  ghost predicate GoesOn(events: seq<Event>, more: seq<Event>) {
    events <= more && forall i | |events| <= i < |more| :: Quiet(more[i])
  }

  lemma GoesOnFrom(events: seq<Event>, e: Event, more: seq<Event>)
    requires Quiet(e) && GoesOn(events + [e], more)
    ensures GoesOn(events, more)
  {
    assert more[|events|] == (events + [e])[|events|];
  }

  lemma QuietStep(s: State, init: Dict, c: nat) returns (e: Event)
    requires Inv(s, init) && c < |s.clients| && s.clients[c].pos < |s.clients[c].script|
    ensures Quiet(e) && e.c == c && Enabled(s, e)
    ensures Inv(Next(s, e), init) && Next(s, e).orphans == s.orphans && |Next(s, e).clients| == |s.clients|
    ensures WiresInv(s) && WiresInv(Next(s, e)) && Work(Next(s, e)) < Work(s)
  {
    e := NoDeadlock(s, init, c);
    StepGetsOn(s, e, init);
    StepKeeps(s, e, init);
  }

  /** Every run, however far it has come, can be completed over the connections as they are. */
  lemma {:induction false} CanFinish(s: State, events: seq<Event>, init: Dict, n: nat) returns (more: seq<Event>)
    requires ValidRun(s, events) && Inv(Run(s, events), init) && WiresInv(Run(s, events)) && Work(Run(s, events)) <= n
    ensures GoesOn(events, more) && ValidRun(s, more) && AllDone(Run(s, more))
    ensures Inv(Run(s, more), init) && Run(s, more).orphans == Run(s, events).orphans
    decreases n
  {
    var t := Run(s, events);
    if AllDone(t) {
      more := events;
    } else {
      var c: nat :| c < |t.clients| && t.clients[c].pos != |t.clients[c].script|;
      assert ClientInv(t.clients, t.log, c);
      var e := QuietStep(t, init, c);
      RunSnoc(s, events, e);
      more := CanFinish(s, events + [e], init, n - 1);
      GoesOnFrom(events, e, more);
    }
  }
}
