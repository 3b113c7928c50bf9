/** Requests and replies, and the server's dispatch of one frame to the map. */
module Server {
  import opened Bytes
  import opened Proto
  import opened KVFile
  import opened AtomicMap
  import ClientConfig
  import Storage

  type Command = ClientConfig.Command

  /** The longest content a 32-bit frame size can announce. */
  const CONTENT_LIMIT: nat := U32_LIMIT - HEADER_SIZE - 1

  ghost predicate Bounded(m: Dict, limit: nat) {
    forall k <- m :: |m[k]| <= limit
  }

  predicate IsRequest(h: Header) {
    h.VerifyVersion() && (h.cmd == READ_REQUEST || h.cmd == WRITE_REQUEST)
  }

  /** The operation that a script line asks for, read off the line itself. */
  function OpOf(c: Command): Op {
    if c.cmd == READ_REQUEST then Get(c.args) else Put(Split(c.args).0, Split(c.args).1)
  }

  /** `RequestRead` and `RequestWrite`: a write is split and joined again, so a missing delimiter is added. */
  function RequestContent(c: Command): bytes {
    if c.cmd == READ_REQUEST then c.args else Split(c.args).0 + [SPACE] + Split(c.args).1
  }

  function RequestFrame(c: Command): bytes
    requires ClientConfig.Valid(c) && |RequestContent(c)| <= CONTENT_LIMIT
  {
    Frame(c.cmd, RequestContent(c))
  }

  /** The operation that the server reads off a request frame. */
  function OpOfFrame(f: bytes): Op
    requires IsFrame(f)
  {
    var content := ContentView(f);
    if DecodeHeader(f).cmd == READ_REQUEST then Get(content) else Put(Split(content).0, Split(content).1)
  }

  function ReplyFrame(op: Op, answer: bytes): bytes
    requires |answer| <= CONTENT_LIMIT
  {
    Frame(if op.Get? then READ_RESPONSE else WRITE_RESPONSE, answer)
  }

  /** What the client takes out of a reply. */
  function AnswerOf(f: bytes): bytes
    requires IsFrame(f)
  {
    if DecodeHeader(f).cmd == READ_RESPONSE then ContentView(f) else []
  }

  /** The delimiter that is added costs one byte, and only for a write without one. */
  lemma RequestSize(c: Command)
    requires ClientConfig.Valid(c)
    ensures |RequestContent(c)| == |c.args| + (if c.cmd == WRITE_REQUEST && SPACE !in c.args then 1 else 0)
  {
    if SPACE !in c.args {
      IndexOfUnique(c.args, SPACE, |c.args|);
    }
  }

  /** Split by the client, joined, framed, viewed and split by the server: the same operation as one direct split. */
  lemma DoubleParse(c: Command)
    requires ClientConfig.Valid(c) && |RequestContent(c)| <= CONTENT_LIMIT
    ensures IsFrame(RequestFrame(c)) && IsRequest(DecodeHeader(RequestFrame(c)))
    ensures OpOfFrame(RequestFrame(c)) == OpOf(c)
  {
    FrameRoundTrip(c.cmd, RequestContent(c), []);
    assert RequestFrame(c) + [] == RequestFrame(c);
    SplitJoin(Split(c.args).0, Split(c.args).1);
  }

  lemma ReplyRoundTrip(op: Op, answer: bytes)
    requires |answer| <= CONTENT_LIMIT && (op.Put? ==> answer == [])
    ensures var f := ReplyFrame(op, answer);
            IsFrame(f) && DecodeHeader(f).VerifyResponse() && AnswerOf(f) == answer && |f| == |answer| + HEADER_SIZE
  {
    FrameRoundTrip(if op.Get? then READ_RESPONSE else WRITE_RESPONSE, answer, []);
    assert ReplyFrame(op, answer) + [] == ReplyFrame(op, answer);
  }

  datatype Served = Served(m: Dict, ok: bool, replies: seq<bytes>)

  /** `ResolveHandler`: the map after it, whether the connection goes on, and the frames written. */
  ghost function Serve(m: Dict, f: bytes): Served
    requires IsFrame(f) && Bounded(m, CONTENT_LIMIT)
  {
    var h := DecodeHeader(f);
    if !h.VerifyRequest() then Served(m, false, [])
    else if h.cmd == READ_REQUEST then
      var key := ContentView(f);
      Served(m, true, [Frame(READ_RESPONSE, if key in m then m[key] else [])])
    else if h.cmd == WRITE_REQUEST then
      var kv := Split(ContentView(f));
      Served(m[kv.0 := kv.1], true, [Frame(WRITE_RESPONSE, [])])
    else Served(m, true, [])
  }

  /** One request frame is one atomic operation and one reply with its answer; other commands change nothing, and a
      nonzero one passes the check and is left without a reply. */
  lemma ServeIsAtomic(m: Dict, f: bytes)
    requires IsFrame(f) && Bounded(m, CONTENT_LIMIT)
    ensures IsRequest(DecodeHeader(f)) ==>
              var op := OpOfFrame(f);
              |Answer(m, op)| <= CONTENT_LIMIT
              && Serve(m, f) == Served(Apply(m, op), true, [ReplyFrame(op, Answer(m, op))])
    ensures !IsRequest(DecodeHeader(f)) ==> Serve(m, f).m == m && Serve(m, f).replies == []
    ensures Serve(m, f).ok <==> DecodeHeader(f).version == 0 && DecodeHeader(f).cmd != 0
  {
  }

  /** What the lines `get args` and `set key value` send: commands 0x11 and 0x12, with the arguments as they stand. */
  lemma RequestsOnTheWire(key: bytes, value: bytes)
    requires 32 !in key && |key| + |value| <= 4000
    ensures ClientConfig.Parse([103, 101, 116, 32] + key) == ClientConfig.Parsed(ClientConfig.Command(0x11, key))
    ensures RequestFrame(ClientConfig.Command(0x11, key)) == Frame(0x11, key)
    ensures ClientConfig.Parse([115, 101, 116, 32] + (key + [32] + value))
            == ClientConfig.Parsed(ClientConfig.Command(0x12, key + [32] + value))
    ensures RequestFrame(ClientConfig.Command(0x12, key + [32] + value)) == Frame(0x12, key + [32] + value)
  {
    ClientConfig.Words(key);
    ClientConfig.Words(key + [32] + value);
    SplitJoin(key, value);
  }

  /** What the server answers to them: 0x21 with the value, or with nothing for a key that is not there; 0x22 with
      nothing, and the value is under the key. A frame of version 0 with any other command but zero is swallowed. */
  lemma AnswersOnTheWire(m: Dict, key: bytes, value: bytes)
    requires 32 !in key && |key| + |value| <= 4000 && Bounded(m, CONTENT_LIMIT)
    ensures IsFrame(Frame(0x11, key)) && IsFrame(Frame(0x12, key + [32] + value))
    ensures key in m ==> |m[key]| <= CONTENT_LIMIT
    ensures Serve(m, Frame(0x11, key)) == Served(m, true, [Frame(0x21, if key in m then m[key] else [])])
    ensures Serve(m, Frame(0x12, key + [32] + value)) == Served(m[key := value], true, [Frame(0x22, [])])
  {
    FrameRoundTrip(0x11, key, []);
    FrameRoundTrip(0x12, key + [32] + value, []);
    SplitJoin(key, value);
  }

  lemma OthersOnTheWire(m: Dict, cmd: nat, content: bytes)
    requires cmd < 0x1_0000 && |content| <= CONTENT_LIMIT && Bounded(m, CONTENT_LIMIT) && cmd != 0x11 && cmd != 0x12
    ensures IsFrame(Frame(cmd, content)) && Serve(m, Frame(cmd, content)) == Served(m, cmd != 0, [])
  {
    FrameRoundTrip(cmd, content, []);
  }

  /** Sizes stay closed: values and requests that fit a buffer only make values and replies that fit it. */
  lemma SizeClosure(m: Dict, f: bytes, max: nat)
    requires IsFrame(f) && HEADER_SIZE <= max < U32_LIMIT
    requires Bounded(m, max - HEADER_SIZE) && |f| <= max
    ensures Bounded(Serve(m, f).m, max - HEADER_SIZE)
    ensures forall reply <- Serve(m, f).replies :: |reply| <= max
  {
    var kv := Split(ContentView(f));
    assert |kv.1| <= |ContentView(f)| <= max - HEADER_SIZE;
  }

  class GJServer {
    const storage: Storage.KVStorage

    constructor (storage: Storage.KVStorage)
      ensures this.storage == storage
    {
      this.storage := storage;
    }

    /** One reply exactly for the two request codes, and then one atomic operation and its answer; other commands
        change nothing, and a nonzero one passes the check and is left without a reply. */
    method ResolveHandler(request: bytes) returns (ok: bool, replies: seq<bytes>)
      requires IsFrame(request) && Bounded(storage.m, CONTENT_LIMIT)
      requires storage.Valid() && storage.now.up
      modifies storage`m, storage`dirty, storage`now
      ensures storage.Valid() && storage.now.up
      ensures Served(storage.m, ok, replies) == Serve(old(storage.m), request)
      ensures ok <==> DecodeHeader(request).version == 0 && DecodeHeader(request).cmd != 0
      ensures |replies| == 1 <==> IsRequest(DecodeHeader(request))
      ensures if IsRequest(DecodeHeader(request)) then
                var op := OpOfFrame(request);
                && |Answer(old(storage.m), op)| <= CONTENT_LIMIT
                && storage.m == Apply(old(storage.m), op) && storage.now.log == old(storage.now.log) + [op]
                && replies == [ReplyFrame(op, Answer(old(storage.m), op))]
              else storage.m == old(storage.m) && storage.now == old(storage.now) && replies == []
      ensures storage.dirty <==> old(storage.dirty) || (IsRequest(DecodeHeader(request)) && OpOfFrame(request).Put?)
    {
      ServeIsAtomic(storage.m, request);
      var h := DecodeHeader(request);
      if !h.VerifyRequest() {
        return false, [];
      }
      replies := [];
      if h.cmd == READ_REQUEST {
        var _, value := storage.Get(ContentView(request));
        var response := MakeCommand(READ_RESPONSE, value);
        replies := [response[..]];
      } else if h.cmd == WRITE_REQUEST {
        var key, value := SplitKeyValue(ContentView(request));
        storage.Set(key, value);
        var response := MakeCommand(WRITE_RESPONSE, []);
        replies := [response[..]];
      }
      ok := true;
    }
  }
}
