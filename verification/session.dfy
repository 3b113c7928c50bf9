/** Frame reassembly over one in-place buffer, fed by short reads. */
module Framing {
  import opened Bytes
  import opened Proto

  /** `Faulted`: the next `Read` fails its assertion or would ask for bytes past the buffer. `Closed`: a read ended
      in an error, and none follows until the session is connected again. */
  datatype Status = Reading | Rejected | Faulted | Closed

  /** What a session holds: the bytes in front of `m_bufferSize`, and the frames handed to the handler so far. */
  datatype Reader = Reader(held: bytes, frames: seq<bytes>, status: Status)

  const START := Reader([], [], Reading)

  /** How many bytes `Read` asks the socket for. */
  function ReadSize(held: bytes): int {
    if |held| < HEADER_SIZE then HEADER_SIZE - |held| else DecodeHeader(held).size - |held|
  }

  predicate Complete(held: bytes) {
    |held| >= HEADER_SIZE && |held| == DecodeHeader(held).size
  }

  /** The announced size, once known, is one a reader with this buffer can follow. */
  predicate Followable(held: bytes, max: nat) {
    |held| >= HEADER_SIZE ==> HEADER_SIZE <= DecodeHeader(held).size <= max
  }

  /** A frame is under way and not yet complete: `Read` may go on. */
  predicate Pending(held: bytes, max: nat) {
    Followable(held, max) && (|held| >= HEADER_SIZE ==> |held| < DecodeHeader(held).size)
  }

  /** The completion handler of one `async_read_some` that brought `chunk`. */
  function Deliver(r: Reader, chunk: bytes, max: nat, accepts: bytes -> bool): Reader {
    var held := r.held + chunk;
    if Complete(held) then
      if accepts(held) then Reader([], r.frames + [held], Reading) else Reader(held, r.frames + [held], Rejected)
    else
      Reader(held, r.frames, if Followable(held, max) then Reading else Faulted)
  }

  /** Reads are at least one byte and at most what was asked for; none follows a rejection or a fault. */
  predicate ValidChunks(r: Reader, chunks: seq<bytes>, max: nat, accepts: bytes -> bool)
    decreases |chunks|
  {
    chunks == [] ||
    (&& r.status.Reading?
     && 1 <= |chunks[0]| <= ReadSize(r.held)
     && ValidChunks(Deliver(r, chunks[0], max, accepts), chunks[1..], max, accepts))
  }

  function Run(r: Reader, chunks: seq<bytes>, max: nat, accepts: bytes -> bool): Reader
    decreases |chunks|
  {
    if chunks == [] then r else Run(Deliver(r, chunks[0], max, accepts), chunks[1..], max, accepts)
  }

  /** The reference: cut a whole byte stream into frames, with no buffer and no chunks. */
  function Parse(stream: bytes, max: nat, accepts: bytes -> bool): Reader
    decreases |stream|
  {
    if |stream| < HEADER_SIZE then Reader(stream, [], Reading)
    else
      var size := DecodeHeader(stream).size;
      if !(HEADER_SIZE <= size <= max) then Reader(stream[..HEADER_SIZE], [], Faulted)
      else if |stream| < size then Reader(stream, [], Reading)
      else if !accepts(stream[..size]) then Reader(stream[..size], [stream[..size]], Rejected)
      else
        var rest := Parse(stream[size..], max, accepts);
        rest.(frames := [stream[..size]] + rest.frames)
  }

  /** A frame that a reader with a buffer of `max` bytes takes whole and accepts. */
  ghost predicate Readable(f: bytes, max: nat, accepts: bytes -> bool) {
    IsFrame(f) && |f| <= max && accepts(f)
  }

  lemma HeaderOfPrefix(s: bytes, tail: bytes)
    requires |s| >= HEADER_SIZE
    ensures DecodeHeader(s + tail) == DecodeHeader(s)
  {
    var t := s + tail;
    assert t[0..2] == s[0..2] && t[2..4] == s[2..4] && t[4..8] == s[4..8];
  }

  /** `p`, read after `frames`. */
  function After(frames: seq<bytes>, p: Reader): Reader {
    p.(frames := frames + p.frames)
  }

  lemma {:induction false} DeliverIsParse(r: Reader, chunk: bytes, rest: bytes, max: nat, accepts: bytes -> bool)
    requires max >= HEADER_SIZE && r.status.Reading? && Pending(r.held, max)
    requires 1 <= |chunk| <= ReadSize(r.held)
    ensures var next := Deliver(r, chunk, max, accepts);
            && (next.status.Reading? ==> Pending(next.held, max))
            && After(r.frames, Parse(r.held + chunk + rest, max, accepts))
               == if next.status.Reading? then After(next.frames, Parse(next.held + rest, max, accepts)) else next
  {
    var held := r.held + chunk;
    var stream := held + rest;
    if |r.held| >= HEADER_SIZE {
      HeaderOfPrefix(r.held, chunk);
    }
    if |held| >= HEADER_SIZE {
      HeaderOfPrefix(held, rest);
      assert stream[..|held|] == held && stream[|held|..] == rest;
      assert stream[..HEADER_SIZE] == held[..HEADER_SIZE];
    }
    if Complete(held) && accepts(held) {
      var p := Parse(rest, max, accepts);
      assert [] + rest == rest;
      assert r.frames + ([held] + p.frames) == (r.frames + [held]) + p.frames;
    } else if |held| == HEADER_SIZE && !Followable(held, max) {
      assert held[..HEADER_SIZE] == held;
    }
  }

  lemma ConcatSplit(held: bytes, chunks: seq<bytes>)
    requires chunks != []
    ensures held + Concat(chunks) == held + chunks[0] + Concat(chunks[1..])
  {
  }

  lemma RunStep(r: Reader, chunks: seq<bytes>, rest: bytes, max: nat, accepts: bytes -> bool) returns (next: Reader)
    requires max >= HEADER_SIZE && r.status.Reading? && Pending(r.held, max)
    requires chunks != [] && ValidChunks(r, chunks, max, accepts)
    ensures ValidChunks(next, chunks[1..], max, accepts)
    ensures Run(r, chunks, max, accepts) == Run(next, chunks[1..], max, accepts)
    ensures next.status.Reading? ==> Pending(next.held, max)
    ensures After(r.frames, Parse(r.held + chunks[0] + rest, max, accepts))
            == if next.status.Reading? then After(next.frames, Parse(next.held + rest, max, accepts)) else next
  {
    next := Deliver(r, chunks[0], max, accepts);
    DeliverIsParse(r, chunks[0], rest, max, accepts);
  }

  /** Chunking does not matter: feeding any chunks amounts to parsing the bytes they make up. */
  lemma {:induction false} RunIsParse(r: Reader, chunks: seq<bytes>, max: nat, accepts: bytes -> bool)
    requires max >= HEADER_SIZE && r.status.Reading? && Pending(r.held, max)
    requires ValidChunks(r, chunks, max, accepts)
    ensures Run(r, chunks, max, accepts) == After(r.frames, Parse(r.held + Concat(chunks), max, accepts))
    decreases |chunks|
  {
    if chunks == [] {
      assert r.held + Concat(chunks) == r.held;
    } else {
      ConcatSplit(r.held, chunks);
      var next := RunStep(r, chunks, Concat(chunks[1..]), max, accepts);
      if next.status.Reading? {
        RunIsParse(next, chunks[1..], max, accepts);
      } else {
        assert chunks[1..] == [];
      }
    }
  }

  lemma {:induction false} ParseOne(f: bytes, rest: bytes, max: nat, accepts: bytes -> bool)
    requires Readable(f, max, accepts)
    ensures Parse(f + rest, max, accepts) == (var p := Parse(rest, max, accepts); p.(frames := [f] + p.frames))
  {
    HeaderOfPrefix(f, rest);
    assert (f + rest)[..|f|] == f && (f + rest)[|f|..] == rest;
  }

  lemma {:induction false} ParseOfFrames(frames: seq<bytes>, tail: bytes, max: nat, accepts: bytes -> bool)
    requires forall f <- frames :: Readable(f, max, accepts)
    requires Pending(tail, max)
    ensures Parse(Concat(frames) + tail, max, accepts) == Reader(tail, frames, Reading)
  {
    if frames == [] {
      assert Concat(frames) + tail == tail;
    } else {
      var rest := Concat(frames[1..]) + tail;
      assert frames[0] in frames && Concat(frames) + tail == frames[0] + rest;
      ParseOne(frames[0], rest, max, accepts);
      ParseOfFrames(frames[1..], tail, max, accepts);
      assert frames == [frames[0]] + frames[1..];
    }
  }

  /** Any split of well-formed frames and a partial last one calls the handler on exactly these frames, in order. */
  lemma ChunkingIndependence(frames: seq<bytes>, tail: bytes, chunks: seq<bytes>, max: nat, accepts: bytes -> bool)
    requires max >= HEADER_SIZE
    requires forall f <- frames :: Readable(f, max, accepts)
    requires Pending(tail, max)
    requires Concat(chunks) == Concat(frames) + tail
    requires ValidChunks(START, chunks, max, accepts)
    ensures Run(START, chunks, max, accepts) == Reader(tail, frames, Reading)
  {
    RunIsParse(START, chunks, max, accepts);
    ParseOfFrames(frames, tail, max, accepts);
    assert [] + Concat(chunks) == Concat(frames) + tail;
  }

  /** A reader part-way through `f` asks for some, but never too many, of its bytes; the frame only gets nearer. */
  lemma ReaderSafe(f: bytes, r: Reader, n: nat, max: nat, accepts: bytes -> bool)
    requires Readable(f, max, accepts)
    requires r.held < f && r.status.Reading?
    ensures Pending(r.held, max)
    ensures 1 <= ReadSize(r.held) && |r.held| + ReadSize(r.held) <= |f| <= max
    ensures 1 <= n <= ReadSize(r.held) ==>
              Deliver(r, f[|r.held|..|r.held| + n], max, accepts) ==
              if |r.held| + n == |f| then Reader([], r.frames + [f], Reading)
              else Reader(f[..|r.held| + n], r.frames, Reading)
  {
    HeaderAtFront(f, |r.held|);
    if 1 <= n <= ReadSize(r.held) {
      HeaderAtFront(f, |r.held| + n);
      assert r.held + f[|r.held|..|r.held| + n] == f[..|r.held| + n];
      assert f[..|f|] == f;
    }
  }

  lemma HeaderAtFront(f: bytes, n: nat)
    requires n <= |f|
    ensures n >= HEADER_SIZE ==> DecodeHeader(f[..n]) == DecodeHeader(f)
  {
    if n >= HEADER_SIZE {
      HeaderOfPrefix(f[..n], f[n..]);
      assert f == f[..n] + f[n..];
    }
  }

  lemma DeliverStaysInside(r: Reader, chunk: bytes, max: nat, accepts: bytes -> bool)
    requires max >= HEADER_SIZE && Pending(r.held, max) && 1 <= |chunk| <= ReadSize(r.held)
    ensures var next := Deliver(r, chunk, max, accepts);
            |r.held + chunk| <= max && |next.held| <= max && (next.status.Reading? ==> Pending(next.held, max))
  {
    if |r.held| >= HEADER_SIZE {
      HeaderOfPrefix(r.held, chunk);
    }
  }

  /** No byte is lost or made up on the way from the wire to the handler and the buffer. */
  lemma DeliverConserves(r: Reader, chunk: bytes, max: nat, accepts: bytes -> bool)
    requires r.status.Reading?
    ensures var next := Deliver(r, chunk, max, accepts);
            next.status.Reading? ==> Concat(next.frames) + next.held == Concat(r.frames) + r.held + chunk
  {
    ConcatPush(r.frames, r.held + chunk);
    assert Concat(r.frames) + (r.held + chunk) == Concat(r.frames) + r.held + chunk;
  }

  /** Whatever the bytes, a reader that is still reading asks for at least one byte, inside its buffer. */
  lemma {:induction false} RunSafe(r: Reader, chunks: seq<bytes>, max: nat, accepts: bytes -> bool)
    requires max >= HEADER_SIZE && r.status.Reading? && Pending(r.held, max)
    requires ValidChunks(r, chunks, max, accepts)
    ensures var last := Run(r, chunks, max, accepts);
            && |last.held| <= max
            && (last.status.Reading? ==>
                  && 1 <= ReadSize(last.held)
                  && |last.held| + ReadSize(last.held) <= max
                  && Concat(last.frames) + last.held == Concat(r.frames) + r.held + Concat(chunks))
    decreases |chunks|
  {
    if chunks == [] {
      assert Concat(r.frames) + r.held + Concat(chunks) == Concat(r.frames) + r.held;
    } else {
      var next, rest := Deliver(r, chunks[0], max, accepts), chunks[1..];
      DeliverStaysInside(r, chunks[0], max, accepts);
      DeliverConserves(r, chunks[0], max, accepts);
      if next.status.Reading? {
        RunSafe(next, rest, max, accepts);
        assert Concat(r.frames) + r.held + Concat(chunks) == Concat(next.frames) + next.held + Concat(rest);
      } else {
        assert rest == [] && Run(r, chunks, max, accepts) == next;
      }
    }
  }

  /** `Reconnect` keeps `m_bufferSize`; the `Read` that follows it goes on only from an incomplete frame. */
  function Resume(r: Reader, max: nat): Reader {
    r.(status := if Pending(r.held, max) then Reading else Faulted)
  }

  /** One way of reading a frame: the header, then the rest. */
  function Halves(f: bytes): seq<bytes>
    requires |f| >= HEADER_SIZE
  {
    if |f| == HEADER_SIZE then [f] else [f[..HEADER_SIZE], f[HEADER_SIZE..]]
  }

  function ChunksOf(frames: seq<bytes>): seq<bytes>
    requires forall f <- frames :: |f| >= HEADER_SIZE
  {
    if frames == [] then [] else Halves(frames[0]) + ChunksOf(frames[1..])
  }

  lemma HalvesConcat(f: bytes, rest: seq<bytes>)
    requires |f| >= HEADER_SIZE
    ensures Concat(Halves(f) + rest) == f + Concat(rest)
  {
    if |f| == HEADER_SIZE {
      assert ([f] + rest)[1..] == rest;
    } else {
      assert ([f[..HEADER_SIZE], f[HEADER_SIZE..]] + rest)[1..] == [f[HEADER_SIZE..]] + rest;
      assert ([f[HEADER_SIZE..]] + rest)[1..] == rest;
      assert f[..HEADER_SIZE] + f[HEADER_SIZE..] == f;
    }
  }

  lemma {:induction false} ChunksOfConcat(frames: seq<bytes>)
    requires forall f <- frames :: |f| >= HEADER_SIZE
    ensures Concat(ChunksOf(frames)) == Concat(frames)
  {
    if frames != [] {
      ChunksOfConcat(frames[1..]);
      HalvesConcat(frames[0], ChunksOf(frames[1..]));
    }
  }

  lemma ValidCons(r: Reader, chunk: bytes, rest: seq<bytes>, max: nat, accepts: bytes -> bool)
    requires r.status.Reading? && 1 <= |chunk| <= ReadSize(r.held)
    requires ValidChunks(Deliver(r, chunk, max, accepts), rest, max, accepts)
    ensures ValidChunks(r, [chunk] + rest, max, accepts)
  {
    assert ([chunk] + rest)[1..] == rest;
  }

  /** Some more bytes of `f`, cut at `n`, to a reader that holds the first `k`. */
  lemma DeliverPart(dispatched: seq<bytes>, f: bytes, k: nat, n: nat, max: nat, accepts: bytes -> bool)
    requires Readable(f, max, accepts) && k < n <= |f|
    requires n - k <= ReadSize(f[..k])
    ensures Deliver(Reader(f[..k], dispatched, Reading), f[k..n], max, accepts)
            == if n == |f| then Reader([], dispatched + [f], Reading) else Reader(f[..n], dispatched, Reading)
  {
    ReaderSafe(f, Reader(f[..k], dispatched, Reading), n - k, max, accepts);
    assert k + (n - k) == n;
  }

  /** A frame read from its start goes through: the reader is back at a boundary, one dispatch later. */
  lemma FrameGoesThrough(dispatched: seq<bytes>, f: bytes, rest: seq<bytes>, max: nat, accepts: bytes -> bool)
    requires Readable(f, max, accepts)
    requires ValidChunks(Reader([], dispatched + [f], Reading), rest, max, accepts)
    ensures ValidChunks(Reader([], dispatched, Reading), Halves(f) + rest, max, accepts)
  {
    assert f[..0] == [] && f[0..HEADER_SIZE] == f[..HEADER_SIZE];
    DeliverPart(dispatched, f, 0, HEADER_SIZE, max, accepts);
    if |f| == HEADER_SIZE {
      assert f[..HEADER_SIZE] == f;
      ValidCons(Reader([], dispatched, Reading), f, rest, max, accepts);
    } else {
      var half := Reader(f[..HEADER_SIZE], dispatched, Reading);
      HeaderAtFront(f, HEADER_SIZE);
      assert f[HEADER_SIZE..|f|] == f[HEADER_SIZE..];
      DeliverPart(dispatched, f, HEADER_SIZE, |f|, max, accepts);
      ValidCons(half, f[HEADER_SIZE..], rest, max, accepts);
      ValidCons(Reader([], dispatched, Reading), f[..HEADER_SIZE], [f[HEADER_SIZE..]] + rest, max, accepts);
      assert [f[..HEADER_SIZE]] + ([f[HEADER_SIZE..]] + rest) == Halves(f) + rest;
    }
  }

  lemma {:induction false} ChunksOfValid(dispatched: seq<bytes>, frames: seq<bytes>, max: nat, accepts: bytes -> bool)
    requires forall f <- frames :: |f| >= HEADER_SIZE
    requires forall f <- frames :: Readable(f, max, accepts)
    ensures ValidChunks(Reader([], dispatched, Reading), ChunksOf(frames), max, accepts)
    decreases |frames|
  {
    if frames != [] {
      assert frames[0] in frames;
      ChunksOfValid(dispatched + [frames[0]], frames[1..], max, accepts);
      FrameGoesThrough(dispatched, frames[0], ChunksOf(frames[1..]), max, accepts);
    }
  }

  /** The new connection's bytes, all read in these chunks, arrive as the frames they are. */
  ghost predicate ReadAsSent(r: Reader, frames: seq<bytes>, chunks: seq<bytes>, max: nat, accepts: bytes -> bool) {
    && ValidChunks(Resume(r, max), chunks, max, accepts)
    && Concat(chunks) == Concat(frames)
    && Run(Resume(r, max), chunks, max, accepts) == Reader([], r.frames + frames, Reading)
  }

  /** Bytes left over from the old connection spoil the new one: it can be read as sent exactly when none were left,
      and then every way of reading it to its end does so. */
  lemma ReconnectAtBoundary(r: Reader, frames: seq<bytes>, max: nat, accepts: bytes -> bool)
    requires max >= HEADER_SIZE && Pending(r.held, max)
    requires forall f <- frames :: Readable(f, max, accepts)
    ensures (exists chunks :: ReadAsSent(r, frames, chunks, max, accepts)) <==> r.held == []
    ensures r.held == [] ==>
              forall chunks :: ValidChunks(Resume(r, max), chunks, max, accepts) && Concat(chunks) == Concat(frames) ==>
                ReadAsSent(r, frames, chunks, max, accepts)
  {
    var from := Resume(r, max);
    if r.held == [] {
      forall chunks | ValidChunks(from, chunks, max, accepts) && Concat(chunks) == Concat(frames)
        ensures ReadAsSent(r, frames, chunks, max, accepts)
      {
        RunIsParse(from, chunks, max, accepts);
        ParseOfFrames(frames, [], max, accepts);
        assert r.held + Concat(chunks) == Concat(frames) + [];
      }
      assert forall f <- frames :: Readable(f, max, accepts) ==> |f| >= HEADER_SIZE;
      ChunksOfConcat(frames);
      ChunksOfValid(r.frames, frames, max, accepts);
      assert ReadAsSent(r, frames, ChunksOf(frames), max, accepts);
    } else {
      forall chunks
        ensures !ReadAsSent(r, frames, chunks, max, accepts)
      {
        if ValidChunks(from, chunks, max, accepts) && Concat(chunks) == Concat(frames) {
          RunSafe(from, chunks, max, accepts);
          ConcatJoin(r.frames, frames);
        }
      }
    }
  }

  lemma TwoChunks(r: Reader, half: Reader, end: Reader, a: bytes, b: bytes, max: nat, accepts: bytes -> bool)
    requires r.status.Reading? && 1 <= |a| <= ReadSize(r.held) && half == Deliver(r, a, max, accepts)
    requires half.status.Reading? && 1 <= |b| <= ReadSize(half.held) && end == Deliver(half, b, max, accepts)
    ensures ValidChunks(r, [a, b], max, accepts) && Run(r, [a, b], max, accepts) == end
  {
    assert [a, b][1..] == [b] && [b][1..] == [];
    assert ValidChunks(half, [b], max, accepts) && Run(half, [b], max, accepts) == end;
  }

  /** One byte left over, and the reply to a write is never seen: its header is read a byte too early, and
      announces a frame of 2048 bytes. */
  lemma LeftOverSwallowsReply(accepts: bytes -> bool)
    ensures var reply: bytes := [0, 0, 0x22, 0, 8, 0, 0, 0];
            && Frame(WRITE_RESPONSE, []) == reply
            && ValidChunks(Resume(Reader([1], [], Closed), 4096), [reply[..7], reply[7..]], 4096, accepts)
            && Run(Resume(Reader([1], [], Closed), 4096), [reply[..7], reply[7..]], 4096, accepts)
               == Reader([1] + reply, [], Reading)
            && ReadSize([1] + reply) == 2039
  {
    var reply: bytes := [0, 0, 0x22, 0, 8, 0, 0, 0];
    var first, all := [1] + reply[..7], [1] + reply;
    assert Frame(WRITE_RESPONSE, []) == reply;
    assert first[4] == 0 && first[5] == 8 && first[6] == 0 && first[7] == 0;
    assert DecodeHeader(first).size == 2048;
    assert reply == reply[..7] + reply[7..] && first + reply[7..] == all;
    HeaderOfPrefix(first, reply[7..]);
    var start, half, end := Reader([1], [], Reading), Reader(first, [], Reading), Reader(all, [], Reading);
    assert Deliver(start, reply[..7], 4096, accepts) == half && Deliver(half, reply[7..], 4096, accepts) == end;
    TwoChunks(start, half, end, reply[..7], reply[7..], 4096, accepts);
  }

  lemma {:induction false} ConcatJoin(a: seq<bytes>, b: seq<bytes>)
    ensures Concat(a + b) == Concat(a) + Concat(b)
  {
    if a == [] {
      assert a + b == b;
    } else {
      assert (a + b)[1..] == a[1..] + b;
      ConcatJoin(a[1..], b);
    }
  }

  /** A rejected frame stays in the buffer, so the reader that reconnects after it fails its assertion at once. */
  lemma RejectionIsFinal(r: Reader, chunk: bytes, max: nat, accepts: bytes -> bool)
    requires max >= HEADER_SIZE && r.status.Reading? && Pending(r.held, max)
    requires 1 <= |chunk| <= ReadSize(r.held)
    ensures var next := Deliver(r, chunk, max, accepts);
            next.status.Rejected? <==> Resume(next, max).status.Faulted? && next.frames != r.frames
  {
    var next := Deliver(r, chunk, max, accepts);
    assert next.frames != r.frames ==> |next.frames| == |r.frames| + 1;
  }

  class Session {
    const maxMessageSize: nat
    const buffer: array<byte>
    var bufferSize: nat
    var frames: seq<bytes>
    var status: Status

    ghost predicate Valid()
      reads this, buffer
    {
      && HEADER_SIZE <= maxMessageSize == buffer.Length
      && bufferSize <= buffer.Length
      && (status.Reading? ==> Pending(buffer[..bufferSize], maxMessageSize))
    }

    ghost function State(): Reader
      reads this, buffer
      requires Valid()
    {
      Reader(buffer[..bufferSize], frames, status)
    }

    constructor (max: nat)
      requires max >= HEADER_SIZE
      ensures Valid() && fresh(buffer) && maxMessageSize == max && State() == START
    {
      maxMessageSize := max;
      buffer := new byte[max];
      bufferSize, frames, status := 0, [], Reading;
    }

    /** The first half of `Read`: where the next bytes go and how many are asked for. */
    method Request() returns (offset: nat, size: nat)
      requires Valid() && status.Reading?
      ensures offset == bufferSize && size == ReadSize(State().held)
      ensures 1 <= size && offset + size <= buffer.Length
    {
      offset := bufferSize;
      if bufferSize < HEADER_SIZE {
        size := HEADER_SIZE - bufferSize;
      } else {
        var announced := DecodeHeader(buffer[..bufferSize]).size;
        assert bufferSize < announced;
        size := announced - bufferSize;
      }
    }

    /** The socket puts `chunk` behind the bytes already held. */
    method Fill(chunk: bytes)
      requires bufferSize + |chunk| <= buffer.Length
      modifies buffer
      ensures buffer[..bufferSize + |chunk|] == old(buffer[..bufferSize]) + chunk
    {
      var i := 0;
      while i < |chunk|
        invariant 0 <= i <= |chunk|
        invariant buffer[..bufferSize + i] == old(buffer[..bufferSize]) + chunk[..i]
      {
        buffer[bufferSize + i] := chunk[i];
        i := i + 1;
      }
    }

    /** The completion handler of one read. */
    method Complete(chunk: bytes, accepts: bytes -> bool)
      requires Valid() && status.Reading? && 1 <= |chunk| <= ReadSize(State().held)
      modifies this, buffer
      ensures Valid()
      ensures State() == Deliver(old(State()), chunk, maxMessageSize, accepts)
    {
      DeliverStaysInside(State(), chunk, maxMessageSize, accepts);
      Fill(chunk);
      bufferSize := bufferSize + |chunk|;
      var now := buffer[..bufferSize];
      if bufferSize >= HEADER_SIZE && bufferSize == DecodeHeader(now).size {
        frames := frames + [now];
        if !accepts(now) {
          status := Rejected;
          return;
        }
        bufferSize := 0;
        assert buffer[..bufferSize] == [];
      } else if !Followable(now, maxMessageSize) {
        status := Faulted;
      }
    }

    /** The completion handler of a read that failed. */
    method ReadError()
      requires Valid() && status.Reading?
      modifies this`status
      ensures Valid() && State() == old(State()).(status := Closed)
    {
      status := Closed;
    }

    /** Closes the socket and connects it anew; `connected` is how that went. The caller reads on after a success. */
    method Reconnect(connected: bool) returns (ok: bool)
      requires Valid()
      modifies this`status
      ensures Valid() && ok == connected
      ensures State() == if connected then Resume(old(State()), maxMessageSize) else old(State()).(status := Closed)
    {
      status := Closed;
      if !connected {
        return false;
      }
      status := if Pending(buffer[..bufferSize], maxMessageSize) then Reading else Faulted;
      ok := true;
    }
  }
}
