/** The wire frame: a packed 8-byte header (version, command, size; little endian) and the content. */
module Proto {
  import opened Bytes

  const HEADER_SIZE := 8
  const U16_LIMIT := 0x1_0000
  const U32_LIMIT := 0x1_0000_0000

  const NONE := 0
  const READ_REQUEST := 0x11
  const WRITE_REQUEST := 0x12
  const READ_RESPONSE := 0x21
  const WRITE_RESPONSE := 0x22

  datatype Header = Header(version: nat, cmd: nat, size: nat) {
    predicate VerifyVersion() {
      version == 0
    }

    /** The source writes `0x10 && m_cmd`: a logical conjunction, so only a zero command is refused. */
    predicate VerifyRequest() {
      VerifyVersion() && cmd != NONE
    }

    predicate VerifyResponse() {
      VerifyVersion() && cmd != NONE
    }
  }

  function EncodeU16(n: nat): bytes
    requires n < U16_LIMIT
  {
    [(n % 256) as byte, (n / 256) as byte]
  }

  function EncodeU32(n: nat): bytes
    requires n < U32_LIMIT
  {
    [(n % 256) as byte, (n / 256 % 256) as byte, (n / 65536 % 256) as byte, (n / 16777216) as byte]
  }

  function DecodeU16(s: bytes): nat
    requires |s| == 2
  {
    s[0] as nat + 256 * s[1] as nat
  }

  function DecodeU32(s: bytes): nat
    requires |s| == 4
  {
    s[0] as nat + 256 * s[1] as nat + 65536 * s[2] as nat + 16777216 * s[3] as nat
  }

  function DecodeHeader(s: bytes): Header
    requires |s| >= HEADER_SIZE
  {
    Header(DecodeU16(s[0..2]), DecodeU16(s[2..4]), DecodeU32(s[4..8]))
  }

  function EncodeHeader(h: Header): (s: bytes)
    requires h.version < U16_LIMIT && h.cmd < U16_LIMIT && h.size < U32_LIMIT
    ensures |s| == HEADER_SIZE
  {
    EncodeU16(h.version) + EncodeU16(h.cmd) + EncodeU32(h.size)
  }

  /** The frame announced in its own header. */
  ghost predicate IsFrame(f: bytes) {
    |f| >= HEADER_SIZE && DecodeHeader(f).size == |f|
  }

  function ContentView(f: bytes): bytes
    requires IsFrame(f)
  {
    f[HEADER_SIZE..DecodeHeader(f).size]
  }

  /** A content that the 32-bit size field can announce. */
  predicate Fits(cmd: nat, content: bytes) {
    cmd < U16_LIMIT && |content| + HEADER_SIZE < U32_LIMIT
  }

  /** What `MakeCommand` returns. */
  function Frame(cmd: nat, content: bytes): bytes
    requires Fits(cmd, content)
  {
    EncodeHeader(Header(0, cmd, |content| + HEADER_SIZE)) + content
  }

  lemma U16RoundTrip(n: nat)
    requires n < U16_LIMIT
    ensures DecodeU16(EncodeU16(n)) == n
  {
  }

  lemma U32RoundTrip(n: nat)
    requires n < U32_LIMIT
    ensures DecodeU32(EncodeU32(n)) == n
  {
    var q := n / 256;
    assert n / 65536 == q / 256;
    assert n / 16777216 == q / 256 / 256;
  }

  lemma HeaderRoundTrip(h: Header, tail: bytes)
    requires h.version < U16_LIMIT && h.cmd < U16_LIMIT && h.size < U32_LIMIT
    ensures DecodeHeader(EncodeHeader(h) + tail) == h
  {
    var s := EncodeHeader(h) + tail;
    U16RoundTrip(h.version);
    U16RoundTrip(h.cmd);
    U32RoundTrip(h.size);
    assert s[0..2] == EncodeU16(h.version);
    assert s[2..4] == EncodeU16(h.cmd);
    assert s[4..8] == EncodeU32(h.size);
  }

  /** Encoding then viewing gives back the command, the size and the content, whatever bytes follow. */
  lemma FrameRoundTrip(cmd: nat, content: bytes, tail: bytes)
    requires Fits(cmd, content)
    ensures var f := Frame(cmd, content);
            && IsFrame(f)
            && DecodeHeader(f + tail) == DecodeHeader(f) == Header(0, cmd, |f|)
            && ContentView(f) == content
  {
    var h := Header(0, cmd, |content| + HEADER_SIZE);
    HeaderRoundTrip(h, content);
    HeaderRoundTrip(h, content + tail);
    assert Frame(cmd, content) + tail == EncodeHeader(h) + (content + tail);
  }

  /** The frame byte by byte: two zero bytes of version, the command and the whole size low byte first, the content. */
  lemma FrameOnTheWire(cmd: nat, content: bytes)
    requires cmd < 0x1_0000 && |content| + 8 < 0x1_0000_0000
    ensures Fits(cmd, content)
    ensures var f := Frame(cmd, content);
            && |f| == |content| + 8 && f[8..] == content
            && f[0] == 0 && f[1] == 0
            && f[2] as nat + 256 * f[3] as nat == cmd
            && f[4] as nat + 256 * f[5] as nat + 65536 * f[6] as nat + 16777216 * f[7] as nat == |f|
  {
    var size := |content| + HEADER_SIZE;
    U16RoundTrip(cmd);
    U32RoundTrip(size);
    var f := Frame(cmd, content);
    assert f[..2] == EncodeU16(0) && f[2..4] == EncodeU16(cmd) && f[4..8] == EncodeU32(size);
    assert f[0] == EncodeU16(0)[0] && f[1] == EncodeU16(0)[1];
    assert f[2] == EncodeU16(cmd)[0] && f[3] == EncodeU16(cmd)[1];
    assert f[4] == EncodeU32(size)[0] && f[5] == EncodeU32(size)[1];
    assert f[6] == EncodeU32(size)[2] && f[7] == EncodeU32(size)[3];
  }

  /** `THeader::Prepare`: header fields and content written into a buffer that already exists. */
  method Prepare(buf: array<byte>, cmd: nat, content: bytes)
    requires Fits(cmd, content) && buf.Length == |content| + HEADER_SIZE
    modifies buf
    ensures buf[..] == Frame(cmd, content)
  {
    var header := EncodeHeader(Header(0, cmd, |content| + HEADER_SIZE));
    var i := 0;
    while i < HEADER_SIZE
      invariant 0 <= i <= HEADER_SIZE
      invariant buf[..i] == header[..i]
    {
      buf[i] := header[i];
      i := i + 1;
    }
    i := 0;
    while i < |content|
      invariant 0 <= i <= |content|
      invariant buf[..HEADER_SIZE + i] == header + content[..i]
    {
      buf[HEADER_SIZE + i] := content[i];
      i := i + 1;
    }
    assert buf[..] == header + content;
  }

  method MakeCommand(cmd: nat, content: bytes) returns (buf: array<byte>)
    requires Fits(cmd, content)
    ensures fresh(buf) && buf[..] == Frame(cmd, content)
  {
    buf := new byte[|content| + HEADER_SIZE];
    Prepare(buf, cmd, content);
  }
}
