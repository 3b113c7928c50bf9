/** Byte strings, and the line structure that `std::getline` sees in them. */
module Bytes {
  newtype byte = x: int | 0 <= x < 256
  type bytes = seq<byte>

  const SPACE: byte := 32
  const NEWLINE: byte := 10

  datatype Option<+T> = None | Some(value: T)

  function Concat(parts: seq<bytes>): bytes {
    if parts == [] then [] else parts[0] + Concat(parts[1..])
  }

  lemma {:induction false} ConcatPush(parts: seq<bytes>, last: bytes)
    ensures Concat(parts + [last]) == Concat(parts) + last
  {
    if parts == [] {
      assert parts + [last] == [last];
    } else {
      assert (parts + [last])[1..] == parts[1..] + [last];
      ConcatPush(parts[1..], last);
    }
  }

  /** The position of the first `b` in `s`, or `|s|` when there is none. */
  function IndexOf(s: bytes, b: byte): (i: nat)
    ensures i <= |s|
    ensures b !in s[..i]
    ensures i < |s| ==> s[i] == b
  {
    if s == [] || s[0] == b then 0
    else
      assert forall j | 0 <= j < IndexOf(s[1..], b) :: s[j + 1] == s[1..][..IndexOf(s[1..], b)][j];
      1 + IndexOf(s[1..], b)
  }

  lemma IndexOfUnique(s: bytes, b: byte, i: nat)
    requires i <= |s| && b !in s[..i] && (i < |s| ==> s[i] == b)
    ensures IndexOf(s, b) == i
  {
  }

  method Find(s: bytes, b: byte) returns (i: nat)
    ensures i == IndexOf(s, b)
  {
    i := 0;
    while i < |s| && s[i] != b
      invariant i <= |s|
      invariant b !in s[..i]
    {
      i := i + 1;
    }
    IndexOfUnique(s, b, i);
  }

  // ---------------------------------------------------------------- lines

  /** The lines a `getline` loop reads: a last line needs no newline, and a final newline opens no line. */
  function Lines(text: bytes): (lines: seq<bytes>)
    ensures forall l <- lines :: NEWLINE !in l
    decreases |text|
  {
    if text == [] then []
    else
      var i := IndexOf(text, NEWLINE);
      [text[..i]] + (if i < |text| then Lines(text[i + 1..]) else [])
  }

  /** Each line followed by the newline that `std::endl` writes. */
  function Unlines(lines: seq<bytes>): bytes {
    if lines == [] then [] else lines[0] + [NEWLINE] + Unlines(lines[1..])
  }

  /** Reading one line off the front of a text. */
  lemma LinesHead(line: bytes, rest: bytes)
    requires NEWLINE !in line
    ensures Lines(line + [NEWLINE] + rest) == [line] + Lines(rest)
  {
    var text := line + [NEWLINE] + rest;
    assert text[..|line|] == line && text[|line|] == NEWLINE && text[|line| + 1..] == rest;
    IndexOfUnique(text, NEWLINE, |line|);
  }

  lemma {:induction false} LinesOfUnlines(lines: seq<bytes>)
    requires forall l <- lines :: NEWLINE !in l
    ensures Lines(Unlines(lines)) == lines
  {
    if lines != [] {
      LinesHead(lines[0], Unlines(lines[1..]));
      LinesOfUnlines(lines[1..]);
      assert lines == [lines[0]] + lines[1..];
    }
  }

  lemma UnlinesHead(line: bytes, rest: seq<bytes>)
    ensures Unlines([line] + rest) == line + [NEWLINE] + Unlines(rest)
  {
    assert ([line] + rest)[1..] == rest;
  }

  /** A text, or what a missing last newline makes of it. */
  function Terminated(text: bytes): bytes {
    if text == [] || text[|text| - 1] == 10 then text else text + [10]
  }

  lemma TerminatedTail(text: bytes, i: nat)
    requires i < |text| && text[i] == 10
    ensures Terminated(text) == text[..i] + [10] + Terminated(text[i + 1..])
  {
    var rest := text[i + 1..];
    assert text == text[..i] + [10] + rest;
    if rest != [] {
      assert rest[|rest| - 1] == text[|text| - 1];
      assert text[..i] + [10] + (rest + [10]) == text[..i] + [10] + rest + [10];
    }
  }

  lemma OnlyLine(text: bytes)
    requires text != [] && NEWLINE !in text
    ensures Lines(text) == [text]
  {
    IndexOfUnique(text, NEWLINE, |text|);
    assert text[..|text|] == text && [text] + [] == [text];
  }

  lemma CutLine(text: bytes, i: nat)
    requires i == IndexOf(text, NEWLINE) && i < |text|
    ensures Lines(text) == [text[..i]] + Lines(text[i + 1..])
  {
  }

  lemma FirstLine(text: bytes) returns (i: nat)
    requires text != []
    ensures i <= |text| && NEWLINE !in text[..i]
    ensures i < |text| ==> text[i] == 10 && Lines(text) == [text[..i]] + Lines(text[i + 1..])
    ensures i == |text| ==> Lines(text) == [text]
  {
    i := IndexOf(text, NEWLINE);
    if i == |text| {
      assert text[..i] == text;
      OnlyLine(text);
    } else {
      CutLine(text, i);
    }
  }

  lemma OneLine(line: bytes)
    requires line != [] && NEWLINE !in line
    ensures Unlines([line]) == line + [10] == Terminated(line)
  {
    assert [line][1..] == [] && line + [NEWLINE] + [] == line + [10];
    assert line[|line| - 1] in line;
  }

  /** Nothing of a text is lost in its lines: written out again they make it up, a last line without a newline
      getting one. As no line holds a newline, this says which lines they are. */
  lemma {:induction false} LinesUndone(text: bytes)
    ensures Unlines(Lines(text)) == Terminated(text)
    decreases |text|
  {
    if text != [] {
      var i := FirstLine(text);
      if i < |text| {
        LinesUndone(text[i + 1..]);
        UnlinesHead(text[..i], Lines(text[i + 1..]));
        TerminatedTail(text, i);
      } else {
        assert text[..i] == text;
        OneLine(text);
      }
    }
  }

  lemma {:induction false} UnlinesPush(lines: seq<bytes>, last: bytes)
    ensures Unlines(lines + [last]) == Unlines(lines) + last + [NEWLINE]
  {
    if lines == [] {
      assert lines + [last] == [last];
    } else {
      assert (lines + [last])[1..] == lines[1..] + [last];
      UnlinesPush(lines[1..], last);
    }
  }
}
