/** The command script of the client: one `get args` or `set args` line per command. */
module ClientConfig {
  import opened Bytes
  import Proto

  datatype Command = Command(cmd: nat, args: bytes)

  const GET: bytes := [103, 101, 116]
  const SET: bytes := [115, 101, 116]

  predicate Valid(c: Command) {
    c.cmd == Proto.READ_REQUEST || c.cmd == Proto.WRITE_REQUEST
  }

  /** `ToString`; on any other command it throws. */
  function ToString(c: Command): Option<bytes> {
    if c.cmd == Proto.READ_REQUEST then Some(GET + [SPACE] + c.args)
    else if c.cmd == Proto.WRITE_REQUEST then Some(SET + [SPACE] + c.args)
    else None
  }

  datatype ParseResult = Parsed(command: Command) | Throws

  /** `Parse`: the fourth byte is skipped unread, and a line that ends before it makes the code throw. */
  function Parse(line: bytes): ParseResult {
    var word := if |line| < 3 then line else line[..3];
    if word != GET && word != SET then Parsed(Command(Proto.NONE, []))
    else if |line| == 3 then Throws
    else Parsed(Command(if word == GET then Proto.READ_REQUEST else Proto.WRITE_REQUEST, line[4..]))
  }

  /** The words, letter by letter: `get ` asks for a read and `set ` for a write, in both directions. */
  lemma Words(args: bytes)
    ensures Parse([103, 101, 116, 32] + args) == Parsed(Command(Proto.READ_REQUEST, args))
    ensures Parse([115, 101, 116, 32] + args) == Parsed(Command(Proto.WRITE_REQUEST, args))
    ensures ToString(Command(Proto.READ_REQUEST, args)) == Some([103, 101, 116, 32] + args)
    ensures ToString(Command(Proto.WRITE_REQUEST, args)) == Some([115, 101, 116, 32] + args)
  {
    var get: bytes := [103, 101, 116, 32];
    var set_: bytes := [115, 101, 116, 32];
    assert GET + [SPACE] == get && SET + [SPACE] == set_;
    assert (get + args)[..3] == GET && (get + args)[4..] == args;
    assert (set_ + args)[..3] == SET && (set_ + args)[4..] == args;
  }

  /** Any other word makes a command that is neither, without arguments, whatever follows. */
  lemma OtherWords(line: bytes)
    requires |line| < 3 || (line[..3] != [103, 101, 116] && line[..3] != [115, 101, 116])
    ensures Parse(line) == Parsed(Command(0, [])) && !Valid(Command(0, []))
  {
    assert |GET| == 3 && |SET| == 3;
  }

  /** Exactly which lines parse to a valid command: its printed form, up to the separator byte. */
  lemma ParseExact(line: bytes, c: Command)
    requires Valid(c)
    ensures Parse(line) == Parsed(c) <==> |line| >= 4 && ToString(c) == Some(line[3 := SPACE])
  {
    var word := if c.cmd == Proto.READ_REQUEST then GET else SET;
    if |line| >= 4 {
      var canonical := line[3 := SPACE];
      assert canonical == line[..3] + [SPACE] + line[4..];
      if ToString(c) == Some(canonical) {
        assert canonical[..3] == word && canonical[4..] == c.args;
        assert line[..3] == canonical[..3] && line[4..] == canonical[4..];
      }
    }
  }

  datatype LoadResult = Commands(commands: seq<Command>) | LoadThrows

  /** `LoadFile` on the lines of the script: empty lines are skipped, the first bad line ends it. */
  function Loaded(lines: seq<bytes>): LoadResult {
    if lines == [] then Commands([])
    else
      var front := Loaded(lines[..|lines| - 1]);
      var last := lines[|lines| - 1];
      if front.LoadThrows? || last == [] then front
      else match Parse(last)
           case Throws => LoadThrows
           case Parsed(c) => Commands(front.commands + [c])
  }

  /** Loading fails exactly on a line that ends right after its command word, wherever it stands. */
  lemma {:induction false} LoadThrowsExactly(lines: seq<bytes>)
    ensures Loaded(lines).LoadThrows? <==> GET in lines || SET in lines
  {
    if lines != [] {
      var front, last := lines[..|lines| - 1], lines[|lines| - 1];
      LoadThrowsExactly(front);
      assert lines == front + [last];
      assert last[..|last|] == last;
    }
  }

  /** No line is lost: a script without empty lines loads as one command a line, in order. */
  lemma {:induction false} LoadedEach(lines: seq<bytes>)
    requires (forall line <- lines :: line != []) && Loaded(lines).Commands?
    ensures |Loaded(lines).commands| == |lines|
    ensures forall i | 0 <= i < |lines| :: Parse(lines[i]) == Parsed(Loaded(lines).commands[i])
  {
    if lines != [] {
      var front, last := lines[..|lines| - 1], lines[|lines| - 1];
      assert lines == front + [last];
      assert last in lines && forall line <- front :: line in lines;
      LoadedEach(front);
    }
  }

  function NonEmpty(lines: seq<bytes>): seq<bytes> {
    if lines == [] then []
    else
      var last := lines[|lines| - 1];
      NonEmpty(lines[..|lines| - 1]) + (if last == [] then [] else [last])
  }

  /** Empty lines make no difference. */
  lemma {:induction false} EmptyLinesSkipped(lines: seq<bytes>)
    ensures Loaded(lines) == Loaded(NonEmpty(lines))
  {
    if lines != [] {
      var front, last := lines[..|lines| - 1], lines[|lines| - 1];
      EmptyLinesSkipped(front);
      if last == [] {
        assert NonEmpty(lines) == NonEmpty(front);
      } else {
        assert NonEmpty(lines)[..|NonEmpty(front)|] == NonEmpty(front);
      }
    }
  }

  function Printed(commands: seq<Command>): seq<bytes>
    requires forall c <- commands :: Valid(c)
  {
    if commands == [] then []
    else
      var last := commands[|commands| - 1];
      assert Valid(last);
      Printed(commands[..|commands| - 1]) + [ToString(last).value]
  }

  lemma LoadedPush(lines: seq<bytes>, c: Command)
    requires Valid(c) && Loaded(lines).Commands?
    ensures Loaded(lines + [ToString(c).value]) == Commands(Loaded(lines).commands + [c])
  {
    var line := ToString(c).value;
    assert line[3 := SPACE] == line;
    ParseExact(line, c);
    assert (lines + [line])[..|lines|] == lines;
  }

  lemma {:induction false} LoadedPrinted(commands: seq<Command>)
    requires forall c <- commands :: Valid(c)
    ensures Loaded(Printed(commands)) == Commands(commands)
  {
    if commands != [] {
      var front, last := commands[..|commands| - 1], commands[|commands| - 1];
      assert Valid(last);
      LoadedPrinted(front);
      LoadedPush(Printed(front), last);
      assert commands == front + [last];
    }
  }

  ghost predicate NewlineFree(commands: seq<Command>) {
    forall c <- commands :: NEWLINE !in c.args
  }

  lemma {:induction false} PrintedNewlineFree(commands: seq<Command>)
    requires forall c <- commands :: Valid(c)
    requires NewlineFree(commands)
    ensures forall line <- Printed(commands) :: NEWLINE !in line
  {
    if commands != [] {
      assert commands[|commands| - 1] in commands;
      PrintedNewlineFree(commands[..|commands| - 1]);
    }
  }

  lemma {:induction false} LoadedNewlineFree(lines: seq<bytes>)
    requires forall l <- lines :: NEWLINE !in l
    ensures Loaded(lines).Commands? ==> NewlineFree(Loaded(lines).commands)
  {
    if lines != [] {
      assert lines[|lines| - 1] in lines;
      LoadedNewlineFree(lines[..|lines| - 1]);
    }
  }

  /** A stored script loads back as it was, duplicates and empty arguments included, exactly when no argument
      holds a newline. */
  lemma ScriptRoundTrip(commands: seq<Command>)
    requires forall c <- commands :: Valid(c)
    ensures Loaded(Lines(Unlines(Printed(commands)))) == Commands(commands) <==> NewlineFree(commands)
  {
    LoadedNewlineFree(Lines(Unlines(Printed(commands))));
    if NewlineFree(commands) {
      PrintedNewlineFree(commands);
      LinesOfUnlines(Printed(commands));
      LoadedPrinted(commands);
    }
  }

  /** The commands in front of the first invalid one. */
  function ValidFront(commands: seq<Command>): (front: seq<Command>)
    ensures front <= commands && forall c <- front :: Valid(c)
    ensures front == commands || !Valid(commands[|front|])
  {
    if commands == [] || !Valid(commands[0]) then [] else [commands[0]] + ValidFront(commands[1..])
  }

  lemma {:induction false} FrontIs(commands: seq<Command>, n: nat)
    requires n <= |commands| && (forall c <- commands[..n] :: Valid(c)) && (n < |commands| ==> !Valid(commands[n]))
    ensures ValidFront(commands) == commands[..n]
    decreases n
  {
    if n > 0 {
      assert commands[..n][0] in commands[..n];
      assert commands[1..][..n - 1] == commands[..n][1..];
      FrontIs(commands[1..], n - 1);
      assert [commands[0]] + commands[..n][1..] == commands[..n];
    }
  }

  /** `StoreFile`: the file may not be created; an invalid command makes `ToString` throw, and what was written so far
      stays. `file` is what the file holds, if it was created. */
  method StoreFile(commands: seq<Command>, created: bool) returns (ok: bool, file: Option<bytes>)
    ensures ok <==> created && forall c <- commands :: Valid(c)
    ensures file == if created then Some(Unlines(Printed(ValidFront(commands)))) else None
  {
    if !created {
      return false, None;
    }
    var text := [];
    var i := 0;
    while i < |commands|
      invariant 0 <= i <= |commands|
      invariant forall c <- commands[..i] :: Valid(c)
      invariant text == Unlines(Printed(commands[..i]))
    {
      var line := ToString(commands[i]);
      if line.None? {
        assert commands[i] in commands;
        FrontIs(commands, i);
        return false, Some(text);
      }
      text := text + line.value + [NEWLINE];
      UnlinesPush(Printed(commands[..i]), line.value);
      assert commands[..i + 1][..i] == commands[..i];
      i := i + 1;
    }
    assert commands[..i] == commands;
    FrontIs(commands, i);
    return true, Some(text);
  }

  /** A script that is not there (`None`) makes it throw. */
  method LoadFile(file: Option<bytes>) returns (r: LoadResult)
    ensures r == if file.Some? then Loaded(Lines(file.value)) else LoadThrows
  {
    if file.None? {
      return LoadThrows;
    }
    var lines := Lines(file.value);
    var commands: seq<Command> := [];
    var i := 0;
    while i < |lines|
      invariant 0 <= i <= |lines|
      invariant Loaded(lines[..i]) == Commands(commands)
    {
      assert lines[..i + 1][..i] == lines[..i];
      if lines[i] != [] {
        match Parse(lines[i]) {
          case Throws =>
            ThrowStays(lines, i + 1);
            return LoadThrows;
          case Parsed(c) => commands := commands + [c];
        }
      }
      i := i + 1;
    }
    assert lines[..i] == lines;
    r := Commands(commands);
  }

  lemma {:induction false} ThrowStays(lines: seq<bytes>, n: nat)
    requires n <= |lines| && Loaded(lines[..n]).LoadThrows?
    ensures Loaded(lines).LoadThrows?
    decreases |lines|
  {
    if n == |lines| {
      assert lines[..n] == lines;
    } else {
      assert lines[..|lines| - 1][..n] == lines[..n];
      ThrowStays(lines[..|lines| - 1], n);
    }
  }
}
