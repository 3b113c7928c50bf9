/** The text form of the dictionary: one `key value` line per entry. */
module KVFile {
  import opened Bytes

  type Dict = map<bytes, bytes>

  /** `SplitKeyValue`: up to the first space, and after it; a line without a space is all key. */
  function Split(line: bytes): (kv: (bytes, bytes))
    ensures SPACE !in kv.0
    ensures line == kv.0 + [SPACE] + kv.1 || (line == kv.0 && kv.1 == [])
  {
    var pos := IndexOf(line, SPACE);
    if pos == |line| then (line, []) else (line[..pos], line[pos + 1..])
  }

  /** Splitting undoes joining exactly when the key has no space. */
  lemma SplitJoin(key: bytes, value: bytes)
    ensures Split(key + [SPACE] + value) == (key, value) <==> SPACE !in key
  {
    var line := key + [SPACE] + value;
    if SPACE !in key {
      assert line[..|key|] == key && line[|key| + 1..] == value;
      IndexOfUnique(line, SPACE, |key|);
    }
  }

  method SplitKeyValue(line: bytes) returns (key: bytes, value: bytes)
    ensures (key, value) == Split(line)
  {
    key := line;
    var pos := Find(key, SPACE);
    if pos == |key| {
      return key, [];
    }
    value := key[pos + 1..];
    key := key[..pos];
  }

  // ---------------------------------------------------------------- load

  /** `emplace`: an entry that is already there wins. */
  function Emplace(m: Dict, kv: (bytes, bytes)): Dict {
    if kv.0 in m then m else m[kv.0 := kv.1]
  }

  function EmplaceLines(m: Dict, lines: seq<bytes>): Dict
    decreases |lines|
  {
    if lines == [] then m else EmplaceLines(Emplace(m, Split(lines[0])), lines[1..])
  }

  function Loaded(m: Dict, text: bytes): Dict {
    EmplaceLines(m, Lines(text))
  }

  lemma {:induction false} EmplaceLinesPush(m: Dict, lines: seq<bytes>, last: bytes)
    ensures EmplaceLines(m, lines + [last]) == Emplace(EmplaceLines(m, lines), Split(last))
    decreases |lines|
  {
    if lines == [] {
      assert lines + [last] == [last];
    } else {
      assert (lines + [last])[1..] == lines[1..] + [last];
      EmplaceLinesPush(Emplace(m, Split(lines[0])), lines[1..], last);
    }
  }

  /** The first of `lines` with this key. */
  ghost predicate IsFirstWith(lines: seq<bytes>, key: bytes, i: nat) {
    && i < |lines| && Split(lines[i]).0 == key
    && forall j | 0 <= j < i :: Split(lines[j]).0 != key
  }

  lemma {:induction false} EntryStays(m: Dict, lines: seq<bytes>, key: bytes)
    requires key in m
    ensures key in EmplaceLines(m, lines) && EmplaceLines(m, lines)[key] == m[key]
    decreases |lines|
  {
    if lines != [] {
      EntryStays(Emplace(m, Split(lines[0])), lines[1..], key);
    }
  }

  lemma {:induction false} NoLineNoEntry(m: Dict, lines: seq<bytes>, key: bytes)
    requires key !in m && forall i | 0 <= i < |lines| :: Split(lines[i]).0 != key
    ensures key !in EmplaceLines(m, lines)
    decreases |lines|
  {
    if lines != [] {
      NoLineNoEntry(Emplace(m, Split(lines[0])), lines[1..], key);
    }
  }

  /** A key that is new gets the value on the first line that has it. */
  lemma {:induction false} FirstLineWins(m: Dict, lines: seq<bytes>, key: bytes, i: nat)
    requires key !in m && IsFirstWith(lines, key, i)
    ensures key in EmplaceLines(m, lines) && EmplaceLines(m, lines)[key] == Split(lines[i]).1
    decreases |lines|
  {
    var next := Emplace(m, Split(lines[0]));
    if i == 0 {
      EntryStays(next, lines[1..], key);
    } else {
      assert Split(lines[0]).0 != key;
      FirstLineWins(next, lines[1..], key, i - 1);
    }
  }

  /** What a load leaves under a key: what was there, else the value on the first line with the key, else nothing. */
  lemma LoadedIsFirst(m: Dict, text: bytes, key: bytes)
    ensures key in m ==> key in Loaded(m, text) && Loaded(m, text)[key] == m[key]
    ensures key !in m ==> forall i: nat | IsFirstWith(Lines(text), key, i) ::
              key in Loaded(m, text) && Loaded(m, text)[key] == Split(Lines(text)[i]).1
    ensures key !in m && (forall line <- Lines(text) :: Split(line).0 != key) ==> key !in Loaded(m, text)
  {
    if key in m {
      EntryStays(m, Lines(text), key);
    } else {
      forall i: nat | IsFirstWith(Lines(text), key, i)
        ensures key in Loaded(m, text) && Loaded(m, text)[key] == Split(Lines(text)[i]).1
      {
        FirstLineWins(m, Lines(text), key, i);
      }
      if forall line <- Lines(text) :: Split(line).0 != key {
        NoLineNoEntry(m, Lines(text), key);
      }
    }
  }

  datatype LoadResult = LoadedMap(m: Dict) | OpenFailed

  /** `LoadFile`; a file that is not there (`None`) makes it throw. */
  method LoadFile(file: Option<bytes>, m: Dict) returns (r: LoadResult)
    ensures r == if file.Some? then LoadedMap(Loaded(m, file.value)) else OpenFailed
  {
    if file.None? {
      return OpenFailed;
    }
    var now := m;
    var lines := Lines(file.value);
    var i := 0;
    while i < |lines|
      invariant 0 <= i <= |lines|
      invariant now == EmplaceLines(m, lines[..i])
    {
      EmplaceLinesPush(m, lines[..i], lines[i]);
      assert lines[..i + 1] == lines[..i] + [lines[i]];
      var key, value := SplitKeyValue(lines[i]);
      if key !in now {
        now := now[key := value];
      }
      i := i + 1;
    }
    assert lines[..i] == lines;
    r := LoadedMap(now);
  }

  // ---------------------------------------------------------------- store

  function Row(key: bytes, value: bytes): bytes {
    key + [SPACE] + value
  }

  function Rows(order: seq<bytes>, m: Dict): seq<bytes>
    requires forall k <- order :: k in m
  {
    if order == [] then [] else [Row(order[0], m[order[0]])] + Rows(order[1..], m)
  }

  /** The order in which an iteration over the unordered map meets its keys. */
  ghost predicate Enumerates(order: seq<bytes>, m: Dict) {
    && (forall i, j | 0 <= i < j < |order| :: order[i] != order[j])
    && (forall k :: k in order <==> k in m)
  }

  function Stored(order: seq<bytes>, m: Dict): bytes
    requires forall k <- order :: k in m
  {
    Unlines(Rows(order, m))
  }

  predicate KeysSplit(m: Dict) {
    forall k <- m :: SPACE !in k
  }

  predicate NewlineFree(m: Dict) {
    forall k <- m :: NEWLINE !in k && NEWLINE !in m[k]
  }

  lemma {:induction false} RowsNewlineFree(order: seq<bytes>, m: Dict)
    requires forall k <- order :: k in m
    requires NewlineFree(m)
    ensures forall row <- Rows(order, m) :: NEWLINE !in row
  {
    if order != [] {
      RowsNewlineFree(order[1..], m);
      assert order[0] in order;
    }
  }

  function Restricted(order: seq<bytes>, m: Dict): Dict
    requires forall k <- order :: k in m
  {
    map k | k in order :: m[k]
  }

  lemma RestrictedStep(m0: Dict, order: seq<bytes>, m: Dict)
    requires (forall k <- order :: k in m) && order != []
    ensures forall k <- order[1..] :: k in m
    ensures Restricted(order[1..], m) + Emplace(m0, (order[0], m[order[0]])) == Restricted(order, m) + m0
  {
    var k0 := order[0];
    var m1 := Emplace(m0, (k0, m[k0]));
    assert forall k :: k in order <==> k == k0 || k in order[1..];
    assert (Restricted(order[1..], m) + m1).Keys == (Restricted(order, m) + m0).Keys;
  }

  lemma {:induction false} EmplaceRows(m0: Dict, order: seq<bytes>, m: Dict)
    requires forall k <- order :: k in m
    requires KeysSplit(m)
    ensures EmplaceLines(m0, Rows(order, m)) == Restricted(order, m) + m0
    decreases |order|
  {
    if order == [] {
      assert Restricted(order, m) + m0 == m0;
    } else {
      var k0 := order[0];
      assert k0 in m;
      SplitJoin(k0, m[k0]);
      RestrictedStep(m0, order, m);
      EmplaceRows(Emplace(m0, (k0, m[k0])), order[1..], m);
    }
  }

  /** Loading only ever adds keys without a space, and nothing with a newline. */
  lemma {:induction false} LoadedIsClean(m: Dict, lines: seq<bytes>)
    requires forall l <- lines :: NEWLINE !in l
    requires KeysSplit(m) && NewlineFree(m)
    ensures KeysSplit(EmplaceLines(m, lines)) && NewlineFree(EmplaceLines(m, lines))
    decreases |lines|
  {
    if lines != [] {
      assert lines[0] in lines;
      LoadedIsClean(Emplace(m, Split(lines[0])), lines[1..]);
    }
  }

  /** Loading a stored map into another one, in any iteration order: the union, where what was there wins. */
  lemma StoreLoadUnion(m0: Dict, m: Dict, order: seq<bytes>)
    requires Enumerates(order, m) && KeysSplit(m) && NewlineFree(m)
    ensures Loaded(m0, Stored(order, m)) == m + m0
  {
    RowsNewlineFree(order, m);
    LinesOfUnlines(Rows(order, m));
    EmplaceRows(m0, order, m);
    assert Restricted(order, m) == m;
  }

  lemma ThreeLines(a: bytes, b: bytes, c: bytes)
    ensures EmplaceLines(map[], [a] + ([b] + [c])) == Emplace(Emplace(Emplace(map[], Split(a)), Split(b)), Split(c))
  {
    var lines := [a] + ([b] + [c]);
    assert lines[1..] == [b] + [c] && lines[1..][1..] == [c];
    EmplaceLinesPush(Emplace(map[], Split(a)), [b], c);
    EmplaceLinesPush(Emplace(map[], Split(a)), [], b);
    assert [] + [b] == [b];
  }

  lemma ThreeEntries(a: bytes, b: bytes, c: bytes)
    requires Split(a) == ([107], [118]) && Split(b) == ([107], [119]) && Split(c) == ([120], [])
    ensures Emplace(Emplace(Emplace(map[], Split(a)), Split(b)), Split(c)) == map[[107] := [118], [120] := []]
  {
    assert [107] != [120];
  }

  /** The file as bytes: an entry is `k v` and a newline. */
  lemma StoredForm()
    ensures Stored([[107]], map[[107] := [118]]) == [107, 32, 118, 10]
  {
    var order, m: Dict := [[107]], map[[107] := [118]];
    assert order[1..] == [] && Row([107], [118]) == [107, 32, 118];
    assert Rows(order, m) == [Row([107], [118])] + [];
    UnlinesHead([107, 32, 118], []);
  }

  lemma FormLines()
    ensures Lines([107, 32, 118, 10, 107, 32, 119, 10, 120]) == [[107, 32, 118]] + ([[107, 32, 119]] + [[120]])
  {
    var k, w, x: bytes := [107, 32, 118], [107, 32, 119], [120];
    LinesHead(k, w + [10] + x);
    LinesHead(w, x);
    OnlyLine(x);
    assert k + [10] + (w + [10] + x) == [107, 32, 118, 10, 107, 32, 119, 10, 120];
  }

  lemma FormSplits()
    ensures Split([107, 32, 118]) == ([107], [118]) && Split([107, 32, 119]) == ([107], [119])
    ensures Split([120]) == ([120], [])
  {
    SplitJoin([107], [118]);
    SplitJoin([107], [119]);
    assert [107] + [SPACE] + [118] == [107, 32, 118] && [107] + [SPACE] + [119] == [107, 32, 119];
    IndexOfUnique([120], SPACE, 1);
  }

  /** And a hand-made file, `k v`, `k w`, and `x` without a last newline: the first `k` counts, `x` has no value. */
  lemma LoadedForm()
    ensures Loaded(map[], [107, 32, 118, 10, 107, 32, 119, 10, 120]) == map[[107] := [118], [120] := []]
  {
    FormLines();
    FormSplits();
    ThreeLines([107, 32, 118], [107, 32, 119], [120]);
    ThreeEntries([107, 32, 118], [107, 32, 119], [120]);
  }

  /** The stored text gives the map back exactly when no key holds a space and nothing holds a newline. */
  lemma StoreLoadRoundTrip(m: Dict, order: seq<bytes>)
    requires Enumerates(order, m)
    ensures Loaded(map[], Stored(order, m)) == m <==> KeysSplit(m) && NewlineFree(m)
  {
    LoadedIsClean(map[], Lines(Stored(order, m)));
    if KeysSplit(m) && NewlineFree(m) {
      StoreLoadUnion(map[], m, order);
      assert m + map[] == m;
    }
  }
}
