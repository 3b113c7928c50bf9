/** Access statistics: totals, totals by key, and the accesses of a sliding time window, in wrapping 32-bit counters. */
module Stat {
  import opened Bytes
  import Timing

  const U32_LIMIT := 0x1_0000_0000
  /** `DEFAULT_FRAME_DURATION`, five seconds. */
  const FRAME_DURATION := Timing.Duration(5_000_000)

  type u32 = x: int | 0 <= x < U32_LIMIT

  datatype KeyStat = KeyStat(nread: u32, nwrite: u32) {
    function Counted(isRead: bool): KeyStat {
      if isRead then this.(nread := (nread + 1) % U32_LIMIT) else this.(nwrite := (nwrite + 1) % U32_LIMIT)
    }

    function Uncounted(isRead: bool): KeyStat {
      if isRead then this.(nread := (nread - 1) % U32_LIMIT) else this.(nwrite := (nwrite - 1) % U32_LIMIT)
    }
  }

  const ZERO := KeyStat(0, 0)

  datatype Access = Access(time: nat, key: bytes, isRead: bool)

  /** An element of `m_frame`. */
  datatype Stamp = Stamp(time: nat, isRead: bool)

  /** `history` is every access so far, `cleared` the time of the last clearing of the frame. */
  datatype State = State(
    byKey: map<bytes, KeyStat>, global: KeyStat, framed: KeyStat, frame: seq<Stamp>,
    history: seq<Access>, cleared: nat)

  const START := State(map[], ZERO, ZERO, [], [], 0)

  datatype Event = LogAccess(now: nat, key: bytes, isRead: bool) | Clear(now: nat)

  // ---------------------------------------------------------------- the counting reference

  function Stamps(history: seq<Access>): seq<Stamp> {
    if history == [] then []
    else
      var last := history[|history| - 1];
      Stamps(history[..|history| - 1]) + [Stamp(last.time, last.isRead)]
  }

  function Count(frame: seq<Stamp>, isRead: bool): nat {
    if frame == [] then 0 else (if frame[0].isRead == isRead then 1 else 0) + Count(frame[1..], isRead)
  }

  function Counts(frame: seq<Stamp>): KeyStat {
    KeyStat(Count(frame, true) % U32_LIMIT, Count(frame, false) % U32_LIMIT)
  }

  /** Inside the window: the age, rounded down to microseconds, is below the frame duration. */
  predicate InWindow(time: nat, now: nat) {
    Timing.Timestamp(now).Since(Timing.Timestamp(time)).Less(FRAME_DURATION)
  }

  /** Five seconds in the clock's nanoseconds. */
  lemma FiveSeconds(time: nat, now: nat)
    requires time <= now < Timing.CLOCK_LIMIT
    ensures InWindow(time, now) <==> now - time < 5_000_000_000
  {
    Timing.SinceIsFloor(now, time);
  }

  function Window(frame: seq<Stamp>, now: nat): seq<Stamp> {
    if frame == [] then []
    else (if InWindow(frame[0].time, now) then [frame[0]] else []) + Window(frame[1..], now)
  }

  /** The window holds every access of the last five seconds as often as it was made, and no other. */
  lemma {:induction false} WindowHolds(frame: seq<Stamp>, now: nat, one: Stamp)
    requires now < Timing.CLOCK_LIMIT && forall i | 0 <= i < |frame| :: frame[i].time <= now
    requires one.time <= now
    ensures multiset(Window(frame, now))[one]
            == if now - one.time < 5_000_000_000 then multiset(frame)[one] else 0
  {
    if frame != [] {
      var first, rest := frame[0], frame[1..];
      assert frame == [first] + rest;
      FiveSeconds(first.time, now);
      WindowHolds(rest, now, one);
      assert Window(frame, now) == (if InWindow(first.time, now) then [first] else []) + Window(rest, now);
    }
  }

  function Of(history: seq<Access>, key: bytes): seq<Access> {
    if history == [] then []
    else
      var last := history[|history| - 1];
      Of(history[..|history| - 1], key) + (if last.key == key then [last] else [])
  }

  lemma {:induction false} CountPush(frame: seq<Stamp>, last: Stamp, isRead: bool)
    ensures Count(frame + [last], isRead) == Count(frame, isRead) + if last.isRead == isRead then 1 else 0
  {
    if frame == [] {
      assert frame + [last] == [last];
    } else {
      assert (frame + [last])[1..] == frame[1..] + [last];
      CountPush(frame[1..], last, isRead);
    }
  }

  function Places(frame: seq<Stamp>, isRead: bool): set<nat> {
    set i: nat | i < |frame| && frame[i].isRead == isRead
  }

  lemma PlacesPush(front: seq<Stamp>, last: Stamp, isRead: bool)
    ensures |Places(front + [last], isRead)| == |Places(front, isRead)| + if last.isRead == isRead then 1 else 0
  {
    var here: set<nat> := if last.isRead == isRead then {|front|} else {};
    assert Places(front + [last], isRead) == Places(front, isRead) + here;
  }

  lemma {:induction false} CountIsNumber(frame: seq<Stamp>, isRead: bool)
    ensures Count(frame, isRead) == |Places(frame, isRead)|
    decreases |frame|
  {
    if frame != [] {
      var front, last := frame[..|frame| - 1], frame[|frame| - 1];
      CountIsNumber(front, isRead);
      CountPush(front, last, isRead);
      PlacesPush(front, last, isRead);
      assert frame == front + [last];
    }
  }

  /** Reads and writes are counted apart, each modulo 2^32. */
  lemma CountsAre(frame: seq<Stamp>)
    ensures Counts(frame).nread == |Places(frame, true)| % 0x1_0000_0000
    ensures Counts(frame).nwrite == |Places(frame, false)| % 0x1_0000_0000
  {
    CountIsNumber(frame, true);
    CountIsNumber(frame, false);
  }

  lemma WrapsUp(n: nat)
    ensures (n + 1) % U32_LIMIT == (n % U32_LIMIT + 1) % U32_LIMIT
  {
  }

  lemma WrapsDown(n: nat)
    requires n > 0
    ensures (n - 1) % U32_LIMIT == (n % U32_LIMIT - 1) % U32_LIMIT
  {
  }

  lemma CountsPush(frame: seq<Stamp>, last: Stamp)
    ensures Counts(frame + [last]) == Counts(frame).Counted(last.isRead)
  {
    CountPush(frame, last, true);
    CountPush(frame, last, false);
    WrapsUp(Count(frame, last.isRead));
  }

  lemma CountsPop(frame: seq<Stamp>)
    requires frame != []
    ensures Counts(frame[1..]) == Counts(frame).Uncounted(frame[0].isRead)
  {
    WrapsDown(Count(frame, frame[0].isRead));
  }

  // ---------------------------------------------------------------- the incremental frame

  /** `ClearStatFrame`: pop from the front while too old, and count down. */
  function Cleared(frame: seq<Stamp>, framed: KeyStat, now: nat): (seq<Stamp>, KeyStat) {
    if frame == [] || InWindow(frame[0].time, now) then (frame, framed)
    else Cleared(frame[1..], framed.Uncounted(frame[0].isRead), now)
  }

  function CleanFrame(s: State, now: nat): State {
    var (frame, framed) := Cleared(s.frame, s.framed, now);
    s.(frame := frame, framed := framed, cleared := now)
  }

  function Next(s: State, e: Event): State {
    var t := CleanFrame(s, e.now);
    match e
    case LogAccess(now, key, isRead) =>
      var one := if key in t.byKey then t.byKey[key] else ZERO;
      State(t.byKey[key := one.Counted(isRead)], t.global.Counted(isRead), t.framed.Counted(isRead),
            t.frame + [Stamp(now, isRead)], t.history + [Access(now, key, isRead)], now)
    case Clear(_) => t
  }

  /** The clock is read under the lock, so in lock order it does not go back. */
  ghost predicate ValidRun(s: State, events: seq<Event>)
    decreases |events|, 0
  {
    events == [] ||
    (var before := events[..|events| - 1];
     ValidRun(s, before) && Run(s, before).cleared <= events[|events| - 1].now < Timing.CLOCK_LIMIT)
  }

  ghost function Run(s: State, events: seq<Event>): State
    requires ValidRun(s, events)
    decreases |events|, 1
  {
    if events == [] then s else Next(Run(s, events[..|events| - 1]), events[|events| - 1])
  }

  ghost predicate Sorted(frame: seq<Stamp>, now: nat) {
    && (forall i, j | 0 <= i < j < |frame| :: frame[i].time <= frame[j].time)
    && (forall i | 0 <= i < |frame| :: frame[i].time <= now)
    && now < Timing.CLOCK_LIMIT
  }

  lemma WindowShrinks(time: nat, earlier: nat, now: nat)
    requires time <= earlier <= now < Timing.CLOCK_LIMIT
    ensures InWindow(time, now) ==> InWindow(time, earlier)
  {
    Timing.SinceIsFloor(now, time);
    Timing.SinceIsFloor(earlier, time);
  }

  lemma YoungerIn(time: nat, younger: nat, now: nat)
    requires time <= younger <= now < Timing.CLOCK_LIMIT
    ensures InWindow(time, now) ==> InWindow(younger, now)
  {
    Timing.SinceIsFloor(now, time);
    Timing.SinceIsFloor(now, younger);
  }

  lemma {:induction false} WindowOfYoung(frame: seq<Stamp>, now: nat)
    requires forall i | 0 <= i < |frame| :: InWindow(frame[i].time, now)
    ensures Window(frame, now) == frame
  {
    if frame != [] {
      WindowOfYoung(frame[1..], now);
    }
  }

  lemma WindowFromYoung(frame: seq<Stamp>, now: nat)
    requires Sorted(frame, now) && frame != [] && InWindow(frame[0].time, now)
    ensures Window(frame, now) == frame
  {
    forall i | 0 <= i < |frame|
      ensures InWindow(frame[i].time, now)
    {
      YoungerIn(frame[0].time, frame[i].time, now);
    }
    WindowOfYoung(frame, now);
  }

  /** Popping the old front of a frame in time order keeps exactly what is in the window. */
  lemma {:induction false} ClearedIsWindow(frame: seq<Stamp>, framed: KeyStat, now: nat)
    requires Sorted(frame, now) && framed == Counts(frame)
    ensures Cleared(frame, framed, now) == (Window(frame, now), Counts(Window(frame, now)))
    decreases |frame|
  {
    if frame != [] {
      if InWindow(frame[0].time, now) {
        WindowFromYoung(frame, now);
      } else {
        CountsPop(frame);
        ClearedIsWindow(frame[1..], framed.Uncounted(frame[0].isRead), now);
        assert Window(frame, now) == Window(frame[1..], now);
      }
    }
  }

  lemma WindowCons(first: Stamp, rest: seq<Stamp>, now: nat)
    ensures Window([first] + rest, now) == (if InWindow(first.time, now) then [first] else []) + Window(rest, now)
  {
    assert ([first] + rest)[1..] == rest;
  }

  lemma {:induction false} WindowTwice(frame: seq<Stamp>, earlier: nat, now: nat)
    requires Sorted(frame, earlier) && earlier <= now < Timing.CLOCK_LIMIT
    ensures Window(Window(frame, earlier), now) == Window(frame, now)
  {
    if frame != [] {
      var rest := Window(frame[1..], earlier);
      WindowTwice(frame[1..], earlier, now);
      WindowShrinks(frame[0].time, earlier, now);
      if InWindow(frame[0].time, earlier) {
        WindowCons(frame[0], rest, now);
      } else {
        assert Window(frame, earlier) == rest && Window(frame, now) == Window(frame[1..], now);
      }
    }
  }

  lemma {:induction false} WindowPush(frame: seq<Stamp>, last: Stamp, now: nat)
    ensures Window(frame + [last], now) == Window(frame, now) + if InWindow(last.time, now) then [last] else []
  {
    if frame == [] {
      WindowCons(last, [], now);
      assert frame + [last] == [last] + [];
    } else {
      WindowCons(frame[0], frame[1..] + [last], now);
      assert frame + [last] == [frame[0]] + (frame[1..] + [last]);
      WindowPush(frame[1..], last, now);
    }
  }

  lemma {:induction false} WindowFrom(frame: seq<Stamp>, now: nat) returns (k: nat)
    requires Sorted(frame, now)
    ensures k <= |frame| && Window(frame, now) == frame[k..]
    decreases |frame|
  {
    if frame == [] || InWindow(frame[0].time, now) {
      k := 0;
      if frame != [] {
        WindowFromYoung(frame, now);
      }
    } else {
      var rest := frame[1..];
      var j := WindowFrom(rest, now);
      k := j + 1;
      assert rest[j..] == frame[k..];
      assert Window(frame, now) == Window(rest, now);
    }
  }

  /** Whatever was pushed and is not in the queue any more was pushed before everything that is. */
  lemma WindowIsSuffix(frame: seq<Stamp>, now: nat)
    requires Sorted(frame, now)
    ensures |Window(frame, now)| <= |frame| && Window(frame, now) == frame[|frame| - |Window(frame, now)|..]
  {
    var k := WindowFrom(frame, now);
  }

  lemma WindowSorted(frame: seq<Stamp>, now: nat, later: nat)
    requires Sorted(frame, now) && now <= later < Timing.CLOCK_LIMIT
    ensures Sorted(Window(frame, now), later)
  {
    WindowIsSuffix(frame, now);
  }

  // ---------------------------------------------------------------- invariant

  /** Every counter, and the frame, recomputed from the whole history. */
  ghost predicate Inv(s: State) {
    && Sorted(Stamps(s.history), s.cleared)
    && s.frame == Window(Stamps(s.history), s.cleared)
    && s.framed == Counts(s.frame)
    && s.global == Counts(Stamps(s.history))
    && ByKeyInv(s.byKey, s.history)
  }

  /** After a clearing at `now`, the frame is the part of the history inside the window. */
  lemma ClearKeeps(s: State, now: nat)
    requires Inv(s) && s.cleared <= now < Timing.CLOCK_LIMIT
    ensures Inv(CleanFrame(s, now)) && CleanFrame(s, now).history == s.history
  {
    var all := Stamps(s.history);
    WindowSorted(all, s.cleared, now);
    ClearedIsWindow(s.frame, s.framed, now);
    WindowTwice(all, s.cleared, now);
  }

  lemma {:induction false} OfMissing(history: seq<Access>, key: bytes)
    requires forall a <- history :: a.key != key
    ensures Of(history, key) == []
  {
    if history != [] {
      assert history[|history| - 1] in history;
      OfMissing(history[..|history| - 1], key);
    }
  }

  lemma StampsPush(history: seq<Access>, a: Access)
    ensures Stamps(history + [a]) == Stamps(history) + [Stamp(a.time, a.isRead)]
  {
    assert (history + [a])[..|history|] == history;
  }

  lemma OfPush(history: seq<Access>, a: Access, key: bytes)
    ensures Of(history + [a], key) == Of(history, key) + if a.key == key then [a] else []
  {
    assert (history + [a])[..|history|] == history;
  }

  lemma OfPushCounts(history: seq<Access>, a: Access, key: bytes)
    ensures Counts(Stamps(Of(history + [a], key)))
            == var before := Counts(Stamps(Of(history, key)));
               if a.key == key then before.Counted(a.isRead) else before
  {
    OfPush(history, a, key);
    if a.key == key {
      StampsPush(Of(history, key), a);
      CountsPush(Stamps(Of(history, key)), Stamp(a.time, a.isRead));
    } else {
      assert Of(history, key) + [] == Of(history, key);
    }
  }

  ghost predicate ByKeyInv(byKey: map<bytes, KeyStat>, history: seq<Access>) {
    && (forall a <- history :: a.key in byKey)
    && (forall key <- byKey :: byKey[key] == Counts(Stamps(Of(history, key))))
  }

  lemma ByKeyPushAt(byKey: map<bytes, KeyStat>, history: seq<Access>, a: Access, key: bytes)
    requires ByKeyInv(byKey, history) && (key in byKey || key == a.key)
    ensures var one := if a.key in byKey then byKey[a.key] else ZERO;
            (if key == a.key then one.Counted(a.isRead) else byKey[key]) == Counts(Stamps(Of(history + [a], key)))
  {
    if key !in byKey {
      OfMissing(history, key);
      assert Counts(Stamps(Of(history, key))) == ZERO;
    }
    OfPushCounts(history, a, key);
  }

  lemma ByKeyPush(byKey: map<bytes, KeyStat>, history: seq<Access>, a: Access)
    requires ByKeyInv(byKey, history)
    ensures var one := if a.key in byKey then byKey[a.key] else ZERO;
            ByKeyInv(byKey[a.key := one.Counted(a.isRead)], history + [a])
  {
    var next := byKey[a.key := (if a.key in byKey then byKey[a.key] else ZERO).Counted(a.isRead)];
    forall key | key in next
      ensures next[key] == Counts(Stamps(Of(history + [a], key)))
    {
      ByKeyPushAt(byKey, history, a, key);
    }
  }

  lemma FramePush(history: seq<Access>, a: Access)
    requires Sorted(Stamps(history), a.time)
    ensures Sorted(Stamps(history + [a]), a.time)
    ensures Window(Stamps(history + [a]), a.time) == Window(Stamps(history), a.time) + [Stamp(a.time, a.isRead)]
  {
    StampsPush(history, a);
    Timing.SinceIsFloor(a.time, a.time);
    WindowPush(Stamps(history), Stamp(a.time, a.isRead), a.time);
  }

  lemma LogKeeps(s: State, now: nat, key: bytes, isRead: bool)
    requires Inv(s) && s.cleared == now < Timing.CLOCK_LIMIT && CleanFrame(s, now) == s
    ensures Inv(Next(s, LogAccess(now, key, isRead)))
  {
    var a := Access(now, key, isRead);
    FramePush(s.history, a);
    StampsPush(s.history, a);
    CountsPush(Stamps(s.history), Stamp(now, isRead));
    CountsPush(s.frame, Stamp(now, isRead));
    ByKeyPush(s.byKey, s.history, a);
  }

  lemma StepKeeps(s: State, e: Event)
    requires Inv(s) && s.cleared <= e.now < Timing.CLOCK_LIMIT
    ensures Inv(Next(s, e)) && Next(s, e).cleared == e.now && s.history <= Next(s, e).history
  {
    ClearKeeps(s, e.now);
    if e.LogAccess? {
      var t := CleanFrame(s, e.now);
      ClearedAgain(t, e.now);
      LogKeeps(t, e.now, e.key, e.isRead);
      assert Next(t, e) == Next(s, e);
    }
  }

  lemma ClearedAgain(t: State, now: nat)
    requires Inv(t) && t.cleared == now < Timing.CLOCK_LIMIT
    ensures CleanFrame(t, now) == t
  {
    WindowSorted(Stamps(t.history), now, now);
    ClearedIsWindow(t.frame, t.framed, now);
    WindowTwice(Stamps(t.history), now, now);
  }

  lemma {:induction false} RunKeeps(s: State, events: seq<Event>)
    requires Inv(s) && ValidRun(s, events)
    ensures Inv(Run(s, events)) && s.cleared <= Run(s, events).cleared && s.history <= Run(s, events).history
    decreases |events|
  {
    if events != [] {
      RunKeeps(s, events[..|events| - 1]);
      StepKeeps(Run(s, events[..|events| - 1]), events[|events| - 1]);
    }
  }

  /** What a report reads after dropping and retaking the lock is one consistent state: all totals, and the window
      as of some moment not before the report's own clearing. */
  lemma ReportConsistent(s: State, events: seq<Event>)
    requires Inv(s) && ValidRun(s, events)
    ensures var t := Run(s, events);
            && s.cleared <= t.cleared && s.history <= t.history
            && t.global == Counts(Stamps(t.history))
            && t.framed == Counts(Window(Stamps(t.history), t.cleared))
            && |t.frame| <= |t.history| == |Stamps(t.history)|
            && t.frame == Stamps(t.history)[|t.history| - |t.frame|..]
  {
    RunKeeps(s, events);
    var t := Run(s, events);
    StampsLength(t.history);
    WindowIsSuffix(Stamps(t.history), t.cleared);
  }

  lemma {:induction false} StampsLength(history: seq<Access>)
    ensures |Stamps(history)| == |history|
  {
    if history != [] {
      StampsLength(history[..|history| - 1]);
    }
  }

  // ---------------------------------------------------------------- conservation

  function Part(k: KeyStat, isRead: bool): nat {
    if isRead then k.nread else k.nwrite
  }

  function Sum(order: seq<bytes>, byKey: map<bytes, KeyStat>, isRead: bool): nat
    requires forall k <- order :: k in byKey
  {
    if order == [] then 0
    else
      Part(byKey[order[0]], isRead) + Sum(order[1..], byKey, isRead)
  }

  function CountAll(order: seq<bytes>, history: seq<Access>, isRead: bool): nat {
    if order == [] then 0 else Count(Stamps(Of(history, order[0])), isRead) + CountAll(order[1..], history, isRead)
  }

  lemma {:induction false} CountAllNothing(order: seq<bytes>, isRead: bool)
    ensures CountAll(order, [], isRead) == 0
  {
    if order != [] {
      CountAllNothing(order[1..], isRead);
    }
  }

  lemma CountOfPush(history: seq<Access>, a: Access, key: bytes, isRead: bool)
    ensures Count(Stamps(Of(history + [a], key)), isRead)
            == Count(Stamps(Of(history, key)), isRead) + if a.key == key && a.isRead == isRead then 1 else 0
  {
    OfPush(history, a, key);
    if a.key == key {
      StampsPush(Of(history, key), a);
      CountPush(Stamps(Of(history, key)), Stamp(a.time, a.isRead), isRead);
    } else {
      assert Of(history, key) + [] == Of(history, key);
    }
  }

  lemma HeadOrTail(order: seq<bytes>, key: bytes)
    requires order != [] && forall i, j | 0 <= i < j < |order| :: order[i] != order[j]
    ensures key in order <==> key == order[0] || key in order[1..]
    ensures order[0] !in order[1..]
  {
    assert order == [order[0]] + order[1..];
  }

  /** One more access counts once, under its own key. */
  lemma {:induction false} CountAllPush(order: seq<bytes>, history: seq<Access>, a: Access, isRead: bool)
    requires forall i, j | 0 <= i < j < |order| :: order[i] != order[j]
    ensures CountAll(order, history + [a], isRead)
            == CountAll(order, history, isRead) + if a.key in order && a.isRead == isRead then 1 else 0
    decreases |order|
  {
    if order != [] {
      var rest := order[1..];
      CountOfPush(history, a, order[0], isRead);
      CountAllPush(rest, history, a, isRead);
      HeadOrTail(order, a.key);
    }
  }

  lemma {:induction false} CountAllIsCount(order: seq<bytes>, history: seq<Access>, isRead: bool)
    requires forall i, j | 0 <= i < j < |order| :: order[i] != order[j]
    requires forall a <- history :: a.key in order
    ensures CountAll(order, history, isRead) == Count(Stamps(history), isRead)
    decreases |history|
  {
    if history == [] {
      CountAllNothing(order, isRead);
    } else {
      var front, last := history[..|history| - 1], history[|history| - 1];
      assert history == front + [last] && last in history;
      CountAllIsCount(order, front, isRead);
      CountAllPush(order, front, last, isRead);
      CountPush(Stamps(front), Stamp(last.time, last.isRead), isRead);
    }
  }

  lemma AddWraps(n: nat, a: nat, b: nat, x: nat, y: nat)
    requires a % U32_LIMIT == b % U32_LIMIT
    requires x == n % U32_LIMIT + a && y == n + b
    ensures x % U32_LIMIT == y % U32_LIMIT
  {
  }

  lemma SumHead(order: seq<bytes>, byKey: map<bytes, KeyStat>, history: seq<Access>, isRead: bool)
    requires ByKeyInv(byKey, history) && (forall k <- order :: k in byKey) && order != []
    ensures forall k <- order[1..] :: k in byKey
    ensures Sum(order, byKey, isRead)
            == Count(Stamps(Of(history, order[0])), isRead) % U32_LIMIT + Sum(order[1..], byKey, isRead)
  {
    assert order[0] in byKey;
    PartIsCount(Stamps(Of(history, order[0])), isRead);
  }

  lemma PartIsCount(frame: seq<Stamp>, isRead: bool)
    ensures Part(Counts(frame), isRead) == Count(frame, isRead) % U32_LIMIT
  {
  }

  lemma {:induction false} SumIsCountAll(order: seq<bytes>, byKey: map<bytes, KeyStat>,
                                         history: seq<Access>, isRead: bool)
    requires ByKeyInv(byKey, history) && forall k <- order :: k in byKey
    ensures Sum(order, byKey, isRead) % U32_LIMIT == CountAll(order, history, isRead) % U32_LIMIT
    decreases |order|
  {
    if order != [] {
      SumHead(order, byKey, history, isRead);
      SumIsCountAll(order[1..], byKey, history, isRead);
      AddWraps(Count(Stamps(Of(history, order[0])), isRead),
               Sum(order[1..], byKey, isRead), CountAll(order[1..], history, isRead),
               Sum(order, byKey, isRead), CountAll(order, history, isRead));
    }
  }

  /** At every lock release, and whatever wrapped around, the totals are the sums of the totals by key. */
  lemma TotalsAreSums(s: State, order: seq<bytes>)
    requires Inv(s)
    requires forall i, j | 0 <= i < j < |order| :: order[i] != order[j]
    requires forall k :: k in order <==> k in s.byKey
    ensures s.global.nread == Sum(order, s.byKey, true) % U32_LIMIT
    ensures s.global.nwrite == Sum(order, s.byKey, false) % U32_LIMIT
  {
    SumIsCountAll(order, s.byKey, s.history, true);
    SumIsCountAll(order, s.byKey, s.history, false);
    CountAllIsCount(order, s.history, true);
    CountAllIsCount(order, s.history, false);
  }

  // ---------------------------------------------------------------- the class

  class TStat {
    var byKey: map<bytes, KeyStat>
    var global: KeyStat
    var framed: KeyStat
    var frame: seq<Stamp>
    ghost var history: seq<Access>
    ghost var cleared: nat

    ghost function Now(): State
      reads this
    {
      State(byKey, global, framed, frame, history, cleared)
    }

    constructor ()
      ensures Now() == START && Inv(Now())
    {
      byKey, global, framed, frame := map[], ZERO, ZERO, [];
      history, cleared := [], 0;
    }

    /** Called with the lock held; `now` was read under it. */
    method ClearStatFrame(now: nat)
      modifies this
      ensures Now() == CleanFrame(old(Now()), now)
    {
      while frame != []
        invariant Cleared(frame, framed, now) == Cleared(old(frame), old(framed), now)
        invariant Now() == old(Now()).(frame := frame, framed := framed)
        decreases |frame|
      {
        var front := frame[0];
        var diff := Timing.Timestamp(now).Since(Timing.Timestamp(front.time));
        if diff.Less(FRAME_DURATION) {
          break;
        }
        frame := frame[1..];
        framed := framed.Uncounted(front.isRead);
      }
      cleared := now;
    }

    method LogAccess(key: bytes, isRead: bool, now: nat)
      modifies this
      ensures Now() == Next(old(Now()), Event.LogAccess(now, key, isRead))
      ensures history == old(history) + [Access(now, key, isRead)] && cleared == now
    {
      ClearStatFrame(now);
      var one := if key in byKey then byKey[key] else ZERO;
      byKey := byKey[key := one.Counted(isRead)];
      global := global.Counted(isRead);
      framed := framed.Counted(isRead);
      frame := frame + [Stamp(now, isRead)];
      history := history + [Access(now, key, isRead)];
    }

    /** What other threads do under the lock, one after another. */
    method Others(events: seq<Event>)
      requires ValidRun(Now(), events)
      modifies this
      ensures Now() == Run(old(Now()), events)
      decreases |events|
    {
      if events == [] {
        return;
      }
      Others(events[..|events| - 1]);
      match events[|events| - 1] {
        case LogAccess(now, key, isRead) => LogAccess(key, isRead, now);
        case Clear(now) => ClearStatFrame(now);
      }
    }

    /** Clears under the exclusive lock and reads under the shared lock taken anew; `others` come in between. What it
        reads are the counts over one history, and over its window at a moment not before the report's own. */
    method ReportGlobalStat(now: nat, others: seq<Event>) returns (globalStat: KeyStat, frameStat: KeyStat)
      requires Inv(Now()) && cleared <= now < Timing.CLOCK_LIMIT
      requires ValidRun(Next(Now(), Clear(now)), others)
      modifies this
      ensures Inv(Now()) && Now() == Run(Next(old(Now()), Clear(now)), others)
      ensures globalStat == Counts(Stamps(history)) && old(history) <= history
      ensures frameStat == Counts(Window(Stamps(history), cleared)) && now <= cleared
    {
      StepKeeps(Now(), Clear(now));
      ClearStatFrame(now);
      ReportConsistent(Now(), others);
      RunKeeps(Now(), others);
      Others(others);
      globalStat := global;
      frameStat := framed;
    }
  }
}
