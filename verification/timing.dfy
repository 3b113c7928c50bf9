/** Steady-clock timestamps in nanoseconds, durations in whole microseconds, and the periodic task built on them. */
module Timing {
  const U64_LIMIT := 0x1_0000_0000_0000_0000
  /** `steady_clock` counts nanoseconds in a signed 64-bit integer. */
  const CLOCK_LIMIT := 0x8000_0000_0000_0000

  type u64 = x: int | 0 <= x < U64_LIMIT

  /** Conversion to an unsigned 64-bit integer. */
  function ToU64(n: int): u64 {
    n % U64_LIMIT
  }

  /** Integer division as the source's: towards zero. */
  function Truncate(n: int, d: nat): int
    requires d > 0
  {
    if n >= 0 then n / d else -(-n / d)
  }

  datatype Duration = Duration(microseconds: u64) {
    function Minus(other: Duration): Duration {
      Duration(ToU64(microseconds - other.microseconds))
    }

    predicate Less(other: Duration) {
      microseconds < other.microseconds
    }
  }

  datatype Timestamp = Timestamp(nanos: int) {
    function Since(previous: Timestamp): Duration {
      Duration(ToU64(Truncate(nanos - previous.nanos, 1000)))
    }

    function Microseconds(): u64 {
      ToU64(Truncate(nanos, 1000))
    }
  }

  function FromMicroseconds(us: u64): Timestamp {
    Timestamp(us * 1000)
  }

  /** On a clock that does not go back, the difference is the elapsed time rounded down, with no wrap. */
  lemma SinceIsFloor(now: int, previous: int)
    requires 0 <= previous <= now < 0x8000_0000_0000_0000
    ensures now < CLOCK_LIMIT
    ensures Timestamp(now).Since(Timestamp(previous)).microseconds == (now - previous) / 1000
    ensures Timestamp(now).Microseconds() == now / 1000
  {
  }

  /** Since a stored time: rounding twice loses nothing, because a stored time is a whole number of microseconds. */
  lemma SinceStored(now: int, us: u64)
    requires 0 <= us * 1000 <= now < CLOCK_LIMIT
    ensures Timestamp(now).Since(FromMicroseconds(us)).microseconds == now / 1000 - us
  {
    SinceIsFloor(now, us * 1000);
  }

  /** The clock and the scheduler: time passes by an unknown amount, at least as much as was slept. */
  class Clock {
    var last: nat
    /** Microseconds slept so far. */
    ghost var slept: nat

    ghost predicate Valid()
      reads this
    {
      last < CLOCK_LIMIT
    }

    constructor ()
      ensures Valid() && last == 0 && slept == 0
    {
      last, slept := 0, 0;
    }

    method Now() returns (now: Timestamp)
      requires Valid()
      modifies this
      ensures Valid() && last >= old(last) && now == Timestamp(last) && slept == old(slept)
    {
      var t: int := *;
      if last <= t < CLOCK_LIMIT {
        last := t;
      }
      now := Timestamp(last);
    }

    method SleepFor(us: nat)
      requires Valid() && last + us * 1000 < CLOCK_LIMIT
      modifies this
      ensures Valid() && last >= old(last) + us * 1000 && slept == old(slept) + us
    {
      slept := slept + us;
      var t: int := *;
      last := last + us * 1000;
      if last <= t < CLOCK_LIMIT {
        last := t;
      }
    }
  }

  /** The times at which a task ran: whole microseconds at least a period apart. */
  ghost predicate Spaced(runs: seq<nat>, period: nat) {
    forall i | 0 < i < |runs| :: runs[i] / 1000 - runs[i - 1] / 1000 >= period
  }

  /** `k` periods lie between runs `k` apart in stored time, and all but a microsecond of them in real time. */
  lemma {:induction false} SpacedSpan(runs: seq<nat>, period: nat, i: nat, j: nat)
    requires Spaced(runs, period) && i <= j < |runs|
    ensures runs[j] / 1000 - runs[i] / 1000 >= (j - i) * period
    ensures runs[j] - runs[i] > (j - i) * period * 1000 - 1000
    decreases j - i
  {
    if i < j {
      SpacedSpan(runs, period, i, j - 1);
      assert (j - i) * period == (j - 1 - i) * period + period;
    }
  }

  class TimedTask {
    const period: Duration
    var execTime: u64
    ghost var runs: seq<nat>

    ghost predicate Valid()
      reads this
    {
      && Spaced(runs, period.microseconds)
      && (forall t <- runs :: t < CLOCK_LIMIT)
      && execTime == if runs == [] then 0 else runs[|runs| - 1] / 1000
    }

    /** The clock is past the last run, and the next one is still a time it can show. */
    ghost predicate InTime(clock: Clock)
      reads this, clock
    {
      && clock.Valid()
      && (runs != [] ==> runs[|runs| - 1] <= clock.last)
      && (execTime + period.microseconds + 1) * 1000 < CLOCK_LIMIT
    }

    constructor (period: Duration)
      ensures Valid() && runs == [] && this.period == period
    {
      this.period := period;
      execTime := 0;
      runs := [];
    }

    ghost method NoteRun(now: nat)
      requires Valid() && now < CLOCK_LIMIT && now / 1000 - execTime >= period.microseconds
      modifies this`runs
      ensures runs == old(runs) + [now] && Spaced(runs, period.microseconds)
      ensures forall t <- runs :: t < CLOCK_LIMIT
    {
      runs := runs + [now];
    }

    /** Waits for the period to pass, then runs the task. It sleeps exactly if at the first reading, `first`, the last
        run is less than a period ago, once, and for what is missing. */
    method Exec(clock: Clock) returns (sleeps: nat, ghost first: nat)
      requires Valid() && InTime(clock)
      modifies this, clock
      ensures Valid() && clock.Valid() && runs == old(runs) + [clock.last]
      ensures old(clock.last) <= first <= clock.last
      ensures var age := first / 1000 - old(execTime);
              if age < period.microseconds
              then sleeps == 1 && clock.slept == old(clock.slept) + (period.microseconds - age)
              else sleeps == 0 && clock.slept == old(clock.slept) && clock.last == first
    {
      var now := clock.Now();
      var stored := FromMicroseconds(execTime);
      var diff := now.Since(stored);
      SinceStored(clock.last, execTime);
      sleeps, first := 0, clock.last;
      ghost var age := diff.microseconds;
      while diff.Less(period)
        invariant Valid() && InTime(clock) && runs == old(runs) && execTime == old(execTime)
        invariant now == Timestamp(clock.last) && first <= clock.last
        invariant diff.microseconds == clock.last / 1000 - execTime
        invariant sleeps == 0 ==> clock.slept == old(clock.slept) && clock.last == first
        invariant sleeps > 0 ==> sleeps == 1 && !diff.Less(period) && age < period.microseconds
                                 && clock.slept == old(clock.slept) + (period.microseconds - age)
        decreases if diff.Less(period) then 1 else 0
      {
        var sleepTime := period.Minus(diff);
        assert sleepTime.microseconds == period.microseconds - diff.microseconds;
        clock.SleepFor(sleepTime.microseconds);
        now := clock.Now();
        diff := now.Since(stored);
        SinceStored(clock.last, execTime);
        sleeps := sleeps + 1;
      }
      SinceIsFloor(clock.last, 0);
      NoteRun(clock.last);
      execTime := now.Microseconds();
    }

    /** Runs the task if the period has passed at the one reading `at`, else only waits a little. */
    method ExecOptional(clock: Clock) returns (ran: bool, ghost at: nat)
      requires Valid() && InTime(clock)
      requires (execTime + period.microseconds + 1) * 1000 + 100_000_000 < CLOCK_LIMIT
      modifies this, clock
      ensures Valid() && clock.Valid() && old(clock.last) <= at <= clock.last
      ensures ran <==> at / 1000 - old(execTime) >= period.microseconds
      ensures runs == if ran then old(runs) + [at] else old(runs)
      ensures clock.slept == old(clock.slept) + (if ran then 0 else 100_000)
    {
      var now := clock.Now();
      at := clock.last;
      var diff := now.Since(FromMicroseconds(execTime));
      SinceStored(clock.last, execTime);
      ran := !diff.Less(period);
      if !ran {
        clock.SleepFor(100_000);
      } else {
        SinceIsFloor(clock.last, 0);
        NoteRun(clock.last);
        execTime := now.Microseconds();
      }
    }
  }
}
