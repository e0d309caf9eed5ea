/** The time limit of the client's poll loop (`polling_timeout_handler.cpp`). */
module Polling {

  function Min(a: nat, b: nat): nat {
    if a <= b then a else b
  }

  /** How long Wait sleeps when it finds `passed` nanoseconds gone: one interval, or up to the timeout. */
  function SleepTime(timeout: nat, interval: nat, passed: nat): nat
    requires passed <= timeout
  {
    Min(interval, timeout - passed)
  }

  function CeilDiv(a: nat, b: nat): nat
    requires b > 0
  {
    (a + b - 1) / b
  }

  /** The clock readings of consecutive calls of Wait that all answered true: each comes at least the
      requested sleep after the one before. With `strict` the clock moves between any two readings, the
      one that started the handler included. */
  ghost predicate Schedule(start: nat, timeout: nat, interval: nat, readings: seq<nat>, strict: bool) {
    && (forall k | 0 <= k < |readings| ::
          start <= readings[k] <= start + timeout && (strict ==> start < readings[k]))
    && (forall i, j | 0 <= i && j == i + 1 && j < |readings| ::
          && readings[i] + SleepTime(timeout, interval, readings[i] - start) <= readings[j]
          && (strict ==> readings[i] < readings[j]))
  }

  lemma {:induction false} ReadingsAdvance(start: nat, timeout: nat, interval: nat, readings: seq<nat>, k: nat)
    requires Schedule(start, timeout, interval, readings, true) && k < |readings|
    ensures readings[k] - start >= Min(1 + k * interval, timeout)
  {
    if k > 0 {
      ReadingsAdvance(start, timeout, interval, readings, k - 1);
      assert readings[k - 1] + SleepTime(timeout, interval, readings[k - 1] - start) <= readings[k];
      assert (k - 1) * interval + interval == k * interval;
    } else {
      assert k * interval == 0;
    }
  }

  /** CeilDiv(a, b) is the number of multiples of b, from 0 on, that are less than a. */
  lemma CeilCounts(k: nat, a: nat, b: nat)
    requires b > 0
    ensures k < CeilDiv(a, b) <==> k * b < a
  {
    var q := CeilDiv(a, b);
    assert a <= q * b < a + b;
    Monotone(q, k, b);
    Monotone(k + 1, q, b);
  }

  lemma Monotone(x: nat, y: nat, b: nat)
    ensures x <= y ==> x * b <= y * b
  {
  }

  /** How often Wait can answer true: right after the start, then once an interval, and at the deadline. */
  function MaxWaits(timeout: nat, interval: nat): nat
    requires interval > 0
  {
    if timeout == 0 then 0 else CeilDiv(timeout - 1, interval) + 1
  }

  /** However the server answers, the loop waits no more often than that, and so never more often than
      ceil(timeout / interval) + 1 times. */
  lemma WaitsAreBounded(start: nat, timeout: nat, interval: nat, readings: seq<nat>)
    requires interval > 0 && Schedule(start, timeout, interval, readings, true)
    ensures |readings| <= MaxWaits(timeout, interval) <= CeilDiv(timeout, interval) + 1
  {
    var k := |readings| - 2;
    if k >= 0 {
      ReadingsAdvance(start, timeout, interval, readings, k);
      // The next reading is later and still within the timeout.
      assert readings[k] < readings[k + 1] <= start + timeout;
      CeilCounts(k, timeout - 1, interval);
    } else if k == -1 {
      assert start < readings[0] <= start + timeout;
    }
    if timeout > 0 && CeilDiv(timeout - 1, interval) > 0 {
      var q := CeilDiv(timeout - 1, interval) - 1;
      CeilCounts(q, timeout - 1, interval);
      CeilCounts(q, timeout, interval);
    }
  }

  /** The earliest reading that wait number k can have. */
  function TightReading(start: nat, timeout: nat, interval: nat, k: nat): nat {
    start + Min(1 + k * interval, timeout)
  }

  lemma TightStep(start: nat, timeout: nat, interval: nat, k: nat)
    requires interval > 0 && k + 1 < MaxWaits(timeout, interval)
    ensures var r, r' := TightReading(start, timeout, interval, k), TightReading(start, timeout, interval, k + 1);
      r < r' && r + SleepTime(timeout, interval, r - start) == r'
  {
    hide CeilDiv;
    CeilCounts(k, timeout - 1, interval);
    assert k * interval + interval == (k + 1) * interval;
  }

  /** No smaller bound holds, for any timeout and interval: a clock that moves exactly as far as it is
      asked to, and by 1 ns where nothing is asked of it, lets Wait answer true that often. */
  lemma BoundIsTight(start: nat, timeout: nat, interval: nat) returns (readings: seq<nat>)
    requires interval > 0
    ensures Schedule(start, timeout, interval, readings, true) && |readings| == MaxWaits(timeout, interval)
  {
    hide MaxWaits, TightReading, SleepTime;
    readings := seq(MaxWaits(timeout, interval), (k: nat) => TightReading(start, timeout, interval, k));
    forall k | 0 <= k < |readings| ensures start < readings[k] <= start + timeout {
      TightWithin(start, timeout, interval, k);
    }
    forall i, j | 0 <= i && j == i + 1 && j < |readings|
      ensures readings[i] + SleepTime(timeout, interval, readings[i] - start) == readings[j]
      ensures readings[i] < readings[j]
    {
      TightStep(start, timeout, interval, i);
    }
  }

  lemma TightWithin(start: nat, timeout: nat, interval: nat, k: nat)
    requires interval > 0 && k < MaxWaits(timeout, interval)
    ensures start < TightReading(start, timeout, interval, k) <= start + timeout
  {
    assert k * interval >= 0;
  }

  /** It does need a clock that moves between readings: one that stands still when the timeout has just
      passed allows any number of waits, because the comparison with the timeout is strict. */
  lemma StalledClockNeverTimesOut(start: nat, timeout: nat, interval: nat, n: nat)
    ensures Schedule(start, timeout, interval, seq(n, _ => start + timeout), false)
  {
  }

  /** The system clock as the client sees it: it moves between any two readings, and at least as far as
      it is asked to sleep. */
  class Clock {
    var now: nat
    var latest: nat  // reading
    ghost var sleeps: seq<nat>  // as long as was asked for

    method Read() returns (t: nat)
      modifies this`now, this`latest
      ensures old(now) <= now == t == latest && old(latest) < t
    {
      var passed: nat :| latest < now + passed;
      now := now + passed;
      latest, t := now, now;
    }

    method Sleep(ns: nat)
      modifies this`now, this`sleeps
      ensures old(now) + ns <= now && sleeps == old(sleeps) + [ns]
    {
      var extra: nat :| 0 <= extra;
      now := now + ns + extra;
      sleeps := sleeps + [ns];
    }
  }

  lemma ScheduleExtends(start: nat, timeout: nat, interval: nat, readings: seq<nat>, now: nat)
    requires Schedule(start, timeout, interval, readings, true) && start < now <= start + timeout
    requires readings != [] ==>
      var last := readings[|readings| - 1];
      last < now && last + SleepTime(timeout, interval, last - start) <= now
    ensures Schedule(start, timeout, interval, readings + [now], true)
  {
  }

  lemma StartsWithin(start: nat, timeout: nat, interval: nat, readings: seq<nat>)
    requires Schedule(start, timeout, interval, readings, true)
    ensures readings != [] ==> start <= readings[|readings| - 1] <= start + timeout
  {
  }

  class PollingTimeoutHandler {
    const start: nat
    const timeout: nat
    const interval: nat
    ghost var readings: seq<nat>  // of the waits that have answered true

    ghost predicate Valid(clock: Clock)
      reads this, clock
    {
      && Schedule(start, timeout, interval, readings, true) && start <= clock.latest && start <= clock.now
      && (readings != [] ==>
            var last := readings[|readings| - 1];
            && last <= clock.latest
            && last + SleepTime(timeout, interval, last - start) <= clock.now)
    }

    constructor (clock: Clock, timeout: nat, interval: nat)
      modifies clock
      ensures Valid(clock) && readings == []
      ensures old(clock.now) <= start == clock.now == clock.latest
      ensures this.timeout == timeout && this.interval == interval
    {
      var now := clock.Read();
      start, this.timeout, this.interval := now, timeout, interval;
      readings := [];
    }

    /** Neither subtraction of unsigned numbers can wrap: `passed` and `timeout - passed` are natural. It
        sleeps once, for one interval or up to the deadline if that comes first, and answers false, without
        a sleep, exactly when the deadline has passed. */
    method Wait(clock: Clock) returns (goOn: bool, ghost reading: nat, ghost slept: nat)
      requires Valid(clock)
      modifies clock, this`readings
      ensures Valid(clock) && old(clock.now) <= reading <= clock.now && old(clock.latest) < reading == clock.latest
      ensures goOn <==> reading <= start + timeout
      ensures goOn ==> reading + slept <= start + timeout && reading + slept <= clock.now
      ensures goOn ==> slept <= interval && (slept == interval || reading + slept == start + timeout)
      ensures clock.sleeps == if goOn then old(clock.sleeps) + [slept] else old(clock.sleeps)
      ensures readings == if goOn then old(readings) + [reading] else old(readings)
    {
      hide Schedule;
      StartsWithin(start, timeout, interval, readings);
      var now := clock.Read();
      reading, slept := now, 0;
      var passed: nat := now - start;
      if passed > timeout {
        return false, reading, slept;
      }
      var left: nat := timeout - passed;
      var sleep := Min(interval, left);
      slept := sleep;
      ScheduleExtends(start, timeout, interval, readings, now);
      readings := readings + [now];
      clock.Sleep(sleep);
      goOn := true;
    }
  }
}
