/** Waiting for a process variable to take a value (`process_variable.cpp`, `process_variable_utils.cpp`):
    a waiter and the callbacks of a monitor thread meet at a flag under a mutex. */
module VariableWait {
  import opened Values
  import Polling

  // ----- the handshake as a state machine

  /** Where the waiter is: about to check the flag under the lock, between releasing the lock and reading
      the variable, or done. */
  datatype Phase = Waiting | Reading | Done(result: bool)

  /** `variable` is None while unavailable; the two counters count reads and connected callbacks. */
  datatype State = State(flag: bool, phase: Phase, variable: Option<AnyValue>, fetches: nat, connected: nat)

  datatype Event =
    | Change(variable: Option<AnyValue>)
    | Callback(connected: bool)  // takes the lock and sets the flag
    | Wake                       // the waiter, holding the lock, checks the flag
    | TimeOut                    // the same once the deadline has passed
    | Read                       // the waiter, not holding the lock, reads the variable

  function Initially(variable: Option<AnyValue>): State {
    State(true, Waiting, variable, 0, 0)
  }

  function Step(expected: AnyValue, s: State, ev: Event): State {
    match ev
    case Change(variable) => s.(variable := variable)
    case Callback(connected) =>
      s.(flag := connected, connected := if connected then s.connected + 1 else s.connected)
    case Wake =>
      if s.phase.Waiting? && s.flag then s.(flag := false, phase := Reading) else s
    case TimeOut =>
      if !s.phase.Waiting? then s
      else if s.flag then s.(flag := false, phase := Reading)
      else s.(phase := Done(false))
    case Read =>
      if !s.phase.Reading? then s
      else s.(fetches := s.fetches + 1, phase := if s.variable == Some(expected) then Done(true) else Waiting)
  }

  function At(expected: AnyValue, s: State, evs: seq<Event>, i: nat): State
    requires i <= |evs|
  {
    if i == 0 then s else Step(expected, At(expected, s, evs, i - 1), evs[i - 1])
  }

  lemma {:induction false} AtPrefix(expected: AnyValue, s: State, a: seq<Event>, b: seq<Event>, i: nat)
    requires i <= |a|
    ensures At(expected, s, a + b, i) == At(expected, s, a, i)
  {
    if i > 0 { AtPrefix(expected, s, a, b, i - 1); }
  }

  /** The variable is read at most once per connected callback, plus once at the start. */
  lemma {:induction false} ReadsAreBounded(expected: AnyValue, v: Option<AnyValue>, evs: seq<Event>, i: nat)
    requires i <= |evs|
    ensures var s := At(expected, Initially(v), evs, i);
      s.fetches + (if s.flag then 1 else 0) + (if s.phase.Reading? then 1 else 0) <= 1 + s.connected
  {
    if i > 0 { ReadsAreBounded(expected, v, evs, i - 1); }
  }

  /** The wait succeeds only on a read that found the variable available with the expected value. */
  lemma {:induction false} SuccessIsARead(expected: AnyValue, v: Option<AnyValue>, evs: seq<Event>, i: nat)
    returns (k: nat)
    requires i <= |evs| && At(expected, Initially(v), evs, i).phase == Done(true)
    ensures k < i && evs[k].Read?
    ensures At(expected, Initially(v), evs, k).phase.Reading?
    ensures At(expected, Initially(v), evs, k).variable == Some(expected)
  {
    if At(expected, Initially(v), evs, i - 1).phase == Done(true) {
      k := SuccessIsARead(expected, v, evs, i - 1);
    } else {
      k := i - 1;
    }
  }

  /** After event c the variable no longer changes and no callback says "disconnected". */
  predicate SettledAfter(evs: seq<Event>, c: nat, j: nat)
    requires j <= |evs|
  {
    forall k | c < k < j :: !evs[k].Change? && evs[k] != Callback(false)
  }

  /** No wake-up is lost: if the variable has settled on the expected value when its last callback takes
      the lock, and the waiter has not given up before that, the waiter cannot give up any more. Either
      the flag is set, or the waiter is between its reset of the flag and a read that will succeed. */
  lemma {:induction false} NoLostWakeUp(expected: AnyValue, v: Option<AnyValue>, evs: seq<Event>, c: nat, j: nat)
    requires c < j <= |evs| && evs[c] == Callback(true) && SettledAfter(evs, c, j)
    requires var s := At(expected, Initially(v), evs, c); s.variable == Some(expected) && s.phase != Done(false)
    ensures var s := At(expected, Initially(v), evs, j);
      && s.variable == Some(expected) && s.phase != Done(false)
      && (s.phase.Waiting? ==> s.flag)
  {
    if c + 1 < j { NoLostWakeUp(expected, v, evs, c, j - 1); }
  }

  lemma {:induction false} DoneStays(expected: AnyValue, s: State, evs: seq<Event>, i: nat, j: nat)
    requires i <= j <= |evs| && At(expected, s, evs, i).phase.Done?
    ensures At(expected, s, evs, j).phase == At(expected, s, evs, i).phase
  {
    if i < j { DoneStays(expected, s, evs, i, j - 1); }
  }

  /** Once awake, the waiter does not go back to waiting: it succeeds with its next read. */
  lemma {:induction false} AwakeUntilRead(expected: AnyValue, v: Option<AnyValue>, evs: seq<Event>,
                                          c: nat, a: nat, j: nat)
    requires c < a < j <= |evs| && evs[c] == Callback(true) && SettledAfter(evs, c, j)
    requires var s := At(expected, Initially(v), evs, c); s.variable == Some(expected) && s.phase != Done(false)
    requires evs[a].Wake? || evs[a].TimeOut?
    ensures !At(expected, Initially(v), evs, j).phase.Waiting?
  {
    NoLostWakeUp(expected, v, evs, c, j - 1);
    if a + 1 < j { AwakeUntilRead(expected, v, evs, c, a, j - 1); }
  }

  /** And it does return true: one check of the flag and one read later the wait has succeeded, even if
      that check is the last one, at the deadline. */
  lemma SettledWaitSucceeds(expected: AnyValue, v: Option<AnyValue>, evs: seq<Event>, c: nat, a: nat, b: nat, j: nat)
    requires c < a < b < j <= |evs| && evs[c] == Callback(true) && SettledAfter(evs, c, j)
    requires var s := At(expected, Initially(v), evs, c); s.variable == Some(expected) && s.phase != Done(false)
    requires (evs[a].Wake? || evs[a].TimeOut?) && evs[b].Read?
    ensures At(expected, Initially(v), evs, j).phase == Done(true)
  {
    AwakeUntilRead(expected, v, evs, c, a, b);
    NoLostWakeUp(expected, v, evs, c, b);
    NoLostWakeUp(expected, v, evs, c, j);
    DoneStays(expected, Initially(v), evs, b + 1, j);
  }

  /** It has to be the last callback: a stale "disconnected" that takes the lock after it clears the flag,
      and the wait fails although the variable is available with the expected value. */
  lemma StaleCallbackLosesTheWakeUp(expected: AnyValue)
    ensures var evs := [Wake, Read, Change(Some(expected)), Callback(true), Callback(false), TimeOut];
      var s := At(expected, Initially(None), evs, 6);
      s.phase == Done(false) && s.variable == Some(expected)
  {
    var evs := [Wake, Read, Change(Some(expected)), Callback(true), Callback(false), TimeOut];
    var start := Initially(None);
    assert At(expected, start, evs, 1) == start.(flag := false, phase := Reading);
    assert At(expected, start, evs, 2) == State(false, Waiting, None, 1, 0);
    assert At(expected, start, evs, 3) == State(false, Waiting, Some(expected), 1, 0);
    assert At(expected, start, evs, 4) == State(true, Waiting, Some(expected), 1, 1);
    assert At(expected, start, evs, 5) == State(false, Waiting, Some(expected), 1, 1);
    assert At(expected, start, evs, 6) == State(false, Done(false), Some(expected), 1, 1);
  }

  // ----- exactly when the wait fails

  /** At event k the waiter, checking the flag, went on to read. */
  predicate GoesOnToRead(expected: AnyValue, v: Option<AnyValue>, evs: seq<Event>, k: nat)
    requires k < |evs|
  {
    At(expected, Initially(v), evs, k).phase.Waiting? && At(expected, Initially(v), evs, k + 1).phase.Reading?
  }

  /** Events from..j-1 do not use up a wake-up: none is a "disconnected" callback or goes on to read. */
  ghost predicate NotUsedUp(expected: AnyValue, v: Option<AnyValue>, evs: seq<Event>, from: nat, j: nat)
    requires from <= j <= |evs|
  {
    forall k | from <= k < j :: evs[k] != Callback(false) && !GoesOnToRead(expected, v, evs, k)
  }

  /** The waiter has something to look at: its first read, or a "connected" callback, not used up yet. */
  ghost predicate WakeUpPending(expected: AnyValue, v: Option<AnyValue>, evs: seq<Event>, j: nat)
    requires j <= |evs|
  {
    || NotUsedUp(expected, v, evs, 0, j)
    || exists c :: 0 <= c < j && evs[c] == Callback(true) && NotUsedUp(expected, v, evs, c + 1, j)
  }

  /** What one more event does to a pending wake-up. */
  lemma PendingStep(expected: AnyValue, v: Option<AnyValue>, evs: seq<Event>, j: nat)
    requires j < |evs|
    ensures WakeUpPending(expected, v, evs, j + 1) <==>
      || evs[j] == Callback(true)
      || (WakeUpPending(expected, v, evs, j) && evs[j] != Callback(false) && !GoesOnToRead(expected, v, evs, j))
  {
    hide GoesOnToRead;
    assert evs[j] == Callback(true) ==> NotUsedUp(expected, v, evs, j + 1, j + 1);
    forall from: nat | from <= j
      ensures NotUsedUp(expected, v, evs, from, j + 1) <==>
        NotUsedUp(expected, v, evs, from, j) && evs[j] != Callback(false) && !GoesOnToRead(expected, v, evs, j)
    {
      NotUsedUpStep(expected, v, evs, from, j);
    }
  }

  lemma NotUsedUpStep(expected: AnyValue, v: Option<AnyValue>, evs: seq<Event>, from: nat, j: nat)
    requires from <= j < |evs|
    ensures NotUsedUp(expected, v, evs, from, j + 1) <==>
      NotUsedUp(expected, v, evs, from, j) && evs[j] != Callback(false) && !GoesOnToRead(expected, v, evs, j)
  {
    hide GoesOnToRead;
    if NotUsedUp(expected, v, evs, from, j + 1) {
      assert evs[j] != Callback(false) && !GoesOnToRead(expected, v, evs, j);
    }
  }

  /** The flag says whether a wake-up is pending, and nothing else. */
  lemma {:induction false} FlagIsWakeUp(expected: AnyValue, v: Option<AnyValue>, evs: seq<Event>, j: nat)
    requires j <= |evs|
    ensures At(expected, Initially(v), evs, j).flag <==> WakeUpPending(expected, v, evs, j)
  {
    if j > 0 {
      hide WakeUpPending;
      FlagIsWakeUp(expected, v, evs, j - 1);
      PendingStep(expected, v, evs, j - 1);
    } else {
      assert NotUsedUp(expected, v, evs, 0, 0);
    }
  }

  /** The waiter, about to check the flag, finds the deadline passed and no wake-up pending. */
  ghost predicate GivesUpAt(expected: AnyValue, v: Option<AnyValue>, evs: seq<Event>, j: nat)
    requires j < |evs|
  {
    && evs[j].TimeOut? && At(expected, Initially(v), evs, j).phase.Waiting?
    && !WakeUpPending(expected, v, evs, j)
  }

  /** At the deadline the wait fails if and only if no wake-up is pending, whatever the variable holds. */
  lemma TimeOutExactly(expected: AnyValue, v: Option<AnyValue>, evs: seq<Event>, j: nat)
    requires j < |evs| && evs[j].TimeOut? && At(expected, Initially(v), evs, j).phase.Waiting?
    ensures At(expected, Initially(v), evs, j + 1).phase == Done(false) <==> !WakeUpPending(expected, v, evs, j)
  {
    FlagIsWakeUp(expected, v, evs, j);
  }

  /** So over a whole run the wait has failed if and only if that has happened somewhere. */
  lemma {:induction false} FailsExactly(expected: AnyValue, v: Option<AnyValue>, evs: seq<Event>, n: nat)
    requires n <= |evs|
    ensures At(expected, Initially(v), evs, n).phase == Done(false)
            <==> exists j :: 0 <= j < n && GivesUpAt(expected, v, evs, j)
  {
    if n > 0 {
      FailsExactly(expected, v, evs, n - 1);
      FlagIsWakeUp(expected, v, evs, n - 1);
      assert GivesUpAt(expected, v, evs, n - 1) ==> At(expected, Initially(v), evs, n).phase == Done(false);
    }
  }

  // ----- the code

  /** The variable and its monitor. Between any two steps of the waiter the variable may change any
      number of times, and pending callbacks may take the lock; the monitor makes finitely many. */
  class MonitoredVariable {
    const expected: AnyValue
    ghost const first: Option<AnyValue>
    var variable: Option<AnyValue>
    var flag: bool
    var pending: nat
    ghost var history: seq<Event>
    ghost var state: State

    ghost predicate Valid()
      reads this
    {
      && state == At(expected, Initially(first), history, |history|)
      && state.flag == flag && state.variable == variable
    }

    constructor (expected: AnyValue, variable: Option<AnyValue>, pending: nat)
      ensures Valid() && state.phase == Waiting && this.expected == expected
      ensures state == Initially(variable) && history == [] && first == variable
    {
      this.expected, first := expected, variable;
      this.variable, flag, this.pending := variable, true, pending;
      history, state := [], Initially(variable);
    }

    ghost method Record(ev: Event)
      requires state == At(expected, Initially(first), history, |history|)
      modifies this`history, this`state
      ensures history == old(history) + [ev] && state == Step(expected, old(state), ev)
      ensures state == At(expected, Initially(first), history, |history|)
    {
      AtPrefix(expected, Initially(first), history, [ev], |history|);
      history, state := history + [ev], Step(expected, state, ev);
    }

    method Interfere()
      requires Valid()
      modifies this
      ensures Valid() && state.phase == old(state.phase) && old(history) <= history
      ensures pending < old(pending) || (pending == old(pending) && flag == old(flag))
    {
      var n: nat :| 0 <= n;
      while n > 0
        invariant Valid() && state.phase == old(state.phase) && old(history) <= history
        invariant pending < old(pending) || (pending == old(pending) && flag == old(flag))
      {
        var called: bool := *;
        if called && pending > 0 {
          flag := *;
          pending := pending - 1;
          Record(Callback(flag));
        } else {
          variable := *;
          Record(Change(variable));
        }
        n := n - 1;
      }
    }

    /** `cv.wait_until(lk, finish, pred)` and the reset of the flag before the lock is released: it waits
        for as long as the flag is not set, may wake up without reason, and looks at the flag once more
        after the deadline. */
    method WaitUntil(clock: Polling.Clock, finish: nat) returns (success: bool)
      requires Valid() && state.phase.Waiting?
      modifies this, clock
      ensures Valid() && old(history) <= history
      ensures old(clock.now) <= clock.now && (!success ==> finish <= clock.now)
      ensures success ==> state.phase.Reading?
      ensures !success ==> state.phase == Done(false)
      ensures success ==> !flag && (pending < old(pending) || (pending == old(pending) && old(flag)))
    {
      Interfere();
      var late := false;
      while !flag && !late
        invariant Valid() && state.phase.Waiting? && old(history) <= history
        invariant old(clock.now) <= clock.now && (late ==> finish <= clock.now)
        invariant pending < old(pending) || (pending == old(pending) && flag == old(flag))
        decreases !late, if clock.latest <= finish then finish + 1 - clock.latest else 0
      {
        var now := clock.Read();
        late := finish <= now;
        Interfere();
      }
      success := flag;
      flag := false;
      Record(if late then TimeOut else Wake);
    }

    method GetValue() returns (value: Option<AnyValue>)
      requires Valid() && state.phase.Reading?
      modifies this
      ensures Valid() && old(history) <= history
      ensures state.phase == if value == Some(expected) then Done(true) else Waiting
      ensures pending < old(pending) || (pending == old(pending) && flag == old(flag))
    {
      Interfere();
      value := variable;
      Record(Read);
    }
  }

  /** The waiter's loop. It is one run of the state machine, so all that is proved of runs applies. */
  method WaitWithCallbacks(v: MonitoredVariable, timeout: nat, clock: Polling.Clock) returns (result: bool)
    requires v.Valid() && v.state.phase.Waiting? && v.history == []
    modifies v, clock
    ensures v.Valid() && v.state.phase == Done(result)
    ensures v.state.fetches <= 1 + v.state.connected
    ensures result ==> exists k :: 0 <= k < |v.history| && v.history[k].Read?
                                   && At(v.expected, Initially(v.first), v.history, k).variable == Some(v.expected)
    ensures !result ==> old(clock.now) + timeout <= clock.now
    ensures !result ==> exists k :: 0 <= k < |v.history| && GivesUpAt(v.expected, v.first, v.history, k)
  {
    var now := clock.Read();
    var finish := now + timeout;
    while true
      invariant v.Valid() && v.state.phase.Waiting?
      invariant old(clock.now) + timeout <= finish
      decreases v.pending, v.flag
    {
      var success := v.WaitUntil(clock, finish);
      if !success {
        ReadsAreBounded(v.expected, v.first, v.history, |v.history|);
        FailsExactly(v.expected, v.first, v.history, |v.history|);
        return false;
      }
      var value := v.GetValue();
      if value == Some(v.expected) {
        ReadsAreBounded(v.expected, v.first, v.history, |v.history|);
        ghost var k := SuccessIsARead(v.expected, v.first, v.history, |v.history|);
        return true;
      }
    }
  }

  // ----- the fallback without callbacks

  const POLL_NS: nat := 50_000_000

  /** Any variable: each read may fail or return any value. */
  class ProcessVariable {
    ghost var fetches: seq<Option<AnyValue>>

    method GetValue() returns (value: Option<AnyValue>)
      modifies this
      ensures fetches == old(fetches) + [value]
    {
      value := *;
      fetches := fetches + [value];
    }
  }

  /** A failed read leaves the previous value in place. */
  function Current(fetches: seq<Option<AnyValue>>): AnyValue {
    if fetches == [] then Empty
    else if fetches[|fetches| - 1].Some? then fetches[|fetches| - 1].value
    else Current(fetches[..|fetches| - 1])
  }

  method TryFetchVariable(v: ProcessVariable, current: AnyValue) returns (fetched: AnyValue)
    modifies v
    ensures |v.fetches| == |old(v.fetches)| + 1 && v.fetches[..|old(v.fetches)|] == old(v.fetches)
    ensures Current(old(v.fetches)) == current ==> fetched == Current(v.fetches)
    ensures var read := v.fetches[|old(v.fetches)|]; fetched == if read.Some? then read.value else current
  {
    var value := v.GetValue();
    assert v.fetches[..|v.fetches| - 1] == old(v.fetches);
    fetched := if value.Some? then value.value else current;
  }

  /** Stops with the first read after which the last known value is the expected one, or once the timeout
      has passed; so there are at most floor(timeout / 50 ms) + 1 fetches after the first. */
  method BusyWaitForValue(v: ProcessVariable, expected: AnyValue, timeout: nat, clock: Polling.Clock)
    returns (result: bool)
    requires v.fetches == []
    modifies v, clock
    ensures v.fetches != [] && (result <==> Current(v.fetches) == expected)
    ensures !expected.Empty? ==> (result <==> v.fetches[|v.fetches| - 1] == Some(expected))
    ensures !expected.Empty? ==> forall k | 0 <= k < |v.fetches| - 1 :: v.fetches[k] != Some(expected)
    ensures expected.Empty? && v.fetches[0].None? ==> result && |v.fetches| == 1
    ensures forall k | 0 < k < |v.fetches| :: Current(v.fetches[..k]) != expected
    ensures |v.fetches| - 1 <= timeout / POLL_NS + 1
    ensures clock.sleeps == old(clock.sleeps) + seq(|v.fetches| - 1, _ => POLL_NS)
    ensures !result ==> old(clock.now) + timeout < clock.now
  {
    var now := clock.Read();
    var end := now + timeout;
    var current := TryFetchVariable(v, Empty);
    assert v.fetches == v.fetches[..|v.fetches|];
    while current != expected
      invariant |v.fetches| > 0 && current == Current(v.fetches)
      invariant forall k | 0 < k < |v.fetches| :: Current(v.fetches[..k]) != expected
      invariant |v.fetches| - 1 <= timeout / POLL_NS + 1
      invariant expected.Empty? && v.fetches[0].None? ==> current == expected && |v.fetches| == 1
      invariant now + (|v.fetches| - 1) * POLL_NS <= clock.now
      invariant clock.sleeps == old(clock.sleeps) + seq(|v.fetches| - 1, _ => POLL_NS)
      decreases if clock.latest <= end then end + 1 - clock.latest else 0
    {
      var reading := clock.Read();
      if reading > end {
        if !expected.Empty? { LatestRead(v.fetches, expected); }
        return false;
      }
      clock.Sleep(POLL_NS);
      ghost var before := v.fetches;
      current := TryFetchVariable(v, current);
      assert v.fetches[..|before|] == before == before[..|before|];
      assert forall k | 0 < k < |before| :: v.fetches[..k] == before[..k];
    }
    if !expected.Empty? { LatestRead(v.fetches, expected); }
    result := true;
  }

  /** When a value is found that is not empty, it was the last read that found it, and no earlier one. */
  lemma LatestRead(fetches: seq<Option<AnyValue>>, expected: AnyValue)
    requires fetches != [] && !expected.Empty?
    requires forall k | 0 < k < |fetches| :: Current(fetches[..k]) != expected
    ensures Current(fetches) == expected <==> fetches[|fetches| - 1] == Some(expected)
    ensures forall k | 0 <= k < |fetches| - 1 :: fetches[k] != Some(expected)
  {
    forall k | 0 <= k < |fetches| - 1 ensures fetches[k] != Some(expected) {
      CurrentWasRead(fetches[..k + 1], k);
    }
  }

  /** The last known value is that of the latest read that succeeded. So a successful busy wait has read
      the expected value, with the one exception the documentation warns of: an expected value that is
      empty is also found when no read has succeeded at all. */
  lemma {:induction false} CurrentWasRead(fetches: seq<Option<AnyValue>>, k: nat)
    ensures (forall r | r in fetches :: r.None?) ==> Current(fetches) == Empty
    ensures k < |fetches| && fetches[k].Some? && (forall j | k < j < |fetches| :: fetches[j].None?) ==>
              Current(fetches) == fetches[k].value
  {
    if fetches != [] && fetches[|fetches| - 1].None? {
      var earlier := fetches[..|fetches| - 1];
      CurrentWasRead(earlier, k);
      assert Current(fetches) == Current(earlier);
      assert forall j | 0 <= j < |earlier| :: earlier[j] == fetches[j];
    }
  }
}
