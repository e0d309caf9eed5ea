/** How long the server keeps what nobody fetches (`expiration_timeout_handler.cpp` and the pacing in
    `protocol_rpc_server.cpp`), over any sequence of calls. Every call first looks at the clock, and
    cleans up if more than the cleanup interval has passed since the last time; then it serves its
    request. */
module Retention {
  import opened Values
  import opened RequestTable
  import opened TableInvariant
  import opened Cleanup
  import opened TableGuarantees

  /** `last` is the time of the last cleanup, and `settled` the requests in the table at that moment
      whose threads had finished. Those that survived it, and are still there, are wanted: nobody has
      invalidated them, and at that time they had not expired. */
  ghost predicate Retained(cfg: Config, s: State, last: nat, settled: set<uint64>) {
    && last <= s.env.clock
    && (forall id | id in settled :: Issued(s, id) && id in s.env.done)
    && (forall id | id in settled && id in s.entries ::
          !s.entries[id].invalidated && last <= s.entries[id].lastAccess + cfg.expirationNs)
  }

  ghost function FinishedRequests(s: State): set<uint64> {
    set id | id in s.entries && id in s.env.done
  }

  /** One step moves the last access of a live request forward, or erases the request; a request whose
      thread has finished does not survive being invalidated. */
  lemma EntryStep(cfg: Config, s: State, ev: Event, id: uint64)
    requires Inv(cfg, s) && WithinLimits(Step(cfg, s, ev).0)
    requires Issued(s, id) && id in s.env.done
    requires id in s.entries ==> !s.entries[id].invalidated
    ensures var s' := Step(cfg, s, ev).0;
      id in s'.entries ==>
        id in s.entries && !s'.entries[id].invalidated && s.entries[id].lastAccess <= s'.entries[id].lastAccess
  {
    if id !in s.entries {
      StaysGone(cfg, s, ev, id);
    } else if !Concerns(ev, id) {
      Untouched(cfg, s, ev, id);
    } else {
      assert LiveOk(cfg, s, id);
    }
  }

  lemma RetainedStep(cfg: Config, s: State, ev: Event, last: nat, settled: set<uint64>)
    requires Inv(cfg, s) && WithinLimits(Step(cfg, s, ev).0) && Retained(cfg, s, last, settled)
    ensures Inv(cfg, Step(cfg, s, ev).0) && Retained(cfg, Step(cfg, s, ev).0, last, settled)
  {
    hide Step, Inv;
    StepKeeps(cfg, s, ev);
    forall id | id in settled && id in Step(cfg, s, ev).0.entries
      ensures var e := Step(cfg, s, ev).0.entries[id]; !e.invalidated && last <= e.lastAccess + cfg.expirationNs
    {
      EntryStep(cfg, s, ev, id);
    }
  }

  lemma {:induction false} RetainedRun(cfg: Config, s: State, evs: seq<Event>, last: nat, settled: set<uint64>, n: nat)
    requires n <= |evs| && Inv(cfg, s) && WithinLimits(At(cfg, s, evs, n)) && Retained(cfg, s, last, settled)
    ensures Inv(cfg, At(cfg, s, evs, n)) && Retained(cfg, At(cfg, s, evs, n), last, settled)
  {
    hide Step, Inv, Retained;
    if n == 0 {
      assert At(cfg, s, evs, 0) == s;
    } else {
      EarlierIsSmaller(cfg, s, evs, n - 1, n);
      RetainedRun(cfg, s, evs, last, settled, n - 1);
      RetainedStep(cfg, At(cfg, s, evs, n - 1), evs[n - 1], last, settled);
    }
  }

  /** A cleanup makes its own start the last cleanup, and settles what had finished by then besides what
      earlier ones have settled. */
  lemma CleanupRetains(cfg: Config, s: State, last: nat, settled: set<uint64>, sweep: seq<Event>)
    requires Inv(cfg, s) && IsSweep(s.entries.Keys, sweep) && WithinLimits(Final(cfg, s, sweep))
    requires Retained(cfg, s, last, settled)
    ensures Inv(cfg, Final(cfg, s, sweep))
    ensures Retained(cfg, Final(cfg, s, sweep), s.env.clock, settled + FinishedRequests(s))
  {
    hide Step, Inv, IsSweep;
    CleanupIsExact(cfg, s, sweep);
    var t := Final(cfg, s, sweep);
    assert forall id | id in s.entries :: Issued(s, id) by { EntriesAreIssued(cfg, s); }
    forall id | id in settled + FinishedRequests(s) && id in t.entries
      ensures !t.entries[id].invalidated && s.env.clock <= t.entries[id].lastAccess + cfg.expirationNs
    {
      assert !Removable(cfg, s.env, id, s.entries[id]);
    }
  }

  // ----- calls of the server, one after the other

  /** What one call adds to the history: what happens before it, its look at the clock, the visits of its
      cleanup if it makes one, and the events of serving its request. */
  datatype Call = Call(idle: seq<Event>, dt: nat, sweep: seq<Event>, serve: seq<Event>)

  /** The table after a call, and the time of the last cleanup. */
  datatype Paced = Paced(table: State, last: nat)

  /** The table when the call has looked at the clock, and when it is done with cleaning up. */
  function Looked(cfg: Config, table: State, c: Call): State {
    Step(cfg, Final(cfg, table, c.idle), Tick(c.dt)).0
  }

  function Swept(cfg: Config, table: State, c: Call): State {
    Final(cfg, Looked(cfg, table, c), c.sweep)
  }

  /** The decision on the cleanup, with the subtraction of the code. */
  predicate CleansUp(cfg: Config, cleanupNs: nat, p: Paced, c: Call) {
    Sub64(Looked(cfg, p.table, c).env.clock, p.last) > cleanupNs
  }

  function AfterCall(cfg: Config, cleanupNs: nat, p: Paced, c: Call): Paced {
    Paced(Final(cfg, Swept(cfg, p.table, c), c.serve),
          if CleansUp(cfg, cleanupNs, p, c) then Looked(cfg, p.table, c).env.clock else p.last)
  }

  /** The call visits every entry if it is time for a cleanup, and none otherwise. */
  ghost predicate IsCall(cfg: Config, cleanupNs: nat, p: Paced, c: Call) {
    if CleansUp(cfg, cleanupNs, p, c) then IsSweep(Looked(cfg, p.table, c).entries.Keys, c.sweep) else c.sweep == []
  }

  /** A server started at the given time, after its first n calls. */
  function After(cfg: Config, cleanupNs: nat, clock: nat, calls: seq<Call>, n: nat): Paced
    requires n <= |calls|
  {
    if n == 0 then Paced(Final(cfg, INIT, [Tick(clock)]), 0)
    else AfterCall(cfg, cleanupNs, After(cfg, cleanupNs, clock, calls, n - 1), calls[n - 1])
  }

  ghost predicate AreCalls(cfg: Config, cleanupNs: nat, clock: nat, calls: seq<Call>) {
    forall k: nat | k < |calls| :: IsCall(cfg, cleanupNs, After(cfg, cleanupNs, clock, calls, k), calls[k])
  }

  lemma {:induction false} AfterPrefix(cfg: Config, cleanupNs: nat, clock: nat, calls: seq<Call>, c: Call, n: nat)
    requires n <= |calls|
    ensures After(cfg, cleanupNs, clock, calls + [c], n) == After(cfg, cleanupNs, clock, calls, n)
  {
    if n > 0 { AfterPrefix(cfg, cleanupNs, clock, calls, c, n - 1); }
  }

  lemma CallsExtend(cfg: Config, cleanupNs: nat, clock: nat, calls: seq<Call>, c: Call)
    requires AreCalls(cfg, cleanupNs, clock, calls)
    requires IsCall(cfg, cleanupNs, After(cfg, cleanupNs, clock, calls, |calls|), c)
    ensures AreCalls(cfg, cleanupNs, clock, calls + [c])
    ensures After(cfg, cleanupNs, clock, calls + [c], |calls| + 1)
            == AfterCall(cfg, cleanupNs, After(cfg, cleanupNs, clock, calls, |calls|), c)
  {
    hide IsCall, AfterCall;
    forall k: nat | k <= |calls|
      ensures After(cfg, cleanupNs, clock, calls + [c], k) == After(cfg, cleanupNs, clock, calls, k)
    {
      AfterPrefix(cfg, cleanupNs, clock, calls, c, k);
    }
  }

  lemma CallIsLater(cfg: Config, cleanupNs: nat, p: Paced, c: Call)
    requires WithinLimits(AfterCall(cfg, cleanupNs, p, c).table)
    ensures WithinLimits(p.table) && WithinLimits(Final(cfg, p.table, c.idle))
    ensures WithinLimits(Looked(cfg, p.table, c)) && WithinLimits(Swept(cfg, p.table, c))
  {
    hide Step;
    FinalIsLater(cfg, Swept(cfg, p.table, c), c.serve);
    FinalIsLater(cfg, Looked(cfg, p.table, c), c.sweep);
    LimitsShrinkBackwards(cfg, Final(cfg, p.table, c.idle), Tick(c.dt));
    FinalIsLater(cfg, p.table, c.idle);
  }

  /** A call keeps what is settled, and a cleanup settles what has finished by its start; after the call
      the last cleanup is no more than the cleanup interval ago. */
  lemma CallRetains(cfg: Config, cleanupNs: nat, p: Paced, c: Call, settled: set<uint64>)
    requires Inv(cfg, p.table) && Retained(cfg, p.table, p.last, settled) && IsCall(cfg, cleanupNs, p, c)
    requires WithinLimits(AfterCall(cfg, cleanupNs, p, c).table)
    ensures var p', s := AfterCall(cfg, cleanupNs, p, c), Looked(cfg, p.table, c);
      var settled' := if CleansUp(cfg, cleanupNs, p, c) then settled + FinishedRequests(s) else settled;
      && Inv(cfg, p'.table) && Retained(cfg, p'.table, p'.last, settled')
      && s.env.clock <= p'.last + cleanupNs
  {
    hide Step, Inv, IsSweep, Retained, FinishedRequests;
    CallIsLater(cfg, cleanupNs, p, c);
    var idled, s := Final(cfg, p.table, c.idle), Looked(cfg, p.table, c);
    RetainedRun(cfg, p.table, c.idle, p.last, settled, |c.idle|);
    RetainedStep(cfg, idled, Tick(c.dt), p.last, settled);
    LastIsPast(cfg, s, p.last, settled);
    Sub64Exact(s.env.clock, p.last);
    var settled' := settled;
    if CleansUp(cfg, cleanupNs, p, c) {
      CleanupRetains(cfg, s, p.last, settled, c.sweep);
      settled' := settled + FinishedRequests(s);
    } else {
      assert Swept(cfg, p.table, c) == s;
    }
    RetainedRun(cfg, Swept(cfg, p.table, c), c.serve, AfterCall(cfg, cleanupNs, p, c).last, settled', |c.serve|);
  }

  lemma LastIsPast(cfg: Config, s: State, last: nat, settled: set<uint64>)
    requires Retained(cfg, s, last, settled)
    ensures last <= s.env.clock
  {
  }

  lemma RetainedFewer(cfg: Config, s: State, last: nat, settled: set<uint64>, some: set<uint64>)
    requires Retained(cfg, s, last, settled) && some <= settled
    ensures Retained(cfg, s, last, some)
  {
  }

  lemma {:induction false} CallsKeep(cfg: Config, cleanupNs: nat, clock: nat, calls: seq<Call>, n: nat)
    requires n <= |calls| && AreCalls(cfg, cleanupNs, clock, calls)
    requires WithinLimits(After(cfg, cleanupNs, clock, calls, n).table)
    ensures var p := After(cfg, cleanupNs, clock, calls, n); Inv(cfg, p.table) && Retained(cfg, p.table, p.last, {})
  {
    hide AfterCall, IsCall;
    if n == 0 {
      var start := [Tick(clock)];
      assert At(cfg, INIT, start, 0) == INIT;
      RunKeeps(cfg, INIT, start, 0, 1);
    } else {
      hide Inv, Retained, Step;
      var p, c := After(cfg, cleanupNs, clock, calls, n - 1), calls[n - 1];
      var p' := AfterCall(cfg, cleanupNs, p, c);
      CallIsLater(cfg, cleanupNs, p, c);
      CallsKeep(cfg, cleanupNs, clock, calls, n - 1);
      CallRetains(cfg, cleanupNs, p, c, {});
      var settled := if CleansUp(cfg, cleanupNs, p, c) then {} + FinishedRequests(Looked(cfg, p.table, c)) else {};
      RetainedFewer(cfg, p'.table, p'.last, settled, {});
    }
  }

  /** Call number m cleans up, and these are the requests in the table when it starts to whose threads
      have finished. */
  ghost function SettledBy(cfg: Config, cleanupNs: nat, clock: nat, calls: seq<Call>, m: nat): set<uint64>
    requires m < |calls|
  {
    var p := After(cfg, cleanupNs, clock, calls, m);
    if CleansUp(cfg, cleanupNs, p, calls[m]) then FinishedRequests(Looked(cfg, p.table, calls[m])) else {}
  }

  lemma {:induction false} SettledStay(cfg: Config, cleanupNs: nat, clock: nat, calls: seq<Call>, m: nat, n: nat)
    requires m < n <= |calls| && AreCalls(cfg, cleanupNs, clock, calls)
    requires WithinLimits(After(cfg, cleanupNs, clock, calls, n).table)
    ensures var p := After(cfg, cleanupNs, clock, calls, n);
      var s := Looked(cfg, After(cfg, cleanupNs, clock, calls, n - 1).table, calls[n - 1]);
      && Retained(cfg, p.table, p.last, SettledBy(cfg, cleanupNs, clock, calls, m))
      && s.env.clock <= p.last + cleanupNs
  {
    hide Inv, Retained, Step, AfterCall, IsCall, CleansUp, Looked, FinishedRequests;
    var p, c := After(cfg, cleanupNs, clock, calls, n - 1), calls[n - 1];
    var p' := AfterCall(cfg, cleanupNs, p, c);
    CallIsLater(cfg, cleanupNs, p, c);
    CallsKeep(cfg, cleanupNs, clock, calls, n - 1);
    var settled := SettledBy(cfg, cleanupNs, clock, calls, m);
    var before: set<uint64> := if m < n - 1 then settled else {};
    if m < n - 1 {
      SettledStay(cfg, cleanupNs, clock, calls, m, n - 1);
    }
    CallRetains(cfg, cleanupNs, p, c, before);
    var after := if CleansUp(cfg, cleanupNs, p, c) then before + FinishedRequests(Looked(cfg, p.table, c)) else before;
    RetainedFewer(cfg, p'.table, p'.last, after, settled);
  }

  /** Nothing in the table has been there for too long at the end of the last of these calls. */
  ghost predicate NothingOverstays(cfg: Config, cleanupNs: nat, clock: nat, calls: seq<Call>)
    requires calls != []
  {
    var n := |calls|;
    var now := Looked(cfg, After(cfg, cleanupNs, clock, calls, n - 1).table, calls[n - 1]).env.clock;
    var t := After(cfg, cleanupNs, clock, calls, n).table;
    forall m: nat, id | m < n && id in SettledBy(cfg, cleanupNs, clock, calls, m) && id in t.entries ::
      !t.entries[id].invalidated && now <= t.entries[id].lastAccess + cfg.expirationNs + cleanupNs
  }

  /** Nothing is retained too long, over any sequence of calls. When a call that has read the clock at
      time `now` is over, every request still in the table that had finished by the last cleanup, in this
      or an earlier call (or by any cleanup before that), has been idle for at most the expiration time
      plus the cleanup interval; if it was invalidated it is gone. This covers requests whose clients
      have timed out and will never come back. */
  lemma RetentionIsBounded(cfg: Config, cleanupNs: nat, clock: nat, calls: seq<Call>)
    requires calls != [] && AreCalls(cfg, cleanupNs, clock, calls)
    requires WithinLimits(After(cfg, cleanupNs, clock, calls, |calls|).table)
    ensures NothingOverstays(cfg, cleanupNs, clock, calls)
  {
    hide Retained, Looked, After, SettledBy, AreCalls;
    var n := |calls|;
    var p := After(cfg, cleanupNs, clock, calls, n);
    forall m: nat, id | m < n && id in SettledBy(cfg, cleanupNs, clock, calls, m) && id in p.table.entries
      ensures !p.table.entries[id].invalidated && p.last <= p.table.entries[id].lastAccess + cfg.expirationNs
      ensures Looked(cfg, After(cfg, cleanupNs, clock, calls, n - 1).table, calls[n - 1]).env.clock
              <= p.last + cleanupNs
    {
      SettledStay(cfg, cleanupNs, clock, calls, m, n);
      Unfold(cfg, p.table, p.last, SettledBy(cfg, cleanupNs, clock, calls, m));
    }
  }

  lemma Unfold(cfg: Config, s: State, last: nat, settled: set<uint64>)
    requires Retained(cfg, s, last, settled)
    ensures forall id | id in settled && id in s.entries ::
      !s.entries[id].invalidated && last <= s.entries[id].lastAccess + cfg.expirationNs
  {
  }
}
