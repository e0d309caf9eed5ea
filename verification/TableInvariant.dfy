/** What every step keeps: the identifiers 1..lastId are split between live, delivered and dropped
    requests, no live request has lost its reply, and nothing is erased before its thread finished. */
module TableInvariant {
  import opened Values
  import opened RequestTable

  /** Fewer than 2^64 requests, and a clock that fits in 64 bits: the limits of the counter and of the
      timestamps. Both only grow, so a run whose last state is within them was so throughout. */
  ghost predicate WithinLimits(s: State) {
    |s.issued| < U64_LIMIT && s.env.clock < U64_LIMIT
  }

  predicate Issued(s: State, id: uint64) {
    1 <= id <= s.lastId
  }

  function PayloadOf(s: State, id: uint64): AnyValue
    requires Issued(s, id) && s.lastId == |s.issued|
  {
    s.issued[id - 1]
  }

  ghost predicate LiveOk(cfg: Config, s: State, id: uint64)
    requires s.lastId == |s.issued| && id in s.entries
  {
    var e := s.entries[id];
    && Issued(s, id) && e.input == PayloadOf(s, id)
    && e.valid && e.lastAccess <= s.env.clock
  }

  ghost predicate DeliveredOk(cfg: Config, s: State, id: uint64)
    requires s.lastId == |s.issued| && id in s.delivered
  {
    && Issued(s, id) && id !in s.entries && id in s.env.done
    && s.delivered[id] == cfg.protocol(id, PayloadOf(s, id))
  }

  ghost predicate DroppedOk(cfg: Config, s: State, id: uint64)
    requires s.lastId == |s.issued| && id in s.dropped
  {
    var c := s.dropped[id];
    && Issued(s, id) && id !in s.entries && id !in s.delivered && id in s.env.done
    && c.entry.input == PayloadOf(s, id)
    && c.at <= s.env.clock
    && (c.entry.invalidated || c.at > c.entry.lastAccess + cfg.expirationNs)
  }

  ghost predicate Inv(cfg: Config, s: State) {
    && s.lastId == |s.issued|
    && (forall id | id in s.entries :: LiveOk(cfg, s, id))
    && (forall id | id in s.delivered :: DeliveredOk(cfg, s, id))
    && (forall id | id in s.dropped :: DroppedOk(cfg, s, id))
    && (forall id: uint64 | Issued(s, id) :: id in s.entries || id in s.delivered || id in s.dropped)
  }

  lemma EntriesAreIssued(cfg: Config, s: State)
    requires Inv(cfg, s)
    ensures forall id | id in s.entries :: Issued(s, id)
  {
    forall id | id in s.entries ensures Issued(s, id) { assert LiveOk(cfg, s, id); }
  }

  /** What a step may do to a state, whatever the event. */
  ghost predicate Progress(s: State, s': State) {
    && s.issued <= s'.issued
    && s.env.clock <= s'.env.clock
    && s.lastId <= s'.lastId
    && (forall id: uint64 | Issued(s, id) && id in s.env.done :: id in s'.env.done)
  }

  lemma SubmitKeeps(cfg: Config, s: State, payload: AnyValue, o: Obs)
    requires Inv(cfg, s) && WithinLimits(StepSubmit(cfg, s, payload, o).0)
    ensures Inv(cfg, StepSubmit(cfg, s, payload, o).0) && Progress(s, StepSubmit(cfg, s, payload, o).0)
    ensures StepSubmit(cfg, s, payload, o).1 == Accepted(s.lastId + 1)
  {
    var s' := StepSubmit(cfg, s, payload, o).0;
    assert NextId(s) == s.lastId + 1;
    assert forall id | Issued(s, id) :: PayloadOf(s', id) == PayloadOf(s, id);
    forall id | id in s'.entries ensures LiveOk(cfg, s', id) {
      if id in s.entries { assert LiveOk(cfg, s, id); }
    }
    forall id | id in s'.delivered ensures DeliveredOk(cfg, s', id) { assert DeliveredOk(cfg, s, id); }
    forall id | id in s'.dropped ensures DroppedOk(cfg, s', id) { assert DroppedOk(cfg, s, id); }
  }

  /** Every operation on one live request ends in Settle: it keeps the invariant if the entry is put
      back intact, or is erased for a good reason and with its thread finished. */
  lemma SettleKeeps(cfg: Config, s: State, env: Env, id: uint64, e: Entry, remove: bool)
    requires Inv(cfg, s) && id in s.entries
    requires s.env.clock <= env.clock && s.env.done <= env.done
    requires e.valid && e.input == s.entries[id].input && e.lastAccess <= env.clock
    requires remove ==> id in env.done && (e.invalidated || env.clock > e.lastAccess + cfg.expirationNs)
    ensures Inv(cfg, Settle(s, env, id, e, remove)) && Progress(s, Settle(s, env, id, e, remove))
  {
    assert LiveOk(cfg, s, id);
    var s' := Settle(s, env, id, e, remove);
    forall i | i in s'.entries ensures LiveOk(cfg, s', i) { assert LiveOk(cfg, s, i); }
    forall i | i in s'.delivered ensures DeliveredOk(cfg, s', i) { assert DeliveredOk(cfg, s, i); }
    forall i | i in s'.dropped ensures DroppedOk(cfg, s', i) { if i != id { assert DroppedOk(cfg, s, i); } }
  }

  /** Delivery: the reply is taken and the entry erased in the same step. */
  lemma DeliveryKeeps(cfg: Config, s: State, env: Env, id: uint64)
    requires Inv(cfg, s) && id in s.entries && id in env.done
    requires s.env.clock <= env.clock && s.env.done <= env.done
    ensures var outcome := cfg.protocol(id, s.entries[id].input);
      var s' := Settle(s.(delivered := s.delivered[id := outcome]), env, id, s.entries[id].(valid := false), true);
      Inv(cfg, s') && Progress(s, s')
  {
    var outcome := cfg.protocol(id, s.entries[id].input);
    var s' := Settle(s.(delivered := s.delivered[id := outcome]), env, id, s.entries[id].(valid := false), true);
    assert LiveOk(cfg, s, id);
    forall i | i in s'.entries ensures LiveOk(cfg, s', i) { assert LiveOk(cfg, s, i); }
    forall i | i in s'.delivered ensures DeliveredOk(cfg, s', i) { if i != id { assert DeliveredOk(cfg, s, i); } }
    forall i | i in s'.dropped ensures DroppedOk(cfg, s', i) { assert DroppedOk(cfg, s, i); }
  }

  /** Within the limits the wrap-around of the age computation plays no part. */
  lemma RemovalMeans(cfg: Config, env: Env, id: uint64, e: Entry, o: Obs)
    requires e.valid && e.lastAccess <= env.clock
    requires IsReadyForRemoval(cfg, env, id, e, o).0.clock < U64_LIMIT
    ensures var (env', remove) := IsReadyForRemoval(cfg, env, id, e, o);
      && env.clock <= env'.clock && env.done <= env'.done
      && (remove <==> id in env'.done && (e.invalidated || env'.clock > e.lastAccess + cfg.expirationNs))
  {
    var env' := IsReadyForRemoval(cfg, env, id, e, o).0;
    Sub64Exact(env'.clock, e.lastAccess);
  }

  lemma GetReplyKeeps(cfg: Config, s: State, id: uint64, o1: Obs, o2: Obs)
    requires Inv(cfg, s) && id in s.entries
    requires WithinLimits(StepGetReply(cfg, s, id, o1, o2).0)
    ensures Inv(cfg, StepGetReply(cfg, s, id, o1, o2).0) && Progress(s, StepGetReply(cfg, s, id, o1, o2).0)
  {
    assert LiveOk(cfg, s, id);
    var (env1, e, reply) := TakeReply(cfg, s.env, id, s.entries[id], o1);
    var (env2, remove) := IsReadyForRemoval(cfg, env1, id, e, o2);
    if reply.None? {
      RemovalMeans(cfg, env1, id, e, o2);
      SettleKeeps(cfg, s, env2, id, e, remove);
    } else {
      DeliveryKeeps(cfg, s, env2, id);
    }
  }

  lemma PollKeeps(cfg: Config, s: State, id: uint64, o1: Obs, o2: Obs)
    requires Inv(cfg, s) && id in s.entries
    ensures Inv(cfg, StepPoll(cfg, s, id, o1, o2).0) && Progress(s, StepPoll(cfg, s, id, o1, o2).0)
  {
    assert LiveOk(cfg, s, id);
    var (env1, removable) := IsReadyForRemoval(cfg, s.env, id, s.entries[id], o1);
    if removable {
      EnvironmentKeeps(cfg, s, env1);
    } else {
      var (env2, e, _) := WaitForReady(env1, id, s.entries[id], o2);
      SettleKeeps(cfg, s, env2, id, e, false);
    }
  }

  lemma InvalidateKeeps(cfg: Config, s: State, id: uint64, o: Obs)
    requires Inv(cfg, s) && id in s.entries && WithinLimits(StepInvalidate(cfg, s, id, o).0)
    ensures Inv(cfg, StepInvalidate(cfg, s, id, o).0) && Progress(s, StepInvalidate(cfg, s, id, o).0)
  {
    assert LiveOk(cfg, s, id);
    var e := s.entries[id].(invalidated := true);
    var (env, remove) := IsReadyForRemoval(cfg, s.env, id, e, o);
    RemovalMeans(cfg, s.env, id, e, o);
    SettleKeeps(cfg, s, env, id, e, remove);
  }

  lemma AwaitKeeps(cfg: Config, s: State, id: uint64, o: Obs, waited: nat)
    requires Inv(cfg, s) && id in s.entries
    ensures Inv(cfg, StepAwait(s, id, o, waited).0) && Progress(s, StepAwait(s, id, o, waited).0)
  {
    assert LiveOk(cfg, s, id);
    var (env, e, _) := WaitForReady(s.env, id, s.entries[id], o);
    SettleKeeps(cfg, s, Elapse(env, waited), id, e, false);
  }

  lemma VisitKeeps(cfg: Config, s: State, id: uint64, o: Obs)
    requires Inv(cfg, s) && id in s.entries && WithinLimits(StepVisit(cfg, s, id, o).0)
    ensures Inv(cfg, StepVisit(cfg, s, id, o).0) && Progress(s, StepVisit(cfg, s, id, o).0)
  {
    assert LiveOk(cfg, s, id);
    var (env, remove) := IsReadyForRemoval(cfg, s.env, id, s.entries[id], o);
    RemovalMeans(cfg, s.env, id, s.entries[id], o);
    SettleKeeps(cfg, s, env, id, s.entries[id], remove);
  }

  /** The table invariant is kept by every step of every operation, and by the environment. */
  lemma StepKeeps(cfg: Config, s: State, ev: Event)
    requires Inv(cfg, s) && WithinLimits(Step(cfg, s, ev).0)
    ensures Inv(cfg, Step(cfg, s, ev).0) && Progress(s, Step(cfg, s, ev).0)
  {
    match ev
    case Do(Submit(payload), o, _) => SubmitKeeps(cfg, s, payload, o);
    case Do(Poll(id), o1, o2) => if id in s.entries { PollKeeps(cfg, s, id, o1, o2); }
    case Do(GetReply(id), o1, o2) => if id in s.entries { GetReplyKeeps(cfg, s, id, o1, o2); }
    case Do(Invalidate(id), o, _) => if id in s.entries { InvalidateKeeps(cfg, s, id, o); }
    case Do(Await(id), o1, o2) => if id in s.entries { AwaitKeeps(cfg, s, id, o1, o2.dt); }
    case Do(Malformed, _, _) =>
    case Do(Unsupported, _, _) =>
    case Visit(id, o) => if id in s.entries { VisitKeeps(cfg, s, id, o); }
    case Finish(id) => EnvironmentKeeps(cfg, s, s.env.(done := s.env.done + {id}));
    case Tick(dt) => EnvironmentKeeps(cfg, s, s.env.(clock := s.env.clock + dt));
  }

  lemma EnvironmentKeeps(cfg: Config, s: State, env: Env)
    requires Inv(cfg, s) && s.env.clock <= env.clock && s.env.done <= env.done
    ensures Inv(cfg, s.(env := env)) && Progress(s, s.(env := env))
  {
    var s' := s.(env := env);
    forall i | i in s'.entries ensures LiveOk(cfg, s', i) { assert LiveOk(cfg, s, i); }
    forall i | i in s'.delivered ensures DeliveredOk(cfg, s', i) { assert DeliveredOk(cfg, s, i); }
    forall i | i in s'.dropped ensures DroppedOk(cfg, s', i) { assert DroppedOk(cfg, s, i); }
  }

  /** The counter and the clock only grow, with or without the invariant. */
  lemma LimitsShrinkBackwards(cfg: Config, s: State, ev: Event)
    ensures s.issued <= Step(cfg, s, ev).0.issued && s.env.clock <= Step(cfg, s, ev).0.env.clock
  {
  }

  lemma {:induction false} EarlierIsSmaller(cfg: Config, s: State, evs: seq<Event>, i: nat, j: nat)
    requires i <= j <= |evs|
    ensures At(cfg, s, evs, i).issued <= At(cfg, s, evs, j).issued
    ensures At(cfg, s, evs, i).env.clock <= At(cfg, s, evs, j).env.clock
  {
    if i < j {
      EarlierIsSmaller(cfg, s, evs, i, j - 1);
      LimitsShrinkBackwards(cfg, At(cfg, s, evs, j - 1), evs[j - 1]);
      var a, b, c := At(cfg, s, evs, i).issued, At(cfg, s, evs, j - 1).issued, At(cfg, s, evs, j).issued;
      assert a <= b <= c;
    }
  }

  lemma FinalIsLater(cfg: Config, s: State, evs: seq<Event>)
    ensures s.issued <= Final(cfg, s, evs).issued && s.env.clock <= Final(cfg, s, evs).env.clock
    ensures WithinLimits(Final(cfg, s, evs)) ==> WithinLimits(s)
  {
    hide Step;
    EarlierIsSmaller(cfg, s, evs, 0, |evs|);
    assert At(cfg, s, evs, 0) == s;
  }

  /** Along a run within the limits the invariant carries on, and states only progress. */
  lemma {:induction false} RunKeeps(cfg: Config, s: State, evs: seq<Event>, i: nat, j: nat)
    requires i <= j <= |evs| && Inv(cfg, At(cfg, s, evs, i)) && WithinLimits(At(cfg, s, evs, j))
    ensures Inv(cfg, At(cfg, s, evs, j)) && Progress(At(cfg, s, evs, i), At(cfg, s, evs, j))
  {
    if i < j {
      EarlierIsSmaller(cfg, s, evs, j - 1, j);
      RunKeeps(cfg, s, evs, i, j - 1);
      StepKeeps(cfg, At(cfg, s, evs, j - 1), evs[j - 1]);
      var a, b, c := At(cfg, s, evs, i), At(cfg, s, evs, j - 1), At(cfg, s, evs, j);
      assert a.issued <= b.issued <= c.issued;
    }
  }
}
