/** What clients of the table can rely on over whole runs that start from the empty table: any number
    of clients, any interleaving with finishing threads, cleanups and the passing of time. */
module TableGuarantees {
  import opened Values
  import opened RequestTable
  import opened TableInvariant

  ghost predicate Legal(cfg: Config, evs: seq<Event>) {
    WithinLimits(Final(cfg, INIT, evs))
  }

  function Before(cfg: Config, evs: seq<Event>, i: nat): State
    requires i <= |evs|
  {
    At(cfg, INIT, evs, i)
  }

  function ReplyTo(cfg: Config, evs: seq<Event>, i: nat): Answer
    requires i < |evs|
  {
    AnswerTo(cfg, INIT, evs, i)
  }

  predicate Asks(ev: Event, op: Op) {
    ev.Do? && ev.op == op
  }

  /** Events that look at or change the entry of request id. */
  predicate Concerns(ev: Event, id: uint64) {
    || Asks(ev, Op.Poll(id)) || Asks(ev, Op.GetReply(id)) || Asks(ev, Op.Invalidate(id)) || Asks(ev, Op.Await(id))
    || (ev.Visit? && ev.id == id)
  }

  lemma Reachable(cfg: Config, evs: seq<Event>, i: nat, j: nat)
    requires Legal(cfg, evs) && i <= j <= |evs|
    ensures Inv(cfg, Before(cfg, evs, i)) && WithinLimits(Before(cfg, evs, i))
    ensures Inv(cfg, Before(cfg, evs, j)) && WithinLimits(Before(cfg, evs, j))
    ensures Progress(Before(cfg, evs, i), Before(cfg, evs, j))
  {
    hide Step;
    EarlierIsSmaller(cfg, INIT, evs, i, |evs|);
    EarlierIsSmaller(cfg, INIT, evs, j, |evs|);
    RunKeeps(cfg, INIT, evs, 0, i);
    RunKeeps(cfg, INIT, evs, i, j);
  }

  // ----- conservation

  function Submissions(evs: seq<Event>, i: nat): nat
    requires i <= |evs|
  {
    if i == 0 then 0
    else Submissions(evs, i - 1) + if evs[i - 1].Do? && evs[i - 1].op.Submit? then 1 else 0
  }

  lemma {:induction false} IssuedCountsSubmissions(cfg: Config, evs: seq<Event>, i: nat)
    requires i <= |evs|
    ensures |Before(cfg, evs, i).issued| == Submissions(evs, i)
  {
    if i > 0 {
      IssuedCountsSubmissions(cfg, evs, i - 1);
    }
  }

  ghost function IdsUpTo(n: uint64): (ids: set<uint64>)
    ensures |ids| == n
    ensures forall id: uint64 :: id in ids <==> 1 <= id <= n
  {
    if n == 0 then {} else IdsUpTo(n - 1) + {n}
  }

  /** At every moment each request ever submitted is in exactly one of three places: in the table,
      delivered, or dropped. Id 0 is never used, and nothing is lost or counted twice. */
  lemma IdsAreConserved(cfg: Config, evs: seq<Event>, i: nat)
    requires Legal(cfg, evs) && i <= |evs|
    ensures var s := Before(cfg, evs, i);
      && s.entries.Keys !! s.delivered.Keys !! s.dropped.Keys
      && Submissions(evs, i) < U64_LIMIT
      && s.entries.Keys + s.delivered.Keys + s.dropped.Keys == IdsUpTo(Submissions(evs, i))
      && |s.entries| + |s.delivered| + |s.dropped| == Submissions(evs, i)
  {
    hide Step;
    var s := Before(cfg, evs, i);
    Reachable(cfg, evs, i, i);
    IssuedCountsSubmissions(cfg, evs, i);
    IdsSplit(cfg, s);
    assert |s.entries.Keys + s.delivered.Keys| == |s.entries.Keys| + |s.delivered.Keys|;
  }

  lemma IdsSplit(cfg: Config, s: State)
    requires Inv(cfg, s)
    ensures s.entries.Keys !! s.delivered.Keys !! s.dropped.Keys
    ensures s.entries.Keys + s.delivered.Keys + s.dropped.Keys == IdsUpTo(s.lastId)
  {
    forall id | id in s.entries ensures 1 <= id <= s.lastId { assert LiveOk(cfg, s, id); }
    forall id | id in s.delivered ensures 1 <= id <= s.lastId && id !in s.entries { assert DeliveredOk(cfg, s, id); }
    forall id | id in s.dropped ensures 1 <= id <= s.lastId && id !in s.entries && id !in s.delivered {
      assert DroppedOk(cfg, s, id);
    }
    forall id | id in IdsUpTo(s.lastId) ensures id in s.entries || id in s.delivered || id in s.dropped {
      assert Issued(s, id);
    }
  }

  /** Erasing an entry destroys its future under the mutex, which would block on a running thread: at
      every erasure the thread has finished. Between operations every entry still holds its reply. A
      request that was dropped had been invalidated or had expired. */
  lemma EraseNeverWaits(cfg: Config, evs: seq<Event>, i: nat, id: uint64)
    requires Legal(cfg, evs) && i < |evs| && id in Before(cfg, evs, i).entries
    ensures Before(cfg, evs, i).entries[id].valid
    ensures id !in Before(cfg, evs, i + 1).entries ==> id in Before(cfg, evs, i + 1).env.done
    ensures var s' := Before(cfg, evs, i + 1);
      id in s'.dropped ==>
        s'.dropped[id].entry.invalidated || s'.dropped[id].at > s'.dropped[id].entry.lastAccess + cfg.expirationNs
  {
    var s, s' := Before(cfg, evs, i), Before(cfg, evs, i + 1);
    Reachable(cfg, evs, i, i + 1);
    assert LiveOk(cfg, s, id);
    assert Issued(s', id);
    if id in s'.delivered { assert DeliveredOk(cfg, s', id); }
    if id in s'.dropped { assert DroppedOk(cfg, s', id); }
  }

  // ----- one request, one step

  /** An operation on one request leaves the entries of the others alone. */
  lemma OthersUntouched(cfg: Config, s: State, ev: Event, id: uint64)
    requires id in s.entries && !Concerns(ev, id) && !(ev.Do? && (ev.op.Submit? || ev.op.GetReply?))
    ensures id in Step(cfg, s, ev).0.entries && Step(cfg, s, ev).0.entries[id] == s.entries[id]
  {
  }

  lemma FetchTouchesOne(cfg: Config, s: State, i: uint64, o1: Obs, o2: Obs, id: uint64)
    requires id in s.entries && i != id
    ensures var s' := StepGetReply(cfg, s, i, o1, o2).0; id in s'.entries && s'.entries[id] == s.entries[id]
  {
  }

  /** Only events that concern a live request touch its entry. */
  lemma Untouched(cfg: Config, s: State, ev: Event, id: uint64)
    requires Inv(cfg, s) && WithinLimits(Step(cfg, s, ev).0)
    requires id in s.entries && !Concerns(ev, id)
    ensures id in Step(cfg, s, ev).0.entries && Step(cfg, s, ev).0.entries[id] == s.entries[id]
  {
    hide StepPoll, StepGetReply, StepInvalidate, StepAwait, StepVisit;
    assert LiveOk(cfg, s, id);
    if ev.Do? && ev.op.Submit? {
      SubmitKeeps(cfg, s, ev.op.payload, ev.first);
    } else if ev.Do? && ev.op.GetReply? {
      FetchTouchesOne(cfg, s, ev.op.id, ev.first, ev.second, id);
    } else {
      OthersUntouched(cfg, s, ev, id);
    }
  }

  /** A request that has left the table does not come back. */
  lemma StaysGone(cfg: Config, s: State, ev: Event, id: uint64)
    requires Inv(cfg, s) && WithinLimits(Step(cfg, s, ev).0)
    requires Issued(s, id) && id !in s.entries
    ensures Issued(Step(cfg, s, ev).0, id) && id !in Step(cfg, s, ev).0.entries
  {
    if ev.Do? && ev.op.Submit? {
      SubmitKeeps(cfg, s, ev.op.payload, ev.first);
    }
  }

  lemma NotBoth(cfg: Config, s: State, id: uint64)
    requires Inv(cfg, s) && id in s.entries
    ensures id !in s.delivered && id !in s.dropped
  {
    assert id in s.delivered ==> DeliveredOk(cfg, s, id);
    assert id in s.dropped ==> DroppedOk(cfg, s, id);
  }

  /** Only a submission hands out an id, the next one, and its request is then live. */
  lemma AcceptedMeans(cfg: Config, s: State, ev: Event)
    requires Inv(cfg, s) && WithinLimits(Step(cfg, s, ev).0) && Step(cfg, s, ev).1.Accepted?
    ensures var (s', a) := Step(cfg, s, ev);
      && ev.Do? && ev.op.Submit?
      && a.id == s.lastId + 1 == s'.lastId
      && Issued(s', a.id) && PayloadOf(s', a.id) == ev.op.payload
      && a.id in s'.entries && s'.entries[a.id].valid && !s'.entries[a.id].invalidated
      && s'.entries[a.id].input == ev.op.payload && s'.entries[a.id].lastAccess == s'.env.clock
  {
    SubmitKeeps(cfg, s, ev.op.payload, ev.first);
    EntriesAreIssued(cfg, s);
  }

  /** Only a fetch delivers, and it takes the request out of the table. */
  lemma DeliveryMeans(cfg: Config, s: State, ev: Event, id: uint64)
    requires Inv(cfg, s) && WithinLimits(Step(cfg, s, ev).0)
    requires Asks(ev, Op.GetReply(id)) && Step(cfg, s, ev).1.Delivery?
    ensures Issued(s, id) && id in s.entries && id !in Step(cfg, s, ev).0.entries
    ensures Step(cfg, s, ev).1.outcome == cfg.protocol(id, PayloadOf(s, id))
  {
    assert LiveOk(cfg, s, id);
    GetReplyExactly(cfg, s, id, ev.first, ev.second);
  }

  /** Exactly when fetching a live request delivers, drops or leaves it, in terms of the thread and the
      clock: it delivers unless invalidated or still running at the first look, and it drops the reply
      when a thread that finished too late for the first look finds the request expired. */
  lemma GetReplyExactly(cfg: Config, s: State, id: uint64, o1: Obs, o2: Obs)
    requires Inv(cfg, s) && id in s.entries
    requires WithinLimits(StepGetReply(cfg, s, id, o1, o2).0)
    ensures var e := s.entries[id];
      var (s', a) := StepGetReply(cfg, s, id, o1, o2);
      var ready := id in s.env.done || o1.finish;
      var unwanted := e.invalidated || s.env.clock + o2.dt > e.lastAccess + cfg.expirationNs;
      && (ready && !e.invalidated <==> a == Delivery(cfg.protocol(id, PayloadOf(s, id))))
      && (ready && !e.invalidated <==> id in s'.delivered)
      && (!ready || e.invalidated <==> a == InvalidOperation)
      && (id in s'.dropped <==> !a.Delivery? && (ready || o2.finish) && unwanted)
      && (id in s'.entries <==> !a.Delivery? && id !in s'.dropped)
      && (id in s'.entries ==> s'.entries[id] == e)
  {
    assert LiveOk(cfg, s, id);
    assert id !in s.delivered && id !in s.dropped by { NotBoth(cfg, s, id); }
    var (env1, e, reply) := TakeReply(cfg, s.env, id, s.entries[id], o1);
    if reply.None? { RemovalMeans(cfg, env1, id, e, o2); }
  }

  /** The race the previous lemma leaves open does happen: a client that fetches an expired request just
      as its thread finishes is told the operation is invalid, and the finished reply is gone. */
  lemma LateFetchLosesTheReply(cfg: Config, v: AnyValue)
    requires cfg.expirationNs + 1 < U64_LIMIT
    ensures var evs := [Do(Submit(v), Obs(false, 0), Obs(false, 0)), Tick(cfg.expirationNs + 1),
                        Do(Op.GetReply(1), Obs(false, 0), Obs(true, 0)),
                        Do(Op.GetReply(1), Obs(false, 0), Obs(false, 0))];
      && Legal(cfg, evs)
      && ReplyTo(cfg, evs, 0) == Accepted(1)
      && ReplyTo(cfg, evs, 2) == InvalidOperation
      && 1 in Before(cfg, evs, 3).env.done && 1 in Before(cfg, evs, 3).dropped
      && ReplyTo(cfg, evs, 3) == UnknownId
  {
    var none := Obs(false, 0);
    var evs := [Do(Submit(v), none, none), Tick(cfg.expirationNs + 1),
                Do(Op.GetReply(1), none, Obs(true, 0)), Do(Op.GetReply(1), none, none)];
    var e := Entry(v, true, false, 0);
    var s1 := State(map[1 := e], 1, Env(0, {}), [v], map[], map[]);
    assert Before(cfg, evs, 0) == INIT;
    assert Step(cfg, INIT, evs[0]).0 == s1;
    assert Before(cfg, evs, 1) == s1;
    var s2 := s1.(env := Env(cfg.expirationNs + 1, {}));
    assert Before(cfg, evs, 2) == s2;
    assert IsExpired(cfg, e, cfg.expirationNs + 1);
    assert Before(cfg, evs, 3).entries == map[];
    assert Before(cfg, evs, 4) == Before(cfg, evs, 3);
  }

  /** Exactly when polling a live request is refused, and what it answers and does otherwise: it refuses
      a request that is finished and unwanted at the first look, be it invalidated or expired, and then
      changes nothing. Otherwise the answer is "ready" exactly if the thread has finished and nobody has
      invalidated the request, and a request that is not invalidated counts as accessed just now: one
      that has expired but is still running is refreshed. */
  lemma PollExactly(cfg: Config, s: State, id: uint64, o1: Obs, o2: Obs)
    requires Inv(cfg, s) && id in s.entries
    requires WithinLimits(StepPoll(cfg, s, id, o1, o2).0)
    ensures var e := s.entries[id];
      var (s', a) := StepPoll(cfg, s, id, o1, o2);
      var finished := id in s.env.done || o1.finish;
      var unwanted := e.invalidated || s.env.clock + o1.dt > e.lastAccess + cfg.expirationNs;
      && (a == InvalidOperation <==> finished && unwanted)
      && (a == InvalidOperation ==> s'.entries == s.entries)
      && (a != InvalidOperation ==>
            && a == Readiness(!e.invalidated && id in s'.env.done)
            && s'.entries == s.entries[id := if e.invalidated then e else e.(lastAccess := s'.env.clock)])
      && (s'.issued, s'.delivered, s'.dropped) == (s.issued, s.delivered, s.dropped)
  {
    assert LiveOk(cfg, s, id);
    RemovalMeans(cfg, s.env, id, s.entries[id], o1);
  }

  /** Exactly what invalidating a live request does: it is acknowledged, the request is marked, and it is
      dropped at once if its thread has finished. Nothing else changes. */
  lemma InvalidateExactly(cfg: Config, s: State, id: uint64, o: Obs)
    requires Inv(cfg, s) && id in s.entries
    requires WithinLimits(StepInvalidate(cfg, s, id, o).0)
    ensures var e := s.entries[id].(invalidated := true);
      var (s', a) := StepInvalidate(cfg, s, id, o);
      var finished := id in s.env.done || o.finish;
      && a == Acknowledged
      && s'.entries == (if finished then s.entries - {id} else s.entries[id := e])
      && s'.dropped == (if finished then s.dropped[id := Corpse(e, s.env.clock + o.dt)] else s.dropped)
      && (s'.lastId, s'.issued, s'.delivered) == (s.lastId, s.issued, s.delivered)
  {
    assert LiveOk(cfg, s, id);
  }

  /** Exactly what waiting for a live request does: it answers at the end whether the thread has finished
      and nobody has invalidated the request; and it counts as an access, but one made when the wait
      started, however long it lasts. */
  lemma AwaitExactly(cfg: Config, s: State, id: uint64, o: Obs, waited: nat)
    requires Inv(cfg, s) && id in s.entries
    ensures var e := s.entries[id];
      var (s', a) := StepAwait(s, id, o, waited);
      && a == Awaited(!e.invalidated && id in s'.env.done)
      && (e.invalidated ==> s'.entries == s.entries)
      && (!e.invalidated ==>
            && s'.env.clock == s.env.clock + o.dt + waited
            && s'.entries == s.entries[id := e.(lastAccess := s.env.clock + o.dt)])
      && (s'.lastId, s'.issued, s'.delivered, s'.dropped) == (s.lastId, s.issued, s.delivered, s.dropped)
  {
    assert LiveOk(cfg, s, id);
  }

  /** A poll does refuse requests that nobody has invalidated, for any expiration time: here the reply has
      been ready all along, the poll after the expiration time is told that the operation is invalid, and
      a fetch right after it still delivers. */
  lemma ExpiredPollIsRefused(cfg: Config, v: AnyValue)
    requires cfg.expirationNs + 1 < U64_LIMIT
    ensures var none := Obs(false, 0);
      var evs := [Do(Submit(v), none, none), Finish(1), Tick(cfg.expirationNs + 1),
                  Do(Op.Poll(1), none, none), Do(Op.GetReply(1), none, none)];
      && Legal(cfg, evs)
      && ReplyTo(cfg, evs, 0) == Accepted(1)
      && ReplyTo(cfg, evs, 3) == InvalidOperation
      && ReplyTo(cfg, evs, 4) == Delivery(cfg.protocol(1, v))
  {
    hide StepGetReply, StepPoll;
    var none := Obs(false, 0);
    var evs := [Do(Submit(v), none, none), Finish(1), Tick(cfg.expirationNs + 1),
                Do(Op.Poll(1), none, none), Do(Op.GetReply(1), none, none)];
    var s1 := State(map[1 := Entry(v, true, false, 0)], 1, Env(0, {}), [v], map[], map[]);
    assert Before(cfg, evs, 0) == INIT;
    assert Step(cfg, INIT, evs[0]).0 == s1;
    assert Before(cfg, evs, 1) == s1;
    var s2 := s1.(env := Env(0, {1}));
    assert Before(cfg, evs, 2) == s2;
    var s3 := s1.(env := Env(cfg.expirationNs + 1, {1}));
    assert Before(cfg, evs, 3) == s3;
    RefusedThenDelivered(cfg, s3, v);
    assert Before(cfg, evs, 4) == s3;
    assert Before(cfg, evs, 5) == StepGetReply(cfg, s3, 1, none, none).0;
  }

  lemma RefusedThenDelivered(cfg: Config, s: State, v: AnyValue)
    requires cfg.expirationNs + 1 < U64_LIMIT
    requires s == State(map[1 := Entry(v, true, false, 0)], 1, Env(cfg.expirationNs + 1, {1}), [v], map[], map[])
    ensures var none := Obs(false, 0);
      && StepPoll(cfg, s, 1, none, none) == (s, InvalidOperation)
      && StepGetReply(cfg, s, 1, none, none).1 == Delivery(cfg.protocol(1, v))
      && WithinLimits(StepGetReply(cfg, s, 1, none, none).0)
  {
  }

  // ----- at most once, and never someone else's

  /** Every id is handed out once. */
  lemma IdsAreFresh(cfg: Config, evs: seq<Event>, i: nat, j: nat)
    requires Legal(cfg, evs) && i < j < |evs|
    requires ReplyTo(cfg, evs, i).Accepted? && ReplyTo(cfg, evs, j).Accepted?
    ensures 0 < ReplyTo(cfg, evs, i).id < ReplyTo(cfg, evs, j).id
  {
    hide Step, Inv;
    Reachable(cfg, evs, i, i + 1);
    Reachable(cfg, evs, i + 1, j);
    Reachable(cfg, evs, j, j + 1);
    AcceptedMeans(cfg, Before(cfg, evs, i), evs[i]);
    AcceptedMeans(cfg, Before(cfg, evs, j), evs[j]);
  }

  lemma GoneIsUnknown(cfg: Config, s: State, ev: Event, id: uint64)
    requires id !in s.entries
    requires Asks(ev, Op.Poll(id)) || Asks(ev, Op.GetReply(id)) || Asks(ev, Op.Invalidate(id)) || Asks(ev, Op.Await(id))
    ensures Step(cfg, s, ev) == (s, if ev.op.Await? then Awaited(false) else UnknownId)
  {
  }

  lemma {:induction false} GoneUntil(cfg: Config, evs: seq<Event>, i: nat, j: nat, id: uint64)
    requires Legal(cfg, evs) && i <= j <= |evs|
    requires Issued(Before(cfg, evs, i), id) && id !in Before(cfg, evs, i).entries
    ensures id !in Before(cfg, evs, j).entries && Issued(Before(cfg, evs, j), id)
  {
    hide Step, Inv;
    if i < j {
      GoneUntil(cfg, evs, i, j - 1, id);
      Reachable(cfg, evs, j - 1, j);
      StaysGone(cfg, Before(cfg, evs, j - 1), evs[j - 1], id);
    }
  }

  /** Once a request has left the table, by delivery, invalidation or expiry, every later question about
      it is answered "unknown", forever. */
  lemma GoneForever(cfg: Config, evs: seq<Event>, i: nat, j: nat, id: uint64)
    requires Legal(cfg, evs) && i <= j < |evs|
    requires Issued(Before(cfg, evs, i), id) && id !in Before(cfg, evs, i).entries
    requires Asks(evs[j], Op.Poll(id)) || Asks(evs[j], Op.GetReply(id)) || Asks(evs[j], Op.Invalidate(id))
    ensures ReplyTo(cfg, evs, j) == UnknownId
  {
    GoneUntil(cfg, evs, i, j, id);
    GoneIsUnknown(cfg, Before(cfg, evs, j), evs[j], id);
  }

  /** Two fetches of the same id cannot both deliver. */
  lemma DeliveredOnce(cfg: Config, evs: seq<Event>, j: nat, k: nat, id: uint64)
    requires Legal(cfg, evs) && j < k < |evs|
    requires Asks(evs[j], Op.GetReply(id)) && ReplyTo(cfg, evs, j).Delivery?
    requires Asks(evs[k], Op.GetReply(id))
    ensures ReplyTo(cfg, evs, k) == UnknownId
  {
    hide Step, Inv;
    Reachable(cfg, evs, j, j + 1);
    DeliveryMeans(cfg, Before(cfg, evs, j), evs[j], id);
    GoneForever(cfg, evs, j + 1, k, id);
  }

  /** A reply is delivered at most once, and it is the outcome of the thread started for the payload
      that was submitted under that very id. */
  lemma AtMostOnce(cfg: Config, evs: seq<Event>, i: nat, j: nat, k: nat, id: uint64)
    requires Legal(cfg, evs) && i < |evs| && j < |evs| && k < |evs|
    requires ReplyTo(cfg, evs, i) == Accepted(id)
    requires Asks(evs[j], Op.GetReply(id)) && ReplyTo(cfg, evs, j).Delivery?
    ensures evs[i].Do? && evs[i].op.Submit? && i < j
    ensures ReplyTo(cfg, evs, j).outcome == cfg.protocol(id, evs[i].op.payload)
    ensures Asks(evs[k], Op.GetReply(id)) && ReplyTo(cfg, evs, k).Delivery? ==> k == j
  {
    hide Step, Inv;
    Reachable(cfg, evs, i, i + 1);
    Reachable(cfg, evs, j, j + 1);
    AcceptedMeans(cfg, Before(cfg, evs, i), evs[i]);
    DeliveryMeans(cfg, Before(cfg, evs, j), evs[j], id);
    if j <= i {
      Reachable(cfg, evs, j, i);
      assert false;
    }
    Reachable(cfg, evs, i + 1, j);
    SamePayload(cfg, Before(cfg, evs, i + 1), Before(cfg, evs, j), id);
    if j < k && Asks(evs[k], Op.GetReply(id)) { DeliveredOnce(cfg, evs, j, k, id); }
    if k < j && Asks(evs[k], Op.GetReply(id)) && ReplyTo(cfg, evs, k).Delivery? { DeliveredOnce(cfg, evs, k, j, id); }
  }

  lemma SamePayload(cfg: Config, s: State, s': State, id: uint64)
    requires Inv(cfg, s) && Inv(cfg, s') && Progress(s, s') && Issued(s, id)
    ensures PayloadOf(s, id) == PayloadOf(s', id)
  {
  }

  // ----- cancellation

  /** The effect of any event on a request already marked as invalidated. */
  lemma StaysInvalidated(cfg: Config, s: State, ev: Event, id: uint64)
    requires Inv(cfg, s) && WithinLimits(Step(cfg, s, ev).0)
    requires Issued(s, id) && (id in s.entries ==> s.entries[id].invalidated)
    ensures var (s', a) := Step(cfg, s, ev);
      && Issued(s', id) && (id in s'.entries ==> s'.entries[id].invalidated)
      && (Asks(ev, Op.Poll(id)) ==> a == UnknownId || a == InvalidOperation || a == Readiness(false))
      && (Asks(ev, Op.GetReply(id)) ==> a == UnknownId || a == InvalidOperation)
  {
    StepKeeps(cfg, s, ev);
    if id !in s.entries {
      StaysGone(cfg, s, ev, id);
    } else if !Concerns(ev, id) {
      Untouched(cfg, s, ev, id);
    }
  }

  lemma InvalidateMarks(cfg: Config, s: State, ev: Event, id: uint64)
    requires Inv(cfg, s) && Asks(ev, Op.Invalidate(id)) && Step(cfg, s, ev).1 == Acknowledged
    ensures var s' := Step(cfg, s, ev).0; Issued(s', id) && (id in s'.entries ==> s'.entries[id].invalidated)
  {
    assert LiveOk(cfg, s, id);
  }

  lemma {:induction false} InvalidatedFrom(cfg: Config, evs: seq<Event>, i: nat, j: nat, id: uint64)
    requires Legal(cfg, evs) && i < j <= |evs|
    requires Asks(evs[i], Op.Invalidate(id)) && ReplyTo(cfg, evs, i) == Acknowledged
    ensures var s := Before(cfg, evs, j); Issued(s, id) && (id in s.entries ==> s.entries[id].invalidated)
  {
    hide Step, Inv;
    Reachable(cfg, evs, j - 1, j);
    if i + 1 < j {
      InvalidatedFrom(cfg, evs, i, j - 1, id);
      StaysInvalidated(cfg, Before(cfg, evs, j - 1), evs[j - 1], id);
    } else {
      InvalidateMarks(cfg, Before(cfg, evs, i), evs[i], id);
    }
  }

  /** A cleanup that visits a live, invalidated request whose thread has finished removes it. */
  lemma InvalidatedIsReclaimed(cfg: Config, s: State, ev: Event, id: uint64)
    requires Inv(cfg, s) && WithinLimits(Step(cfg, s, ev).0)
    requires id in s.env.done && (id in s.entries ==> s.entries[id].invalidated)
    requires ev.Visit? && ev.id == id
    ensures id !in Step(cfg, s, ev).0.entries
  {
    assert id in s.entries ==> LiveOk(cfg, s, id);
  }

  /** Cancellation is final: after an acknowledged Invalidate no poll ever reports the reply as ready and
      no fetch returns it, whether or not the thread had finished. The entry does not leak either: once
      its thread has finished, the next cleanup removes it if it is still there. */
  lemma InvalidationIsFinal(cfg: Config, evs: seq<Event>, i: nat, j: nat, id: uint64)
    requires Legal(cfg, evs) && i < j < |evs|
    requires Asks(evs[i], Op.Invalidate(id)) && ReplyTo(cfg, evs, i) == Acknowledged
    ensures Asks(evs[j], Op.Poll(id)) ==> ReplyTo(cfg, evs, j) != Readiness(true)
    ensures Asks(evs[j], Op.GetReply(id)) ==> !ReplyTo(cfg, evs, j).Delivery?
    ensures evs[j].Visit? && evs[j].id == id && id in Before(cfg, evs, j).env.done ==>
              id !in Before(cfg, evs, j + 1).entries
  {
    hide Step, Inv;
    Reachable(cfg, evs, j, j + 1);
    InvalidatedFrom(cfg, evs, i, j, id);
    StaysInvalidated(cfg, Before(cfg, evs, j), evs[j], id);
    if evs[j].Visit? && evs[j].id == id && id in Before(cfg, evs, j).env.done {
      InvalidatedIsReclaimed(cfg, Before(cfg, evs, j), evs[j], id);
    }
  }

  // ----- what a positive poll promises

  lemma ReadyMeans(cfg: Config, s: State, ev: Event, id: uint64)
    requires Inv(cfg, s) && Asks(ev, Op.Poll(id)) && Step(cfg, s, ev).1 == Readiness(true)
    ensures ReadyOrGone(Step(cfg, s, ev).0, id)
  {
    assert LiveOk(cfg, s, id);
  }

  predicate ReadyOrGone(s: State, id: uint64) {
    && Issued(s, id) && id in s.env.done
    && (id in s.entries ==> !s.entries[id].invalidated)
  }

  lemma StaysReady(cfg: Config, s: State, ev: Event, id: uint64)
    requires Inv(cfg, s) && WithinLimits(Step(cfg, s, ev).0) && ReadyOrGone(s, id)
    requires !Asks(ev, Op.GetReply(id)) && !Asks(ev, Op.Invalidate(id))
    ensures ReadyOrGone(Step(cfg, s, ev).0, id)
  {
    StepKeeps(cfg, s, ev);
    if id !in s.entries {
      StaysGone(cfg, s, ev, id);
    } else if !Concerns(ev, id) {
      Untouched(cfg, s, ev, id);
    }
  }

  lemma {:induction false} ReadyUntil(cfg: Config, evs: seq<Event>, i: nat, j: nat, id: uint64)
    requires Legal(cfg, evs) && i < j <= |evs|
    requires Asks(evs[i], Op.Poll(id)) && ReplyTo(cfg, evs, i) == Readiness(true)
    requires forall k | i < k < j :: !Asks(evs[k], Op.GetReply(id)) && !Asks(evs[k], Op.Invalidate(id))
    ensures ReadyOrGone(Before(cfg, evs, j), id)
  {
    hide Step, Inv;
    Reachable(cfg, evs, j - 1, j);
    if i + 1 < j {
      ReadyUntil(cfg, evs, i, j - 1, id);
      StaysReady(cfg, Before(cfg, evs, j - 1), evs[j - 1], id);
    } else {
      ReadyMeans(cfg, Before(cfg, evs, i), evs[i], id);
    }
  }

  /** If a poll answers "ready", then until someone fetches or invalidates the request, or a cleanup
      erases it, the reply can be had: the next fetch delivers it and never answers "not ready". */
  lemma PollIsSound(cfg: Config, evs: seq<Event>, i: nat, j: nat, id: uint64)
    requires Legal(cfg, evs) && i < j < |evs|
    requires Asks(evs[i], Op.Poll(id)) && ReplyTo(cfg, evs, i) == Readiness(true)
    requires forall k | i < k < j :: !Asks(evs[k], Op.GetReply(id)) && !Asks(evs[k], Op.Invalidate(id))
    requires id in Before(cfg, evs, j).entries && Asks(evs[j], Op.GetReply(id))
    ensures var payloads := Before(cfg, evs, j).issued;
      1 <= id <= |payloads| && ReplyTo(cfg, evs, j) == Delivery(cfg.protocol(id, payloads[id - 1]))
  {
    ReadyUntil(cfg, evs, i, j, id);
    Reachable(cfg, evs, j, j + 1);
    assert LiveOk(cfg, Before(cfg, evs, j), id);
    GetReplyExactly(cfg, Before(cfg, evs, j), id, evs[j].first, evs[j].second);
  }
}
