/** The server's table of requests (`async_invoke_server.cpp`). The object keeps its own history as a
    ghost; every method extends it by the events of its critical section, and the table is always the
    one that the state machine reaches through that history. */
module AsyncServer {
  import opened Values
  import opened Packets
  import opened AsyncInvocations
  import opened ServerProtocol
  import opened Cleanup
  import RT = RequestTable

  class AsyncInvokeServer {
    const lib: Library
    const cfg: RT.Config
    const world: World
    var invokes: map<uint64, AsyncInvoke>
    var lastId: uint64
    ghost var history: seq<RT.Event>
    ghost var state: RT.State

    /** The object kept for a request and its entry in the state machine agree. */
    ghost predicate Matches(id: uint64)
      requires id in invokes
      reads this, invokes[id]
    {
      && invokes[id].thread == id && invokes[id].cfg == cfg
      && id in state.entries && invokes[id].View() == state.entries[id]
    }

    /** The table is the one its history leads to. */
    ghost predicate TableMatchesHistory()
      reads this, invokes.Values
    {
      && state.entries.Keys == invokes.Keys
      && (forall id | id in invokes :: Matches(id))
      && state.lastId == lastId
      && state == RT.Final(cfg, RT.INIT, history)
    }

    /** And so is the environment. */
    ghost predicate Valid()
      reads this, world, invokes.Values
    {
      TableMatchesHistory() && state.env == world.View()
    }

    constructor (lib: Library, cfg: RT.Config, world: World)
      requires world.done == {}
      ensures Valid() && this.lib == lib && this.cfg == cfg && this.world == world
      ensures invokes == map[] && history == [RT.Tick(world.clock)]
    {
      this.lib, this.cfg, this.world := lib, cfg, world;
      invokes, lastId := map[], 0;
      history := [RT.Tick(world.clock)];
      state := RT.INIT.(env := world.View());
      new;
      EmptySweep(cfg, RT.INIT);
      FinalExtends(cfg, RT.INIT, [], RT.Tick(world.clock));
      assert [] + history == history;
    }

    /** One more event in the history. */
    ghost method Record(ev: RT.Event)
      requires state == RT.Final(cfg, RT.INIT, history)
      modifies this`history, this`state
      ensures history == old(history) + [ev]
      ensures state == RT.Step(cfg, old(state), ev).0 == RT.Final(cfg, RT.INIT, history)
    {
      FinalExtends(cfg, RT.INIT, history, ev);
      history := history + [ev];
      state := RT.Step(cfg, state, ev).0;
    }

    /** The end of an operation on request id: its entry is new, updated or erased, as the event says. */
    ghost method Commit(ev: RT.Event, id: uint64)
      requires state == RT.Final(cfg, RT.INIT, history)
      requires forall i | i != id :: i in invokes <==> i in state.entries
      requires forall i | i in invokes && i != id :: Matches(i)
      requires id in invokes ==> invokes[id].thread == id && invokes[id].cfg == cfg
      requires var s' := RT.Step(cfg, state, ev).0;
        && s'.lastId == lastId && s'.env == world.View()
        && s'.entries == if id in invokes then state.entries[id := invokes[id].View()] else state.entries - {id}
      modifies this`history, this`state
      ensures Valid() && history == old(history) + [ev] && state == RT.Step(cfg, old(state), ev).0
    {
      hide RT.Step, RT.Final;
      ghost var s := state;
      Record(ev);
      forall i | i in invokes ensures Matches(i) {
        if i != id {
          assert old(Matches(i));
        }
      }
    }

    /** The clock was read by somebody else. */
    ghost method NoteClock(dt: nat)
      requires TableMatchesHistory() && world.View() == state.env.(clock := state.env.clock + dt)
      modifies this`history, this`state
      ensures Valid() && history == old(history) + [RT.Tick(dt)]
      ensures state == RT.Step(cfg, old(state), RT.Tick(dt)).0
    {
      Record(RT.Tick(dt));
    }

    /** Time passes and a thread may finish while nobody holds the mutex; within an operation the
        environment moves at each look at the clock or at a thread. */
    method OtherThreadsRun(thread: uint64) returns (ghost evs: seq<RT.Event>)
      requires Valid()
      modifies this`history, this`state, world
      ensures Valid() && history == old(history) + evs
      ensures forall ev | ev in evs :: ev.Tick? || ev.Finish?
    {
      var _, dt := world.GetCurrentTimestamp();
      NoteClock(dt);
      evs := [RT.Tick(dt)];
      ghost var finish;
      var ready;
      ready, finish := world.HasFinished(thread);
      if finish {
        Record(RT.Finish(thread));
        evs := evs + [RT.Finish(thread)];
        assert history == old(history) + evs;
      }
    }

    /** An event that finds nothing to work on: an id that is not in the table, or no operation at all. */
    ghost method RecordIdle(op: RT.Op) returns (ev: RT.Event)
      requires Valid() && IsIdle(op, state)
      modifies this`history, this`state
      ensures Valid() && ev.Do? && ev.op == op && history == old(history) + [ev]
      ensures state == old(state) && RT.Step(cfg, old(state), ev) == (state, IdleAnswer(op))
    {
      hide RT.Step, RT.Final;
      ev := RT.Do(op, RT.Obs(false, 0), RT.Obs(false, 0));
      IdleStep(cfg, state, ev);
      Record(ev);
    }

    /** A new entry, and a thread for it. */
    method Launch(id: uint64, payload: AnyValue) returns (ghost dt: nat)
      requires id !in invokes
      modifies this`invokes, world
      ensures id in invokes && fresh(invokes[id]) && invokes == old(invokes)[id := invokes[id]]
      ensures invokes[id].thread == id && invokes[id].cfg == cfg
      ensures var now := old(world.clock) + dt;
        && world.View() == RT.Env(now, old(world.done) - {id})
        && invokes[id].View() == RT.Entry(payload, true, false, now)
    {
      var now;
      now, dt := world.GetCurrentTimestamp();
      world.Launch(id);
      var invoke := new AsyncInvoke(world, id, cfg, payload, now);
      invokes := invokes[id := invoke];
    }

    method NewRequest(payload: AnyValue, enc: PayloadEncoding) returns (reply: AnyValue, ghost ev: RT.Event)
      requires Valid()
      modifies this, world
      ensures Valid() && fresh(invokes.Values - old(invokes.Values))
      ensures ev.Do? && ev.op == RT.Submit(payload) && history == old(history) + [ev]
      ensures state == RT.Step(cfg, old(state), ev).0
      ensures reply == AsyncReply(lib, RT.Step(cfg, old(state), ev).1, enc, INITIAL_REQUEST)
      ensures lastId == (old(lastId) + 1) % U64_LIMIT && lastId in invokes
      ensures Reports(reply, SUCCESS) && (lib.RoundTrips() ==> TryExtractReplyId(lib, reply, enc) == Some(lastId))
    {
      hide RT.Step, RT.Final, RT.StepSubmit, Reports, TryExtractReplyId, CreateAsyncRPCReply,
        CreateAsyncRPCPollReply, CreateAsyncRPCNewRequestReply;
      lastId := (lastId + 1) % U64_LIMIT;
      var id := lastId;
      ghost var dt := 0;
      if id !in invokes {
        dt := Launch(id, payload);
      }
      ghost var o := RT.Obs(false, dt);
      ev := RT.Do(RT.Submit(payload), o, o);
      SubmitStep(cfg, state, payload, o);
      assert id in state.entries ==> state.entries == state.entries[id := invokes[id].View()];
      forall i | i in invokes && i != id ensures Matches(i) {
        assert old(Matches(i));
      }
      Commit(ev, id);
      AnswerOnTheWire(lib, RT.Accepted(id), enc, INITIAL_REQUEST);
      reply := CreateAsyncRPCNewRequestReply(lib, id, enc);
    }

    method Poll(id: uint64, enc: PayloadEncoding) returns (reply: AnyValue, ghost ev: RT.Event)
      requires Valid()
      modifies this`history, this`state, world, invokes.Values
      ensures Valid()
      ensures ev.Do? && ev.op == RT.Poll(id) && history == old(history) + [ev]
      ensures state == RT.Step(cfg, old(state), ev).0
      ensures reply == AsyncReply(lib, RT.Step(cfg, old(state), ev).1, enc, POLL)
      ensures id !in old(invokes) ==> Reports(reply, INVALID_REQUEST_IDENTIFIER_ERROR)
      ensures id in old(invokes) ==>
        var e := old(state).entries[id];
        var finished := id in old(state).env.done || ev.first.finish;
        var expired := Sub64(old(world.clock) + ev.first.dt, e.lastAccess) > cfg.expirationNs;
        if !e.valid || (finished && (e.invalidated || expired))
        then Reports(reply, INVALID_ASYNCHRONOUS_OPERATION_ERROR)
        else
          && Reports(reply, SUCCESS)
          && (lib.RoundTrips() ==>
                TryExtractReadyStatus(lib, reply, enc) == Some(!e.invalidated && id in world.done))
    {
      hide RT.Step, RT.Final, RT.WaitForReady, RT.IsReadyForRemoval, RT.StepPoll, Sub64, Reports,
        TryExtractReadyStatus, CreateAsyncRPCReply, CreateAsyncRPCPollReply, CreateAsyncRPCNewRequestReply;
      if id !in invokes {
        ev := RecordIdle(RT.Poll(id));
        AnswerOnTheWire(lib, RT.UnknownId, enc, POLL);
        return CreateAsyncRPCReply(lib, INVALID_REQUEST_IDENTIFIER_ERROR, Empty, Plain, POLL), ev;
      }
      var removable, o1 := invokes[id].IsReadyForRemoval(world);
      if removable {
        ev := RT.Do(RT.Poll(id), o1, o1);
        PollStep(cfg, state, id, o1, o1);
        Commit(ev, id);
        AnswerOnTheWire(lib, RT.InvalidOperation, enc, POLL);
        return CreateAsyncRPCReply(lib, INVALID_ASYNCHRONOUS_OPERATION_ERROR, Empty, Plain, POLL), ev;
      }
      var ready, o2, _ := invokes[id].WaitForReady(world, 0);
      ev := RT.Do(RT.Poll(id), o1, o2);
      PollStep(cfg, state, id, o1, o2);
      Commit(ev, id);
      AnswerOnTheWire(lib, RT.Readiness(ready), enc, POLL);
      reply := CreateAsyncRPCPollReply(lib, ready, enc);
    }

    /** Takes the reply, if there is one to take, and erases the entry if nobody needs it any more. */
    method TakeAndErase(id: uint64) returns (taken: Option<Outcome>, ghost ev: RT.Event)
      requires Valid() && id in invokes
      modifies this`invokes, this`history, this`state, world, invokes[id]
      ensures Valid() && invokes.Values <= old(invokes.Values)
      ensures ev.Do? && ev.op == RT.GetReply(id) && history == old(history) + [ev]
      ensures RT.Step(cfg, old(state), ev) ==
        (state, if taken.Some? then RT.Delivery(taken.value) else RT.InvalidOperation)
      ensures var e := old(state).entries[id];
        var finished := id in old(state).env.done || ev.first.finish;
        taken == if e.valid && finished && !e.invalidated then Some(cfg.protocol(id, e.input)) else None
    {
      hide RT.Step, RT.Final, RT.TakeReply, RT.IsReadyForRemoval, RT.StepGetReply;
      ghost var o1, o2;
      taken, o1 := invokes[id].GetReply(world);
      var remove;
      remove, o2 := invokes[id].IsReadyForRemoval(world);
      if remove {
        invokes := invokes - {id};
      }
      ev := RT.Do(RT.GetReply(id), o1, o2);
      FetchStep(cfg, state, id, o1, o2);
      Commit(ev, id);
    }

    method GetReply(id: uint64, enc: PayloadEncoding) returns (reply: AnyValue, ghost ev: RT.Event)
      requires Valid()
      modifies this, world, invokes.Values
      ensures Valid() && invokes.Values <= old(invokes.Values)
      ensures ev.Do? && ev.op == RT.GetReply(id) && history == old(history) + [ev]
      ensures state == RT.Step(cfg, old(state), ev).0
      ensures reply == AsyncReply(lib, RT.Step(cfg, old(state), ev).1, enc, GET_REPLY)
      ensures id !in old(invokes) ==> Reports(reply, INVALID_REQUEST_IDENTIFIER_ERROR)
      ensures id in old(invokes) ==>
        var e := old(state).entries[id];
        var finished := id in old(state).env.done || ev.first.finish;
        if !e.valid || !finished || e.invalidated
        then Reports(reply, INVALID_ASYNCHRONOUS_OPERATION_ERROR) && !reply.HasField(Reply)
        else
          match cfg.protocol(id, e.input)
          case Threw => Reports(reply, SERVER_PROTOCOL_EXCEPTION) && !reply.HasField(Reply)
          case Returned(result, output) =>
            Reports(reply, result) && (lib.RoundTrips() ==> TryGetReplyPayload(lib, reply) == Some(output))
    {
      hide RT.Step, RT.Final, CreateAsyncRPCReply;
      if id !in invokes {
        ev := RecordIdle(RT.GetReply(id));
        AnswerOnTheWire(lib, RT.UnknownId, enc, GET_REPLY);
        return CreateAsyncRPCReply(lib, INVALID_REQUEST_IDENTIFIER_ERROR, Empty, Plain, GET_REPLY), ev;
      }
      var taken;
      taken, ev := TakeAndErase(id);
      EmptyPayloadNeedsNoEncoding(lib, INVALID_ASYNCHRONOUS_OPERATION_ERROR, enc, GET_REPLY);
      AnswerOnTheWire(lib, if taken.Some? then RT.Delivery(taken.value) else RT.InvalidOperation, enc, GET_REPLY);
      var (result, output) :=
        if taken.Some? then ResultOf(taken.value) else (INVALID_ASYNCHRONOUS_OPERATION_ERROR, Empty);
      reply := CreateAsyncRPCReply(lib, result, output, enc, GET_REPLY);
    }

    method Invalidate(id: uint64) returns (reply: AnyValue, ghost ev: RT.Event)
      requires Valid()
      modifies this, world, invokes.Values
      ensures Valid() && invokes.Values <= old(invokes.Values)
      ensures ev.Do? && ev.op == RT.Invalidate(id) && history == old(history) + [ev]
      ensures state == RT.Step(cfg, old(state), ev).0
      ensures forall enc :: reply == AsyncReply(lib, RT.Step(cfg, old(state), ev).1, enc, INVALIDATE)
      ensures Reports(reply, if id in old(invokes) then SUCCESS else INVALID_REQUEST_IDENTIFIER_ERROR)
      ensures !reply.HasField(Reply)
    {
      hide RT.Step, RT.Final, RT.IsReadyForRemoval, RT.StepInvalidate,
        CreateAsyncRPCReply, CreateAsyncRPCPollReply, CreateAsyncRPCNewRequestReply;
      if id !in invokes {
        ev := RecordIdle(RT.Invalidate(id));
        AnswerOnTheWire(lib, RT.UnknownId, Plain, INVALIDATE);
        return CreateAsyncRPCReply(lib, INVALID_REQUEST_IDENTIFIER_ERROR, Empty, Plain, INVALIDATE), ev;
      }
      invokes[id].Invalidate();
      var remove, o := invokes[id].IsReadyForRemoval(world);
      if remove {
        invokes := invokes - {id};
      }
      ev := RT.Do(RT.Invalidate(id), o, o);
      InvalidateStep(cfg, state, id, o);
      Commit(ev, id);
      AnswerOnTheWire(lib, RT.Acknowledged, Plain, INVALIDATE);
      reply := CreateAsyncRPCReply(lib, SUCCESS, Empty, Plain, INVALIDATE);
    }

    /** The entry point: any payload and any 32-bit command. */
    method HandleInvoke(payload: AnyValue, enc: PayloadEncoding, command: AsyncCommand)
      returns (reply: AnyValue, ghost ev: RT.Event)
      requires Valid()
      modifies this, world, invokes.Values
      ensures Valid() && fresh(invokes.Values - old(invokes.Values))
      ensures ev.Do? && ev.op == Plan(payload, command) && history == old(history) + [ev]
      ensures state == RT.Step(cfg, old(state), ev).0
      ensures reply == AsyncReply(lib, RT.Step(cfg, old(state), ev).1, enc, command)
      ensures var hasId := payload.HasField(Id) && payload.Get(Id).UInt64?;
        && (command == 0 ==> Reports(reply, SUCCESS))
        && (command > 0 && !hasId ==> Reports(reply, SERVER_TRANSPORT_DECODING_ERROR))
        && (command > 3 && hasId ==> Reports(reply, INVALID_ASYNCHRONOUS_OPERATION_ERROR))
        && (0 < command <= 3 && hasId && payload.Get(Id).u64 !in old(invokes) ==>
              Reports(reply, INVALID_REQUEST_IDENTIFIER_ERROR))
        && (command == 3 && hasId && payload.Get(Id).u64 in old(invokes) ==> Reports(reply, SUCCESS))
    {
      hide RT.Step, RT.Final, Sub64, Reports, TryExtractReadyStatus, TryExtractReplyId, TryGetReplyPayload,
        CreateAsyncRPCReply;
      if command == INITIAL_REQUEST {
        reply, ev := NewRequest(payload, enc);
        return;
      }
      var idInfo := ExtractAsyncRequestId(payload);
      if idInfo.None? {
        ev := RecordIdle(RT.Malformed);
        AnswerOnTheWire(lib, RT.BadPayload, enc, command);
        return CreateAsyncRPCReply(lib, SERVER_TRANSPORT_DECODING_ERROR, Empty, Plain, command), ev;
      }
      if command == POLL {
        reply, ev := Poll(idInfo.value, enc);
      } else if command == GET_REPLY {
        reply, ev := GetReply(idInfo.value, enc);
      } else if command == INVALIDATE {
        reply, ev := Invalidate(idInfo.value);
      } else {
        ev := RecordIdle(RT.Unsupported);
        AnswerOnTheWire(lib, RT.InvalidOperation, enc, command);
        reply := CreateAsyncRPCReply(lib, INVALID_ASYNCHRONOUS_OPERATION_ERROR, Empty, Plain, command);
      }
    }

    /** The answer "not ready" for a live and valid request means that the whole time has passed. */
    method WaitForReady(id: uint64, ns: nat) returns (ready: bool, ghost ev: RT.Event)
      requires Valid()
      modifies this`history, this`state, world, invokes.Values
      ensures Valid()
      ensures ev.Do? && ev.op == RT.Await(id) && history == old(history) + [ev]
      ensures (state, RT.Awaited(ready)) == RT.Step(cfg, old(state), ev)
      ensures !ready && id in invokes && invokes[id].valid && !invokes[id].invalidated ==>
        world.clock >= old(world.clock) + ns
    {
      hide RT.Step, RT.Final, CreateAsyncRPCReply, CreateAsyncRPCPollReply, CreateAsyncRPCNewRequestReply;
      if id !in invokes {
        ev := RecordIdle(RT.Await(id));
        return false, ev;
      }
      ghost var o, waited;
      ready, o, waited := invokes[id].WaitForReady(world, ns);
      ev := RT.Do(RT.Await(id), o, RT.Obs(false, waited));
      AwaitStep(cfg, state, id, o, RT.Obs(false, waited));
      Commit(ev, id);
    }

    /** One iteration of the cleanup loop. */
    method VisitEntry(id: uint64) returns (ghost ev: RT.Event)
      requires Valid() && id in invokes
      modifies this`invokes, this`history, this`state, world
      ensures Valid() && history == old(history) + [ev] && ev.Visit? && ev.id == id
      ensures state == RT.Step(cfg, old(state), ev).0
      ensures invokes == old(invokes) || invokes == old(invokes) - {id}
    {
      hide RT.Step, RT.Final, CreateAsyncRPCReply, CreateAsyncRPCPollReply, CreateAsyncRPCNewRequestReply;
      var remove, o := invokes[id].IsReadyForRemoval(world);
      if remove {
        invokes := invokes - {id};
      }
      ev := RT.Visit(id, o);
      VisitStep(cfg, state, id, o);
      Commit(ev, id);
    }

    /** The loop over the ordered map: the iterator is the least key not visited yet, and erasing moves
        it to the next key. */
    method CleanUpExpiredRequests() returns (ghost sweep: seq<RT.Event>)
      requires Valid()
      modifies this`invokes, this`history, this`state, world
      ensures Valid() && invokes.Values <= old(invokes.Values)
      ensures history == old(history) + sweep && IsSweep(old(invokes.Keys), sweep)
      ensures state == RT.Final(cfg, old(state), sweep)
    {
      hide RT.Step, RT.Final, IsSweep, Valid;
      sweep := [];
      var unvisited := invokes.Keys;
      ghost var visited: set<uint64> := {};
      EmptySweep(cfg, state);
      assert history == old(history) + sweep;
      while unvisited != {}
        invariant Valid() && history == old(history) + sweep && state == RT.Final(cfg, old(state), sweep)
        invariant invokes.Values <= old(invokes.Values)
        invariant unvisited <= invokes.Keys && unvisited !! visited && unvisited + visited == old(invokes.Keys)
        invariant forall i, j | i in visited && j in unvisited :: i < j
        invariant IsSweep(visited, sweep)
        decreases unvisited
      {
        assert IsLeast(Least(unvisited), unvisited);
        var id :| id in unvisited && IsLeast(id, unvisited);
        LeastIsBelow(id, unvisited);
        ghost var ev := VisitEntry(id);
        SweepExtends(visited, sweep, ev);
        FinalExtends(cfg, old(state), sweep, ev);
        sweep := sweep + [ev];
        unvisited, visited := unvisited - {id}, visited + {id};
      }
      assert visited == old(invokes.Keys);
    }
  }

  predicate IsIdle(op: RT.Op, s: RT.State) {
    match op
    case Poll(id) => id !in s.entries
    case GetReply(id) => id !in s.entries
    case Invalidate(id) => id !in s.entries
    case Await(id) => id !in s.entries
    case Malformed => true
    case Unsupported => true
    case Submit(_) => false
  }

  function IdleAnswer(op: RT.Op): RT.Answer {
    match op
    case Await(_) => RT.Awaited(false)
    case Malformed => RT.BadPayload
    case Unsupported => RT.InvalidOperation
    case _ => RT.UnknownId
  }

  lemma IdleStep(cfg: RT.Config, s: RT.State, ev: RT.Event)
    requires ev.Do? && IsIdle(ev.op, s)
    ensures RT.Step(cfg, s, ev) == (s, IdleAnswer(ev.op))
  {
  }

  lemma EmptySweep(cfg: RT.Config, s: RT.State)
    ensures IsSweep({}, []) && RT.Final(cfg, s, []) == s
  {
  }

  lemma FinalExtends(cfg: RT.Config, s: RT.State, evs: seq<RT.Event>, ev: RT.Event)
    ensures RT.Final(cfg, s, evs + [ev]) == RT.Step(cfg, RT.Final(cfg, s, evs), ev).0
  {
    hide RT.Step;
    RT.AtConcat(cfg, s, evs, [ev], |evs|);
  }

  lemma AwaitStep(cfg: RT.Config, s: RT.State, id: uint64, o: RT.Obs, wait: RT.Obs)
    requires id in s.entries
    ensures var (s', a) := RT.Step(cfg, s, RT.Do(RT.Await(id), o, wait));
      var (env, e, ready) := RT.WaitForReady(s.env, id, s.entries[id], o);
      && s'.lastId == s.lastId && s'.env == RT.Elapse(env, wait.dt)
      && a == RT.Awaited(ready) && s'.entries == s.entries[id := e]
  {
  }

  lemma VisitStep(cfg: RT.Config, s: RT.State, id: uint64, o: RT.Obs)
    requires id in s.entries
    ensures var s' := RT.Step(cfg, s, RT.Visit(id, o)).0;
      var (env, remove) := RT.IsReadyForRemoval(cfg, s.env, id, s.entries[id], o);
      s'.lastId == s.lastId && s'.env == env && s'.entries == if remove then s.entries - {id} else s.entries
  {
  }

  lemma SubmitStep(cfg: RT.Config, s: RT.State, payload: AnyValue, o: RT.Obs)
    ensures var (s', a) := RT.Step(cfg, s, RT.Do(RT.Submit(payload), o, o));
      var id := RT.NextId(s);
      var now := s.env.clock + o.dt;
      && s'.lastId == id && a == RT.Accepted(id)
      && (id in s.entries ==> s'.entries == s.entries && s'.env == s.env)
      && (id !in s.entries ==>
            && s'.entries == s.entries[id := RT.Entry(payload, true, false, now)]
            && s'.env == RT.Env(now, s.env.done - {id}))
  {
  }

  lemma PollStep(cfg: RT.Config, s: RT.State, id: uint64, o1: RT.Obs, o2: RT.Obs)
    requires id in s.entries
    ensures var (s', a) := RT.Step(cfg, s, RT.Do(RT.Poll(id), o1, o2));
      var (env1, removable) := RT.IsReadyForRemoval(cfg, s.env, id, s.entries[id], o1);
      var (env2, e, ready) := RT.WaitForReady(env1, id, s.entries[id], o2);
      && s'.lastId == s.lastId
      && (removable ==> s'.entries == s.entries && s'.env == env1 && a == RT.InvalidOperation)
      && (!removable ==> s'.entries == s.entries[id := e] && s'.env == env2 && a == RT.Readiness(ready))
      && (var was := s.entries[id];
          var expired := Sub64(s.env.clock + o1.dt, was.lastAccess) > cfg.expirationNs;
          && (removable <==> !was.valid || ((id in s.env.done || o1.finish) && (was.invalidated || expired)))
          && (!removable ==> (ready <==> !was.invalidated && id in env2.done)))
  {
  }

  lemma FetchStep(cfg: RT.Config, s: RT.State, id: uint64, o1: RT.Obs, o2: RT.Obs)
    requires id in s.entries
    ensures var (s', a) := RT.Step(cfg, s, RT.Do(RT.GetReply(id), o1, o2));
      var (env1, e, reply) := RT.TakeReply(cfg, s.env, id, s.entries[id], o1);
      var (env2, remove) := RT.IsReadyForRemoval(cfg, env1, id, e, o2);
      && s'.lastId == s.lastId && s'.env == env2
      && s'.entries == (if remove then s.entries - {id} else s.entries[id := e])
      && a == (if reply.Some? then RT.Delivery(reply.value) else RT.InvalidOperation)
      && (var was := s.entries[id];
          reply == if was.valid && (id in s.env.done || o1.finish) && !was.invalidated
                   then Some(cfg.protocol(id, was.input)) else None)
  {
  }

  lemma InvalidateStep(cfg: RT.Config, s: RT.State, id: uint64, o: RT.Obs)
    requires id in s.entries
    ensures var (s', a) := RT.Step(cfg, s, RT.Do(RT.Invalidate(id), o, o));
      var e := s.entries[id].(invalidated := true);
      var (env, remove) := RT.IsReadyForRemoval(cfg, s.env, id, e, o);
      && s'.lastId == s.lastId && s'.env == env && a == RT.Acknowledged
      && s'.entries == (if remove then s.entries - {id} else s.entries[id := e])
  {
  }

  predicate IsLeast(m: uint64, s: set<uint64>) {
    m in s && forall i | i in s :: m <= i
  }

  lemma LeastIsBelow(m: uint64, s: set<uint64>)
    requires IsLeast(m, s)
    ensures forall i | i in s && i != m :: m < i
  {
  }

  ghost function Least(s: set<uint64>): (m: uint64)
    requires s != {}
    ensures IsLeast(m, s)
  {
    var x :| x in s;
    if s == {x} then x
    else
      var m := Least(s - {x});
      assert s == (s - {x}) + {x};
      if m < x then m else x
  }

  /** Visiting a larger key than all those visited so far continues a sweep. */
  lemma SweepExtends(visited: set<uint64>, sweep: seq<RT.Event>, ev: RT.Event)
    requires IsSweep(visited, sweep) && ev.Visit? && forall i | i in visited :: i < ev.id
    ensures IsSweep(visited + {ev.id}, sweep + [ev])
  {
    var longer := sweep + [ev];
    forall id | id in visited + {ev.id} ensures exists i :: 0 <= i < |longer| && longer[i].id == id {
      if id == ev.id {
        assert longer[|sweep|].id == id;
      } else {
        var i :| 0 <= i < |sweep| && sweep[i].id == id;
        assert longer[i].id == id;
      }
    }
  }
}
