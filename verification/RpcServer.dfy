/** The server itself (`protocol_rpc_server.cpp`): paced cleanup, dispatch, and the reply to every packet
    whatsoever. Calls are serialised here; interleaved ones are runs of the state machine. */
module RpcServer {
  import opened Values
  import opened Packets
  import opened ServerProtocol
  import opened AsyncInvocations
  import opened AsyncServer
  import opened Cleanup
  import opened Retention
  import opened TableInvariant
  import RT = RequestTable

  datatype ProtocolCall = InvokeCall(input: AnyValue, outcome: Outcome) | ServiceCall(input: AnyValue, outcome: Outcome)

  /** The application's protocol, called directly for synchronous requests. It may do anything. */
  class Protocol {
    ghost var calls: seq<ProtocolCall>

    method Invoke(input: AnyValue) returns (outcome: Outcome)
      modifies this
      ensures calls == old(calls) + [InvokeCall(input, outcome)]
    {
      outcome := *;
      calls := calls + [InvokeCall(input, outcome)];
    }

    method Serve(input: AnyValue) returns (outcome: Outcome)
      modifies this
      ensures calls == old(calls) + [ServiceCall(input, outcome)]
    {
      outcome := *;
      calls := calls + [ServiceCall(input, outcome)];
    }
  }

  class ExpirationTimeoutHandler {
    var lastTimestamp: nat
    const cleanupNs: nat

    constructor (cleanupNs: nat)
      ensures this.cleanupNs == cleanupNs && lastTimestamp == 0
    {
      this.cleanupNs, lastTimestamp := cleanupNs, 0;
    }

    method IsCleanUpNeeded(world: World) returns (needed: bool, ghost dt: nat)
      modifies this, world
      ensures world.View() == old(world.View()).(clock := old(world.clock) + dt)
      ensures needed <==> Sub64(world.clock, old(lastTimestamp)) > cleanupNs
      ensures lastTimestamp == if needed then world.clock else old(lastTimestamp)
    {
      var now;
      now, dt := world.GetCurrentTimestamp();
      var passed := Sub64(now, lastTimestamp);
      if passed > cleanupNs {
        lastTimestamp := now;
        return true, dt;
      }
      return false, dt;
    }
  }

  class ProtocolRPCServer {
    const requests: AsyncInvokeServer
    const protocol: Protocol
    const pacing: ExpirationTimeoutHandler
    ghost const started: nat
    ghost var calls: seq<Call>
    ghost var idle: seq<RT.Event>  // since the last call

    /** The table and the time of the last cleanup are the ones that the calls so far lead to, and every
        one of them has cleaned up if and only if it was time to. */
    ghost predicate Valid()
      reads this, requests, requests.world, requests.invokes.Values, pacing
    {
      && requests.Valid() && AreCalls(requests.cfg, pacing.cleanupNs, started, calls)
      && var p := After(requests.cfg, pacing.cleanupNs, started, calls, |calls|);
         requests.state == RT.Final(requests.cfg, p.table, idle) && pacing.lastTimestamp == p.last
    }

    constructor (lib: Library, cfg: RT.Config, cleanupNs: nat, protocol: Protocol, clock: nat)
      ensures Valid() && this.protocol == protocol && requests.lib == lib && requests.cfg == cfg
      ensures pacing.cleanupNs == cleanupNs && requests.history == [RT.Tick(clock)]
      ensures started == clock && calls == [] && idle == []
      ensures fresh(requests) && fresh(requests.world) && fresh(pacing)
    {
      var world := new World(clock);
      requests := new AsyncInvokeServer(lib, cfg, world);
      this.protocol := protocol;
      pacing := new ExpirationTimeoutHandler(cleanupNs);
      started, calls, idle := clock, [], [];
      new;
      EmptySweep(cfg, requests.state);
    }

    /** Between calls time passes and threads finish. */
    method OtherThreadsRun(thread: uint64)
      requires Valid()
      modifies this`idle, requests`history, requests`state, requests.world
      ensures Valid() && old(idle) <= idle
      ensures requests.history == old(requests.history) + idle[|old(idle)|..]
      ensures forall ev | ev in idle[|old(idle)|..] :: ev.Tick? || ev.Finish?
    {
      hide RT.Step, RT.Final, AreCalls, After;
      ghost var evs := requests.OtherThreadsRun(thread);
      ghost var p := After(requests.cfg, pacing.cleanupNs, started, calls, |calls|);
      FinalConcat(requests.cfg, RT.INIT, old(requests.history), evs);
      FinalConcat(requests.cfg, p.table, idle, evs);
      idle := idle + evs;
    }

    /** The first part of every call: look at the clock and clean up if it is time. */
    method CleanUpIfNeeded() returns (ghost dt: nat, ghost sweep: seq<RT.Event>)
      requires requests.Valid()
      modifies requests, requests.world, pacing
      ensures requests.Valid() && requests.invokes.Values <= old(requests.invokes.Values)
      ensures requests.history == old(requests.history) + [RT.Tick(dt)] + sweep
      ensures var looked := RT.Step(requests.cfg, old(requests.state), RT.Tick(dt)).0;
        var cleaned := Sub64(looked.env.clock, old(pacing.lastTimestamp)) > pacing.cleanupNs;
        && requests.state == RT.Final(requests.cfg, looked, sweep)
        && pacing.lastTimestamp == (if cleaned then looked.env.clock else old(pacing.lastTimestamp))
        && if cleaned then IsSweep(looked.entries.Keys, sweep) else sweep == []
    {
      hide RT.Final, IsSweep;
      var needed;
      needed, dt := pacing.IsCleanUpNeeded(requests.world);
      requests.NoteClock(dt);
      sweep := [];
      EmptySweep(requests.cfg, requests.state);
      if needed {
        sweep := requests.CleanUpExpiredRequests();
      }
      assert requests.history == old(requests.history) + [RT.Tick(dt)] + sweep;
    }

    method HandleInvokeRequest(request: AnyValue, enc: PayloadEncoding)
      returns (reply: AnyValue, ghost serve: seq<RT.Event>)
      requires requests.Valid()
      modifies requests, requests.world, requests.invokes.Values, protocol
      ensures requests.Valid() && fresh(requests.invokes.Values - old(requests.invokes.Values))
      ensures requests.history == old(requests.history) + serve
      ensures requests.state == RT.Final(requests.cfg, old(requests.state), serve)
      ensures Served(requests.lib, requests.cfg, old(requests.state), DecideInvoke(requests.lib, request, enc),
                     reply, serve,
                     old(protocol.calls), protocol.calls)
    {
      hide RT.Step, RT.Final;
      var lib := requests.lib;
      serve := [];
      EmptySweep(requests.cfg, requests.state);
      assert requests.history == old(requests.history) + serve;
      if !CheckRequestFormat(request) {
        return RefusalReply(lib, SERVER_TRANSPORT_DECODING_ERROR), serve;
      }
      var payload := TryExtractRPCPayload(lib, request, Query, enc);
      if payload.None? {
        return RefusalReply(lib, SERVER_TRANSPORT_DECODING_ERROR), serve;
      }
      var asyncInfo := GetAsyncInfo(request);
      if asyncInfo.Some? {
        ghost var ev;
        reply, ev := requests.HandleInvoke(payload.value, enc, asyncInfo.value);
        serve := [ev];
        FinalExtends(requests.cfg, old(requests.state), [], ev);
        assert [] + [ev] == [ev];
      } else {
        var outcome := protocol.Invoke(payload.value);
        reply := if outcome.Threw? then RefusalReply(lib, SERVER_PROTOCOL_EXCEPTION)
                 else CreateRPCReply(lib, outcome.result, outcome.output, enc);
      }
    }

    method HandleServiceRequest(request: AnyValue, enc: PayloadEncoding) returns (reply: AnyValue)
      modifies protocol
      ensures Served(requests.lib, requests.cfg, requests.state, DecideService(requests.lib, request, enc), reply, [],
                     old(protocol.calls), protocol.calls)
    {
      var lib := requests.lib;
      var payload := TryExtractRPCPayload(lib, request, Service, enc);
      if payload.None? {
        return RefusalReply(lib, SERVER_TRANSPORT_DECODING_ERROR);
      }
      var outcome := protocol.Serve(payload.value);
      reply := if outcome.Threw? then CreateServiceReply(lib, SERVER_PROTOCOL_EXCEPTION, Empty, Plain)
               else CreateServiceReply(lib, outcome.result, outcome.output, enc);
    }

    method Dispatch(input: AnyValue) returns (reply: AnyValue, ghost serve: seq<RT.Event>)
      requires requests.Valid()
      modifies requests, requests.world, requests.invokes.Values, protocol
      ensures requests.Valid() && fresh(requests.invokes.Values - old(requests.invokes.Values))
      ensures requests.history == old(requests.history) + serve
      ensures requests.state == RT.Final(requests.cfg, old(requests.state), serve)
      ensures Served(requests.lib, requests.cfg, old(requests.state), Decide(requests.lib, input), reply, serve,
                     old(protocol.calls), protocol.calls)
    {
      hide RT.Step, RT.Final, DecideInvoke, DecideService;
      serve := [];
      EmptySweep(requests.cfg, requests.state);
      assert requests.history == old(requests.history) + serve;
      var encoding := TryGetPacketEncoding(input);
      if encoding.None? {
        reply := RefusalReply(requests.lib, SERVER_UNSUPPORTED_PAYLOAD_ENCODING_ERROR);
      } else if CheckServiceRequest(input) {
        reply := HandleServiceRequest(input, encoding.value);
      } else {
        reply, serve := HandleInvokeRequest(input, encoding.value);
      }
    }

    /** The end of a call, which leaves the table and the pacing as the call says. */
    ghost method RecordCall(c: Call)
      requires requests.Valid() && AreCalls(requests.cfg, pacing.cleanupNs, started, calls)
      requires var p := After(requests.cfg, pacing.cleanupNs, started, calls, |calls|);
        && IsCall(requests.cfg, pacing.cleanupNs, p, c)
        && AfterCall(requests.cfg, pacing.cleanupNs, p, c) == Paced(requests.state, pacing.lastTimestamp)
      modifies this`calls, this`idle
      ensures Valid() && calls == old(calls) + [c] && idle == []
      ensures WithinLimits(requests.state) ==> NothingOverstays(requests.cfg, pacing.cleanupNs, started, calls)
    {
      hide RT.Step, RT.Final, IsSweep, NothingOverstays, AreCalls, After, IsCall, AfterCall;
      CallsExtend(requests.cfg, pacing.cleanupNs, started, calls, c);
      calls, idle := calls + [c], [];
      EmptySweep(requests.cfg, requests.state);
      if WithinLimits(requests.state) {
        RetentionIsBounded(requests.cfg, pacing.cleanupNs, started, calls);
      }
    }

    /** One call: a look at the clock, a cleanup if and only if it is time, and then a well-formed reply to
        any packet, from the part of the system it is meant for; an asynchronous reply carries the
        command of its request. The history grows by these events and no others. And after every call,
        what had finished by the last cleanup is either gone or wanted, and was last accessed at most
        expiration plus cleanup interval ago. */
    method Handle(input: AnyValue) returns (reply: AnyValue, ghost c: Call)
      requires Valid()
      modifies this, requests, requests.world, requests.invokes.Values, pacing, protocol
      ensures Valid() && fresh(requests.invokes.Values - old(requests.invokes.Values))
      ensures calls == old(calls) + [c] && c.idle == old(idle) && idle == []
      ensures requests.history == old(requests.history) + [RT.Tick(c.dt)] + c.sweep + c.serve
      ensures var swept := RT.Final(requests.cfg, RT.INIT, old(requests.history) + [RT.Tick(c.dt)] + c.sweep);
        Served(requests.lib, requests.cfg, swept, Decide(requests.lib, input), reply, c.serve,
               old(protocol.calls), protocol.calls)
      ensures CheckReplyFormat(reply)
      ensures var d := Decide(requests.lib, input); d.CallAsync? ==> GetAsyncInfo(reply) == Some(d.command)
      ensures var base64 := input.HasField(Encoding) && input.Get(Encoding) == Int32(1);
        var unknown := input.HasField(Encoding) && !base64 && input.Get(Encoding) != Int32(0);
        var carrier := if input.HasField(Service) then Service else Query;
        var malformed :=
          || !input.HasField(carrier)
          || (base64 && (!input.Get(carrier).Text? || requests.lib.decode(input.Get(carrier).text).None?))
          || (carrier == Query && input.HasField(Timestamp) && !input.Get(Timestamp).UInt64?)
          || (carrier == Query && input.HasField(Async) && !input.Get(Async).UInt32?);
        && (unknown ==> Reports(reply, SERVER_UNSUPPORTED_PAYLOAD_ENCODING_ERROR))
        && (!unknown && malformed ==> Reports(reply, SERVER_TRANSPORT_DECODING_ERROR))
        && (unknown || malformed ==> c.serve == [] && protocol.calls == old(protocol.calls) && !reply.HasField(Reply))
      ensures protocol.calls == old(protocol.calls)
           || (|protocol.calls| == |old(protocol.calls)| + 1
               && match protocol.calls[|old(protocol.calls)|].outcome
                  case Threw => Reports(reply, SERVER_PROTOCOL_EXCEPTION) && !reply.HasField(Reply)
                  case Returned(result, output) =>
                    && Reports(reply, result)
                    && (requests.lib.RoundTrips() ==> TryGetReplyPayload(requests.lib, reply) == Some(output)))
      ensures WithinLimits(requests.state) ==> NothingOverstays(requests.cfg, pacing.cleanupNs, started, calls)
    {
      hide Reports, TryGetReplyPayload, RT.Step, RT.Final, IsSweep, Served, Decide, NothingOverstays, AreCalls, After;
      ghost var dt, sweep, serve;
      dt, sweep := CleanUpIfNeeded();
      ghost var swept := requests.state;
      reply, serve := Dispatch(input);
      ServedIsWellFormed(requests.lib, requests.cfg, swept, Decide(requests.lib, input), reply, serve,
                         old(protocol.calls), protocol.calls);
      ServedOnTheWire(requests.lib, requests.cfg, swept, Decide(requests.lib, input), reply, serve,
                      old(protocol.calls), protocol.calls);
      RefusedExactly(requests.lib, input);
      c := Call(idle, dt, sweep, serve);
      assert requests.history == old(requests.history) + [RT.Tick(dt)] + sweep + serve;
      RecordCall(c);
    }
  }

  /** What a decision leads to: which part of the system acts, exactly once, and the reply. Only an
      asynchronous command touches the table, and only a direct call reaches the protocol. */
  ghost predicate Served(lib: Library, cfg: RT.Config, s: RT.State, d: Decision, reply: AnyValue, serve: seq<RT.Event>,
                         before: seq<ProtocolCall>, after: seq<ProtocolCall>)
  {
    match d
    case Refuse(result) => serve == [] && after == before && reply == RefusalReply(lib, result)
    case CallService(payload, enc) =>
      && serve == [] && |after| == |before| + 1
      && var outcome := after[|before|].outcome;
         after == before + [ServiceCall(payload, outcome)] && reply == ServiceReply(lib, outcome, enc)
    case CallSync(payload, enc) =>
      && serve == [] && |after| == |before| + 1
      && var outcome := after[|before|].outcome;
         after == before + [InvokeCall(payload, outcome)] && reply == SyncReply(lib, outcome, enc)
    case CallAsync(payload, enc, command) =>
      && |serve| == 1 && serve[0].Do? && serve[0].op == Plan(payload, command) && after == before
      && reply == AsyncReply(lib, RT.Step(cfg, s, serve[0]).1, enc, command)
  }

  lemma ServedIsWellFormed(lib: Library, cfg: RT.Config, s: RT.State, d: Decision, reply: AnyValue,
                           serve: seq<RT.Event>, before: seq<ProtocolCall>, after: seq<ProtocolCall>)
    requires Served(lib, cfg, s, d, reply, serve, before, after)
    ensures CheckReplyFormat(reply)
    ensures d.CallAsync? ==> GetAsyncInfo(reply) == Some(d.command)
  {
    hide RT.Step, CreateTypedReply;
    match d
    case CallAsync(payload, enc, command) =>
      AsyncReplyEchoes(lib, cfg, s, payload, enc, command, serve[0].first, serve[0].second);
    case Refuse(result) => ReplyWellFormed(lib, REPLY_TYPE, result, Empty, Plain, 0);
    case CallService(_, enc) =>
      var (result, output) := ResultOf(after[|before|].outcome);
      ReplyWellFormed(lib, SERVICE_REPLY_TYPE, result, output, enc, 0);
    case CallSync(_, enc) =>
      var (result, output) := ResultOf(after[|before|].outcome);
      ReplyWellFormed(lib, REPLY_TYPE, result, output, enc, 0);
  }

  /** The result and payload of the reply packet: a refusal carries its code, and a direct call of the
      protocol the result and the output that it returned, or the code for an exception. */
  lemma ServedOnTheWire(lib: Library, cfg: RT.Config, s: RT.State, d: Decision, reply: AnyValue,
                        serve: seq<RT.Event>, before: seq<ProtocolCall>, after: seq<ProtocolCall>)
    requires Served(lib, cfg, s, d, reply, serve, before, after)
    ensures d.Refuse? ==> Reports(reply, d.result) && !reply.HasField(Reply) && serve == [] && after == before
    ensures d.CallAsync? ==> after == before
    ensures d.CallSync? || d.CallService? ==>
      && serve == [] && |after| == |before| + 1
      && after[|before|].InvokeCall? == d.CallSync? && after[|before|].input == d.payload
      && match after[|before|].outcome
         case Threw => Reports(reply, SERVER_PROTOCOL_EXCEPTION) && !reply.HasField(Reply)
         case Returned(result, output) =>
           Reports(reply, result) && (lib.RoundTrips() ==> TryGetReplyPayload(lib, reply) == Some(output))
  {
    hide RT.Step, CreateTypedReply, Reports, AsyncReply, TryGetReplyPayload;
    if d.Refuse? {
      ReplyWellFormed(lib, REPLY_TYPE, d.result, Empty, Plain, 0);
    } else if !d.CallAsync? {
      var (result, output) := ResultOf(after[|before|].outcome);
      var typeName := if d.CallSync? then REPLY_TYPE else SERVICE_REPLY_TYPE;
      ReplyWellFormed(lib, typeName, result, output, d.enc, 0);
      if lib.RoundTrips() { ReplyReadsBack(lib, typeName, result, output, d.enc, 0); }
    }
  }

  lemma FinalConcat(cfg: RT.Config, s: RT.State, a: seq<RT.Event>, b: seq<RT.Event>)
    ensures RT.Final(cfg, s, a + b) == RT.Final(cfg, RT.Final(cfg, s, a), b)
  {
    RT.AtConcat(cfg, s, a, b, |a + b|);
  }
}
