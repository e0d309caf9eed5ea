/** Client and server together: an asynchronous Invoke gives the caller what a synchronous one would. */
module EndToEnd {
  import opened Values
  import opened Packets
  import opened ServerProtocol
  import opened Client
  import opened TableGuarantees
  import opened KeepAlive
  import opened TableInvariant
  import RpcServer
  import RT = RequestTable

  // ----- each reply of the server, as the client reads it

  lemma StartIsRead(lib: Library, id: uint64, enc: PayloadEncoding)
    requires lib.RoundTrips() && id != 0
    ensures DecodeStart(lib, Packet(AsyncReply(lib, RT.Accepted(id), enc, INITIAL_REQUEST))) == Later(id)
  {
    hide CreateAsyncRPCReply;
    HandleRepliesReadBack(lib, id, true, enc);
    ReplyReadsBack(lib, REPLY_TYPE, SUCCESS, Struct("", map[Id := UInt64(id)]), enc, INITIAL_REQUEST);
  }

  lemma PollIsRead(lib: Library, ready: bool, enc: PayloadEncoding)
    requires lib.RoundTrips()
    ensures DecodePoll(lib, Packet(AsyncReply(lib, RT.Readiness(ready), enc, POLL))) == (SUCCESS, ready)
  {
    hide CreateAsyncRPCReply;
    HandleRepliesReadBack(lib, 1, ready, enc);
  }

  /** The errors a poll can get carry no payload, so the client takes them for a malformed reply. */
  lemma PollErrorIsReadAsMalformed(lib: Library, answer: RT.Answer, enc: PayloadEncoding)
    requires lib.RoundTrips() && (answer == RT.UnknownId || answer == RT.InvalidOperation)
    ensures DecodePoll(lib, Packet(AsyncReply(lib, answer, enc, POLL))) == (CLIENT_TRANSPORT_DECODING_ERROR, false)
  {
  }

  /** Exactly when a client that polls sees a failure: when the request has left the table, or is finished
      and unwanted at the first look. It is then told that the reply is malformed, and not what is wrong. */
  lemma PollFailsExactly(lib: Library, cfg: RT.Config, s: RT.State, id: uint64, enc: PayloadEncoding,
                         o1: RT.Obs, o2: RT.Obs)
    requires lib.RoundTrips() && Inv(cfg, s) && WithinLimits(RT.StepPoll(cfg, s, id, o1, o2).0)
    ensures var (s', a) := RT.StepPoll(cfg, s, id, o1, o2);
      var seen := DecodePoll(lib, Packet(AsyncReply(lib, a, enc, POLL)));
      var failed := id in s.entries ==>
        && (id in s.env.done || o1.finish)
        && (s.entries[id].invalidated || s.env.clock + o1.dt > s.entries[id].lastAccess + cfg.expirationNs);
      && (failed ==> seen == (CLIENT_TRANSPORT_DECODING_ERROR, false))
      && (!failed ==> seen == (SUCCESS, !s.entries[id].invalidated && id in s'.env.done))
  {
    hide Inv, DecodePoll, AsyncReply;
    var (s', a) := RT.StepPoll(cfg, s, id, o1, o2);
    if id in s.entries {
      PollExactly(cfg, s, id, o1, o2);
    }
    if a == RT.UnknownId || a == RT.InvalidOperation {
      PollErrorIsReadAsMalformed(lib, a, enc);
    } else {
      PollIsRead(lib, a.ready, enc);
    }
  }

  /** A fetched reply is read exactly as the synchronous reply for the same outcome. */
  lemma FetchIsReadAsSync(lib: Library, outcome: Outcome, enc: PayloadEncoding, output: AnyValue)
    requires lib.RoundTrips()
    ensures DecodeGetReply(lib, Packet(AsyncReply(lib, RT.Delivery(outcome), enc, GET_REPLY)), output)
            == DecodeSync(lib, Packet(SyncReply(lib, outcome, enc)), output)
  {
    hide CreateAsyncRPCReply, CreateTypedReply;
    ReplyReadsBack(lib, REPLY_TYPE, ResultOf(outcome).0, ResultOf(outcome).1, enc, GET_REPLY);
  }

  /** What the caller of a synchronous Invoke gets, for every outcome of the protocol: the code for an
      exception; the protocol's own result; and on success its output, which replaces an empty output, is
      converted into another one, or leaves that alone if it is empty itself. */
  lemma SyncDeliversOutcome(lib: Library, outcome: Outcome, enc: PayloadEncoding, output: AnyValue)
    requires lib.RoundTrips()
    ensures var seen := DecodeSync(lib, Packet(SyncReply(lib, outcome, enc)), output);
      match outcome
      case Threw => seen == (SERVER_PROTOCOL_EXCEPTION, output)
      case Returned(result, v) =>
        && (result != SUCCESS ==> seen == (result, output))
        && (result == SUCCESS && v.Empty? ==> seen == (SUCCESS, output))
        && (result == SUCCESS && !v.Empty? && output.Empty? ==> seen == (SUCCESS, v))
        && (result == SUCCESS && !v.Empty? && !output.Empty? ==>
              match lib.convert(output, v)
              case Some(converted) => seen == (SUCCESS, converted)
              case None => seen == (CLIENT_TRANSPORT_DECODING_ERROR, output))
  {
    hide CreateAsyncRPCReply, CreateTypedReply;
    ReplyReadsBack(lib, REPLY_TYPE, ResultOf(outcome).0, ResultOf(outcome).1, enc, GET_REPLY);
  }

  /** Exactly what a client that fetches gets, in every state of the table: the code for an unknown id; the
      code for an invalid operation while the thread is running, and once the request is invalidated; and
      otherwise the outcome of the protocol, with the output stored as in a synchronous Invoke. */
  lemma FetchExactly(lib: Library, cfg: RT.Config, s: RT.State, id: uint64, enc: PayloadEncoding,
                     o1: RT.Obs, o2: RT.Obs, output: AnyValue)
    requires lib.RoundTrips() && Inv(cfg, s) && WithinLimits(RT.StepGetReply(cfg, s, id, o1, o2).0)
    ensures var a := RT.StepGetReply(cfg, s, id, o1, o2).1;
      var seen := DecodeGetReply(lib, Packet(AsyncReply(lib, a, enc, GET_REPLY)), output);
      && (id !in s.entries ==> seen == (INVALID_REQUEST_IDENTIFIER_ERROR, output))
      && (id in s.entries ==>
            var ready := (id in s.env.done || o1.finish) && !s.entries[id].invalidated;
            && (!ready ==> seen == (INVALID_ASYNCHRONOUS_OPERATION_ERROR, output))
            && (ready ==>
                  match cfg.protocol(id, s.entries[id].input)
                  case Threw => seen == (SERVER_PROTOCOL_EXCEPTION, output)
                  case Returned(result, v) =>
                    && (result != SUCCESS ==> seen == (result, output))
                    && (result == SUCCESS && v.Empty? ==> seen == (SUCCESS, output))
                    && (result == SUCCESS && !v.Empty? && output.Empty? ==> seen == (SUCCESS, v))
                    && (result == SUCCESS && !v.Empty? && !output.Empty? ==>
                          match lib.convert(output, v)
                          case Some(converted) => seen == (SUCCESS, converted)
                          case None => seen == (CLIENT_TRANSPORT_DECODING_ERROR, output))))
  {
    hide Inv, DecodeGetReply, DecodeSync, AsyncReply, SyncReply, RT.StepGetReply;
    var a := RT.StepGetReply(cfg, s, id, o1, o2).1;
    if id in s.entries {
      GetReplyExactly(cfg, s, id, o1, o2);
      InputIsPayload(cfg, s, id);
    } else {
      GoneIsUnknown(cfg, s, RT.Do(RT.GetReply(id), o1, o2), id);
    }
    if a.Delivery? {
      FetchIsReadAsSync(lib, a.outcome, enc, output);
      SyncDeliversOutcome(lib, a.outcome, enc, output);
    } else {
      FetchErrorIsRead(lib, a, enc, output);
    }
  }

  lemma InputIsPayload(cfg: RT.Config, s: RT.State, id: uint64)
    requires Inv(cfg, s) && id in s.entries
    ensures s.lastId == |s.issued| && Issued(s, id) && s.entries[id].input == PayloadOf(s, id)
  {
    assert LiveOk(cfg, s, id);
  }

  lemma FetchErrorIsRead(lib: Library, answer: RT.Answer, enc: PayloadEncoding, output: AnyValue)
    requires answer == RT.UnknownId || answer == RT.InvalidOperation
    ensures DecodeGetReply(lib, Packet(AsyncReply(lib, answer, enc, GET_REPLY)), output)
            == (if answer.UnknownId? then INVALID_REQUEST_IDENTIFIER_ERROR else INVALID_ASYNCHRONOUS_OPERATION_ERROR,
                output)
  {
  }

  /** A server that does not know asynchronous requests answers the initial request at once: the client
      takes that reply, sends nothing more, and its caller gets what a synchronous Invoke would give. */
  lemma AtOnceAgreesWithSync(lib: Library, enc: PayloadEncoding, input: AnyValue, outcome: Outcome, output: AnyValue,
                             t: seq<Exchange>, polls: nat, result: ProtocolResult, output': AnyValue,
                             ts: seq<Exchange>, syncResult: ProtocolResult, syncOutput': AnyValue)
    requires !input.Empty?
    requires AsyncRun(lib, enc, input, output, t, polls, result, output')
    requires t[0].response == Packet(SyncReply(lib, outcome, enc))
    requires SyncRun(lib, enc, input, output, ts, syncResult, syncOutput') && ServedSync(lib, outcome, ts[0])
    requires lib.RoundTrips()
    ensures |t| == 1 && (result, output') == (syncResult, syncOutput')
    ensures outcome.Threw? ==> (result, output') == (SERVER_PROTOCOL_EXCEPTION, output)
    ensures outcome.Returned? && outcome.result != SUCCESS ==> (result, output') == (outcome.result, output)
    ensures outcome.Returned? && outcome.result == SUCCESS && !outcome.output.Empty? && output.Empty? ==>
              (result, output') == (SUCCESS, outcome.output)
  {
    hide Decide, DecodeReply, DecodeStart, CreateTypedReply, CreateRPCRequest, DecodePoll, DecodeGetReply;
    RequestsReachTheirHandler(lib, input, 0, enc, 0);
    ReplyWellFormed(lib, REPLY_TYPE, ResultOf(outcome).0, ResultOf(outcome).1, enc, 0);
    StartIsReadExactly(lib, t[0].response);
    SyncDeliversOutcome(lib, outcome, enc, output);
  }

  /** The limit on the number of requests is needed: number 2^64 gets id 0, and the client refuses a reply
      with that id although the server has started the request. No other request gets it. */
  lemma LastIdIsRefused(lib: Library, cfg: RT.Config, s: RT.State, input: AnyValue, enc: PayloadEncoding, o: RT.Obs)
    requires lib.RoundTrips()
    ensures var (s', a) := RT.StepSubmit(cfg, s, input, o);
      var started := DecodeStart(lib, Packet(AsyncReply(lib, a, enc, INITIAL_REQUEST)));
      && a == RT.Accepted(RT.NextId(s)) && RT.NextId(s) in s'.entries
      && (s.lastId == U64_LIMIT - 1 <==> started == Failed(CLIENT_TRANSPORT_DECODING_ERROR))
      && (s.lastId < U64_LIMIT - 1 ==> started == Later(s.lastId + 1))
  {
    hide CreateAsyncRPCReply;
    var id := RT.NextId(s);
    HandleRepliesReadBack(lib, id, true, enc);
    ReplyReadsBack(lib, REPLY_TYPE, SUCCESS, Struct("", map[Id := UInt64(id)]), enc, INITIAL_REQUEST);
  }

  // ----- exchanges as events of a run

  /** The packet was handled as event number i of the run, and the reply came back. */
  ghost predicate ServedBy(lib: Library, cfg: RT.Config, evs: seq<RT.Event>, i: nat, x: Exchange)
    requires i < |evs|
  {
    var d := Decide(lib, x.request);
    && d.CallAsync? && evs[i].Do? && evs[i].op == Plan(d.payload, d.command)
    && x.response == Packet(AsyncReply(lib, ReplyTo(cfg, evs, i), d.enc, d.command))
  }

  ghost predicate ServedInOrder(lib: Library, cfg: RT.Config, evs: seq<RT.Event>, at: seq<nat>, t: seq<Exchange>) {
    && |at| == |t|
    && (forall k | 0 <= k < |at| :: at[k] < |evs|)
    && (forall j, k | 0 <= j < k < |at| :: at[j] < at[k])
    && (forall k | 0 <= k < |t| :: ServedBy(lib, cfg, evs, at[k], t[k]))
  }

  /** What the server's objects guarantee of one call (see RpcServer.ProtocolRPCServer.Handle) makes its
      packet served in this sense, in every continuation of the history. */
  lemma HandledPacketIsServed(lib: Library, cfg: RT.Config, earlier: seq<RT.Event>, serve: seq<RT.Event>,
                              later: seq<RT.Event>, input: AnyValue, reply: AnyValue,
                              before: seq<RpcServer.ProtocolCall>, after: seq<RpcServer.ProtocolCall>)
    requires var s, d := RT.Final(cfg, RT.INIT, earlier), Decide(lib, input);
      d.CallAsync? && RpcServer.Served(lib, cfg, s, d, reply, serve, before, after)
    ensures ServedBy(lib, cfg, earlier + serve + later, |earlier|, Exchange(input, Packet(reply)))
    ensures after == before
  {
    hide RT.Step, Decide, AsyncReply, Plan;
    RT.AtConcat(cfg, RT.INIT, earlier, serve + later, |earlier|);
    assert earlier + serve + later == earlier + (serve + later);
  }

  /** The request submitted by event i is kept alive through event j, and nobody else fetches it first. */
  ghost predicate StaysAlive(cfg: RT.Config, evs: seq<RT.Event>, i: nat, j: nat)
    requires i <= j < |evs|
  {
    ReplyTo(cfg, evs, i).Accepted? && i < j ==>
      var id := ReplyTo(cfg, evs, i).id;
      && KeptAliveBetween(cfg, evs, i, j, id)
      && (id in Before(cfg, evs, j).entries ==> KeptAlive(cfg, Before(cfg, evs, j), evs[j], id))
  }

  lemma StartServed(lib: Library, cfg: RT.Config, evs: seq<RT.Event>, i: nat, input: AnyValue,
                    enc: PayloadEncoding, x: Exchange)
    requires lib.RoundTrips() && !input.Empty? && Legal(cfg, evs) && i < |evs|
    requires x.request == CreateAsyncRPCRequest(lib, input, enc) && ServedBy(lib, cfg, evs, i, x)
    ensures evs[i].Do? && evs[i].op == RT.Submit(input) && ReplyTo(cfg, evs, i).Accepted?
    ensures DecodeStart(lib, x.response) == Later(ReplyTo(cfg, evs, i).id)
  {
    hide RT.Step, Inv, Decide, AsyncReply, DecodeStart, CreateAsyncRPCRequest;
    RequestsReachTheirHandler(lib, input, 0, enc, 0);
    AnswersMatchOperations(cfg, Before(cfg, evs, i), evs[i].op, evs[i].first, evs[i].second);
    Reachable(cfg, evs, i, i + 1);
    AcceptedMeans(cfg, Before(cfg, evs, i), evs[i]);
    StartIsRead(lib, ReplyTo(cfg, evs, i).id, enc);
  }

  lemma AliveBetween(cfg: RT.Config, evs: seq<RT.Event>, i: nat, j: nat, k: nat)
    requires i < j <= k < |evs| && ReplyTo(cfg, evs, i).Accepted? && StaysAlive(cfg, evs, i, k)
    ensures StaysAlive(cfg, evs, i, j)
  {
    hide RT.Step, KeptAlive;
    if j < k {
      var id := ReplyTo(cfg, evs, i).id;
      assert KeptAliveBetween(cfg, evs, i, k, id);
    }
  }

  /** While the request is alive every poll is answered, and truthfully. */
  lemma PollServed(lib: Library, cfg: RT.Config, evs: seq<RT.Event>, i: nat, j: nat, enc: PayloadEncoding, x: Exchange)
    requires lib.RoundTrips() && Legal(cfg, evs) && i < j < |evs|
    requires ReplyTo(cfg, evs, i).Accepted? && StaysAlive(cfg, evs, i, j)
    requires x.request == CreateAsyncRPCFollowUp(lib, ReplyTo(cfg, evs, i).id, enc, POLL)
    requires ServedBy(lib, cfg, evs, j, x)
    ensures DecodePoll(lib, x.response) == (SUCCESS, ReplyTo(cfg, evs, i).id in Before(cfg, evs, j + 1).env.done)
  {
    hide RT.Step, Inv, Decide, AsyncReply, DecodePoll, CreateAsyncRPCFollowUp, KeptAlive, KeptAliveBetween;
    var id := ReplyTo(cfg, evs, i).id;
    RequestsReachTheirHandler(lib, UInt64(0), id, enc, POLL);
    NoLostReply(cfg, evs, i, j, id);
    PollIsRead(lib, id in Before(cfg, evs, j + 1).env.done, enc);
  }

  lemma FetchServed(lib: Library, cfg: RT.Config, evs: seq<RT.Event>, i: nat, j: nat, enc: PayloadEncoding, x: Exchange,
                    output: AnyValue)
    requires lib.RoundTrips() && Legal(cfg, evs) && i < j < |evs|
    requires ReplyTo(cfg, evs, i).Accepted? && StaysAlive(cfg, evs, i, j)
    requires ReplyTo(cfg, evs, i).id in Before(cfg, evs, j).env.done
    requires x.request == CreateAsyncRPCFollowUp(lib, ReplyTo(cfg, evs, i).id, enc, GET_REPLY)
    requires ServedBy(lib, cfg, evs, j, x)
    ensures evs[i].Do? && evs[i].op.Submit?
    ensures DecodeGetReply(lib, x.response, output)
            == DecodeSync(lib,
                          Packet(SyncReply(lib, cfg.protocol(ReplyTo(cfg, evs, i).id, evs[i].op.payload), enc)), output)
  {
    hide RT.Step, Inv, Decide, AsyncReply, DecodeGetReply, DecodeSync, SyncReply,
      CreateAsyncRPCFollowUp, KeptAlive, KeptAliveBetween;
    var id := ReplyTo(cfg, evs, i).id;
    RequestsReachTheirHandler(lib, UInt64(0), id, enc, GET_REPLY);
    NoLostReply(cfg, evs, i, j, id);
    FetchIsReadAsSync(lib, cfg.protocol(id, evs[i].op.payload), enc, output);
  }

  /** Threads do not unfinish. */
  lemma DoneLater(cfg: RT.Config, evs: seq<RT.Event>, i: nat, j: nat, k: nat)
    requires Legal(cfg, evs) && i < j <= k <= |evs| && ReplyTo(cfg, evs, i).Accepted?
    requires ReplyTo(cfg, evs, i).id in Before(cfg, evs, j).env.done
    ensures ReplyTo(cfg, evs, i).id in Before(cfg, evs, k).env.done
  {
    hide RT.Step, Inv;
    var id := ReplyTo(cfg, evs, i).id;
    Reachable(cfg, evs, i, i + 1);
    AcceptedMeans(cfg, Before(cfg, evs, i), evs[i]);
    Reachable(cfg, evs, i + 1, j);
    Reachable(cfg, evs, j, k);
    assert Issued(Before(cfg, evs, j), id);
  }

  /** The exchange of a synchronous Invoke with the same server. */
  ghost predicate ServedSync(lib: Library, outcome: Outcome, x: Exchange) {
    var d := Decide(lib, x.request);
    d.CallSync? && x.response == Packet(SyncReply(lib, outcome, d.enc))
  }

  /** For every non-empty input, in either encoding, and whatever the protocol does with that input
      (return any result and output, or throw): if the packets of an asynchronous Invoke are served by a
      server in the course of any run, its request is kept alive, and the client does not give up after a
      last "not ready", then it returns the same result and leaves the same output as a synchronous Invoke
      of the same server. In particular an exception gives the same error on both. */
  lemma AsyncAgreesWithSync(lib: Library, cfg: RT.Config, evs: seq<RT.Event>, at: seq<nat>, enc: PayloadEncoding,
                            input: AnyValue, outcome: Outcome, output: AnyValue,
                            t: seq<Exchange>, polls: nat, result: ProtocolResult, output': AnyValue,
                            ts: seq<Exchange>, syncResult: ProtocolResult, syncOutput': AnyValue)
    requires lib.RoundTrips() && !input.Empty? && Legal(cfg, evs)
    requires forall id: uint64 :: cfg.protocol(id, input) == outcome
    requires AsyncRun(lib, enc, input, output, t, polls, result, output')
    requires ServedInOrder(lib, cfg, evs, at, t) && StaysAlive(cfg, evs, at[0], at[|at| - 1])
    requires 0 < polls < |t| ==> DecodePoll(lib, t[polls].response) != (SUCCESS, false)
    requires SyncRun(lib, enc, input, output, ts, syncResult, syncOutput') && ServedSync(lib, outcome, ts[0])
    ensures (result, output') == (syncResult, syncOutput')
    ensures outcome.Threw? ==> result == SERVER_PROTOCOL_EXCEPTION && output' == output
    ensures outcome.Returned? && outcome.result != SUCCESS ==> result == outcome.result && output' == output
    ensures outcome.Returned? && outcome.result == SUCCESS ==>
              var v := outcome.output;
              && (v.Empty? ==> (result, output') == (SUCCESS, output))
              && (!v.Empty? && output.Empty? ==> (result, output') == (SUCCESS, v))
              && (!v.Empty? && !output.Empty? ==>
                    match lib.convert(output, v)
                    case Some(converted) => (result, output') == (SUCCESS, converted)
                    case None => (result, output') == (CLIENT_TRANSPORT_DECODING_ERROR, output))
  {
    hide RT.Step, Inv, Decide, AsyncReply, SyncReply, DecodeStart, DecodePoll, DecodeGetReply, DecodeSync, DecodeReply,
      CreateAsyncRPCRequest, CreateAsyncRPCFollowUp, CreateRPCRequest, KeptAlive, StaysAlive, StorePayload;
    var first := at[0];
    assert ServedBy(lib, cfg, evs, at[0], t[0]);
    StartServed(lib, cfg, evs, first, input, enc, t[0]);
    var id := ReplyTo(cfg, evs, first).id;
    var p, f := at[polls], polls + 1;
    assert IsPoll(lib, enc, id, t[polls], DecodePoll(lib, t[polls].response).0, DecodePoll(lib, t[polls].response).1);
    assert ServedBy(lib, cfg, evs, p, t[polls]);
    AliveBetween(cfg, evs, first, p, at[|at| - 1]);
    PollServed(lib, cfg, evs, first, p, enc, t[polls]);
    assert at[polls] < at[f];
    DoneLater(cfg, evs, first, p + 1, at[f]);
    assert ServedBy(lib, cfg, evs, at[f], t[f]);
    FetchServed(lib, cfg, evs, first, at[f], enc, t[f], output);
    RequestsReachTheirHandler(lib, input, 0, enc, 0);
    SyncDeliversOutcome(lib, outcome, enc, output);
  }

  /** From the initial request until the reply is fetched (or, failing that, through the last poll), the
      client's own polls come often enough for the server's expiration time, and nobody else invalidates
      or fetches the request. */
  ghost predicate ClientPollsOften(cfg: RT.Config, evs: seq<RT.Event>, at: seq<nat>, polls: nat)
    requires 0 < polls < |at| && (forall k | 0 <= k < |at| :: at[k] < |evs|)
    requires (forall j, k | 0 <= j < k < |at| :: at[j] < at[k])
  {
    ReplyTo(cfg, evs, at[0]).Accepted? ==>
      PolledOften(cfg, evs, at[0], if |at| == polls + 2 then at[polls + 1] else at[polls] + 1,
                  ReplyTo(cfg, evs, at[0]).id)
  }

  lemma PolledOftenAlive(cfg: RT.Config, evs: seq<RT.Event>, i: nat, j: nat, k: nat, id: uint64)
    requires Legal(cfg, evs) && i < j < k <= |evs| && ReplyTo(cfg, evs, i) == RT.Accepted(id)
    requires PolledOften(cfg, evs, i, k, id)
    ensures StaysAlive(cfg, evs, i, j) && KeptAliveBetween(cfg, evs, i, k, id)
  {
    hide RT.Step, Inv, KeptAlive, PolledOften;
    PollingKeepsAlive(cfg, evs, i, k, id);
  }

  /** The same agreement under a condition the client itself can meet: it polls often enough. */
  lemma AsyncAgreesWhenPolledOften(
      lib: Library, cfg: RT.Config, evs: seq<RT.Event>, at: seq<nat>, enc: PayloadEncoding,
      input: AnyValue, outcome: Outcome, output: AnyValue,
      t: seq<Exchange>, polls: nat, result: ProtocolResult, output': AnyValue,
      ts: seq<Exchange>, syncResult: ProtocolResult, syncOutput': AnyValue)
    requires lib.RoundTrips() && !input.Empty? && Legal(cfg, evs)
    requires forall id: uint64 :: cfg.protocol(id, input) == outcome
    requires AsyncRun(lib, enc, input, output, t, polls, result, output') && ServedInOrder(lib, cfg, evs, at, t)
    requires 0 < polls < |t| ==>
               ClientPollsOften(cfg, evs, at, polls) && DecodePoll(lib, t[polls].response) != (SUCCESS, false)
    requires SyncRun(lib, enc, input, output, ts, syncResult, syncOutput') && ServedSync(lib, outcome, ts[0])
    ensures (result, output') == (syncResult, syncOutput')
  {
    hide RT.Step, Inv, Decide, AsyncReply, SyncReply, DecodeStart, DecodePoll, DecodeGetReply, DecodeSync, DecodeReply,
      CreateAsyncRPCRequest, CreateAsyncRPCFollowUp, CreateRPCRequest, KeptAliveBetween, PolledOften,
      SyncRun, ServedSync;
    var i, j := at[0], at[|at| - 1];
    assert ServedBy(lib, cfg, evs, i, t[0]);
    StartServed(lib, cfg, evs, i, input, enc, t[0]);
    var id := ReplyTo(cfg, evs, i).id;
    if |t| == polls + 1 {
      PolledOftenAlive(cfg, evs, i, j, j + 1, id);
    } else {
      var p := at[polls];
      assert p < j;
      PolledOftenAlive(cfg, evs, i, p, j, id);
      assert ServedBy(lib, cfg, evs, p, t[polls]);
      PollServed(lib, cfg, evs, i, p, enc, t[polls]);
      DoneLater(cfg, evs, i, p + 1, j);
      assert ServedBy(lib, cfg, evs, j, t[polls + 1]);
      RequestsReachTheirHandler(lib, input, id, enc, GET_REPLY);
      assert Asks(evs[j], RT.GetReply(id));
      assert StaysAlive(cfg, evs, i, j);
    }
    AsyncAgreesWithSync(lib, cfg, evs, at, enc, input, outcome, output, t, polls, result, output',
                        ts, syncResult, syncOutput');
  }

  /** The simplest complete run: the request is submitted, its thread finishes, a poll, the fetch. */
  function ShortRun(input: AnyValue): seq<RT.Event> {
    var o := RT.Obs(false, 0);
    [RT.Do(RT.Submit(input), o, o), RT.Finish(1), RT.Do(RT.Poll(1), o, o), RT.Do(RT.GetReply(1), o, o)]
  }

  lemma ShortRunStates(cfg: RT.Config, input: AnyValue)
    ensures var evs := ShortRun(input);
      && Legal(cfg, evs)
      && ReplyTo(cfg, evs, 0) == RT.Accepted(1) && ReplyTo(cfg, evs, 2) == RT.Readiness(true)
      && ReplyTo(cfg, evs, 3) == RT.Delivery(cfg.protocol(1, input))
      && forall k: nat | k <= 4 :: Before(cfg, evs, k).env.clock == 0
  {
    var evs := ShortRun(input);
    var e := RT.Entry(input, true, false, 0);
    var s1 := RT.State(map[1 := e], 1, RT.Env(0, {}), [input], map[], map[]);
    var s2 := s1.(env := RT.Env(0, {1}));
    assert Before(cfg, evs, 0) == RT.INIT;
    var submitted := RT.Step(cfg, RT.INIT, evs[0]).0;
    assert submitted.env.done == {} && submitted.issued == [input] && submitted.entries == map[1 := e];
    assert RT.Step(cfg, RT.INIT, evs[0]) == (s1, RT.Accepted(1));
    assert Before(cfg, evs, 1) == s1;
    assert RT.Step(cfg, s1, evs[1]).0 == s2;
    assert Before(cfg, evs, 2) == s2;
    assert s2.entries[1 := e] == s2.entries;
    assert RT.Step(cfg, s2, evs[2]) == (s2, RT.Readiness(true));
    assert Before(cfg, evs, 3) == s2;
    assert Before(cfg, evs, 4).env.clock == 0 && Before(cfg, evs, 4).issued == [input];
  }

  /** The conditions of AsyncAgreesWhenPolledOften can be met, for every input, encoding and protocol. */
  lemma AgreementIsNotVacuous(lib: Library, cfg: RT.Config, enc: PayloadEncoding, input: AnyValue, output: AnyValue)
    returns (evs: seq<RT.Event>, at: seq<nat>, t: seq<Exchange>, result: ProtocolResult, output': AnyValue)
    requires lib.RoundTrips() && !input.Empty?
    ensures Legal(cfg, evs)
    ensures AsyncRun(lib, enc, input, output, t, 1, result, output') && ServedInOrder(lib, cfg, evs, at, t)
    ensures ClientPollsOften(cfg, evs, at, 1) && DecodePoll(lib, t[1].response) != (SUCCESS, false)
  {
    hide RT.Step, Decide, AsyncReply, DecodeStart, DecodePoll, DecodeGetReply,
      CreateAsyncRPCRequest, CreateAsyncRPCFollowUp;
    ShortRunStates(cfg, input);
    evs, at := ShortRun(input), [0, 2, 3];
    RequestsReachTheirHandler(lib, input, 1, enc, POLL);
    RequestsReachTheirHandler(lib, input, 1, enc, GET_REPLY);
    StartIsRead(lib, 1, enc);
    PollIsRead(lib, true, enc);
    t := [Exchange(CreateAsyncRPCRequest(lib, input, enc),
                   Packet(AsyncReply(lib, ReplyTo(cfg, evs, 0), enc, INITIAL_REQUEST))),
          Exchange(CreateAsyncRPCFollowUp(lib, 1, enc, POLL), Packet(AsyncReply(lib, ReplyTo(cfg, evs, 2), enc, POLL))),
          Exchange(CreateAsyncRPCFollowUp(lib, 1, enc, GET_REPLY),
                   Packet(AsyncReply(lib, ReplyTo(cfg, evs, 3), enc, GET_REPLY)))];
    var decoded := DecodeGetReply(lib, t[2].response, output);
    result, output' := decoded.0, decoded.1;
    forall k | 0 < k < 3
      ensures !Asks(evs[k], RT.Invalidate(1)) && !(Asks(evs[k], RT.GetReply(1)) && ReplyTo(cfg, evs, k).Delivery?)
      ensures exists m :: 0 <= m < k && Touches(evs, 0, m, 1)
                        && ClockAfter(cfg, evs, k) <= ClockAfter(cfg, evs, m) + cfg.expirationNs
    {
      assert Touches(evs, 0, 0, 1) && ClockAfter(cfg, evs, k) == 0;
    }
  }
}
