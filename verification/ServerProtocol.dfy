/** How the server reads a request packet and builds the reply packet (`protocol_rpc_server.cpp`, and
    the dispatching half of `async_invoke_server.cpp`). */
module ServerProtocol {
  import opened Values
  import opened Packets
  import RT = RequestTable

  /** What a request packet asks for. */
  datatype Decision =
    | Refuse(result: ProtocolResult)
    | CallService(payload: AnyValue, enc: PayloadEncoding)
    | CallSync(payload: AnyValue, enc: PayloadEncoding)
    | CallAsync(payload: AnyValue, enc: PayloadEncoding, command: AsyncCommand)

  function DecideInvoke(lib: Library, request: AnyValue, enc: PayloadEncoding): Decision {
    if !CheckRequestFormat(request) then Refuse(SERVER_TRANSPORT_DECODING_ERROR)
    else
      match TryExtractRPCPayload(lib, request, Query, enc)
      case None => Refuse(SERVER_TRANSPORT_DECODING_ERROR)
      case Some(payload) =>
        match GetAsyncInfo(request)
        case Some(command) => CallAsync(payload, enc, command)
        case None => CallSync(payload, enc)
  }

  function DecideService(lib: Library, request: AnyValue, enc: PayloadEncoding): Decision {
    match TryExtractRPCPayload(lib, request, Service, enc)
    case None => Refuse(SERVER_TRANSPORT_DECODING_ERROR)
    case Some(payload) => CallService(payload, enc)
  }

  function Decide(lib: Library, request: AnyValue): Decision {
    match TryGetPacketEncoding(request)
    case None => Refuse(SERVER_UNSUPPORTED_PAYLOAD_ENCODING_ERROR)
    case Some(enc) =>
      if CheckServiceRequest(request) then DecideService(lib, request, enc)
      else DecideInvoke(lib, request, enc)
  }

  /** Which operation of the table an asynchronous command stands for. */
  function Plan(payload: AnyValue, command: AsyncCommand): RT.Op {
    if command == INITIAL_REQUEST then RT.Submit(payload)
    else
      match ExtractAsyncRequestId(payload)
      case None => RT.Malformed
      case Some(id) =>
        if command == POLL then RT.Poll(id)
        else if command == GET_REPLY then RT.GetReply(id)
        else if command == INVALIDATE then RT.Invalidate(id)
        else RT.Unsupported
  }

  /** A call of the protocol as a result and an output: an exception becomes an error code. */
  function ResultOf(outcome: Outcome): (ProtocolResult, AnyValue) {
    match outcome
    case Returned(result, output) => (result, output)
    case Threw => (SERVER_PROTOCOL_EXCEPTION, Empty)
  }

  function SyncReply(lib: Library, outcome: Outcome, enc: PayloadEncoding): AnyValue {
    CreateRPCReply(lib, ResultOf(outcome).0, ResultOf(outcome).1, enc)
  }

  function ServiceReply(lib: Library, outcome: Outcome, enc: PayloadEncoding): AnyValue {
    CreateServiceReply(lib, ResultOf(outcome).0, ResultOf(outcome).1, enc)
  }

  function RefusalReply(lib: Library, result: ProtocolResult): AnyValue {
    CreateRPCReply(lib, result, Empty, Plain)
  }

  /** The reply packet for an answer of the table to a request with the given command. */
  function AsyncReply(lib: Library, answer: RT.Answer, enc: PayloadEncoding, command: AsyncCommand): AnyValue {
    match answer
    case Accepted(id) => CreateAsyncRPCNewRequestReply(lib, id, enc)
    case UnknownId => CreateAsyncRPCReply(lib, INVALID_REQUEST_IDENTIFIER_ERROR, Empty, Plain, command)
    case BadPayload => CreateAsyncRPCReply(lib, SERVER_TRANSPORT_DECODING_ERROR, Empty, Plain, command)
    case InvalidOperation => CreateAsyncRPCReply(lib, INVALID_ASYNCHRONOUS_OPERATION_ERROR, Empty, Plain, command)
    case Readiness(ready) => CreateAsyncRPCPollReply(lib, ready, enc)
    case Delivery(outcome) => CreateAsyncRPCReply(lib, ResultOf(outcome).0, ResultOf(outcome).1, enc, GET_REPLY)
    case Acknowledged => CreateAsyncRPCReply(lib, SUCCESS, Empty, Plain, INVALIDATE)
    case Awaited(_) => Empty  // no packet asks for these two
    case Silent => Empty
  }

  /** Each operation has its own kinds of answer, besides the two errors any follow-up can get. */
  lemma AnswersMatchOperations(cfg: RT.Config, s: RT.State, op: RT.Op, o1: RT.Obs, o2: RT.Obs)
    ensures var a := RT.Step(cfg, s, RT.Do(op, o1, o2)).1;
      && (a.Accepted? <==> op.Submit?)
      && (a.Readiness? ==> op.Poll?)
      && (a.Delivery? ==> op.GetReply?)
      && (a.Acknowledged? ==> op.Invalidate?)
      && (a.Awaited? <==> op.Await?)
      && (a.BadPayload? <==> op.Malformed?)
      && !a.Silent?
  {
  }

  /** The payload that each answer puts in its reply: a submission's id, a poll's ready flag, or the
      output that a fetch delivers. */
  function ContentOf(answer: RT.Answer): AnyValue {
    match answer
    case Accepted(id) => Struct("", map[Id := UInt64(id)])
    case Readiness(ready) => Struct("", map[Ready := Boolean(ready)])
    case Delivery(outcome) => ResultOf(outcome).1
    case _ => Empty
  }

  /** Whatever 32-bit command reaches the table, in whatever state, its reply is well formed and carries
      that same command. Whoever reads the payload of the reply finds an id if it answers a submission, a
      ready flag only if it answers a poll, an output only if it answers a fetch, and otherwise nothing. */
  lemma AsyncReplyEchoes(lib: Library, cfg: RT.Config, s: RT.State, payload: AnyValue, enc: PayloadEncoding,
                         command: AsyncCommand, o1: RT.Obs, o2: RT.Obs)
    ensures var a := RT.Step(cfg, s, RT.Do(Plan(payload, command), o1, o2)).1;
      var reply := AsyncReply(lib, a, enc, command);
      && CheckReplyFormat(reply)
      && GetAsyncInfo(reply) == Some(command)
      && (lib.RoundTrips() ==> TryGetReplyPayload(lib, reply) == Some(ContentOf(a)))
      && (a.Accepted? <==> command == INITIAL_REQUEST)
      && (a.Readiness? ==> command == POLL)
      && (a.Delivery? ==> command == GET_REPLY)
  {
    hide RT.Step, CreateAsyncRPCReply, TryGetReplyPayload, CheckReplyFormat;
    AnswersMatchOperations(cfg, s, Plan(payload, command), o1, o2);
    forall result: ProtocolResult, p: AnyValue, e: PayloadEncoding, c: AsyncCommand
      ensures CheckReplyFormat(CreateAsyncRPCReply(lib, result, p, e, c))
      ensures GetAsyncInfo(CreateAsyncRPCReply(lib, result, p, e, c)) == Some(c)
      ensures lib.RoundTrips() ==> TryGetReplyPayload(lib, CreateAsyncRPCReply(lib, result, p, e, c)) == Some(p)
    {
      ReplyWellFormed(lib, REPLY_TYPE, result, p, e, c);
      if lib.RoundTrips() { ReplyReadsBack(lib, REPLY_TYPE, result, p, e, c); }
    }
  }

  /** The result, and the payload if any, that each answer of the table puts into its reply packet. */
  lemma AnswerOnTheWire(lib: Library, a: RT.Answer, enc: PayloadEncoding, command: AsyncCommand)
    requires !a.Awaited? && !a.Silent?
    ensures var reply := AsyncReply(lib, a, enc, command);
      && (a.UnknownId? ==> Reports(reply, INVALID_REQUEST_IDENTIFIER_ERROR) && !reply.HasField(Reply))
      && (a.BadPayload? ==> Reports(reply, SERVER_TRANSPORT_DECODING_ERROR) && !reply.HasField(Reply))
      && (a.InvalidOperation? ==> Reports(reply, INVALID_ASYNCHRONOUS_OPERATION_ERROR) && !reply.HasField(Reply))
      && (a.Acknowledged? ==> Reports(reply, SUCCESS) && !reply.HasField(Reply))
      && (a.Accepted? ==>
            Reports(reply, SUCCESS) && (lib.RoundTrips() ==> TryExtractReplyId(lib, reply, enc) == Some(a.id)))
      && (a.Readiness? ==>
            Reports(reply, SUCCESS) && (lib.RoundTrips() ==> TryExtractReadyStatus(lib, reply, enc) == Some(a.ready)))
      && (a == RT.Delivery(Threw) ==> Reports(reply, SERVER_PROTOCOL_EXCEPTION) && !reply.HasField(Reply))
      && (a.Delivery? && a.outcome.Returned? ==>
            && Reports(reply, a.outcome.result)
            && (lib.RoundTrips() ==> TryGetReplyPayload(lib, reply) == Some(a.outcome.output)))
  {
    hide CreateAsyncRPCReply;
    forall r: ProtocolResult, p: AnyValue, e: PayloadEncoding, c: AsyncCommand
      ensures Reports(CreateAsyncRPCReply(lib, r, p, e, c), r)
      ensures CreateAsyncRPCReply(lib, r, p, e, c).HasField(Reply) <==> !p.Empty?
      ensures lib.RoundTrips() ==> TryGetReplyPayload(lib, CreateAsyncRPCReply(lib, r, p, e, c)) == Some(p)
    {
      ReplyWellFormed(lib, REPLY_TYPE, r, p, e, c);
      if lib.RoundTrips() { ReplyReadsBack(lib, REPLY_TYPE, r, p, e, c); }
    }
    if lib.RoundTrips() {
      HandleRepliesReadBack(lib, if a.Accepted? then a.id else 0, a.Readiness? && a.ready, enc);
    }
  }

  /** The result code of every reply, by the state of the table: a request is refused as an invalid
      operation if it is polled when its thread has finished and it is invalidated or too old, if it is
      fetched when its thread is running or it is invalidated, and if the command is none of the four.
      An id that is not in the table, and a follow-up without an id, have their own codes. */
  lemma ResultCodeExactly(lib: Library, cfg: RT.Config, s: RT.State, payload: AnyValue, enc: PayloadEncoding,
                          command: AsyncCommand, o1: RT.Obs, o2: RT.Obs)
    ensures var reply := AsyncReply(lib, RT.Step(cfg, s, RT.Do(Plan(payload, command), o1, o2)).1, enc, command);
      var hasId := payload.HasField(Id) && payload.Get(Id).UInt64?;
      && (command == 0 ==> Reports(reply, SUCCESS))
      && (command > 0 && !hasId ==> Reports(reply, SERVER_TRANSPORT_DECODING_ERROR))
      && (command > 3 && hasId ==> Reports(reply, INVALID_ASYNCHRONOUS_OPERATION_ERROR))
      && (0 < command <= 3 && hasId && payload.Get(Id).u64 !in s.entries ==>
            Reports(reply, INVALID_REQUEST_IDENTIFIER_ERROR))
      && (0 < command <= 3 && hasId && payload.Get(Id).u64 in s.entries ==>
            var id := payload.Get(Id).u64;
            var e := s.entries[id];
            var finished := id in s.env.done || o1.finish;
            var expired := Sub64(s.env.clock + o1.dt, e.lastAccess) > cfg.expirationNs;
            && (command == 1 ==>
                  Reports(reply, if !e.valid || (finished && (e.invalidated || expired))
                                 then INVALID_ASYNCHRONOUS_OPERATION_ERROR else SUCCESS))
            && (command == 2 && !(e.valid && finished && !e.invalidated) ==>
                  Reports(reply, INVALID_ASYNCHRONOUS_OPERATION_ERROR))
            && (command == 2 && e.valid && finished && !e.invalidated ==>
                  Reports(reply, match cfg.protocol(id, e.input)
                                 case Threw => SERVER_PROTOCOL_EXCEPTION
                                 case Returned(result, _) => result))
            && (command == 3 ==> Reports(reply, SUCCESS)))
  {
    hide AsyncReply, Reports;
    AnswersMatchOperations(cfg, s, Plan(payload, command), o1, o2);
    AnswerOnTheWire(lib, RT.Step(cfg, s, RT.Do(Plan(payload, command), o1, o2)).1, enc, command);
  }

  /** A packet with a payload under Query and at most a command beside it is an invoke request. */
  lemma InvokeRequestDecided(lib: Library, payload: AnyValue, enc: PayloadEncoding, command: AsyncCommand)
    requires lib.RoundTrips()
    ensures var p := AddRPCPayload(lib, Struct(REQUEST_TYPE, map[]), payload, Query, enc);
      && Decide(lib, p) == CallSync(payload, enc)
      && !p.HasField(Async)
      && Decide(lib, p.AddMember(Async, UInt32(command))) == CallAsync(payload, enc, command)
  {
    StoredPayloadReadsBack(lib, Struct(REQUEST_TYPE, map[]), payload, Query, enc);
  }

  lemma ServiceRequestDecided(lib: Library, payload: AnyValue, enc: PayloadEncoding)
    requires lib.RoundTrips() && !payload.Empty?
    ensures Decide(lib, CreateServiceRequest(lib, payload, enc)) == CallService(payload, enc)
  {
    StoredPayloadReadsBack(lib, Struct(SERVICE_REQUEST_TYPE, map[]), payload, Service, enc);
  }

  /** The request packets that clients build reach the handler they are meant for, with the payload,
      command and id that went in, in either encoding; service requests never reach the other handlers. */
  lemma RequestsReachTheirHandler(lib: Library, payload: AnyValue, id: uint64, enc: PayloadEncoding,
                                  command: AsyncCommand)
    requires lib.RoundTrips() && !payload.Empty?
    ensures Decide(lib, CreateServiceRequest(lib, payload, enc)) == CallService(payload, enc)
    ensures Decide(lib, CreateRPCRequest(lib, payload, enc)) == CallSync(payload, enc)
    ensures Decide(lib, CreateAsyncRPCRequest(lib, payload, enc)) == CallAsync(payload, enc, INITIAL_REQUEST)
    ensures Plan(payload, INITIAL_REQUEST) == RT.Submit(payload)
    ensures Decide(lib, CreateAsyncRPCFollowUp(lib, id, enc, command))
            == CallAsync(CreateRequestIdPayload(id), enc, command)
    ensures Plan(CreateRequestIdPayload(id), POLL) == RT.Poll(id)
    ensures Plan(CreateRequestIdPayload(id), GET_REPLY) == RT.GetReply(id)
    ensures Plan(CreateRequestIdPayload(id), INVALIDATE) == RT.Invalidate(id)
  {
    hide Decide, AddRPCPayload;
    ServiceRequestDecided(lib, payload, enc);
    InvokeRequestDecided(lib, payload, enc, INITIAL_REQUEST);
    InvokeRequestDecided(lib, CreateRequestIdPayload(id), enc, command);
  }

  /** Exactly which packets are refused and with which code, in terms of what their sender wrote: those
      with an encoding the server does not know; and those with neither payload member, an ill-typed
      optional member in an invoke request, or a payload that does not decode. Every other packet goes to
      the handler that its members name, with the payload and the command that they hold. */
  lemma RefusedExactly(lib: Library, request: AnyValue)
    ensures var base64 := request.HasField(Encoding) && request.Get(Encoding) == Int32(1);
      var unknown := request.HasField(Encoding) && !base64 && request.Get(Encoding) != Int32(0);
      var carrier := if request.HasField(Service) then Service else Query;
      var malformed :=
        || !request.HasField(carrier)
        || (base64 && (!request.Get(carrier).Text? || lib.decode(request.Get(carrier).text).None?))
        || (carrier == Query && request.HasField(Timestamp) && !request.Get(Timestamp).UInt64?)
        || (carrier == Query && request.HasField(Async) && !request.Get(Async).UInt32?);
      && (unknown ==> Decide(lib, request) == Refuse(SERVER_UNSUPPORTED_PAYLOAD_ENCODING_ERROR))
      && (!unknown && malformed ==> Decide(lib, request) == Refuse(SERVER_TRANSPORT_DECODING_ERROR))
      && (!unknown && !malformed ==>
            var enc := if base64 then Base64 else Plain;
            var payload := if base64 then lib.decode(request.Get(carrier).text).value else request.Get(carrier);
            Decide(lib, request)
            == if carrier == Service then CallService(payload, enc)
               else if request.HasField(Async) then CallAsync(payload, enc, request.Get(Async).u32)
               else CallSync(payload, enc))
  {
  }
}
