/** The client (`async_invocation.cpp`, `protocol_rpc_client.cpp`) against an arbitrary transport: each
    call may raise, or return any packet whatsoever. */
module Client {
  import opened Values
  import opened Packets
  import opened Polling

  datatype Response = Packet(packet: AnyValue) | Raised
  datatype Exchange = Exchange(request: AnyValue, response: Response)

  // ----- reading replies

  /** Storing a decoded payload in the output: an empty payload leaves it alone. */
  function StorePayload(lib: Library, payload: Option<AnyValue>, output: AnyValue): (ProtocolResult, AnyValue) {
    match payload
    case None => (CLIENT_TRANSPORT_DECODING_ERROR, output)
    case Some(v) =>
      if v.Empty? then (SUCCESS, output)
      else
        var (stored, output') := lib.TryAssignIfEmptyOrConvert(output, v);
        if stored then (SUCCESS, output') else (CLIENT_TRANSPORT_DECODING_ERROR, output)
  }

  /** Result and output of a reply whose result member is there. */
  function DecodeResult(lib: Library, reply: AnyValue, output: AnyValue): (ProtocolResult, AnyValue) {
    match TryExtractProtocolResult(reply)
    case None => (CLIENT_TRANSPORT_DECODING_ERROR, output)
    case Some(result) =>
      if result != SUCCESS then (result, output)
      else StorePayload(lib, TryGetReplyPayload(lib, reply), output)
  }

  /** A reply to a synchronous request has to be well formed as well. */
  function DecodeReply(lib: Library, reply: AnyValue, output: AnyValue): (ProtocolResult, AnyValue) {
    if CheckReplyFormat(reply) then DecodeResult(lib, reply, output)
    else (CLIENT_TRANSPORT_DECODING_ERROR, output)
  }

  function DecodeSync(lib: Library, response: Response, output: AnyValue): (ProtocolResult, AnyValue) {
    match response
    case Raised => (CLIENT_TRANSPORT_EXCEPTION, output)
    case Packet(reply) => DecodeReply(lib, reply, output)
  }

  function DecodeGetReply(lib: Library, response: Response, output: AnyValue): (ProtocolResult, AnyValue) {
    match response
    case Raised => (CLIENT_TRANSPORT_EXCEPTION, output)
    case Packet(reply) => DecodeResult(lib, reply, output)
  }

  /** A server may answer the initial request at once, as if it had been synchronous. */
  datatype Started = Failed(result: ProtocolResult) | AtOnce(reply: AnyValue) | Later(id: uint64)

  function DecodeStart(lib: Library, response: Response): Started {
    match response
    case Raised => Failed(CLIENT_TRANSPORT_EXCEPTION)
    case Packet(reply) =>
      if GetAsyncInfo(reply).None? then
        if CheckReplyFormat(reply) then AtOnce(reply) else Failed(CLIENT_TRANSPORT_DECODING_ERROR)
      else
        match TryGetPacketEncoding(reply)
        case None => Failed(CLIENT_TRANSPORT_DECODING_ERROR)
        case Some(enc) =>
          match TryExtractReplyId(lib, reply, enc)
          case None => Failed(CLIENT_TRANSPORT_DECODING_ERROR)
          case Some(id) => if id == 0 then Failed(CLIENT_TRANSPORT_DECODING_ERROR) else Later(id)
  }

  function DecodePoll(lib: Library, response: Response): (ProtocolResult, bool) {
    match response
    case Raised => (CLIENT_TRANSPORT_EXCEPTION, false)
    case Packet(reply) =>
      match TryGetPacketEncoding(reply)
      case None => (CLIENT_TRANSPORT_DECODING_ERROR, false)
      case Some(enc) =>
        match TryExtractReadyStatus(lib, reply, enc)
        case None => (CLIENT_TRANSPORT_DECODING_ERROR, false)
        case Some(ready) => (SUCCESS, ready)
  }

  /** What the caller gets from any response, by the members of the packet: without one, the transport
      failed; a reply must have a result, and a synchronous one no ill-typed member; a result that is not
      success is passed on; and on success the payload is stored. It replaces an empty output, is
      converted into an output that is not empty, and leaves the output alone if there is none. The output
      changes in no other case. */
  lemma ReplyIsReadExactly(lib: Library, response: Response, output: AnyValue)
    ensures response.Raised? ==>
      && DecodeSync(lib, response, output) == (CLIENT_TRANSPORT_EXCEPTION, output)
      && DecodeGetReply(lib, response, output) == (CLIENT_TRANSPORT_EXCEPTION, output)
    ensures response.Packet? ==>
      var reply := response.packet;
      var illTyped :=
        || (reply.HasField(Timestamp) && !reply.Get(Timestamp).UInt64?)
        || (reply.HasField(Encoding) && !reply.Get(Encoding).Int32?)
        || (reply.HasField(Reason) && !reply.Get(Reason).Text?)
        || (reply.HasField(Async) && !reply.Get(Async).UInt32?);
      var read := DecodeGetReply(lib, response, output);
      var payload := TryGetReplyPayload(lib, reply);
      && DecodeSync(lib, response, output) == (if illTyped then (CLIENT_TRANSPORT_DECODING_ERROR, output) else read)
      && (!reply.HasField(Result) || !reply.Get(Result).UInt32? ==> read == (CLIENT_TRANSPORT_DECODING_ERROR, output))
      && (reply.HasField(Result) && reply.Get(Result).UInt32? ==>
            && (reply.Get(Result) != UInt32(0) ==> read == (reply.Get(Result).u32, output))
            && (reply.Get(Result) == UInt32(0) ==>
                  && (payload == None ==> read == (CLIENT_TRANSPORT_DECODING_ERROR, output))
                  && (payload == Some(Empty) ==> read == (SUCCESS, output))
                  && (payload.Some? && !payload.value.Empty? ==>
                        && (output.Empty? ==> read == (SUCCESS, payload.value))
                        && (!output.Empty? ==>
                              match lib.convert(output, payload.value)
                              case Some(converted) => read == (SUCCESS, converted)
                              case None => read == (CLIENT_TRANSPORT_DECODING_ERROR, output)))))
  {
    hide TryGetReplyPayload;
  }

  /** How any response to the initial request is read: one without a command, with a result and no
      ill-typed member, is the reply itself; one with a command starts an asynchronous request if its
      payload holds an id other than 0; and everything else is an error. */
  lemma StartIsReadExactly(lib: Library, response: Response)
    ensures response.Raised? ==> DecodeStart(lib, response) == Failed(CLIENT_TRANSPORT_EXCEPTION)
    ensures response.Packet? ==>
      var reply := response.packet;
      var atOnce :=
        && reply.HasField(Result) && reply.Get(Result).UInt32? && !reply.HasField(Async)
        && (reply.HasField(Timestamp) ==> reply.Get(Timestamp).UInt64?)
        && (reply.HasField(Encoding) ==> reply.Get(Encoding).Int32?)
        && (reply.HasField(Reason) ==> reply.Get(Reason).Text?);
      var payload := TryGetReplyPayload(lib, reply);
      var later :=
        && reply.HasField(Async) && reply.Get(Async).UInt32? && payload.Some?
        && payload.value.HasField(Id) && payload.value.Get(Id).UInt64? && payload.value.Get(Id).u64 != 0;
      DecodeStart(lib, response)
      == if atOnce then AtOnce(reply)
         else if later then Later(payload.value.Get(Id).u64)
         else Failed(CLIENT_TRANSPORT_DECODING_ERROR)
  {
    hide Decode;
  }

  /** How any response to a poll is read: by the flag in its payload, and by nothing else. */
  lemma PollIsReadExactly(lib: Library, response: Response)
    ensures response.Raised? ==> DecodePoll(lib, response) == (CLIENT_TRANSPORT_EXCEPTION, false)
    ensures response.Packet? ==>
      var payload := TryGetReplyPayload(lib, response.packet);
      DecodePoll(lib, response)
      == if payload.Some? && payload.value.HasField(Ready) && payload.value.Get(Ready).Boolean?
         then (SUCCESS, payload.value.Get(Ready).b)
         else (CLIENT_TRANSPORT_DECODING_ERROR, false)
  {
    hide Decode;
  }

  // ----- what one Invoke does, as a transcript of exchanges

  ghost predicate SyncRun(lib: Library, enc: PayloadEncoding, input: AnyValue, output: AnyValue, t: seq<Exchange>,
                          result: ProtocolResult, output': AnyValue)
    requires !input.Empty?
  {
    && |t| == 1 && t[0].request == CreateRPCRequest(lib, input, enc)
    && (result, output') == DecodeSync(lib, t[0].response, output)
  }

  /** Exchange number k is a poll for the given id that was answered as stated. */
  ghost predicate IsPoll(lib: Library, enc: PayloadEncoding, id: uint64, x: Exchange,
                         result: ProtocolResult, ready: bool)
  {
    && x.request == CreateAsyncRPCFollowUp(lib, id, enc, POLL)
    && DecodePoll(lib, x.response) == (result, ready)
  }

  /** Polls, all answered "not ready" but for the last one. */
  ghost predicate IsPollPhase(lib: Library, enc: PayloadEncoding, id: uint64, ps: seq<Exchange>, result: ProtocolResult,
                              ready: bool)
  {
    && |ps| > 0 && IsPoll(lib, enc, id, ps[|ps| - 1], result, ready)
    && forall k | 0 <= k < |ps| - 1 :: IsPoll(lib, enc, id, ps[k], SUCCESS, false)
  }

  /** The whole transcript, with `polls` polls in it: the initial request; unless that failed or was
      answered at once, polls that were answered "not ready" up to the last one; and the reply is fetched
      exactly when the last poll was answered "ready". */
  ghost predicate AsyncRun(lib: Library, enc: PayloadEncoding, input: AnyValue, output: AnyValue, t: seq<Exchange>,
                           polls: nat, result: ProtocolResult, output': AnyValue)
    requires !input.Empty?
  {
    && |t| > 0 && t[0].request == CreateAsyncRPCRequest(lib, input, enc)
    && match DecodeStart(lib, t[0].response)
       case Failed(r) => |t| == 1 && polls == 0 && (result, output') == (r, output)
       case AtOnce(reply) => |t| == 1 && polls == 0 && (result, output') == DecodeReply(lib, reply, output)
       case Later(id) =>
         && 0 < polls < |t|
         && (forall k | 0 < k < polls :: IsPoll(lib, enc, id, t[k], SUCCESS, false))
         && var (r, ready) := DecodePoll(lib, t[polls].response);
            && IsPoll(lib, enc, id, t[polls], r, ready)
            && if r != SUCCESS then |t| == polls + 1 && (result, output') == (r, output)
               else if !ready then |t| == polls + 1 && (result, output') == (ASYNCHRONOUS_PROTOCOL_TIMEOUT, output)
               else
                 && |t| == polls + 2
                 && t[polls + 1].request == CreateAsyncRPCFollowUp(lib, id, enc, GET_REPLY)
                 && (result, output') == DecodeGetReply(lib, t[polls + 1].response, output)
  }

  /** A transcript of the initial request alone, and one that goes on with polls. */
  lemma RunWithoutPolls(lib: Library, enc: PayloadEncoding, input: AnyValue, output: AnyValue, x: Exchange)
    requires !input.Empty? && x.request == CreateAsyncRPCRequest(lib, input, enc)
    ensures match DecodeStart(lib, x.response)
      case Failed(r) => AsyncRun(lib, enc, input, output, [x], 0, r, output)
      case AtOnce(reply) =>
        AsyncRun(lib, enc, input, output, [x], 0, DecodeReply(lib, reply, output).0, DecodeReply(lib, reply, output).1)
      case Later(_) => true
  {
    hide CreateAsyncRPCRequest, DecodeStart, DecodeReply;
  }

  lemma RunWithPolls(lib: Library, enc: PayloadEncoding, input: AnyValue, output: AnyValue, x: Exchange, id: uint64,
                     ps: seq<Exchange>, r: ProtocolResult, ready: bool, y: Exchange)
    requires !input.Empty? && x.request == CreateAsyncRPCRequest(lib, input, enc)
    requires DecodeStart(lib, x.response) == Later(id) && IsPollPhase(lib, enc, id, ps, r, ready)
    ensures DecodePoll(lib, ([x] + ps)[|ps|].response) == (r, ready)
    ensures r != SUCCESS ==> AsyncRun(lib, enc, input, output, [x] + ps, |ps|, r, output)
    ensures r == SUCCESS && !ready ==>
              AsyncRun(lib, enc, input, output, [x] + ps, |ps|, ASYNCHRONOUS_PROTOCOL_TIMEOUT, output)
    ensures r == SUCCESS && ready && y.request == CreateAsyncRPCFollowUp(lib, id, enc, GET_REPLY) ==>
              var d := DecodeGetReply(lib, y.response, output);
              AsyncRun(lib, enc, input, output, [x] + ps + [y], |ps|, d.0, d.1)
  {
    hide CreateAsyncRPCRequest, CreateAsyncRPCFollowUp, DecodeStart, DecodePoll, DecodeGetReply;
    var t := [x] + ps;
    assert t[|ps|] == ps[|ps| - 1];
    forall k | 0 < k < |ps| ensures IsPoll(lib, enc, id, t[k], SUCCESS, false) {
      assert IsPoll(lib, enc, id, ps[k - 1], SUCCESS, false);
    }
    assert forall k | 0 <= k < |t| :: (t + [y])[k] == t[k];
  }

  /** What a server sees of an asynchronous Invoke, whatever it answers: the initial request first, then
      polls, then at most one fetch and nothing after it. Every follow-up carries the id of the initial
      reply, which is not 0; a fetch comes right after a poll that was answered "ready", and nothing at
      all comes after an exception of the transport. The caller's output changes on success only. */
  lemma TranscriptShape(lib: Library, enc: PayloadEncoding, input: AnyValue, output: AnyValue, t: seq<Exchange>,
                        polls: nat, result: ProtocolResult, output': AnyValue, k: nat)
    requires !input.Empty? && AsyncRun(lib, enc, input, output, t, polls, result, output') && 0 < k < |t|
    ensures var start := DecodeStart(lib, t[0].response);
      && start.Later? && start.id != 0
      && t[k - 1].response.Packet?
      && (|| t[k].request == CreateAsyncRPCFollowUp(lib, start.id, enc, POLL)
          || (k == |t| - 1 && t[k].request == CreateAsyncRPCFollowUp(lib, start.id, enc, GET_REPLY)))
      && (k > 1 ==> DecodePoll(lib, t[k - 1].response)
                    == (SUCCESS, t[k].request == CreateAsyncRPCFollowUp(lib, start.id, enc, GET_REPLY)))
    ensures result != SUCCESS ==> output' == output
  {
    hide DecodeStart, DecodePoll, DecodeReply, DecodeGetReply, CreateAsyncRPCFollowUp, CreateAsyncRPCRequest;
    StartedByAPacket(lib, t[0].response);
    PolledByAPacket(lib, t[k - 1].response);
    var id := DecodeStart(lib, t[0].response).id;
    CommandsDiffer(lib, id, enc);
    if k == polls + 1 {
      assert IsPoll(lib, enc, id, t[polls], SUCCESS, true);
    } else {
      assert k < polls ==> IsPoll(lib, enc, id, t[k], SUCCESS, false);
      assert 0 < k - 1 ==> IsPoll(lib, enc, id, t[k - 1], SUCCESS, false);
    }
    OutputOnSuccessOnly(lib, t[|t| - 1].response, output);
  }

  /** Where the result of an asynchronous Invoke comes from, by its last response: an exception of the
      transport; an initial reply that is the result itself, or that starts nothing; a poll that is not
      answered, or that is answered "not ready" when the time is up; or the fetched reply. */
  lemma LastResponseDecides(lib: Library, enc: PayloadEncoding, input: AnyValue, output: AnyValue, t: seq<Exchange>,
                            polls: nat, result: ProtocolResult, output': AnyValue)
    requires !input.Empty? && AsyncRun(lib, enc, input, output, t, polls, result, output')
    ensures var last := t[|t| - 1].response;
      && (last.Raised? ==> (result, output') == (CLIENT_TRANSPORT_EXCEPTION, output))
      && (last.Packet? ==>
            var payload := TryGetReplyPayload(lib, last.packet);
            && (|t| == 1 && !last.packet.HasField(Async) ==> (result, output') == DecodeSync(lib, last, output))
            && (|t| == 1 && last.packet.HasField(Async) ==>
                  (result, output') == (CLIENT_TRANSPORT_DECODING_ERROR, output))
            && (|t| == polls + 1 > 1 ==>
                  if payload.Some? && payload.value.HasField(Ready) && payload.value.Get(Ready) == Boolean(false)
                  then (result, output') == (ASYNCHRONOUS_PROTOCOL_TIMEOUT, output)
                  else (result, output') == (CLIENT_TRANSPORT_DECODING_ERROR, output))
            && (|t| > 1 && |t| != polls + 1 ==> (result, output') == DecodeGetReply(lib, last, output)))
  {
    hide DecodePoll, DecodeStart, DecodeResult, CreateAsyncRPCFollowUp, CreateAsyncRPCRequest, TryGetReplyPayload;
    StartIsReadExactly(lib, t[0].response);
    PollIsReadExactly(lib, t[|t| - 1].response);
  }

  lemma StartedByAPacket(lib: Library, response: Response)
    ensures DecodeStart(lib, response).Later? ==> response.Packet? && DecodeStart(lib, response).id != 0
    ensures DecodeStart(lib, response).Failed? ==> DecodeStart(lib, response).result != SUCCESS
  {
  }

  lemma PolledByAPacket(lib: Library, response: Response)
    ensures DecodePoll(lib, response).0 == SUCCESS ==> response.Packet?
  {
  }

  lemma CommandsDiffer(lib: Library, id: uint64, enc: PayloadEncoding)
    ensures CreateAsyncRPCFollowUp(lib, id, enc, POLL) != CreateAsyncRPCFollowUp(lib, id, enc, GET_REPLY)
  {
    assert GetAsyncInfo(CreateAsyncRPCFollowUp(lib, id, enc, POLL)) == Some(POLL);
    assert GetAsyncInfo(CreateAsyncRPCFollowUp(lib, id, enc, GET_REPLY)) == Some(GET_REPLY);
  }

  lemma OutputOnSuccessOnly(lib: Library, response: Response, output: AnyValue)
    ensures DecodeGetReply(lib, response, output).0 != SUCCESS ==> DecodeGetReply(lib, response, output).1 == output
    ensures DecodeSync(lib, response, output).0 != SUCCESS ==> DecodeSync(lib, response, output).1 == output
  {
  }

  // ----- the objects

  class Transport {
    ghost var log: seq<Exchange>

    method Call(request: AnyValue) returns (response: Response)
      modifies this
      ensures log == old(log) + [Exchange(request, response)]
    {
      response := *;
      log := log + [Exchange(request, response)];
    }
  }

  class AsyncInvocation {
    const lib: Library
    const transport: Transport
    const enc: PayloadEncoding
    var id: uint64
    var synchronous: bool
    var syncReply: AnyValue
    ghost var starts: nat  // calls of Start that succeeded

    /** Holds after any sequence of calls. After one successful Start the invocation is either answered
        already or has an id to ask for, and not both; a second Start would not clear the first one's. */
    ghost predicate Valid()
      reads this
    {
      && (synchronous ==> CheckReplyFormat(syncReply))
      && (starts == 0 ==> !synchronous && id == 0)
      && (starts == 1 ==> synchronous != (id != 0))
      && (starts > 0 ==> synchronous || id != 0)
    }

    constructor (lib: Library, transport: Transport, enc: PayloadEncoding)
      ensures Valid() && starts == 0 && this.lib == lib && this.transport == transport && this.enc == enc
    {
      this.lib, this.transport, this.enc := lib, transport, enc;
      id, synchronous, syncReply, starts := 0, false, Empty, 0;
    }

    /** None when it throws, which it does exactly when there is no input: then nothing has been sent. */
    method Start(input: AnyValue) returns (result: Option<ProtocolResult>, ghost x: Exchange)
      requires Valid()
      modifies this, transport
      ensures Valid() && (result == None <==> input.Empty?)
      ensures input.Empty? ==> unchanged(this) && unchanged(transport)
      ensures !input.Empty? ==>
        && transport.log == old(transport.log) + [x]
        && x.request == CreateAsyncRPCRequest(lib, input, enc)
        && match DecodeStart(lib, x.response)
           case Failed(r) => result == Some(r) && r != SUCCESS && unchanged(this)
           case AtOnce(reply) =>
             && result == Some(SUCCESS) && synchronous && syncReply == reply && id == old(id)
             && starts == old(starts) + 1
           case Later(i) =>
             result == Some(SUCCESS) && synchronous == old(synchronous) && id == i && starts == old(starts) + 1
      ensures !input.Empty? && x.response.Raised? ==> result == Some(CLIENT_TRANSPORT_EXCEPTION)
      ensures !input.Empty? && x.response.Packet? ==>
        var reply := x.response.packet;
        var atOnce :=
          && reply.HasField(Result) && reply.Get(Result).UInt32? && !reply.HasField(Async)
          && (reply.HasField(Timestamp) ==> reply.Get(Timestamp).UInt64?)
          && (reply.HasField(Encoding) ==> reply.Get(Encoding).Int32?)
          && (reply.HasField(Reason) ==> reply.Get(Reason).Text?);
        && (atOnce ==> result == Some(SUCCESS) && synchronous && syncReply == reply)
        && (!atOnce && result == Some(SUCCESS) ==>
              && reply.HasField(Async) && id != 0
              && var payload := TryGetReplyPayload(lib, reply);
                 payload.Some? && payload.value.HasField(Id) && payload.value.Get(Id) == UInt64(id))
        && (!atOnce && result != Some(SUCCESS) ==> result == Some(CLIENT_TRANSPORT_DECODING_ERROR))
    {
      if input.Empty? {
        return None, Exchange(input, Raised);
      }
      var request := CreateAsyncRPCRequest(lib, input, enc);
      var response := transport.Call(request);
      x := Exchange(request, response);
      StartIsReadExactly(lib, response);
      if response.Raised? {
        return Some(CLIENT_TRANSPORT_EXCEPTION), x;
      }
      var reply := response.packet;
      if GetAsyncInfo(reply).None? {
        if !CheckReplyFormat(reply) {
          return Some(CLIENT_TRANSPORT_DECODING_ERROR), x;
        }
        synchronous, syncReply, starts := true, reply, starts + 1;
        return Some(SUCCESS), x;
      }
      var encoding := TryGetPacketEncoding(reply);
      if encoding.None? {
        return Some(CLIENT_TRANSPORT_DECODING_ERROR), x;
      }
      var idInfo := TryExtractReplyId(lib, reply, encoding.value);
      if idInfo.None? || idInfo.value == 0 {
        return Some(CLIENT_TRANSPORT_DECODING_ERROR), x;
      }
      id, starts := idInfo.value, starts + 1;
      return Some(SUCCESS), x;
    }

    /** In synchronous mode the transport is never contacted, here and below. */
    method PollOnce() returns (result: ProtocolResult, ready: bool)
      requires Valid()
      modifies transport
      ensures synchronous ==> result == SUCCESS && ready && transport.log == old(transport.log)
      ensures !synchronous ==>
        && |transport.log| == |old(transport.log)| + 1
        && var x := transport.log[|old(transport.log)|];
           && transport.log == old(transport.log) + [x]
           && IsPoll(lib, enc, id, x, result, ready)
    {
      if synchronous {
        return SUCCESS, true;
      }
      var response := transport.Call(CreateAsyncRPCFollowUp(lib, id, enc, POLL));
      if response.Raised? {
        return CLIENT_TRANSPORT_EXCEPTION, false;
      }
      var encoding := TryGetPacketEncoding(response.packet);
      if encoding.None? {
        return CLIENT_TRANSPORT_DECODING_ERROR, false;
      }
      var readyInfo := TryExtractReadyStatus(lib, response.packet, encoding.value);
      if readyInfo.None? {
        return CLIENT_TRANSPORT_DECODING_ERROR, false;
      }
      return SUCCESS, readyInfo.value;
    }

    method GetReply(output: AnyValue) returns (result: ProtocolResult, output': AnyValue)
      requires Valid()
      modifies transport
      ensures synchronous ==>
        (result, output') == DecodeReply(lib, syncReply, output) && transport.log == old(transport.log)
      ensures !synchronous ==>
        && |transport.log| == |old(transport.log)| + 1
        && var x := transport.log[|old(transport.log)|];
           && transport.log == old(transport.log) + [x]
           && x.request == CreateAsyncRPCFollowUp(lib, id, enc, GET_REPLY)
           && (result, output') == DecodeGetReply(lib, x.response, output)
      ensures result != SUCCESS ==> output' == output
      ensures !synchronous && transport.log[|old(transport.log)|].response.Raised? ==>
        result == CLIENT_TRANSPORT_EXCEPTION
      ensures synchronous || transport.log[|old(transport.log)|].response.Packet? ==>
        var reply := if synchronous then syncReply else transport.log[|old(transport.log)|].response.packet;
        Reports(reply, SUCCESS) ==>
          match TryGetReplyPayload(lib, reply)
          case None => result == CLIENT_TRANSPORT_DECODING_ERROR
          case Some(payload) =>
            && (payload.Empty? ==> (result, output') == (SUCCESS, output))
            && (!payload.Empty? && output.Empty? ==> (result, output') == (SUCCESS, payload))
            && (!payload.Empty? && !output.Empty? ==>
                  match lib.convert(output, payload)
                  case Some(converted) => (result, output') == (SUCCESS, converted)
                  case None => result == CLIENT_TRANSPORT_DECODING_ERROR)
    {
      hide TryGetReplyPayload;
      output' := output;
      if synchronous {
        var decoded := DecodeReply(lib, syncReply, output);
        OutputOnSuccessOnly(lib, Packet(syncReply), output);
        ReplyIsReadExactly(lib, Packet(syncReply), output);
        return decoded.0, decoded.1;
      }
      var response := transport.Call(CreateAsyncRPCFollowUp(lib, id, enc, GET_REPLY));
      if response.Raised? {
        return CLIENT_TRANSPORT_EXCEPTION, output;
      }
      var resultInfo := TryExtractProtocolResult(response.packet);
      if resultInfo.None? {
        return CLIENT_TRANSPORT_DECODING_ERROR, output;
      }
      if resultInfo.value != SUCCESS {
        return resultInfo.value, output;
      }
      var payload := TryGetReplyPayload(lib, response.packet);
      if payload.None? {
        return CLIENT_TRANSPORT_DECODING_ERROR, output;
      }
      if !payload.value.Empty? {
        var (stored, storedOutput) := lib.TryAssignIfEmptyOrConvert(output, payload.value);
        if !stored {
          return CLIENT_TRANSPORT_DECODING_ERROR, output;
        }
        output' := storedOutput;
      }
      result := SUCCESS;
    }

    /** Best effort: an exception of the transport is swallowed, and without an id nothing is sent. */
    method Invalidate()
      requires Valid()
      modifies transport
      ensures synchronous || id == 0 ==> transport.log == old(transport.log)
      ensures !synchronous && id != 0 ==>
        && |transport.log| == |old(transport.log)| + 1
        && transport.log[..|old(transport.log)|] == old(transport.log)
        && transport.log[|old(transport.log)|].request == CreateAsyncRPCFollowUp(lib, id, enc, INVALIDATE)
    {
      if synchronous || id == 0 {
        return;
      }
      var _ := transport.Call(CreateAsyncRPCFollowUp(lib, id, enc, INVALIDATE));
    }
  }

  class ProtocolRPCClient {
    const lib: Library
    const transport: Transport
    const clock: Clock
    const enc: PayloadEncoding
    const useAsync: bool
    const timeout: nat
    const interval: nat

    constructor (lib: Library, transport: Transport, clock: Clock, enc: PayloadEncoding, useAsync: bool,
                 timeout: nat, interval: nat)
      ensures this.lib == lib && this.transport == transport && this.clock == clock && this.enc == enc
      ensures this.useAsync == useAsync && this.timeout == timeout && this.interval == interval
    {
      this.lib, this.transport, this.clock, this.enc := lib, transport, clock, enc;
      this.useAsync, this.timeout, this.interval := useAsync, timeout, interval;
    }

    method Invoke(input: AnyValue, output: AnyValue)
      returns (result: ProtocolResult, output': AnyValue, ghost t: seq<Exchange>, ghost polls: nat)
      modifies transport, clock
      ensures transport.log == old(transport.log) + t
      ensures input.Empty? ==> (result, output', t) == (CLIENT_TRANSPORT_ENCODING_ERROR, output, [])
      ensures !input.Empty? && !useAsync ==> SyncRun(lib, enc, input, output, t, result, output')
      ensures !input.Empty? && useAsync ==> AsyncRun(lib, enc, input, output, t, polls, result, output')
      ensures interval > 0 ==> polls <= MaxWaits(timeout, interval) + 1
      ensures 0 < polls && |t| == polls + 1 && DecodePoll(lib, t[polls].response) == (SUCCESS, false) ==>
                result == ASYNCHRONOUS_PROTOCOL_TIMEOUT && old(clock.now) + timeout < clock.now
    {
      t, polls := [], 0;
      assert transport.log == old(transport.log) + t;
      if input.Empty? {
        return CLIENT_TRANSPORT_ENCODING_ERROR, output, t, polls;
      }
      if useAsync {
        result, output', t, polls := HandleAsyncInvoke(input, output);
      } else {
        result, output', t := HandleSyncInvoke(input, output);
      }
    }

    method HandleSyncInvoke(input: AnyValue, output: AnyValue)
      returns (result: ProtocolResult, output': AnyValue, ghost t: seq<Exchange>)
      requires !input.Empty?
      modifies transport
      ensures transport.log == old(transport.log) + t
      ensures SyncRun(lib, enc, input, output, t, result, output')
      ensures t[0].response.Raised? ==> (result, output') == (CLIENT_TRANSPORT_EXCEPTION, output)
      ensures t[0].response.Packet? && !CheckReplyFormat(t[0].response.packet) ==>
        (result, output') == (CLIENT_TRANSPORT_DECODING_ERROR, output)
      ensures t[0].response.Packet? && CheckReplyFormat(t[0].response.packet) ==>
        var reply := t[0].response.packet;
        && (reply.Get(Result) != UInt32(0) ==> (result, output') == (reply.Get(Result).u32, output))
        && (reply.Get(Result) == UInt32(0) ==>
              match TryGetReplyPayload(lib, reply)
              case None => (result, output') == (CLIENT_TRANSPORT_DECODING_ERROR, output)
              case Some(payload) =>
                && (payload.Empty? ==> (result, output') == (SUCCESS, output))
                && (!payload.Empty? && output.Empty? ==> (result, output') == (SUCCESS, payload))
                && (!payload.Empty? && !output.Empty? ==>
                      match lib.convert(output, payload)
                      case Some(converted) => (result, output') == (SUCCESS, converted)
                      case None => (result, output') == (CLIENT_TRANSPORT_DECODING_ERROR, output)))
    {
      hide TryGetReplyPayload;
      var request := CreateRPCRequest(lib, input, enc);
      var response := transport.Call(request);
      t := [Exchange(request, response)];
      ReplyIsReadExactly(lib, response, output);
      if response.Raised? {
        return CLIENT_TRANSPORT_EXCEPTION, output, t;
      }
      var decoded := DecodeReply(lib, response.packet, output);
      result, output' := decoded.0, decoded.1;
    }

    /** The poll loop ends whatever the transport does, after a bounded number of polls, and gives up only
        after the timeout has passed. */
    method PollUntilReady(invocation: AsyncInvocation)
      returns (result: ProtocolResult, ready: bool, ghost ps: seq<Exchange>)
      requires invocation.Valid() && !invocation.synchronous
      requires invocation.lib == lib && invocation.transport == transport && invocation.enc == enc
      modifies transport, clock
      ensures transport.log == old(transport.log) + ps
      ensures IsPollPhase(lib, enc, invocation.id, ps, result, ready)
      ensures interval > 0 ==> |ps| <= MaxWaits(timeout, interval) + 1
      ensures result == SUCCESS && !ready ==> old(clock.now) + timeout < clock.now
    {
      hide DecodePoll, CreateAsyncRPCFollowUp, Schedule;
      var handler: PollingTimeoutHandler := new PollingTimeoutHandler(clock, timeout, interval);
      ps := [];
      assert transport.log == old(transport.log) + ps;
      while true
        invariant transport.log == old(transport.log) + ps && handler.Valid(clock)
        invariant forall k | 0 <= k < |ps| :: IsPoll(lib, enc, invocation.id, ps[k], SUCCESS, false)
        invariant |ps| == |handler.readings|
        invariant old(clock.now) <= handler.start && handler.timeout == timeout && handler.interval == interval
        modifies transport, clock, handler`readings
        decreases if clock.latest <= handler.start + timeout then handler.start + timeout + 1 - clock.latest else 0
      {
        if interval > 0 { WaitsAreBounded(handler.start, timeout, interval, handler.readings); }
        ghost var sent := |transport.log|;
        result, ready := invocation.PollOnce();
        ps := ps + [transport.log[sent]];
        assert transport.log == old(transport.log) + ps;
        assert IsPoll(lib, enc, invocation.id, ps[|ps| - 1], result, ready);
        if result != SUCCESS || ready {
          return;
        }
        var goOn, _, _ := handler.Wait(clock);
        if !goOn {
          return;
        }
      }
    }

    method HandleAsyncInvoke(input: AnyValue, output: AnyValue)
      returns (result: ProtocolResult, output': AnyValue, ghost t: seq<Exchange>, ghost polls: nat)
      requires !input.Empty?
      modifies transport, clock
      ensures transport.log == old(transport.log) + t
      ensures AsyncRun(lib, enc, input, output, t, polls, result, output')
      ensures interval > 0 ==> polls <= MaxWaits(timeout, interval) + 1
      ensures 0 < polls && |t| == polls + 1 && DecodePoll(lib, t[polls].response) == (SUCCESS, false) ==>
                result == ASYNCHRONOUS_PROTOCOL_TIMEOUT && old(clock.now) + timeout < clock.now
    {
      hide DecodePoll, CreateAsyncRPCFollowUp, CreateAsyncRPCRequest, DecodeStart, DecodeReply, DecodeGetReply, IsPoll,
        IsPollPhase, MaxWaits, AsyncRun;
      var invocation := new AsyncInvocation(lib, transport, enc);
      var started, x := invocation.Start(input);
      result := started.value;
      t, polls, output' := [x], 0, output;
      RunWithoutPolls(lib, enc, input, output, x);
      if result != SUCCESS {
        return;
      }
      ghost var ps, y := [], x;
      if !invocation.synchronous {
        var ready;
        result, ready, ps := PollUntilReady(invocation);
        t, polls := t + ps, |ps|;
        RunWithPolls(lib, enc, input, output, x, invocation.id, ps, result, ready, y);
        if result != SUCCESS {
          return;
        }
        if !ready {
          return ASYNCHRONOUS_PROTOCOL_TIMEOUT, output, t, polls;
        }
      }
      ghost var sent := |transport.log|;
      result, output' := invocation.GetReply(output);
      if !invocation.synchronous {
        y := transport.log[sent];
        t := t + [y];
        RunWithPolls(lib, enc, input, output, x, invocation.id, ps, SUCCESS, true, y);
      }
      assert transport.log == old(transport.log) + t;
    }
  }
}
