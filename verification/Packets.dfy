/** Building and parsing of RPC packets (`protocol_rpc.cpp`). Parsing never fails abruptly: every
    `Try...` function answers None on a missing or ill-typed member. */
module Packets {
  import opened Values

  datatype PayloadEncoding = Plain | Base64

  /** An asynchronous command is any 32-bit number; four of them have a meaning. */
  type AsyncCommand = uint32
  const INITIAL_REQUEST: AsyncCommand := 0
  const POLL: AsyncCommand := 1
  const GET_REPLY: AsyncCommand := 2
  const INVALIDATE: AsyncCommand := 3

  const REQUEST_TYPE := "sup::protocolRequest/v2.1"
  const REPLY_TYPE := "sup::protocolReply/v2.1"
  const SERVICE_REQUEST_TYPE := "sup::ServiceRequest/v2.0"
  const SERVICE_REPLY_TYPE := "sup::ServiceReply/v2.0"

  // ----- payload encoding

  function EncodingToInteger(enc: PayloadEncoding): int32 {
    match enc
    case Plain => 0
    case Base64 => 1
  }

  function Encode(lib: Library, v: AnyValue, enc: PayloadEncoding): AnyValue {
    match enc
    case Plain => v
    case Base64 => Text(lib.encode(v))
  }

  function Decode(lib: Library, v: AnyValue, enc: PayloadEncoding): Option<AnyValue> {
    match enc
    case Plain => Some(v)
    case Base64 => if v.Text? then lib.decode(v.text) else None
  }

  function AddRPCPayload(lib: Library, packet: AnyValue, payload: AnyValue, f: Field, enc: PayloadEncoding): AnyValue
    requires packet.Struct? && !packet.HasField(f) && !packet.HasField(Encoding) && f != Encoding
  {
    match enc
    case Plain => packet.AddMember(f, payload)
    case Base64 =>
      packet.AddMember(Encoding, Int32(EncodingToInteger(enc))).AddMember(f, Encode(lib, payload, enc))
  }

  // ----- format checks

  predicate CheckRequestFormat(request: AnyValue) {
    && request.MemberHasTypeIfPresent(Timestamp, UnsignedInteger64Type)
    && request.MemberHasTypeIfPresent(Encoding, SignedInteger32Type)
    && request.MemberHasTypeIfPresent(Async, UnsignedInteger32Type)
    && request.HasField(Query)
  }

  predicate CheckReplyFormat(reply: AnyValue) {
    && reply.MemberHasType(Result, UnsignedInteger32Type)
    && reply.MemberHasTypeIfPresent(Timestamp, UnsignedInteger64Type)
    && reply.MemberHasTypeIfPresent(Encoding, SignedInteger32Type)
    && reply.MemberHasTypeIfPresent(Reason, StringType)
    && reply.MemberHasTypeIfPresent(Async, UnsignedInteger32Type)
  }

  predicate CheckServiceRequest(request: AnyValue) {
    && request.MemberHasTypeIfPresent(Encoding, SignedInteger32Type)
    && request.HasField(Service)
  }

  predicate CheckServiceReplyFormat(reply: AnyValue) {
    && reply.MemberHasType(Result, UnsignedInteger32Type)
    && reply.MemberHasTypeIfPresent(Encoding, SignedInteger32Type)
  }

  // ----- requests (an empty payload is an error of the caller)

  function CreateRPCRequest(lib: Library, payload: AnyValue, enc: PayloadEncoding): AnyValue
    requires !payload.Empty?
  {
    AddRPCPayload(lib, Struct(REQUEST_TYPE, map[]), payload, Query, enc)
  }

  function CreateAsyncRPCRequest(lib: Library, payload: AnyValue, enc: PayloadEncoding): AnyValue
    requires !payload.Empty?
  {
    CreateRPCRequest(lib, payload, enc).AddMember(Async, UInt32(INITIAL_REQUEST))
  }

  function CreateRequestIdPayload(id: uint64): AnyValue {
    Struct("", map[Id := UInt64(id)])
  }

  /** The poll, get-reply and invalidate requests differ in the command only. */
  function CreateAsyncRPCFollowUp(lib: Library, id: uint64, enc: PayloadEncoding, command: AsyncCommand): AnyValue {
    AddRPCPayload(lib, Struct(REQUEST_TYPE, map[]), CreateRequestIdPayload(id), Query, enc)
      .AddMember(Async, UInt32(command))
  }

  function CreateServiceRequest(lib: Library, payload: AnyValue, enc: PayloadEncoding): AnyValue
    requires !payload.Empty?
  {
    AddRPCPayload(lib, Struct(SERVICE_REQUEST_TYPE, map[]), payload, Service, enc)
  }

  // ----- replies

  function CreateTypedReply(lib: Library, typeName: string, result: ProtocolResult, payload: AnyValue,
                            enc: PayloadEncoding): (reply: AnyValue)
    ensures reply.Struct? && !reply.HasField(Async)
  {
    var reply := Struct(typeName, map[Result := UInt32(result)]);
    if payload.Empty? then reply else AddRPCPayload(lib, reply, payload, Reply, enc)
  }

  function CreateRPCReply(lib: Library, result: ProtocolResult, payload: AnyValue, enc: PayloadEncoding): AnyValue {
    CreateTypedReply(lib, REPLY_TYPE, result, payload, enc)
  }

  function CreateServiceReply(lib: Library, result: ProtocolResult, payload: AnyValue, enc: PayloadEncoding): AnyValue {
    CreateTypedReply(lib, SERVICE_REPLY_TYPE, result, payload, enc)
  }

  function CreateAsyncRPCReply(lib: Library, result: ProtocolResult, payload: AnyValue, enc: PayloadEncoding,
                               command: AsyncCommand): AnyValue
  {
    CreateRPCReply(lib, result, payload, enc).AddMember(Async, UInt32(command))
  }

  function CreateAsyncRPCNewRequestReply(lib: Library, id: uint64, enc: PayloadEncoding): AnyValue {
    CreateAsyncRPCReply(lib, SUCCESS, Struct("", map[Id := UInt64(id)]), enc, INITIAL_REQUEST)
  }

  function CreateAsyncRPCPollReply(lib: Library, ready: bool, enc: PayloadEncoding): AnyValue {
    CreateAsyncRPCReply(lib, SUCCESS, Struct("", map[Ready := Boolean(ready)]), enc, POLL)
  }

  // ----- parsing

  function TryGetPacketEncoding(packet: AnyValue): Option<PayloadEncoding> {
    if !packet.HasField(Encoding) then Some(Plain)
    else if packet.Get(Encoding).GetType() != SignedInteger32Type then None
    else if packet.Get(Encoding).i32 == 0 then Some(Plain)
    else if packet.Get(Encoding).i32 == 1 then Some(Base64)
    else None
  }

  function GetAsyncInfo(packet: AnyValue): Option<AsyncCommand> {
    if packet.MemberHasType(Async, UnsignedInteger32Type) then Some(packet.Get(Async).u32) else None
  }

  function TryExtractProtocolResult(packet: AnyValue): Option<ProtocolResult> {
    if packet.MemberHasType(Result, UnsignedInteger32Type) then Some(packet.Get(Result).u32) else None
  }

  function TryExtractRPCPayload(lib: Library, packet: AnyValue, f: Field, enc: PayloadEncoding): Option<AnyValue> {
    if packet.HasField(f) then Decode(lib, packet.Get(f), enc) else None
  }

  /** The request identifier inside an already decoded payload. */
  function ExtractAsyncRequestId(payload: AnyValue): Option<uint64> {
    if payload.MemberHasType(Id, UnsignedInteger64Type) then Some(payload.Get(Id).u64) else None
  }

  function TryExtractReplyId(lib: Library, packet: AnyValue, enc: PayloadEncoding): Option<uint64> {
    match TryExtractRPCPayload(lib, packet, Reply, enc)
    case None => None
    case Some(payload) => ExtractAsyncRequestId(payload)
  }

  function TryExtractReadyStatus(lib: Library, packet: AnyValue, enc: PayloadEncoding): Option<bool> {
    match TryExtractRPCPayload(lib, packet, Reply, enc)
    case None => None
    case Some(payload) =>
      if payload.MemberHasType(Ready, BooleanType) then Some(payload.Get(Ready).b) else None
  }

  /** The optional payload of a reply: an absent payload reads as an empty value, an undecodable one
      as None. The client has two identical copies of this helper. */
  function TryGetReplyPayload(lib: Library, reply: AnyValue): Option<AnyValue> {
    if !reply.HasField(Reply) then Some(Empty)
    else
      match TryGetPacketEncoding(reply)
      case None => None
      case Some(enc) => TryExtractRPCPayload(lib, reply, Reply, enc)
  }

  /** What TryGetReplyPayload reads, by the members of the packet: nothing reads as an empty value; the
      member itself if the packet names no encoding or encoding 0; the decoded text if it names encoding
      1; any other encoding, and a text that does not decode, is a failure. */
  lemma ReplyPayloadExactly(lib: Library, reply: AnyValue)
    ensures !reply.HasField(Reply) ==> TryGetReplyPayload(lib, reply) == Some(Empty)
    ensures reply.HasField(Reply) && (reply.HasField(Encoding) ==> reply.Get(Encoding) == Int32(0)) ==>
              TryGetReplyPayload(lib, reply) == Some(reply.Get(Reply))
    ensures reply.HasField(Reply) && reply.HasField(Encoding) && reply.Get(Encoding) == Int32(1) ==>
              TryGetReplyPayload(lib, reply)
              == if reply.Get(Reply).Text? then lib.decode(reply.Get(Reply).text) else None
    ensures reply.HasField(Reply) && reply.HasField(Encoding)
            && reply.Get(Encoding) != Int32(0) && reply.Get(Encoding) != Int32(1) ==>
              TryGetReplyPayload(lib, reply) == None
  {
  }

  /** The result that a reply carries. */
  predicate Reports(reply: AnyValue, result: ProtocolResult) {
    reply.HasField(Result) && reply.Get(Result) == UInt32(result)
  }

  // ----- what one side builds, the other side reads back

  /** The packets on the wire, member by member: a payload stands for itself, or is text beside encoding 1;
      an empty payload of a reply is not there at all. */
  lemma WireFormat(lib: Library, payload: AnyValue, id: uint64, result: ProtocolResult, command: AsyncCommand)
    requires !payload.Empty?
    ensures CreateRPCRequest(lib, payload, Plain) == Struct("sup::protocolRequest/v2.1", map[Query := payload])
    ensures CreateRPCRequest(lib, payload, Base64)
            == Struct("sup::protocolRequest/v2.1", map[Encoding := Int32(1), Query := Text(lib.encode(payload))])
    ensures CreateAsyncRPCRequest(lib, payload, Plain)
            == Struct("sup::protocolRequest/v2.1", map[Query := payload, Async := UInt32(0)])
    ensures CreateAsyncRPCFollowUp(lib, id, Plain, command)
            == Struct("sup::protocolRequest/v2.1",
                      map[Query := Struct("", map[Id := UInt64(id)]), Async := UInt32(command)])
    ensures CreateServiceRequest(lib, payload, Plain) == Struct("sup::ServiceRequest/v2.0", map[Service := payload])
    ensures CreateRPCReply(lib, result, Empty, Base64)
            == Struct("sup::protocolReply/v2.1", map[Result := UInt32(result)])
    ensures CreateRPCReply(lib, result, payload, Plain)
            == Struct("sup::protocolReply/v2.1", map[Result := UInt32(result), Reply := payload])
    ensures CreateAsyncRPCReply(lib, result, payload, Base64, command)
            == Struct("sup::protocolReply/v2.1",
                      map[Result := UInt32(result), Encoding := Int32(1), Reply := Text(lib.encode(payload)),
                          Async := UInt32(command)])
    ensures CreateServiceReply(lib, result, payload, Plain)
            == Struct("sup::ServiceReply/v2.0", map[Result := UInt32(result), Reply := payload])
  {
  }

  /** Whatever the encoding, a payload stored under a member is read back unchanged, the encoding is
      recovered from the packet alone, and no other member appears or changes. */
  lemma StoredPayloadReadsBack(lib: Library, packet: AnyValue, payload: AnyValue, f: Field, enc: PayloadEncoding)
    requires lib.RoundTrips()
    requires packet.Struct? && !packet.HasField(f) && !packet.HasField(Encoding) && f != Encoding
    ensures var p := AddRPCPayload(lib, packet, payload, f, enc);
      && TryGetPacketEncoding(p) == Some(enc)
      && TryExtractRPCPayload(lib, p, f, enc) == Some(payload)
      && p.HasField(f)
      && p.MemberHasTypeIfPresent(Encoding, SignedInteger32Type)
      && forall g :: g != f && g != Encoding ==>
           p.HasField(g) == packet.HasField(g) && (p.HasField(g) ==> p.Get(g) == packet.Get(g))
  {
  }

  /** What the client can read of a reply: result, payload (none reads as empty) and encoding. */
  ghost predicate Carries(lib: Library, reply: AnyValue, result: ProtocolResult, payload: AnyValue,
                          enc: PayloadEncoding)
  {
    && CheckReplyFormat(reply) && CheckServiceReplyFormat(reply)
    && TryExtractProtocolResult(reply) == Some(result)
    && TryGetReplyPayload(lib, reply) == Some(payload)
    && TryGetPacketEncoding(reply) == Some(if payload.Empty? then Plain else enc)
    && (!payload.Empty? ==> TryExtractRPCPayload(lib, reply, Reply, enc) == Some(payload))
  }

  lemma PlainReplyCarries(lib: Library, typeName: string, result: ProtocolResult, payload: AnyValue,
                          enc: PayloadEncoding)
    requires lib.RoundTrips()
    ensures Carries(lib, CreateTypedReply(lib, typeName, result, payload, enc), result, payload, enc)
    ensures !CreateTypedReply(lib, typeName, result, payload, enc).HasField(Async)
  {
    hide AddRPCPayload, Decode;
    if !payload.Empty? {
      StoredPayloadReadsBack(lib, Struct(typeName, map[Result := UInt32(result)]), payload, Reply, enc);
    }
  }

  lemma CommandIsExtra(lib: Library, reply: AnyValue, result: ProtocolResult, payload: AnyValue, enc: PayloadEncoding,
                       command: AsyncCommand)
    requires reply.Struct? && !reply.HasField(Async) && Carries(lib, reply, result, payload, enc)
    ensures Carries(lib, reply.AddMember(Async, UInt32(command)), result, payload, enc)
    ensures GetAsyncInfo(reply.AddMember(Async, UInt32(command))) == Some(command)
  {
  }

  /** A reply of the server carries its result, its payload and its encoding, and is well formed; the
      asynchronous variant adds the command and nothing else. */
  lemma ReplyReadsBack(lib: Library, typeName: string, result: ProtocolResult, payload: AnyValue,
                       enc: PayloadEncoding, command: AsyncCommand)
    requires lib.RoundTrips()
    ensures Carries(lib, CreateTypedReply(lib, typeName, result, payload, enc), result, payload, enc)
    ensures GetAsyncInfo(CreateTypedReply(lib, typeName, result, payload, enc)) == None
    ensures Carries(lib, CreateAsyncRPCReply(lib, result, payload, enc, command), result, payload, enc)
    ensures GetAsyncInfo(CreateAsyncRPCReply(lib, result, payload, enc, command)) == Some(command)
  {
    hide Carries, CreateTypedReply;
    PlainReplyCarries(lib, typeName, result, payload, enc);
    PlainReplyCarries(lib, REPLY_TYPE, result, payload, enc);
    CommandIsExtra(lib, CreateRPCReply(lib, result, payload, enc), result, payload, enc, command);
  }

  /** Well-formedness of replies does not depend on the codec. */
  lemma ReplyWellFormed(lib: Library, typeName: string, result: ProtocolResult, payload: AnyValue,
                        enc: PayloadEncoding, command: AsyncCommand)
    ensures CheckReplyFormat(CreateTypedReply(lib, typeName, result, payload, enc))
    ensures GetAsyncInfo(CreateTypedReply(lib, typeName, result, payload, enc)) == None
    ensures CheckReplyFormat(CreateAsyncRPCReply(lib, result, payload, enc, command))
    ensures GetAsyncInfo(CreateAsyncRPCReply(lib, result, payload, enc, command)) == Some(command)
    ensures Reports(CreateTypedReply(lib, typeName, result, payload, enc), result)
    ensures Reports(CreateAsyncRPCReply(lib, result, payload, enc, command), result)
    ensures CreateTypedReply(lib, typeName, result, payload, enc).HasField(Reply) <==> !payload.Empty?
    ensures CreateAsyncRPCReply(lib, result, payload, enc, command).HasField(Reply) <==> !payload.Empty?
  {
  }

  /** Without a payload the encoding has no effect. */
  lemma EmptyPayloadNeedsNoEncoding(lib: Library, result: ProtocolResult, enc: PayloadEncoding, command: AsyncCommand)
    ensures CreateAsyncRPCReply(lib, result, Empty, enc, command)
            == CreateAsyncRPCReply(lib, result, Empty, Plain, command)
  {
  }

  /** The two replies with content of their own give it back to the client. */
  lemma HandleRepliesReadBack(lib: Library, id: uint64, ready: bool, enc: PayloadEncoding)
    requires lib.RoundTrips()
    ensures TryGetPacketEncoding(CreateAsyncRPCNewRequestReply(lib, id, enc)) == Some(enc)
    ensures TryExtractReplyId(lib, CreateAsyncRPCNewRequestReply(lib, id, enc), enc) == Some(id)
    ensures TryGetPacketEncoding(CreateAsyncRPCPollReply(lib, ready, enc)) == Some(enc)
    ensures TryExtractReadyStatus(lib, CreateAsyncRPCPollReply(lib, ready, enc), enc) == Some(ready)
  {
    ReplyReadsBack(lib, REPLY_TYPE, SUCCESS, Struct("", map[Id := UInt64(id)]), enc, INITIAL_REQUEST);
    ReplyReadsBack(lib, REPLY_TYPE, SUCCESS, Struct("", map[Ready := Boolean(ready)]), enc, POLL);
  }
}
