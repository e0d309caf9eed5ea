/** The dynamically typed values (`AnyValue`) that packets and payloads are made of, reduced to what
    the RPC layer looks at, the result codes, and the library functions the layer relies on. */
module Values {
  const U32_LIMIT: nat := 0x1_0000_0000
  const U64_LIMIT: nat := 0x1_0000_0000_0000_0000

  type uint32 = n: nat | n < 0x1_0000_0000
  type uint64 = n: nat | n < 0x1_0000_0000_0000_0000
  type int32 = n: int | -0x8000_0000 <= n < 0x8000_0000

  datatype Option<+T> = None | Some(value: T)

  /** Subtraction on 64-bit unsigned operands: it wraps around when b > a. */
  function Sub64(a: nat, b: nat): nat {
    (a - b) % U64_LIMIT
  }

  /** A clock that does not run backwards and fits in 64 bits never makes the subtraction wrap. */
  lemma Sub64Exact(a: nat, b: nat)
    requires b <= a < U64_LIMIT
    ensures Sub64(a, b) == a - b
  {
  }

  /** The member names used on the wire; application payloads may use them and any other name. */
  datatype Field =
    | Encoding | Async | Id | Ready | Timestamp | Query | Result | Reason | Reply | Service
    | Named(name: string)

  datatype AnyType =
    | EmptyType | BooleanType | SignedInteger32Type | UnsignedInteger32Type | UnsignedInteger64Type
    | StringType | StructType | OtherType

  datatype AnyValue =
    | Empty
    | Boolean(b: bool)
    | Int32(i32: int32)
    | UInt32(u32: uint32)
    | UInt64(u64: uint64)
    | Text(text: string)
    | Struct(typeName: string, fields: map<Field, AnyValue>)
    | Other(tag: nat)  // every other scalar or array type
  {
    function GetType(): AnyType {
      match this
      case Empty => EmptyType
      case Boolean(_) => BooleanType
      case Int32(_) => SignedInteger32Type
      case UInt32(_) => UnsignedInteger32Type
      case UInt64(_) => UnsignedInteger64Type
      case Text(_) => StringType
      case Struct(_, _) => StructType
      case Other(_) => OtherType
    }

    predicate HasField(f: Field) {
      Struct? && f in fields
    }

    function Get(f: Field): AnyValue
      requires HasField(f)
    {
      fields[f]
    }

    /** Adding a member that is already there is an error in the library. */
    function AddMember(f: Field, v: AnyValue): AnyValue
      requires Struct? && !HasField(f)
    {
      Struct(typeName, fields[f := v])
    }

    predicate MemberHasType(f: Field, t: AnyType) {
      HasField(f) && Get(f).GetType() == t
    }

    predicate MemberHasTypeIfPresent(f: Field, t: AnyType) {
      HasField(f) ==> Get(f).GetType() == t
    }
  }

  type ProtocolResult = uint32

  const SUCCESS: ProtocolResult := 0
  const CLIENT_TRANSPORT_ENCODING_ERROR: ProtocolResult := 6
  const CLIENT_TRANSPORT_DECODING_ERROR: ProtocolResult := 8
  const SERVER_TRANSPORT_DECODING_ERROR: ProtocolResult := 9
  const SERVER_UNSUPPORTED_PAYLOAD_ENCODING_ERROR: ProtocolResult := 14
  const INVALID_REQUEST_IDENTIFIER_ERROR: ProtocolResult := 15
  const INVALID_ASYNCHRONOUS_OPERATION_ERROR: ProtocolResult := 16
  const SERVER_PROTOCOL_EXCEPTION: ProtocolResult := 17
  const CLIENT_TRANSPORT_EXCEPTION: ProtocolResult := 18
  const ASYNCHRONOUS_PROTOCOL_TIMEOUT: ProtocolResult := 19

  /** What one call of the application's `Protocol` does: it returns a result and an output, or throws. */
  datatype Outcome = Returned(result: ProtocolResult, output: AnyValue) | Threw

  /** The parts of the value libraries the RPC layer calls: base64 text of a value, its inverse
      (None when the library throws), and conversion of a source into a non-empty target. */
  datatype Library = Library(
    encode: AnyValue -> string,
    decode: string -> Option<AnyValue>,
    convert: (AnyValue, AnyValue) -> Option<AnyValue>)
  {
    /** The hypothesis on the base64 codec: decoding undoes encoding. */
    ghost predicate RoundTrips() {
      forall v: AnyValue :: decode(encode(v)) == Some(v)
    }

    /** An empty target takes the source; otherwise conversion succeeds or leaves the target alone. */
    function TryAssignIfEmptyOrConvert(target: AnyValue, source: AnyValue): (r: (bool, AnyValue)) {
      if target.Empty? then (true, source)
      else
        match convert(target, source)
        case Some(v) => (true, v)
        case None => (false, target)
    }
  }
}
