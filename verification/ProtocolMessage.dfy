/** The message carrier shared by both protocols, and the generated header types as parameters. */
module Protocol {
  import opened Wrappers
  import opened Bytes

  // ----- Codec constants -----

  const MAGIC: uint16 := 0x4B52
  const FIXED_HEADER_SIZE: nat := 16
  const MAX_FRAME_SIZE: nat := 16 * 1024 * 1024

  const CODEC_OK: int := 0
  const CODEC_INCOMPLETE: int := 1
  const CODEC_INVALID_MAGIC: int := -1
  const CODEC_OVERSIZED: int := -2
  const CODEC_PARSE_ERROR: int := -3
  const CODEC_SERIALIZE_ERROR: int := -4

  // ----- Enumerations over a fixed underlying type: any value of it can occur -----

  type MessageType = uint8
  const REQUEST: MessageType := 0
  const RESPONSE: MessageType := 1
  const ONEWAY: MessageType := 2

  type StreamType = uint8
  type ContentType = int32
  type ContentEncoding = int32

  datatype Version = Legacy | XRpc

  // ----- Protobuf headers -----

  datatype RpcHeader = RpcHeader(serviceName: Str, methodName: Str, argsSize: uint32)

  datatype RequestProtocol = RequestProtocol(
    requestId: uint64, timeout: uint32, caller: Str, callee: Str, funcName: Str,
    contentType: int32, contentEncoding: int32, transInfo: map<Str, Str>, callerApp: Str, messageType: int32)

  datatype ResponseProtocol = ResponseProtocol(
    requestId: uint64, retCode: int32, errorMsg: Str,
    contentType: int32, contentEncoding: int32, transInfo: map<Str, Str>)

  /** `SerializeToString` and `ParseFromString` of one generated message type. */
  datatype HeaderFormat<!H> = HeaderFormat(serialize: H -> Option<Str>, parse: Str -> Option<H>) {
    /** What Protobuf promises for a header whose strings are valid. */
    ghost predicate RoundTripsAt(h: H) {
      serialize(h).Some? ==> parse(serialize(h).value) == Some(h)
    }
  }

  /** The environment the codecs are compiled for. */
  datatype Wire = Wire(
    host: Host,
    rpcHeader: HeaderFormat<RpcHeader>,
    request: HeaderFormat<RequestProtocol>,
    response: HeaderFormat<ResponseProtocol>)

  // ----- A format that round-trips at every header of a given list -----

  function IndexOf<H(==)>(table: seq<H>, h: H): (i: nat)
    ensures i <= |table| && (i < |table| ==> table[i] == h) && (i == |table| ==> h !in table)
  {
    if table == [] then 0 else if table[0] == h then 0 else 1 + IndexOf(table[1..], h)
  }

  function TableFormat<H(==)>(table: seq<H>): (r: HeaderFormat<H>) {
    HeaderFormat(
      (h: H) => if h in table then Some(Zeros(IndexOf(table, h))) else None,
      (s: Str) => if |s| < |table| then Some(table[|s|]) else None)
  }

  lemma TableFormatRoundTrips<H>(table: seq<H>, h: H)
    requires h in table
    ensures TableFormat(table).serialize(h).Some?
    ensures |TableFormat(table).serialize(h).value| < |table|
    ensures TableFormat(table).RoundTripsAt(h)
  {}

  // ----- Messages -----

  /** The fields of a ProtocolMessage. */
  datatype Message = Message(
    version: Version, requestId: uint64, contentType: ContentType, contentEncoding: ContentEncoding, body: Str,
    serviceName: Str, methodName: Str, argsSize: uint32,
    messageType: MessageType, streamType: StreamType, streamId: uint32, timeout: uint32,
    caller: Str, callee: Str, funcName: Str, callerApp: Str,
    retCode: int32, errorMsg: Str, transInfo: map<Str, Str>)

  const DEFAULT_MESSAGE: Message := Message(
    XRpc, 0, 0, 0, [], [], [], 0, REQUEST, 0, 0, 1000, [], [], [], [], 0, [], map[])

  /** What a decoder leaves behind: its return code, the message object's fields and the input buffer. */
  datatype Decoded = Decoded(code: int, msg: Message, rest: Str)

  datatype ClientContext = ClientContext(
    serviceName: Str, methodName: Str, caller: Str, callerApp: Str, timeoutMs: uint32)

  /** The object that callers pass to the codecs to be filled in; its fields are kept in one record. */
  class ProtocolMessage {
    var fields: Message

    constructor ()
      ensures fields == DEFAULT_MESSAGE
    {
      fields := DEFAULT_MESSAGE;
    }

    method Reset()
      modifies this
      ensures fields == DEFAULT_MESSAGE
    {
      fields := DEFAULT_MESSAGE;
    }
  }
}
