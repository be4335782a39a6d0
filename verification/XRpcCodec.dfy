/** The XRpc framing: `[16B FixedHeader][RequestProtocol or ResponseProtocol][Body]`. */
module XRpcCodec {
  import opened Wrappers
  import opened Bytes
  import opened NoncontiguousBuffers
  import opened Protocol
  import opened FixedHeaders

  // ----- Service and method inside a function name -----

  const SLASH: uint8 := 47

  function LastSlash(s: Str): (r: Option<nat>) {
    if s == [] then None
    else if s[|s| - 1] == SLASH then Some(|s| - 1)
    else LastSlash(s[..|s| - 1])
  }

  function SplitNames(msg: Message): (r: Message) {
    match LastSlash(msg.funcName)
    case None => msg
    case Some(i) =>
      if i < |msg.funcName| then msg.(serviceName := msg.funcName[..i], methodName := msg.funcName[i + 1..]) else msg
  }

  lemma {:induction false} LastSlashOf(service: Str, m: Str)
    requires SLASH !in m
    ensures LastSlash(service + [SLASH] + m) == Some(|service|)
  {
    var s := service + [SLASH] + m;
    if m != [] {
      LastSlashOf(service, m[..|m| - 1]);
      assert s[..|s| - 1] == service + [SLASH] + m[..|m| - 1];
      assert s[|s| - 1] == m[|m| - 1];
    }
  }

  // ----- The server's verdict -----

  function Pick(host: Host, s: Str): (r: int) {
    if |s| < FIXED_HEADER_SIZE then 0
    else
      var h := HeaderAt(host, s);
      if !h.IsValid() then CODEC_INVALID_MAGIC
      else if h.totalSize > MAX_FRAME_SIZE || h.totalSize < FIXED_HEADER_SIZE then CODEC_OVERSIZED
      else if h.headerSize > h.totalSize - FIXED_HEADER_SIZE then CODEC_PARSE_ERROR
      else if |s| < h.totalSize then 0
      else h.totalSize
  }

  // ----- Decoding -----

  function HeaderPart(h: Fields, s: Str): (r: Str) { Padded(s, h.headerSize, FIXED_HEADER_SIZE) }

  function BodyPart(h: Fields, s: Str): (r: Str) { Padded(s, h.BodySize(), FIXED_HEADER_SIZE + h.headerSize) }

  function WithRequest(msg: Message, req: RequestProtocol): (r: Message) {
    SplitNames(msg.(messageType := REQUEST, requestId := req.requestId, timeout := req.timeout,
                    caller := req.caller, callee := req.callee, funcName := req.funcName,
                    contentType := req.contentType, contentEncoding := req.contentEncoding,
                    callerApp := req.callerApp, transInfo := req.transInfo))
  }

  function WithResponse(msg: Message, resp: ResponseProtocol): (r: Message) {
    msg.(messageType := RESPONSE, requestId := resp.requestId, retCode := resp.retCode, errorMsg := resp.errorMsg,
         contentType := resp.contentType, contentEncoding := resp.contentEncoding, transInfo := resp.transInfo)
  }

  /** The variable header, read according to the message type; None when it cannot be parsed. */
  function WithVariableHeader(wire: Wire, h: Fields, bytes: Str, msg: Message): (r: Option<Message>) {
    if h.msgType == REQUEST then
      match wire.request.parse(bytes)
      case None => None
      case Some(req) => Some(WithRequest(msg, req))
    else if h.msgType == RESPONSE then
      match wire.response.parse(bytes)
      case None => None
      case Some(resp) => Some(WithResponse(msg, resp))
    else if h.msgType == ONEWAY then Some(msg.(messageType := ONEWAY))
    else Some(msg)
  }

  function WithStream(msg: Message, h: Fields): (r: Message) {
    msg.(streamType := h.streamType, streamId := h.streamId)
  }

  function Decode(wire: Wire, s: Str): (r: Decoded) {
    var h := HeaderAt(wire.host, s);
    if |s| < FIXED_HEADER_SIZE then Decoded(CODEC_INCOMPLETE, DEFAULT_MESSAGE, s)
    else if !h.IsValid() then Decoded(CODEC_INVALID_MAGIC, DEFAULT_MESSAGE, s)
    else
      var withBody := DEFAULT_MESSAGE.(body := BodyPart(h, s));
      match WithVariableHeader(wire, h, HeaderPart(h, s), withBody)
      case None => Decoded(CODEC_PARSE_ERROR, withBody, s)
      case Some(msg) => Decoded(CODEC_OK, WithStream(msg, h), Dropped(s, h.totalSize))
  }

  const REPLY_RESET: Message := DEFAULT_MESSAGE.(messageType := RESPONSE)

  function DecodeReply(wire: Wire, s: Str): (r: Decoded) {
    var h := HeaderAt(wire.host, s);
    if |s| < FIXED_HEADER_SIZE then Decoded(CODEC_INCOMPLETE, REPLY_RESET, s)
    else if !h.IsValid() then Decoded(CODEC_INVALID_MAGIC, REPLY_RESET, s)
    else if h.totalSize > MAX_FRAME_SIZE then Decoded(CODEC_OVERSIZED, REPLY_RESET, s)
    else if |s| < h.totalSize then Decoded(CODEC_INCOMPLETE, REPLY_RESET, s)
    else
      var withBody := REPLY_RESET.(body := BodyPart(h, s));
      match wire.response.parse(HeaderPart(h, s))
      case None => Decoded(CODEC_PARSE_ERROR, withBody, s)
      case Some(resp) => Decoded(CODEC_OK, WithStream(WithResponse(withBody, resp), h), Dropped(s, h.totalSize))
  }

  // ----- Encoding -----

  datatype Encoded = Failed(code: int) | Frame(bytes: Str)

  function FuncName(msg: Message): (r: Str) {
    if msg.funcName == [] then msg.serviceName + [SLASH] + msg.methodName else msg.funcName
  }

  function RequestOf(ctx: ClientContext, msg: Message): (r: RequestProtocol) {
    RequestProtocol(
      msg.requestId,
      if msg.timeout > 0 then msg.timeout else ctx.timeoutMs,
      if msg.caller == [] then ctx.caller else msg.caller,
      msg.callee,
      FuncName(msg),
      msg.contentType, msg.contentEncoding, msg.transInfo,
      if msg.callerApp == [] then ctx.callerApp else msg.callerApp,
      if msg.messageType == ONEWAY then 2 else 0)
  }

  function ResponseOf(msg: Message): (r: ResponseProtocol) {
    ResponseProtocol(msg.requestId, msg.retCode, msg.errorMsg, msg.contentType, msg.contentEncoding, msg.transInfo)
  }

  /** Both sizes are truncated to the width of their field. */
  function FieldsOf(msgType: MessageType, msg: Message, header: Str): (r: Fields) {
    Fields(MAGIC, msgType, msg.streamType, Truncate32(FIXED_HEADER_SIZE + |header| + |msg.body|),
           Truncate16(|header|), msg.streamId, 0)
  }

  /** The limit is checked on the truncated size. */
  function Framed(host: Host, msgType: MessageType, msg: Message, header: Option<Str>): (r: Encoded) {
    match header
    case None => Failed(CODEC_SERIALIZE_ERROR)
    case Some(bytes) =>
      var h := FieldsOf(msgType, msg, bytes);
      if h.totalSize > MAX_FRAME_SIZE then Failed(CODEC_OVERSIZED)
      else Frame(WireBytes(host, h) + bytes + msg.body)
  }

  function Encode(wire: Wire, ctx: ClientContext, msg: Message): (r: Encoded) {
    Framed(wire.host, msg.messageType, msg, wire.request.serialize(RequestOf(ctx, msg)))
  }

  function EncodeReply(wire: Wire, msg: Message): (r: Encoded) {
    Framed(wire.host, RESPONSE, msg, wire.response.serialize(ResponseOf(msg)))
  }

  // ----- The codec operations -----

  /** The fields are read one by one; each is converted after the read. */
  method PeekFixedHeader(host: Host, input: NoncontiguousBuffer, fh: FixedHeader) returns (code: int)
    requires input.Valid()
    modifies fh
    ensures code == if |input.contents| < FIXED_HEADER_SIZE then CODEC_INCOMPLETE else CODEC_OK
    ensures fh.fields == if code == CODEC_OK then HeaderAt(host, input.contents) else old(fh.fields)
  {
    var readable := input.ReadableBytes();
    if readable < FIXED_HEADER_SIZE {
      return CODEC_INCOMPLETE;
    }
    var magic := input.PeekU16(0);
    var msgType := input.PeekPadded(1, 2);
    var streamType := input.PeekPadded(1, 3);
    var totalSize := input.PeekU32(4);
    var headerSize := input.PeekU16(8);
    var streamId := input.PeekU32(10);
    var reserved := input.PeekPadded(2, 14);
    assert reserved == [At(input.contents, 14), At(input.contents, 15)];
    fh.fields := Fields(magic, msgType[0], streamType[0], totalSize, headerSize, streamId, Load16(host, reserved));
    return CODEC_OK;
  }

  method CheckAndPick(host: Host, input: NoncontiguousBuffer) returns (size: int)
    requires input.Valid()
    ensures size == Pick(host, input.contents)
  {
    var readable := input.ReadableBytes();
    if readable < FIXED_HEADER_SIZE {
      return 0;
    }
    var fh := new FixedHeader();
    var code := PeekFixedHeader(host, input, fh);
    if code != CODEC_OK {
      return 0;
    }
    if !fh.fields.IsValid() {
      return CODEC_INVALID_MAGIC;
    }
    if fh.fields.totalSize > MAX_FRAME_SIZE || fh.fields.totalSize < FIXED_HEADER_SIZE {
      return CODEC_OVERSIZED;
    }
    if fh.fields.headerSize > fh.fields.totalSize - FIXED_HEADER_SIZE {
      return CODEC_PARSE_ERROR;
    }
    if readable < fh.fields.totalSize {
      return 0;
    }
    return fh.fields.totalSize;
  }

  /** The variable header and the body, each read into memory of its own. */
  method ReadParts(input: NoncontiguousBuffer, h: Fields) returns (header: Str, body: Str)
    requires input.Valid()
    ensures header == HeaderPart(h, input.contents) && body == BodyPart(h, input.contents)
  {
    header := input.PeekPadded(h.headerSize, FIXED_HEADER_SIZE);
    body := [];
    if h.BodySize() > 0 {
      body := input.PeekPadded(h.BodySize(), FIXED_HEADER_SIZE + h.headerSize);
    }
  }

  method ZeroCopyDecode(wire: Wire, input: NoncontiguousBuffer, msg: ProtocolMessage) returns (code: int)
    requires input.Valid()
    modifies input, msg
    ensures input.Valid()
    ensures Decoded(code, msg.fields, input.contents) == Decode(wire, old(input.contents))
  {
    msg.Reset();
    var fh := new FixedHeader();
    code := PeekFixedHeader(wire.host, input, fh);
    if code != CODEC_OK {
      return CODEC_INCOMPLETE;
    }
    var h := fh.fields;
    if !h.IsValid() {
      return CODEC_INVALID_MAGIC;
    }
    var headerBytes, body := ReadParts(input, h);
    msg.fields := msg.fields.(body := body);
    if h.msgType == REQUEST {
      var req := wire.request.parse(headerBytes);
      if req.None? {
        return CODEC_PARSE_ERROR;
      }
      msg.fields := WithRequest(msg.fields, req.value);
    } else if h.msgType == RESPONSE {
      var resp := wire.response.parse(headerBytes);
      if resp.None? {
        return CODEC_PARSE_ERROR;
      }
      msg.fields := WithResponse(msg.fields, resp.value);
    } else if h.msgType == ONEWAY {
      msg.fields := msg.fields.(messageType := ONEWAY);
    }
    msg.fields := WithStream(msg.fields, h);
    input.Skip(h.totalSize);
    return CODEC_OK;
  }

  method ZeroCopyDecodeReply(wire: Wire, input: NoncontiguousBuffer, msg: ProtocolMessage) returns (code: int)
    requires input.Valid()
    modifies input, msg
    ensures input.Valid()
    ensures Decoded(code, msg.fields, input.contents) == DecodeReply(wire, old(input.contents))
  {
    msg.Reset();
    msg.fields := msg.fields.(messageType := RESPONSE);
    var readable := input.ReadableBytes();
    if readable < FIXED_HEADER_SIZE {
      return CODEC_INCOMPLETE;
    }
    var fh := new FixedHeader();
    code := PeekFixedHeader(wire.host, input, fh);
    var h := fh.fields;
    if !h.IsValid() {
      return CODEC_INVALID_MAGIC;
    }
    if h.totalSize > MAX_FRAME_SIZE {
      return CODEC_OVERSIZED;
    }
    if readable < h.totalSize {
      return CODEC_INCOMPLETE;
    }
    var headerBytes, body := ReadParts(input, h);
    msg.fields := msg.fields.(body := body);
    var resp := wire.response.parse(headerBytes);
    if resp.None? {
      return CODEC_PARSE_ERROR;
    }
    msg.fields := WithStream(WithResponse(msg.fields, resp.value), h);
    input.Skip(h.totalSize);
    return CODEC_OK;
  }

  lemma ThreeParts(before: Str, a: Str, b: Str, c: Str)
    ensures before + a + b + c == before + (a + b + c)
    ensures c == [] ==> before + a + b == before + (a + b + c)
  {}

  /** What both encoders do once the variable header is serialised. */
  method WriteFrame(host: Host, h: Fields, header: Str, body: Str, output: NoncontiguousBuffer) returns (code: int)
    requires output.Valid()
    modifies output
    ensures output.Valid()
    ensures code == if h.totalSize > MAX_FRAME_SIZE then CODEC_OVERSIZED else CODEC_OK
    ensures output.contents
         == old(output.contents) + if code == CODEC_OK then WireBytes(host, h) + header + body else []
  {
    if h.totalSize > MAX_FRAME_SIZE {
      assert output.contents + [] == output.contents;
      return CODEC_OVERSIZED;
    }
    var fh := new FixedHeader();
    fh.fields := h;
    fh.HToN(host);
    var fixed := fh.fields.Memory(host);
    output.Append(fixed);
    output.Append(header);
    if body != [] {
      output.Append(body);
    }
    ThreeParts(old(output.contents), fixed, header, body);
    return CODEC_OK;
  }

  method ZeroCopyEncode(wire: Wire, ctx: ClientContext, msg: ProtocolMessage, output: NoncontiguousBuffer)
    returns (code: int)
    requires output.Valid()
    modifies output
    ensures output.Valid()
    ensures match Encode(wire, ctx, msg.fields)
            case Failed(c) => code == c && output.contents == old(output.contents)
            case Frame(bytes) => code == CODEC_OK && output.contents == old(output.contents) + bytes
  {
    var m := msg.fields;
    var header := wire.request.serialize(RequestOf(ctx, m));
    if header.None? {
      return CODEC_SERIALIZE_ERROR;
    }
    code := WriteFrame(wire.host, FieldsOf(m.messageType, m, header.value), header.value, m.body, output);
  }

  method ZeroCopyEncodeReply(wire: Wire, msg: ProtocolMessage, output: NoncontiguousBuffer) returns (code: int)
    requires output.Valid()
    modifies output
    ensures output.Valid()
    ensures match EncodeReply(wire, msg.fields)
            case Failed(c) => code == c && output.contents == old(output.contents)
            case Frame(bytes) => code == CODEC_OK && output.contents == old(output.contents) + bytes
  {
    var m := msg.fields;
    var header := wire.response.serialize(ResponseOf(m));
    if header.None? {
      return CODEC_SERIALIZE_ERROR;
    }
    code := WriteFrame(wire.host, FieldsOf(RESPONSE, m, header.value), header.value, m.body, output);
  }

  // ----- The server's verdict and decoding depend on the first frame only -----

  lemma HeaderOfPrefix(host: Host, s: Str, t: Str)
    requires |s| >= FIXED_HEADER_SIZE
    ensures HeaderAt(host, s + t) == HeaderAt(host, s)
  {}

  lemma PickIsPrefixStable(host: Host, s: Str, t: Str)
    ensures Pick(host, s) != 0 ==> Pick(host, s + t) == Pick(host, s)
    ensures Pick(host, s) > 0 ==>
              16 <= Pick(host, s) <= |s| && Pick(host, s[..Pick(host, s)]) == Pick(host, s)
  {
    if |s| >= FIXED_HEADER_SIZE {
      HeaderOfPrefix(host, s, t);
    }
    if Pick(host, s) > 0 {
      assert s == s[..Pick(host, s)] + s[Pick(host, s)..];
      HeaderOfPrefix(host, s[..Pick(host, s)], s[Pick(host, s)..]);
    }
  }

  /** The server's checks make decoding a frame independent of the bytes behind it, for every frame. */
  lemma DecodeIsLocal(wire: Wire, frame: Str, rest: Str)
    requires Pick(wire.host, frame) == |frame| && |frame| > 0
    ensures var d, e := Decode(wire, frame), Decode(wire, frame + rest);
            && e.code == d.code && e.msg == d.msg
            && e.rest == if d.code == CODEC_OK then rest else frame + rest
  {
    var h := HeaderAt(wire.host, frame);
    HeaderOfPrefix(wire.host, frame, rest);
    PaddedOfPrefix(frame, rest, h.headerSize, FIXED_HEADER_SIZE);
    PaddedOfPrefix(frame, rest, h.BodySize(), FIXED_HEADER_SIZE + h.headerSize);
    assert HeaderPart(h, frame + rest) == HeaderPart(h, frame);
    assert BodyPart(h, frame + rest) == BodyPart(h, frame);
    DropAppend(frame, rest);
  }

  // ----- Encoding and decoding are inverse -----

  /** The sizes that the two size fields can carry. */
  predicate Fits(header: Str, body: Str) {
    |header| < 0x1_0000 && FIXED_HEADER_SIZE + |header| + |body| <= MAX_FRAME_SIZE
  }

  lemma FrameParts(host: Host, h: Fields, header: Str, body: Str, rest: Str)
    ensures var s := WireBytes(host, h) + header + body + rest;
            && HeaderAt(host, s) == h
            && Padded(s, |header|, FIXED_HEADER_SIZE) == header
            && Padded(s, |body|, FIXED_HEADER_SIZE + |header|) == body
            && Dropped(s, FIXED_HEADER_SIZE + |header| + |body|) == rest
  {
    var w := WireBytes(host, h);
    var s := w + header + body + rest;
    assert s == w + (header + body + rest);
    HeaderAtWireBytes(host, h, header + body + rest);
    assert s == w + header + (body + rest);
    PaddedMiddle(w, header, body + rest);
    PaddedMiddle(w + header, body, rest);
    DropAppend(w + header + body, rest);
  }

  /** What the server makes of a request or one-way message. */
  function Received(ctx: ClientContext, msg: Message): (r: Message) {
    var base := DEFAULT_MESSAGE.(body := msg.body, streamType := msg.streamType, streamId := msg.streamId);
    if msg.messageType == REQUEST then WithRequest(base, RequestOf(ctx, msg))
    else base.(messageType := ONEWAY)
  }

  /** Messages that a server can read: Protobuf keeps their header, and both size fields can carry them. */
  ghost predicate Sendable(wire: Wire, ctx: ClientContext, msg: Message) {
    var req := RequestOf(ctx, msg);
    && (msg.messageType == REQUEST || msg.messageType == ONEWAY)
    && wire.request.serialize(req).Some?
    && wire.request.RoundTripsAt(req)
    && Fits(wire.request.serialize(req).value, msg.body)
  }

  lemma RequestRoundTrip(wire: Wire, ctx: ClientContext, msg: Message, rest: Str)
    requires Sendable(wire, ctx, msg)
    ensures Encode(wire, ctx, msg).Frame?
    ensures var frame := Encode(wire, ctx, msg).bytes;
            && |frame| >= FIXED_HEADER_SIZE
            && Pick(wire.host, frame + rest) == |frame|
            && Decode(wire, frame + rest) == Decoded(CODEC_OK, Received(ctx, msg), rest)
  {
    var header := wire.request.serialize(RequestOf(ctx, msg)).value;
    var h := FieldsOf(msg.messageType, msg, header);
    FrameParts(wire.host, h, header, msg.body, rest);
    var s := Encode(wire, ctx, msg).bytes + rest;
    assert HeaderPart(h, s) == header && BodyPart(h, s) == msg.body;
  }

  /** What the client makes of a response. */
  function ReplyReceived(msg: Message): (r: Message) {
    REPLY_RESET.(requestId := msg.requestId, retCode := msg.retCode, errorMsg := msg.errorMsg,
                 contentType := msg.contentType, contentEncoding := msg.contentEncoding, transInfo := msg.transInfo,
                 body := msg.body, streamType := msg.streamType, streamId := msg.streamId)
  }

  /** The server encodes a response of which the client recovers every field. */
  lemma ReplyRoundTrip(wire: Wire, msg: Message, rest: Str)
    requires var resp := ResponseOf(msg);
             && wire.response.serialize(resp).Some? && wire.response.RoundTripsAt(resp)
             && Fits(wire.response.serialize(resp).value, msg.body)
    ensures EncodeReply(wire, msg).Frame?
    ensures DecodeReply(wire, EncodeReply(wire, msg).bytes + rest) == Decoded(CODEC_OK, ReplyReceived(msg), rest)
  {
    var header := wire.response.serialize(ResponseOf(msg)).value;
    var h := FieldsOf(RESPONSE, msg, header);
    FrameParts(wire.host, h, header, msg.body, rest);
    var s := EncodeReply(wire, msg).bytes + rest;
    assert HeaderPart(h, s) == header && BodyPart(h, s) == msg.body;
  }

  lemma {:induction false} LastSlashFrom(s: Str, k: nat)
    requires k < |s| && s[k] == SLASH
    ensures LastSlash(s).Some? && k <= LastSlash(s).value < |s|
  {
    if s[|s| - 1] != SLASH {
      LastSlashFrom(s[..|s| - 1], k);
    }
  }

  /** The names survive exactly when the method name has no slash. */
  lemma NamesRecoveredExactly(ctx: ClientContext, msg: Message)
    requires msg.messageType == REQUEST && msg.funcName == []
    ensures (Received(ctx, msg).serviceName == msg.serviceName && Received(ctx, msg).methodName == msg.methodName)
       <==> SLASH !in msg.methodName
  {
    if SLASH in msg.methodName {
      var k :| 0 <= k < |msg.methodName| && msg.methodName[k] == SLASH;
      LastSlashFrom(FuncName(msg), |msg.serviceName| + 1 + k);
    } else {
      LastSlashOf(msg.serviceName, msg.methodName);
    }
  }

  /**
   The encoder checks neither width, so its success does not mean that the server can read the frame.
   For every request or one-way message it encodes, the frame is read back exactly when the two size fields can
   carry it.
   */
  lemma RequestRoundTripExactly(wire: Wire, ctx: ClientContext, msg: Message)
    requires (msg.messageType == REQUEST || msg.messageType == ONEWAY) && Encode(wire, ctx, msg).Frame?
    requires wire.request.RoundTripsAt(RequestOf(ctx, msg))
    ensures Decode(wire, Encode(wire, ctx, msg).bytes) == Decoded(CODEC_OK, Received(ctx, msg), [])
       <==> Fits(wire.request.serialize(RequestOf(ctx, msg)).value, msg.body)
  {
    var header := wire.request.serialize(RequestOf(ctx, msg)).value;
    var h := FieldsOf(msg.messageType, msg, header);
    var frame := Encode(wire, ctx, msg).bytes;
    assert frame + [] == frame;
    if Fits(header, msg.body) {
      RequestRoundTrip(wire, ctx, msg, []);
    } else {
      FrameParts(wire.host, h, header, msg.body, []);
      var d := Decode(wire, frame);
      if d.code == CODEC_OK {
        assert |d.msg.body| == h.BodySize();
        assert |Received(ctx, msg).body| == |msg.body|;
        if |frame| < 0x1_0000_0000 {
          assert h.BodySize() > |msg.body|;
        } else {
          assert d.rest == Dropped(frame, h.totalSize) && d.rest != [];
        }
      }
    }
  }

  /** The same of responses: the client recovers every field exactly when the two size fields can carry the frame. */
  lemma ReplyRoundTripExactly(wire: Wire, msg: Message)
    requires EncodeReply(wire, msg).Frame? && wire.response.RoundTripsAt(ResponseOf(msg))
    ensures DecodeReply(wire, EncodeReply(wire, msg).bytes) == Decoded(CODEC_OK, ReplyReceived(msg), [])
       <==> Fits(wire.response.serialize(ResponseOf(msg)).value, msg.body)
  {
    var header := wire.response.serialize(ResponseOf(msg)).value;
    var h := FieldsOf(RESPONSE, msg, header);
    var frame := EncodeReply(wire, msg).bytes;
    assert frame + [] == frame;
    if Fits(header, msg.body) {
      ReplyRoundTrip(wire, msg, []);
    } else {
      FrameParts(wire.host, h, header, msg.body, []);
      var d := DecodeReply(wire, frame);
      if d.code == CODEC_OK {
        assert |d.msg.body| == h.BodySize();
        assert |ReplyReceived(msg).body| == |msg.body|;
        if |frame| < 0x1_0000_0000 {
          assert h.BodySize() > |msg.body|;
        } else {
          assert d.rest == Dropped(frame, h.totalSize) && d.rest != [];
        }
      }
    }
  }

  /** A format with one header of 65536 bytes, the least that the 16-bit size field cannot carry. */
  function WideFormat<H>(header: H): (r: HeaderFormat<H>) {
    HeaderFormat((h: H) => Some(Zeros(0x1_0000)), (s: Str) => Some(header))
  }

  function WideWire(host: Host, req: RequestProtocol, resp: ResponseProtocol): (r: Wire) {
    Wire(host, TableFormat([]), WideFormat(req), WideFormat(resp))
  }

  /** On either host there are requests and responses that are encoded without an error and not read back. */
  lemma WideHeadersAreLost(ctx: ClientContext, host: Host) returns (wire: Wire, msg: Message)
    ensures wire.host == host && msg.messageType == REQUEST
    ensures wire.request.RoundTripsAt(RequestOf(ctx, msg)) && wire.response.RoundTripsAt(ResponseOf(msg))
    ensures Encode(wire, ctx, msg).Frame? && EncodeReply(wire, msg).Frame?
    ensures Decode(wire, Encode(wire, ctx, msg).bytes) != Decoded(CODEC_OK, Received(ctx, msg), [])
    ensures DecodeReply(wire, EncodeReply(wire, msg).bytes) != Decoded(CODEC_OK, ReplyReceived(msg), [])
  {
    msg := DEFAULT_MESSAGE;
    wire := WideWire(host, RequestOf(ctx, msg), ResponseOf(msg));
    RequestRoundTripExactly(wire, ctx, msg);
    ReplyRoundTripExactly(wire, msg);
  }
}
