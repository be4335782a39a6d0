/**
 The Legacy framing: requests `[4B TotalLen][4B HeaderLen][RpcHeader][Body]`, responses `[4B TotalLen][Body]`,
 lengths big-endian.
 */
module LegacyCodec {
  import opened Wrappers
  import opened Bytes
  import opened NoncontiguousBuffers
  import opened Protocol

  // ----- Server side, on flat byte sequences -----

  function TotalLen(s: Str): (r: uint32) { U32At(s, 0) }

  function HeaderLen(s: Str): (r: uint32) { U32At(s, 4) }

  /** The size of the first frame, 0 for an incomplete one, or a negative error code. */
  function Pick(s: Str): (r: int) {
    if |s| < 4 then 0
    else if TotalLen(s) > MAX_FRAME_SIZE then CODEC_OVERSIZED
    else if TotalLen(s) < 4 then CODEC_PARSE_ERROR
    else if |s| < 4 + TotalLen(s) then 0
    else 4 + TotalLen(s)
  }

  /** The header must end inside the frame; the server never checks this. */
  predicate HeaderFits(s: Str) {
    HeaderLen(s) as int <= TotalLen(s) as int - 4
  }

  const LEGACY_RESET: Message := DEFAULT_MESSAGE.(version := Legacy)

  function HeaderBytes(s: Str): (r: Str) { Padded(s, HeaderLen(s), 8) }

  /** The subtraction wraps modulo 2^32 when the header does not fit. */
  function BodyLen(s: Str): (r: uint32) { Truncate32(TotalLen(s) as int - 4 - HeaderLen(s) as int) }

  function BodyBytes(s: Str): (r: Str) { Padded(s, BodyLen(s), Truncate32(8 + HeaderLen(s))) }

  function WithHeader(msg: Message, h: RpcHeader): (r: Message) {
    msg.(serviceName := h.serviceName, methodName := h.methodName, argsSize := h.argsSize)
  }

  function Decode(wire: Wire, s: Str): (r: Decoded) {
    match wire.rpcHeader.parse(HeaderBytes(s))
    case None => Decoded(CODEC_PARSE_ERROR, LEGACY_RESET, s)
    case Some(h) =>
      Decoded(
        CODEC_OK,
        WithHeader(LEGACY_RESET, h).(body := BodyBytes(s)),
        Dropped(s, Truncate32(4 + TotalLen(s))))
  }

  function ReplyFrame(body: Str): (r: Str) { BE32(Truncate32(|body|)) + body }

  // ----- Client side -----

  /** The header that a client builds for a message. */
  function RequestHeader(ctx: ClientContext, msg: Message): (r: RpcHeader) {
    RpcHeader(
      if msg.serviceName == [] then ctx.serviceName else msg.serviceName,
      if msg.methodName == [] then ctx.methodName else msg.methodName,
      Truncate32(|msg.body|))
  }

  function FrameOf(header: Str, body: Str): (r: Str) {
    BE32(Truncate32(4 + Truncate32(|header|) + |body|)) + BE32(Truncate32(|header|)) + header + body
  }

  /** The bytes of a request; None when Protobuf cannot serialise the header. */
  function Encode(wire: Wire, ctx: ClientContext, msg: Message): (r: Option<Str>) {
    match wire.rpcHeader.serialize(RequestHeader(ctx, msg))
    case None => None
    case Some(header) => Some(FrameOf(header, msg.body))
  }

  function DecodeReply(s: Str): (r: Decoded) {
    if |s| < 4 then Decoded(CODEC_INCOMPLETE, LEGACY_RESET, s)
    else if TotalLen(s) > MAX_FRAME_SIZE then Decoded(CODEC_OVERSIZED, LEGACY_RESET, s)
    else if |s| < 4 + TotalLen(s) then Decoded(CODEC_INCOMPLETE, LEGACY_RESET, s)
    else Decoded(CODEC_OK, LEGACY_RESET.(body := Padded(s, TotalLen(s), 4), messageType := RESPONSE),
                 Dropped(s, 4 + TotalLen(s)))
  }

  // ----- The codec operations -----

  lemma FourParts(before: Str, a: Str, b: Str, c: Str, d: Str)
    ensures before + a + b + c + d == before + (a + b + c + d)
    ensures d == [] ==> before + a + b + c == before + (a + b + c + d)
  {}

  method CheckAndPick(input: NoncontiguousBuffer) returns (size: int)
    requires input.Valid()
    ensures size == Pick(input.contents)
  {
    var readable := input.ReadableBytes();
    if readable < 4 {
      return 0;
    }
    var totalLen := input.PeekU32(0);
    if totalLen > MAX_FRAME_SIZE {
      return CODEC_OVERSIZED;
    }
    if totalLen < 4 {
      return CODEC_PARSE_ERROR;
    }
    if readable < 4 + totalLen {
      return 0;
    }
    return 4 + totalLen;
  }

  method ZeroCopyDecode(wire: Wire, input: NoncontiguousBuffer, msg: ProtocolMessage) returns (code: int)
    requires input.Valid()
    modifies input, msg
    ensures input.Valid()
    ensures Decoded(code, msg.fields, input.contents) == Decode(wire, old(input.contents))
  {
    ghost var s := input.contents;
    msg.Reset();
    msg.fields := msg.fields.(version := Legacy);
    var totalLen := input.PeekU32(0);
    var headerLen := input.PeekU32(4);
    var headerBytes := input.PeekPadded(headerLen, 8);
    var parsed := wire.rpcHeader.parse(headerBytes);
    if parsed.None? {
      return CODEC_PARSE_ERROR;
    }
    msg.fields := WithHeader(msg.fields, parsed.value);
    var bodyLen := Truncate32(totalLen as int - 4 - headerLen as int);
    if bodyLen > 0 {
      var body := input.PeekPadded(bodyLen, Truncate32(8 + headerLen as int));
      msg.fields := msg.fields.(body := body);
    }
    assert msg.fields.body == BodyBytes(s);
    input.Skip(Truncate32(4 + totalLen as int));
    return CODEC_OK;
  }

  method ZeroCopyEncodeReply(msg: ProtocolMessage, output: NoncontiguousBuffer) returns (code: int)
    requires output.Valid()
    modifies output
    ensures output.Valid()
    ensures code == CODEC_OK && output.contents == old(output.contents) + ReplyFrame(msg.fields.body)
  {
    var body := msg.fields.body;
    output.Append(BE32(Truncate32(|body|)));
    output.Append(body);
    Assoc(old(output.contents), BE32(Truncate32(|body|)), body);
    return CODEC_OK;
  }

  method ZeroCopyEncode(wire: Wire, ctx: ClientContext, msg: ProtocolMessage, output: NoncontiguousBuffer)
    returns (code: int)
    requires output.Valid()
    modifies output, msg
    ensures output.Valid() && msg.fields == old(msg.fields).(version := Legacy)
    ensures match Encode(wire, ctx, msg.fields)
            case None => code == CODEC_SERIALIZE_ERROR && output.contents == old(output.contents)
            case Some(frame) => code == CODEC_OK && output.contents == old(output.contents) + frame
  {
    msg.fields := msg.fields.(version := Legacy);
    match wire.rpcHeader.serialize(RequestHeader(ctx, msg.fields)) {
      case None =>
        return CODEC_SERIALIZE_ERROR;
      case Some(header) =>
        var body := msg.fields.body;
        var headerLen := Truncate32(|header|);
        var total, length := BE32(Truncate32(4 + headerLen + |body|)), BE32(headerLen);
        output.Append(total);
        output.Append(length);
        output.Append(header);
        if body != [] {
          output.Append(body);
        }
        FourParts(old(output.contents), total, length, header, body);
        return CODEC_OK;
    }
  }

  method ZeroCopyDecodeReply(input: NoncontiguousBuffer, msg: ProtocolMessage) returns (code: int)
    requires input.Valid()
    modifies input, msg
    ensures input.Valid()
    ensures Decoded(code, msg.fields, input.contents) == DecodeReply(old(input.contents))
  {
    msg.Reset();
    msg.fields := msg.fields.(version := Legacy);
    var readable := input.ReadableBytes();
    if readable < 4 {
      return CODEC_INCOMPLETE;
    }
    var totalLen := input.PeekU32(0);
    if totalLen > MAX_FRAME_SIZE {
      return CODEC_OVERSIZED;
    }
    if readable < 4 + totalLen {
      return CODEC_INCOMPLETE;
    }
    var body := input.PeekPadded(totalLen, 4);
    msg.fields := msg.fields.(body := body, messageType := RESPONSE);
    input.Skip(4 + totalLen);
    return CODEC_OK;
  }

  // ----- The server's verdict and decoding depend on the first frame only -----

  /** A verdict other than "incomplete" never changes when more bytes arrive. */
  lemma PickIsPrefixStable(s: Str, t: Str)
    ensures Pick(s) != 0 ==> Pick(s + t) == Pick(s)
    ensures Pick(s) > 0 ==> 8 <= Pick(s) <= |s| && Pick(s[..Pick(s)]) == Pick(s)
  {
    if |s| >= 4 {
      U32OfPrefix(s, t, 0);
    }
    if Pick(s) > 0 {
      assert s == s[..Pick(s)] + s[Pick(s)..];
      U32OfPrefix(s[..Pick(s)], s[Pick(s)..], 0);
    }
  }

  /** Decoding a frame whose header fits reads nothing behind the frame, and consumes exactly the frame. */
  lemma DecodeIsLocal(wire: Wire, frame: Str, rest: Str)
    requires Pick(frame) == |frame| && |frame| > 0 && HeaderFits(frame)
    ensures var d, e := Decode(wire, frame), Decode(wire, frame + rest);
            && e.code == d.code && e.msg == d.msg
            && e.rest == if d.code == CODEC_OK then rest else frame + rest
    ensures HeaderFits(frame + rest)
  {
    var s := frame + rest;
    U32OfPrefix(frame, rest, 0);
    U32OfPrefix(frame, rest, 4);
    PaddedOfPrefix(frame, rest, HeaderLen(frame), 8);
    assert HeaderBytes(s) == HeaderBytes(frame);
    PaddedOfPrefix(frame, rest, BodyLen(frame), 8 + HeaderLen(frame));
    assert BodyBytes(s) == BodyBytes(frame);
    DropAppend(frame, rest);
    assert Truncate32(4 + TotalLen(s)) == |frame|;
  }

  /** A header format that puts the bytes it is given into the service name. */
  function RawWire(wire: Wire): (r: Wire) {
    wire.(rpcHeader := HeaderFormat((h: RpcHeader) => Some(h.serviceName), (s: Str) => Some(RpcHeader(s, [], 0))))
  }

  /**
   A header that does not fit is read from the bytes behind the frame: for the format that keeps all header bytes,
   the message changes with them. (A format that ignores its bytes would hide it.)
   */
  lemma OversizedHeaderReadsOn(wire: Wire, frame: Str)
    requires Pick(frame) == |frame| && |frame| > 0 && !HeaderFits(frame)
    ensures Decode(RawWire(wire), frame + [1]).msg != Decode(RawWire(wire), frame).msg
  {
    U32OfPrefix(frame, [1], 4);
    var k := |frame| - 8;
    assert HeaderBytes(frame)[k] == 0 && HeaderBytes(frame + [1])[k] == 1;
    assert Decode(RawWire(wire), frame).msg.serviceName == HeaderBytes(frame);
    assert Decode(RawWire(wire), frame + [1]).msg.serviceName == HeaderBytes(frame + [1]);
  }

  /** For every header format and whatever follows. */
  ghost predicate DecodeIgnoresTheRest(frame: Str) {
    forall wire: Wire, rest: Str ::
      var d, e := Decode(wire, frame), Decode(wire, frame + rest);
      e.code == d.code && e.msg == d.msg
  }

  /**
   What a complete frame means, under all header formats, is independent of the bytes behind it exactly when its
   header fits.
   */
  lemma DecodeIsLocalExactly(wire: Wire, frame: Str)
    requires Pick(frame) == |frame| && |frame| > 0
    ensures DecodeIgnoresTheRest(frame) <==> HeaderFits(frame)
  {
    if HeaderFits(frame) {
      forall wire: Wire, rest: Str
        ensures Decode(wire, frame + rest).code == Decode(wire, frame).code
        ensures Decode(wire, frame + rest).msg == Decode(wire, frame).msg
      {
        DecodeIsLocal(wire, frame, rest);
      }
    } else {
      OversizedHeaderReadsOn(wire, frame);
    }
  }

  /** Frames whose header does not fit exist: four bytes that announce one byte of header behind the frame. */
  lemma OversizedHeaderExists() returns (frame: Str)
    ensures Pick(frame) == |frame| == 8 && !HeaderFits(frame)
    ensures !DecodeIgnoresTheRest(frame)
  {
    frame := [0, 0, 0, 4, 0, 0, 0, 1];
    DecodeIsLocalExactly(AnyWire(), frame);
  }

  function AnyWire(): (r: Wire) {
    Wire(BigEndian, TableFormat([]), TableFormat([]), TableFormat([]))
  }

  // ----- Encoding and decoding are inverse -----

  predicate Fits(header: Str, body: Str) { 4 + |header| + |body| <= MAX_FRAME_SIZE }

  lemma FrameFields(header: Str, body: Str, rest: Str)
    ensures |FrameOf(header, body)| == 8 + |header| + |body|
    ensures TotalLen(FrameOf(header, body) + rest) == Truncate32(4 + Truncate32(|header|) + |body|)
    ensures HeaderLen(FrameOf(header, body) + rest) == Truncate32(|header|)
    ensures Padded(FrameOf(header, body) + rest, |header|, 8) == header
    ensures Padded(FrameOf(header, body) + rest, |body|, 8 + |header|) == body
  {
    var total, length := BE32(Truncate32(4 + Truncate32(|header|) + |body|)), BE32(Truncate32(|header|));
    var s := FrameOf(header, body) + rest;
    assert s == total + (length + header + body + rest);
    U32OfBE32(Truncate32(4 + Truncate32(|header|) + |body|), length + header + body + rest);
    U32OfBE32(Truncate32(|header|), header + body + rest);
    assert U32At(s, 4) == U32At(length + (header + body + rest), 0);
    assert s == (total + length) + header + (body + rest);
    PaddedMiddle(total + length, header, body + rest);
    assert s == (total + length + header) + body + rest;
    PaddedMiddle(total + length + header, body, rest);
  }

  lemma FittingFrame(header: Str, body: Str, rest: Str)
    requires Fits(header, body)
    ensures var s := FrameOf(header, body) + rest;
            && TotalLen(s) == 4 + |header| + |body| && HeaderLen(s) == |header|
            && HeaderBytes(s) == header && BodyBytes(s) == body
            && |s| == 4 + TotalLen(s) + |rest| && Dropped(s, 4 + TotalLen(s)) == rest
  {
    FrameFields(header, body, rest);
    DropAppend(FrameOf(header, body), rest);
  }

  /** The encoders check no limit: the server takes the whole frame exactly when it is within the limit. */
  lemma PickOfFrame(header: Str, body: Str, rest: Str)
    ensures var frame := FrameOf(header, body);
            Pick(frame + rest) == |frame| <==> Fits(header, body)
  {
    if Fits(header, body) {
      FittingFrame(header, body, rest);
    } else {
      FrameFields(header, body, rest);
    }
  }

  /** What the server makes of a request: the client's fields, with the context's names for missing ones. */
  function Received(ctx: ClientContext, msg: Message): (r: Message) {
    WithHeader(LEGACY_RESET, RequestHeader(ctx, msg)).(body := msg.body)
  }

  /** Requests that reach the server: the header can be serialised and the frame is within the limit. */
  ghost predicate Sendable(wire: Wire, ctx: ClientContext, msg: Message) {
    var h := RequestHeader(ctx, msg);
    && wire.rpcHeader.serialize(h).Some?
    && wire.rpcHeader.RoundTripsAt(h)
    && Fits(wire.rpcHeader.serialize(h).value, msg.body)
  }

  lemma RequestRoundTrip(wire: Wire, ctx: ClientContext, msg: Message, rest: Str)
    requires Sendable(wire, ctx, msg)
    ensures var frame := Encode(wire, ctx, msg).value;
            && Pick(frame + rest) == |frame| && HeaderFits(frame + rest)
            && Decode(wire, frame + rest) == Decoded(CODEC_OK, Received(ctx, msg), rest)
  {
    var header := wire.rpcHeader.serialize(RequestHeader(ctx, msg)).value;
    FittingFrame(header, msg.body, rest);
    PickOfFrame(header, msg.body, rest);
  }

  /** The client takes a whole reply, and its body, exactly when the body is within the limit. */
  lemma ReplyRoundTrip(body: Str, rest: Str)
    requires |body| < 0x1_0000_0000
    ensures DecodeReply(ReplyFrame(body) + rest)
         == if |body| <= MAX_FRAME_SIZE
            then Decoded(CODEC_OK, LEGACY_RESET.(body := body, messageType := RESPONSE), rest)
            else Decoded(CODEC_OVERSIZED, LEGACY_RESET, ReplyFrame(body) + rest)
  {
    var s := ReplyFrame(body) + rest;
    assert s == BE32(|body|) + (body + rest);
    U32OfBE32(|body|, body + rest);
    PaddedMiddle(BE32(|body|), body, rest);
    DropAppend(ReplyFrame(body), rest);
  }
}
