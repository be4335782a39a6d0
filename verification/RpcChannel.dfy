/** The client's side of a connection: exact reads, and one call from request to response. */
module RpcChannels {
  import opened Wrappers
  import opened Bytes
  import opened NoncontiguousBuffers
  import opened Protocol
  import opened FixedHeaders
  import Legacy = LegacyCodec
  import XRpc = XRpcCodec

  // ----- Sockets: the kernel's answers are inputs -----

  /** One answer of `recv`: at most n bytes, end of stream, EINTR, or another error. */
  datatype Answer = Data(n: nat) | Eof | Interrupted | Error

  class Socket {
    var open: bool
    var sent: Str             // the bytes sent on this connection
    var incoming: Str         // the bytes of the peer that are still to be received
    var script: seq<Answer>   // how the kernel will answer; it reports the end of the stream when none is left

    constructor (incoming: Str, script: seq<Answer>)
      ensures open && sent == [] && this.incoming == incoming && this.script == script
    {
      open, sent := true, [];
      this.incoming, this.script := incoming, script;
    }

    /** At least one and at most `max` bytes, or 0 at the end of the stream, or -1. */
    method Recv(max: nat) returns (n: int, interrupted: bool, data: Str)
      requires max > 0
      modifies this`incoming, this`script
      ensures old(incoming) == data + incoming
      ensures script == if old(script) == [] then [] else old(script)[1..]
      ensures var k := Taken(old(script), |old(incoming)|, max);
              && |data| == k <= max
              && n == (if k > 0 then k
                       else if old(script) != [] && (old(script)[0].Interrupted? || old(script)[0].Error?) then -1
                       else 0)
      ensures interrupted == (old(script) != [] && old(script)[0].Interrupted?)
    {
      var k := Taken(script, |incoming|, max);
      interrupted := script != [] && script[0].Interrupted?;
      n := if k > 0 then k
           else if script != [] && (script[0].Interrupted? || script[0].Error?) then -1
           else 0;
      data := incoming[..k];
      incoming := incoming[k..];
      script := if script == [] then [] else script[1..];
    }
  }

  /** The number of bytes that the next answer delivers. */
  function Taken(script: seq<Answer>, available: nat, max: nat): (r: nat) {
    if script == [] || !script[0].Data? then 0
    else Min(max, Min(available, if script[0].n == 0 then 1 else script[0].n))
  }

  // ----- Reading exactly so many bytes -----

  /** Whether all bytes arrive, how many do, and the answers left over. */
  datatype Reading = Reading(complete: bool, got: nat, script: seq<Answer>)

  function Read(script: seq<Answer>, available: nat, size: nat): (r: Reading)
    decreases |script|
  {
    if size == 0 then Reading(true, 0, script)
    else if script == [] then Reading(false, 0, [])
    else
      var k := Taken(script, available, size);
      if script[0].Interrupted? then Read(script[1..], available, size)
      else if k == 0 then Reading(false, 0, script[1..])
      else
        var next := Read(script[1..], available - k, size - k);
        next.(got := k + next.got)
  }

  lemma ReadBounds(script: seq<Answer>, available: nat, size: nat)
    ensures var r := Read(script, available, size);
            r.got <= Min(available, size) && (r.complete <==> r.got == size)
    decreases |script|
  {
    if size > 0 && script != [] {
      var k := Taken(script, available, size);
      ReadBounds(script[1..], available - k, size - k);
    }
  }

  function CountData(script: seq<Answer>): (r: nat) {
    if script == [] then 0 else (if script[0].Data? then 1 else 0) + CountData(script[1..])
  }

  /** Interruptions and short reads never lose the read: enough answers with data complete it. */
  lemma {:induction false} ShortReadsComplete(script: seq<Answer>, available: nat, size: nat)
    requires forall a | a in script :: a.Data? || a.Interrupted?
    requires size <= available && size <= CountData(script)
    ensures Read(script, available, size).complete
    decreases |script|
  {
    if size > 0 && script != [] {
      var k := Taken(script, available, size);
      ShortReadsComplete(script[1..], available - k, size - k);
    }
  }

  /** `r` is what reading gives; the trigger keeps the recursion out of the loop's proof. */
  ghost predicate Reads(script: seq<Answer>, available: nat, size: nat, r: Reading) {
    forall s {:trigger Read(s, available, size)} | s == script :: r == Read(s, available, size)
  }

  lemma ReadStep(script: seq<Answer>, available: nat, size: nat, r: Reading) returns (next: Reading)
    requires Reads(script, available, size, r)
    ensures r.got <= Min(available, size) && (r.complete <==> r.got == size)
    ensures size == 0 ==> r == Reading(true, 0, script)
    ensures size > 0 && script == [] ==> r == Reading(false, 0, [])
    ensures size > 0 && script != [] ==>
              var k := Taken(script, available, size);
              if script[0].Interrupted? then next == r && Reads(script[1..], available, size, next)
              else if k == 0 then r == Reading(false, 0, script[1..])
              else
                && k <= available && Reads(script[1..], available - k, size - k, next)
                && r == next.(got := k + next.got)
  {
    assert r == Read(script, available, size);
    ReadBounds(script, available, size);
    next := r;
    if size > 0 && script != [] && !script[0].Interrupted? {
      var k := Taken(script, available, size);
      next := Read(script[1..], available - k, size - k);
    }
  }

  method RecvExact(sock: Socket, size: nat) returns (n: int, data: Str)
    modifies sock`incoming, sock`script
    ensures var r := Read(old(sock.script), |old(sock.incoming)|, size);
            sock.script == r.script && |data| == r.got && (n == size <==> r.complete)
    ensures n == size || n == 0 || n == -1
    ensures old(sock.incoming) == data + sock.incoming
    ensures |data| <= size && (n == size <==> |data| == size)
  {
    n, data := ReadLoop(sock, size, Read(sock.script, |sock.incoming|, size));
  }

  /** The loop of RecvExact; `whole` is proof data only. */
  method ReadLoop(sock: Socket, size: nat, ghost whole: Reading) returns (n: int, data: Str)
    requires Reads(sock.script, |sock.incoming|, size, whole)
    modifies sock`incoming, sock`script
    ensures sock.script == whole.script && |data| == whole.got && (n == size <==> whole.complete)
    ensures n == size || n == 0 || n == -1
    ensures old(sock.incoming) == data + sock.incoming
    ensures |data| <= size && (n == size <==> |data| == size)
  {
    data := [];
    ghost var left, next := whole, whole;
    while |data| < size
      invariant |data| <= size
      invariant old(sock.incoming) == data + sock.incoming
      invariant Reads(sock.script, |sock.incoming|, size - |data|, left)
      invariant whole == left.(got := |data| + left.got)
      decreases |sock.script|, size - |data|
    {
      next := ReadStep(sock.script, |sock.incoming|, size - |data|, left);
      ghost var before := sock.incoming;
      var ret, interrupted, piece := sock.Recv(size - |data|);
      AppendMiddle(old(sock.incoming), data, piece, sock.incoming, data + piece);
      if ret == 0 {
        return 0, data;
      }
      if ret == -1 {
        if interrupted {
          left := next;
          continue;
        }
        return -1, data;
      }
      left := next;
      data := data + piece;
    }
    next := ReadStep(sock.script, |sock.incoming|, size - |data|, left);
    return |data|, data;
  }

  // ----- Response frames -----

  datatype Status =
    | Ok | ConnectFailed | SerializeFailed | EncodeFailed | SendFailed
    | RecvLengthFailed | TooLarge | RecvHeaderFailed | BadHeader | RecvBodyFailed
    | DecodeFailed | ParseFailed

  /** Either the front of the stream is a whole response frame of that size, or the call fails. */
  datatype Arrival = Arrived(size: nat) | Missed(status: Status)

  function LegacyArrival(script: seq<Answer>, incoming: Str): (r: Arrival) {
    var length := Read(script, |incoming|, 4);
    ReadBounds(script, |incoming|, 4);
    if !length.complete then Missed(RecvLengthFailed)
    else
      var total := Legacy.TotalLen(incoming);
      if total > MAX_FRAME_SIZE then Missed(TooLarge)
      else if total > 0 && !Read(length.script, |incoming| - 4, total).complete then Missed(RecvBodyFailed)
      else Arrived(4 + total)
  }

  /** The fixed header at the front of the stream and the answers left over, or the failure. */
  datatype FixedPart = Good(h: Fields, script: seq<Answer>) | Bad(status: Status)

  function FixedArrival(host: Host, script: seq<Answer>, incoming: Str): (r: FixedPart) {
    var fixed := Read(script, |incoming|, FIXED_HEADER_SIZE);
    var h := HeaderAt(host, incoming);
    if !fixed.complete then Bad(RecvHeaderFailed)
    else if !h.IsValid() || h.totalSize > MAX_FRAME_SIZE || h.totalSize < FIXED_HEADER_SIZE then Bad(BadHeader)
    else Good(h, fixed.script)
  }

  function XRpcArrival(host: Host, script: seq<Answer>, incoming: Str): (r: Arrival) {
    ReadBounds(script, |incoming|, FIXED_HEADER_SIZE);
    match FixedArrival(host, script, incoming)
    case Bad(status) => Missed(status)
    case Good(h, left) =>
      var remaining := h.totalSize - FIXED_HEADER_SIZE;
      if remaining > 0 && !Read(left, |incoming| - FIXED_HEADER_SIZE, remaining).complete then Missed(RecvBodyFailed)
      else Arrived(h.totalSize)
  }

  /** The frame that is handed to the XRpc codec: its header went through NToH and was copied back as memory. */
  function CopiedBack(host: Host, frame: Str): (r: Str)
    requires |frame| >= FIXED_HEADER_SIZE
  {
    FromMemory(host, frame[..FIXED_HEADER_SIZE]).Converted(host).Memory(host) + frame[FIXED_HEADER_SIZE..]
  }

  /** What the client reads into memory before it decodes. */
  method ReceiveLegacy(sock: Socket) returns (status: Status, frame: Str)
    modifies sock`incoming, sock`script
    ensures match LegacyArrival(old(sock.script), old(sock.incoming))
            case Missed(s) => status == s && s != Ok
            case Arrived(size) =>
              && status == Ok && size <= |old(sock.incoming)|
              && frame == old(sock.incoming)[..size] && sock.incoming == old(sock.incoming)[size..]
  {
    frame := [];
    ghost var whole := sock.incoming;
    var n, lengthBytes := RecvExact(sock, 4);
    if n != 4 {
      return RecvLengthFailed, frame;
    }
    DropAppend(lengthBytes, sock.incoming);
    U32OfPrefix(lengthBytes, sock.incoming, 0);
    var totalLen := FromBE32(lengthBytes);
    if totalLen > MAX_FRAME_SIZE {
      return TooLarge, frame;
    }
    frame := lengthBytes;
    if totalLen > 0 {
      var m, body := RecvExact(sock, totalLen);
      if m != totalLen {
        return RecvBodyFailed, frame;
      }
      frame := frame + body;
      Assoc(lengthBytes, body, sock.incoming);
    }
    DropAppend(frame, sock.incoming);
    return Ok, frame;
  }

  method ReceiveXRpc(host: Host, sock: Socket) returns (status: Status, frame: Str)
    modifies sock`incoming, sock`script
    ensures match XRpcArrival(host, old(sock.script), old(sock.incoming))
            case Missed(s) => status == s && s != Ok
            case Arrived(size) =>
              && status == Ok && FIXED_HEADER_SIZE <= size <= |old(sock.incoming)|
              && frame == CopiedBack(host, old(sock.incoming)[..size])
              && sock.incoming == old(sock.incoming)[size..]
  {
    var fixed, rest;
    status, fixed, rest := ReceiveParts(host, sock);
    frame := FromMemory(host, fixed).Converted(host).Memory(host) + rest;
    CopiedBackOf(host, fixed, rest);
    DropAppend(fixed + rest, sock.incoming);
  }

  method ReceiveParts(host: Host, sock: Socket) returns (status: Status, fixed: Str, rest: Str)
    modifies sock`incoming, sock`script
    ensures |fixed| == FIXED_HEADER_SIZE
    ensures match XRpcArrival(host, old(sock.script), old(sock.incoming))
            case Missed(s) => status == s && s != Ok
            case Arrived(size) =>
              status == Ok && size == |fixed + rest| && old(sock.incoming) == fixed + rest + sock.incoming
  {
    rest := [];
    var h;
    status, fixed, h := ReceiveFixed(host, sock);
    if status != Ok {
      return status, fixed, rest;
    }
    var remaining := h.totalSize - FIXED_HEADER_SIZE;
    if remaining > 0 {
      var m;
      m, rest := RecvExact(sock, remaining);
      if m != remaining {
        return RecvBodyFailed, fixed, rest;
      }
    }
    Assoc(fixed, rest, sock.incoming);
  }

  method ReceiveFixed(host: Host, sock: Socket) returns (status: Status, fixed: Str, h: Fields)
    modifies sock`incoming, sock`script
    ensures |fixed| == FIXED_HEADER_SIZE
    ensures match FixedArrival(host, old(sock.script), old(sock.incoming))
            case Bad(s) => status == s && s != Ok
            case Good(h', left) =>
              status == Ok && h == h' && sock.script == left && old(sock.incoming) == fixed + sock.incoming
  {
    var n;
    n, fixed := RecvExact(sock, FIXED_HEADER_SIZE);
    if n != FIXED_HEADER_SIZE {
      return RecvHeaderFailed, Zeros(FIXED_HEADER_SIZE), Fields(0, 0, 0, 0, 0, 0, 0);
    }
    h := FixedFrom(host, fixed, sock.incoming);
    if !h.IsValid() || h.totalSize > MAX_FRAME_SIZE || h.totalSize < FIXED_HEADER_SIZE {
      return BadHeader, fixed, h;
    }
    status := Ok;
  }

  /** The sixteen bytes received as a struct, converted in place. */
  method FixedFrom(host: Host, fixed: Str, ghost behind: Str) returns (h: Fields)
    requires |fixed| == FIXED_HEADER_SIZE
    ensures h == FromMemory(host, fixed).Converted(host)
    ensures h == HeaderAt(host, fixed + behind)
  {
    var fh := new FixedHeader();
    fh.fields := FromMemory(host, fixed);
    MemoryRoundTrip(host, fixed);
    XRpc.HeaderOfPrefix(host, fixed, behind);
    fh.NToH(host);
    return fh.fields;
  }

  lemma CopiedBackOf(host: Host, fixed: Str, rest: Str)
    requires |fixed| == FIXED_HEADER_SIZE
    ensures CopiedBack(host, fixed + rest) == FromMemory(host, fixed).Converted(host).Memory(host) + rest
  {
    DropAppend(fixed, rest);
  }

  // ----- What arrives and what the codecs make of it -----

  /** Reading a Legacy response consumes exactly one response frame, which then always decodes. */
  lemma LegacyArrivalIsOneFrame(script: seq<Answer>, incoming: Str)
    requires LegacyArrival(script, incoming).Arrived?
    ensures var size := LegacyArrival(script, incoming).size;
            && 4 <= size <= |incoming| && size == 4 + Legacy.TotalLen(incoming)
            && Legacy.DecodeReply(incoming[..size])
            == Decoded(CODEC_OK, Legacy.LEGACY_RESET.(body := incoming[4..size], messageType := RESPONSE), [])
  {
    ReadBounds(script, |incoming|, 4);
    var total := Legacy.TotalLen(incoming);
    ReadBounds(Read(script, |incoming|, 4).script, |incoming| - 4, total);
    var frame := incoming[..4 + total];
    assert incoming == frame + incoming[4 + total..];
    U32OfPrefix(frame, incoming[4 + total..], 0);
    PaddedInside(frame, total, 4);
  }

  /** Copying the converted header back is harmless exactly on a big-endian host. */
  lemma CopyBackExactly(wire: Wire, frame: Str)
    requires |frame| >= FIXED_HEADER_SIZE && HeaderAt(wire.host, frame).IsValid()
    ensures wire.host.BigEndian? ==> CopiedBack(wire.host, frame) == frame
    ensures wire.host.LittleEndian? ==>
              XRpc.DecodeReply(wire, CopiedBack(wire.host, frame)).code == CODEC_INVALID_MAGIC
  {
    var fixed, rest := frame[..FIXED_HEADER_SIZE], frame[FIXED_HEADER_SIZE..];
    assert frame == fixed + rest;
    MemoryRoundTrip(wire.host, fixed);
    if wire.host.LittleEndian? {
      var s := CopiedBack(wire.host, frame);
      LoadIsNetworkOrder(wire.host, fixed[0..2], fixed[4..8]);
      var back := FromMemory(wire.host, fixed).Converted(wire.host).Memory(wire.host);
      assert U16At(frame, 0) == MAGIC;
      assert FromBE16(fixed[0..2]) == U16At(frame, 0);
      assert back[0] == 0x52 && back[1] == 0x4B;
      assert s[0] == 0x52 && s[1] == 0x4B;
    }
  }

  // ----- One call -----

  /** The message that a call builds, and the context that the codec is given. */
  function RequestMessage(xrpc: bool, service: Str, name: Str, body: Str): (r: Message) {
    DEFAULT_MESSAGE.(version := if xrpc then Version.XRpc else Version.Legacy,
                     serviceName := service, methodName := name, body := body)
  }

  function Context(service: Str, name: Str): (r: ClientContext) { ClientContext(service, name, [], [], 1000) }

  /** The request frame of a call; None when it cannot be encoded. */
  function RequestFrame(wire: Wire, xrpc: bool, service: Str, name: Str, body: Str): (r: Option<Str>) {
    var msg, ctx := RequestMessage(xrpc, service, name, body), Context(service, name);
    if xrpc then
      match XRpc.Encode(wire, ctx, msg)
      case Failed(_) => None
      case Frame(bytes) => Some(bytes)
    else Legacy.Encode(wire, ctx, msg)
  }

  function ReplyArrival(wire: Wire, xrpc: bool, script: seq<Answer>, incoming: Str): (r: Arrival) {
    if xrpc then XRpcArrival(wire.host, script, incoming) else LegacyArrival(script, incoming)
  }

  /** The client's decoding of the response frame at the front of the stream. */
  function ReplyDecoded(wire: Wire, xrpc: bool, frame: Str): (r: Decoded) {
    if !xrpc then Legacy.DecodeReply(frame)
    else if |frame| < FIXED_HEADER_SIZE then XRpc.DecodeReply(wire, frame)
    else XRpc.DecodeReply(wire, CopiedBack(wire.host, frame))
  }

  /** How a call ends once its request is sent: the status, the response body, and the bytes consumed. */
  datatype Ending = Answered(body: Str, size: nat) | Broken(status: Status)

  function EndingOf(wire: Wire, xrpc: bool, script: seq<Answer>, incoming: Str, parses: Str -> bool): (r: Ending) {
    match ReplyArrival(wire, xrpc, script, incoming)
    case Missed(status) => Broken(status)
    case Arrived(size) =>
      if size > |incoming| then Broken(DecodeFailed)
      else
        var d := ReplyDecoded(wire, xrpc, incoming[..size]);
        if d.code != CODEC_OK then Broken(DecodeFailed)
        else if !parses(d.msg.body) then Broken(ParseFailed)
        else Answered(d.msg.body, size)
  }

  class RpcChannel {
    const wire: Wire
    const xrpc: bool
    var clientfd: Socket?   // null stands for -1
    var serviceName: Str    // set by the first call and kept, with methodName, for all later ones
    var methodName: Str
    var ip: Str
    var port: uint16

    constructor (wire: Wire, xrpc: bool, ip: Str, port: uint16)
      ensures this.wire == wire && this.xrpc == xrpc && this.ip == ip && this.port == port
      ensures clientfd == null && serviceName == [] && methodName == []
    {
      this.wire, this.xrpc, this.ip, this.port := wire, xrpc, ip, port;
      clientfd, serviceName, methodName := null, [], [];
    }

    ghost predicate Valid()
      reads this, clientfd
    {
      clientfd != null ==> clientfd.open
    }

    method Close()
      requires clientfd != null
      modifies `clientfd, clientfd`open
      ensures clientfd == null && !old(clientfd).open
    {
      clientfd.open := false;
      clientfd := null;
    }

    /**
     One call. Inputs from outside: the called method's names, the serialised request, the address that service
     discovery finds, the connection that connect makes (null if it fails), whether send fails, and whether the
     response body parses.
     */
    method CallMethod(service: Str, name: Str, args: Option<Str>, found: (Str, uint16), connection: Socket?,
                      sendFails: bool, parses: Str -> bool)
      returns (status: Status, response: Str)
      requires Valid() && (connection != null ==> connection.open)
      modifies this, clientfd, connection
      ensures Valid()
      // The names of the first call ever are those of every call.
      ensures serviceName == if old(serviceName) == [] then service else old(serviceName)
      ensures methodName == if old(serviceName) == [] then name else old(methodName)
      ensures (ip, port) == if old(clientfd) == null && old(ip) == [] then found else old((ip, port))
      ensures var sock := if old(clientfd) != null then old(clientfd) else connection;
              if sock == null then status == ConnectFailed && clientfd == null
              else if args.None? || RequestFrame(wire, xrpc, serviceName, methodName, args.value).None? then
                // Nothing sent, nothing read.
                && status == (if args.None? then SerializeFailed else EncodeFailed)
                && clientfd == sock && sock.sent == old(sock.sent) && sock.incoming == old(sock.incoming)
              else if sendFails then
                status == SendFailed && clientfd == null && !sock.open
              else
                && sock.sent == old(sock.sent) + RequestFrame(wire, xrpc, serviceName, methodName, args.value).value
                && match EndingOf(wire, xrpc, old(sock.script), old(sock.incoming), parses)
                   case Broken(s) => status == s && clientfd == null && !sock.open
                   case Answered(body, size) =>
                     // One whole request frame sent, one whole response frame consumed.
                     && status == Ok && response == body && clientfd == sock
                     && size <= |old(sock.incoming)| && sock.incoming == old(sock.incoming)[size..]
    {
      response := [];
      if serviceName == [] {
        serviceName, methodName := service, name;
      }
      if clientfd == null {
        if ip == [] {
          ip, port := found.0, found.1;
        }
        if connection == null {
          return ConnectFailed, response;
        }
        clientfd := connection;
      }
      if args.None? {
        return SerializeFailed, response;
      }
      var frame := EncodeRequest(serviceName, methodName, args.value);
      if frame.None? {
        return EncodeFailed, response;
      }
      status, response := Exchange(frame.value, sendFails, parses);
    }

    /** Sends the request and receives the response; every failure closes the connection. */
    method Exchange(frame: Str, sendFails: bool, parses: Str -> bool) returns (status: Status, response: Str)
      requires clientfd != null && clientfd.open
      modifies `clientfd, clientfd
      ensures if sendFails then status == SendFailed && clientfd == null && !old(clientfd).open
              else
                && old(clientfd).sent == old(clientfd.sent) + frame
                && match EndingOf(wire, xrpc, old(clientfd.script), old(clientfd.incoming), parses)
                   case Broken(s) => status == s && clientfd == null && !old(clientfd).open
                   case Answered(body, size) =>
                     && status == Ok && response == body && clientfd == old(clientfd) && clientfd.open
                     && size <= |old(clientfd.incoming)| && clientfd.incoming == old(clientfd.incoming)[size..]
    {
      if sendFails {
        Close();
        return SendFailed, [];
      }
      clientfd.sent := clientfd.sent + frame;
      status, response := Receive(clientfd, parses);
      if status != Ok {
        Close();
      }
    }

    method EncodeRequest(service: Str, name: Str, body: Str) returns (frame: Option<Str>)
      ensures frame == RequestFrame(wire, xrpc, service, name, body)
    {
      var msg := new ProtocolMessage();
      msg.fields := RequestMessage(xrpc, service, name, body);
      var encoded := new NoncontiguousBuffer();
      var code;
      if xrpc {
        code := XRpc.ZeroCopyEncode(wire, Context(service, name), msg, encoded);
      } else {
        code := Legacy.ZeroCopyEncode(wire, Context(service, name), msg, encoded);
      }
      if code != CODEC_OK {
        return None;
      }
      var bytes := encoded.ToString();
      assert forall b: Str {:trigger [] + b} :: [] + b == b;
      return Some(bytes);
    }

    /** Reads the response frame into memory, decodes it and parses its body. */
    method Receive(sock: Socket, parses: Str -> bool) returns (status: Status, response: Str)
      modifies sock`incoming, sock`script
      ensures match EndingOf(wire, xrpc, old(sock.script), old(sock.incoming), parses)
              case Broken(s) => status == s && s != Ok
              case Answered(body, size) =>
                && status == Ok && response == body
                && size <= |old(sock.incoming)| && sock.incoming == old(sock.incoming)[size..]
    {
      response := [];
      var frame;
      if xrpc {
        status, frame := ReceiveXRpc(wire.host, sock);
      } else {
        status, frame := ReceiveLegacy(sock);
      }
      if status != Ok {
        return status, response;
      }
      var code, body := DecodeResponse(frame);
      if code != CODEC_OK {
        return DecodeFailed, response;
      }
      if !parses(body) {
        return ParseFailed, response;
      }
      return Ok, body;
    }

    method DecodeResponse(frame: Str) returns (code: int, body: Str)
      ensures var d := if xrpc then XRpc.DecodeReply(wire, frame) else Legacy.DecodeReply(frame);
              code == d.code && body == d.msg.body
    {
      var input := new NoncontiguousBuffer.From(frame);
      var msg := new ProtocolMessage();
      if xrpc {
        code := XRpc.ZeroCopyDecodeReply(wire, input, msg);
      } else {
        code := Legacy.ZeroCopyDecodeReply(input, msg);
      }
      body := msg.fields.body;
    }
  }

  /** A Legacy call is answered exactly when a whole response frame within the limit arrives and its body parses. */
  lemma LegacyEnding(wire: Wire, script: seq<Answer>, incoming: Str, parses: Str -> bool)
    ensures var a, e := LegacyArrival(script, incoming), EndingOf(wire, false, script, incoming, parses);
            && (a.Arrived? ==> 4 <= a.size <= |incoming|)
            && (e.Answered? <==> a.Arrived? && parses(incoming[4..a.size]))
            && (e.Answered? ==> e.size == a.size == 4 + Legacy.TotalLen(incoming) <= |incoming|
                                && e.body == incoming[4..e.size])
            && e != Broken(DecodeFailed)
  {
    if LegacyArrival(script, incoming).Arrived? {
      LegacyArrivalIsOneFrame(script, incoming);
    }
  }

  /** On a little-endian host no XRpc call is ever answered, whatever the server sends. */
  lemma XRpcEnding(wire: Wire, script: seq<Answer>, incoming: Str, parses: Str -> bool)
    ensures wire.host.LittleEndian? ==> EndingOf(wire, true, script, incoming, parses).Broken?
    ensures wire.host.BigEndian? && XRpcArrival(wire.host, script, incoming).Arrived? ==>
              var size := XRpcArrival(wire.host, script, incoming).size;
              && size <= |incoming|
              && ReplyDecoded(wire, true, incoming[..size]) == XRpc.DecodeReply(wire, incoming[..size])
  {
    if XRpcArrival(wire.host, script, incoming).Arrived? {
      var size := XRpcArrival(wire.host, script, incoming).size;
      ReadBounds(script, |incoming|, FIXED_HEADER_SIZE);
      ReadBounds(Read(script, |incoming|, FIXED_HEADER_SIZE).script, |incoming| - FIXED_HEADER_SIZE,
                 size - FIXED_HEADER_SIZE);
      assert incoming == incoming[..size] + incoming[size..];
      XRpc.HeaderOfPrefix(wire.host, incoming[..size], incoming[size..]);
      CopyBackExactly(wire, incoming[..size]);
    }
  }
}
