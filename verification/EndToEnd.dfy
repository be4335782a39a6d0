/**
 One Legacy channel against the server loop: a step system over all interleavings of sends, deliveries of any
 size in both directions, partial reads, failures and reconnects. The server has one codec for all its connections,
 and its I/O threads read and write it without a lock: every access is a step of its own, and other connections
 take part in it.
 */
module EndToEnd {
  import opened Wrappers
  import opened Bytes
  import opened Protocol
  import opened ServerCodecs
  import opened RpcServers
  import opened Streams
  import opened RpcChannels
  import FixedHeaders
  import Legacy = LegacyCodec
  import XRpc = XRpcCodec

  datatype Names = Names(service: Str, name: Str)

  /** A request on the wire: the method that was called, the names that were sent, and the body. */
  datatype Issued = Issued(called: Names, sent: Names, body: Str)

  datatype Completed = Completed(index: nat, body: Str)

  /** Between calls, or inside the call of the last issued request with the response bytes received so far. */
  datatype Phase = Idle | Waiting(got: Str)

  /** Where the I/O thread of the channel's connection is in OnMessage. */
  datatype Serving =
    | Resting               // not in OnMessage
    | Detecting             // has found no codec, has not set one yet
    | Looping               // at the head of the loop
    | Picked(size: nat)     // CheckAndPick has returned a frame
    | Replying(body: Str)   // the method has returned, its response is not encoded yet

  datatype State = State(
    cached: Names,               // the channel's service_name and method_name; empty service: not set yet
    connected: bool,
    phase: Phase,
    toServer: Str,               // sent and not yet delivered
    buffer: Str,                 // the server's receive buffer
    toClient: Str,               // sent by the server and not yet received
    serving: Serving,
    codec: Option<ServerCodec>,  // one for the whole server
    pending: nat,                // threads of other connections that have found no codec and not set one yet
    issued: seq<Issued>,
    answered: seq<Completed>,
    failures: nat,
    calls: seq<Names>)           // the methods called, those of calls that failed before they sent included

  datatype Step =
    // the client
    | Attempt(called: Names)               // a call that fails before it sends
    | Connect
    | Send(called: Names, body: Str)
    | Recv(n: nat)
    | Finish
    | Fail
    // the server, on the channel's connection
    | Deliver(n: nat)                      // OnMessage is called and tests the codec
    | SetCodec
    | PickFrame
    | DecodeFrame
    | SendReply
    // the server, on other connections
    | OtherTest
    | OtherSet(codec: ServerCodec)

  function CacheAfter(cached: Names, called: Names): (r: Names) { if cached.service == [] then called else cached }

  function RequestOf(r: Issued): (result: Request) {
    Request(Context(r.sent.service, r.sent.name), RequestMessage(false, r.sent.service, r.sent.name, r.body))
  }

  function MessageOf(r: Issued): (result: Message) { Streams.Received(LegacyServer, RequestOf(r)) }

  function FrameFor(wire: Wire, r: Issued): (frame: Str) { Streams.FrameOf(wire, LegacyServer, RequestOf(r)) }

  /** Protobuf serialises and keeps the header, and the length fits its 32-bit field; it may be over the limit. */
  ghost predicate Issuable(wire: Wire, r: Issued) {
    var h := RequestHeaderFor(r);
    && wire.rpcHeader.serialize(h).Some? && wire.rpcHeader.RoundTripsAt(h)
    && 4 + |wire.rpcHeader.serialize(h).value| + |r.body| < 0x1_0000_0000
  }

  function RequestHeaderFor(r: Issued): (h: RpcHeader) { Legacy.RequestHeader(RequestOf(r).ctx, RequestOf(r).msg) }

  predicate WithinLimit(frame: Str) { |frame| <= 4 + MAX_FRAME_SIZE }

  /** The length field of the frame begins with the two bytes of the XRpc magic. */
  predicate SpellsMagic(frame: Str) { 0x4B52_0000 <= |frame| - 4 < 0x4B53_0000 }

  // ----- The client -----

  /** How many more bytes the client asks recv for. */
  function Wanted(got: Str): (r: nat) {
    if |got| < 4 then 4 - |got|
    else if Legacy.TotalLen(got) > MAX_FRAME_SIZE || |got| > 4 + Legacy.TotalLen(got) then 0
    else 4 + Legacy.TotalLen(got) - |got|
  }

  predicate WholeReply(got: Str) {
    |got| >= 4 && Legacy.TotalLen(got) <= MAX_FRAME_SIZE && |got| == 4 + Legacy.TotalLen(got)
  }

  function AfterAttempt(s: State, called: Names): (t: State) {
    s.(cached := CacheAfter(s.cached, called), calls := s.calls + [called])
  }

  function AfterSend(wire: Wire, s: State, r: Issued): (t: State) {
    s.(cached := r.sent, calls := s.calls + [r.called], phase := Waiting([]), issued := s.issued + [r],
       toServer := s.toServer + FrameFor(wire, r))
  }

  function AfterRecv(s: State, got: Str, n: nat): (t: State)
    requires n <= |s.toClient|
  {
    s.(phase := Waiting(got + s.toClient[..n]), toClient := s.toClient[n..])
  }

  function AfterAnswer(s: State, body: Str): (t: State)
    requires |s.issued| > 0
  {
    s.(phase := Idle, answered := s.answered + [Completed(|s.issued| - 1, body)])
  }

  /** The client closes the connection; a thread about to set the codec does so all the same. */
  function AfterFail(s: State): (t: State) {
    s.(phase := Idle, connected := false, toServer := [], buffer := [], toClient := [], serving := Resting,
       pending := s.pending + (if s.serving.Detecting? then 1 else 0), failures := s.failures + 1)
  }

  // ----- The server -----

  function AfterDeliver(s: State, n: nat): (t: State)
    requires n <= |s.toServer|
  {
    s.(buffer := s.buffer + s.toServer[..n], toServer := s.toServer[n..],
       serving := if s.codec.None? then Detecting else Looping)
  }

  function AfterPick(wire: Wire, codec: ServerCodec, data: Str): (r: Serving) {
    var size := codec.Pick(wire, data);
    if data == [] || size <= 0 || size > |data| then Resting else Picked(size)
  }

  /** The method is looked up and run. */
  function AfterDispatch(services: Services, msg: Message): (r: Serving) {
    match Target(services, msg)
    case None => Looping
    case Some(m) =>
      match m.respond(msg.body)
      case None => Looping
      case Some(body) => Replying(body)
  }

  function AfterDecode(wire: Wire, services: Services, s: State, codec: ServerCodec, size: nat): (t: State)
    requires size <= |s.buffer|
  {
    var d := codec.Decode(wire, s.buffer);
    if d.code != CODEC_OK then s.(serving := Resting)
    else s.(buffer := s.buffer[size..], serving := AfterDispatch(services, d.msg))
  }

  /** The bytes of a response; none when it cannot be encoded. */
  function ReplyAs(wire: Wire, codec: ServerCodec, body: Str): (r: Str) {
    match codec.Reply(wire, ResponseMessage(body))
    case None => []
    case Some(bytes) => bytes
  }

  function AfterReply(wire: Wire, s: State, codec: ServerCodec, body: Str): (t: State) {
    s.(serving := Looping, toClient := s.toClient + ReplyAs(wire, codec, body))
  }

  // ----- Steps and runs -----

  /** The server may have met other connections before: its codec can be any. */
  predicate Init(s: State) {
    && s.cached == Names([], []) && !s.connected && s.phase == Idle
    && s.toServer == [] && s.buffer == [] && s.toClient == [] && s.serving == Resting
    && s.issued == [] && s.answered == [] && s.failures == 0 && s.calls == []
  }

  ghost predicate Next(wire: Wire, services: Services, s: State, step: Step, t: State) {
    match step
    case Attempt(called) => s.phase == Idle && t == AfterAttempt(s, called)
    case Connect =>
      && !s.connected && s.phase == Idle
      && t == s.(connected := true, toServer := [], buffer := [], toClient := [], serving := Resting)
    case Send(called, body) =>
      var r := Issued(called, CacheAfter(s.cached, called), body);
      s.connected && s.phase == Idle && Issuable(wire, r) && t == AfterSend(wire, s, r)
    case Recv(n) =>
      && s.connected && s.phase.Waiting? && 0 < n <= Min(Wanted(s.phase.got), |s.toClient|)
      && t == AfterRecv(s, s.phase.got, n)
    case Finish =>
      && s.connected && s.phase.Waiting? && WholeReply(s.phase.got) && |s.issued| > 0
      && t == AfterAnswer(s, Legacy.DecodeReply(s.phase.got).msg.body)
    case Fail => s.phase.Waiting? && t == AfterFail(s)
    case Deliver(n) => s.connected && s.serving == Resting && 0 < n <= |s.toServer| && t == AfterDeliver(s, n)
    case SetCodec =>
      s.connected && s.serving == Detecting && t == s.(codec := Some(Detect(s.buffer)), serving := Looping)
    case PickFrame =>
      && s.connected && s.serving == Looping && s.codec.Some?
      && t == s.(serving := AfterPick(wire, s.codec.value, s.buffer))
    case DecodeFrame =>
      && s.connected && s.serving.Picked? && s.codec.Some? && s.serving.size <= |s.buffer|
      && t == AfterDecode(wire, services, s, s.codec.value, s.serving.size)
    case SendReply =>
      && s.connected && s.serving.Replying? && s.codec.Some?
      && t == AfterReply(wire, s, s.codec.value, s.serving.body)
    case OtherTest => s.codec == None && t == s.(pending := s.pending + 1)
    case OtherSet(codec) => s.pending > 0 && t == s.(codec := Some(codec), pending := s.pending - 1)
  }

  ghost predicate Path(wire: Wire, services: Services, states: seq<State>, steps: seq<Step>) {
    && |states| == |steps| + 1
    && forall i {:trigger steps[i]} | 0 <= i < |steps| :: Next(wire, services, states[i], steps[i], states[i + 1])
  }

  ghost predicate Run(wire: Wire, services: Services, states: seq<State>, steps: seq<Step>) {
    Path(wire, services, states, steps) && Init(states[0])
  }

  /** The request in service, during a call. */
  function Current(s: State): (r: Issued)
    requires |s.issued| > 0
  {
    s.issued[|s.issued| - 1]
  }

  predicate ServesDisguised(wire: Wire, s: State) {
    s.phase.Waiting? && |s.issued| > 0 && SpellsMagic(FrameFor(wire, Current(s)))
  }

  /** An XRpc codec is not overwritten while a request that spells the magic is in service. */
  predicate Undisturbed(wire: Wire, s: State, t: State) {
    ServesDisguised(wire, s) && s.codec == Some(XRpcServer) ==> t.codec == Some(XRpcServer)
  }

  /** Up to state n. */
  ghost predicate UndisturbedTo(wire: Wire, states: seq<State>, n: nat)
    requires n < |states|
  {
    forall i, j {:trigger states[i], states[j]} | 0 <= i < j <= n && j == i + 1 ::
      Undisturbed(wire, states[i], states[j])
  }

  /** Protobuf limits a serialised message to 2 GB. */
  ghost predicate BoundedReplies(services: Services) {
    forall service, name, body | service in services && name in services[service]
                                 && services[service][name].respond(body).Some? ::
      |services[service][name].respond(body).value| < 0x8000_0000
  }

  /** What the method of these names makes of a request body, if there is one that takes it. */
  function Output(services: Services, names: Names, body: Str): (result: Option<Str>) {
    if names.service in services && names.name in services[names.service]
       && services[names.service][names.name].parses(body)
    then services[names.service][names.name].respond(body)
    else None
  }

  /** The body that the server's method for the names on the wire produces for a request. */
  function ResponseFor(services: Services, r: Issued): (result: Option<Str>) { Output(services, r.sent, r.body) }

  function ReplyBytes(services: Services, r: Issued): (result: Str) {
    match ResponseFor(services, r)
    case None => []
    case Some(body) => Legacy.ReplyFrame(body)
  }

  // ----- The invariant -----

  /** Bytes that no Legacy client takes for a response: none, or some that begin with the XRpc magic. */
  predicate NotLegacy(s: Str) { s == [] || (|s| >= 4 && s[0] == 0x4B && s[1] == 0x52) }

  predicate Unanswered(s: State, got: Str) { got == [] && s.toClient == [] }

  predicate Ahead(s: State, frame: Str) { s.buffer + s.toServer == frame }

  /** The request is on its way or in the buffer; once a frame is picked, it is the whole request. */
  predicate Arriving(s: State, frame: Str, got: Str) {
    && Unanswered(s, got) && Ahead(s, frame) && !s.serving.Replying?
    && (s.serving.Picked? ==> s.toServer == [] && s.serving.size == |frame| && WithinLimit(frame))
  }

  predicate Served(wire: Wire, services: Services, s: State, r: Issued, got: Str) {
    && WithinLimit(FrameFor(wire, r)) && Unanswered(s, got) && s.buffer == [] && s.toServer == []
    && s.serving.Replying? && ResponseFor(services, r) == Some(s.serving.body)
  }

  /** The request is done with; on the way is its response, or bytes that are none. */
  predicate Done(wire: Wire, services: Services, s: State, r: Issued, got: Str) {
    && WithinLimit(FrameFor(wire, r))
    && s.buffer == [] && s.toServer == [] && (s.serving == Looping || s.serving == Resting)
    && (got + s.toClient == ReplyBytes(services, r) || NotLegacy(got + s.toClient))
  }

  /** For a request that spells the magic: an XRpc codec may make anything of it, a Legacy one nothing. */
  predicate Disguised(s: State, frame: Str, got: Str) {
    && (s.serving.Detecting? ==> Ahead(s, frame))
    && if s.codec == Some(XRpcServer) then NotLegacy(got + s.toClient)
       else Unanswered(s, got) && Ahead(s, frame) && !s.serving.Replying? && !s.serving.Picked?
  }

  ghost predicate InService(wire: Wire, services: Services, s: State, r: Issued, got: Str) {
    && Issuable(wire, r)
    && if SpellsMagic(FrameFor(wire, r)) then Disguised(s, FrameFor(wire, r), got)
       else
         Arriving(s, FrameFor(wire, r), got) || Served(wire, services, s, r, got) || Done(wire, services, s, r, got)
  }

  /** Nothing is in flight outside calls. */
  ghost predicate Traffic(wire: Wire, services: Services, s: State) {
    && (s.serving.Looping? || s.serving.Picked? || s.serving.Replying? ==> s.codec.Some?)
    && match s.phase
       case Idle =>
         s.toServer == [] && s.buffer == [] && s.toClient == [] && (s.serving == Looping || s.serving == Resting)
       case Waiting(got) => s.connected && |s.issued| > 0 && InService(wire, services, s, Current(s), got)
  }

  /** Every answer is the response to its own request, in the order of the requests. */
  ghost predicate Paired(services: Services, s: State) {
    && (forall k | 0 <= k < |s.answered| ::
          && s.answered[k].index < |s.issued| - (if s.phase.Waiting? then 1 else 0)
          && ResponseFor(services, s.issued[s.answered[k].index]) == Some(s.answered[k].body))
    && (forall j, k | 0 <= j < k < |s.answered| :: s.answered[j].index < s.answered[k].index)
  }

  /** Without failures, the k-th answer is the answer to the k-th request. */
  ghost predicate Counted(s: State) {
    && |s.issued| == |s.answered| + s.failures + (if s.phase.Waiting? then 1 else 0)
    && (s.failures == 0 ==> forall k | 0 <= k < |s.answered| :: s.answered[k].index == k)
  }

  /** Protobuf services have names. */
  predicate Named(calls: seq<Names>) { forall c | c in calls :: c.service != [] }

  /** The names on the wire are those of the first call, whatever was called. */
  ghost predicate NamesKept(s: State) {
    && (forall r | r in s.issued :: r.called in s.calls)
    && (Named(s.calls) ==>
          if s.calls == [] then s.cached == Names([], [])
          else s.cached == s.calls[0] && forall r | r in s.issued :: r.sent == s.calls[0])
  }

  ghost predicate Inv(wire: Wire, services: Services, s: State) {
    Traffic(wire, services, s) && Paired(services, s)
  }

  // ----- What the codecs make of a Legacy request -----

  lemma FrameSizes(wire: Wire, r: Issued)
    requires Issuable(wire, r)
    ensures |FrameFor(wire, r)| >= 8 && Legacy.TotalLen(FrameFor(wire, r)) == |FrameFor(wire, r)| - 4
    ensures WithinLimit(FrameFor(wire, r)) <==> Streams.Sendable(wire, LegacyServer, RequestOf(r))
  {
    var header := wire.rpcHeader.serialize(RequestHeaderFor(r)).value;
    Legacy.FrameFields(header, r.body, []);
    assert FrameFor(wire, r) + [] == FrameFor(wire, r);
  }

  lemma MagicBytes(wire: Wire, r: Issued, data: Str, more: Str)
    requires Issuable(wire, r) && data + more == FrameFor(wire, r) && |data| >= 2
    ensures U16At(data, 0) == MAGIC <==> SpellsMagic(FrameFor(wire, r))
  {
    FrameSizes(wire, r);
    var frame := FrameFor(wire, r);
    assert At(data, 0) == At(frame, 0) && At(data, 1) == At(frame, 1);
  }

  /** A request is detected as XRpc exactly when two bytes are there and its length spells the magic. */
  lemma DetectedAsXRpcExactly(wire: Wire, r: Issued, data: Str, more: Str)
    requires Issuable(wire, r) && data + more == FrameFor(wire, r)
    ensures Detect(data) == XRpcServer <==> |data| >= 2 && SpellsMagic(FrameFor(wire, r))
  {
    if |data| >= 2 {
      MagicBytes(wire, r, data, more);
    }
  }

  /** The Legacy codec picks a request exactly when it is complete and within the limit. */
  lemma LegacyPicks(wire: Wire, r: Issued, data: Str, more: Str)
    requires Issuable(wire, r) && data + more == FrameFor(wire, r)
    ensures AfterPick(wire, LegacyServer, data)
         == if more == [] && WithinLimit(FrameFor(wire, r)) then Picked(|FrameFor(wire, r)|) else Resting
  {
    FrameSizes(wire, r);
    if |data| >= 4 {
      U32OfPrefix(data, more, 0);
    }
  }

  /** The XRpc codec picks nothing from a request that does not spell the magic, and decodes nothing. */
  lemma XRpcRefuses(wire: Wire, r: Issued, data: Str, more: Str)
    requires Issuable(wire, r) && data + more == FrameFor(wire, r) && !SpellsMagic(FrameFor(wire, r))
    ensures AfterPick(wire, XRpcServer, data) == Resting
    ensures XRpcServer.Decode(wire, data).code != CODEC_OK
  {
    if |data| >= FIXED_HEADER_SIZE {
      MagicBytes(wire, r, data, more);
      assert FixedHeaders.HeaderAt(wire.host, data).magic != MAGIC;
    }
  }

  lemma LegacyDecodes(wire: Wire, services: Services, r: Issued)
    requires Issuable(wire, r) && WithinLimit(FrameFor(wire, r))
    ensures var d := LegacyServer.Decode(wire, FrameFor(wire, r)); d.code == CODEC_OK && d.msg == MessageOf(r)
    ensures AfterDispatch(services, MessageOf(r))
         == match ResponseFor(services, r)
            case None => Looping
            case Some(body) => Replying(body)
  {
    FrameSizes(wire, r);
    FrameRoundTrip(wire, LegacyServer, RequestOf(r), []);
    assert FrameFor(wire, r) + [] == FrameFor(wire, r);
  }

  /** What the XRpc codec sends is no Legacy response. */
  lemma XRpcReplies(wire: Wire, body: Str)
    ensures NotLegacy(ReplyAs(wire, XRpcServer, body))
  {}

  /** No part of what begins with the XRpc magic is a whole Legacy response. */
  lemma NeverWhole(got: Str, more: Str)
    requires NotLegacy(got + more)
    ensures !WholeReply(got)
  {
    if |got| >= 4 {
      assert (got + more)[0] == got[0] && (got + more)[1] == got[1];
    }
  }

  lemma StillNotLegacy(got: Str, queue: Str, replies: Str)
    requires NotLegacy(got + queue) && NotLegacy(replies)
    ensures NotLegacy(got + (queue + replies))
  {
    Assoc(got, queue, replies);
    assert got + queue == [] ==> got + queue + replies == replies;
  }

  // ----- Steps of the server -----

  lemma Requeued(buffer: Str, queue: Str, n: nat)
    requires n <= |queue|
    ensures buffer + queue[..n] + queue[n..] == buffer + queue
  {}

  lemma DeliverKeeps(wire: Wire, services: Services, s: State, n: nat, t: State, r: Issued, got: Str)
    requires InService(wire, services, s, r, got) && s.serving == Resting && 0 < n <= |s.toServer|
    requires t == AfterDeliver(s, n)
    ensures InService(wire, services, t, r, got)
  {
    Requeued(s.buffer, s.toServer, n);
  }

  /** `pending` counts other threads only. */
  lemma SetKeeps(wire: Wire, services: Services, s: State, t: State, r: Issued, got: Str)
    requires InService(wire, services, s, r, got) && t.codec.Some?
    requires t == s.(codec := t.codec, serving := t.serving, pending := t.pending)
    requires t.serving == s.serving || (s.serving == Detecting && t.serving == Looping)
    requires SpellsMagic(FrameFor(wire, r)) && s.codec == Some(XRpcServer) ==> t.codec == Some(XRpcServer)
    ensures InService(wire, services, t, r, got)
  {}

  lemma PickKeeps(wire: Wire, services: Services, s: State, t: State, r: Issued, got: Str)
    requires InService(wire, services, s, r, got) && s.serving == Looping && s.codec.Some?
    requires t == s.(serving := AfterPick(wire, s.codec.value, s.buffer))
    ensures InService(wire, services, t, r, got)
  {
    if Ahead(s, FrameFor(wire, r)) {
      if s.codec.value.LegacyServer? {
        LegacyPicks(wire, r, s.buffer, s.toServer);
        FrameSizes(wire, r);
        assert s.toServer == [] ==> s.buffer + s.toServer == s.buffer;
      } else if !SpellsMagic(FrameFor(wire, r)) {
        XRpcRefuses(wire, r, s.buffer, s.toServer);
      }
    }
  }

  /** A whole request is decoded and dispatched by the Legacy codec, and refused by one that was set meanwhile. */
  lemma WholeDecoded(wire: Wire, services: Services, s: State, codec: ServerCodec, r: Issued) returns (t: State)
    requires Issuable(wire, r) && WithinLimit(FrameFor(wire, r)) && !SpellsMagic(FrameFor(wire, r))
    requires s.buffer == FrameFor(wire, r)
    ensures t == AfterDecode(wire, services, s, codec, |FrameFor(wire, r)|)
    ensures s.codec == Some(codec) ==> t == Dispatched(services, s, r)
  {
    t := AfterDecode(wire, services, s, codec, |s.buffer|);
    if codec.LegacyServer? {
      LegacyDecodes(wire, services, r);
    } else {
      assert s.buffer + [] == s.buffer;
      XRpcRefuses(wire, r, s.buffer, []);
    }
  }

  /** The state after a whole request is decoded. */
  function Dispatched(services: Services, s: State, r: Issued): (t: State) {
    if s.codec == Some(XRpcServer) then s.(serving := Resting)
    else
      s.(buffer := [], serving := match ResponseFor(services, r)
                                  case None => Looping
                                  case Some(body) => Replying(body))
  }

  lemma DecodedInPart(wire: Wire, services: Services, s: State, codec: ServerCodec, size: nat) returns (t: State)
    requires size <= |s.buffer|
    ensures t == AfterDecode(wire, services, s, codec, size)
    ensures t == s.(buffer := t.buffer, serving := t.serving) && !t.serving.Detecting?
  {
    t := AfterDecode(wire, services, s, codec, size);
  }

  lemma DispatchKeeps(wire: Wire, services: Services, s: State, t: State, r: Issued, got: Str)
    requires Issuable(wire, r) && Arriving(s, FrameFor(wire, r), got) && s.serving.Picked?
    requires !SpellsMagic(FrameFor(wire, r)) && t == Dispatched(services, s, r)
    ensures InService(wire, services, t, r, got)
  {
    assert got + s.toClient == [];
  }

  lemma DisguisedKeeps(wire: Wire, services: Services, s: State, t: State, r: Issued, got: Str)
    requires Issuable(wire, r) && SpellsMagic(FrameFor(wire, r)) && NotLegacy(got + s.toClient)
    requires s.codec == Some(XRpcServer) && t == s.(buffer := t.buffer, serving := t.serving) && !t.serving.Detecting?
    ensures InService(wire, services, t, r, got)
  {}

  lemma DisguisedDecodeKeeps(wire: Wire, services: Services, s: State, t: State, r: Issued, got: Str)
    requires InService(wire, services, s, r, got) && s.serving.Picked? && s.codec.Some? && s.serving.size <= |s.buffer|
    requires t == AfterDecode(wire, services, s, s.codec.value, s.serving.size)
    requires SpellsMagic(FrameFor(wire, r))
    ensures InService(wire, services, t, r, got)
  {
    var t' := DecodedInPart(wire, services, s, s.codec.value, s.serving.size);
    DisguisedKeeps(wire, services, s, t', r, got);
  }

  lemma WholeDecodeKeeps(wire: Wire, services: Services, s: State, t: State, r: Issued, got: Str)
    requires InService(wire, services, s, r, got) && s.serving.Picked? && s.codec.Some? && s.serving.size <= |s.buffer|
    requires t == AfterDecode(wire, services, s, s.codec.value, s.serving.size)
    requires !SpellsMagic(FrameFor(wire, r))
    ensures InService(wire, services, t, r, got)
  {
    EmptyRight(s.buffer);
    var t' := WholeDecoded(wire, services, s, s.codec.value, r);
    DispatchKeeps(wire, services, s, t', r, got);
  }

  lemma DecodeKeeps(wire: Wire, services: Services, s: State, t: State, r: Issued, got: Str)
    requires InService(wire, services, s, r, got) && s.serving.Picked? && s.codec.Some? && s.serving.size <= |s.buffer|
    requires t == AfterDecode(wire, services, s, s.codec.value, s.serving.size)
    ensures InService(wire, services, t, r, got)
  {
    if SpellsMagic(FrameFor(wire, r)) {
      DisguisedDecodeKeeps(wire, services, s, t, r, got);
    } else {
      WholeDecodeKeeps(wire, services, s, t, r, got);
    }
  }

  lemma EmptyRight<T>(s: seq<T>)
    ensures s + [] == s
  {}

  lemma ReplyKeeps(wire: Wire, services: Services, s: State, t: State, r: Issued, got: Str)
    requires InService(wire, services, s, r, got) && s.serving.Replying? && s.codec.Some?
    requires t == AfterReply(wire, s, s.codec.value, s.serving.body)
    ensures InService(wire, services, t, r, got)
  {
    var reply := ReplyAs(wire, s.codec.value, s.serving.body);
    if s.codec.value.XRpcServer? {
      XRpcReplies(wire, s.serving.body);
      assert Unanswered(s, got) ==> got + s.toClient == [];
      StillNotLegacy(got, s.toClient, reply);
    } else {
      assert got + (s.toClient + reply) == reply;
    }
  }

  // ----- Answers -----

  /** A whole response frame in hand is all of the one reply, and decodes to its body. */
  lemma WholeReplyIsTheReply(body: Str, got: Str, more: Str)
    requires |body| < 0x8000_0000 && got + more == Legacy.ReplyFrame(body) && |got| >= 4
    ensures Legacy.TotalLen(got) == |body|
    ensures WholeReply(got) ==> got == Legacy.ReplyFrame(body) && more == [] && Legacy.DecodeReply(got).msg.body == body
  {
    var frame := Legacy.ReplyFrame(body);
    U32OfPrefix(got, more, 0);
    U32OfBE32(|body|, body);
    if WholeReply(got) {
      assert more == [] && got == frame && frame + [] == frame;
      Legacy.ReplyRoundTrip(body, []);
    }
  }

  /** A call that can finish has the response to its request, and nothing else is in flight. */
  lemma FinishAnswers(wire: Wire, services: Services, s: State, r: Issued, got: Str)
    requires BoundedReplies(services) && InService(wire, services, s, r, got) && WholeReply(got)
    ensures ResponseFor(services, r) == Some(Legacy.DecodeReply(got).msg.body)
    ensures s.toServer == [] && s.buffer == [] && s.toClient == [] && (s.serving == Looping || s.serving == Resting)
  {
    if NotLegacy(got + s.toClient) {
      NeverWhole(got, s.toClient);
    } else {
      WholeReplyIsTheReply(ResponseFor(services, r).value, got, s.toClient);
    }
  }

  lemma ReceiveKeeps(wire: Wire, services: Services, s: State, n: nat, r: Issued, got: Str)
    requires InService(wire, services, s, r, got) && 0 < n <= |s.toClient|
    ensures InService(wire, services, AfterRecv(s, got, n), r, got + s.toClient[..n])
  {
    var taken, left := s.toClient[..n], s.toClient[n..];
    assert s.toClient == taken + left;
    Assoc(got, taken, left);
  }

  lemma SendKeeps(wire: Wire, services: Services, s: State, r: Issued)
    requires Traffic(wire, services, s) && s.phase == Idle && Issuable(wire, r)
    ensures InService(wire, services, AfterSend(wire, s, r), r, [])
  {
    FrameSizes(wire, r);
    EmptyLeft(FrameFor(wire, r));
  }

  // ----- Every step, every run -----

  lemma ServerStepKeepsTraffic(wire: Wire, services: Services, s: State, step: Step, t: State)
    requires Traffic(wire, services, s) && Next(wire, services, s, step, t) && Undisturbed(wire, s, t)
    requires step.Deliver? || step.SetCodec? || step.PickFrame? || step.DecodeFrame? || step.SendReply?
    ensures Traffic(wire, services, t)
  {
    if s.phase.Waiting? {
      var r, got := Current(s), s.phase.got;
      match step
      case Deliver(n) => DeliverKeeps(wire, services, s, n, t, r, got);
      case SetCodec => SetKeeps(wire, services, s, t, r, got);
      case PickFrame => PickKeeps(wire, services, s, t, r, got);
      case DecodeFrame => DecodeKeeps(wire, services, s, t, r, got);
      case SendReply => ReplyKeeps(wire, services, s, t, r, got);
      case _ =>
    }
  }

  lemma ClientStepKeepsTraffic(wire: Wire, services: Services, s: State, step: Step, t: State)
    requires Traffic(wire, services, s) && Next(wire, services, s, step, t) && BoundedReplies(services)
    requires step.Attempt? || step.Connect? || step.Send? || step.Recv? || step.Finish? || step.Fail?
    ensures Traffic(wire, services, t)
  {
    match step
    case Send(called, body) =>
      SendKeeps(wire, services, s, Issued(called, CacheAfter(s.cached, called), body));
    case Recv(n) =>
      ReceiveKeeps(wire, services, s, n, Current(s), s.phase.got);
    case Finish =>
      FinishAnswers(wire, services, s, Current(s), s.phase.got);
    case _ =>
  }

  lemma OtherSetKeepsTraffic(wire: Wire, services: Services, s: State, codec: ServerCodec, t: State)
    requires Traffic(wire, services, s) && Next(wire, services, s, OtherSet(codec), t) && Undisturbed(wire, s, t)
    ensures Traffic(wire, services, t)
  {
    if s.phase.Waiting? {
      SetKeeps(wire, services, s, t, Current(s), s.phase.got);
    }
  }

  lemma OtherTestKeepsTraffic(wire: Wire, services: Services, s: State, t: State)
    requires Traffic(wire, services, s) && Next(wire, services, s, OtherTest, t)
    ensures Traffic(wire, services, t)
  {}

  lemma StepKeepsTraffic(wire: Wire, services: Services, s: State, step: Step, t: State)
    requires Traffic(wire, services, s) && Next(wire, services, s, step, t) && Undisturbed(wire, s, t)
    requires BoundedReplies(services)
    ensures Traffic(wire, services, t)
  {
    if step.OtherTest? {
      OtherTestKeepsTraffic(wire, services, s, t);
    } else if step.OtherSet? {
      OtherSetKeepsTraffic(wire, services, s, step.codec, t);
    } else if step.Deliver? || step.SetCodec? || step.PickFrame? || step.DecodeFrame? || step.SendReply? {
      ServerStepKeepsTraffic(wire, services, s, step, t);
    } else {
      ClientStepKeepsTraffic(wire, services, s, step, t);
    }
  }

  /** Requests already answered keep their answers when more are issued. */
  lemma IssuingKeepsPaired(services: Services, s: State, t: State)
    requires Paired(services, s) && t.answered == s.answered && t.phase.Waiting?
    requires |t.issued| == |s.issued| + 1 && t.issued[..|s.issued|] == s.issued
    requires s.phase == Idle
    ensures Paired(services, t)
  {
    forall k | 0 <= k < |t.answered|
      ensures t.answered[k].index < |t.issued| - 1
      ensures ResponseFor(services, t.issued[t.answered[k].index]) == Some(t.answered[k].body)
    {
      assert t.issued[t.answered[k].index] == t.issued[..|s.issued|][s.answered[k].index];
    }
  }

  lemma AnsweringKeepsPaired(services: Services, s: State, body: Str)
    requires Paired(services, s) && s.phase.Waiting? && |s.issued| > 0
    requires ResponseFor(services, Current(s)) == Some(body)
    ensures Paired(services, AfterAnswer(s, body))
  {
    var t := AfterAnswer(s, body);
    forall k | 0 <= k < |t.answered|
      ensures t.answered[k].index < |t.issued|
      ensures ResponseFor(services, t.issued[t.answered[k].index]) == Some(t.answered[k].body)
    {
      if k < |s.answered| {
        assert t.answered[k] == s.answered[k];
      }
    }
  }

  lemma StepKeepsPaired(wire: Wire, services: Services, s: State, step: Step, t: State)
    requires BoundedReplies(services) && Inv(wire, services, s) && Next(wire, services, s, step, t)
    ensures Paired(services, t)
  {
    if step.Send? {
      IssuingKeepsPaired(services, s, t);
    } else if step.Finish? {
      FinishAnswers(wire, services, s, Current(s), s.phase.got);
      AnsweringKeepsPaired(services, s, Legacy.DecodeReply(s.phase.got).msg.body);
    }
  }

  lemma StepKeepsCounted(wire: Wire, services: Services, s: State, step: Step, t: State)
    requires Counted(s) && Next(wire, services, s, step, t)
    ensures Counted(t)
  {}

  lemma StepKeepsNames(wire: Wire, services: Services, s: State, step: Step, t: State)
    requires NamesKept(s) && Next(wire, services, s, step, t)
    ensures NamesKept(t)
  {}

  lemma {:induction false} RunKeepsBooks(wire: Wire, services: Services, states: seq<State>, steps: seq<Step>, i: nat)
    requires Run(wire, services, states, steps) && i < |states|
    ensures Counted(states[i]) && NamesKept(states[i])
  {
    if i > 0 {
      RunKeepsBooks(wire, services, states, steps, i - 1);
      StepKeepsCounted(wire, services, states[i - 1], steps[i - 1], states[i]);
      StepKeepsNames(wire, services, states[i - 1], steps[i - 1], states[i]);
    }
  }

  lemma {:induction false} RunKeepsInv(wire: Wire, services: Services, states: seq<State>, steps: seq<Step>, i: nat)
    requires BoundedReplies(services) && Run(wire, services, states, steps) && i < |states|
    requires UndisturbedTo(wire, states, i)
    ensures Inv(wire, services, states[i])
  {
    if i > 0 {
      RunKeepsInv(wire, services, states, steps, i - 1);
      StepKeepsTraffic(wire, services, states[i - 1], steps[i - 1], states[i]);
      StepKeepsPaired(wire, services, states[i - 1], steps[i - 1], states[i]);
    }
  }

  /**
   Pairing, although no request id is compared and whatever other connections do to the codec: each successful call
   gets the response to its own request, successes come in request order, and without failures the k-th success
   answers the k-th request. Only an XRpc codec must not be overwritten while it serves a request that spells the magic.
   */
  lemma FifoPairing(wire: Wire, services: Services, states: seq<State>, steps: seq<Step>)
    requires BoundedReplies(services) && Run(wire, services, states, steps) && UndisturbedTo(wire, states, |steps|)
    ensures var s := states[|steps|];
            && (forall k | 0 <= k < |s.answered| ::
                  && s.answered[k].index < |s.issued|
                  && ResponseFor(services, s.issued[s.answered[k].index]) == Some(s.answered[k].body))
            && (forall j, k | 0 <= j < k < |s.answered| :: s.answered[j].index < s.answered[k].index)
            && (s.failures == 0 ==> forall k | 0 <= k < |s.answered| :: s.answered[k].index == k)
  {
    RunKeepsInv(wire, services, states, steps, |steps|);
    RunKeepsBooks(wire, services, states, steps, |steps|);
  }

  // ----- When a call can finish -----

  /** The codec, once set, is not set to another one. */
  ghost predicate CodecKept(states: seq<State>) {
    forall i, j {:trigger states[i], states[j]} | 0 <= i < j < |states| && j == i + 1 ::
      states[i].codec.Some? ==> states[j].codec == states[i].codec
  }

  /** With one codec throughout, no complete request is left lying, and no response of the other kind is sent. */
  ghost predicate PromptFor(wire: Wire, services: Services, s: State, r: Issued, got: Str) {
    !SpellsMagic(FrameFor(wire, r)) ==>
      match s.codec
      case None => (s.serving == Resting && s.toServer == FrameFor(wire, r)) || s.serving == Detecting
      case Some(XRpcServer) => NotLegacy(got + s.toClient)
      case Some(LegacyServer) =>
        && (s.buffer != [] && s.serving == Resting && s.toServer == [] ==> !WithinLimit(FrameFor(wire, r)))
        && (s.buffer == [] && s.toServer == [] && !s.serving.Replying? ==>
              got + s.toClient == ReplyBytes(services, r))
  }

  ghost predicate Prompt(wire: Wire, services: Services, s: State) {
    s.phase.Waiting? && |s.issued| > 0 ==> PromptFor(wire, services, s, Current(s), s.phase.got)
  }

  lemma DeliverStaysPrompt(wire: Wire, services: Services, s: State, n: nat, t: State, r: Issued, got: Str)
    requires InService(wire, services, s, r, got) && PromptFor(wire, services, s, r, got)
    requires s.serving == Resting && 0 < n <= |s.toServer| && t == AfterDeliver(s, n)
    ensures PromptFor(wire, services, t, r, got)
  {}

  /** Where a codec is set for the first time. */
  lemma SetStaysPrompt(wire: Wire, services: Services, s: State, t: State, r: Issued, got: Str)
    requires InService(wire, services, s, r, got) && PromptFor(wire, services, s, r, got)
    requires t == s.(codec := t.codec, serving := t.serving, pending := t.pending) && t.codec.Some?
    requires t.serving == s.serving || (s.serving == Detecting && t.serving == Looping)
    requires s.codec == None || s.codec == t.codec
    ensures PromptFor(wire, services, t, r, got)
  {
    FrameSizes(wire, r);
    assert s.buffer + [] == s.buffer && got + [] == got;
  }

  lemma PickStaysPrompt(wire: Wire, services: Services, s: State, t: State, r: Issued, got: Str)
    requires InService(wire, services, s, r, got) && PromptFor(wire, services, s, r, got)
    requires s.serving == Looping && s.codec.Some?
    requires t == s.(serving := AfterPick(wire, s.codec.value, s.buffer))
    ensures PromptFor(wire, services, t, r, got)
  {
    if s.codec.value.LegacyServer? && Ahead(s, FrameFor(wire, r)) {
      LegacyPicks(wire, r, s.buffer, s.toServer);
    }
  }

  lemma DispatchStaysPrompt(wire: Wire, services: Services, s: State, t: State, r: Issued, got: Str)
    requires Arriving(s, FrameFor(wire, r), got) && PromptFor(wire, services, s, r, got) && s.codec.Some?
    requires t == Dispatched(services, s, r)
    ensures PromptFor(wire, services, t, r, got)
  {
    assert got + s.toClient == [];
  }

  lemma DecodeStaysPrompt(wire: Wire, services: Services, s: State, t: State, r: Issued, got: Str)
    requires InService(wire, services, s, r, got) && PromptFor(wire, services, s, r, got)
    requires s.serving.Picked? && s.codec.Some? && s.serving.size <= |s.buffer|
    requires t == AfterDecode(wire, services, s, s.codec.value, s.serving.size)
    ensures PromptFor(wire, services, t, r, got)
  {
    if !SpellsMagic(FrameFor(wire, r)) {
      EmptyRight(s.buffer);
      var t' := WholeDecoded(wire, services, s, s.codec.value, r);
      DispatchStaysPrompt(wire, services, s, t', r, got);
    }
  }

  lemma ReplyStaysPrompt(wire: Wire, services: Services, s: State, t: State, r: Issued, got: Str)
    requires InService(wire, services, s, r, got) && PromptFor(wire, services, s, r, got)
    requires s.serving.Replying? && s.codec.Some? && t == AfterReply(wire, s, s.codec.value, s.serving.body)
    ensures PromptFor(wire, services, t, r, got)
  {
    var reply := ReplyAs(wire, s.codec.value, s.serving.body);
    if s.codec.value.XRpcServer? {
      XRpcReplies(wire, s.serving.body);
      StillNotLegacy(got, s.toClient, reply);
    } else if !SpellsMagic(FrameFor(wire, r)) {
      assert got + (s.toClient + reply) == reply;
    }
  }

  lemma SentIsPrompt(wire: Wire, services: Services, s: State, r: Issued)
    requires Traffic(wire, services, s) && s.phase == Idle && Issuable(wire, r)
    ensures PromptFor(wire, services, AfterSend(wire, s, r), r, [])
  {
    FrameSizes(wire, r);
    EmptyLeft(FrameFor(wire, r));
  }

  lemma ReceivedIsPrompt(wire: Wire, services: Services, s: State, n: nat, r: Issued, got: Str)
    requires PromptFor(wire, services, s, r, got) && 0 < n <= |s.toClient| && s.codec.Some?
    ensures PromptFor(wire, services, AfterRecv(s, got, n), r, got + s.toClient[..n])
  {
    assert s.toClient == s.toClient[..n] + s.toClient[n..];
    Assoc(got, s.toClient[..n], s.toClient[n..]);
  }

  lemma NothingToReceive(wire: Wire, services: Services, s: State, r: Issued, got: Str)
    requires InService(wire, services, s, r, got) && s.codec == None && PromptFor(wire, services, s, r, got)
    ensures s.toClient == []
  {
    FrameSizes(wire, r);
  }

  lemma CodecStepStaysPrompt(wire: Wire, services: Services, s: State, step: Step, t: State, r: Issued, got: Str)
    requires s.phase == Waiting(got) && |s.issued| > 0 && r == Current(s)
    requires InService(wire, services, s, r, got) && PromptFor(wire, services, s, r, got)
    requires Next(wire, services, s, step, t) && (s.codec.Some? ==> t.codec == s.codec)
    requires step.SetCodec? || step.OtherTest? || step.OtherSet?
    ensures t.phase.Waiting? ==> Current(t) == r && PromptFor(wire, services, t, r, t.phase.got)
  {
    if step.OtherTest? {
      assert t.phase == s.phase && t.issued == s.issued && t.codec == None;
    } else {
      SetStaysPrompt(wire, services, s, t, r, got);
    }
  }

  lemma PickStepStaysPrompt(wire: Wire, services: Services, s: State, t: State, r: Issued, got: Str)
    requires s.phase == Waiting(got) && |s.issued| > 0 && r == Current(s)
    requires InService(wire, services, s, r, got) && PromptFor(wire, services, s, r, got)
    requires Next(wire, services, s, PickFrame, t)
    ensures t.phase == Waiting(got) && t.issued == s.issued && PromptFor(wire, services, t, r, got)
  {
    PickStaysPrompt(wire, services, s, t, r, got);
  }

  lemma DecodeStepStaysPrompt(wire: Wire, services: Services, s: State, t: State, r: Issued, got: Str)
    requires s.phase == Waiting(got) && |s.issued| > 0 && r == Current(s)
    requires InService(wire, services, s, r, got) && PromptFor(wire, services, s, r, got)
    requires Next(wire, services, s, DecodeFrame, t)
    ensures t.phase == Waiting(got) && t.issued == s.issued && PromptFor(wire, services, t, r, got)
  {
    DecodeStaysPrompt(wire, services, s, t, r, got);
  }

  lemma ReplyStepStaysPrompt(wire: Wire, services: Services, s: State, t: State, r: Issued, got: Str)
    requires s.phase == Waiting(got) && |s.issued| > 0 && r == Current(s)
    requires InService(wire, services, s, r, got) && PromptFor(wire, services, s, r, got)
    requires Next(wire, services, s, SendReply, t)
    ensures t.phase == Waiting(got) && t.issued == s.issued && PromptFor(wire, services, t, r, got)
  {
    ReplyStaysPrompt(wire, services, s, t, r, got);
  }

  lemma QueueStepStaysPrompt(wire: Wire, services: Services, s: State, step: Step, t: State, r: Issued, got: Str)
    requires s.phase == Waiting(got) && |s.issued| > 0 && r == Current(s)
    requires InService(wire, services, s, r, got) && PromptFor(wire, services, s, r, got)
    requires Next(wire, services, s, step, t) && (s.codec.Some? ==> t.codec == s.codec)
    requires step.Deliver? || step.Recv?
    ensures t.phase.Waiting? ==> Current(t) == r && PromptFor(wire, services, t, r, t.phase.got)
  {
    if step.Deliver? {
      DeliverStaysPrompt(wire, services, s, step.n, t, r, got);
    } else {
      if s.codec == None {
        NothingToReceive(wire, services, s, r, got);
      }
      ReceivedIsPrompt(wire, services, s, step.n, r, got);
    }
  }

  lemma StepStaysPrompt(wire: Wire, services: Services, s: State, step: Step, t: State, r: Issued, got: Str)
    requires s.phase == Waiting(got) && |s.issued| > 0 && r == Current(s)
    requires InService(wire, services, s, r, got) && PromptFor(wire, services, s, r, got)
    requires Next(wire, services, s, step, t) && (s.codec.Some? ==> t.codec == s.codec)
    ensures t.phase.Waiting? ==> Current(t) == r && PromptFor(wire, services, t, r, t.phase.got)
  {
    if step.SetCodec? || step.OtherTest? || step.OtherSet? {
      CodecStepStaysPrompt(wire, services, s, step, t, r, got);
    } else if step.PickFrame? {
      PickStepStaysPrompt(wire, services, s, t, r, got);
    } else if step.DecodeFrame? {
      DecodeStepStaysPrompt(wire, services, s, t, r, got);
    } else if step.SendReply? {
      ReplyStepStaysPrompt(wire, services, s, t, r, got);
    } else if step.Deliver? || step.Recv? {
      QueueStepStaysPrompt(wire, services, s, step, t, r, got);
    }
  }

  lemma {:induction false} RunStaysPrompt(wire: Wire, services: Services, states: seq<State>, steps: seq<Step>, i: nat)
    requires BoundedReplies(services) && Run(wire, services, states, steps) && CodecKept(states) && i < |states|
    ensures Inv(wire, services, states[i]) && Prompt(wire, services, states[i])
  {
    RunKeepsInv(wire, services, states, steps, i);
    if i > 0 {
      RunStaysPrompt(wire, services, states, steps, i - 1);
      var s, step, t := states[i - 1], steps[i - 1], states[i];
      if s.phase.Waiting? {
        StepStaysPrompt(wire, services, s, step, t, Current(s), s.phase.got);
      } else if step.Send? {
        SentIsPrompt(wire, services, s, Current(t));
      }
    }
  }

  /**
   If no connection overwrites the codec: once nothing is in flight and the server has come to rest, a call can
   finish exactly when the server speaks Legacy, the request is within the limit, and the method produced a body
   within the limit.
   */
  lemma FinishesExactly(wire: Wire, services: Services, states: seq<State>, steps: seq<Step>)
    requires BoundedReplies(services) && Run(wire, services, states, steps) && CodecKept(states)
    requires var s := states[|steps|];
             s.phase.Waiting? && s.toServer == [] && s.toClient == [] && s.serving == Resting
    ensures |states[|steps|].issued| > 0
    ensures var s := states[|steps|];
            var response := ResponseFor(services, Current(s));
            WholeReply(s.phase.got) <==>
              && s.codec == Some(LegacyServer) && WithinLimit(FrameFor(wire, Current(s)))
              && response.Some? && |response.value| <= MAX_FRAME_SIZE
  {
    RunStaysPrompt(wire, services, states, steps, |steps|);
    var s := states[|steps|];
    FinishesAtRest(wire, services, s, Current(s), s.phase.got);
  }

  lemma FinishesAtRest(wire: Wire, services: Services, s: State, r: Issued, got: Str)
    requires BoundedReplies(services) && Traffic(wire, services, s) && Prompt(wire, services, s)
    requires s.phase == Waiting(got) && r == Current(s)
    requires s.toServer == [] && s.toClient == [] && s.serving == Resting
    ensures var response := ResponseFor(services, r);
            WholeReply(got) <==>
              && s.codec == Some(LegacyServer) && WithinLimit(FrameFor(wire, r))
              && response.Some? && |response.value| <= MAX_FRAME_SIZE
  {
    var response := ResponseFor(services, r);
    FrameSizes(wire, r);
    assert got + [] == got && s.buffer + [] == s.buffer;
    if NotLegacy(got) {
      NeverWhole(got, []);
    }
    if s.codec == Some(LegacyServer) && s.buffer == [] && response.Some? {
      WholeReplyIsTheReply(response.value, got, []);
    }
  }

  // ----- The names of the first call -----

  /**
   Every request carries the names of the channel's first call, even if that one failed before it sent; a request
   names the method that was called exactly when that is the method of the first call.
   */
  lemma FirstNamesForever(wire: Wire, services: Services, states: seq<State>, steps: seq<Step>, j: nat)
    requires Run(wire, services, states, steps) && Named(states[|steps|].calls) && j < |states[|steps|].issued|
    ensures states[|steps|].calls != []
    ensures var first, r := states[|steps|].calls[0], states[|steps|].issued[j];
            r.sent == first && (r.sent == r.called <==> r.called == first)
  {
    RunKeepsBooks(wire, services, states, steps, |steps|);
    assert states[|steps|].issued[j] in states[|steps|].issued;
  }

  /** Every answer is what the first call's method makes of the request, whatever method was called. */
  lemma AnsweredByFirst(wire: Wire, services: Services, states: seq<State>, steps: seq<Step>, k: nat)
    requires BoundedReplies(services) && Run(wire, services, states, steps) && UndisturbedTo(wire, states, |steps|)
    requires Named(states[|steps|].calls) && k < |states[|steps|].answered|
    ensures states[|steps|].calls != [] && states[|steps|].answered[k].index < |states[|steps|].issued|
    ensures var s := states[|steps|];
            var r, first := s.issued[s.answered[k].index], s.calls[0];
            && Output(services, first, r.body) == Some(s.answered[k].body)
            && (r.called == first ==> Output(services, r.called, r.body) == Some(s.answered[k].body))
  {
    FifoPairing(wire, services, states, steps);
    FirstNamesForever(wire, services, states, steps, states[|steps|].answered[k].index);
  }

  // ----- A server that speaks XRpc -----

  /** The codec is set, and no thread is left that has found none. */
  predicate Settled(s: State) { s.codec.Some? && s.pending == 0 && s.serving != Detecting }

  /** From then on the codec never changes. */
  lemma {:induction false} SettledForever(wire: Wire, services: Services, states: seq<State>, steps: seq<Step>,
                                          i: nat, j: nat)
    requires Path(wire, services, states, steps) && i <= j < |states| && Settled(states[i])
    ensures Settled(states[j]) && states[j].codec == states[i].codec
    decreases j
  {
    if i < j {
      SettledForever(wire, services, states, steps, i, j - 1);
      assert Next(wire, services, states[j - 1], steps[j - 1], states[j]);
    }
  }

  /** Nothing that a Legacy client takes for a response is on its way to a request issued after the first n. */
  predicate SilentSince(s: State, n: nat) {
    && |s.issued| >= n && (forall k | 0 <= k < |s.answered| :: s.answered[k].index < n)
    && (s.phase.Waiting? && |s.issued| > n ==> NotLegacy(s.phase.got + s.toClient))
  }

  lemma FinishStaysSilent(wire: Wire, services: Services, s: State, t: State, n: nat)
    requires Next(wire, services, s, Finish, t) && SilentSince(s, n)
    ensures SilentSince(t, n)
  {
    if |s.issued| > n {
      NeverWhole(s.phase.got, s.toClient);
    }
  }

  lemma ReplyStaysSilent(wire: Wire, services: Services, s: State, t: State, n: nat)
    requires Next(wire, services, s, SendReply, t) && SilentSince(s, n) && s.codec == Some(XRpcServer)
    ensures SilentSince(t, n)
  {
    if s.phase.Waiting? && |s.issued| > n {
      XRpcReplies(wire, s.serving.body);
      StillNotLegacy(s.phase.got, s.toClient, ReplyAs(wire, XRpcServer, s.serving.body));
    }
  }

  lemma RecvStaysSilent(wire: Wire, services: Services, s: State, k: nat, t: State, n: nat)
    requires Next(wire, services, s, Recv(k), t) && SilentSince(s, n)
    ensures SilentSince(t, n)
  {
    assert s.toClient == s.toClient[..k] + s.toClient[k..];
    Assoc(s.phase.got, s.toClient[..k], s.toClient[k..]);
  }

  lemma StepStaysSilent(wire: Wire, services: Services, s: State, step: Step, t: State, n: nat)
    requires Traffic(wire, services, s) && Next(wire, services, s, step, t)
    requires SilentSince(s, n) && s.codec == Some(XRpcServer)
    ensures SilentSince(t, n)
  {
    if step.Recv? {
      RecvStaysSilent(wire, services, s, step.n, t, n);
    } else if step.Finish? {
      FinishStaysSilent(wire, services, s, t, n);
    } else if step.SendReply? {
      ReplyStaysSilent(wire, services, s, t, n);
    }
  }

  /** No request issued while the server speaks XRpc is answered as long as it does. */
  lemma {:induction false} XRpcNeverAnswers(wire: Wire, services: Services, states: seq<State>, steps: seq<Step>,
                                            i: nat, j: nat)
    requires BoundedReplies(services) && Run(wire, services, states, steps) && UndisturbedTo(wire, states, |steps|)
    requires i <= j < |states| && forall m | i <= m <= j :: states[m].codec == Some(XRpcServer)
    ensures SilentSince(states[j], |states[i].issued|)
    decreases j
  {
    if i < j {
      XRpcNeverAnswers(wire, services, states, steps, i, j - 1);
      RunKeepsInv(wire, services, states, steps, j - 1);
      StepStaysSilent(wire, services, states[j - 1], steps[j - 1], states[j], |states[i].issued|);
    } else {
      RunKeepsInv(wire, services, states, steps, i);
    }
  }

  /** The channel's own connection sets XRpc exactly when two bytes of a request that spells the magic are there. */
  lemma SetsXRpcExactly(wire: Wire, services: Services, s: State, t: State)
    requires Traffic(wire, services, s) && Next(wire, services, s, SetCodec, t)
    ensures |s.issued| > 0
    ensures t.codec == Some(XRpcServer) <==> |s.buffer| >= 2 && SpellsMagic(FrameFor(wire, Current(s)))
  {
    DetectedAsXRpcExactly(wire, Current(s), s.buffer, s.toServer);
  }

  /** If no request spells the magic and no other connection sets it, the server never speaks XRpc. */
  lemma {:induction false} StaysLegacy(wire: Wire, services: Services, states: seq<State>, steps: seq<Step>, i: nat)
    requires BoundedReplies(services) && Run(wire, services, states, steps) && i < |states|
    requires states[0].codec != Some(XRpcServer) && forall j | 0 <= j < i :: steps[j] != OtherSet(XRpcServer)
    requires forall r | r in states[i].issued :: !SpellsMagic(FrameFor(wire, r))
    ensures Inv(wire, services, states[i]) && states[i].codec != Some(XRpcServer)
  {
    if i > 0 {
      var s, step, t := states[i - 1], steps[i - 1], states[i];
      assert Next(wire, services, s, step, t);
      assert forall r | r in s.issued :: r in t.issued;
      StaysLegacy(wire, services, states, steps, i - 1);
      StepKeepsTraffic(wire, services, s, step, t);
      StepKeepsPaired(wire, services, s, step, t);
      StepStaysLegacy(wire, services, s, step, t);
    }
  }

  lemma StepStaysLegacy(wire: Wire, services: Services, s: State, step: Step, t: State)
    requires Traffic(wire, services, s) && Next(wire, services, s, step, t) && step != OtherSet(XRpcServer)
    requires s.codec != Some(XRpcServer) && forall r | r in t.issued :: !SpellsMagic(FrameFor(wire, r))
    ensures t.codec != Some(XRpcServer)
  {
    if step.SetCodec? {
      SetsXRpcExactly(wire, services, s, t);
      assert Current(s) in t.issued;
    }
  }
}
