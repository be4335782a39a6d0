/** Laws of the server loop over whole byte streams: independence from chunking, and the stream round trip. */
module Streams {
  import opened Wrappers
  import opened Bytes
  import opened Protocol
  import opened ServerCodecs
  import opened RpcServers
  import Legacy = LegacyCodec
  import XRpc = XRpcCodec

  /** OnMessage once for every chunk, on a connection whose buffer starts as `buf`. */
  function Feed(wire: Wire, codec: ServerCodec, buf: Str, chunks: seq<Str>): (r: Drained)
    decreases |chunks|
  {
    if chunks == [] then Drained([], buf, false)
    else
      var d := Drain(wire, codec, buf + chunks[0]);
      var next := Feed(wire, codec, d.rest, chunks[1..]);
      Drained(d.msgs + next.msgs, next.rest, d.failed || next.failed)
  }

  /** Every complete frame has its header inside: always so for XRpc, whose codec checks it. */
  predicate AllWellFormed(wire: Wire, codec: ServerCodec, s: Str)
    decreases |s|
  {
    var size := codec.Pick(wire, s);
    0 < size <= |s| ==> codec.WellFormed(s) && AllWellFormed(wire, codec, s[size..])
  }

  /** A verdict other than "incomplete", and what is decoded then, is not changed by later bytes. */
  lemma FirstFrameIsLocal(wire: Wire, codec: ServerCodec, s: Str, t: Str)
    requires codec.Pick(wire, s) > 0 && codec.WellFormed(s)
    ensures var size := codec.Pick(wire, s);
            && 0 < size <= |s| && codec.Pick(wire, s + t) == size && (s + t)[size..] == s[size..] + t
            && codec.WellFormed(s + t)
            && codec.Decode(wire, s + t).code == codec.Decode(wire, s).code
            && codec.Decode(wire, s + t).msg == codec.Decode(wire, s).msg
  {
    codec.PickIsPrefixStable(wire, s, t);
    var size := codec.Pick(wire, s);
    var frame, behind := s[..size], s[size..];
    assert s == frame + behind && s + t == frame + (behind + t);
    codec.PickIsPrefixStable(wire, frame, behind);
    if codec.LegacyServer? {
      U32OfPrefix(frame, behind, 0);
      U32OfPrefix(frame, behind, 4);
    }
    codec.DecodeIsLocal(wire, frame, behind);
    codec.DecodeIsLocal(wire, frame, behind + t);
  }

  function Prepend(msgs: seq<Message>, d: Drained): (r: Drained) { d.(msgs := msgs + d.msgs) }

  lemma PrependOne(msg: Message, msgs: seq<Message>, d: Drained)
    ensures Prepend([msg] + msgs, d) == Drained([msg] + Prepend(msgs, d).msgs, d.rest, d.failed)
  {
    Assoc([msg], msgs, d.msgs);
  }

  /** Draining a prefix first, and then its residue with the rest, is draining it all. */
  lemma {:induction false} DrainInTwoSteps(wire: Wire, codec: ServerCodec, s: Str, t: Str)
    requires AllWellFormed(wire, codec, s)
    ensures Drain(wire, codec, s + t)
         == Prepend(Drain(wire, codec, s).msgs, Drain(wire, codec, Drain(wire, codec, s).rest + t))
    decreases |s|
  {
    var size := codec.Pick(wire, s);
    codec.PickIsPrefixStable(wire, s, t);
    if s == [] || size <= 0 || codec.Decode(wire, s).code != CODEC_OK {
      assert Prepend([], Drain(wire, codec, s + t)) == Drain(wire, codec, s + t);
    } else {
      FirstFrameIsLocal(wire, codec, s, t);
      DrainInTwoSteps(wire, codec, s[size..], t);
      var d := Drain(wire, codec, s[size..]);
      PrependOne(codec.Decode(wire, s).msg, d.msgs, Drain(wire, codec, d.rest + t));
    }
  }

  /** Once the server has given a connection up, it does so again whatever arrives. */
  lemma {:induction false} FailureSticks(wire: Wire, codec: ServerCodec, s: Str, t: Str)
    requires AllWellFormed(wire, codec, s) && Drain(wire, codec, s).failed
    ensures var rest := Drain(wire, codec, s).rest;
            Drain(wire, codec, rest + t) == Drained([], rest + t, true)
    decreases |s|
  {
    var size := codec.Pick(wire, s);
    codec.PickIsPrefixStable(wire, s, t);
    if size > 0 {
      FirstFrameIsLocal(wire, codec, s, t);
      if codec.Decode(wire, s).code == CODEC_OK {
        FailureSticks(wire, codec, s[size..], t);
      }
    }
  }

  /** Well-formedness of a stream passes to what is left after draining a prefix of it. */
  lemma {:induction false} ResidueIsWellFormed(wire: Wire, codec: ServerCodec, s: Str, t: Str)
    requires AllWellFormed(wire, codec, s + t)
    ensures AllWellFormed(wire, codec, s)
    ensures AllWellFormed(wire, codec, Drain(wire, codec, s).rest + t)
    decreases |s|
  {
    var size := codec.Pick(wire, s);
    codec.PickIsPrefixStable(wire, s, t);
    if size > 0 {
      WellFormedPrefix(wire, codec, s, t);
      FirstFrameIsLocal(wire, codec, s, t);
      ResidueIsWellFormed(wire, codec, s[size..], t);
    }
  }

  lemma WellFormedPrefix(wire: Wire, codec: ServerCodec, s: Str, t: Str)
    requires codec.Pick(wire, s) > 0 && codec.WellFormed(s + t)
    ensures codec.WellFormed(s)
  {
    codec.PickIsPrefixStable(wire, s, t);
    if codec.LegacyServer? {
      U32OfPrefix(s, t, 0);
      U32OfPrefix(s, t, 4);
    }
  }

  /**
   Chunking independence: feeding a stream chunk by chunk decodes the same messages, leaves the same bytes
   and gives up the connection if and only if one call on the whole stream does.
   */
  lemma {:induction false} ChunkingIndependence(wire: Wire, codec: ServerCodec, buf: Str, chunks: seq<Str>)
    requires Drain(wire, codec, buf).msgs == [] && Drain(wire, codec, buf).rest == buf
    requires AllWellFormed(wire, codec, buf + Concat(chunks))
    ensures var whole, fed := Drain(wire, codec, buf + Concat(chunks)), Feed(wire, codec, buf, chunks);
            && fed.msgs == whole.msgs && fed.rest == whole.rest
            && whole.failed == (Drain(wire, codec, buf).failed || fed.failed)
    decreases |chunks|
  {
    if chunks == [] {
      assert buf + Concat(chunks) == buf;
    } else {
      var s, t := buf + chunks[0], Concat(chunks[1..]);
      assert buf + Concat(chunks) == s + t;
      var d := Drain(wire, codec, s);
      ResidueIsWellFormed(wire, codec, s, t);
      DrainInTwoSteps(wire, codec, s, t);
      ResidueSettles(wire, codec, s);
      ChunkingIndependence(wire, codec, d.rest, chunks[1..]);
      if Drain(wire, codec, buf).failed {
        assert buf + [] == buf;
        ResidueIsWellFormed(wire, codec, buf, chunks[0]);
        FailureSticks(wire, codec, buf, chunks[0]);
      }
    }
  }

  lemma {:induction false} ResidueSettles(wire: Wire, codec: ServerCodec, s: Str)
    ensures var d := Drain(wire, codec, s); Drain(wire, codec, d.rest) == Drained([], d.rest, d.failed)
    decreases |s|
  {
    var size := codec.Pick(wire, s);
    if s != [] && 0 < size <= |s| && codec.Decode(wire, s).code == CODEC_OK {
      ResidueSettles(wire, codec, s[size..]);
    }
  }

  /** For a connection from its start; XRpc streams need no condition. */
  lemma ChunkingFromStart(wire: Wire, codec: ServerCodec, chunks: seq<Str>)
    requires codec.LegacyServer? ==> AllWellFormed(wire, codec, Concat(chunks))
    ensures Feed(wire, codec, [], chunks) == Drain(wire, codec, Concat(chunks))
  {
    assert [] + Concat(chunks) == Concat(chunks);
    if codec.XRpcServer? {
      XRpcIsWellFormed(wire, Concat(chunks));
    }
    ChunkingIndependence(wire, codec, [], chunks);
  }

  lemma {:induction false} XRpcIsWellFormed(wire: Wire, s: Str)
    ensures AllWellFormed(wire, XRpcServer, s)
    decreases |s|
  {
    var size := XRpcServer.Pick(wire, s);
    if 0 < size <= |s| {
      XRpcIsWellFormed(wire, s[size..]);
    }
  }

  /** For every header format, and whatever follows the frame. */
  ghost predicate SplitDoesNotMatter(frame: Str) {
    forall wire: Wire, rest: Str ::
      Feed(wire, LegacyServer, [], [frame, rest]) == Drain(wire, LegacyServer, frame + rest)
  }

  /**
   The condition on Legacy streams is needed: frame by frame, it is exactly what makes the split immaterial under
   all header formats. (Under one fixed format a split may be harmless all the same.)
   */
  lemma LegacySplitExactly(wire: Wire, frame: Str)
    requires Legacy.Pick(frame) == |frame| && |frame| > 0
    ensures SplitDoesNotMatter(frame) <==> Legacy.HeaderFits(frame)
  {
    if Legacy.HeaderFits(frame) {
      forall wire: Wire, rest: Str
        ensures Feed(wire, LegacyServer, [], [frame, rest]) == Drain(wire, LegacyServer, frame + rest)
      {
        FeedTwo(wire, LegacyServer, frame, rest);
        DrainInTwoSteps(wire, LegacyServer, frame, rest);
        ResidueSettles(wire, LegacyServer, frame);
        if Drain(wire, LegacyServer, frame).failed {
          FailureSticks(wire, LegacyServer, frame, rest);
        }
      }
    } else {
      var raw := Legacy.RawWire(wire);
      FeedTwo(raw, LegacyServer, frame, [1]);
      Legacy.OversizedHeaderReadsOn(wire, frame);
      Legacy.PickIsPrefixStable(frame, [1]);
      assert Drain(raw, LegacyServer, frame).msgs[0] == Legacy.Decode(raw, frame).msg;
      assert Drain(raw, LegacyServer, frame + [1]).msgs[0] == Legacy.Decode(raw, frame + [1]).msg;
    }
  }

  /** There are streams whose meaning depends on where TCP cuts them. */
  lemma SplitMatters() returns (frame: Str)
    ensures Legacy.Pick(frame) == |frame| == 8 && !SplitDoesNotMatter(frame)
  {
    frame := Legacy.OversizedHeaderExists();
    LegacySplitExactly(Legacy.AnyWire(), frame);
  }

  lemma FeedTwo(wire: Wire, codec: ServerCodec, a: Str, b: Str)
    ensures var d := Drain(wire, codec, a);
            var e := Drain(wire, codec, d.rest + b);
            Feed(wire, codec, [], [a, b]) == Drained(d.msgs + e.msgs, e.rest, d.failed || e.failed)
  {
    var d := Drain(wire, codec, a);
    assert [] + a == a && [a, b][1..] == [b];
    assert [b][1..] == [];
    var e := Drain(wire, codec, d.rest + b);
    assert e.msgs + [] == e.msgs;
    assert Feed(wire, codec, d.rest, [b]) == e;
  }

  /** Draining splits the buffer into one complete frame for each message and the bytes that stay. */
  lemma {:induction false} DrainedInFrames(wire: Wire, codec: ServerCodec, s: Str) returns (frames: seq<Str>)
    ensures |frames| == |Drain(wire, codec, s).msgs|
    ensures s == Concat(frames) + Drain(wire, codec, s).rest
    ensures forall f | f in frames :: f != [] && codec.Pick(wire, f) == |f|
    decreases |s|
  {
    var d := Drain(wire, codec, s);
    if d.msgs == [] {
      frames := [];
      EmptyLeft(s);
    } else {
      var frame, tail, next := FrontFrame(wire, codec, s);
      frames := DrainedInFrames(wire, codec, tail);
      OneMoreFrame(wire, codec, s, frame, tail, frames, next.rest);
      frames := [frame] + frames;
    }
  }

  lemma FrontFrame(wire: Wire, codec: ServerCodec, s: Str) returns (frame: Str, tail: Str, next: Drained)
    requires Drain(wire, codec, s).msgs != []
    ensures s == frame + tail && frame != [] && codec.Pick(wire, frame) == |frame|
    ensures next == Drain(wire, codec, tail) && next.rest == Drain(wire, codec, s).rest
    ensures |Drain(wire, codec, s).msgs| == |next.msgs| + 1
  {
    codec.PickIsPrefixStable(wire, s, []);
    var size := codec.Pick(wire, s);
    frame, tail := s[..size], s[size..];
    next := Drain(wire, codec, tail);
  }

  lemma OneMoreFrame(wire: Wire, codec: ServerCodec, s: Str, frame: Str, tail: Str, frames: seq<Str>, rest: Str)
    requires s == frame + tail && tail == Concat(frames) + rest
    requires frame != [] && codec.Pick(wire, frame) == |frame|
    requires forall f | f in frames :: f != [] && codec.Pick(wire, f) == |f|
    ensures s == Concat([frame] + frames) + rest
    ensures forall f | f in [frame] + frames :: f != [] && codec.Pick(wire, f) == |f|
  {
    assert ([frame] + frames)[1..] == frames;
    Assoc(frame, Concat(frames), rest);
  }

  // ----- The server object under any chunking -----

  lemma {:induction false} EffectsConcat(wire: Wire, codec: ServerCodec, services: Services,
                                         a: seq<Message>, b: seq<Message>)
    ensures CallsOf(services, a + b) == CallsOf(services, a) + CallsOf(services, b)
    ensures RepliesOf(wire, codec, services, a + b) == RepliesOf(wire, codec, services, a)
                                                       + RepliesOf(wire, codec, services, b)
  {
    if b == [] {
      assert a + b == a;
    } else {
      var front, last := b[..|b| - 1], b[|b| - 1];
      assert b == front + [last];
      Assoc(a, front, [last]);
      EffectsConcat(wire, codec, services, a, front);
      OneMore(wire, codec, services, a + front, last, [], []);
      OneMore(wire, codec, services, front, last, CallsOf(services, a), RepliesOf(wire, codec, services, a));
      EmptyLeft(CallsOf(services, a + front));
      EmptyLeft(CallsOf(services, a + b));
      EmptyLeft(RepliesOf(wire, codec, services, a + front));
      EmptyLeft(RepliesOf(wire, codec, services, a + b));
    }
  }

  /** More messages dispatched after `done`, on top of what was called and sent before. */
  lemma MoreEffects(wire: Wire, codec: ServerCodec, services: Services, done: seq<Message>, msgs: seq<Message>,
                    called: seq<Call>, sent: Str)
    ensures called + CallsOf(services, done) + CallsOf(services, msgs) == called + CallsOf(services, done + msgs)
    ensures sent + RepliesOf(wire, codec, services, done) + RepliesOf(wire, codec, services, msgs)
         == sent + RepliesOf(wire, codec, services, done + msgs)
  {
    EffectsConcat(wire, codec, services, done, msgs);
    Assoc(called, CallsOf(services, done), CallsOf(services, msgs));
    Assoc(sent, RepliesOf(wire, codec, services, done), RepliesOf(wire, codec, services, msgs));
  }

  lemma EmptyLeft<T>(s: seq<T>)
    ensures [] + s == s
  {}

  /** The codec that a connection's chunks are read with: the first chunk decides if none is set. */
  function CodecFor(codec: Option<ServerCodec>, chunks: seq<Str>): (r: ServerCodec) {
    if codec.Some? then codec.value else if chunks == [] then LegacyServer else Detect(chunks[0])
  }

  /**
   The chunks of one connection as they arrive: each is appended to the receive buffer and OnMessage is called.
   What the server has done in the end does not depend on the chunks, only on the stream and on the codec, which a
   fresh server takes from the first chunk.
   */
  method ReceiveChunks(server: RpcServer, conn: Connection, buffer: InputBuffer, chunks: seq<Str>)
    requires buffer.data == []
    requires var codec := CodecFor(server.codec, chunks);
             codec.LegacyServer? ==> AllWellFormed(server.wire, codec, Concat(chunks))
    modifies server, conn, buffer
    ensures server.codec == if chunks == [] then old(server.codec) else Some(CodecFor(old(server.codec), chunks))
    ensures var codec := CodecFor(old(server.codec), chunks);
            var d := Drain(server.wire, codec, Concat(chunks));
            && buffer.data == d.rest
            && server.calls == old(server.calls) + CallsOf(server.services, d.msgs)
            && conn.sent == old(conn.sent) + RepliesOf(server.wire, codec, server.services, d.msgs)
            && (conn.shutdowns > old(conn.shutdowns) <==> d.failed)
  {
    ghost var wire, codec, services := server.wire, CodecFor(server.codec, chunks), server.services;
    ghost var done: seq<Message> := [];
    ghost var whole := Feed(wire, codec, [], chunks);
    assert chunks[0..] == chunks;
    for i := 0 to |chunks|
      invariant server.codec == if i == 0 then old(server.codec) else Some(codec)
      invariant i == 0 ==> buffer.data == []
      invariant server.calls == old(server.calls) + CallsOf(services, done)
      invariant conn.sent == old(conn.sent) + RepliesOf(wire, codec, services, done)
      invariant conn.shutdowns >= old(conn.shutdowns)
      invariant FedSoFar(whole, done, conn.shutdowns > old(conn.shutdowns), Feed(wire, codec, buffer.data, chunks[i..]))
    {
      ghost var d := Drain(wire, codec, buffer.data + chunks[i]);
      assert chunks[i..][0] == chunks[i] && chunks[i..][1..] == chunks[i + 1..];
      EmptyLeft(chunks[i]);
      buffer.data := buffer.data + chunks[i];
      server.OnMessage(conn, buffer);
      MoreEffects(wire, codec, services, done, d.msgs, old(server.calls), old(conn.sent));
      Assoc(done, d.msgs, Feed(wire, codec, d.rest, chunks[i + 1..]).msgs);
      done := done + d.msgs;
    }
    assert chunks[|chunks|..] == [] && done + [] == done;
    ChunkingFromStart(wire, codec, chunks);
  }

  ghost predicate FedSoFar(whole: Drained, done: seq<Message>, failed: bool, next: Drained) {
    whole == Drained(done + next.msgs, next.rest, failed || next.failed)
  }

  // ----- The stream round trip -----

  datatype Request = Request(ctx: ClientContext, msg: Message)

  ghost predicate Sendable(wire: Wire, codec: ServerCodec, r: Request) {
    if codec.LegacyServer? then Legacy.Sendable(wire, r.ctx, r.msg) else XRpc.Sendable(wire, r.ctx, r.msg)
  }

  /** The bytes of one request; empty when it cannot be encoded. */
  function FrameOf(wire: Wire, codec: ServerCodec, r: Request): (result: Str) {
    if codec.LegacyServer? then
      match Legacy.Encode(wire, r.ctx, r.msg)
      case None => []
      case Some(bytes) => bytes
    else
      match XRpc.Encode(wire, r.ctx, r.msg)
      case Failed(_) => []
      case Frame(bytes) => bytes
  }

  function Received(codec: ServerCodec, r: Request): (result: Message) {
    if codec.LegacyServer? then Legacy.Received(r.ctx, r.msg) else XRpc.Received(r.ctx, r.msg)
  }

  function StreamOf(wire: Wire, codec: ServerCodec, rs: seq<Request>): (r: Str) {
    if rs == [] then [] else FrameOf(wire, codec, rs[0]) + StreamOf(wire, codec, rs[1..])
  }

  function AllReceived(codec: ServerCodec, rs: seq<Request>): (r: seq<Message>) {
    if rs == [] then [] else [Received(codec, rs[0])] + AllReceived(codec, rs[1..])
  }

  lemma FrameRoundTrip(wire: Wire, codec: ServerCodec, r: Request, rest: Str)
    requires Sendable(wire, codec, r)
    ensures var frame := FrameOf(wire, codec, r);
            && |frame| > 0 && codec.Pick(wire, frame + rest) == |frame| && codec.WellFormed(frame + rest)
            && (frame + rest)[|frame|..] == rest
            && codec.Decode(wire, frame + rest) == Decoded(CODEC_OK, Received(codec, r), rest)
  {
    DropAppend(FrameOf(wire, codec, r), rest);
    if codec.LegacyServer? {
      Legacy.RequestRoundTrip(wire, r.ctx, r.msg, rest);
    } else {
      XRpc.RequestRoundTrip(wire, r.ctx, r.msg, rest);
    }
  }

  /** The concatenated encodings of any list of requests are read back as that list, with nothing left over. */
  lemma {:induction false} StreamRoundTrip(wire: Wire, codec: ServerCodec, rs: seq<Request>)
    requires forall r | r in rs :: Sendable(wire, codec, r)
    ensures Drain(wire, codec, StreamOf(wire, codec, rs)) == Drained(AllReceived(codec, rs), [], false)
    ensures AllWellFormed(wire, codec, StreamOf(wire, codec, rs))
  {
    if rs == [] {
      codec.PickIsPrefixStable(wire, [], []);
    } else {
      StreamRoundTrip(wire, codec, rs[1..]);
      FrameRoundTrip(wire, codec, rs[0], StreamOf(wire, codec, rs[1..]));
    }
  }

  /** However the network cuts the stream, the server decodes exactly the requests that were sent. */
  lemma AnyChunkingDelivers(wire: Wire, codec: ServerCodec, rs: seq<Request>, chunks: seq<Str>)
    requires forall r | r in rs :: Sendable(wire, codec, r)
    requires Concat(chunks) == StreamOf(wire, codec, rs)
    ensures Feed(wire, codec, [], chunks) == Drained(AllReceived(codec, rs), [], false)
  {
    StreamRoundTrip(wire, codec, rs);
    ChunkingFromStart(wire, codec, chunks);
  }

  /**
   The codec is one for the whole server: of the requests of a connection, a server whose codec is already set
   reads those of exactly that protocol, whatever the connection begins with.
   */
  lemma ServedExactly(wire: Wire, codec: ServerCodec, protocol: ServerCodec, r: Request, rest: Str)
    requires Sendable(wire, protocol, r)
    ensures Drain(wire, codec, FrameOf(wire, protocol, r) + rest).msgs != [] <==> codec == protocol
  {
    var frame := FrameOf(wire, protocol, r);
    FrameRoundTrip(wire, protocol, r, rest);
    if codec == protocol {
      assert frame + rest != [];
    } else if protocol.XRpcServer? {
      MissedXRpcIsRejected(wire.host, frame + rest);
    } else {
      MissedLegacyIsRejected(wire.host, frame + rest);
    }
  }

  /**
   A one-way message comes without its variable header, and so without names: unless a service with an empty name is
   registered, the server reads it and runs nothing.
   */
  lemma OneWayIsNotServed(wire: Wire, codec: ServerCodec, services: Services, r: Request, rest: Str)
    requires Sendable(wire, XRpcServer, r) && r.msg.messageType == ONEWAY && [] !in services
    ensures XRpcServer.Decode(wire, FrameOf(wire, XRpcServer, r) + rest).code == CODEC_OK
    ensures var msg := XRpcServer.Decode(wire, FrameOf(wire, XRpcServer, r) + rest).msg;
            msg.body == r.msg.body && CallOf(services, msg) == [] && ReplyTo(wire, codec, services, msg) == []
  {
    FrameRoundTrip(wire, XRpcServer, r, rest);
  }

  // ----- A fresh server -----

  lemma FirstChunk(chunks: seq<Str>, s: Str)
    requires chunks != [] && Concat(chunks) == s
    ensures |chunks[0]| <= |s| && s[..|chunks[0]|] == chunks[0]
  {}

  lemma FreshServerDetects(wire: Wire, protocol: ServerCodec, r: Request, rest: Str, chunks: seq<Str>)
    requires Sendable(wire, protocol, r) && Concat(chunks) == FrameOf(wire, protocol, r) + rest
    ensures chunks != []
    ensures CodecFor(None, chunks) == protocol <==> protocol.LegacyServer? || |chunks[0]| >= 2
  {
    var s := Concat(chunks);
    FrameRoundTrip(wire, protocol, r, rest);
    FirstChunk(chunks, s);
    if protocol.LegacyServer? {
      DetectsLegacy(s, |chunks[0]|);
    } else {
      DetectsXRpcExactly(wire.host, s, |chunks[0]|);
    }
  }

  /**
   A server that has seen no bytes yet takes every chunking of a stream of Legacy requests, and a stream of XRpc
   requests exactly when its first chunk has two bytes or more.
   */
  lemma FreshServerTakesExactly(wire: Wire, protocol: ServerCodec, rs: seq<Request>, chunks: seq<Str>)
    requires rs != [] && forall r | r in rs :: Sendable(wire, protocol, r)
    requires Concat(chunks) == StreamOf(wire, protocol, rs)
    ensures chunks != []
    ensures Feed(wire, CodecFor(None, chunks), [], chunks) == Drained(AllReceived(protocol, rs), [], false)
       <==> protocol.LegacyServer? || |chunks[0]| >= 2
  {
    var rest := StreamOf(wire, protocol, rs[1..]);
    var codec := CodecFor(None, chunks);
    FreshServerDetects(wire, protocol, rs[0], rest, chunks);
    if codec == protocol {
      AnyChunkingDelivers(wire, protocol, rs, chunks);
    } else {
      NotServed(wire, codec, protocol, rs[0], rest, chunks);
    }
  }

  lemma NotServed(wire: Wire, codec: ServerCodec, protocol: ServerCodec, r: Request, rest: Str, chunks: seq<Str>)
    requires Sendable(wire, protocol, r) && codec != protocol && protocol.XRpcServer?
    requires Concat(chunks) == FrameOf(wire, protocol, r) + rest
    ensures Feed(wire, codec, [], chunks).msgs == []
  {
    FrameRoundTrip(wire, protocol, r, rest);
    MissedXRpcIsRejected(wire.host, Concat(chunks));
    ChunkingFromStart(wire, LegacyServer, chunks);
  }

  // ----- The hypothesis on Protobuf can be met for every list of requests -----

  function TableWire(host: Host, rs: seq<Request>): (r: Wire) {
    Wire(host,
         TableFormat(seq(|rs|, i requires 0 <= i < |rs| => Legacy.RequestHeader(rs[i].ctx, rs[i].msg))),
         TableFormat(seq(|rs|, i requires 0 <= i < |rs| => XRpc.RequestOf(rs[i].ctx, rs[i].msg))),
         TableFormat([]))
  }

  lemma TableWireSends(host: Host, codec: ServerCodec, rs: seq<Request>, k: nat)
    requires k < |rs| < 0x1_0000 && 16 + |rs| + |rs[k].msg.body| <= MAX_FRAME_SIZE
    requires codec.XRpcServer? ==> rs[k].msg.messageType == REQUEST || rs[k].msg.messageType == ONEWAY
    ensures Sendable(TableWire(host, rs), codec, rs[k])
  {
    var headers := seq(|rs|, i requires 0 <= i < |rs| => Legacy.RequestHeader(rs[i].ctx, rs[i].msg));
    var requests := seq(|rs|, i requires 0 <= i < |rs| => XRpc.RequestOf(rs[i].ctx, rs[i].msg));
    assert headers[k] in headers && requests[k] in requests;
    TableFormatRoundTrips(headers, headers[k]);
    TableFormatRoundTrips(requests, requests[k]);
  }
}
