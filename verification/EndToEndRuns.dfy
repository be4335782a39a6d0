/**
 Paths of the end-to-end step system: what the server's OnMessage and the client's CallMethod are proved to do is what
 its steps can do, calls can complete, and some runs go wrong.
 */
module EndToEndRuns {
  import opened Wrappers
  import opened Bytes
  import opened Protocol
  import opened ServerCodecs
  import opened RpcServers
  import opened Streams
  import opened RpcChannels
  import opened EndToEnd
  import Legacy = LegacyCodec
  import XRpc = XRpcCodec
  import opened FixedHeaders

  lemma PathCons(wire: Wire, services: Services, s: State, step: Step, states: seq<State>, steps: seq<Step>)
    requires Path(wire, services, states, steps) && Next(wire, services, s, step, states[0])
    ensures Path(wire, services, [s] + states, [step] + steps)
    ensures ([s] + states)[|[step] + steps|] == states[|steps|]
  {
    var all, allSteps := [s] + states, [step] + steps;
    forall i | 0 <= i < |allSteps| ensures Next(wire, services, all[i], allSteps[i], all[i + 1]) {
      if i > 0 {
        assert Next(wire, services, states[i - 1], steps[i - 1], states[i]);
      }
    }
  }

  lemma Joined(wire: Wire, services: Services, states: seq<State>, steps: seq<Step>, path: seq<State>, more: seq<Step>)
    returns (all: seq<State>, allSteps: seq<Step>)
    requires Path(wire, services, states, steps) && Path(wire, services, path, more) && path[0] == states[|steps|]
    ensures Path(wire, services, all, allSteps) && all[0] == states[0] && all[|allSteps|] == path[|more|]
    ensures |all| >= |states| && all[..|states|] == states
  {
    all, allSteps := states + path[1..], steps + more;
    forall i | 0 <= i < |allSteps| ensures Next(wire, services, all[i], allSteps[i], all[i + 1]) {
      if i < |steps| {
        assert Next(wire, services, states[i], steps[i], states[i + 1]);
      } else {
        var j := i - |steps|;
        assert all[i] == path[j] && all[i + 1] == path[j + 1] && allSteps[i] == more[j];
        assert Next(wire, services, path[j], more[j], path[j + 1]);
      }
    }
  }

  lemma NotXRpc(codec: Option<ServerCodec>)
    requires codec != Some(XRpcServer)
    ensures codec == None || codec == Some(LegacyServer)
  {
    if codec.Some? {
      assert codec.value.LegacyServer?;
    }
  }

  // ----- OnMessage is a path -----

  function Rested(s: State, rest: Str, replies: Str): (t: State) {
    s.(serving := Resting, buffer := rest, toClient := s.toClient + replies)
  }

  /** Nothing more to decode: the loop ends. */
  lemma LoopEnds(wire: Wire, services: Services, s: State, codec: ServerCodec)
    returns (states: seq<State>, steps: seq<Step>)
    requires s.connected && s.serving == Looping && s.codec == Some(codec) && Drain(wire, codec, s.buffer).msgs == []
    ensures Path(wire, services, states, steps) && states[0] == s && states[|steps|] == Rested(s, s.buffer, [])
  {
    var size := codec.Pick(wire, s.buffer);
    var t := s.(serving := AfterPick(wire, codec, s.buffer));
    EmptyRight(s.toClient);
    if t.serving == Resting {
      states, steps := [s, t], [PickFrame];
    } else {
      var u := AfterDecode(wire, services, t, codec, size);
      states, steps := [s, t, u], [PickFrame, DecodeFrame];
    }
  }

  lemma FirstDrained(wire: Wire, codec: ServerCodec, data: Str) returns (msg: Message, size: nat)
    requires Drain(wire, codec, data).msgs != []
    ensures 0 < size <= |data| && AfterPick(wire, codec, data) == Picked(size)
    ensures codec.Decode(wire, data).code == CODEC_OK && msg == codec.Decode(wire, data).msg
    ensures var d, next := Drain(wire, codec, data), Drain(wire, codec, data[size..]);
            d == Drained([msg] + next.msgs, next.rest, next.failed)
  {
    size, msg := codec.Pick(wire, data), codec.Decode(wire, data).msg;
  }

  /** One round of the loop: the first frame is picked, decoded and served. */
  lemma LoopServes(wire: Wire, services: Services, s: State, codec: ServerCodec, msg: Message, size: nat)
    returns (states: seq<State>, steps: seq<Step>)
    requires s.connected && s.serving == Looping && s.codec == Some(codec)
    requires 0 < size <= |s.buffer| && AfterPick(wire, codec, s.buffer) == Picked(size)
    requires codec.Decode(wire, s.buffer).code == CODEC_OK && msg == codec.Decode(wire, s.buffer).msg
    ensures Path(wire, services, states, steps) && states[0] == s
    ensures states[|steps|]
         == s.(buffer := s.buffer[size..], toClient := s.toClient + ReplyTo(wire, codec, services, msg))
  {
    var t := s.(serving := Picked(size));
    var u := s.(buffer := s.buffer[size..], serving := AfterDispatch(services, msg));
    assert Next(wire, services, s, PickFrame, t) && Next(wire, services, t, DecodeFrame, u);
    EmptyRight(s.toClient);
    if u.serving.Replying? {
      var v := AfterReply(wire, u, codec, u.serving.body);
      assert Next(wire, services, u, SendReply, v);
      states, steps := [s, t, u, v], [PickFrame, DecodeFrame, SendReply];
    } else {
      states, steps := [s, t, u], [PickFrame, DecodeFrame];
    }
  }

  lemma MoreReplies(wire: Wire, codec: ServerCodec, services: Services, sent: Str, msg: Message, msgs: seq<Message>)
    ensures sent + ReplyTo(wire, codec, services, msg) + RepliesOf(wire, codec, services, msgs)
         == sent + RepliesOf(wire, codec, services, [msg] + msgs)
  {
    EffectsConcat(wire, codec, services, [msg], msgs);
    assert [msg][..0] == [];
    assert RepliesOf(wire, codec, services, []) == [];
    EmptyLeft(ReplyTo(wire, codec, services, msg));
    Assoc(sent, ReplyTo(wire, codec, services, msg), RepliesOf(wire, codec, services, msgs));
  }

  /** Undisturbed, the loop makes of the buffer what Drain says. */
  lemma {:induction false} LoopIsAPath(wire: Wire, services: Services, s: State, codec: ServerCodec)
    returns (states: seq<State>, steps: seq<Step>)
    requires s.connected && s.serving == Looping && s.codec == Some(codec)
    ensures Path(wire, services, states, steps) && states[0] == s
    ensures var d := Drain(wire, codec, s.buffer);
            states[|steps|] == Rested(s, d.rest, RepliesOf(wire, codec, services, d.msgs))
    decreases |s.buffer|
  {
    var d := Drain(wire, codec, s.buffer);
    if d.msgs == [] {
      states, steps := LoopEnds(wire, services, s, codec);
    } else {
      var msg, size := FirstDrained(wire, codec, s.buffer);
      states, steps := LoopServes(wire, services, s, codec, msg, size);
      var next := Drain(wire, codec, s.buffer[size..]);
      var path, more := LoopIsAPath(wire, services, states[|steps|], codec);
      MoreReplies(wire, codec, services, s.toClient, msg, next.msgs);
      states, steps := Joined(wire, services, states, steps, path, more);
    }
  }

  /** What the method OnMessage is proved to do with the next n bytes. */
  function Handled(wire: Wire, services: Services, s: State, n: nat): (t: State)
    requires n <= |s.toServer|
  {
    var data := s.buffer + s.toServer[..n];
    var codec := if s.codec.Some? then s.codec.value else Detect(data);
    var d := Drain(wire, codec, data);
    s.(codec := Some(codec), buffer := d.rest, toServer := s.toServer[n..],
       toClient := s.toClient + RepliesOf(wire, codec, services, d.msgs))
  }

  /** A call of OnMessage that nobody disturbs has the effect that the method is proved to have. */
  lemma OnMessageIsAPath(wire: Wire, services: Services, s: State, n: nat)
    returns (states: seq<State>, steps: seq<Step>)
    requires s.connected && s.serving == Resting && 0 < n <= |s.toServer|
    ensures Path(wire, services, states, steps) && states[0] == s
    ensures states[|steps|] == Handled(wire, services, s, n)
  {
    var t := AfterDeliver(s, n);
    assert Next(wire, services, s, Deliver(n), t);
    if s.codec.Some? {
      states, steps := LoopIsAPath(wire, services, t, s.codec.value);
    } else {
      var u := t.(codec := Some(Detect(t.buffer)), serving := Looping);
      assert Next(wire, services, t, SetCodec, u);
      states, steps := LoopIsAPath(wire, services, u, u.codec.value);
      PathCons(wire, services, t, SetCodec, states, steps);
      states, steps := [t] + states, [SetCodec] + steps;
    }
    PathCons(wire, services, s, Deliver(n), states, steps);
    states, steps := [s] + states, [Deliver(n)] + steps;
  }

  // ----- CallMethod is a path -----

  /** The state when a call has sent its request, or has failed before. */
  function BegunAs(wire: Wire, s: State, called: Names, args: Option<Str>, reachable: bool, sendFails: bool): (t: State)
  {
    var names := CacheAfter(s.cached, called);
    var c := if s.connected then s else s.(connected := true, serving := Resting);
    if !s.connected && !reachable then AfterAttempt(s, called)
    else if args.None? || RequestFrame(wire, false, names.service, names.name, args.value).None? then
      AfterAttempt(c, called)
    else
      var t := AfterSend(wire, c, Issued(called, names, args.value));
      if sendFails then AfterFail(t) else t
  }

  /** Everything that CallMethod does before it receives, in each of its outcomes. */
  lemma CallBegins(wire: Wire, services: Services, s: State, called: Names, args: Option<Str>, reachable: bool,
                   sendFails: bool)
    returns (states: seq<State>, steps: seq<Step>)
    requires Traffic(wire, services, s) && s.phase == Idle
    requires var names := CacheAfter(s.cached, called);
             args.Some? && RequestFrame(wire, false, names.service, names.name, args.value).Some? ==>
               Issuable(wire, Issued(called, names, args.value))
    ensures Path(wire, services, states, steps) && states[0] == s
    ensures states[|steps|] == BegunAs(wire, s, called, args, reachable, sendFails)
  {
    var names := CacheAfter(s.cached, called);
    if !s.connected && !reachable {
      states, steps := [s, AfterAttempt(s, called)], [Attempt(called)];
    } else {
      var c := if s.connected then s else s.(connected := true, serving := Resting);
      if args.None? || RequestFrame(wire, false, names.service, names.name, args.value).None? {
        states, steps := [c, AfterAttempt(c, called)], [Attempt(called)];
      } else {
        var t := AfterSend(wire, c, Issued(called, names, args.value));
        states, steps := [c, t], [Send(called, args.value)];
        if sendFails {
          states, steps := [c, t, AfterFail(t)], [Send(called, args.value), Fail];
        }
      }
      if !s.connected {
        PathCons(wire, services, s, Connect, states, steps);
        states, steps := [s] + states, [Connect] + steps;
      }
    }
  }

  /** The frame of the step system is the one that CallMethod sends. */
  lemma SendsRequestFrame(wire: Wire, r: Issued)
    requires Issuable(wire, r)
    ensures RequestFrame(wire, false, r.sent.service, r.sent.name, r.body) == Some(FrameFor(wire, r))
  {}

  lemma ReceiveParts(wire: Wire, services: Services, s: State, length: Str, reply: Str, behind: Str)
    returns (s1: State, s2: State, s3: State)
    requires s.connected && s.phase == Waiting([]) && |s.issued| > 0 && s.toClient == length + reply + behind
    requires |length| == 4 && Wanted(length) == |reply| && WholeReply(length + reply)
    requires Legacy.DecodeReply(length + reply).msg.body == reply
    ensures Next(wire, services, s, Recv(4), s1)
    ensures if reply == [] then s1 == s2 else Next(wire, services, s1, Recv(|reply|), s2)
    ensures Next(wire, services, s2, Finish, s3)
    ensures s3 == AfterAnswer(s.(toClient := behind), reply)
  {
    s1 := s.(phase := Waiting(length), toClient := reply + behind);
    s2 := s.(phase := Waiting(length + reply), toClient := behind);
    s3 := AfterAnswer(s.(toClient := behind), reply);
    EmptyLeft(length);
    Assoc(length, reply, behind);
    Receives(wire, services, s, [], length, reply + behind, s1);
    Finishes(wire, services, s2, length + reply, reply, s3);
    if reply == [] {
      EmptyRight(length);
      EmptyLeft(behind);
    } else {
      Receives(wire, services, s1, length, reply, behind, s2);
    }
  }

  lemma Receives(wire: Wire, services: Services, s: State, got: Str, piece: Str, behind: Str, t: State)
    requires s.connected && s.phase == Waiting(got) && 0 < |piece| <= Wanted(got) && s.toClient == piece + behind
    requires t == s.(phase := Waiting(got + piece), toClient := behind)
    ensures Next(wire, services, s, Recv(|piece|), t)
  {
    DropAppend(piece, behind);
  }

  lemma Finishes(wire: Wire, services: Services, s: State, got: Str, body: Str, t: State)
    requires s.connected && s.phase == Waiting(got) && |s.issued| > 0 && WholeReply(got)
    requires body == Legacy.DecodeReply(got).msg.body && t == AfterAnswer(s, body)
    ensures Next(wire, services, s, Finish, t)
  {}

  lemma ReceiveReply(wire: Wire, services: Services, s: State, length: Str, reply: Str, behind: Str)
    returns (states: seq<State>, steps: seq<Step>)
    requires s.connected && s.phase == Waiting([]) && |s.issued| > 0 && s.toClient == length + reply + behind
    requires |length| == 4 && Wanted(length) == |reply| && WholeReply(length + reply)
    requires Legacy.DecodeReply(length + reply).msg.body == reply
    ensures Path(wire, services, states, steps) && states[0] == s
    ensures states[|steps|] == AfterAnswer(s.(toClient := behind), reply)
  {
    var s1, s2, s3 := ReceiveParts(wire, services, s, length, reply, behind);
    if reply == [] {
      states, steps := [s, s1, s3], [Recv(4), Finish];
    } else {
      states, steps := [s, s1, s2, s3], [Recv(4), Recv(|reply|), Finish];
    }
  }

  /** A whole response at the front of the stream, as the client's steps see it. */
  lemma FrontFrame(incoming: Str, size: nat)
    requires 4 <= size <= |incoming| && size == 4 + Legacy.TotalLen(incoming) && size <= 4 + MAX_FRAME_SIZE
    ensures incoming == incoming[..4] + incoming[4..size] + incoming[size..]
    ensures incoming[..4] + incoming[4..size] == incoming[..size]
    ensures Wanted(incoming[..4]) == size - 4 && WholeReply(incoming[..size])
  {
    assert incoming == incoming[..4] + incoming[4..] && incoming == incoming[..size] + incoming[size..];
    U32OfPrefix(incoming[..4], incoming[4..], 0);
    U32OfPrefix(incoming[..size], incoming[size..], 0);
  }

  /**
   What CallMethod makes of the bytes that arrive, whatever the kernel answers to recv: answered, it is a path to the
   end of the first response frame; with any other outcome, the step Fail.
   */
  lemma CallEnds(wire: Wire, services: Services, s: State, script: seq<RpcChannels.Answer>, incoming: Str,
                 parses: Str -> bool)
    returns (states: seq<State>, steps: seq<Step>)
    requires s.connected && s.phase == Waiting([]) && |s.issued| > 0 && s.toClient == incoming
    ensures Path(wire, services, states, steps) && states[0] == s
    ensures match EndingOf(wire, false, script, incoming, parses)
            case Broken(_) => states[|steps|] == AfterFail(s)
            case Answered(body, size) =>
              size <= |incoming| && states[|steps|] == AfterAnswer(s.(toClient := incoming[size..]), body)
  {
    LegacyEnding(wire, script, incoming, parses);
    var e := EndingOf(wire, false, script, incoming, parses);
    if e.Broken? {
      states, steps := [s, AfterFail(s)], [Fail];
    } else {
      LegacyArrivalIsOneFrame(script, incoming);
      FrontFrame(incoming, e.size);
      states, steps := ReceiveReply(wire, services, s, incoming[..4], incoming[4..e.size], incoming[e.size..]);
    }
  }

  /** CallMethod's reading of a response is Finish's: at the end of the first whole frame, and no sooner. */
  lemma AnsweredIsFinish(wire: Wire, script: seq<RpcChannels.Answer>, incoming: Str, parses: Str -> bool)
    requires EndingOf(wire, false, script, incoming, parses).Answered?
    ensures var e := EndingOf(wire, false, script, incoming, parses);
            && e.size <= |incoming| && WholeReply(incoming[..e.size])
            && e.body == Legacy.DecodeReply(incoming[..e.size]).msg.body
            && forall n | 0 <= n < e.size :: !WholeReply(incoming[..n]) && n + Wanted(incoming[..n]) <= e.size
  {
    LegacyEnding(wire, script, incoming, parses);
    LegacyArrivalIsOneFrame(script, incoming);
    var e := EndingOf(wire, false, script, incoming, parses);
    forall n | 0 <= n <= e.size && n >= 4
      ensures Legacy.TotalLen(incoming[..n]) == Legacy.TotalLen(incoming)
    {
      assert incoming == incoming[..n] + incoming[n..];
      U32OfPrefix(incoming[..n], incoming[n..], 0);
    }
  }

  // ----- Calls that complete -----

  function AfterCall(s: State, r: Issued, reply: Str): (t: State) {
    s.(cached := r.sent, codec := Some(LegacyServer), serving := Resting, issued := s.issued + [r],
       answered := s.answered + [Completed(|s.issued|, reply)], calls := s.calls + [r.called])
  }

  lemma ReplyInHand(reply: Str)
    requires |reply| <= MAX_FRAME_SIZE
    ensures Legacy.ReplyFrame(reply) == BE32(|reply|) + reply + []
    ensures Wanted(BE32(|reply|)) == |reply| && WholeReply(BE32(|reply|) + reply)
    ensures Legacy.DecodeReply(BE32(|reply|) + reply).msg.body == reply
  {
    var length := BE32(|reply|);
    U32OfBE32(|reply|, []);
    U32OfBE32(|reply|, reply);
    assert length + [] == length && length + reply + [] == length + reply;
    Legacy.ReplyRoundTrip(reply, []);
  }

  lemma WholeDrained(wire: Wire, r: Issued)
    requires Issuable(wire, r) && WithinLimit(FrameFor(wire, r))
    ensures Drain(wire, LegacyServer, FrameFor(wire, r)) == Drained([MessageOf(r)], [], false)
    ensures Detect(FrameFor(wire, r)) == LegacyServer
  {
    var q := RequestOf(r);
    FrameSizes(wire, r);
    StreamRoundTrip(wire, LegacyServer, [q]);
    assert StreamOf(wire, LegacyServer, [q][1..]) == [] && AllReceived(LegacyServer, [q][1..]) == [];
    EmptyRight(FrameFor(wire, r));
    DetectedAsXRpcExactly(wire, r, FrameFor(wire, r), []);
  }

  lemma OneReply(wire: Wire, services: Services, r: Issued)
    ensures RepliesOf(wire, LegacyServer, services, [MessageOf(r)]) == ReplyBytes(services, r)
  {
    assert [MessageOf(r)][..0] == [];
    assert RepliesOf(wire, LegacyServer, services, []) == [];
    EmptyLeft(ReplyBytes(services, r));
  }

  /** On a connected idle channel, unless the server speaks XRpc, a call within the limits can be answered. */
  lemma CallCompletes(wire: Wire, services: Services, s: State, r: Issued, reply: Str)
    returns (states: seq<State>, steps: seq<Step>)
    requires Traffic(wire, services, s) && s.connected && s.phase == Idle && s.codec != Some(XRpcServer)
    requires r.sent == CacheAfter(s.cached, r.called) && Issuable(wire, r) && WithinLimit(FrameFor(wire, r))
    requires ResponseFor(services, r) == Some(reply) && |reply| <= MAX_FRAME_SIZE
    ensures Path(wire, services, states, steps) && states[0] == s
    ensures states[|steps|] == AfterCall(s, r, reply)
  {
    var s0 := s.(serving := Resting);
    var s1 := AfterSend(wire, s0, r);
    assert Next(wire, services, s0, Send(r.called, r.body), s1);
    states, steps := RequestServed(wire, services, s1, r);
    PathCons(wire, services, s0, Send(r.called, r.body), states, steps);
    states, steps := [s0] + states, [Send(r.called, r.body)] + steps;
    ReplyInHand(reply);
    var path, more := ReceiveReply(wire, services, states[|steps|], BE32(|reply|), reply, []);
    states, steps := Joined(wire, services, states, steps, path, more);
    if s.serving == Looping {
      assert Next(wire, services, s, PickFrame, s0);
      PathCons(wire, services, s, PickFrame, states, steps);
      states, steps := [s] + states, [PickFrame] + steps;
    }
  }

  lemma RequestServed(wire: Wire, services: Services, s: State, r: Issued)
    returns (states: seq<State>, steps: seq<Step>)
    requires s.connected && s.codec != Some(XRpcServer) && s.serving == Resting
    requires Issuable(wire, r) && WithinLimit(FrameFor(wire, r))
    requires s.buffer == [] && s.toClient == [] && s.toServer == [] + FrameFor(wire, r)
    ensures Path(wire, services, states, steps) && states[0] == s
    ensures states[|steps|] == s.(codec := Some(LegacyServer), toServer := [], toClient := ReplyBytes(services, r))
  {
    FrameSizes(wire, r);
    EmptyLeft(FrameFor(wire, r));
    WholeDrained(wire, r);
    OneReply(wire, services, r);
    WholeHandled(wire, services, s, FrameFor(wire, r), MessageOf(r), ReplyBytes(services, r));
    states, steps := OnMessageIsAPath(wire, services, s, |FrameFor(wire, r)|);
  }

  lemma WholeHandled(wire: Wire, services: Services, s: State, frame: Str, msg: Message, reply: Str)
    requires s.codec != Some(XRpcServer) && s.buffer == [] && s.toClient == [] && s.toServer == frame
    requires Detect(frame) == LegacyServer && Drain(wire, LegacyServer, frame) == Drained([msg], [], false)
    requires RepliesOf(wire, LegacyServer, services, [msg]) == reply
    ensures Handled(wire, services, s, |frame|)
         == s.(codec := Some(LegacyServer), toServer := [], toClient := reply)
  {
    DropAppend(frame, []);
    EmptyRight(frame);
    EmptyLeft(frame);
    EmptyLeft(reply);
    NotXRpc(s.codec);
    HandledBy(wire, services, s, |frame|, LegacyServer, frame, Drained([msg], [], false));
  }

  lemma HandledBy(wire: Wire, services: Services, s: State, n: nat, codec: ServerCodec, data: Str, d: Drained)
    requires n <= |s.toServer| && data == s.buffer + s.toServer[..n]
    requires if s.codec.Some? then s.codec.value == codec else Detect(data) == codec
    requires d == Drain(wire, codec, data)
    ensures Handled(wire, services, s, n)
         == s.(codec := Some(codec), buffer := d.rest, toServer := s.toServer[n..],
               toClient := s.toClient + RepliesOf(wire, codec, services, d.msgs))
  {}

  // ----- Runs that go wrong -----

  /** A format that knows one header, and its bytes. */
  function ConstantFormat<H(==)>(bytes: Str, header: H): (r: HeaderFormat<H>) {
    HeaderFormat((h: H) => if h == header then Some(bytes) else None, (s: Str) => Some(header))
  }

  function WireFor(bytes: Str, r: Issued): (wire: Wire) {
    Legacy.AnyWire().(rpcHeader := ConstantFormat(bytes, RequestHeaderFor(r)))
  }

  lemma WireForIssues(bytes: Str, r: Issued)
    requires 4 + |bytes| + |r.body| < 0x1_0000_0000
    ensures Issuable(WireFor(bytes, r), r) && |FrameFor(WireFor(bytes, r), r)| == 8 + |bytes| + |r.body|
    ensures FrameFor(WireFor(bytes, r), r) == Legacy.FrameOf(bytes, r.body)
  {
    Legacy.FrameFields(bytes, r.body, []);
  }

  function Constant(body: Str): (m: Method) { Method((b: Str) => true, (b: Str) => Some(body)) }

  /** A server with one service of two methods, of which each always gives the same response. */
  const SERVICES: Services := map[[1] := map[[1] := Constant([1]), [2] := Constant([2])]]
  const FIRST: Names := Names([1], [1])
  const SECOND: Names := Names([1], [2])
  const START: State := State(Names([], []), false, Idle, [], [], [], Resting, None, 0, [], [], 0, [])

  /** Two successful calls of different methods, of which the second is answered by the method of the first. */
  lemma WrongMethodAnswers() returns (wire: Wire, states: seq<State>, steps: seq<Step>)
    ensures Run(wire, SERVICES, states, steps) && BoundedReplies(SERVICES)
    ensures var s := states[|steps|];
            && Named(s.calls) && s.failures == 0 && |s.issued| == |s.answered| == 2
            && Output(SERVICES, s.issued[1].called, s.issued[1].body).Some?
            && Some(s.answered[1].body) != Output(SERVICES, s.issued[1].called, s.issued[1].body)
  {
    var q, r := Issued(FIRST, FIRST, []), Issued(SECOND, FIRST, []);
    wire := WireFor([], q);
    WireForIssues([], q);
    WireForIssues([], r);
    assert WireFor([], r) == wire;
    var s1 := START.(connected := true);
    states, steps := [START, s1], [Connect];
    var path, more := CallCompletes(wire, SERVICES, s1, q, [1]);
    states, steps := Joined(wire, SERVICES, states, steps, path, more);
    path, more := CallCompletes(wire, SERVICES, AfterCall(s1, q, [1]), r, [1]);
    states, steps := Joined(wire, SERVICES, states, steps, path, more);
    assert states[|steps|] == AfterCall(AfterCall(s1, q, [1]), r, [1]);
  }

  lemma LateThread() returns (states: seq<State>, steps: seq<Step>)
    ensures forall wire: Wire :: Path(wire, SERVICES, states, steps)
    ensures |states| == 5 && states[0] == START && states[3].codec == Some(XRpcServer)
    ensures states[4] == START.(codec := Some(LegacyServer))
  {
    var s1, s2 := START.(pending := 1), START.(pending := 2);
    var s3, s4 := START.(pending := 1, codec := Some(XRpcServer)), START.(codec := Some(LegacyServer));
    states := [START, s1, s2, s3, s4];
    steps := [OtherTest, OtherTest, OtherSet(XRpcServer), OtherSet(LegacyServer)];
  }

  /** The codec of a server that speaks XRpc can be overwritten by a late thread, and Legacy calls are answered. */
  lemma XRpcIsOverwritten() returns (wire: Wire, states: seq<State>, steps: seq<Step>)
    ensures Run(wire, SERVICES, states, steps) && |states| > 3 && states[3].codec == Some(XRpcServer)
    ensures states[|steps|].codec == Some(LegacyServer) && |states[|steps|].answered| == 1
  {
    var q := Issued(FIRST, FIRST, []);
    wire := WireFor([], q);
    WireForIssues([], q);
    var early, earlySteps := LateThread();
    var s := early[4].(connected := true);
    var path, more := CallCompletes(wire, SERVICES, s, q, [1]);
    PathCons(wire, SERVICES, early[4], Connect, path, more);
    states, steps := Joined(wire, SERVICES, early, earlySteps, [early[4]] + path, [Connect] + more);
    assert states[..|early|][3] == states[3];
  }

  // ----- A request that spells the magic -----

  /** A format that reads every XRpc header as a request for the second method. */
  const SECOND_HEADER: RequestProtocol :=
    RequestProtocol(0, 0, [], [], [1] + [XRpc.SLASH] + [2], 0, 0, map[], [], 0)

  /** About 1.26 GB: the length field is 0x4B520000, and the header is 16 zero bytes. */
  const HUGE: Issued := Issued(FIRST, FIRST, Zeros(0x4B52_0000 - 20))

  const HUGE_WIRE: Wire :=
    WireFor(Zeros(16), HUGE).(request := ConstantFormat([], SECOND_HEADER))

  lemma HugeHeader(frame: Str)
    requires frame == Legacy.FrameOf(Zeros(16), HUGE.body)
    ensures |frame| > 16
    ensures var h := HeaderAt(HUGE_WIRE.host, frame);
            h.magic == MAGIC && h.msgType == REQUEST && h.totalSize == 16 && h.headerSize == 0
  {
    Legacy.FrameFields(Zeros(16), HUGE.body, []);
    assert frame + [] == frame;
    var total := BE32(0x4B52_0000);
    assert frame[0] == total[0] && frame[1] == total[1] && frame[2] == total[2];
    assert frame[8] == Zeros(16)[0] && frame[9] == Zeros(16)[1];
  }

  lemma SecondNames(msg: Message)
    ensures var m := XRpc.WithRequest(msg, SECOND_HEADER); m.serviceName == [1] && m.methodName == [2]
  {
    XRpc.LastSlashOf([1], [2]);
    var name := [1] + [XRpc.SLASH] + [2];
    assert name[..1] == [1] && name[2..] == [2];
  }

  /** Read as XRpc, the first 16 bytes are a request for the second method. */
  lemma HugeAsXRpc(frame: Str)
    requires frame == Legacy.FrameOf(Zeros(16), HUGE.body)
    ensures |frame| > 16 && AfterPick(HUGE_WIRE, XRpcServer, frame) == Picked(16)
    ensures XRpcServer.Decode(HUGE_WIRE, frame).code == CODEC_OK
    ensures AfterDispatch(SERVICES, XRpcServer.Decode(HUGE_WIRE, frame).msg) == Replying([2])
  {
    HugeHeader(frame);
    var h := HeaderAt(HUGE_WIRE.host, frame);
    var withBody := DEFAULT_MESSAGE.(body := XRpc.BodyPart(h, frame));
    SecondNames(withBody);
    assert XRpc.WithVariableHeader(HUGE_WIRE, h, XRpc.HeaderPart(h, frame), withBody)
        == Some(XRpc.WithRequest(withBody, SECOND_HEADER));
  }

  /** Sent by a Legacy channel, the request is detected as XRpc. */
  lemma HugeRequestIsTakenForXRpc()
    ensures Issuable(HUGE_WIRE, HUGE) && |HUGE.body| < 0x8000_0000
    ensures FrameFor(HUGE_WIRE, HUGE) == Legacy.FrameOf(Zeros(16), HUGE.body)
    ensures SpellsMagic(FrameFor(HUGE_WIRE, HUGE)) && Detect(FrameFor(HUGE_WIRE, HUGE)) == XRpcServer
  {
    WireForIssues(Zeros(16), HUGE);
    EmptyRight(FrameFor(HUGE_WIRE, HUGE));
    DetectedAsXRpcExactly(HUGE_WIRE, HUGE, FrameFor(HUGE_WIRE, HUGE), []);
  }

  lemma IsDelivered(wire: Wire, services: Services, s: State, r: Issued, frame: Str)
    returns (states: seq<State>, steps: seq<Step>)
    requires Issuable(wire, r) && frame == FrameFor(wire, r) && r.called == r.sent == CacheAfter(s.cached, r.called)
    requires s.connected && s.phase == Idle && s.codec == None && s.serving == Resting
    requires s.toServer == [] && s.buffer == []
    ensures Path(wire, services, states, steps) && states[0] == s
    ensures states[|steps|] == AfterSend(wire, s, r).(buffer := frame, toServer := [], serving := Detecting)
  {
    FrameSizes(wire, r);
    EmptyLeft(frame);
    DropAppend(frame, []);
    EmptyRight(frame);
    var t := AfterSend(wire, s, r);
    var u := t.(buffer := frame, toServer := [], serving := Detecting);
    assert r == Issued(r.called, CacheAfter(s.cached, r.called), r.body);
    assert Next(wire, services, s, Send(r.called, r.body), t);
    assert AfterDeliver(t, |frame|) == u;
    states, steps := [s, t, u], [Send(r.called, r.body), Deliver(|frame|)];
  }

  const HUGE_FRAME: Str := FrameFor(HUGE_WIRE, HUGE)

  lemma IsDispatched(s: State) returns (states: seq<State>, steps: seq<Step>)
    requires s.connected && s.codec == None && s.serving == Detecting && s.buffer == HUGE_FRAME
    ensures |HUGE_FRAME| > 16 && Path(HUGE_WIRE, SERVICES, states, steps) && states[0] == s
    ensures states[|steps|]
         == s.(buffer := HUGE_FRAME[16..], codec := Some(XRpcServer), serving := Replying([2]))
  {
    var t := HugeIsDetected(s);
    var u := HugeIsPicked(t);
    var v := HugeIsDecoded(u);
    states, steps := [v], [];
    PathCons(HUGE_WIRE, SERVICES, u, DecodeFrame, states, steps);
    states, steps := [u] + states, [DecodeFrame] + steps;
    PathCons(HUGE_WIRE, SERVICES, t, PickFrame, states, steps);
    states, steps := [t] + states, [PickFrame] + steps;
    PathCons(HUGE_WIRE, SERVICES, s, SetCodec, states, steps);
    states, steps := [s] + states, [SetCodec] + steps;
  }

  lemma HugeIsDetected(s: State) returns (t: State)
    requires s.connected && s.serving == Detecting && s.buffer == HUGE_FRAME
    ensures t == s.(codec := Some(XRpcServer), serving := Looping) && Next(HUGE_WIRE, SERVICES, s, SetCodec, t)
  {
    HugeRequestIsTakenForXRpc();
    t := s.(codec := Some(Detect(s.buffer)), serving := Looping);
  }

  lemma HugeIsPicked(s: State) returns (t: State)
    requires s.connected && s.codec == Some(XRpcServer) && s.serving == Looping && s.buffer == HUGE_FRAME
    ensures |HUGE_FRAME| > 16
    ensures t == s.(serving := Picked(16)) && Next(HUGE_WIRE, SERVICES, s, PickFrame, t)
  {
    HugeRequestIsTakenForXRpc();
    HugeAsXRpc(HUGE_FRAME);
    t := s.(serving := AfterPick(HUGE_WIRE, XRpcServer, s.buffer));
  }

  lemma HugeIsDecoded(s: State) returns (t: State)
    requires s.connected && s.codec == Some(XRpcServer) && s.serving == Picked(16) && s.buffer == HUGE_FRAME
    requires |HUGE_FRAME| > 16
    ensures t == s.(buffer := HUGE_FRAME[16..], serving := Replying([2]))
    ensures Next(HUGE_WIRE, SERVICES, s, DecodeFrame, t)
  {
    HugeRequestIsTakenForXRpc();
    HugeAsXRpc(HUGE_FRAME);
    t := AfterDecode(HUGE_WIRE, SERVICES, s, XRpcServer, 16);
  }

  /** A late thread sets a Legacy codec before the reply is encoded, and the client takes the reply for its own. */
  lemma LateSet(wire: Wire, services: Services, s: State, reply: Str) returns (states: seq<State>, steps: seq<Step>)
    requires s.connected && s.phase == Waiting([]) && |s.issued| > 0 && s.toClient == [] && |reply| <= MAX_FRAME_SIZE
    requires s.pending > 0 && s.serving == Replying(reply)
    ensures Path(wire, services, states, steps) && states[0] == s
    ensures states[|steps|] == AfterAnswer(s.(codec := Some(LegacyServer), pending := s.pending - 1,
                                              serving := Looping), reply)
  {
    var u := s.(codec := Some(LegacyServer), pending := s.pending - 1);
    EmptyLeft(Legacy.ReplyFrame(reply));
    var v := u.(serving := Looping, toClient := Legacy.ReplyFrame(reply));
    assert Next(wire, services, s, OtherSet(LegacyServer), u) && Next(wire, services, u, SendReply, v);
    assert v.(toClient := []) == s.(codec := Some(LegacyServer), pending := s.pending - 1, serving := Looping);
    ReplyInHand(reply);
    var path, more := ReceiveReply(wire, services, v, BE32(|reply|), reply, []);
    PathCons(wire, services, u, SendReply, path, more);
    path, more := [u] + path, [SendReply] + more;
    PathCons(wire, services, s, OtherSet(LegacyServer), path, more);
    states, steps := [s] + path, [OtherSet(LegacyServer)] + more;
  }

  lemma HugeResponse()
    ensures ResponseFor(SERVICES, HUGE) == Some([1]) && |HUGE.body| < 0x8000_0000
  {}

  lemma MisreadFrom(s: State) returns (states: seq<State>, steps: seq<Step>)
    requires s.connected && s.phase == Idle && s.codec == None && s.serving == Resting
    requires s.toServer == [] && s.buffer == [] && s.cached == Names([], [])
    ensures |HUGE_FRAME| > 16 && Path(HUGE_WIRE, SERVICES, states, steps) && states[0] == s
    ensures states[|steps|] == AfterSend(HUGE_WIRE, s, HUGE).(buffer := HUGE_FRAME[16..], toServer := [],
                                                              codec := Some(XRpcServer), serving := Replying([2]))
  {
    HugeRequestIsTakenForXRpc();
    states, steps := IsDelivered(HUGE_WIRE, SERVICES, s, HUGE, HUGE_FRAME);
    var path, more := IsDispatched(states[|steps|]);
    states, steps := Joined(HUGE_WIRE, SERVICES, states, steps, path, more);
  }

  lemma Misread() returns (states: seq<State>, steps: seq<Step>)
    ensures |HUGE_FRAME| > 16 && Run(HUGE_WIRE, SERVICES, states, steps)
    ensures states[|steps|] == State(FIRST, true, Waiting([]), [], HUGE_FRAME[16..], [],
                                     Replying([2]), Some(XRpcServer), 1, [HUGE], [], 0, [FIRST])
  {
    var s := START.(pending := 1);
    var t := s.(connected := true);
    states, steps := MisreadFrom(t);
    PathCons(HUGE_WIRE, SERVICES, s, Connect, states, steps);
    states, steps := [s] + states, [Connect] + steps;
    PathCons(HUGE_WIRE, SERVICES, START, OtherTest, states, steps);
    states, steps := [START] + states, [OtherTest] + steps;
  }

  /**
   The condition of FifoPairing is needed: if a late thread of another connection sets a Legacy codec while a request
   that spells the magic is served as XRpc, the call can get the response of a method that it did not name.
   */
  lemma DisturbedMispairs() returns (states: seq<State>, steps: seq<Step>)
    ensures Run(HUGE_WIRE, SERVICES, states, steps) && |HUGE.body| < 0x8000_0000
    ensures var s := states[|steps|];
            && s.calls == [HUGE.called] && s.issued == [HUGE] && s.answered == [Completed(0, [2])]
            && ResponseFor(SERVICES, HUGE) == Some([1])
  {
    HugeResponse();
    states, steps := Misread();
    var path, more := LateSet(HUGE_WIRE, SERVICES, states[|steps|], [2]);
    states, steps := Joined(HUGE_WIRE, SERVICES, states, steps, path, more);
  }
}
