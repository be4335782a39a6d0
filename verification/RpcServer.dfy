/** The server's parse and dispatch loop over the bytes of one connection. */
module RpcServers {
  import opened Wrappers
  import opened Bytes
  import opened NoncontiguousBuffers
  import opened Protocol
  import opened ServerCodecs

  /** One registered method: whether a request body parses, and the response body it produces. */
  datatype Method = Method(parses: Str -> bool, respond: Str -> Option<Str>)

  type Services = map<Str, map<Str, Method>>

  datatype Call = Call(service: Str, name: Str, body: Str)

  // ----- Specification: what the loop makes of a buffer -----

  /** The messages decoded, what stays in the buffer, and whether the connection was given up. */
  datatype Drained = Drained(msgs: seq<Message>, rest: Str, failed: bool)

  function Drain(wire: Wire, codec: ServerCodec, s: Str): (r: Drained)
    decreases |s|
  {
    var size := codec.Pick(wire, s);
    if s == [] || size == 0 then Drained([], s, false)
    else if size < 0 || size > |s| then Drained([], s, true)
    else
      var d := codec.Decode(wire, s);
      if d.code != CODEC_OK then Drained([], s, true)
      else
        var next := Drain(wire, codec, s[size..]);
        Drained([d.msg] + next.msgs, next.rest, next.failed)
  }

  /** `d` is what draining `s` gives; the trigger keeps the recursion out of the loop's proof. */
  ghost predicate Drains(wire: Wire, codec: ServerCodec, s: Str, d: Drained) {
    forall t {:trigger Drain(wire, codec, t)} | t == s :: d == Drain(wire, codec, t)
  }

  lemma NothingLeft(wire: Wire, codec: ServerCodec, s: Str, d: Drained)
    requires s == [] && Drains(wire, codec, s, d)
    ensures d == Drained([], [], false)
  {
    assert d == Drain(wire, codec, s);
  }

  /** What one iteration finds at the front of the buffer. */
  datatype First = Incomplete | Rejected | Complete(msg: Message, size: nat)

  /** The method that a message is for, if it is registered and takes the body. */
  function Target(services: Services, msg: Message): (r: Option<Method>) {
    if msg.serviceName !in services || msg.methodName !in services[msg.serviceName] then None
    else
      var m := services[msg.serviceName][msg.methodName];
      if m.parses(msg.body) then Some(m) else None
  }

  function CallsOf(services: Services, msgs: seq<Message>): (r: seq<Call>) {
    if msgs == [] then []
    else
      CallsOf(services, msgs[..|msgs| - 1]) + CallOf(services, msgs[|msgs| - 1])
  }

  /** The response carries the body only: its request id is always zero. */
  function ResponseMessage(body: Str): (r: Message) {
    DEFAULT_MESSAGE.(body := body, messageType := RESPONSE)
  }

  function ReplyTo(wire: Wire, codec: ServerCodec, services: Services, msg: Message): (r: Str) {
    match Target(services, msg)
    case None => []
    case Some(m) =>
      match m.respond(msg.body)
      case None => []
      case Some(body) =>
        match codec.Reply(wire, ResponseMessage(body))
        case None => []
        case Some(bytes) => bytes
  }

  function RepliesOf(wire: Wire, codec: ServerCodec, services: Services, msgs: seq<Message>): (r: Str) {
    if msgs == [] then []
    else RepliesOf(wire, codec, services, msgs[..|msgs| - 1]) + ReplyTo(wire, codec, services, msgs[|msgs| - 1])
  }

  function CallOf(services: Services, msg: Message): (r: seq<Call>) {
    if Target(services, msg).Some? then [Call(msg.serviceName, msg.methodName, msg.body)] else []
  }

  /** One more message dispatched after `msgs`, on top of what was called and sent before. */
  lemma OneMore(wire: Wire, codec: ServerCodec, services: Services, msgs: seq<Message>, msg: Message,
                called: seq<Call>, sent: Str)
    ensures called + CallsOf(services, msgs) + CallOf(services, msg) == called + CallsOf(services, msgs + [msg])
    ensures sent + RepliesOf(wire, codec, services, msgs) + ReplyTo(wire, codec, services, msg)
         == sent + RepliesOf(wire, codec, services, msgs + [msg])
  {
    assert (msgs + [msg])[..|msgs|] == msgs;
    Assoc(called, CallsOf(services, msgs), CallOf(services, msg));
    Assoc(sent, RepliesOf(wire, codec, services, msgs), ReplyTo(wire, codec, services, msg));
  }

  // ----- The server -----

  class Connection {
    var sent: Str        // everything handed to send
    var shutdowns: nat   // calls of shutdown

    constructor ()
      ensures sent == [] && shutdowns == 0
    {
      sent, shutdowns := [], 0;
    }
  }

  /** The receive buffer of a connection. */
  class InputBuffer {
    var data: Str

    constructor ()
      ensures data == []
    {
      data := [];
    }

    method Retrieve(n: nat)
      requires n <= |data|
      modifies this
      ensures data == old(data)[n..]
    {
      data := data[n..];
    }
  }

  class RpcServer {
    const wire: Wire
    const services: Services
    var codec: Option<ServerCodec>  // one for the whole server, fixed by the first bytes seen on any connection
    var calls: seq<Call>            // business methods invoked

    constructor (wire: Wire, services: Services)
      ensures this.wire == wire && this.services == services && codec == None && calls == []
    {
      this.wire, this.services := wire, services;
      codec, calls := None, [];
    }

    /** Decodes and dispatches every complete frame in the buffer. */
    method OnMessage(conn: Connection, buffer: InputBuffer)
      modifies this, conn, buffer
      ensures codec == if old(codec).Some? then old(codec) else Some(Detect(old(buffer.data)))
      ensures var d := Drain(wire, codec.value, old(buffer.data));
              && buffer.data == d.rest
              && calls == old(calls) + CallsOf(services, d.msgs)
              && conn.sent == old(conn.sent) + RepliesOf(wire, codec.value, services, d.msgs)
              && conn.shutdowns == old(conn.shutdowns) + if d.failed then 1 else 0
    {
      if codec.None? {
        var probe := new NoncontiguousBuffer.From(buffer.data);
        var detected := CreateServerCodec(probe);
        codec := Some(detected);
      }
      DrainBuffer(conn, buffer, Drain(wire, codec.value, buffer.data));
    }

    /** The loop of OnMessage; `whole` is proof data only. */
    method DrainBuffer(conn: Connection, buffer: InputBuffer, ghost whole: Drained)
      requires codec.Some? && Drains(wire, codec.value, buffer.data, whole)
      modifies this`calls, conn, buffer
      ensures buffer.data == whole.rest
      ensures calls == old(calls) + CallsOf(services, whole.msgs)
      ensures conn.sent == old(conn.sent) + RepliesOf(wire, codec.value, services, whole.msgs)
      ensures conn.shutdowns == old(conn.shutdowns) + if whole.failed then 1 else 0
    {
      ghost var done: seq<Message>, left := [], whole;
      while |buffer.data| > 0
        invariant Drains(wire, codec.value, buffer.data, left)
        invariant whole == left.(msgs := done + left.msgs)
        invariant calls == old(calls) + CallsOf(services, done)
        invariant conn.sent == old(conn.sent) + RepliesOf(wire, codec.value, services, done)
        invariant conn.shutdowns == old(conn.shutdowns)
        decreases |buffer.data|
      {
        var first;
        first, left := DecodeFirst(buffer.data, left);
        assert left.msgs == [] ==> done + left.msgs == done;
        if first.Incomplete? {
          return;
        }
        if first.Rejected? {
          conn.shutdowns := conn.shutdowns + 1;
          return;
        }
        buffer.Retrieve(first.size);
        Serve(conn, first.msg);
        Assoc(done, [first.msg], left.msgs);
        OneMore(wire, codec.value, services, done, first.msg, old(calls), old(conn.sent));
        done := done + [first.msg];
      }
      NothingLeft(wire, codec.value, buffer.data, left);
      assert done + left.msgs == done;
    }

    /** The codec's verdict on a buffer and, for a complete frame, its decoding. */
    method DecodeFirst(data: Str, ghost d: Drained) returns (first: First, ghost next: Drained)
      requires codec.Some? && data != [] && Drains(wire, codec.value, data, d)
      ensures match first
              case Incomplete => d == Drained([], data, false) && next == d
              case Rejected => d == Drained([], data, true) && next == d
              case Complete(msg, size) =>
                && 0 < size <= |data| && Drains(wire, codec.value, data[size..], next)
                && d == Drained([msg] + next.msgs, next.rest, next.failed)
    {
      assert d == Drain(wire, codec.value, data);
      next := d;
      var nbuf := new NoncontiguousBuffer.From(data);
      var frameSize := codec.value.CheckAndPick(wire, nbuf);
      codec.value.PickIsPrefixStable(wire, data, []);
      if frameSize == 0 {
        return Incomplete, next;
      }
      if frameSize < 0 {
        return Rejected, next;
      }
      var msg := new ProtocolMessage();
      var code := codec.value.ZeroCopyDecode(wire, nbuf, msg);
      if code != CODEC_OK {
        return Rejected, next;
      }
      next := Drain(wire, codec.value, data[frameSize..]);
      return Complete(msg.fields, frameSize), next;
    }

    /** Looks the method up, parses the body, runs the method and sends its response. */
    method Serve(conn: Connection, msg: Message)
      requires codec.Some?
      modifies this`calls, conn`sent
      ensures calls == old(calls) + CallOf(services, msg)
      ensures conn.sent == old(conn.sent) + ReplyTo(wire, codec.value, services, msg)
    {
      if msg.serviceName !in services {
        return;
      }
      if msg.methodName !in services[msg.serviceName] {
        return;
      }
      var target := services[msg.serviceName][msg.methodName];
      if !target.parses(msg.body) {
        return;
      }
      calls := calls + [Call(msg.serviceName, msg.methodName, msg.body)];
      SendRpcResponse(conn, target.respond(msg.body));
    }

    method SendRpcResponse(conn: Connection, response: Option<Str>)
      requires codec.Some?
      modifies conn`sent
      ensures conn.sent == old(conn.sent)
           + match response
             case None => []
             case Some(body) =>
               match codec.value.Reply(wire, ResponseMessage(body))
               case None => []
               case Some(bytes) => bytes
    {
      if response.None? {
        return;
      }
      var respMsg := new ProtocolMessage();
      respMsg.fields := respMsg.fields.(body := response.value, messageType := RESPONSE);
      var output := new NoncontiguousBuffer();
      var code := codec.value.ZeroCopyEncode(wire, respMsg, output);
      if code != CODEC_OK {
        return;
      }
      var bytes := output.ToString();
      conn.sent := conn.sent + bytes;
    }
  }
}
