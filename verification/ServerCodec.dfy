/** The server codec interface, and the detection of a connection's protocol from its first bytes. */
module ServerCodecs {
  import opened Wrappers
  import opened Bytes
  import opened NoncontiguousBuffers
  import opened Protocol
  import FixedHeaders
  import Legacy = LegacyCodec
  import XRpc = XRpcCodec

  datatype ServerCodec = LegacyServer | XRpcServer {
    function Pick(wire: Wire, s: Str): (r: int) {
      if LegacyServer? then Legacy.Pick(s) else XRpc.Pick(wire.host, s)
    }

    function Decode(wire: Wire, s: Str): (r: Decoded) {
      if LegacyServer? then Legacy.Decode(wire, s) else XRpc.Decode(wire, s)
    }

    /** The bytes sent for a response message; None when it cannot be encoded. */
    function Reply(wire: Wire, msg: Message): (r: Option<Str>) {
      if LegacyServer? then Some(Legacy.ReplyFrame(msg.body))
      else
        match XRpc.EncodeReply(wire, msg)
        case Failed(_) => None
        case Frame(bytes) => Some(bytes)
    }

    method CheckAndPick(wire: Wire, input: NoncontiguousBuffer) returns (size: int)
      requires input.Valid()
      ensures size == Pick(wire, input.contents)
    {
      if LegacyServer? {
        size := Legacy.CheckAndPick(input);
      } else {
        size := XRpc.CheckAndPick(wire.host, input);
      }
    }

    method ZeroCopyDecode(wire: Wire, input: NoncontiguousBuffer, msg: ProtocolMessage) returns (code: int)
      requires input.Valid()
      modifies input, msg
      ensures input.Valid()
      ensures Decoded(code, msg.fields, input.contents) == Decode(wire, old(input.contents))
    {
      if LegacyServer? {
        code := Legacy.ZeroCopyDecode(wire, input, msg);
      } else {
        code := XRpc.ZeroCopyDecode(wire, input, msg);
      }
    }

    method ZeroCopyEncode(wire: Wire, msg: ProtocolMessage, output: NoncontiguousBuffer) returns (code: int)
      requires output.Valid()
      modifies output
      ensures output.Valid()
      ensures match Reply(wire, msg.fields)
              case None => code != CODEC_OK && output.contents == old(output.contents)
              case Some(bytes) => code == CODEC_OK && output.contents == old(output.contents) + bytes
    {
      if LegacyServer? {
        code := Legacy.ZeroCopyEncodeReply(msg, output);
      } else {
        code := XRpc.ZeroCopyEncodeReply(wire, msg, output);
      }
    }

    /** The frame at the front is one whose meaning does not depend on the bytes behind it. */
    predicate WellFormed(s: Str) { LegacyServer? ==> Legacy.HeaderFits(s) }

    // The two codecs under one contract.

    lemma PickIsPrefixStable(wire: Wire, s: Str, t: Str)
      ensures Pick(wire, s) != 0 ==> Pick(wire, s + t) == Pick(wire, s)
      ensures Pick(wire, s) > 0 ==>
                && (if LegacyServer? then 8 else 16) <= Pick(wire, s) <= |s|
                && Pick(wire, s[..Pick(wire, s)]) == Pick(wire, s)
    {
      Legacy.PickIsPrefixStable(s, t);
      XRpc.PickIsPrefixStable(wire.host, s, t);
    }

    /** A successful decode consumes exactly the size that CheckAndPick returned, well-formed or not. */
    lemma DecodeConsumesPick(wire: Wire, s: Str)
      requires Pick(wire, s) > 0 && Decode(wire, s).code == CODEC_OK
      ensures Pick(wire, s) <= |s| && Decode(wire, s).rest == s[Pick(wire, s)..]
    {
      PickIsPrefixStable(wire, s, []);
    }

    lemma DecodeIsLocal(wire: Wire, frame: Str, rest: Str)
      requires Pick(wire, frame) == |frame| && |frame| > 0 && WellFormed(frame)
      ensures var d, e := Decode(wire, frame), Decode(wire, frame + rest);
              && e.code == d.code && e.msg == d.msg
              && e.rest == if d.code == CODEC_OK then rest else frame + rest
      ensures WellFormed(frame + rest)
    {
      if LegacyServer? {
        Legacy.DecodeIsLocal(wire, frame, rest);
      } else {
        XRpc.DecodeIsLocal(wire, frame, rest);
      }
    }
  }

  // ----- Protocol detection -----

  function Detect(s: Str): (r: ServerCodec) {
    if |s| >= 2 && U16At(s, 0) == MAGIC then XRpcServer else LegacyServer
  }

  method CreateServerCodec(input: NoncontiguousBuffer) returns (codec: ServerCodec)
    requires input.Valid()
    ensures codec == Detect(input.contents)
  {
    var readable := input.ReadableBytes();
    if readable >= 2 {
      var magic := input.PeekU16(0);
      if magic == MAGIC {
        return XRpcServer;
      }
    }
    return LegacyServer;
  }

  /** An XRpc stream is recognised exactly when its first chunk holds the two magic bytes. */
  lemma DetectsXRpcExactly(host: Host, s: Str, k: nat)
    requires XRpc.Pick(host, s) > 0 && k <= |s|
    ensures Detect(s[..k]) == XRpcServer <==> k >= 2
  {
    if k >= 2 {
      assert s[..k][0] == s[0] && s[..k][1] == s[1];
    }
  }

  /** When it is not recognised, the Legacy codec takes the magic for a length beyond the limit. */
  lemma MissedXRpcIsRejected(host: Host, s: Str)
    requires XRpc.Pick(host, s) > 0
    ensures Legacy.Pick(s) == CODEC_OVERSIZED
  {
    assert FixedHeaders.HeaderAt(host, s).magic == MAGIC;
  }

  /** A stream that begins with a Legacy frame is never taken for XRpc, however short its first chunk is. */
  lemma DetectsLegacy(s: Str, k: nat)
    requires Legacy.Pick(s) > 0 && k <= |s|
    ensures Detect(s[..k]) == LegacyServer
  {
    if k >= 2 {
      assert s[..k][0] == s[0] && s[..k][1] == s[1];
    }
  }

  /** The XRpc codec rejects a Legacy frame for its magic as soon as it has a fixed header's worth of bytes. */
  lemma MissedLegacyIsRejected(host: Host, s: Str)
    requires Legacy.Pick(s) > 0
    ensures XRpc.Pick(host, s) == if |s| < FIXED_HEADER_SIZE then 0 else CODEC_INVALID_MAGIC
  {
    assert U16At(s, 0) <= 0x100;
  }
}
