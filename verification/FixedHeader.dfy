/** The 16-byte fixed header of the XRpc framing, in memory and on the wire. */
module FixedHeaders {
  import opened Bytes
  import opened Protocol

  datatype Fields = Fields(
    magic: uint16, msgType: uint8, streamType: uint8, totalSize: uint32,
    headerSize: uint16, streamId: uint32, reserved: uint16)
  {
    predicate IsValid() { magic == MAGIC }

    function BodySize(): (r: nat) {
      if totalSize < FIXED_HEADER_SIZE + headerSize then 0 else totalSize - FIXED_HEADER_SIZE - headerSize
    }

    /** The conversion between host and network order, the same in both directions; `reserved` stays as it is. */
    function Converted(host: Host): (r: Fields) {
      this.(magic := HToN16(host, magic), totalSize := HToN32(host, totalSize),
            headerSize := HToN16(host, headerSize), streamId := HToN32(host, streamId))
    }

    /** The packed struct as the bytes of memory. */
    function Memory(host: Host): (s: Str)
      ensures |s| == FIXED_HEADER_SIZE
    {
      Store16(host, magic) + [msgType, streamType] + Store32(host, totalSize)
      + Store16(host, headerSize) + Store32(host, streamId) + Store16(host, reserved)
    }
  }

  /** Sixteen bytes of memory taken as the packed struct. */
  function FromMemory(host: Host, s: Str): (r: Fields)
    requires |s| == FIXED_HEADER_SIZE
  {
    Fields(Load16(host, s[0..2]), s[2], s[3], Load32(host, s[4..8]),
           Load16(host, s[8..10]), Load32(host, s[10..14]), Load16(host, s[14..16]))
  }

  /** The wire layout: big-endian, except for the unused `reserved`. */
  function WireBytes(host: Host, h: Fields): (s: Str)
    ensures |s| == FIXED_HEADER_SIZE
  {
    BE16(h.magic) + [h.msgType, h.streamType] + BE32(h.totalSize)
    + BE16(h.headerSize) + BE32(h.streamId) + Store16(host, h.reserved)
  }

  /** The header at the front of a byte sequence. */
  function HeaderAt(host: Host, s: Str): (r: Fields) {
    Fields(U16At(s, 0), At(s, 2), At(s, 3), U32At(s, 4), U16At(s, 8), U32At(s, 10),
           Load16(host, [At(s, 14), At(s, 15)]))
  }

  class FixedHeader {
    var fields: Fields

    constructor ()
      ensures fields == Fields(0, 0, 0, 0, 0, 0, 0)
    {
      fields := Fields(0, 0, 0, 0, 0, 0, 0);
    }

    /** Host to network order, in place: afterwards the memory holds the wire bytes. */
    method HToN(host: Host)
      modifies this
      ensures fields == old(fields).Converted(host)
      ensures fields.Memory(host) == WireBytes(host, old(fields))
    {
      fields := fields.Converted(host);
      ConvertedMemory(host, old(fields));
    }

    /** Network to host order, in place: afterwards the fields hold what the memory said in wire order. */
    method NToH(host: Host)
      modifies this
      ensures fields == old(fields).Converted(host)
      ensures fields == HeaderAt(host, old(fields).Memory(host))
    {
      fields := fields.Converted(host);
      ConvertedMemory(host, fields);
      ConvertedTwice(host, old(fields));
      HeaderAtWireBytes(host, fields, []);
      assert WireBytes(host, fields) + [] == WireBytes(host, fields);
    }
  }

  lemma ConvertedMemory(host: Host, h: Fields)
    ensures h.Converted(host).Memory(host) == WireBytes(host, h)
  {
    StoreIsNetworkOrder(host, h.magic, h.totalSize);
    StoreIsNetworkOrder(host, h.headerSize, h.streamId);
  }

  lemma ConvertedTwice(host: Host, h: Fields)
    ensures h.Converted(host).Converted(host) == h
  {
    HToNInvolution(host, h.magic, h.totalSize);
    HToNInvolution(host, h.headerSize, h.streamId);
  }

  lemma LoadStore16(host: Host, x: uint16)
    ensures Load16(host, Store16(host, x)) == x
  {}

  lemma U16OfBE16(x: uint16, s: Str, offset: nat)
    requires offset + 2 <= |s| && s[offset..offset + 2] == BE16(x)
    ensures U16At(s, offset) == x
  {
    assert s[offset] == BE16(x)[0] && s[offset + 1] == BE16(x)[1];
  }

  lemma U32OfBE32At(x: uint32, s: Str, offset: nat)
    requires offset + 4 <= |s| && s[offset..offset + 4] == BE32(x)
    ensures U32At(s, offset) == x
  {
    var b := s[offset..offset + 4];
    assert s[offset] == b[0] && s[offset + 1] == b[1] && s[offset + 2] == b[2] && s[offset + 3] == b[3];
    RoundTripBE32(x);
  }

  /** Reading the wire bytes back gives every field, on either host. */
  lemma HeaderAtWireBytes(host: Host, h: Fields, t: Str)
    ensures HeaderAt(host, WireBytes(host, h) + t) == h
  {
    var s := WireBytes(host, h) + t;
    U16OfBE16(h.magic, s, 0);
    U32OfBE32At(h.totalSize, s, 4);
    U16OfBE16(h.headerSize, s, 8);
    U32OfBE32At(h.streamId, s, 10);
    assert [s[14], s[15]] == Store16(host, h.reserved);
    LoadStore16(host, h.reserved);
  }

  lemma StoreLoad(host: Host, s: Str, t: Str)
    requires |s| == 2 && |t| == 4
    ensures Store16(host, Load16(host, s)) == s
    ensures Store32(host, Load32(host, t)) == t
  {
    BytesOfFromBE32(t);
    BytesOfFromBE32([t[3], t[2], t[1], t[0]]);
  }

  lemma MemoryRoundTrip(host: Host, s: Str)
    requires |s| == FIXED_HEADER_SIZE
    ensures FromMemory(host, s).Memory(host) == s
  {
    StoreLoad(host, s[0..2], s[4..8]);
    StoreLoad(host, s[8..10], s[10..14]);
    StoreLoad(host, s[14..16], s[10..14]);
    assert s == s[0..2] + [s[2], s[3]] + s[4..8] + s[8..10] + s[10..14] + s[14..16];
  }
}
