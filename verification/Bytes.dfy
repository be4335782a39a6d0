/** Bytes, fixed-width integers, and the network byte order used by both wire formats. */
module Bytes {
  type uint8 = x: int | 0 <= x < 0x100
  type uint16 = x: int | 0 <= x < 0x1_0000
  type uint32 = x: int | 0 <= x < 0x1_0000_0000
  type uint64 = x: int | 0 <= x < 0x1_0000_0000_0000_0000
  type int32 = x: int | -0x8000_0000 <= x < 0x8000_0000

  /** A C++ `std::string` or byte buffer. */
  type Str = seq<uint8>

  function Truncate16(n: nat): (r: uint16) { if n < 0x1_0000 then n else n % 0x1_0000 }

  /** Conversion to `uint32_t`: also what 32-bit unsigned arithmetic does to a negative difference. */
  function Truncate32(n: int): (r: uint32) { if 0 <= n < 0x1_0000_0000 then n else n % 0x1_0000_0000 }

  function Min(a: nat, b: nat): (r: nat) { if a <= b then a else b }

  // ----- Network byte order -----

  function BE16(x: uint16): (s: Str)
    ensures |s| == 2
  {
    [x / 0x100, x % 0x100]
  }

  function BE32(x: uint32): (s: Str)
    ensures |s| == 4
  {
    [x / 0x100_0000, x / 0x1_0000 % 0x100, x / 0x100 % 0x100, x % 0x100]
  }

  function FromBE16(s: Str): (r: uint16)
    requires |s| == 2
  {
    s[0] as int * 0x100 + s[1] as int
  }

  function FromBE32(s: Str): (r: uint32)
    requires |s| == 4
  {
    s[0] as int * 0x100_0000 + s[1] as int * 0x1_0000 + s[2] as int * 0x100 + s[3] as int
  }

  lemma RoundTripBE32(x: uint32)
    ensures FromBE32(BE32(x)) == x
  {
    assert x / 0x1_0000 == x / 0x100_0000 * 0x100 + x / 0x1_0000 % 0x100;
    assert x / 0x100 == x / 0x1_0000 * 0x100 + x / 0x100 % 0x100;
  }

  // ----- Host byte order -----

  datatype Host = LittleEndian | BigEndian

  function Swap16(x: uint16): (r: uint16) { FromBE16([x % 0x100, x / 0x100]) }

  function Swap32(x: uint32): (r: uint32) { FromBE32([BE32(x)[3], BE32(x)[2], BE32(x)[1], BE32(x)[0]]) }

  /** `htons` and `ntohs`: the same function. */
  function HToN16(host: Host, x: uint16): (r: uint16) { if host.BigEndian? then x else Swap16(x) }

  /** `htonl` and `ntohl`: the same function. */
  function HToN32(host: Host, x: uint32): (r: uint32) { if host.BigEndian? then x else Swap32(x) }

  /** The bytes of an integer in memory. */
  function Store16(host: Host, x: uint16): (r: Str) {
    if host.BigEndian? then BE16(x) else [x % 0x100, x / 0x100]
  }

  function Store32(host: Host, x: uint32): (r: Str) {
    if host.BigEndian? then BE32(x) else [BE32(x)[3], BE32(x)[2], BE32(x)[1], BE32(x)[0]]
  }

  function Load16(host: Host, s: Str): (r: uint16)
    requires |s| == 2
  {
    FromBE16(if host.BigEndian? then s else [s[1], s[0]])
  }

  function Load32(host: Host, s: Str): (r: uint32)
    requires |s| == 4
  {
    FromBE32(if host.BigEndian? then s else [s[3], s[2], s[1], s[0]])
  }

  lemma BytesOfFromBE32(s: Str)
    requires |s| == 4
    ensures BE32(FromBE32(s)) == s
  {
    var x := FromBE32(s);
    assert x / 0x100 == s[0] as int * 0x1_0000 + s[1] as int * 0x100 + s[2] as int;
    assert x / 0x1_0000 == s[0] as int * 0x100 + s[1] as int;
    assert x / 0x100_0000 == s[0];
  }

  /** On either host, storing `htonl(x)` writes the big-endian bytes of x. */
  lemma StoreIsNetworkOrder(host: Host, x: uint16, y: uint32)
    ensures Store16(host, HToN16(host, x)) == BE16(x)
    ensures Store32(host, HToN32(host, y)) == BE32(y)
  {
    BytesOfFromBE32([BE32(y)[3], BE32(y)[2], BE32(y)[1], BE32(y)[0]]);
  }

  /** On either host, `ntohl` of loaded bytes reads them as big-endian. */
  lemma LoadIsNetworkOrder(host: Host, s: Str, t: Str)
    requires |s| == 2 && |t| == 4
    ensures HToN16(host, Load16(host, s)) == FromBE16(s)
    ensures HToN32(host, Load32(host, t)) == FromBE32(t)
  {
    BytesOfFromBE32([t[3], t[2], t[1], t[0]]);
  }

  /** `htonl` undoes itself. */
  lemma HToNInvolution(host: Host, x: uint16, y: uint32)
    ensures HToN16(host, HToN16(host, x)) == x
    ensures HToN32(host, HToN32(host, y)) == y
  {
    BytesOfFromBE32([BE32(y)[3], BE32(y)[2], BE32(y)[1], BE32(y)[0]]);
    RoundTripBE32(y);
  }

  // ----- Reading from a flat byte sequence -----

  /** The bytes that a read of `len` bytes at `offset` finds: the slice, cut at the end. */
  function Slice(s: Str, len: nat, offset: nat): (r: Str)
    ensures |r| == if offset >= |s| then 0 else Min(len, |s| - offset)
  {
    if offset >= |s| then [] else s[offset..offset + Min(len, |s| - offset)]
  }

  function Zeros(n: nat): (r: Str)
    ensures |r| == n
  {
    seq(n, _ => 0)
  }

  function At(s: Str, i: nat): (r: uint8) { if i < |s| then s[i] else 0 }

  /** A zero-initialised variable of `len` bytes after a read into it. */
  function Padded(s: Str, len: nat, offset: nat): (r: Str)
    ensures |r| == len
    ensures forall k | 0 <= k < len :: r[k] == At(s, offset + k)
  {
    seq<uint8>(len, k requires 0 <= k < len => At(s, offset + k))
  }

  lemma PaddedInside(s: Str, len: nat, offset: nat)
    requires offset + len <= |s|
    ensures Padded(s, len, offset) == s[offset..offset + len]
  {}

  /** A zero-initialised `uint32_t` after a read into it and `ntohl`. */
  function U32At(s: Str, offset: nat): (r: uint32) {
    At(s, offset) as int * 0x100_0000 + At(s, offset + 1) as int * 0x1_0000
    + At(s, offset + 2) as int * 0x100 + At(s, offset + 3) as int
  }

  function U16At(s: Str, offset: nat): (r: uint16) {
    At(s, offset) as int * 0x100 + At(s, offset + 1) as int
  }

  function Dropped(s: Str, len: nat): (r: Str) {
    if len >= |s| then [] else s[len..]
  }

  function Concat(parts: seq<Str>): (r: Str) {
    if parts == [] then [] else parts[0] + Concat(parts[1..])
  }

  // ----- Reading from parts of a sequence -----

  lemma U32OfPrefix(s: Str, t: Str, offset: nat)
    requires offset + 4 <= |s|
    ensures U32At(s + t, offset) == U32At(s, offset)
  {}

  lemma U32OfBE32(x: uint32, t: Str)
    ensures U32At(BE32(x) + t, 0) == x
  {
    RoundTripBE32(x);
  }

  lemma PaddedOfPrefix(s: Str, t: Str, len: nat, offset: nat)
    requires offset + len <= |s|
    ensures Padded(s + t, len, offset) == Padded(s, len, offset)
  {}

  lemma PaddedMiddle(a: Str, b: Str, c: Str)
    ensures Padded(a + b + c, |b|, |a|) == b
  {}

  // ----- Facts about sequences, each used by name -----

  lemma Assoc<T>(a: seq<T>, b: seq<T>, c: seq<T>)
    ensures a + (b + c) == (a + b) + c
  {}

  lemma AppendMiddle<T>(whole: seq<T>, a: seq<T>, b: seq<T>, c: seq<T>, ab: seq<T>)
    requires whole == a + (b + c) && ab == a + b
    ensures whole == ab + c
  {}

  lemma DropAppend<T>(a: seq<T>, b: seq<T>)
    ensures (a + b)[|a|..] == b
    ensures (a + b)[..|a|] == a
  {}

  lemma DropDrop<T>(s: seq<T>, m: nat, n: nat)
    requires m + n <= |s|
    ensures s[m..][n..] == s[m + n..]
  {}

  lemma SliceAfter<T>(a: seq<T>, b: seq<T>, skip: nat, n: nat)
    requires |a| <= skip && skip + n <= |a| + |b|
    ensures (a + b)[skip..skip + n] == b[skip - |a|..skip - |a| + n]
  {}

  lemma SliceAcross<T>(a: seq<T>, b: seq<T>, skip: nat, n: nat, take: nat, rest: seq<T>)
    requires skip <= |a| && skip + n <= |a| + |b|
    requires take == Min(n, |a| - skip)
    requires rest == b[0..n - take]
    ensures (a + b)[skip..skip + n] == a[skip..skip + take] + rest
  {}

  lemma DropPast<T>(a: seq<T>, b: seq<T>, n: nat)
    requires |a| <= n <= |a| + |b|
    ensures (a + b)[n..] == b[n - |a|..]
  {}

  lemma DropWithin<T>(a: seq<T>, b: seq<T>, n: nat)
    requires n <= |a|
    ensures (a + b)[n..] == a[n..] + b
  {}
}
