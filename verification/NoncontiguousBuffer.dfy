/** The chained byte buffer that the codecs read from and write to. */
module NoncontiguousBuffers {
  import opened Bytes

  /** A last block shorter than this, and not yet read from, is extended in place. */
  const MERGE_LIMIT: nat := 4096

  datatype Block = Block(data: Str, offset: nat) {
    function Unread(): (r: Str) {
      if offset <= |data| then data[offset..] else []
    }
  }

  /** The byte sequence that the blocks from index i on stand for. */
  function FlattenFrom(blocks: seq<Block>, i: nat): (r: Str)
    decreases |blocks| - i
  {
    if i >= |blocks| then [] else blocks[i].Unread() + FlattenFrom(blocks, i + 1)
  }

  function Flatten(blocks: seq<Block>): (r: Str) { FlattenFrom(blocks, 0) }

  /** The sum of the unread sizes of the blocks from index i on. */
  function UnreadFrom(blocks: seq<Block>, i: nat): (r: nat)
    decreases |blocks| - i
  {
    if i >= |blocks| then 0 else |blocks[i].Unread()| + UnreadFrom(blocks, i + 1)
  }

  lemma {:induction false} FlattenLength(blocks: seq<Block>, i: nat)
    ensures |FlattenFrom(blocks, i)| == UnreadFrom(blocks, i)
    decreases |blocks| - i
  {
    if i < |blocks| {
      FlattenLength(blocks, i + 1);
    }
  }

  /** The shape of every reachable chain. */
  ghost predicate Chain(blocks: seq<Block>) {
    && (forall i | 0 <= i < |blocks| :: blocks[i].offset < |blocks[i].data|)
    && (forall i | 0 < i < |blocks| :: blocks[i].offset == 0)
    && (forall i | 0 < i < |blocks| - 1 :: |blocks[i].data| >= MERGE_LIMIT)
  }

  /** Flattening from an index on depends only on the blocks from there on. */
  lemma {:induction false} FlattenWithoutFirst(blocks: seq<Block>, i: nat)
    requires i + 1 <= |blocks|
    ensures FlattenFrom(blocks[1..], i) == FlattenFrom(blocks, i + 1)
    decreases |blocks| - i
  {
    if i + 1 < |blocks| {
      FlattenWithoutFirst(blocks, i + 1);
      assert blocks[1..][i] == blocks[i + 1];
      assert FlattenFrom(blocks, i + 1) == blocks[i + 1].Unread() + FlattenFrom(blocks, i + 2);
    }
  }

  lemma {:induction false} FlattenOtherFirst(blocks: seq<Block>, first: Block, i: nat)
    requires 1 <= i <= |blocks|
    ensures FlattenFrom(blocks[0 := first], i) == FlattenFrom(blocks, i)
    decreases |blocks| - i
  {
    if i < |blocks| {
      FlattenOtherFirst(blocks, first, i + 1);
    }
  }

  /** What replacing the last block, or adding one, does to the contents. */
  lemma {:induction false} FlattenLast(blocks: seq<Block>, i: nat, last: Block)
    requires i <= |blocks|
    ensures FlattenFrom(blocks + [last], i) == FlattenFrom(blocks, i) + last.Unread()
    decreases |blocks| - i
  {
    var all := blocks + [last];
    if i < |blocks| {
      FlattenLast(blocks, i + 1, last);
      Assoc(blocks[i].Unread(), FlattenFrom(blocks, i + 1), last.Unread());
    } else {
      assert FlattenFrom(all, i + 1) == [];
    }
  }

  /** Blocks that are full and unread contribute at least MERGE_LIMIT bytes each. */
  lemma {:induction false} FullBlocks(blocks: seq<Block>, i: nat)
    requires 0 < i < |blocks| && Chain(blocks)
    ensures UnreadFrom(blocks, i) >= (|blocks| - 1 - i) * MERGE_LIMIT + 1
    decreases |blocks| - i
  {
    if i < |blocks| - 1 {
      FullBlocks(blocks, i + 1);
    }
  }

  /** The fragmentation bound: a chain of the invariant's shape has few blocks for its contents. */
  lemma FragmentationBound(blocks: seq<Block>)
    requires Chain(blocks)
    ensures |blocks| <= 2 + UnreadFrom(blocks, 0) / MERGE_LIMIT
  {
    if |blocks| >= 2 {
      FullBlocks(blocks, 1);
    }
  }

  // ----- What the three operations do to a chain -----

  function AppendBlocks(blocks: seq<Block>, data: Str): (r: seq<Block>) {
    var n := |blocks|;
    if data == [] then blocks
    else if n > 0 && blocks[n - 1].offset == 0 && |blocks[n - 1].data| < MERGE_LIMIT then
      blocks[..n - 1] + [Block(blocks[n - 1].data + data, 0)]
    else
      blocks + [Block(data, 0)]
  }

  lemma ExtendLast(before: seq<Block>, d: Str, data: Str)
    ensures Flatten(before + [Block(d + data, 0)]) == Flatten(before + [Block(d, 0)]) + data
  {
    FlattenLast(before, 0, Block(d, 0));
    FlattenLast(before, 0, Block(d + data, 0));
    Assoc(Flatten(before), d, data);
  }

  lemma AppendKeepsChain(blocks: seq<Block>, data: Str)
    requires Chain(blocks)
    ensures Chain(AppendBlocks(blocks, data))
  {}

  lemma AppendIsConcat(blocks: seq<Block>, data: Str)
    ensures Flatten(AppendBlocks(blocks, data)) == Flatten(blocks) + data
  {
    var n := |blocks|;
    if data == [] {
    } else if n > 0 && blocks[n - 1].offset == 0 && |blocks[n - 1].data| < MERGE_LIMIT {
      assert blocks == blocks[..n - 1] + [Block(blocks[n - 1].data, 0)];
      ExtendLast(blocks[..n - 1], blocks[n - 1].data, data);
    } else {
      FlattenLast(blocks, 0, Block(data, 0));
    }
  }

  /** `tails[i]` is what the blocks from index i on stand for. */
  ghost predicate Tails(blocks: seq<Block>, tails: seq<Str>) {
    && |tails| == |blocks| + 1
    && forall i {:trigger FlattenFrom(blocks, i)} | 0 <= i <= |blocks| :: tails[i] == FlattenFrom(blocks, i)
  }

  lemma TailsOf(blocks: seq<Block>) returns (tails: seq<Str>)
    ensures Tails(blocks, tails) && tails[0] == Flatten(blocks)
  {
    tails := seq(|blocks| + 1, i requires 0 <= i <= |blocks| => FlattenFrom(blocks, i));
  }

  lemma TailStep(blocks: seq<Block>, tails: seq<Str>, i: nat)
    requires Tails(blocks, tails) && i <= |blocks|
    ensures tails[i] == if i == |blocks| then [] else blocks[i].Unread() + tails[i + 1]
  {
    assert tails[i] == FlattenFrom(blocks, i);
  }

  function SkipBlocks(blocks: seq<Block>, n: nat): (r: seq<Block>) {
    if n == 0 || blocks == [] then blocks
    else if n >= |blocks[0].Unread()| then SkipBlocks(blocks[1..], n - |blocks[0].Unread()|)
    else blocks[0 := Trimmed(blocks[0], n)]
  }

  lemma {:induction false} SkipKeepsChain(blocks: seq<Block>, n: nat)
    requires Chain(blocks)
    ensures Chain(SkipBlocks(blocks, n)) && |SkipBlocks(blocks, n)| <= |blocks|
  {
    if n > 0 && blocks != [] && n >= |blocks[0].Unread()| {
      SkipKeepsChain(blocks[1..], n - |blocks[0].Unread()|);
    }
  }

  lemma FirstBlockDropped(blocks: seq<Block>, n: nat)
    requires Chain(blocks) && blocks != [] && |blocks[0].Unread()| <= n <= |Flatten(blocks)|
    ensures n - |blocks[0].Unread()| <= |Flatten(blocks[1..])|
    ensures Flatten(blocks)[n..] == Flatten(blocks[1..])[n - |blocks[0].Unread()|..]
  {
    FlattenWithoutFirst(blocks, 0);
    DropPast(blocks[0].Unread(), FlattenFrom(blocks, 1), n);
  }

  function Trimmed(block: Block, n: nat): (r: Block) { block.(offset := block.offset + n) }

  lemma TrimmedUnread(block: Block, n: nat)
    requires block.offset + n <= |block.data|
    ensures Trimmed(block, n).Unread() == block.Unread()[n..]
  {
    DropDrop(block.data, block.offset, n);
  }

  lemma FirstBlockTrimmed(blocks: seq<Block>, n: nat)
    requires Chain(blocks) && blocks != [] && n < |blocks[0].Unread()|
    ensures Flatten(blocks[0 := Trimmed(blocks[0], n)]) == Flatten(blocks)[n..]
  {
    TrimmedUnread(blocks[0], n);
    FlattenOtherFirst(blocks, Trimmed(blocks[0], n), 1);
    DropWithin(blocks[0].Unread(), FlattenFrom(blocks, 1), n);
  }

  lemma {:induction false} SkipIsDrop(blocks: seq<Block>, n: nat)
    requires Chain(blocks) && n <= |Flatten(blocks)|
    ensures Flatten(SkipBlocks(blocks, n)) == Flatten(blocks)[n..]
  {
    if n > 0 {
      if n >= |blocks[0].Unread()| {
        FirstBlockDropped(blocks, n);
        SkipIsDrop(blocks[1..], n - |blocks[0].Unread()|);
      } else {
        FirstBlockTrimmed(blocks, n);
      }
    }
  }

  // ----- Every run of operations -----

  datatype Op = Append(data: Str) | Skip(len: nat)

  function ChainAfter(ops: seq<Op>): (r: seq<Block>) {
    if ops == [] then []
    else
      var blocks := ChainAfter(ops[..|ops| - 1]);
      match ops[|ops| - 1]
      case Append(data) => AppendBlocks(blocks, data)
      case Skip(len) => if len >= |Flatten(blocks)| then [] else SkipBlocks(blocks, len)
  }

  /** The same run on one flat byte sequence. */
  function BytesAfter(ops: seq<Op>): (r: Str) {
    if ops == [] then []
    else
      var s := BytesAfter(ops[..|ops| - 1]);
      match ops[|ops| - 1]
      case Append(data) => s + data
      case Skip(len) => Dropped(s, len)
  }

  /** Every reachable chain stands for the flat sequence, and has few blocks for its length. */
  lemma {:induction false} BufferRefinement(ops: seq<Op>)
    ensures Chain(ChainAfter(ops))
    ensures Flatten(ChainAfter(ops)) == BytesAfter(ops)
    ensures |ChainAfter(ops)| <= 2 + |BytesAfter(ops)| / MERGE_LIMIT
  {
    if ops != [] {
      var before := ChainAfter(ops[..|ops| - 1]);
      BufferRefinement(ops[..|ops| - 1]);
      match ops[|ops| - 1]
      case Append(data) =>
        AppendKeepsChain(before, data);
        AppendIsConcat(before, data);
      case Skip(len) =>
        if len < |Flatten(before)| {
          SkipKeepsChain(before, len);
          SkipIsDrop(before, len);
        }
    }
    FragmentationBound(ChainAfter(ops));
    FlattenLength(ChainAfter(ops), 0);
  }

  /** One block's share of the bytes still to copy. */
  lemma CopyStep(target: Str, before: Str, todo: Str, unread: Str, next: Str, skip: nat, n: nat, after: Str)
    requires skip <= |unread| && skip + |todo| <= |unread| + |next| && n == Min(|todo|, |unread| - skip)
    requires target == before + todo && todo == (unread + next)[skip..skip + |todo|]
    requires after == before + unread[skip..skip + n]
    ensures target == after + next[0..|todo| - n]
  {
    var rest := next[0..|todo| - n];
    SliceAcross(unread, next, skip, |todo|, n, rest);
    AppendMiddle(target, before, unread[skip..skip + n], rest, after);
  }

  /** `memcpy` of part of a block into the middle of a caller's buffer; the ghost parameters are proof data only. */
  method CopyBlock(dst: array<uint8>, at: nat, block: Block, skip: nat, n: nat,
                   ghost target: Str, ghost todo: Str, ghost next: Str)
    requires block.offset + skip + n <= |block.data| && at + n <= dst.Length
    requires skip + |todo| <= |block.Unread()| + |next| && n == Min(|todo|, |block.Unread()| - skip)
    requires target == dst[..at] + todo && todo == (block.Unread() + next)[skip..skip + |todo|]
    modifies dst
    ensures target == dst[..at + n] + next[0..|todo| - n]
    ensures forall k | at + n <= k < dst.Length :: dst[k] == old(dst[k])
  {
    ghost var before := dst[..at];
    forall k | 0 <= k < n {
      dst[at + k] := block.data[block.offset + skip + k];
    }
    assert dst[..at + n] == before + block.Unread()[skip..skip + n];
    CopyStep(target, before, todo, block.Unread(), next, skip, n, dst[..at + n]);
  }

  /** One turn of the loop over the blocks: skip the block, or copy from it. `tail` and the rest are proof data. */
  method CopyTurn(dst: array<uint8>, copied: nat, toRead: nat, block: Block, skip: nat,
                  ghost target: Str, ghost todo: Str, ghost tail: Str, ghost next: Str)
    returns (copied': nat, skip': nat, ghost todo': Str)
    requires block.offset < |block.data| && tail == block.Unread() + next
    requires copied + |todo| == toRead <= dst.Length && skip + |todo| <= |tail|
    requires todo == tail[skip..skip + |todo|] && target == dst[..copied] + todo
    modifies dst
    ensures copied <= copied' && copied' + |todo'| == toRead && skip' + |todo'| <= |next|
    ensures todo' == next[skip'..skip' + |todo'|] && target == dst[..copied'] + todo'
    ensures forall k | copied' <= k < dst.Length :: dst[k] == old(dst[k])
  {
    var blockSize := |block.data| - block.offset;
    if skip >= blockSize {
      SliceAfter(block.Unread(), next, skip, |todo|);
      return copied, skip - blockSize, todo;
    }
    var fromBlock := Min(toRead - copied, blockSize - skip);
    CopyBlock(dst, copied, block, skip, fromBlock, target, todo, next);
    return copied + fromBlock, 0, next[0..|todo| - fromBlock];
  }

  /** The loop over the blocks in Peek; `tails` is proof data only. */
  method CopyOut(blocks: seq<Block>, dst: array<uint8>, toRead: nat, offset: nat, ghost tails: seq<Str>)
    returns (copied: nat)
    requires forall i | 0 <= i < |blocks| :: blocks[i].offset < |blocks[i].data|
    requires toRead <= dst.Length
    requires Tails(blocks, tails)
    requires offset + toRead <= |tails[0]|
    modifies dst
    ensures copied == toRead
    ensures dst[..copied] == tails[0][offset..offset + toRead]
    ensures forall k | copied <= k < dst.Length :: dst[k] == old(dst[k])
  {
    copied := 0;
    var skip: nat, i := offset, 0;
    ghost var target := tails[0][offset..offset + toRead];
    ghost var todo := target;
    while i < |blocks| && copied < toRead
      invariant 0 <= i <= |blocks| && copied + |todo| == toRead && skip + |todo| <= |tails[i]|
      invariant todo == tails[i][skip..skip + |todo|]
      invariant target == dst[..copied] + todo
      invariant forall k | copied <= k < dst.Length :: dst[k] == old(dst[k])
      decreases |blocks| - i
    {
      TailStep(blocks, tails, i);
      copied, skip, todo := CopyTurn(dst, copied, toRead, blocks[i], skip, target, todo, tails[i], tails[i + 1]);
      i := i + 1;
    }
    TailStep(blocks, tails, |blocks|);
  }

  /** `s` is what the blocks stand for; the trigger keeps the recursion out of callers' proofs. */
  ghost predicate StandsFor(blocks: seq<Block>, s: Str) {
    forall i {:trigger FlattenFrom(blocks, i)} | i == 0 :: s == FlattenFrom(blocks, i)
  }

  class NoncontiguousBuffer {
    ghost var contents: Str  // the bytes still to be read
    var blocks: seq<Block>
    var readable: nat

    ghost predicate Valid()
      reads this
    {
      Chain(blocks) && readable == |contents| && StandsFor(blocks, contents)
    }

    constructor ()
      ensures Valid() && contents == []
    {
      blocks, readable, contents := [], 0, [];
    }

    /** From contiguous memory. */
    constructor From(data: Str)
      ensures Valid() && contents == data
    {
      blocks, readable, contents := [], 0, [];
      new;
      Append(data);
      assert [] + data == data;
    }

    method ReadableBytes() returns (n: nat)
      requires Valid()
      ensures n == |contents|
    {
      n := readable;
    }

    method Append(data: Str)
      requires Valid()
      modifies this
      ensures Valid()
      ensures contents == old(contents) + data
      ensures |blocks| <= |old(blocks)| + 1
    {
      assert contents == Flatten(blocks);
      AppendIsConcat(blocks, data);
      AppendKeepsChain(blocks, data);
      contents := contents + data;
      if |data| == 0 {
        return;
      }
      var n := |blocks|;
      if n > 0 {
        var last := blocks[n - 1];
        if last.offset == 0 && |last.data| < MERGE_LIMIT {
          blocks := blocks[n - 1 := Block(last.data + data, 0)];
          readable := readable + |data|;
          assert blocks == AppendBlocks(old(blocks), data);
          return;
        }
      }
      blocks := blocks + [Block(data, 0)];
      readable := readable + |data|;
    }

    /** Copies without consuming; the copy is cut at the end of the contents. */
    method Peek(dst: array<uint8>, len: nat, offset: nat) returns (copied: nat)
      requires Valid() && len <= dst.Length
      modifies dst
      ensures copied == |Slice(contents, len, offset)|
      ensures dst[..copied] == Slice(contents, len, offset)
      ensures forall k | copied <= k < dst.Length :: dst[k] == old(dst[k])
    {
      if offset >= readable {
        return 0;
      }
      assert contents == Flatten(blocks);
      var toRead := Min(len, readable - offset);
      ghost var tails := TailsOf(blocks);
      copied := CopyOut(blocks, dst, toRead, offset, tails);
    }

    /** Zero-initialised memory of `len` bytes, filled by one Peek. */
    method PeekPadded(len: nat, offset: nat) returns (r: Str)
      requires Valid()
      ensures r == Padded(contents, len, offset)
    {
      var dst := new uint8[len](_ => 0);
      var copied := Peek(dst, len, offset);
      r := dst[..];
    }

    /** A zero-initialised integer, filled by one Peek and converted from network order. */
    method PeekU16(offset: nat) returns (x: uint16)
      requires Valid()
      ensures x == U16At(contents, offset)
    {
      var bytes := PeekPadded(2, offset);
      return FromBE16(bytes);
    }

    method PeekU32(offset: nat) returns (x: uint32)
      requires Valid()
      ensures x == U32At(contents, offset)
    {
      var bytes := PeekPadded(4, offset);
      return FromBE32(bytes);
    }

    method Skip(len: nat)
      requires Valid()
      modifies this
      ensures Valid()
      ensures contents == Dropped(old(contents), len)
      ensures |blocks| <= |old(blocks)|
    {
      assert contents == Flatten(blocks);
      contents := Dropped(contents, len);
      if len >= readable {
        blocks, readable := [], 0;
        return;
      }
      SkipKeepsChain(blocks, len);
      SkipIsDrop(blocks, len);
      readable := readable - len;
      DropBlocks(len);
    }

    /** The loop of Skip. */
    method DropBlocks(len: nat)
      requires Chain(blocks)
      modifies `blocks
      ensures blocks == SkipBlocks(old(blocks), len)
    {
      var left: nat := len;
      while left > 0 && |blocks| > 0
        invariant SkipBlocks(blocks, left) == SkipBlocks(old(blocks), len)
        invariant Chain(blocks)
        decreases |blocks|, left
      {
        var blockAvail: nat := |blocks[0].data| - blocks[0].offset;
        if left >= blockAvail {
          left := left - blockAvail;
          blocks := blocks[1..];
        } else {
          blocks := blocks[0 := Trimmed(blocks[0], left)];
          left := 0;
        }
      }
    }

    method ToString() returns (s: Str)
      requires Valid()
      ensures s == contents
    {
      s := PeekPadded(readable, 0);
      PaddedInside(contents, |contents|, 0);
    }
  }
}
