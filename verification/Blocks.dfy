/** The heap of mem.c seen as the list of blocks that tile it, lowest address first.
    The class in Heap.dfy keeps this list as its abstract value. */
module Blocks {

  /** x is a multiple of n (see AlignedIsMod). */
  ghost predicate Aligned(n: nat, x: nat)
    decreases x
  {
    0 < n && (x == 0 || (n <= x && Aligned(n, x - n)))
  }

  /** Build-time constants: alignment, SIZEOF_STRUCT_MEM, MIN_SIZE_ALIGNED,
      MEM_SIZE_ALIGNED, and the number of values of mem_size_t. */
  datatype Config = Config(align: nat, hdr: nat, minSize: nat, memSize: nat, wrap: nat) {
    ghost predicate Valid() {
      && 0 < align && 0 < hdr && 0 < minSize
      && Aligned(align, hdr) && Aligned(align, minSize) && Aligned(align, memSize) && Aligned(align, wrap)
      && hdr + minSize <= memSize < wrap
    }

    /** LWIP_MEM_ALIGN_SIZE before it is stored back into a mem_size_t. */
    function AlignUp(size: nat): nat
      requires 0 < align
    {
      (size + align - 1) / align * align
    }

    /** The size that mem_malloc and mem_trim work with: rounded up to the alignment,
        truncated to mem_size_t, and at least MIN_SIZE_ALIGNED. */
    function Rounded(size: nat): nat
      requires 0 < align && 0 < wrap
    {
      var s := AlignUp(size) % wrap;
      if s < minSize then minSize else s
    }
  }

  /** One struct mem and its data: the bytes [start, end) of ram. */
  datatype Block = Block(start: nat, end: nat, used: bool) {
    /** Bytes available to the owner of the block. */
    function DataSize(c: Config): int {
      end - start - c.hdr
    }

    /** Aligned, with room for the header and MIN_SIZE_ALIGNED bytes. */
    ghost predicate Sound(c: Config) {
      Aligned(c.align, start) && c.minSize <= DataSize(c)
    }
  }

  /** Block i ends where block i + 1 starts. */
  ghost predicate Meet(bs: seq<Block>, i: nat) {
    i + 1 < |bs| && bs[i].end == bs[i + 1].start
  }

  ghost predicate NotBothFree(bs: seq<Block>, i: nat) {
    i + 1 < |bs| && (bs[i].used || bs[i + 1].used)
  }

  /** bs covers [lo, hi) without gaps. */
  ghost predicate Tiles(bs: seq<Block>, lo: nat, hi: nat) {
    && (|bs| == 0 ==> lo == hi)
    && (|bs| > 0 ==> bs[0].start == lo && bs[|bs| - 1].end == hi)
    && (forall i :: 0 <= i < |bs| - 1 ==> Meet(bs, i))
  }

  ghost predicate AllSound(c: Config, bs: seq<Block>) {
    forall i :: 0 <= i < |bs| ==> bs[i].Sound(c)
  }

  ghost predicate NoAdjacentFree(bs: seq<Block>) {
    forall i :: 0 <= i < |bs| - 1 ==> NotBothFree(bs, i)
  }

  /** The structural invariant: the blocks tile the heap, every block is aligned and of
      at least minimum size, and no two neighbours are both free. */
  ghost predicate Wf(c: Config, bs: seq<Block>) {
    && c.Valid()
    && Tiles(bs, 0, c.memSize)
    && AllSound(c, bs)
    && NoAdjacentFree(bs)
  }

  ghost function Live(bs: seq<Block>): set<Block> {
    set b {:trigger b in bs} | b in bs && b.used
  }

  /** mem_init: one free block covering the whole heap. */
  function InitBlocks(c: Config): seq<Block> {
    [Block(0, c.memSize, false)]
  }

  /** Address of block k, or of the end marker. */
  function AddrOf(c: Config, bs: seq<Block>, k: nat): nat {
    if k < |bs| then bs[k].start else c.memSize
  }

  function FirstFreeIndex(bs: seq<Block>): (k: nat)
    ensures k <= |bs|
    ensures k < |bs| ==> !bs[k].used
    ensures forall i :: 0 <= i < k ==> bs[i].used
  {
    if |bs| == 0 || !bs[0].used then 0 else 1 + FirstFreeIndex(bs[1..])
  }

  /** What lfree is meant to be: the address of the lowest free block, or of the end marker. */
  function FirstFree(c: Config, bs: seq<Block>): nat {
    AddrOf(c, bs, FirstFreeIndex(bs))
  }

  /** A full first-fit scan: index of the first free block with at least size data bytes. */
  function FirstFit(c: Config, bs: seq<Block>, size: nat): (k: nat)
    ensures k <= |bs|
    ensures k < |bs| ==> !bs[k].used && size <= bs[k].DataSize(c)
    ensures forall i :: 0 <= i < k ==> bs[i].used || bs[i].DataSize(c) < size
  {
    if |bs| == 0 then 0
    else if !bs[0].used && size <= bs[0].DataSize(c) then 0
    else 1 + FirstFit(c, bs[1..], size)
  }

  /** Replace the blocks from i up to j by ws. */
  function Splice(bs: seq<Block>, i: nat, j: nat, ws: seq<Block>): seq<Block>
    requires i <= j <= |bs|
  {
    bs[..i] + ws + bs[j..]
  }

  /** A used block [start, cut) followed by a free block [cut, end). */
  function Pair(start: nat, cut: nat, end: nat): seq<Block> {
    [Block(start, cut, true), Block(cut, end, false)]
  }

  /** What becomes of free block b when size bytes of it are taken: the taken block and,
      if a minimal block still fits behind it, the free rest. */
  function TakeFrom(c: Config, b: Block, size: nat): seq<Block> {
    if b.DataSize(c) >= size + c.hdr + c.minSize then Pair(b.start, b.start + c.hdr + size, b.end)
    else [Block(b.start, b.end, true)]
  }

  /** mem_malloc of size bytes (already rounded) out of free block i. */
  function AllocAt(c: Config, bs: seq<Block>, i: nat, size: nat): seq<Block>
    requires i < |bs|
  {
    Splice(bs, i, i + 1, TakeFrom(c, bs[i], size))
  }

  /** mem_free, before plug_holes: clear the used flag of block i. */
  function MarkFree(bs: seq<Block>, i: nat): seq<Block>
    requires i < |bs|
  {
    Splice(bs, i, i + 1, [Block(bs[i].start, bs[i].end, false)])
  }

  /** plug_holes, forward half: absorb block i + 1 into block i when it is free. */
  function PlugForward(bs: seq<Block>, i: nat): seq<Block>
    requires i < |bs|
  {
    if i + 1 < |bs| && !bs[i + 1].used then
      Splice(bs, i, i + 2, [Block(bs[i].start, bs[i + 1].end, false)])
    else bs
  }

  /** plug_holes, backward half: absorb block i into block i - 1 when that is free. */
  function PlugBackward(bs: seq<Block>, i: nat): seq<Block>
    requires i < |bs|
  {
    if 0 < i && !bs[i - 1].used then
      Splice(bs, i - 1, i + 1, [Block(bs[i - 1].start, bs[i].end, false)])
    else bs
  }

  /** mem_free of the block at index i. */
  function FreeAt(bs: seq<Block>, i: nat): seq<Block>
    requires i < |bs|
  {
    PlugBackward(PlugForward(MarkFree(bs, i), i), i)
  }

  /** mem_trim of the used block at index i to size bytes (already rounded). */
  function TrimAt(c: Config, bs: seq<Block>, i: nat, size: nat): seq<Block>
    requires i < |bs|
  {
    var b := bs[i];
    var cut := b.start + c.hdr + size;
    if b.DataSize(c) <= size then bs
    else if i + 1 < |bs| && !bs[i + 1].used then
      Splice(bs, i, i + 2, Pair(b.start, cut, bs[i + 1].end))
    else if size + c.hdr + c.minSize <= b.DataSize(c) then
      Splice(bs, i, i + 1, Pair(b.start, cut, b.end))
    else bs
  }

  // ----- alignment arithmetic

  /** The only multiple of n strictly between -n and n is zero. */
  lemma SmallMultiple(n: int, t: int)
    requires 0 < n && -n < t * n < n
    ensures t == 0
  {
    assert t >= 1 ==> t * n >= n;
    assert t <= -1 ==> t * n <= -n;
  }

  lemma MultipleMod(n: int, k: int)
    requires 0 < n
    ensures (k * n) % n == 0 && (k * n) / n == k
  {
    var x := k * n;
    var t := k - x / n;
    assert t * n == k * n - (x / n) * n;
    assert x == (x / n) * n + x % n;
    SmallMultiple(n, t);
  }

  lemma {:induction false} AlignedIsMod(n: nat, x: nat)
    requires 0 < n
    ensures Aligned(n, x) <==> x % n == 0
    decreases x
  {
    if x < n {
      assert x % n == x;
    } else {
      AlignedIsMod(n, x - n);
      ModStep(n, x);
    }
  }

  lemma ModStep(n: nat, x: nat)
    requires 0 < n <= x
    ensures (x - n) % n == x % n
  {
    var q, r := (x - n) / n, (x - n) % n;
    assert x - n == q * n + r;
    assert x == (q + 1) * n + r;
    SameMod(n, x, q + 1, r);
  }

  lemma SameMod(n: int, x: int, q: int, r: int)
    requires 0 < n && 0 <= r < n && x == q * n + r
    ensures x % n == r
  {
    assert x == (x / n) * n + x % n;
    assert (x / n - q) * n == r - x % n;
    SmallMultiple(n, x / n - q);
  }

  lemma {:induction false} AlignedSum(n: nat, x: nat, y: nat)
    requires Aligned(n, x) && Aligned(n, y)
    ensures Aligned(n, x + y)
    decreases x
  {
    if x > 0 { AlignedSum(n, x - n, y); }
  }

  /** Two multiples of n that are less than n apart are equal. */
  lemma {:induction false} CloseMultiples(n: nat, x: nat, y: nat)
    requires Aligned(n, x) && Aligned(n, y)
    requires x < y + n && y < x + n
    ensures x == y
    decreases x
  {
    if x > 0 && y > 0 { CloseMultiples(n, x - n, y - n); }
  }

  lemma AlignUpBounds(c: Config, size: nat)
    requires 0 < c.align
    ensures Aligned(c.align, c.AlignUp(size))
    ensures size <= c.AlignUp(size) < size + c.align
  {
    MultipleMod(c.align, (size + c.align - 1) / c.align);
    AlignedIsMod(c.align, c.AlignUp(size));
  }

  /** Storing x into a type of w values. */
  lemma Truncated(x: nat, w: nat)
    requires 0 < w
    ensures x < w ==> x % w == x
    ensures x == w ==> x % w == 0
  {
  }

  /** The rounding covers the request precisely for the requests that are at least one
      alignment unit below the range of mem_size_t, or that fit in a minimal block anyway. */
  lemma RoundedSize(c: Config, size: nat)
    requires c.Valid() && size < c.wrap
    ensures Aligned(c.align, c.Rounded(size))
    ensures c.minSize <= c.Rounded(size)
    ensures size <= c.Rounded(size) <==> size <= c.wrap - c.align || size <= c.minSize
    ensures size <= c.wrap - c.align ==>
      c.Rounded(size) < size + c.align || c.Rounded(size) == c.minSize
  {
    AlignUpBounds(c, size);
    var up := c.AlignUp(size);
    Truncated(up, c.wrap);
    if size > c.wrap - c.align {
      CloseMultiples(c.align, up, c.wrap);
    }
  }
}
