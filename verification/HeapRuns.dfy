/** Whole runs of mem_malloc, mem_free and mem_trim, over the block list. */
module HeapRuns {
  import opened Basics
  import opened Blocks
  import opened BlocksTheorems

  /** One call that a client may make. Free and Trim name a live block, as their callers must. */
  datatype Op = Malloc(size: nat) | Free(b: Block) | Trim(b: Block, size: nat)

  /** mem_malloc: nothing for size 0, for a size beyond the heap, or when nothing fits. */
  function MallocBlocks(c: Config, bs: seq<Block>, size: nat): seq<Block>
    requires 0 < c.align && 0 < c.wrap
  {
    if size == 0 || c.Rounded(size) > c.memSize then bs
    else
      var k := FirstFit(c, bs, c.Rounded(size));
      if k == |bs| then bs else AllocAt(c, bs, k, c.Rounded(size))
  }

  ghost predicate Legal(c: Config, bs: seq<Block>, op: Op) {
    match op
    case Malloc(size) => size < c.wrap
    case Free(b) => b in Live(bs)
    case Trim(b, size) => b in Live(bs) && size < c.wrap
  }

  ghost function Step(c: Config, bs: seq<Block>, op: Op): seq<Block>
    requires c.Valid() && Legal(c, bs, op)
  {
    match op
    case Malloc(size) => MallocBlocks(c, bs, size)
    case Free(b) => FreeAt(bs, IndexOf(bs, b))
    case Trim(b, size) => TrimAt(c, bs, IndexOf(bs, b), c.Rounded(size))
  }

  /** bs' is reached from bs by the calls ops, each of them legal when it is made. */
  ghost predicate Reaches(c: Config, bs: seq<Block>, ops: seq<Op>, bs': seq<Block>)
    requires c.Valid()
    decreases |ops|
  {
    if ops == [] then bs == bs'
    else Legal(c, bs, ops[0]) && Reaches(c, Step(c, bs, ops[0]), ops[1..], bs')
  }

  lemma StepKeeps(c: Config, bs: seq<Block>, op: Op)
    requires Wf(c, bs) && Legal(c, bs, op)
    ensures Wf(c, Step(c, bs, op))
  {
    match op
    case Malloc(size) =>
      RoundedSize(c, size);
      var k := FirstFit(c, bs, c.Rounded(size));
      if k < |bs| { AllocKeeps(c, bs, k, c.Rounded(size)); }
    case Free(b) =>
      FreeKeeps(c, bs, IndexOf(bs, b));
    case Trim(b, size) =>
      RoundedSize(c, size);
      TrimKeeps(c, bs, IndexOf(bs, b), c.Rounded(size));
  }

  /** Safety of every run: the heap stays well formed. */
  lemma {:induction false} RunKeeps(c: Config, bs: seq<Block>, ops: seq<Op>, bs': seq<Block>)
    requires Wf(c, bs) && Reaches(c, bs, ops, bs')
    ensures Wf(c, bs')
    decreases |ops|
  {
    if ops != [] {
      StepKeeps(c, bs, ops[0]);
      RunKeeps(c, Step(c, bs, ops[0]), ops[1..], bs');
    }
  }

  /** No run leaves a trace beyond its live blocks: two runs from mem_init that end with the
      same live blocks end in the very same heap. */
  lemma RunsAgree(c: Config, ops1: seq<Op>, ops2: seq<Op>, bs1: seq<Block>, bs2: seq<Block>)
    requires c.Valid()
    requires Reaches(c, InitBlocks(c), ops1, bs1) && Reaches(c, InitBlocks(c), ops2, bs2)
    requires Live(bs1) == Live(bs2)
    ensures bs1 == bs2
  {
    InitKeeps(c);
    RunKeeps(c, InitBlocks(c), ops1, bs1);
    RunKeeps(c, InitBlocks(c), ops2, bs2);
    LiveDetermines(c, bs1, bs2);
  }

  // ----- undoing

  /** Freeing the block just allocated restores the exact block list. */
  lemma {:induction false} FreeUndoesMalloc(c: Config, bs: seq<Block>, i: nat, size: nat)
    requires Wf(c, bs) && i < |bs| && !bs[i].used
    requires Aligned(c.align, size) && c.minSize <= size <= bs[i].DataSize(c)
    ensures FreeAt(AllocAt(c, bs, i, size), i) == bs
  {
    var t := TakeFrom(c, bs[i], size)[0];
    var ms := AllocAt(c, bs, i, size);
    AllocKeeps(c, bs, i, size);
    SameStart(c, bs, i, t);
    FreeKeeps(c, ms, i);
    LiveDetermines(c, FreeAt(ms, i), bs);
  }

  /** A trim before the free makes no difference to the heap that results. */
  lemma {:induction false} FreeAfterTrim(c: Config, bs: seq<Block>, i: nat, size: nat)
    requires Wf(c, bs) && i < |bs| && bs[i].used
    requires Aligned(c.align, size) && c.minSize <= size
    ensures FreeAt(TrimAt(c, bs, i, size), i) == FreeAt(bs, i)
  {
    TrimKeeps(c, bs, i, size);
    var ts := TrimAt(c, bs, i, size);
    assert ts[i] == Trimmed(c, bs, i, size);
    FreeKeeps(c, ts, i);
    FreeKeeps(c, bs, i);
    if ts[i] != bs[i] { SameStart(c, bs, i, ts[i]); }
    LiveDetermines(c, FreeAt(ts, i), FreeAt(bs, i));
  }

  lemma SameStart(c: Config, bs: seq<Block>, i: nat, t: Block)
    requires Wf(c, bs) && i < |bs| && t.start == bs[i].start && t != bs[i]
    ensures t !in Live(bs)
  {
    if t in Live(bs) {
      var j :| 0 <= j < |bs| && bs[j] == t;
      BlocksDisjoint(bs, 0, c.memSize, i, j);
      assert false;
    }
  }

  ghost function FreeSeq(order: seq<Block>): seq<Op> {
    if order == [] then [] else [Free(order[0])] + FreeSeq(order[1..])
  }

  lemma ElementsTail(order: seq<Block>)
    requires Distinct(order) && order != []
    ensures Distinct(order[1..]) && Elements(order[1..]) == Elements(order) - {order[0]}
  {
    assert order == [order[0]] + order[1..];
    assert order[0] !in order[1..];
  }

  /** Freeing all live blocks, in any order, leads back to the heap of mem_init. */
  lemma {:induction false} FreeAllRestores(c: Config, bs: seq<Block>, order: seq<Block>)
    requires Wf(c, bs) && Distinct(order) && Elements(order) == Live(bs)
    ensures Reaches(c, bs, FreeSeq(order), InitBlocks(c))
    decreases |order|
  {
    if order == [] {
      InitKeeps(c);
      LiveDetermines(c, bs, InitBlocks(c));
    } else {
      assert order[0] in Elements(order);
      ElementsTail(order);
      FreeKeeps(c, bs, IndexOf(bs, order[0]));
      FreeAllRestores(c, Step(c, bs, Free(order[0])), order[1..]);
      assert FreeSeq(order)[1..] == FreeSeq(order[1..]);
    }
  }

  // ----- first fit, without mentioning the block list

  /** A header and size data bytes, placed at a, lie in the heap and meet no live block. */
  ghost predicate FitsAt(c: Config, live: set<Block>, a: nat, size: nat) {
    var end := a + c.hdr + size;
    end <= c.memSize && forall b :: b in live ==> end <= b.start || b.end <= a
  }

  lemma {:induction false} BlockAt(bs: seq<Block>, lo: nat, hi: nat, a: nat) returns (j: nat)
    requires Tiles(bs, lo, hi) && NonEmptyBlocks(bs) && lo <= a < hi
    ensures j < |bs| && bs[j].start <= a < bs[j].end
    decreases |bs|
  {
    if a < bs[0].end {
      j := 0;
    } else {
      TilesAround(bs, lo, hi, 0, 1);
      j := BlockAt(bs[1..], bs[0].end, hi, a);
      j := j + 1;
    }
  }

  /** A place that fits lies inside one free block. */
  lemma FitInBlock(c: Config, bs: seq<Block>, a: nat, size: nat) returns (j: nat)
    requires Wf(c, bs) && FitsAt(c, Live(bs), a, size)
    ensures j < |bs| && !bs[j].used && bs[j].start <= a && a + c.hdr + size <= bs[j].end
  {
    j := BlockAt(bs, 0, c.memSize, a);
    if j + 1 < |bs| {
      assert Meet(bs, j) && NotBothFree(bs, j);
      assert bs[j].used || bs[j + 1] in Live(bs);
    }
  }

  /** mem_malloc hands out the lowest address at which header and data fit among the live
      blocks, and fails exactly when there is no such address. */
  lemma {:induction false} FirstFitIsLowest(c: Config, bs: seq<Block>, size: nat)
    requires Wf(c, bs) && c.minSize <= size
    ensures
      var k := FirstFit(c, bs, size);
      && (k < |bs| ==> FitsAt(c, Live(bs), bs[k].start, size))
      && (forall a :: FitsAt(c, Live(bs), a, size) ==> k < |bs| && bs[k].start <= a)
  {
    var k := FirstFit(c, bs, size);
    if k < |bs| { FreeBlockFits(c, bs, k, size); }
    forall a | FitsAt(c, Live(bs), a, size) ensures k < |bs| && bs[k].start <= a {
      var j := FitInBlock(c, bs, a, size);
      if k < j { StartsIncrease(bs, 0, c.memSize, k, j); }
    }
  }

  lemma FreeBlockFits(c: Config, bs: seq<Block>, k: nat, size: nat)
    requires Wf(c, bs) && k < |bs| && !bs[k].used && size <= bs[k].DataSize(c)
    ensures FitsAt(c, Live(bs), bs[k].start, size)
  {
    forall b | b in Live(bs) ensures bs[k].end <= b.start || b.end <= bs[k].start {
      var j :| 0 <= j < |bs| && bs[j] == b;
      BlocksDisjoint(bs, 0, c.memSize, k, j);
    }
    if k < |bs| - 1 { StartsIncrease(bs, 0, c.memSize, k, |bs| - 1); }
  }

  /** mem_malloc does something exactly for the requests of at least one byte for which there is a
      place among the live blocks. */
  lemma {:induction false} MallocServes(c: Config, bs: seq<Block>, size: nat)
    requires Wf(c, bs) && size < c.wrap
    ensures MallocBlocks(c, bs, size) != bs <==> size != 0 && exists a :: FitsAt(c, Live(bs), a, c.Rounded(size))
  {
    RoundedSize(c, size);
    var n := c.Rounded(size);
    FirstFitIsLowest(c, bs, n);
    var k := FirstFit(c, bs, n);
    if k < |bs| {
      AllocKeeps(c, bs, k, n);
      assert AllocAt(c, bs, k, n)[k].used;
      assert FitsAt(c, Live(bs), bs[k].start, n);
    }
  }

  // ----- what a request gets

  /** A successful request is served with enough bytes if and only if its rounding does not
      wrap around mem_size_t (or it is below the minimum anyway). */
  lemma {:induction false} MallocIsLargeEnough(c: Config, bs: seq<Block>, size: nat)
    requires Wf(c, bs) && 0 < size < c.wrap && c.Rounded(size) <= c.memSize
    requires FirstFit(c, bs, c.Rounded(size)) < |bs|
    ensures
      var k := FirstFit(c, bs, c.Rounded(size));
      var t := MallocBlocks(c, bs, size)[k];
      && t in Live(MallocBlocks(c, bs, size)) && t !in Live(bs)
      && (size <= t.DataSize(c) <==> size <= c.wrap - c.align || size <= c.minSize)
  {
    var k := FirstFit(c, bs, c.Rounded(size));
    RoundedSize(c, size);
    AllocKeeps(c, bs, k, c.Rounded(size));
    var t := TakeFrom(c, bs[k], c.Rounded(size))[0];
    SameStart(c, bs, k, t);
    assert MallocBlocks(c, bs, size)[k] == t;
    WithinHeap(c, bs, k);
    BelowWrap(c);
  }

  /** A trimmed block still covers the request if and only if the rounding of that does not wrap
      around (or it is below the minimum anyway); mem_trim returns the block in both cases. */
  lemma TrimCovers(c: Config, bs: seq<Block>, i: nat, size: nat)
    requires Wf(c, bs) && i < |bs| && bs[i].used && size < c.wrap && c.Rounded(size) <= bs[i].DataSize(c)
    ensures
      var t := Trimmed(c, bs, i, c.Rounded(size));
      && t in Live(TrimAt(c, bs, i, c.Rounded(size)))
      && (size <= t.DataSize(c) <==> size <= c.wrap - c.align || size <= c.minSize)
  {
    RoundedSize(c, size);
    TrimKeeps(c, bs, i, c.Rounded(size));
    WithinHeap(c, bs, i);
    BelowWrap(c);
  }

  lemma BelowWrap(c: Config)
    requires c.Valid()
    ensures c.memSize <= c.wrap - c.align
  {
    if c.memSize > c.wrap - c.align { CloseMultiples(c.align, c.memSize, c.wrap); }
  }

  /** A block is smaller than the heap. */
  lemma WithinHeap(c: Config, bs: seq<Block>, k: nat)
    requires Wf(c, bs) && k < |bs|
    ensures bs[k].end <= c.memSize && bs[k].DataSize(c) < c.memSize
  {
    if k < |bs| - 1 {
      StartsIncrease(bs, 0, c.memSize, k, |bs| - 1);
      assert Meet(bs, k);
    }
  }

  // ----- no block is larger than it has to be

  /** rs is a heap like bs in which block k is a live block that ends at e. */
  ghost predicate EndsAt(c: Config, bs: seq<Block>, k: nat, e: nat, rs: seq<Block>) {
    k < |bs| && Wf(c, rs) && Live(rs) == Live(bs) - {bs[k]} + {Block(bs[k].start, e, true)}
  }

  ghost predicate CanEndAt(c: Config, bs: seq<Block>, k: nat, e: nat) {
    exists rs :: EndsAt(c, bs, k, e, rs)
  }

  lemma {:induction false} AlignedDifference(n: nat, x: nat, y: nat)
    requires Aligned(n, x) && Aligned(n, y) && y <= x
    ensures Aligned(n, x - y)
    decreases y
  {
    if y > 0 { AlignedDifference(n, x - n, y - n); }
  }

  /** Of the sizes that are aligned and not below the minimum, the rounded one is the smallest
      that covers the request. */
  lemma RoundedIsLeast(c: Config, size: nat, d: nat)
    requires c.Valid() && size < c.wrap && Aligned(c.align, d) && c.minSize <= d < c.wrap && size <= d
    ensures c.Rounded(size) <= d
  {
    AlignUpBounds(c, size);
    if c.AlignUp(size) > d { CloseMultiples(c.align, c.AlignUp(size), d); }
    Truncated(c.AlignUp(size), c.wrap);
  }

  /** The data of a live block is aligned and at least of minimum size. */
  lemma HeldSize(c: Config, rs: seq<Block>, b: Block)
    requires Wf(c, rs) && b in Live(rs)
    ensures c.minSize <= b.DataSize(c) < c.memSize && Aligned(c.align, b.DataSize(c)) && b.end <= c.memSize
  {
    var j :| 0 <= j < |rs| && rs[j] == b;
    WithinHeap(c, rs, j);
    if j + 1 < |rs| { assert Meet(rs, j) && rs[j + 1].Sound(c); }
    assert rs[j].Sound(c);
    AlignedSum(c.align, b.start, c.hdr);
    AlignedDifference(c.align, b.end, b.start + c.hdr);
  }

  /** When block k ends earlier, a block of minimum size fits behind it. */
  lemma RoomBehind(c: Config, bs: seq<Block>, k: nat, e: nat, rs: seq<Block>)
    requires Wf(c, bs) && k < |bs| && (k + 1 < |bs| ==> bs[k + 1].used)
    requires EndsAt(c, bs, k, e, rs) && e < bs[k].end
    ensures e + c.hdr + c.minSize <= bs[k].end
  {
    var t := Block(bs[k].start, e, true);
    assert t in Live(rs);
    var j :| 0 <= j < |rs| && rs[j] == t;
    WithinHeap(c, bs, k);
    assert j + 1 < |rs| && Meet(rs, j) && rs[j + 1].Sound(c);
    WithinHeap(c, rs, j + 1);
    if k + 1 < |bs| {
      assert Meet(bs, k);
      BlocksDisjoint(bs, 0, c.memSize, k, k + 1);
      assert bs[k + 1] in Live(bs) && bs[k + 1] in Live(rs);
      var i :| 0 <= i < |rs| && rs[i] == bs[k + 1];
      BlocksDisjoint(rs, 0, c.memSize, i, j + 1);
    }
  }

  /** The block that mem_malloc hands out is the smallest one with room for the request that can
      start there in a well-formed heap with the same other live blocks. */
  lemma {:induction false} MallocIsSmallest(c: Config, bs: seq<Block>, size: nat)
    requires Wf(c, bs) && 0 < size < c.wrap && c.Rounded(size) <= c.memSize
    requires FirstFit(c, bs, c.Rounded(size)) < |bs|
    ensures
      var k, rs := FirstFit(c, bs, c.Rounded(size)), MallocBlocks(c, bs, size);
      && k < |rs| && rs[k].start == bs[k].start && EndsAt(c, bs, k, rs[k].end, rs)
      && forall e :: CanEndAt(c, bs, k, e) && bs[k].start + c.hdr + size <= e ==> rs[k].end <= e
  {
    var n, rs := c.Rounded(size), MallocBlocks(c, bs, size);
    var k := FirstFit(c, bs, n);
    RoundedSize(c, size);
    AllocKeeps(c, bs, k, n);
    assert bs[k] !in Live(bs) && rs[k] == TakeFrom(c, bs[k], n)[0];
    assert k + 1 < |bs| ==> NotBothFree(bs, k);
    forall e | CanEndAt(c, bs, k, e) && bs[k].start + c.hdr + size <= e ensures rs[k].end <= e {
      EndIsLeast(c, bs, k, size, e);
    }
  }

  /** The same for the block that mem_trim leaves, also when it leaves all of it. */
  lemma {:induction false} TrimIsSmallest(c: Config, bs: seq<Block>, i: nat, size: nat)
    requires Wf(c, bs) && i < |bs| && bs[i].used && size < c.wrap
    ensures
      var rs := TrimAt(c, bs, i, c.Rounded(size));
      && i < |rs| && rs[i].start == bs[i].start && EndsAt(c, bs, i, rs[i].end, rs)
      && forall e :: CanEndAt(c, bs, i, e) && bs[i].start + c.hdr + size <= e ==> rs[i].end <= e
  {
    var n := c.Rounded(size);
    var rs := TrimAt(c, bs, i, n);
    RoundedSize(c, size);
    TrimKeeps(c, bs, i, n);
    assert rs[i] == Trimmed(c, bs, i, n);
    forall e | CanEndAt(c, bs, i, e) && bs[i].start + c.hdr + size <= e ensures rs[i].end <= e {
      EndIsLeast(c, bs, i, size, e);
    }
  }

  /** Where a block with room for the request can end: not before the rounded size, and in a block
      that nothing free follows, not so that the rest is too small. */
  lemma EndIsLeast(c: Config, bs: seq<Block>, k: nat, size: nat, e: nat)
    requires Wf(c, bs) && k < |bs| && size < c.wrap && CanEndAt(c, bs, k, e) && bs[k].start + c.hdr + size <= e
    ensures bs[k].start + c.hdr + c.Rounded(size) <= e
    ensures (k + 1 < |bs| ==> bs[k + 1].used) ==> bs[k].end <= e || e + c.hdr + c.minSize <= bs[k].end
  {
    var rs :| EndsAt(c, bs, k, e, rs);
    var t := Block(bs[k].start, e, true);
    HeldSize(c, rs, t);
    RoundedIsLeast(c, size, t.DataSize(c));
    if (k + 1 < |bs| ==> bs[k + 1].used) && e < bs[k].end { RoomBehind(c, bs, k, e, rs); }
  }

  /** 16-bit sizes, 4-byte alignment and a heap of 1024 bytes. */
  const SMALL_HEAP := Config(4, 8, 12, 1024, 0x10000)

  lemma SmallHeapValid()
    ensures SMALL_HEAP.Valid() && SMALL_HEAP.Rounded(0xffff) == 12 && SMALL_HEAP.Rounded(100) == 100
  {
    AlignedIsMod(4, 8);
    AlignedIsMod(4, 12);
    AlignedIsMod(4, 1024);
    AlignedIsMod(4, 0x10000);
  }

  /** The wrap is real: a request for 65535 bytes to a fresh heap of 1024 bytes succeeds, and gets
      12 bytes. */
  lemma HugeRequestGetsMinimum()
    ensures SMALL_HEAP.Valid()
    ensures MallocBlocks(SMALL_HEAP, InitBlocks(SMALL_HEAP), 0xffff) == [Block(0, 20, true), Block(20, 1024, false)]
  {
    SmallHeapValid();
  }

  /** And a block of 100 bytes that is trimmed to 65535 bytes keeps 12 of its bytes; the others go
      to the free block behind it. */
  lemma HugeTrimLeavesMinimum()
    ensures
      var c, full := SMALL_HEAP, [Block(0, 108, true), Block(108, 1024, false)];
      && c.Valid() && MallocBlocks(c, InitBlocks(c), 100) == full
      && TrimAt(c, full, 0, c.Rounded(0xffff)) == [Block(0, 20, true), Block(20, 1024, false)]
  {
    SmallHeapValid();
  }
}
