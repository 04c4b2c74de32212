/** The heap of mem.c as it is stored: struct mem headers inside ram, linked by offsets,
    with the cached lowest-free pointer lfree. */
module Heap {
  import opened Blocks
  import opened BlocksTheorems
  import opened HeapRuns

  /** struct mem. */
  datatype Header = Header(next: nat, prev: nat, used: bool)

  /** A client pointer: NULL, or a byte offset relative to ram. */
  datatype RamPtr = Null | At(off: int)

  /** The header that block k of bs must have. */
  function HeaderOf(bs: seq<Block>, k: nat): Header
    requires k < |bs|
  {
    Header(bs[k].end, if k == 0 then 0 else bs[k - 1].start, bs[k].used)
  }

  /** Block k of bs has its header in ram, linked both ways. */
  ghost predicate HeaderAt(c: Config, ram: seq<Header>, bs: seq<Block>, k: nat) {
    k < |bs| && bs[k].start < c.memSize < |ram| && ram[bs[k].start] == HeaderOf(bs, k)
  }

  /** ram holds the headers of bs, linked both ways, and the end marker. The prev link of
      the end marker is not maintained by the code and is left open here. */
  ghost predicate Represents(c: Config, ram: seq<Header>, bs: seq<Block>) {
    && |ram| == c.memSize + 1
    && ram[c.memSize].used && ram[c.memSize].next == c.memSize
    && forall k :: 0 <= k < |bs| ==> HeaderAt(c, ram, bs, k)
  }

  lemma FirstFreeUnique(c: Config, bs: seq<Block>, k: nat)
    requires k <= |bs| && (forall i :: 0 <= i < k ==> bs[i].used) && (k < |bs| ==> !bs[k].used)
    ensures FirstFree(c, bs) == AddrOf(c, bs, k)
  {
  }

  lemma FirstFreeBefore(c: Config, bs: seq<Block>, i: nat)
    requires c.Valid() && Tiles(bs, 0, c.memSize) && AllSound(c, bs) && i < |bs| && !bs[i].used
    ensures FirstFree(c, bs) <= bs[i].start
  {
    var f := FirstFreeIndex(bs);
    if f < i { AddrIncreases(c, bs, f, i); }
  }

  lemma AddrIncreases(c: Config, bs: seq<Block>, i: nat, j: nat)
    requires c.Valid() && Tiles(bs, 0, c.memSize) && AllSound(c, bs) && i < j <= |bs|
    ensures bs[i].end <= AddrOf(c, bs, j) && (j == i + 1 ==> bs[i].end == AddrOf(c, bs, j))
    ensures AddrOf(c, bs, i) < AddrOf(c, bs, j) <= c.memSize
  {
    if j == i + 1 < |bs| { assert Meet(bs, i); }
    if j < |bs| {
      StartsIncrease(bs, 0, c.memSize, i, j);
      if j < |bs| - 1 { StartsIncrease(bs, 0, c.memSize, j, |bs| - 1); }
    } else if i < |bs| - 1 {
      StartsIncrease(bs, 0, c.memSize, i, |bs| - 1);
    }
  }

  /** The new headers ws are in place in ram, with before as the predecessor of the first. */
  ghost predicate Written(c: Config, ram: seq<Header>, ws: seq<Block>, before: nat) {
    && (forall k :: 0 <= k < |ws| ==> ws[k].start < |ram|)
    && (0 < |ws| ==> ram[ws[0].start] == Header(ws[0].end, before, ws[0].used))
    && (forall k :: 1 <= k < |ws| ==> ram[ws[k].start] == Header(ws[k].end, ws[k - 1].start, ws[k].used))
  }

  /** Blocks i to j - 1 of bs are replaced by ws: writes stay inside the replaced bytes, except
      for the prev link of the header that follows them. */
  ghost predicate Rewritten(c: Config, ram: seq<Header>, ram': seq<Header>, lo: nat, end: nat, last: nat) {
    && |ram'| == |ram| == c.memSize + 1
    && lo <= end <= c.memSize
    && (forall a :: 0 <= a < |ram| && (a < lo || end < a) ==> ram'[a] == ram[a])
    && ram'[end].next == ram[end].next && ram'[end].used == ram[end].used
    && (end < c.memSize ==> ram'[end].prev == last)
  }

  /** Only the slots x, y and z may have changed. */
  ghost predicate WritesOnly(ram: seq<Header>, ram': seq<Header>, x: nat, y: nat, z: nat) {
    |ram'| == |ram| && forall a :: 0 <= a < |ram| && a != x && a != y && a != z ==> ram'[a] == ram[a]
  }

  /** Nothing behind the first slot of b has changed: the data of the block among it. */
  ghost predicate KeepsInside(b: Block, ram: seq<Header>, ram': seq<Header>) {
    |ram'| == |ram| && forall a :: b.start < a < b.end && a < |ram| ==> ram'[a] == ram[a]
  }

  /** Live blocks keep their data: every live block of bs' that was one of bs, or is what is left
      of one. */
  ghost predicate DataKept(bs: seq<Block>, bs': seq<Block>, ram: seq<Header>, ram': seq<Header>) {
    forall b, b' :: b in Live(bs) && b' in Live(bs') && b'.start == b.start && b'.end <= b.end ==>
      KeepsInside(b', ram, ram')
  }

  /** No slot inside a block of bs has changed. */
  ghost predicate InsideKept(bs: seq<Block>, ram: seq<Header>, ram': seq<Header>) {
    forall b :: b in bs ==> KeepsInside(b, ram, ram')
  }

  /** The edges of a block lie inside no block. */
  lemma EdgeOutside(c: Config, bs: seq<Block>, i: nat, b: Block)
    requires c.Valid() && Tiles(bs, 0, c.memSize) && AllSound(c, bs) && i < |bs| && b in bs
    ensures !(b.start < bs[i].start < b.end) && !(b.start < bs[i].end < b.end)
    ensures b != bs[i] ==> b.end <= bs[i].start || bs[i].end <= b.start
  {
    var j :| 0 <= j < |bs| && bs[j] == b;
    if i != j { BlocksDisjoint(bs, 0, c.memSize, i, j); }
  }

  /** Headers of a spliced list, in terms of the original list and the replacement. */
  lemma SpliceHeaderOf(bs: seq<Block>, i: nat, j: nat, ws: seq<Block>, k: nat)
    requires i < j <= |bs| && 0 < |ws| && k < |ws| + |bs| - (j - i)
    ensures
      var rs := Splice(bs, i, j, ws);
      var m := k - |ws| - i + j;
      && (k < i ==> rs[k] == bs[k] && HeaderOf(rs, k) == HeaderOf(bs, k))
      && (i == k ==> rs[k] == ws[0] && HeaderOf(rs, k) == Header(ws[0].end, HeaderOf(bs, i).prev, ws[0].used))
      && (i < k < i + |ws| ==>
            && rs[k] == ws[k - i]
            && HeaderOf(rs, k) == Header(ws[k - i].end, ws[k - i - 1].start, ws[k - i].used))
      && (k == i + |ws| ==> rs[k] == bs[j] && HeaderOf(rs, k) == Header(bs[j].end, ws[|ws| - 1].start, bs[j].used))
      && (k > i + |ws| ==> j < m < |bs| && rs[k] == bs[m] && HeaderOf(rs, k) == HeaderOf(bs, m))
  {
    var rs := Splice(bs, i, j, ws);
    if k > i + |ws| {
      var m := k - |ws| - i + j;
      assert rs[k - 1] == bs[m - 1];
    }
  }

  lemma SpliceRepresents(c: Config, ram: seq<Header>, bs: seq<Block>, i: nat, j: nat, ws: seq<Block>, ram': seq<Header>)
    requires c.Valid() && Tiles(bs, 0, c.memSize) && AllSound(c, bs) && Represents(c, ram, bs)
    requires i < j <= |bs| && 0 < |ws| && Tiles(ws, bs[i].start, bs[j - 1].end) && NonEmptyBlocks(ws)
    requires Rewritten(c, ram, ram', bs[i].start, bs[j - 1].end, ws[|ws| - 1].start)
    requires Written(c, ram', ws, HeaderOf(bs, i).prev)
    ensures Represents(c, ram', Splice(bs, i, j, ws))
  {
    forall k | 0 <= k < |Splice(bs, i, j, ws)| ensures HeaderAt(c, ram', Splice(bs, i, j, ws), k) {
      SplicedHeader(c, ram, bs, i, j, ws, ram', k);
    }
    assert bs[j - 1].end <= c.memSize;
  }

  lemma SplicedHeader(c: Config, ram: seq<Header>, bs: seq<Block>, i: nat, j: nat, ws: seq<Block>, ram': seq<Header>,
                      k: nat)
    requires c.Valid() && Tiles(bs, 0, c.memSize) && AllSound(c, bs) && Represents(c, ram, bs)
    requires i < j <= |bs| && 0 < |ws| && Tiles(ws, bs[i].start, bs[j - 1].end) && NonEmptyBlocks(ws)
    requires Rewritten(c, ram, ram', bs[i].start, bs[j - 1].end, ws[|ws| - 1].start)
    requires Written(c, ram', ws, HeaderOf(bs, i).prev)
    requires k < |ws| + |bs| - (j - i)
    ensures HeaderAt(c, ram', Splice(bs, i, j, ws), k)
  {
    SpliceHeaderOf(bs, i, j, ws, k);
    if k < i {
      assert HeaderAt(c, ram, bs, k);
      AddrIncreases(c, bs, k, i);
    } else if k < i + |ws| {
      if k < i + |ws| - 1 { StartsIncrease(ws, bs[i].start, bs[j - 1].end, k - i, |ws| - 1); }
      AddrIncreases(c, bs, j - 1, j);
    } else {
      AfterSplice(c, ram, bs, i, j, ws, ram', k - |ws| - i + j);
    }
  }

  lemma AfterSplice(c: Config, ram: seq<Header>, bs: seq<Block>, i: nat, j: nat, ws: seq<Block>, ram': seq<Header>,
                    m: nat)
    requires c.Valid() && Tiles(bs, 0, c.memSize) && AllSound(c, bs) && Represents(c, ram, bs)
    requires i < j <= m < |bs| && 0 < |ws|
    requires Rewritten(c, ram, ram', bs[i].start, bs[j - 1].end, ws[|ws| - 1].start)
    ensures bs[m].start < c.memSize
    ensures ram'[bs[m].start] == if m == j then HeaderOf(bs, j).(prev := ws[|ws| - 1].start) else HeaderOf(bs, m)
  {
    assert HeaderAt(c, ram, bs, m);
    AddrIncreases(c, bs, j - 1, j);
    if j < m { AddrIncreases(c, bs, j, m); }
  }

  /** Block i of bs, the link to its successor, and the header found there. */
  lemma NextHeader(c: Config, ram: seq<Header>, bs: seq<Block>, i: nat)
    requires c.Valid() && Tiles(bs, 0, c.memSize) && AllSound(c, bs) && Represents(c, ram, bs) && i < |bs|
    ensures bs[i].start < c.memSize
    ensures bs[i].start < ram[bs[i].start].next == AddrOf(c, bs, i + 1) <= c.memSize
    ensures ram[AddrOf(c, bs, i + 1)].used == (i + 1 == |bs| || bs[i + 1].used)
    ensures i + 1 < |bs| <==> AddrOf(c, bs, i + 1) != c.memSize
  {
    assert HeaderAt(c, ram, bs, i);
    AddrIncreases(c, bs, i, i + 1);
    if i + 1 < |bs| { assert HeaderAt(c, ram, bs, i + 1); }
  }

  /** The list, its headers and the cached lowest free block agree. */
  ghost predicate LinkedTo(c: Config, ram: seq<Header>, bs: seq<Block>, lfree: int) {
    && c.Valid() && Tiles(bs, 0, c.memSize) && AllSound(c, bs)
    && Represents(c, ram, bs) && lfree == FirstFree(c, bs)
  }

  lemma MergeRepresents(c: Config, ram: seq<Header>, bs: seq<Block>, i: nat, ram': seq<Header>)
    requires c.Valid() && Tiles(bs, 0, c.memSize) && AllSound(c, bs) && Represents(c, ram, bs)
    requires i + 1 < |bs| && !bs[i].used && !bs[i + 1].used
    requires Rewritten(c, ram, ram', bs[i].start, bs[i + 1].end, bs[i].start)
    requires ram'[bs[i].start] == ram[bs[i].start].(next := bs[i + 1].end)
    ensures Represents(c, ram', Splice(bs, i, i + 2, [Block(bs[i].start, bs[i + 1].end, false)]))
  {
    assert HeaderAt(c, ram, bs, i);
    AddrIncreases(c, bs, i, i + 1);
    AddrIncreases(c, bs, i + 1, i + 2);
    SpliceRepresents(c, ram, bs, i, i + 2, [Block(bs[i].start, bs[i + 1].end, false)], ram');
  }

  lemma MergeFirstFree(c: Config, bs: seq<Block>, i: nat)
    requires i + 1 < |bs| && !bs[i].used && !bs[i + 1].used
    ensures FirstFree(c, Splice(bs, i, i + 2, [Block(bs[i].start, bs[i + 1].end, false)])) == FirstFree(c, bs)
  {
    var f := FirstFreeIndex(bs);
    FirstFreeUnique(c, Splice(bs, i, i + 2, [Block(bs[i].start, bs[i + 1].end, false)]), f);
  }

  /** Everything about the two writes of plug_holes that merge free blocks i and i + 1. */
  lemma MergeLinked(c: Config, ram: seq<Header>, bs: seq<Block>, lfree: int, i: nat, ram': seq<Header>)
    requires LinkedTo(c, ram, bs, lfree) && i + 1 < |bs| && !bs[i].used && !bs[i + 1].used
    requires bs[i].start < |ram| && Rewritten(c, ram, ram', bs[i].start, bs[i + 1].end, bs[i].start)
    requires ram'[bs[i].start] == ram[bs[i].start].(next := bs[i + 1].end)
    requires WritesOnly(ram, ram', bs[i].start, bs[i].start, bs[i + 1].end)
    ensures
      var rs := Splice(bs, i, i + 2, [Block(bs[i].start, bs[i + 1].end, false)]);
      Represents(c, ram', rs) && FirstFree(c, rs) == lfree
    ensures InsideKept(bs, ram, ram')
  {
    MergeRepresents(c, ram, bs, i, ram');
    MergeFirstFree(c, bs, i);
    forall b | b in bs ensures KeepsInside(b, ram, ram') {
      EdgeOutside(c, bs, i, b);
      EdgeOutside(c, bs, i + 1, b);
    }
  }

  lemma PrevHeader(c: Config, ram: seq<Header>, bs: seq<Block>, i: nat)
    requires c.Valid() && Tiles(bs, 0, c.memSize) && AllSound(c, bs) && Represents(c, ram, bs) && i < |bs|
    ensures bs[i].start < c.memSize
    ensures
      var p := ram[bs[i].start].prev;
      if i == 0 then p == bs[i].start else p == bs[i - 1].start < bs[i].start && ram[p].used == bs[i - 1].used
  {
    assert HeaderAt(c, ram, bs, i);
    if i > 0 {
      assert HeaderAt(c, ram, bs, i - 1);
      AddrIncreases(c, bs, i - 1, i);
    }
  }

  lemma MarkFreeLinked(c: Config, ram: seq<Header>, bs: seq<Block>, i: nat, ram': seq<Header>)
    requires Wf(c, bs) && Represents(c, ram, bs) && i < |bs| && bs[i].used && bs[i].start < |ram|
    requires ram' == ram[bs[i].start := ram[bs[i].start].(used := false)]
    ensures Represents(c, ram', MarkFree(bs, i))
    ensures FirstFree(c, MarkFree(bs, i)) ==
            if bs[i].start < FirstFree(c, bs) then bs[i].start else FirstFree(c, bs)
  {
    var w := Block(bs[i].start, bs[i].end, false);
    assert HeaderAt(c, ram, bs, i);
    AddrIncreases(c, bs, i, i + 1);
    if i + 1 < |bs| { assert HeaderAt(c, ram, bs, i + 1); }
    SpliceRepresents(c, ram, bs, i, i + 1, [w], ram');
    var f := FirstFreeIndex(bs);
    if f < i {
      AddrIncreases(c, bs, f, i);
      FirstFreeUnique(c, MarkFree(bs, i), f);
    } else {
      AddrIncreases(c, bs, i, f);
      FirstFreeUnique(c, MarkFree(bs, i), i);
    }
  }

  lemma MarkFreeData(c: Config, bs: seq<Block>, i: nat, ram: seq<Header>, ram': seq<Header>)
    requires Wf(c, bs) && i < |bs| && bs[i].start < |ram|
    requires ram' == ram[bs[i].start := ram[bs[i].start].(used := false)]
    ensures InsideKept(bs, ram, ram')
  {
    forall b | b in bs ensures KeepsInside(b, ram, ram') { EdgeOutside(c, bs, i, b); }
  }

  /** The three steps of mem_free keep the data of the blocks that stay live. */
  lemma FreeData(c: Config, bs: seq<Block>, i: nat, r0: seq<Header>, r1: seq<Header>, r2: seq<Header>, r3: seq<Header>)
    requires Wf(c, bs) && i < |bs| && bs[i].used
    requires InsideKept(bs, r0, r1) && InsideKept(MarkFree(bs, i), r1, r2)
    requires InsideKept(PlugForward(MarkFree(bs, i), i), r2, r3)
    ensures DataKept(bs, FreeAt(bs, i), r0, r3)
  {
    MarkFreeKeeps(c, bs, i);
    PlugForwardKeeps(c, MarkFree(bs, i), i);
    FreeKeeps(c, bs, i);
    forall b, b' | b in Live(bs) && b' in Live(FreeAt(bs, i)) && b'.start == b.start && b'.end <= b.end
      ensures KeepsInside(b', r0, r3)
    {
      assert b' in Live(MarkFree(bs, i)) && b' in Live(PlugForward(MarkFree(bs, i), i)) && b' in bs;
    }
  }

  lemma FirstFitUnique(c: Config, bs: seq<Block>, size: nat, k: nat)
    requires k < |bs| && !bs[k].used && size <= bs[k].DataSize(c)
    requires forall i :: 0 <= i < k ==> bs[i].used || bs[i].DataSize(c) < size
    ensures FirstFit(c, bs, size) == k
  {
  }

  /** The search may stop once too few bytes are left for any block. */
  lemma {:induction false} NothingBeyond(c: Config, bs: seq<Block>, size: nat, k: nat)
    requires c.Valid() && Tiles(bs, 0, c.memSize) && AllSound(c, bs) && k <= |bs|
    requires forall i :: 0 <= i < k ==> bs[i].used || bs[i].DataSize(c) < size
    requires AddrOf(c, bs, k) >= c.memSize - size
    ensures FirstFit(c, bs, size) == |bs|
  {
    var f := FirstFit(c, bs, size);
    if f < |bs| {
      AddrIncreases(c, bs, f, |bs|);
      if k < f { AddrIncreases(c, bs, k, f); }
    }
  }

  lemma EndHeader(c: Config, ram: seq<Header>, bs: seq<Block>, k: nat)
    requires c.Valid() && Tiles(bs, 0, c.memSize) && AllSound(c, bs) && Represents(c, ram, bs) && k <= |bs|
    ensures AddrOf(c, bs, k) <= c.memSize
    ensures ram[AddrOf(c, bs, k)].used == (k == |bs| || bs[k].used)
    ensures AddrOf(c, bs, k) == c.memSize <==> k == |bs|
  {
    if k < |bs| {
      assert HeaderAt(c, ram, bs, k);
    }
  }

  /** off is the data pointer of a live block. */
  ghost predicate Owned(c: Config, bs: seq<Block>, off: int) {
    exists i :: 0 <= i < |bs| && bs[i].used && bs[i].start + c.hdr == off
  }

  /** The index of the live block whose data start at off. */
  ghost function Holder(c: Config, bs: seq<Block>, off: int): (i: nat)
    requires Owned(c, bs, off)
    ensures i < |bs| && bs[i].used && bs[i].start + c.hdr == off
  {
    var i :| 0 <= i < |bs| && bs[i].used && bs[i].start + c.hdr == off;
    i
  }

  /** The headers written by the allocation branch of mem_malloc. */
  lemma {:induction false} TakeRepresents(c: Config, ram: seq<Header>, bs: seq<Block>, k: nat, size: nat,
                                          ram': seq<Header>)
    requires Wf(c, bs) && Represents(c, ram, bs) && k < |bs| && !bs[k].used
    requires Aligned(c.align, size) && c.minSize <= size <= bs[k].DataSize(c) && bs[k].start < bs[k].end < |ram|
    requires
      var ws := TakeFrom(c, bs[k], size);
      || (|ws| == 1 && ram' == ram[bs[k].start := ram[bs[k].start].(used := true)])
      || (|ws| == 2 && Rewritten(c, ram, ram', bs[k].start, bs[k].end, ws[1].start)
          && Written(c, ram', ws, ram[bs[k].start].prev))
    ensures Represents(c, ram', AllocAt(c, bs, k, size))
  {
    var ws := TakeFrom(c, bs[k], size);
    TakeFromSound(c, bs[k], size);
    assert HeaderAt(c, ram, bs, k);
    if |ws| == 1 { WholeTaken(c, ram, bs, k, ws, ram'); }
    SpliceRepresents(c, ram, bs, k, k + 1, ws, ram');
  }

  lemma WholeTaken(c: Config, ram: seq<Header>, bs: seq<Block>, k: nat, ws: seq<Block>, ram': seq<Header>)
    requires Wf(c, bs) && Represents(c, ram, bs) && k < |bs| && bs[k].start < bs[k].end < |ram|
    requires ws == [Block(bs[k].start, bs[k].end, true)]
    requires ram' == ram[bs[k].start := ram[bs[k].start].(used := true)]
    ensures Rewritten(c, ram, ram', bs[k].start, bs[k].end, bs[k].start)
    ensures Written(c, ram', ws, HeaderOf(bs, k).prev)
  {
    AddrIncreases(c, bs, k, k + 1);
    assert HeaderAt(c, ram, bs, k) && (k + 1 < |bs| ==> HeaderAt(c, ram, bs, k + 1));
  }

  lemma TakeFirstFree(c: Config, bs: seq<Block>, k: nat, size: nat)
    requires Wf(c, bs) && k < |bs| && !bs[k].used
    ensures
      var rs := AllocAt(c, bs, k, size);
      if FirstFree(c, bs) == bs[k].start
      then AddrOf(c, rs, k) == bs[k].start && forall i :: 0 <= i < k ==> rs[i].used
      else FirstFree(c, rs) == FirstFree(c, bs)
  {
    var rs := AllocAt(c, bs, k, size);
    var f := FirstFreeIndex(bs);
    if f < k {
      AddrIncreases(c, bs, f, k);
      FirstFreeUnique(c, rs, f);
    }
  }

  /** The headers written by mem_trim when it ends block i at a lower address. */
  lemma CutRepresents(c: Config, ram: seq<Header>, bs: seq<Block>, i: nat, j: nat, cut: nat, ram': seq<Header>)
    requires Wf(c, bs) && Represents(c, ram, bs) && i < j <= |bs|
    requires bs[i].start < cut < bs[j - 1].end < |ram|
    requires Rewritten(c, ram, ram', bs[i].start, bs[j - 1].end, cut)
    requires Written(c, ram', Pair(bs[i].start, cut, bs[j - 1].end), ram[bs[i].start].prev)
    ensures Represents(c, ram', Splice(bs, i, j, Pair(bs[i].start, cut, bs[j - 1].end)))
  {
    assert HeaderAt(c, ram, bs, i);
    assert Meet(Pair(bs[i].start, cut, bs[j - 1].end), 0);
    SpliceRepresents(c, ram, bs, i, j, Pair(bs[i].start, cut, bs[j - 1].end), ram');
  }

  lemma MoveFirstFree(c: Config, bs: seq<Block>, i: nat, cut: nat)
    requires Wf(c, bs) && i + 1 < |bs| && bs[i].used && !bs[i + 1].used
    ensures
      var rs := Splice(bs, i, i + 2, Pair(bs[i].start, cut, bs[i + 1].end));
      FirstFree(c, rs) == if FirstFree(c, bs) == bs[i + 1].start then cut else FirstFree(c, bs)
  {
    var f := FirstFreeIndex(bs);
    FirstFreeUnique(c, Splice(bs, i, i + 2, Pair(bs[i].start, cut, bs[i + 1].end)), f);
    if f < i + 1 { AddrIncreases(c, bs, f, i + 1); }
  }

  lemma CutFirstFree(c: Config, bs: seq<Block>, i: nat, cut: nat)
    requires Wf(c, bs) && i < |bs| && bs[i].used && bs[i].start < cut < bs[i].end
    ensures
      var rs := Splice(bs, i, i + 1, Pair(bs[i].start, cut, bs[i].end));
      FirstFree(c, rs) == if cut < FirstFree(c, bs) then cut else FirstFree(c, bs)
  {
    var f := FirstFreeIndex(bs);
    var rs := Splice(bs, i, i + 1, Pair(bs[i].start, cut, bs[i].end));
    if f < i {
      AddrIncreases(c, bs, f, i);
      FirstFreeUnique(c, rs, f);
    } else {
      AddrIncreases(c, bs, i, f);
      FirstFreeUnique(c, rs, i + 1);
    }
  }

  /** Writing at the start of block i, inside it, and at the end of it or of its free successor
      keeps the data of all other live blocks, and of block i below the inner write. */
  lemma SplitData(c: Config, bs: seq<Block>, i: nat, j: nat, cut: nat, ram: seq<Header>, ram': seq<Header>)
    requires c.Valid() && Tiles(bs, 0, c.memSize) && AllSound(c, bs)
    requires i <= j < |bs| && bs[i].start < cut <= bs[i].end
    requires WritesOnly(ram, ram', bs[i].start, cut, bs[j].end)
    ensures forall b :: b in bs && b != bs[i] ==> KeepsInside(b, ram, ram')
    ensures KeepsInside(Block(bs[i].start, cut, true), ram, ram')
  {
    forall b | b in bs && b != bs[i] ensures KeepsInside(b, ram, ram') {
      EdgeOutside(c, bs, i, b);
      EdgeOutside(c, bs, j, b);
    }
    if i < j { EdgeOutside(c, bs, i, bs[j]); }
    if i < j { StartsIncrease(bs, 0, c.memSize, i, j); }
  }

  /** A trim keeps the data of live blocks, and what is left of the trimmed one. */
  lemma CutData(c: Config, bs: seq<Block>, i: nat, j: nat, cut: nat, rs: seq<Block>,
                ram: seq<Header>, ram': seq<Header>)
    requires c.Valid() && Tiles(bs, 0, c.memSize) && AllSound(c, bs)
    requires i <= j < |bs| && bs[i].used && bs[i].start < cut <= bs[i].end
    requires WritesOnly(ram, ram', bs[i].start, cut, bs[j].end)
    requires Live(rs) == Live(bs) - {bs[i]} + {Block(bs[i].start, cut, true)}
    ensures DataKept(bs, rs, ram, ram')
  {
    SplitData(c, bs, i, j, cut, ram, ram');
    forall b, b' | b in Live(bs) && b' in Live(rs) && b'.start == b.start && b'.end <= b.end
      ensures KeepsInside(b', ram, ram')
    {
      assert b' == Block(bs[i].start, cut, true) || (b' in bs && b' != bs[i]);
    }
  }

  lemma {:induction false} TwoInRow(c: Config, ram: seq<Header>, bs: seq<Block>, i: nat)
    requires c.Valid() && Tiles(bs, 0, c.memSize) && AllSound(c, bs) && Represents(c, ram, bs) && i + 1 < |bs|
    ensures bs[i].start < bs[i].end == bs[i + 1].start < bs[i + 1].end <= c.memSize < |ram|
    ensures ram[bs[i + 1].start].next == bs[i + 1].end
  {
    NextHeader(c, ram, bs, i + 1);
    AddrIncreases(c, bs, i, i + 1);
    AddrIncreases(c, bs, i + 1, i + 2);
    assert Meet(bs, i);
  }

  /** Everything about the writes of mem_trim that move a free successor down. */
  lemma {:induction false} MoveDownLinked(c: Config, ram: seq<Header>, bs: seq<Block>, lfree: int, i: nat, size: nat,
                                          ram': seq<Header>)
    requires Wf(c, bs) && LinkedTo(c, ram, bs, lfree) && i + 1 < |bs| && bs[i].used && !bs[i + 1].used
    requires Aligned(c.align, size) && c.minSize <= size < bs[i].DataSize(c) && bs[i].start < |ram|
    requires
      var cut, end := bs[i].start + c.hdr + size, bs[i + 1].end;
      && Rewritten(c, ram, ram', bs[i].start, end, cut) && WritesOnly(ram, ram', bs[i].start, cut, end)
      && Written(c, ram', Pair(bs[i].start, cut, end), ram[bs[i].start].prev)
    ensures
      var cut, rs := bs[i].start + c.hdr + size, TrimAt(c, bs, i, size);
      && Wf(c, rs) && LinkedTo(c, ram', rs, if lfree == bs[i + 1].start then cut else lfree)
      && DataKept(bs, rs, ram, ram')
  {
    var cut, rs := bs[i].start + c.hdr + size, TrimAt(c, bs, i, size);
    TrimMoves(c, bs, i, size);
    assert bs[i].end == bs[i + 1].start < bs[i + 1].end <= c.memSize by {
      AddrIncreases(c, bs, i + 1, i + 2);
      assert Meet(bs, i);
    }
    assert Represents(c, ram', rs) by { CutRepresents(c, ram, bs, i, i + 2, cut, ram'); }
    assert FirstFree(c, rs) == if lfree == bs[i + 1].start then cut else lfree by { MoveFirstFree(c, bs, i, cut); }
    assert DataKept(bs, rs, ram, ram') by { CutData(c, bs, i, i + 1, cut, rs, ram, ram'); }
  }

  /** Everything about the writes of mem_trim that split off a new free block. */
  lemma {:induction false} SplitOffLinked(c: Config, ram: seq<Header>, bs: seq<Block>, lfree: int, i: nat, size: nat,
                                          ram': seq<Header>)
    requires Wf(c, bs) && LinkedTo(c, ram, bs, lfree) && i < |bs| && bs[i].used && (i + 1 < |bs| ==> bs[i + 1].used)
    requires Aligned(c.align, size) && c.minSize <= size && size + c.hdr + c.minSize <= bs[i].DataSize(c)
    requires
      var cut, end := bs[i].start + c.hdr + size, bs[i].end;
      && bs[i].start < |ram|
      && Rewritten(c, ram, ram', bs[i].start, end, cut) && WritesOnly(ram, ram', bs[i].start, cut, end)
      && Written(c, ram', Pair(bs[i].start, cut, end), ram[bs[i].start].prev)
    ensures
      var cut, rs := bs[i].start + c.hdr + size, TrimAt(c, bs, i, size);
      && Wf(c, rs) && LinkedTo(c, ram', rs, if cut < lfree then cut else lfree)
      && DataKept(bs, rs, ram, ram')
  {
    var cut, rs := bs[i].start + c.hdr + size, TrimAt(c, bs, i, size);
    TrimSplits(c, bs, i, size);
    assert bs[i].end <= c.memSize by { AddrIncreases(c, bs, i, i + 1); }
    assert Represents(c, ram', rs) by { CutRepresents(c, ram, bs, i, i + 1, cut, ram'); }
    assert FirstFree(c, rs) == if cut < lfree then cut else lfree by { CutFirstFree(c, bs, i, cut); }
    assert DataKept(bs, rs, ram, ram') by { CutData(c, bs, i, i, cut, rs, ram, ram'); }
  }

  /** An allocation from the free block k keeps the data of all live blocks. */
  lemma {:induction false} TakeData(c: Config, bs: seq<Block>, k: nat, size: nat, cut: nat, ram: seq<Header>,
                                    ram': seq<Header>)
    requires Wf(c, bs) && k < |bs| && !bs[k].used && bs[k].start < cut <= bs[k].end
    requires Aligned(c.align, size) && c.minSize <= size <= bs[k].DataSize(c)
    requires WritesOnly(ram, ram', bs[k].start, cut, bs[k].end)
    ensures DataKept(bs, AllocAt(c, bs, k, size), ram, ram')
  {
    var rs := AllocAt(c, bs, k, size);
    AllocKeeps(c, bs, k, size);
    SplitData(c, bs, k, k, cut, ram, ram');
    forall b, b' | b in Live(bs) && b' in Live(rs) && b'.start == b.start && b'.end <= b.end
      ensures KeepsInside(b', ram, ram')
    {
      EdgeOutside(c, bs, k, b);
      assert b' in Live(bs);
    }
  }

  class Mem {
    const c: Config
    /** One header slot per byte offset; slots that are not block starts are user data. */
    const ram: array<Header>
    var lfree: int
    ghost var blocks: seq<Block>

    ghost predicate Linked()
      reads this, ram
    {
      LinkedTo(c, ram[..], blocks, lfree)
    }

    ghost predicate Valid()
      reads this, ram
    {
      Wf(c, blocks) && Linked()
    }

    /** mem_init. */
    constructor (c: Config)
      requires c.Valid()
      ensures this.c == c && Valid() && blocks == InitBlocks(c) && fresh(ram)
    {
      this.c := c;
      var heap := new Header[c.memSize + 1](_ => Header(0, 0, false));
      heap[0] := Header(c.memSize, 0, false);
      heap[c.memSize] := Header(c.memSize, c.memSize, true);
      ram := heap;
      lfree := 0;
      blocks := InitBlocks(c);
      InitKeeps(c);
      FirstFreeUnique(c, InitBlocks(c), 0);
    }

    /** The two writes that make the block at first reach to the end of the one at second. */
    method WriteMerge(first: nat, second: nat)
      requires ram.Length == c.memSize + 1 && first < second <= c.memSize && second < ram[second].next <= c.memSize
      modifies ram
      ensures
        var next := old(ram[second].next);
        && Rewritten(c, old(ram[..]), ram[..], first, next, first)
        && ram[first] == old(ram[first]).(next := next)
        && WritesOnly(old(ram[..]), ram[..], first, first, next)
    {
      ram[first] := ram[first].(next := ram[second].next);
      ram[ram[second].next] := ram[ram[second].next].(prev := first);
    }

    /** plug_holes, forward half. */
    method PlugHoleForward(mem: nat, ghost i: nat)
      requires Linked() && WfExceptAt(c, blocks, i) && mem == blocks[i].start
      modifies this, ram
      ensures Linked() && blocks == PlugForward(old(blocks), i) && InsideKept(old(blocks), old(ram[..]), ram[..])
    {
      NextHeader(c, ram[..], blocks, i);
      PlugForwardKeeps(c, blocks, i);
      var nmem := ram[mem].next;
      if mem != nmem && !ram[nmem].used && nmem != c.memSize {
        NextHeader(c, ram[..], blocks, i + 1);
        FirstFreeBefore(c, blocks, i);
        AddrIncreases(c, blocks, i + 1, i + 2);
        lfree := if lfree == nmem then mem else lfree;
        WriteMerge(mem, nmem);
        MergeLinked(c, old(ram[..]), blocks, lfree, i, ram[..]);
        blocks := PlugForward(blocks, i);
      }
    }

    /** plug_holes, backward half. */
    method PlugHoleBackward(mem: nat, ghost i: nat)
      requires Linked() && WfExceptAt(c, blocks, i) && mem == blocks[i].start
      requires i + 1 < |blocks| ==> blocks[i + 1].used
      modifies this, ram
      ensures Valid() && blocks == PlugBackward(old(blocks), i) && InsideKept(old(blocks), old(ram[..]), ram[..])
    {
      NextHeader(c, ram[..], blocks, i);
      PrevHeader(c, ram[..], blocks, i);
      PlugBackwardKeeps(c, blocks, i);
      var pmem := ram[mem].prev;
      if pmem != mem && !ram[pmem].used {
        FirstFreeBefore(c, blocks, i - 1);
        AddrIncreases(c, blocks, i - 1, i);
        AddrIncreases(c, blocks, i, i + 1);
        lfree := if lfree == mem then pmem else lfree;
        WriteMerge(pmem, mem);
        MergeLinked(c, old(ram[..]), blocks, lfree, i - 1, ram[..]);
        blocks := PlugBackward(blocks, i);
      }
    }

    /** plug_holes. */
    method PlugHoles(mem: nat, ghost i: nat) returns (ghost mid: seq<Header>)
      requires Linked() && WfExceptAt(c, blocks, i) && mem == blocks[i].start
      modifies this, ram
      ensures Valid() && blocks == PlugBackward(PlugForward(old(blocks), i), i)
      ensures InsideKept(old(blocks), old(ram[..]), mid) && InsideKept(PlugForward(old(blocks), i), mid, ram[..])
    {
      PlugForwardKeeps(c, blocks, i);
      PlugHoleForward(mem, i);
      mid := ram[..];
      PlugHoleBackward(mem, i);
    }

    ghost predicate InHeap(p: RamPtr) {
      p.At? && 0 <= p.off < c.memSize
    }

    /** mem_free. NULL and pointers outside the heap are ignored; a pointer inside it must be
        one that Malloc returned. */
    method Free(rmem: RamPtr)
      requires Valid() && (InHeap(rmem) ==> Owned(c, blocks, rmem.off))
      modifies this, ram
      ensures Valid()
      ensures blocks == if InHeap(rmem) then FreeAt(old(blocks), Holder(c, old(blocks), rmem.off)) else old(blocks)
      ensures DataKept(old(blocks), blocks, old(ram[..]), ram[..])
    {
      if rmem.Null? {
        return;
      }
      if rmem.off < 0 || rmem.off >= c.memSize {
        return;
      }
      ghost var i := Holder(c, blocks, rmem.off);
      var mem := rmem.off - c.hdr;
      ClearUsed(mem, i);
      ghost var marked := ram[..];
      ghost var mid := PlugHoles(mem, i);
      FreeData(c, old(blocks), i, old(ram[..]), marked, mid, ram[..]);
    }

    /** The part of mem_free before plug_holes. */
    method ClearUsed(mem: nat, ghost i: nat)
      requires Valid() && i < |blocks| && blocks[i].used && mem == blocks[i].start
      modifies this, ram
      ensures Linked() && WfExceptAt(c, blocks, i) && blocks == MarkFree(old(blocks), i)
      ensures InsideKept(old(blocks), old(ram[..]), ram[..])
    {
      ghost var r0, bs := ram[..], blocks;
      NextHeader(c, r0, bs, i);
      ram[mem] := ram[mem].(used := false);
      if mem < lfree {
        lfree := mem;
      }
      MarkFreeKeeps(c, bs, i);
      MarkFreeLinked(c, r0, bs, i, ram[..]);
      MarkFreeData(c, bs, i, r0, ram[..]);
      blocks := MarkFree(bs, i);
    }

    /** The search loop of mem_malloc: from lfree, over the next links, up to MEM_SIZE_ALIGNED - size. */
    method Search(size: nat) returns (found: bool, ptr: nat)
      requires Valid() && c.minSize <= size <= c.memSize
      ensures found == (FirstFit(c, blocks, size) < |blocks|)
      ensures found ==> ptr == blocks[FirstFit(c, blocks, size)].start
    {
      ghost var k := FirstFreeIndex(blocks);
      ptr := lfree;
      while ptr < c.memSize - size
        invariant k <= |blocks| && ptr == AddrOf(c, blocks, k)
        invariant forall i :: 0 <= i < k ==> blocks[i].used || blocks[i].DataSize(c) < size
        decreases |blocks| - k
      {
        NextHeader(c, ram[..], blocks, k);
        assert HeaderAt(c, ram[..], blocks, k);
        if !ram[ptr].used && ram[ptr].next - (ptr + c.hdr) >= size {
          FirstFitUnique(c, blocks, size, k);
          return true, ptr;
        }
        ptr := ram[ptr].next;
        k := k + 1;
      }
      NothingBeyond(c, blocks, size, k);
      return false, 0;
    }

    /** The loop of mem_malloc that moves lfree past used blocks. */
    method AdvanceLfree(ghost i: nat)
      requires c.Valid() && Tiles(blocks, 0, c.memSize) && AllSound(c, blocks) && Represents(c, ram[..], blocks)
      requires i <= |blocks| && lfree == AddrOf(c, blocks, i)
      requires forall k :: 0 <= k < i ==> blocks[k].used
      modifies `lfree
      ensures Linked()
    {
      ghost var k := i;
      var cur := lfree;
      EndHeader(c, ram[..], blocks, k);
      while ram[cur].used && cur != c.memSize
        invariant i <= k <= |blocks| && cur == AddrOf(c, blocks, k) <= c.memSize
        invariant ram[cur].used == (k == |blocks| || blocks[k].used)
        invariant cur == c.memSize <==> k == |blocks|
        invariant forall m :: 0 <= m < k ==> blocks[m].used
        decreases |blocks| - k
      {
        NextHeader(c, ram[..], blocks, k);
        cur := ram[cur].next;
        k := k + 1;
      }
      lfree := cur;
      FirstFreeUnique(c, blocks, k);
    }

    /** mem_malloc. */
    method Malloc(request: nat) returns (p: RamPtr)
      requires Valid() && request < c.wrap
      modifies this, ram
      ensures Valid() && blocks == MallocBlocks(c, old(blocks), request)
      ensures
        var k := FirstFit(c, old(blocks), c.Rounded(request));
        p == if request == 0 || c.Rounded(request) > c.memSize || k == |old(blocks)| then Null
             else At(old(blocks)[k].start + c.hdr)
      ensures DataKept(old(blocks), blocks, old(ram[..]), ram[..])
    {
      if request == 0 {
        return Null;
      }
      RoundedSize(c, request);
      var size := c.Rounded(request);
      if size > c.memSize {
        return Null;
      }
      var found, ptr := Search(size);
      if !found {
        return Null;
      }
      Take(ptr, size, FirstFit(c, blocks, size));
      return At(ptr + c.hdr);
    }

    /** Write the headers of a used block [ptr, ptr2) and a free block [ptr2, next), and let
        the header at next point back to the latter. */
    method WriteSplit(ptr: nat, ptr2: nat, next: nat)
      requires ptr < ptr2 < next <= c.memSize && ram.Length == c.memSize + 1
      modifies ram
      ensures Rewritten(c, old(ram[..]), ram[..], ptr, next, ptr2)
      ensures Written(c, ram[..], Pair(ptr, ptr2, next), old(ram[ptr].prev))
      ensures WritesOnly(old(ram[..]), ram[..], ptr, ptr2, next)
    {
      ram[ptr2] := Header(next, ptr, false);
      ram[ptr] := Header(ptr2, ram[ptr].prev, true);
      if ram[ptr2].next != c.memSize {
        ram[ram[ptr2].next] := ram[ram[ptr2].next].(prev := ptr2);
      }
    }

    /** The allocation branch of mem_malloc, for the block found by the search. */
    method Take(ptr: nat, size: nat, ghost k: nat)
      requires Valid() && k < |blocks| && ptr == blocks[k].start && !blocks[k].used
      requires Aligned(c.align, size) && c.minSize <= size <= blocks[k].DataSize(c)
      modifies this, ram
      ensures Valid() && blocks == AllocAt(c, old(blocks), k, size)
      ensures DataKept(old(blocks), blocks, old(ram[..]), ram[..])
    {
      WriteTaken(ptr, size, k);
      AllocKeeps(c, blocks, k, size);
      TakeRepresents(c, old(ram[..]), blocks, k, size, ram[..]);
      TakeFirstFree(c, blocks, k, size);
      blocks := AllocAt(c, blocks, k, size);
      if ptr == lfree {
        AdvanceLfree(k);
      }
    }

    /** The header writes of that branch. */
    method WriteTaken(ptr: nat, size: nat, ghost k: nat)
      requires Valid() && k < |blocks| && ptr == blocks[k].start && !blocks[k].used
      requires Aligned(c.align, size) && c.minSize <= size <= blocks[k].DataSize(c)
      modifies ram
      ensures blocks[k].start < blocks[k].end < ram.Length
      ensures
        var ws := TakeFrom(c, blocks[k], size);
        || (|ws| == 1 && ram[..] == old(ram[..])[ptr := old(ram[ptr]).(used := true)])
        || (|ws| == 2 && Rewritten(c, old(ram[..]), ram[..], ptr, blocks[k].end, ws[1].start)
            && Written(c, ram[..], ws, old(ram[ptr].prev)))
      ensures DataKept(blocks, AllocAt(c, blocks, k, size), old(ram[..]), ram[..])
    {
      NextHeader(c, ram[..], blocks, k);
      AddrIncreases(c, blocks, k, k + 1);
      if ram[ptr].next - (ptr + c.hdr) >= size + c.hdr + c.minSize {
        WriteSplit(ptr, ptr + c.hdr + size, ram[ptr].next);
        TakeData(c, blocks, k, size, ptr + c.hdr + size, old(ram[..]), ram[..]);
      } else {
        ram[ptr] := ram[ptr].(used := true);
        TakeData(c, blocks, k, size, blocks[k].end, old(ram[..]), ram[..]);
      }
    }

    /** mem_trim. NULL is returned for sizes that do not fit; a pointer outside the heap is
        returned unchanged. */
    method Trim(rmem: RamPtr, request: nat) returns (p: RamPtr)
      requires Valid() && request < c.wrap && (InHeap(rmem) ==> Owned(c, blocks, rmem.off))
      modifies this, ram
      ensures Valid()
      ensures
        var size := c.Rounded(request);
        if !InHeap(rmem) then blocks == old(blocks) && p == if size > c.memSize then Null else rmem
        else
          var i := Holder(c, old(blocks), rmem.off);
          && blocks == TrimAt(c, old(blocks), i, size)
          && p == if size > old(blocks)[i].DataSize(c) then Null else rmem
      ensures DataKept(old(blocks), blocks, old(ram[..]), ram[..])
    {
      RoundedSize(c, request);
      var size := c.Rounded(request);
      ghost var i := if InHeap(rmem) then Holder(c, blocks, rmem.off) else 0;
      if InHeap(rmem) { AddrIncreases(c, blocks, i, |blocks|); }
      if size > c.memSize {
        return Null;
      }
      if rmem.Null? || rmem.off < 0 || rmem.off >= c.memSize {
        return rmem;
      }
      var ptr := rmem.off - c.hdr;
      NextHeader(c, ram[..], blocks, i);
      AddrIncreases(c, blocks, i, i + 1);
      var old_size := ram[ptr].next - ptr - c.hdr;
      if size > old_size {
        return Null;
      }
      if size == old_size {
        return rmem;
      }
      Shrink(ptr, size, i);
      return rmem;
    }

    /** The shrinking branches of mem_trim: move a free successor down, or split off a new
        free block if a minimal one fits, or leave the block as it is. */
    method Shrink(ptr: nat, size: nat, ghost i: nat)
      requires Valid() && i < |blocks| && ptr == blocks[i].start && blocks[i].used
      requires Aligned(c.align, size) && c.minSize <= size < blocks[i].DataSize(c)
      modifies this, ram
      ensures Valid() && blocks == TrimAt(c, old(blocks), i, size)
      ensures DataKept(old(blocks), blocks, old(ram[..]), ram[..])
    {
      NextHeader(c, ram[..], blocks, i);
      AddrIncreases(c, blocks, i, i + 1);
      var mem2 := ram[ptr].next;
      if !ram[mem2].used {
        MoveNextDown(ptr, mem2, size, i);
      } else if size + c.hdr + c.minSize <= ram[ptr].next - ptr - c.hdr {
        SplitOff(ptr, size, i);
      }
    }

    method MoveNextDown(ptr: nat, mem2: nat, size: nat, ghost i: nat)
      requires Valid() && i + 1 < |blocks| && ptr == blocks[i].start && mem2 == blocks[i + 1].start
      requires blocks[i].used && !blocks[i + 1].used
      requires Aligned(c.align, size) && c.minSize <= size < blocks[i].DataSize(c)
      modifies this, ram
      ensures Valid() && blocks == TrimAt(c, old(blocks), i, size)
      ensures DataKept(old(blocks), blocks, old(ram[..]), ram[..])
    {
      TwoInRow(c, ram[..], blocks, i);
      var next := ram[mem2].next;
      var ptr2 := ptr + c.hdr + size;
      WriteSplit(ptr, ptr2, next);
      MoveDownLinked(c, old(ram[..]), blocks, lfree, i, size, ram[..]);
      if lfree == mem2 {
        lfree := ptr2;
      }
      blocks := TrimAt(c, blocks, i, size);
    }

    method SplitOff(ptr: nat, size: nat, ghost i: nat)
      requires Valid() && i < |blocks| && ptr == blocks[i].start && blocks[i].used
      requires i + 1 < |blocks| ==> blocks[i + 1].used
      requires Aligned(c.align, size) && c.minSize <= size && size + c.hdr + c.minSize <= blocks[i].DataSize(c)
      modifies this, ram
      ensures Valid() && blocks == TrimAt(c, old(blocks), i, size)
      ensures DataKept(old(blocks), blocks, old(ram[..]), ram[..])
    {
      NextHeader(c, ram[..], blocks, i);
      AddrIncreases(c, blocks, i, i + 1);
      var ptr2 := ptr + c.hdr + size;
      WriteSplit(ptr, ptr2, ram[ptr].next);
      SplitOffLinked(c, old(ram[..]), blocks, lfree, i, size, ram[..]);
      if ptr2 < lfree {
        lfree := ptr2;
      }
      blocks := TrimAt(c, blocks, i, size);
    }
  }
}
