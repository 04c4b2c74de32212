/** What every heap operation keeps, and what the heap is as a function of its live blocks. */
module BlocksTheorems {
  import opened Blocks

  // ----- order of the blocks

  ghost predicate NonEmptyBlocks(bs: seq<Block>) {
    forall i :: 0 <= i < |bs| ==> bs[i].start < bs[i].end
  }

  lemma {:induction false} StartsIncrease(bs: seq<Block>, lo: nat, hi: nat, i: nat, j: nat)
    requires Tiles(bs, lo, hi) && NonEmptyBlocks(bs) && i < j < |bs|
    ensures bs[i].end <= bs[j].start
    decreases j - i
  {
    assert Meet(bs, j - 1);
    if i + 1 < j {
      StartsIncrease(bs, lo, hi, i, j - 1);
    }
  }

  /** Two different blocks never share a byte. */
  lemma BlocksDisjoint(bs: seq<Block>, lo: nat, hi: nat, i: nat, j: nat)
    requires Tiles(bs, lo, hi) && NonEmptyBlocks(bs) && i < |bs| && j < |bs| && i != j
    ensures bs[i].end <= bs[j].start || bs[j].end <= bs[i].start
    ensures bs[i] != bs[j]
  {
    assert bs[i] in bs && bs[j] in bs;
    if i < j { StartsIncrease(bs, lo, hi, i, j); } else { StartsIncrease(bs, lo, hi, j, i); }
  }

  lemma TilesJoin(xs: seq<Block>, ys: seq<Block>, lo: nat, mid: nat, hi: nat)
    requires Tiles(xs, lo, mid) && Tiles(ys, mid, hi)
    ensures Tiles(xs + ys, lo, hi)
  {
    forall i | 0 <= i < |xs + ys| - 1 ensures Meet(xs + ys, i) {
      if i < |xs| - 1 {
        assert Meet(xs, i);
      } else if |xs| <= i {
        assert Meet(ys, i - |xs|);
      }
    }
  }

  lemma TilesSlice(bs: seq<Block>, lo: nat, hi: nat, i: nat, j: nat)
    requires Tiles(bs, lo, hi) && i < j <= |bs|
    ensures Tiles(bs[i..j], bs[i].start, bs[j - 1].end)
  {
    forall k | 0 <= k < j - i - 1 ensures Meet(bs[i..j], k) {
      assert Meet(bs, i + k);
    }
  }

  lemma TilesAround(bs: seq<Block>, lo: nat, hi: nat, i: nat, j: nat)
    requires Tiles(bs, lo, hi) && i < j <= |bs|
    ensures Tiles(bs[..i], lo, bs[i].start) && Tiles(bs[j..], bs[j - 1].end, hi)
  {
    if 0 < i {
      TilesSlice(bs, lo, hi, 0, i);
      assert bs[0..i] == bs[..i];
      assert Meet(bs, i - 1);
    }
    if j < |bs| {
      TilesSlice(bs, lo, hi, j, |bs|);
      assert bs[j..|bs|] == bs[j..];
      assert Meet(bs, j - 1);
    }
  }

  lemma AdjacentSlice(bs: seq<Block>, i: nat, j: nat)
    requires NoAdjacentFree(bs) && i <= j <= |bs|
    ensures NoAdjacentFree(bs[i..j])
  {
    forall k | 0 <= k < j - i - 1 ensures NotBothFree(bs[i..j], k) {
      assert NotBothFree(bs, i + k);
    }
  }

  lemma AdjacentAround(bs: seq<Block>, i: nat, j: nat)
    requires NoAdjacentFree(bs) && i <= |bs| && j <= |bs|
    ensures NoAdjacentFree(bs[..i]) && NoAdjacentFree(bs[j..])
  {
    AdjacentSlice(bs, 0, i);
    AdjacentSlice(bs, j, |bs|);
    assert bs[0..i] == bs[..i] && bs[j..|bs|] == bs[j..];
  }

  // ----- replacing a run of blocks

  lemma SpliceTiles(bs: seq<Block>, lo: nat, hi: nat, i: nat, j: nat, ws: seq<Block>)
    requires Tiles(bs, lo, hi) && i < j <= |bs|
    requires Tiles(ws, bs[i].start, bs[j - 1].end)
    ensures Tiles(Splice(bs, i, j, ws), lo, hi)
  {
    TilesAround(bs, lo, hi, i, j);
    TilesJoin(bs[..i], ws, lo, bs[i].start, bs[j - 1].end);
    TilesJoin(bs[..i] + ws, bs[j..], lo, bs[j - 1].end, hi);
  }

  lemma SpliceAdjacent(bs: seq<Block>, i: nat, j: nat, ws: seq<Block>)
    requires i < j <= |bs| && 0 < |ws| && NoAdjacentFree(bs[..i]) && NoAdjacentFree(bs[j..]) && NoAdjacentFree(ws)
    requires i == 0 || bs[i - 1].used || ws[0].used
    requires j == |bs| || bs[j].used || ws[|ws| - 1].used
    ensures NoAdjacentFree(Splice(bs, i, j, ws))
  {
    AdjacentJoin(bs[..i], ws);
    AdjacentJoin(bs[..i] + ws, bs[j..]);
  }

  lemma AdjacentJoin(xs: seq<Block>, ys: seq<Block>)
    requires NoAdjacentFree(xs) && NoAdjacentFree(ys)
    requires |xs| == 0 || |ys| == 0 || xs[|xs| - 1].used || ys[0].used
    ensures NoAdjacentFree(xs + ys)
  {
    forall i | 0 <= i < |xs + ys| - 1 ensures NotBothFree(xs + ys, i) {
      if i < |xs| - 1 {
        assert NotBothFree(xs, i);
      } else if |xs| <= i {
        assert NotBothFree(ys, i - |xs|);
      }
    }
  }

  lemma LiveJoin(xs: seq<Block>, ys: seq<Block>)
    ensures Live(xs + ys) == Live(xs) + Live(ys)
  {
  }

  lemma LiveDisjoint(bs: seq<Block>, lo: nat, hi: nat, i: nat)
    requires Tiles(bs, lo, hi) && NonEmptyBlocks(bs) && i <= |bs|
    ensures Live(bs[..i]) !! Live(bs[i..])
    ensures Live(bs) == Live(bs[..i]) + Live(bs[i..])
  {
    assert bs == bs[..i] + bs[i..];
    LiveJoin(bs[..i], bs[i..]);
    forall x, y | x in bs[..i] && y in bs[i..] ensures x != y {
      var p :| 0 <= p < i && bs[p] == x;
      var q :| i <= q < |bs| && bs[q] == y;
      BlocksDisjoint(bs, lo, hi, p, q);
    }
  }

  lemma SpliceLive(bs: seq<Block>, lo: nat, hi: nat, i: nat, j: nat, ws: seq<Block>)
    requires Tiles(bs, lo, hi) && NonEmptyBlocks(bs) && i < j <= |bs|
    ensures Live(Splice(bs, i, j, ws)) == Live(bs) - Live(bs[i..j]) + Live(ws)
  {
    LiveDisjoint(bs, lo, hi, i);
    LiveDisjoint(bs, lo, hi, j);
    assert bs[i..] == bs[i..j] + bs[j..];
    LiveJoin(bs[i..j], bs[j..]);
    assert bs[..j] == bs[..i] + bs[i..j];
    LiveJoin(bs[..i], bs[i..j]);
    LiveJoin(bs[..i], ws);
    LiveJoin(bs[..i] + ws, bs[j..]);
  }

  /** Everything a replacement has to satisfy to keep the heap well formed. */
  lemma SpliceKeeps(c: Config, bs: seq<Block>, i: nat, j: nat, ws: seq<Block>)
    requires c.Valid() && Tiles(bs, 0, c.memSize) && AllSound(c, bs)
    requires i < j <= |bs| && 0 < |ws|
    requires Tiles(ws, bs[i].start, bs[j - 1].end) && AllSound(c, ws)
    ensures Tiles(Splice(bs, i, j, ws), 0, c.memSize) && AllSound(c, Splice(bs, i, j, ws))
    ensures Live(Splice(bs, i, j, ws)) == Live(bs) - Live(bs[i..j]) + Live(ws)
  {
    SpliceTiles(bs, 0, c.memSize, i, j, ws);
    SpliceLive(bs, 0, c.memSize, i, j, ws);
  }

  // ----- the live blocks determine the whole heap

  lemma TailTiles(bs: seq<Block>, lo: nat, hi: nat)
    requires Tiles(bs, lo, hi) && NonEmptyBlocks(bs) && NoAdjacentFree(bs) && 0 < |bs|
    ensures Tiles(bs[1..], bs[0].end, hi) && NonEmptyBlocks(bs[1..]) && NoAdjacentFree(bs[1..])
    ensures Live(bs[1..]) == Live(bs) - {bs[0]}
    ensures forall b :: b in Live(bs) && b != bs[0] ==> bs[0].end <= b.start
  {
    TilesAround(bs, lo, hi, 0, 1);
    AdjacentAround(bs, 0, 1);
    LiveDisjoint(bs, lo, hi, 1);
    assert bs[..1] == [bs[0]];
    forall b | b in Live(bs) && b != bs[0] ensures bs[0].end <= b.start {
      var j :| 0 <= j < |bs| && bs[j] == b;
      StartsIncrease(bs, lo, hi, 0, j);
    }
  }

  /** The first block, read off the live blocks: the live block at lo if there is one,
      and otherwise the free space up to the lowest live block. */
  lemma HeadFromLive(bs: seq<Block>, lo: nat, hi: nat)
    requires Tiles(bs, lo, hi) && NonEmptyBlocks(bs) && NoAdjacentFree(bs) && 0 < |bs|
    ensures forall b :: b in Live(bs) && b.start == lo ==> bs[0] == b
    ensures bs[0].used ==> bs[0] in Live(bs)
    ensures !bs[0].used ==> bs[0].end == hi || exists b :: b in Live(bs) && b.start == bs[0].end
    ensures !bs[0].used ==> bs[0].end <= hi && forall b :: b in Live(bs) ==> bs[0].end <= b.start < hi
  {
    assert bs[0] in bs;
    TailTiles(bs, lo, hi);
    if |bs| > 1 {
      assert Meet(bs, 0) && NotBothFree(bs, 0);
      assert bs[1] in bs;
      assert !bs[0].used ==> bs[1] in Live(bs);
    }
    forall b | b in bs ensures b.start < b.end <= hi {
      var j :| 0 <= j < |bs| && bs[j] == b;
      if j < |bs| - 1 {
        StartsIncrease(bs, lo, hi, j, |bs| - 1);
        assert bs[|bs| - 1] in bs;
      }
    }
  }

  /** Two well-formed heaps with the same live blocks are the same heap: where the free
      blocks lie, and how many there are, leaves no trace of the history. */
  lemma {:induction false} LiveDeterminesFrom(xs: seq<Block>, ys: seq<Block>, lo: nat, hi: nat)
    requires Tiles(xs, lo, hi) && NonEmptyBlocks(xs) && NoAdjacentFree(xs)
    requires Tiles(ys, lo, hi) && NonEmptyBlocks(ys) && NoAdjacentFree(ys)
    requires Live(xs) == Live(ys)
    ensures xs == ys
    decreases |xs|
  {
    EmptyTiles(xs, lo, hi);
    EmptyTiles(ys, lo, hi);
    if |xs| > 0 {
      HeadFromLive(xs, lo, hi);
      HeadFromLive(ys, lo, hi);
      assert xs[0] == ys[0];
      TailTiles(xs, lo, hi);
      TailTiles(ys, lo, hi);
      LiveDeterminesFrom(xs[1..], ys[1..], xs[0].end, hi);
      assert xs == [xs[0]] + xs[1..] && ys == [ys[0]] + ys[1..];
    }
  }

  lemma EmptyTiles(xs: seq<Block>, lo: nat, hi: nat)
    requires Tiles(xs, lo, hi) && NonEmptyBlocks(xs)
    ensures |xs| == 0 <==> lo == hi
  {
    if |xs| > 0 {
      assert xs[0] in xs && xs[|xs| - 1] in xs;
      if |xs| > 1 { StartsIncrease(xs, lo, hi, 0, |xs| - 1); }
    }
  }

  lemma LiveDetermines(c: Config, xs: seq<Block>, ys: seq<Block>)
    requires Wf(c, xs) && Wf(c, ys) && Live(xs) == Live(ys)
    ensures xs == ys
  {
    LiveDeterminesFrom(xs, ys, 0, c.memSize);
  }

  // ----- each operation keeps the invariant and changes the live blocks as promised

  lemma InitKeeps(c: Config)
    requires c.Valid()
    ensures Wf(c, InitBlocks(c)) && Live(InitBlocks(c)) == {}
  {
  }

  lemma LiveSingle(b: Block)
    ensures Live([b]) == if b.used then {b} else {}
  {
  }

  lemma LivePair(x: Block, y: Block)
    ensures Live([x, y]) == (if x.used then {x} else {}) + (if y.used then {y} else {})
  {
  }

  lemma SlicePair(bs: seq<Block>, i: nat)
    requires i + 1 < |bs|
    ensures bs[i..i + 2] == [bs[i], bs[i + 1]]
    ensures bs[i] in bs && bs[i + 1] in bs
  {
  }

  lemma SliceSingle(bs: seq<Block>, i: nat)
    requires i < |bs|
    ensures bs[i..i + 1] == [bs[i]]
    ensures bs[i] in bs
  {
  }

  /** Replacing block b by a used block with the same start, and a free rest if any. */
  lemma CutKeeps(c: Config, bs: seq<Block>, i: nat, ws: seq<Block>)
    requires Wf(c, bs) && i < |bs|
    requires |ws| == 1 || (|ws| == 2 && !ws[1].used && (i + 1 == |bs| || bs[i + 1].used))
    requires ws[0].used && NoAdjacentFree(ws)
    requires Tiles(ws, bs[i].start, bs[i].end) && AllSound(c, ws)
    ensures Wf(c, Splice(bs, i, i + 1, ws))
    ensures Live(Splice(bs, i, i + 1, ws)) == Live(bs) - {bs[i]} + {ws[0]}
  {
    SliceSingle(bs, i);
    LiveSingle(bs[i]);
    SpliceKeeps(c, bs, i, i + 1, ws);
    AdjacentAround(bs, i, i + 1);
    SpliceAdjacent(bs, i, i + 1, ws);
    if |ws| == 1 {
      assert ws == [ws[0]];
      LiveSingle(ws[0]);
    } else {
      assert ws == [ws[0], ws[1]];
      LivePair(ws[0], ws[1]);
    }
    assert !bs[i].used ==> bs[i] !in Live(bs);
  }

  lemma {:induction false} TakeFromSound(c: Config, b: Block, size: nat)
    requires c.Valid() && b.Sound(c) && Aligned(c.align, size) && c.minSize <= size <= b.DataSize(c)
    ensures
      var ws := TakeFrom(c, b, size);
      && Tiles(ws, b.start, b.end) && AllSound(c, ws) && NoAdjacentFree(ws)
      && size <= ws[0].DataSize(c)
  {
    var cut, w := b.start + c.hdr + size, Block(b.start, b.end, true);
    if b.DataSize(c) >= size + c.hdr + c.minSize {
      assert TakeFrom(c, b, size) == Pair(b.start, cut, b.end);
      CutAligned(c, b, size);
      PairSound(c, b.start, cut, b.end);
    } else {
      assert TakeFrom(c, b, size) == [w];
      SameSound(c, b, w);
      SingleSound(c, w);
    }
  }

  lemma SameSound(c: Config, b: Block, w: Block)
    requires b.Sound(c) && w.start == b.start && w.end == b.end
    ensures w.Sound(c)
  {
  }

  lemma SingleSound(c: Config, b: Block)
    requires b.Sound(c)
    ensures Tiles([b], b.start, b.end) && AllSound(c, [b]) && NoAdjacentFree([b])
  {
  }

  lemma PairSound(c: Config, start: nat, cut: nat, end: nat)
    requires c.hdr + c.minSize <= cut - start && c.hdr + c.minSize <= end - cut
    requires Aligned(c.align, start) && Aligned(c.align, cut)
    ensures Tiles(Pair(start, cut, end), start, end) && AllSound(c, Pair(start, cut, end))
    ensures NoAdjacentFree(Pair(start, cut, end))
  {
    assert Meet(Pair(start, cut, end), 0) && NotBothFree(Pair(start, cut, end), 0);
  }

  lemma {:induction false} AllocKeeps(c: Config, bs: seq<Block>, i: nat, size: nat)
    requires Wf(c, bs) && i < |bs| && !bs[i].used
    requires Aligned(c.align, size) && c.minSize <= size <= bs[i].DataSize(c)
    ensures Wf(c, AllocAt(c, bs, i, size))
    ensures Live(AllocAt(c, bs, i, size)) == Live(bs) + {TakeFrom(c, bs[i], size)[0]}
    ensures size <= TakeFrom(c, bs[i], size)[0].DataSize(c)
  {
    TakeFromSound(c, bs[i], size);
    assert i + 1 < |bs| ==> NotBothFree(bs, i);
    CutKeeps(c, bs, i, TakeFrom(c, bs[i], size));
    assert bs[i] !in Live(bs);
  }

  lemma CutAligned(c: Config, b: Block, size: nat)
    requires c.Valid() && Aligned(c.align, b.start) && Aligned(c.align, size)
    ensures Aligned(c.align, b.start + c.hdr + size)
  {
    AlignedSum(c.align, b.start, c.hdr);
    AlignedSum(c.align, b.start + c.hdr, size);
  }

  lemma FreeKeeps(c: Config, bs: seq<Block>, i: nat)
    requires Wf(c, bs) && i < |bs| && bs[i].used
    ensures Wf(c, FreeAt(bs, i))
    ensures Live(FreeAt(bs, i)) == Live(bs) - {bs[i]}
  {
    MarkFreeKeeps(c, bs, i);
    PlugForwardKeeps(c, MarkFree(bs, i), i);
    PlugBackwardKeeps(c, PlugForward(MarkFree(bs, i), i), i);
  }

  /** The invariant while block i has just been freed and not yet been merged. */
  ghost predicate WfExceptAt(c: Config, bs: seq<Block>, i: nat) {
    && c.Valid()
    && i < |bs|
    && Tiles(bs, 0, c.memSize)
    && AllSound(c, bs)
    && !bs[i].used
    && NoAdjacentFree(bs[..i])
    && NoAdjacentFree(bs[i + 1..])
  }

  lemma MarkFreeKeeps(c: Config, bs: seq<Block>, i: nat)
    requires Wf(c, bs) && i < |bs| && bs[i].used
    ensures WfExceptAt(c, MarkFree(bs, i), i)
    ensures Live(MarkFree(bs, i)) == Live(bs) - {bs[i]}
  {
    assert bs[i..i + 1] == [bs[i]];
    SpliceKeeps(c, bs, i, i + 1, [Block(bs[i].start, bs[i].end, false)]);
    assert MarkFree(bs, i)[..i] == bs[..i] && MarkFree(bs, i)[i + 1..] == bs[i + 1..];
    AdjacentAround(bs, i, i + 1);
  }

  lemma MergeKeeps(c: Config, bs: seq<Block>, i: nat)
    requires c.Valid() && Tiles(bs, 0, c.memSize) && AllSound(c, bs)
    requires i + 1 < |bs| && !bs[i].used && !bs[i + 1].used
    ensures
      var rs := Splice(bs, i, i + 2, [Block(bs[i].start, bs[i + 1].end, false)]);
      Tiles(rs, 0, c.memSize) && AllSound(c, rs) && Live(rs) == Live(bs)
  {
    var w := Block(bs[i].start, bs[i + 1].end, false);
    assert Meet(bs, i);
    SlicePair(bs, i);
    LivePair(bs[i], bs[i + 1]);
    LiveSingle(w);
    SpliceKeeps(c, bs, i, i + 2, [w]);
  }

  lemma PlugForwardKeeps(c: Config, bs: seq<Block>, i: nat)
    requires WfExceptAt(c, bs, i)
    ensures WfExceptAt(c, PlugForward(bs, i), i)
    ensures i + 1 < |PlugForward(bs, i)| ==> PlugForward(bs, i)[i + 1].used
    ensures Live(PlugForward(bs, i)) == Live(bs)
  {
    var rs := PlugForward(bs, i);
    if i + 1 < |bs| && !bs[i + 1].used {
      MergeKeeps(c, bs, i);
      assert rs[..i] == bs[..i] && rs[i + 1..] == bs[i + 2..];
      AdjacentAround(bs[i + 1..], 0, 1);
      assert bs[i + 2..] == bs[i + 1..][1..];
      assert i + 2 < |bs| ==> NotBothFree(bs[i + 1..], 0);
    }
  }

  lemma PlugBackwardKeeps(c: Config, bs: seq<Block>, i: nat)
    requires WfExceptAt(c, bs, i) && (i + 1 < |bs| ==> bs[i + 1].used)
    ensures Wf(c, PlugBackward(bs, i))
    ensures Live(PlugBackward(bs, i)) == Live(bs)
  {
    if 0 < i && !bs[i - 1].used {
      MergeBackwardAdjacent(bs, i);
      MergeKeeps(c, bs, i - 1);
    } else {
      SpliceAdjacent(bs, i, i + 1, [bs[i]]);
      assert Splice(bs, i, i + 1, [bs[i]]) == bs;
    }
  }

  lemma MergeBackwardAdjacent(bs: seq<Block>, i: nat)
    requires 0 < i < |bs| && !bs[i - 1].used && (i + 1 < |bs| ==> bs[i + 1].used)
    requires NoAdjacentFree(bs[..i]) && NoAdjacentFree(bs[i + 1..])
    ensures NoAdjacentFree(Splice(bs, i - 1, i + 1, [Block(bs[i - 1].start, bs[i].end, false)]))
  {
    assert 1 < i ==> NotBothFree(bs[..i], i - 2);
    AdjacentAround(bs[..i], i - 1, 0);
    assert bs[..i - 1] == bs[..i][..i - 1];
    SpliceAdjacent(bs, i - 1, i + 1, [Block(bs[i - 1].start, bs[i].end, false)]);
  }

  /** The block that mem_trim leaves to its owner. */
  function Trimmed(c: Config, bs: seq<Block>, i: nat, size: nat): Block
    requires i < |bs|
  {
    var b := bs[i];
    if size < b.DataSize(c)
       && ((i + 1 < |bs| && !bs[i + 1].used) || size + c.hdr + c.minSize <= b.DataSize(c))
    then Block(b.start, b.start + c.hdr + size, b.used)
    else b
  }

  /** mem_trim when the next block is free: the boundary between the two moves down. */
  lemma MoveBoundaryKeeps(c: Config, bs: seq<Block>, i: nat, ws: seq<Block>)
    requires Wf(c, bs) && i + 1 < |bs| && bs[i].used && !bs[i + 1].used
    requires |ws| == 2 && ws[0].used && !ws[1].used && NoAdjacentFree(ws)
    requires Tiles(ws, bs[i].start, bs[i + 1].end) && AllSound(c, ws)
    ensures Wf(c, Splice(bs, i, i + 2, ws))
    ensures Live(Splice(bs, i, i + 2, ws)) == Live(bs) - {bs[i]} + {ws[0]}
  {
    SlicePair(bs, i);
    LivePair(bs[i], bs[i + 1]);
    assert ws == [ws[0], ws[1]];
    LivePair(ws[0], ws[1]);
    SpliceKeeps(c, bs, i, i + 2, ws);
    assert i + 2 < |bs| ==> NotBothFree(bs, i + 1);
    AdjacentAround(bs, i, i + 2);
    SpliceAdjacent(bs, i, i + 2, ws);
  }

  lemma {:induction false} TrimMoves(c: Config, bs: seq<Block>, i: nat, size: nat)
    requires Wf(c, bs) && i + 1 < |bs| && bs[i].used && !bs[i + 1].used
    requires Aligned(c.align, size) && c.minSize <= size < bs[i].DataSize(c)
    ensures
      var ws := Pair(bs[i].start, bs[i].start + c.hdr + size, bs[i + 1].end);
      var rs := Splice(bs, i, i + 2, ws);
      && TrimAt(c, bs, i, size) == rs && Trimmed(c, bs, i, size) == ws[0]
      && Wf(c, rs) && Live(rs) == Live(bs) - {bs[i]} + {ws[0]}
  {
    CutAligned(c, bs[i], size);
    assert Meet(bs, i);
    PairSound(c, bs[i].start, bs[i].start + c.hdr + size, bs[i + 1].end);
    MoveBoundaryKeeps(c, bs, i, Pair(bs[i].start, bs[i].start + c.hdr + size, bs[i + 1].end));
  }

  lemma {:induction false} TrimSplits(c: Config, bs: seq<Block>, i: nat, size: nat)
    requires Wf(c, bs) && i < |bs| && bs[i].used && (i + 1 < |bs| ==> bs[i + 1].used)
    requires Aligned(c.align, size) && c.minSize <= size && size + c.hdr + c.minSize <= bs[i].DataSize(c)
    ensures
      var ws := Pair(bs[i].start, bs[i].start + c.hdr + size, bs[i].end);
      var rs := Splice(bs, i, i + 1, ws);
      && TrimAt(c, bs, i, size) == rs && Trimmed(c, bs, i, size) == ws[0]
      && Wf(c, rs) && Live(rs) == Live(bs) - {bs[i]} + {ws[0]}
  {
    CutAligned(c, bs[i], size);
    PairSound(c, bs[i].start, bs[i].start + c.hdr + size, bs[i].end);
    CutKeeps(c, bs, i, Pair(bs[i].start, bs[i].start + c.hdr + size, bs[i].end));
  }

  lemma {:induction false} TrimKeeps(c: Config, bs: seq<Block>, i: nat, size: nat)
    requires Wf(c, bs) && i < |bs| && bs[i].used
    requires Aligned(c.align, size) && c.minSize <= size
    ensures Wf(c, TrimAt(c, bs, i, size))
    ensures Live(TrimAt(c, bs, i, size)) == Live(bs) - {bs[i]} + {Trimmed(c, bs, i, size)}
    ensures size <= bs[i].DataSize(c) ==> size <= Trimmed(c, bs, i, size).DataSize(c)
  {
    if size < bs[i].DataSize(c) && i + 1 < |bs| && !bs[i + 1].used {
      TrimMoves(c, bs, i, size);
    } else if size + c.hdr + c.minSize <= bs[i].DataSize(c) {
      TrimSplits(c, bs, i, size);
    } else {
      assert TrimAt(c, bs, i, size) == bs && Trimmed(c, bs, i, size) == bs[i];
      assert bs[i] in Live(bs);
    }
  }
}
