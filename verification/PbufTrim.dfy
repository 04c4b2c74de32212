/** pbuf_realloc and pbuf_dechain: cutting a chain and freeing what is cut off. */
module PbufTrim {
  import opened Basics
  import opened Pbufs
  import opened PbufTheorems
  import opened PbufChains

  /** Freeing changes pbufs of the freed chain only. */
  lemma {:induction false} FreeOnlyChain(mem: Memory, p: Ptr, ps: seq<Ptr>, q: Ptr)
    requires IsChain(mem, p, ps) && NULL !in mem && q in mem && q !in ps
    ensures q in FreeFrom(mem, p) && FreeFrom(mem, p)[q] == mem[q]
    decreases |mem|
  {
    if ps != [] && mem[p].ref <= 1 {
      ChainInMemory(mem, p, ps);
      MapShrinks(mem, p);
      forall i | 0 <= i < |ps[1..]| ensures ps[1..][i] != p { ChainDistinct(mem, p, ps, 0, i + 1); }
      assert forall r :: r in ps[1..] ==> r in ps;
      ChainFrame(mem, mem - {p}, mem[p].next, ps[1..]);
      FreeOnlyChain(mem - {p}, mem[p].next, ps[1..], q);
    }
  }

  /** mem' is mem after pbuf_realloc has cut the chain ps behind element i, before the rest is
      freed: element i keeps rem bytes and loses its link, and grow (which is not positive)
      is added to the totals before it. */
  ghost predicate IsCut(mem: Memory, mem': Memory, ps: seq<Ptr>, i: nat, rem: nat, grow: int) {
    && i < |ps| && mem'.Keys == mem.Keys
    && (forall q :: q in mem && q !in ps[..i + 1] ==> mem'[q] == mem[q])
    && (forall k :: 0 <= k < i ==> RaisedAt(mem, mem', ps, grow, k))
    && CutAt(mem, mem', ps[i], rem)
  }

  ghost predicate CutAt(mem: Memory, mem': Memory, e: Ptr, rem: nat) {
    && e in mem && e in mem' && rem <= |mem[e].data|
    && mem'[e] == mem[e].(next := NULL, tot_len := rem, data := mem[e].data[..rem])
  }

  lemma CutFields(mem: Memory, mem': Memory, ps: seq<Ptr>, i: nat, rem: nat, grow: int)
    requires IsCut(mem, mem', ps, i, rem, grow)
    ensures forall q :: q in mem ==> mem'[q].ref == mem[q].ref && mem'[q].kind == mem[q].kind
    ensures forall q :: q in mem && q != ps[i] ==> mem'[q].next == mem[q].next && mem'[q].data == mem[q].data
  {
    forall q | q in mem
      ensures mem'[q].ref == mem[q].ref && mem'[q].kind == mem[q].kind
      ensures q != ps[i] ==> mem'[q].next == mem[q].next && mem'[q].data == mem[q].data
    {
      if q in ps[..i + 1] {
        var k :| 0 <= k < i + 1 && ps[k] == q;
        if k < i { assert RaisedAt(mem, mem', ps, grow, k); }
      }
    }
  }

  lemma CutKeeps(mem: Memory, mem': Memory, handles: multiset<Ptr>, p: Ptr, ps: seq<Ptr>, i: nat, rem: nat, grow: int)
    requires Exact(mem, handles) && Acyclic(mem) && IsChain(mem, p, ps) && IsCut(mem, mem', ps, i, rem, grow)
    ensures Exact(mem', With(handles, mem[ps[i]].next)) && Acyclic(mem')
    ensures IsChain(mem', p, ps[..i + 1])
  {
    var e := ps[i];
    CutFields(mem, mem', ps, i, rem, grow);
    var mem1 := mem[e := mem[e].(next := NULL)];
    assert Exact(mem1, With(handles, mem[e].next)) by {
      if mem[e].next != NULL { CutExact(mem, handles, e); } else { assert mem1 == mem; }
    }
    ExactFrame(mem1, mem', With(handles, mem[e].next));
    assert Acyclic(mem') by {
      CutAcyclic(mem, e);
      AcyclicFrame(mem1, mem');
    }
    assert IsChain(mem', p, ps[..i + 1]) by {
      CutChain(mem, e, p, ps, i);
      ChainInMemory(mem1, p, ps[..i + 1]);
      ChainFrame(mem1, mem', p, ps[..i + 1]);
    }
  }

  lemma {:induction false} ContentUpTo(mem: Memory, mem': Memory, ps: seq<Ptr>, i: nat, rem: nat)
    requires i < |ps| && ps[i] in mem && ps[i] in mem' && rem <= |mem[ps[i]].data|
    requires mem'[ps[i]].data == mem[ps[i]].data[..rem]
    requires forall k :: 0 <= k < i ==> ps[k] in mem && ps[k] in mem' && mem'[ps[k]].data == mem[ps[k]].data
    ensures |Content(mem, ps[..i])| + rem <= |Content(mem, ps)|
    ensures Content(mem', ps[..i + 1]) == Content(mem, ps)[..|Content(mem, ps[..i])| + rem]
  {
    var pre := ps[..i];
    assert ps == pre + ([ps[i]] + ps[i + 1..]);
    ContentJoin(mem, pre, [ps[i]] + ps[i + 1..]);
    ContentJoin(mem, [ps[i]], ps[i + 1..]);
    ContentSingle(mem, ps[i]);
    ContentSingle(mem', ps[i]);
    assert ps[..i + 1] == pre + [ps[i]];
    ContentJoin(mem', pre, [ps[i]]);
    forall q | q in pre ensures q in mem && q in mem' && mem'[q].data == mem[q].data {
      var k :| 0 <= k < |pre| && pre[k] == q;
      assert ps[k] == q;
    }
    ContentFrame(mem, mem', pre);
    assert Content(mem, ps) == Content(mem, pre) + mem[ps[i]].data + Content(mem, ps[i + 1..]);
  }

  lemma ContentSingle(mem: Memory, q: Ptr)
    requires q in mem
    ensures Content(mem, [q]) == mem[q].data
  {
    assert [q][1..] == [];
    assert Content(mem, [q]) == mem[q].data + [];
  }

  /** Element i is where new_len bytes end, with rem of them in element i itself. */
  ghost predicate EndsIn(mem: Memory, ps: seq<Ptr>, new_len: nat, i: nat, rem: nat) {
    && i < |ps| && ps[0] in mem && ps[i] in mem
    && mem[ps[i]].tot_len - rem == mem[ps[0]].tot_len - new_len
    && rem <= |mem[ps[i]].data|
  }

  lemma {:induction false} ContentBefore(mem: Memory, ps: seq<Ptr>, i: nat)
    requires TotalsOk(mem, ps) && i < |ps|
    ensures ps[0] in mem && ps[i] in mem && |Content(mem, ps[..i])| == mem[ps[0]].tot_len - mem[ps[i]].tot_len
    decreases i
  {
    assert TotalAt(mem, ps, i);
    if i > 0 {
      assert TotalAt(mem, ps, 0);
      TotalsTail(mem, ps);
      ContentBefore(mem, ps[1..], i - 1);
      assert ps[..i] == [ps[0]] + ps[1..][..i - 1];
    }
  }

  /** After the cut the chain holds the first new_len bytes. */
  lemma CutContent(mem: Memory, mem': Memory, p: Ptr, ps: seq<Ptr>, new_len: nat, i: nat, rem: nat)
    requires IsChain(mem, p, ps) && TotalsOk(mem, ps)
    requires EndsIn(mem, ps, new_len, i, rem) && new_len <= mem[ps[0]].tot_len
    requires IsCut(mem, mem', ps, i, rem, new_len - mem[ps[0]].tot_len)
    ensures new_len <= |Content(mem, ps)| && Content(mem', ps[..i + 1]) == Content(mem, ps)[..new_len]
  {
    forall k | 0 <= k < i ensures ps[k] in mem && ps[k] in mem' && mem'[ps[k]].data == mem[ps[k]].data {
      assert RaisedAt(mem, mem', ps, new_len - mem[ps[0]].tot_len, k);
    }
    ContentUpTo(mem, mem', ps, i, rem);
    ContentBefore(mem, ps, i);
  }

  /** And its totals are right. */
  lemma CutTotals(mem: Memory, mem': Memory, ps: seq<Ptr>, new_len: nat, i: nat, rem: nat)
    requires TotalsOk(mem, ps) && EndsIn(mem, ps, new_len, i, rem) && new_len <= mem[ps[0]].tot_len < U16
    requires IsCut(mem, mem', ps, i, rem, new_len - mem[ps[0]].tot_len)
    ensures TotalsOk(mem', ps[..i + 1])
  {
    var qs, grow := ps[..i + 1], new_len - mem[ps[0]].tot_len;
    forall k | 0 <= k < |qs| ensures TotalAt(mem', qs, k) {
      if k < i {
        assert TotalAt(mem, ps, k);
        CutTotalAt(mem, mem', ps, new_len, i, rem, k);
        if k + 1 < i { CutTotalAt(mem, mem', ps, new_len, i, rem, k + 1); }
      }
    }
  }

  /** The total of a pbuf before the cut does not wrap around when it is lowered. */
  lemma {:induction false} CutTotalAt(mem: Memory, mem': Memory, ps: seq<Ptr>, new_len: nat, i: nat, rem: nat, k: nat)
    requires TotalsOk(mem, ps) && EndsIn(mem, ps, new_len, i, rem) && new_len <= mem[ps[0]].tot_len < U16
    requires IsCut(mem, mem', ps, i, rem, new_len - mem[ps[0]].tot_len) && k < i
    ensures ps[k] in mem && ps[k] in mem' && mem'[ps[k]].data == mem[ps[k]].data
    ensures mem'[ps[k]].tot_len == mem[ps[k]].tot_len + new_len - mem[ps[0]].tot_len
  {
    assert RaisedAt(mem, mem', ps, new_len - mem[ps[0]].tot_len, k);
    TotalsDecrease(mem, ps, k);
    TotalsAbove(mem, ps, k, i);
  }

  lemma {:induction false} TotalsAbove(mem: Memory, ps: seq<Ptr>, k: nat, i: nat)
    requires TotalsOk(mem, ps) && k <= i < |ps|
    ensures ps[k] in mem && ps[i] in mem && mem[ps[i]].tot_len <= mem[ps[k]].tot_len
    decreases i - k
  {
    assert TotalAt(mem, ps, k);
    if k < i { TotalsAbove(mem, ps, k + 1, i); }
  }

  /** The chain behind the cut is still intact when it is freed. */
  lemma CutRest(mem: Memory, mem': Memory, p: Ptr, ps: seq<Ptr>, i: nat, rem: nat, grow: int)
    requires IsChain(mem, p, ps) && IsCut(mem, mem', ps, i, rem, grow)
    ensures IsChain(mem', mem[ps[i]].next, ps[i + 1..])
  {
    CutFields(mem, mem', ps, i, rem, grow);
    ChainAt(mem, p, ps, i);
    var rest := ps[i + 1..];
    assert ps[i..][1..] == rest;
    ChainInMemory(mem, mem[ps[i]].next, rest);
    forall k | 0 <= k < |rest| ensures rest[k] != ps[i] { ChainDistinct(mem, p, ps, i, i + 1 + k); }
    ChainFrame(mem, mem', mem[ps[i]].next, rest);
  }

  /** pbuf_realloc as a whole: the chain of p is cut to its first new_len bytes with correct
      totals, whatever happens to the pbufs behind the cut. */
  lemma {:induction false} ReallocResult(mem: Memory, mid: Memory, p: Ptr, ps: seq<Ptr>, new_len: nat, i: nat, rem: nat)
    requires NULL !in mid && IsChain(mem, p, ps) && TotalsOk(mem, ps)
    requires EndsIn(mem, ps, new_len, i, rem) && new_len <= mem[ps[0]].tot_len < U16
    requires IsCut(mem, mid, ps, i, rem, new_len - mem[ps[0]].tot_len) && IsChain(mid, p, ps[..i + 1])
    ensures
      var mem' := FreeFrom(mid, mem[ps[i]].next);
      && IsChain(mem', p, ps[..i + 1]) && TotalsOk(mem', ps[..i + 1])
      && new_len <= |Content(mem, ps)| && Content(mem', ps[..i + 1]) == Content(mem, ps)[..new_len]
  {
    var mem', qs, rest := FreeFrom(mid, mem[ps[i]].next), ps[..i + 1], ps[i + 1..];
    CutContent(mem, mid, p, ps, new_len, i, rem);
    CutTotals(mem, mid, ps, new_len, i, rem);
    CutRest(mem, mid, p, ps, i, rem, new_len - mem[ps[0]].tot_len);
    ChainInMemory(mid, p, qs);
    forall q | q in qs ensures q in mem' && mem'[q] == mid[q] {
      var k :| 0 <= k < i + 1 && ps[k] == q;
      forall m | 0 <= m < |rest| ensures rest[m] != q { ChainDistinct(mem, p, ps, k, i + 1 + m); }
      FreeOnlyChain(mid, mem[ps[i]].next, rest, q);
    }
    ChainFrame(mid, mem', p, qs);
    ContentFrame(mid, mem', qs);
    forall k | 0 <= k < |qs| ensures TotalAt(mem', qs, k) {
      assert TotalAt(mid, qs, k) && qs[k] in qs && (k + 1 < |qs| ==> qs[k + 1] in qs);
    }
  }

  /** The pbufs of other chains stay as they are. */
  lemma ReallocOutside(mem: Memory, mid: Memory, p: Ptr, ps: seq<Ptr>, i: nat, rem: nat, grow: int, q: Ptr)
    requires NULL !in mid && IsChain(mem, p, ps) && IsCut(mem, mid, ps, i, rem, grow) && q in mem && q !in ps
    ensures q in FreeFrom(mid, mem[ps[i]].next) && FreeFrom(mid, mem[ps[i]].next)[q] == mem[q]
  {
    CutRest(mem, mid, p, ps, i, rem, grow);
    assert forall x :: x in ps[..i + 1] ==> x in ps;
    assert forall x :: x in ps[i + 1..] ==> x in ps;
    FreeOnlyChain(mid, mem[ps[i]].next, ps[i + 1..], q);
  }

  // ----- pbuf_dechain

  /** mem after pbuf_dechain has separated p from its successor, before that is freed. */
  function Separated(mem: Memory, p: Ptr): Memory
    requires p in mem && mem[p].next in mem
  {
    var q := mem[p].next;
    var mem1 := mem[q := mem[q].(tot_len := (mem[p].tot_len - |mem[p].data|) % U16)];
    mem1[p := mem1[p].(next := NULL, tot_len := |mem1[p].data|)]
  }

  lemma SeparatedKeeps(mem: Memory, handles: multiset<Ptr>, p: Ptr)
    requires Exact(mem, handles) && Acyclic(mem) && p in mem && mem[p].next != NULL
    ensures mem[p].next in mem && Acyclic(Separated(mem, p))
    ensures Exact(Separated(mem, p), handles + multiset{mem[p].next})
    ensures forall q :: q in mem ==> q in Separated(mem, p) && Separated(mem, p)[q].kind == mem[q].kind
    ensures Separated(mem, p).Keys == mem.Keys
  {
    assert RefExact(mem, handles, p);
    assert HasChain(mem, p);
    var ps := ChainOf(mem, p);
    ChainAt(mem, p, ps, 0);
    ChainDistinct(mem, p, ps, 0, 1);
    var mem1 := mem[p := mem[p].(next := NULL)];
    CutExact(mem, handles, p);
    CutAcyclic(mem, p);
    ExactFrame(mem1, Separated(mem, p), handles + multiset{mem[p].next});
    AcyclicFrame(mem1, Separated(mem, p));
  }

  /** p stands alone with its own bytes, and the pbufs behind it, if they are still there, are a
      chain with the bytes that they had; both with correct totals if those were correct. Other
      pbufs are as before. */
  ghost predicate Dechained(mem: Memory, mem': Memory, p: Ptr, ps: seq<Ptr>) {
    && |ps| > 1 && p in mem && p in mem' && mem'[p].next == NULL
    && mem'[p].data == mem[p].data && mem'[p].tot_len == |mem[p].data| && mem'[p].ref == mem[p].ref
    && (ps[1] in mem' ==>
          && IsChain(mem', ps[1], ps[1..]) && Content(mem', ps[1..]) == Content(mem, ps[1..])
          && (TotalsOk(mem, ps) && mem[p].tot_len < U16 ==> TotalsOk(mem', ps[1..])))
    && (forall q :: q in mem && q !in ps ==> q in mem' && mem'[q] == mem[q])
  }

  lemma {:induction false} SeparatedLeaves(mem: Memory, handles: multiset<Ptr>, p: Ptr, ps: seq<Ptr>)
    requires Exact(mem, handles) && Acyclic(mem) && IsChain(mem, p, ps) && |ps| > 1
    ensures mem[p].next == ps[1] && ps[1] in mem && p !in ps[1..] && Dechained(mem, Separated(mem, p), p, ps)
  {
    SeparatedKeeps(mem, handles, p);
    var mem', rest := Separated(mem, p), ps[1..];
    ChainAt(mem, p, ps, 1);
    forall i | 0 <= i < |rest| ensures rest[i] != p { ChainDistinct(mem, p, ps, 0, i + 1); }
    ChainInMemory(mem, ps[1], rest);
    ChainFrame(mem, mem', ps[1], rest);
    ContentFrame(mem, mem', rest);
    if TotalsOk(mem, ps) && mem[p].tot_len < U16 { SeparatedTotals(mem, p, ps); }
  }

  lemma SeparatedTotals(mem: Memory, p: Ptr, ps: seq<Ptr>)
    requires IsChain(mem, p, ps) && |ps| > 1 && TotalsOk(mem, ps) && p in mem && mem[p].tot_len < U16
    ensures mem[p].next in mem && TotalsOk(Separated(mem, p), ps[1..])
  {
    ChainAt(mem, p, ps, 0);
    ChainAt(mem, p, ps, 1);
    assert TotalAt(mem, ps, 0);
    var mem', rest := Separated(mem, p), ps[1..];
    forall i | 0 <= i < |rest| ensures TotalAt(mem', rest, i) {
      assert TotalAt(mem, ps, i + 1);
      ChainDistinct(mem, p, ps, 0, i + 1);
      if i > 0 { ChainDistinct(mem, p, ps, 1, i + 1); }
      if i + 1 < |rest| {
        ChainDistinct(mem, p, ps, 0, i + 2);
        ChainDistinct(mem, p, ps, 1, i + 2);
      }
    }
  }

  /** What pbuf_dechain leaves, after it has freed the rest. */
  lemma {:induction false} DechainLeaves(mem: Memory, handles: multiset<Ptr>, p: Ptr, ps: seq<Ptr>)
    requires Exact(mem, handles) && Acyclic(mem) && IsChain(mem, p, ps) && |ps| > 1
    ensures mem[p].next in mem && Dechained(mem, FreeFrom(Separated(mem, p), mem[p].next), p, ps)
  {
    SeparatedLeaves(mem, handles, p, ps);
    SeparatedKeeps(mem, handles, p);
    var mem1, q, rest := Separated(mem, p), ps[1], ps[1..];
    FreeOnlyChain(mem1, q, rest, p);
    forall x | x in mem && x !in ps ensures x in FreeFrom(mem1, q) && FreeFrom(mem1, q)[x] == mem[x] {
      assert forall y :: y in rest ==> y in ps;
      assert mem1[x] == mem[x];
      FreeOnlyChain(mem1, q, rest, x);
    }
    if q in FreeFrom(mem1, q) { FreeLeavesShared(mem1, q, rest); }
  }

  /** A chain whose first pbuf survives pbuf_free has only lost a reference. */
  lemma {:induction false} FreeLeavesShared(mem: Memory, q: Ptr, rest: seq<Ptr>)
    requires IsChain(mem, q, rest) && q in mem && q in FreeFrom(mem, q)
    ensures
      var mem' := FreeFrom(mem, q);
      && IsChain(mem', q, rest) && Content(mem', rest) == Content(mem, rest)
      && (TotalsOk(mem, rest) ==> TotalsOk(mem', rest))
  {
    var mem' := FreeFrom(mem, q);
    if mem[q].ref <= 1 { FreeFrame(mem - {q}, mem[q].next); }
    ChainInMemory(mem, q, rest);
    ChainFrame(mem, mem', q, rest);
    ContentFrame(mem, mem', rest);
    if TotalsOk(mem, rest) {
      forall i | 0 <= i < |rest| ensures TotalAt(mem', rest, i) { assert TotalAt(mem, rest, i); }
    }
  }

  ghost predicate IsDechained(mem: Memory, mem': Memory, p: Ptr) {
    HasChain(mem, p) && Dechained(mem, mem', p, ChainOf(mem, p))
  }

  lemma LeavesDechained(mem: Memory, handles: multiset<Ptr>, p: Ptr)
    requires Exact(mem, handles) && Acyclic(mem) && p in mem && mem[p].next != NULL
    ensures mem[p].next in mem && IsDechained(mem, FreeFrom(Separated(mem, p), mem[p].next), p)
  {
    assert HasChain(mem, p);
    ChainAt(mem, p, ChainOf(mem, p), 0);
    DechainLeaves(mem, handles, p, ChainOf(mem, p));
  }

  /** pbuf_free deallocates its argument or nothing at all. */
  lemma {:induction false} FreedCount(mem: Memory, q: Ptr)
    requires q in mem
    ensures |FreeFrom(mem, q)| <= |mem|
    ensures q in FreeFrom(mem, q) <==> |FreeFrom(mem, q)| == |mem|
  {
    FreeFrame(mem, q);
    if mem[q].ref > 1 {
      assert FreeFrom(mem, q).Keys == mem.Keys;
    } else {
      MapShrinks(mem, q);
      FreeFrame(mem - {q}, mem[q].next);
      SubsetSize(FreeFrom(mem, q).Keys, (mem - {q}).Keys);
    }
  }
}
