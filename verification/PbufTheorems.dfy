/** Reference counts stay exact, and the live pbufs are those reachable from handles. */
module PbufTheorems {
  import opened Basics
  import opened Pbufs

  // ----- changes to one pbuf or one link

  /** Fields other than next and ref, and pbufs not removed, do not matter for exactness. */
  lemma ExactFrame(mem: Memory, mem': Memory, handles: multiset<Ptr>)
    requires Exact(mem, handles) && mem'.Keys == mem.Keys
    requires forall p :: p in mem ==> mem'[p].next == mem[p].next && mem'[p].ref == mem[p].ref
    ensures Exact(mem', handles)
  {
    forall p | p in mem' ensures RefExact(mem', handles, p) {
      assert RefExact(mem, handles, p);
      assert InLinks(mem', p) == InLinks(mem, p);
    }
  }

  lemma AcyclicFrame(mem: Memory, mem': Memory)
    requires Acyclic(mem) && mem'.Keys == mem.Keys
    requires forall p :: p in mem ==> mem'[p].next == mem[p].next
    ensures Acyclic(mem')
  {
    forall p | p in mem' ensures HasChain(mem', p) {
      assert HasChain(mem, p);
      var ps := ChainOf(mem, p);
      ChainInMemory(mem, p, ps);
      ChainFrame(mem, mem', p, ps);
    }
  }

  lemma ChainInMemory(mem: Memory, p: Ptr, ps: seq<Ptr>)
    requires IsChain(mem, p, ps)
    ensures forall q :: q in ps ==> q in mem && q != NULL
  {
    forall q | q in ps ensures q in mem && q != NULL {
      var i :| 0 <= i < |ps| && ps[i] == q;
      ChainAt(mem, p, ps, i);
    }
  }

  /** pbuf_ref: one more handle, one more count. */
  lemma RefKeeps(mem: Memory, handles: multiset<Ptr>, p: Ptr)
    requires Exact(mem, handles) && Acyclic(mem) && p in mem
    ensures
      var mem' := mem[p := mem[p].(ref := mem[p].ref + 1)];
      Exact(mem', handles + multiset{p}) && Acyclic(mem')
  {
    var mem' := mem[p := mem[p].(ref := mem[p].ref + 1)];
    forall q | q in mem' ensures RefExact(mem', handles + multiset{p}, q) {
      assert RefExact(mem, handles, q);
      assert InLinks(mem', q) == InLinks(mem, q);
    }
    AcyclicFrame(mem, mem');
  }

  lemma UnrefExact(mem: Memory, handles: multiset<Ptr>, p: Ptr)
    requires Exact(mem, handles + multiset{p}) && p in mem && 1 < mem[p].ref
    ensures
      var mem' := mem[p := mem[p].(ref := mem[p].ref - 1)];
      Exact(mem', handles) && |mem'| == |mem|
  {
    var mem' := mem[p := mem[p].(ref := mem[p].ref - 1)];
    assert mem'.Keys == mem.Keys;
    forall q | q in mem' ensures RefExact(mem', handles, q) {
      assert RefExact(mem, handles + multiset{p}, q);
      assert InLinks(mem', q) == InLinks(mem, q);
    }
    forall q | q in handles ensures q in mem' { assert (handles + multiset{p})[q] > 0; }
  }

  // ----- pbuf_free

  /** The last reference to p is the caller's: nothing links to p. */
  lemma LastReference(mem: Memory, handles: multiset<Ptr>, p: Ptr)
    requires Exact(mem, handles + multiset{p}) && p in mem && mem[p].ref == 1
    ensures handles[p] == 0 && forall q :: q in mem ==> mem[q].next != p
  {
    assert RefExact(mem, handles + multiset{p}, p);
    assert |InLinks(mem, p)| == 0;
    forall q | q in mem ensures mem[q].next != p {
      assert q !in InLinks(mem, p);
    }
  }

  lemma RemoveExact(mem: Memory, handles: multiset<Ptr>, p: Ptr)
    requires Exact(mem, handles + multiset{p}) && p in mem && mem[p].ref == 1
    ensures
      Exact(mem - {p}, With(handles, mem[p].next))
  {
    LastReference(mem, handles, p);
    var mem', n := mem - {p}, mem[p].next;
    var handles' := With(handles, n);
    forall q | q in mem' ensures RefExact(mem', handles', q) {
      assert RefExact(mem, handles + multiset{p}, q);
      if q == n {
        assert p in InLinks(mem, q) && InLinks(mem', q) == InLinks(mem, q) - {p};
      } else {
        assert InLinks(mem', q) == InLinks(mem, q);
      }
    }
    assert RefExact(mem, handles + multiset{p}, p);
    forall q | q in handles' ensures q in mem' {
      assert q != n ==> (handles + multiset{p})[q] > 0;
    }
  }

  lemma RemoveAcyclic(mem: Memory, p: Ptr)
    requires Acyclic(mem) && p in mem && forall q :: q in mem ==> mem[q].next != p
    ensures Acyclic(mem - {p})
  {
    forall q | q in mem - {p} ensures HasChain(mem - {p}, q) {
      assert HasChain(mem, q);
      var ps := ChainOf(mem, q);
      ChainInMemory(mem, q, ps);
      forall r | r in ps ensures r != p {
        var i :| 0 <= i < |ps| && ps[i] == r;
        if i > 0 { ChainAt(mem, q, ps, i - 1); }
      }
      ChainFrame(mem, mem - {p}, q, ps);
    }
  }

  /** pbuf_free gives up exactly the caller's reference. */
  lemma {:induction false} FreeKeeps(mem: Memory, handles: multiset<Ptr>, p: Ptr)
    requires Exact(mem, handles + multiset{p}) && Acyclic(mem) && p in mem
    ensures Exact(FreeFrom(mem, p), handles) && Acyclic(FreeFrom(mem, p))
    decreases |mem|
  {
    assert RefExact(mem, handles + multiset{p}, p);
    if mem[p].ref > 1 {
      UnrefExact(mem, handles, p);
      AcyclicFrame(mem, mem[p := mem[p].(ref := mem[p].ref - 1)]);
    } else {
      LastReference(mem, handles, p);
      RemoveExact(mem, handles, p);
      RemoveAcyclic(mem, p);
      MapShrinks(mem, p);
      if mem[p].next != NULL { FreeKeeps(mem - {p}, handles, mem[p].next); }
    }
  }

  lemma NoNullHandle(mem: Memory, handles: multiset<Ptr>)
    requires Exact(mem, handles)
    ensures handles - multiset{NULL} == handles && FreeFrom(mem, NULL) == mem
  {
    assert NULL !in handles;
  }

  lemma HandleGivenUp(mem: Memory, handles: multiset<Ptr>, p: Ptr)
    requires Exact(mem, handles) && p != NULL && p in handles
    ensures Exact(mem, With(handles - multiset{p}, p))
  {
    assert handles == handles - multiset{p} + multiset{p};
  }

  /** Freeing removes nothing but pbufs whose count has reached zero, and touches the
      remaining ones in their count only. */
  lemma {:induction false} FreeFrame(mem: Memory, p: Ptr)
    ensures
      var mem' := FreeFrom(mem, p);
      && mem'.Keys <= mem.Keys
      && forall q :: q in mem' ==> mem'[q] == mem[q].(ref := mem'[q].ref)
    decreases |mem|
  {
    if p in mem && mem[p].ref <= 1 {
      MapShrinks(mem, p);
      FreeFrame(mem - {p}, mem[p].next);
    }
  }

  // ----- live means reachable

  lemma {:induction false} DistinctLength(ps: seq<Ptr>, s: set<Ptr>)
    requires Distinct(ps)
    requires forall p :: p in ps ==> p in s
    ensures |ps| <= |s|
    decreases |ps|
  {
    if ps != [] {
      var rest := ps[1..];
      forall p | p in rest ensures p in s - {ps[0]} {
        var i :| 0 <= i < |rest| && rest[i] == p;
        assert ps[i + 1] == p;
      }
      DistinctLength(rest, s - {ps[0]});
    }
  }

  lemma ChainLength(mem: Memory, p: Ptr, ps: seq<Ptr>)
    requires IsChain(mem, p, ps)
    ensures |ps| <= |mem|
  {
    forall i, j | 0 <= i < j < |ps| ensures ps[i] != ps[j] { ChainDistinct(mem, p, ps, i, j); }
    ChainInMemory(mem, p, ps);
    DistinctLength(ps, mem.Keys);
  }

  /** Every live pbuf is on the chain of some handle. */
  lemma {:induction false} LiveIsReachable(mem: Memory, handles: multiset<Ptr>, p: Ptr, ps: seq<Ptr>)
    returns (h: Ptr, hs: seq<Ptr>)
    requires Exact(mem, handles) && Acyclic(mem) && p in mem && IsChain(mem, p, ps)
    ensures h in handles && IsChain(mem, h, hs) && p in hs
    decreases |mem| - |ps|
  {
    if p in handles {
      h, hs := p, ps;
    } else {
      assert RefExact(mem, handles, p);
      var q :| q in InLinks(mem, p);
      var qs := [q] + ps;
      assert qs[1..] == ps;
      ChainLength(mem, q, qs);
      h, hs := LiveIsReachable(mem, handles, q, qs);
      LinkOnChain(mem, h, hs, q);
    }
  }

  lemma LinkOnChain(mem: Memory, h: Ptr, hs: seq<Ptr>, q: Ptr)
    requires IsChain(mem, h, hs) && q in hs && q in mem && mem[q].next != NULL
    ensures mem[q].next in hs
  {
    var i :| 0 <= i < |hs| && hs[i] == q;
    ChainAt(mem, h, hs, i);
  }

  /** The live pbufs are exactly those reachable from the handles: none is lost while in use,
      and none is kept that nobody can reach. */
  lemma LiveExactlyReachable(mem: Memory, handles: multiset<Ptr>, p: Ptr)
    requires Exact(mem, handles) && Acyclic(mem)
    ensures p in mem <==> exists h, hs :: h in handles && IsChain(mem, h, hs) && p in hs
  {
    if p in mem {
      assert HasChain(mem, p);
      var h, hs := LiveIsReachable(mem, handles, p, ChainOf(mem, p));
    }
    if h, hs :| h in handles && IsChain(mem, h, hs) && p in hs {
      ChainInMemory(mem, h, hs);
    }
  }
}
