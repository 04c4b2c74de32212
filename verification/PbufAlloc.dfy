/** pbuf_alloc from the pool: a chain that grows pbuf by pbuf, or is taken back. */
module PbufAlloc {
  import opened Basics
  import opened Pbufs
  import opened PbufTheorems
  import opened PbufChains

  /** A new pbuf enters memory together with a handle to it. */
  lemma NewKeeps(mem: Memory, handles: multiset<Ptr>, q: Ptr, b: Pbuf)
    requires Exact(mem, handles) && Acyclic(mem) && q !in mem && q != NULL && b.next == NULL && b.ref == 1
    ensures Exact(mem[q := b], handles + multiset{q}) && Acyclic(mem[q := b])
    ensures IsChain(mem[q := b], q, [q])
  {
    var mem' := mem[q := b];
    assert handles[q] == 0;
    forall r | r in mem' ensures RefExact(mem', handles + multiset{q}, r) {
      if r == q {
        forall x | x in mem ensures mem[x].next != q { assert RefExact(mem, handles, x); }
        assert InLinks(mem', q) == {};
      } else {
        assert RefExact(mem, handles, r);
        assert InLinks(mem', r) == InLinks(mem, r);
      }
    }
    forall r | r in handles + multiset{q} ensures r in mem' { assert r != q ==> handles[r] > 0; }
    assert IsChain(mem', q, [q]);
    forall r | r in mem' ensures HasChain(mem', r) {
      if r != q {
        assert HasChain(mem, r);
        var rs := ChainOf(mem, r);
        ChainInMemory(mem, r, rs);
        ChainFrame(mem, mem', r, rs);
      }
    }
  }

  /** mem is mem0 with a new chain ps at p, of pool pbufs that are referenced once each. */
  ghost predicate Growing(mem0: Memory, mem: Memory, p: Ptr, ps: seq<Ptr>) {
    && ps != [] && IsChain(mem, p, ps)
    && (forall q :: q in mem0 ==> q in mem && mem[q] == mem0[q])
    && (forall q :: q in mem ==> q in mem0 || q in ps)
    && (forall i :: 0 <= i < |ps| ==>
          ps[i] !in mem0 && ps[i] in mem && mem[ps[i]].ref == 1 && mem[ps[i]].kind == PoolPbuf)
  }

  /** Appending a new pbuf q behind the end of the chain. */
  lemma {:induction false} AppendKeeps(mem0: Memory, mem: Memory, handles: multiset<Ptr>, p: Ptr, ps: seq<Ptr>,
                                       q: Ptr, b: Pbuf)
    requires Exact(mem, handles) && Acyclic(mem) && Growing(mem0, mem, p, ps)
    requires q !in mem && q != NULL && b.next == NULL && b.ref == 1 && b.kind == PoolPbuf
    ensures
      var mem1 := mem[q := b];
      && Last(ps) in mem1
      && var mem' := mem1[Last(ps) := mem1[Last(ps)].(next := q)];
      && Exact(mem', handles) && Acyclic(mem') && Growing(mem0, mem', p, ps + [q])
  {
    var mem1, e := mem[q := b], Last(ps);
    NewKeeps(mem, handles, q, b);
    assert IsChain(mem1, p, ps) && e in mem && mem[e].next == NULL by {
      ChainInMemory(mem, p, ps);
      ChainFrame(mem, mem1, p, ps);
      ChainAt(mem, p, ps, |ps| - 1);
    }
    var mem' := mem1[e := mem1[e].(next := q)];
    assert Exact(mem', handles) by {
      LinkExact(mem1, handles + multiset{q}, e, q);
      assert handles + multiset{q} - multiset{q} == handles;
    }
    assert Acyclic(mem') by { LinkAcyclic(mem1, e, q, [q]); }
    assert IsChain(mem', p, ps + [q]) by { LinkChain(mem1, e, q, [q], p, ps); }
    assert Growing(mem0, mem', p, ps + [q]);
  }

  /** Freeing a chain whose pbufs are referenced once each removes all of it. */
  lemma {:induction false} FreeWholeChain(mem: Memory, p: Ptr, ps: seq<Ptr>)
    requires NULL !in mem && IsChain(mem, p, ps) && forall i :: 0 <= i < |ps| ==> ps[i] in mem && mem[ps[i]].ref == 1
    ensures forall q :: q in FreeFrom(mem, p) <==> q in mem && q !in ps
    ensures forall q :: q in FreeFrom(mem, p) ==> FreeFrom(mem, p)[q] == mem[q]
    decreases |mem|
  {
    if ps != [] {
      var mem1, rest := mem - {p}, ps[1..];
      MapShrinks(mem, p);
      forall i | 0 <= i < |rest| ensures rest[i] in mem1 && mem1[rest[i]].ref == 1 && rest[i] != p {
        ChainDistinct(mem, p, ps, 0, i + 1);
        assert rest[i] == ps[i + 1];
      }
      ChainFrame(mem, mem1, mem[p].next, rest);
      FreeWholeChain(mem1, mem[p].next, rest);
      assert ps == [p] + rest;
      assert FreeFrom(mem, p) == FreeFrom(mem1, mem[p].next);
    }
  }

  lemma RollBack(mem0: Memory, mem: Memory, p: Ptr, ps: seq<Ptr>)
    requires NULL !in mem && Growing(mem0, mem, p, ps)
    ensures FreeFrom(mem, p) == mem0
  {
    FreeWholeChain(mem, p, ps);
    forall q | q in mem0 ensures q !in ps {
      assert forall i :: 0 <= i < |ps| ==> ps[i] != q;
    }
  }

  // ----- lengths

  /** Pool pbufs needed for rem more bytes. */
  function NeededRest(rem: nat, bufSize: nat): nat
    requires 0 < bufSize
    decreases rem
  {
    if rem == 0 then 0 else 1 + NeededRest(rem - Min(rem, bufSize), bufSize)
  }

  /** Pool pbufs needed for a packet when the first one has room for first bytes. */
  function Needed(length: nat, first: nat, bufSize: nat): nat
    requires 0 < bufSize
  {
    1 + NeededRest(length - Min(length, first), bufSize)
  }

  /** That is the smallest number of pbufs, at least one, that have room for the packet. */
  lemma NeededIsLeast(length: nat, first: nat, bufSize: nat)
    requires 0 < bufSize
    ensures
      var n := Needed(length, first, bufSize);
      && 1 <= n && length <= first + (n - 1) * bufSize
      && (1 < n ==> first + (n - 2) * bufSize < length)
  {
    NeededRestIsLeast(length - Min(length, first), bufSize);
  }

  lemma {:induction false} NeededRestIsLeast(rem: nat, bufSize: nat)
    requires 0 < bufSize
    ensures
      var n := NeededRest(rem, bufSize);
      rem <= n * bufSize && (0 < n ==> (n - 1) * bufSize < rem)
    decreases rem
  {
    if rem > 0 {
      var rest := rem - Min(rem, bufSize);
      NeededRestIsLeast(rest, bufSize);
      var m := NeededRest(rest, bufSize);
      assert (m + 1) * bufSize == m * bufSize + bufSize;
      if m > 0 { assert m * bufSize == (m - 1) * bufSize + bufSize; }
    }
  }

  /** Pbuf i of a chain under construction: filled up to its capacity, and with a total that
      covers what follows; rem bytes are still missing behind the last one. */
  ghost predicate PartAt(mem: Memory, ps: seq<Ptr>, first: nat, bufSize: nat, rem: nat, i: nat) {
    && i < |ps| && ps[i] in mem && (i + 1 < |ps| ==> ps[i + 1] in mem)
    && |mem[ps[i]].data| == Min(mem[ps[i]].tot_len, if i == 0 then first else bufSize)
    && mem[ps[i]].tot_len == |mem[ps[i]].data| + if i + 1 < |ps| then mem[ps[i + 1]].tot_len else rem
  }

  ghost predicate Parts(mem: Memory, ps: seq<Ptr>, first: nat, bufSize: nat, rem: nat) {
    forall i :: 0 <= i < |ps| ==> PartAt(mem, ps, first, bufSize, rem, i)
  }

  lemma PartsAppend(mem: Memory, mem': Memory, ps: seq<Ptr>, q: Ptr, first: nat, bufSize: nat, rem: nat)
    requires ps != [] && Parts(mem, ps, first, bufSize, rem) && q in mem' && mem'[q].tot_len == rem
    requires |mem'[q].data| == Min(rem, bufSize)
    requires forall i :: 0 <= i < |ps| ==>
      && ps[i] in mem'
      && (ps[i] in mem ==> mem'[ps[i]].data == mem[ps[i]].data && mem'[ps[i]].tot_len == mem[ps[i]].tot_len)
    ensures Parts(mem', ps + [q], first, bufSize, rem - Min(rem, bufSize))
  {
    var qs, rest := ps + [q], rem - Min(rem, bufSize);
    forall i | 0 <= i < |qs| ensures PartAt(mem', qs, first, bufSize, rest, i) {
      if i < |ps| {
        assert PartAt(mem, ps, first, bufSize, rem, i);
        assert qs[i] == ps[i] && (i + 1 < |ps| ==> qs[i + 1] == ps[i + 1]);
      }
    }
  }

  /** A finished chain has correct totals. */
  lemma PartsDone(mem: Memory, ps: seq<Ptr>, first: nat, bufSize: nat)
    requires Parts(mem, ps, first, bufSize, 0)
    ensures TotalsOk(mem, ps)
  {
    forall i | 0 <= i < |ps| ensures TotalAt(mem, ps, i) {
      assert PartAt(mem, ps, first, bufSize, 0, i);
    }
  }
}
