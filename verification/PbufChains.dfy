/** Joining and cutting chains: what pbuf_cat, pbuf_dechain and pbuf_realloc do to the links,
    the counts, the bytes and the totals. */
module PbufChains {
  import opened Basics
  import opened Pbufs
  import opened PbufTheorems

  function Last(ps: seq<Ptr>): Ptr
    requires ps != []
  {
    ps[|ps| - 1]
  }

  // ----- bytes and totals of a chain

  lemma {:induction false} ContentFrame(mem: Memory, mem': Memory, ps: seq<Ptr>)
    requires forall q :: q in ps ==> (q in mem <==> q in mem') && (q in mem ==> mem'[q].data == mem[q].data)
    ensures Content(mem', ps) == Content(mem, ps)
  {
    if ps != [] {
      assert ps[0] in ps;
      assert forall q :: q in ps[1..] ==> q in ps;
      ContentFrame(mem, mem', ps[1..]);
    }
  }

  lemma {:induction false} ContentJoin(mem: Memory, ps: seq<Ptr>, qs: seq<Ptr>)
    ensures Content(mem, ps + qs) == Content(mem, ps) + Content(mem, qs)
  {
    if ps == [] {
      assert ps + qs == qs;
    } else {
      assert (ps + qs)[1..] == ps[1..] + qs;
      ContentJoin(mem, ps[1..], qs);
      assert Content(mem, ps + qs) == (if ps[0] in mem then mem[ps[0]].data else []) + Content(mem, ps[1..] + qs);
    }
  }

  lemma TotalsTail(mem: Memory, ps: seq<Ptr>)
    requires ps != [] && TotalsOk(mem, ps)
    ensures TotalsOk(mem, ps[1..])
  {
    forall i | 0 <= i < |ps[1..]| ensures TotalAt(mem, ps[1..], i) {
      assert TotalAt(mem, ps, i + 1);
    }
  }

  /** So the first tot_len is the number of bytes of the whole chain. */
  lemma {:induction false} TotalIsContent(mem: Memory, ps: seq<Ptr>)
    requires ps != [] && TotalsOk(mem, ps)
    ensures ps[0] in mem && mem[ps[0]].tot_len == |Content(mem, ps)|
    decreases |ps|
  {
    assert TotalAt(mem, ps, 0);
    if |ps| > 1 {
      TotalsTail(mem, ps);
      TotalIsContent(mem, ps[1..]);
    }
  }

  lemma {:induction false} TotalsDecrease(mem: Memory, ps: seq<Ptr>, i: nat)
    requires TotalsOk(mem, ps) && i < |ps|
    ensures ps[0] in mem && ps[i] in mem && mem[ps[i]].tot_len <= mem[ps[0]].tot_len
    decreases i
  {
    assert TotalAt(mem, ps, i);
    if i > 0 {
      assert TotalAt(mem, ps, i - 1);
      TotalsDecrease(mem, ps, i - 1);
    }
  }

  // ----- building and cutting links

  lemma {:induction false} ChainJoin(mem: Memory, p: Ptr, ps: seq<Ptr>, q: Ptr, qs: seq<Ptr>)
    requires ps != [] && IsChain(mem, q, qs)
    requires ps[0] == p && forall i :: 0 <= i < |ps| ==> ps[i] in mem && ps[i] != NULL
    requires forall i :: 0 <= i < |ps| - 1 ==> mem[ps[i]].next == ps[i + 1]
    requires mem[Last(ps)].next == q
    ensures IsChain(mem, p, ps + qs)
    decreases |ps|
  {
    if |ps| == 1 {
      assert (ps + qs)[1..] == qs;
    } else {
      ChainJoin(mem, ps[1], ps[1..], q, qs);
      assert (ps + qs)[1..] == ps[1..] + qs;
    }
  }

  /** Two chains that end in different pbufs have no pbuf in common. */
  lemma {:induction false} ChainsDisjoint(mem: Memory, p: Ptr, ps: seq<Ptr>, q: Ptr, qs: seq<Ptr>, i: nat, j: nat)
    requires IsChain(mem, p, ps) && IsChain(mem, q, qs) && ps != [] && qs != [] && Last(ps) != Last(qs)
    requires i < |ps| && j < |qs|
    ensures ps[i] != qs[j]
  {
    if ps[i] == qs[j] {
      ChainAt(mem, p, ps, i);
      ChainAt(mem, q, qs, j);
      ChainUnique(mem, ps[i], ps[i..], qs[j..]);
      assert false;
    }
  }

  /** A pbuf without a successor is the last of every chain it is on. */
  lemma EndOfChain(mem: Memory, p: Ptr, ps: seq<Ptr>, e: Ptr)
    requires IsChain(mem, p, ps) && e in ps && e in mem && mem[e].next == NULL
    ensures Last(ps) == e
  {
    var i :| 0 <= i < |ps| && ps[i] == e;
    ChainAt(mem, p, ps, i);
  }

  /** Setting the link of an end pbuf e to t: chains through e are prolonged by the chain of t. */
  lemma LinkChain(mem: Memory, e: Ptr, t: Ptr, ts: seq<Ptr>, p: Ptr, ps: seq<Ptr>)
    requires e in mem && mem[e].next == NULL && IsChain(mem, t, ts) && e !in ts && IsChain(mem, p, ps)
    ensures
      var mem' := mem[e := mem[e].(next := t)];
      IsChain(mem', p, if e in ps then ps + ts else ps)
  {
    var mem' := mem[e := mem[e].(next := t)];
    ChainInMemory(mem, p, ps);
    ChainInMemory(mem, t, ts);
    if e in ps {
      EndOfChain(mem, p, ps, e);
      ChainFrame(mem, mem', t, ts);
      forall i | 0 <= i < |ps| - 1 ensures mem'[ps[i]].next == ps[i + 1] {
        ChainAt(mem, p, ps, i);
        ChainDistinct(mem, p, ps, i, |ps| - 1);
      }
      ChainJoin(mem', p, ps, t, ts);
    } else {
      ChainFrame(mem, mem', p, ps);
    }
  }

  lemma LinkAcyclic(mem: Memory, e: Ptr, t: Ptr, ts: seq<Ptr>)
    requires Acyclic(mem) && e in mem && mem[e].next == NULL && IsChain(mem, t, ts) && e !in ts
    ensures Acyclic(mem[e := mem[e].(next := t)])
  {
    var mem' := mem[e := mem[e].(next := t)];
    forall p | p in mem' ensures HasChain(mem', p) {
      assert HasChain(mem, p);
      var ps := ChainOf(mem, p);
      LinkChain(mem, e, t, ts, p, ps);
    }
  }

  /** A new link takes over the handle that the caller gives up. */
  lemma LinkExact(mem: Memory, handles: multiset<Ptr>, e: Ptr, t: Ptr)
    requires Exact(mem, handles) && e in mem && mem[e].next == NULL && t in handles
    ensures Exact(mem[e := mem[e].(next := t)], handles - multiset{t})
  {
    var mem' := mem[e := mem[e].(next := t)];
    assert handles[t] > 0;
    forall q | q in mem' ensures RefExact(mem', handles - multiset{t}, q) {
      assert RefExact(mem, handles, q);
      assert e !in InLinks(mem, q);
      assert InLinks(mem', q) == if q == t then InLinks(mem, q) + {e} else InLinks(mem, q);
    }
    forall q | q in handles - multiset{t} ensures q in mem' { assert handles[q] > 0; }
  }

  /** A link that is cut leaves behind a reference that somebody has to drop. */
  lemma CutExact(mem: Memory, handles: multiset<Ptr>, e: Ptr)
    requires Exact(mem, handles) && e in mem && mem[e].next != NULL
    ensures Exact(mem[e := mem[e].(next := NULL)], handles + multiset{mem[e].next})
  {
    var mem', n := mem[e := mem[e].(next := NULL)], mem[e].next;
    assert RefExact(mem, handles, e);
    forall q | q in mem' ensures RefExact(mem', handles + multiset{n}, q) { CutRef(mem, handles, e, q); }
    forall q | q in handles + multiset{n} ensures q in mem' { assert q != n ==> handles[q] > 0; }
  }

  lemma CutRef(mem: Memory, handles: multiset<Ptr>, e: Ptr, q: Ptr)
    requires e in mem && q in mem && NULL !in mem && mem[e].next != NULL
    requires RefExact(mem, handles, e) && RefExact(mem, handles, q)
    ensures RefExact(mem[e := mem[e].(next := NULL)], handles + multiset{mem[e].next}, q)
  {
    var mem' := mem[e := mem[e].(next := NULL)];
    if q == mem[e].next {
      assert e in InLinks(mem, q) && InLinks(mem', q) == InLinks(mem, q) - {e};
    } else {
      assert InLinks(mem', q) == InLinks(mem, q);
    }
  }

  lemma CutChain(mem: Memory, e: Ptr, p: Ptr, ps: seq<Ptr>, i: nat)
    requires IsChain(mem, p, ps) && i < |ps| && ps[i] == e && e in mem
    ensures IsChain(mem[e := mem[e].(next := NULL)], p, ps[..i + 1])
  {
    var mem' := mem[e := mem[e].(next := NULL)];
    ChainInMemory(mem, p, ps);
    forall k | 0 <= k < i ensures mem'[ps[k]].next == ps[k + 1] {
      ChainAt(mem, p, ps, k);
      ChainDistinct(mem, p, ps, k, i);
    }
    var qs := ps[..i + 1];
    forall k | 0 <= k < |qs| ensures qs[k] in mem' && qs[k] != NULL { assert qs[k] in ps; }
    ChainJoin(mem', p, qs, NULL, []);
    assert qs + [] == qs;
  }

  lemma CutAcyclic(mem: Memory, e: Ptr)
    requires Acyclic(mem) && e in mem
    ensures Acyclic(mem[e := mem[e].(next := NULL)])
  {
    var mem' := mem[e := mem[e].(next := NULL)];
    forall p | p in mem' ensures HasChain(mem', p) {
      assert HasChain(mem, p);
      var ps := ChainOf(mem, p);
      ChainInMemory(mem, p, ps);
      if e in ps {
        var i :| 0 <= i < |ps| && ps[i] == e;
        CutChain(mem, e, p, ps, i);
      } else {
        ChainFrame(mem, mem', p, ps);
      }
    }
  }

  // ----- loops that adjust totals along a chain

  ghost predicate RaisedAt(mem: Memory, mem': Memory, hs: seq<Ptr>, d: int, k: nat) {
    && k < |hs| && hs[k] in mem && hs[k] in mem'
    && mem'[hs[k]] == mem[hs[k]].(tot_len := (mem[hs[k]].tot_len + d) % U16)
  }

  /** The totals of the first i pbufs of hs have been changed by d (as u16_t values). */
  ghost predicate Raised(mem: Memory, mem': Memory, hs: seq<Ptr>, d: int, i: nat) {
    && i <= |hs| && mem'.Keys == mem.Keys
    && (forall q :: q in mem && q !in hs[..i] ==> mem'[q] == mem[q])
    && (forall k :: 0 <= k < i ==> RaisedAt(mem, mem', hs, d, k))
  }

  lemma {:induction false} RaiseStep(mem: Memory, mem': Memory, h: Ptr, hs: seq<Ptr>, d: int, i: nat)
    requires IsChain(mem, h, hs) && i < |hs| && Raised(mem, mem', hs, d, i)
    ensures hs[i] in mem && hs[i] in mem' && mem'[hs[i]] == mem[hs[i]]
    ensures Raised(mem, mem'[hs[i] := mem'[hs[i]].(tot_len := (mem'[hs[i]].tot_len + d) % U16)], hs, d, i + 1)
  {
    ChainAt(mem, h, hs, i);
    forall k | 0 <= k < i ensures hs[k] != hs[i] { ChainDistinct(mem, h, hs, k, i); }
    var mem1 := mem'[hs[i] := mem'[hs[i]].(tot_len := (mem'[hs[i]].tot_len + d) % U16)];
    assert hs[..i + 1] == hs[..i] + [hs[i]];
    forall k | 0 <= k < i + 1 ensures RaisedAt(mem, mem1, hs, d, k) {
      if k < i { assert RaisedAt(mem, mem', hs, d, k); }
    }
  }

  // ----- pbuf_cat

  /** mem' is mem after pbuf_cat of the chain hs with the chain that starts at t: the total of t
      is added to all totals of hs (as u16_t values), and the end of hs is linked to t. */
  ghost predicate IsCat(mem: Memory, mem': Memory, hs: seq<Ptr>, t: Ptr) {
    && hs != [] && t in mem && mem'.Keys == mem.Keys
    && (forall q :: q in mem && q !in hs ==> mem'[q] == mem[q])
    && (forall k :: 0 <= k < |hs| ==> CatAt(mem, mem', hs, t, k))
  }

  ghost predicate CatAt(mem: Memory, mem': Memory, hs: seq<Ptr>, t: Ptr, k: nat) {
    && k < |hs| && hs[k] in mem && hs[k] in mem' && t in mem
    && mem'[hs[k]] == mem[hs[k]].(tot_len := (mem[hs[k]].tot_len + mem[t].tot_len) % U16,
                                  next := if k == |hs| - 1 then t else mem[hs[k]].next)
  }

  lemma CatChain(mem: Memory, mem': Memory, hs: seq<Ptr>, t: Ptr)
    requires IsCat(mem, mem', hs, t)
    ensures Last(hs) in mem && mem'[Last(hs)].next == t
    ensures forall q :: q in mem ==>
      mem'[q].data == mem[q].data && mem'[q].ref == mem[q].ref && mem'[q].kind == mem[q].kind
    ensures forall q :: q in mem && q != Last(hs) ==> mem'[q].next == mem[q].next
  {
    assert CatAt(mem, mem', hs, t, |hs| - 1);
    forall q | q in mem
      ensures mem'[q].data == mem[q].data && mem'[q].ref == mem[q].ref && mem'[q].kind == mem[q].kind
      ensures q != Last(hs) ==> mem'[q].next == mem[q].next
    {
      if q in hs {
        var k :| 0 <= k < |hs| && hs[k] == q;
        assert CatAt(mem, mem', hs, t, k);
      }
    }
  }

  lemma CatKeeps(mem: Memory, mem': Memory, handles: multiset<Ptr>, h: Ptr, hs: seq<Ptr>, t: Ptr, ts: seq<Ptr>)
    requires Exact(mem, handles) && Acyclic(mem) && t in handles && IsCat(mem, mem', hs, t)
    requires ts != [] && IsChain(mem, h, hs) && IsChain(mem, t, ts) && Last(hs) != Last(ts)
    ensures Exact(mem', handles - multiset{t}) && Acyclic(mem')
    ensures IsChain(mem', h, hs + ts)
  {
    CatChain(mem, mem', hs, t);
    var e := Last(hs);
    var mem1 := mem[e := mem[e].(next := t)];
    ChainAt(mem, h, hs, |hs| - 1);
    forall j | 0 <= j < |ts| ensures ts[j] != e { ChainsDisjoint(mem, h, hs, t, ts, |hs| - 1, j); }
    LinkExact(mem, handles, e, t);
    LinkAcyclic(mem, e, t, ts);
    LinkChain(mem, e, t, ts, h, hs);
    ExactFrame(mem1, mem', handles - multiset{t});
    AcyclicFrame(mem1, mem');
    ChainInMemory(mem1, h, hs + ts);
    ChainFrame(mem1, mem', h, hs + ts);
  }

  /** The joined chain holds the bytes of both, and its totals are right. */
  lemma CatContent(mem: Memory, mem': Memory, h: Ptr, hs: seq<Ptr>, t: Ptr, ts: seq<Ptr>)
    requires IsCat(mem, mem', hs, t)
    requires ts != [] && IsChain(mem, h, hs) && IsChain(mem, t, ts) && Last(hs) != Last(ts)
    ensures Content(mem', hs + ts) == Content(mem, hs) + Content(mem, ts)
  {
    CatChain(mem, mem', hs, t);
    ChainInMemory(mem, h, hs);
    ChainInMemory(mem, t, ts);
    ContentJoin(mem, hs, ts);
    ContentFrame(mem, mem', hs + ts);
  }

  /** And its totals are right. */
  lemma CatTotals(mem: Memory, mem': Memory, h: Ptr, hs: seq<Ptr>, t: Ptr, ts: seq<Ptr>)
    requires IsCat(mem, mem', hs, t) && h in mem
    requires ts != [] && IsChain(mem, h, hs) && IsChain(mem, t, ts) && Last(hs) != Last(ts)
    requires TotalsOk(mem, hs) && TotalsOk(mem, ts) && mem[h].tot_len + mem[t].tot_len < U16
    ensures TotalsOk(mem', hs + ts)
  {
    forall k, j | 0 <= k < |hs| && 0 <= j < |ts| ensures hs[k] != ts[j] { ChainsDisjoint(mem, h, hs, t, ts, k, j); }
    JoinedTotals(mem, mem', hs, t, ts);
  }

  lemma JoinedTotals(mem: Memory, mem': Memory, hs: seq<Ptr>, t: Ptr, ts: seq<Ptr>)
    requires IsCat(mem, mem', hs, t) && ts != [] && ts[0] == t && hs[0] in mem
    requires forall k, j :: 0 <= k < |hs| && 0 <= j < |ts| ==> hs[k] != ts[j]
    requires TotalsOk(mem, hs) && TotalsOk(mem, ts) && mem[hs[0]].tot_len + mem[t].tot_len < U16
    ensures TotalsOk(mem', hs + ts)
  {
    var qs := hs + ts;
    forall i | 0 <= i < |qs| ensures TotalAt(mem', qs, i) {
      if i < |hs| {
        JoinedTotalHead(mem, mem', hs, t, i);
        assert i + 1 < |hs| ==> qs[i + 1] == hs[i + 1];
        assert i + 1 == |hs| ==> qs[i + 1] == t;
      } else {
        var j := i - |hs|;
        assert qs[i] == ts[j] && TotalAt(mem, ts, j);
        assert j + 1 < |ts| ==> qs[i + 1] == ts[j + 1] && ts[j + 1] !in hs;
        assert ts[j] !in hs;
      }
    }
  }

  lemma JoinedTotalHead(mem: Memory, mem': Memory, hs: seq<Ptr>, t: Ptr, i: nat)
    requires IsCat(mem, mem', hs, t) && i < |hs| && t !in hs && hs[0] in mem
    requires TotalsOk(mem, hs) && mem[hs[0]].tot_len + mem[t].tot_len < U16
    ensures hs[i] in mem' && (i + 1 < |hs| ==> hs[i + 1] in mem') && t in mem'
    ensures
      var next := if i + 1 < |hs| then mem'[hs[i + 1]] else mem'[t];
      mem'[hs[i]].tot_len == |mem'[hs[i]].data| + next.tot_len
  {
    assert TotalAt(mem, hs, i) && CatAt(mem, mem', hs, t, i);
    TotalsDecrease(mem, hs, i);
    if i + 1 < |hs| {
      assert CatAt(mem, mem', hs, t, i + 1);
      TotalsDecrease(mem, hs, i + 1);
    }
  }
}
