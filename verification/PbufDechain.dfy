/** The result of pbuf_dechain: it goes through the u8_t count of pbuf_free, and so tells
    whether the tail is still there exactly when that count has not wrapped around to zero. */
module PbufDechain {
  import opened Basics
  import opened Pbufs
  import opened PbufTheorems
  import opened PbufTrim
  import opened PbufHeap

  /** Number of pbufs at the start of ps that are referenced only once. */
  function Sole(mem: Memory, ps: seq<Ptr>): nat {
    if ps == [] || ps[0] !in mem || mem[ps[0]].ref > 1 then 0 else 1 + Sole(mem, ps[1..])
  }

  lemma {:induction false} SoleFrame(mem: Memory, mem': Memory, ps: seq<Ptr>)
    requires forall q :: q in ps ==> (q in mem <==> q in mem') && (q in mem ==> mem'[q].ref == mem[q].ref)
    ensures Sole(mem', ps) == Sole(mem, ps)
  {
    if ps != [] {
      assert ps[0] in ps;
      assert forall q :: q in ps[1..] ==> q in ps;
      SoleFrame(mem, mem', ps[1..]);
    }
  }

  /** pbuf_free deallocates the pbufs of the chain up to the first one that is shared. */
  lemma {:induction false} FreedIsSole(mem: Memory, p: Ptr, ps: seq<Ptr>)
    requires NULL !in mem && IsChain(mem, p, ps)
    ensures |FreeFrom(mem, p)| == |mem| - Sole(mem, ps)
    decreases |ps|
  {
    if ps != [] {
      if mem[p].ref > 1 {
        assert FreeFrom(mem, p).Keys == mem.Keys;
      } else {
        var rest := ps[1..];
        FreeUnfolds(mem, p);
        forall i | 0 <= i < |rest| ensures rest[i] != p { ChainDistinct(mem, p, ps, 0, i + 1); }
        ChainInMemory(mem, mem[p].next, rest);
        ChainFrame(mem, mem - {p}, mem[p].next, rest);
        SoleFrame(mem, mem - {p}, rest);
        FreedIsSole(mem - {p}, mem[p].next, rest);
      }
    }
  }

  /** What pbuf_dechain returns for a pbuf with a successor. */
  function DechainReturn(mem: Memory, p: Ptr): Ptr
    requires p in mem && mem[p].next in mem
  {
    var mem' := FreeFrom(Separated(mem, p), mem[p].next);
    if |mem'| <= |mem| && AsU8(|mem| - |mem'|) > 0 then NULL else mem[p].next
  }

  /** The documented result: the tail, or NULL when it was deallocated. */
  function DechainPromise(mem: Memory, p: Ptr): Ptr
    requires p in mem && mem[p].next in mem
  {
    if mem[p].next in FreeFrom(Separated(mem, p), mem[p].next) then mem[p].next else NULL
  }

  lemma SeparatedTail(mem: Memory, handles: multiset<Ptr>, p: Ptr, ps: seq<Ptr>)
    requires Exact(mem, handles) && Acyclic(mem) && IsChain(mem, p, ps) && |ps| > 1
    ensures mem[p].next in mem && IsChain(Separated(mem, p), mem[p].next, ps[1..]) && |Separated(mem, p)| == |mem|
    ensures NULL !in Separated(mem, p) && Sole(Separated(mem, p), ps[1..]) == Sole(mem, ps[1..])
  {
    SeparatedKeeps(mem, handles, p);
    var mem', rest := Separated(mem, p), ps[1..];
    forall i | 0 <= i < |rest| ensures rest[i] != p { ChainDistinct(mem, p, ps, 0, i + 1); }
    ChainInMemory(mem, mem[p].next, rest);
    ChainFrame(mem, mem', mem[p].next, rest);
    SoleFrame(mem, mem', rest);
    assert |mem'| == |mem'.Keys| && |mem| == |mem.Keys|;
  }

  /** pbuf_dechain returns what it promises unless the pbufs of the tail before the first
      shared one are a positive multiple of 256. */
  lemma {:induction false} DechainResult(mem: Memory, handles: multiset<Ptr>, p: Ptr, ps: seq<Ptr>)
    requires Exact(mem, handles) && Acyclic(mem) && IsChain(mem, p, ps) && |ps| > 1
    ensures mem[p].next in mem
    ensures DechainReturn(mem, p) == DechainPromise(mem, p) <==>
            Sole(mem, ps[1..]) == 0 || Sole(mem, ps[1..]) % U8 != 0
  {
    SeparatedTail(mem, handles, p, ps);
    var mem1, q := Separated(mem, p), mem[p].next;
    FreedIsSole(mem1, q, ps[1..]);
    FreedCount(mem1, q);
  }

  // ----- a chain for which it fails

  /** Pbufs 1 to n in one chain, each referenced once. */
  function LongChain(n: nat): Memory {
    map p: Ptr {:trigger LongPbuf(p, n)} | 1 <= p <= n :: LongPbuf(p, n)
  }

  function LongPbuf(p: Ptr, n: nat): Pbuf
    requires p <= n
  {
    Pbuf(if p < n then p + 1 else NULL, n + 1 - p, [0], 1, PoolPbuf)
  }

  function Numbers(k: nat, n: nat): seq<Ptr>
    requires k <= n + 1
    decreases n + 1 - k
  {
    if k > n then [] else [k] + Numbers(k + 1, n)
  }

  lemma {:induction false} LongIsChain(k: nat, n: nat)
    requires 1 <= k <= n + 1
    ensures IsChain(LongChain(n), if k <= n then k else NULL, Numbers(k, n))
    ensures |Numbers(k, n)| == n + 1 - k && Sole(LongChain(n), Numbers(k, n)) == n + 1 - k
    decreases n + 1 - k
  {
    if k <= n {
      LongIsChain(k + 1, n);
      assert Numbers(k, n)[1..] == Numbers(k + 1, n);
    }
  }

  lemma LongIsExact(n: nat)
    requires 1 <= n
    ensures Exact(LongChain(n), multiset{1}) && Acyclic(LongChain(n))
  {
    var mem, handles := LongChain(n), multiset{1};
    forall p | p in mem ensures RefExact(mem, handles, p) {
      assert InLinks(mem, p) == if p == 1 then {} else {p - 1};
    }
    forall p | p in mem ensures HasChain(mem, p) { LongIsChain(p, n); }
  }

  /** Dechaining the first of 257 pbufs (or 513, and so on) returns a pbuf that is no longer live. */
  lemma DechainDangles(n: nat)
    requires n > 1 && (n - 1) % U8 == 0
    ensures Exact(LongChain(n), multiset{1}) && Acyclic(LongChain(n))
    ensures LongChain(n)[1].next == 2 && DechainReturn(LongChain(n), 1) == 2
    ensures 2 !in FreeFrom(Separated(LongChain(n), 1), 2)
  {
    var mem, ps := LongChain(n), Numbers(1, n);
    LongIsExact(n);
    LongIsChain(1, n);
    LongIsChain(2, n);
    assert ps[1..] == Numbers(2, n);
    SeparatedTail(mem, multiset{1}, 1, ps);
    FreedIsSole(Separated(mem, 1), 2, ps[1..]);
    FreedCount(Separated(mem, 1), 2);
  }
}
