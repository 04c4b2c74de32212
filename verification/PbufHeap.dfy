/** The operations of pbuf.c on memory shared by all chains. */
module PbufHeap {
  import opened Basics
  import opened Pbufs
  import opened PbufTheorems
  import opened PbufChains
  import opened PbufTrim
  import opened PbufAlloc

  /** Where the memory of a pbuf comes from: the pbuf pool, the pool of bare struct pbufs,
      or the heap. */
  datatype Source = FromPool | FromStructs | FromHeap

  function SourceOf(kind: Kind): Source {
    match kind
    case PoolPbuf => FromPool
    case RomPbuf => FromStructs
    case RefPbuf => FromStructs
    case RamPbuf => FromHeap
  }

  ghost function LiveOf(mem: Memory, src: Source): set<Ptr> {
    set p | p in mem && SourceOf(mem[p].kind) == src
  }

  ghost predicate ConservedFor(mem: Memory, free: map<Source, set<Ptr>>, total: map<Source, set<Ptr>>, src: Source) {
    && src in free && src in total
    && free[src] !! LiveOf(mem, src) && free[src] + LiveOf(mem, src) == total[src]
  }

  ghost predicate DisjointTotals(total: map<Source, set<Ptr>>) {
    && (forall s :: s in total ==> NULL !in total[s])
    && (forall s, r :: s in total && r in total && s != r ==> total[s] !! total[r])
  }

  /** Every element of every source is either free or a live pbuf of that source. */
  ghost predicate Conserved(mem: Memory, free: map<Source, set<Ptr>>, total: map<Source, set<Ptr>>) {
    DisjointTotals(total) && forall src :: ConservedFor(mem, free, total, src)
  }

  lemma ReleaseConserves(mem: Memory, free: map<Source, set<Ptr>>, total: map<Source, set<Ptr>>, p: Ptr)
    requires Conserved(mem, free, total) && p in mem
    ensures SourceOf(mem[p].kind) in free
    ensures
      var src := SourceOf(mem[p].kind);
      Conserved(mem - {p}, free[src := free[src] + {p}], total)
  {
    var src := SourceOf(mem[p].kind);
    assert ConservedFor(mem, free, total, src);
    var free' := free[src := free[src] + {p}];
    forall s ensures ConservedFor(mem - {p}, free', total, s) {
      assert ConservedFor(mem, free, total, s);
      assert LiveOf(mem - {p}, s) == LiveOf(mem, s) - {p};
    }
  }

  lemma LiveIsTotal(mem: Memory, free: map<Source, set<Ptr>>, total: map<Source, set<Ptr>>, p: Ptr)
    requires Conserved(mem, free, total) && p in mem
    ensures
      var src := SourceOf(mem[p].kind);
      src in free && src in total && p in total[src] && p !in free[src]
  {
    assert ConservedFor(mem, free, total, SourceOf(mem[p].kind));
    assert p in LiveOf(mem, SourceOf(mem[p].kind));
  }

  lemma TakeConserves(mem: Memory, free: map<Source, set<Ptr>>, total: map<Source, set<Ptr>>, b: Pbuf, p: Ptr)
    requires Conserved(mem, free, total) && SourceOf(b.kind) in free && p in free[SourceOf(b.kind)]
    ensures p !in mem && p != NULL
    ensures
      var src := SourceOf(b.kind);
      Conserved(mem[p := b], free[src := free[src] - {p}], total)
  {
    var src := SourceOf(b.kind);
    assert ConservedFor(mem, free, total, src);
    if p in mem {
      LiveIsTotal(mem, free, total, p);
      assert false;
    }
    var mem', free' := mem[p := b], free[src := free[src] - {p}];
    forall s ensures ConservedFor(mem', free', total, s) {
      assert ConservedFor(mem, free, total, s);
      assert LiveOf(mem', s) == if s == src then LiveOf(mem, s) + {p} else LiveOf(mem, s);
    }
  }

  lemma SameKindsConserve(mem: Memory, mem': Memory, free: map<Source, set<Ptr>>, total: map<Source, set<Ptr>>)
    requires Conserved(mem, free, total) && mem'.Keys == mem.Keys
    requires forall p :: p in mem ==> mem'[p].kind == mem[p].kind
    ensures Conserved(mem', free, total)
  {
    forall s ensures ConservedFor(mem', free, total, s) {
      assert ConservedFor(mem, free, total, s);
      assert LiveOf(mem', s) == LiveOf(mem, s);
    }
  }

  lemma ReleaseStep(mem: Memory, free: map<Source, set<Ptr>>, total: map<Source, set<Ptr>>, handles: multiset<Ptr>,
                    p: Ptr)
    requires Exact(mem, With(handles, p)) && Acyclic(mem) && Conserved(mem, free, total)
    requires p in mem && mem[p].ref == 1
    ensures SourceOf(mem[p].kind) in free
    ensures
      var mem', n, src := mem - {p}, mem[p].next, SourceOf(mem[p].kind);
      && Exact(mem', With(handles, n)) && Acyclic(mem')
      && Conserved(mem', free[src := free[src] + {p}], total)
      && FreeFrom(mem, p) == FreeFrom(mem', n) && |mem'| == |mem| - 1
  {
    LastReference(mem, handles, p);
    RemoveExact(mem, handles, p);
    RemoveAcyclic(mem, p);
    FreeUnfolds(mem, p);
    ReleaseConserves(mem, free, total, p);
  }

  lemma UnrefStep(mem: Memory, free: map<Source, set<Ptr>>, total: map<Source, set<Ptr>>, handles: multiset<Ptr>,
                  p: Ptr)
    requires Exact(mem, With(handles, p)) && Acyclic(mem) && Conserved(mem, free, total)
    requires p in mem && 1 < mem[p].ref
    ensures
      var mem' := mem[p := mem[p].(ref := mem[p].ref - 1)];
      && Exact(mem', handles) && Acyclic(mem') && Conserved(mem', free, total)
      && FreeFrom(mem', NULL) == FreeFrom(mem, p) && |mem'| == |mem|
  {
    UnrefExact(mem, handles, p);
    AcyclicFrame(mem, mem[p := mem[p].(ref := mem[p].ref - 1)]);
    SameKindsConserve(mem, mem[p := mem[p].(ref := mem[p].ref - 1)], free, total);
  }

  /** A count kept in a u8_t. */
  function AsU8(n: nat): nat {
    n % U8
  }

  /** Incrementing a u8_t that counts n events. */
  function NextCount(count: nat, ghost n: nat): (r: nat)
    requires count == AsU8(n)
    ensures r == AsU8(n + 1)
  {
    if count + 1 == U8 then 0 else count + 1
  }

  /** A count raised without a reference for it is no longer exact: this is what
      pbuf_chain(NULL, t) does to every live pbuf t. */
  lemma CountWithoutReference(mem: Memory, handles: multiset<Ptr>, t: Ptr)
    requires Exact(mem, handles) && t in mem
    ensures !Exact(mem[t := mem[t].(ref := mem[t].ref + 1)], handles)
  {
    var mem' := mem[t := mem[t].(ref := mem[t].ref + 1)];
    assert RefExact(mem, handles, t);
    assert InLinks(mem', t) == InLinks(mem, t);
    assert !RefExact(mem', handles, t);
  }

  lemma HandleIsLive(mem: Memory, handles: multiset<Ptr>, p: Ptr)
    requires p != NULL && Exact(mem, With(handles, p))
    ensures p in mem && 0 < mem[p].ref
  {
    assert (handles + multiset{p})[p] > 0;
    assert RefExact(mem, handles + multiset{p}, p);
  }

  lemma FreeUnfolds(mem: Memory, p: Ptr)
    requires p in mem && mem[p].ref <= 1
    ensures |mem - {p}| == |mem| - 1
    ensures FreeFrom(mem, p) == FreeFrom(mem - {p}, mem[p].next)
  {
    assert (mem - {p}).Keys == mem.Keys - {p};
  }

  // ----- progress of the loop of pbuf_cat

  /** What the loop reads when it stands at pbuf i. */
  lemma Cursor(mem: Memory, mem': Memory, h: Ptr, hs: seq<Ptr>, t: Ptr, i: nat)
    requires IsChain(mem, h, hs) && i < |hs| && t in mem && t !in hs && Raised(mem, mem', hs, mem[t].tot_len, i)
    ensures hs[i] in mem' && mem'[hs[i]].next == if i + 1 < |hs| then hs[i + 1] else NULL
    ensures i + 1 < |hs| ==> hs[i + 1] != NULL
    ensures t in mem' && mem'[t] == mem[t]
  {
    ChainAt(mem, h, hs, i);
    if i + 1 < |hs| { ChainAt(mem, h, hs, i + 1); }
    RaiseStep(mem, mem', h, hs, mem[t].tot_len, i);
  }

  lemma {:induction false} RaisedThenLinked(mem: Memory, mem': Memory, h: Ptr, hs: seq<Ptr>, t: Ptr)
    requires t in mem && hs != [] && IsChain(mem, h, hs) && Raised(mem, mem', hs, mem[t].tot_len, |hs|)
    ensures Last(hs) in mem' && IsCat(mem, mem'[Last(hs) := mem'[Last(hs)].(next := t)], hs, t)
  {
    assert RaisedAt(mem, mem', hs, mem[t].tot_len, |hs| - 1);
    assert hs[..|hs|] == hs;
    var mem1 := mem'[Last(hs) := mem'[Last(hs)].(next := t)];
    forall k | 0 <= k < |hs| ensures CatAt(mem, mem1, hs, t, k) {
      assert RaisedAt(mem, mem', hs, mem[t].tot_len, k);
      if k < |hs| - 1 { ChainDistinct(mem, h, hs, k, |hs| - 1); }
    }
  }

  // ----- pbuf_realloc

  /** The chain ps of p has shrunk to its pbufs up to i, which hold its first new_len bytes with
      correct totals. */
  ghost predicate ShrunkTo(mem: Memory, mem': Memory, p: Ptr, ps: seq<Ptr>, new_len: nat, i: nat) {
    && i < |ps| && new_len <= |Content(mem, ps)|
    && IsChain(mem', p, ps[..i + 1]) && TotalsOk(mem', ps[..i + 1])
    && Content(mem', ps[..i + 1]) == Content(mem, ps)[..new_len]
  }

  /** What pbuf_realloc leaves. */
  lemma {:induction false} ReallocLeaves(mem: Memory, mid: Memory, p: Ptr, ps: seq<Ptr>, new_len: nat, i: nat, rem: nat)
    requires NULL !in mid && IsChain(mem, p, ps) && TotalsOk(mem, ps)
    requires EndsIn(mem, ps, new_len, i, rem) && new_len <= mem[ps[0]].tot_len < U16
    requires IsCut(mem, mid, ps, i, rem, new_len - mem[ps[0]].tot_len) && IsChain(mid, p, ps[..i + 1])
    ensures
      var mem' := FreeFrom(mid, mem[ps[i]].next);
      && ShrunkTo(mem, mem', p, ps, new_len, i)
      && (forall q :: q in mem && q !in ps ==> q in mem' && mem'[q] == mem[q])
  {
    ReallocResult(mem, mid, p, ps, new_len, i, rem);
    var mem' := FreeFrom(mid, mem[ps[i]].next);
    forall q | q in mem && q !in ps ensures q in mem' && mem'[q] == mem[q] {
      ReallocOutside(mem, mid, p, ps, i, rem, new_len - mem[ps[0]].tot_len, q);
    }
  }

  lemma ShrinkCursor(mem: Memory, mem': Memory, p: Ptr, ps: seq<Ptr>, grow: int, i: nat)
    requires IsChain(mem, p, ps) && i < |ps| && Raised(mem, mem', ps, grow, i)
    ensures ps[i] in mem && ps[i] in mem' && mem'[ps[i]] == mem[ps[i]]
  {
    RaiseStep(mem, mem', p, ps, grow, i);
  }

  /** One round of the loop of pbuf_realloc: the pbuf at i keeps all of its bytes. */
  lemma {:induction false} ShrinkStep(mem: Memory, mem': Memory, p: Ptr, ps: seq<Ptr>, grow: int, rem_len: nat, i: nat)
    requires IsChain(mem, p, ps) && TotalsOk(mem, ps) && i < |ps| && Raised(mem, mem', ps, grow, i) && grow < 0
    requires ps[i] in mem && rem_len - mem[ps[i]].tot_len == grow && |mem[ps[i]].data| < rem_len
    ensures ps[i] in mem' && i + 1 < |ps| && mem'[ps[i]].next == ps[i + 1]
    ensures
      var q, next := ps[i], ps[i + 1];
      var mem1 := mem'[q := mem'[q].(tot_len := (mem'[q].tot_len + grow) % U16)];
      && Raised(mem, mem1, ps, grow, i + 1) && next in mem && next in mem1 && mem1[next] == mem[next]
      && rem_len - |mem[q].data| - mem[next].tot_len == grow
  {
    assert TotalAt(mem, ps, i);
    RaiseStep(mem, mem', p, ps, grow, i);
    ChainAt(mem, p, ps, i);
    var mem1 := mem'[ps[i] := mem'[ps[i]].(tot_len := (mem'[ps[i]].tot_len + grow) % U16)];
    ShrinkCursor(mem, mem1, p, ps, grow, i + 1);
  }

  lemma RaisedThenCut(mem: Memory, mem': Memory, p: Ptr, ps: seq<Ptr>, i: nat, rem: nat, grow: int)
    requires IsChain(mem, p, ps) && i < |ps| && Raised(mem, mem', ps, grow, i)
    requires ps[i] in mem && rem <= |mem[ps[i]].data|
    ensures ps[i] in mem' && mem'[ps[i]] == mem[ps[i]]
    ensures
      var b := mem'[ps[i]].(next := NULL, tot_len := rem, data := mem'[ps[i]].data[..rem]);
      IsCut(mem, mem'[ps[i] := b], ps, i, rem, grow)
  {
    RaiseStep(mem, mem', p, ps, grow, i);
    var mem1 := mem'[ps[i] := mem'[ps[i]].(next := NULL, tot_len := rem, data := mem'[ps[i]].data[..rem])];
    forall k | 0 <= k < i ensures RaisedAt(mem, mem1, ps, grow, k) {
      assert RaisedAt(mem, mem', ps, grow, k);
      ChainDistinct(mem, p, ps, k, i);
    }
    assert ps[..i + 1] == ps[..i] + [ps[i]];
  }

  /** h and t start chains with different ends, so that joining them makes no loop. */
  ghost predicate CanJoin(mem: Memory, h: Ptr, t: Ptr) {
    && h != NULL && t != NULL && HasChain(mem, h) && HasChain(mem, t)
    && ChainOf(mem, h) != [] && ChainOf(mem, t) != []
    && Last(ChainOf(mem, h)) != Last(ChainOf(mem, t))
  }

  class Heap {
    var mem: Memory
    var free: map<Source, set<Ptr>>
    ghost var handles: multiset<Ptr>
    ghost const total: map<Source, set<Ptr>>

    ghost predicate Valid()
      reads this
    {
      Exact(mem, handles) && Acyclic(mem) && Conserved(mem, free, total)
    }

    constructor (pool: set<Ptr>, structs: set<Ptr>, heap: set<Ptr>)
      requires pool !! structs && pool !! heap && structs !! heap
      requires NULL !in pool && NULL !in structs && NULL !in heap
      ensures Valid() && mem == map[] && handles == multiset{}
      ensures free == total == map[FromPool := pool, FromStructs := structs, FromHeap := heap]
    {
      mem := map[];
      handles := multiset{};
      free := map[FromPool := pool, FromStructs := structs, FromHeap := heap];
      total := map[FromPool := pool, FromStructs := structs, FromHeap := heap];
      new;
      forall s ensures ConservedFor(mem, free, total, s) {
        assert s.FromPool? || s.FromStructs? || s.FromHeap?;
        assert LiveOf(mem, s) == {};
      }
    }

    /** pbuf_ref. */
    method Ref(p: Ptr)
      requires Valid() && (p != NULL ==> p in mem)
      modifies this
      ensures Valid() && free == old(free)
      ensures p == NULL ==> mem == old(mem) && handles == old(handles)
      ensures p != NULL ==>
        mem == old(mem)[p := old(mem)[p].(ref := old(mem)[p].ref + 1)] && handles == old(handles) + multiset{p}
    {
      if p != NULL {
        RefKeeps(mem, handles, p);
        SameKindsConserve(mem, mem[p := mem[p].(ref := mem[p].ref + 1)], free, total);
        mem := mem[p := mem[p].(ref := mem[p].ref + 1)];
        handles := handles + multiset{p};
      }
    }

    /** pbuf_free: gives up a reference held by the caller. The result is the number of
        deallocated pbufs as a u8_t. */
    method Free(start: Ptr) returns (count: nat)
      requires Valid() && (start != NULL ==> start in handles)
      modifies this
      ensures Valid()
      ensures mem == FreeFrom(old(mem), start) && handles == old(handles) - multiset{start}
      ensures |mem| <= |old(mem)| && count == AsU8(|old(mem)| - |mem|)
    {
      if start == NULL {
        NoNullHandle(mem, handles);
        return 0;
      }
      HandleGivenUp(mem, handles, start);
      handles := handles - multiset{start};
      count := Release(start);
    }

    /** The loop of pbuf_free. */
    method Release(start: Ptr) returns (count: nat)
      requires Exact(mem, With(handles, start)) && start != NULL && Acyclic(mem) && Conserved(mem, free, total)
      modifies `mem, `free
      ensures Valid() && mem == FreeFrom(old(mem), start)
      ensures |mem| <= |old(mem)| && count == AsU8(|old(mem)| - |mem|)
    {
      count := 0;
      var p := start;
      ghost var gone := 0;
      while p != NULL
        invariant Exact(mem, With(handles, p)) && Acyclic(mem) && Conserved(mem, free, total)
        invariant FreeFrom(mem, p) == FreeFrom(old(mem), start)
        invariant |old(mem)| == |mem| + gone && count == AsU8(gone)
        decreases |mem|, p
      {
        HandleIsLive(mem, handles, p);
        if mem[p].ref <= 1 {
          p := Deallocate(p);
          count := NextCount(count, gone);
          gone := gone + 1;
        } else {
          Decrement(p);
          p := NULL;
        }
      }
    }

    /** The last reference is gone: hand the pbuf back to where it came from. */
    method Deallocate(p: Ptr) returns (q: Ptr)
      requires Exact(mem, With(handles, p)) && Acyclic(mem) && Conserved(mem, free, total)
      requires p in mem && mem[p].ref == 1
      modifies `mem, `free
      ensures mem == old(mem) - {p} && q == old(mem)[p].next && |mem| == |old(mem)| - 1
      ensures Exact(mem, With(handles, q)) && Acyclic(mem) && Conserved(mem, free, total)
      ensures FreeFrom(mem, q) == FreeFrom(old(mem), p)
    {
      ReleaseStep(mem, free, total, handles, p);
      q := mem[p].next;
      var src := SourceOf(mem[p].kind);
      free := free[src := free[src] + {p}];
      mem := mem - {p};
    }

    method Decrement(p: Ptr)
      requires Exact(mem, With(handles, p)) && Acyclic(mem) && Conserved(mem, free, total)
      requires p in mem && 1 < mem[p].ref
      modifies `mem
      ensures mem == old(mem)[p := old(mem)[p].(ref := old(mem)[p].ref - 1)] && |mem| == |old(mem)|
      ensures Exact(mem, With(handles, NULL)) && Acyclic(mem) && Conserved(mem, free, total)
      ensures FreeFrom(mem, NULL) == FreeFrom(old(mem), p)
    {
      UnrefStep(mem, free, total, handles, p);
      mem := mem[p := mem[p].(ref := mem[p].ref - 1)];
    }

    /** pbuf_cat: the caller's reference to t passes to the chain of h. */
    method Cat(h: Ptr, t: Ptr)
      requires Valid()
      requires h != NULL && t != NULL ==> h in mem && t in handles && CanJoin(mem, h, t)
      modifies this
      ensures Valid() && free == old(free)
      ensures h == NULL || t == NULL ==> mem == old(mem) && handles == old(handles)
      ensures h != NULL && t != NULL ==>
        IsCat(old(mem), mem, ChainOf(old(mem), h), t) && handles == old(handles) - multiset{t}
    {
      if h == NULL || t == NULL {
        return;
      }
      ghost var mem0, hs, ts := mem, ChainOf(mem, h), ChainOf(mem, t);
      ChainAt(mem0, t, ts, 0);
      forall k | 0 <= k < |hs| ensures hs[k] != t { ChainsDisjoint(mem0, h, hs, t, ts, k, 0); }
      AddTotal(h, t, hs);
      CatKeeps(mem0, mem, handles, h, hs, t, ts);
      CatChain(mem0, mem, hs, t);
      SameKindsConserve(mem0, mem, free, total);
      handles := handles - multiset{t};
    }

    /** The loop of pbuf_cat and the link that it ends with. */
    method AddTotal(h: Ptr, t: Ptr, ghost hs: seq<Ptr>)
      requires IsChain(mem, h, hs) && hs != [] && t in mem && t !in hs
      modifies `mem
      ensures IsCat(old(mem), mem, hs, t)
    {
      ghost var mem0, i := mem, 0;
      var p := h;
      Cursor(mem0, mem, h, hs, t, 0);
      while mem[p].next != NULL
        invariant i < |hs| && p == hs[i] && Raised(mem0, mem, hs, mem0[t].tot_len, i)
        invariant p in mem && mem[p].next == (if i + 1 < |hs| then hs[i + 1] else NULL)
        invariant i + 1 < |hs| ==> hs[i + 1] != NULL
        decreases |hs| - i
      {
        p := RaiseOne(h, hs, t, p, i, mem0);
        i := i + 1;
        Cursor(mem0, mem, h, hs, t, i);
      }
      var next := RaiseOne(h, hs, t, p, i, mem0);
      RaisedThenLinked(mem0, mem, h, hs, t);
      mem := mem[p := mem[p].(next := t)];
    }

    /** Adds the total of t to that of p, and steps on. */
    method RaiseOne(ghost h: Ptr, ghost hs: seq<Ptr>, t: Ptr, p: Ptr, ghost i: nat, ghost mem0: Memory)
      returns (next: Ptr)
      requires IsChain(mem0, h, hs) && i < |hs| && p == hs[i] && t in mem0 && t !in hs
      requires Raised(mem0, mem, hs, mem0[t].tot_len, i) && p in mem
      modifies `mem
      ensures Raised(mem0, mem, hs, mem0[t].tot_len, i + 1) && p in mem
      ensures next == old(mem)[p].next == mem[p].next
    {
      Cursor(mem0, mem, h, hs, t, i);
      RaiseStep(mem0, mem, h, hs, mem0[t].tot_len, i);
      next := mem[p].next;
      mem := mem[p := mem[p].(tot_len := (mem[p].tot_len + mem[t].tot_len) % U16)];
    }

    /** pbuf_chain: like pbuf_cat, but the caller keeps its reference to t. The count of t goes
        up even when pbuf_cat has refused h, and then no reference stands for it. */
    method Chain(h: Ptr, t: Ptr)
      requires Valid() && (t != NULL ==> t in mem)
      requires h != NULL && t != NULL ==> h in mem && t in handles && CanJoin(mem, h, t)
      modifies this
      ensures free == old(free) && handles == old(handles)
      ensures Exact(mem, handles) <==> h != NULL || t == NULL
      ensures h != NULL || t == NULL ==> Valid()
      ensures t == NULL ==> mem == old(mem)
      ensures h == NULL && t != NULL ==> mem == old(mem)[t := old(mem)[t].(ref := old(mem)[t].ref + 1)]
      ensures h != NULL && t != NULL ==>
        exists mid: Memory ::
          && IsCat(old(mem), mid, ChainOf(old(mem), h), t)
          && mem == mid[t := mid[t].(ref := mid[t].ref + 1)]
    {
      Cat(h, t);
      ghost var mid := mem;
      Ref(t);
      if h == NULL && t != NULL {
        CountWithoutReference(old(mem), old(handles), t);
        handles := old(handles);
      } else if t != NULL {
        assert old(handles)[t] > 0;
        assert handles == old(handles);
        assert mem == mid[t := mid[t].(ref := mid[t].ref + 1)];
      }
    }

    /** pbuf_dechain. The result is decided by the u8_t that pbuf_free returns. */
    method Dechain(p: Ptr) returns (r: Ptr)
      requires Valid() && p in mem
      modifies this
      ensures Valid() && handles == old(handles)
      ensures old(mem)[p].next == NULL ==> mem == old(mem) && r == NULL
      ensures old(mem)[p].next != NULL ==>
        && old(mem)[p].next in old(mem)
        && mem == FreeFrom(Separated(old(mem), p), old(mem)[p].next)
        && |mem| <= |old(mem)|
        && r == if AsU8(|old(mem)| - |mem|) > 0 then NULL else old(mem)[p].next
      ensures old(mem)[p].next != NULL ==> IsDechained(old(mem), mem, p)
    {
      var q := mem[p].next;
      var tail_gone := 1;
      if q != NULL {
        LeavesDechained(mem, handles, p);
        Separate(p, q);
        tail_gone := Free(q);
        assert handles == old(handles);
      }
      return if tail_gone > 0 then NULL else q;
    }

    /** The part of pbuf_dechain before pbuf_free: the link to q becomes a reference to drop. */
    method Separate(p: Ptr, q: Ptr)
      requires Valid() && p in mem && q == mem[p].next && q != NULL
      modifies `mem, `handles
      ensures Valid() && q in old(mem) && mem == Separated(old(mem), p) && handles == old(handles) + multiset{q}
      ensures |mem| == |old(mem)|
    {
      SeparatedKeeps(mem, handles, p);
      SameKindsConserve(mem, Separated(mem, p), free, total);
      mem := mem[q := mem[q].(tot_len := (mem[p].tot_len - |mem[p].data|) % U16)];
      mem := mem[p := mem[p].(next := NULL, tot_len := |mem[p].data|)];
      handles := handles + multiset{q};
      assert |mem| == |mem.Keys| && |old(mem)| == |old(mem).Keys|;
    }

    /** pbuf_realloc. The link of the new last pbuf is cleared before the rest is freed (the
        code clears it afterwards; nothing reads it in between). */
    method Realloc(p: Ptr, new_len: nat)
      requires Valid() && p in mem && HasChain(mem, p) && TotalsOk(mem, ChainOf(mem, p)) && mem[p].tot_len < U16
      modifies this
      ensures Valid() && handles == old(handles)
      ensures new_len >= old(mem)[p].tot_len ==> mem == old(mem)
      ensures new_len < old(mem)[p].tot_len ==>
        exists i :: ShrunkTo(old(mem), mem, p, ChainOf(old(mem), p), new_len, i)
      ensures forall q :: q in old(mem) && q !in ChainOf(old(mem), p) ==> q in mem && mem[q] == old(mem)[q]
    {
      if new_len >= mem[p].tot_len {
        return;
      }
      ghost var mem0, ps := mem, ChainOf(mem, p);
      ghost var i, rem;
      var next;
      next, i, rem := Shorten(p, new_len, ps);
      ghost var mid := mem;
      if next != NULL {
        var gone := Free(next);
        assert handles == old(handles);
      }
      assert mem == FreeFrom(mid, mem0[ps[i]].next);
      ReallocLeaves(mem0, mid, p, ps, new_len, i, rem);
    }

    /** The part of pbuf_realloc before pbuf_free: lower the totals on the way to the new last
        pbuf, cut that one, and return what followed it. */
    method Shorten(p: Ptr, new_len: nat, ghost ps: seq<Ptr>) returns (next: Ptr, ghost i: nat, ghost rem: nat)
      requires Valid() && p in mem && IsChain(mem, p, ps) && TotalsOk(mem, ps) && new_len < mem[p].tot_len < U16
      modifies `mem, `handles
      ensures Valid() && handles == With(old(handles), next)
      ensures EndsIn(old(mem), ps, new_len, i, rem)
      ensures IsCut(old(mem), mem, ps, i, rem, new_len - old(mem)[p].tot_len)
      ensures IsChain(mem, p, ps[..i + 1]) && next == old(mem)[ps[i]].next
    {
      ghost var mem0 := mem;
      var q, rem_len;
      q, rem_len, i := StepOver(p, new_len, ps);
      rem := rem_len;
      RaisedThenCut(mem0, mem, p, ps, i, rem_len, new_len - mem0[p].tot_len);
      next := mem[q].next;
      mem := mem[q := mem[q].(next := NULL, tot_len := rem_len, data := mem[q].data[..rem_len])];
      CutKeeps(mem0, mem, handles, p, ps, i, rem, new_len - mem0[p].tot_len);
      CutFields(mem0, mem, ps, i, rem, new_len - mem0[p].tot_len);
      SameKindsConserve(mem0, mem, free, total);
      handles := With(handles, next);
    }

    /** The loop of pbuf_realloc: step over the pbufs that remain in the chain. */
    method StepOver(p: Ptr, new_len: nat, ghost ps: seq<Ptr>) returns (q: Ptr, rem_len: nat, ghost i: nat)
      requires p in mem && p != NULL && IsChain(mem, p, ps) && TotalsOk(mem, ps) && new_len < mem[p].tot_len < U16
      modifies `mem
      ensures EndsIn(old(mem), ps, new_len, i, rem_len) && q == ps[i]
      ensures Raised(old(mem), mem, ps, new_len - old(mem)[p].tot_len, i)
    {
      ghost var mem0 := mem;
      var grow := new_len - mem[p].tot_len;
      rem_len := new_len;
      q := p;
      i := 0;
      ShrinkCursor(mem0, mem, p, ps, grow, 0);
      while rem_len > |mem[q].data|
        invariant i < |ps| && q == ps[i] && q in mem && q in mem0 && mem[q] == mem0[q]
        invariant Raised(mem0, mem, ps, grow, i)
        invariant rem_len - mem0[q].tot_len == grow
        decreases |ps| - i
      {
        ShrinkStep(mem0, mem, p, ps, grow, rem_len, i);
        rem_len := rem_len - |mem[q].data|;
        mem := mem[q := mem[q].(tot_len := (mem[q].tot_len + grow) % U16)];
        q := mem[q].next;
        i := i + 1;
      }
    }

    /** memp_malloc or mem_malloc, and the initialisation of the new pbuf. */
    method New(b: Pbuf) returns (q: Ptr)
      requires Conserved(mem, free, total)
      modifies `mem, `free
      ensures SourceOf(b.kind) in old(free) && Conserved(mem, free, total)
      ensures q == NULL ==> mem == old(mem) && free == old(free) && free[SourceOf(b.kind)] == {}
      ensures q != NULL ==> q !in old(mem) && mem == old(mem)[q := b] && q in old(free)[SourceOf(b.kind)]
      ensures q != NULL ==> free == old(free)[SourceOf(b.kind) := old(free)[SourceOf(b.kind)] - {q}]
    {
      var src := SourceOf(b.kind);
      assert ConservedFor(mem, free, total, src);
      if free[src] == {} {
        return NULL;
      }
      q :| q in free[src];
      TakeConserves(mem, free, total, b, q);
      free := free[src := free[src] - {q}];
      mem := mem[q := b];
    }

    /** pbuf_alloc of a RAM, ROM or REF pbuf: one pbuf of the given length, or NULL if there is
        no memory for it. */
    method AllocSingle(kind: Kind, length: nat) returns (p: Ptr)
      requires Valid() && !kind.PoolPbuf?
      modifies this
      ensures Valid() && FromHeap in old(free) && FromStructs in old(free)
      ensures p == NULL <==> old(free)[if kind == RamPbuf then FromHeap else FromStructs] == {}
      ensures p == NULL ==> mem == old(mem) && free == old(free) && handles == old(handles)
      ensures p != NULL ==>
        && p !in old(mem) && p in mem && mem == old(mem)[p := mem[p]] && handles == old(handles) + multiset{p}
        && IsChain(mem, p, [p]) && TotalsOk(mem, [p]) && |mem[p].data| == length
        && mem[p].kind == kind && mem[p].ref == 1 && p in old(free)[if kind == RamPbuf then FromHeap else FromStructs]
    {
      assert ConservedFor(mem, free, total, FromHeap) && ConservedFor(mem, free, total, FromStructs);
      var b := Pbuf(NULL, length, seq(length, _ => 0), 1, kind);
      ghost var mem0 := mem;
      p := New(b);
      if p != NULL {
        NewKeeps(mem0, handles, p, b);
        handles := handles + multiset{p};
      }
    }

    /** pbuf_alloc of a PBUF_POOL chain. first is the room in the first pbuf, behind the
        headers. The call fails exactly when the pool has too few pbufs, and then everything
        is as before. */
    method AllocPool(length: nat, first: nat, bufSize: nat) returns (p: Ptr, ghost ps: seq<Ptr>)
      requires Valid() && 0 < first && 0 < bufSize
      modifies this
      ensures Valid() && FromPool in old(free) && FromPool in free
      ensures p == NULL <==> |old(free)[FromPool]| < Needed(length, first, bufSize)
      ensures p == NULL ==> mem == old(mem) && handles == old(handles) && free[FromPool] == old(free)[FromPool]
      ensures p != NULL ==>
        && Growing(old(mem), mem, p, ps) && handles == old(handles) + multiset{p}
        && TotalsOk(mem, ps) && mem[p].tot_len == length && |Content(mem, ps)| == length
        && Parts(mem, ps, first, bufSize, 0) && |ps| == Needed(length, first, bufSize)
        && (forall q :: q in ps ==> q in old(free)[FromPool])
    {
      ghost var mem0, free0 := mem, free;
      ps := [];
      p := AllocFirst(length, first, bufSize);
      if p == NULL {
        return;
      }
      var done;
      done, ps := Grow(p, length, first, bufSize, mem0);
      if !done {
        GiveBack(p, mem0, ps);
        SameFree(mem0, free0, free, total);
        assert handles == old(handles);
        return NULL, [];
      }
      PartsDone(mem, ps, first, bufSize);
      TotalIsContent(mem, ps);
      TakenFromPool(mem0, free0, mem, free, total, p, ps);
    }

    /** The first pbuf of the chain. */
    method AllocFirst(length: nat, first: nat, bufSize: nat) returns (p: Ptr)
      requires Valid() && 0 < bufSize
      modifies this
      ensures Valid() && FromPool in old(free) && FromPool in free
      ensures p == NULL <==> old(free)[FromPool] == {}
      ensures p == NULL ==> mem == old(mem) && handles == old(handles) && free == old(free)
      ensures p != NULL ==>
        && Growing(old(mem), mem, p, [p]) && handles == old(handles) + multiset{p} && mem[p].tot_len == length
        && Parts(mem, [p], first, bufSize, length - Min(length, first))
        && |free[FromPool]| == |old(free)[FromPool]| - 1
    {
      p := New(Pbuf(NULL, length, seq(Min(length, first), _ => 0), 1, PoolPbuf));
      if p != NULL {
        NewKeeps(old(mem), handles, p, mem[p]);
        handles := handles + multiset{p};
        assert PartAt(mem, [p], first, bufSize, length - Min(length, first), 0);
      }
    }

    /** The loop of pbuf_alloc that allocates the tail of the chain. */
    method Grow(p: Ptr, length: nat, first: nat, bufSize: nat, ghost mem0: Memory)
      returns (done: bool, ghost ps: seq<Ptr>)
      requires Valid() && 0 < bufSize && Growing(mem0, mem, p, [p]) && FromPool in free
      requires Parts(mem, [p], first, bufSize, length - Min(length, first)) && mem[p].tot_len == length
      modifies `mem, `free
      ensures Valid() && FromPool in free && Growing(mem0, mem, p, ps) && mem[p].tot_len == length
      ensures done ==> Parts(mem, ps, first, bufSize, 0) && |ps| == Needed(length, first, bufSize)
      ensures done <==> Needed(length, first, bufSize) <= |old(free)[FromPool]| + 1
    {
      ps := [p];
      var r := p;
      var rem_len: nat := length - Min(length, first);
      while rem_len > 0
        invariant Valid() && FromPool in free
        invariant Growing(mem0, mem, p, ps) && r == Last(ps)
        invariant Parts(mem, ps, first, bufSize, rem_len) && mem[p].tot_len == length
        invariant |free[FromPool]| + |ps| == |old(free)[FromPool]| + 1
        invariant |ps| + NeededRest(rem_len, bufSize) == Needed(length, first, bufSize)
      {
        var q := Append(p, r, rem_len, first, bufSize, mem0, ps);
        if q == NULL {
          return false, ps;
        }
        rem_len := rem_len - Min(rem_len, bufSize);
        ps := ps + [q];
        r := q;
      }
      done := true;
    }

    /** One iteration of the loop of pbuf_alloc: take a pbuf and link it behind r. */
    method Append(p: Ptr, r: Ptr, rem_len: nat, first: nat, bufSize: nat, ghost mem0: Memory, ghost ps: seq<Ptr>)
      returns (q: Ptr)
      requires Valid() && 0 < bufSize && 0 < rem_len && Growing(mem0, mem, p, ps) && r == Last(ps)
      requires Parts(mem, ps, first, bufSize, rem_len)
      modifies `mem, `free
      ensures Valid() && FromPool in old(free) && FromPool in free
      ensures q == NULL ==> mem == old(mem) && free == old(free) && free[FromPool] == {}
      ensures q != NULL ==> Growing(mem0, mem, p, ps + [q]) && |free[FromPool]| == |old(free)[FromPool]| - 1
      ensures q != NULL ==> Parts(mem, ps + [q], first, bufSize, rem_len - Min(rem_len, bufSize))
      ensures q != NULL ==> mem[p].tot_len == old(mem)[p].tot_len
    {
      var b := Pbuf(NULL, rem_len, seq(Min(rem_len, bufSize), _ => 0), 1, PoolPbuf);
      ghost var m := mem;
      q := New(b);
      if q != NULL {
        AppendKeeps(mem0, m, handles, p, ps, q, b);
        ghost var m1 := mem;
        mem := mem[r := mem[r].(next := q)];
        SameKindsConserve(m1, mem, free, total);
        PartsAppend(m, mem, ps, q, first, bufSize, rem_len);
      }
    }

    /** The pool has run dry: free the chain allocated so far. */
    method GiveBack(p: Ptr, ghost mem0: Memory, ghost ps: seq<Ptr>)
      requires Valid() && Growing(mem0, mem, p, ps) && p in handles
      modifies this
      ensures Valid() && mem == mem0 && handles == old(handles) - multiset{p}
    {
      RollBack(mem0, mem, p, ps);
      var count := Free(p);
    }
  }

  /** The pbufs of the new chain were free pool elements. */
  lemma TakenFromPool(mem0: Memory, free0: map<Source, set<Ptr>>, mem: Memory, free: map<Source, set<Ptr>>,
                      total: map<Source, set<Ptr>>, p: Ptr, ps: seq<Ptr>)
    requires Conserved(mem0, free0, total) && Conserved(mem, free, total) && Growing(mem0, mem, p, ps)
    ensures FromPool in free0 && forall q :: q in ps ==> q in free0[FromPool]
  {
    assert ConservedFor(mem0, free0, total, FromPool);
    forall q | q in ps ensures q in free0[FromPool] {
      LiveIsTotal(mem, free, total, q);
      assert q in total[FromPool];
    }
  }

  lemma SameFree(mem: Memory, free1: map<Source, set<Ptr>>, free2: map<Source, set<Ptr>>, total: map<Source, set<Ptr>>)
    requires Conserved(mem, free1, total) && Conserved(mem, free2, total)
    ensures FromPool in free1 && FromPool in free2 && free1[FromPool] == free2[FromPool]
  {
    assert ConservedFor(mem, free1, total, FromPool) && ConservedFor(mem, free2, total, FromPool);
  }
}
