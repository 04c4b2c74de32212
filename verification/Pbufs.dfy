/** Packet buffers of pbuf.c: the memory they live in, as a map from addresses to struct pbuf. */
module Pbufs {
  import opened Basics
  import opened Bytes


  datatype Kind = PoolPbuf | RomPbuf | RefPbuf | RamPbuf

  /** struct pbuf. The payload bytes are data, so len is |data|. */
  datatype Pbuf = Pbuf(next: Ptr, tot_len: nat, data: seq<byte>, ref: nat, kind: Kind)

  type Memory = map<Ptr, Pbuf>

  // ----- chains

  /** ps are the pbufs of the chain that starts at p, in order; the chain ends with NULL. */
  ghost predicate IsChain(mem: Memory, p: Ptr, ps: seq<Ptr>)
    decreases |ps|
  {
    if ps == [] then p == NULL
    else p != NULL && p == ps[0] && p in mem && IsChain(mem, mem[p].next, ps[1..])
  }

  /** Every pbuf starts a finite chain, and NULL is not an address. */
  ghost predicate Acyclic(mem: Memory) {
    NULL !in mem && forall p {:trigger HasChain(mem, p)} :: p in mem ==> HasChain(mem, p)
  }

  ghost predicate HasChain(mem: Memory, p: Ptr) {
    exists ps :: IsChain(mem, p, ps)
  }

  ghost function ChainOf(mem: Memory, p: Ptr): (ps: seq<Ptr>)
    requires HasChain(mem, p)
    ensures IsChain(mem, p, ps)
  {
    var ps :| IsChain(mem, p, ps);
    ps
  }

  /** The bytes of the pbufs ps, one after the other. */
  function Content(mem: Memory, ps: seq<Ptr>): seq<byte> {
    if ps == [] then [] else (if ps[0] in mem then mem[ps[0]].data else []) + Content(mem, ps[1..])
  }

  /** The tot_len of pbuf i counts its own bytes and those of the rest of the chain. */
  ghost predicate TotalAt(mem: Memory, ps: seq<Ptr>, i: nat) {
    && i < |ps| && ps[i] in mem && (i + 1 < |ps| ==> ps[i + 1] in mem)
    && mem[ps[i]].tot_len == |mem[ps[i]].data| + if i + 1 < |ps| then mem[ps[i + 1]].tot_len else 0
  }

  ghost predicate TotalsOk(mem: Memory, ps: seq<Ptr>) {
    forall i :: 0 <= i < |ps| ==> TotalAt(mem, ps, i)
  }

  lemma {:induction false} ChainUnique(mem: Memory, p: Ptr, ps: seq<Ptr>, qs: seq<Ptr>)
    requires IsChain(mem, p, ps) && IsChain(mem, p, qs)
    ensures ps == qs
    decreases |ps|
  {
    if ps != [] {
      ChainUnique(mem, mem[p].next, ps[1..], qs[1..]);
      assert ps == [ps[0]] + ps[1..] && qs == [qs[0]] + qs[1..];
    }
  }

  /** The chain from element i on, and the link between neighbours. */
  lemma {:induction false} ChainAt(mem: Memory, p: Ptr, ps: seq<Ptr>, i: nat)
    requires IsChain(mem, p, ps) && i < |ps|
    ensures ps[i] in mem && ps[i] != NULL && IsChain(mem, ps[i], ps[i..])
    ensures mem[ps[i]].next == (if i + 1 < |ps| then ps[i + 1] else NULL)
    decreases i
  {
    if i > 0 {
      ChainAt(mem, mem[p].next, ps[1..], i - 1);
      assert ps[1..][i - 1..] == ps[i..];
    } else {
      assert ps[0..] == ps;
    }
  }

  /** A chain does not visit a pbuf twice. */
  lemma ChainDistinct(mem: Memory, p: Ptr, ps: seq<Ptr>, i: nat, j: nat)
    requires IsChain(mem, p, ps) && i < j < |ps|
    ensures ps[i] != ps[j]
  {
    if ps[i] == ps[j] {
      ChainAt(mem, p, ps, i);
      ChainAt(mem, p, ps, j);
      ChainUnique(mem, ps[i], ps[i..], ps[j..]);
      assert false;
    }
  }

  /** A chain depends on the next links of its own pbufs only. */
  lemma {:induction false} ChainFrame(mem: Memory, mem': Memory, p: Ptr, ps: seq<Ptr>)
    requires IsChain(mem, p, ps)
    requires forall q :: q in ps ==> q in mem' && (q in mem ==> mem'[q].next == mem[q].next)
    ensures IsChain(mem', p, ps)
    decreases |ps|
  {
    if ps != [] {
      assert ps[0] in ps;
      assert forall q :: q in ps[1..] ==> q in ps;
      ChainFrame(mem, mem', mem[p].next, ps[1..]);
    }
  }

  // ----- reference counts

  /** The pbufs whose next link points to p. */
  ghost function InLinks(mem: Memory, p: Ptr): set<Ptr> {
    set q | q in mem && mem[q].next == p
  }

  ghost predicate RefExact(mem: Memory, handles: multiset<Ptr>, p: Ptr) {
    && p in mem
    && mem[p].ref == |InLinks(mem, p)| + handles[p]
    && 0 < mem[p].ref
    && (mem[p].next == NULL || mem[p].next in mem)
  }

  /** The reference counts are exact: each is the number of next links to the pbuf plus the
      number of handles held outside, there is at least one, and nothing points elsewhere. */
  ghost predicate Exact(mem: Memory, handles: multiset<Ptr>) {
    && NULL !in mem
    && (forall p {:trigger RefExact(mem, handles, p)} :: p in mem ==> RefExact(mem, handles, p))
    && (forall p {:trigger handles[p]} :: p in handles ==> p in mem)
  }

  /** The handles together with one more reference to p. */
  ghost function With(handles: multiset<Ptr>, p: Ptr): multiset<Ptr> {
    if p == NULL then handles else handles + multiset{p}
  }

  /** pbuf_free: drop one reference to p; as long as a count reaches zero the pbuf goes away
      and its link to the next pbuf is dropped too. */
  function FreeFrom(mem: Memory, p: Ptr): Memory
    decreases |mem|
  {
    if p !in mem then mem
    else if mem[p].ref > 1 then mem[p := mem[p].(ref := mem[p].ref - 1)]
    else
      MapShrinks(mem, p);
      FreeFrom(mem - {p}, mem[p].next)
  }

  lemma MapShrinks(mem: Memory, p: Ptr)
    requires p in mem
    ensures |mem - {p}| < |mem|
  {
    assert (mem - {p}).Keys == mem.Keys - {p};
  }
}
