/** Copies between packets and buffers: pbuf_take, pbuf_copy_partial and pbuf_copy depend on
    the bytes of a chain only, not on how they are split into pbufs. */
module PbufCopy {
  import opened Basics
  import opened Bytes
  import opened Pbufs
  import opened PbufTheorems
  import opened PbufChains
  import opened PbufTrim
  import opened PbufHeap
  import opened CopyRounds

  datatype Err = Ok | ErrArg | ErrVal

  /** s with bytes written over it at position at. */
  function Overwrite(s: seq<byte>, at: nat, bytes: seq<byte>): (r: seq<byte>)
    requires at + |bytes| <= |s|
    ensures |r| == |s|
  {
    s[..at] + bytes + s[at + |bytes|..]
  }

  /** At most len bytes of s from position offset on. */
  function Slice(s: seq<byte>, offset: nat, len: nat): seq<byte> {
    if offset >= |s| then [] else s[offset..Min(offset + len, |s|)]
  }

  /** As many bytes as there are, up to len, in order. */
  lemma SliceIs(s: seq<byte>, offset: nat, len: nat, i: nat)
    ensures |Slice(s, offset, len)| == if offset + len <= |s| then len else if offset <= |s| then |s| - offset else 0
    ensures i < |Slice(s, offset, len)| ==> offset + i < |s| && Slice(s, offset, len)[i] == s[offset + i]
  {
  }

  /** mem with bytes written into the payload of p. */
  function Store(mem: Memory, p: Ptr, off: nat, bytes: seq<byte>): Memory
    requires p in mem && off + |bytes| <= |mem[p].data|
  {
    mem[p := mem[p].(data := Overwrite(mem[p].data, off, bytes))]
  }

  // ----- positions in a chain

  /** Number of bytes of the chain ps before element j. */
  function Before(mem: Memory, ps: seq<Ptr>, j: nat): nat
    requires j <= |ps|
  {
    |Content(mem, ps[..j])|
  }

  lemma {:induction false} ContentSplit(mem: Memory, ps: seq<Ptr>, j: nat)
    requires j < |ps| && ps[j] in mem
    ensures Content(mem, ps) == Content(mem, ps[..j]) + mem[ps[j]].data + Content(mem, ps[j + 1..])
  {
    assert ps == ps[..j] + ps[j..];
    ContentJoin(mem, ps[..j], ps[j..]);
    assert ps[j..][1..] == ps[j + 1..];
  }

  lemma BeforeStep(mem: Memory, ps: seq<Ptr>, j: nat)
    requires j < |ps| && ps[j] in mem
    ensures Before(mem, ps, j + 1) == Before(mem, ps, j) + |mem[ps[j]].data|
    ensures Before(mem, ps, j + 1) <= |Content(mem, ps)|
    ensures Content(mem, ps)[Before(mem, ps, j)..Before(mem, ps, j + 1)] == mem[ps[j]].data
  {
    var qs := ps[..j + 1];
    ContentSplit(mem, qs, j);
    assert qs[..j] == ps[..j] && qs[j + 1..] == [];
    ContentSplit(mem, ps, j);
  }

  lemma {:induction false} BeforeMonotone(mem: Memory, ps: seq<Ptr>, i: nat, j: nat)
    requires i <= j <= |ps|
    ensures Before(mem, ps, i) <= Before(mem, ps, j) <= |Content(mem, ps)|
  {
    assert ps[..j] == ps[..i] + ps[i..j] && ps == ps[..j] + ps[j..];
    ContentJoin(mem, ps[..i], ps[i..j]);
    ContentJoin(mem, ps[..j], ps[j..]);
  }

  lemma BeforeAll(mem: Memory, ps: seq<Ptr>)
    ensures Before(mem, ps, |ps|) == |Content(mem, ps)|
  {
    assert ps[..|ps|] == ps;
  }

  /** p stands at byte off of element i, n bytes into the content; NULL is the end. */
  ghost predicate Pos(mem: Memory, ps: seq<Ptr>, p: Ptr, i: nat, off: nat, n: nat) {
    && i <= |ps| && p == (if i < |ps| then ps[i] else NULL)
    && (i < |ps| ==> p != NULL && p in mem && off <= |mem[p].data|) && (i == |ps| ==> off == 0)
    && n == Before(mem, ps, i) + off
  }

  lemma PosNext(mem: Memory, start: Ptr, ps: seq<Ptr>, p: Ptr, i: nat, off: nat, n: nat)
    requires IsChain(mem, start, ps) && i < |ps| && Pos(mem, ps, p, i, off, n) && off == |mem[p].data|
    ensures Pos(mem, ps, mem[p].next, i + 1, 0, n)
  {
    ChainAt(mem, start, ps, i);
    if i + 1 < |ps| { ChainAt(mem, start, ps, i + 1); }
    BeforeStep(mem, ps, i);
  }

  lemma SubSlice(s: seq<byte>, b: nat, e: nat, off: nat, k: nat)
    requires b <= e <= |s| && off + k <= e - b
    ensures s[b..e][off..off + k] == s[b + off..b + off + k]
  {
    var t, u := s[b..e][off..off + k], s[b + off..b + off + k];
    assert forall x :: 0 <= x < k ==> t[x] == u[x];
  }

  /** The next k bytes of the content are in the payload of p. */
  lemma PosBytes(mem: Memory, ps: seq<Ptr>, p: Ptr, i: nat, off: nat, n: nat, k: nat)
    requires Pos(mem, ps, p, i, off, n) && i < |ps| && off + k <= |mem[p].data|
    ensures n + k <= |Content(mem, ps)| && Content(mem, ps)[n..n + k] == mem[p].data[off..off + k]
  {
    BeforeStep(mem, ps, i);
    var b, e := Before(mem, ps, i), Before(mem, ps, i + 1);
    SubSlice(Content(mem, ps), b, e, off, k);
  }

  // ----- writing payload bytes

  /** mem' differs from mem in payload bytes only. */
  ghost predicate SameShape(mem: Memory, mem': Memory) {
    mem'.Keys == mem.Keys && forall p {:trigger SameButBytes(mem, mem', p)} :: p in mem ==> SameButBytes(mem, mem', p)
  }

  ghost predicate SameButBytes(mem: Memory, mem': Memory, p: Ptr) {
    && p in mem && p in mem' && |mem'[p].data| == |mem[p].data|
    && mem'[p] == mem[p].(data := mem'[p].data)
  }

  lemma StoreShape(mem0: Memory, mem: Memory, p: Ptr, off: nat, bytes: seq<byte>)
    requires SameShape(mem0, mem) && p in mem && off + |bytes| <= |mem[p].data|
    ensures SameShape(mem0, Store(mem, p, off, bytes))
  {
    forall q | q in mem0 ensures SameButBytes(mem0, Store(mem, p, off, bytes), q) {
      assert SameButBytes(mem0, mem, q);
    }
  }

  lemma ShapeKeeps(mem: Memory, mem': Memory, handles: multiset<Ptr>, free: map<Source, set<Ptr>>,
                   total: map<Source, set<Ptr>>)
    requires Exact(mem, handles) && Acyclic(mem) && Conserved(mem, free, total) && SameShape(mem, mem')
    ensures Exact(mem', handles) && Acyclic(mem') && Conserved(mem', free, total)
  {
    forall p | p in mem
      ensures mem'[p].next == mem[p].next && mem'[p].ref == mem[p].ref && mem'[p].kind == mem[p].kind
    {
      assert SameButBytes(mem, mem', p);
    }
    ExactFrame(mem, mem', handles);
    AcyclicFrame(mem, mem');
    SameKindsConserve(mem, mem', free, total);
  }

  lemma {:induction false} ShapeLength(mem: Memory, mem': Memory, ps: seq<Ptr>)
    requires SameShape(mem, mem')
    ensures |Content(mem', ps)| == |Content(mem, ps)|
  {
    if ps != [] {
      assert ps[0] in mem ==> SameButBytes(mem, mem', ps[0]);
      ShapeLength(mem, mem', ps[1..]);
    }
  }

  lemma ShapeChain(mem: Memory, mem': Memory, p: Ptr, ps: seq<Ptr>)
    requires SameShape(mem, mem') && IsChain(mem, p, ps)
    ensures IsChain(mem', p, ps)
  {
    ChainInMemory(mem, p, ps);
    forall q | q in ps ensures q in mem' && mem'[q].next == mem[q].next { assert SameButBytes(mem, mem', q); }
    ChainFrame(mem, mem', p, ps);
  }

  /** A write leaves the pbufs around element j alone. */
  lemma {:induction false} StoreAround(mem: Memory, p: Ptr, ps: seq<Ptr>, j: nat, off: nat, bytes: seq<byte>)
    requires IsChain(mem, p, ps) && j < |ps| && ps[j] in mem && off + |bytes| <= |mem[ps[j]].data|
    ensures
      var mem' := Store(mem, ps[j], off, bytes);
      && Content(mem', ps[..j]) == Content(mem, ps[..j])
      && Content(mem', ps[j + 1..]) == Content(mem, ps[j + 1..])
  {
    var e, pre, rest := ps[j], ps[..j], ps[j + 1..];
    var mem' := Store(mem, e, off, bytes);
    forall i | 0 <= i < |pre| ensures pre[i] != e { ChainDistinct(mem, p, ps, i, j); }
    forall i | 0 <= i < |rest| ensures rest[i] != e { ChainDistinct(mem, p, ps, j, j + 1 + i); }
    assert e !in pre && e !in rest;
    ContentFrame(mem, mem', pre);
    ContentFrame(mem, mem', rest);
  }

  /** Overwriting the middle part of a sequence. */
  lemma OverwriteMiddle(s: seq<byte>, s': seq<byte>, a: seq<byte>, b: seq<byte>, b': seq<byte>, c: seq<byte>,
                        off: nat, bytes: seq<byte>)
    requires off + |bytes| <= |b| && b' == Overwrite(b, off, bytes) && s == a + b + c && s' == a + b' + c
    ensures |a| + off + |bytes| <= |s| && s' == Overwrite(s, |a| + off, bytes)
  {
  }

  /** Writing into the payload of element j writes into the content of the chain. */
  lemma {:induction false} StoreContent(mem: Memory, p: Ptr, ps: seq<Ptr>, j: nat, off: nat, bytes: seq<byte>)
    requires IsChain(mem, p, ps) && j < |ps| && ps[j] in mem && off + |bytes| <= |mem[ps[j]].data|
    ensures Before(mem, ps, j) + off + |bytes| <= |Content(mem, ps)|
    ensures Content(Store(mem, ps[j], off, bytes), ps) == Overwrite(Content(mem, ps), Before(mem, ps, j) + off, bytes)
  {
    var mem' := Store(mem, ps[j], off, bytes);
    var pre, d, d', post := Content(mem, ps[..j]), mem[ps[j]].data, mem'[ps[j]].data, Content(mem, ps[j + 1..]);
    assert Content(mem', ps[..j]) == pre && Content(mem', ps[j + 1..]) == post by {
      StoreAround(mem, p, ps, j, off, bytes);
    }
    ContentSplit(mem, ps, j);
    ContentSplit(mem', ps, j);
    OverwriteMiddle(Content(mem, ps), Content(mem', ps), pre, d, d', post, off, bytes);
  }

  /** s with its first n bytes replaced by those of source. */
  function Replaced(s: seq<byte>, source: seq<byte>, n: nat): seq<byte>
    requires n <= |s| && n <= |source|
  {
    source[..n] + s[n..]
  }

  ghost predicate Untouched(mem0: Memory, mem: Memory, q: Ptr) {
    q in mem0 && q in mem && mem[q] == mem0[q]
  }

  /** Content, named without recursion for use in invariants. */
  function AllBytes(mem: Memory, ps: seq<Ptr>): seq<byte> {
    Content(mem, ps)
  }

  /** The first n bytes of the chain have been replaced by those of source. */
  ghost predicate Filled(mem0: Memory, mem: Memory, ps: seq<Ptr>, source: seq<byte>, n: nat) {
    && n <= |source| && n <= |AllBytes(mem0, ps)|
    && SameShape(mem0, mem)
    && (forall q {:trigger Untouched(mem0, mem, q)} :: q in mem0 && q !in ps ==> Untouched(mem0, mem, q))
    && AllBytes(mem, ps) == Replaced(AllBytes(mem0, ps), source, n)
  }

  lemma OverwriteNext(s: seq<byte>, source: seq<byte>, n: nat, k: nat)
    requires n + k <= |source| && n + k <= |s|
    ensures Overwrite(Replaced(s, source, n), n, source[n..n + k]) == Replaced(s, source, n + k)
  {
  }

  lemma FillContent(mem0: Memory, mem: Memory, start: Ptr, ps: seq<Ptr>, source: seq<byte>, p: Ptr, i: nat, off: nat,
                    n: nat, k: nat)
    requires IsChain(mem, start, ps) && i < |ps| && p == ps[i] && p in mem && n == Before(mem, ps, i) + off
    requires n + k <= |source| && n + k <= |Content(mem0, ps)| && off + k <= |mem[p].data|
    requires Content(mem, ps) == Replaced(Content(mem0, ps), source, n)
    ensures Content(Store(mem, p, off, source[n..n + k]), ps) == Replaced(Content(mem0, ps), source, n + k)
  {
    StoreContent(mem, start, ps, i, off, source[n..n + k]);
    OverwriteNext(Content(mem0, ps), source, n, k);
  }

  lemma FillStep(mem0: Memory, mem: Memory, start: Ptr, ps: seq<Ptr>, source: seq<byte>, p: Ptr, i: nat, off: nat,
                 n: nat, k: nat)
    requires IsChain(mem0, start, ps) && i < |ps| && Pos(mem0, ps, p, i, off, n) && Filled(mem0, mem, ps, source, n)
    requires off + k <= |mem0[p].data| && n + k <= |source|
    ensures p in mem && |mem[p].data| == |mem0[p].data| && mem[p].next == mem0[p].next
    ensures Filled(mem0, Store(mem, p, off, source[n..n + k]), ps, source, n + k)
  {
    assert SameButBytes(mem0, mem, p);
    PosBytes(mem0, ps, p, i, off, n, k);
    ShapeChain(mem0, mem, start, ps);
    ShapeLength(mem0, mem, ps[..i]);
    StoreShape(mem0, mem, p, off, source[n..n + k]);
    FillContent(mem0, mem, start, ps, source, p, i, off, n, k);
    assert p in ps;
    forall q | q in mem0 && q !in ps ensures Untouched(mem0, Store(mem, p, off, source[n..n + k]), q) {
      assert Untouched(mem0, mem, q);
    }
  }

  // ----- pbuf_take

  /** A chain of live pbufs with correct totals. */
  ghost predicate IsPacket(mem: Memory, p: Ptr, ps: seq<Ptr>) {
    p != NULL && IsChain(mem, p, ps) && TotalsOk(mem, ps)
  }

  lemma PacketStart(mem: Memory, p: Ptr, ps: seq<Ptr>)
    requires IsPacket(mem, p, ps)
    ensures ps != [] && p in mem && p == ps[0] && mem[p].tot_len == |Content(mem, ps)|
    ensures Pos(mem, ps, p, 0, 0, 0)
  {
    TotalIsContent(mem, ps);
    assert ps[..0] == [];
  }

  lemma FilledNone(mem: Memory, ps: seq<Ptr>, source: seq<byte>)
    ensures Filled(mem, mem, ps, source, 0)
  {
    SameShapeRefl(mem);
    forall q | q in mem ensures Untouched(mem, mem, q) { }
  }

  /** Where pbuf_take stands: done, or at the start of pbuf i with copied bytes stored before it. */
  ghost predicate Taking(mem0: Memory, mem: Memory, ps: seq<Ptr>, data: seq<byte>, p: Ptr, i: nat, copied: nat) {
    && i <= |ps| && Filled(mem0, mem, ps, data, copied)
    && (copied < |data| ==> Pos(mem0, ps, p, i, 0, copied))
  }

  /** While bytes are left there is a pbuf to put them in. */
  lemma TakeRoom(mem0: Memory, mem: Memory, ps: seq<Ptr>, data: seq<byte>, p: Ptr, i: nat, copied: nat)
    requires |data| <= |Content(mem0, ps)|
    requires Taking(mem0, mem, ps, data, p, i, copied) && copied < |data|
    ensures i < |ps| && p in mem0 && p in mem && |mem[p].data| == |mem0[p].data|
  {
    if i == |ps| { BeforeAll(mem0, ps); }
    assert SameButBytes(mem0, mem, p);
  }

  lemma {:induction false} TakeStep(mem0: Memory, mem: Memory, buf: Ptr, ps: seq<Ptr>, data: seq<byte>, p: Ptr,
                                    i: nat, copied: nat, n: nat, mem1: Memory)
    requires IsChain(mem0, buf, ps) && |data| <= |Content(mem0, ps)|
    requires Taking(mem0, mem, ps, data, p, i, copied) && copied < |data|
    requires p in mem && n == Min(|data| - copied, |mem[p].data|)
    requires mem1 == Store(mem, p, 0, data[copied..copied + n])
    ensures i < |ps| && Taking(mem0, mem1, ps, data, mem[p].next, i + 1, copied + n)
  {
    TakeRoom(mem0, mem, ps, data, p, i, copied);
    assert SameButBytes(mem0, mem, p);
    FillStep(mem0, mem, buf, ps, data, p, i, 0, copied, n);
    if n == |mem[p].data| { PosNext(mem0, buf, ps, p, i, n, copied + n); }
  }

  /** pbuf_take: replaces the first bytes of the chain by data. */
  method Take(h: Heap, buf: Ptr, data: seq<byte>, ghost ps: seq<Ptr>) returns (r: Err)
    requires h.Valid() && (buf != NULL ==> IsPacket(h.mem, buf, ps))
    modifies h`mem
    ensures h.Valid()
    ensures buf == NULL ==> r == Ok && h.mem == old(h.mem)
    ensures buf != NULL && |Content(old(h.mem), ps)| < |data| ==> r == ErrArg && h.mem == old(h.mem)
    ensures buf != NULL && |Content(old(h.mem), ps)| >= |data| ==>
      r == Ok && Filled(old(h.mem), h.mem, ps, data, |data|)
  {
    if buf == NULL {
      return Ok;
    }
    PacketStart(h.mem, buf, ps);
    if h.mem[buf].tot_len < |data| {
      return ErrArg;
    }
    ghost var mem0 := h.mem;
    TakeLoop(h, buf, data, ps);
    ShapeKeeps(mem0, h.mem, h.handles, h.free, h.total);
    return Ok;
  }

  /** One round of the loop of pbuf_take. */
  method TakeRound(h: Heap, buf: Ptr, data: seq<byte>, ghost ps: seq<Ptr>, ghost mem0: Memory, p: Ptr, copied: nat,
                   ghost i: nat)
    returns (p': Ptr, copied': nat)
    requires IsChain(mem0, buf, ps) && |data| <= |Content(mem0, ps)|
    requires Taking(mem0, h.mem, ps, data, p, i, copied) && copied < |data|
    modifies h`mem
    ensures i < |ps| && Taking(mem0, h.mem, ps, data, p', i + 1, copied')
  {
    TakeRoom(mem0, h.mem, ps, data, p, i, copied);
    ghost var mem := h.mem;
    var n := Min(|data| - copied, |h.mem[p].data|);
    p', copied' := h.mem[p].next, copied + n;
    h.mem := Store(h.mem, p, 0, data[copied..copied + n]);
    TakeStep(mem0, mem, buf, ps, data, p, i, copied, n, h.mem);
  }

  /** The loop of pbuf_take. */
  method TakeLoop(h: Heap, buf: Ptr, data: seq<byte>, ghost ps: seq<Ptr>)
    requires IsPacket(h.mem, buf, ps) && |data| <= |Content(h.mem, ps)|
    modifies h`mem
    ensures Filled(old(h.mem), h.mem, ps, data, |data|)
  {
    ghost var mem0, i := h.mem, 0;
    var p: Ptr, copied: nat := buf, 0;
    PacketStart(mem0, buf, ps);
    FilledNone(mem0, ps, data);
    while copied < |data|
      invariant copied <= |data| && Taking(mem0, h.mem, ps, data, p, i, copied)
      decreases |ps| - i
    {
      p, copied := TakeRound(h, buf, data, ps, mem0, p, copied, i);
      i := i + 1;
    }
  }

  lemma SameShapeRefl(mem: Memory)
    ensures SameShape(mem, mem)
  {
    forall p | p in mem ensures SameButBytes(mem, mem, p) { }
  }

  // ----- pbuf_copy_partial

  /** What is copied in the end when out has been copied already and s is still to be read. */
  ghost function Final(out: seq<byte>, s: seq<byte>, offset: nat, len: nat): seq<byte> {
    out + Slice(s, offset, len)
  }

  /** A buffer that lies before the offset is skipped. */
  lemma SkipStep(mem: Memory, ps: seq<Ptr>, out: seq<byte>, offset: nat, len: nat)
    requires ps != [] && ps[0] in mem && offset >= |mem[ps[0]].data|
    ensures Final(out, Content(mem, ps), offset, len)
         == Final(out, Content(mem, ps[1..]), offset - |mem[ps[0]].data|, len)
  {
    var d, rest := mem[ps[0]].data, Content(mem, ps[1..]);
    assert Slice(d + rest, offset, len) == Slice(rest, offset - |d|, len);
  }

  lemma {:induction false} CopyStep(mem: Memory, ps: seq<Ptr>, out: seq<byte>, offset: nat, len: nat, n: nat)
    requires ps != [] && ps[0] in mem && offset <= |mem[ps[0]].data| && n == Min(|mem[ps[0]].data| - offset, len)
    ensures Final(out, Content(mem, ps), offset, len)
         == Final(out + mem[ps[0]].data[offset..offset + n], Content(mem, ps[1..]), 0, len - n)
  {
    var d, rest := mem[ps[0]].data, Content(mem, ps[1..]);
    assert Slice(d + rest, offset, len) == d[offset..offset + n] + Slice(rest, 0, len - n);
  }

  lemma FinalEnds(mem: Memory, rest: seq<Ptr>, out: seq<byte>, offset: nat, len: nat)
    requires len == 0 || rest == []
    ensures Final(out, Content(mem, rest), offset, len) == out
  {
    assert Slice(Content(mem, rest), offset, len) == [];
  }

  /** pbuf_copy_partial: the bytes at an offset, cut at the end of the packet. The result is
      what it stores at dataptr; the code also returns its length. */
  method CopyPartial(mem: Memory, buf: Ptr, len: nat, offset: nat, ghost ps: seq<Ptr>) returns (out: seq<byte>)
    requires IsChain(mem, buf, ps)
    ensures out == Slice(Content(mem, ps), offset, len)
  {
    assert Final([], Content(mem, ps), offset, len) == Slice(Content(mem, ps), offset, len);
    out := [];
    var p: Ptr, left: nat, off: nat := buf, len, offset;
    ghost var rest := ps;
    while left != 0 && p != NULL
      invariant IsChain(mem, p, rest)
      invariant Final(out, Content(mem, rest), off, left) == Final([], Content(mem, ps), offset, len)
      decreases |rest|
    {
      var b := mem[p];
      if off != 0 && off >= |b.data| {
        SkipStep(mem, rest, out, off, left);
        off := off - |b.data|;
      } else {
        var n := Min(|b.data| - off, left);
        CopyStep(mem, rest, out, off, left, n);
        out := out + b.data[off..off + n];
        left := left - n;
        off := 0;
      }
      p := b.next;
      rest := rest[1..];
    }
    FinalEnds(mem, rest, out, off, left);
  }

  /** What pbuf_take has stored, pbuf_copy_partial returns, at any offset and length. */
  lemma TakeThenCopyPartial(mem0: Memory, mem: Memory, ps: seq<Ptr>, data: seq<byte>, offset: nat, len: nat)
    requires Filled(mem0, mem, ps, data, |data|) && offset + len <= |data|
    ensures Slice(Content(mem, ps), offset, len) == data[offset..offset + len]
  {
  }

  // ----- pbuf_copy

  /** Where the pbufs of the chain start, and where it ends. */
  ghost function BoundsOf(mem: Memory, ps: seq<Ptr>): (f: seq<nat>)
    ensures |f| == |ps| + 1 && Total(f) == |Content(mem, ps)|
  {
    BeforeAll(mem, ps);
    seq(|ps| + 1, i requires 0 <= i <= |ps| => Before(mem, ps, i))
  }

  lemma PacketBounds(mem: Memory, p: Ptr, ps: seq<Ptr>)
    requires IsPacket(mem, p, ps)
    ensures Bounds(BoundsOf(mem, ps))
  {
    PacketStart(mem, p, ps);
    var f := BoundsOf(mem, ps);
    assert f[0] == Before(mem, ps, 0) == 0;
    forall i, j | 0 <= i <= j < |f| ensures f[i] <= f[j] { BeforeMonotone(mem, ps, i, j); }
  }

  /** The total of pbuf i counts the bytes from there on. */
  lemma {:induction false} TotalIsRest(mem: Memory, ps: seq<Ptr>, i: nat)
    requires TotalsOk(mem, ps) && i < |ps|
    ensures ps[i] in mem && mem[ps[i]].tot_len == |Content(mem, ps)| - Before(mem, ps, i)
  {
    var rest := ps[i..];
    forall k | 0 <= k < |rest| ensures TotalAt(mem, rest, k) { assert TotalAt(mem, ps, i + k); }
    TotalIsContent(mem, rest);
    assert ps == ps[..i] + rest;
    ContentJoin(mem, ps[..i], rest);
  }

  ghost predicate NotIn(ps: seq<Ptr>, p: Ptr) {
    p !in ps
  }

  /** The chains fs and ts have no pbuf in common. */
  ghost predicate Apart(fs: seq<Ptr>, ts: seq<Ptr>) {
    forall i {:trigger NotIn(ts, fs[i])} :: 0 <= i < |fs| ==> NotIn(ts, fs[i])
  }

  /** Where pbuf_copy stands: n bytes of the chain fs are written over the start of the chain ts. */
  ghost predicate Copying(mem0: Memory, mem: Memory, fs: seq<Ptr>, ts: seq<Ptr>, from: Ptr, i: nat, offFrom: nat,
                          to: Ptr, j: nat, offTo: nat, n: nat) {
    && Pos(mem0, fs, from, i, offFrom, n) && Pos(mem0, ts, to, j, offTo, n)
    && Filled(mem0, mem, ts, Content(mem0, fs), n)
  }

  lemma CopyCursor(mem0: Memory, mem: Memory, fs: seq<Ptr>, ts: seq<Ptr>, from: Ptr, i: nat, offFrom: nat, to: Ptr,
                   j: nat, offTo: nat, n: nat)
    requires Copying(mem0, mem, fs, ts, from, i, offFrom, to, j, offTo, n) && Apart(fs, ts)
    ensures i < |fs| ==> from in mem && mem[from] == mem0[from] && offFrom <= |mem[from].data|
    ensures j < |ts| ==> to in mem && SameButBytes(mem0, mem, to) && offTo <= |mem[to].data|
  {
    if i < |fs| { assert NotIn(ts, fs[i]) && Untouched(mem0, mem, from); }
    if j < |ts| { assert SameButBytes(mem0, mem, to); }
  }

  /** One MEMCPY of pbuf_copy. */
  lemma CopyPart(mem0: Memory, mem: Memory, f0: Ptr, fs: seq<Ptr>, t0: Ptr, ts: seq<Ptr>,
                 from: Ptr, i: nat, offFrom: nat, to: Ptr, j: nat, offTo: nat, n: nat, k: nat)
    requires IsChain(mem0, f0, fs) && IsChain(mem0, t0, ts) && Apart(fs, ts)
    requires Copying(mem0, mem, fs, ts, from, i, offFrom, to, j, offTo, n) && i < |fs| && j < |ts|
    requires offFrom + k <= |mem0[from].data| && offTo + k <= |mem0[to].data|
    ensures from in mem && to in mem && offFrom + k <= |mem[from].data| && offTo + k <= |mem[to].data|
    ensures
      var mem' := Store(mem, to, offTo, mem[from].data[offFrom..offFrom + k]);
      Copying(mem0, mem', fs, ts, from, i, offFrom + k, to, j, offTo + k, n + k)
  {
    CopyCursor(mem0, mem, fs, ts, from, i, offFrom, to, j, offTo, n);
    PosBytes(mem0, fs, from, i, offFrom, n, k);
    FillStep(mem0, mem, t0, ts, Content(mem0, fs), to, j, offTo, n, k);
  }

  lemma CopyDone(mem0: Memory, mem: Memory, fs: seq<Ptr>, ts: seq<Ptr>, from: Ptr, i: nat, offFrom: nat, to: Ptr,
                 j: nat, offTo: nat, n: nat)
    requires Copying(mem0, mem, fs, ts, from, i, offFrom, to, j, offTo, n) && i == |fs|
    ensures Filled(mem0, mem, ts, Content(mem0, fs), |Content(mem0, fs)|)
  {
    BeforeAll(mem0, fs);
  }

  /** The two chains of pbuf_copy: packets without a pbuf in common. */
  ghost predicate TwoPackets(mem: Memory, to: Ptr, ts: seq<Ptr>, from: Ptr, fs: seq<Ptr>) {
    IsPacket(mem, to, ts) && IsPacket(mem, from, fs) && Apart(fs, ts)
  }

  /** The loop of pbuf_copy may go on at p: it is not the end of the first of several packets. */
  predicate QueueOk(mem: Memory, p: Ptr)
    requires p != NULL ==> p in mem
  {
    p != NULL && |mem[p].data| == mem[p].tot_len ==> mem[p].next == NULL
  }

  lemma QueueExact(mem0: Memory, mem: Memory, start: Ptr, ps: seq<Ptr>, p: Ptr, i: nat, off: nat, n: nat)
    requires IsPacket(mem0, start, ps) && Pos(mem0, ps, p, i, off, n)
    requires i < |ps| ==> SameButBytes(mem0, mem, p)
    requires p != NULL ==> p in mem
    ensures QueueOk(mem, p) <==> !Stuck(BoundsOf(mem0, ps), i)
  {
    if i < |ps| {
      ChainAt(mem0, start, ps, i);
      if i + 1 < |ps| { ChainAt(mem0, start, ps, i + 1); }
      TotalIsRest(mem0, ps, i);
      BeforeStep(mem0, ps, i);
    }
  }

  /** The MEMCPY of pbuf_copy: as many bytes as are left in the one pbuf and fit into the other. */
  method CopyBytes(h: Heap, to: Ptr, from: Ptr, ghost ts: seq<Ptr>, ghost fs: seq<Ptr>, ghost mem0: Memory,
                   pf: Ptr, offFrom: nat, pt: Ptr, offTo: nat, ghost i: nat, ghost j: nat, ghost n: nat)
    returns (len: nat)
    requires TwoPackets(mem0, to, ts, from, fs) && i < |fs| && j < |ts|
    requires Copying(mem0, h.mem, fs, ts, pf, i, offFrom, pt, j, offTo, n)
    modifies h`mem
    ensures Copying(mem0, h.mem, fs, ts, pf, i, offFrom + len, pt, j, offTo + len, n + len)
    ensures len == Min(|mem0[pf].data| - offFrom, |mem0[pt].data| - offTo)
    ensures SameButBytes(mem0, h.mem, pf) && SameButBytes(mem0, h.mem, pt)
  {
    CopyCursor(mem0, h.mem, fs, ts, pf, i, offFrom, pt, j, offTo, n);
    var f, t := h.mem[pf], h.mem[pt];
    len := Min(|f.data| - offFrom, |t.data| - offTo);
    CopyPart(mem0, h.mem, from, fs, to, ts, pf, i, offFrom, pt, j, offTo, n, len);
    h.mem := Store(h.mem, pt, offTo, f.data[offFrom..offFrom + len]);
    assert SameButBytes(mem0, h.mem, pf) && SameButBytes(mem0, h.mem, pt);
  }

  /** On to the next pbuf when this one is used up. */
  method Advance(mem: Memory, p: Ptr, off: nat, ghost mem0: Memory, ghost start: Ptr, ghost ps: seq<Ptr>,
                 ghost i: nat, ghost n: nat)
    returns (p': Ptr, off': nat, ghost i': nat)
    requires IsChain(mem0, start, ps) && i < |ps| && Pos(mem0, ps, p, i, off, n) && SameButBytes(mem0, mem, p)
    ensures Pos(mem0, ps, p', i', off', n)
    ensures if off == |mem0[p].data| then i' == i + 1 && off' == 0 else i' == i && p' == p && off' == off
  {
    if off >= |mem[p].data| {
      PosNext(mem0, start, ps, p, i, off, n);
      p', off', i' := mem[p].next, 0, i + 1;
    } else {
      p', off', i' := p, off, i;
    }
  }

  /** Both steps to the next pbufs. */
  method AdvanceBoth(mem: Memory, ghost to: Ptr, ghost from: Ptr, ghost ts: seq<Ptr>, ghost fs: seq<Ptr>,
                     ghost mem0: Memory,
                     pf: Ptr, offFrom: nat, pt: Ptr, offTo: nat, ghost i: nat, ghost j: nat, ghost n: nat)
    returns (pf': Ptr, offFrom': nat, pt': Ptr, offTo': nat, ghost i': nat, ghost j': nat)
    requires IsChain(mem0, to, ts) && IsChain(mem0, from, fs) && i < |fs| && j < |ts|
    requires Pos(mem0, fs, pf, i, offFrom, n) && Pos(mem0, ts, pt, j, offTo, n)
    requires SameButBytes(mem0, mem, pf) && SameButBytes(mem0, mem, pt)
    ensures Pos(mem0, fs, pf', i', offFrom', n) && Pos(mem0, ts, pt', j', offTo', n)
    ensures i' == if offFrom == |mem0[pf].data| then i + 1 else i
    ensures j' == if offTo == |mem0[pt].data| then j + 1 else j
  {
    pf', offFrom', i' := Advance(mem, pf, offFrom, mem0, from, fs, i, n);
    pt', offTo', j' := Advance(mem, pt, offTo, mem0, to, ts, j, n);
  }

  /** One round of the loop of pbuf_copy, without its checks. */
  method CopyRound(h: Heap, to: Ptr, from: Ptr, ghost ts: seq<Ptr>, ghost fs: seq<Ptr>, ghost mem0: Memory,
                   pf: Ptr, offFrom: nat, pt: Ptr, offTo: nat, ghost i: nat, ghost j: nat, ghost n: nat)
    returns (pf': Ptr, offFrom': nat, pt': Ptr, offTo': nat, ghost i': nat, ghost j': nat, ghost n': nat)
    requires TwoPackets(mem0, to, ts, from, fs) && i < |fs| && j < |ts|
    requires Copying(mem0, h.mem, fs, ts, pf, i, offFrom, pt, j, offTo, n)
    modifies h`mem
    ensures Copying(mem0, h.mem, fs, ts, pf', i', offFrom', pt', j', offTo', n')
    ensures Round(BoundsOf(mem0, fs), BoundsOf(mem0, ts), i, j, i', j', n')
  {
    var len := CopyBytes(h, to, from, ts, fs, mem0, pf, offFrom, pt, offTo, i, j, n);
    n' := n + len;
    pf', offFrom', pt', offTo', i', j' :=
      AdvanceBoth(h.mem, to, from, ts, fs, mem0, pf, offFrom + len, pt, offTo + len, i, j, n');
    NearestBoundary(mem0, fs, ts, pf, i, offFrom, pt, j, offTo, n, len);
  }

  /** The bytes of one round reach to the nearest boundary. */
  lemma NearestBoundary(mem: Memory, fs: seq<Ptr>, ts: seq<Ptr>, pf: Ptr, i: nat, offFrom: nat, pt: Ptr, j: nat,
                        offTo: nat, n: nat, len: nat)
    requires Pos(mem, fs, pf, i, offFrom, n) && Pos(mem, ts, pt, j, offTo, n) && i < |fs| && j < |ts|
    requires len == Min(|mem[pf].data| - offFrom, |mem[pt].data| - offTo)
    ensures
      Round(BoundsOf(mem, fs), BoundsOf(mem, ts), i, j,
            if offFrom + len == |mem[pf].data| then i + 1 else i,
            if offTo + len == |mem[pt].data| then j + 1 else j, n + len)
  {
    BeforeStep(mem, fs, i);
    BeforeStep(mem, ts, j);
  }

  predicate ChecksPass(mem: Memory, pf: Ptr, pt: Ptr)
    requires (pf != NULL ==> pf in mem) && (pt != NULL ==> pt in mem)
  {
    (pf != NULL ==> pt != NULL) && QueueOk(mem, pf) && QueueOk(mem, pt)
  }

  /** The checks of the loop are about the boundaries. */
  lemma ChecksExact(mem0: Memory, mem: Memory, to: Ptr, ts: seq<Ptr>, from: Ptr, fs: seq<Ptr>,
                    pf: Ptr, i: nat, offFrom: nat, pt: Ptr, j: nat, offTo: nat, n: nat)
    requires TwoPackets(mem0, to, ts, from, fs)
    requires Copying(mem0, mem, fs, ts, pf, i, offFrom, pt, j, offTo, n)
    ensures (pf != NULL ==> pf in mem) && (pt != NULL ==> pt in mem)
    ensures Passes(BoundsOf(mem0, fs), BoundsOf(mem0, ts), i, j) <==> ChecksPass(mem, pf, pt)
  {
    CopyCursor(mem0, mem, fs, ts, pf, i, offFrom, pt, j, offTo, n);
    QueueExact(mem0, mem, from, fs, pf, i, offFrom, n);
    QueueExact(mem0, mem, to, ts, pt, j, offTo, n);
  }

  /** A round that passes the checks goes on; one that does not shows that the copy fails. */
  lemma RoundResult(f: seq<nat>, t: seq<nat>, i: nat, j: nat, n: nat, i': nat, j': nat, n': nat)
    requires Bounds(f) && Bounds(t) && Tracks(f, t, i, j, n) && Round(f, t, i, j, i', j', n')
    ensures i' + j' > i + j
    ensures if Passes(f, t, i', j') then Tracks(f, t, i', j', n') else !Succeeds(f, t)
  {
    if Passes(f, t, i', j') {
      RoundTracks(f, t, i, j, n, i', j', n');
    } else if Succeeds(f, t) {
      RoundPasses(f, t, i, j, n, i', j', n');
    }
  }

  /** Copying, along boundaries that have passed the checks so far. */
  ghost predicate OnTrack(mem0: Memory, mem: Memory, fs: seq<Ptr>, ts: seq<Ptr>, from: Ptr, i: nat, offFrom: nat,
                          to: Ptr, j: nat, offTo: nat, n: nat) {
    && Copying(mem0, mem, fs, ts, from, i, offFrom, to, j, offTo, n)
    && Tracks(BoundsOf(mem0, fs), BoundsOf(mem0, ts), i, j, n) && (i < |fs| ==> j < |ts|)
  }

  /** One round of the loop of pbuf_copy, and its checks. */
  method CheckedRound(h: Heap, to: Ptr, from: Ptr, ghost ts: seq<Ptr>, ghost fs: seq<Ptr>, ghost mem0: Memory,
                      pf: Ptr, offFrom: nat, pt: Ptr, offTo: nat, ghost i: nat, ghost j: nat, ghost n: nat)
    returns (r: Err, pf': Ptr, offFrom': nat, pt': Ptr, offTo': nat, ghost i': nat, ghost j': nat, ghost n': nat)
    requires TwoPackets(mem0, to, ts, from, fs) && i < |fs|
    requires Bounds(BoundsOf(mem0, fs)) && Bounds(BoundsOf(mem0, ts))
    requires OnTrack(mem0, h.mem, fs, ts, pf, i, offFrom, pt, j, offTo, n)
    modifies h`mem
    ensures SameShape(mem0, h.mem)
    ensures r == Ok ==> OnTrack(mem0, h.mem, fs, ts, pf', i', offFrom', pt', j', offTo', n') && i' + j' > i + j
    ensures r != Ok ==> !Succeeds(BoundsOf(mem0, fs), BoundsOf(mem0, ts))
  {
    pf', offFrom', pt', offTo', i', j', n' :=
      CopyRound(h, to, from, ts, fs, mem0, pf, offFrom, pt, offTo, i, j, n);
    ChecksExact(mem0, h.mem, to, ts, from, fs, pf', i', offFrom', pt', j', offTo', n');
    RoundResult(BoundsOf(mem0, fs), BoundsOf(mem0, ts), i, j, n, i', j', n');
    r := Ok;
    if pt' == NULL && pf' != NULL {
      r := ErrArg;
    } else if !QueueOk(h.mem, pf') || !QueueOk(h.mem, pt') {
      r := ErrVal;
    }
  }

  /** The loop of pbuf_copy. */
  method CopyLoop(h: Heap, to: Ptr, from: Ptr, ghost ts: seq<Ptr>, ghost fs: seq<Ptr>) returns (r: Err)
    requires TwoPackets(h.mem, to, ts, from, fs) && |Content(h.mem, ts)| >= |Content(h.mem, fs)|
    modifies h`mem
    ensures SameShape(old(h.mem), h.mem)
    ensures r == Ok ==> Filled(old(h.mem), h.mem, ts, Content(old(h.mem), fs), |Content(old(h.mem), fs)|)
    ensures r == Ok <==> Succeeds(BoundsOf(old(h.mem), fs), BoundsOf(old(h.mem), ts))
  {
    ghost var mem0 := h.mem;
    ghost var i: nat, j: nat, n: nat := 0, 0, 0;
    var pf: Ptr, pt: Ptr, offFrom: nat, offTo: nat := from, to, 0, 0;
    CopyStart(mem0, to, ts, from, fs);
    while pf != NULL
      invariant OnTrack(mem0, h.mem, fs, ts, pf, i, offFrom, pt, j, offTo, n)
      decreases |fs| - i + |ts| - j
    {
      r, pf, offFrom, pt, offTo, i, j, n :=
        CheckedRound(h, to, from, ts, fs, mem0, pf, offFrom, pt, offTo, i, j, n);
      if r != Ok {
        return;
      }
    }
    CopyDone(mem0, h.mem, fs, ts, pf, i, offFrom, pt, j, offTo, n);
    EndSucceeds(BoundsOf(mem0, fs), BoundsOf(mem0, ts), j);
    return Ok;
  }

  lemma CopyStart(mem: Memory, to: Ptr, ts: seq<Ptr>, from: Ptr, fs: seq<Ptr>)
    requires TwoPackets(mem, to, ts, from, fs)
    ensures Bounds(BoundsOf(mem, fs)) && Bounds(BoundsOf(mem, ts))
    ensures OnTrack(mem, mem, fs, ts, from, 0, 0, to, 0, 0, 0)
  {
    PacketStart(mem, to, ts);
    PacketStart(mem, from, fs);
    PacketBounds(mem, to, ts);
    PacketBounds(mem, from, fs);
    FilledNone(mem, ts, Content(mem, fs));
  }

  /** pbuf_copy: overwrites the start of the chain ts with the bytes of the chain fs. */
  method Copy(h: Heap, to: Ptr, from: Ptr, ghost ts: seq<Ptr>, ghost fs: seq<Ptr>) returns (r: Err)
    requires h.Valid() && (to != NULL && from != NULL ==> TwoPackets(h.mem, to, ts, from, fs))
    modifies h`mem
    ensures h.Valid() && SameShape(old(h.mem), h.mem)
    ensures to == NULL || from == NULL ==> r == ErrArg && h.mem == old(h.mem)
    ensures to != NULL && from != NULL && |Content(old(h.mem), ts)| < |Content(old(h.mem), fs)| ==>
      r == ErrArg && h.mem == old(h.mem)
    ensures to != NULL && from != NULL && r == Ok ==>
      Filled(old(h.mem), h.mem, ts, Content(old(h.mem), fs), |Content(old(h.mem), fs)|)
    ensures to != NULL && from != NULL ==>
      (r == Ok <==> Succeeds(BoundsOf(old(h.mem), fs), BoundsOf(old(h.mem), ts)))
  {
    SameShapeRefl(h.mem);
    if to == NULL || from == NULL {
      return ErrArg;
    }
    PacketStart(h.mem, to, ts);
    PacketStart(h.mem, from, fs);
    if h.mem[to].tot_len < h.mem[from].tot_len {
      return ErrArg;
    }
    ghost var mem0 := h.mem;
    r := CopyLoop(h, to, from, ts, fs);
    ShapeKeeps(mem0, h.mem, h.handles, h.free, h.total);
  }
}
