/** The memory pools of memp.c: per pool a free list of elements of one size. */
module Memp {
  import opened Basics
  import opened Floyd

  /** fs are the elements of the list that starts at p. */
  ghost predicate IsList(next: Links, p: Ptr, fs: seq<Ptr>)
    decreases |fs|
  {
    if fs == [] then p == NULL
    else p != NULL && p == fs[0] && p in next && IsList(next, next[p], fs[1..])
  }

  lemma {:induction false} ListFrame(next: Links, next': Links, p: Ptr, fs: seq<Ptr>)
    requires IsList(next, p, fs) && forall q :: q in fs && q in next ==> q in next' && next'[q] == next[q]
    ensures IsList(next', p, fs)
    decreases |fs|
  {
    if fs != [] {
      assert fs[0] in fs;
      assert forall q :: q in fs[1..] ==> q in fs;
      ListFrame(next, next', next[p], fs[1..]);
    }
  }

  lemma {:induction false} WalkShift(next: Links, p: Ptr, k: nat)
    requires p in next
    ensures Walk(next, p, k + 1) == Walk(next, next[p], k)
    decreases k
  {
    if k > 0 { WalkShift(next, p, k - 1); }
  }

  lemma {:induction false} WalkFromNull(next: Links, k: nat)
    requires NULL !in next
    ensures Walk(next, NULL, k) == NULL
  {
    if k > 0 { WalkFromNull(next, k - 1); }
  }

  /** A list ends after its elements, and stays within memory. */
  lemma {:induction false} ListWalk(next: Links, p: Ptr, fs: seq<Ptr>, k: nat)
    requires NULL !in next && IsList(next, p, fs)
    ensures SafeAt(next, p, k) && Ends(next, p, |fs|)
    decreases |fs|
  {
    if fs == [] {
      WalkFromNull(next, k);
    } else {
      if k > 0 { WalkShift(next, p, k - 1); }
      WalkShift(next, p, |fs| - 1);
      ListWalk(next, next[p], fs[1..], if k > 0 then k - 1 else 0);
    }
  }

  lemma ListIsSane(next: Links, p: Ptr, fs: seq<Ptr>)
    requires NULL !in next && IsList(next, p, fs)
    ensures Safe(next, p) && !Cyclic(next, p)
  {
    forall k ensures SafeAt(next, p, k) { ListWalk(next, p, fs, k); }
    ListWalk(next, p, fs, 0);
    CyclicIffEndless(next, p);
  }

  lemma {:induction false} ListDistinct(next: Links, p: Ptr, fs: seq<Ptr>, i: nat, j: nat)
    requires NULL !in next && IsList(next, p, fs) && i < j < |fs|
    ensures fs[i] != fs[j]
    decreases |fs|
  {
    if i > 0 {
      ListDistinct(next, next[p], fs[1..], i - 1, j - 1);
    } else if fs[j] == p {
      ListAt(next, p, fs, j);
      ListUnique(next, p, fs, fs[j..]);
      assert false;
    }
  }

  lemma {:induction false} ListAt(next: Links, p: Ptr, fs: seq<Ptr>, j: nat)
    requires IsList(next, p, fs) && j < |fs|
    ensures IsList(next, fs[j], fs[j..])
    decreases j
  {
    if j > 0 {
      ListAt(next, next[p], fs[1..], j - 1);
      assert fs[1..][j - 1..] == fs[j..];
    } else {
      assert fs[0..] == fs;
    }
  }

  lemma {:induction false} ListUnique(next: Links, p: Ptr, fs: seq<Ptr>, gs: seq<Ptr>)
    requires IsList(next, p, fs) && IsList(next, p, gs)
    ensures |fs| == |gs|
    decreases |fs|
  {
    if fs != [] { ListUnique(next, next[p], fs[1..], gs[1..]); }
  }

  // ----- pools

  /** Pool i: its free list holds exactly the elements that are not handed out. */
  ghost predicate PoolOk(next: Links, tab: seq<Ptr>, lists: seq<seq<Ptr>>, out: seq<set<Ptr>>, all: seq<set<Ptr>>,
                         i: nat) {
    && i < |tab| && i < |lists| && i < |out| && i < |all|
    && IsList(next, tab[i], lists[i])
    && Elements(lists[i]) !! out[i] && Elements(lists[i]) + out[i] == all[i] && all[i] <= next.Keys
  }

  ghost predicate Apart(all: seq<set<Ptr>>, i: nat, j: nat) {
    i < |all| && j < |all| && (i != j ==> all[i] !! all[j])
  }

  /** Handing out the first free element of pool i. */
  lemma TakeKeeps(next: Links, tab: seq<Ptr>, lists: seq<seq<Ptr>>, out: seq<set<Ptr>>, all: seq<set<Ptr>>, i: nat)
    requires NULL !in next && PoolOk(next, tab, lists, out, all, i) && tab[i] != NULL
    ensures tab[i] in next && lists[i] != []
    ensures PoolOk(next, tab[i := next[tab[i]]], lists[i := lists[i][1..]], out[i := out[i] + {tab[i]}], all, i)
  {
    var fs := lists[i];
    forall q | q in fs[1..] ensures q != fs[0] {
      var j :| 0 <= j < |fs| - 1 && fs[1..][j] == q;
      ListDistinct(next, tab[i], fs, 0, j + 1);
    }
    assert Elements(fs) == Elements(fs[1..]) + {fs[0]} by { assert fs == [fs[0]] + fs[1..]; }
  }

  /** Putting a handed-out element back at the front of its list. */
  lemma PutKeeps(next: Links, tab: seq<Ptr>, lists: seq<seq<Ptr>>, out: seq<set<Ptr>>, all: seq<set<Ptr>>, i: nat,
                 p: Ptr)
    requires NULL !in next && PoolOk(next, tab, lists, out, all, i) && p in out[i]
    ensures p in next
    ensures PoolOk(next[p := tab[i]], tab[i := p], lists[i := [p] + lists[i]], out[i := out[i] - {p}], all, i)
  {
    var fs, next' := lists[i], next[p := tab[i]];
    assert p in all[i];
    assert p !in Elements(fs);
    ListFrame(next, next', tab[i], fs);
    assert ([p] + fs)[1..] == fs;
    assert Elements([p] + fs) == {p} + Elements(fs);
  }

  /** What is written into elements of other pools, or into handed-out ones, does not matter. */
  lemma OtherPoolKeeps(next: Links, next': Links, tab: seq<Ptr>, lists: seq<seq<Ptr>>, out: seq<set<Ptr>>,
                       all: seq<set<Ptr>>, i: nat)
    requires PoolOk(next, tab, lists, out, all, i) && next'.Keys == next.Keys
    requires forall q :: q in lists[i] && q in next ==> next'[q] == next[q]
    ensures PoolOk(next', tab, lists, out, all, i)
  {
    ListFrame(next, next', tab[i], lists[i]);
  }

  ghost predicate PoolsOk(next: Links, tab: seq<Ptr>, lists: seq<seq<Ptr>>, out: seq<set<Ptr>>, all: seq<set<Ptr>>) {
    && NULL !in next && |lists| == |out| == |all| == |tab|
    && (forall i {:trigger PoolOk(next, tab, lists, out, all, i)} ::
          0 <= i < |tab| ==> PoolOk(next, tab, lists, out, all, i))
    && (forall i, j {:trigger Apart(all, i, j)} :: 0 <= i < |tab| && 0 <= j < |tab| ==> Apart(all, i, j))
  }

  /** A new pool in memory of its own. */
  lemma AddKeeps(next: Links, tab: seq<Ptr>, lists: seq<seq<Ptr>>, out: seq<set<Ptr>>, all: seq<set<Ptr>>,
                 links: Links, head: Ptr, fs: seq<Ptr>)
    requires PoolsOk(next, tab, lists, out, all) && IsList(links, head, fs) && NULL !in links
    requires links.Keys == next.Keys + Elements(fs) && next.Keys !! Elements(fs)
    requires forall q :: q in next ==> links[q] == next[q]
    ensures PoolsOk(links, tab + [head], lists + [fs], out + [{}], all + [Elements(fs)])
  {
    var n, tab', lists', out', all' := |tab|, tab + [head], lists + [fs], out + [{}], all + [Elements(fs)];
    forall i | 0 <= i <= n ensures PoolOk(links, tab', lists', out', all', i) {
      if i < n {
        assert PoolOk(next, tab, lists, out, all, i);
        ListFrame(next, links, tab[i], lists[i]);
      }
    }
    forall i, j | 0 <= i <= n && 0 <= j <= n ensures Apart(all', i, j) {
      if i < n { assert PoolOk(next, tab, lists, out, all, i); }
      if j < n { assert PoolOk(next, tab, lists, out, all, j); }
      if i < n && j < n { assert Apart(all, i, j); }
    }
  }

  /** A new list of j elements between start and memp, behind the memory of next. */
  ghost predicate Building(next: Links, links: Links, head: Ptr, fs: seq<Ptr>, j: nat, stride: nat, start: nat,
                           memp: nat) {
    && IsList(links, head, fs) && NULL !in links && InitialList(fs, j, stride) && start <= memp
    && (fs != [] ==> fs[0] + stride == memp) && StartsAt(fs, start) && memp == start + Extent(j, stride)
    && links.Keys == next.Keys + Elements(fs) && next.Keys !! Elements(fs)
    && (forall q :: q in next ==> q < start && links[q] == next[q])
    && (forall q :: q in fs ==> start <= q < memp)
  }

  lemma MoreExtent(num: nat, stride: nat)
    ensures Extent(num + 1, stride) == Extent(num, stride) + stride
  {
  }

  lemma BuildStep(next: Links, links: Links, head: Ptr, fs: seq<Ptr>, j: nat, stride: nat, start: nat, memp: nat)
    requires Building(next, links, head, fs, j, stride, start, memp) && 0 < start && 0 < stride
    ensures Building(next, links[memp := head], memp, [memp] + fs, j + 1, stride, start, memp + stride)
  {
    var links', fs' := links[memp := head], [memp] + fs;
    MoreExtent(j, stride);
    assert memp !in fs && memp !in next;
    ListFrame(links, links', head, fs);
    assert fs'[1..] == fs;
    forall k | 0 <= k < j ensures SpacedAt(fs', stride, k) {
      if k > 0 { assert SpacedAt(fs, stride, k - 1); }
    }
    assert Elements(fs') == {memp} + Elements(fs);
  }

  /** The inner loop of memp_init: links num elements from start on into a list. */
  method BuildList(next: Links, num: nat, stride: nat, start: nat)
    returns (head: Ptr, links: Links, memp: nat, ghost fs: seq<Ptr>)
    requires NULL !in next && 0 < stride && 0 < start && forall q :: q in next ==> q < start
    ensures Building(next, links, head, fs, num, stride, start, memp)
  {
    head, links, memp, fs := NULL, next, start, [];
    var j := 0;
    while j < num
      invariant 0 <= j <= num && Building(next, links, head, fs, j, stride, start, memp)
    {
      BuildStep(next, links, head, fs, j, stride, start, memp);
      links := links[memp := head];
      fs := [memp] + fs;
      head := memp;
      memp := memp + stride;
      j := j + 1;
    }
  }

  /** A fresh free list: num elements, each stride bytes behind the next one. */
  ghost predicate InitialList(fs: seq<Ptr>, num: nat, stride: nat) {
    |fs| == num && forall j :: 0 <= j < num - 1 ==> SpacedAt(fs, stride, j)
  }

  ghost predicate SpacedAt(fs: seq<Ptr>, stride: nat, j: nat) {
    j + 1 < |fs| && fs[j] == fs[j + 1] + stride
  }

  /** Where pool i begins: behind the elements of the pools before it. */
  function PoolStart(base: nat, nums: seq<nat>, strides: seq<nat>, i: nat): nat
    requires i <= |nums| == |strides|
  {
    if i == 0 then base else PoolStart(base, nums, strides, i - 1) + Extent(nums[i - 1], strides[i - 1])
  }

  function Extent(num: nat, stride: nat): nat {
    num * stride
  }

  /** A fresh list starts at its place. */
  ghost predicate StartsAt(fs: seq<Ptr>, start: nat) {
    fs != [] ==> fs[|fs| - 1] == start
  }

  /** Pool i as memp_init leaves it. */
  ghost predicate FreshPool(lists: seq<seq<Ptr>>, out: seq<set<Ptr>>, base: nat, nums: seq<nat>, strides: seq<nat>,
                            i: nat) {
    && i < |nums| == |strides| && i < |lists| && i < |out| && out[i] == {}
    && InitialList(lists[i], nums[i], strides[i]) && StartsAt(lists[i], PoolStart(base, nums, strides, i))
  }

  class Pools {
    /** Offset of the memory handed out behind the header of an element. */
    const headerSize: nat
    var next: Links
    var tab: seq<Ptr>
    ghost var lists: seq<seq<Ptr>>
    ghost var out: seq<set<Ptr>>
    ghost var all: seq<set<Ptr>>

    ghost predicate Valid()
      reads this
    {
      PoolsOk(next, tab, lists, out, all)
    }

    /** memp_init: the pools lie one behind the other from base on; strides are the sizes of their
        elements together with the header. */
    constructor (headerSize: nat, base: nat, nums: seq<nat>, strides: seq<nat>)
      requires 0 < base && |nums| == |strides|
      requires forall i :: 0 <= i < |strides| ==> headerSize <= strides[i] && 0 < strides[i]
      ensures Valid() && this.headerSize == headerSize && |tab| == |nums|
      ensures forall i {:trigger FreshPool(lists, out, base, nums, strides, i)} ::
        0 <= i < |nums| ==> FreshPool(lists, out, base, nums, strides, i)
    {
      this.headerSize := headerSize;
      next, tab, lists, out, all := map[], [], [], [], [];
      new;
      var i, memp := 0, base;
      while i < |nums|
        invariant Valid() && 0 <= i <= |nums| && |tab| == i && 0 < memp && this.headerSize == headerSize
        invariant forall q :: q in next ==> q < memp
        invariant memp == PoolStart(base, nums, strides, i)
        invariant forall j {:trigger FreshPool(lists, out, base, nums, strides, j)} ::
          0 <= j < i ==> FreshPool(lists, out, base, nums, strides, j)
      {
        ghost var lists0, out0 := lists, out;
        memp := AddPool(nums[i], strides[i], memp);
        forall j | 0 <= j <= i ensures FreshPool(lists, out, base, nums, strides, j) {
          if j < i {
            assert FreshPool(lists0, out0, base, nums, strides, j);
            assert lists[j] == lists[..i][j];
          }
        }
        i := i + 1;
      }
    }

    /** One round of memp_init: a pool of num elements from start on. */
    method AddPool(num: nat, stride: nat, start: nat) returns (memp: nat)
      requires Valid() && 0 < stride && 0 < start && forall q :: q in next ==> q < start
      modifies this
      ensures Valid() && memp >= start && forall q :: q in next ==> q < memp
      ensures |tab| == |old(tab)| + 1 && lists[..|old(tab)|] == old(lists) && out == old(out) + [{}]
      ensures InitialList(lists[|old(tab)|], num, stride) && StartsAt(lists[|old(tab)|], start)
      ensures memp == start + Extent(num, stride)
    {
      var head, links;
      ghost var fs;
      head, links, memp, fs := BuildList(next, num, stride, start);
      AddKeeps(next, tab, lists, out, all, links, head, fs);
      forall q | q in links ensures q < memp { assert q in next || q in fs; }
      next, tab := links, tab + [head];
      lists, out, all := lists + [fs], out + [{}], all + [Elements(fs)];
    }

    /** memp_malloc: an element of the pool, or NULL when it has none left. */
    method Malloc(pool: nat) returns (mem: Ptr, ghost element: Ptr)
      requires Valid()
      modifies this
      ensures Valid() && all == old(all) && |tab| == |old(tab)| && next == old(next)
      ensures pool >= |tab| || old(out[pool]) == old(all[pool]) ==> mem == NULL && out == old(out)
      ensures pool < |tab| && old(out[pool]) != old(all[pool]) ==>
        && mem == element + headerSize && element in all[pool] && element !in old(out[pool])
        && out == old(out)[pool := old(out[pool]) + {element}]
    {
      element := NULL;
      if pool >= |tab| {
        return NULL, NULL;
      }
      assert PoolOk(next, tab, lists, out, all, pool);
      var memp: Ptr := tab[pool];
      if memp == NULL {
        assert lists[pool] == [];
        return NULL, NULL;
      }
      TakeKeeps(next, tab, lists, out, all, pool);
      element := memp;
      assert memp in Elements(lists[pool]);
      tab := tab[pool := next[memp]];
      lists := lists[pool := lists[pool][1..]];
      out := out[pool := out[pool] + {memp}];
      mem := memp + headerSize;
      forall i | 0 <= i < |tab| && i != pool ensures PoolOk(next, tab, lists, out, all, i) {
        assert PoolOk(next, old(tab), old(lists), old(out), all, i);
      }
    }

    /** memp_free of an element that is handed out. The check of the lists succeeds. */
    method Free(pool: nat, mem: Ptr) returns (sane: bool)
      requires Valid() && (mem != NULL ==> pool < |tab| && mem >= headerSize && mem - headerSize in out[pool])
      modifies this
      ensures Valid() && all == old(all) && sane
      ensures mem == NULL ==> out == old(out) && next == old(next)
      ensures mem != NULL ==> out == old(out)[pool := old(out[pool]) - {mem - headerSize}]
    {
      if mem == NULL {
        return true;
      }
      var memp: Ptr := mem - headerSize;
      assert PoolOk(next, tab, lists, out, all, pool);
      PutKeeps(next, tab, lists, out, all, pool, memp);
      next := next[memp := tab[pool]];
      tab := tab[pool := memp];
      lists := lists[pool := [memp] + lists[pool]];
      out := out[pool := out[pool] - {memp}];
      forall i | 0 <= i < |tab| && i != pool ensures PoolOk(next, tab, lists, out, all, i) {
        assert PoolOk(old(next), old(tab), old(lists), old(out), all, i) && Apart(all, i, pool);
        forall q | q in lists[i] ensures q != memp { assert q in Elements(lists[i]); }
        OtherPoolKeeps(old(next), next, old(tab), old(lists), old(out), all, i);
      }
      SaneIfValid();
      sane := Sanity(next, tab);
    }

    /** The owner of a handed-out element writes over its link. */
    method UseElement(pool: nat, element: Ptr, value: Ptr)
      requires Valid() && pool < |tab| && element in out[pool]
      modifies `next
      ensures Valid() && next == old(next)[element := value]
    {
      assert PoolOk(next, tab, lists, out, all, pool) && element in all[pool];
      next := next[element := value];
      forall i | 0 <= i < |tab| ensures PoolOk(next, tab, lists, out, all, i) {
        assert PoolOk(old(next), tab, lists, out, all, i) && Apart(all, i, pool);
        forall q | q in lists[i] ensures q != element { assert q in Elements(lists[i]); }
        OtherPoolKeeps(old(next), next, tab, lists, out, all, i);
      }
    }

    lemma SaneIfValid()
      requires Valid()
      ensures forall i :: 0 <= i < |tab| ==> Safe(next, tab[i]) && !Cyclic(next, tab[i])
    {
      forall i | 0 <= i < |tab| ensures Safe(next, tab[i]) && !Cyclic(next, tab[i]) {
        assert PoolOk(next, tab, lists, out, all, i);
        ListIsSane(next, tab[i], lists[i]);
      }
    }
  }

  /** memp_sanity: true exactly when no free list has a cycle. */
  method Sanity(next: Links, tab: seq<Ptr>) returns (ok: bool)
    requires forall i :: 0 <= i < |tab| ==> Safe(next, tab[i])
    ensures ok <==> forall i :: 0 <= i < |tab| ==> !Cyclic(next, tab[i])
  {
    var i := 0;
    while i < |tab|
      invariant 0 <= i <= |tab| && forall j :: 0 <= j < i ==> !Cyclic(next, tab[j])
    {
      var fine := NoCycle(next, tab[i]);
      if !fine {
        return false;
      }
      i := i + 1;
    }
    return true;
  }
}
