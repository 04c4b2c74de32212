/** The search of tcp_new_port for a free local port. */
module TcpPort {

  const START: nat := 0xc000
  const END: nat := 0xffff
  const SIZE: nat := 16384

  predicate InRange(port: nat) {
    START <= port <= END
  }

  /** The local ports of the PCBs, list by list. */
  type Lists = seq<seq<nat>>

  predicate InUse(lists: Lists, port: nat) {
    exists i :: 0 <= i < |lists| && port in lists[i]
  }

  /** The port k places behind port, cyclically. */
  function After(port: nat, k: nat): (r: nat)
    requires InRange(port)
    ensures InRange(r)
  {
    START + (port - START + k) % SIZE
  }

  lemma AfterNext(port: nat, k: nat)
    requires InRange(port)
    ensures After(port, k + 1) == if After(port, k) == END then START else After(port, k) + 1
  {
    var x := port - START + k;
    assert (x + 1) % SIZE == if x % SIZE == SIZE - 1 then 0 else x % SIZE + 1;
  }

  /** Going round once meets every port of the range. */
  lemma AfterCovers(port: nat, p: nat) returns (k: nat)
    requires InRange(port) && InRange(p)
    ensures 1 <= k <= SIZE && After(port, k) == p
  {
    k := if p > port then p - port else p + SIZE - port;
    if p <= port {
      assert port - START + k == (p - START) + SIZE;
    }
  }

  /** k is the first place behind port that is free. */
  ghost predicate FirstFree(lists: Lists, port: nat, k: nat)
    requires InRange(port)
  {
    && 1 <= k <= SIZE && !InUse(lists, After(port, k))
    && forall j :: 1 <= j < k ==> InUse(lists, After(port, j))
  }

  class Ports {
    /** tcp_port: the last port tried. */
    var port: nat

    ghost predicate Valid()
      reads this
    {
      InRange(port)
    }

    constructor (initial: nat)
      requires InRange(initial)
      ensures Valid() && port == initial
    {
      port := initial;
    }

    /** The two loops over the PCB lists. */
    method Taken(lists: Lists) returns (taken: bool)
      ensures taken <==> InUse(lists, port)
    {
      var i := 0;
      while i < |lists|
        invariant 0 <= i <= |lists| && forall j :: 0 <= j < i ==> port !in lists[j]
      {
        var k := 0;
        while k < |lists[i]|
          invariant 0 <= k <= |lists[i]| && forall j :: 0 <= j < k ==> lists[i][j] != port
        {
          if lists[i][k] == port {
            return true;
          }
          k := k + 1;
        }
        i := i + 1;
      }
      return false;
    }

    /** tcp_new_port: the first free port cyclically behind the last one, or 0 when all ports of
        the range are in use. */
    method NewPort(lists: Lists) returns (r: nat)
      requires Valid()
      modifies this
      ensures Valid()
      ensures r == 0 <==> forall p :: InRange(p) ==> InUse(lists, p)
      ensures r == 0 ==> port == old(port)
      ensures r != 0 ==> r == port && exists k :: FirstFree(lists, old(port), k) && r == After(old(port), k)
    {
      var n := 0;
      ghost var first := port;
      assert After(first, 0) == first;
      while true
        invariant 0 <= n < SIZE && port == After(first, n)
        invariant forall j :: 1 <= j <= n ==> InUse(lists, After(first, j))
        decreases SIZE - n
      {
        AfterNext(first, n);
        port := if port == END then START else port + 1;
        var taken := Taken(lists);
        if !taken {
          assert FirstFree(lists, first, n + 1);
          assert InRange(port) && !InUse(lists, port);
          return port;
        }
        n := n + 1;
        if n > END - START {
          forall p | InRange(p) ensures InUse(lists, p) {
            var k := AfterCovers(first, p);
          }
          assert After(first, SIZE) == first;
          return 0;
        }
      }
    }
  }
}
