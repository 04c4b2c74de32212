/** The cycle check of memp.c on linked lists in memory. */
module Floyd {
  import opened Basics

  /** The next links of the elements in memory. */
  type Links = map<Ptr, Ptr>

  /** Where k steps from p lead. */
  ghost function Walk(next: Links, p: Ptr, k: nat): Ptr {
    if k == 0 then p else
      var q := Walk(next, p, k - 1);
      if q in next then next[q] else NULL
  }

  /** Every step from p leads to an element or to NULL. */
  ghost predicate Safe(next: Links, p: Ptr) {
    NULL !in next && forall k :: SafeAt(next, p, k)
  }

  ghost predicate SafeAt(next: Links, p: Ptr, k: nat) {
    Walk(next, p, k) == NULL || Walk(next, p, k) in next
  }

  ghost predicate Ends(next: Links, p: Ptr, n: nat) {
    Walk(next, p, n) == NULL
  }

  /** The list has an end. */
  ghost predicate Finite(next: Links, p: Ptr) {
    exists n :: Ends(next, p, n)
  }

  ghost predicate Loops(next: Links, p: Ptr, k: nat, period: nat) {
    0 < period && Walk(next, p, k) != NULL && Walk(next, p, k + period) == Walk(next, p, k)
  }

  /** Some element of the list comes again. */
  ghost predicate Cyclic(next: Links, p: Ptr) {
    exists k, period :: Loops(next, p, k, period)
  }

  // ----- walks

  lemma {:induction false} WalkNull(next: Links, p: Ptr, n: nat, k: nat)
    requires NULL !in next && Ends(next, p, n) && n <= k
    ensures Walk(next, p, k) == NULL
    decreases k
  {
    if n < k { WalkNull(next, p, n, k - 1); }
  }

  /** Equal places stay equal. */
  lemma {:induction false} WalkSame(next: Links, p: Ptr, i: nat, j: nat, d: nat)
    requires Walk(next, p, i) == Walk(next, p, j)
    ensures Walk(next, p, i + d) == Walk(next, p, j + d)
    decreases d
  {
    if d > 0 { WalkSame(next, p, i, j, d - 1); }
  }

  lemma {:induction false} WalkPeriod(next: Links, p: Ptr, i: nat, period: nat, m: nat)
    requires Walk(next, p, i) == Walk(next, p, i + period)
    ensures Walk(next, p, i + m * period) == Walk(next, p, i)
    decreases m
  {
    if m > 0 {
      WalkPeriod(next, p, i, period, m - 1);
      WalkSame(next, p, i, i + period, (m - 1) * period);
      assert i + period + (m - 1) * period == i + m * period;
    }
  }

  /** A list with an end has no cycle. */
  lemma FiniteIsNotCyclic(next: Links, p: Ptr, n: nat, k: nat, period: nat)
    requires NULL !in next && Ends(next, p, n)
    ensures !Loops(next, p, k, period)
  {
    if Loops(next, p, k, period) {
      WalkPeriod(next, p, k, period, n);
      AtLeast(n, period);
      WalkNull(next, p, n, k + n * period);
      assert false;
    }
  }

  // ----- a walk of |next| steps ends or repeats

  ghost function Visited(next: Links, p: Ptr, k: nat): set<Ptr> {
    if k == 0 then {} else Visited(next, p, k - 1) + {Walk(next, p, k - 1)}
  }

  lemma {:induction false} VisitedIs(next: Links, p: Ptr, k: nat, q: Ptr)
    requires q in Visited(next, p, k)
    ensures exists i :: 0 <= i < k && Walk(next, p, i) == q
  {
    if q != Walk(next, p, k - 1) {
      VisitedIs(next, p, k - 1, q);
    }
  }

  /** Either the walk ends within k steps, or it repeats, or it has met k elements. */
  lemma {:induction false} EndsOrRepeats(next: Links, p: Ptr, k: nat)
    requires Safe(next, p)
    ensures
      || (exists n :: Ends(next, p, n))
      || (exists i, j :: Repeats(next, p, i, j))
      || (Visited(next, p, k) <= next.Keys && |Visited(next, p, k)| == k)
  {
    if k > 0 {
      EndsOrRepeats(next, p, k - 1);
      var q := Walk(next, p, k - 1);
      assert SafeAt(next, p, k - 1);
      if q == NULL {
        assert Ends(next, p, k - 1);
      } else if q in Visited(next, p, k - 1) {
        VisitedIs(next, p, k - 1, q);
        var i :| 0 <= i < k - 1 && Walk(next, p, i) == q;
        assert Repeats(next, p, i, k - 1);
      }
    }
  }

  ghost predicate Repeats(next: Links, p: Ptr, i: nat, j: nat) {
    i < j && Walk(next, p, i) == Walk(next, p, j)
  }

  /** The two pointers stand at the same element, or the slow one has reached the end. */
  ghost predicate Meet(next: Links, p: Ptr, k: nat) {
    Walk(next, p, k) == Walk(next, p, 2 * k + 1)
  }

  /** They meet, however the list is linked. */
  lemma MeetingExists(next: Links, p: Ptr) returns (k: nat)
    requires Safe(next, p)
    ensures Meet(next, p, k)
  {
    var n := |next.Keys| + 1;
    EndsOrRepeats(next, p, n);
    if e: nat :| Ends(next, p, e) {
      k := e;
      WalkNull(next, p, e, 2 * e + 1);
    } else if i: nat, j: nat :| Repeats(next, p, i, j) {
      k := RepeatMeets(next, p, i, j);
    } else {
      SubsetSize(Visited(next, p, n), next.Keys);
      assert false;
    }
  }

  lemma RepeatMeets(next: Links, p: Ptr, i: nat, j: nat) returns (k: nat)
    requires Repeats(next, p, i, j)
    ensures Meet(next, p, k)
  {
    var period := j - i;
    AtLeast(i + 1, period);
    k := (i + 1) * period - 1;
    WalkSame(next, p, i, j, k - i);
    WalkPeriod(next, p, k, period, i + 1);
  }

  /** For lists in finite memory: no end is the same as a cycle. */
  lemma CyclicIffEndless(next: Links, p: Ptr)
    requires Safe(next, p)
    ensures Cyclic(next, p) <==> !Finite(next, p)
  {
    if n: nat :| Ends(next, p, n) {
      forall k, period ensures !Loops(next, p, k, period) { FiniteIsNotCyclic(next, p, n, k, period); }
    } else {
      var k := MeetingExists(next, p);
      assert !Ends(next, p, k);
      assert Loops(next, p, k, k + 1) by { assert k + (k + 1) == 2 * k + 1; }
    }
  }

  /** The loop of memp_sanity for one list: two pointers, one twice as fast. */
  method NoCycle(next: Links, p: Ptr) returns (ok: bool)
    requires Safe(next, p)
    ensures ok <==> !Cyclic(next, p)
  {
    if p == NULL {
      assert Ends(next, p, 0);
      CyclicIffEndless(next, p);
      return true;
    }
    ghost var bound := MeetingExists(next, p);
    ghost var k := 0;
    assert SafeAt(next, p, 0);
    assert Walk(next, p, 1) == next[Walk(next, p, 0)];
    var t, h := p, next[p];
    while t != NULL && h != NULL
      invariant k <= bound && t == Walk(next, p, k) && h == Walk(next, p, 2 * k + 1)
      decreases bound - k
    {
      if t == h {
        assert Loops(next, p, k, k + 1) by { assert k + (k + 1) == 2 * k + 1; }
        return false;
      }
      assert SafeAt(next, p, k) && SafeAt(next, p, 2 * k + 1) && SafeAt(next, p, 2 * k + 2);
      TwoSteps(next, p, k);
      t := next[t];
      h := if next[h] != NULL && next[next[h]] != NULL then next[next[h]] else NULL;
      k := k + 1;
    }
    assert Ends(next, p, k) || Ends(next, p, 2 * k + 1);
    CyclicIffEndless(next, p);
    return true;
  }

  lemma TwoSteps(next: Links, p: Ptr, k: nat)
    requires Safe(next, p) && Walk(next, p, k) != NULL && Walk(next, p, 2 * k + 1) != NULL
    ensures Walk(next, p, k) in next && Walk(next, p, k + 1) == next[Walk(next, p, k)]
    ensures
      var h := Walk(next, p, 2 * k + 1);
      && h in next && (next[h] != NULL ==> next[h] in next)
      && Walk(next, p, 2 * (k + 1) + 1) == if next[h] != NULL then next[next[h]] else NULL
  {
    assert SafeAt(next, p, k) && SafeAt(next, p, 2 * k + 1) && SafeAt(next, p, 2 * k + 2);
    assert Walk(next, p, 2 * k + 2) == next[Walk(next, p, 2 * k + 1)];
    assert 2 * (k + 1) + 1 == 2 * k + 3;
    assert Walk(next, p, 2 * k + 3) ==
      if Walk(next, p, 2 * k + 2) in next then next[Walk(next, p, 2 * k + 2)] else NULL;
  }
}
