/** The walk of pbuf_copy along two packets, seen as their boundaries: the positions where the
    pbufs start, and the end. It decides when the copy runs into one of its checks. */
module CopyRounds {
  import opened Basics

  ghost predicate Bounds(f: seq<nat>) {
    |f| >= 2 && f[0] == 0 && forall i, j :: 0 <= i <= j < |f| ==> f[i] <= f[j]
  }

  function Total(f: seq<nat>): nat
    requires f != []
  {
    f[|f| - 1]
  }

  /** Pbuf i has len == tot_len although another one follows: the check against packet queues
      stops here. */
  predicate Stuck(f: seq<nat>, i: nat) {
    i + 2 < |f| && f[i + 1] == Total(f)
  }

  /** The last of several pbufs is empty. */
  predicate EmptyEnd(f: seq<nat>) {
    |f| > 2 && f[|f| - 2] == Total(f)
  }

  /** One round: up to the nearest boundary, and past it. */
  predicate Round(f: seq<nat>, t: seq<nat>, i: nat, j: nat, i': nat, j': nat, n': nat) {
    && i + 1 < |f| && j + 1 < |t| && n' == Min(f[i + 1], t[j + 1])
    && i' == (if n' == f[i + 1] then i + 1 else i) && j' == (if n' == t[j + 1] then j + 1 else j)
  }

  /** The checks at the end of a round: room for what is left, and no queue of packets. */
  predicate Passes(f: seq<nat>, t: seq<nat>, i: nat, j: nat) {
    (i + 1 < |f| ==> j + 1 < |t|) && !Stuck(f, i) && !Stuck(t, j)
  }

  /** Some round ends with the target at pbuf j. */
  predicate Stands(f: seq<nat>, t: seq<nat>, j: nat)
    requires |f| >= 2 && |t| >= 2 && j < |t|
  {
    if j == 0 then f[1] < t[1]
    else t[j] <= Total(f) && (j == 1 || (j == 2 && EmptyEnd(f)) || t[j - 1] < Total(f))
  }

  /** The target is long enough; a source with an empty end has two pbufs, the first of which
      leaves the walk in the target; and the walk does not stand at a pbuf of the target behind
      which all others are empty. */
  predicate Succeeds(f: seq<nat>, t: seq<nat>)
    requires |f| >= 2 && |t| >= 2
  {
    && Total(f) <= Total(t)
    && (EmptyEnd(f) ==> |f| == 3 && f[1] <= t[1] && (f[1] == t[1] ==> |t| > 2))
    && forall j :: 0 <= j < |t| && Stuck(t, j) ==> !Stands(f, t, j)
  }

  /** What holds between rounds, when the checks have passed so far. */
  ghost predicate Tracks(f: seq<nat>, t: seq<nat>, i: nat, j: nat, n: nat) {
    && i < |f| && j < |t| && f[i] <= n && t[j] <= n
    && (i + 1 < |f| ==> n <= f[i + 1] && (n < f[i + 1] || n == f[i]))
    && (j + 1 < |t| ==> n <= t[j + 1] && (n < t[j + 1] || n == t[j]))
    && (i == 0 && j == 0 ==> n == 0)
    && (0 < i + j ==> Started(f, t, i, j, n))
    && (forall x :: 1 <= x <= i ==> !Stuck(f, x)) && (forall y :: 1 <= y <= j ==> !Stuck(t, y))
  }

  /** What holds after the first round. */
  ghost predicate Started(f: seq<nat>, t: seq<nat>, i: nat, j: nat, n: nat) {
    && |f| >= 2 && |t| >= 2 && (i == 0 ==> n < f[1]) && (j == 0 ==> n < t[1])
    && (f[1] > t[1] ==> !Stuck(f, 0)) && (f[1] < t[1] ==> !Stuck(t, 0))
    && (|f| > 2 && f[1] == t[1] ==> |t| > 2)
    && (|f| == 3 && f[1] == f[2] && i == 1 && f[1] <= t[1] ==> j <= 1)
    && (|f| == 3 && f[1] == f[2] && i == 2 && j == 1 && j + 1 < |t| ==> n < t[2])
  }

  lemma RoundTracks(f: seq<nat>, t: seq<nat>, i: nat, j: nat, n: nat, i': nat, j': nat, n': nat)
    requires Bounds(f) && Bounds(t) && Tracks(f, t, i, j, n)
    requires Round(f, t, i, j, i', j', n') && Passes(f, t, i', j')
    ensures Tracks(f, t, i', j', n')
  {
  }

  /** Between rounds a source without an empty end has bytes left. */
  lemma BytesLeft(f: seq<nat>, t: seq<nat>, i: nat, j: nat, n: nat)
    requires Bounds(f) && !EmptyEnd(f) && Tracks(f, t, i, j, n) && i + 1 < |f| && 0 < i + j
    ensures n < Total(f)
  {
    if i > 0 { assert f[i] <= f[|f| - 2] < Total(f); }
  }

  /** The pbufs of the target that the walk enters are those at which it stands. */
  lemma EntersStands(f: seq<nat>, t: seq<nat>, i: nat, j: nat, n: nat, i': nat, j': nat, n': nat)
    requires Bounds(f) && Bounds(t) && Tracks(f, t, i, j, n) && Round(f, t, i, j, i', j', n')
    requires EmptyEnd(f) ==> |f| == 3 && f[1] <= t[1]
    ensures j' < |t| && (Stands(f, t, j') || (j' == j && 0 < j))
  {
    assert f[i + 1] <= Total(f) && (i > 0 ==> f[1] <= f[i]);
    if 0 < j && !EmptyEnd(f) { BytesLeft(f, t, i, j, n); }
  }

  lemma RoundPasses(f: seq<nat>, t: seq<nat>, i: nat, j: nat, n: nat, i': nat, j': nat, n': nat)
    requires Bounds(f) && Bounds(t) && Tracks(f, t, i, j, n) && Succeeds(f, t)
    requires Round(f, t, i, j, i', j', n')
    ensures Passes(f, t, i', j')
  {
    EntersStands(f, t, i, j, n, i', j', n');
  }

  lemma EndSucceeds(f: seq<nat>, t: seq<nat>, j: nat)
    requires Bounds(f) && Bounds(t) && Tracks(f, t, |f| - 1, j, Total(f)) && Total(f) <= Total(t)
    ensures Succeeds(f, t)
  {
    if EmptyEnd(f) {
      assert !Stuck(f, |f| - 3) || |f| == 3;
    }
    forall y | 0 <= y < |t| && Stuck(t, y) ensures !Stands(f, t, y) {
      if y > j { assert t[j + 1] <= t[y]; }
    }
  }

  /** Between packets that do not end in an empty pbuf only the lengths count. */
  lemma SucceedsPlain(f: seq<nat>, t: seq<nat>)
    requires Bounds(f) && Bounds(t) && !EmptyEnd(f) && !EmptyEnd(t)
    ensures Succeeds(f, t) <==> Total(f) <= Total(t)
  {
    forall j | 0 <= j < |t| ensures !Stuck(t, j) {
      if j + 2 < |t| { assert t[j + 1] <= t[|t| - 2]; }
    }
  }

  /** Packets that do end in one are refused although the target is long enough: five bytes and an
      empty pbuf do not go into two pbufs of three bytes, nor into one of five; and five bytes do
      not go into nine that an empty pbuf follows. */
  lemma EmptyEndsRefused()
    ensures !Succeeds([0, 5, 5], [0, 3, 6]) && !Succeeds([0, 5, 5], [0, 5]) && !Succeeds([0, 5], [0, 9, 9])
    ensures Succeeds([0, 5, 5], [0, 6])
  {
    assert Stuck([0, 9, 9], 0) && Stands([0, 5], [0, 9, 9], 0);
  }
}
