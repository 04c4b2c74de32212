/** The one-shot timers of timers.c: a list of time differences that stands for a list of
    deadlines. */
module Timers {
  import opened Basics

  /** struct sys_timeo: time is the difference to the timeout before it. Handler 0 is NULL. */
  datatype Timeout = Timeout(time: nat, h: nat, arg: nat)

  /** When a handler is due, counted from timeouts_last_time, the last time that one fired. */
  datatype Deadline = Deadline(at: nat, h: nat, arg: nat)

  function Deadlines(base: nat, list: seq<Timeout>): (ds: seq<Deadline>)
    ensures |ds| == |list|
    decreases |list|
  {
    if list == [] then [] else
      var at := base + list[0].time;
      [Deadline(at, list[0].h, list[0].arg)] + Deadlines(at, list[1..])
  }

  function Total(list: seq<Timeout>): nat {
    if list == [] then 0 else list[0].time + Total(list[1..])
  }

  lemma {:induction false} DeadlinesJoin(base: nat, a: seq<Timeout>, b: seq<Timeout>)
    ensures Deadlines(base, a + b) == Deadlines(base, a) + Deadlines(base + Total(a), b)
    ensures Total(a + b) == Total(a) + Total(b)
    decreases |a|
  {
    if a == [] {
      assert a + b == b;
    } else {
      var at, rest := base + a[0].time, a[1..];
      DeadlinesJoin(at, rest, b);
      DeadlinesCons(base, a[0], rest);
      DeadlinesCons(base, a[0], rest + b);
      assert a == [a[0]] + rest && a + b == [a[0]] + (rest + b);
      Assoc([Deadline(at, a[0].h, a[0].arg)], Deadlines(at, rest), Deadlines(at + Total(rest), b));
    }
  }

  lemma {:induction false} DeadlinesCons(base: nat, t: Timeout, rest: seq<Timeout>)
    ensures Deadlines(base, [t] + rest) == [Deadline(base + t.time, t.h, t.arg)] + Deadlines(base + t.time, rest)
    ensures Total([t] + rest) == t.time + Total(rest)
  {
    assert ([t] + rest)[1..] == rest;
  }

  lemma {:induction false} DeadlinesBounds(base: nat, list: seq<Timeout>, j: nat)
    requires j < |list|
    ensures base + list[0].time <= Deadlines(base, list)[j].at <= base + Total(list)
    decreases j
  {
    if j > 0 { DeadlinesBounds(base + list[0].time, list[1..], j - 1); }
  }

  lemma {:induction false} LastDeadline(base: nat, list: seq<Timeout>)
    requires list != []
    ensures Deadlines(base, list)[|list| - 1].at == base + Total(list)
  {
    var n := |list| - 1;
    assert list == list[..n] + [list[n]];
    DeadlinesJoin(base, list[..n], [list[n]]);
    assert [list[n]][1..] == [];
    assert Deadlines(base + Total(list[..n]), [list[n]])[0].at == base + Total(list[..n]) + list[n].time;
    assert Total([list[n]]) == list[n].time + Total([]);
  }

  /** The deadlines are in order. */
  ghost predicate Sorted(ds: seq<Deadline>) {
    forall i, j :: 0 <= i < j < |ds| ==> ds[i].at <= ds[j].at
  }

  lemma {:induction false} DeadlinesSorted(base: nat, list: seq<Timeout>)
    ensures Sorted(Deadlines(base, list))
    decreases |list|
  {
    if list != [] {
      var at, rest := base + list[0].time, list[1..];
      DeadlinesSorted(at, rest);
      forall j | 0 <= j < |rest| ensures at <= Deadlines(at, rest)[j].at { DeadlinesBounds(at, rest, j); }
    }
  }

  /** The list with its first difference changed from n + less to n + more. */
  function Shifted(list: seq<Timeout>, more: nat, less: nat): seq<Timeout>
    requires list != [] ==> list[0].time + more >= less
  {
    if list == [] then [] else [list[0].(time := list[0].time + more - less)] + list[1..]
  }

  lemma {:induction false} ShiftedDeadlines(base: nat, base': nat, list: seq<Timeout>, more: nat, less: nat)
    requires (list != [] ==> list[0].time + more >= less) && base' + more == base + less
    ensures Deadlines(base', Shifted(list, more, less)) == Deadlines(base, list)
  {
    if list != [] { assert Shifted(list, more, less)[1..] == list[1..]; }
  }

  // ----- inserting

  /** d goes behind every deadline that is not later. */
  ghost predicate InsertedAt(ds: seq<Deadline>, ds': seq<Deadline>, d: Deadline, i: nat) {
    && i <= |ds| && ds' == ds[..i] + [d] + ds[i..]
    && (forall j :: 0 <= j < i ==> ds[j].at <= d.at)
    && (forall j :: i <= j < |ds| ==> ds[j].at > d.at)
  }

  lemma {:induction false} SpliceIn(ds: seq<Deadline>, ds': seq<Deadline>, a: seq<Deadline>, b: seq<Deadline>,
                                    d: Deadline)
    requires ds == a + b && ds' == a + ([d] + b)
    ensures ds' == ds[..|a|] + [d] + ds[|a|..]
  {
  }

  lemma {:induction false} InsertDeadlines(list: seq<Timeout>, i: nat, t: Timeout, msecs: nat)
    requires i <= |list| && t.time + Total(list[..i]) == msecs && (i < |list| ==> list[i].time > t.time)
    ensures
      var d, rest := Deadline(msecs, t.h, t.arg), list[i..];
      InsertedAt(Deadlines(0, list), Deadlines(0, list[..i] + ([t] + Shifted(rest, 0, t.time))), d, i)
  {
    InsertSplice(list, i, t, msecs);
    InsertBounds(list, i, t.time, msecs);
  }

  lemma {:induction false} InsertSplice(list: seq<Timeout>, i: nat, t: Timeout, msecs: nat)
    requires i <= |list| && t.time + Total(list[..i]) == msecs && (i < |list| ==> list[i].time > t.time)
    ensures
      var ds, d, rest := Deadlines(0, list), Deadline(msecs, t.h, t.arg), list[i..];
      Deadlines(0, list[..i] + ([t] + Shifted(rest, 0, t.time))) == ds[..i] + [d] + ds[i..]
  {
    var a, rest, base, d := list[..i], list[i..], Total(list[..i]), Deadline(msecs, t.h, t.arg);
    var b := Shifted(rest, 0, t.time);
    assert list == a + rest;
    DeadlinesJoin(0, a, rest);
    DeadlinesJoin(0, a, [t] + b);
    DeadlinesCons(base, t, b);
    ShiftedDeadlines(base, msecs, rest, 0, t.time);
    SpliceIn(Deadlines(0, list), Deadlines(0, a + ([t] + b)), Deadlines(0, a), Deadlines(base, rest), d);
  }

  lemma {:induction false} InsertBounds(list: seq<Timeout>, i: nat, time: nat, msecs: nat)
    requires i <= |list| && time + Total(list[..i]) == msecs && (i < |list| ==> list[i].time > time)
    ensures forall j :: 0 <= j < i ==> Deadlines(0, list)[j].at <= msecs
    ensures forall j :: i <= j < |list| ==> Deadlines(0, list)[j].at > msecs
  {
    var a, rest, ds := list[..i], list[i..], Deadlines(0, list);
    assert list == a + rest;
    DeadlinesJoin(0, a, rest);
    forall j | 0 <= j < i ensures ds[j].at <= msecs { DeadlinesBounds(0, a, j); }
    forall j | i <= j < |ds| ensures ds[j].at > msecs { DeadlinesBounds(Total(a), rest, j - i); }
  }

  // ----- removing

  predicate Matches(t: Timeout, h: nat, arg: nat) {
    t.h == h && t.arg == arg
  }

  /** ds' is ds without the first deadline of a handler and argument; nothing else moves. */
  ghost predicate FirstRemoved(ds: seq<Deadline>, ds': seq<Deadline>, h: nat, arg: nat, i: nat) {
    && i < |ds| && ds[i].h == h && ds[i].arg == arg
    && (forall j :: 0 <= j < i ==> !(ds[j].h == h && ds[j].arg == arg))
    && ds' == ds[..i] + ds[i + 1..]
  }

  lemma {:induction false} SameHandlers(base: nat, list: seq<Timeout>, j: nat)
    requires j < |list|
    ensures Deadlines(base, list)[j].h == list[j].h && Deadlines(base, list)[j].arg == list[j].arg
    decreases j
  {
    if j > 0 { SameHandlers(base + list[0].time, list[1..], j - 1); }
  }

  lemma {:induction false} SpliceOut(ds: seq<Deadline>, ds': seq<Deadline>, a: seq<Deadline>, b: seq<Deadline>,
                                     d: Deadline)
    requires ds == a + ([d] + b) && ds' == a + b
    ensures ds' == ds[..|a|] + ds[|a| + 1..]
  {
  }

  lemma {:induction false} RemoveDeadlines(list: seq<Timeout>, i: nat)
    requires i < |list|
    ensures
      var ds := Deadlines(0, list);
      Deadlines(0, list[..i] + Shifted(list[i + 1..], list[i].time, 0)) == ds[..i] + ds[i + 1..]
  {
    var a, t, rest, base := list[..i], list[i], list[i + 1..], Total(list[..i]);
    var b := Shifted(rest, t.time, 0);
    assert list == a + list[i..] && list[i..][1..] == rest;
    DeadlinesJoin(0, a, list[i..]);
    DeadlinesJoin(0, a, b);
    ShiftedDeadlines(base + t.time, base, rest, t.time, 0);
    SpliceOut(Deadlines(0, list), Deadlines(0, a + b), Deadlines(0, a), Deadlines(base + t.time, rest),
              Deadline(base + t.time, t.h, t.arg));
  }

  // ----- firing

  /** The handlers that are called for the deadlines ds, in order. */
  function Calls(ds: seq<Deadline>): seq<(nat, nat)> {
    if ds == [] then []
    else if ds[0].h == 0 then Calls(ds[1..])
    else [(ds[0].h, ds[0].arg)] + Calls(ds[1..])
  }

  lemma {:induction false} CallsAppend(ds: seq<Deadline>, d: Deadline)
    ensures Calls(ds + [d]) == Calls(ds) + if d.h == 0 then [] else [(d.h, d.arg)]
  {
    if ds == [] {
      assert [d][1..] == [];
    } else {
      assert (ds + [d])[1..] == ds[1..] + [d];
      CallsAppend(ds[1..], d);
    }
  }

  /** The deadlines with a handler. */
  function WithHandler(ds: seq<Deadline>): seq<Deadline> {
    if ds == [] then [] else (if ds[0].h == 0 then [] else [ds[0]]) + WithHandler(ds[1..])
  }

  /** Each of them is called once, in order, with its argument. */
  lemma {:induction false} CallsAre(ds: seq<Deadline>, i: nat)
    ensures |Calls(ds)| == |WithHandler(ds)|
    ensures i < |WithHandler(ds)| ==> Calls(ds)[i] == (WithHandler(ds)[i].h, WithHandler(ds)[i].arg)
  {
    if ds != [] { CallsAre(ds[1..], if ds[0].h != 0 && i > 0 then i - 1 else i); }
  }

  /** The first k deadlines are exactly those that are due. */
  ghost predicate Due(ds: seq<Deadline>, k: nat, elapsed: nat) {
    && k <= |ds|
    && (forall j :: 0 <= j < k ==> ds[j].at <= elapsed)
    && (forall j :: k <= j < |ds| ==> ds[j].at > elapsed)
  }

  /** When the first k differences are used up and the next one is larger than what is left. */
  lemma {:induction false} DueAt(list: seq<Timeout>, k: nat, elapsed: nat)
    requires k <= |list| && Total(list[..k]) <= elapsed
    requires k < |list| ==> list[k].time > elapsed - Total(list[..k])
    ensures Due(Deadlines(0, list), k, elapsed)
  {
    var a, rest, ds := list[..k], list[k..], Deadlines(0, list);
    assert list == a + rest;
    DeadlinesJoin(0, a, rest);
    forall j | 0 <= j < k ensures ds[j].at <= elapsed { DeadlinesBounds(0, a, j); }
    forall j | k <= j < |ds| ensures ds[j].at > elapsed { DeadlinesBounds(Total(a), rest, j - k); }
  }

  lemma {:induction false} TotalPrefix(list: seq<Timeout>, k: nat)
    requires k < |list|
    ensures Total(list[..k + 1]) == Total(list[..k]) + list[k].time
  {
    assert list[..k + 1] == list[..k] + [list[k]] && [list[k]][1..] == [];
    DeadlinesJoin(0, list[..k], [list[k]]);
    assert Total([list[k]]) == list[k].time + Total([]);
  }

  /** The deadlines after k timeouts have fired: all earlier by the last deadline that fired, so
      that time left over beyond it is lost. */
  ghost predicate FiredUpTo(ds: seq<Deadline>, ds': seq<Deadline>, k: nat) {
    && k <= |ds| && |ds'| == |ds| - k
    && forall j :: 0 <= j < |ds'| ==>
         && ds'[j].h == ds[k + j].h && ds'[j].arg == ds[k + j].arg
         && ds'[j].at == ds[k + j].at - if k == 0 then 0 else ds[k - 1].at
  }

  lemma {:induction false} DeadlinesBase(base: nat, shift: nat, list: seq<Timeout>, j: nat)
    requires j < |list|
    ensures Deadlines(base + shift, list)[j] == Deadlines(base, list)[j].(at := Deadlines(base, list)[j].at + shift)
    decreases j
  {
    if j > 0 { DeadlinesBase(base + list[0].time, shift, list[1..], j - 1); }
  }

  lemma {:induction false} FiredDeadlines(list: seq<Timeout>, k: nat)
    requires k <= |list|
    ensures FiredUpTo(Deadlines(0, list), Deadlines(0, list[k..]), k)
  {
    var a, rest, ds := list[..k], list[k..], Deadlines(0, list);
    assert list == a + rest;
    DeadlinesJoin(0, a, rest);
    if k > 0 { LastDeadline(0, a); }
    var ds' := Deadlines(0, rest);
    forall j | 0 <= j < |ds'| ensures ds[k + j] == ds'[j].(at := ds'[j].at + Total(a)) {
      DeadlinesBase(0, Total(a), rest, j);
      assert ds[k + j] == Deadlines(Total(a), rest)[j];
    }
  }

  /** No deadline is 2^32 or more, so that adding differences does not wrap around. */
  ghost predicate Bounded(ds: seq<Deadline>) {
    forall j :: 0 <= j < |ds| ==> ds[j].at < U32
  }

  lemma {:induction false} DifferenceSmall(list: seq<Timeout>, k: nat)
    requires k < |list| && Bounded(Deadlines(0, list))
    ensures list[k].time < U32 && (k + 1 < |list| ==> list[k].time + list[k + 1].time < U32)
  {
    var a, rest, ds := list[..k], list[k..], Deadlines(0, list);
    assert list == a + rest;
    DeadlinesJoin(0, a, rest);
    assert ds[k] == Deadlines(Total(a), rest)[0];
    if k + 1 < |list| { assert ds[k + 1] == Deadlines(Total(a), rest)[1]; }
  }

  // ----- firing too early

  /** A check at time n is too early for a timeout of msecs that was set at time r, when the last
      one had fired at time last. */
  predicate TooEarly(last: nat, r: nat, msecs: nat, n: nat) {
    (n - r) % U32 < msecs <= (n - last) % U32
  }

  /** The timeout d that was set at time r fires in the check at time n, which is the first to fire
      anything since time last, if and only if it is due since time last; and it fires before its
      time if and only if the check is too early. */
  lemma FiresWhenDue(ds: seq<Deadline>, ds': seq<Deadline>, d: Deadline, i: nat, k: nat, last: nat, r: nat, n: nat)
    requires InsertedAt(ds, ds', d, i) && Due(ds', k, (n - last) % U32)
    ensures ds'[i] == d && (i < k <==> d.at <= (n - last) % U32)
    ensures i < k && (n - r) % U32 < d.at <==> TooEarly(last, r, d.at, n)
  {
    assert ds'[i] == d;
  }

  /** No check is too early if and only if the timeout is set in the millisecond in which one
      has fired. */
  lemma NeverTooEarly(last: nat, r: nat, msecs: nat)
    requires last < U32 && r < U32 && 0 < msecs < U32
    ensures (forall n :: 0 <= n < U32 ==> !TooEarly(last, r, msecs, n)) <==> r == last
  {
    if r != last {
      var e := (r - last) % U32;
      var m := if msecs < e then e else msecs;
      var n := (last + m) % U32;
      SameDistance(last, last, m);
      SameDistance(last, r, m);
      assert TooEarly(last, r, msecs, n);
    }
  }

  lemma SameDistance(last: nat, r: nat, m: nat)
    requires last < U32 && r < U32 && (r - last) % U32 <= m < U32
    ensures ((last + m) % U32 - r) % U32 == m - (r - last) % U32
  {
  }

  /** A timeout of 100 ms is set 90 ms after the start, and fires 10 ms later. */
  method FiresEarly(h: nat, arg: nat) returns (calls: seq<(nat, nat)>)
    requires h != 0
    ensures calls == [(h, arg)] && TooEarly(0, 90, 100, 100)
  {
    var timers := new List(0);
    ghost var i, k;
    i := timers.Insert(100, h, arg, true);
    ghost var ds := Deadlines(0, timers.list);
    calls, k := timers.Check(100);
    FiresWhenDue([], ds, Deadline(100, h, arg), i, k, 0, 90, 100);
    assert ds == [Deadline(100, h, arg)] && ds[..k] == ds && ds[1..] == [];
    assert Calls(ds) == [(h, arg)] + Calls([]);
  }

  class List {
    var list: seq<Timeout>
    /** timeouts_last_time. */
    var last: nat

    ghost predicate Valid()
      reads this
    {
      last < U32 && Bounded(Deadlines(0, list))
    }

    constructor (now: nat)
      requires now < U32
      ensures Valid() && list == [] && last == now
    {
      list, last := [], now;
    }

    /** sys_timeout. Without memory for it the timeout is dropped. */
    method Insert(msecs: nat, h: nat, arg: nat, memory: bool) returns (ghost i: nat)
      requires Valid() && msecs < U32
      modifies `list
      ensures Valid()
      ensures !memory ==> list == old(list)
      ensures memory ==> InsertedAt(Deadlines(0, old(list)), Deadlines(0, list), Deadline(msecs, h, arg), i)
    {
      if !memory {
        i := 0;
        return;
      }
      if list == [] {
        i := 0;
        InsertDeadlines(list, 0, Timeout(msecs, h, arg), msecs);
        list := [Timeout(msecs, h, arg)];
        assert list == old(list)[..0] + ([Timeout(msecs, h, arg)] + Shifted(old(list)[0..], 0, msecs));
        return;
      }
      if list[0].time > msecs {
        i := 0;
        InsertDeadlines(list, 0, Timeout(msecs, h, arg), msecs);
        list := [Timeout(msecs, h, arg), list[0].(time := list[0].time - msecs)] + list[1..];
        assert list == old(list)[..0] + ([Timeout(msecs, h, arg)] + Shifted(old(list)[0..], 0, msecs));
        return;
      }
      i := InsertBehind(msecs, h, arg);
    }

    /** The loop of sys_timeout: the new timeout goes behind the first one. */
    method InsertBehind(msecs: nat, h: nat, arg: nat) returns (ghost i: nat)
      requires Valid() && msecs < U32 && list != [] && list[0].time <= msecs
      modifies `list
      ensures Valid() && InsertedAt(Deadlines(0, old(list)), Deadlines(0, list), Deadline(msecs, h, arg), i)
    {
      var time, t := msecs, 0;
      while true
        invariant 0 <= t < |list| && list == old(list)
        invariant list[t].time <= time && time + Total(list[..t]) == msecs
        decreases |list| - t
      {
        TotalPrefix(list, t);
        time := time - list[t].time;
        if t + 1 == |list| || list[t + 1].time > time {
          break;
        }
        t := t + 1;
      }
      i := t + 1;
      InsertDeadlines(list, i, Timeout(time, h, arg), msecs);
      if t + 1 < |list| {
        list := list[t + 1 := list[t + 1].(time := list[t + 1].time - time)];
      }
      list := list[..t + 1] + [Timeout(time, h, arg)] + list[t + 1..];
      assert list == old(list)[..i] + ([Timeout(time, h, arg)] + Shifted(old(list)[i..], 0, time));
    }

    /** sys_untimeout. */
    method Remove(h: nat, arg: nat) returns (ghost i: nat)
      requires Valid()
      modifies `list
      ensures Valid()
      ensures
        var ds := Deadlines(0, old(list));
        if exists j :: 0 <= j < |ds| && ds[j].h == h && ds[j].arg == arg
        then FirstRemoved(ds, Deadlines(0, list), h, arg, i) else list == old(list)
    {
      var t := 0;
      while t < |list| && !Matches(list[t], h, arg)
        invariant 0 <= t <= |list| && forall j :: 0 <= j < t ==> !Matches(list[j], h, arg)
      {
        t := t + 1;
      }
      i := t;
      ghost var ds := Deadlines(0, list);
      forall j | 0 <= j < |list| ensures ds[j].h == list[j].h && ds[j].arg == list[j].arg { SameHandlers(0, list, j); }
      if t < |list| {
        DifferenceSmall(list, t);
        RemoveDeadlines(list, t);
        var time := list[t].time;
        list := list[..t] + list[t + 1..];
        if t < |list| {
          list := list[t := list[t].(time := (list[t].time + time) % U32)];
        }
        assert list == old(list)[..t] + Shifted(old(list)[t + 1..], time, 0);
      }
    }

    /** sys_check_timeouts: the handlers called, in order. */
    method Check(now: nat) returns (calls: seq<(nat, nat)>, ghost k: nat)
      requires Valid() && now < U32
      modifies this
      ensures Valid()
      ensures Due(Deadlines(0, old(list)), k, (now - old(last)) % U32)
      ensures calls == Calls(Deadlines(0, old(list))[..k]) && list == old(list)[k..]
      ensures FiredUpTo(Deadlines(0, old(list)), Deadlines(0, list), k)
      ensures last == if k == 0 then old(last) else now
    {
      ghost var ds, elapsed := Deadlines(0, list), (now - last) % U32;
      calls, k := [], 0;
      var diff := (now - last) % U32;
      assert list[0..] == list;
      while list != [] && list[0].time <= diff
        invariant k <= |old(list)| && list == old(list)[k..] && 0 <= diff
        invariant Total(old(list)[..k]) + diff == elapsed
        invariant calls == Calls(ds[..k]) && last == if k == 0 then old(last) else now
        decreases |list|
      {
        TotalPrefix(old(list), k);
        SameHandlers(0, old(list), k);
        assert ds[..k + 1] == ds[..k] + [ds[k]];
        CallsAppend(ds[..k], ds[k]);
        last := now;
        diff := diff - list[0].time;
        if list[0].h != 0 {
          calls := calls + [(list[0].h, list[0].arg)];
        }
        list := list[1..];
        k := k + 1;
      }
      DueAt(old(list), k, elapsed);
      FiredDeadlines(old(list), k);
    }
  }
}
