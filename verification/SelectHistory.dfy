/** What a socket shows to select is what has happened to it since it was opened, and what happens
    wakes the calls that wait for it. */
module SelectHistory {
  import opened Select
  import opened SelectTheorems
  import opened SelectWakeups

  // ----- flags

  /** sendevent, errevent, and whether a remainder is kept. */
  datatype Flag = Writable | Failed | Remainder

  predicate Shows(k: Sock, f: Flag) {
    match f
    case Writable => k.sendevent
    case Failed => k.errevent
    case Remainder => k.lastdata
  }

  /** The step is event e for socket s. */
  predicate Tells(step: Step, s: nat, e: Event) {
    step.Notify? && step.s == s && step.e == e
  }

  predicate Raises(step: Step, s: nat, f: Flag) {
    match f
    case Writable => step == Open(s, true) || Tells(step, s, SendPlus)
    case Failed => Tells(step, s, Error)
    case Remainder => step == StoreRemainder(s)
  }

  predicate Clears(step: Step, s: nat, f: Flag) {
    || (step.Open? && step.s == s && !Raises(step, s, f)) || step == Close(s)
    || match f
       case Writable => Tells(step, s, SendMinus)
       case Failed => false
       case Remainder => step == DropRemainder(s)
  }

  ghost predicate NotCleared(steps: seq<Step>, s: nat, f: Flag) {
    forall i :: 0 <= i < |steps| ==> !Clears(steps[i], s, f)
  }

  /** Step i raises the flag, and no later one clears it. */
  ghost predicate RaisedSince(steps: seq<Step>, s: nat, f: Flag, i: nat) {
    i < |steps| && Raises(steps[i], s, f) && forall j :: i < j < |steps| ==> !Clears(steps[j], s, f)
  }

  /** Of the steps that raise or clear the flag, the last one raises it. */
  ghost predicate LastRaises(steps: seq<Step>, s: nat, f: Flag) {
    exists i :: RaisedSince(steps, s, f, i)
  }

  lemma RaisedSinceTail(steps: seq<Step>, s: nat, f: Flag, i: nat)
    requires steps != []
    ensures RaisedSince(steps, s, f, i + 1) <==> RaisedSince(steps[1..], s, f, i)
  {
    var rest := steps[1..];
    if RaisedSince(steps, s, f, i + 1) {
      forall j | i < j < |rest| ensures !Clears(rest[j], s, f) { assert rest[j] == steps[j + 1]; }
    }
    if RaisedSince(rest, s, f, i) {
      forall j | i + 1 < j < |steps| ensures !Clears(steps[j], s, f) { assert rest[j - 1] == steps[j]; }
    }
  }

  lemma NotClearedTail(steps: seq<Step>, s: nat, f: Flag)
    requires steps != []
    ensures NotCleared(steps, s, f) <==> !Clears(steps[0], s, f) && NotCleared(steps[1..], s, f)
    ensures RaisedSince(steps, s, f, 0) <==> Raises(steps[0], s, f) && NotCleared(steps[1..], s, f)
  {
    forall j | 0 < j < |steps| ensures steps[j] == steps[1..][j - 1] { }
  }

  lemma {:induction false} LastRaisesTail(steps: seq<Step>, s: nat, f: Flag)
    requires steps != []
    ensures LastRaises(steps, s, f) <==> LastRaises(steps[1..], s, f) || RaisedSince(steps, s, f, 0)
  {
    if i: nat :| RaisedSince(steps[1..], s, f, i) { RaisedSinceTail(steps, s, f, i); }
    if i: nat :| RaisedSince(steps, s, f, i) {
      if i > 0 { RaisedSinceTail(steps, s, f, i - 1); }
    }
  }

  /** The steps that are about socket s. */
  predicate Concerns(step: Step, s: nat) {
    (step.Open? || step.Close? || step.Notify? || step.StoreRemainder? || step.DropRemainder?) && step.s == s
  }

  predicate SameButWaiting(k: Sock, k': Sock) {
    k' == k.(waiting := k'.waiting)
  }

  /** Any other step leaves what the socket shows as it is. */
  lemma NotConcerned(st: State, step: Step, s: nat)
    requires Enabled(st, step) && !Concerns(step, s)
    ensures s in Next(st, step).socks <==> s in st.socks
    ensures s in st.socks ==> SameButWaiting(st.socks[s], Next(st, step).socks[s])
  {
    if step.Walk? || step.Notify? { VisitsKeepSockets(st, step); }
  }

  lemma VisitsKeepSockets(st: State, step: Step)
    requires Enabled(st, step) && (step.Walk? || step.Notify?)
    ensures Next(st, step).socks ==
            if step.Walk? then st.socks else st.socks[step.s := Happens(st.socks[step.s], step.e)]
  {
  }

  lemma FlagAfter(st: State, step: Step, s: nat, f: Flag)
    requires Enabled(st, step) && s in Next(st, step).socks
    ensures Shows(Next(st, step).socks[s], f) <==>
            Raises(step, s, f) || (s in st.socks && Shows(st.socks[s], f) && !Clears(step, s, f))
  {
    if !Concerns(step, s) {
      NotConcerned(st, step, s);
    } else if step.Notify? {
      FlagAfterEvent(st, step, s, f);
    }
  }

  lemma FlagAfterEvent(st: State, step: Step, s: nat, f: Flag)
    requires Enabled(st, step) && step.Notify? && step.s == s
    ensures s in Next(st, step).socks
    ensures Shows(Next(st, step).socks[s], f) <==>
            Raises(step, s, f) || (Shows(st.socks[s], f) && !Clears(step, s, f))
  {
    VisitsKeepSockets(st, step);
  }

  lemma Vanishes(st: State, step: Step, s: nat, f: Flag)
    requires Enabled(st, step) && s !in Next(st, step).socks
    ensures !Raises(step, s, f) && (s in st.socks ==> Clears(step, s, f))
  {
    if !Concerns(step, s) {
      NotConcerned(st, step, s);
    } else if step.Notify? {
      VisitsKeepSockets(st, step);
    }
  }

  lemma {:induction false} FlagsFrom(st: State, steps: seq<Step>, st': State, s: nat, f: Flag)
    requires Reaches(st, steps, st') && s in st'.socks
    ensures Shows(st'.socks[s], f) <==>
            LastRaises(steps, s, f) || (s in st.socks && Shows(st.socks[s], f) && NotCleared(steps, s, f))
    decreases |steps|
  {
    if steps != [] {
      var st1 := Next(st, steps[0]);
      FlagsFrom(st1, steps[1..], st', s, f);
      LastRaisesTail(steps, s, f);
      NotClearedTail(steps, s, f);
      if s in st1.socks {
        FlagAfter(st, steps[0], s, f);
      } else {
        Vanishes(st, steps[0], s, f);
      }
    }
  }

  /** In every run a socket is writable, failed, or holds a remainder if and only if the last step
      that has to do with this says so. */
  lemma FlagsExact(steps: seq<Step>, st: State, s: nat, f: Flag)
    requires Reaches(INIT, steps, st) && s in st.socks
    ensures Shows(st.socks[s], f) <==> LastRaises(steps, s, f)
  {
    FlagsFrom(INIT, steps, st, s, f);
  }

  // ----- messages

  function Told(steps: seq<Step>, s: nat, e: Event): nat {
    if steps == [] then 0 else (if Tells(steps[0], s, e) then 1 else 0) + Told(steps[1..], s, e)
  }

  function Stored(steps: seq<Step>, s: nat): nat {
    if steps == [] then 0 else (if steps[0] == StoreRemainder(s) then 1 else 0) + Stored(steps[1..], s)
  }

  ghost predicate NotOpened(steps: seq<Step>, s: nat) {
    forall i :: 0 <= i < |steps| ==> !(steps[i].Open? && steps[i].s == s)
  }

  lemma {:induction false} StaysClosed(st: State, steps: seq<Step>, st': State, s: nat)
    requires Reaches(st, steps, st') && NotOpened(steps, s) && s !in st.socks
    ensures s !in st'.socks
    decreases |steps|
  {
    if steps != [] {
      assert !(steps[0].Open? && steps[0].s == s);
      StaysClosed(Next(st, steps[0]), steps[1..], st', s);
    }
  }

  lemma CountsAfter(st: State, step: Step, s: nat)
    requires Enabled(st, step) && s in st.socks && s in Next(st, step).socks
    ensures
      var k, k' := st.socks[s], Next(st, step).socks[s];
      && k'.rcvevent == k.rcvevent + (if Tells(step, s, RcvPlus) then 1 else 0)
                      - (if Tells(step, s, RcvMinus) then 1 else 0)
      && k'.fetched == k.fetched + (if Tells(step, s, RcvMinus) then 1 else 0)
                     - (if step == StoreRemainder(s) then 1 else 0)
  {
    if !Concerns(step, s) {
      NotConcerned(st, step, s);
    } else if step.Notify? {
      VisitsKeepSockets(st, step);
    }
  }

  lemma {:induction false} CountsFrom(st: State, steps: seq<Step>, st': State, s: nat)
    requires Reaches(st, steps, st') && NotOpened(steps, s) && s in st.socks && s in st'.socks
    ensures st'.socks[s].rcvevent == st.socks[s].rcvevent + Told(steps, s, RcvPlus) - Told(steps, s, RcvMinus)
    ensures st'.socks[s].fetched == st.socks[s].fetched + Told(steps, s, RcvMinus) - Stored(steps, s)
    decreases |steps|
  {
    if steps != [] {
      var st1 := Next(st, steps[0]);
      assert NotOpened(steps[1..], s);
      if s !in st1.socks { StaysClosed(st1, steps[1..], st', s); }
      CountsAfter(st, steps[0], s);
      CountsFrom(st1, steps[1..], st', s);
    }
  }

  lemma {:induction false} ReachesSplit(st: State, steps: seq<Step>, st': State, i: nat) returns (mid: State)
    requires Reaches(st, steps, st') && i <= |steps|
    ensures Reaches(st, steps[..i], mid) && Reaches(mid, steps[i..], st')
    decreases i
  {
    if i == 0 {
      mid := st;
      assert steps[0..] == steps;
    } else {
      mid := ReachesSplit(Next(st, steps[0]), steps[1..], st', i - 1);
      assert steps[..i][1..] == steps[1..][..i - 1] && steps[1..][i - 1..] == steps[i..];
    }
  }

  /** In every run rcvevent is the number of messages that came for the socket minus the number
      taken by recv, both since it was opened last; every remainder stored was taken before. */
  lemma MessagesExact(steps: seq<Step>, st: State, s: nat, i: nat)
    requires Reaches(INIT, steps, st) && s in st.socks
    requires i < |steps| && steps[i].Open? && steps[i].s == s && NotOpened(steps[i + 1..], s)
    ensures
      var since := steps[i + 1..];
      && st.socks[s].rcvevent == Told(since, s, RcvPlus) - Told(since, s, RcvMinus)
      && st.socks[s].fetched == Told(since, s, RcvMinus) - Stored(since, s)
  {
    var mid := ReachesSplit(INIT, steps, st, i);
    assert steps[i..][1..] == steps[i + 1..];
    CountsFrom(Next(mid, steps[i]), steps[i + 1..], st, s);
  }

  // ----- events wake

  /** Event e is what a call with these sets waits for on a socket k. */
  predicate WaitedFor(e: Event, k: Sock, sets: Sets, s: nat) {
    match e
    case RcvPlus => s in sets.read && k.rcvevent >= 0
    case SendPlus => s in sets.write
    case Error => s in sets.except
    case _ => false
  }

  /** In every run, an event that a waiting call waits for signals it, now or by a callback under
      way. */
  lemma EventWakes(steps: seq<Step>, st: State, c: nat, s: nat, e: Event, t: nat)
    requires Reaches(INIT, steps, st) && Enabled(st, Notify(c, s, e)) && Waits(st, t, s)
    requires WaitedFor(e, st.socks[s], st.waiters[t].sets, s)
    ensures
      var st' := Next(st, Notify(c, s, e));
      t in st'.waiters && (st'.waiters[t].signalled || WillBeSignalled(st', t, s))
  {
    var st' := Next(st, Notify(c, s, e));
    VisitsKeepSockets(st, Notify(c, s, e));
    Extend(INIT, steps, st, Notify(c, s, e));
    if !st'.waiters[t].signalled { WakeupExact(steps + [Notify(c, s, e)], st', t, s); }
  }

  // ----- what a scan finds

  function Scans(t: nat, n: nat): seq<Step> {
    if n == 0 then [] else [ScanOne(t)] + Scans(t, n - 1)
  }

  lemma ScansTail(t: nat, n: nat)
    requires 0 < n
    ensures Scans(t, n) != [] && Scans(t, n)[0] == ScanOne(t) && Scans(t, n)[1..] == Scans(t, n - 1)
  {
  }

  /** Socket s is readable, writable or failed, and the call has asked for that. */
  ghost predicate Ready(socks: map<nat, Sock>, sets: Sets, s: nat) {
    && s in socks
    && (|| (s in sets.read && (socks[s].lastdata || socks[s].rcvevent > 0))
        || (s in sets.write && socks[s].sendevent)
        || (s in sets.except && socks[s].errevent))
  }

  ghost predicate SomeReady(socks: map<nat, Sock>, sets: Sets, lo: nat, hi: nat) {
    exists s :: lo <= s < hi && Ready(socks, sets, s)
  }

  lemma {:induction false} ScansFind(st: State, t: nat, n: nat, st': State)
    requires t in st.waiters && st.waiters[t].phase.Scan? && st.waiters[t].phase.i + n == st.waiters[t].maxfdp1
    requires Reaches(st, Scans(t, n), st')
    ensures
      var w := st.waiters[t];
      && t in st'.waiters && st'.waiters[t].maxfdp1 == w.maxfdp1
      && st'.waiters[t].phase
         == Scan(w.maxfdp1, w.phase.ready || SomeReady(st.socks, w.sets, w.phase.i, w.maxfdp1))
    decreases n
  {
    if n > 0 {
      ScansTail(t, n);
      var w, st1 := st.waiters[t], Next(st, ScanOne(t));
      ScansFind(st1, t, n - 1, st');
      var i := w.phase.i;
      assert SomeReady(st.socks, w.sets, i, w.maxfdp1) <==>
             Ready(st.socks, w.sets, i) || SomeReady(st.socks, w.sets, i + 1, w.maxfdp1);
    }
  }

  /** The first scan of a call, when nothing else happens meanwhile, lets the call go on to wait if and
      only if no socket below maxfdp1 is ready for one of its sets; it may return in any case. */
  lemma FirstScanExact(st: State, t: nat, maxfdp1: nat, sets: Sets, st': State)
    requires Enabled(st, Call(t, maxfdp1, sets))
    requires Reaches(Next(st, Call(t, maxfdp1, sets)), Scans(t, maxfdp1), st')
    ensures Enabled(st', Register(t)) <==> !SomeReady(st.socks, sets, 0, maxfdp1)
    ensures Enabled(st', GiveUp(t)) && !Enabled(st', ScanOne(t))
  {
    ScansFind(Next(st, Call(t, maxfdp1, sets)), t, maxfdp1, st');
  }
}
