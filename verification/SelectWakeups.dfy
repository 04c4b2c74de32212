/** What becomes of pending callbacks, and the one readiness test they do not make. */
module SelectWakeups {
  import opened Basics
  import opened Select
  import opened SelectTheorems

  function Walks(c: nat, n: nat): seq<Step> {
    if n == 0 then [] else [Walk(c)] + Walks(c, n - 1)
  }

  lemma WalksTail(c: nat, n: nat)
    requires 0 < n
    ensures Walks(c, n) != [] && Walks(c, n)[0] == Walk(c) && Walks(c, n)[1..] == Walks(c, n - 1)
  {
  }

  /** Position at which callback c continues. */
  function NextPosition(st: State, c: nat): nat
    requires c in st.callbacks
  {
    if st.callbacks[c].last != st.ctr then 0 else IndexOf(st.list, st.callbacks[c].scb) + 1
  }

  /** One more step of a callback visits the next call on the list ... */
  lemma WalkVisits(st: State, c: nat, k: nat)
    requires c in st.callbacks && NextPosition(st, c) == k < |st.list|
    requires st.callbacks[c].sock in st.socks && st.list[k] in st.waiters
    ensures
      var s, u := st.callbacks[c].sock, st.list[k];
      Next(st, Walk(c)) == Visit(st, s, u).(callbacks := st.callbacks[c := Callback(s, u, st.ctr)])
  {
  }

  /** ... or ends the callback. */
  lemma WalkEnds(st: State, c: nat)
    requires c in st.callbacks && NextPosition(st, c) >= |st.list|
    ensures Next(st, Walk(c)) == st.(callbacks := st.callbacks - {c})
  {
  }

  /** One more step of a pending callback signals the call ... */
  lemma WalkHits(st: State, c: nat, t: nat, s: nat)
    requires ListOk(st) && Waits(st, t, s) && EventReady(st.socks[s], st.waiters[t].sets, s) && SemOk(st.waiters[t])
    requires c in st.callbacks && st.callbacks[c].sock == s && NextPosition(st, c) == IndexOf(st.list, t)
    ensures
      var st1 := Next(st, Walk(c));
      t in st1.waiters && st1.waiters[t] == st.waiters[t].(signalled := true, sem := 1)
  {
    WaiterOnList(st, t, s);
  }

  /** ... or brings the callback closer to it. */
  lemma {:induction false} WalkMisses(st: State, c: nat, t: nat, s: nat)
    requires ListOk(st) && Waits(st, t, s)
    requires c in st.callbacks && st.callbacks[c].sock == s && NextPosition(st, c) < IndexOf(st.list, t)
    ensures
      var st1 := Next(st, Walk(c));
      && t in st1.waiters && st1.waiters[t] == st.waiters[t] && st1.socks == st.socks && st1.list == st.list
      && c in st1.callbacks && st1.callbacks[c].sock == s
      && NextPosition(st1, c) == NextPosition(st, c) + 1
  {
    WaiterOnList(st, t, s);
    var k := NextPosition(st, c);
    SameIndex(st.list, k);
    assert st.list[k] in st.list && st.list[k] != t;
    WalkVisits(st, c, k);
  }

  /** A pending callback delivers: walking on, it reaches the waiting call and signals it. */
  lemma {:induction false} PendingSignals(st: State, c: nat, t: nat, s: nat) returns (n: nat, st': State)
    requires Inv(st) && Waits(st, t, s) && EventReady(st.socks[s], st.waiters[t].sets, s)
    requires c in st.callbacks && st.callbacks[c].sock == s && Pending(st, c, t)
    ensures Reaches(st, Walks(c, n), st')
    ensures t in st'.waiters && st'.waiters[t] == st.waiters[t].(signalled := true, sem := 1)
    decreases IndexOf(st.list, t) - NextPosition(st, c)
  {
    var st1 := Next(st, Walk(c));
    if NextPosition(st, c) == IndexOf(st.list, t) {
      WalkHits(st, c, t, s);
      n, st' := 1, st1;
      WalksTail(c, 1);
    } else {
      WalkMisses(st, c, t, s);
      StepKeeps(st, Walk(c));
      var m, st2 := PendingSignals(st1, c, t, s);
      n, st' := m + 1, st2;
      WalksTail(c, n);
    }
  }

  /** A signalled call can always leave its wait. */
  lemma SignalledCanWake(steps: seq<Step>, st: State, t: nat)
    requires Reaches(INIT, steps, st)
    requires t in st.waiters && st.waiters[t].phase.Blocked? && st.waiters[t].signalled
    ensures Enabled(st, Wake(t)) && st.waiters[t].sem == 1
  {
    InitInv();
    RunKeeps(INIT, steps, st);
  }

  // ----- what a callback on its way is worth

  /** Callback c, walking on, signals call t. */
  ghost predicate Delivers(st: State, t: nat, s: nat, c: nat, n: nat, st': State) {
    && c in st.callbacks && st.callbacks[c].sock == s
    && Reaches(st, Walks(c, n), st') && t in st'.waiters && st'.waiters[t].signalled
  }

  /** A callback for s that is under way will signal call t. */
  ghost predicate WillBeSignalled(st: State, t: nat, s: nat) {
    exists c, n, st' :: Delivers(st, t, s, c, n, st')
  }

  /** A callback for s does not signal a call for which s is not ready. */
  lemma {:induction false} NotReadyNotSignalled(st: State, c: nat, n: nat, st': State, t: nat, s: nat)
    requires c in st.callbacks ==> st.callbacks[c].sock == s
    requires t in st.waiters && !st.waiters[t].signalled
    requires s in st.socks && !EventReady(st.socks[s], st.waiters[t].sets, s) && Reaches(st, Walks(c, n), st')
    ensures t in st'.waiters && !st'.waiters[t].signalled
    decreases n
  {
    if n > 0 {
      WalksTail(c, n);
      var st1 := Next(st, Walk(c));
      assert st1.socks == st.socks && t in st1.waiters && st1.waiters[t] == st.waiters[t];
      NotReadyNotSignalled(st1, c, n - 1, st', t, s);
    }
  }

  /** Exactly which waiting calls are woken: those for which the socket is ready by the test of
      event_callback, however ready it is by the test of lwip_selscan. */
  lemma WakeupExact(steps: seq<Step>, st: State, t: nat, s: nat)
    requires Reaches(INIT, steps, st) && Waits(st, t, s)
    ensures WillBeSignalled(st, t, s) <==> EventReady(st.socks[s], st.waiters[t].sets, s)
  {
    InitInv();
    RunKeeps(INIT, steps, st);
    if EventReady(st.socks[s], st.waiters[t].sets, s) {
      assert WakeupOk(st, t, s);
      var c :| c in st.callbacks && st.callbacks[c].sock == s && Pending(st, c, t);
      var n, st' := PendingSignals(st, c, t, s);
      assert Delivers(st, t, s, c, n, st');
    } else if c, n: nat, st' :| Delivers(st, t, s, c, n, st') {
      NotReadyNotSignalled(st, c, n, st', t, s);
    }
  }

  // ----- the kept remainder of a partly read message

  /** Call t sleeps through a readiness of s that lwip_selscan would report. */
  ghost predicate Lost(st: State, t: nat, s: nat) {
    && Waits(st, t, s) && ScanReady(st.socks[s], st.waiters[t].sets, s)
    && !EventReady(st.socks[s], st.waiters[t].sets, s)
  }

  /** A call that waits for a socket ready to lwip_selscan is not woken if and only if the socket
      holds nothing but the kept remainder of a message, which event_callback does not test. */
  lemma OnlyRemainderIsMissed(steps: seq<Step>, st: State, t: nat, s: nat)
    requires Reaches(INIT, steps, st) && Waits(st, t, s) && ScanReady(st.socks[s], st.waiters[t].sets, s)
    ensures
      var k, sets := st.socks[s], st.waiters[t].sets;
      !WillBeSignalled(st, t, s) <==>
        && s in sets.read && k.lastdata && k.rcvevent <= 0
        && !(s in sets.write && k.sendevent) && !(s in sets.except && k.errevent)
  {
    WakeupExact(steps, st, t, s);
  }

  /** The steps that make call t sleep through a readiness of s: a remainder is stored while t
      waits to read and nothing else is ready, or, with a remainder there, an event takes away the
      last other readiness before t was signalled. */
  ghost predicate Loses(st: State, step: Step, t: nat, s: nat) {
    && Waits(st, t, s) && s in st.waiters[t].sets.read
    && match step
       case StoreRemainder(s') =>
         s' == s && !st.socks[s].lastdata && !EventReady(st.socks[s], st.waiters[t].sets, s)
       case Notify(_, s', e) => s' == s && st.socks[s].lastdata && TakesAway(e, st.socks[s], st.waiters[t].sets, s)
       case _ => false
  }

  /** The last message is taken, or the socket stops being writable, and nothing else is ready for
      a call that waits to read. */
  predicate TakesAway(e: Event, k: Sock, sets: Sets, s: nat) {
    && !(s in sets.except && k.errevent)
    && match e
       case RcvMinus => k.rcvevent == 1 && !(s in sets.write && k.sendevent)
       case SendMinus => k.rcvevent <= 0 && s in sets.write && k.sendevent
       case _ => false
  }

  /** What a step does to the tests of a socket that stays open. */
  lemma SocketAfter(st: State, step: Step, s: nat, sets: Sets)
    requires Enabled(st, step) && s in st.socks && s in Next(st, step).socks
    ensures
      var k := if step.Notify? && step.s == s then Happens(st.socks[s], step.e) else st.socks[s];
      EventReady(Next(st, step).socks[s], sets, s) <==> EventReady(k, sets, s)
    ensures Next(st, step).socks[s].lastdata ==> st.socks[s].lastdata || step == StoreRemainder(s)
    ensures step == StoreRemainder(s) ==> Next(st, step).socks[s].lastdata
    ensures step.Notify? ==> Next(st, step).socks[s].lastdata == st.socks[s].lastdata
  {
  }

  /** A step that loses leaves the call waiting. */
  lemma LosesKeepsWaiting(st: State, step: Step, t: nat, s: nat)
    requires Enabled(st, step) && Loses(st, step, t, s)
    ensures Waits(Next(st, step), t, s) && Next(st, step).waiters[t] == st.waiters[t]
  {
  }

  /** A wake-up is lost in a step if and only if it is one of those steps. */
  lemma LossExactly(st: State, step: Step, t: nat, s: nat)
    requires Inv(st) && Enabled(st, step)
    ensures !Lost(st, t, s) && Lost(Next(st, step), t, s) <==> Loses(st, step, t, s)
  {
    var st' := Next(st, step);
    if Loses(st, step, t, s) {
      LosesKeepsWaiting(st, step, t, s);
      SocketAfter(st, step, s, st.waiters[t].sets);
    } else if Lost(st', t, s) {
      WaitsBefore(st, step, t, s);
      SocketAfter(st, step, s, st.waiters[t].sets);
    }
  }

  ghost predicate NothingLost(st: State) {
    forall t, s :: !Lost(st, t, s)
  }

  ghost predicate Harmless(st: State, step: Step) {
    forall t, s :: !Loses(st, step, t, s)
  }

  /** No step of the run loses a wake-up. */
  ghost predicate Careful(st: State, steps: seq<Step>)
    decreases |steps|
  {
    steps == [] || (Enabled(st, steps[0]) && Harmless(st, steps[0]) && Careful(Next(st, steps[0]), steps[1..]))
  }

  /** In no state of the run is a wake-up lost. */
  ghost predicate NeverLost(st: State, steps: seq<Step>)
    decreases |steps|
  {
    NothingLost(st) && (steps == [] || (Enabled(st, steps[0]) && NeverLost(Next(st, steps[0]), steps[1..])))
  }

  /** A run loses no wake-up if and only if it makes no such step. */
  lemma {:induction false} NeverLostIffCareful(st: State, steps: seq<Step>, st': State)
    requires Inv(st) && NothingLost(st) && Reaches(st, steps, st')
    ensures NeverLost(st, steps) <==> Careful(st, steps)
    decreases |steps|
  {
    if steps != [] {
      var step, st1 := steps[0], Next(st, steps[0]);
      StepKeeps(st, step);
      forall t, s ensures Lost(st1, t, s) <==> Loses(st, step, t, s) { LossExactly(st, step, t, s); }
      assert NothingLost(st1) <==> Harmless(st, step);
      if NothingLost(st1) { NeverLostIffCareful(st1, steps[1..], st'); }
    }
  }

  /** So in every run from the start, whatever is ready to lwip_selscan wakes its waiters at every
      moment if and only if the run makes no such step. */
  lemma NoWakeupLostIff(steps: seq<Step>, st: State)
    requires Reaches(INIT, steps, st)
    ensures NeverLost(INIT, steps) <==> Careful(INIT, steps)
  {
    InitInv();
    NeverLostIffCareful(INIT, steps, st);
  }

  lemma NotCounted(st: State, t: nat, s: nat)
    requires Inv(st) && s !in st.socks
    ensures t in st.waiters ==> !Counted(st.waiters[t], s)
  {
    assert SockCounted(st, s);
    assert t !in CountedSet(st.waiters, s);
  }

  /** A call that waits after a step waited before it, or has just scanned the socket. */
  lemma WaitsBefore(st: State, step: Step, t: nat, s: nat)
    requires Inv(st) && Enabled(st, step) && Waits(Next(st, step), t, s)
    ensures t in st.waiters && s in st.socks && Next(st, step).waiters[t].sets == st.waiters[t].sets
    ensures Waits(st, t, s) || (step == RescanOne(t) && !ScanReady(st.socks[s], st.waiters[t].sets, s))
    ensures Next(st, step).socks[s].lastdata ==> st.socks[s].lastdata || step == StoreRemainder(s)
  {
    if step.Open? || step.Close? || step.StoreRemainder? || step.DropRemainder? {
      SocketStepWaits(st, step, t, s);
    } else if step.Notify? {
      VisitWaits(st.(socks := st.socks[step.s := Happens(st.socks[step.s], step.e)]), step.c, step.s, 0, t, s);
    } else if step.Walk? {
      VisitWaits(st, step.c, st.callbacks[step.c].sock, NextPosition(st, step.c), t, s);
    } else {
      CallStepWaits(st, step, t, s);
    }
  }

  lemma SocketStepWaits(st: State, step: Step, t: nat, s: nat)
    requires Inv(st) && Enabled(st, step) && Waits(Next(st, step), t, s)
    requires step.Open? || step.Close? || step.StoreRemainder? || step.DropRemainder?
    ensures Next(st, step).waiters == st.waiters && Waits(st, t, s)
    ensures Next(st, step).socks[s].lastdata ==> st.socks[s].lastdata || step == StoreRemainder(s)
  {
    if step.Open? { NotCounted(st, t, step.s); }
  }

  lemma CallStepWaits(st: State, step: Step, t: nat, s: nat)
    requires Enabled(st, step) && Waits(Next(st, step), t, s)
    requires !step.Open? && !step.Close? && !step.StoreRemainder? && !step.DropRemainder?
    requires !step.Notify? && !step.Walk?
    ensures t in st.waiters && s in st.socks && Next(st, step).waiters[t].sets == st.waiters[t].sets
    ensures Waits(st, t, s) || (step == RescanOne(t) && !ScanReady(st.socks[s], st.waiters[t].sets, s))
    ensures Next(st, step).socks[s].lastdata == st.socks[s].lastdata
  {
  }

  lemma VisitWaits(st: State, c: nat, s: nat, k: nat, t: nat, s2: nat)
    ensures VisitAt(st, c, s, k).socks == st.socks
    ensures t in VisitAt(st, c, s, k).waiters <==> t in st.waiters
    ensures t in st.waiters ==> VisitAt(st, c, s, k).waiters[t].sets == st.waiters[t].sets
    ensures Waits(VisitAt(st, c, s, k), t, s2) ==> Waits(st, t, s2)
  {
  }

  // ----- a run that loses a wake-up

  lemma {:induction false} Extend(st: State, steps: seq<Step>, st': State, step: Step)
    requires Reaches(st, steps, st') && Enabled(st', step)
    ensures Reaches(st, steps + [step], Next(st', step))
    decreases |steps|
  {
    if steps == [] {
      assert (steps + [step])[1..] == [];
    } else {
      Extend(Next(st, steps[0]), steps[1..], st', step);
      assert (steps + [step])[1..] == steps[1..] + [step];
    }
  }

  /** One more step, with the resulting state written out. */
  lemma Extended(steps: seq<Step>, st: State, step: Step, st': State)
    requires Reaches(INIT, steps, st) && Enabled(st, step)
    requires
      var n := Next(st, step);
      && st'.socks == n.socks && st'.list == n.list && st'.ctr == n.ctr
      && st'.waiters == n.waiters && st'.callbacks == n.callbacks
    ensures Reaches(INIT, steps + [step], st')
  {
    Extend(INIT, steps, st, step);
  }

  const READ_0 := Sets({0}, {}, {})
  const NO_SETS := Sets({}, {}, {})
  const IDLE := Sock(0, false, false, false, 0, 0)

  const CALL_0 := Waiter(READ_0, 1, Scan(0, false), false, 0)
  const CALL_1 := Waiter(NO_SETS, 0, Scan(0, false), false, 0)

  /** Thread 0 has scanned socket 0 and entered its call in the list. */
  lemma FirstRegisters() returns (steps: seq<Step>, st: State)
    ensures Reaches(INIT, steps, st)
    ensures st == State(map[0 := IDLE], [0], 1, map[0 := CALL_0.(phase := Count(0))], map[])
  {
    steps := [Open(0, false)];
    st := State(map[0 := IDLE], [], 0, map[], map[]);
    Extended([], INIT, Open(0, false), st);
    assert [] + steps == steps;
    var st' := st.(waiters := map[0 := CALL_0]);
    Extended(steps, st, Call(0, 1, READ_0), st');
    steps, st := steps + [Call(0, 1, READ_0)], st';
    st' := st.(waiters := map[0 := CALL_0.(phase := Scan(1, false))]);
    Extended(steps, st, ScanOne(0), st');
    steps, st := steps + [ScanOne(0)], st';
    st' := State(map[0 := IDLE], [0], 1, map[0 := CALL_0.(phase := Count(0))], map[]);
    Extended(steps, st, Register(0), st');
    steps, st := steps + [Register(0)], st';
  }

  /** It has counted itself. */
  lemma FirstCounts() returns (steps: seq<Step>, st: State)
    ensures Reaches(INIT, steps, st)
    ensures st == State(map[0 := IDLE.(waiting := 1)], [0], 1, map[0 := CALL_0.(phase := Rescan(0, false))], map[])
  {
    steps, st := FirstRegisters();
    var st' := st.(socks := map[0 := IDLE.(waiting := 1)], waiters := map[0 := CALL_0.(phase := Count(1))]);
    Extended(steps, st, CountOne(0), st');
    steps, st := steps + [CountOne(0)], st';
    st' := st.(waiters := map[0 := CALL_0.(phase := Rescan(0, false))]);
    Extended(steps, st, CountOne(0), st');
    steps, st := steps + [CountOne(0)], st';
  }

  /** Thread 0 blocks to read socket 0. */
  lemma FirstSelect() returns (steps: seq<Step>, st: State)
    ensures Reaches(INIT, steps, st)
    ensures st == State(map[0 := IDLE.(waiting := 1)], [0], 1, map[0 := CALL_0.(phase := Blocked)], map[])
  {
    steps, st := FirstCounts();
    var st' := st.(waiters := map[0 := CALL_0.(phase := Rescan(1, false))]);
    Extended(steps, st, RescanOne(0), st');
    steps, st := steps + [RescanOne(0)], st';
    st' := st.(waiters := map[0 := CALL_0.(phase := Blocked)]);
    Extended(steps, st, RescanOne(0), st');
    steps, st := steps + [RescanOne(0)], st';
  }

  const TWO_CALLS := map[0 := CALL_0.(phase := Blocked), 1 := CALL_1.(phase := Count(0))]

  /** Then thread 1 enters a select without sets. */
  lemma SecondSelect() returns (steps: seq<Step>, st: State)
    ensures Reaches(INIT, steps, st)
    ensures st == State(map[0 := IDLE.(waiting := 1)], [1, 0], 2, TWO_CALLS, map[])
  {
    steps, st := FirstSelect();
    var st' := st.(waiters := map[0 := CALL_0.(phase := Blocked), 1 := CALL_1]);
    Extended(steps, st, Call(1, 0, NO_SETS), st');
    steps, st := steps + [Call(1, 0, NO_SETS)], st';
    st' := st.(list := [1, 0], ctr := 2, waiters := TWO_CALLS);
    Extended(steps, st, Register(1), st');
    steps, st := steps + [Register(1)], st';
  }

  /** A message arrives on socket 0: its callback tests thread 1 first. */
  lemma MessageArrives() returns (steps: seq<Step>, st: State)
    ensures Reaches(INIT, steps, st)
    ensures st == State(map[0 := IDLE.(rcvevent := 1, waiting := 1)], [1, 0], 2, TWO_CALLS, map[0 := Callback(0, 1, 2)])
  {
    steps, st := SecondSelect();
    var st' := st.(socks := map[0 := IDLE.(rcvevent := 1, waiting := 1)], callbacks := map[0 := Callback(0, 1, 2)]);
    Extended(steps, st, Notify(0, 0, RcvPlus), st');
    steps, st := steps + [Notify(0, 0, RcvPlus)], st';
  }

  /** A callback that has tested thread 1 and does not find thread 0 ready ends with two more
      steps. */
  lemma CallbackEnds(steps: seq<Step>, st: State, c: nat) returns (steps': seq<Step>, st': State)
    requires Reaches(INIT, steps, st) && st.list == [1, 0] && st.ctr == 2
    requires c in st.callbacks && st.callbacks[c] == Callback(0, 1, 2)
    requires 0 in st.socks && 0 in st.waiters && !EventReady(st.socks[0], st.waiters[0].sets, 0)
    ensures Reaches(INIT, steps', st') && st' == st.(callbacks := st.callbacks - {c})
  {
    assert IndexOf(st.list, 1) == 0 && IndexOf(st.list, 0) == 1;
    var st1 := st.(callbacks := st.callbacks[c := Callback(0, 0, 2)]);
    WalkVisits(st, c, 1);
    Extend(INIT, steps, st, Walk(c));
    WalkEnds(st1, c);
    Extend(INIT, steps + [Walk(c)], st1, Walk(c));
    steps', st' := steps + [Walk(c)] + [Walk(c)], st.(callbacks := st.callbacks - {c});
    assert st1.callbacks - {c} == st.callbacks - {c};
  }

  /** Before that callback gets to thread 0, a recv in a third thread takes the message; the
      callback of that recv finds nothing ready and ends. */
  lemma MessageTaken() returns (steps: seq<Step>, st: State)
    ensures Reaches(INIT, steps, st)
    ensures st == State(map[0 := IDLE.(fetched := 1, waiting := 1)], [1, 0], 2, TWO_CALLS, map[0 := Callback(0, 1, 2)])
  {
    steps, st := MessageArrives();
    var taken := IDLE.(fetched := 1, waiting := 1);
    var st' := st.(socks := map[0 := taken], callbacks := map[0 := Callback(0, 1, 2), 1 := Callback(0, 1, 2)]);
    Extended(steps, st, Notify(1, 0, RcvMinus), st');
    steps, st := CallbackEnds(steps + [Notify(1, 0, RcvMinus)], st', 1);
    assert st'.callbacks - {1} == map[0 := Callback(0, 1, 2)];
  }

  /** The gap is real: the recv keeps part of the message, and the first callback finds nothing
      ready either. Thread 0 sleeps on although select would call its socket ready, and no
      callback is left to wake it. */
  lemma RemainderWakeupLost() returns (steps: seq<Step>, st: State)
    ensures Reaches(INIT, steps, st)
    ensures 0 in st.waiters && st.waiters[0].phase.Blocked? && !st.waiters[0].signalled
    ensures Waits(st, 0, 0) && ScanReady(st.socks[0], st.waiters[0].sets, 0)
    ensures st.callbacks == map[] && !WillBeSignalled(st, 0, 0)
  {
    steps, st := MessageTaken();
    var st' := st.(socks := map[0 := IDLE.(lastdata := true, waiting := 1)]);
    Extended(steps, st, StoreRemainder(0), st');
    steps, st := steps + [StoreRemainder(0)], st';
    steps, st := CallbackEnds(steps, st, 0);
    assert map[0 := Callback(0, 1, 2)] - {0} == map[];
  }
}
