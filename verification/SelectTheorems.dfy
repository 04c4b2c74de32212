/** No interleaving of select calls and event callbacks loses a wake-up. */
module SelectTheorems {
  import opened Basics
  import opened Select

  // ----- steps that change one call only

  /** Replacing the record of call t keeps the invariant if its place on the list and its
      share in the counters stay, and its own wake-ups are accounted for. */
  lemma ReplaceWaiter(st: State, t: nat, st': State)
    requires Inv(st) && t in st'.waiters && st' == st.(waiters := st.waiters[t := st'.waiters[t]])
    requires SemOk(st'.waiters[t])
    requires OnList(st'.waiters[t].phase) <==> t in st.list
    requires forall s :: Counted(st'.waiters[t], s) <==> t in CountedSet(st.waiters, s)
    requires forall s :: WakeupOk(st', t, s)
    ensures Inv(st')
  {
    forall u | u in st'.waiters ensures WaiterListed(st', u) {
      if u != t { assert WaiterListed(st, u); }
    }
    forall s ensures SockCounted(st', s) {
      assert SockCounted(st, s);
      assert CountedSet(st'.waiters, s) == CountedSet(st.waiters, s);
    }
    forall c | c in st'.callbacks ensures CallbackOk(st', c) {
      assert CallbackOk(st, c);
    }
    forall u, s ensures WakeupOk(st', u, s) {
      if u != t { OtherWakeup(st, st', u, s); }
    }
  }

  /** A wake-up obligation carries over when the call, the socket's events, the list, the
      counter and the callbacks are as before. */
  lemma OtherWakeup(st: State, st': State, u: nat, s: nat)
    requires WakeupOk(st, u, s)
    requires st'.list == st.list && st'.ctr == st.ctr && st'.callbacks == st.callbacks
    requires Waits(st', u, s) ==> Waits(st, u, s)
    requires Waits(st', u, s) && EventReady(st'.socks[s], st'.waiters[u].sets, s) ==>
      EventReady(st.socks[s], st.waiters[u].sets, s)
    ensures WakeupOk(st', u, s)
  {
    if Waits(st', u, s) && EventReady(st'.socks[s], st'.waiters[u].sets, s) {
      var c :| c in st.callbacks && st.callbacks[c].sock == s && Pending(st, c, u);
      assert Pending(st', c, u);
    }
  }

  lemma NotWaiting(st: State, t: nat)
    requires t in st.waiters && !st.waiters[t].phase.Blocked? && !st.waiters[t].phase.Rescan?
    ensures forall s :: WakeupOk(st, t, s)
  {
  }

  lemma CallKeeps(st: State, t: nat, maxfdp1: nat, sets: Sets)
    requires Inv(st) && Enabled(st, Call(t, maxfdp1, sets))
    ensures Inv(Next(st, Call(t, maxfdp1, sets)))
  {
    var st' := Next(st, Call(t, maxfdp1, sets));
    NotWaiting(st', t);
    assert t in st.waiters ==> WaiterListed(st, t);
    ReplaceWaiter(st, t, st');
  }

  lemma ScanKeeps(st: State, t: nat)
    requires Inv(st) && Enabled(st, ScanOne(t))
    ensures Inv(Next(st, ScanOne(t)))
  {
    var st' := Next(st, ScanOne(t));
    NotWaiting(st', t);
    assert WaiterListed(st, t);
    ReplaceWaiter(st, t, st');
  }

  lemma GiveUpKeeps(st: State, t: nat)
    requires Inv(st) && Enabled(st, GiveUp(t))
    ensures Inv(Next(st, GiveUp(t)))
  {
    var st' := Next(st, GiveUp(t));
    NotWaiting(st', t);
    assert WaiterListed(st, t);
    ReplaceWaiter(st, t, st');
  }

  lemma UnblockKeeps(st: State, step: Step)
    requires Inv(st) && (step.Wake? || step.Timeout?) && Enabled(st, step)
    ensures Inv(Next(st, step))
  {
    var t := step.t;
    var st' := Next(st, step);
    NotWaiting(st', t);
    assert WaiterListed(st, t);
    ReplaceWaiter(st, t, st');
  }

  /** The second scan: a socket found not ready needs no callback yet. */
  lemma RescanKeeps(st: State, t: nat)
    requires Inv(st) && Enabled(st, RescanOne(t))
    ensures Inv(Next(st, RescanOne(t)))
  {
    var st' := Next(st, RescanOne(t));
    assert WaiterListed(st, t);
    forall s ensures WakeupOk(st', t, s) {
      assert WakeupOk(st, t, s);
      if Waits(st', t, s) && EventReady(st'.socks[s], st'.waiters[t].sets, s) {
        assert Waits(st, t, s);
        OtherWakeup(st, st', t, s);
      }
    }
    ReplaceWaiter(st, t, st');
  }

  // ----- joining and leaving the list

  /** After a list change every callback in progress starts over, so it is on its way to all. */
  lemma AllPending(st: State, st': State, u: nat, s: nat)
    requires WakeupOk(st, u, s) && (forall c :: c in st.callbacks ==> CallbackOk(st, c))
    requires st'.callbacks == st.callbacks && st'.ctr == st.ctr + 1 && st'.socks == st.socks
    requires u in st.waiters && u in st'.waiters && st'.waiters[u] == st.waiters[u]
    ensures WakeupOk(st', u, s)
  {
    if Waits(st', u, s) && EventReady(st'.socks[s], st'.waiters[u].sets, s) {
      assert Waits(st, u, s);
      var c :| c in st.callbacks && st.callbacks[c].sock == s && Pending(st, c, u);
      assert CallbackOk(st, c);
      assert Pending(st', c, u);
    }
  }

  lemma ListChange(st: State, t: nat, st': State)
    requires Inv(st) && t in st.waiters && t in st'.waiters
    requires st' == st.(waiters := st.waiters[t := st'.waiters[t]], list := st'.list, ctr := st.ctr + 1)
    requires Distinct(st'.list) && forall u :: u != t ==> (u in st'.list <==> u in st.list)
    requires SemOk(st'.waiters[t])
    requires OnList(st'.waiters[t].phase) <==> t in st'.list
    requires forall s :: Counted(st'.waiters[t], s) <==> Counted(st.waiters[t], s)
    requires !st'.waiters[t].phase.Blocked? && !st'.waiters[t].phase.Rescan?
    ensures Inv(st')
  {
    forall u | u in st'.waiters ensures WaiterListed(st', u) {
      if u != t { assert WaiterListed(st, u); }
    }
    forall s ensures SockCounted(st', s) {
      assert SockCounted(st, s);
      assert CountedSet(st'.waiters, s) == CountedSet(st.waiters, s);
    }
    forall c | c in st'.callbacks ensures CallbackOk(st', c) {
      assert CallbackOk(st, c);
    }
    NotWaiting(st', t);
    forall u, s ensures WakeupOk(st', u, s) {
      assert WakeupOk(st, u, s);
      if u != t && u in st.waiters { AllPending(st, st', u, s); }
    }
  }

  lemma RegisterKeeps(st: State, t: nat)
    requires Inv(st) && Enabled(st, Register(t))
    ensures Inv(Next(st, Register(t)))
  {
    var st' := Next(st, Register(t));
    assert WaiterListed(st, t);
    ListChange(st, t, st');
  }

  lemma {:induction false} RemoveFacts(list: seq<nat>, t: nat)
    requires Distinct(list)
    ensures Distinct(Remove(list, t)) && t !in Remove(list, t)
    ensures forall u :: u != t ==> (u in Remove(list, t) <==> u in list)
    decreases |list|
  {
    if |list| > 0 {
      assert list == [list[0]] + list[1..];
      assert list[0] !in list[1..];
      if list[0] != t { RemoveFacts(list[1..], t); }
    }
  }

  lemma LeaveKeeps(st: State, t: nat)
    requires Inv(st) && Enabled(st, UncountOne(t)) && st.waiters[t].maxfdp1 <= st.waiters[t].phase.i
    ensures Inv(Next(st, UncountOne(t)))
  {
    var st' := Next(st, UncountOne(t));
    assert WaiterListed(st, t);
    RemoveFacts(st.list, t);
    ListChange(st, t, st');
  }

  // ----- the counter loops

  /** Call t moves in or out of the counted set of socket i, together with the counter. */
  lemma CountChange(st: State, t: nat, i: nat, d: int, st': State)
    requires Inv(st) && t in st.waiters && t in st'.waiters && i in st.socks
    requires st' == st.(waiters := st.waiters[t := st'.waiters[t]],
                        socks := st.socks[i := st.socks[i].(waiting := st.socks[i].waiting + d)])
    requires SemOk(st'.waiters[t])
    requires OnList(st'.waiters[t].phase) && OnList(st.waiters[t].phase)
    requires forall s :: s != i ==> (Counted(st'.waiters[t], s) <==> Counted(st.waiters[t], s))
    requires d == (if Counted(st'.waiters[t], i) then 1 else 0) - (if Counted(st.waiters[t], i) then 1 else 0)
    requires !st'.waiters[t].phase.Blocked? && !st'.waiters[t].phase.Rescan?
    ensures Inv(st')
  {
    forall u | u in st'.waiters ensures WaiterListed(st', u) {
      assert WaiterListed(st, u);
    }
    forall s ensures SockCounted(st', s) {
      assert SockCounted(st, s);
      CountedUpdate(st.waiters, t, st'.waiters[t], s);
    }
    forall c | c in st'.callbacks ensures CallbackOk(st', c) {
      assert CallbackOk(st, c);
    }
    NotWaiting(st', t);
    forall u, s ensures WakeupOk(st', u, s) {
      assert WakeupOk(st, u, s);
      if u != t { OtherWakeup(st, st', u, s); }
    }
  }

  lemma CountedUpdate(waiters: map<nat, Waiter>, t: nat, w: Waiter, s: nat)
    requires t in waiters
    ensures |CountedSet(waiters[t := w], s)| ==
      |CountedSet(waiters, s)| + (if Counted(w, s) then 1 else 0) - (if Counted(waiters[t], s) then 1 else 0)
    ensures (Counted(w, s) <==> Counted(waiters[t], s)) ==> CountedSet(waiters[t := w], s) == CountedSet(waiters, s)
  {
    var rest := CountedSet(waiters, s) - {t};
    assert CountedSet(waiters[t := w], s) == if Counted(w, s) then rest + {t} else rest;
    assert CountedSet(waiters, s) == if Counted(waiters[t], s) then rest + {t} else rest;
  }

  lemma CountKeeps(st: State, t: nat)
    requires Inv(st) && Enabled(st, CountOne(t))
    ensures Inv(Next(st, CountOne(t)))
  {
    var st' := Next(st, CountOne(t));
    var w := st.waiters[t];
    var i := w.phase.i;
    assert WaiterListed(st, t);
    if i < w.maxfdp1 && Member(w.sets, i) {
      CountChange(st, t, i, 1, st');
    } else {
      if i < w.maxfdp1 { NotWaiting(st', t); } else { assert forall s :: WakeupOk(st', t, s); }
      ReplaceWaiter(st, t, st');
    }
  }

  lemma UncountKeeps(st: State, t: nat)
    requires Inv(st) && Enabled(st, UncountOne(t)) && st.waiters[t].phase.i < st.waiters[t].maxfdp1
    ensures Inv(Next(st, UncountOne(t)))
  {
    var st' := Next(st, UncountOne(t));
    var w := st.waiters[t];
    var i := w.phase.i;
    assert WaiterListed(st, t);
    if Member(w.sets, i) {
      assert SockCounted(st, i) && t in CountedSet(st.waiters, i);
      CountChange(st, t, i, -1, st');
    } else {
      NotWaiting(st', t);
      ReplaceWaiter(st, t, st');
    }
  }

  // ----- callbacks

  /** The wake-up of u for s2 is owed to a callback other than c, or c is going to visit u
      when it continues its walk for s at position k. */
  ghost predicate OwedAt(st: State, c: nat, s: nat, k: nat, u: nat, s2: nat) {
    Waits(st, u, s2) && EventReady(st.socks[s2], st.waiters[u].sets, s2) ==>
      || (exists d :: d in st.callbacks && d != c && st.callbacks[d].sock == s2 && Pending(st, d, u))
      || (s2 == s && k <= IndexOf(st.list, u))
  }

  lemma WaiterOnList(st: State, u: nat, s: nat)
    requires ListOk(st) && Waits(st, u, s)
    ensures u in st.list && IndexOf(st.list, u) < |st.list|
    ensures Counted(st.waiters[u], s)
  {
    assert WaiterListed(st, u);
  }

  lemma SameIndex(list: seq<nat>, k: nat)
    requires Distinct(list) && k < |list|
    ensures IndexOf(list, list[k]) == k
  {
  }

  lemma VisitAtKeeps(st: State, c: nat, s: nat, k: nat)
    requires ListOk(st) && s in st.socks
    requires forall t :: t in st.waiters ==> SemOk(st.waiters[t])
    requires forall s2 :: SockCounted(st, s2)
    requires forall d :: d in st.callbacks && d != c ==> CallbackOk(st, d)
    requires forall u, s2 :: OwedAt(st, c, s, k, u, s2)
    ensures Inv(VisitAt(st, c, s, k))
  {
    var st' := VisitAt(st, c, s, k);
    VisitAtList(st, c, s, k);
    forall s2 ensures SockCounted(st', s2) {
      assert SockCounted(st, s2);
      assert CountedSet(st'.waiters, s2) == CountedSet(st.waiters, s2);
    }
    forall d | d in st'.callbacks ensures CallbackOk(st', d) {
      if d != c { assert CallbackOk(st, d); }
    }
    forall u, s2 ensures WakeupOk(st', u, s2) {
      VisitWakeup(st, c, s, k, u, s2);
    }
  }

  lemma VisitAtList(st: State, c: nat, s: nat, k: nat)
    requires ListOk(st) && s in st.socks
    requires forall t :: t in st.waiters ==> SemOk(st.waiters[t])
    ensures ListOk(VisitAt(st, c, s, k))
    ensures forall t :: t in VisitAt(st, c, s, k).waiters ==> SemOk(VisitAt(st, c, s, k).waiters[t])
  {
    var st' := VisitAt(st, c, s, k);
    forall u | u in st'.waiters ensures WaiterListed(st', u) {
      assert WaiterListed(st, u);
    }
  }

  lemma VisitWakeup(st: State, c: nat, s: nat, k: nat, u: nat, s2: nat)
    requires ListOk(st) && s in st.socks && OwedAt(st, c, s, k, u, s2)
    ensures WakeupOk(VisitAt(st, c, s, k), u, s2)
  {
    var st' := VisitAt(st, c, s, k);
    if Waits(st', u, s2) && EventReady(st'.socks[s2], st'.waiters[u].sets, s2) {
      assert Waits(st, u, s2);
      WaiterOnList(st, u, s2);
      if d :| d in st.callbacks && d != c && st.callbacks[d].sock == s2 && Pending(st, d, u) {
        assert d in st'.callbacks && Pending(st', d, u);
      } else {
        SameIndex(st.list, k);
        assert Pending(st', c, u);
      }
    }
  }

  lemma WalkKeeps(st: State, c: nat)
    requires Inv(st) && Enabled(st, Walk(c))
    ensures Inv(Next(st, Walk(c)))
  {
    var cb := st.callbacks[c];
    assert CallbackOk(st, c);
    var k := if cb.last != st.ctr then 0 else IndexOf(st.list, cb.scb) + 1;
    forall u, s2 ensures OwedAt(st, c, cb.sock, k, u, s2) {
      assert WakeupOk(st, u, s2);
      if Waits(st, u, s2) && EventReady(st.socks[s2], st.waiters[u].sets, s2) {
        var d :| d in st.callbacks && st.callbacks[d].sock == s2 && Pending(st, d, u);
      }
    }
    VisitAtKeeps(st, c, cb.sock, k);
  }

  lemma NotifyKeeps(st: State, c: nat, s: nat, e: Event)
    requires Inv(st) && Enabled(st, Notify(c, s, e))
    ensures Inv(Next(st, Notify(c, s, e)))
  {
    var st1 := st.(socks := st.socks[s := Happens(st.socks[s], e)]);
    EventBase(st, s, st1);
    forall u, s2 ensures OwedAt(st1, c, s, 0, u, s2) {
      assert WakeupOk(st, u, s2);
      if Waits(st1, u, s2) && EventReady(st1.socks[s2], st1.waiters[u].sets, s2) && s2 != s {
        var d :| d in st.callbacks && st.callbacks[d].sock == s2 && Pending(st, d, u);
        assert Pending(st1, d, u);
      }
    }
    if st1.socks[s].waiting == 0 {
      NobodyWaits(st, s, st1);
    } else {
      VisitAtKeeps(st1, c, s, 0);
    }
  }

  lemma EventBase(st: State, s: nat, st1: State)
    requires Inv(st) && s in st.socks && s in st1.socks
    requires st1 == st.(socks := st.socks[s := st1.socks[s]]) && st1.socks[s].waiting == st.socks[s].waiting
    ensures ListOk(st1)
    ensures forall s2 :: SockCounted(st1, s2)
    ensures forall d :: d in st1.callbacks ==> CallbackOk(st1, d)
  {
    forall u | u in st1.waiters ensures WaiterListed(st1, u) { assert WaiterListed(st, u); }
    forall s2 ensures SockCounted(st1, s2) { assert SockCounted(st, s2); }
    forall d | d in st1.callbacks ensures CallbackOk(st1, d) { assert CallbackOk(st, d); }
  }

  /** The early return of event_callback is safe: nobody has counted itself, so nobody has
      finished the second scan of this socket. */
  lemma NobodyWaits(st: State, s: nat, st1: State)
    requires Inv(st) && s in st.socks && s in st1.socks && ListOk(st1)
    requires st1 == st.(socks := st.socks[s := st1.socks[s]]) && st1.socks[s].waiting == st.socks[s].waiting == 0
    requires forall s2 :: SockCounted(st1, s2)
    requires forall d :: d in st1.callbacks ==> CallbackOk(st1, d)
    ensures Inv(st1)
  {
    assert SockCounted(st, s);
    forall u, s2 ensures WakeupOk(st1, u, s2) {
      assert WakeupOk(st, u, s2);
      assert u !in CountedSet(st.waiters, s);
      if s2 == s {
        if Waits(st, u, s) {
          WaiterOnList(st, u, s);
          assert false;
        }
      } else {
        OtherWakeup(st, st1, u, s2);
      }
    }
  }

  // ----- steps that change sockets only

  lemma SocketsKeep(st: State, step: Step)
    requires Inv(st) && Enabled(st, step)
    requires step.Open? || step.Close? || step.StoreRemainder? || step.DropRemainder?
    ensures Inv(Next(st, step))
  {
    var st' := Next(st, step);
    forall u | u in st'.waiters ensures WaiterListed(st', u) { assert WaiterListed(st, u); }
    forall s ensures SockCounted(st', s) { assert SockCounted(st, s); }
    forall d | d in st'.callbacks ensures CallbackOk(st', d) { assert CallbackOk(st, d); }
    forall u, s ensures WakeupOk(st', u, s) {
      assert WakeupOk(st, u, s);
      assert SockCounted(st, s);
      if Waits(st', u, s) { WaiterOnList(st', u, s); }
      assert Waits(st', u, s) ==> u in CountedSet(st.waiters, s);
      OtherWakeup(st, st', u, s);
    }
  }

  // ----- all runs

  lemma StepKeeps(st: State, step: Step)
    requires Inv(st) && Enabled(st, step)
    ensures Inv(Next(st, step))
  {
    match step
    case Call(t, maxfdp1, sets) => CallKeeps(st, t, maxfdp1, sets);
    case ScanOne(t) => ScanKeeps(st, t);
    case Register(t) => RegisterKeeps(st, t);
    case GiveUp(t) => GiveUpKeeps(st, t);
    case CountOne(t) => CountKeeps(st, t);
    case RescanOne(t) => RescanKeeps(st, t);
    case Wake(t) => UnblockKeeps(st, step);
    case Timeout(t) => UnblockKeeps(st, step);
    case UncountOne(t) =>
      if st.waiters[t].phase.i < st.waiters[t].maxfdp1 { UncountKeeps(st, t); } else { LeaveKeeps(st, t); }
    case Notify(c, s, e) => NotifyKeeps(st, c, s, e);
    case Walk(c) => WalkKeeps(st, c);
    case Open(_, _) => SocketsKeep(st, step);
    case Close(_) => SocketsKeep(st, step);
    case StoreRemainder(_) => SocketsKeep(st, step);
    case DropRemainder(_) => SocketsKeep(st, step);
  }

  lemma {:induction false} RunKeeps(st: State, steps: seq<Step>, st': State)
    requires Inv(st) && Reaches(st, steps, st')
    ensures Inv(st')
    decreases |steps|
  {
    if steps != [] {
      StepKeeps(st, steps[0]);
      RunKeeps(Next(st, steps[0]), steps[1..], st');
    }
  }

  lemma InitInv()
    ensures Inv(INIT)
  {
  }

  /** No lost wake-up, in every interleaving: a call that is blocked and unsignalled while one
      of its sockets is ready has a callback for that socket still to come. */
  lemma NoLostWakeup(steps: seq<Step>, st: State, t: nat, s: nat)
    requires Reaches(INIT, steps, st)
    requires t in st.waiters && st.waiters[t].phase.Blocked? && !st.waiters[t].signalled
    requires s in st.socks && Interested(st.waiters[t], s) && EventReady(st.socks[s], st.waiters[t].sets, s)
    ensures exists c :: c in st.callbacks && st.callbacks[c].sock == s && Pending(st, c, t)
  {
    InitInv();
    RunKeeps(INIT, steps, st);
    assert WakeupOk(st, t, s);
  }

  /** A callback that continues its walk never follows the link of a call that has left. */
  lemma NoDanglingLink(steps: seq<Step>, st: State, c: nat)
    requires Reaches(INIT, steps, st) && c in st.callbacks && st.callbacks[c].last == st.ctr
    ensures st.callbacks[c].scb in st.list
    ensures st.callbacks[c].scb in st.waiters && !st.waiters[st.callbacks[c].scb].phase.Returned?
  {
    InitInv();
    RunKeeps(INIT, steps, st);
    assert CallbackOk(st, c);
    assert WaiterListed(st, st.callbacks[c].scb);
  }

  /** select_waiting never goes negative, and is zero exactly when no call counts on it. */
  lemma WaitingCounterExact(steps: seq<Step>, st: State, s: nat)
    requires Reaches(INIT, steps, st) && s in st.socks
    ensures st.socks[s].waiting >= 0
    ensures st.socks[s].waiting == 0 <==> forall t :: t in st.waiters ==> !Counted(st.waiters[t], s)
  {
    InitInv();
    RunKeeps(INIT, steps, st);
    assert SockCounted(st, s);
    if t :| t in st.waiters && Counted(st.waiters[t], s) {
      assert t in CountedSet(st.waiters, s);
    } else {
      assert CountedSet(st.waiters, s) == {};
    }
  }
}
