/** lwip_select and event_callback as an interleaving of their critical sections
    (SYS_ARCH_PROTECT ... SYS_ARCH_UNPROTECT), for any number of threads and sockets. */
module Select {
  import opened Basics

  /** The part of struct lwip_sock that select uses. lastdata says that a partly read
      message is kept; fetched counts messages taken by recv but not stored or dropped yet. */
  datatype Sock = Sock(rcvevent: int, sendevent: bool, errevent: bool, lastdata: bool, fetched: nat, waiting: int)

  /** The three fd_sets of a call (a NULL set is empty). */
  datatype Sets = Sets(read: set<nat>, write: set<nat>, except: set<nat>)

  /** Where a call of lwip_select is. Scans and counter loops carry the next socket index. */
  datatype Phase =
    | Scan(i: nat, ready: bool)        // first lwip_selscan
    | Count(i: nat)                    // incrementing select_waiting, already on the list
    | Rescan(i: nat, ready: bool)      // second lwip_selscan
    | Blocked                          // sys_arch_sem_wait
    | Uncount(i: nat)                  // decrementing select_waiting
    | Returned

  /** A call of lwip_select with its struct lwip_select_cb. */
  datatype Waiter = Waiter(sets: Sets, maxfdp1: nat, phase: Phase, signalled: bool, sem: nat)

  /** event_callback between two critical sections: its socket, the list element it visited
      last, and the value of select_cb_ctr it remembered there. */
  datatype Callback = Callback(sock: nat, scb: nat, last: nat)

  /** list is select_cb_list, by thread; ctr is select_cb_ctr. */
  datatype State = State(
    socks: map<nat, Sock>, list: seq<nat>, ctr: nat,
    waiters: map<nat, Waiter>, callbacks: map<nat, Callback>)

  datatype Event = RcvPlus | RcvMinus | SendPlus | SendMinus | Error

  datatype Step =
    | Open(s: nat, writable: bool)
    | Close(s: nat)
    | Call(t: nat, maxfdp1: nat, sets: Sets)
    | ScanOne(t: nat)
    | Register(t: nat)
    | GiveUp(t: nat)
    | CountOne(t: nat)
    | RescanOne(t: nat)
    | Wake(t: nat)
    | Timeout(t: nat)
    | UncountOne(t: nat)
    | Notify(c: nat, s: nat, e: Event)
    | Walk(c: nat)
    | StoreRemainder(s: nat)
    | DropRemainder(s: nat)

  // ----- the tests the code makes

  predicate Member(sets: Sets, s: nat) {
    s in sets.read || s in sets.write || s in sets.except
  }

  predicate Interested(w: Waiter, s: nat) {
    s < w.maxfdp1 && Member(w.sets, s)
  }

  /** The test of lwip_selscan. */
  predicate ScanReady(k: Sock, sets: Sets, s: nat) {
    || (s in sets.read && (k.lastdata || k.rcvevent > 0))
    || (s in sets.write && k.sendevent)
    || (s in sets.except && k.errevent)
  }

  /** The test of event_callback. */
  predicate EventReady(k: Sock, sets: Sets, s: nat) {
    || (k.rcvevent > 0 && s in sets.read)
    || (k.sendevent && s in sets.write)
    || (k.errevent && s in sets.except)
  }

  /** The call is on select_cb_list. */
  predicate OnList(p: Phase) {
    p.Count? || p.Rescan? || p.Blocked? || p.Uncount?
  }

  /** The call has raised select_waiting of s and not lowered it yet. */
  predicate Counted(w: Waiter, s: nat) {
    && Interested(w, s)
    && match w.phase
       case Count(i) => s < i
       case Rescan(_, _) => true
       case Blocked => true
       case Uncount(i) => i <= s
       case _ => false
  }

  function Remove(list: seq<nat>, t: nat): seq<nat> {
    if |list| == 0 then [] else if list[0] == t then list[1..] else [list[0]] + Remove(list[1..], t)
  }

  // ----- the critical sections

  function SetPhase(st: State, t: nat, p: Phase): State
    requires t in st.waiters
  {
    st.(waiters := st.waiters[t := st.waiters[t].(phase := p)])
  }

  function AddWaiting(st: State, s: nat, d: int): State {
    if s !in st.socks then st else
    st.(socks := st.socks[s := st.socks[s].(waiting := st.socks[s].waiting + d)])
  }

  /** Test one list element and signal its semaphore at most once. */
  function Visit(st: State, s: nat, t: nat): State
    requires s in st.socks && t in st.waiters
  {
    var w := st.waiters[t];
    if !w.signalled && EventReady(st.socks[s], w.sets, s) then
      st.(waiters := st.waiters[t := w.(signalled := true, sem := w.sem + 1)])
    else st
  }

  /** Continue the walk of callback c at position k of the list, or end it. */
  function VisitAt(st: State, c: nat, s: nat, k: nat): State {
    if k < |st.list| && s in st.socks && st.list[k] in st.waiters then
      var t := st.list[k];
      Visit(st, s, t).(callbacks := st.callbacks[c := Callback(s, t, st.ctr)])
    else st.(callbacks := st.callbacks - {c})
  }

  function Happens(k: Sock, e: Event): Sock {
    match e
    case RcvPlus => k.(rcvevent := k.rcvevent + 1)
    case RcvMinus => k.(rcvevent := k.rcvevent - 1, fetched := k.fetched + 1)
    case SendPlus => k.(sendevent := true)
    case SendMinus => k.(sendevent := false)
    case Error => k.(errevent := true)
  }

  ghost predicate Enabled(st: State, step: Step) {
    match step
    case Open(s, _) => s !in st.socks
    case Close(s) =>
      && s in st.socks
      && (forall t :: t in st.waiters ==> !Counted(st.waiters[t], s))
      && (forall c :: c in st.callbacks ==> st.callbacks[c].sock != s)
    case Call(t, _, _) => t in st.waiters ==> st.waiters[t].phase.Returned?
    case ScanOne(t) => t in st.waiters && st.waiters[t].phase.Scan? && st.waiters[t].phase.i < st.waiters[t].maxfdp1
    case Register(t) => t in st.waiters && st.waiters[t].phase == Scan(st.waiters[t].maxfdp1, false)
    case GiveUp(t) => t in st.waiters && st.waiters[t].phase.Scan? && st.waiters[t].phase.i == st.waiters[t].maxfdp1
    case CountOne(t) =>
      && t in st.waiters && st.waiters[t].phase.Count?
      && var i := st.waiters[t].phase.i;
      && (i < st.waiters[t].maxfdp1 && Member(st.waiters[t].sets, i) ==> i in st.socks)
    case RescanOne(t) => t in st.waiters && st.waiters[t].phase.Rescan?
    case Wake(t) => t in st.waiters && st.waiters[t].phase.Blocked? && 0 < st.waiters[t].sem
    case Timeout(t) => t in st.waiters && st.waiters[t].phase.Blocked?
    case UncountOne(t) => t in st.waiters && st.waiters[t].phase.Uncount?
    case Notify(c, s, _) => c !in st.callbacks && s in st.socks
    case Walk(c) => c in st.callbacks
    case StoreRemainder(s) => s in st.socks && 0 < st.socks[s].fetched
    case DropRemainder(s) => s in st.socks
  }

  /** Effect of one critical section. */
  ghost function Next(st: State, step: Step): State
    requires Enabled(st, step)
  {
    match step
    case Open(s, writable) => st.(socks := st.socks[s := Sock(0, writable, false, false, 0, 0)])
    case Close(s) => st.(socks := st.socks - {s})
    case Call(t, maxfdp1, sets) => st.(waiters := st.waiters[t := Waiter(sets, maxfdp1, Scan(0, false), false, 0)])
    case ScanOne(t) =>
      var w := st.waiters[t];
      var i := w.phase.i;
      SetPhase(st, t, Scan(i + 1, w.phase.ready || (i in st.socks && ScanReady(st.socks[i], w.sets, i))))
    case Register(t) => SetPhase(st, t, Count(0)).(list := [t] + st.list, ctr := st.ctr + 1)
    case GiveUp(t) => SetPhase(st, t, Returned)
    case CountOne(t) => NextCount(st, t)
    case RescanOne(t) => NextRescan(st, t)
    case Wake(t) =>
      var w := st.waiters[t];
      st.(waiters := st.waiters[t := w.(phase := Uncount(0), sem := w.sem - 1)])
    case Timeout(t) => SetPhase(st, t, Uncount(0))
    case UncountOne(t) => NextUncount(st, t)
    case Notify(c, s, e) =>
      var st1 := st.(socks := st.socks[s := Happens(st.socks[s], e)]);
      if st1.socks[s].waiting == 0 then st1 else VisitAt(st1, c, s, 0)
    case Walk(c) =>
      var cb := st.callbacks[c];
      VisitAt(st, c, cb.sock, if cb.last != st.ctr then 0 else IndexOf(st.list, cb.scb) + 1)
    case StoreRemainder(s) =>
      st.(socks := st.socks[s := st.socks[s].(lastdata := true, fetched := st.socks[s].fetched - 1)])
    case DropRemainder(s) => st.(socks := st.socks[s := st.socks[s].(lastdata := false)])
  }

  function NextCount(st: State, t: nat): State
    requires t in st.waiters && st.waiters[t].phase.Count?
  {
    var w := st.waiters[t];
    var i := w.phase.i;
    if i < w.maxfdp1 then
      SetPhase(if Member(w.sets, i) then AddWaiting(st, i, 1) else st, t, Count(i + 1))
    else SetPhase(st, t, Rescan(0, false))
  }

  function NextRescan(st: State, t: nat): State
    requires t in st.waiters && st.waiters[t].phase.Rescan?
  {
    var w := st.waiters[t];
    var i := w.phase.i;
    if i < w.maxfdp1 then
      SetPhase(st, t, Rescan(i + 1, w.phase.ready || (i in st.socks && ScanReady(st.socks[i], w.sets, i))))
    else SetPhase(st, t, if w.phase.ready then Uncount(0) else Blocked)
  }

  function NextUncount(st: State, t: nat): State
    requires t in st.waiters && st.waiters[t].phase.Uncount?
  {
    var w := st.waiters[t];
    var i := w.phase.i;
    if i < w.maxfdp1 then
      SetPhase(if Member(w.sets, i) then AddWaiting(st, i, -1) else st, t, Uncount(i + 1))
    else SetPhase(st, t, Returned).(list := Remove(st.list, t), ctr := st.ctr + 1)
  }

  const INIT := State(map[], [], 0, map[], map[])

  /** st' is reached from st by the given critical sections. */
  ghost predicate Reaches(st: State, steps: seq<Step>, st': State)
    decreases |steps|
  {
    if steps == [] then st == st'
    else Enabled(st, steps[0]) && Reaches(Next(st, steps[0]), steps[1..], st')
  }

  // ----- the invariant

  ghost predicate WaiterListed(st: State, t: nat) {
    t in st.waiters && (t in st.list <==> OnList(st.waiters[t].phase))
  }

  ghost predicate ListOk(st: State) {
    && Distinct(st.list)
    && (forall t :: t in st.list ==> t in st.waiters)
    && (forall t :: t in st.waiters ==> WaiterListed(st, t))
  }

  ghost function CountedSet(waiters: map<nat, Waiter>, s: nat): set<nat> {
    set t | t in waiters && Counted(waiters[t], s)
  }

  /** select_waiting is the number of calls that have counted themselves. */
  ghost predicate SockCounted(st: State, s: nat) {
    if s in st.socks then st.socks[s].waiting == |CountedSet(st.waiters, s)| else CountedSet(st.waiters, s) == {}
  }

  /** A callback whose remembered counter is current stands on a list element, so the next
      link it follows is never that of a select call that has returned. */
  ghost predicate CallbackOk(st: State, c: nat) {
    && c in st.callbacks
    && st.callbacks[c].sock in st.socks
    && st.callbacks[c].last <= st.ctr
    && (st.callbacks[c].last == st.ctr ==> st.callbacks[c].scb in st.list)
  }

  /** Callback c will still test list element t. */
  ghost predicate Pending(st: State, c: nat, t: nat)
    requires c in st.callbacks
  {
    st.callbacks[c].last != st.ctr || IndexOf(st.list, st.callbacks[c].scb) < IndexOf(st.list, t)
  }

  ghost predicate HasPending(st: State, t: nat, s: nat) {
    exists c :: c in st.callbacks && st.callbacks[c].sock == s && Pending(st, c, t)
  }

  /** The call has found s not ready in its second scan and has not been signalled. */
  ghost predicate Waits(st: State, t: nat, s: nat) {
    && t in st.waiters && s in st.socks
    && Interested(st.waiters[t], s)
    && !st.waiters[t].signalled
    && match st.waiters[t].phase
       case Rescan(i, ready) => !ready && s < i
       case Blocked => true
       case _ => false
  }

  /** No wake-up is lost: while s is ready, a callback for s is still on its way to t. */
  ghost predicate WakeupOk(st: State, t: nat, s: nat) {
    Waits(st, t, s) && EventReady(st.socks[s], st.waiters[t].sets, s) ==> HasPending(st, t, s)
  }

  /** The semaphore has been signalled at most once, as sem_signalled says; until the wait is over
      it has not been taken. */
  ghost predicate SemOk(w: Waiter) {
    && w.sem <= 1 && (w.sem == 1 ==> w.signalled)
    && (w.phase.Uncount? || w.phase.Returned? || (w.signalled ==> w.sem == 1))
  }

  ghost predicate Inv(st: State) {
    && ListOk(st)
    && (forall t :: t in st.waiters ==> SemOk(st.waiters[t]))
    && (forall s :: SockCounted(st, s))
    && (forall c :: c in st.callbacks ==> CallbackOk(st, c))
    && (forall t, s :: WakeupOk(st, t, s))
  }
}
