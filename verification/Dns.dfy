/** The table of DNS queries (dns.c): retries, answers and the reuse of entries. */
module Dns {
  import opened Basics

  const DNS_MAX_RETRIES: nat := 4
  const DNS_MAX_TTL: nat := 604800

  datatype State = Unused | New | Asking | Done

  /** struct dns_table_entry; found == 0 is no callback. */
  datatype Entry = Entry(state: State, numdns: nat, tmr: nat, retries: nat, seqno: nat, ttl: nat, found: nat) {
    predicate Pending() { state.New? || state.Asking? }

    /** A pending entry waits for its timer. */
    predicate Valid() {
      seqno < U8 && (state.Asking? ==> 1 <= tmr && retries < DNS_MAX_RETRIES)
    }
  }

  /** A callback with an address, or with NULL. */
  datatype Answer = Found(address: nat) | Failed

  datatype Call = Call(id: nat, answer: Answer)

  // ----- one tick of an entry

  /** Configured servers behind server n, up to the first that is not configured. */
  function MoreServers(servers: seq<bool>, n: nat): nat
    decreases |servers| - n
  {
    if n + 1 < |servers| && servers[n + 1] then 1 + MoreServers(servers, n + 1) else 0
  }

  /** Ticks until the current server is given up. */
  function TicksHere(tmr: nat, retries: nat): nat {
    tmr + match retries
          case 0 => 1 + 2 + 3
          case 1 => 2 + 3
          case 2 => 3
          case _ => 0
  }

  /** Ticks until an unanswered query fails. */
  function TicksLeft(e: Entry, servers: seq<bool>): nat {
    TicksHere(e.tmr, e.retries) + 7 * MoreServers(servers, e.numdns)
  }

  /** Queries still to be sent for an unanswered entry. */
  function SendsLeft(e: Entry, servers: seq<bool>): int {
    3 - e.retries + 3 * MoreServers(servers, e.numdns)
  }

  /** Ticks until an unanswered query fails. */
  function Lifetime(servers: seq<bool>): nat {
    7 * (1 + MoreServers(servers, 0))
  }

  datatype Outcome = Outcome(entry: Entry, sends: bool, fails: bool)

  /** dns_check_entry. */
  function CheckEntry(e: Entry, servers: seq<bool>): Outcome {
    match e.state
    case Unused => Outcome(e, false, false)
    case New => Outcome(e.(state := Asking, numdns := 0, tmr := 1, retries := 0), true, false)
    case Done =>
      var ttl := (e.ttl - 1) % U32;
      Outcome(if ttl == 0 then e.(ttl := 0, state := Unused, found := 0) else e.(ttl := ttl), false, false)
    case Asking =>
      var tmr := (e.tmr - 1) % U8;
      if tmr != 0 then Outcome(e.(tmr := tmr), false, false)
      else if e.retries + 1 == DNS_MAX_RETRIES then
        if e.numdns + 1 < |servers| && servers[e.numdns + 1] then
          Outcome(e.(numdns := e.numdns + 1, tmr := 1, retries := 0), false, false)
        else
          Outcome(e.(tmr := 0, retries := e.retries + 1, state := Unused, found := 0), false, true)
      else
        Outcome(e.(retries := e.retries + 1, tmr := e.retries + 1), true, false)
  }

  /** Every tick of a waiting entry brings its end one tick nearer, and the entry fails in the
      tick that reaches it. */
  lemma TickCounts(e: Entry, servers: seq<bool>)
    requires e.state.Asking? && e.Valid() && e.tmr < U8
    ensures
      var o := CheckEntry(e, servers);
      && (o.fails <==> TicksLeft(e, servers) == 1)
      && (!o.fails ==> o.entry.state.Asking? && o.entry.Valid() && o.entry.tmr < U8)
      && (!o.fails ==> TicksLeft(o.entry, servers) == TicksLeft(e, servers) - 1)
      && (!o.fails ==> SendsLeft(o.entry, servers) == SendsLeft(e, servers) - if o.sends then 1 else 0)
      && (o.fails ==> SendsLeft(e, servers) == 0 && !o.sends)
  {
  }

  /** Only pending entries send, and only waiting ones fail. An entry that ends forgets its callback;
      a pending one keeps it, its sequence number and its time to live; an unused one stays as it is. */
  lemma TickLeaves(e: Entry, servers: seq<bool>)
    ensures
      var o := CheckEntry(e, servers);
      && (o.sends ==> e.state.New? || e.state.Asking?) && (o.fails ==> e.state.Asking?)
      && (e.state.Unused? ==> o.entry == e) && (e.state.New? ==> o.sends)
      && (o.entry.state.Unused? && !e.state.Unused? ==> o.entry.found == 0 && (o.fails <==> e.state.Asking?))
      && (!o.entry.state.Unused? ==> o.entry.found == e.found)
      && o.entry.seqno == e.seqno && (!e.state.Done? ==> o.entry.ttl == e.ttl)
  {
  }

  /** The entry after n ticks without an answer. */
  function Ticks(e: Entry, servers: seq<bool>, n: nat): Entry {
    if n == 0 then e else CheckEntry(Ticks(e, servers, n - 1), servers).entry
  }

  lemma {:induction false} TicksWait(e: Entry, servers: seq<bool>, n: nat)
    requires e.state.Asking? && e.Valid() && e.tmr < U8 && n < TicksLeft(e, servers)
    ensures
      var r := Ticks(e, servers, n);
      r.state.Asking? && r.Valid() && r.tmr < U8 && TicksLeft(r, servers) == TicksLeft(e, servers) - n
  {
    if n > 0 {
      TicksWait(e, servers, n - 1);
      TickCounts(Ticks(e, servers, n - 1), servers);
    }
  }

  /** An unanswered query waits for exactly 7 ticks per configured server, and then fails. */
  lemma {:induction false} UnansweredEnds(e: Entry, servers: seq<bool>)
    requires e.state.New? && e.Valid()
    ensures
      var asked := CheckEntry(e, servers).entry;
      var n := Lifetime(servers);
      && (forall k :: 0 <= k < n ==> Ticks(asked, servers, k).state.Asking?)
      && Ticks(asked, servers, n).state.Unused?
  {
    var asked := CheckEntry(e, servers).entry;
    var n := Lifetime(servers);
    assert TicksLeft(asked, servers) == n;
    forall k | 0 <= k < n ensures Ticks(asked, servers, k).state.Asking? { TicksWait(asked, servers, k); }
    TicksWait(asked, servers, n - 1);
    TickCounts(Ticks(asked, servers, n - 1), servers);
  }

  // ----- when and where queries are sent

  /** Queries that are sent in the next n ticks. */
  function SentIn(e: Entry, servers: seq<bool>, n: nat): nat {
    if n == 0 then 0
    else SentIn(e, servers, n - 1) + if CheckEntry(Ticks(e, servers, n - 1), servers).sends then 1 else 0
  }

  lemma {:induction false} SentSoFar(e: Entry, servers: seq<bool>, n: nat)
    requires e.state.Asking? && e.Valid() && e.tmr < U8 && n < TicksLeft(e, servers)
    ensures SentIn(e, servers, n) == SendsLeft(e, servers) - SendsLeft(Ticks(e, servers, n), servers)
  {
    if n > 0 {
      SentSoFar(e, servers, n - 1);
      TicksWait(e, servers, n - 1);
      TickCounts(Ticks(e, servers, n - 1), servers);
    }
  }

  /** The first query is sent at once, and before an unanswered query fails three more per server. */
  lemma QueriesSent(e: Entry, servers: seq<bool>)
    requires e.state.New? && e.Valid()
    ensures CheckEntry(e, servers).sends
    ensures SentIn(CheckEntry(e, servers).entry, servers, Lifetime(servers)) == 3 * (1 + MoreServers(servers, 0))
  {
    var asked, n := CheckEntry(e, servers).entry, Lifetime(servers);
    SentSoFar(asked, servers, n - 1);
    TicksWait(asked, servers, n - 1);
    TickCounts(Ticks(asked, servers, n - 1), servers);
  }

  /** Server numdns has been reached through configured servers, and its timer is within its try. */
  ghost predicate InSchedule(e: Entry, servers: seq<bool>) {
    && e.state.Asking? && e.Valid() && e.tmr < U8
    && MoreServers(servers, 0) == e.numdns + MoreServers(servers, e.numdns)
    && e.tmr <= if e.retries == 0 then 1 else e.retries
  }

  lemma ScheduleStep(e: Entry, servers: seq<bool>)
    requires InSchedule(e, servers) && !CheckEntry(e, servers).fails
    ensures InSchedule(CheckEntry(e, servers).entry, servers)
  {
    TickCounts(e, servers);
  }

  lemma {:induction false} ScheduleKept(e: Entry, servers: seq<bool>, n: nat)
    requires InSchedule(e, servers) && n < TicksLeft(e, servers)
    ensures InSchedule(Ticks(e, servers, n), servers)
  {
    if n > 0 {
      ScheduleKept(e, servers, n - 1);
      TicksWait(e, servers, n - 1);
      var r := Ticks(e, servers, n - 1);
      TickCounts(r, servers);
      ScheduleStep(r, servers);
    }
  }

  /** The configured servers are asked in order, 7 ticks each. */
  lemma ServerAsked(e: Entry, servers: seq<bool>, n: nat)
    requires e.state.New? && e.Valid() && n < Lifetime(servers)
    ensures Ticks(CheckEntry(e, servers).entry, servers, n).numdns == n / 7
  {
    var asked := CheckEntry(e, servers).entry;
    ScheduleKept(asked, servers, n);
    TicksWait(asked, servers, n);
  }

  /** An answer stays in the table for as many ticks as its time to live says. */
  lemma {:induction false} AnswerExpires(e: Entry, servers: seq<bool>, n: nat)
    requires e.state.Done? && 0 < e.ttl < U32 && n <= e.ttl
    ensures n < e.ttl ==> Ticks(e, servers, n) == e.(ttl := e.ttl - n)
    ensures n == e.ttl ==> Ticks(e, servers, n).state.Unused?
  {
    if n > 0 { AnswerExpires(e, servers, n - 1); }
  }

  // ----- callbacks

  function Count(calls: seq<Call>, id: nat): nat {
    if calls == [] then 0 else (if calls[|calls| - 1].id == id then 1 else 0) + Count(calls[..|calls| - 1], id)
  }

  lemma CountAppend(calls: seq<Call>, c: Call, id: nat)
    ensures Count(calls + [c], id) == Count(calls, id) + if c.id == id then 1 else 0
  {
    assert (calls + [c])[..|calls|] == calls;
  }

  /** Slot i waits for query id. */
  ghost predicate WaitsFor(table: seq<Entry>, ids: seq<nat>, i: nat, id: nat) {
    i < |table| && i < |ids| && table[i].Pending() && ids[i] == id
  }

  ghost predicate IsPending(table: seq<Entry>, ids: seq<nat>, id: nat) {
    exists i :: WaitsFor(table, ids, i, id)
  }

  /** Query id has been called back as often as it should: once when it wanted to be and is no
      longer pending, otherwise not at all. */
  ghost predicate OnceAt(table: seq<Entry>, ids: seq<nat>, wanted: seq<bool>, calls: seq<Call>, id: nat) {
    && id < |wanted|
    && Count(calls, id) == if wanted[id] && !IsPending(table, ids, id) then 1 else 0
  }

  ghost predicate SlotOk(table: seq<Entry>, ids: seq<nat>, wanted: seq<bool>, i: nat) {
    && i < |table| && i < |ids|
    && (table[i].Pending() ==> ids[i] < |wanted| && (wanted[ids[i]] <==> table[i].found != 0))
  }

  ghost predicate OneSlot(table: seq<Entry>, ids: seq<nat>, i: nat, j: nat) {
    forall id :: WaitsFor(table, ids, i, id) && WaitsFor(table, ids, j, id) ==> i == j
  }

  /** Every query is called back exactly once. */
  ghost predicate Once(table: seq<Entry>, ids: seq<nat>, wanted: seq<bool>, calls: seq<Call>) {
    && |ids| == |table|
    && (forall i {:trigger SlotOk(table, ids, wanted, i)} :: 0 <= i < |table| ==> SlotOk(table, ids, wanted, i))
    && (forall i, j {:trigger OneSlot(table, ids, i, j)} ::
          0 <= i < |table| && 0 <= j < |table| ==> OneSlot(table, ids, i, j))
    && (forall id {:trigger OnceAt(table, ids, wanted, calls, id)} ::
          0 <= id < |wanted| ==> OnceAt(table, ids, wanted, calls, id))
    && (forall c :: c in calls ==> c.id < |wanted|)
  }

  /** A change of an entry that keeps it pending, or not pending. */
  lemma SamePending(table: seq<Entry>, ids: seq<nat>, wanted: seq<bool>, calls: seq<Call>, i: nat, e: Entry)
    requires Once(table, ids, wanted, calls) && i < |table|
    requires e.Pending() == table[i].Pending() && (e.Pending() ==> e.found == table[i].found)
    ensures Once(table[i := e], ids, wanted, calls)
  {
    var table' := table[i := e];
    assert forall j, id :: WaitsFor(table', ids, j, id) <==> WaitsFor(table, ids, j, id);
    forall j | 0 <= j < |table'| ensures SlotOk(table', ids, wanted, j) { assert SlotOk(table, ids, wanted, j); }
    forall j, k | 0 <= j < |table'| && 0 <= k < |table'| ensures OneSlot(table', ids, j, k) {
      assert OneSlot(table, ids, j, k);
    }
    forall id | 0 <= id < |wanted| ensures OnceAt(table', ids, wanted, calls, id) {
      assert OnceAt(table, ids, wanted, calls, id);
    }
  }

  /** A pending entry ends with its callback. */
  lemma Finished(table: seq<Entry>, ids: seq<nat>, wanted: seq<bool>, calls: seq<Call>, i: nat, e: Entry,
                 answer: Answer)
    requires Once(table, ids, wanted, calls) && i < |table| && table[i].Pending() && !e.Pending()
    ensures Once(table[i := e], ids, wanted, if table[i].found != 0 then calls + [Call(ids[i], answer)] else calls)
  {
    var table', q := table[i := e], ids[i];
    var calls' := if table[i].found != 0 then calls + [Call(q, answer)] else calls;
    assert SlotOk(table, ids, wanted, i);
    forall j, id | j != i ensures WaitsFor(table', ids, j, id) <==> WaitsFor(table, ids, j, id) { }
    assert WaitsFor(table, ids, i, q);
    forall j: nat ensures !WaitsFor(table', ids, j, q) {
      if j < |table| { assert OneSlot(table, ids, i, j); }
    }
    forall j | 0 <= j < |table'| ensures SlotOk(table', ids, wanted, j) { assert SlotOk(table, ids, wanted, j); }
    forall j, k | 0 <= j < |table'| && 0 <= k < |table'| ensures OneSlot(table', ids, j, k) {
      assert OneSlot(table, ids, j, k);
    }
    forall id | 0 <= id < |wanted| ensures OnceAt(table', ids, wanted, calls', id) {
      assert OnceAt(table, ids, wanted, calls, id);
      CountAppend(calls, Call(q, answer), id);
      if id != q {
        assert IsPending(table', ids, id) <==> IsPending(table, ids, id) by {
          if j: nat :| WaitsFor(table, ids, j, id) { assert WaitsFor(table', ids, j, id); }
          if j: nat :| WaitsFor(table', ids, j, id) { assert WaitsFor(table, ids, j, id); }
        }
      }
    }
  }

  lemma {:induction false} CountNone(calls: seq<Call>, id: nat)
    requires forall c :: c in calls ==> c.id != id
    ensures Count(calls, id) == 0
  {
    if calls != [] { CountNone(calls[..|calls| - 1], id); }
  }

  /** A new query takes an entry that is not pending. */
  lemma Enqueued(table: seq<Entry>, ids: seq<nat>, wanted: seq<bool>, calls: seq<Call>, i: nat, e: Entry)
    requires Once(table, ids, wanted, calls) && i < |table| && !table[i].Pending() && e.Pending()
    ensures Once(table[i := e], ids[i := |wanted|], wanted + [e.found != 0], calls)
  {
    var table', ids', wanted', n := table[i := e], ids[i := |wanted|], wanted + [e.found != 0], |wanted|;
    forall j, id | j != i ensures WaitsFor(table', ids', j, id) <==> WaitsFor(table, ids, j, id) { }
    forall j | 0 <= j < |table'| ensures SlotOk(table', ids', wanted', j) { assert SlotOk(table, ids, wanted, j); }
    forall j, k | 0 <= j < |table'| && 0 <= k < |table'| ensures OneSlot(table', ids', j, k) {
      assert OneSlot(table, ids, j, k) && SlotOk(table, ids, wanted, j) && SlotOk(table, ids, wanted, k);
    }
    CountNone(calls, n);
    assert WaitsFor(table', ids', i, n);
    forall id | 0 <= id < |wanted'| ensures OnceAt(table', ids', wanted', calls, id) {
      if id < n {
        assert OnceAt(table, ids, wanted, calls, id);
        assert IsPending(table', ids', id) <==> IsPending(table, ids, id) by {
          if j: nat :| WaitsFor(table, ids, j, id) { assert WaitsFor(table', ids', j, id); }
          if j: nat :| WaitsFor(table', ids', j, id) { assert WaitsFor(table, ids, j, id); }
        }
      }
    }
  }

  // ----- the entry for a new query

  datatype Slot = NoSlot | Slot(index: nat)

  /** No completed entry is older than the wrap-around of the sequence number. */
  predicate AllWrapped(table: seq<Entry>, seqno: nat) {
    forall e :: e in table && e.state.Done? ==> e.seqno >= seqno
  }

  predicate NoneUnused(table: seq<Entry>) {
    forall e :: e in table ==> !e.state.Unused?
  }

  predicate FirstUnused(table: seq<Entry>, i: nat) {
    i < |table| && table[i].state.Unused? && forall j :: 0 <= j < i ==> !table[j].state.Unused?
  }

  predicate AllPending(table: seq<Entry>) {
    forall e :: e in table ==> e.Pending()
  }

  /** The search for an entry fails: nothing is unused, no completed entry is from after the
      wrap-around, and the first entry, which is taken for want of a better one, is pending. */
  predicate Refuses(table: seq<Entry>, seqno: nat)
    requires table != []
  {
    NoneUnused(table) && !table[0].state.Done? && AllWrapped(table, seqno)
  }

  /** A table is said to be full when all entries are pending. The search calls it full exactly
      then, unless there are completed entries but nothing is unused, the first entry is pending,
      and the sequence number has wrapped around since every completed entry was used. */
  lemma FullExactly(table: seq<Entry>, seqno: nat)
    requires table != []
    ensures (Refuses(table, seqno) <==> AllPending(table)) <==>
            !(&& NoneUnused(table) && table[0].Pending() && AllWrapped(table, seqno)
              && exists e :: e in table && e.state.Done?)
  {
    assert table[0] in table;
  }

  // ----- how long a query takes

  /** The ticks that a pending query has seen, and those it has left, add up to its lifetime. */
  ghost predicate OnTime(table: seq<Entry>, ids: seq<nat>, age: seq<nat>, servers: seq<bool>, i: nat) {
    i < |table| && i < |ids| &&
    (table[i].state.Asking? ==>
       ids[i] < |age| && table[i].Valid() && TicksLeft(table[i], servers) + age[ids[i]] == Lifetime(servers))
  }

  ghost predicate AllOnTime(table: seq<Entry>, ids: seq<nat>, age: seq<nat>, servers: seq<bool>) {
    forall i {:trigger OnTime(table, ids, age, servers, i)} :: 0 <= i < |table| ==> OnTime(table, ids, age, servers, i)
  }

  function Older(age: seq<nat>): seq<nat> {
    seq(|age|, k requires 0 <= k < |age| => age[k] + 1)
  }

  lemma TickOnTime(table: seq<Entry>, table': seq<Entry>, ids: seq<nat>, age: seq<nat>, servers: seq<bool>)
    requires AllOnTime(table, ids, age, servers) && |table'| == |table| && forall e :: e in table ==> e.tmr < U8
    requires forall i :: 0 <= i < |table| ==> !table[i].state.New? && table'[i] == CheckEntry(table[i], servers).entry
    ensures AllOnTime(table', ids, Older(age), servers)
  {
    forall i | 0 <= i < |table'| ensures OnTime(table', ids, Older(age), servers, i) {
      assert OnTime(table, ids, age, servers, i) && table[i] in table;
      if table[i].state.Asking? { TickCounts(table[i], servers); }
    }
  }

  /** Entry i is changed to one that is not pending, or to a new query. */
  lemma StillOnTime(table: seq<Entry>, ids: seq<nat>, age: seq<nat>, servers: seq<bool>, i: nat, e: Entry, id: nat,
                    more: seq<nat>)
    requires AllOnTime(table, ids, age, servers) && i < |table| && i < |ids|
    requires e.state.Asking? ==>
      id < |age + more| && e.Valid() && TicksLeft(e, servers) + (age + more)[id] == Lifetime(servers)
    ensures AllOnTime(table[i := e], ids[i := id], age + more, servers)
  {
    var table', ids', age' := table[i := e], ids[i := id], age + more;
    forall j | 0 <= j < |table'| ensures OnTime(table', ids', age', servers, j) {
      assert OnTime(table, ids, age, servers, j);
    }
  }

  class Client {
    var table: seq<Entry>
    /** dns_seqno, a u8_t. */
    var seqno: nat
    const servers: seq<bool>
    /** Per entry the query it was last used for; which queries have a callback; the callbacks. */
    ghost var ids: seq<nat>
    ghost var wanted: seq<bool>
    ghost var calls: seq<Call>
    /** Per query the number of ticks since it was made. */
    ghost var age: seq<nat>

    ghost predicate Sound()
      reads this
    {
      && 0 < |table| < U8 && seqno < U8 && Once(table, ids, wanted, calls)
      && forall e :: e in table ==> e.Valid() && e.tmr < U8 && !e.state.New?
    }

    ghost predicate Valid()
      reads this
    {
      Sound() && |age| == |wanted| && AllOnTime(table, ids, age, servers)
    }

    constructor (size: nat, servers: seq<bool>)
      requires 0 < size < U8
      ensures Valid() && this.servers == servers && |table| == size && wanted == [] && calls == [] && age == []
      ensures seqno == 0 && forall i :: 0 <= i < size ==> table[i] == Entry(Unused, 0, 0, 0, 0, 0, 0)
    {
      this.servers := servers;
      table := seq(size, i => Entry(Unused, 0, 0, 0, 0, 0, 0));
      seqno := 0;
      ids, wanted, calls, age := seq(size, i => 0), [], [], [];
    }

    /** Writes back an entry that has changed without completing. */
    method Update(i: nat, e: Entry)
      requires Once(table, ids, wanted, calls) && i < |table|
      requires e.Pending() == table[i].Pending() && (e.Pending() ==> e.found == table[i].found)
      modifies `table
      ensures table == old(table)[i := e] && Once(table, ids, wanted, calls)
    {
      SamePending(table, ids, wanted, calls, i, e);
      table := table[i := e];
    }

    /** Completes entry i: calls back if there is somebody to call. */
    method Complete(i: nat, e: Entry, ghost answer: Answer)
      requires Once(table, ids, wanted, calls) && i < |table| && table[i].Pending() && !e.Pending()
      modifies `table, `calls
      ensures table == old(table)[i := e] && Once(table, ids, wanted, calls)
      ensures calls == if old(table)[i].found != 0 then old(calls) + [Call(ids[i], answer)] else old(calls)
    {
      Finished(table, ids, wanted, calls, i, e, answer);
      if table[i].found != 0 {
        calls := calls + [Call(ids[i], answer)];
      }
      table := table[i := e];
    }

    /** dns_check_entry. */
    method Check(i: nat) returns (sends: bool)
      requires Once(table, ids, wanted, calls) && i < |table| && table[i].Valid() && table[i].tmr < U8
      modifies `table, `calls
      ensures Once(table, ids, wanted, calls)
      ensures var o := CheckEntry(old(table)[i], servers); table == old(table)[i := o.entry] && sends == o.sends
      ensures
        calls == if CheckEntry(old(table)[i], servers).fails && old(table)[i].found != 0
                 then old(calls) + [Call(ids[i], Failed)] else old(calls)
    {
      var e := table[i];
      sends := false;
      match e.state {
        case New =>
          e := e.(state := Asking, numdns := 0, tmr := 1, retries := 0);
          sends := true;
          Update(i, e);
        case Asking =>
          e := e.(tmr := (e.tmr - 1) % U8);
          if e.tmr == 0 {
            e := e.(retries := e.retries + 1);
            if e.retries == DNS_MAX_RETRIES {
              if e.numdns + 1 < |servers| && servers[e.numdns + 1] {
                e := e.(numdns := e.numdns + 1, tmr := 1, retries := 0);
              } else {
                Complete(i, e.(state := Unused, found := 0), Failed);
                return;
              }
            } else {
              e := e.(tmr := e.retries);
              sends := true;
            }
          }
          Update(i, e);
        case Done =>
          e := e.(ttl := (e.ttl - 1) % U32);
          if e.ttl == 0 {
            e := e.(state := Unused, found := 0);
          }
          Update(i, e);
        case Unused =>
      }
    }

    /** dns_tmr: dns_check_entry for every entry. */
    method Tick()
      requires Valid()
      modifies `table, `calls, `age
      ensures Valid() && |table| == |old(table)| && age == Older(old(age))
      ensures forall i :: 0 <= i < |table| ==> table[i] == CheckEntry(old(table)[i], servers).entry
      ensures old(calls) <= calls && forall k :: |old(calls)| <= k < |calls| ==> calls[k].answer == Failed
    {
      var i := 0;
      while i < |table|
        invariant 0 <= i <= |table| == |old(table)| && Sound() && age == old(age)
        invariant forall j :: 0 <= j < i ==> table[j] == CheckEntry(old(table)[j], servers).entry
        invariant forall j :: i <= j < |table| ==> table[j] == old(table)[j]
        invariant old(calls) <= calls && forall k :: |old(calls)| <= k < |calls| ==> calls[k].answer == Failed
      {
        assert table[i] in table;
        CheckKeeps(table[i], servers);
        var sends := Check(i);
        i := i + 1;
      }
      TickOnTime(old(table), table, ids, age, servers);
      age := Older(age);
    }

    /** The state part of dns_recv: a message for entry i. It is an answer when the flags, the
        question and an address record in it are as they should be. */
    method Receive(i: nat, size_ok: bool, answer: Answer, ttl: nat)
      requires Valid()
      modifies `table, `calls
      ensures Valid() && |table| == |old(table)|
      ensures !(size_ok && i < |table| && old(table)[i].state.Asking?) ==> table == old(table) && calls == old(calls)
      ensures size_ok && i < |table| && old(table)[i].state.Asking? ==>
        && (answer.Found? ==> table == old(table)[i := old(table)[i].(state := Done, ttl := Min(ttl, DNS_MAX_TTL))])
        && (answer.Failed? ==> table == old(table)[i := old(table)[i].(state := Unused, found := 0)])
        && calls == if old(table)[i].found != 0 then old(calls) + [Call(ids[i], answer)] else old(calls)
    {
      if size_ok && i < |table| {
        var e := table[i];
        assert e in table;
        if e.state.Asking? {
          if answer.Found? {
            StillOnTime(table, ids, age, servers, i, e.(state := Done, ttl := Min(ttl, DNS_MAX_TTL)), ids[i], []);
            Complete(i, e.(state := Done, ttl := Min(ttl, DNS_MAX_TTL)), answer);
          } else {
            StillOnTime(table, ids, age, servers, i, e.(state := Unused, found := 0), ids[i], []);
            Complete(i, e.(state := Unused, found := 0), answer);
          }
          assert age + [] == age && ids[i := ids[i]] == ids;
        }
      }
    }

    /** The search of dns_enqueue: the first unused entry, otherwise the completed entry with the
        largest positive age, otherwise entry 0 if that is completed. */
    method FindSlot() returns (slot: Slot)
      requires Valid()
      ensures slot.Slot? ==> slot.index < |table| && !table[slot.index].Pending()
      ensures slot.NoSlot? <==> Refuses(table, seqno)
      ensures !NoneUnused(table) ==> slot.Slot? && FirstUnused(table, slot.index)
      ensures NoneUnused(table) && slot.Slot? && !AllWrapped(table, seqno) ==>
        forall j :: 0 <= j < |table| && table[j].state.Done? ==> table[slot.index].seqno <= table[j].seqno
      ensures NoneUnused(table) && slot.Slot? && AllWrapped(table, seqno) ==> slot.index == 0
    {
      var lseq, lseqi, i := 0, 0, 0;
      while i < |table|
        invariant 0 <= i <= |table| && 0 <= lseq < U8 && 0 <= lseqi < |table|
        invariant forall j :: 0 <= j < i ==> !table[j].state.Unused?
        invariant forall j :: 0 <= j < i && table[j].state.Done? ==> seqno - table[j].seqno <= lseq
        invariant lseq > 0 ==> lseqi < i && table[lseqi].state.Done? && seqno - table[lseqi].seqno == lseq
        invariant lseq == 0 ==> lseqi == 0
      {
        if table[i].state.Unused? {
          assert table[i] in table;
          return Slot(i);
        }
        if table[i].state.Done? && seqno - table[i].seqno > lseq {
          assert table[i] in table;
          lseq, lseqi := seqno - table[i].seqno, i;
        }
        i := i + 1;
      }
      assert table[lseqi] in table;
      assert AllWrapped(table, seqno) <==> lseq == 0;
      if !table[lseqi].state.Done? {
        return NoSlot;
      }
      return Slot(lseqi);
    }

    /** dns_enqueue: false is ERR_MEM. */
    method Enqueue(found: nat) returns (ok: bool, ghost i: nat)
      requires Valid()
      modifies this
      ensures Valid() && |table| == |old(table)| && calls == old(calls)
      ensures !ok <==> Refuses(old(table), old(seqno))
      ensures !NoneUnused(old(table)) ==> FirstUnused(old(table), i)
      ensures !ok ==> table == old(table) && wanted == old(wanted) && seqno == old(seqno) && age == old(age)
      ensures ok ==>
        && i < |table| && !old(table)[i].Pending()
        && table[i].seqno == old(seqno) && table[i].found == found && seqno == (old(seqno) + 1) % U8
        && table[i].state.Asking? && TicksLeft(table[i], servers) == Lifetime(servers) && age == old(age) + [0]
        && table[i].numdns == 0 && table[i].ttl == old(table)[i].ttl
        && wanted == old(wanted) + [found != 0] && ids == old(ids)[i := |old(wanted)|]
        && (forall j :: 0 <= j < |table| && j != i ==> table[j] == old(table)[j])
    {
      i := 0;
      var slot := FindSlot();
      if slot.NoSlot? {
        return false, 0;
      }
      i := slot.index;
      Enter(slot.index, found);
      return true, i;
    }

    /** The new query in entry i. */
    method Enter(i: nat, found: nat)
      requires Valid() && i < |table| && !table[i].Pending()
      modifies this
      ensures Valid() && |table| == |old(table)| && calls == old(calls)
      ensures table[i].seqno == old(seqno) && table[i].found == found && seqno == (old(seqno) + 1) % U8
      ensures table[i].state.Asking? && TicksLeft(table[i], servers) == Lifetime(servers) && age == old(age) + [0]
      ensures table[i].numdns == 0 && table[i].ttl == old(table)[i].ttl
      ensures wanted == old(wanted) + [found != 0] && ids == old(ids)[i := |old(wanted)|]
      ensures forall j :: 0 <= j < |table| && j != i ==> table[j] == old(table)[j]
    {
      assert table[i] in table;
      var e := table[i].(state := New, seqno := seqno, found := found);
      seqno := (seqno + 1) % U8;
      Enqueued(table, ids, wanted, calls, i, e);
      table, ids, wanted := table[i := e], ids[i := |wanted|], wanted + [found != 0];
      var sends := Check(i);
      StillOnTime(old(table), old(ids), age, servers, i, table[i], |old(wanted)|, [0]);
      assert table == old(table)[i := table[i]];
      age := age + [0];
    }
  }

  /** Whatever the client does, a query with a callback has been called back exactly once as soon
      as the timer has ticked 7 times for every configured server. */
  lemma CalledInTime(c: Client, id: nat)
    requires c.Valid() && id < |c.wanted| && Lifetime(c.servers) <= c.age[id]
    ensures Count(c.calls, id) == if c.wanted[id] then 1 else 0
  {
    assert OnceAt(c.table, c.ids, c.wanted, c.calls, id);
    forall i: nat ensures !WaitsFor(c.table, c.ids, i, id) {
      if i < |c.table| {
        assert c.table[i] in c.table && OnTime(c.table, c.ids, c.age, c.servers, i);
      }
    }
  }

  /** n queries that fail at once, one after the other. */
  method FailedQueries(n: nat) returns (c: Client)
    requires n < U8
    ensures fresh(c) && c.Valid() && c.seqno == n && |c.table| == 2
    ensures c.table[0].state.Unused? && c.table[1].state.Unused?
  {
    c := new Client(2, []);
    var k, failed := 0, Failed;
    while k < n
      invariant 0 <= k <= n && c.Valid() && fresh(c) && c.seqno == k && |c.table| == 2
      invariant c.table[0].state.Unused? && c.table[1].state.Unused?
    {
      assert c.table[0] in c.table;
      var ok, i := c.Enqueue(1);
      c.Receive(0, true, failed, 0);
      k := k + 1;
    }
  }

  /** 254 queries that fail, one that stays pending, and one that is answered. */
  method PendingAndAnswered() returns (c: Client)
    ensures fresh(c) && c.Valid() && |c.table| == 2 && c.seqno == 0
    ensures c.table[0].state.Asking? && c.table[1].state.Done? && c.table[1].seqno == 255
  {
    c := FailedQueries(254);
    ghost var i;
    var ok;
    assert c.table[0] in c.table;
    ok, i := c.Enqueue(1);
    assert c.table[1] in c.table;
    ok, i := c.Enqueue(1);
    c.Receive(1, true, Found(1), 100);
  }

  /** A run after which a query is refused although a completed entry could be reused. */
  method FullTooEarly() returns (c: Client, ok: bool)
    ensures c.Valid() && !ok
    ensures |c.table| == 2 && c.table[0].state.Asking? && c.table[1].state.Done?
  {
    c := PendingAndAnswered();
    ghost var i;
    ok, i := c.Enqueue(1);
  }

  /** A tick keeps an entry in shape. */
  lemma CheckKeeps(e: Entry, servers: seq<bool>)
    requires e.Valid() && e.tmr < U8 && !e.state.New?
    ensures
      var r := CheckEntry(e, servers).entry;
      r.Valid() && r.tmr < U8 && !r.state.New?
  {
    if e.state.Asking? { TickCounts(e, servers); }
  }
}
