/** The resumable TCP write of api_msg.c: do_write, do_writemore and the callbacks that continue
    or end it. */
module Writemore {
  import opened Basics
  import opened Bytes

  const MAX_U16: nat := 0xffff

  datatype Err = Ok | Mem | WouldBlock | InProgress | Conn | Fatal(code: nat)

  /** NETCONN_NONE, NETCONN_WRITE, or connecting, listening or closing. */
  datatype ConnState = Idle | Writing | Busy

  /** What a finished request reports: msg.err and msg.w.len. */
  datatype Result = Result(err: Err, len: nat)

  /** What do_writemore meets outside: whether the send timeout has passed, whether the call must
      not block, the room in the send buffer, and the result of tcp_write. */
  datatype Env = Env(timedOut: bool, dontblock: bool, available: nat, written: Err)

  /** Bytes offered to tcp_write. */
  function Offer(left: nat, available: nat): nat {
    Min(Min(left, MAX_U16), available)
  }

  /** A blocking write with left bytes to go has to wait for more room. */
  predicate MustWait(env: Env, left: nat) {
    env.written == Mem || (env.written == Ok && Offer(left, env.available) < left)
  }

  /** Bytes that tcp_write takes over. */
  function Taken(env: Env, left: nat): nat {
    if env.timedOut || env.written != Ok || (env.dontblock && env.available == 0) then 0 else Offer(left, env.available)
  }

  /** The error that a finished write reports. */
  function Reported(env: Env, offset: nat): Err {
    if env.timedOut then (if offset == 0 then WouldBlock else Ok)
    else if env.dontblock && env.available == 0 then WouldBlock
    else env.written
  }

  /** tcp_write is offered as much as there is, but no more than a u16_t holds and the send buffer
      takes. */
  lemma TakenIsMost(env: Env, left: nat)
    ensures Taken(env, left) <= left && Taken(env, left) <= 0xffff && Taken(env, left) <= env.available
    ensures env.timedOut || env.written != Ok ==> Taken(env, left) == 0
    ensures !env.timedOut && env.written == Ok ==> Taken(env, left) in {left, 0xffff, env.available}
  {
  }

  /** A blocking write waits for room exactly when tcp_write had no memory, or took everything it
      was offered and that was not all. */
  lemma WaitsExactly(env: Env, left: nat)
    ensures MustWait(env, left) <==>
            env.written == Mem || (env.written == Ok && (left > 0xffff || left > env.available))
  {
  }

  lemma ReportedIs(env: Env, offset: nat)
    ensures env.timedOut ==> Reported(env, offset) == if offset > 0 then Ok else WouldBlock
    ensures !env.timedOut && env.dontblock && env.available == 0 ==> Reported(env, offset) == WouldBlock
    ensures !env.timedOut && !(env.dontblock && env.available == 0) ==> Reported(env, offset) == env.written
  {
  }

  class Netconn {
    var state: ConnState
    /** conn->pcb.tcp is not NULL. */
    var pcb: bool
    /** Whether conn->last_err is fatal, and its code then. */
    var broken: bool
    var lastErr: nat
    /** The current request: its data, conn->write_offset, and whether there is one. */
    var message: bool
    var data: seq<byte>
    var offset: nat
    /** What the last finished write reported. */
    var result: Result

    /** The bytes that tcp_write has accepted for the current or last write. */
    ghost var accepted: seq<byte>
    /** How many requests were made, and how many were completed. */
    ghost var requests: nat
    ghost var completions: nat

    ghost predicate Valid()
      reads this
    {
      && (state.Writing? <==> message)
      && (message ==> pcb && offset < |data| && accepted == data[..offset])
      && completions + (if message then 1 else 0) == requests
    }

    constructor ()
      ensures Valid() && state == Idle && pcb && !broken && offset == 0 && requests == completions == 0
      ensures data == accepted == [] && result == Result(Ok, 0)
    {
      state, pcb, broken, lastErr, message := Idle, true, false, 0, false;
      data, offset, result := [], 0, Result(Ok, 0);
      accepted, requests, completions := [], 0, 0;
    }

    /** One do_writemore later, for a write that stood at start with the bytes before accepted:
        the next bytes are accepted without gap or repeat; the write waits, or is completed once
        and reports what was accepted or an error; write_offset is then 0 only if it was before, or
        after a success that is no timeout. */
    ghost predicate After(env: Env, start: nat, before: seq<byte>, count: nat)
      reads this
    {
      && start <= |data|
      && accepted == before + data[start..start + Taken(env, |data| - start)] && accepted <= data
      && (message <==> !env.timedOut && !env.dontblock && MustWait(env, |data| - start))
      && (message ==> completions == count)
      && (!message ==>
            && state == Idle && completions == count + 1
            && result.err == Reported(env, start) && result.len == (if result.err == Ok then |accepted| else 0)
            && offset == (if !env.timedOut && Reported(env, start) == Ok then 0 else start)
            && (result.err == Ok && !env.dontblock && !env.timedOut ==> accepted == data))
    }

    /** do_writemore. */
    method WriteMore(env: Env)
      requires Valid() && message
      modifies this
      ensures Valid() && data == old(data) && requests == old(requests)
      ensures pcb == old(pcb) && broken == old(broken) && lastErr == old(lastErr)
      ensures After(env, old(offset), old(accepted), old(completions))
    {
      var finished, err := false, Ok;
      if env.timedOut {
        finished := true;
        err := TimedOut();
      } else {
        finished, err := Attempt(env);
      }
      if finished {
        result := result.(err := err);
        message, state := false, Idle;
        completions := completions + 1;
      }
    }

    /** The part of do_writemore for a write whose send timeout has passed. */
    method TimedOut() returns (err: Err)
      modifies `result
      ensures result == old(result).(len := offset) && err == if offset == 0 then WouldBlock else Ok
    {
      if offset == 0 {
        err := WouldBlock;
        result := result.(len := 0);
      } else {
        err := Ok;
        result := result.(len := offset);
      }
    }

    /** The part of do_writemore that calls tcp_write. */
    method Attempt(env: Env) returns (finished: bool, err: Err)
      requires Valid() && message && !env.timedOut
      modifies `offset, `result, `accepted
      ensures accepted == old(accepted) + data[old(offset)..old(offset) + Taken(env, |data| - old(offset))] <= data
      ensures finished ==> err == Reported(env, old(offset))
      ensures finished <==> env.dontblock || !MustWait(env, |data| - old(offset))
      ensures !finished ==> offset < |data| && accepted == data[..offset]
      ensures finished && err == Ok ==>
        offset == 0 && result.len == |accepted| && (!env.dontblock ==> accepted == data)
      ensures finished && err != Ok ==> offset == old(offset) && accepted == old(accepted) && result.len == 0
    {
      var left := |data| - offset;
      var len := if left > MAX_U16 then MAX_U16 else left;
      finished, err := false, env.written;
      if env.available < len {
        len := env.available;
        if env.dontblock && len == 0 {
          err := WouldBlock;
        }
      }
      if err == Ok {
        assert data[..offset] + data[offset..offset + len] == data[..offset + len];
        accepted := accepted + data[offset..offset + len];
        offset := offset + len;
        if offset == |data| || env.dontblock {
          result := result.(len := offset);
          finished := true;
          offset := 0;
        }
        assert data[..|data|] == data;
      } else if err == Mem && !env.dontblock {
      } else {
        finished := true;
        result := result.(len := 0);
      }
    }

    /** do_write, for a TCP connection. Returns the error of a request that is refused at once. */
    method Write(bytes: seq<byte>, env: Env) returns (refused: Err)
      requires Valid() && 0 < |bytes|
      modifies this
      ensures Valid() && requests == old(requests) + 1
      ensures pcb == old(pcb) && broken == old(broken) && lastErr == old(lastErr)
      ensures refused == old(if broken then Fatal(lastErr) else if !state.Idle? then InProgress
                             else if !pcb then Conn else Ok)
      ensures refused != Ok ==>
        && completions == old(completions) + 1
        && state == old(state) && message == old(message) && data == old(data) && offset == old(offset)
        && accepted == old(accepted) && result == old(result)
      ensures refused == Ok ==> data == bytes && After(env, 0, [], old(completions))
    {
      requests := requests + 1;
      if broken || !state.Idle? || !pcb {
        refused := if broken then Fatal(lastErr) else if !state.Idle? then InProgress else Conn;
        completions := completions + 1;
        return;
      }
      state, message, data, offset := Writing, true, bytes, 0;
      accepted := [];
      WriteMore(env);
      refused := Ok;
    }

    /** sent_tcp and poll_tcp, as far as writing is concerned. */
    method Continue(env: Env)
      requires Valid()
      modifies this
      ensures Valid() && requests == old(requests) && data == old(data)
      ensures pcb == old(pcb) && broken == old(broken) && lastErr == old(lastErr)
      ensures !old(message) ==> unchanged(this)
      ensures old(message) ==> After(env, old(offset), old(accepted), old(completions))
    {
      if state.Writing? {
        WriteMore(env);
      }
    }

    /** err_tcp: the pcb is gone; a write in progress ends with the error. */
    method Error(code: nat)
      requires Valid()
      modifies this
      ensures Valid() && broken && lastErr == code && !pcb && state == Idle && !message
      ensures requests == old(requests) && completions == old(completions) + if old(message) then 1 else 0
      ensures result == if old(message) then Result(Fatal(code), |data|) else old(result)
      ensures accepted == old(accepted) && data == old(data) && offset == old(offset)
    {
      pcb, broken, lastErr := false, true, code;
      var was := state;
      state := Idle;
      if was.Writing? {
        result := Result(Fatal(code), |data|);
        message := false;
        completions := completions + 1;
      }
    }
  }

  /** A blocking write of any length ends: each round passes on a full share of bytes, or the rest,
      and when all rounds are done all bytes have been accepted in order, and that is reported. */
  method WriteInRounds(conn: Netconn, bytes: seq<byte>, room: nat) returns (rounds: nat)
    requires conn.Valid() && conn.state.Idle? && conn.pcb && !conn.broken && 0 < |bytes| && 0 < room
    modifies conn
    ensures conn.Valid() && conn.state.Idle? && conn.accepted == bytes && conn.result == Result(Ok, |bytes|)
    ensures 0 < rounds && (rounds - 1) * Min(room, 0xffff) < |bytes| <= rounds * Min(room, 0xffff)
    ensures conn.requests == old(conn.requests) + 1 && conn.completions == old(conn.completions) + 1
  {
    var share := Min(room, 0xffff);
    FirstRound(conn, bytes, room);
    rounds := 1;
    ghost var sent := share;
    while conn.message
      invariant conn.Valid() && conn.data == bytes && 0 < rounds && sent == rounds * share
      invariant sent - share < |bytes| && PassedOn(conn, sent) && conn.requests == old(conn.requests) + 1
      decreases |bytes| - sent
    {
      NextRound(conn, room);
      MoreRounds(rounds, share);
      rounds, sent := rounds + 1, sent + share;
    }
  }

  lemma MoreRounds(rounds: nat, share: nat)
    ensures (rounds + 1) * share == rounds * share + share
  {
  }

  method FirstRound(conn: Netconn, bytes: seq<byte>, room: nat)
    requires conn.Valid() && conn.state.Idle? && conn.pcb && !conn.broken && 0 < |bytes| && 0 < room
    modifies conn
    ensures conn.Valid() && conn.data == bytes && PassedOn(conn, Min(room, 0xffff))
    ensures conn.requests == old(conn.requests) + 1
  {
    var env := Env(false, false, room, Ok);
    var refused := conn.Write(bytes, env);
    AfterRound(conn, env, 0, [], old(conn.completions), Min(room, 0xffff));
  }

  method NextRound(conn: Netconn, room: nat)
    requires conn.Valid() && conn.message && 0 < room
    modifies conn
    ensures conn.Valid() && conn.data == old(conn.data) && PassedOn(conn, old(conn.offset) + Min(room, 0xffff))
    ensures conn.requests == old(conn.requests)
  {
    var env := Env(false, false, room, Ok);
    conn.Continue(env);
    AfterRound(conn, env, old(conn.offset), old(conn.accepted), old(conn.completions), Min(room, 0xffff));
  }

  /** sent bytes have been passed on, if there are so many, and then the write goes on. */
  ghost predicate PassedOn(conn: Netconn, sent: nat)
    reads conn
  {
    if sent < |conn.data| then conn.message && conn.offset == sent
    else !conn.message && conn.state.Idle? && conn.accepted == conn.data && conn.result == Result(Ok, |conn.data|)
  }

  /** A round with a share of room passes on that share. */
  lemma AfterRound(conn: Netconn, env: Env, start: nat, before: seq<byte>, count: nat, share: nat)
    requires conn.Valid() && env == Env(false, false, env.available, Ok) && 0 < env.available
    requires share == Min(env.available, 0xffff) && start < |conn.data| && before == conn.data[..start]
    requires conn.After(env, start, before, count)
    ensures PassedOn(conn, start + share)
  {
    assert |before| == start;
  }

  /** A run that leaves write_offset behind: one of two bytes is accepted, then the send timeout
      passes. The connection is idle again, and the next do_write asserts that the offset is 0. */
  method OffsetLeftOver() returns (conn: Netconn)
    ensures conn.Valid() && conn.state == Idle && !conn.broken && conn.pcb
    ensures conn.offset == 1 && conn.result == Result(Ok, 1)
  {
    conn := new Netconn();
    var refused := conn.Write([0, 0], Env(false, false, 1, Ok));
    assert |conn.accepted| == 1;
    conn.Continue(Env(true, false, 1, Ok));
  }
}
