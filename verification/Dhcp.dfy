/** The states of the DHCP client (dhcp.c; section 4.4 of RFC 2131) and what they mean for the
    network interface. */
module Dhcp {
  import opened Basics

  const REBOOT_TRIES: nat := 2
  const FINE_TIMER_MSECS: nat := 500

  /** IP addresses; 0 is IP_ADDR_ANY. */
  type Ip = nat
  const ANY: Ip := 0

  datatype State = Off | Requesting | Rebooting | Rebinding | Renewing | Selecting | Checking | Bound | BackingOff

  /** A message that belongs to the current transaction. */
  datatype Message =
    | Offer(address: Ip, server: Ip, hasServer: bool)
    | Ack(address: Ip)
    | Nak
    | Other

  /** The states with a lease that is in use. */
  predicate Leased(state: State) {
    state.Bound? || state.Renewing? || state.Rebinding?
  }

  /** A state in which the client waits for a reply. */
  predicate Waiting(state: State) {
    !state.Off? && !state.Bound?
  }

  /** Fine timer ticks for a time. */
  function TicksFor(msecs: nat): nat {
    (msecs + FINE_TIMER_MSECS - 1) / FINE_TIMER_MSECS
  }

  /** The back-off of dhcp_discover and dhcp_select. */
  function Exponential(tries: nat): nat {
    (if tries < 6 then Pow2(tries) else 60) * 1000
  }

  /** The back-off of the other requests. */
  function Linear(tries: nat, step: nat): nat {
    if tries < 10 then tries * step else 10 * step
  }

  /** Fine timer ticks that the client waits for an answer in a state. */
  function WaitIn(state: State, tries: nat): nat {
    match state
    case Selecting => TicksFor(Exponential(tries))
    case Requesting => TicksFor(Exponential(tries))
    case Checking => TicksFor(500)
    case BackingOff => TicksFor(10 * 1000)
    case Renewing => TicksFor(Linear(tries, 2000))
    case _ => TicksFor(Linear(tries, 1000))
  }

  lemma ExponentialWaits(tries: nat)
    ensures TicksFor(Exponential(tries)) > 0
  {
  }

  /** The waiting times in ticks of 500 ms: 2, 4, 8, 16, 32 and then 60 seconds for discover and
      request; one second more with each try, up to 10, for reboot and rebind, and two seconds more
      for renew; half a second for an ARP check; 10 seconds after a decline. */
  lemma WaitingTimes(tries: nat)
    ensures WaitIn(Selecting, tries) == WaitIn(Requesting, tries)
    ensures WaitIn(Selecting, 1) == 4 && WaitIn(Selecting, 2) == 8 && WaitIn(Selecting, 3) == 16
    ensures WaitIn(Selecting, 4) == 32 && WaitIn(Selecting, 5) == 64 && (tries > 5 ==> WaitIn(Selecting, tries) == 120)
    ensures WaitIn(Rebooting, tries) == WaitIn(Rebinding, tries) == if tries < 10 then 2 * tries else 20
    ensures WaitIn(Renewing, tries) == if tries < 10 then 4 * tries else 40
    ensures WaitIn(Checking, tries) == 1 && WaitIn(BackingOff, tries) == 20
  {
    assert Pow2(2) == 4 && Pow2(3) == 8;
    assert Pow2(4) == 2 * Pow2(3) && Pow2(5) == 2 * Pow2(4);
  }

  class Client {
    /** Whether offered addresses are checked with ARP before they are used. */
    const arpCheck: bool

    var state: State
    /** A u8_t. */
    var tries: nat
    var requestTimeout: nat
    var offered: Ip
    var server: Ip

    /** The interface. */
    var up: bool
    var ip: Ip

    /** The addresses that servers have offered or acknowledged, and whether the application
        renewed without a lease. */
    ghost var granted: set<Ip>
    ghost var renewedEarly: bool

    ghost predicate Valid()
      reads this
    {
      && tries < U8
      && (up ==> Leased(state) && ip == offered)
      && (!state.Off? && !state.Selecting? && !renewedEarly ==> offered in granted)
    }

    /** The client waits for a reply, but its timer does not run: it will not ask again. */
    ghost predicate Stuck()
      reads this
    {
      Waiting(state) && requestTimeout == 0
    }

    /** The next renewal makes tries wrap around to 0, and the time to wait with it. */
    ghost predicate LastTry()
      reads this
    {
      state.Renewing? && tries == U8 - 1
    }

    /** The request counter after one more request in a state. */
    function MoreTries(next: State): nat
      reads this
    {
      (if state == next then tries + 1 else 1) % U8
    }

    /** The client has asked once more: counter and timer are set for its state. */
    twostate predicate Asked()
      reads this
    {
      && tries == (if state == old(state) then old(tries) + 1 else 1) % U8
      && requestTimeout == WaitIn(state, tries)
    }

    /** What is known about the lease stays as it was. */
    twostate predicate SameLease()
      reads this
    {
      && offered == old(offered) && server == old(server)
      && granted == old(granted) && renewedEarly == old(renewedEarly)
    }

    /** The offer is forgotten, and the server and the address too when the lease was given up. */
    twostate predicate Forgotten(givenUp: bool)
      reads this
    {
      && offered == ANY && server == (if givenUp then ANY else old(server)) && !up
      && ip == (if givenUp then ANY else old(ip))
      && granted == old(granted) && renewedEarly == old(renewedEarly)
    }

    /** What is tried next when no answer came in time. */
    twostate predicate TimedOut()
      reads this
    {
      && (Waiting(state) && Waiting(old(state)) ==> Asked())
      && match old(state)
         case BackingOff => state == Selecting && Forgotten(false)
         case Selecting => state == Selecting && Forgotten(false)
         case Requesting =>
           if old(tries) <= 5 then state == Requesting && !up && ip == old(ip) && SameLease()
           else state == Selecting && Forgotten(true)
         case Checking =>
           if old(tries) <= 1 then state == Checking && !up && ip == old(ip) && SameLease()
           else state == Bound && up && ip == old(offered) && SameLease()
         case Renewing => state == Renewing && up == old(up) && ip == old(ip) && SameLease()
         case Rebinding =>
           if old(tries) <= 8 then state == Rebinding && up == old(up) && ip == old(ip) && SameLease()
           else state == Selecting && Forgotten(true)
         case Rebooting =>
           if old(tries) < REBOOT_TRIES then state == Rebooting && !up && ip == old(ip) && SameLease()
           else state == Selecting && Forgotten(false)
         case _ => state == old(state) && up == old(up) && ip == old(ip) && tries == old(tries) && SameLease()
    }

    /** dhcp_set_state. */
    method SetState(next: State)
      modifies `state, `tries, `requestTimeout
      ensures state == next
      ensures if next == old(state) then tries == old(tries) && requestTimeout == old(requestTimeout)
              else tries == 0 && requestTimeout == 0
    {
      if next != state {
        state, tries, requestTimeout := next, 0, 0;
      }
    }

    /** dhcp_start on an interface that is down: dhcp_discover from a cleared structure. */
    constructor (arpCheck: bool, address: Ip)
      ensures Valid() && state == Selecting && !up && !Stuck()
      ensures granted == {} && !renewedEarly && this.arpCheck == arpCheck
      ensures tries == 1 && requestTimeout == WaitIn(Selecting, 1) && offered == server == ANY && ip == address
    {
      this.arpCheck := arpCheck;
      state, tries, requestTimeout, offered, server := Off, 0, 0, ANY, ANY;
      up, ip := false, address;
      granted, renewedEarly := {}, false;
      new;
      Discover();
    }

    /** dhcp_discover. */
    method Discover()
      requires tries < U8 && !up
      modifies `state, `tries, `requestTimeout, `offered
      ensures Valid() && state == Selecting && offered == ANY && !Stuck()
      ensures tries == old(MoreTries(Selecting)) && requestTimeout == TicksFor(Exponential(tries))
    {
      offered := ANY;
      SetState(Selecting);
      tries := (tries + 1) % U8;
      ExponentialWaits(tries);
      requestTimeout := TicksFor(Exponential(tries));
    }

    /** dhcp_select. */
    method Select()
      requires tries < U8 && !up && (!renewedEarly ==> offered in granted)
      modifies `state, `tries, `requestTimeout
      ensures Valid() && state == Requesting && !Stuck()
      ensures tries == old(MoreTries(Requesting)) && requestTimeout == TicksFor(Exponential(tries))
    {
      SetState(Requesting);
      tries := (tries + 1) % U8;
      ExponentialWaits(tries);
      requestTimeout := TicksFor(Exponential(tries));
    }

    /** dhcp_check. */
    method Check()
      requires tries < U8 && !up && (!renewedEarly ==> offered in granted)
      modifies `state, `tries, `requestTimeout
      ensures Valid() && state == Checking && !Stuck()
      ensures tries == old(MoreTries(Checking)) && requestTimeout == TicksFor(500)
    {
      SetState(Checking);
      tries := (tries + 1) % U8;
      requestTimeout := TicksFor(500);
    }

    /** dhcp_decline. */
    method Decline()
      requires tries < U8 && !up && (!renewedEarly ==> offered in granted)
      modifies `state, `tries, `requestTimeout
      ensures Valid() && state == BackingOff && !Stuck()
      ensures tries == old(MoreTries(BackingOff)) && requestTimeout == TicksFor(10 * 1000)
    {
      SetState(BackingOff);
      tries := (tries + 1) % U8;
      requestTimeout := TicksFor(10 * 1000);
    }

    /** dhcp_bind: the interface takes the offered address and goes up. */
    method Bind()
      requires tries < U8 && (!renewedEarly ==> offered in granted)
      modifies `state, `tries, `requestTimeout, `up, `ip
      ensures Valid() && state == Bound && up && ip == offered
      ensures old(state) != Bound ==> tries == 0 && requestTimeout == 0
    {
      ip := offered;
      up := true;
      SetState(Bound);
    }

    /** dhcp_rebind and dhcp_reboot. */
    method Ask(next: State)
      requires (next.Rebinding? || next.Rebooting?) && (state == next ==> tries < 10)
      requires (up ==> Leased(next) && ip == offered) && (!renewedEarly ==> offered in granted)
      modifies `state, `tries, `requestTimeout
      ensures Valid() && state == next && !Stuck()
      ensures tries == old(MoreTries(next)) && requestTimeout == TicksFor(Linear(tries, 1000))
    {
      SetState(next);
      tries := (tries + 1) % U8;
      requestTimeout := TicksFor(Linear(tries, 1000));
    }

    /** dhcp_renew, whoever calls it. The timer stands still when tries wraps around to 0. */
    method StartRenew()
      requires tries < U8 && (up ==> ip == offered) && (!renewedEarly ==> offered in granted)
      modifies `state, `tries, `requestTimeout
      ensures Valid() && state == Renewing
      ensures Stuck() <==> old(LastTry())
      ensures tries == old(MoreTries(Renewing)) && requestTimeout == TicksFor(Linear(tries, 2000))
    {
      SetState(Renewing);
      tries := (tries + 1) % U8;
      requestTimeout := TicksFor(Linear(tries, 2000));
    }

    /** dhcp_renew called by the application. */
    method Renew()
      requires Valid()
      modifies `state, `tries, `requestTimeout, `renewedEarly
      ensures Valid() && state == Renewing && Asked()
      ensures renewedEarly == (old(renewedEarly) || old(state.Off? || state.Selecting?))
      ensures Stuck() <==> old(LastTry())
    {
      renewedEarly := renewedEarly || state.Off? || state.Selecting?;
      StartRenew();
    }

    /** dhcp_release: no lease, no address, interface down. */
    method Release()
      requires tries < U8
      modifies `state, `tries, `requestTimeout, `offered, `server, `up, `ip
      ensures Valid() && state == Off && !up && ip == ANY && offered == server == ANY
      ensures tries == old(MoreTries(Off)) && requestTimeout == TicksFor(Linear(tries, 1000))
    {
      SetState(Off);
      server, offered := ANY, ANY;
      tries := (tries + 1) % U8;
      requestTimeout := TicksFor(Linear(tries, 1000));
      up := false;
      ip := ANY;
    }

    /** dhcp_handle_nak. */
    method HandleNak()
      requires tries < U8
      modifies `state, `tries, `requestTimeout, `offered, `up, `ip
      ensures Valid() && state == Selecting && !up && ip == ANY && offered == ANY && !Stuck()
      ensures tries == 1 && requestTimeout == WaitIn(Selecting, 1)
    {
      up := false;
      ip := ANY;
      SetState(BackingOff);
      Discover();
    }

    /** dhcp_handle_offer: an offer without a server is ignored, but the request timer has been
        stopped for it. */
    method HandleOffer(address: Ip, from: Ip, hasServer: bool)
      requires Valid() && state.Selecting?
      modifies `state, `tries, `requestTimeout, `offered, `server, `granted
      ensures Valid() && !up
      ensures hasServer ==> state == Requesting && offered == address && server == from && !Stuck()
      ensures hasServer ==> tries == 1 && requestTimeout == WaitIn(Requesting, 1) && granted == old(granted) + {address}
      ensures !hasServer ==> state == Selecting && requestTimeout == 0 && tries == old(tries)
      ensures !hasServer ==> offered == old(offered) && server == old(server) && granted == old(granted)
    {
      requestTimeout := 0;
      if hasServer {
        server := from;
        offered := address;
        granted := granted + {address};
        Select();
      }
    }

    /** The dispatch of dhcp_recv. The interface goes up only on an acknowledgement. */
    method Receive(m: Message)
      requires Valid()
      modifies this
      ensures Valid()
      ensures up && !old(up) ==> m.Ack? && state == Bound
      ensures m.Ack? && old(state.Requesting?) ==>
        && offered == m.address && server == old(server) && granted == old(granted) + {m.address}
        && renewedEarly == old(renewedEarly)
        && if arpCheck then state == Checking && !up && ip == old(ip) && tries == 1 && requestTimeout == 1
           else state == Bound && up && ip == m.address && tries == requestTimeout == 0
      ensures m.Ack? && old(state.Rebooting? || state.Renewing? || state.Rebinding?) ==>
        state == Bound && up && ip == old(offered) && SameLease() && tries == requestTimeout == 0
      ensures m.Nak? && old(state.Rebooting? || state.Requesting? || state.Rebinding? || state.Renewing?) ==>
        && state == Selecting && !up && ip == offered == ANY && server == old(server) && granted == old(granted)
        && renewedEarly == old(renewedEarly) && tries == 1 && requestTimeout == WaitIn(Selecting, 1)
      ensures m.Offer? && old(state.Selecting?) ==> !up && ip == old(ip) && renewedEarly == old(renewedEarly)
      ensures m.Offer? && old(state.Selecting?) && m.hasServer ==>
        && state == Requesting && offered == m.address && server == m.server
        && granted == old(granted) + {m.address} && tries == 1 && requestTimeout == WaitIn(Requesting, 1)
      ensures m.Offer? && old(state.Selecting?) && !m.hasServer ==>
        state == Selecting && SameLease() && tries == old(tries) && requestTimeout == 0
      ensures !old(state.Requesting? || state.Rebooting? || state.Renewing? || state.Rebinding?) && !m.Offer? ==>
        unchanged(this)
      ensures (m.Offer? && !old(state.Selecting?)) || m.Other? ==> unchanged(this)
      ensures !old(Stuck()) ==> (Stuck() <==> m.Offer? && !m.hasServer && old(state.Selecting?))
    {
      match m {
        case Ack(address) =>
          if state.Requesting? {
            offered := address;
            granted := granted + {address};
            if arpCheck {
              Check();
            } else {
              Bind();
            }
          } else if state.Rebooting? || state.Rebinding? || state.Renewing? {
            Bind();
          }
        case Nak =>
          if state.Rebooting? || state.Requesting? || state.Rebinding? || state.Renewing? {
            HandleNak();
          }
        case Offer(address, from, hasServer) =>
          if state.Selecting? {
            HandleOffer(address, from, hasServer);
          }
        case Other =>
      }
    }

    /** One tick of dhcp_fine_tmr. */
    method FineTimer()
      requires Valid()
      modifies this
      ensures Valid()
      ensures old(requestTimeout) != 1 ==>
        state == old(state) && up == old(up) && ip == old(ip) && tries == old(tries) && SameLease()
      ensures old(requestTimeout) == 1 ==> TimedOut()
      ensures up && !old(up) ==> old(state.Checking? && requestTimeout == 1) && state == Bound
      ensures !old(Stuck()) ==> (Stuck() <==> old(requestTimeout == 1 && LastTry()))
      ensures old(Stuck()) ==> unchanged(this)
      ensures old(requestTimeout) > 1 ==> requestTimeout == old(requestTimeout) - 1
      ensures old(requestTimeout) == 1 && !Waiting(state) ==> requestTimeout == 0
    {
      if requestTimeout > 1 {
        requestTimeout := requestTimeout - 1;
      } else if requestTimeout == 1 {
        requestTimeout := 0;
        Timeout();
      }
    }

    /** dhcp_timeout: what is tried next when no answer came in time. */
    method Timeout()
      requires Valid() && requestTimeout == 0
      modifies this
      ensures Valid()
      ensures TimedOut() && (!Waiting(state) ==> requestTimeout == 0)
      ensures Stuck() <==> old(LastTry())
    {
      match state {
        case BackingOff => Discover();
        case Selecting => Discover();
        case Requesting =>
          if tries <= 5 {
            Select();
          } else {
            GiveUp();
          }
        case Checking =>
          if tries <= 1 {
            Check();
          } else {
            Bind();
          }
        case _ => TimeoutWithLease();
      }
    }

    /** The rest of dhcp_timeout: the states that have, or had, a lease. */
    method TimeoutWithLease()
      requires Valid() && requestTimeout == 0
      requires !state.BackingOff? && !state.Selecting? && !state.Requesting? && !state.Checking?
      modifies this
      ensures Valid()
      ensures TimedOut() && (!Waiting(state) ==> requestTimeout == 0)
      ensures Stuck() <==> old(LastTry())
    {
      match state {
        case Renewing => StartRenew();
        case Rebinding =>
          if tries <= 8 {
            Ask(Rebinding);
          } else {
            GiveUp();
          }
        case Rebooting =>
          if tries < REBOOT_TRIES {
            Ask(Rebooting);
          } else {
            Discover();
          }
        case _ =>
      }
    }

    /** dhcp_release, and then dhcp_discover. */
    method GiveUp()
      requires Valid() && !state.Off? && !state.Selecting?
      modifies `state, `tries, `requestTimeout, `offered, `server, `up, `ip
      ensures Valid() && state == Selecting && !Stuck() && Forgotten(true)
      ensures tries == 1 && requestTimeout == WaitIn(Selecting, 1)
    {
      Release();
      Discover();
    }

    /** dhcp_t1_timeout. */
    method T1()
      requires Valid()
      modifies `state, `tries, `requestTimeout
      ensures Valid()
      ensures state == if old(state.Requesting? || state.Bound? || state.Renewing?) then Renewing else old(state)
      ensures old(state.Requesting? || state.Bound? || state.Renewing?) ==> Asked()
      ensures !old(state.Requesting? || state.Bound? || state.Renewing?) ==> unchanged(this)
      ensures !old(Stuck()) ==> (Stuck() <==> old(LastTry()))
    {
      if state.Requesting? || state.Bound? || state.Renewing? {
        StartRenew();
      }
    }

    /** dhcp_t2_timeout. */
    method T2()
      requires Valid()
      modifies `state, `tries, `requestTimeout
      ensures Valid()
      ensures state == if old(state.Requesting? || state.Bound? || state.Renewing?) then Rebinding else old(state)
      ensures old(state.Requesting? || state.Bound? || state.Renewing?) ==> Asked()
      ensures !old(state.Requesting? || state.Bound? || state.Renewing?) ==> unchanged(this)
      ensures Stuck() ==> old(Stuck())
    {
      if state.Requesting? || state.Bound? || state.Renewing? {
        Ask(Rebinding);
      }
    }

    /** dhcp_network_changed: the lease must be confirmed before the interface is used again. */
    method NetworkChanged()
      requires Valid()
      modifies `state, `tries, `requestTimeout, `offered, `up
      ensures Valid() && !up
      ensures offered == if state.Selecting? then ANY else old(offered)
      ensures old(state.Off?) ==> unchanged(this)
      ensures state == if old(state.Off?) then Off
                       else if old(Leased(state) || state.Rebooting?) then Rebooting else Selecting
      ensures !Stuck() && (!state.Off? ==> tries == 1 && requestTimeout == WaitIn(state, 1))
    {
      if Leased(state) || state.Rebooting? {
        up := false;
        tries := 0;
        Ask(Rebooting);
      } else if !state.Off? {
        tries := 0;
        Discover();
      }
    }

    /** dhcp_arp_reply: the offered address is in use by another host. */
    method ArpReply(address: Ip)
      requires Valid()
      modifies `state, `tries, `requestTimeout
      ensures Valid()
      ensures state == if old(state.Checking? && address == offered) then BackingOff else old(state)
      ensures if old(state.Checking? && address == offered) then Asked() else unchanged(this)
      ensures Stuck() ==> old(Stuck())
    {
      if state.Checking? && address == offered {
        Decline();
      }
    }
  }

  /** A run in which the client stops asking: an offer that names no server. */
  method OfferWithoutServer() returns (c: Client)
    ensures c.Valid() && c.Stuck() && c.state == Selecting
  {
    c := new Client(false, ANY);
    c.Receive(Offer(1, 2, false));
  }

  /** A request that is not answered: the timer runs out after as many ticks as it has left. */
  method Unanswered(c: Client) returns (ticks: nat)
    requires c.Valid() && c.requestTimeout > 0
    modifies c
    ensures c.Valid() && ticks == old(c.requestTimeout) && c.TimedOut()
  {
    ticks := 0;
    while c.requestTimeout > 1
      invariant c.Valid() && 0 < c.requestTimeout && ticks + c.requestTimeout == old(c.requestTimeout)
      invariant c.state == old(c.state) && c.tries == old(c.tries) && c.up == old(c.up) && c.ip == old(c.ip)
      invariant c.SameLease()
      decreases c.requestTimeout
    {
      c.FineTimer();
      ticks := ticks + 1;
    }
    c.FineTimer();
    ticks := ticks + 1;
  }

  /** A client that has taken an offer. */
  method Requested(arpCheck: bool, address: Ip, server: Ip) returns (c: Client)
    ensures fresh(c) && c.Valid() && c.arpCheck == arpCheck && c.state == Requesting && !c.up
    ensures c.offered == address && c.server == server && c.tries == 1 && c.requestTimeout == 4
  {
    c := new Client(arpCheck, ANY);
    c.Receive(Offer(address, server, true));
    WaitingTimes(1);
  }

  /** One more request that nobody answers. */
  method RequestAgain(c: Client) returns (ticks: nat)
    requires c.Valid() && c.state.Requesting? && c.tries <= 5 && c.requestTimeout > 0
    modifies c
    ensures c.Valid() && c.state == Requesting && c.tries == old(c.tries) + 1 && ticks == old(c.requestTimeout)
    ensures c.requestTimeout == WaitIn(Requesting, c.tries)
  {
    ticks := Unanswered(c);
  }

  /** An offer whose request nobody answers is given up after 122 seconds. */
  method RequestGivenUp(address: Ip, server: Ip) returns (c: Client, ticks: nat)
    ensures fresh(c) && c.Valid() && c.state == Selecting && !c.up && c.offered == c.server == ANY && ticks == 244
  {
    c := Requested(false, address, server);
    ticks := 0;
    while c.tries < 6
      invariant fresh(c) && c.Valid() && c.state == Requesting && 1 <= c.tries <= 6
      invariant c.requestTimeout == WaitIn(Requesting, c.tries)
      invariant ticks == if c.tries == 6 then 124 else WaitIn(Requesting, c.tries) - 4
      decreases 6 - c.tries
    {
      WaitingTimes(c.tries);
      WaitingTimes(c.tries + 1);
      var n := RequestAgain(c);
      ticks := ticks + n;
    }
    var n := Unanswered(c);
    ticks := ticks + n;
  }

  /** A client that has got a lease. */
  method Leasing(address: Ip, server: Ip) returns (c: Client)
    ensures fresh(c) && c.Valid() && c.state == Bound && c.up && c.ip == address
  {
    c := Requested(false, address, server);
    c.Receive(Ack(address));
  }

  /** One more attempt to rebind, or to renew, that nobody answers. */
  method AskAgain(c: Client) returns (ticks: nat)
    requires c.Valid() && c.requestTimeout > 0 && (c.state.Renewing? || (c.state.Rebinding? && c.tries <= 8))
    modifies c
    ensures c.Valid() && c.state == old(c.state) && c.up == old(c.up) && c.ip == old(c.ip)
    ensures ticks == old(c.requestTimeout)
    ensures c.tries == if old(c.tries) == 255 then 0 else old(c.tries) + 1
    ensures c.requestTimeout == WaitIn(c.state, c.tries)
  {
    ticks := Unanswered(c);
  }

  /** Ticks of the first n attempts to rebind. */
  function RebindTicks(n: nat): nat {
    if n == 0 then 0 else RebindTicks(n - 1) + 2 * n
  }

  /** A client that has begun to rebind its lease. */
  method Rebinds(address: Ip, server: Ip) returns (c: Client)
    ensures fresh(c) && c.Valid() && c.state == Rebinding && c.up && c.ip == address
    ensures c.tries == 1 && c.requestTimeout == 2
  {
    c := Leasing(address, server);
    c.T2();
    WaitingTimes(1);
  }

  /** A lease that nobody rebinds is lost 45 seconds after T2. */
  method LeaseLost(address: Ip, server: Ip) returns (c: Client, ticks: nat)
    ensures fresh(c) && c.Valid() && c.state == Selecting && !c.up && c.ip == ANY && ticks == 90
  {
    c := Rebinds(address, server);
    ticks := 0;
    var tries := 1;
    while tries < 9
      invariant fresh(c) && c.Valid() && c.state == Rebinding && c.tries == tries && 1 <= tries <= 9
      invariant c.requestTimeout == 2 * tries && ticks == RebindTicks(tries - 1)
    {
      WaitingTimes(tries + 1);
      var n := AskAgain(c);
      ticks, tries := ticks + n, tries + 1;
    }
    var n := Unanswered(c);
    ticks := ticks + n;
    assert RebindTicks(8) == 72;
  }

  /** An acknowledged address that no host answers for is in use after two ARP checks. */
  method AddressChecked(address: Ip, server: Ip) returns (c: Client, ticks: nat)
    ensures fresh(c) && c.Valid() && c.state == Bound && c.up && c.ip == address && c.server == server && ticks == 2
  {
    c := Requested(true, address, server);
    c.Receive(Ack(address));
    WaitingTimes(2);
    var n := Unanswered(c);
    var m := Unanswered(c);
    ticks := n + m;
  }

  /** A run in which the client stops asking: a lease is taken, and the 256th renewal makes the
      counter wrap around. The interface is still up; only T1 or T2 can restart the client. */
  method RenewalsStop() returns (c: Client)
    ensures c.Valid() && c.Stuck() && c.state == Renewing && c.up
  {
    c := Leasing(1, 2);
    c.T1();
    var n := 1;
    while n < U8
      invariant 1 <= n <= U8 && c.Valid() && fresh(c) && c.state == Renewing && c.up
      invariant c.tries == (if n == U8 then 0 else n) && c.requestTimeout == WaitIn(Renewing, c.tries)
    {
      WaitingTimes(c.tries);
      var ticks := AskAgain(c);
      n := n + 1;
    }
    WaitingTimes(0);
  }
}
