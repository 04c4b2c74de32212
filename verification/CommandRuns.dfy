/** What a run of queued commands means: the register writes in order on the shadow registers,
    and one SPI update for every maximal run of register commands. */
module CommandRuns {
  import opened Basics
  import opened Bits
  import opened Ad9910
  import opened Commands

  /** What leaves the processor. The mask of an SPI update is the set of addresses whose bits
      are set in update_registers. */
  datatype Action =
    | SpiUpdate(mask: set<nat>)
    | SetPin(group: nat, pin: nat, level: nat)
    | AwaitTrigger
    | Delay(time: nat)
    | IoUpdate

  datatype State = State(shadow: seq<Word>, dirty: set<nat>, log: seq<Action>)

  /** The field descriptors by address in memory, and the chip address of each register. */
  datatype Chip = Chip(fields: map<nat, Field>, address: seq<nat>) {
    ghost predicate Valid() {
      forall p :: p in fields ==> fields[p].Valid() && fields[p].reg < |address|
    }
  }

  /** Register commands point to field descriptors. */
  predicate Known(chip: Chip, c: Command) {
    c.Register? ==> c.reg in chip.fields && chip.fields[c.reg].reg < |chip.address|
  }

  predicate AllKnown(chip: Chip, cs: seq<Command>) {
    forall c :: c in cs ==> Known(chip, c)
  }

  function AddressOf(chip: Chip, c: Command): nat
    requires c.Register? && Known(chip, c)
  {
    chip.address[chip.fields[c.reg].reg]
  }

  function ActionOf(c: Command): Action
    requires !c.Register? && !c.SpiWrite?
  {
    match c
    case Pin(group, pin, level) => SetPin(group, pin, level)
    case Trigger => AwaitTrigger
    case Wait(delay) => Delay(delay)
    case Update => IoUpdate
  }

  /** execute_command. */
  function Step(chip: Chip, s: State, c: Command): (r: State)
    requires |s.shadow| == |chip.address| && Known(chip, c)
    ensures |r.shadow| == |s.shadow|
  {
    match c
    case Register(reg, value) =>
      s.(shadow := Apply(s.shadow, Write(chip.fields[reg], ToWord(value))), dirty := s.dirty + {AddressOf(chip, c)})
    case SpiWrite => s.(dirty := {}, log := s.log + [SpiUpdate(s.dirty)])
    case _ => s.(log := s.log + [ActionOf(c)])
  }

  function Run(chip: Chip, s: State, cs: seq<Command>): (r: State)
    requires |s.shadow| == |chip.address| && AllKnown(chip, cs)
    ensures |r.shadow| == |s.shadow|
    decreases |cs|
  {
    if cs == [] then s else
      assert cs[0] in cs && AllKnown(chip, cs[1..]);
      Run(chip, Step(chip, s, cs[0]), cs[1..])
  }

  function RunTimes(chip: Chip, s: State, cs: seq<Command>, n: nat): (r: State)
    requires |s.shadow| == |chip.address| && AllKnown(chip, cs)
    ensures |r.shadow| == |s.shadow|
  {
    if n == 0 then s else Run(chip, RunTimes(chip, s, cs, n - 1), cs)
  }

  lemma {:induction false} RunJoin(chip: Chip, s: State, cs: seq<Command>, ds: seq<Command>)
    requires |s.shadow| == |chip.address| && AllKnown(chip, cs) && AllKnown(chip, ds)
    ensures AllKnown(chip, cs + ds) && Run(chip, s, cs + ds) == Run(chip, Run(chip, s, cs), ds)
    decreases |cs|
  {
    if cs == [] {
      assert cs + ds == ds;
    } else {
      assert cs[0] in cs;
      RunJoin(chip, Step(chip, s, cs[0]), cs[1..], ds);
      assert (cs + ds)[1..] == cs[1..] + ds && (cs + ds)[0] == cs[0];
    }
  }

  lemma RunPrefix(chip: Chip, s: State, cs: seq<Command>, k: nat)
    requires |s.shadow| == |chip.address| && AllKnown(chip, cs) && k < |cs|
    ensures AllKnown(chip, cs[..k]) && AllKnown(chip, cs[..k + 1]) && Known(chip, cs[k])
    ensures Run(chip, s, cs[..k + 1]) == Step(chip, Run(chip, s, cs[..k]), cs[k])
  {
    assert AllKnown(chip, [cs[k]]) && [cs[k]][1..] == [];
    assert cs[..k + 1] == cs[..k] + [cs[k]];
    RunJoin(chip, s, cs[..k], [cs[k]]);
    var t := Run(chip, s, cs[..k]);
    assert Run(chip, Step(chip, t, cs[k]), []) == Step(chip, t, cs[k]);
  }

  // ----- what was asked for

  /** The commands that the queue holds after the requests reqs: an SPI write stands behind
      every register command that no other register command follows. */
  function Spread(reqs: seq<Command>): seq<Command> {
    if reqs == [] then [] else Head(reqs) + Spread(reqs[1..])
  }

  function Head(reqs: seq<Command>): seq<Command>
    requires reqs != []
  {
    if reqs[0].Register? && !(|reqs| > 1 && reqs[1].Register?) then [reqs[0], SpiWrite] else [reqs[0]]
  }

  /** Length of the run of register commands at the start. */
  function RunLength(reqs: seq<Command>): (n: nat)
    ensures n <= |reqs| && forall i :: 0 <= i < n ==> reqs[i].Register?
    ensures n < |reqs| ==> !reqs[n].Register?
  {
    if reqs == [] || !reqs[0].Register? then 0 else 1 + RunLength(reqs[1..])
  }

  function Addresses(chip: Chip, rs: seq<Command>): set<nat>
    requires AllKnown(chip, rs)
  {
    set c | c in rs && c.Register? :: AddressOf(chip, c)
  }

  /** What reaches the outside: for every maximal run of register commands one SPI update with
      exactly the addresses of that run, for every other command its own effect. */
  function Actions(chip: Chip, reqs: seq<Command>): seq<Action>
    requires AllKnown(chip, reqs) && SpiWrite !in reqs
    decreases |reqs|
  {
    if reqs == [] then []
    else if reqs[0].Register? then
      var n := RunLength(reqs);
      [SpiUpdate(Addresses(chip, reqs[..n]))] + Actions(chip, reqs[n..])
    else
      [ActionOf(reqs[0])] + Actions(chip, reqs[1..])
  }

  /** The register writes among the requests, in order. */
  function Shadows(chip: Chip, shadow: seq<Word>, reqs: seq<Command>): (r: seq<Word>)
    requires |shadow| == |chip.address| && AllKnown(chip, reqs)
    ensures |r| == |shadow|
    decreases |reqs|
  {
    if reqs == [] then shadow
    else if reqs[0].Register? then
      assert Known(chip, reqs[0]);
      Shadows(chip, Apply(shadow, Write(chip.fields[reqs[0].reg], ToWord(reqs[0].value))), reqs[1..])
    else Shadows(chip, shadow, reqs[1..])
  }

  lemma {:induction false} SpreadKnown(chip: Chip, reqs: seq<Command>)
    requires AllKnown(chip, reqs)
    ensures AllKnown(chip, Spread(reqs))
  {
    if reqs != [] { SpreadKnown(chip, reqs[1..]); }
  }

  /** A maximal run of register commands is followed by one SPI write. */
  lemma {:induction false} SpreadRun(reqs: seq<Command>)
    requires reqs != [] && reqs[0].Register?
    ensures Spread(reqs) == (reqs[..RunLength(reqs)] + [SpiWrite]) + Spread(reqs[RunLength(reqs)..])
  {
    var n, rest := RunLength(reqs), reqs[1..];
    if n == 1 {
      assert reqs[..1] + [SpiWrite] == Head(reqs);
    } else {
      var run := rest[..n - 1] + [SpiWrite];
      assert Spread(rest) == run + Spread(reqs[n..]) by {
        SpreadRun(rest);
        assert rest[n - 1..] == reqs[n..];
      }
      Assoc([reqs[0]], run, Spread(reqs[n..]));
      assert [reqs[0]] + run == reqs[..n] + [SpiWrite];
    }
  }

  /** The commands without the SPI writes. */
  function WithoutSpi(cs: seq<Command>): seq<Command> {
    if cs == [] then [] else (if cs[0].SpiWrite? then WithoutSpi(cs[1..]) else [cs[0]] + WithoutSpi(cs[1..]))
  }

  /** Without the SPI writes the queue holds the requests themselves, in order. */
  lemma {:induction false} SpreadKeepsRequests(reqs: seq<Command>)
    requires SpiWrite !in reqs
    ensures WithoutSpi(Spread(reqs)) == reqs
  {
    if reqs != [] {
      var c, rest, cs := reqs[0], Spread(reqs[1..]), Spread(reqs);
      SpreadKeepsRequests(reqs[1..]);
      assert cs[0] == c;
      if |Head(reqs)| == 1 {
        assert cs[1..] == rest;
      } else {
        assert cs[1..][0] == SpiWrite && cs[1..][1..] == rest;
      }
    }
  }

  // ----- the meaning of a run

  lemma {:induction false} RegistersRun(chip: Chip, s: State, rs: seq<Command>)
    requires |s.shadow| == |chip.address| && AllKnown(chip, rs) && forall c :: c in rs ==> c.Register?
    ensures Run(chip, s, rs) == State(Shadows(chip, s.shadow, rs), s.dirty + Addresses(chip, rs), s.log)
    decreases |rs|
  {
    if rs == [] {
      assert Addresses(chip, rs) == {};
    } else {
      assert rs[0] in rs;
      var rest := rs[1..];
      RegistersRun(chip, Step(chip, s, rs[0]), rest);
      assert Addresses(chip, rs) == {AddressOf(chip, rs[0])} + Addresses(chip, rest) by {
        assert rs == [rs[0]] + rest;
      }
    }
  }

  lemma {:induction false} ShadowsJoin(chip: Chip, shadow: seq<Word>, rs: seq<Command>, qs: seq<Command>)
    requires |shadow| == |chip.address| && AllKnown(chip, rs) && AllKnown(chip, qs)
    ensures AllKnown(chip, rs + qs) && Shadows(chip, shadow, rs + qs) == Shadows(chip, Shadows(chip, shadow, rs), qs)
    decreases |rs|
  {
    if rs == [] {
      assert rs + qs == qs;
    } else {
      assert rs[0] in rs;
      assert (rs + qs)[1..] == rs[1..] + qs && (rs + qs)[0] == rs[0];
      var shadow' :=
        if rs[0].Register? then Apply(shadow, Write(chip.fields[rs[0].reg], ToWord(rs[0].value))) else shadow;
      ShadowsJoin(chip, shadow', rs[1..], qs);
    }
  }

  /** Running what the queue holds performs the register writes in order and ends with nothing
      left to send; the SPI updates carry exactly the addresses of their runs. */
  lemma {:induction false} RunMeaning(chip: Chip, s: State, reqs: seq<Command>)
    requires |s.shadow| == |chip.address| && AllKnown(chip, reqs) && SpiWrite !in reqs && s.dirty == {}
    ensures AllKnown(chip, Spread(reqs))
    ensures Run(chip, s, Spread(reqs)) == State(Shadows(chip, s.shadow, reqs), {}, s.log + Actions(chip, reqs))
    decreases |reqs|
  {
    SpreadKnown(chip, reqs);
    if reqs == [] {
    } else if reqs[0].Register? {
      RegisterRunMeaning(chip, s, reqs);
    } else {
      assert Spread(reqs) == [reqs[0]] + Spread(reqs[1..]);
      assert Spread(reqs)[1..] == Spread(reqs[1..]);
      RunMeaning(chip, Step(chip, s, reqs[0]), reqs[1..]);
    }
  }

  /** A run of register commands and its SPI write. */
  lemma RegistersThenSpi(chip: Chip, s: State, rs: seq<Command>)
    requires |s.shadow| == |chip.address| && AllKnown(chip, rs) && s.dirty == {} && forall c :: c in rs ==> c.Register?
    ensures AllKnown(chip, rs + [SpiWrite])
    ensures Run(chip, s, rs + [SpiWrite])
         == State(Shadows(chip, s.shadow, rs), {}, s.log + [SpiUpdate(Addresses(chip, rs))])
  {
    RunJoin(chip, s, rs, [SpiWrite]);
    RegistersRun(chip, s, rs);
    var t := Run(chip, s, rs);
    assert t.dirty == Addresses(chip, rs);
    assert [SpiWrite][1..] == [];
    assert Run(chip, Step(chip, t, SpiWrite), []) == Step(chip, t, SpiWrite);
  }

  lemma {:induction false} RegisterRunMeaning(chip: Chip, s: State, reqs: seq<Command>)
    requires |s.shadow| == |chip.address| && AllKnown(chip, reqs) && SpiWrite !in reqs && s.dirty == {}
    requires reqs != [] && reqs[0].Register?
    ensures AllKnown(chip, Spread(reqs))
    ensures Run(chip, s, Spread(reqs)) == State(Shadows(chip, s.shadow, reqs), {}, s.log + Actions(chip, reqs))
    decreases |reqs|, 0
  {
    var n := RunLength(reqs);
    var rs, rest := reqs[..n], reqs[n..];
    SpreadRun(reqs);
    RegistersThenSpi(chip, s, rs);
    var t := Run(chip, s, rs + [SpiWrite]);
    RunMeaning(chip, t, rest);
    RunJoin(chip, s, rs + [SpiWrite], Spread(rest));
    assert Shadows(chip, s.shadow, reqs) == Shadows(chip, Shadows(chip, s.shadow, rs), rest) by {
      assert reqs == rs + rest;
      ShadowsJoin(chip, s.shadow, rs, rest);
    }
    Assoc(s.log, [SpiUpdate(Addresses(chip, rs))], Actions(chip, rest));
  }

  // ----- what the other requests do

  function OtherRequests(reqs: seq<Command>): seq<Command> {
    if reqs == [] then [] else (if reqs[0].Register? then [] else [reqs[0]]) + OtherRequests(reqs[1..])
  }

  function OtherActions(log: seq<Action>): seq<Action> {
    if log == [] then [] else (if log[0].SpiUpdate? then [] else [log[0]]) + OtherActions(log[1..])
  }

  lemma {:induction false} RunHasNoOthers(reqs: seq<Command>, n: nat)
    requires n <= |reqs| && forall i :: 0 <= i < n ==> reqs[i].Register?
    ensures OtherRequests(reqs) == OtherRequests(reqs[n..])
    decreases n
  {
    if n > 0 {
      RunHasNoOthers(reqs[1..], n - 1);
      assert reqs[1..][n - 1..] == reqs[n..];
    } else {
      assert reqs[0..] == reqs;
    }
  }

  lemma {:induction false} OtherActionsAre(chip: Chip, reqs: seq<Command>, i: nat)
    requires AllKnown(chip, reqs) && SpiWrite !in reqs
    ensures |OtherActions(Actions(chip, reqs))| == |OtherRequests(reqs)|
    ensures i < |OtherRequests(reqs)| ==>
      var c := OtherRequests(reqs)[i];
      !c.Register? && !c.SpiWrite? && OtherActions(Actions(chip, reqs))[i] == ActionOf(c)
    decreases |reqs|
  {
    if reqs != [] {
      var all := Actions(chip, reqs);
      if reqs[0].Register? {
        var n := RunLength(reqs);
        RunHasNoOthers(reqs, n);
        assert all[1..] == Actions(chip, reqs[n..]);
        OtherActionsAre(chip, reqs[n..], i);
      } else {
        assert all[1..] == Actions(chip, reqs[1..]);
        OtherActionsAre(chip, reqs[1..], if i > 0 then i - 1 else 0);
      }
    }
  }

  /** Apart from the SPI updates exactly the other requests leave their mark, in order: a trigger
      waits for its pin, an update pulses IO_UPDATE, a wait waits as long as it says, and a pin
      command sets its pin to its level. */
  lemma OthersPerformed(chip: Chip, reqs: seq<Command>, i: nat)
    requires AllKnown(chip, reqs) && SpiWrite !in reqs
    ensures |OtherActions(Actions(chip, reqs))| == |OtherRequests(reqs)|
    ensures i < |OtherRequests(reqs)| ==>
      var c, a := OtherRequests(reqs)[i], OtherActions(Actions(chip, reqs))[i];
      && (c == Trigger <==> a == AwaitTrigger) && (c == Update <==> a == IoUpdate)
      && (forall time :: c == Wait(time) <==> a == Delay(time))
      && (forall group, pin, level :: c == Pin(group, pin, level) <==> a == SetPin(group, pin, level))
  {
    OtherActionsAre(chip, reqs, i);
  }

  /** An SPI update covers exactly the chip addresses of the registers that its run has written to. */
  lemma MaskExact(chip: Chip, rs: seq<Command>, a: nat)
    requires AllKnown(chip, rs)
    ensures a in Addresses(chip, rs) <==>
      exists i :: 0 <= i < |rs| && rs[i].Register? && Known(chip, rs[i]) &&
                  a == chip.address[chip.fields[rs[i].reg].reg]
  {
    if i :| 0 <= i < |rs| && rs[i].Register? && Known(chip, rs[i]) && a == chip.address[chip.fields[rs[i].reg].reg] {
      assert rs[i] in rs && a == AddressOf(chip, rs[i]);
    }
  }

  // ----- what a field reads afterwards

  function FieldOf(chip: Chip, c: Command): Field
    requires c.Register? && Known(chip, c)
  {
    chip.fields[c.reg]
  }

  /** A register request writes a field other than f. */
  predicate Elsewhere(chip: Chip, c: Command, f: Field) {
    c.Register? ==> Known(chip, c) && f.Disjoint(FieldOf(chip, c))
  }

  /** Requests for other fields do not show in a field. */
  lemma {:induction false} ElsewhereKeeps(chip: Chip, shadow: seq<Word>, reqs: seq<Command>, f: Field)
    requires chip.Valid() && |shadow| == |chip.address| && AllKnown(chip, reqs) && f.Valid() && f.reg < |shadow|
    requires forall c :: c in reqs ==> Elsewhere(chip, c, f)
    ensures GetBits(Shadows(chip, shadow, reqs)[f.reg], f) == GetBits(shadow[f.reg], f)
    decreases |reqs|
  {
    if reqs != [] {
      var c := reqs[0];
      assert c in reqs && Known(chip, c);
      var shadow' := if c.Register? then Apply(shadow, Write(FieldOf(chip, c), ToWord(c.value))) else shadow;
      if c.Register? && FieldOf(chip, c).reg == f.reg {
        GetAfterOther(shadow[f.reg], f, FieldOf(chip, c), ToWord(c.value));
      }
      ElsewhereKeeps(chip, shadow', reqs[1..], f);
    }
  }

  /** After the requests, the field of a register request that no later one overlaps reads back
      the requested value modulo 2^bits. */
  lemma {:induction false} FieldReadsBack(chip: Chip, shadow: seq<Word>, reqs: seq<Command>, k: nat)
    requires chip.Valid() && |shadow| == |chip.address| && AllKnown(chip, reqs) && k < |reqs|
    requires reqs[k].Register? && Known(chip, reqs[k]) && reqs[k].value < Pow2(WIDTH)
    requires forall j :: k < j < |reqs| ==> Elsewhere(chip, reqs[j], FieldOf(chip, reqs[k]))
    ensures
      var f := FieldOf(chip, reqs[k]);
      Value(GetBits(Shadows(chip, shadow, reqs)[f.reg], f)) == reqs[k].value % Pow2(f.bits)
    decreases k
  {
    var c, rest := reqs[0], reqs[1..];
    assert c in reqs && Known(chip, c);
    var shadow' := if c.Register? then Apply(shadow, Write(FieldOf(chip, c), ToWord(c.value))) else shadow;
    if k == 0 {
      var f := FieldOf(chip, c);
      ElsewhereKeeps(chip, shadow', rest, f);
      GetAfterSet(shadow[f.reg], f, ToWord(c.value));
      MaskIsMod(ToWord(c.value), f.bits);
      ValueOfBits(c.value, WIDTH);
    } else {
      FieldReadsBack(chip, shadow', rest, k - 1);
    }
  }
}
