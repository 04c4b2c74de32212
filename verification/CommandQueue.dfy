/** The command queue as a byte buffer, and the interpreter that walks over it. */
module CommandQueue {
  import opened Basics
  import opened Bytes
  import opened Bits
  import opened Ad9910
  import opened Commands
  import opened CommandRuns

  // ----- appending requests

  predicate EndsInSpi(cs: seq<Command>) {
    cs != [] && cs[|cs| - 1].SpiWrite?
  }

  /** The queue without a trailing SPI write. */
  function Trimmed(cs: seq<Command>): seq<Command> {
    if EndsInSpi(cs) then cs[..|cs| - 1] else cs
  }

  lemma TrimmedJoin(a: seq<Command>, b: seq<Command>)
    requires b != []
    ensures Trimmed(a + b) == a + Trimmed(b)
  {
  }

  lemma {:induction false} SpreadRegister(reqs: seq<Command>, r: Command)
    requires r.Register? && SpiWrite !in reqs
    ensures Spread(reqs + [r]) == Trimmed(Spread(reqs)) + [r, SpiWrite]
  {
    var next := reqs + [r];
    if reqs == [] {
      assert next == [r] && [r][1..] == [];
      assert Spread([r]) == Head([r]) + Spread([]);
    } else {
      var rest := reqs[1..];
      assert next[1..] == rest + [r] && next[0] == reqs[0];
      SpreadRegister(rest, r);
      if rest == [] {
        assert Spread(reqs) == Head(reqs) && Trimmed(Head(reqs)) == [reqs[0]] == Head(next);
        assert Spread(rest + [r]) == [r, SpiWrite];
      } else {
        assert Head(next) == Head(reqs) && Spread(rest) != [];
        TrimmedJoin(Head(reqs), Spread(rest));
        Assoc(Head(reqs), Trimmed(Spread(rest)), [r, SpiWrite]);
      }
    }
  }

  lemma {:induction false} SpreadOther(reqs: seq<Command>, c: Command)
    requires !c.Register?
    ensures Spread(reqs + [c]) == Spread(reqs) + [c]
  {
    var next := reqs + [c];
    if reqs == [] {
      assert next == [c] && [c][1..] == [];
      assert Spread([c]) == Head([c]) + Spread([]);
    } else {
      var rest := reqs[1..];
      assert next[1..] == rest + [c] && next[0] == reqs[0];
      SpreadOther(rest, c);
      assert Head(next) == Head(reqs);
      Assoc(Head(reqs), Spread(rest), [c]);
    }
  }

  /** The queue after command_queue: unchanged when there is no room. */
  function Appended(l: Layout, cs: seq<Command>, c: Command): seq<Command> {
    if HasRoom(l, cs, c) then cs + [c] else cs
  }

  predicate HasRoom(l: Layout, cs: seq<Command>, c: Command) {
    |EncodeAll(l, cs)| + |Encode(l, c)| <= COMMAND_QUEUE_LENGTH
  }

  /** There is room for a register command and the SPI write behind it. */
  predicate RegisterFits(l: Layout, cs: seq<Command>, c: Command) {
    HasRoom(l, Trimmed(cs), c) && HasRoom(l, Trimmed(cs) + [c], SpiWrite)
  }

  /** A register request is accepted exactly when it fits, with an SPI write and in the place of a
      trailing one, into 1024 bytes. */
  lemma RegisterFitsIs(l: Layout, cs: seq<Command>, c: Command)
    ensures RegisterFits(l, cs, c) <==> |EncodeAll(l, Trimmed(cs))| + |Encode(l, c)| + l.header <= 1024
    ensures cs != [] && cs[|cs| - 1] == SpiWrite ==> Trimmed(cs) + [SpiWrite] == cs
    ensures cs == [] || cs[|cs| - 1] != SpiWrite ==> Trimmed(cs) == cs
  {
    EncodeAppend(l, Trimmed(cs), c);
  }

  /** An accepted register request keeps the queue equal to what the requests spread to. */
  lemma RegisterSpread(l: Layout, cs: seq<Command>, reqs: seq<Command>, c: Command)
    requires c.Register? && SpiWrite !in reqs
    ensures RegisterFits(l, cs, c) && cs == Spread(reqs) ==>
      Appended(l, Appended(l, Trimmed(cs), c), SpiWrite) == Spread(reqs + [c])
  {
    SpreadRegister(reqs, c);
    assert Trimmed(cs) + [c] + [SpiWrite] == Trimmed(cs) + [c, SpiWrite];
  }

  /** A refused register request leaves the queue as it was if and only if the register command
      finds no room, and the SPI write is put back where it was or finds no room either. */
  lemma RefusedUnchanged(l: Layout, cs: seq<Command>, c: Command)
    requires c.Register? && |EncodeAll(l, cs)| <= COMMAND_QUEUE_LENGTH && !RegisterFits(l, cs, c)
    ensures Appended(l, Appended(l, Trimmed(cs), c), SpiWrite) == cs <==>
            !HasRoom(l, Trimmed(cs), c) && (EndsInSpi(cs) || !HasRoom(l, cs, SpiWrite))
  {
    var kept := Trimmed(cs);
    if EndsInSpi(cs) {
      TrimmedEncode(l, cs);
      assert cs == kept + [SpiWrite] && cs[|kept|] != (kept + [c])[|kept|];
    } else {
      assert |kept + [c]| != |cs| && |kept + [SpiWrite]| != |cs|;
    }
  }

  predicate AllInRange(l: Layout, cs: seq<Command>) {
    forall c :: c in cs ==> InRange(l, c)
  }

  lemma LastIs(l: Layout, image: seq<byte>, cs: seq<Command>)
    requires l.Valid() && Holds(image, 0, EncodeAll(l, cs)) && AllInRange(l, cs) && cs != []
    ensures
      var last := At(l, cs, |cs| - 1);
      && last + l.header <= |image|
      && (NumberAt(image, last, l.header) == 6 <==> cs[|cs| - 1].SpiWrite?)
  {
    Boundary(l, image, 0, cs, |cs| - 1);
  }

  lemma StartAndEnd(l: Layout, cs: seq<Command>)
    requires l.Valid()
    ensures At(l, cs, 0) == 0 && (cs == [] <==> |EncodeAll(l, cs)| == 0)
  {
    assert cs[..0] == [] && EncodeAll(l, []) == [];
    if cs != [] { NotEmpty(l, cs); }
  }

  /** From a command before the last one the cursor gets to the next command, from the last one
      to the end. */
  lemma CursorStep(l: Layout, image: seq<byte>, cs: seq<Command>, end: nat, cur: nat, k: nat)
    requires l.Valid() && Holds(image, 0, EncodeAll(l, cs)) && end == |EncodeAll(l, cs)|
    requires k < |cs| && cur == At(l, cs, k)
    ensures cur + l.header <= |image|
    ensures
      var next := cur + CommandLength(l, NumberAt(image, cur, l.header));
      && (k == |cs| - 1 <==> next == end) && (k < |cs| - 1 ==> next == At(l, cs, k + 1) < end)
  {
    Boundary(l, image, 0, cs, k);
  }

  /** The loop of find_last_command. */
  method LastIn(l: Layout, image: seq<byte>, end: nat, ghost cs: seq<Command>) returns (last: int)
    requires l.Valid() && Holds(image, 0, EncodeAll(l, cs)) && end == |EncodeAll(l, cs)|
    ensures cs == [] ==> last == -1
    ensures cs != [] ==> last == At(l, cs, |cs| - 1)
  {
    var cur: nat := 0;
    ghost var k := 0;
    StartAndEnd(l, cs);
    while cur < end
      invariant cs != [] ==> k < |cs| && cur == At(l, cs, k) && cur < end
      decreases |cs| - k
    {
      CursorStep(l, image, cs, end, cur, k);
      var len := CommandLength(l, NumberAt(image, cur, l.header));
      if cur + len == end {
        return cur;
      }
      cur := cur + len;
      k := k + 1;
    }
    return -1;
  }

  /** Dropping a trailing SPI write drops one header. */
  lemma TrimmedEncode(l: Layout, cs: seq<Command>)
    requires EndsInSpi(cs)
    ensures EncodeAll(l, cs) == EncodeAll(l, Trimmed(cs)) + Encode(l, SpiWrite)
    ensures |Encode(l, SpiWrite)| == l.header
  {
    assert cs == Trimmed(cs) + [SpiWrite];
    EncodeAppend(l, Trimmed(cs), SpiWrite);
  }

  class Queue {
    const l: Layout
    const buf: array<byte>
    var end: nat
    var repeat: nat
    ghost var cmds: seq<Command>
    /** The requests since the queue was cleared, and whether all of them were accepted. */
    ghost var reqs: seq<Command>
    ghost var complete: bool

    /** The bytes up to end encode cmds. */
    ghost predicate BytesOk()
      reads this, buf
    {
      && l.Valid() && buf.Length == COMMAND_QUEUE_LENGTH && end <= buf.Length
      && buf[..end] == EncodeAll(l, cmds) && AllInRange(l, cmds)
    }

    ghost predicate Valid()
      reads this, buf
    {
      BytesOk() && SpiWrite !in reqs && (complete ==> cmds == Spread(reqs))
    }

    constructor (layout: Layout)
      requires layout.Valid()
      ensures Valid() && fresh(buf) && l == layout && end == 0 && repeat == 0 && cmds == reqs == [] && complete
    {
      l := layout;
      buf := new byte[COMMAND_QUEUE_LENGTH];
      end, repeat := 0, 0;
      cmds, reqs, complete := [], [], true;
      new;
      assert EncodeAll(l, []) == [];
    }

    /** commands_clear. */
    method Clear()
      requires Valid()
      modifies this
      ensures Valid() && cmds == reqs == [] && complete && repeat == old(repeat)
    {
      end := 0;
      cmds, reqs, complete := [], [], true;
      assert EncodeAll(l, []) == [];
    }

    /** commands_repeat. */
    method Repeat(count: nat)
      requires Valid()
      modifies `repeat
      ensures Valid() && repeat == count
    {
      repeat := count;
    }

    /** memcpy into the buffer. */
    method Store(at: nat, bytes: seq<byte>)
      requires at + |bytes| <= buf.Length
      modifies buf
      ensures buf[..at + |bytes|] == old(buf[..at]) + bytes
    {
      var i := 0;
      while i < |bytes|
        invariant 0 <= i <= |bytes|
        invariant buf[..at + i] == old(buf[..at]) + bytes[..i]
      {
        buf[at + i] := bytes[i];
        i := i + 1;
        assert buf[..at + i] == buf[..at + i - 1] + [bytes[i - 1]];
      }
    }

    /** A header and what follows it. */
    method StoreCommand(at: nat, header: seq<byte>, payload: seq<byte>)
      requires at + |header| + |payload| <= buf.Length
      modifies buf
      ensures buf[..at + |header| + |payload|] == old(buf[..at]) + (header + payload)
    {
      Store(at, header);
      Store(at + |header|, payload);
      Assoc(old(buf[..at]), header, payload);
    }

    /** command_queue: appends a command, or returns 1 when there is no room for it. */
    method Append(t: nat, payload: seq<byte>, ghost c: Command) returns (full: nat)
      requires BytesOk() && InRange(l, c) && t == TypeOf(c) && payload == Payload(l, c)
      modifies buf, `end, `cmds
      ensures BytesOk() && cmds == Appended(l, old(cmds), c)
      ensures full == if HasRoom(l, old(cmds), c) then 0 else 1
      ensures if |EncodeAll(l, old(cmds))| + |Encode(l, c)| <= 1024 then full == 0 && cmds == old(cmds) + [c]
              else full == 1 && cmds == old(cmds)
    {
      if end + l.header + |payload| > COMMAND_QUEUE_LENGTH {
        return 1;
      }
      StoreCommand(end, LittleEndian(t, l.header), payload);
      end := end + l.header + |payload|;
      EncodeAppend(l, cmds, c);
      cmds := cmds + [c];
      return 0;
    }

    /** find_last_command: the position of the last command, or -1. */
    method FindLast() returns (last: int)
      requires BytesOk()
      ensures cmds == [] ==> last == -1
      ensures cmds != [] ==> last == At(l, cmds, |cmds| - 1)
    {
      assert buf[..][0..end] == buf[..end];
      last := LastIn(l, buf[..], end, cmds);
    }

    /** command_queue_pin, _trigger, _update and _wait. */
    method QueueOther(c: Command) returns (ret: nat)
      requires Valid() && InRange(l, c) && !c.Register? && !c.SpiWrite?
      modifies this, buf
      ensures Valid() && reqs == old(reqs) + [c] && repeat == old(repeat)
      ensures complete == (old(complete) && ret == 0)
      ensures cmds == Appended(l, old(cmds), c) && (ret == 0 <==> HasRoom(l, old(cmds), c))
    {
      ret := Append(TypeOf(c), Payload(l, c), c);
      SpreadOther(reqs, c);
      reqs := reqs + [c];
      complete := complete && ret == 0;
    }

    /** command_queue_register: a trailing SPI write moves behind the new register command. */
    method QueueRegister(reg: nat, value: nat) returns (ret: nat)
      requires Valid() && InRange(l, Register(reg, value))
      modifies this, buf
      ensures Valid() && reqs == old(reqs) + [Register(reg, value)] && repeat == old(repeat)
      ensures complete == (old(complete) && ret == 0)
      ensures cmds == Appended(l, Appended(l, Trimmed(old(cmds)), Register(reg, value)), SpiWrite)
      ensures ret == 0 <==> RegisterFits(l, old(cmds), Register(reg, value))
    {
      ghost var c := Register(reg, value);
      DropSpi();
      ret := Append(1, LittleEndian(reg, l.pointer) + LittleEndian(value, l.word), c);
      var more := Append(6, [], SpiWrite);
      ret := ret + more;
      RegisterSpread(l, old(cmds), reqs, c);
      reqs := reqs + [c];
      complete := complete && ret == 0;
    }

    /** The first part of command_queue_register. */
    method DropSpi()
      requires BytesOk()
      modifies `end, `cmds
      ensures BytesOk() && cmds == Trimmed(old(cmds))
    {
      var last := FindLast();
      assert buf[..][..end] == buf[..end];
      if cmds != [] { LastIs(l, buf[..], cmds); }
      if last != -1 && NumberAt(buf[..], last, l.header) == 6 {
        TrimmedEncode(l, cmds);
        ghost var bytes := buf[..end];
        end := end - l.header;
        cmds := Trimmed(cmds);
        assert buf[..end] == bytes[..end];
      }
    }
  }

  // ----- a queue that fills up

  function Triggers(n: nat): seq<Command> {
    seq(n, _ => Trigger)
  }

  lemma {:induction false} TriggersLength(n: nat)
    ensures |EncodeAll(PACKED, Triggers(n))| == 4 * n
  {
    if n == 0 {
      assert EncodeAll(PACKED, []) == [];
    } else {
      TriggersLength(n - 1);
      assert Triggers(n) == Triggers(n - 1) + [Trigger];
      EncodeAppend(PACKED, Triggers(n - 1), Trigger);
    }
  }

  /** What a register request makes of a queue of n trigger commands. */
  function AfterTriggers(n: nat): seq<Command> {
    if n <= 252 then Triggers(n) + [Register(0, 0), SpiWrite]
    else if n == 253 then Triggers(n) + [Register(0, 0)]
    else if n <= 255 then Triggers(n) + [SpiWrite]
    else Triggers(n)
  }

  lemma RegisterAfterTriggers(n: nat)
    requires n <= 256
    ensures Appended(PACKED, Appended(PACKED, Trimmed(Triggers(n)), Register(0, 0)), SpiWrite) == AfterTriggers(n)
    ensures RegisterFits(PACKED, Triggers(n), Register(0, 0)) <==> n <= 252
  {
    var cs := Triggers(n);
    assert Trimmed(cs) == cs;
    TriggersLength(n);
    EncodeAppend(PACKED, cs, Register(0, 0));
    assert cs + [Register(0, 0)] + [SpiWrite] == cs + [Register(0, 0), SpiWrite];
  }

  /** The refused requests that change the queue do occur: behind 253 trigger commands a register
      command is queued without its SPI write, behind 254 an SPI write without its register
      command, and both requests report failure. */
  method FillThenRegister(n: nat) returns (q: Queue, ret: nat)
    requires n <= 256
    ensures fresh(q) && fresh(q.buf) && q.Valid() && q.reqs == Triggers(n) + [Register(0, 0)]
    ensures q.cmds == AfterTriggers(n) && (ret == 0 <==> n <= 252)
  {
    q := FillWithTriggers(n);
    RegisterAfterTriggers(n);
    ZeroInRange();
    ret := q.QueueRegister(0, 0);
  }

  method FillWithTriggers(n: nat) returns (q: Queue)
    requires n <= 256
    ensures fresh(q) && fresh(q.buf) && q.Valid() && q.l == PACKED && q.cmds == q.reqs == Triggers(n)
  {
    q := new Queue(PACKED);
    var k := 0;
    while k < n
      invariant k <= n && fresh(q) && fresh(q.buf) && q.Valid() && q.l == PACKED
      invariant q.cmds == q.reqs == Triggers(k)
    {
      OneMoreTrigger(k);
      var full := q.QueueOther(Trigger);
      k := k + 1;
    }
  }

  lemma OneMoreTrigger(k: nat)
    requires k < 256
    ensures HasRoom(PACKED, Triggers(k), Trigger) && Triggers(k + 1) == Triggers(k) + [Trigger]
  {
    TriggersLength(k);
  }

  lemma ZeroInRange()
    ensures InRange(PACKED, Register(0, 0))
  {
    PowPositive(4);
  }

  // ----- execution

  /** What the interpreter finds at command k, and where it gets to from there. */
  lemma CommandFound(l: Layout, image: seq<byte>, begin: nat, end: nat, cs: seq<Command>, k: nat, cur: nat)
    requires l.Valid() && begin <= end <= |image| && image[begin..end] == EncodeAll(l, cs) && AllInRange(l, cs)
    requires k < |cs| && cur == begin + At(l, cs, k)
    ensures cur + l.header <= |image| && NumberAt(image, cur, l.header) == TypeOf(cs[k])
    ensures cur + CommandLength(l, TypeOf(cs[k])) == begin + At(l, cs, k + 1) <= end
    ensures Decode(l, image, cur) == cs[k] && (k + 1 == |cs| <==> begin + At(l, cs, k + 1) == end)
  {
    Boundary(l, image, begin, cs, k);
    CommandDecodes(l, image, begin, cs, k);
  }

  /** The interpreter: the shadow registers, update_registers, and what went out. */
  class Machine {
    const chip: Chip
    var shadow: seq<Word>
    var dirty: set<nat>
    var log: seq<Action>

    ghost predicate Valid()
      reads this
    {
      |shadow| == |chip.address|
    }

    function Now(): State
      reads this
    {
      State(shadow, dirty, log)
    }

    constructor (chip: Chip, initial: seq<Word>)
      requires |initial| == |chip.address|
      ensures Valid() && this.chip == chip && Now() == State(initial, {}, [])
    {
      this.chip := chip;
      shadow, dirty, log := initial, {}, [];
    }

    /** execute_command: performs the command at a position and returns its length. */
    method ExecuteCommand(l: Layout, image: seq<byte>, at: nat, ghost c: Command) returns (len: nat)
      requires Valid() && Known(chip, c)
      requires at + l.header <= |image| && NumberAt(image, at, l.header) == TypeOf(c)
      requires at + CommandLength(l, TypeOf(c)) <= |image| && Decode(l, image, at) == c
      modifies this
      ensures Valid() && Now() == Step(chip, old(Now()), c) && len == CommandLength(l, TypeOf(c))
    {
      var p := at + l.header;
      len := l.header;
      match NumberAt(image, at, l.header) {
        case 1 =>
          var reg, value := NumberAt(image, p, l.pointer), NumberAt(image, p + l.pointer, l.word);
          shadow := Apply(shadow, Write(chip.fields[reg], ToWord(value)));
          dirty := dirty + {chip.address[chip.fields[reg].reg]};
          len := len + l.pointer + l.word;
        case 2 =>
          log := log + [SetPin(NumberAt(image, p, l.pointer), NumberAt(image, p + l.pointer, l.word),
                               NumberAt(image, p + l.pointer + l.word, l.word))];
          len := len + l.pointer + l.word + l.word;
        case 3 =>
          log := log + [AwaitTrigger];
        case 4 =>
          log := log + [Delay(NumberAt(image, p, l.word))];
          len := len + l.word;
        case 5 =>
          log := log + [IoUpdate];
        case _ =>
          log := log + [SpiUpdate(dirty)];
          dirty := {};
      }
    }

    /** The inner loop of execute_commands: from command boundary to command boundary, and it
        stops exactly at the end. */
    method ExecuteOnce(l: Layout, image: seq<byte>, begin: nat, end: nat, ghost cs: seq<Command>)
      requires Valid() && l.Valid() && AllInRange(l, cs) && AllKnown(chip, cs)
      requires begin <= end <= |image| && image[begin..end] == EncodeAll(l, cs)
      modifies this
      ensures Valid() && Now() == Run(chip, old(Now()), cs)
    {
      var cur := begin;
      ghost var k := 0;
      assert cs[..0] == [];
      while cur < end
        invariant Valid() && k <= |cs| && cur == begin + At(l, cs, k) && cur <= end
        invariant k == |cs| <==> cur == end
        invariant AllKnown(chip, cs[..k]) && Now() == Run(chip, old(Now()), cs[..k])
        decreases |cs| - k
      {
        CommandFound(l, image, begin, end, cs, k, cur);
        RunPrefix(chip, old(Now()), cs, k);
        var len := ExecuteCommand(l, image, cur, cs[k]);
        cur := cur + len;
        k := k + 1;
      }
      assert cs[..k] == cs;
    }

    /** execute_commands: the whole queue repeat + 1 times. */
    method Execute(l: Layout, image: seq<byte>, begin: nat, end: nat, repeat: nat, ghost cs: seq<Command>)
      requires Valid() && l.Valid() && AllInRange(l, cs) && AllKnown(chip, cs)
      requires begin <= end <= |image| && image[begin..end] == EncodeAll(l, cs)
      modifies this
      ensures Valid() && Now() == RunTimes(chip, old(Now()), cs, repeat + 1)
    {
      var i := 0;
      ExecuteOnce(l, image, begin, end, cs);
      assert RunTimes(chip, old(Now()), cs, 0) == old(Now());
      while i < repeat
        invariant Valid() && i <= repeat && Now() == RunTimes(chip, old(Now()), cs, i + 1)
      {
        i := i + 1;
        ExecuteOnce(l, image, begin, end, cs);
      }
    }

    /** commands_execute. */
    method ExecuteQueue(q: Queue)
      requires Valid() && q.Valid() && AllKnown(chip, q.cmds)
      modifies this
      ensures Valid() && Now() == RunTimes(chip, old(Now()), q.cmds, q.repeat + 1)
      ensures q.complete && AllKnown(chip, q.reqs) && old(dirty) == {} ==>
        Now() == State(ShadowsTimes(chip, old(shadow), q.reqs, q.repeat + 1), {},
                       old(log) + ActionsTimes(chip, q.reqs, q.repeat + 1))
    {
      if q.complete && AllKnown(chip, q.reqs) && dirty == {} { ExecutionMeaning(chip, Now(), q.reqs, q.repeat + 1); }
      var image := q.buf[..];
      assert image[0..q.end] == q.buf[..q.end];
      Execute(q.l, image, 0, q.end, q.repeat, q.cmds);
    }
  }

  /** The requests one time after another. */
  function ShadowsTimes(chip: Chip, shadow: seq<Word>, reqs: seq<Command>, n: nat): (r: seq<Word>)
    requires |shadow| == |chip.address| && AllKnown(chip, reqs)
    ensures |r| == |shadow|
  {
    if n == 0 then shadow else Shadows(chip, ShadowsTimes(chip, shadow, reqs, n - 1), reqs)
  }

  function ActionsTimes(chip: Chip, reqs: seq<Command>, n: nat): seq<Action>
    requires AllKnown(chip, reqs) && SpiWrite !in reqs
  {
    if n == 0 then [] else ActionsTimes(chip, reqs, n - 1) + Actions(chip, reqs)
  }

  /** After accepted requests, executing the queue n times performs the requests in order, n
      times, on the shadow registers, sends every maximal register run in one SPI update with
      exactly its addresses, and leaves nothing unsent. */
  lemma {:induction false} ExecutionMeaning(chip: Chip, s: State, reqs: seq<Command>, n: nat)
    requires |s.shadow| == |chip.address| && AllKnown(chip, reqs) && SpiWrite !in reqs && s.dirty == {}
    ensures AllKnown(chip, Spread(reqs))
    ensures RunTimes(chip, s, Spread(reqs), n)
         == State(ShadowsTimes(chip, s.shadow, reqs, n), {}, s.log + ActionsTimes(chip, reqs, n))
  {
    SpreadKnown(chip, reqs);
    if n > 0 {
      ExecutionMeaning(chip, s, reqs, n - 1);
      RunMeaning(chip, RunTimes(chip, s, Spread(reqs), n - 1), reqs);
      Assoc(s.log, ActionsTimes(chip, reqs, n - 1), Actions(chip, reqs));
    } else {
      assert s.log + [] == s.log;
    }
  }

  /** What leaves the processor in n runs is what leaves it in one run, n times. */
  lemma {:induction false} ActionsRepeat(chip: Chip, reqs: seq<Command>, n: nat, k: nat, i: nat)
    requires AllKnown(chip, reqs) && SpiWrite !in reqs && k < n && i < |Actions(chip, reqs)|
    ensures
      var one, all := Actions(chip, reqs), ActionsTimes(chip, reqs, n);
      |all| == n * |one| && k * |one| + i < |all| && all[k * |one| + i] == one[i]
  {
    var one, before := Actions(chip, reqs), ActionsTimes(chip, reqs, n - 1);
    ActionsLength(chip, reqs, n - 1);
    NextMultiple(n - 1, |one|);
    if k < n - 1 {
      ActionsRepeat(chip, reqs, n - 1, k, i);
    }
  }

  lemma {:induction false} ActionsLength(chip: Chip, reqs: seq<Command>, n: nat)
    requires AllKnown(chip, reqs) && SpiWrite !in reqs
    ensures |ActionsTimes(chip, reqs, n)| == n * |Actions(chip, reqs)|
  {
    if n > 0 {
      ActionsLength(chip, reqs, n - 1);
      NextMultiple(n - 1, |Actions(chip, reqs)|);
    }
  }

  lemma NextMultiple(n: nat, d: nat)
    ensures (n + 1) * d == n * d + d
  {
  }

  /** After the accepted requests have run, once or more often, the field of a register request
      that no later one overlaps reads back the requested value modulo 2^bits. */
  lemma FieldAfterRun(chip: Chip, s: State, reqs: seq<Command>, n: nat, k: nat)
    requires chip.Valid() && |s.shadow| == |chip.address| && AllKnown(chip, reqs) && SpiWrite !in reqs && s.dirty == {}
    requires 0 < n && k < |reqs| && reqs[k].Register? && Known(chip, reqs[k]) && reqs[k].value < Pow2(WIDTH)
    requires forall j :: k < j < |reqs| ==> Elsewhere(chip, reqs[j], FieldOf(chip, reqs[k]))
    ensures AllKnown(chip, Spread(reqs))
    ensures
      var f := FieldOf(chip, reqs[k]);
      Value(GetBits(RunTimes(chip, s, Spread(reqs), n).shadow[f.reg], f)) == reqs[k].value % Pow2(f.bits)
  {
    ExecutionMeaning(chip, s, reqs, n);
    FieldReadsBack(chip, ShadowsTimes(chip, s.shadow, reqs, n - 1), reqs, k);
  }
}
