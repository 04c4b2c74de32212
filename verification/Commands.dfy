/** The packed command queue of src/commands.c: layout of commands in memory, and what
    executing them does to the shadow registers and to the outside. */
module Commands {
  import opened Bytes

  const COMMAND_QUEUE_LENGTH: nat := 1024

  /** Sizes of the command header, of a pointer and of a 32-bit word. */
  datatype Layout = Layout(header: nat, pointer: nat, word: nat) {
    predicate Valid() { 0 < header }
  }

  datatype Command =
    | Register(reg: nat, value: nat)
    | Pin(group: nat, pin: nat, level: nat)
    | Trigger
    | Wait(delay: nat)
    | Update
    | SpiWrite

  // ----- layout

  /** command_type. */
  function TypeOf(c: Command): (t: nat)
    ensures 1 <= t <= 6
  {
    match c
    case Register(_, _) => 1
    case Pin(_, _, _) => 2
    case Trigger => 3
    case Wait(_) => 4
    case Update => 5
    case SpiWrite => 6
  }

  function Payload(l: Layout, c: Command): seq<byte> {
    match c
    case Register(reg, value) => LittleEndian(reg, l.pointer) + LittleEndian(value, l.word)
    case Pin(group, pin, level) =>
      LittleEndian(group, l.pointer) + LittleEndian(pin, l.word) + LittleEndian(level, l.word)
    case Wait(delay) => LittleEndian(delay, l.word)
    case _ => []
  }

  function Encode(l: Layout, c: Command): seq<byte> {
    LittleEndian(TypeOf(c), l.header) + Payload(l, c)
  }

  function Parts(l: Layout, cs: seq<Command>): seq<seq<byte>> {
    seq(|cs|, i requires 0 <= i < |cs| => Encode(l, cs[i]))
  }

  /** The bytes of a queue that holds the commands cs. */
  function EncodeAll(l: Layout, cs: seq<Command>): seq<byte> {
    Flat(Parts(l, cs))
  }

  /** get_command_length. */
  function CommandLength(l: Layout, t: nat): nat {
    l.header + match t
               case 1 => l.pointer + l.word
               case 2 => l.pointer + l.word + l.word
               case 4 => l.word
               case _ => 0
  }

  /** The values of a command fit into their places. */
  predicate InRange(l: Layout, c: Command) {
    match c
    case Register(reg, value) => reg < Pow256(l.pointer) && value < Pow256(l.word)
    case Pin(group, pin, level) => group < Pow256(l.pointer) && pin < Pow256(l.word) && level < Pow256(l.word)
    case Wait(delay) => delay < Pow256(l.word)
    case _ => true
  }

  /** The command that execute_command finds at a position. */
  function Decode(l: Layout, image: seq<byte>, at: nat): Command
    requires at + l.header <= |image|
    requires at + CommandLength(l, NumberAt(image, at, l.header)) <= |image|
  {
    var p := at + l.header;
    match NumberAt(image, at, l.header)
    case 1 => Register(NumberAt(image, p, l.pointer), NumberAt(image, p + l.pointer, l.word))
    case 2 => Pin(NumberAt(image, p, l.pointer), NumberAt(image, p + l.pointer, l.word),
                  NumberAt(image, p + l.pointer + l.word, l.word))
    case 3 => Trigger
    case 4 => Wait(NumberAt(image, p, l.word))
    case 5 => Update
    case _ => SpiWrite
  }

  lemma SmallType(l: Layout, t: nat)
    requires l.Valid() && t < 256
    ensures t < Pow256(l.header)
  {
    assert Pow256(l.header - 1) >= 1 by { PowPositive(l.header - 1); }
  }

  lemma PowPositive(n: nat)
    ensures Pow256(n) >= 1
  {
  }

  lemma HeaderDecodes(l: Layout, image: seq<byte>, at: nat, c: Command)
    requires l.Valid() && Holds(image, at, Encode(l, c))
    ensures at + l.header <= |image| && NumberAt(image, at, l.header) == TypeOf(c)
    ensures Holds(image, at + l.header, Payload(l, c))
  {
    var h := LittleEndian(TypeOf(c), l.header);
    SmallType(l, TypeOf(c));
    HoldsParts(image, at, h, Payload(l, c));
    NumberHeld(image, at, h, TypeOf(c), l.header);
  }

  /** Headers, pointers and words of four bytes. */
  const PACKED := Layout(4, 4, 4)

  /** Each kind of command by its number, and the order of what follows (enum command_type and the
      structs of include/commands.h). */
  lemma EncodingIs(l: Layout, a: nat, b: nat, c: nat)
    ensures Encode(l, Register(a, b)) ==
            LittleEndian(1, l.header) + (LittleEndian(a, l.pointer) + LittleEndian(b, l.word))
    ensures Encode(l, Pin(a, b, c)) ==
            LittleEndian(2, l.header) + (LittleEndian(a, l.pointer) + LittleEndian(b, l.word) + LittleEndian(c, l.word))
    ensures Encode(l, Trigger) == LittleEndian(3, l.header)
    ensures Encode(l, Wait(a)) == LittleEndian(4, l.header) + LittleEndian(a, l.word)
    ensures Encode(l, Update) == LittleEndian(5, l.header) && Encode(l, SpiWrite) == LittleEndian(6, l.header)
  {
  }

  lemma EncodedLength(l: Layout, c: Command)
    ensures CommandLength(l, TypeOf(c)) == |Encode(l, c)|
  {
  }

  /** A command decodes to itself wherever it is stored. */
  lemma DecodeEncode(l: Layout, image: seq<byte>, at: nat, c: Command)
    requires l.Valid() && InRange(l, c) && Holds(image, at, Encode(l, c))
    ensures at + l.header <= |image| && NumberAt(image, at, l.header) == TypeOf(c)
    ensures CommandLength(l, TypeOf(c)) == |Encode(l, c)|
    ensures Decode(l, image, at) == c
  {
    EncodedLength(l, c);
    HeaderDecodes(l, image, at, c);
    PayloadDecodes(l, image, at + l.header, c);
  }

  lemma PayloadDecodes(l: Layout, image: seq<byte>, p: nat, c: Command)
    requires InRange(l, c) && Holds(image, p, Payload(l, c))
    ensures
      match c
      case Register(reg, value) =>
        NumberAt(image, p, l.pointer) == reg && NumberAt(image, p + l.pointer, l.word) == value
      case Pin(group, pin, level) =>
        && NumberAt(image, p, l.pointer) == group && NumberAt(image, p + l.pointer, l.word) == pin
        && NumberAt(image, p + l.pointer + l.word, l.word) == level
      case Wait(delay) => NumberAt(image, p, l.word) == delay
      case _ => true
  {
    match c
    case Register(reg, value) =>
      TwoNumbersHeld(image, p, LittleEndian(reg, l.pointer), LittleEndian(value, l.word),
                     reg, l.pointer, value, l.word);
    case Pin(group, pin, level) =>
      var a, b, d := LittleEndian(group, l.pointer), LittleEndian(pin, l.word), LittleEndian(level, l.word);
      HoldsParts(image, p, a + b, d);
      TwoNumbersHeld(image, p, a, b, group, l.pointer, pin, l.word);
      NumberHeld(image, p + l.pointer + l.word, d, level, l.word);
    case Wait(delay) =>
      NumberHeld(image, p, LittleEndian(delay, l.word), delay, l.word);
    case _ =>
  }

  lemma EncodeAppend(l: Layout, cs: seq<Command>, c: Command)
    ensures EncodeAll(l, cs + [c]) == EncodeAll(l, cs) + Encode(l, c)
  {
    assert Parts(l, cs + [c]) == Parts(l, cs) + [Encode(l, c)];
    FlatAppend(Parts(l, cs), Encode(l, c));
  }

  /** Position of command k. */
  function At(l: Layout, cs: seq<Command>, k: nat): nat
    requires k <= |cs|
  {
    |EncodeAll(l, cs[..k])|
  }

  lemma EncodeSplit(l: Layout, cs: seq<Command>, k: nat)
    requires k < |cs|
    ensures EncodeAll(l, cs) == EncodeAll(l, cs[..k]) + (Encode(l, cs[k]) + EncodeAll(l, cs[k + 1..]))
    ensures At(l, cs, k + 1) == At(l, cs, k) + |Encode(l, cs[k])|
  {
    var ps := Parts(l, cs);
    assert Parts(l, cs[..k]) == ps[..k] && Parts(l, cs[..k + 1]) == ps[..k + 1] && Parts(l, cs[k + 1..]) == ps[k + 1..];
    FlatSplit(ps, k);
    FlatPrefix(ps, k);
  }

  lemma NotEmpty(l: Layout, cs: seq<Command>)
    requires l.Valid() && cs != []
    ensures |EncodeAll(l, cs)| > 0
  {
    assert |Encode(l, cs[0])| > 0;
    EncodeSplit(l, cs, 0);
  }

  /** Command k lies at its position. */
  lemma CommandHeld(l: Layout, image: seq<byte>, begin: nat, cs: seq<Command>, k: nat)
    requires Holds(image, begin, EncodeAll(l, cs)) && k < |cs|
    ensures Holds(image, begin + At(l, cs, k), Encode(l, cs[k]))
    ensures At(l, cs, k + 1) == At(l, cs, k) + |Encode(l, cs[k])| <= |EncodeAll(l, cs)|
    ensures l.Valid() ==> (k + 1 == |cs| <==> At(l, cs, k + 1) == |EncodeAll(l, cs)|)
  {
    var e, post := Encode(l, cs[k]), EncodeAll(l, cs[k + 1..]);
    EncodeSplit(l, cs, k);
    HoldsParts(image, begin, EncodeAll(l, cs[..k]), e + post);
    HoldsParts(image, begin + At(l, cs, k), e, post);
    if k + 1 < |cs| && l.Valid() { NotEmpty(l, cs[k + 1..]); }
  }

  /** Command boundaries: what get_command_length finds at command k of a queue that starts at
      begin leads to the next command, and from the last one to the end. */
  lemma Boundary(l: Layout, image: seq<byte>, begin: nat, cs: seq<Command>, k: nat)
    requires l.Valid() && Holds(image, begin, EncodeAll(l, cs)) && k < |cs|
    ensures
      var at, next, end := begin + At(l, cs, k), begin + At(l, cs, k + 1), begin + |EncodeAll(l, cs)|;
      && at + l.header <= |image| && at < end
      && NumberAt(image, at, l.header) == TypeOf(cs[k])
      && at + CommandLength(l, TypeOf(cs[k])) == next <= end
      && (k + 1 == |cs| <==> next == end)
  {
    CommandHeld(l, image, begin, cs, k);
    EncodedLength(l, cs[k]);
    HeaderDecodes(l, image, begin + At(l, cs, k), cs[k]);
  }

  /** What execute_command finds there is the command itself. */
  lemma CommandDecodes(l: Layout, image: seq<byte>, begin: nat, cs: seq<Command>, k: nat)
    requires l.Valid() && Holds(image, begin, EncodeAll(l, cs)) && k < |cs| && InRange(l, cs[k])
    ensures
      var at := begin + At(l, cs, k);
      && at + l.header <= |image| && at + CommandLength(l, NumberAt(image, at, l.header)) <= |image|
      && Decode(l, image, at) == cs[k]
  {
    CommandHeld(l, image, begin, cs, k);
    DecodeEncode(l, image, begin + At(l, cs, k), cs[k]);
  }
}
