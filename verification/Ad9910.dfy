/** Register fields and SPI frames of the AD9910 driver. */
module Ad9910 {
  import opened Basics
  import opened Bits

  // ----- register fields

  /** ad9910_register_bit: bits of a register starting at offset. */
  datatype Field = Field(reg: nat, bits: nat, offset: nat) {
    predicate Valid() { bits < WIDTH && offset + bits <= WIDTH }

    /** No bit belongs to both fields. */
    predicate Disjoint(other: Field) {
      reg != other.reg || offset + bits <= other.offset || other.offset + other.bits <= offset
    }
  }

  function SetBits(value: Word, f: Field, x: Word): Word {
    Or(And(value, Not(Shl(Mask(f.bits), f.offset))), Shl(And(x, Mask(f.bits)), f.offset))
  }

  function GetBits(value: Word, f: Field): Word {
    And(Shr(value, f.offset), Mask(f.bits))
  }

  /** Each bit after a write: from x inside the field, unchanged outside. */
  lemma SetBit(value: Word, f: Field, x: Word, i: nat)
    requires f.Valid() && i < WIDTH
    ensures SetBits(value, f, x)[i] == if f.offset <= i < f.offset + f.bits then x[i - f.offset] else value[i]
  {
  }

  lemma GetAfterSet(value: Word, f: Field, x: Word)
    requires f.Valid()
    ensures GetBits(SetBits(value, f, x), f) == And(x, Mask(f.bits))
  {
    forall i | 0 <= i < WIDTH ensures GetBits(SetBits(value, f, x), f)[i] == And(x, Mask(f.bits))[i] {
      if i < f.bits { SetBit(value, f, x, i + f.offset); }
    }
  }

  lemma GetAfterOther(value: Word, f: Field, g: Field, x: Word)
    requires f.Valid() && g.Valid() && f.reg == g.reg && f.Disjoint(g)
    ensures GetBits(SetBits(value, g, x), f) == GetBits(value, f)
  {
    forall i | 0 <= i < WIDTH ensures GetBits(SetBits(value, g, x), f)[i] == GetBits(value, f)[i] {
      if i < f.bits { SetBit(value, g, x, i + f.offset); }
    }
  }

  /** The shadow registers, updated in place. */
  class Registers {
    var value: seq<Word>

    constructor (initial: seq<Word>)
      ensures value == initial
    {
      value := initial;
    }

    /** ad9910_get_value. */
    function GetValue(f: Field): Word
      requires f.Valid() && f.reg < |value|
      reads this
    {
      GetBits(value[f.reg], f)
    }

    /** ad9910_set_value: the field reads back the low bits of x, every other field as before. */
    method SetValue(f: Field, x: Word)
      requires f.Valid() && f.reg < |value|
      modifies this
      ensures value == Apply(old(value), Write(f, x))
      ensures GetValue(f) == And(x, Mask(f.bits))
      ensures forall g: Field :: g.Valid() && g.reg < |value| && g.Disjoint(f) ==> GetValue(g) == old(GetValue(g))
    {
      var mask := Mask(f.bits);
      value := value[f.reg := And(value[f.reg], Not(Shl(mask, f.offset)))];
      value := value[f.reg := Or(value[f.reg], Shl(And(x, mask), f.offset))];
      GetAfterSet(old(value)[f.reg], f, x);
      forall g: Field | g.Valid() && g.reg < |value| && g.Disjoint(f) ensures GetValue(g) == old(GetValue(g)) {
        if g.reg == f.reg { GetAfterOther(old(value)[f.reg], g, f, x); }
      }
    }
  }

  datatype Write = Write(field: Field, x: Word)

  function Apply(regs: seq<Word>, w: Write): (r: seq<Word>)
    requires w.field.reg < |regs|
    ensures |r| == |regs|
  {
    regs[w.field.reg := SetBits(regs[w.field.reg], w.field, w.x)]
  }

  predicate Fits(ws: seq<Write>, n: nat) {
    forall w :: w in ws ==> w.field.Valid() && w.field.reg < n
  }

  /** The registers after the writes ws, in order. */
  function ApplyAll(regs: seq<Word>, ws: seq<Write>): (r: seq<Word>)
    requires Fits(ws, |regs|)
    ensures |r| == |regs|
    decreases |ws|
  {
    if ws == [] then regs else
      assert ws[0] in ws && Fits(ws[1..], |regs|);
      ApplyAll(Apply(regs, ws[0]), ws[1..])
  }

  /** Writes to other fields do not show in a field. */
  lemma {:induction false} OthersKeep(regs: seq<Word>, ws: seq<Write>, f: Field)
    requires Fits(ws, |regs|) && f.Valid() && f.reg < |regs|
    requires forall w :: w in ws ==> f.Disjoint(w.field)
    ensures GetBits(ApplyAll(regs, ws)[f.reg], f) == GetBits(regs[f.reg], f)
    decreases |ws|
  {
    if ws != [] {
      var w := ws[0];
      assert w in ws;
      if w.field.reg == f.reg { GetAfterOther(regs[f.reg], f, w.field, w.x); }
      OthersKeep(Apply(regs, w), ws[1..], f);
    }
  }

  /** After any sequence of field writes, a field that no later write overlaps reads back the
      value of its last write modulo 2^bits. */
  lemma {:induction false} ReadsBack(regs: seq<Word>, ws: seq<Write>, k: nat)
    requires Fits(ws, |regs|) && k < |ws|
    requires forall j :: k < j < |ws| ==> ws[k].field.Disjoint(ws[j].field)
    ensures
      var f := ws[k].field;
      && f.reg < |regs|
      && GetBits(ApplyAll(regs, ws)[f.reg], f) == And(ws[k].x, Mask(f.bits))
      && Value(GetBits(ApplyAll(regs, ws)[f.reg], f)) == Value(ws[k].x) % Pow2(f.bits)
    decreases k
  {
    var w := ws[0];
    assert w in ws;
    if k == 0 {
      GetAfterSet(regs[w.field.reg], w.field, w.x);
      OthersKeep(Apply(regs, w), ws[1..], w.field);
      MaskIsMod(w.x, w.field.bits);
    } else {
      ReadsBack(Apply(regs, w), ws[1..], k - 1);
    }
  }

  // ----- SPI frames

  /** Byte k of a value in memory, on a little-endian processor. */
  function ByteOf(value: Word, k: nat): Octet
    requires k < 8
  {
    value[8 * k..8 * k + 8]
  }

  /** Value i of the transmitted frame: first the instruction, then the register bytes, most
      significant first. */
  function FrameByte(instr: Octet, value: Word, size: nat, i: nat): Octet
    requires i <= size <= 8
  {
    if i == 0 then instr else ByteOf(value, size - i)
  }

  /** ad9910_update_reg fills buf with a frame of size + 1 bytes. The write instruction is the
      address itself: AD9910_INSTR_WRITE is 0. */
  method UpdateReg(buf: array<Octet>, address: Octet, value: Word, size: nat)
    requires buf.Length == 9 && size <= 8
    modifies buf
    ensures buf[0] == address && forall i :: 1 <= i <= size ==> buf[i] == value[8 * (size - i)..8 * (size - i) + 8]
    ensures forall i :: 0 <= i <= size ==> buf[i] == FrameByte(address, value, size, i)
    ensures forall i :: size < i < 9 ==> buf[i] == old(buf[i])
  {
    buf[0] := address;
    var i := 1;
    while i <= size
      invariant 1 <= i <= size + 1
      invariant forall j :: 0 <= j < i ==> buf[j] == FrameByte(address, value, size, j)
      invariant forall j :: i <= j < 9 ==> buf[j] == old(buf[j])
    {
      buf[i] := ByteOf(value, size - i);
      i := i + 1;
    }
  }

  /** ad9910_read_register: shifts in the bytes that arrive over SPI. */
  method ReadRegister(received: seq<Octet>) returns (out: Word)
    requires |received| <= 8
    ensures forall k :: 0 <= k < |received| ==> ByteOf(out, k) == received[|received| - 1 - k]
    ensures forall i :: 8 * |received| <= i < WIDTH ==> !out[i]
  {
    out := ZERO;
    var n := 0;
    while n < |received|
      invariant n <= |received|
      invariant forall k :: 0 <= k < n ==> ByteOf(out, k) == received[n - 1 - k]
      invariant forall i :: 8 * n <= i < WIDTH ==> !out[i]
    {
      ghost var before := out;
      out := Shl(out, 8);
      out := Or(out, Widen(received[n]));
      forall k | 0 <= k < n + 1 ensures ByteOf(out, k) == received[n - k] {
        ShiftIn(before, received[n], k);
        if k > 0 { assert ByteOf(before, k - 1) == received[n - 1 - (k - 1)]; }
      }
      n := n + 1;
    }
  }

  /** Shifting a byte in moves the other bytes up. */
  lemma ShiftIn(w: Word, o: Octet, k: nat)
    requires k < 8
    ensures ByteOf(Or(Shl(w, 8), Widen(o)), k) == if k == 0 then o else ByteOf(w, k - 1)
  {
    var r := Or(Shl(w, 8), Widen(o));
    var b, expected := ByteOf(r, k), if k == 0 then o else ByteOf(w, k - 1);
    forall i | 0 <= i < 8 ensures b[i] == expected[i] {
      assert b[i] == r[8 * k + i];
    }
  }

  /** The bytes of a frame, read back by ad9910_read_register, are the register value modulo
      2^(8 * size). */
  lemma FrameRoundTrip(instr: Octet, value: Word, size: nat, received: seq<Octet>, out: Word)
    requires size <= 8 && |received| == size
    requires forall i :: 0 <= i < size ==> received[i] == FrameByte(instr, value, size, i + 1)
    requires forall k :: 0 <= k < size ==> ByteOf(out, k) == received[size - 1 - k]
    requires forall i :: 8 * size <= i < WIDTH ==> !out[i]
    ensures out == And(value, Mask(8 * size)) && Value(out) == Value(value) % Pow2(8 * size)
  {
    forall i | 0 <= i < WIDTH ensures out[i] == And(value, Mask(8 * size))[i] {
      if i < 8 * size {
        var k := i / 8;
        assert ByteOf(out, k) == received[size - 1 - k] == ByteOf(value, k);
        assert out[i] == ByteOf(out, k)[i - 8 * k] && value[i] == ByteOf(value, k)[i - 8 * k];
      }
    }
    MaskIsMod(value, 8 * size);
  }
}
