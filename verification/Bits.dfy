/** Unsigned machine words as their bits, least significant first. */
module Bits {
  import opened Basics

  const WIDTH: nat := 64

  /** A uint64_t. */
  type Word = w: seq<bool> | |w| == WIDTH witness seq(WIDTH, i => false)

  /** A uint8_t. */
  type Octet = o: seq<bool> | |o| == 8 witness seq(8, i => false)

  const ZERO: Word := seq(WIDTH, i => false)

  function And(a: Word, b: Word): (r: Word)
    ensures forall i :: 0 <= i < WIDTH ==> r[i] == (a[i] && b[i])
  {
    seq(WIDTH, i requires 0 <= i < WIDTH => a[i] && b[i])
  }

  function Or(a: Word, b: Word): (r: Word)
    ensures forall i :: 0 <= i < WIDTH ==> r[i] == (a[i] || b[i])
  {
    seq(WIDTH, i requires 0 <= i < WIDTH => a[i] || b[i])
  }

  function Not(a: Word): (r: Word)
    ensures forall i :: 0 <= i < WIDTH ==> r[i] == !a[i]
  {
    seq(WIDTH, i requires 0 <= i < WIDTH => !a[i])
  }

  /** a << k, for k < 64. */
  function Shl(a: Word, k: nat): (r: Word)
    ensures forall i :: 0 <= i < WIDTH ==> r[i] == (i >= k && a[i - k])
  {
    seq(WIDTH, i requires 0 <= i < WIDTH => i >= k && a[i - k])
  }

  /** a >> k, for k < 64. */
  function Shr(a: Word, k: nat): (r: Word)
    ensures forall i :: 0 <= i < WIDTH ==> r[i] == (i + k < WIDTH && a[i + k])
  {
    seq(WIDTH, i requires 0 <= i < WIDTH => i + k < WIDTH && a[i + k])
  }

  /** (1 << bits) - 1, for bits < 64. */
  function Mask(bits: nat): (r: Word)
    ensures forall i :: 0 <= i < WIDTH ==> r[i] == (i < bits)
  {
    seq(WIDTH, i => i < bits)
  }

  /** A uint8_t widened to a uint64_t. */
  function Widen(o: Octet): (r: Word)
    ensures forall i :: 0 <= i < WIDTH ==> r[i] == (i < 8 && o[i])
  {
    seq(WIDTH, i requires 0 <= i => i < 8 && o[i])
  }

  // ----- the numbers that words stand for

  function Value(w: seq<bool>): nat {
    if w == [] then 0 else (if w[0] then 1 else 0) + 2 * Value(w[1..])
  }

  lemma {:induction false} ValueBound(w: seq<bool>)
    ensures Value(w) < Pow2(|w|)
  {
    if w != [] { ValueBound(w[1..]); }
  }

  lemma {:induction false} ValueZeros(w: seq<bool>)
    requires forall i :: 0 <= i < |w| ==> !w[i]
    ensures Value(w) == 0
  {
    if w != [] { ValueZeros(w[1..]); }
  }

  lemma {:induction false} ValueOnes(w: seq<bool>)
    requires forall i :: 0 <= i < |w| ==> w[i]
    ensures Value(w) == Pow2(|w|) - 1
  {
    if w != [] { ValueOnes(w[1..]); }
  }

  lemma {:induction false} ValueJoin(a: seq<bool>, b: seq<bool>)
    ensures Value(a + b) == Value(a) + Pow2(|a|) * Value(b)
  {
    if a == [] {
      assert a + b == b;
    } else {
      ValueJoin(a[1..], b);
      assert (a + b)[1..] == a[1..] + b;
      Doubling(Pow2(|a| - 1), Value(b));
    }
  }

  lemma Doubling(p: nat, v: nat)
    ensures 2 * (p * v) == 2 * p * v
  {
  }

  lemma ModSum(a: nat, p: nat, v: nat)
    requires a < p
    ensures (a + p * v) % p == a
  {
    var s := a + p * v;
    var q, r := s / p, s % p;
    assert s == p * q + r;
    AtLeast(p, q - v);
    AtLeast(p, v - q);
    assert p * (q - v) == p * q - p * v && p * (v - q) == p * v - p * q;
  }

  /** The mask is the number that the code computes for it. */
  lemma MaskValue(bits: nat)
    requires bits < WIDTH
    ensures Value(Mask(bits)) == Pow2(bits) - 1
  {
    var ones, zeros := Mask(bits)[..bits], Mask(bits)[bits..];
    assert Mask(bits) == ones + zeros;
    ValueJoin(ones, zeros);
    ValueOnes(ones);
    ValueZeros(zeros);
  }

  /** Masking is taking the remainder. */
  lemma MaskIsMod(x: Word, bits: nat)
    requires bits <= WIDTH
    ensures Value(And(x, Mask(bits))) == Value(x) % Pow2(bits)
  {
    var low, zeros, y := x[..bits], Mask(bits)[bits..], And(x, Mask(bits));
    assert y == low + y[bits..];
    ValueJoin(low, y[bits..]);
    ValueZeros(y[bits..]);
    assert x == low + x[bits..];
    ValueJoin(low, x[bits..]);
    ValueBound(low);
    ModSum(Value(low), Pow2(bits), Value(x[bits..]));
  }

  /** The lowest n bits of v. */
  function BitsOf(v: nat, n: nat): (r: seq<bool>)
    ensures |r| == n
  {
    if n == 0 then [] else [v % 2 == 1] + BitsOf(v / 2, n - 1)
  }

  function ToWord(v: nat): Word {
    BitsOf(v, WIDTH)
  }

  lemma {:induction false} ValueOfBits(v: nat, n: nat)
    requires v < Pow2(n)
    ensures Value(BitsOf(v, n)) == v
  {
    if n > 0 {
      ValueOfBits(v / 2, n - 1);
      assert BitsOf(v, n)[1..] == BitsOf(v / 2, n - 1);
    }
  }
}
