/** Bytes, and unsigned numbers stored in them least significant byte first. */
module Bytes {
  import opened Basics

  newtype byte = x: int | 0 <= x < 256

  /** Number of values of n bytes. */
  function Pow256(n: nat): nat {
    if n == 0 then 1 else 256 * Pow256(n - 1)
  }

  /** The n bytes of v in memory. */
  function LittleEndian(v: nat, n: nat): (r: seq<byte>)
    ensures |r| == n
  {
    if n == 0 then [] else [(v % 256) as byte] + LittleEndian(v / 256, n - 1)
  }

  /** The number stored in bs. */
  function Number(bs: seq<byte>): nat {
    if bs == [] then 0 else bs[0] as nat + 256 * Number(bs[1..])
  }

  lemma {:induction false} NumberOfBytes(v: nat, n: nat)
    requires v < Pow256(n)
    ensures Number(LittleEndian(v, n)) == v
  {
    if n > 0 {
      NumberOfBytes(v / 256, n - 1);
      assert LittleEndian(v, n)[1..] == LittleEndian(v / 256, n - 1);
    }
  }

  /** The least significant byte comes first. */
  lemma ByteOrder(a: byte, b: byte, c: byte, d: byte)
    ensures LittleEndian(a as nat + 256 * (b as nat + 256 * (c as nat + 256 * d as nat)), 4) == [a, b, c, d]
  {
    FirstByte(a, b as nat + 256 * (c as nat + 256 * d as nat), 4);
    FirstByte(b, c as nat + 256 * d as nat, 3);
    FirstByte(c, d as nat, 2);
    FirstByte(d, 0, 1);
  }

  lemma FirstByte(a: byte, rest: nat, n: nat)
    requires 0 < n
    ensures LittleEndian(a as nat + 256 * rest, n) == [a] + LittleEndian(rest, n - 1)
  {
    var v := a as nat + 256 * rest;
    assert v % 256 == a as nat && v / 256 == rest;
  }

  // ----- bytes stored in a memory image

  /** The bytes bs are stored in image at position at. */
  ghost predicate Holds(image: seq<byte>, at: nat, bs: seq<byte>) {
    at + |bs| <= |image| && image[at..at + |bs|] == bs
  }

  lemma HoldsParts(image: seq<byte>, at: nat, a: seq<byte>, b: seq<byte>)
    requires Holds(image, at, a + b)
    ensures Holds(image, at, a) && Holds(image, at + |a|, b)
  {
    var ab := a + b;
    assert ab[..|a|] == a && ab[|a|..] == b;
    assert image[at..at + |ab|][..|a|] == image[at..at + |a|];
    assert image[at..at + |ab|][|a|..] == image[at + |a|..at + |a| + |b|];
  }

  function NumberAt(image: seq<byte>, at: nat, n: nat): nat
    requires at + n <= |image|
  {
    Number(image[at..at + n])
  }

  lemma NumberHeld(image: seq<byte>, at: nat, bs: seq<byte>, v: nat, n: nat)
    requires v < Pow256(n) && bs == LittleEndian(v, n) && Holds(image, at, bs)
    ensures NumberAt(image, at, n) == v
  {
    NumberOfBytes(v, n);
  }

  lemma TwoNumbersHeld(image: seq<byte>, at: nat, a: seq<byte>, b: seq<byte>, v: nat, n: nat, w: nat, m: nat)
    requires v < Pow256(n) && w < Pow256(m) && a == LittleEndian(v, n) && b == LittleEndian(w, m)
    requires Holds(image, at, a + b)
    ensures NumberAt(image, at, n) == v && NumberAt(image, at + n, m) == w
  {
    HoldsParts(image, at, a, b);
    NumberHeld(image, at, a, v, n);
    NumberHeld(image, at + n, b, w, m);
  }

  /** The parts one after the other. */
  function Flat(parts: seq<seq<byte>>): seq<byte> {
    if parts == [] then [] else parts[0] + Flat(parts[1..])
  }

  lemma {:induction false} FlatJoin(ps: seq<seq<byte>>, qs: seq<seq<byte>>)
    ensures Flat(ps + qs) == Flat(ps) + Flat(qs)
  {
    if ps == [] {
      assert ps + qs == qs;
    } else {
      var rest := ps[1..];
      FlatJoin(rest, qs);
      assert (ps + qs)[1..] == rest + qs;
      Assoc(ps[0], Flat(rest), Flat(qs));
    }
  }

  lemma FlatAppend(ps: seq<seq<byte>>, p: seq<byte>)
    ensures Flat(ps + [p]) == Flat(ps) + p
  {
    FlatJoin(ps, [p]);
    assert [p][1..] == [];
    assert Flat([p]) == p + Flat([]);
  }

  lemma FlatPrefix(ps: seq<seq<byte>>, k: nat)
    requires k < |ps|
    ensures Flat(ps[..k + 1]) == Flat(ps[..k]) + ps[k]
  {
    assert ps[..k + 1] == ps[..k] + [ps[k]];
    FlatAppend(ps[..k], ps[k]);
  }

  lemma FlatSplit(ps: seq<seq<byte>>, k: nat)
    requires k < |ps|
    ensures Flat(ps) == Flat(ps[..k]) + (ps[k] + Flat(ps[k + 1..]))
  {
    var rest := ps[k..];
    assert ps == ps[..k] + rest && rest[1..] == ps[k + 1..];
    FlatJoin(ps[..k], rest);
  }
}
