/** SLIP framing (RFC 1055): what slipif_output sends, slipif_rxbyte puts together again. */
module Slip {
  import opened Basics
  import opened Bytes
  import opened Pbufs

  const END: byte := 0xC0
  const ESC: byte := 0xDB
  const ESC_END: byte := 0xDC
  const ESC_ESC: byte := 0xDD

  const SLIP_MAX_SIZE: nat := 1500

  datatype Option<T> = None | Some(value: T)

  // ----- sending

  function Escape(c: byte): seq<byte> {
    if c == END then [ESC, ESC_END] else if c == ESC then [ESC, ESC_ESC] else [c]
  }

  function Escaped(bs: seq<byte>): seq<byte> {
    if bs == [] then [] else Escape(bs[0]) + Escaped(bs[1..])
  }

  /** A packet on the line. */
  function Frame(packet: seq<byte>): seq<byte> {
    [END] + (Escaped(packet) + [END])
  }

  lemma {:induction false} EscapedJoin(a: seq<byte>, b: seq<byte>)
    ensures Escaped(a + b) == Escaped(a) + Escaped(b)
  {
    if a == [] {
      assert a + b == b;
    } else {
      EscapedJoin(a[1..], b);
      assert (a + b)[1..] == a[1..] + b;
      Assoc(Escape(a[0]), Escaped(a[1..]), Escaped(b));
    }
  }

  /** What a packet of one byte looks like on the line (RFC 1055). */
  lemma OnTheLine(c: byte)
    ensures Frame([0xC0]) == [0xC0, 0xDB, 0xDC, 0xC0] && Frame([0xDB]) == [0xC0, 0xDB, 0xDD, 0xC0]
    ensures c != 0xC0 && c != 0xDB ==> Frame([c]) == [0xC0, c, 0xC0]
  {
    OneByte(0xC0);
    OneByte(0xDB);
    OneByte(c);
  }

  lemma OneByte(c: byte)
    ensures Escaped([c]) == Escape(c)
  {
    assert [c][1..] == [];
    assert Escaped([c]) == Escape(c) + Escaped([]);
  }

  /** The inner loop of slipif_output, for the bytes of one pbuf. */
  method SendBytes(line: seq<byte>, data: seq<byte>) returns (sent: seq<byte>)
    ensures sent == line + Escaped(data)
  {
    sent := line;
    var i := 0;
    assert line + Escaped([]) == line;
    while i < |data|
      invariant 0 <= i <= |data| && sent == line + Escaped(data[..i])
    {
      SendStep(data, i);
      Assoc(line, Escaped(data[..i]), Escape(data[i]));
      var c := data[i];
      match c {
        case 0xC0 => sent := sent + [ESC, ESC_END];
        case 0xDB => sent := sent + [ESC, ESC_ESC];
        case _ => sent := sent + [c];
      }
      i := i + 1;
    }
    assert data[..i] == data;
  }

  lemma SendStep(data: seq<byte>, i: nat)
    requires i < |data|
    ensures Escaped(data[..i + 1]) == Escaped(data[..i]) + Escape(data[i])
  {
    assert data[..i + 1] == data[..i] + [data[i]];
    EscapedJoin(data[..i], [data[i]]);
    OneByte(data[i]);
  }

  /** slipif_output: the frame depends on the content of the chain only. */
  method Output(mem: Memory, p: Ptr, ghost ps: seq<Ptr>) returns (sent: seq<byte>)
    requires IsChain(mem, p, ps)
    ensures sent == Frame(Content(mem, ps))
  {
    sent := [END];
    var q := p;
    ghost var rest, done := ps, [];
    assert [END] + Escaped([]) == [END];
    while q != NULL
      invariant IsChain(mem, q, rest) && done + Content(mem, rest) == Content(mem, ps)
      invariant sent == [END] + Escaped(done)
      decreases |rest|
    {
      EscapedJoin(done, mem[q].data);
      Assoc([END], Escaped(done), Escaped(mem[q].data));
      Assoc(done, mem[q].data, Content(mem, rest[1..]));
      sent := SendBytes(sent, mem[q].data);
      done := done + mem[q].data;
      q := mem[q].next;
      rest := rest[1..];
    }
    assert done == Content(mem, ps);
    Assoc([END], Escaped(done), [END]);
    sent := sent + [END];
  }

  // ----- receiving

  /** What the receiver has seen of the current packet. */
  datatype Rx = Rx(escape: bool, got: seq<byte>)

  /** One more byte; bytes are dropped once more than SLIP_MAX_SIZE are there. */
  function Keep(got: seq<byte>, c: byte): seq<byte> {
    if |got| <= SLIP_MAX_SIZE then got + [c] else got
  }

  function Unescaped(c: byte): byte {
    if c == ESC_END then END else if c == ESC_ESC then ESC else c
  }

  /** c is, or ends, a byte of the packet. */
  predicate IsData(rx: Rx, c: byte) {
    rx.escape || (c != END && c != ESC)
  }

  function Receive(rx: Rx, c: byte): (Rx, Option<seq<byte>>) {
    if rx.escape then (Rx(false, Keep(rx.got, Unescaped(c))), None)
    else if c == END then (Rx(false, []), if rx.got == [] then None else Some(rx.got))
    else if c == ESC then (Rx(true, rx.got), None)
    else (Rx(false, Keep(rx.got, c)), None)
  }

  /** What a byte means behind an ESC: the two escapes, or, against the protocol, itself. */
  lemma BehindEsc(got: seq<byte>, c: byte)
    requires |got| <= SLIP_MAX_SIZE
    ensures Receive(Rx(true, got), 0xDC).0 == Rx(false, got + [0xC0])
    ensures Receive(Rx(true, got), 0xDD).0 == Rx(false, got + [0xDB])
    ensures c != 0xDC && c != 0xDD ==> Receive(Rx(true, got), c).0 == Rx(false, got + [c])
  {
  }

  /** The packets that come out of a stream of bytes. */
  function Feed(rx: Rx, line: seq<byte>): (Rx, seq<seq<byte>>)
    decreases |line|
  {
    if line == [] then (rx, []) else
      var (rx', packet) := Receive(rx, line[0]);
      var (rx'', packets) := Feed(rx', line[1..]);
      (rx'', if packet.Some? then [packet.value] + packets else packets)
  }

  lemma {:induction false} FeedJoin(rx: Rx, a: seq<byte>, b: seq<byte>)
    ensures
      var (rx', xs) := Feed(rx, a);
      var (rx'', ys) := Feed(rx', b);
      Feed(rx, a + b) == (rx'', xs + ys)
    decreases |a|
  {
    if a == [] {
      assert a + b == b;
      assert [] + Feed(rx, b).1 == Feed(rx, b).1;
    } else {
      var (rx', packet) := Receive(rx, a[0]);
      FeedJoin(rx', a[1..], b);
      assert (a + b)[1..] == a[1..] + b && (a + b)[0] == a[0];
      var (_, xs) := Feed(rx', a[1..]);
      var (_, ys) := Feed(Feed(rx', a[1..]).0, b);
      if packet.Some? { Assoc([packet.value], xs, ys); }
    }
  }

  /** The part of a packet that the receiver keeps. */
  function Kept(bs: seq<byte>): seq<byte> {
    if |bs| <= SLIP_MAX_SIZE then bs else bs[..SLIP_MAX_SIZE + 1]
  }

  /** A byte that was sent comes in as that byte. */
  lemma FeedEscape(got: seq<byte>, c: byte)
    ensures Feed(Rx(false, got), Escape(c)) == (Rx(false, Keep(got, c)), [])
  {
    var line := Escape(c);
    assert line[1..] == if c == END then [ESC_END] else if c == ESC then [ESC_ESC] else [];
    if |line| == 2 {
      assert line[1..][1..] == [];
      assert Feed(Rx(true, got), line[1..]) == (Rx(false, Keep(got, c)), []);
    }
  }

  lemma {:induction false} FeedEscaped(got: seq<byte>, bs: seq<byte>)
    requires |got| <= SLIP_MAX_SIZE + 1
    ensures Feed(Rx(false, got), Escaped(bs)) == (Rx(false, Kept(got + bs)), [])
    decreases |bs|
  {
    if bs == [] {
      assert got + bs == got;
    } else {
      FeedEscape(got, bs[0]);
      FeedJoin(Rx(false, got), Escape(bs[0]), Escaped(bs[1..]));
      FeedEscaped(Keep(got, bs[0]), bs[1..]);
      KeepStep(got, bs);
    }
  }

  lemma KeepStep(got: seq<byte>, bs: seq<byte>)
    requires |got| <= SLIP_MAX_SIZE + 1 && bs != []
    ensures Kept(Keep(got, bs[0]) + bs[1..]) == Kept(got + bs)
  {
    var c, rest := bs[0], bs[1..];
    if |got| <= SLIP_MAX_SIZE {
      assert (got + [c]) + rest == got + bs;
    } else {
      assert Kept(got + rest) == got && Kept(got + bs) == got;
    }
  }

  function Packets(bs: seq<byte>): seq<seq<byte>> {
    if bs == [] then [] else [bs]
  }

  /** A frame ends what was received before it and delivers its packet. */
  lemma FeedFrame(got: seq<byte>, packet: seq<byte>)
    ensures Feed(Rx(false, got), Frame(packet)) == (Rx(false, []), Packets(got) + Packets(Kept(packet)))
  {
    FeedEnd(got);
    FeedJoin(Rx(false, got), [END], Escaped(packet) + [END]);
    FeedEscaped([], packet);
    assert [] + packet == packet;
    FeedJoin(Rx(false, []), Escaped(packet), [END]);
    FeedEnd(Kept(packet));
    assert [] + Packets(Kept(packet)) == Packets(Kept(packet));
  }

  lemma FeedEnd(got: seq<byte>)
    ensures Feed(Rx(false, got), [END]) == (Rx(false, []), Packets(got))
  {
    assert [END][1..] == [];
    assert Feed(Rx(false, []), []) == (Rx(false, []), []);
    assert [got] + [] == [got];
  }

  function Frames(packets: seq<seq<byte>>): seq<byte> {
    if packets == [] then [] else Frame(packets[0]) + Frames(packets[1..])
  }

  function Delivered(packets: seq<seq<byte>>): seq<seq<byte>> {
    if packets == [] then [] else Packets(Kept(packets[0])) + Delivered(packets[1..])
  }

  /** The receiver delivers, in order, every packet that is not empty, cut behind byte
      SLIP_MAX_SIZE + 1. */
  lemma {:induction false} FeedFrames(packets: seq<seq<byte>>)
    ensures Feed(Rx(false, []), Frames(packets)) == (Rx(false, []), Delivered(packets))
  {
    if packets != [] {
      FeedFrame([], packets[0]);
      FeedFrames(packets[1..]);
      FeedJoin(Rx(false, []), Frame(packets[0]), Frames(packets[1..]));
      assert Packets([]) + Packets(Kept(packets[0])) == Packets(Kept(packets[0]));
    }
  }

  ghost predicate Sizes(packets: seq<seq<byte>>) {
    forall p :: p in packets ==> 1 <= |p| <= SLIP_MAX_SIZE + 1
  }

  lemma {:induction false} DeliveredAll(packets: seq<seq<byte>>)
    ensures |Delivered(packets)| <= |packets|
    ensures Delivered(packets) == packets <==> Sizes(packets)
  {
    if packets != [] {
      var p, rest := packets[0], packets[1..];
      DeliveredAll(rest);
      assert packets == [p] + rest;
      assert forall q :: q in packets <==> q == p || q in rest;
      assert Sizes(packets) <==> 1 <= |p| <= SLIP_MAX_SIZE + 1 && Sizes(rest);
      if p == [] {
        assert Delivered(packets) == Delivered(rest);
      } else {
        assert Delivered(packets) == [Kept(p)] + Delivered(rest);
        assert Delivered(packets)[1..] == Delivered(rest);
        assert Delivered(packets) == packets <==> Kept(p) == p && Delivered(rest) == rest;
      }
    }
  }

  /** SLIP round trip: exactly the packets that were sent come out if and only if each has
      between 1 and SLIP_MAX_SIZE + 1 bytes. */
  lemma RoundTrip(packets: seq<seq<byte>>)
    ensures Feed(Rx(false, []), Frames(packets)) == (Rx(false, []), packets) <==> Sizes(packets)
  {
    FeedFrames(packets);
    DeliveredAll(packets);
  }

  // ----- slipif_rxbyte with its buffers

  /** What pbuf_alloc returns: the payloads of a chain of pbufs, none of them empty. */
  predicate IsBuffer(buffer: seq<seq<byte>>) {
    buffer != [] && NoneEmpty(buffer)
  }

  predicate NoneEmpty(q: seq<seq<byte>>) {
    forall k :: 0 <= k < |q| ==> 0 < |q[k]|
  }

  /** struct slipif_priv. The packet is the chain q of payloads; p points to element cur, or is
      NULL when current is false. */
  class Receiver {
    var escape: bool
    var q: seq<seq<byte>>
    var current: bool
    var cur: nat
    var i: nat
    var recved: nat

    /** The chain is filled up to position i of the current pbuf, or altogether. */
    ghost predicate Shape()
      reads this
    {
      && recved <= SLIP_MAX_SIZE + 1 && NoneEmpty(q) && recved <= |Flat(q)|
      && (current ==> cur < |q| && i <= |q[cur]| && recved == |Flat(q[..cur])| + i)
      && (!current ==> i == 0 && recved == |Flat(q)|)
    }

    ghost predicate Valid()
      reads this
    {
      Shape() && (current ==> i < |q[cur]|)
    }

    ghost function Abs(): Rx
      reads this
      requires Valid()
    {
      Rx(escape, Flat(q)[..recved])
    }

    constructor ()
      ensures Valid() && Abs() == Rx(false, [])
    {
      escape, q, current, cur, i, recved := false, [], false, 0, 0, 0;
    }

    /** slipif_rxbyte. A new buffer has arbitrary contents; None is a failed allocation. A byte of
        a packet that needs a new buffer and gets none is dropped, and nothing else happens. */
    method RxByte(c: byte, buffer: Option<seq<seq<byte>>>) returns (packet: Option<seq<byte>>)
      requires Valid() && (buffer.Some? ==> IsBuffer(buffer.value))
      modifies this
      ensures Valid()
      ensures old(current) || buffer.Some? || !IsData(old(Abs()), c) ==> (Abs(), packet) == Receive(old(Abs()), c)
      ensures !old(current) && buffer.None? && IsData(old(Abs()), c) ==>
        Abs() == Rx(false, old(Abs()).got) && packet == None
    {
      var b := c;
      if !escape {
        if c == END {
          packet := None;
          if recved > 0 {
            packet := Some(Flat(q)[..recved]);
            q, current, i, recved := [], false, 0, 0;
          }
          return;
        }
        if c == ESC {
          escape := true;
          return None;
        }
      } else {
        b := if c == ESC_END then END else if c == ESC_ESC then ESC else c;
        escape := false;
      }
      StoreByte(b, buffer);
      return None;
    }

    /** The second half of slipif_rxbyte: a byte of the packet. */
    method StoreByte(c: byte, buffer: Option<seq<seq<byte>>>)
      requires Valid() && (buffer.Some? ==> IsBuffer(buffer.value))
      modifies `q, `current, `cur, `i, `recved
      ensures Valid()
      ensures Abs() == Rx(escape, if old(current) || buffer.Some? then Keep(old(Abs()).got, c) else old(Abs()).got)
    {
      if !current {
        if buffer.None? {
          return;
        }
        AddBuffer(buffer.value);
      }
      if recved <= SLIP_MAX_SIZE {
        PutByte(c);
        if i >= |q[cur]| {
          NextPbuf();
        }
      }
    }

    /** The write into the current pbuf; afterwards i may stand at its end. */
    method PutByte(c: byte)
      requires Valid() && current && recved <= SLIP_MAX_SIZE
      modifies `q, `i, `recved
      ensures Shape() && current && recved == old(recved) + 1
      ensures Flat(q)[..recved] == old(Abs()).got + [c]
    {
      WriteAt(q, cur, i, c);
      q := q[cur := q[cur][i := c]];
      recved, i := recved + 1, i + 1;
      assert q[..cur] == old(q)[..cur];
    }

    /** On to the next pbuf of the chain, if there is one. */
    method NextPbuf()
      requires Shape() && current && i == |q[cur]|
      modifies `current, `cur, `i
      ensures Valid()
    {
      FlatPrefix(q, cur);
      assert cur + 1 == |q| ==> q[..cur + 1] == q;
      i := 0;
      if cur + 1 < |q| && |q[cur + 1]| > 0 {
        cur := cur + 1;
      } else {
        current := false;
      }
    }

    /** A new buffer at the end of the chain. */
    method AddBuffer(buffer: seq<seq<byte>>)
      requires Valid() && IsBuffer(buffer) && !current
      modifies `q, `current, `cur
      ensures Valid() && current && Abs() == old(Abs())
    {
      Appended(q, buffer);
      cur, current := |q|, true;
      q := q + buffer;
    }
  }

  lemma Appended(q: seq<seq<byte>>, more: seq<seq<byte>>)
    ensures (q + more)[..|q|] == q
    ensures |Flat(q + more)| >= |Flat(q)| && Flat(q + more)[..|Flat(q)|] == Flat(q) == Flat(q)[..|Flat(q)|]
  {
    FlatJoin(q, more);
  }

  /** Writing a byte into one of the pbufs. */
  lemma WriteAt(q: seq<seq<byte>>, k: nat, i: nat, c: byte)
    requires k < |q| && i < |q[k]|
    ensures
      var q' := q[k := q[k][i := c]];
      var at := |Flat(q[..k])| + i;
      at < |Flat(q)| == |Flat(q')| && Flat(q')[..at + 1] == Flat(q)[..at] + [c]
  {
    var q' := q[k := q[k][i := c]];
    assert q'[..k] == q[..k] && q'[k + 1..] == q[k + 1..];
    FlatSplit(q, k);
    FlatSplit(q', k);
  }
}
