/** The command queue saved to flash and run at startup. */
module Startup {
  import opened Bytes
  import opened Commands
  import opened CommandRuns
  import opened CommandQueue

  /** Size of a flash sector, and of the two numbers at its start. */
  const SECTOR_SIZE: nat := 0x4000
  const WORD: nat := 4

  type uint32 = x: nat | x < 0x1_0000_0000

  const ERASED: byte := 255

  lemma FitsWord(v: uint32)
    ensures v < Pow256(WORD)
  {
    assert Pow256(2) == 0x1_0000;
    assert Pow256(3) == 256 * Pow256(2);
    assert Pow256(4) == 256 * Pow256(3);
  }

  ghost predicate ErasedAt(sector: seq<byte>, i: nat) {
    i < |sector| && sector[i] == ERASED
  }

  /** One sector of flash memory. */
  class Flash {
    var sector: seq<byte>

    ghost predicate Valid()
      reads this
    {
      |sector| == SECTOR_SIZE
    }

    constructor (initial: seq<byte>)
      requires |initial| == SECTOR_SIZE
      ensures Valid() && sector == initial
    {
      sector := initial;
    }

    /** eeprom_erase. */
    method Erase()
      modifies this
      ensures Valid() && forall i :: 0 <= i < SECTOR_SIZE ==> ErasedAt(sector, i)
    {
      sector := seq(SECTOR_SIZE, i => ERASED);
    }

    /** eeprom_write: the bytes that take the data must be erased, the others stay. */
    method Write(addr: nat, data: seq<byte>)
      requires Valid() && addr + |data| <= SECTOR_SIZE
      requires forall i :: addr <= i < addr + |data| ==> ErasedAt(sector, i)
      modifies this
      ensures Valid() && sector == old(sector)[..addr] + data + old(sector)[addr + |data|..]
    {
      var i := 0;
      while i < |data|
        invariant Valid() && 0 <= i <= |data|
        invariant sector[..addr] == old(sector)[..addr] && sector[addr..addr + i] == data[..i]
        invariant sector[addr + i..] == old(sector)[addr + i..]
      {
        assert ErasedAt(old(sector), addr + i);
        assert sector[addr + i] == sector[addr + i..][0] == old(sector)[addr + i..][0];
        ghost var before := sector;
        sector := sector[addr + i := data[i]];
        assert sector[addr..addr + i + 1] == before[addr..addr + i] + [data[i]];
        assert sector[addr + i + 1..] == before[addr + i..][1..];
        i := i + 1;
      }
    }
  }

  /** What eeprom_write does to what the sector holds. */
  lemma Wrote(before: seq<byte>, after: seq<byte>, addr: nat, data: seq<byte>)
    requires addr + |data| <= |before| && after == before[..addr] + data + before[addr + |data|..]
    ensures |after| == |before| && Holds(after, addr, data)
    ensures forall i :: addr + |data| <= i < |before| && ErasedAt(before, i) ==> ErasedAt(after, i)
    ensures forall i :: 0 <= i < addr && ErasedAt(before, i) ==> ErasedAt(after, i)
    ensures after[addr + |data|..] == before[addr + |data|..]
  {
    forall i | 0 <= i < |before| && !(addr <= i < addr + |data|) ensures after[i] == before[i] { }
  }

  lemma WroteElsewhere(before: seq<byte>, after: seq<byte>, addr: nat, data: seq<byte>, at: nat, bs: seq<byte>)
    requires addr + |data| <= |before| && after == before[..addr] + data + before[addr + |data|..]
    requires Holds(before, at, bs) && (at + |bs| <= addr || addr + |data| <= at)
    ensures Holds(after, at, bs)
  {
    var a, b := after[at..at + |bs|], before[at..at + |bs|];
    assert forall i :: 0 <= i < |bs| ==> a[i] == b[i];
  }

  /** The flash image of a saved queue. */
  ghost predicate Saved(sector: seq<byte>, crc: seq<byte> -> uint32, bytes: seq<byte>) {
    && |sector| == SECTOR_SIZE && |bytes| <= COMMAND_QUEUE_LENGTH
    && Holds(sector, 0, LittleEndian(crc(sector[WORD..]), WORD))
    && Holds(sector, WORD, LittleEndian(|bytes|, WORD))
    && Holds(sector, 2 * WORD, bytes) && ErasedBehind(sector, 2 * WORD + |bytes|)
  }

  ghost predicate ErasedBehind(sector: seq<byte>, end: nat) {
    forall i :: end <= i < |sector| ==> ErasedAt(sector, i)
  }

  /** The layout: checksum of all that follows, length, commands, and then erased bytes. */
  lemma SavedIs(sector: seq<byte>, crc: seq<byte> -> uint32, bytes: seq<byte>)
    requires Saved(sector, crc, bytes)
    ensures |sector| == 0x4000 && |bytes| <= 1024
    ensures sector[0..4] == LittleEndian(crc(sector[4..]), 4) && sector[4..8] == LittleEndian(|bytes|, 4)
    ensures sector[8..8 + |bytes|] == bytes && forall i :: 8 + |bytes| <= i < |sector| ==> sector[i] == 255
  {
    forall i | 8 + |bytes| <= i < |sector| ensures sector[i] == 255 { assert ErasedAt(sector, i); }
  }

  predicate PassesCrc(sector: seq<byte>, crc: seq<byte> -> uint32)
    requires |sector| == SECTOR_SIZE
  {
    crc(sector[WORD..]) == NumberAt(sector, 0, WORD)
  }

  /** A saved image passes the check and gives back the length. */
  lemma SavedReadsBack(sector: seq<byte>, crc: seq<byte> -> uint32, bytes: seq<byte>)
    requires Saved(sector, crc, bytes)
    ensures PassesCrc(sector, crc) && NumberAt(sector, WORD, WORD) == |bytes|
  {
    var sum := crc(sector[WORD..]);
    FitsWord(sum);
    NumberHeld(sector, 0, LittleEndian(sum, WORD), sum, WORD);
    FitsWord(|bytes|);
    NumberHeld(sector, WORD, LittleEndian(|bytes|, WORD), |bytes|, WORD);
  }

  /** startup_command_save. */
  method Save(q: Queue, flash: Flash, crc: seq<byte> -> uint32)
    requires q.Valid() && flash.Valid()
    modifies flash
    ensures flash.Valid() && Saved(flash.sector, crc, q.buf[..q.end])
  {
    var bytes := q.buf[..q.end];
    SaveContents(flash, bytes);
    ghost var before := flash.sector;
    var crcsum := crc(flash.sector[WORD..]);
    flash.Write(0, LittleEndian(crcsum, WORD));
    Wrote(before, flash.sector, 0, LittleEndian(crcsum, WORD));
    WroteElsewhere(before, flash.sector, 0, LittleEndian(crcsum, WORD), WORD, LittleEndian(|bytes|, WORD));
    WroteElsewhere(before, flash.sector, 0, LittleEndian(crcsum, WORD), 2 * WORD, bytes);
    forall i | 2 * WORD + |bytes| <= i < |flash.sector| ensures ErasedAt(flash.sector, i) {
      assert ErasedAt(before, i);
    }
  }

  /** The part of startup_command_save before the checksum. */
  method SaveContents(flash: Flash, bytes: seq<byte>)
    requires flash.Valid() && |bytes| <= COMMAND_QUEUE_LENGTH
    modifies flash
    ensures flash.Valid() && Holds(flash.sector, 2 * WORD, bytes)
    ensures Holds(flash.sector, WORD, LittleEndian(|bytes|, WORD))
    ensures forall i :: 0 <= i < WORD ==> ErasedAt(flash.sector, i)
    ensures ErasedBehind(flash.sector, 2 * WORD + |bytes|)
  {
    flash.Erase();
    ghost var s0 := flash.sector;
    flash.Write(WORD, LittleEndian(|bytes|, WORD));
    ghost var s1 := flash.sector;
    Wrote(s0, s1, WORD, LittleEndian(|bytes|, WORD));
    flash.Write(2 * WORD, bytes);
    Wrote(s1, flash.sector, 2 * WORD, bytes);
    WroteElsewhere(s1, flash.sector, 2 * WORD, bytes, WORD, LittleEndian(|bytes|, WORD));
  }

  /** startup_command_execute: nothing happens unless the checksum is right; then the stored
      bytes are interpreted once, however they came there. They must then be commands. */
  method StartupExecute(m: Machine, flash: Flash, l: Layout, crc: seq<byte> -> uint32, ghost cs: seq<Command>)
    requires m.Valid() && flash.Valid() && l.Valid() && AllInRange(l, cs) && AllKnown(m.chip, cs)
    requires PassesCrc(flash.sector, crc) ==>
      NumberAt(flash.sector, WORD, WORD) == |EncodeAll(l, cs)| && Holds(flash.sector, 2 * WORD, EncodeAll(l, cs))
    modifies m
    ensures m.Valid()
    ensures crc(flash.sector[4..]) != Number(flash.sector[0..4]) ==> m.Now() == old(m.Now())
    ensures crc(flash.sector[4..]) == Number(flash.sector[0..4]) ==> m.Now() == Run(m.chip, old(m.Now()), cs)
  {
    var saved := NumberAt(flash.sector, 0, WORD);
    if crc(flash.sector[WORD..]) != saved {
      return;
    }
    var len := NumberAt(flash.sector, WORD, WORD);
    assert RunTimes(m.chip, m.Now(), cs, 0) == m.Now();
    m.Execute(l, flash.sector, 2 * WORD, 2 * WORD + len, 0, cs);
  }

  /** Saving the queue and starting up runs exactly the queued commands, once, whatever the
      checksum function is. */
  method SaveThenStartup(q: Queue, flash: Flash, m: Machine, crc: seq<byte> -> uint32)
    requires q.Valid() && flash.Valid() && m.Valid() && AllKnown(m.chip, q.cmds)
    modifies flash, m
    ensures m.Valid() && flash.Valid() && PassesCrc(flash.sector, crc)
    ensures m.Now() == Run(m.chip, old(m.Now()), q.cmds)
  {
    Save(q, flash, crc);
    SavedReadsBack(flash.sector, crc, q.buf[..q.end]);
    StartupExecute(m, flash, q.l, crc, q.cmds);
  }
}
