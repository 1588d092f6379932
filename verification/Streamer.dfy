/** Byte reads from the disk, sector by sector (src/fs/streamer.c). */
module Streamer {
  import opened Memory
  import opened Int32
  import Bits

  const SECTOR: nat := 512

  /** The disk as one run of bytes, and what lies on the stack around the sector
      buffer of diskstreamer_read: outside(pos, j) is the byte at index j of that buffer
      for a j that is not between 0 and 511. Each level of the recursion has its own
      buffer; it is told from the others by the position at which it reads. */
  datatype Disk = Disk(byteAt: int -> Byte, outside: (int, int) -> Byte)

  class DiskStream {
    var pos: Int

    constructor ()
      ensures pos == 0
    {
      pos := 0;
    }
  }

  /** Where a byte of the output comes from: a place on the disk, or the bytes beside
      the sector buffer. */
  datatype Source = At(p: int) | Beside(level: int, j: int)

  function Fetch(disk: Disk, source: Source): Byte {
    match source
    case At(p) => disk.byteAt(p)
    case Beside(level, j) => disk.outside(level, j)
  }

  /** The source of byte i that diskstreamer_read delivers from position pos; the
      position is an int and wraps. */
  function SourceOf(pos: Int, i: nat): Source {
    var level := Wrap(pos + i / 512 * 512);
    var j := CMod(level, SECTOR) + i % 512;
    if 0 <= j < SECTOR then At(level + i % 512) else Beside(level, j)
  }

  function StreamBytes(disk: Disk, pos: Int, total: nat): (r: seq<Byte>)
    ensures |r| == total && forall i :: 0 <= i < total ==> r[i] == Fetch(disk, SourceOf(pos, i))
  {
    seq(total, i requires 0 <= i => Fetch(disk, SourceOf(pos, i)))
  }

  /** The bytes of the disk from pos on. */
  function Slice(byteAt: int -> Byte, pos: int, total: nat): (r: seq<Byte>)
    ensures |r| == total && forall i :: 0 <= i < total ==> r[i] == byteAt(pos + i)
  {
    seq(total, i => byteAt(pos + i))
  }

  /** The read starts on a sector boundary or stays within one sector, and ends at or
      before byte 2^31 of the disk. */
  predicate Aligned(pos: Int, total: nat) {
    total == 0 || ((pos % 512 == 0 || (pos >= 0 && pos % 512 + total <= SECTOR)) && pos + total <= 0x8000_0000)
  }

  method DiskReadBlock(disk: Disk, sector: int, buf: array<Byte>) returns (r: int)
    requires buf.Length == SECTOR
    modifies buf
    ensures r == 0 && forall i :: 0 <= i < SECTOR ==> buf[i] == disk.byteAt(sector * 512 + i)
  {
    for i := 0 to SECTOR
      invariant forall j :: 0 <= j < i ==> buf[j] == disk.byteAt(sector * 512 + j)
    {
      buf[i] := disk.byteAt(sector * 512 + i);
    }
    r := 0;
  }

  method DiskStreamerSeek(stream: DiskStream, pos: Int) returns (r: int)
    modifies stream
    ensures r == 0 && stream.pos == pos
  {
    stream.pos := pos;
    r := 0;
  }

  /** diskstreamer_read into the buffer out from index at on. */
  method DiskStreamerRead(stream: DiskStream, disk: Disk, out: seq<Byte>, at: nat, total: int)
    returns (r: int, filled: seq<Byte>)
    requires at + Length(total) <= |out|
    modifies stream
    ensures r == 0 && stream.pos == Wrap(old(stream.pos) + total)
    ensures filled == Write(out, at, StreamBytes(disk, old(stream.pos), Length(total)))
    decreases Length(total)
  {
    hide CDiv, CMod, SourceOf, Write, Wrap;
    NoByteYet(out, at, disk, stream.pos);
    var pos := stream.pos;
    var sector := CDiv(pos, SECTOR);
    var offset := CMod(pos, SECTOR);
    var buf := new Byte[SECTOR];
    r := DiskReadBlock(disk, sector, buf);
    filled := out;
    if r < 0 {
      return;
    }
    var totalToRead := if total > SECTOR then SECTOR else total;
    var i := 0;
    while i < totalToRead
      invariant 0 <= i && (i <= totalToRead || i == 0)
      invariant stream.pos == pos && filled == Write(out, at, StreamBytes(disk, pos, i))
      invariant forall j :: 0 <= j < SECTOR ==> buf[j] == disk.byteAt(sector * 512 + j)
    {
      FirstSector(disk, pos, i);
      OneMoreByte(out, at, disk, pos, i);
      filled := filled[at + i := if 0 <= offset + i < SECTOR then buf[offset + i] else disk.outside(pos, offset + i)];
      i := i + 1;
    }
    stream.pos := Wrap(stream.pos + totalToRead);
    if total > SECTOR {
      LaterSectors(disk, pos, total);
      WriteWrite(out, at, StreamBytes(disk, pos, SECTOR), StreamBytes(disk, Wrap(pos + SECTOR), total - SECTOR));
      WrapAdd(pos + SECTOR, total - SECTOR);
      r, filled := DiskStreamerRead(stream, disk, filled, at + SECTOR, total - SECTOR);
    }
  }

  /** How many bytes a read of total bytes writes; an int can be negative. */
  function Length(total: int): nat { if total < 0 then 0 else total }

  lemma NoByteYet(out: seq<Byte>, at: nat, disk: Disk, pos: Int)
    requires at <= |out|
    ensures Write(out, at, StreamBytes(disk, pos, 0)) == out
  {
  }

  lemma OneMoreByte(out: seq<Byte>, at: nat, disk: Disk, pos: Int, i: nat)
    requires at + i < |out|
    ensures Write(out, at, StreamBytes(disk, pos, i))[at + i := Fetch(disk, SourceOf(pos, i))]
      == Write(out, at, StreamBytes(disk, pos, i + 1))
  {
    hide SourceOf;
  }

  lemma FirstSector(disk: Disk, pos: Int, i: nat)
    requires i < SECTOR
    ensures var j := CMod(pos, SECTOR) + i;
      SourceOf(pos, i) == if 0 <= j < SECTOR then At(CDiv(pos, SECTOR) * 512 + j) else Beside(pos, j)
  {
    assert i / 512 * 512 == 0;
  }

  lemma LaterSectors(disk: Disk, pos: Int, total: nat)
    requires total > SECTOR
    ensures StreamBytes(disk, pos, total)
      == StreamBytes(disk, pos, SECTOR) + StreamBytes(disk, Wrap(pos + SECTOR), total - SECTOR)
  {
    hide SourceOf;
    forall i | SECTOR <= i < total ensures SourceOf(pos, i) == SourceOf(Wrap(pos + SECTOR), i - SECTOR) {
      NextSector(pos, i);
    }
  }

  lemma NextSector(pos: Int, i: nat)
    requires i >= SECTOR
    ensures SourceOf(pos, i) == SourceOf(Wrap(pos + SECTOR), i - SECTOR)
  {
    hide CMod, Wrap;
    assert i / 512 == (i - SECTOR) / 512 + 1;
    assert pos + i / 512 * 512 == pos + SECTOR + (i - SECTOR) / 512 * 512;
    WrapAdd(pos + SECTOR, (i - SECTOR) / 512 * 512);
  }

  // ---- when the bytes are those of the disk ----

  lemma MultipleMod(q: int)
    ensures CMod(q * 512, SECTOR) == 0 && q * 512 % 512 == 0
  {
    if q < 0 { assert (-q) * 512 / 512 == -q; }
  }

  lemma SmallMod(pos: int)
    ensures pos >= 0 ==> CMod(pos, SECTOR) == pos % 512
    ensures pos % 512 == 0 <==> CMod(pos, SECTOR) == 0
    ensures pos < 0 && pos % 512 != 0 ==> CMod(pos, SECTOR) < 0
  {
    if pos < 0 { assert -pos == (-pos) / 512 * 512 + (-pos) % 512; }
  }

  /** Byte i of a read that starts on a sector boundary. */
  lemma WholeSectors(pos: Int, i: nat)
    requires pos % 512 == 0
    ensures SourceOf(pos, i) == At(Wrap(pos + i / 512 * 512) + i % 512)
  {
    hide CMod;
    var level := pos + i / 512 * 512;
    assert level == (pos / 512 + i / 512) * 512;
    MultipleMod(pos / 512 + i / 512);
    WrapSector(level);
    SmallMod(Wrap(level));
  }

  lemma AlignedAt(pos: Int, total: nat, i: nat)
    requires Aligned(pos, total) && i < total
    ensures SourceOf(pos, i) == At(pos + i)
  {
    hide CMod;
    if pos % 512 == 0 {
      WholeSectors(pos, i);
    } else {
      assert i / 512 == 0;
      SmallMod(pos);
    }
  }

  /** Some byte of a read that is not aligned comes from elsewhere: from beside the
      buffer, or from a place 2^32 bytes before. */
  lemma NotAlignedAt(pos: Int, total: nat) returns (i: nat)
    requires !Aligned(pos, total)
    ensures i < total && i <= SECTOR * 0x80_0000
    ensures pos % 512 != 0 ==> i < SECTOR && SourceOf(pos, i).Beside?
    ensures pos % 512 == 0 ==> i % 512 == 0 && pos + i == 0x8000_0000 && SourceOf(pos, i) == At(-0x8000_0000)
  {
    hide CMod;
    if pos % 512 != 0 {
      SmallMod(pos);
      i := if pos >= 0 then SECTOR - pos % 512 else 0;
      assert i / 512 == 0 && i % 512 == i;
    } else {
      i := 0x8000_0000 - pos;
      WholeSectors(pos, i);
    }
  }

  /** An aligned read delivers the disk's bytes, whatever lies around the buffer. */
  lemma AlignedRead(disk: Disk, pos: Int, total: nat)
    requires Aligned(pos, total)
    ensures StreamBytes(disk, pos, total) == Slice(disk.byteAt, pos, total)
  {
    hide SourceOf;
    forall i | 0 <= i < total ensures Fetch(disk, SourceOf(pos, i)) == disk.byteAt(pos + i) {
      AlignedAt(pos, total, i);
    }
  }

  /** A disk that tells byte p from every other byte, and from what lies beside it. */
  function Marked(p: int): Disk { Disk(x => if x == p then 1 else 0, (_, _) => 0) }

  /** A read is right on every disk, whatever lies around the buffer, if and only if it
      is aligned. */
  lemma AlignedExact(pos: Int, total: nat)
    ensures (forall disk: Disk :: StreamBytes(disk, pos, total) == Slice(disk.byteAt, pos, total)) <==>
      Aligned(pos, total)
  {
    hide SourceOf;
    if Aligned(pos, total) {
      forall disk: Disk ensures StreamBytes(disk, pos, total) == Slice(disk.byteAt, pos, total) {
        AlignedRead(disk, pos, total);
      }
    } else {
      var i := NotAlignedAt(pos, total);
      var disk := Marked(pos + i);
      assert StreamBytes(disk, pos, total)[i] == 0 && Slice(disk.byteAt, pos, total)[i] == 1;
    }
  }
}
