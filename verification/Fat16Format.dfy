/** What the place where the code looks for the entry of a cluster costs a read
    (src/fs/fat16.c): the chain that it follows against the chain of the format. */
module Fat16Format {
  import opened Memory
  import opened Wrappers
  import opened Int32
  import opened Streamer
  import opened Fat16Read
  import opened Fat16Exact
  import opened Geometry
  import Bits
  import FatPosition

  // ---- the chain of the format ----

  /** The entry of a cluster where the format puts it. */
  function FormatEntry(disk: Disk, l: ValidLayout, cluster: Cluster): Cluster {
    var p := FatPosition.EntryPosition(l.reservedSectors, cluster);
    var low: nat, high: nat := disk.byteAt(p), disk.byteAt(p + 1);
    low + 0x100 * high
  }

  /** The entries that lead on to a cluster; free, reserved, bad and end marks do not. */
  predicate LeadsOn(entry: Cluster) { 2 <= entry <= 0xFFF5 }

  /** They are the numbers of the at most 65524 clusters of a FAT16 volume, from 2 on. */
  lemma LeadsOnExact(entry: Cluster)
    ensures LeadsOn(entry) <==> exists i: nat :: i < 65524 && entry == Numbered(i)
  {
    if LeadsOn(entry) { assert entry == Numbered(entry - 2); }
  }

  function Numbered(i: nat): nat { i + 2 }

  /** The code's markers are those of 12-bit entries. It stops where the format does if and
      only if the entry is 0 or leads on to a cluster that is not numbered like one of them;
      at all other end, bad and reserved marks of the format, and at 1, it goes on. */
  lemma MarkerExact(entry: Cluster)
    ensures (Marker(entry) <==> !LeadsOn(entry)) <==>
      || entry == 0
      || (2 <= entry <= 0xFFF5 && entry !in {0x0FF0, 0x0FF6, 0x0FF7, 0x0FF8, 0x0FFF})
  {
  }

  /** The cluster n steps along the format's chain from start, if the chain is that long. */
  function FormatWalk(disk: Disk, l: ValidLayout, start: Cluster, n: nat): Option<Cluster> {
    if n == 0 then Some(start)
    else
      match FormatWalk(disk, l, start, n - 1)
      case None => None
      case Some(c) => if LeadsOn(FormatEntry(disk, l, c)) then Some(FormatEntry(disk, l, c)) else None
  }

  /** Byte k of the file whose first cluster is start. */
  function FormatByte(disk: Disk, hd: Header, start: Cluster, k: nat): Option<Byte> {
    var l := HeaderLayout(hd);
    match FormatWalk(disk, l, start, ClusterIndex(l, k))
    case None => None
    case Some(c) => Some(disk.byteAt(FormatStart(hd, c) + InCluster(l, k)))
  }

  /** If the format's chain is long enough, the read succeeds and delivers its bytes. */
  ghost predicate FormatRight(disk: Disk, hd: Header, start: Cluster, offset: Size, total: Size) {
    var l := HeaderLayout(hd);
    var o := Read(OnDisk(disk, l), start, offset, total);
    FormatWalk(disk, l, start, LastCluster(l, offset, total)).Some? ==>
      o.ok && forall i :: 0 <= i < |o.bytes| ==> FormatByte(disk, hd, start, offset + i) == Some(o.bytes[i])
  }

  // ---- in the first cluster the chains agree ----

  lemma FirstOnly(l: ValidLayout, j: nat, k: nat)
    requires k <= j && ClusterIndex(l, j) == 0
    ensures ClusterIndex(l, k) == 0 && InCluster(l, k) == k && k < ClusterBytes(l)
  {
    hide ClusterBytes, ClusterIndex, InCluster;
    Division(l, j);
    Inside(l, k);
  }

  /** A byte before the end of the first cluster. */
  lemma Inside(l: ValidLayout, k: nat)
    requires k < ClusterBytes(l)
    ensures ClusterIndex(l, k) == 0 && InCluster(l, k) == k
  {
    Bits.DivModUnique(k, ClusterBytes(l), 0, k);
  }

  /** The root directory fills its sectors. */
  predicate RootFull(hd: Header) { hd.rootDirEntries % 16 == 0 }

  lemma FirstByte(disk: Disk, hd: Header, start: Cluster, k: nat)
    requires ClusterIndex(HeaderLayout(hd), k) == 0 && RootFull(hd)
    ensures FormatByte(disk, hd, start, k) == ChainByte(OnDisk(disk, HeaderLayout(hd)), start, k)
  {
    hide ClusterBytes, ClusterIndex, InCluster, ClusterStart, FatEntry, FormatStart, HeaderLayout;
    PlacesAgree(hd, start);
    SameLayout(disk, HeaderLayout(hd));
  }

  lemma SameLayout(disk: Disk, l: ValidLayout)
    ensures OnDisk(disk, l).layout == l && OnDisk(disk, l).disk == disk
  {
  }

  lemma SameInFirst(disk: Disk, hd: Header, start: Cluster, offset: Size, total: Size)
    requires LastCluster(HeaderLayout(hd), offset, total) == 0 && (total == 0 || RootFull(hd))
    ensures FormatRight(disk, hd, start, offset, total) <==> Right(OnDisk(disk, HeaderLayout(hd)), start, offset, total)
  {
    hide ClusterBytes, ClusterIndex, InCluster, ClusterStart, Read, FormatByte, ChainByte, FatEntry, HeaderLayout;
    hide RootFull;
    var l := HeaderLayout(hd);
    var bytes := Read(OnDisk(disk, l), start, offset, total).bytes;
    forall i {:trigger bytes[i]} | 0 <= i < |bytes|
      ensures FormatByte(disk, hd, start, offset + i) == ChainByte(OnDisk(disk, l), start, offset + i)
    {
      FirstOnly(l, offset + total - 1, offset + i);
      FirstByte(disk, hd, start, offset + i);
    }
  }

  // ---- past it some disk tells them apart ----

  /** A disk on which cluster c follows itself by the format, and the byte at p is told
      from all others. */
  function LoopDisk(l: ValidLayout, c: Cluster, p: int): Disk
    requires c < 256
  {
    var e := FatPosition.EntryPosition(l.reservedSectors, c);
    Disk(x => if x == e then c else if x == p && x != e + 1 then 9 else 0, (_, _) => 0)
  }

  lemma LoopEntry(l: ValidLayout, c: Cluster, p: int)
    requires c < 256
    ensures FormatEntry(LoopDisk(l, c, p), l, c) == c
  {
  }

  lemma {:induction false} LoopWalk(l: ValidLayout, c: Cluster, p: int, n: nat)
    requires 2 <= c < 256
    ensures FormatWalk(LoopDisk(l, c, p), l, c, n) == Some(c)
  {
    hide FormatEntry, LoopDisk;
    LoopEntry(l, c, p);
    if n > 0 { LoopWalk(l, c, p, n - 1); }
  }

  lemma NoEntry(l: ValidLayout, c: Cluster)
    requires l.reservedSectors >= 1 && c < 256
    ensures FatEntry(LoopDisk(l, c, -1), l, c) == 0
  {
    hide FatEntryPosition, FatPosition.EntryPosition;
    NeverThere(l, c);
  }

  lemma NeverThere(l: ValidLayout, c: Cluster)
    requires l.reservedSectors >= 1
    ensures var q, e := FatEntryPosition(l, c), FatPosition.EntryPosition(l.reservedSectors, c);
      q != e && q != e + 1 && q + 1 != e && q % 512 == 0
  {
    hide FatPosition.ReadPosition, FatPosition.EntryPosition;
    FatPosition.NeverTheEntry(l.reservedSectors, c);
    FatEntryPositionAligned(l, c);
    EvenEntry(l.reservedSectors, c);
    Parity(FatEntryPosition(l, c), FatPosition.EntryPosition(l.reservedSectors, c));
  }

  lemma EvenEntry(reservedSectors: nat, cluster: nat)
    ensures FatPosition.EntryPosition(reservedSectors, cluster) % 2 == 0
  {
  }

  lemma Parity(q: int, e: int)
    requires q % 512 == 0 && e % 2 == 0 && q != e
    ensures q != e + 1 && q + 1 != e
  {
  }

  /** The code finds no next cluster there. */
  lemma NoNext(l: ValidLayout, c: Cluster, n: nat)
    requires l.reservedSectors >= 1 && 2 <= c < 256 && n > 0
    ensures Walk(OnDisk(LoopDisk(l, c, -1), l).next, c, n) == None
  {
    hide FatEntry, LoopDisk;
    var disk := LoopDisk(l, c, -1);
    NoEntry(l, c);
    assert Walk(OnDisk(disk, l).next, c, 0) == Some(c);
    assert Walk(OnDisk(disk, l).next, c, 1) == None;
    WalkStops(OnDisk(disk, l).next, c, 1, n);
  }

  /** A read that needs a second cluster to be looked up fails on that disk. */
  lemma SecondFails(l: ValidLayout, c: Cluster, offset: Size, total: Size)
    requires l.reservedSectors >= 1 && 2 <= c < 256 && (ClusterIndex(l, offset) > 0 || total > ClusterBytes(l))
    ensures !Read(OnDisk(LoopDisk(l, c, -1), l), c, offset, total).ok
  {
    hide ClusterBytes, ClusterIndex, InCluster, ClusterStart, CodeIndex, CodePosition, FatEntry, LoopDisk, Read, Walk;
    var v := OnDisk(LoopDisk(l, c, -1), l);
    ReadStep(v, c, offset, total);
    CodeRight(l, c, offset);
    if ClusterIndex(l, offset) > 0 {
      NoNext(l, c, ClusterIndex(l, offset));
    } else {
      FirstOnly(l, offset, offset);
      var next := offset + ClusterBytes(l);
      Second(l, next);
      CodeRight(l, c, next);
      NoNext(l, c, ClusterIndex(l, next));
      ReadStep(v, c, next, total - ClusterBytes(l));
    }
  }

  lemma Second(l: ValidLayout, k: nat)
    requires ClusterBytes(l) <= k < 2 * ClusterBytes(l)
    ensures ClusterIndex(l, k) == 1 && InCluster(l, k) == k - ClusterBytes(l)
  {
    Bits.DivModUnique(k, ClusterBytes(l), 1, k - ClusterBytes(l));
  }

  /** Byte i of a chunk comes from beside the buffer, or from its place up to a multiple
      of 2^32. */
  lemma SourcePlace(l: ValidLayout, c: Cluster, offset: Size, i: nat) returns (t: int)
    requires ClusterIndex(l, offset) == 0
    ensures var s := SourceOf(CodePosition(l, c, offset), i);
      s.At? ==> s.p == ClusterStart(l, c) + offset + i + t * 0x1_0000_0000
  {
    hide ClusterBytes, ClusterIndex, InCluster, ClusterStart, CodePosition, Wrap, CMod;
    FirstOnly(l, offset, offset);
    CodeRight(l, c, offset);
    var a := WrapBy(ClusterStart(l, c) + offset);
    var pos := CodePosition(l, c, offset);
    var b := WrapBy(pos + i / 512 * 512);
    t := a + b;
  }

  /** The first bytes of a read in the first cluster, on a disk that tells byte p from all
      others, where the chain goes on by the format from the cluster to itself. */
  lemma ReadsOne(l: ValidLayout, c: Cluster, p: int, offset: Size, total: Size, i: nat) returns (t: int)
    requires 2 <= c < 8 && ClusterIndex(l, offset) == 0 && i < total <= ClusterBytes(l)
    requires var e := FatPosition.EntryPosition(l.reservedSectors, c); p != e && p != e + 1
    ensures var o := Read(OnDisk(LoopDisk(l, c, p), l), c, offset, total);
      |o.bytes| == total && (o.bytes[i] == 9 ==> p == ClusterStart(l, c) + offset + i + t * 0x1_0000_0000)
    ensures LoopDisk(l, c, p).byteAt(p) == 9
  {
    hide ClusterBytes, ClusterIndex, InCluster, ClusterStart, CodeIndex, CodePosition, FatEntry, Walk, SourceOf;
    var disk := LoopDisk(l, c, p);
    var v := OnDisk(disk, l);
    ReadStep(v, c, offset, total);
    CodeRight(l, c, offset);
    t := SourcePlace(l, c, offset, i);
    WalkNone(v.next, c);
    assert Read(v, c, offset, total).bytes[i] == Fetch(disk, SourceOf(CodePosition(l, c, offset), i));
  }

  lemma WalkNone(next: Cluster -> Cluster, c: Cluster)
    ensures Walk(next, c, 0) == Some(c)
  {
  }

  /** A read of at most a cluster's length that runs out of its cluster takes its last byte
      from elsewhere. */
  lemma RunsOut(hd: Header, c: Cluster, offset: Size, total: Size)
    requires var l := HeaderLayout(hd);
      2 <= c < 8 && ClusterIndex(l, offset) == 0 && total <= ClusterBytes(l) < offset + total
    requires RootFull(hd) && Clear(hd, c, PlaceNext(hd, c, offset, total))
    ensures !FormatRight(LoopDisk(HeaderLayout(hd), c, PlaceNext(hd, c, offset, total)), hd, c, offset, total)
  {
    hide ClusterBytes, ClusterIndex, InCluster, ClusterStart, FatEntry, Walk, Read, LoopDisk, HeaderLayout, FormatStart;
    hide FatPosition.EntryPosition;
    var l, p, i := HeaderLayout(hd), PlaceNext(hd, c, offset, total), total - 1;
    LayoutFields(hd);
    FirstOnly(l, offset, offset);
    Second(l, offset + i);
    LoopWalk(l, c, p, 1);
    LoopWalk(l, c, p, LastCluster(l, offset, total));
    PlacesAgree(hd, c);
    var t := ReadsOne(l, c, p, offset, total, i);
    assert FormatByte(LoopDisk(l, c, p), hd, c, offset + i) == Some(9);
  }

  /** Where the format has the last byte of such a read, if the chain goes from the cluster
      to itself. */
  function PlaceNext(hd: Header, c: Cluster, offset: Size, total: Size): int {
    FormatStart(hd, c) + offset + total - 1 - ClusterBytes(HeaderLayout(hd))
  }

  /** p is not in the entry of the cluster. */
  predicate Clear(hd: Header, c: Cluster, p: int) {
    var e := FatPosition.EntryPosition(hd.reservedSectors, c);
    p != e && p != e + 1
  }

  lemma LayoutFields(hd: Header)
    ensures HeaderLayout(hd).reservedSectors == hd.reservedSectors
    ensures HeaderLayout(hd).sectorsPerCluster == hd.sectorsPerCluster
  {
  }

  /** If the root directory ends inside a sector, the first byte of a read is taken from a
      sector too low. */
  lemma SectorLow(hd: Header, c: Cluster, offset: Size, total: Size)
    requires var l := HeaderLayout(hd); 2 <= c < 8 && ClusterIndex(l, offset) == 0 && 0 < total <= ClusterBytes(l)
    requires !RootFull(hd) && Clear(hd, c, FormatStart(hd, c) + offset)
    ensures !FormatRight(LoopDisk(HeaderLayout(hd), c, FormatStart(hd, c) + offset), hd, c, offset, total)
  {
    hide ClusterBytes, ClusterIndex, InCluster, ClusterStart, FatEntry, Walk, Read, LoopDisk, HeaderLayout, FormatStart;
    hide FatPosition.EntryPosition;
    var l, p := HeaderLayout(hd), FormatStart(hd, c) + offset;
    LayoutFields(hd);
    FirstOnly(l, offset, offset);
    LoopWalk(l, c, p, 0);
    LoopWalk(l, c, p, LastCluster(l, offset, total));
    PlacesAgree(hd, c);
    var t := ReadsOne(l, c, p, offset, total, 0);
    assert FormatByte(LoopDisk(l, c, p), hd, c, offset + 0) == Some(9);
  }

  /** Of clusters 2 and 3 one has a place that is not in its own entry. */
  lemma OneClear(hd: Header, k: int) returns (c: Cluster)
    ensures 2 <= c <= 3 && Clear(hd, c, FormatStart(hd, c) + k)
  {
    hide FormatStart;
    NextStart(hd);
    c := if Clear(hd, 2, FormatStart(hd, 2) + k) then 2 else 3;
  }

  lemma NextStart(hd: Header)
    ensures FormatStart(hd, 3) >= FormatStart(hd, 2) + 512
  {
  }

  lemma OneCluster(l: ValidLayout, offset: Size, total: Size)
    requires LastCluster(l, offset, total) > 0 && ClusterIndex(l, offset) == 0
    ensures ClusterBytes(l) < offset + total
  {
    hide ClusterBytes, ClusterIndex, InCluster;
    if offset + total <= ClusterBytes(l) && total > 0 { Inside(l, offset + total - 1); }
  }

  /** A read that needs a second cluster, or any byte where the root directory ends inside
      a sector, is wrong on some disk. */
  lemma SomeWrong(hd: Header, offset: Size, total: Size) returns (disk: Disk, start: Cluster)
    requires hd.reservedSectors >= 1
    requires LastCluster(HeaderLayout(hd), offset, total) > 0 || (total > 0 && !RootFull(hd))
    ensures !FormatRight(disk, hd, start, offset, total)
  {
    hide ClusterBytes, ClusterIndex, InCluster, ClusterStart, Read, FormatByte, OnDisk, LoopDisk, HeaderLayout;
    hide FatPosition.EntryPosition, FormatStart, RootFull, Clear;
    var l := HeaderLayout(hd);
    LayoutFields(hd);
    if ClusterIndex(l, offset) > 0 || total > ClusterBytes(l) {
      disk, start := LoopDisk(l, 2, -1), 2;
      LoopWalk(l, 2, -1, LastCluster(l, offset, total));
      SecondFails(l, 2, offset, total);
    } else if !RootFull(hd) && total > 0 {
      start := OneClear(hd, offset);
      disk := LoopDisk(l, start, FormatStart(hd, start) + offset);
      SectorLow(hd, start, offset, total);
    } else {
      OneCluster(l, offset, total);
      start := OneClear(hd, offset + total - 1 - ClusterBytes(l));
      disk := LoopDisk(l, start, PlaceNext(hd, start, offset, total));
      RunsOut(hd, start, offset, total);
    }
  }

  /** On a volume with reserved sectors a read of a given place and length delivers the bytes
      of the format's own chain, on every disk and for every start, if and only if it meets
      the condition of ReadAlignedExact, needs no cluster but the first, and has no bytes or
      a volume whose root directory fills its sectors. */
  lemma ReadFormatExact(hd: Header, offset: Size, total: Size)
    requires hd.reservedSectors >= 1
    ensures var l := HeaderLayout(hd);
      Everywhere(l, offset, total) && LastCluster(l, offset, total) == 0 && (total == 0 || RootFull(hd)) <==>
      forall disk: Disk, start: Cluster :: FormatRight(disk, hd, start, offset, total)
  {
    hide FormatRight, Right, Everywhere, LastCluster, HeaderLayout, RootFull;
    var l := HeaderLayout(hd);
    if LastCluster(l, offset, total) > 0 || (total > 0 && !RootFull(hd)) {
      var disk, start := SomeWrong(hd, offset, total);
    } else {
      ReadAlignedExact(l, offset, total);
      forall disk: Disk, start: Cluster
        ensures FormatRight(disk, hd, start, offset, total) <==> Right(OnDisk(disk, l), start, offset, total)
      {
        SameInFirst(disk, hd, start, offset, total);
      }
    }
  }
}
