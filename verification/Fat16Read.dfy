/** Reading a file by its chain of clusters (src/fs/fat16.c). */
module Fat16Read {
  import opened Status
  import opened Memory
  import opened Wrappers
  import opened Int32
  import opened Streamer
  import Bits
  import FatPosition

  /** The header fields and directory position that a read uses. */
  datatype Layout = Layout(reservedSectors: nat, sectorsPerCluster: nat, endingSector: nat)

  type ValidLayout = l: Layout | l.reservedSectors < 0x1_0000 && 1 <= l.sectorsPerCluster < 0x100
    witness Layout(1, 1, 0)

  type Cluster = c: nat | c < 0x1_0000

  function ClusterBytes(l: ValidLayout): (n: nat)
    ensures 512 <= n <= 255 * 512 && n % 512 == 0
  {
    l.sectorsPerCluster * 512
  }

  // ---- where a byte of a file lies ----

  /** The cluster of the chain that byte k lies in, counted from 0, and its place there. */
  function ClusterIndex(l: ValidLayout, k: nat): nat {
    Bits.DivNonNegative(k, ClusterBytes(l));
    k / ClusterBytes(l)
  }

  function InCluster(l: ValidLayout, k: nat): (r: nat)
    ensures r < ClusterBytes(l)
  {
    k % ClusterBytes(l)
  }

  function ClusterToSector(l: ValidLayout, cluster: Cluster): int {
    l.endingSector + (cluster - 2) * l.sectorsPerCluster
  }

  /** The first byte of a cluster on the disk. */
  function ClusterStart(l: ValidLayout, cluster: Cluster): int {
    ClusterToSector(l, cluster) * 512
  }

  // ---- where the code looks; offsets and positions are ints and wrap ----

  /** How many clusters the code goes along the chain. */
  function CodeIndex(l: ValidLayout, offset: Int): nat {
    if offset < 0 then 0 else ClusterIndex(l, offset)
  }

  /** Where the code reads in a cluster. */
  function CodePosition(l: ValidLayout, cluster: Cluster, offset: Int): Int {
    Wrap(ClusterStart(l, cluster) + CMod(offset, ClusterBytes(l)))
  }

  // ---- the entry of a cluster, as the code locates it ----

  /** Where fat16_get_fat_entry reads: the table's position times twice the cluster. */
  function FatEntryPosition(l: ValidLayout, cluster: nat): Int {
    FatPosition.ReadPosition(l.reservedSectors, cluster)
  }

  lemma FatEntryPositionAligned(l: ValidLayout, cluster: nat)
    ensures FatEntryPosition(l, cluster) % 512 == 0
  {
    hide Wrap;
    Reassociate(l.reservedSectors, cluster * 2);
    WrapSector(l.reservedSectors * 512 * (cluster * 2));
  }

  lemma Reassociate(r: nat, b: nat)
    ensures r * 512 * b % 512 == 0
  {
    assert r * 512 * b == r * b * 512;
  }

  // ---- walking the chain ----

  /** What a read sees of a volume: its bytes, the surroundings of the sector buffer,
      the entry found for each cluster, and the layout. */
  datatype Volume = Volume(disk: Disk, next: Cluster -> Cluster, layout: ValidLayout)

  function FatEntry(disk: Disk, l: ValidLayout, cluster: Cluster): Cluster {
    var p := FatEntryPosition(l, cluster);
    var low: nat, high: nat := disk.byteAt(p), disk.byteAt(p + 1);
    low + 0x100 * high
  }

  /** The volume as the code reads it off the disk. */
  function OnDisk(disk: Disk, l: ValidLayout): Volume {
    Volume(disk, (c: Cluster) => FatEntry(disk, l, c), l)
  }

  /** The entries at which the code refuses to go on. */
  predicate Marker(entry: nat) {
    entry == 0xFF8 || entry == 0xFFF || entry == 0xFF7 || entry == 0xFF0 || entry == 0xFF6 || entry == 0
  }

  /** The cluster n steps along the chain from start, if no marker lies between. */
  function Walk(next: Cluster -> Cluster, start: Cluster, n: nat): Option<Cluster> {
    if n == 0 then Some(start)
    else
      match Walk(next, start, n - 1)
      case None => None
      case Some(c) => if Marker(next(c)) then None else Some(next(c))
  }

  lemma {:induction false} WalkStops(next: Cluster -> Cluster, start: Cluster, m: nat, n: nat)
    requires m <= n && Walk(next, start, m).None?
    ensures Walk(next, start, n).None?
    decreases n
  {
    if m < n { WalkStops(next, start, m, n - 1); }
  }

  /** The entry of a cluster of a chain is never read where the format puts it. */
  lemma NeverTheIntendedEntry(disk: Disk, l: ValidLayout, start: Cluster, n: nat)
    requires l.reservedSectors >= 1
    ensures match Walk(OnDisk(disk, l).next, start, n)
      case None => true
      case Some(c) => FatEntryPosition(l, c) != FatPosition.EntryPosition(l.reservedSectors, c)
  {
    hide FatPosition.ReadPosition, FatPosition.EntryPosition;
    var c := Walk(OnDisk(disk, l).next, start, n);
    if c.Some? { FatPosition.NeverTheEntry(l.reservedSectors, c.value); }
  }

  /** Where byte k of the clusters of the chain lies, one cluster after the other. */
  function ChainPlace(v: Volume, start: Cluster, k: nat): Option<int> {
    match Walk(v.next, start, ClusterIndex(v.layout, k))
    case None => None
    case Some(c) => Some(ClusterStart(v.layout, c) + InCluster(v.layout, k))
  }

  function ChainByte(v: Volume, start: Cluster, k: nat): Option<Byte> {
    match ChainPlace(v, start, k)
    case None => None
    case Some(p) => Some(v.disk.byteAt(p))
  }

  /** fat16_get_fat_entry */
  method GetFatEntry(stream: DiskStream, disk: Disk, l: ValidLayout, cluster: Cluster) returns (r: int)
    modifies stream
    ensures r == FatEntry(disk, l, cluster)
  {
    hide SourceOf, FatEntryPosition;
    r := DiskStreamerSeek(stream, FatEntryPosition(l, cluster));
    if r < 0 {
      return;
    }
    FatEntryPositionAligned(l, cluster);
    AlignedRead(disk, FatEntryPosition(l, cluster), 2);
    var result := [0, 0];
    r, result := DiskStreamerRead(stream, disk, result, 0, 2);
    if r < 0 {
      return;
    }
    var high: int := result[1];
    r := result[0] + 0x100 * high;
  }

  /** fat16_get_cluster_for_offset */
  method GetClusterForOffset(stream: DiskStream, disk: Disk, l: ValidLayout, startingCluster: Cluster, offset: Int)
    returns (r: int)
    modifies stream
    ensures match Walk(OnDisk(disk, l).next, startingCluster, CodeIndex(l, offset))
            case None => r == -EIO
            case Some(c) => r == c
  {
    hide FatEntry, ClusterBytes, CDiv;
    var clusterToUse := startingCluster;
    var clustersAhead := CDiv(offset, ClusterBytes(l));
    Ahead(l, offset);
    hide CodeIndex;
    var i := 0;
    while i < clustersAhead
      invariant 0 <= i && (i <= clustersAhead || i == 0)
      invariant Walk(OnDisk(disk, l).next, startingCluster, i) == Some(clusterToUse)
    {
      var entry := GetFatEntry(stream, disk, l, clusterToUse);
      if entry == 0xFF8 || entry == 0xFFF || entry == 0xFF7 || entry == 0xFF0 || entry == 0xFF6 || entry == 0 {
        assert Walk(OnDisk(disk, l).next, startingCluster, i + 1) == None;
        WalkStops(OnDisk(disk, l).next, startingCluster, i + 1, clustersAhead);
        return -EIO;
      }
      clusterToUse := entry;
      i := i + 1;
    }
    r := clusterToUse;
  }

  lemma Ahead(l: ValidLayout, offset: Int)
    ensures CodeIndex(l, offset) == Length(CDiv(offset, ClusterBytes(l)))
  {
    var n: int := offset;
    if n < 0 { Bits.DivNonNegative(-n, ClusterBytes(l)); }
  }

  // ---- the read ----

  /** What a read leaves in the buffer, and whether it succeeds: each step reads up to
      a cluster's length from the place of the offset within its cluster. */
  datatype Outcome = Outcome(ok: bool, bytes: seq<Byte>)

  function Chunk(v: Volume, cluster: Cluster, offset: Int, n: nat): (r: seq<Byte>)
    ensures |r| == n
  {
    StreamBytes(v.disk, CodePosition(v.layout, cluster, offset), n)
  }

  function Min(a: int, b: int): int { if a <= b then a else b }

  function Read(v: Volume, start: Cluster, offset: Int, total: Int): (r: Outcome)
    ensures |r.bytes| <= Length(total) && (r.ok ==> |r.bytes| == Length(total))
    decreases Length(total)
  {
    match Walk(v.next, start, CodeIndex(v.layout, offset))
    case None => Outcome(false, [])
    case Some(c) =>
      var size := ClusterBytes(v.layout);
      var chunk := Chunk(v, c, offset, Length(Min(total, size)));
      if total <= size then Outcome(true, chunk)
      else
        var rest := Read(v, start, Wrap(offset + size), total - size);
        Outcome(rest.ok, chunk + rest.bytes)
  }

  lemma ReadStep(v: Volume, start: Cluster, offset: Int, total: Int)
    ensures var size := ClusterBytes(v.layout);
      match Walk(v.next, start, CodeIndex(v.layout, offset))
      case None => Read(v, start, offset, total) == Outcome(false, [])
      case Some(c) =>
        var chunk := Chunk(v, c, offset, Length(Min(total, size)));
        if total <= size then Read(v, start, offset, total) == Outcome(true, chunk)
        else
          var rest := Read(v, start, Wrap(offset + size), total - size);
          Read(v, start, offset, total) == Outcome(rest.ok, chunk + rest.bytes)
  {
  }

  /** fat16_read_internal_from_stream into the buffer out from index at on. */
  method ReadInternalFromStream(disk: Disk, l: ValidLayout, fatStream: DiskStream, stream: DiskStream,
                                cluster: Cluster, offset: Int, total: Int, out: seq<Byte>, at: nat)
    returns (r: int, filled: seq<Byte>)
    requires at + Length(total) <= |out|
    modifies fatStream, stream
    ensures r == if Read(OnDisk(disk, l), cluster, offset, total).ok then 0 else -EIO
    ensures filled == Write(out, at, Read(OnDisk(disk, l), cluster, offset, total).bytes)
    decreases Length(total)
  {
    hide ClusterStart, FatEntry, Walk, SourceOf, CodeIndex, CodePosition, ClusterBytes, Read, Write, Wrap, CMod;
    ghost var v := OnDisk(disk, l);
    ReadStep(v, cluster, offset, total);
    filled := out;
    var sizeOfCluster := ClusterBytes(l);
    var clusterToUse := GetClusterForOffset(fatStream, disk, l, cluster, offset);
    if clusterToUse < 0 {
      return clusterToUse, out;
    }
    var startingPos := CodePosition(l, clusterToUse, offset);
    var totalToRead := if total > sizeOfCluster then sizeOfCluster else total;
    r := DiskStreamerSeek(stream, startingPos);
    if r != 0 {
      return;
    }
    r, filled := DiskStreamerRead(stream, disk, out, at, totalToRead);
    if r != 0 {
      return;
    }
    ghost var chunk := Chunk(v, clusterToUse, offset, Length(totalToRead));
    if total - totalToRead > 0 {
      var next := Wrap(offset + totalToRead);
      WriteWrite(out, at, chunk, Read(v, cluster, next, total - totalToRead).bytes);
      r, filled := ReadInternalFromStream(disk, l, fatStream, stream, cluster, next, total - totalToRead, filled,
                                          at + totalToRead);
    }
  }

  // ---- what the read means ----

  /** Offsets and lengths that are not negative as ints. */
  type Size = n: nat | n < 0x8000_0000

  /** The clusters from the first that a chain can have at this place lie far enough from
      the start of the disk for the read: a marker of 0 ends the chain, so cluster 0 can
      only be the start of one. */
  predicate OnDiskFrom(l: ValidLayout, offset: Size) {
    ClusterStart(l, if ClusterIndex(l, offset) == 0 then 0 else 1) + InCluster(l, offset) >= 0
  }

  /** The read begins on a cluster boundary, and no later step begins at a file offset of
      2^31 or more; or it stays within one cluster, and there begins on a sector boundary
      or stays within one sector of the disk. */
  predicate ReadAligned(l: ValidLayout, offset: Size, total: Size) {
    || total == 0
    || (InCluster(l, offset) == 0 && LastCluster(l, offset, total) * ClusterBytes(l) < 0x8000_0000)
    || (InCluster(l, offset) + total <= ClusterBytes(l) && PlaceAligned(l, offset, total))
  }

  predicate PlaceAligned(l: ValidLayout, offset: Size, total: Size) {
    var o := InCluster(l, offset);
    o % 512 == 0 || (o % 512 + total <= SECTOR && OnDiskFrom(l, offset))
  }

  /** Number of the last cluster along the chain that a read looks up. */
  function LastCluster(l: ValidLayout, offset: nat, total: nat): nat {
    ClusterIndex(l, if total == 0 then offset else offset + total - 1)
  }

  ghost predicate IsChain(v: Volume, start: Cluster, offset: nat, bytes: seq<Byte>) {
    forall i :: 0 <= i < |bytes| ==> ChainByte(v, start, offset + i) == Some(bytes[i])
  }

  /** The bytes of the chain that are read lie before byte 2^31 of the disk. */
  ghost predicate BytesBelow(v: Volume, start: Cluster, offset: nat, total: nat) {
    forall k :: offset <= k < offset + total ==> Below(v, start, k)
  }

  predicate Below(v: Volume, start: Cluster, k: nat) {
    ChainPlace(v, start, k).Some? ==> ChainPlace(v, start, k).value < 0x8000_0000
  }

  lemma Division(l: ValidLayout, k: nat)
    ensures k == ClusterBytes(l) * ClusterIndex(l, k) + InCluster(l, k)
  {
  }

  lemma WithinCluster(l: ValidLayout, offset: nat, i: nat)
    requires InCluster(l, offset) + i < ClusterBytes(l)
    ensures ClusterIndex(l, offset + i) == ClusterIndex(l, offset)
    ensures InCluster(l, offset + i) == InCluster(l, offset) + i
  {
    Division(l, offset);
    Bits.DivModUnique(offset + i, ClusterBytes(l), ClusterIndex(l, offset), InCluster(l, offset) + i);
  }

  lemma NextCluster(l: ValidLayout, offset: nat, total: nat)
    requires InCluster(l, offset) == 0 && total > ClusterBytes(l)
    ensures InCluster(l, offset + ClusterBytes(l)) == 0
    ensures ClusterIndex(l, offset) <= LastCluster(l, offset, total)
    ensures offset + ClusterBytes(l) <= LastCluster(l, offset, total) * ClusterBytes(l)
  {
    var size, q := ClusterBytes(l), ClusterIndex(l, offset);
    Division(l, offset);
    Bits.DivModUnique(offset + size, size, q + 1, 0);
    Division(l, offset + total - 1);
    var last := ClusterIndex(l, offset + total - 1);
    Ordered(size, q + 1, last, InCluster(l, offset + total - 1));
    Bits.MulMonotone(size, q + 1, last);
  }

  lemma Ordered(size: nat, q: nat, q': nat, r: nat)
    requires size >= 1 && r < size && size * q <= size * q' + r
    ensures q <= q'
  {
    if q' + 1 <= q {
      Bits.MulMonotone(size, q' + 1, q);
    }
  }

  lemma SectorsOf(l: ValidLayout, c: Cluster)
    ensures ClusterStart(l, c) % 512 == 0 && ClusterStart(l, c) >= -510 * 512
    ensures c >= 1 ==> ClusterStart(l, c) >= ClusterStart(l, 1)
    ensures ClusterStart(l, 0) <= ClusterStart(l, c) <= ClusterStart(l, 0xFFFF)
  {
    var p: int := l.sectorsPerCluster;
    assert (c - 2) * p == c * p - 2 * p && -1 * p == p - 2 * p && (0xFFFF - 2) * p == 0xFFFF * p - 2 * p;
    if c >= 1 { Bits.MulMonotone(p, 1, c); }
    Bits.MulMonotone(p, c, 0xFFFF);
    Bits.MulMonotone(p, 0, c);
  }

  lemma {:induction false} ReachedLater(next: Cluster -> Cluster, start: Cluster, n: nat)
    requires n > 0
    ensures Walk(next, start, n) != Some(0)
  {
    var c := Walk(next, start, n - 1);
  }

  /** For a file offset that is not negative the code goes to the right cluster and to the
      right place there. */
  lemma CodeRight(l: ValidLayout, c: Cluster, offset: Size)
    ensures CodeIndex(l, offset) == ClusterIndex(l, offset)
    ensures CodePosition(l, c, offset) == Wrap(ClusterStart(l, c) + InCluster(l, offset))
    ensures ClusterStart(l, c) + InCluster(l, offset) < 0x8000_0000 ==>
      CodePosition(l, c, offset) == ClusterStart(l, c) + InCluster(l, offset)
  {
    hide ClusterStart, ClusterBytes, CDiv;
    CModBounds(offset, ClusterBytes(l));
    SectorsOf(l, c);
  }

  lemma SumMod(s: int, o: nat)
    requires s % 512 == 0
    ensures (s + o) % 512 == o % 512
  {
  }

  /** How many bytes of a read lie in the first cluster. */
  function First(l: ValidLayout, total: Size): Size { Min(total, ClusterBytes(l)) }

  lemma FirstInside(l: ValidLayout, offset: Size, total: Size)
    requires ReadAligned(l, offset, total)
    ensures total > 0 ==> InCluster(l, offset) + First(l, total) <= ClusterBytes(l)
  {
  }

  /** The first chunk of an aligned read is aligned for the sector reader, if its bytes lie
      before byte 2^31. */
  lemma ChunkAligned(v: Volume, start: Cluster, offset: Size, total: Size, c: Cluster)
    requires ReadAligned(v.layout, offset, total) && total > 0
    requires Walk(v.next, start, ClusterIndex(v.layout, offset)) == Some(c)
    requires ClusterStart(v.layout, c) + InCluster(v.layout, offset) + First(v.layout, total) <= 0x8000_0000
    ensures var p := CodePosition(v.layout, c, offset);
      p == ClusterStart(v.layout, c) + InCluster(v.layout, offset) && Aligned(p, First(v.layout, total))
  {
    hide Walk, ClusterStart, ClusterIndex, InCluster, ClusterBytes, CodePosition;
    var l := v.layout;
    SectorsOf(l, c);
    CodeRight(l, c, offset);
    if ClusterIndex(l, offset) > 0 { ReachedLater(v.next, start, ClusterIndex(l, offset)); }
    SumMod(ClusterStart(l, c), InCluster(l, offset));
  }

  /** The place of byte i of the chunk that begins at offset in cluster c. */
  lemma ChunkPlace(v: Volume, start: Cluster, offset: nat, c: Cluster, i: nat)
    requires Walk(v.next, start, ClusterIndex(v.layout, offset)) == Some(c)
    requires InCluster(v.layout, offset) + i < ClusterBytes(v.layout)
    ensures ChainPlace(v, start, offset + i) == Some(ClusterStart(v.layout, c) + InCluster(v.layout, offset) + i)
  {
    hide Walk, ClusterStart, ClusterBytes, ClusterIndex, InCluster;
    WithinCluster(v.layout, offset, i);
  }

  lemma ChunkIsChain(v: Volume, start: Cluster, offset: Size, total: Size, c: Cluster)
    requires ReadAligned(v.layout, offset, total) && total > 0 && BytesBelow(v, start, offset, total)
    requires Walk(v.next, start, ClusterIndex(v.layout, offset)) == Some(c)
    ensures IsChain(v, start, offset, Chunk(v, c, offset, First(v.layout, total)))
  {
    hide Walk, ClusterStart, SourceOf, ClusterBytes, ClusterIndex, InCluster, ReadAligned, CodePosition, ChainPlace;
    var n := First(v.layout, total);
    FirstInside(v.layout, offset, total);
    ChunkPlace(v, start, offset, c, n - 1);
    assert Below(v, start, offset + (n - 1));
    ChunkAligned(v, start, offset, total, c);
    AlignedRead(v.disk, CodePosition(v.layout, c, offset), n);
    forall i | 0 <= i < n ensures ChainByte(v, start, offset + i) == Some(Chunk(v, c, offset, n)[i]) {
      ChunkPlace(v, start, offset, c, i);
    }
  }

  lemma ChainConcat(v: Volume, start: Cluster, offset: nat, s: seq<Byte>, t: seq<Byte>)
    requires IsChain(v, start, offset, s) && IsChain(v, start, offset + |s|, t)
    ensures IsChain(v, start, offset, s + t)
  {
    hide ChainByte;
    forall i | 0 <= i < |s + t| ensures ChainByte(v, start, offset + i) == Some((s + t)[i]) {
      if i >= |s| { assert offset + i == offset + |s| + (i - |s|); }
    }
  }

  /** After its first cluster an aligned read goes on as an aligned read. */
  lemma RestAligned(l: ValidLayout, offset: Size, total: Size)
    requires ReadAligned(l, offset, total) && total > ClusterBytes(l)
    ensures var size := ClusterBytes(l);
      && offset + size < 0x8000_0000 && Wrap(offset + size) == offset + size
      && ReadAligned(l, offset + size, total - size)
      && LastCluster(l, offset + size, total - size) == LastCluster(l, offset, total)
  {
    hide ClusterBytes, ClusterIndex, InCluster;
    NextCluster(l, offset, total);
    assert offset + ClusterBytes(l) + (total - ClusterBytes(l)) - 1 == offset + total - 1;
  }

  lemma RestBelow(v: Volume, start: Cluster, offset: nat, total: nat, n: nat)
    requires BytesBelow(v, start, offset, total) && n <= total
    ensures BytesBelow(v, start, offset + n, total - n)
  {
    hide Below;
  }

  /** An aligned read succeeds exactly when no marker lies before the last cluster that it
      needs. */
  lemma {:induction false} ReadSucceeds(v: Volume, start: Cluster, offset: Size, total: Size)
    requires ReadAligned(v.layout, offset, total)
    ensures Read(v, start, offset, total).ok <==> Walk(v.next, start, LastCluster(v.layout, offset, total)).Some?
    decreases total
  {
    hide Read, Walk, ClusterStart, SourceOf, ClusterBytes, ClusterIndex, InCluster, CodeIndex, CodePosition;
    hide LastCluster, ReadAligned, Wrap;
    var l := v.layout;
    ReadStep(v, start, offset, total);
    CodeRight(l, 0, offset);
    LastAfterFirst(l, offset, total);
    if Walk(v.next, start, ClusterIndex(l, offset)).None? {
      WalkStops(v.next, start, ClusterIndex(l, offset), LastCluster(l, offset, total));
    } else if total > ClusterBytes(l) {
      RestAligned(l, offset, total);
      ReadSucceeds(v, start, offset + ClusterBytes(l), total - ClusterBytes(l));
    }
  }

  /** An aligned read of bytes that lie before byte 2^31 fills the buffer with the bytes of
      the chain from offset on; what it wrote before failing are bytes of the chain too. */
  lemma {:induction false} ReadIsChain(v: Volume, start: Cluster, offset: Size, total: Size)
    requires ReadAligned(v.layout, offset, total) && BytesBelow(v, start, offset, total)
    ensures IsChain(v, start, offset, Read(v, start, offset, total).bytes)
    decreases total
  {
    hide Read, Walk, ClusterStart, SourceOf, ClusterBytes, ClusterIndex, InCluster, CodeIndex, CodePosition, IsChain;
    hide ReadAligned, BytesBelow, Wrap;
    var l := v.layout;
    ReadStep(v, start, offset, total);
    CodeRight(l, 0, offset);
    match Walk(v.next, start, ClusterIndex(l, offset))
    case None =>
      NothingRead(v, start, offset);
    case Some(c) =>
      if total == 0 {
        NothingRead(v, start, offset);
      } else {
        ChunkIsChain(v, start, offset, total, c);
        if total > ClusterBytes(l) {
          var size := ClusterBytes(l);
          RestAligned(l, offset, total);
          RestBelow(v, start, offset, total, size);
          ReadIsChain(v, start, offset + size, total - size);
          ChainConcat(v, start, offset, Chunk(v, c, offset, size), Read(v, start, offset + size, total - size).bytes);
        }
      }
  }

  lemma NothingRead(v: Volume, start: Cluster, offset: nat)
    ensures IsChain(v, start, offset, [])
  {
  }

  lemma LastOfOne(l: ValidLayout, offset: nat, total: nat)
    requires InCluster(l, offset) + total <= ClusterBytes(l)
    ensures LastCluster(l, offset, total) == ClusterIndex(l, offset)
  {
    hide ClusterIndex, InCluster, ClusterBytes;
    if total > 0 { WithinCluster(l, offset, total - 1); }
  }

  lemma LastAfterFirst(l: ValidLayout, offset: Size, total: Size)
    requires ReadAligned(l, offset, total)
    ensures ClusterIndex(l, offset) <= LastCluster(l, offset, total)
    ensures total <= ClusterBytes(l) ==> LastCluster(l, offset, total) == ClusterIndex(l, offset)
  {
    hide ClusterIndex, InCluster, ClusterBytes;
    if InCluster(l, offset) + total <= ClusterBytes(l) {
      LastOfOne(l, offset, total);
    } else if total > ClusterBytes(l) {
      NextCluster(l, offset, total);
    }
  }

  // ---- fat16_read ----

  /** size * n */
  function ItemBytes(size: nat, n: nat): nat {
    if n == 0 then 0 else size + ItemBytes(size, n - 1)
  }

  /** nmemb reads of size bytes, one after the other, up to the first that fails. The size
      is passed on as an int, and the offset is one. */
  function ReadMany(v: Volume, start: Cluster, offset: Int, size: Word, nmemb: nat): (r: Outcome)
    ensures |r.bytes| <= ItemBytes(size, nmemb)
    ensures r.ok ==> |r.bytes| == ItemBytes(Length(Wrap(size)), nmemb)
    decreases nmemb
  {
    if nmemb == 0 then Outcome(true, [])
    else
      var first := Read(v, start, offset, Wrap(size));
      if !first.ok then first
      else
        var rest := ReadMany(v, start, Wrap(offset + size), size, nmemb - 1);
        Outcome(rest.ok, first.bytes + rest.bytes)
  }

  lemma ReadManyStep(v: Volume, start: Cluster, offset: Int, size: Word, n: nat)
    requires n >= 1
    ensures var first, rest := Read(v, start, offset, Wrap(size)), ReadMany(v, start, Wrap(offset + size), size, n - 1);
      ReadMany(v, start, offset, size, n) == if first.ok then Outcome(rest.ok, first.bytes + rest.bytes) else first
  {
  }

  /** The bytes done and n more items from offset on make up the whole read. */
  ghost predicate SoFar(v: Volume, start: Cluster, offset: Int, size: Word, n: nat, done: seq<Byte>, all: Outcome) {
    var rest := ReadMany(v, start, offset, size, n);
    all == Outcome(rest.ok, done + rest.bytes)
  }

  lemma ItemRead(v: Volume, start: Cluster, offset: Int, size: Word, n: nat, done: seq<Byte>, all: Outcome)
    requires n >= 1 && SoFar(v, start, offset, size, n, done, all)
    ensures var first := Read(v, start, offset, Wrap(size));
      if first.ok then SoFar(v, start, Wrap(offset + size), size, n - 1, done + first.bytes, all)
      else all == Outcome(false, done + first.bytes)
  {
    hide Read, ReadMany, Wrap;
    ReadManyStep(v, start, offset, size, n);
    var first, rest := Read(v, start, offset, Wrap(size)), ReadMany(v, start, Wrap(offset + size), size, n - 1);
    assert done + (first.bytes + rest.bytes) == done + first.bytes + rest.bytes;
  }

  lemma AllRead(v: Volume, start: Cluster, offset: Int, size: Word, done: seq<Byte>, all: Outcome)
    ensures SoFar(v, start, offset, size, 0, done, all) <==> all == Outcome(true, done)
  {
  }

  lemma NoItemYet(v: Volume, start: Cluster, offset: Int, size: Word, n: nat)
    ensures SoFar(v, start, offset, size, n, [], ReadMany(v, start, offset, size, n))
  {
  }

  /** The next item goes to index to; it follows the bytes done, unless items are of a
      negative size and write nothing. */
  ghost predicate Placed(out: seq<Byte>, at: nat, size: Word, n: nat, done: seq<Byte>, to: nat) {
    && at + |done| <= to && to + ItemBytes(size, n) <= |out|
    && if Wrap(size) < 0 then done == [] else to == at + |done|
  }

  lemma NonePlaced(out: seq<Byte>, at: nat, size: Word, n: nat)
    requires at + ItemBytes(size, n) <= |out|
    ensures Placed(out, at, size, n, [], at)
  {
  }

  lemma Extend(out: seq<Byte>, at: nat, size: Word, n: nat, done: seq<Byte>, first: seq<Byte>, to: nat)
    requires n >= 1 && Placed(out, at, size, n, done, to) && |first| <= Length(Wrap(size))
    ensures to + Length(Wrap(size)) <= |out| && at + |done| + |first| <= |out|
    ensures Write(Write(out, at, done), to, first) == Write(out, at, done + first)
    ensures |first| == Length(Wrap(size)) ==> Placed(out, at, size, n - 1, done + first, to + size)
  {
    hide Write, Wrap;
    SizeAsInt(size);
    OneItemMore(size, n);
    if first == [] {
      WriteNothing(Write(out, at, done), to);
      assert done + first == done;
    } else {
      WriteWrite(out, at, done, first);
    }
  }

  /** fat16_read of nmemb items of size bytes, from byte pos of the file whose first
      cluster is startingCluster, into the buffer out from index at on. */
  method Fat16Read(disk: Disk, l: ValidLayout, fatStream: DiskStream, stream: DiskStream, startingCluster: Cluster,
                   pos: Word, size: Word, nmemb: nat, out: seq<Byte>, at: nat)
    returns (r: int, filled: seq<Byte>)
    requires at + ItemBytes(size, nmemb) <= |out|
    modifies fatStream, stream
    ensures r == if ReadMany(OnDisk(disk, l), startingCluster, Wrap(pos), size, nmemb).ok then nmemb else -EIO
    ensures filled == Write(out, at, ReadMany(OnDisk(disk, l), startingCluster, Wrap(pos), size, nmemb).bytes)
  {
    hide Read, Write, OnDisk, ReadMany, ItemBytes, SoFar, Placed, Wrap;
    ghost var v := OnDisk(disk, l);
    ghost var all := ReadMany(v, startingCluster, Wrap(pos), size, nmemb);
    ghost var done: seq<Byte> := [];
    var offset: Int, outPtr: nat := Wrap(pos), at;
    filled := out;
    WriteNothing(out, at);
    NoItemYet(v, startingCluster, offset, size, nmemb);
    NonePlaced(out, at, size, nmemb);
    for i := 0 to nmemb
      invariant at + |done| <= |out| && Placed(out, at, size, nmemb - i, done, outPtr)
      invariant filled == Write(out, at, done)
      invariant SoFar(v, startingCluster, offset, size, nmemb - i, done, all)
    {
      ItemRead(v, startingCluster, offset, size, nmemb - i, done, all);
      ghost var first := Read(v, startingCluster, offset, Wrap(size));
      Extend(out, at, size, nmemb - i, done, first.bytes, outPtr);
      r, filled := ReadInternalFromStream(disk, l, fatStream, stream, startingCluster, offset, Wrap(size), filled,
                                          outPtr);
      if r < 0 {
        return;
      }
      done := done + first.bytes;
      outPtr := outPtr + size;
      offset := Wrap(offset + size);
    }
    AllRead(v, startingCluster, offset, size, done, all);
    r := nmemb;
  }

  lemma SizeAsInt(size: Word)
    ensures Wrap(size) >= 0 ==> Wrap(size) == size
    ensures Length(Wrap(size)) <= size
  {
  }

  lemma OneItemMore(size: nat, n: nat)
    ensures n >= 1 ==> ItemBytes(size, n) == size + ItemBytes(size, n - 1)
  {
  }

  lemma NoneRead(v: Volume, start: Cluster, offset: Int, size: Word)
    ensures ReadMany(v, start, offset, size, 0) == Outcome(true, [])
  {
  }

  lemma WriteNothing(out: seq<Byte>, at: nat)
    requires at <= |out|
    ensures Write(out, at, []) == out
  {
  }

  ghost predicate ItemsAligned(l: ValidLayout, offset: nat, size: Size, nmemb: nat)
    decreases nmemb
  {
    || nmemb == 0
    || (offset < 0x8000_0000 && ReadAligned(l, offset, size) && ItemsAligned(l, offset + size, size, nmemb - 1))
  }

  /** If every item's read is aligned and its bytes lie before byte 2^31, the buffer holds
      the chain's bytes from offset on. */
  lemma {:induction false} ReadManyIsChain(v: Volume, start: Cluster, offset: nat, size: Size, nmemb: nat)
    requires ItemsAligned(v.layout, offset, size, nmemb) && BytesBelow(v, start, offset, ItemBytes(size, nmemb))
    ensures IsChain(v, start, offset, ReadMany(v, start, Wrap(offset), size, nmemb).bytes)
    decreases nmemb
  {
    hide Read, ReadAligned, IsChain, BytesBelow, ReadMany, Wrap;
    if nmemb == 0 {
      NoneRead(v, start, Wrap(offset), size);
      NothingRead(v, start, offset);
    } else {
      FewerBelow(v, start, offset, size, ItemBytes(size, nmemb));
      RestBelow(v, start, offset, ItemBytes(size, nmemb), size);
      ReadManyStep(v, start, Wrap(offset), size, nmemb);
      ReadIsChain(v, start, offset, size);
      ReadManyIsChain(v, start, offset + size, size, nmemb - 1);
      ChainConcat2(v, start, offset, size, nmemb);
    }
  }

  lemma FewerBelow(v: Volume, start: Cluster, offset: nat, n: nat, total: nat)
    requires BytesBelow(v, start, offset, total) && n <= total
    ensures BytesBelow(v, start, offset, n)
  {
  }

  lemma ChainConcat2(v: Volume, start: Cluster, offset: Size, size: Size, nmemb: nat)
    requires nmemb >= 1 && IsChain(v, start, offset, Read(v, start, offset, size).bytes)
    requires IsChain(v, start, offset + size, ReadMany(v, start, Wrap(offset + size), size, nmemb - 1).bytes)
    ensures var first, rest := Read(v, start, offset, size), ReadMany(v, start, Wrap(offset + size), size, nmemb - 1);
      first.ok ==> IsChain(v, start, offset, first.bytes + rest.bytes)
  {
    hide Read, IsChain, ReadMany, Wrap;
    var first, rest := Read(v, start, offset, size), ReadMany(v, start, Wrap(offset + size), size, nmemb - 1);
    if first.ok { ChainConcat(v, start, offset, first.bytes, rest.bytes); }
  }
}
