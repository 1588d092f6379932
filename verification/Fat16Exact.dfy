/** When a read by a chain of clusters is right on every disk: the condition of Fat16Read
    is exact, because a read that does not meet it goes wrong on some disk. */
module Fat16Exact {
  import opened Memory
  import opened Wrappers
  import opened Int32
  import opened Streamer
  import opened Fat16Read
  import Bits
  import FatPosition

  /** Whenever the chain is long enough, the read succeeds with its bytes. */
  ghost predicate Right(v: Volume, start: Cluster, offset: Size, total: Size) {
    Walk(v.next, start, LastCluster(v.layout, offset, total)).Some? ==>
      Read(v, start, offset, total).ok && IsChain(v, start, offset, Read(v, start, offset, total).bytes)
  }

  /** The bytes that the read takes of its first cluster end at or before byte 2^31 of the
      disk, whichever cluster it is. */
  predicate EndsBelow(l: ValidLayout, offset: Size, total: Size) {
    ClusterStart(l, 0xFFFF) + InCluster(l, offset) + First(l, total) <= 0x8000_0000
  }

  predicate Everywhere(l: ValidLayout, offset: Size, total: Size) {
    ReadAligned(l, offset, total) && (total == 0 || EndsBelow(l, offset, total))
  }

  lemma PlaceBound(l: ValidLayout, offset: Size, total: Size, i: nat)
    requires ReadAligned(l, offset, total) && i < total
    ensures InCluster(l, offset + i) < InCluster(l, offset) + First(l, total)
  {
    hide ClusterIndex, InCluster, ClusterBytes;
    if InCluster(l, offset) + total <= ClusterBytes(l) {
      WithinCluster(l, offset, i);
    }
  }

  lemma BelowEverywhere(v: Volume, start: Cluster, offset: Size, total: Size)
    requires Everywhere(v.layout, offset, total)
    ensures BytesBelow(v, start, offset, total)
  {
    hide ClusterStart, ClusterIndex, InCluster, ReadAligned;
    var l := v.layout;
    forall k | offset <= k < offset + total ensures Below(v, start, k) {
      PlaceBound(l, offset, total, k - offset);
      assert offset + (k - offset) == k;
      var c := Walk(v.next, start, ClusterIndex(l, k));
      if c.Some? { SectorsOf(l, c.value); }
    }
  }

  // ---- disks on which a read goes wrong ----

  /** A disk on which cluster a is followed by b, and b and e by e. Byte p differs from
      every byte outside the entries, and bad stands beside every sector buffer. */
  function TrapDisk(l: ValidLayout, a: Cluster, b: Cluster, e: Cluster, p: int, bad: Byte): Disk {
    var pa, pb, pe := FatEntryPosition(l, a), FatEntryPosition(l, b), FatEntryPosition(l, e);
    Disk(x => if x == pa then b % 256
              else if x == pa + 1 then b / 256
              else if x == pb || x == pe then e % 256
              else if x == pb + 1 || x == pe + 1 then e / 256
              else if x == p then 8 else 9,
         (_, _) => bad)
  }

  /** The clusters that the chains of trap disks go to. */
  predicate Calm(c: Cluster) { 1 <= c <= 3 || c == 0xFFFF }

  /** The entry of a is not read where that of another cluster is, unless it need not be. */
  predicate EntriesApart(l: ValidLayout, a: Cluster, b: Cluster, e: Cluster) {
    b == e || (FatEntryPosition(l, a) != FatEntryPosition(l, b) && FatEntryPosition(l, a) != FatEntryPosition(l, e))
  }

  lemma TrapEntries(l: ValidLayout, a: Cluster, b: Cluster, e: Cluster, p: int, bad: Byte)
    requires EntriesApart(l, a, b, e)
    ensures var disk := TrapDisk(l, a, b, e, p, bad);
      FatEntry(disk, l, a) == b && FatEntry(disk, l, b) == e && FatEntry(disk, l, e) == e
  {
    hide FatEntryPosition;
    FatEntryPositionAligned(l, a);
    FatEntryPositionAligned(l, b);
    FatEntryPositionAligned(l, e);
  }

  /** Cluster n of the chain of a trap disk. */
  function TrapCluster(a: Cluster, b: Cluster, e: Cluster, n: nat): Cluster {
    if n == 0 then a else if n == 1 then b else e
  }

  lemma TrapStart(a: Cluster, b: Cluster, e: Cluster)
    ensures TrapCluster(a, b, e, 0) == a
  {
  }

  lemma {:induction false} TrapWalk(l: ValidLayout, a: Cluster, b: Cluster, e: Cluster, p: int, bad: Byte, n: nat)
    requires n == 0 || (Calm(b) && Calm(e))
    requires EntriesApart(l, a, b, e)
    ensures Walk(OnDisk(TrapDisk(l, a, b, e, p, bad), l).next, a, n) == Some(TrapCluster(a, b, e, n))
  {
    hide FatEntryPosition, FatEntry, TrapDisk;
    TrapEntries(l, a, b, e, p, bad);
    if n > 0 { TrapWalk(l, a, b, e, p, bad, n - 1); }
  }

  /** A byte that comes from the wrong place and differs makes the read wrong. */
  lemma WrongByte(l: ValidLayout, disk: Disk, start: Cluster, offset: Size, total: Size, j: nat, byte: Byte)
    requires var v := OnDisk(disk, l);
      && Walk(v.next, start, LastCluster(l, offset, total)).Some? && j < total
      && (Read(v, start, offset, total).ok ==> Read(v, start, offset, total).bytes[j] == byte)
      && ChainByte(v, start, offset + j) != Some(byte)
    ensures !Right(OnDisk(disk, l), start, offset, total)
  {
    hide Read, Walk, ChainByte, LastCluster;
  }

  /** Byte i of the first chunk. */
  lemma FirstChunkByte(v: Volume, start: Cluster, offset: Size, total: Size, c: Cluster, i: nat)
    requires Walk(v.next, start, ClusterIndex(v.layout, offset)) == Some(c) && i < First(v.layout, total)
    ensures Read(v, start, offset, total).ok ==>
      Read(v, start, offset, total).bytes[i] == Fetch(v.disk, SourceOf(CodePosition(v.layout, c, offset), i))
  {
    hide Read, Walk, SourceOf, CodePosition, ClusterIndex, CodeIndex, ClusterBytes, Wrap;
    ReadStep(v, start, offset, total);
    CodeRight(v.layout, c, offset);
  }

  /** The bytes of two different places a whole number of sectors apart differ, if the
      chain is a loop. */
  lemma LoopDiffers(l: ValidLayout, c: Cluster, p: int, q: int, bad: Byte)
    requires Calm(c) && p != q && p % 512 == q % 512
    ensures TrapDisk(l, c, c, c, p, bad).byteAt(p) != TrapDisk(l, c, c, c, p, bad).byteAt(q)
  {
    hide FatEntryPosition;
    FatEntryPositionAligned(l, c);
  }

  /** A place of the chain from cluster c on that never leaves it. */
  function LoopPlace(l: ValidLayout, c: Cluster, k: nat): int { ClusterStart(l, c) + InCluster(l, k) }

  /** Byte i of a read in cluster c comes from elsewhere than its place. */
  ghost predicate Astray(l: ValidLayout, offset: Size, c: Cluster, i: nat) {
    match SourceOf(CodePosition(l, c, offset), i)
    case At(q) => q != LoopPlace(l, c, offset + i) && q % 512 == LoopPlace(l, c, offset + i) % 512
    case Beside(_, _) => true
  }

  /** A byte of the first chunk that comes from elsewhere makes the read wrong on a disk
      whose chain stays in the cluster. */
  lemma LoopWrong(l: ValidLayout, offset: Size, total: Size, c: Cluster, i: nat) returns (disk: Disk)
    requires Calm(c) && i < First(l, total) && Astray(l, offset, c, i)
    ensures !Right(OnDisk(disk, l), c, offset, total)
  {
    hide Right, Read, Walk, SourceOf, CodePosition, ClusterIndex, InCluster, ClusterStart, TrapDisk, LastCluster;
    hide ClusterBytes, Wrap;
    hide FatEntryPosition;
    var p := LoopPlace(l, c, offset + i);
    var good := TrapDisk(l, c, c, c, p, 0).byteAt(p);
    var bad: Byte := if good == 255 then 0 else good + 1;
    disk := TrapDisk(l, c, c, c, p, bad);
    var source := SourceOf(CodePosition(l, c, offset), i);
    BadOnlyBeside(l, c, c, c, p, bad, p);
    TrapWalk(l, c, c, c, p, bad, LastCluster(l, offset, total));
    TrapWalk(l, c, c, c, p, bad, ClusterIndex(l, offset));
    TrapWalk(l, c, c, c, p, bad, ClusterIndex(l, offset + i));
    if source.At? { LoopDiffers(l, c, p, source.p, bad); }
    FirstChunkByte(OnDisk(disk, l), c, offset, total, c, i);
    WrongByte(l, disk, c, offset, total, i, Fetch(disk, source));
  }

  lemma BadOnlyBeside(l: ValidLayout, a: Cluster, b: Cluster, e: Cluster, p: int, bad: Byte, x: int)
    ensures TrapDisk(l, a, b, e, p, bad).byteAt(x) == TrapDisk(l, a, b, e, p, 0).byteAt(x)
    ensures forall level, j :: TrapDisk(l, a, b, e, p, bad).outside(level, j) == bad
  {
    hide FatEntryPosition;
  }

  /** The same for cluster 0, in which a chain can only start. */
  lemma StartWrong(l: ValidLayout, offset: Size, total: Size, i: nat) returns (disk: Disk)
    requires i < First(l, total) && SourceOf(CodePosition(l, 0, offset), i).Beside?
    requires ClusterIndex(l, offset) == ClusterIndex(l, offset + i) == LastCluster(l, offset, total) == 0
    ensures !Right(OnDisk(disk, l), 0, offset, total)
  {
    hide Right, Read, Walk, SourceOf, CodePosition, ClusterIndex, InCluster, ClusterStart, TrapDisk, LastCluster;
    hide ClusterBytes, Wrap;
    hide FatEntryPosition;
    var p := LoopPlace(l, 0, offset + i);
    var good := TrapDisk(l, 0, 1, 1, p, 0).byteAt(p);
    var bad: Byte := if good == 255 then 0 else good + 1;
    disk := TrapDisk(l, 0, 1, 1, p, bad);
    BadOnlyBeside(l, 0, 1, 1, p, bad, p);
    TrapWalk(l, 0, 1, 1, p, bad, 0);
    FirstChunkByte(OnDisk(disk, l), 0, offset, total, 0, i);
    WrongByte(l, disk, 0, offset, total, i, bad);
  }

  // ---- a read that ends after byte 2^31 of the disk ----

  lemma PlaceMod(l: ValidLayout, c: Cluster, k: nat)
    ensures LoopPlace(l, c, k) % 512 == k % 512 && LoopPlace(l, c, k) >= -510 * 512
  {
    hide ClusterStart, ClusterBytes, ClusterIndex, InCluster;
    Division(l, k);
    SectorsOf(l, c);
    var size, q, r := ClusterBytes(l), ClusterIndex(l, k), InCluster(l, k);
    SameRemainder(size, q, r);
    SumMod(ClusterStart(l, c), r);
  }

  lemma SameRemainder(size: nat, q: nat, r: nat)
    requires size % 512 == 0
    ensures (size * q + r) % 512 == r % 512
  {
    var s := size / 512;
    assert size * q == 512 * (s * q) by { assert size == 512 * s; }
    Bits.DivModUnique(size * q + r, 512, s * q + r / 512, r % 512);
  }

  lemma TooFar(l: ValidLayout, offset: Size, total: Size) returns (i: nat)
    requires total > 0 && !EndsBelow(l, offset, total)
    ensures i < First(l, total) && Astray(l, offset, 0xFFFF, i)
  {
    hide ClusterStart, ClusterBytes, ClusterIndex, InCluster, CodePosition, SourceOf, Wrap;
    var place, n := LoopPlace(l, 0xFFFF, offset), First(l, total);
    var pos := CodePosition(l, 0xFFFF, offset);
    CodeRight(l, 0xFFFF, offset);
    if pos != place {
      i := 0;
      WrapSector(place);
      FirstSource(pos);
    } else {
      i := NotAlignedAt(pos, n);
      PlaceMod(l, 0xFFFF, offset);
      PlaceMod(l, 0xFFFF, offset + i);
      if pos % 512 == 0 { SumMod(offset, i); }
    }
  }

  lemma FirstSource(pos: Int)
    ensures SourceOf(pos, 0) == At(pos) || SourceOf(pos, 0).Beside?
  {
  }

  // ---- a read that is not aligned in its first cluster ----

  /** The cluster in which the read goes wrong. */
  function Culprit(l: ValidLayout, offset: Size, total: Size): Cluster {
    var o := InCluster(l, offset);
    if o + total > ClusterBytes(l) || o % 512 + total > SECTOR then 2
    else if ClusterIndex(l, offset) == 0 then 0 else 1
  }

  lemma CulpritPlace(l: ValidLayout, offset: Size, total: Size)
    requires total > 0 && EndsBelow(l, offset, total)
    ensures var p := LoopPlace(l, Culprit(l, offset, total), offset);
      CodePosition(l, Culprit(l, offset, total), offset) == p && p + First(l, total) <= 0x8000_0000
  {
    hide ClusterStart, ClusterBytes, ClusterIndex, InCluster, CodePosition;
    SectorsOf(l, Culprit(l, offset, total));
    CodeRight(l, Culprit(l, offset, total), offset);
  }

  /** The chunk gets a byte from beside the sector buffer, or runs over the end of its
      cluster, and the byte it finds there is not the first of the next cluster. */
  lemma NotAlignedInside(l: ValidLayout, offset: Size, total: Size) returns (i: nat)
    requires total > 0 && EndsBelow(l, offset, total) && InCluster(l, offset) > 0 && !ReadAligned(l, offset, total)
    ensures i < First(l, total) && Astray(l, offset, Culprit(l, offset, total), i)
    ensures Culprit(l, offset, total) == 0 ==> SourceOf(CodePosition(l, 0, offset), i).Beside?
  {
    hide ClusterStart, ClusterBytes, ClusterIndex, CodePosition, SourceOf, Wrap, InCluster;
    var c, n, o, size := Culprit(l, offset, total), First(l, total), InCluster(l, offset), ClusterBytes(l);
    var pos := CodePosition(l, c, offset);
    CulpritPlace(l, offset, total);
    SectorsOf(l, c);
    SumMod(ClusterStart(l, c), o);
    if Aligned(pos, n) {
      i := size - o;
      AlignedAt(pos, n, i);
      StartOfNext(l, offset);
      SumMod(ClusterStart(l, c), size);
    } else {
      i := NotAlignedAt(pos, n);
    }
  }

  lemma StartOfNext(l: ValidLayout, offset: nat)
    requires InCluster(l, offset) > 0
    ensures InCluster(l, offset + (ClusterBytes(l) - InCluster(l, offset))) == 0
  {
    hide ClusterBytes, ClusterIndex;
    Division(l, offset);
    var size, q := ClusterBytes(l), ClusterIndex(l, offset);
    assert size * q + size == size * (q + 1);
    Bits.DivModUnique(size * (q + 1), size, q + 1, 0);
  }

  /** The culprit is cluster 0 only for reads inside the first cluster of the chain. */
  lemma FirstOnly(l: ValidLayout, offset: Size, total: Size, i: nat)
    requires i < total
    ensures Culprit(l, offset, total) == 0 ==>
      ClusterIndex(l, offset + i) == ClusterIndex(l, offset) == LastCluster(l, offset, total) == 0
  {
    hide ClusterIndex, InCluster, ClusterBytes;
    if Culprit(l, offset, total) == 0 {
      WithinCluster(l, offset, i);
      WithinCluster(l, offset, total - 1);
    }
  }

  // ---- a read whose file offset wraps ----

  /** The first byte of step k of a read comes from the place of the wrapped offset. */
  lemma {:induction false} StepByte(v: Volume, start: Cluster, offset: Int, total: Size, k: nat)
    requires Read(v, start, offset, total).ok && k * ClusterBytes(v.layout) < total
    ensures var at := Wrap(offset + k * ClusterBytes(v.layout)); var c := Walk(v.next, start, CodeIndex(v.layout, at));
      c.Some? && Read(v, start, offset, total).bytes[k * ClusterBytes(v.layout)]
        == Fetch(v.disk, SourceOf(CodePosition(v.layout, c.value, at), 0))
    decreases k
  {
    hide Read, Walk, SourceOf, CodePosition, CodeIndex, ClusterBytes, Wrap;
    var size := ClusterBytes(v.layout);
    ReadStep(v, start, offset, total);
    if k == 0 {
      assert Wrap(offset + 0) == offset;
    } else {
      OneLess(k, size);
      StepByte(v, start, Wrap(offset + size), total - size, k - 1);
      WrapAdd(offset + size, (k - 1) * size);
    }
  }

  lemma OneLess(k: nat, size: nat)
    requires k > 0
    ensures k * size == (k - 1) * size + size && (k - 1) * size >= 0
  {
  }

  /** The last step begins at a file offset of 2^31 or more. */
  predicate OffsetWraps(l: ValidLayout, offset: Size, total: Size) {
    total > 0 && InCluster(l, offset) == 0 && LastCluster(l, offset, total) * ClusterBytes(l) >= 0x8000_0000
  }

  /** That step reads in the first cluster of the chain instead, at a place from less than
      a cluster before it on. */
  lemma LastStep(l: ValidLayout, offset: Size, total: Size) returns (k: nat, at: Int, o: int)
    requires OffsetWraps(l, offset, total) && EndsBelow(l, offset, total)
    ensures LastCluster(l, offset, total) > 0
    ensures k * ClusterBytes(l) < total && at == Wrap(offset + k * ClusterBytes(l)) && CodeIndex(l, at) == 0
    ensures offset + k * ClusterBytes(l) == LastCluster(l, offset, total) * ClusterBytes(l)
    ensures 0 < o + ClusterBytes(l) && o <= 0 && o % 512 == 0
    ensures forall a: Cluster :: SourceOf(CodePosition(l, a, at), 0) == At(ClusterStart(l, a) + o)
  {
    hide ClusterStart, ClusterBytes, ClusterIndex, InCluster, CDiv, SourceOf, Wrap;
    var size, last := ClusterBytes(l), LastCluster(l, offset, total);
    Division(l, offset);
    Division(l, offset + total - 1);
    StepsTo(size, ClusterIndex(l, offset), last, InCluster(l, offset + total - 1), offset, total);
    k := last - ClusterIndex(l, offset);
    at := Wrap(last * size);
    SizeAbove(last * size);
    CModBounds(at, size);
    o := CMod(at, size);
    WrapSector(last * size);
    RemainderSectors(at, last, size);
    forall a: Cluster ensures SourceOf(CodePosition(l, a, at), 0) == At(ClusterStart(l, a) + o) {
      SectorsOf(l, a);
      var pos := ClusterStart(l, a) + o;
      assert CodePosition(l, a, at) == pos;
      SumMod2(ClusterStart(l, a), o);
      WholeSectors(pos, 0);
    }
  }

  lemma StepsTo(size: nat, q: nat, last: nat, r: nat, offset: nat, total: nat)
    requires size >= 1 && r < size && total > 0 && offset == size * q && offset + total - 1 == size * last + r
    ensures q <= last && offset + (last - q) * size == last * size && (last - q) * size < total
  {
    Ordered(size, q, last, r);
    assert (last - q) * size == last * size - q * size;
  }

  lemma SizeAbove(x: nat)
    ensures 0x8000_0000 <= x < 0x1_0000_0000 ==> Wrap(x) == x - 0x1_0000_0000
  {
  }

  lemma RemainderSectors(at: Int, last: nat, size: nat)
    requires size > 0 && size % 512 == 0 && at % 512 == last * size % 512
    ensures CMod(at, size) % 512 == 0
  {
    hide CDiv;
    SameRemainder(size, last, 0);
    assert size * last + 0 == last * size;
    var q, s := CDiv(at, size), size / 512;
    assert q * size == 512 * (q * s) by { assert size == 512 * s; }
    Bits.DivModUnique(at - q * size, 512, at / 512 - q * s, at % 512);
  }

  lemma SumMod2(s: int, o: int)
    requires s % 512 == 0 && o % 512 == 0
    ensures (s + o) % 512 == 0
  {
  }

  /** The entries of the clusters 1 to 3 lie side by side, 1024 bytes a reserved sector. */
  lemma SmallEntry(l: ValidLayout, c: Cluster)
    requires c <= 3
    ensures FatEntryPosition(l, c) == 1024 * (l.reservedSectors * c)
  {
    var r := l.reservedSectors;
    assert r * 512 * (c * 2) == 1024 * (r * c);
    Bits.MulMonotone(r, c, 3);
  }

  lemma SmallStart(l: ValidLayout)
    ensures ClusterStart(l, 1) == ClusterStart(l, 2) - ClusterBytes(l)
    ensures ClusterStart(l, 3) == ClusterStart(l, 2) + ClusterBytes(l)
  {
  }

  /** The first byte of a cluster that has the place p differs from the byte at q, on a
      disk with the chain a, b, e, e, ... */
  ghost predicate Tells(l: ValidLayout, a: Cluster, b: Cluster, e: Cluster, p: int, q: int) {
    TrapDisk(l, a, b, e, p, 0).byteAt(p) != TrapDisk(l, a, b, e, p, 0).byteAt(q)
  }

  /** The clusters are free to make up the chain. */
  predicate Usable(l: ValidLayout, a: Cluster, b: Cluster, e: Cluster) {
    Calm(a) && Calm(b) && Calm(e)
    && EntriesApart(l, a, b, e)
  }

  /** There is always a chain on which the wrapped step reads another byte. */
  lemma Numbering(l: ValidLayout, o: int, last: nat) returns (a: Cluster, b: Cluster, e: Cluster)
    requires 0 < o + ClusterBytes(l) && o <= 0 && o % 512 == 0 && last > 0
    ensures Usable(l, a, b, e)
    ensures Tells(l, a, b, e, ClusterStart(l, TrapCluster(a, b, e, last)), ClusterStart(l, a) + o)
  {
    hide ClusterStart, ClusterBytes, FatEntryPosition;
    var r := l.reservedSectors;
    SmallEntry(l, 1);
    SmallEntry(l, 2);
    SmallEntry(l, 3);
    SmallStart(l);
    SectorsOf(l, 1);
    SectorsOf(l, 2);
    SectorsOf(l, 3);
    assert r * 1 == r && r * 2 == r + r && r * 3 == r + r + r;
    SumMod2(ClusterStart(l, 1), o);
    SumMod2(ClusterStart(l, 2), o);
    SumMod2(ClusterStart(l, 3), o);
    if r == 0 {
      a, b, e := 2, 1, 1;
    } else {
      a, b, e := 3, 2, 1;
      var p, q := ClusterStart(l, TrapCluster(3, 2, 1, last)), ClusterStart(l, 3) + o;
      if p == 1024 * r && q == 1024 * (r + r) {
        a, b, e := 1, 2, 3;
      }
    }
  }

  lemma WrappedWrong(l: ValidLayout, offset: Size, total: Size) returns (disk: Disk, start: Cluster)
    requires OffsetWraps(l, offset, total) && EndsBelow(l, offset, total)
    ensures !Right(OnDisk(disk, l), start, offset, total)
  {
    hide Right, Read, Walk, SourceOf, CodePosition, CodeIndex, ClusterIndex, InCluster, ClusterStart, TrapDisk;
    hide LastCluster, ClusterBytes, Wrap;
    hide FatEntryPosition, EndsBelow, TrapCluster;
    var last := LastCluster(l, offset, total);
    var k, at, o := LastStep(l, offset, total);
    var a, b, e := Numbering(l, o, last);
    var c := TrapCluster(a, b, e, last);
    var p := ClusterStart(l, c);
    disk, start := TrapDisk(l, a, b, e, p, 0), a;
    var v := OnDisk(disk, l);
    TrapWalk(l, a, b, e, p, 0, last);
    TrapWalk(l, a, b, e, p, 0, 0);
    TrapStart(a, b, e);
    if Read(v, a, offset, total).ok { StepByte(v, a, offset, total, k); }
    LastPlace(l, last, ClusterBytes(l));
    WrongByte(l, disk, a, offset, total, k * ClusterBytes(l), disk.byteAt(ClusterStart(l, a) + o));
  }

  lemma LastPlace(l: ValidLayout, last: nat, size: nat)
    requires size == ClusterBytes(l)
    ensures ClusterIndex(l, last * size) == last && InCluster(l, last * size) == 0
  {
    hide ClusterBytes;
    Bits.MulMod(size, last);
    assert size * last == last * size;
  }

  // ---- the condition is exact ----

  /** A read that does not meet the condition goes wrong on some disk. */
  lemma SomewhereWrong(l: ValidLayout, offset: Size, total: Size) returns (disk: Disk, start: Cluster)
    requires !Everywhere(l, offset, total)
    ensures !Right(OnDisk(disk, l), start, offset, total)
  {
    hide Right, SourceOf, CodePosition, ClusterStart, ClusterBytes, ClusterIndex, InCluster, LastCluster, OnDisk;
    hide Astray, EndsBelow;
    if !EndsBelow(l, offset, total) {
      var i := TooFar(l, offset, total);
      disk := LoopWrong(l, offset, total, 0xFFFF, i);
      start := 0xFFFF;
    } else if InCluster(l, offset) == 0 {
      disk, start := WrappedWrong(l, offset, total);
    } else {
      var i := NotAlignedInside(l, offset, total);
      start := Culprit(l, offset, total);
      if start == 0 {
        FirstOnly(l, offset, total, i);
        disk := StartWrong(l, offset, total, i);
      } else {
        disk := LoopWrong(l, offset, total, start, i);
      }
    }
  }

  /** A read of the given place and length is right on every disk and for every start if
      and only if it is aligned and ends at or before byte 2^31 in every cluster. */
  lemma ReadAlignedExact(l: ValidLayout, offset: Size, total: Size)
    ensures Everywhere(l, offset, total) <==>
      forall disk: Disk, start: Cluster :: Right(OnDisk(disk, l), start, offset, total)
  {
    hide Read, Walk, LastCluster, ReadAligned, IsChain, EndsBelow, BytesBelow;
    if Everywhere(l, offset, total) {
      forall disk: Disk, start: Cluster ensures Right(OnDisk(disk, l), start, offset, total) {
        BelowEverywhere(OnDisk(disk, l), start, offset, total);
        ReadSucceeds(OnDisk(disk, l), start, offset, total);
        ReadIsChain(OnDisk(disk, l), start, offset, total);
      }
    } else {
      var disk, start := SomewhereWrong(l, offset, total);
    }
  }
}
