/** Where things lie on a FAT16 volume: what src/fs/fat16.c computes from the header
    (fat16_get_root_directory, fat16_cluster_to_sector), and where the format puts them. */
module Geometry {
  import opened Fat16Read
  import FatPosition
  import Bits

  // ---- as the code computes it ----

  /** The fields of the volume's header that are used. */
  datatype HeaderFields = HeaderFields(reservedSectors: nat, sectorsPerCluster: nat, fatCopies: nat, sectorsPerFat: nat,
                                       rootDirEntries: nat)

  type Header = h: HeaderFields |
    && h.reservedSectors < 0x1_0000 && 1 <= h.sectorsPerCluster < 0x100 && h.fatCopies < 0x100
    && h.sectorsPerFat < 0x1_0000 && h.rootDirEntries < 0x1_0000
    witness HeaderFields(1, 1, 1, 1, 1)

  function RootSector(hd: Header): nat { hd.fatCopies * hd.sectorsPerFat + hd.reservedSectors }

  function RootStart(hd: Header): nat { RootSector(hd) * 512 }

  /** ending_sector_pos, which rounds down. */
  function EndingSector(hd: Header): nat { RootSector(hd) + hd.rootDirEntries * 32 / 512 }

  function HeaderLayout(hd: Header): ValidLayout {
    Layout(hd.reservedSectors, hd.sectorsPerCluster, EndingSector(hd))
  }

  // ---- by the format: reserved sectors, FAT copies, root directory, clusters ----

  /** Where copy j of the FAT starts. */
  function FatSector(hd: Header, j: nat): nat {
    if j == 0 then hd.reservedSectors else FatSector(hd, j - 1) + hd.sectorsPerFat
  }

  /** The first sector after the root directory; a directory that ends inside a sector takes
      all of it. */
  function DataSector(hd: Header): nat {
    FatSector(hd, hd.fatCopies) + (hd.rootDirEntries * 32 + 511) / 512
  }

  function FormatStart(hd: Header, cluster: Cluster): int {
    (DataSector(hd) + (cluster - 2) * hd.sectorsPerCluster) * 512
  }

  lemma {:induction false} FatSectorIs(hd: Header, j: nat)
    ensures FatSector(hd, j) == hd.reservedSectors + j * hd.sectorsPerFat
  {
    if j > 0 { FatSectorIs(hd, j - 1); }
  }

  // ---- the root directory ----

  /** Every copy of the FAT ends at or before the sector where the code reads the root
      directory, and the last one ends there; without copies it follows the reserved
      sectors. */
  lemma RootAfterFats(hd: Header, j: nat)
    requires j < hd.fatCopies
    ensures FatSector(hd, j) + hd.sectorsPerFat <= RootSector(hd)
    ensures j + 1 == hd.fatCopies ==> FatSector(hd, j) + hd.sectorsPerFat == RootSector(hd)
  {
    FatSectorIs(hd, j + 1);
    Bits.MulMonotone(hd.sectorsPerFat, j + 1, hd.fatCopies);
  }

  lemma RootIs(hd: Header)
    ensures RootSector(hd) == FatSector(hd, hd.fatCopies)
    ensures RootStart(hd) == (hd.reservedSectors + hd.fatCopies * hd.sectorsPerFat) * 512
  {
    FatSectorIs(hd, hd.fatCopies);
  }

  /** The entries of the first FAT follow each other from its first byte on, two bytes each. */
  lemma EntriesTile(hd: Header, cluster: Cluster)
    ensures FatPosition.EntryPosition(hd.reservedSectors, 0) == FatSector(hd, 0) * 512
    ensures FatPosition.EntryPosition(hd.reservedSectors, cluster + 1)
      == FatPosition.EntryPosition(hd.reservedSectors, cluster) + 2
    ensures cluster < hd.sectorsPerFat * 256 ==>
      FatPosition.EntryPosition(hd.reservedSectors, cluster) + 2 <= FatSector(hd, 1) * 512
  {
    FatSectorIs(hd, 1);
  }

  // ---- the clusters ----

  /** Cluster 2 starts within a sector before the end of the root directory, and right
      after it if and only if the directory fills its sectors. */
  lemma DataAfterRoot(hd: Header)
    ensures var end := (hd.reservedSectors + hd.fatCopies * hd.sectorsPerFat) * 512 + hd.rootDirEntries * 32;
      && end - 512 < ClusterStart(HeaderLayout(hd), 2) <= end
      && (ClusterStart(HeaderLayout(hd), 2) == end <==> hd.rootDirEntries % 16 == 0)
  {
    hide RootSector;
    RootIs(hd);
    SectorPart(hd.rootDirEntries);
  }

  lemma SectorPart(entries: nat)
    ensures entries * 32 / 512 == entries / 16 && entries * 32 - 512 < entries / 16 * 512 <= entries * 32
    ensures entries / 16 * 512 == entries * 32 <==> entries % 16 == 0
    ensures (entries * 32 + 511) / 512 == entries / 16 + (if entries % 16 == 0 then 0 else 1)
  {
  }

  /** Each cluster starts where the one before it ends. */
  lemma ClustersTile(l: ValidLayout, cluster: Cluster)
    requires cluster < 0xFFFF
    ensures ClusterStart(l, cluster + 1) == ClusterStart(l, cluster) + l.sectorsPerCluster * 512
  {
    var p: int := l.sectorsPerCluster;
    assert (cluster + 1 - 2) * p == (cluster - 2) * p + p;
  }

  /** Bytes of different clusters lie apart. */
  lemma ClustersApart(l: ValidLayout, c: Cluster, d: Cluster, i: nat, j: nat)
    requires c < d && i < l.sectorsPerCluster * 512
    ensures ClusterStart(l, c) + i < ClusterStart(l, d) + j
  {
    var p: int := l.sectorsPerCluster;
    Bits.MulMonotone(p, c + 1, d);
    assert (c - 2) * p == c * p - 2 * p && (d - 2) * p == d * p - 2 * p && (c + 1) * p == c * p + p;
  }

  /** From cluster 2 on they lie after the root directory if that fills its sectors. */
  lemma AfterRoot(hd: Header, c: Cluster)
    requires c >= 2 && hd.rootDirEntries % 16 == 0
    ensures ClusterStart(HeaderLayout(hd), c)
      >= (hd.reservedSectors + hd.fatCopies * hd.sectorsPerFat) * 512 + hd.rootDirEntries * 32
  {
    hide ClusterStart;
    DataAfterRoot(hd);
    if c > 2 { ClustersApart(HeaderLayout(hd), 2, c, 0, 0); }
  }

  /** The code has every cluster a sector too low, unless the root directory fills its
      sectors; then code and format agree on every cluster. */
  lemma PlacesAgree(hd: Header, c: Cluster)
    ensures FormatStart(hd, c) == ClusterStart(HeaderLayout(hd), c) + (if hd.rootDirEntries % 16 == 0 then 0 else 512)
    ensures ClusterStart(HeaderLayout(hd), c) == FormatStart(hd, c) <==> hd.rootDirEntries % 16 == 0
  {
    hide RootSector, FatSector;
    RootIs(hd);
    SectorPart(hd.rootDirEntries);
  }
}
