/** The root directory of a mounted volume in memory (fat16_resolve in src/fs/fat16.c), what
    looking a name up in it finds, and when that is what the format means by the name. */
module Directory {
  import opened Memory
  import opened Streamer
  import opened Strings
  import opened Fat16Names
  import opened Geometry
  import F = Fat16Read

  // ---- the mounted volume ----

  /** A volume and its root directory in memory: the items, how many are looked at, and the
      sector where the directory is taken to end. */
  datatype Mount = Mount(disk: Disk, header: Header, items: seq<Byte>, total: nat, endingSector: nat)

  /** What the reads of the volume's files use. */
  function LayoutOf(v: Mount): F.ValidLayout {
    F.Layout(v.header.reservedSectors, v.header.sectorsPerCluster, v.endingSector)
  }

  /** The root directory on disk ends at entry n, and is in memory. */
  ghost predicate Mounted(v: Mount, n: nat) {
    && EndsAt(v.disk.byteAt, RootStart(v.header), n)
    && v.items == Slice(v.disk.byteAt, RootStart(v.header), v.header.rootDirEntries * 32)
    && v.total == CountInUse(v.disk.byteAt, RootStart(v.header), n) <= v.header.rootDirEntries
    && v.endingSector == EndingSector(v.header)
  }

  /** The part of fat16_resolve that reads the root directory. */
  method MountVolume(disk: Disk, hd: Header, stream: DiskStream, ghost n: nat) returns (v: Mount)
    requires EndsAt(disk.byteAt, RootStart(hd), n) && CountInUse(disk.byteAt, RootStart(hd), n) <= hd.rootDirEntries
    requires RootStart(hd) + hd.rootDirEntries * 32 <= 0x8000_0000
    modifies stream
    ensures Mounted(v, n) && v.disk == disk && v.header == hd && LayoutOf(v) == HeaderLayout(hd)
    ensures v.items
      == Slice(disk.byteAt, (hd.reservedSectors + hd.fatCopies * hd.sectorsPerFat) * 512, hd.rootDirEntries * 32)
  {
    hide CountInUse, Slice, RootSector, EndsAt;
    RootIs(hd);
    var items, count, ending := ReadRootDirectory(stream, disk, RootSector(hd), hd.rootDirEntries, n);
    v := Mount(disk, hd, items, count, ending);
  }

  // ---- what the lookup finds ----

  /** Slot i of the directory in memory. */
  function ItemOf(v: Mount, i: nat): (item: seq<Byte>)
    requires i * 32 + ITEM <= |v.items|
    ensures |item| == ITEM
  {
    v.items[i * 32..i * 32 + ITEM]
  }

  predicate IsDirectory(item: seq<Byte>)
    requires |item| == ITEM
  {
    item[ATTRIBUTE] / 16 % 2 == 1
  }

  /** The last of the first m slots that the lookup of the name matches, or -1. */
  ghost function LastMatch(items: seq<Byte>, m: nat, name: seq<Byte>): (r: int)
    ensures -1 <= r < m && (r >= 0 ==> r * 32 + ITEM <= |items|)
  {
    hide Matches;
    if m == 0 then -1
    else if Matches(items, m - 1, name) then
      MatchInside(items, m - 1, name);
      m - 1
    else LastMatch(items, m - 1, name)
  }

  lemma {:induction false} LastMatchIs(items: seq<Byte>, m: nat, name: seq<Byte>)
    ensures var r := LastMatch(items, m, name);
      (r >= 0 ==> Matches(items, r, name)) && forall i :: r < i < m ==> !Matches(items, i, name)
  {
    hide Matches;
    if m > 0 { LastMatchIs(items, m - 1, name); }
  }

  lemma MatchInside(items: seq<Byte>, i: nat, name: seq<Byte>)
    requires Matches(items, i, name)
    ensures i * 32 + ITEM <= |items|
  {
  }

  /** How many of the first m slots it matches. */
  ghost function MatchCount(items: seq<Byte>, m: nat, name: seq<Byte>): nat {
    if m == 0 then 0 else MatchCount(items, m - 1, name) + (if Matches(items, m - 1, name) then 1 else 0)
  }

  /** The slot that a name leads to on a mounted volume, and how many match it. */
  ghost function SlotFor(v: Mount, name: seq<Byte>): (r: int)
    ensures r >= 0 ==> r * 32 + ITEM <= |v.items|
  {
    LastMatch(v.items, v.total, name)
  }

  ghost function SlotsFor(v: Mount, name: seq<Byte>): nat {
    MatchCount(v.items, v.total, name)
  }

  lemma {:induction false} SomeMatch(items: seq<Byte>, m: nat, name: seq<Byte>)
    ensures MatchCount(items, m, name) > 0 <==> LastMatch(items, m, name) >= 0
  {
    hide Matches;
    if m > 0 { SomeMatch(items, m - 1, name); }
  }

  lemma {:induction false} MoreMatches(items: seq<Byte>, m: nat, n: nat, name: seq<Byte>)
    requires m <= n
    ensures MatchCount(items, m, name) <= MatchCount(items, n, name)
    decreases n
  {
    hide Matches;
    if m < n { MoreMatches(items, m, n - 1, name); }
  }

  /** Looking the name up stays in bounds: the names of the slots end in the directory's
      memory and fit the buffer; and no slot that matches is a subdirectory. */
  ghost predicate LookupSafe(v: Mount, name: seq<Byte>) {
    forall i :: 0 <= i < v.total ==> SlotSafe(v, i, name)
  }

  ghost predicate SlotSafe(v: Mount, i: nat, name: seq<Byte>) {
    && Nameable(v.items, i * 32) && |FullName(v.items, i * 32)| < MAX_PATH
    && (Matches(v.items, i, name) ==> !IsDirectory(ItemOf(v, i)))
  }

  // ---- what the format means by a name ----

  /** Entry i on disk is in use and has the name by the format, ignoring case. */
  ghost predicate IsNamed(v: Mount, i: nat, name: seq<Byte>) {
    Named(v.disk.byteAt, RootStart(v.header), i, name)
  }

  function DiskItem(v: Mount, i: nat): (item: seq<Byte>)
    ensures |item| == ITEM
  {
    Item(v.disk.byteAt, RootStart(v.header), i)
  }

  /** The last of the first n entries with the name, or -1. */
  ghost function LastNamed(v: Mount, n: nat, name: seq<Byte>): (r: int)
    ensures -1 <= r < n && (r >= 0 ==> IsNamed(v, r, name))
    ensures forall i :: r < i < n ==> !IsNamed(v, i, name)
  {
    if n == 0 then -1 else if IsNamed(v, n - 1, name) then n - 1 else LastNamed(v, n - 1, name)
  }

  /** How many of the first n entries have the name. */
  ghost function NamedCount(v: Mount, n: nat, name: seq<Byte>): nat {
    if n == 0 then 0 else NamedCount(v, n - 1, name) + (if IsNamed(v, n - 1, name) then 1 else 0)
  }

  /** The lookup of the name finds exactly the entries of the directory that have it. */
  ghost predicate FindsNamed(v: Mount, n: nat, name: seq<Byte>) {
    forall i :: 0 <= i < n ==> (i < v.total && Matches(v.items, i, name) <==> IsNamed(v, i, name))
  }

  /** A slot that the lookup reaches does not mislead it: an entry in use has a name that is
      built right, or neither the name built nor its own is the one looked for; a deleted
      one does not match. */
  ghost predicate SlotAgrees(v: Mount, i: nat, name: seq<Byte>) {
    if InUse(v.disk.byteAt, RootStart(v.header), i) then
      NameRight(DiskItem(v, i), 0)
      || (!Matches(v.items, i, name) && !SameName(Name83(DiskItem(v, i), 0), name))
    else !Matches(v.items, i, name)
  }

  /** No slot misleads the lookup, and no entry with the name lies past the slots it reaches. */
  ghost predicate Agrees(v: Mount, n: nat, name: seq<Byte>) {
    && (forall i :: 0 <= i < v.total ==> SlotAgrees(v, i, name))
    && (forall i :: v.total <= i < n ==> !IsNamed(v, i, name))
  }

  lemma SlotExact(v: Mount, n: nat, i: nat, name: seq<Byte>)
    requires Mounted(v, n) && i < v.total && Nameable(v.items, i * 32)
    ensures (Matches(v.items, i, name) <==> IsNamed(v, i, name)) <==> SlotAgrees(v, i, name)
  {
    hide EndsAt, CountInUse, InUse, Slice, Nameable, NameRight, Name83, SameName, Matches, RootStart, Item;
    EntryMatches(v.disk.byteAt, RootStart(v.header), v.header.rootDirEntries, i, name);
  }

  lemma TotalInside(v: Mount, n: nat)
    requires Mounted(v, n)
    ensures v.total <= n
  {
  }

  /** Looking a name up finds exactly the entries that have it if and only if no slot
      misleads the lookup and none is out of its reach. */
  lemma LookupExact(v: Mount, n: nat, name: seq<Byte>)
    requires Mounted(v, n) && LookupSafe(v, name)
    ensures FindsNamed(v, n, name) <==> Agrees(v, n, name)
  {
    hide Mounted, Matches, IsNamed, SlotAgrees, FullName, Nameable;
    TotalInside(v, n);
    forall i | 0 <= i < v.total
      ensures (Matches(v.items, i, name) <==> IsNamed(v, i, name)) <==> SlotAgrees(v, i, name)
    {
      assert SlotSafe(v, i, name);
      SlotExact(v, n, i, name);
    }
  }

  lemma {:induction false} SameUpTo(v: Mount, n: nat, m: nat, name: seq<Byte>)
    requires FindsNamed(v, n, name) && m <= n
    ensures var k := if m < v.total then m else v.total;
      && MatchCount(v.items, k, name) == NamedCount(v, m, name)
      && LastMatch(v.items, k, name) == LastNamed(v, m, name)
  {
    hide Matches, IsNamed;
    if m > 0 { SameUpTo(v, n, m - 1, name); }
  }

  /** Then the entry that is used is the last with the name, and all of them are counted. */
  lemma SameEntry(v: Mount, n: nat, name: seq<Byte>)
    requires Mounted(v, n) && LookupSafe(v, name) && Agrees(v, n, name)
    ensures SlotFor(v, name) == LastNamed(v, n, name) && SlotsFor(v, name) == NamedCount(v, n, name)
    ensures SlotFor(v, name) >= 0 ==> ItemOf(v, SlotFor(v, name)) == DiskItem(v, SlotFor(v, name))
  {
    hide Mounted, Matches, IsNamed, FindsNamed, Agrees, LookupSafe;
    LookupExact(v, n, name);
    TotalInside(v, n);
    SameUpTo(v, n, n, name);
    if SlotFor(v, name) >= 0 { SameItem(v, n, SlotFor(v, name)); }
  }

  lemma SameItem(v: Mount, n: nat, i: nat)
    requires Mounted(v, n) && i < v.total
    ensures i * 32 + ITEM <= |v.items| && ItemOf(v, i) == DiskItem(v, i)
  {
    hide EndsAt, CountInUse, Slice, RootStart;
    ItemOfSlice(v.disk.byteAt, RootStart(v.header), v.header.rootDirEntries, i);
  }

  /** If no deleted entry precedes one in use and every name in use is built right, the
      lookup is in bounds and right for every name. */
  lemma AllAgree(v: Mount, n: nat, name: seq<Byte>)
    requires Mounted(v, n) && UsedFirst(v.disk.byteAt, RootStart(v.header), n)
    requires forall i :: 0 <= i < v.total ==> NameRight(DiskItem(v, i), 0)
    ensures Agrees(v, n, name)
    ensures forall i :: 0 <= i < v.total ==> Nameable(v.items, i * 32) && |FullName(v.items, i * 32)| < MAX_PATH
  {
    hide EndsAt, CountInUse, InUse, UsedFirst, Slice, Nameable, NameRight, Name83, SameName, Matches, RootStart, Item;
    hide FullName;
    TotalInside(v, n);
    forall i | 0 <= i < n ensures InUse(v.disk.byteAt, RootStart(v.header), i) <==> i < v.total {
      InUseFirst(v.disk.byteAt, RootStart(v.header), n, i);
    }
    forall i | 0 <= i < v.total ensures Nameable(v.items, i * 32) && |FullName(v.items, i * 32)| < MAX_PATH {
      SameItem(v, n, i);
      ItemAlone(v.items, i * 32, DiskItem(v, i));
      InsideNameable(v.items, i * 32);
    }
  }
}
