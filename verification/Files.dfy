/** Opening and closing files of the root directory (src/fs/file.c; fat16_open, fat16_close
    and the mount in src/fs/fat16.c). The structures of an open file are heap blocks. */
module Files {
  import opened Status
  import opened Memory
  import opened Wrappers
  import opened HeapSpec
  import opened HeapGrants
  import opened Machine
  import opened Blocks
  import opened Growth
  import opened Streamer
  import opened Strings
  import opened Fat16Names
  import opened Directory
  import opened Paths
  import opened PathParser
  import Bits
  import F = Fat16Read

  // sizes of struct fat_file_descriptor, struct fat_item and struct file_descriptor
  const DESCRIPTOR_SIZE: nat := 8
  const FAT_ITEM_SIZE: nat := 8
  const FILE_SIZE: nat := 16
  const TYPE_DIRECTORY: nat := 0
  const TYPE_FILE: nat := 1
  // index of the word private in struct file_descriptor
  const PRIVATE: nat := 2

  // ---- what a path opens ----

  /** What fstat and the directory entry say of a file. */
  datatype File = File(firstCluster: F.Cluster, size: Word)

  // Little-endian half word at index i.
  function Half(item: seq<Byte>, i: nat): F.Cluster
    requires i + 2 <= |item|
  {
    var low: nat, high: nat := item[i], item[i + 1];
    low + 0x100 * high
  }

  /** First cluster and size of a directory entry; fat16_get_first_cluster ORs the two
      halves of the cluster without a shift. */
  function FileOf(item: seq<Byte>): (f: File)
    requires |item| == ITEM
    ensures Half(item, 20) == 0 ==> f.firstCluster == Half(item, 26)
  {
    Bits.OrZero(Half(item, 26));
    Bits.OrSwap(0, Half(item, 26));
    Bits.OrHalf(Half(item, 20), Half(item, 26));
    File(Bits.Or(Half(item, 20), Half(item, 26)), WordOf(item[28], item[29], item[30], item[31]))
  }

  /** What opening a path gives: the file of the last slot that matches, for a path of one
      part on drive 0. A path with a second part gives nothing, because no item is ever
      taken for a directory. */
  ghost function Opened(v: Mount, path: seq<Byte>): Option<File> {
    match Parse(path)
    case Refused => None
    case Path(drive, parts) =>
      if drive != 0 || |parts| != 1 || SlotFor(v, parts[0]) < 0 then None
      else Some(FileOf(ItemOf(v, SlotFor(v, parts[0]))))
  }

  /** How many blocks an open has taken when it returns: the root and two for each part of
      the path; then, on drive 0, the FAT descriptor, two for each slot that matches the
      first part, and a file descriptor if the open succeeds. */
  ghost function OpenTakes(v: Mount, path: seq<Byte>): nat {
    match Parse(path)
    case Refused => 0
    case Path(drive, parts) =>
      1 + 2 * |parts| + (if drive == 0 && |parts| >= 1 then 1 + 2 * SlotsFor(v, parts[0]) else 0)
      + (if Opened(v, path).Some? then 1 else 0)
  }

  /** How many it needs: the parser takes one more for a part that turns out to be empty. */
  ghost function OpenNeeds(v: Mount, path: seq<Byte>): nat {
    match Parse(path)
    case Refused => 0
    case Path(_, parts) =>
      if OpenTakes(v, path) < 2 + 2 * |parts| then 2 + 2 * |parts| else OpenTakes(v, path)
  }

  /** What the path names by the format: the file of the last entry that has the name. */
  ghost function Meant(v: Mount, n: nat, path: seq<Byte>): Option<File> {
    match Parse(path)
    case Refused => None
    case Path(drive, parts) =>
      if drive != 0 || |parts| != 1 || LastNamed(v, n, parts[0]) < 0 then None
      else Some(FileOf(DiskItem(v, LastNamed(v, n, parts[0]))))
  }

  /** The lookup of the path's first part, if the open comes to that, is not misled. */
  ghost predicate PathAgrees(v: Mount, n: nat, path: seq<Byte>) {
    match Parse(path)
    case Refused => true
    case Path(drive, parts) => drive != 0 || parts == [] || Agrees(v, n, parts[0])
  }

  /** Then a path opens the file that it names by the format. */
  lemma OpensMeant(v: Mount, n: nat, path: seq<Byte>)
    requires Mounted(v, n) && PathSafe(v, path) && PathAgrees(v, n, path)
    ensures Opened(v, path) == Meant(v, n, path)
  {
    hide Mounted, LookupSafe, Agrees, SlotFor, Parts, FileOf;
    if Parse(path).Path? && Parse(path).drive == 0 && |Parse(path).parts| == 1 {
      SameEntry(v, n, Parse(path).parts[0]);
    }
  }

  /** Looking up the path's first part, if the open comes to that, is safe. */
  ghost predicate PathSafe(v: Mount, path: seq<Byte>) {
    match Parse(path)
    case Refused => true
    case Path(drive, parts) => drive != 0 || parts == [] || LookupSafe(v, parts[0])
  }

  // ---- blocks one by one ----

  /** A block taken by one of a row of one-block requests from h0 on. */
  method ZallocSingle(k: Machine, size: nat, ghost h0: HeapState, ghost j: nat) returns (ptr: nat, ghost b: HeapBlock)
    requires k.Valid() && 0 < size <= PAGE && Inv(h0) && |h0.table| == HEAP_BLOCKS
    requires k.HeapNow() == Singles(h0, j) && j < |FreeSet(h0.table)|
    modifies k`ram, k.heap, k.heap.entries
    ensures k.Valid() && k.HeapNow() == Singles(h0, j + 1)
    ensures ptr == BlockAddress(b) && ptr / 4096 == BlockPage(b) && b == SingleAt(h0, j)
    ensures b in FreeSet(old(k.HeapNow()).table) && OneLive(k.HeapNow(), b)
    ensures Extends(old(k.HeapNow()), old(k.ram), k.HeapNow(), k.ram)
  {
    hide Inv, FreeSet, Take, MallocBlocks, Extends, SameOutside, Singles, Splice;
    ghost var h, m := k.HeapNow(), k.ram;
    SinglesTake(h0, j);
    NextSingle(h0, j);
    LeftOver(FreeSet(h0.table), SingleBlocks(h0, j));
    ghost var c;
    ptr, c := ZallocBlock(k, size);
    b := c;
    TakeExtends(h, m, {c}, k.ram, {BlockPage(c)});
    TakenLive(h, c);
  }

  /** The block is a live allocation of its own. */
  ghost predicate OneLive(h: HeapState, b: nat) { b in h.live && h.live[b] == 1 }

  lemma TakenLive(h: HeapState, b: nat)
    ensures OneLive(Take(h, {b}), b)
  {
  }

  /** Writing in a block that was free at the start is still an extension. */
  lemma WriteTaken(h: HeapState, m: Ram, h1: HeapState, m1: Ram, m2: Ram, b: nat)
    requires Extends(h, m, h1, m1) && |h.table| == HEAP_BLOCKS && b in FreeSet(h.table)
    requires SameOutside(m1, m2, {BlockPage(b)})
    ensures Extends(h, m, h1, m2)
  {
    hide Extends, SameOutside, FreeSet, FreePage;
    FreeBlockPage(h, b);
    ExtendsWrite(h, m, h1, m1, m2, {BlockPage(b)});
  }

  /** What was free after a growth was free before it. */
  lemma FreeBefore(h: HeapState, m: Ram, h1: HeapState, m1: Ram, b: nat)
    requires Extends(h, m, h1, m1) && b in FreeSet(h1.table)
    ensures b in FreeSet(h.table)
  {
  }

  /** A live block keeps its words and bytes. */
  lemma LiveWord(h: HeapState, m: Ram, h1: HeapState, m1: Ram, b: HeapBlock, i: nat)
    requires Inv(h) && |h.table| == HEAP_BLOCKS && Extends(h, m, h1, m1) && OneLive(h, b) && i < SLOTS
    ensures OneLive(h1, b) && SlotAt(m1, BlockPage(b), i) == SlotAt(m, BlockPage(b), i)
  {
    hide Inv, FreePage;
    LiveKept(h, m, h1, m1, b, PAGE);
    BlockIsPage(b);
    forall a | BlockPage(b) * 4096 <= a < (BlockPage(b) + 1) * 4096 ensures m[a] == m1[a] {
      var i := a - BlockAddress(b);
      assert Bytes(m, BlockAddress(b), PAGE)[i] == Bytes(m1, BlockAddress(b), PAGE)[i];
    }
    SamePageSlot(m, m1, BlockPage(b), i);
  }

  // ---- the item of an entry ----

  /** A file item and its copy of the directory entry. */
  ghost predicate ItemIn(m: Ram, ib: HeapBlock, cb: HeapBlock, entry: seq<Byte>) {
    && SlotAt(m, BlockPage(ib), 0) == BlockAddress(cb) && SlotAt(m, BlockPage(ib), 1) == TYPE_FILE
    && Bytes(m, BlockAddress(cb), ITEM) == entry
  }

  lemma EntryCopied(m: Ram, cb: HeapBlock, entry: seq<Byte>)
    requires |entry| == ITEM
    ensures var m' := Splice(m, BlockAddress(cb), entry);
      Bytes(m', BlockAddress(cb), ITEM) == entry && SameOutside(m, m', {BlockPage(cb)})
  {
    BlockIsPage(cb);
    forall i | BlockAddress(cb) <= i < BlockAddress(cb) + ITEM ensures PageOf(i) == BlockPage(cb) {
    }
    SpliceOutside(m, BlockAddress(cb), entry, {BlockPage(cb)});
  }

  /** Writing word j of block b keeps what block c holds. */
  lemma OtherBlock(m: Ram, b: HeapBlock, j: nat, v: Word, c: HeapBlock)
    requires b != c && j < SLOTS
    ensures var m' := PutSlot(m, BlockPage(b), j, v);
      && SameOutside(m, m', {BlockPage(b)})
      && SlotAt(m', BlockPage(c), 0) == SlotAt(m, BlockPage(c), 0)
      && SlotAt(m', BlockPage(c), 1) == SlotAt(m, BlockPage(c), 1)
      && Bytes(m', BlockAddress(c), ITEM) == Bytes(m, BlockAddress(c), ITEM)
  {
    hide SlotAt, PutSlot, SameOutside;
    PutSlotOutside(m, BlockPage(b), j, v);
    var m' := PutSlot(m, BlockPage(b), j, v);
    BlockKept(m, m', c, b);
    assert Bytes(m, BlockAddress(c), ITEM) == Bytes(m, BlockAddress(c), MAX_PATH)[..ITEM];
    assert Bytes(m', BlockAddress(c), ITEM) == Bytes(m', BlockAddress(c), MAX_PATH)[..ITEM];
  }

  /** fat16_new_fat_item_for_directory_item, for an entry that is not a subdirectory, with
      the copy made by fat16_clone_directory_item. */
  method NewFatItem(k: Machine, entry: seq<Byte>, ghost h0: HeapState, ghost j: nat)
    returns (item: nat, ghost ib: HeapBlock, ghost cb: HeapBlock)
    requires k.Valid() && |entry| == ITEM && !IsDirectory(entry) && Inv(h0) && |h0.table| == HEAP_BLOCKS
    requires k.HeapNow() == Singles(h0, j) && j + 2 <= |FreeSet(h0.table)|
    modifies k`ram, k.heap, k.heap.entries
    ensures k.Valid() && k.HeapNow() == Singles(h0, j + 2)
    ensures item == BlockAddress(ib) && ib == SingleAt(h0, j) && cb == SingleAt(h0, j + 1)
    ensures ItemIn(k.ram, ib, cb, entry)
    ensures OneLive(k.HeapNow(), ib) && OneLive(k.HeapNow(), cb)
    ensures Extends(old(k.HeapNow()), old(k.ram), k.HeapNow(), k.ram)
  {
    hide Inv, FreeSet, Extends, SameOutside, Singles, SlotAt, PutSlot, SingleAt, Splice, Bytes, BlockAddress, BlockPage;
    ghost var h, m := k.HeapNow(), k.ram;
    item, ib := ZallocSingle(k, FAT_ITEM_SIZE, h0, j);
    ghost var h1, m1 := k.HeapNow(), k.ram;
    var clone;
    clone, cb := ZallocSingle(k, ITEM, h0, j + 1);
    ghost var h2, m2 := k.HeapNow(), k.ram;
    ItemLive(h, m, h1, m1, h2, m2, ib, cb);
    EntryCopied(m2, cb, entry);
    BlockIsPage(ib);
    BlockIsPage(cb);
    k.ram := Splice(k.ram, clone, entry);
    ghost var m3 := k.ram;
    k.ram := PutSlot(k.ram, item / 4096, 1, TYPE_FILE);
    ghost var m4 := k.ram;
    k.ram := PutSlot(k.ram, item / 4096, 0, clone);
    OtherBlock(m3, ib, 1, TYPE_FILE, cb);
    OtherBlock(m4, ib, 0, clone, cb);
    SlotAfterPut(m3, BlockPage(ib), 1, TYPE_FILE, BlockPage(ib), 1);
    SlotAfterPut(m4, BlockPage(ib), 0, clone, BlockPage(ib), 1);
    SlotAfterPut(m4, BlockPage(ib), 0, clone, BlockPage(ib), 0);
    WriteTaken(h, m, h2, m2, m3, cb);
    WriteTaken(h, m, h2, m3, m4, ib);
    WriteTaken(h, m, h2, m4, k.ram, ib);
  }

  lemma ItemLive(h: HeapState, m: Ram, h1: HeapState, m1: Ram, h2: HeapState, m2: Ram, ib: nat, cb: nat)
    requires Extends(h, m, h1, m1) && Extends(h1, m1, h2, m2) && OneLive(h1, ib) && Inv(h1)
    requires cb in FreeSet(h1.table) && ib in FreeSet(h.table)
    ensures Extends(h, m, h2, m2) && cb in FreeSet(h.table) && cb != ib && OneLive(h2, ib) && |h.table| == |h1.table|
  {
    ExtendsTrans(h, m, h1, m1, h2, m2);
    if cb == ib { FreeRunNotLive(h1, cb, 1, cb); }
  }

  // ---- looking a name up ----

  /** fat16_find_item_in_directory over the mounted root directory: every slot that matches
      gets an item, and the last one is the result. */
  method FindItemInDirectory(k: Machine, v: Mount, part: seq<Byte>,
                             ghost name: seq<Byte>, ghost h0: HeapState, ghost j: nat)
    returns (item: nat, ghost ib: HeapBlock, ghost cb: HeapBlock)
    requires k.Valid() && LookupSafe(v, name)
    requires |name| <= MAX_PATH && 0 !in name && part == Padded(name, MAX_PATH)
    requires Inv(h0) && |h0.table| == HEAP_BLOCKS && k.HeapNow() == Singles(h0, j)
    requires j + 2 * SlotsFor(v, name) <= |FreeSet(h0.table)|
    modifies k`ram, k.heap, k.heap.entries
    ensures k.Valid() && k.HeapNow() == Singles(h0, j + 2 * SlotsFor(v, name))
    ensures Extends(old(k.HeapNow()), old(k.ram), k.HeapNow(), k.ram)
    ensures item != 0 <==> SlotFor(v, name) >= 0
    ensures item != 0 ==>
      FoundAt(k.HeapNow(), k.ram, h0, j + 2 * SlotsFor(v, name), item, ib, cb, ItemOf(v, SlotFor(v, name)))
  {
    hide Inv, FreeSet, Extends, Singles, SingleAt, Nameable, FullName, SameName, Padded, Matches;
    hide ItemIn, BlockAddress, IsDirectory, OneLive;
    ghost var h, m := k.HeapNow(), k.ram;
    item, ib, cb := 0, 0, 0;
    var tmpFilename := new Byte[MAX_PATH];
    ExtendsSelf(h, m);
    for i := 0 to v.total
      invariant k.Valid() && tmpFilename.Length == MAX_PATH
      invariant k.HeapNow() == Singles(h0, j + 2 * MatchCount(v.items, i, name))
      invariant Extends(h, m, k.HeapNow(), k.ram)
      invariant item != 0 <==> LastMatch(v.items, i, name) >= 0
      invariant item != 0 ==>
        FoundAt(k.HeapNow(), k.ram, h0, j + 2 * MatchCount(v.items, i, name), item, ib, cb,
                ItemOf(v, LastMatch(v.items, i, name)))
    {
      assert SlotSafe(v, i, name);
      GetFullRelativeFilename(v.items, i * 32, tmpFilename);
      var r := Istrncmp(tmpFilename[..], part, MAX_PATH);
      assert r == 0 <==> SameName(tmpFilename[..], part) by { BytesSame(tmpFilename[..], part); }
      PaddedCompare(FullName(v.items, i * 32), name, MAX_PATH);
      assert r == 0 <==> Matches(v.items, i, name) by { MatchIs(v.items, i, name); }
      if r == 0 {
        ghost var h1, m1 := k.HeapNow(), k.ram;
        MatchInside(v.items, i, name);
        MoreMatches(v.items, i + 1, v.total, name);
        item, ib, cb := NewFatItem(k, v.items[i * 32..i * 32 + ITEM], h0, j + 2 * MatchCount(v.items, i, name));
        ExtendsTrans(h, m, h1, m1, k.HeapNow(), k.ram);
        AddressNotNull(ib);
      }
    }
  }

  /** The item is one of the last two blocks taken, and in memory. */
  ghost predicate FoundAt(h: HeapState, m: Ram, h0: HeapState, j: nat, item: nat, ib: HeapBlock, cb: HeapBlock,
                          entry: seq<Byte>) {
    && item == BlockAddress(ib) && ItemIn(m, ib, cb, entry) && OneLive(h, ib) && OneLive(h, cb)
    && j >= 2 && ib == SingleAt(h0, j - 2) && cb == SingleAt(h0, j - 1)
  }

  lemma BytesSame(s: seq<Byte>, t: seq<Byte>)
    ensures SameName(s, t) <==> |s| == |t| && forall i :: 0 <= i < |s| ==> SameLetter(s[i], t[i])
  {
  }

  lemma MatchIs(items: seq<Byte>, i: nat, name: seq<Byte>)
    requires Nameable(items, i * 32)
    ensures Matches(items, i, name) <==> SameName(FullName(items, i * 32), name)
  {
  }

  lemma AddressNotNull(b: nat)
    ensures BlockAddress(b) > 0
  {
  }

  // ---- opening ----

  /** The blocks of an open file: FAT descriptor, item, copy of the entry, file descriptor. */
  datatype Open = Open(desc: HeapBlock, item: HeapBlock, clone: HeapBlock, fd: HeapBlock)

  ghost function Four(o: Open): set<nat> { {o.desc, o.item, o.clone, o.fd} }

  /** An open file: four live blocks, and from the file descriptor on each leads to the next. */
  ghost predicate OpenIn(h: HeapState, m: Ram, o: Open, entry: seq<Byte>) {
    && OneLive(h, o.desc) && OneLive(h, o.item) && OneLive(h, o.clone) && OneLive(h, o.fd)
    && o.desc != o.item && o.desc != o.clone && o.item != o.clone && o.fd != o.desc && o.fd != o.item && o.fd != o.clone
    && SlotAt(m, BlockPage(o.fd), PRIVATE) == BlockAddress(o.desc)
    && SlotAt(m, BlockPage(o.desc), 0) == BlockAddress(o.item)
    && ItemIn(m, o.item, o.clone, entry)
  }

  /** The open file is the one with the given entry. */
  ghost predicate OpenFile(h: HeapState, m: Ram, o: Open, entry: seq<Byte>, file: Option<File>) {
    OpenIn(h, m, o, entry) && |entry| == ITEM && file == Some(FileOf(entry))
  }

  /** The blocks that an open takes, as requests from h on: the descriptor first, then two
      for each of count slots, and the file descriptor last. */
  ghost predicate OpenAt(h: HeapState, parts: nat, count: nat, o: Open) {
    var j := 1 + 2 * parts;
    && count >= 1 && o.desc == SingleAt(h, j) && o.fd == SingleAt(h, j + 1 + 2 * count)
    && o.item == SingleAt(h, j + 2 * count - 1) && o.clone == SingleAt(h, j + 2 * count)
  }

  /** Those blocks, for a path of one part. */
  ghost function FileBlocks(h: HeapState, count: nat): set<nat> {
    {SingleAt(h, 3), SingleAt(h, 2 * count + 2), SingleAt(h, 2 * count + 3), SingleAt(h, 2 * count + 4)}
  }

  /** The first part of a parsed path is in memory. */
  ghost predicate FirstIn(h: HeapState, m: Ram, nodes: seq<Node>, parts: seq<seq<Byte>>) {
    && |nodes| == |parts| >= 1 && OneLive(h, nodes[0].part) && OneLive(h, nodes[0].str) && NodeIn(m, nodes, parts, 0)
  }

  lemma FirstKept(h: HeapState, m: Ram, h1: HeapState, m1: Ram, nodes: seq<Node>, parts: seq<seq<Byte>>)
    requires Inv(h) && |h.table| == HEAP_BLOCKS && Extends(h, m, h1, m1) && FirstIn(h, m, nodes, parts)
    ensures FirstIn(h1, m1, nodes, parts)
  {
    hide Inv, Extends, SlotAt, Padded, BlockPage, BlockAddress;
    LiveWord(h, m, h1, m1, nodes[0].part, 0);
    LiveWord(h, m, h1, m1, nodes[0].part, 1);
    LiveWord(h, m, h1, m1, nodes[0].str, 0);
    LiveKept(h, m, h1, m1, nodes[0].str, MAX_PATH);
  }

  lemma ItemKept(h: HeapState, m: Ram, h1: HeapState, m1: Ram, ib: HeapBlock, cb: HeapBlock, entry: seq<Byte>)
    requires Inv(h) && |h.table| == HEAP_BLOCKS && Extends(h, m, h1, m1)
    requires OneLive(h, ib) && OneLive(h, cb) && ItemIn(m, ib, cb, entry)
    ensures OneLive(h1, ib) && OneLive(h1, cb) && ItemIn(m1, ib, cb, entry)
  {
    hide Inv, Extends, SlotAt, BlockPage, BlockAddress;
    LiveWord(h, m, h1, m1, ib, 0);
    LiveWord(h, m, h1, m1, ib, 1);
    LiveWord(h, m, h1, m1, cb, 0);
    LiveKept(h, m, h1, m1, cb, ITEM);
  }

  /** An open file stays open while memory only grows. */
  lemma OpenKept(h: HeapState, m: Ram, h1: HeapState, m1: Ram, o: Open, entry: seq<Byte>)
    requires Inv(h) && |h.table| == HEAP_BLOCKS && Extends(h, m, h1, m1) && OpenIn(h, m, o, entry)
    ensures OpenIn(h1, m1, o, entry)
  {
    hide Inv, Extends, SlotAt, BlockPage, BlockAddress, ItemIn;
    LiveWord(h, m, h1, m1, o.fd, PRIVATE);
    LiveWord(h, m, h1, m1, o.desc, 0);
    ItemKept(h, m, h1, m1, o.item, o.clone, entry);
  }

  /** fat16_get_directory_entry: the item of the path's first part, and none if the path
      has a second part. */
  method GetDirectoryEntry(k: Machine, v: Mount, path: nat,
                           ghost nodes: seq<Node>, ghost parts: seq<seq<Byte>>, ghost h0: HeapState,
                           ghost j: nat)
    returns (item: nat, ghost ib: HeapBlock, ghost cb: HeapBlock)
    requires k.Valid() && FirstIn(k.HeapNow(), k.ram, nodes, parts)
    requires path == BlockAddress(nodes[0].part)
    requires 0 !in parts[0] && LookupSafe(v, parts[0])
    requires Inv(h0) && |h0.table| == HEAP_BLOCKS && k.HeapNow() == Singles(h0, j)
    requires j + 2 * SlotsFor(v, parts[0]) <= |FreeSet(h0.table)|
    modifies k`ram, k.heap, k.heap.entries
    ensures k.Valid() && k.HeapNow() == Singles(h0, j + 2 * SlotsFor(v, parts[0]))
    ensures Extends(old(k.HeapNow()), old(k.ram), k.HeapNow(), k.ram)
    ensures item != 0 <==> SlotFor(v, parts[0]) >= 0 && |parts| == 1
    ensures item != 0 ==>
      FoundAt(k.HeapNow(), k.ram, h0, j + 2 * SlotsFor(v, parts[0]), item, ib, cb, ItemOf(v, SlotFor(v, parts[0])))
  {
    hide Inv, FreeSet, Extends, Singles, SingleAt, Padded, SlotAt, LookupSafe, SlotsFor, SlotFor, OneLive;
    hide BlockPage, BlockAddress;
    ghost var h, m := k.HeapNow(), k.ram;
    BlockIsPage(nodes[0].part);
    BlockIsPage(nodes[0].str);
    var part := Bytes(k.ram, SlotAt(k.ram, path / 4096, 0), MAX_PATH);
    item, ib, cb := FindItemInDirectory(k, v, part, parts[0], h0, j);
    if item == 0 {
      return;
    }
    FirstKept(h, m, k.HeapNow(), k.ram, nodes, parts);
    BlockIsPage(ib);
    AddressNotNull(if |nodes| > 1 then nodes[1].part else 0);
    var nextPart := SlotAt(k.ram, path / 4096, 1);
    if nextPart != 0 && SlotAt(k.ram, item / 4096, 1) != TYPE_DIRECTORY {
      item := 0;
    }
  }

  /** The part of fopen that runs once the path is parsed: fat16_open, and the file
      descriptor of file_new_descriptor. */
  method OpenFirst(k: Machine, v: Mount, path: nat,
                   ghost nodes: seq<Node>, ghost parts: seq<seq<Byte>>, ghost h0: HeapState)
    returns (fd: nat, ghost o: Open)
    requires k.Valid() && FirstIn(k.HeapNow(), k.ram, nodes, parts)
    requires path == BlockAddress(nodes[0].part)
    requires 0 !in parts[0] && LookupSafe(v, parts[0])
    requires Inv(h0) && |h0.table| == HEAP_BLOCKS && k.HeapNow() == Singles(h0, 1 + 2 * |parts|)
    requires Taken(v, parts) <= |FreeSet(h0.table)|
    modifies k`ram, k.heap, k.heap.entries
    ensures k.Valid() && k.HeapNow() == Singles(h0, Taken(v, parts))
    ensures Extends(old(k.HeapNow()), old(k.ram), k.HeapNow(), k.ram)
    ensures fd != 0 <==> SlotFor(v, parts[0]) >= 0 && |parts| == 1
    ensures fd != 0 ==> fd == BlockAddress(o.fd) && OpenAt(h0, 1, SlotsFor(v, parts[0]), o)
    ensures fd != 0 ==> OpenIn(k.HeapNow(), k.ram, o, ItemOf(v, SlotFor(v, parts[0])))
  {
    hide Inv, FreeSet, Extends, Singles, SingleAt, SlotAt, PutSlot, LookupSafe, SlotsFor, SlotFor, OneLive;
    hide BlockPage, BlockAddress;
    hide ItemIn, NodeIn, SameOutside;
    ghost var h, m, j, c := k.HeapNow(), k.ram, 1 + 2 * |parts|, SlotsFor(v, parts[0]);
    ghost var db, ib, cb, fb;
    fd, o := 0, Open(0, 0, 0, 0);
    var descriptor;
    descriptor, db := ZallocSingle(k, DESCRIPTOR_SIZE, h0, j);
    ghost var h1, m1 := k.HeapNow(), k.ram;
    FirstKept(h, m, h1, m1, nodes, parts);
    var item;
    item, ib, cb := GetDirectoryEntry(k, v, path, nodes, parts, h0, j + 1);
    ghost var h2, m2 := k.HeapNow(), k.ram;
    ExtendsTrans(h, m, h1, m1, h2, m2);
    if item == 0 {
      return;
    }
    CountNamed(v, parts[0]);
    OpenBlocks(h0, j, c, db, ib, cb);
    BlockIsPage(db);
    BlockIsPage(ib);
    k.ram := PutSlot(k.ram, descriptor / 4096, 0, item);
    ghost var m3 := k.ram;
    DescriptorFilled(h, m, h1, m1, h2, m2, m3, db, ib, cb, ItemOf(v, SlotFor(v, parts[0])));
    fd, fb := ZallocSingle(k, FILE_SIZE, h0, j + 1 + 2 * c);
    ghost var h4, m4 := k.HeapNow(), k.ram;
    BlockIsPage(fb);
    k.ram := PutSlot(k.ram, fd / 4096, PRIVATE, descriptor);
    o := Open(db, ib, cb, fb);
    FileFilled(h, m, h2, m3, h4, m4, k.ram, o, ItemOf(v, SlotFor(v, parts[0])));
    AddressNotNull(fb);
  }

  /** How many blocks an open on drive 0 has taken, path and all. */
  ghost function Taken(v: Mount, parts: seq<seq<Byte>>): nat
    requires |parts| >= 1
  {
    2 + 2 * |parts| + 2 * SlotsFor(v, parts[0]) + (if |parts| == 1 && SlotFor(v, parts[0]) >= 0 then 1 else 0)
  }

  lemma OpenBlocks(h0: HeapState, j: nat, c: nat, db: nat, ib: nat, cb: nat)
    requires Inv(h0) && c >= 1 && j + 1 + 2 * c < |FreeSet(h0.table)|
    requires db == SingleAt(h0, j) && ib == SingleAt(h0, j + 2 * c - 1) && cb == SingleAt(h0, j + 2 * c)
    ensures db != ib && db != cb && ib != cb
    ensures var fb := SingleAt(h0, j + 1 + 2 * c); fb != db && fb != ib && fb != cb
  {
    hide Inv, FreeSet, SingleAt;
    var a, b, e := j + 2 * c - 1, j + 2 * c, j + 1 + 2 * c;
    SinglesApart(h0, j, a);
    SinglesApart(h0, j, b);
    SinglesApart(h0, a, b);
    SinglesApart(h0, j, e);
    SinglesApart(h0, a, e);
    SinglesApart(h0, b, e);
  }

  /** descriptor->item = item keeps the item. */
  lemma DescriptorFilled(h: HeapState, m: Ram, h1: HeapState, m1: Ram, h2: HeapState, m2: Ram, m3: Ram,
                         db: HeapBlock, ib: HeapBlock, cb: HeapBlock, entry: seq<Byte>)
    requires Extends(h, m, h1, m1) && Extends(h1, m1, h2, m2) && |h.table| == HEAP_BLOCKS && Inv(h1)
    requires db in FreeSet(h.table) && OneLive(h1, db) && db != ib && db != cb && ItemIn(m2, ib, cb, entry)
    requires m3 == PutSlot(m2, BlockPage(db), 0, BlockAddress(ib))
    ensures Extends(h, m, h2, m3) && OneLive(h2, db) && |h2.table| == HEAP_BLOCKS && ItemIn(m3, ib, cb, entry)
    ensures SlotAt(m3, BlockPage(db), 0) == BlockAddress(ib)
  {
    hide Inv, FreeSet, SlotAt, PutSlot, SameOutside, FreePage;
    LiveWord(h1, m1, h2, m2, db, 0);
    ExtendsTrans(h, m, h1, m1, h2, m2);
    OtherBlock(m2, db, 0, BlockAddress(ib), ib);
    OtherBlock(m2, db, 0, BlockAddress(ib), cb);
    SlotAfterPut(m2, BlockPage(db), 0, BlockAddress(ib), BlockPage(db), 0);
    WriteTaken(h, m, h2, m2, m3, db);
  }

  /** desc->private = descriptor completes the open file. */
  lemma FileFilled(h: HeapState, m: Ram, h2: HeapState, m2: Ram, h4: HeapState, m4: Ram, m5: Ram, o: Open,
                   entry: seq<Byte>)
    requires Extends(h, m, h2, m2) && Extends(h2, m2, h4, m4) && |h.table| == HEAP_BLOCKS && Inv(h2)
    requires OneLive(h2, o.desc) && OneLive(h2, o.item) && OneLive(h2, o.clone) && ItemIn(m2, o.item, o.clone, entry)
    requires SlotAt(m2, BlockPage(o.desc), 0) == BlockAddress(o.item)
    requires o.fd in FreeSet(h2.table) && OneLive(h4, o.fd)
    requires o.desc != o.item && o.desc != o.clone && o.item != o.clone && o.fd != o.desc && o.fd != o.item
    requires o.fd != o.clone
    requires m5 == PutSlot(m4, BlockPage(o.fd), PRIVATE, BlockAddress(o.desc))
    ensures Extends(h, m, h4, m5) && OpenIn(h4, m5, o, entry)
  {
    hide Inv, FreeSet, SlotAt, PutSlot, SameOutside, FreePage, BlockPage, BlockAddress;
    assert |h2.table| == HEAP_BLOCKS && o.fd in FreeSet(h.table) by { FreeBefore(h, m, h2, m2, o.fd); }
    LiveWord(h2, m2, h4, m4, o.desc, 0);
    ItemKept(h2, m2, h4, m4, o.item, o.clone, entry);
    ExtendsTrans(h, m, h2, m2, h4, m4);
    BlockIsPage(o.desc);
    BlockIsPage(o.fd);
    OtherBlock(m4, o.fd, PRIVATE, BlockAddress(o.desc), o.desc);
    OtherBlock(m4, o.fd, PRIVATE, BlockAddress(o.desc), o.item);
    OtherBlock(m4, o.fd, PRIVATE, BlockAddress(o.desc), o.clone);
    SlotAfterPut(m4, BlockPage(o.fd), PRIVATE, BlockAddress(o.desc), BlockPage(o.fd), PRIVATE);
    WriteTaken(h, m, h4, m4, m5, o.fd);
  }

  /** fopen for reading. A descriptor that is not null is the address of its structure. */
  method Fopen(k: Machine, v: Mount, path: seq<Byte>) returns (fd: nat, ghost o: Open)
    requires k.Valid() && 0 !in path && PathSafe(v, path)
    requires OpenNeeds(v, path) <= |FreeSet(k.HeapNow().table)|
    modifies k`ram, k.heap, k.heap.entries
    ensures k.Valid() && k.HeapNow() == Singles(old(k.HeapNow()), OpenTakes(v, path))
    ensures Extends(old(k.HeapNow()), old(k.ram), k.HeapNow(), k.ram)
    ensures fd != 0 <==> Opened(v, path).Some?
    ensures fd != 0 ==> fd == BlockAddress(o.fd) && OpenAt(old(k.HeapNow()), 1, SlotsOf(v, path), o)
    ensures fd != 0 ==> exists entry :: OpenFile(k.HeapNow(), k.ram, o, entry, Opened(v, path))
  {
    hide Inv, FreeSet, Extends, Singles, SingleAt, LookupSafe, SlotsFor, SlotFor, OneLive, BlockPage;
    hide BlockAddress, Parts, FileOf;
    hide SlotAt, FirstIn, OpenIn, Parsing, OpenAt;
    ghost var h, m := k.HeapNow(), k.ram;
    fd, o := 0, Open(0, 0, 0, 0);
    ghost var r, nodes;
    var root;
    root, r, nodes := PathparserParse(k, path);
    ghost var h1, m1 := k.HeapNow(), k.ram;
    if root == 0 {
      NoneTaken(h, m);
      RootNotNull(r);
      return;
    }
    ghost var parts := Parse(path).parts;
    PathFacts(h, m, h1, m1, r, nodes, path);
    BlockIsPage(r);
    var first := SlotAt(k.ram, root / 4096, 1);
    if first == 0 {
      return;
    }
    if SlotAt(k.ram, root / 4096, 0) != 0 {
      return;
    }
    CountNamed(v, parts[0]);
    fd, o := OpenFirst(k, v, first, nodes, parts, h);
    ExtendsTrans(h, m, h1, m1, k.HeapNow(), k.ram);
    if fd != 0 {
      assert OpenFile(k.HeapNow(), k.ram, o, ItemOf(v, SlotFor(v, parts[0])), Opened(v, path));
    }
  }

  /** How many slots match the path's first part. */
  ghost function SlotsOf(v: Mount, path: seq<Byte>): nat {
    match Parse(path)
    case Refused => 0
    case Path(drive, parts) => if parts == [] then 0 else SlotsFor(v, parts[0])
  }

  lemma CountNamed(v: Mount, name: seq<Byte>)
    ensures SlotsFor(v, name) > 0 <==> SlotFor(v, name) >= 0
  {
    SomeMatch(v.items, v.total, name);
  }

  lemma NoneTaken(h: HeapState, m: Ram)
    ensures Singles(h, 0) == h && Extends(h, m, h, m)
  {
  }

  lemma RootNotNull(r: nat)
    ensures BlockAddress(r) != 0
  {
  }

  /** What a parse leaves for the open. */
  lemma PathFacts(h: HeapState, m: Ram, h1: HeapState, m1: Ram, r: nat, nodes: seq<Node>, path: seq<Byte>)
    requires Parse(path).Path? && Result(h, m, h1, m1, r, nodes, Parse(path).drive, Parse(path).parts) && 0 !in path
    ensures Extends(h, m, h1, m1) && r < HEAP_BLOCKS && |nodes| == |Parse(path).parts|
    ensures h1 == Singles(h, 1 + 2 * |nodes|)
    ensures SlotAt(m1, BlockPage(r), 0) == Parse(path).drive && SlotAt(m1, BlockPage(r), 1) == LinkTo(nodes, 0)
    ensures nodes == [] <==> LinkTo(nodes, 0) == 0
    ensures nodes != [] ==> FirstIn(h1, m1, nodes, Parse(path).parts) && 0 !in Parse(path).parts[0]
  {
    hide Parts, Take, Singles, FreeSet, Extends, SlotAt, NodeIn, NodeBlocks, Inv;
    PartsPlain(path);
    if nodes != [] {
      NodeBlocksHold(nodes, 0);
      LiveOfTaken(h, {r} + NodeBlocks(nodes));
      AddressNotNull(nodes[0].part);
    }
  }

  lemma PartsPlain(path: seq<Byte>)
    requires 0 !in path
    ensures Parse(path).Path? ==> forall p :: p in Parse(path).parts ==> 0 !in p && |p| <= MAX_PATH
  {
    hide Parts;
    if Parse(path).Path? { PartsWithout(path[3..]); }
  }

  lemma {:induction false} PartsWithout(s: seq<Byte>)
    requires 0 !in s
    ensures forall p :: p in Parts(s) ==> 0 !in p
    decreases |s|
  {
    hide Prefix, Rest;
    if Prefix(s) != [] { PartsWithout(Rest(s)); }
  }

  // ---- closing ----

  /** fat16_close and file_free_descriptor: the entry's copy, the item, the FAT descriptor
      and the file descriptor are freed. */
  method Fclose(k: Machine, fd: nat, ghost o: Open, ghost entry: seq<Byte>)
    requires k.Valid() && OpenIn(k.HeapNow(), k.ram, o, entry) && fd == BlockAddress(o.fd)
    modifies k.heap, k.heap.entries
    ensures k.Valid() && k.HeapNow() == Release(old(k.HeapNow()), Four(o))
  {
    hide Inv, Release, HeapSpec.Free, Freeable, SlotAt, BlockAddress, BlockPage, Bytes;
    ghost var h := k.HeapNow();
    BlockIsPage(o.fd);
    BlockIsPage(o.desc);
    BlockIsPage(o.item);
    BlockIsPage(o.clone);
    var descriptor := SlotAt(k.ram, fd / 4096, PRIVATE);
    var item := SlotAt(k.ram, descriptor / 4096, 0);
    TakeNone(h);
    if SlotAt(k.ram, item / 4096, 1) == TYPE_FILE {
      ReleaseNext(h, {}, o.clone);
      k.Kfree(SlotAt(k.ram, item / 4096, 0));
    }
    ReleaseNext(h, {} + {o.clone}, o.item);
    k.Kfree(item);
    ReleaseNext(h, {} + {o.clone} + {o.item}, o.desc);
    k.Kfree(descriptor);
    ReleaseNext(h, {} + {o.clone} + {o.item} + {o.desc}, o.fd);
    k.Kfree(fd);
    assert {} + {o.clone} + {o.item} + {o.desc} + {o.fd} == Four(o);
  }

  lemma TakesForOne(v: Mount, path: seq<Byte>)
    requires Opened(v, path).Some?
    ensures OpenTakes(v, path) == OpenNeeds(v, path) == 2 * SlotsOf(v, path) + 5
  {
    hide Parts, SlotFor, FileOf;
    CountNamed(v, Parse(path).parts[0]);
  }

  /** The blocks of an open file were free before it was opened. */
  lemma FourFree(h: HeapState, v: Mount, path: seq<Byte>, o: Open)
    requires Inv(h) && OpenNeeds(v, path) <= |FreeSet(h.table)| && Opened(v, path).Some?
    requires OpenAt(h, 1, SlotsOf(v, path), o)
    ensures Four(o) <= FreeSet(h.table) && Four(o) == FileBlocks(h, SlotsOf(v, path))
  {
    hide Inv, FreeSet, SingleAt, SingleBlocks, SlotsOf, OpenNeeds, Opened, Singles, Take;
    var c := SlotsOf(v, path);
    var j := 2 * c + 5;
    TakesForOne(v, path);
    SinglesTake(h, j);
    InSingles(h, 3, j);
    InSingles(h, 2 * c + 2, j);
    InSingles(h, 2 * c + 3, j);
    InSingles(h, 2 * c + 4, j);
  }

  /** How many blocks stay taken when a file has been opened and closed. */
  ghost function OpenLeaves(v: Mount, path: seq<Byte>): int {
    OpenTakes(v, path) - (if Opened(v, path).Some? then 4 else 0)
  }

  /** Opening and closing leaves the blocks of the parsed path taken, and nothing else, if
      and only if nothing is looked up or the file is found in one slot. */
  lemma LeavesPathOnly(v: Mount, path: seq<Byte>)
    requires Parse(path).Path?
    ensures var p := Parse(path);
      OpenLeaves(v, path) == 1 + 2 * |p.parts| <==>
      p.drive != 0 || p.parts == [] || (|p.parts| == 1 && SlotsFor(v, p.parts[0]) == 1)
  {
    hide Parts;
    var p := Parse(path);
    if p.parts != [] { CountNamed(v, p.parts[0]); }
  }

  lemma {:induction false} MoreSingles(h: HeapState, j: nat, k: nat)
    requires j <= k
    ensures SingleBlocks(h, j) <= SingleBlocks(h, k)
    decreases k
  {
    hide SingleAt;
    if j < k { MoreSingles(h, j, k - 1); }
  }

  /** Closing right after opening: of the blocks taken those of the path stay, and two for
      each further slot that matches. */
  lemma CloseLeaves(h: HeapState, c: nat, o: Open)
    requires Inv(h) && OpenAt(h, 1, c, o) && 2 * c + 5 <= |FreeSet(h.table)|
    ensures var rest := SingleBlocks(h, 2 * c + 5) - Four(o);
      && rest <= FreeSet(h.table) && |rest| == 2 * c + 1
      && Release(Singles(h, 2 * c + 5), Four(o)) == Take(h, rest)
      && (c == 1 ==> Take(h, rest) == Singles(h, 3))
  {
    hide Inv, FreeSet, SingleAt, SingleBlocks, Singles, Take, Release;
    var j, taken := 2 * c + 5, SingleBlocks(h, 2 * c + 5);
    SinglesTake(h, j);
    OpenBlocks(h, 3, c, o.desc, o.item, o.clone);
    InSingles(h, 3, j);
    InSingles(h, 2 * c + 2, j);
    InSingles(h, 2 * c + 3, j);
    InSingles(h, 2 * c + 4, j);
    assert |Four(o)| == 4;
    assert taken == Four(o) + (taken - Four(o));
    ReleaseSome(h, taken, Four(o));
    if c == 1 { OneEntry(h, o); }
  }

  lemma OneEntry(h: HeapState, o: Open)
    requires Inv(h) && OpenAt(h, 1, 1, o) && 7 <= |FreeSet(h.table)|
    ensures SingleBlocks(h, 7) - Four(o) == SingleBlocks(h, 3) && Take(h, SingleBlocks(h, 3)) == Singles(h, 3)
  {
    hide Inv, FreeSet, SingleAt, Singles, Take;
    SinglesTake(h, 3);
    NextSingle(h, 3);
    NextSingle(h, 4);
    NextSingle(h, 5);
    NextSingle(h, 6);
    assert SingleBlocks(h, 4) == SingleBlocks(h, 3) + {o.desc};
    assert SingleBlocks(h, 5) == SingleBlocks(h, 4) + {o.item};
    assert SingleBlocks(h, 6) == SingleBlocks(h, 5) + {o.clone};
    assert SingleBlocks(h, 7) == SingleBlocks(h, 6) + {o.fd};
  }

  /** Opening a path and closing the file: the blocks that stay taken are never returned. */
  method OpenAndClose(k: Machine, v: Mount, path: seq<Byte>)
    requires k.Valid() && 0 !in path && PathSafe(v, path)
    requires OpenNeeds(v, path) <= |FreeSet(k.HeapNow().table)|
    modifies k`ram, k.heap, k.heap.entries
    ensures k.Valid() && |FreeSet(k.HeapNow().table)| == |FreeSet(old(k.HeapNow()).table)| - OpenLeaves(v, path)
    ensures OpenLeaves(v, path) == (if Parse(path).Path? then 1 + 2 * |Parse(path).parts| else 0) ==>
      k.HeapNow() == Singles(old(k.HeapNow()), OpenLeaves(v, path))
  {
    hide Inv, FreeSet, Extends, Singles, PathSafe, SlotsFor, SlotFor, FileOf, OpenIn, OpenAt, Parts, Take;
    hide Release;
    ghost var h := k.HeapNow();
    ghost var o;
    var fd;
    fd, o := Fopen(k, v, path);
    SinglesTake(h, OpenTakes(v, path));
    SizeWithout(FreeSet(h.table), SingleBlocks(h, OpenTakes(v, path)));
    if fd != 0 {
      ghost var entry :| OpenFile(k.HeapNow(), k.ram, o, entry, Opened(v, path));
      Fclose(k, fd, o, entry);
      AfterClose(h, v, path, o);
    }
  }

  lemma AfterClose(h: HeapState, v: Mount, path: seq<Byte>, o: Open)
    requires Inv(h) && OpenNeeds(v, path) <= |FreeSet(h.table)| && Opened(v, path).Some?
    requires OpenAt(h, 1, SlotsOf(v, path), o)
    ensures var h' := Release(Singles(h, OpenTakes(v, path)), Four(o));
      && |FreeSet(h'.table)| == |FreeSet(h.table)| - OpenLeaves(v, path)
      && (OpenLeaves(v, path) == 3 ==> h' == Singles(h, 3))
  {
    hide Inv, FreeSet, SingleAt, SingleBlocks, SlotsOf, OpenNeeds, OpenTakes, Opened, Singles, Take, Release, OpenAt;
    var c := SlotsOf(v, path);
    TakesForOne(v, path);
    CloseLeaves(h, c, o);
    FreeAfterTake(h, SingleBlocks(h, 2 * c + 5) - Four(o));
    SizeWithout(FreeSet(h.table), SingleBlocks(h, 2 * c + 5) - Four(o));
  }

  lemma SizeWithout(s: set<nat>, t: set<nat>)
    requires t <= s
    ensures |s - t| == |s| - |t|
  {
    assert s == t + (s - t);
  }

  // ---- an open file ----

  /** fstat: the size of an open file. */
  method Fstat(k: Machine, fd: nat, ghost o: Open, ghost entry: seq<Byte>) returns (r: int, size: Word)
    requires k.Valid() && OpenIn(k.HeapNow(), k.ram, o, entry) && |entry| == ITEM && fd == BlockAddress(o.fd)
    ensures r == 0 && size == FileOf(entry).size
  {
    hide SlotAt, BlockAddress, BlockPage;
    var item := ItemAt(k, fd, o, entry);
    BlockIsPage(o.clone);
    r, size := -EINVARG, 0;
    if SlotAt(k.ram, item / 4096, 1) == TYPE_FILE {
      size := FileOf(Bytes(k.ram, SlotAt(k.ram, item / 4096, 0), ITEM)).size;
      r := 0;
    }
  }

  /** descriptor->private->item */
  method ItemAt(k: Machine, fd: nat, ghost o: Open, ghost entry: seq<Byte>) returns (item: nat)
    requires k.Valid() && OpenIn(k.HeapNow(), k.ram, o, entry) && fd == BlockAddress(o.fd)
    ensures item == BlockAddress(o.item) && item / 4096 == BlockPage(o.item)
  {
    hide SlotAt, BlockAddress, BlockPage;
    BlockIsPage(o.fd);
    BlockIsPage(o.desc);
    BlockIsPage(o.item);
    var descriptor := SlotAt(k.ram, fd / 4096, PRIVATE);
    item := SlotAt(k.ram, descriptor / 4096, 0);
  }

  /** The volume as its reads see it. */
  function VolumeOf(v: Mount): F.Volume {
    F.OnDisk(v.disk, LayoutOf(v))
  }

  /** The cluster chain of the file reaches its last byte. */
  predicate Reaches(v: Mount, file: File) {
    F.Walk(VolumeOf(v).next, file.firstCluster, F.LastCluster(LayoutOf(v), 0, file.size)).Some?
  }

  /** The bytes are those of the file's chain, if these lie before byte 2^31 of the disk. */
  ghost predicate IsFile(v: Mount, file: File, bytes: seq<Byte>) {
    && |bytes| == file.size
    && (F.BytesBelow(VolumeOf(v), file.firstCluster, 0, file.size) ==>
          F.IsChain(VolumeOf(v), file.firstCluster, 0, bytes))
  }

  /** A read from the start of a file is aligned; it succeeds exactly when the chain
      reaches the file's last byte. */
  lemma WholeFileRead(v: F.Volume, start: F.Cluster, size: F.Size)
    ensures var o := F.ReadMany(v, start, 0, size, 1);
      && |o.bytes| <= size
      && (o.ok <==> F.Walk(v.next, start, F.LastCluster(v.layout, 0, size)).Some?)
      && (o.ok ==> |o.bytes| == size)
      && (F.BytesBelow(v, start, 0, size) ==> F.IsChain(v, start, 0, o.bytes))
  {
    hide F.Read, F.Walk, F.IsChain, F.ReadMany, F.BytesBelow, F.ReadAligned;
    StartIsAligned(v.layout, size);
    F.ReadSucceeds(v, start, 0, size);
    if F.BytesBelow(v, start, 0, size) { F.ReadIsChain(v, start, 0, size); }
    F.NoneRead(v, start, size, size);
    F.ReadManyStep(v, start, 0, size, 1);
    F.SizeAsInt(size);
    var first := F.Read(v, start, 0, size);
    assert first.bytes + [] == first.bytes;
  }

  lemma StartIsAligned(l: F.ValidLayout, size: F.Size)
    ensures F.ReadAligned(l, 0, size)
  {
    hide F.ClusterBytes;
    if size > 0 { F.Division(l, size - 1); }
    Bits.DivModUnique(0, F.ClusterBytes(l), 0, 0);
  }

  /** fread of one item of size bytes from the start of an open file, where size is the
      file's: file.c refuses a size of 0. */
  method FreadAll(k: Machine, v: Mount, fatStream: DiskStream, stream: DiskStream, fd: nat, size: F.Size, ptr: nat,
                  ghost o: Open, ghost entry: seq<Byte>)
    returns (r: int, ghost bytes: seq<Byte>)
    requires k.Valid() && OpenIn(k.HeapNow(), k.ram, o, entry) && |entry| == ITEM && fd == BlockAddress(o.fd)
    requires size == FileOf(entry).size && ptr + size <= LIMIT
    modifies k`ram, fatStream, stream
    ensures r == 1 <==> size > 0 && Reaches(v, FileOf(entry))
    ensures |bytes| <= size && k.ram == Splice(old(k.ram), ptr, bytes)
    ensures r == 1 ==> IsFile(v, FileOf(entry), bytes) && |bytes| == size
  {
    hide F.ReadMany, F.Walk, F.IsChain, F.OnDisk, F.LastCluster, F.BytesBelow, FileOf, SlotAt, BlockAddress, BlockPage;
    hide Splice, LayoutOf;
    if size == 0 {
      bytes := [];
      assert k.ram == Splice(k.ram, ptr, []);
      return -EINVARG, bytes;
    }
    var item := ItemAt(k, fd, o, entry);
    BlockIsPage(o.clone);
    var file := FileOf(Bytes(k.ram, SlotAt(k.ram, item / 4096, 0), ITEM));
    ghost var vol := VolumeOf(v);
    LayoutSame(v);
    WholeFileRead(vol, file.firstCluster, size);
    OneItem(size);
    bytes := F.ReadMany(vol, file.firstCluster, 0, size, 1).bytes;
    var filled;
    r, filled := F.Fat16Read(v.disk, LayoutOf(v), fatStream, stream, file.firstCluster, 0, size, 1, k.ram, ptr);
    k.ram := filled;
  }

  lemma LayoutSame(v: Mount)
    ensures VolumeOf(v).layout == LayoutOf(v)
  {
  }

  lemma OneItem(size: nat)
    ensures F.ItemBytes(size, 1) == size
  {
    assert F.ItemBytes(size, 1) == size + F.ItemBytes(size, 0);
  }
}
