/** copy_string_from_task (src/proc/task.c): the kernel reads a string of a task through
    a buffer that it maps into the task's address space for the time of the copy. */
module TaskCopy {
  import opened Status
  import opened Memory
  import opened Wrappers
  import opened Bits
  import opened HeapSpec
  import opened PageTables
  import opened Machine
  import opened Blocks
  import opened Paging
  import opened Strings
  import opened UserMemory
  import H = Heap

  const MAP_FLAGS: nat := 7

  /** Every directory entry is present. */
  ghost predicate DirectoryPresent(m: Ram, d: Page) {
    forall i :: 0 <= i < SLOTS ==> SlotAt(m, d, i) % 2 == 1
  }

  /** Every linear address is mapped to itself. */
  ghost predicate AllToSelf(m: Ram, d: Page) {
    forall a :: 0 <= a < LIMIT ==> Translate(m, d, a) == Some(a)
  }

  /** What paging_new_4gb builds with the present flag maps every address to itself. */
  lemma IdentityIsAllToSelf(m: Ram, d: Page, flags: nat)
    requires flags < 256 && flags % 2 == 1 && Identity(m, d, flags) && DirectoryFlags(m, d, flags)
    ensures AllToSelf(m, d) && DirectoryPresent(m, d)
  {
    hide Or, SlotAt;
    EntryFlags(flags);
    forall i | 0 <= i < SLOTS ensures SlotAt(m, d, i) % 2 == 1 {
      assert SlotAt(m, d, i) % 4096 == Or(flags, WRITEABLE);
      LowBit(SlotAt(m, d, i));
    }
    forall a | 0 <= a < LIMIT ensures Translate(m, d, a) == Some(a) {
      IdentityAt(m, d, flags, a);
    }
  }

  lemma LowBit(w: nat)
    ensures w % 2 == w % 4096 % 2
  {
  }

  lemma IdentityAt(m: Ram, d: Page, flags: nat, a: nat)
    requires a < LIMIT && flags < 256 && flags % 2 == 1 && Identity(m, d, flags) && DirectoryPresent(m, d)
    ensures Translate(m, d, a) == Some(a)
  {
    hide SlotAt, EntryFor;
    var p: nat := a / 4096;
    assert EntryFor(m, d, p) == p * 4096 + flags;
    assert SlotAt(m, d, p / 1024) % 2 == 1;
  }

  /** The block that kzalloc(max) is about to return, or a negative number. */
  ghost function TmpBlock(h: HeapState, max: nat): int
    requires max < LIMIT
  {
    MallocBlocks(h, H.BlocksFor(max)).1
  }

  /** The string of the task, as far as it is read, lies in nothing that the copy itself
      changes: neither the buffer's page or its frame, nor the entry of that page. */
  ghost predicate SourceApart(m: Ram, d: Page, virt: nat, max: nat, t: Page) {
    forall i :: 0 <= i < max && 0 !in BytesFrom(m, d, virt, max)[..i] ==> Untouched(m, d, (virt + i) % 0x1_0000_0000, t)
  }

  ghost predicate Untouched(m: Ram, d: Page, a: nat, t: Page)
    requires a < LIMIT
  {
    && a / 4096 != t && FrameOutside(m, d, a, {t as nat})
    && !(EntrySlot(m, d, t) <= Translate(m, d, a).value < EntrySlot(m, d, t) + 4)
  }

  /** Where the entry of page t lies. */
  function EntrySlot(m: Ram, d: Page, t: Page): nat { Slot(TablePage(m, d, t / 1024), t % 1024) }

  lemma FreeNotOwned(h: HeapState, m: Ram, c: nat, p: nat)
    requires Inv(h) && c + 4 <= LIMIT && Chunk(h, m, c) && FreePage(h, p)
    ensures p !in ChunkPages(m, c)
  {
    FreeRunNotLive(h, p - HEAP_PAGE, 1, p - HEAP_PAGE);
  }

  /** The buffer is a block that is free before the call and again after it is freed. */
  lemma TmpBlockFacts(h: HeapState, max: nat)
    requires Inv(h) && |h.table| == HEAP_BLOCKS && max < PAGE && TmpBlock(h, max) >= 0
    ensures var b := TmpBlock(h, max); var h' := MallocBlocks(h, H.BlocksFor(max)).0;
      && b < HEAP_BLOCKS && IsFree(h.table[b]) && FreePage(h, BlockPage(b))
      && Inv(h') && |h'.table| == HEAP_BLOCKS && Freeable(h', b) && Free(h', b) == h
  {
    hide Inv, Marked, Cleared, ChainEnd, Fits;
    var n := H.BlocksFor(max);
    var (h', b) := MallocBlocks(h, n);
    MallocInv(h, n);
    if max == 0 {
      assert b == TrailingStart(h.table) && FreeRun(h.table, b, |h.table| - b);
      FreeOfFree(h, b);
    } else {
      assert n == 1;
      OneBlockNeverShort(h.table);
      MallocThenFree(h, 1);
    }
  }

  /** Mapping the buffer's page to itself changes no other page's translation. */
  lemma Remap(m: Ram, d: Page, t: Page, a: nat)
    requires Tree(m, d) && DirectoryPresent(m, d) && a < LIMIT
    ensures var m' := SetEntry(m, d, t, t * 4096 + MAP_FLAGS);
      && (a / 4096 == t ==> Translate(m', d, a) == Some(a))
      && (a / 4096 != t ==> Translate(m', d, a) == Translate(m, d, a))
  {
    hide Tree, SetEntry, EntryFor, Translate, SlotAt, TablePages, SameOutside;
    var m' := SetEntry(m, d, t, t * 4096 + MAP_FLAGS);
    SetEntryFlat(m, d, t, t * 4096 + MAP_FLAGS);
    var p: Page := a / 4096;
    assert EntryFor(m', d, p) == Flat(m', d)[p] && EntryFor(m, d, p) == Flat(m, d)[p];
    assert SlotAt(m', d, p / 1024) == SlotAt(m, d, p / 1024);
    TranslateWith(m, m', d, a, t);
  }

  lemma TranslateWith(m: Ram, m': Ram, d: Page, a: nat, t: Page)
    requires a < LIMIT && SlotAt(m', d, a / 4096 / 1024) == SlotAt(m, d, a / 4096 / 1024)
    requires SlotAt(m, d, a / 4096 / 1024) % 2 == 1
    requires EntryFor(m', d, a / 4096) == if a / 4096 == t then t * 4096 + MAP_FLAGS else EntryFor(m, d, a / 4096)
    ensures a / 4096 == t ==> Translate(m', d, a) == Some(a)
    ensures a / 4096 != t ==> Translate(m', d, a) == Translate(m, d, a)
  {
    hide EntryFor, SlotAt;
    TransparentEntry(a);
  }

  lemma TransparentEntry(a: nat)
    ensures (a / 4096 * 4096 + 7) % 2 == 1 && (a / 4096 * 4096 + 7) / 4096 * 4096 + a % 4096 == a
  {
  }

  /** What the copy reads through the changed map is what the task sees. */
  lemma SourceSeen(m: Ram, m1: Ram, d: Page, t: Page, a: nat)
    requires Tree(m, d) && DirectoryPresent(m, d) && SameOutside(m, m1, {t as nat}) && t !in Footprint(m, d)
    requires a < LIMIT && Untouched(m, d, a, t)
    ensures var m2 := SetEntry(m1, d, t, t * 4096 + MAP_FLAGS);
      FrameOutside(m2, d, a, {t as nat}) && ByteAt(m2, d, a) == ByteAt(m, d, a)
  {
    hide Tree, SetEntry, Translate, SlotAt, Flat;
    TreeFrame(m, m1, d, {t as nat});
    SameTranslation(m, m1, d, a);
    assert DirectoryPresent(m1, d) by {
      forall i | 0 <= i < SLOTS ensures SlotAt(m1, d, i) % 2 == 1 { assert SlotAt(m1, d, i) == SlotAt(m, d, i); }
    }
    Remap(m1, d, t, a);
    SameTables(m, m1, d);
    EntryBytes(m1, d, t, t * 4096 + MAP_FLAGS, Translate(m, d, a).value);
  }

  /** Storing an entry changes the four bytes of the entry only. */
  lemma EntryBytes(m: Ram, d: Page, t: Page, v: Word, p: nat)
    requires p < LIMIT && !(EntrySlot(m, d, t) <= p < EntrySlot(m, d, t) + 4)
    ensures SetEntry(m, d, t, v)[p] == m[p]
  {
    hide TablePage;
    SlotBounds(TablePage(m, d, t / 1024), t % 1024);
  }

  lemma SourceRead(m: Ram, m1: Ram, d: Page, t: Page, virt: nat, max: nat)
    requires Tree(m, d) && DirectoryPresent(m, d) && SameOutside(m, m1, {t as nat}) && t !in Footprint(m, d)
    requires SourceApart(m, d, virt, max, t)
    ensures var m2 := SetEntry(m1, d, t, t * 4096 + MAP_FLAGS);
      && Readable(m2, d, virt, max, {t as nat})
      && Strncpied(BytesFrom(m2, d, virt, max)) == Strncpied(BytesFrom(m, d, virt, max))
  {
    hide Tree, SetEntry, FrameOutside, Footprint, ByteAt, SameOutside, DirectoryPresent, Untouched;
    var m2 := SetEntry(m1, d, t, t * 4096 + MAP_FLAGS);
    var s, s2 := BytesFrom(m, d, virt, max), BytesFrom(m2, d, virt, max);
    forall i | 0 <= i < max && 0 !in s[..i]
      ensures s[i] == s2[i] && FrameOutside(m2, d, (virt + i) % 0x1_0000_0000, {t as nat})
    {
      SourceSeen(m, m1, d, t, (virt + i) % 0x1_0000_0000);
    }
    StrncpiedSame(s, s2);
    forall i | 0 <= i < max && 0 !in s2[..i] ensures FrameOutside(m2, d, (virt + i) % 0x1_0000_0000, {t as nat}) {
      if 0 in s[..i] { FirstNul(s, s2, i); }
    }
  }

  /** Putting the old entry back, after writes to page t only, restores everything else. */
  lemma Restored(m1: Ram, m3: Ram, d: Page, t: Page, v: Word)
    requires Tree(m1, d) && t !in Footprint(m1, d) && SameOutside(SetEntry(m1, d, t, v), m3, {t as nat})
    ensures var m4 := SetEntry(m3, d, t, EntryFor(m1, d, t));
      SameOutside(m1, m4, {t as nat}) && Tree(m4, d) && Flat(m4, d) == Flat(m1, d)
  {
    hide Tree, WordAt, Flat;
    var m2 := SetEntry(m1, d, t, v);
    SetEntryFlat(m1, d, t, v);
    SameTables(m1, m2, d);
    assert Footprint(m2, d) == Footprint(m1, d);
    TreeFrame(m2, m3, d, {t as nat});
    SameTables(m2, m3, d);
    var q := TablePage(m1, d, t / 1024);
    assert q in Footprint(m1, d);
    SlotRestored(m1, m3, q, t % 1024, v, t);
    TreeFrame(m1, SetEntry(m3, d, t, EntryFor(m1, d, t)), d, {t as nat});
  }

  lemma SlotRestored(m1: Ram, m3: Ram, q: Page, k: nat, v: Word, t: Page)
    requires k < SLOTS && q != t && SameOutside(PutSlot(m1, q, k, v), m3, {t as nat})
    ensures SameOutside(m1, PutSlot(m3, q, k, SlotAt(m1, q, k)), {t as nat})
  {
    var a := Slot(q, k);
    BytesOfUnique(WordAt(m1, a), m1[a], m1[a + 1], m1[a + 2], m1[a + 3]);
    SlotBounds(q, k);
  }

  lemma SelfMapped(m: Ram, d: Page, a: nat, n: nat)
    requires AllToSelf(m, d) && a + n <= LIMIT
    ensures MappedToSelf(m, d, a, n) && BytesFrom(m, d, a, n) == Bytes(m, a, n)
  {
    hide Translate;
    forall i | 0 <= i < n ensures BytesFrom(m, d, a, n)[i] == m[a + i] {
      assert Translate(m, d, a + i) == Some(a + i);
    }
  }

  lemma TmpMapped(m: Ram, d: Page, t: Page, n: nat)
    requires Tree(m, d) && DirectoryPresent(m, d) && n <= PAGE
    ensures MappedToSelf(SetEntry(m, d, t, t * 4096 + MAP_FLAGS), d, t * 4096, n)
  {
    hide Tree, SetEntry, Translate, DirectoryPresent;
    forall a | t * 4096 <= a < t * 4096 + n
      ensures Translate(SetEntry(m, d, t, t * 4096 + MAP_FLAGS), d, a) == Some(a)
    {
      Remap(m, d, t, a);
    }
  }

  lemma TmpRange(t: Page, n: nat)
    requires n <= PAGE
    ensures RangePages(t * 4096, n) <= {t as nat}
  {
  }

  /** A directory that maps everything to itself still does after writes elsewhere. */
  lemma AllToSelfFrame(m: Ram, m': Ram, d: Page, ps: set<nat>)
    requires Tree(m, d) && AllToSelf(m, d) && SameOutside(m, m', ps) && ps !! Footprint(m, d)
    ensures Tree(m', d) && AllToSelf(m', d) && Footprint(m', d) == Footprint(m, d)
  {
    hide Tree, Translate, SlotAt, SameOutside;
    TreeFrame(m, m', d, ps);
    SameFootprint(m, m', d);
    forall a | 0 <= a < LIMIT ensures Translate(m', d, a) == Some(a) {
      SameTranslation(m, m', d, a);
      assert Translate(m, d, a) == Some(a);
    }
  }

  lemma SameFootprint(m: Ram, m': Ram, d: Page)
    requires TablePages(m', d) == TablePages(m, d)
    ensures Footprint(m', d) == Footprint(m, d)
  {
  }

  /** What the caller of the copy provides, unless the call is refused or finds no block:
      the kernel's own address space, which maps everything to itself, next to the task's;
      a string that the copy does not disturb; and a destination outside both. */
  ghost predicate CopyReady(h: HeapState, m: Ram, chunk: nat, kernelChunk: nat, virt: nat, phys: nat, max: nat) {
    && SpacesReady(h, m, chunk, kernelChunk, phys, max)
    && (max < PAGE && TmpBlock(h, max) >= 0 ==>
        var t := BlockPage(TmpBlock(h, max));
        virt < LIMIT && t < PAGES && SourceApart(m, DirectoryOf(m, chunk), virt, max, t))
  }

  /** The part of it that is not about the string. */
  ghost predicate SpacesReady(h: HeapState, m: Ram, chunk: nat, kernelChunk: nat, phys: nat, max: nat) {
    && chunk + 4 <= LIMIT && kernelChunk + 4 <= LIMIT
    && (max < PAGE && TmpBlock(h, max) >= 0 ==>
        var t := BlockPage(TmpBlock(h, max));
        && phys + max <= LIMIT
        && Chunk(h, m, chunk) && Chunk(h, m, kernelChunk)
        && ChunkPages(m, chunk) !! ChunkPages(m, kernelChunk)
        && DirectoryPresent(m, DirectoryOf(m, chunk)) && AllToSelf(m, DirectoryOf(m, kernelChunk))
        && RangePages(phys, max) !! ChunkPages(m, chunk) + ChunkPages(m, kernelChunk)
        && t !in RangePages(phys, max))
  }

  /** Memory after the call, given the string s that was copied: only the buffer's block,
      which is free again, and the destination have changed. */
  ghost predicate Copied(m: Ram, m': Ram, tmp: nat, phys: nat, s: seq<Byte>)
    requires phys + |s| <= LIMIT
  {
    && Bytes(m', phys, |s|) == s
    && forall a :: 0 <= a < LIMIT && PageOf(a) != tmp && !(phys <= a < phys + |s|) ==> m'[a] == m[a]
  }

  // ---- the stages of the copy ----

  /** The facts about the start that the stages use: d and e are the directories of the
      task and of the kernel, t the buffer's page. */
  ghost predicate Start(m: Ram, d: Page, e: Page, t: Page, chunk: nat, kernelChunk: nat, phys: nat, max: nat) {
    && chunk + 4 <= LIMIT && kernelChunk + 4 <= LIMIT && phys + max <= LIMIT && max < PAGE
    && chunk % PAGE == 0 && kernelChunk % PAGE == 0
    && WordAt(m, chunk) == d * 4096 && WordAt(m, kernelChunk) == e * 4096
    && Tree(m, d) && Tree(m, e) && DirectoryPresent(m, d) && AllToSelf(m, e)
    && t !in Footprint(m, d) + Footprint(m, e) + {PageOf(chunk), PageOf(kernelChunk)} + RangePages(phys, max)
    && PageOf(chunk) !in Footprint(m, d) && PageOf(kernelChunk) !in Footprint(m, d)
    && RangePages(phys, max) !! Footprint(m, d) && RangePages(phys, max) !! Footprint(m, e)
    && Footprint(m, d) !! Footprint(m, e)
  }

  lemma ReadyStart(h: HeapState, m: Ram, chunk: nat, kernelChunk: nat, virt: nat, phys: nat, max: nat)
    requires Inv(h) && |h.table| == HEAP_BLOCKS && max < PAGE && TmpBlock(h, max) >= 0
    requires CopyReady(h, m, chunk, kernelChunk, virt, phys, max)
    ensures chunk + 4 <= LIMIT && kernelChunk + 4 <= LIMIT && 0 <= TmpBlock(h, max) < HEAP_BLOCKS
    ensures var t := BlockPage(TmpBlock(h, max));
      SourceApart(m, DirectoryOf(m, chunk), virt, max, t)
    ensures var t := BlockPage(TmpBlock(h, max));
      Start(m, DirectoryOf(m, chunk), DirectoryOf(m, kernelChunk), t, chunk, kernelChunk, phys, max)
  {
    hide Tree, Footprint, DirectoryPresent, AllToSelf, SourceApart, WordAt, OneBlock, MallocBlocks, RangePages;
    TmpBlockFacts(h, max);
    FreeNotOwned(h, m, chunk, BlockPage(TmpBlock(h, max)));
    FreeNotOwned(h, m, kernelChunk, BlockPage(TmpBlock(h, max)));
  }

  lemma WordSame(m: Ram, m': Ram, c: nat, ps: set<nat>)
    requires c % PAGE == 0 && c + 4 <= LIMIT && SameOutside(m, m', ps) && PageOf(c) !in ps
    ensures WordAt(m', c) == WordAt(m, c)
  {
    OutsideIsSame(m, m', ps, PageOf(c));
    SamePageSlot(m, m', PageOf(c), 0);
    assert Slot(PageOf(c), 0) == c;
  }

  lemma PresentFrame(m: Ram, m': Ram, d: Page)
    requires DirectoryPresent(m, d) && SameDirectory(m, m', d)
    ensures DirectoryPresent(m', d)
  {
    forall i | 0 <= i < SLOTS ensures SlotAt(m', d, i) % 2 == 1 {
      assert SlotAt(m', d, i) == SlotAt(m, d, i);
    }
  }

  /** Clearing the buffer keeps the start facts. */
  lemma StartFrame(m: Ram, m1: Ram, d: Page, e: Page, t: Page, chunk: nat, kernelChunk: nat, phys: nat, max: nat)
    requires Start(m, d, e, t, chunk, kernelChunk, phys, max) && SameOutside(m, m1, {t as nat})
    ensures Start(m1, d, e, t, chunk, kernelChunk, phys, max) && Flat(m1, d) == Flat(m, d)
    ensures Footprint(m1, d) == Footprint(m, d)
  {
    hide Tree, Footprint, DirectoryPresent, AllToSelf, WordAt, RangePages, SameOutside, Flat;
    TreeFrame(m, m1, d, {t as nat});
    SameFootprint(m, m1, d);
    PresentFrame(m, m1, d);
    AllToSelfFrame(m, m1, e, {t as nat});
    WordSame(m, m1, chunk, {t as nat});
    WordSame(m, m1, kernelChunk, {t as nat});
  }

  lemma StartWord(m: Ram, m1: Ram, d: Page, e: Page, t: Page, chunk: nat, kernelChunk: nat, phys: nat, max: nat)
    requires Start(m, d, e, t, chunk, kernelChunk, phys, max) && SameOutside(m, m1, {t as nat})
    ensures WordAt(m1, chunk) == d * 4096 && d * 4096 % 4096 == 0 && d * 4096 / 4096 == d && phys + max <= LIMIT
  {
    hide Tree, Footprint, DirectoryPresent, AllToSelf, WordAt, RangePages, SameOutside;
    WordSame(m, m1, chunk, {t as nat});
  }

  /** The buffer's page is mapped: the string can be read into it. */
  lemma MappedIn(m: Ram, m1: Ram, m2: Ram, d: Page, e: Page, t: Page, chunk: nat, kernelChunk: nat, virt: nat,
                 phys: nat, max: nat)
    requires Start(m, d, e, t, chunk, kernelChunk, phys, max) && SameOutside(m, m1, {t as nat})
    requires SourceApart(m, d, virt, max, t)
    requires m2 == SetEntry(m1, d, t, t * 4096 + MAP_FLAGS)
    ensures WordAt(m2, chunk) == d * 4096 && Tree(m2, d)
    ensures Writable(m2, d, t * 4096, max, {t as nat}) && Readable(m2, d, virt, max, {t as nat})
    ensures Strncpied(BytesFrom(m2, d, virt, max)) == Strncpied(BytesFrom(m, d, virt, max))
  {
    hide Tree, Footprint, DirectoryPresent, AllToSelf, WordAt, RangePages, SetEntry, Flat, SourceApart, Readable;
    hide MappedToSelf, BytesFrom, SameOutside, Strncpied;
    StartFrame(m, m1, d, e, t, chunk, kernelChunk, phys, max);
    SetEntryFlat(m1, d, t, t * 4096 + MAP_FLAGS);
    SameFootprint(m1, m2, d);
    TablesInFootprint(m1, d);
    WordSame(m1, m2, chunk, TablePages(m1, d));
    TmpMapped(m1, d, t, max);
    TmpRange(t, max);
    SourceRead(m, m1, d, t, virt, max);
  }

  lemma TablesInFootprint(m: Ram, d: Page)
    ensures TablePages(m, d) <= Footprint(m, d)
  {
  }

  /** The string s is in the buffer and the old entry is back: only the buffer's page
      differs from the start. */
  lemma PutBackIn(m: Ram, m1: Ram, m3: Ram, m4: Ram, d: Page, e: Page, t: Page, chunk: nat, kernelChunk: nat,
                  phys: nat, max: nat, s: seq<Byte>)
    requires Start(m, d, e, t, chunk, kernelChunk, phys, max) && SameOutside(m, m1, {t as nat}) && |s| == max
    requires m3 == Splice(SetEntry(m1, d, t, t * 4096 + MAP_FLAGS), t * 4096, s)
    requires m4 == SetEntry(m3, d, t, EntryFor(m1, d, t))
    ensures WordAt(m3, kernelChunk) == e * 4096
    ensures SameOutside(m, m4, {t as nat}) && Bytes(m4, t * 4096, max) == s
  {
    hide Tree, Footprint, DirectoryPresent, AllToSelf, WordAt, RangePages, SetEntry, Flat, SameOutside, Splice;
    hide EntryFor;
    var v := t * 4096 + MAP_FLAGS;
    var m2 := SetEntry(m1, d, t, v);
    StartFrame(m, m1, d, e, t, chunk, kernelChunk, phys, max);
    SetEntryFlat(m1, d, t, v);
    TablesInFootprint(m1, d);
    WordSame(m1, m2, kernelChunk, TablePages(m1, d));
    TmpRange(t, max);
    SpliceOutside(m2, t * 4096, s, {t as nat});
    WordSame(m2, m3, kernelChunk, {t as nat});
    Restored(m1, m3, d, t, v);
    OutsideWiden(m, m1, m4, {t as nat}, {t as nat}, {t as nat});
    BufferKept(m1, m2, m3, m4, d, t, s);
  }

  lemma BufferKept(m1: Ram, m2: Ram, m3: Ram, m4: Ram, d: Page, t: Page, s: seq<Byte>)
    requires Tree(m1, d) && t !in Footprint(m1, d) && |s| < PAGE
    requires m2 == SetEntry(m1, d, t, t * 4096 + MAP_FLAGS) && m3 == Splice(m2, t * 4096, s)
    requires m4 == SetEntry(m3, d, t, EntryFor(m1, d, t))
    ensures Bytes(m4, t * 4096, |s|) == s
  {
    hide Tree, SetEntry, WordAt, EntryFor, TablePages;
    SetEntryFlat(m1, d, t, t * 4096 + MAP_FLAGS);
    SameFootprint(m1, m2, d);
    SpliceOutside(m2, t * 4096, s, {t as nat});
    TreeFrame(m2, m3, d, {t as nat});
    SetEntryFlat(m3, d, t, EntryFor(m1, d, t));
    OutsideIsSame(m3, m4, TablePages(m3, d), t);
    forall i | 0 <= i < |s| ensures m4[t * 4096 + i] == s[i] {
      assert m4[t * 4096 + i] == m3[t * 4096 + i];
    }
  }

  /** From the buffer to the destination, under the kernel's directory. */
  lemma CopyOutReady(m: Ram, m4: Ram, d: Page, e: Page, t: Page, chunk: nat, kernelChunk: nat, phys: nat, max: nat,
                     s: seq<Byte>)
    requires Start(m, d, e, t, chunk, kernelChunk, phys, max) && SameOutside(m, m4, {t as nat})
    requires |s| == max && Bytes(m4, t * 4096, max) == s
    ensures Writable(m4, e, phys, max, RangePages(phys, max))
    ensures BytesFrom(m4, e, t * 4096, max) == s && Readable(m4, e, t * 4096, max, RangePages(phys, max))
  {
    hide Tree, Footprint, DirectoryPresent, WordAt, RangePages, SameOutside, Translate, Bytes;
    AllToSelfFrame(m, m4, e, {t as nat});
    SelfMapped(m4, e, phys, max);
    SelfMapped(m4, e, t * 4096, max);
    forall i {:trigger BytesFrom(m4, e, t * 4096, max)[i]} | 0 <= i < max
      ensures FrameOutside(m4, e, (t * 4096 + i) % 0x1_0000_0000, RangePages(phys, max))
    {
      InPage(t, i);
      assert Translate(m4, e, t * 4096 + i) == Some(t * 4096 + i);
    }
  }

  lemma InPage(t: Page, i: nat)
    requires i < PAGE
    ensures (t * 4096 + i) % 0x1_0000_0000 == t * 4096 + i && PageOf(t * 4096 + i) == t
  {
  }

  lemma CopyDone(m: Ram, m4: Ram, m5: Ram, d: Page, e: Page, t: Page, chunk: nat, kernelChunk: nat, phys: nat,
                 max: nat, s: seq<Byte>)
    requires Start(m, d, e, t, chunk, kernelChunk, phys, max) && SameOutside(m, m4, {t as nat})
    requires |s| == max && m5 == Splice(m4, phys, s)
    ensures Flat(m5, d) == Flat(m, d) && Copied(m, m5, t, phys, s)
  {
    hide Tree, Footprint, DirectoryPresent, AllToSelf, WordAt, RangePages, Flat, Splice;
    StartFrame(m, m4, d, e, t, chunk, kernelChunk, phys, max);
    SpliceOutside(m4, phys, s, RangePages(phys, max));
    TreeFrame(m4, m5, d, RangePages(phys, max));
  }

  /** copy_string_from_task */
  method CopyStringFromTask(k: Machine, chunk: nat, kernelChunk: nat, virt: nat, phys: nat, max: nat) returns (r: int)
    requires k.Valid() && CopyReady(k.HeapNow(), k.ram, chunk, kernelChunk, virt, phys, max)
    modifies k, k.heap, k.heap.entries
    ensures k.Valid() && k.HeapNow() == old(k.HeapNow())
    ensures r == if max >= PAGE then -EINVARG else if TmpBlock(old(k.HeapNow()), max) < 0 then -ENOMEM else 0
    ensures r != 0 ==> k.ram == old(k.ram) && k.currentDirectory == old(k.currentDirectory)
    ensures r == 0 ==> k.currentDirectory == DirectoryOf(old(k.ram), kernelChunk) * 4096
    ensures r == 0 ==> Flat(k.ram, DirectoryOf(old(k.ram), chunk)) == Flat(old(k.ram), DirectoryOf(old(k.ram), chunk))
    ensures r == 0 ==> Copied(old(k.ram), k.ram, BlockPage(TmpBlock(old(k.HeapNow()), max)), phys,
      Strncpied(BytesFrom(old(k.ram), DirectoryOf(old(k.ram), chunk), virt, max)))
  {
    hide Tree, Chunk, ChunkPages, Footprint, SourceApart, DirectoryPresent, AllToSelf, SetEntry, Flat, Splice;
    hide FreePage, Copied, Or;
    hide SameOutside, WordAt, MallocBlocks, Free, RangePages, Writable, Readable, Strncpied, BytesFrom, EntryFor, Inv;
    hide Freeable, IsFree, StartAddress, BlockAddress, TmpBlock, Start, CopyReady;
    ghost var h, m := k.HeapNow(), k.ram;
    if max >= PAGE {
      return -EINVARG;
    }
    var tmp := k.Kzalloc(max);
    TmpIs(h, max);
    NullIsNone(TmpBlock(h, max));
    if tmp == 0 {
      FailedUnchanged(h, H.BlocksFor(max));
      return -ENOMEM;
    }
    ReadyStart(h, m, chunk, kernelChunk, virt, phys, max);
    ghost var t: Page, d, e := BlockPage(TmpBlock(h, max)), DirectoryOf(m, chunk), DirectoryOf(m, kernelChunk);
    ghost var m1 := k.ram;
    TmpBlockFacts(h, max);
    BlockIsPage(TmpBlock(h, max));
    ZeroedBlock(m, TmpBlock(h, max), max);
    StartWord(m, m1, d, e, t, chunk, kernelChunk, phys, max);
    var taskDirectory := WordAt(k.ram, chunk);
    var oldEntry := PagingGet(k, taskDirectory, tmp);
    OrFlags(tmp, MAP_FLAGS);
    r := PagingMap(k, taskDirectory, tmp, tmp, MAP_FLAGS);
    ghost var m2 := k.ram;
    MappedIn(m, m1, m2, d, e, t, chunk, kernelChunk, virt, phys, max);
    PagingSwitch(k, chunk);
    Strncpy(k, tmp, virt, max, d, {t as nat});
    ghost var m3 := k.ram;
    ghost var s := Strncpied(BytesFrom(m, d, virt, max));
    PutBackIn(m, m1, m3, SetEntry(m3, d, t, oldEntry), d, e, t, chunk, kernelChunk, phys, max, s);
    PagingSwitch(k, kernelChunk);
    r := PagingSet(k, taskDirectory, tmp, oldEntry);
    if r < 0 {
      r := -EIO;
    } else {
      ghost var m4 := k.ram;
      CopyOutReady(m, m4, d, e, t, chunk, kernelChunk, phys, max, s);
      StrncpiedTwice(BytesFrom(m, d, virt, max));
      Strncpy(k, phys, tmp, max, e, RangePages(phys, max));
      CopyDone(m, m4, k.ram, d, e, t, chunk, kernelChunk, phys, max, s);
    }
    k.Kfree(tmp);
  }

  lemma TmpIs(h: HeapState, max: nat)
    requires max < LIMIT
    ensures TmpBlock(h, max) == MallocBlocks(h, H.BlocksFor(max)).1
  {
  }

  lemma NullIsNone(start: int)
    ensures StartAddress(start) == 0 <==> start < 0
    ensures start >= 0 ==> StartAddress(start) == BlockAddress(start)
  {
  }

  lemma FailedUnchanged(h: HeapState, n: nat)
    requires MallocBlocks(h, n).1 < 0
    ensures MallocBlocks(h, n).0 == h && MallocBlocks(h, n).1 == -ENOMEM
  {
  }
}
