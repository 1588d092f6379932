/** What a process may do with its addresses: presence and access rights from the bits of
    the directory and table entries (Intel SDM, Volume 3A, sections 4.3 and 4.6). */
module Access {
  import opened Memory
  import opened Wrappers
  import opened HeapSpec
  import opened PageTables
  import opened Machine
  import opened Paging
  import opened TaskCopy
  import opened AddressSpace
  import opened Process
  import Bits
  import H = Heap

  predicate Present(entry: Word) { entry % 2 == 1 }

  predicate Writable(entry: Word) { entry / 2 % 2 == 1 }

  predicate ForUser(entry: Word) { entry / 4 % 2 == 1 }

  /** Address of a word of a page. */
  function WordPlace(p: nat, i: nat): (a: nat)
    requires p < 0x10_0000 && i < 1024
    ensures a + 4 <= LIMIT
  {
    p * 4096 + i * 4
  }

  /** The entries that the processor goes by: bits 31 to 22 of the address select the word
      of the directory, bits 21 to 12 the word of the table. */
  function DirectoryWord(m: Ram, d: Page, a: nat): Word
    requires a < LIMIT
  {
    WordAt(m, WordPlace(d, a / 0x40_0000))
  }

  function TableWord(m: Ram, d: Page, a: nat): Word
    requires a < LIMIT
  {
    WordAt(m, WordPlace(DirectoryWord(m, d, a) / 4096, a / 0x1000 % 0x400))
  }

  predicate UserReads(m: Ram, d: Page, a: nat)
    requires a < LIMIT
  {
    && Present(DirectoryWord(m, d, a)) && Present(TableWord(m, d, a))
    && ForUser(DirectoryWord(m, d, a)) && ForUser(TableWord(m, d, a))
  }

  predicate UserWrites(m: Ram, d: Page, a: nat)
    requires a < LIMIT
  {
    UserReads(m, d, a) && Writable(DirectoryWord(m, d, a)) && Writable(TableWord(m, d, a))
  }

  /** The physical address by these words. */
  function Linear(m: Ram, d: Page, a: nat): Option<nat>
    requires a < LIMIT
  {
    if Present(DirectoryWord(m, d, a)) && Present(TableWord(m, d, a))
    then Some(TableWord(m, d, a) / 4096 * 4096 + a % 4096) else None
  }

  lemma Indexes(a: nat)
    requires a < LIMIT
    ensures a / 4096 / 1024 == a / 0x40_0000 < 1024 && a / 4096 % 1024 == a / 0x1000 % 0x400
  {
  }

  lemma WordsAre(m: Ram, d: Page, a: nat)
    requires a < LIMIT
    ensures DirectoryWord(m, d, a) == SlotAt(m, d, a / 4096 / 1024) && TableWord(m, d, a) == EntryFor(m, d, a / 4096)
  {
    hide WordAt;
    Indexes(a);
  }

  /** The translation used throughout is that of the processor. */
  lemma TranslateExact(m: Ram, d: Page, a: nat)
    requires a < LIMIT
    ensures Translate(m, d, a) == Linear(m, d, a)
  {
    hide DirectoryWord, TableWord, SlotAt, EntryFor;
    WordsAre(m, d, a);
  }

  lemma OpenBits(w: Word)
    requires w % 8 == 7
    ensures Present(w) && Writable(w) && ForUser(w)
  {
    var q := w / 8;
    assert w == 8 * q + 7 && w / 2 == 4 * q + 3 && w / 4 == 2 * q + 1;
  }

  /** The bits of an entry that is a frame and flags. */
  lemma FrameBits(w: Word, frame: nat, flags: nat)
    requires w == frame * 4096 + flags && flags < 8
    ensures Present(w) <==> flags % 2 == 1
    ensures Writable(w) <==> flags / 2 % 2 == 1
    ensures ForUser(w) <==> flags / 4 == 1
  {
    LowThree(w, 512 * frame, flags);
  }

  lemma LowThree(w: nat, q: nat, flags: nat)
    requires w == 8 * q + flags && flags < 8
    ensures w % 2 == flags % 2 && w / 2 % 2 == flags / 2 % 2 && w / 4 % 2 == flags / 4
  {
    var f1, f2 := flags / 2, flags / 4;
    assert f1 == 2 * f2 + f1 % 2;
    Bits.DivModUnique(w, 2, 4 * q + f1, flags % 2);
    Bits.DivModUnique(w / 2, 2, 2 * q + f2, f1 % 2);
    Bits.DivModUnique(w, 4, 2 * q + f2, flags % 4);
    Bits.DivModUnique(w / 4, 2, q, f2);
  }

  /** The entry of page p in the map of a process: own pages have flags 7, others 5. */
  lemma EntryParts(h: HeapState, m: Ram, x: Loaded, p: Page) returns (frame: nat)
    requires InMemory(h, m, x)
    ensures EntryFor(m, DirectoryOf(m, x.chunk), p) == frame * 4096 + (if OwnEntry(x, p) then 7 else 5)
  {
    hide Chunk, ChunkPages, DirectoryOpen, ProcessMap, EntryFor, Bytes, H.BlocksFor;
    var d, n := DirectoryOf(m, x.chunk), H.BlocksFor(|x.file|);
    H.BlocksForExact(|x.file|);
    assert EntryFor(m, d, p) == Flat(m, d)[p];
    ProcessMapAt(BlockPage(x.program), n, BlockPage(x.stack), p);
    frame := if 1024 <= p < 1024 + n then BlockPage(x.program) + (p - 1024)
             else if 1019 <= p < 1023 then BlockPage(x.stack) + (p - 1019) else p;
  }

  predicate OwnEntry(x: Loaded, p: nat)
    requires |x.file| < LIMIT
  {
    1024 <= p < 1024 + H.BlocksFor(|x.file|) || 1019 <= p < 1023
  }

  lemma EntryBits(h: HeapState, m: Ram, x: Loaded, a: nat)
    requires InMemory(h, m, x) && a < LIMIT
    ensures var w := TableWord(m, DirectoryOf(m, x.chunk), a);
      Present(w) && ForUser(w) && (Writable(w) <==> OwnEntry(x, a / 4096))
  {
    hide InMemory, DirectoryOf, EntryFor, TableWord, OwnEntry, Present, Writable, ForUser;
    LoadedBounds(h, m, x);
    WordsAre(m, DirectoryOf(m, x.chunk), a);
    var frame := EntryParts(h, m, x, a / 4096);
    var w := EntryFor(m, DirectoryOf(m, x.chunk), a / 4096);
    if OwnEntry(x, a / 4096) { FrameBits(w, frame, 7); } else { FrameBits(w, frame, 5); }
  }

  /** The page of the address holds a byte of the program from 0x400000 on, or one of the
      16384 bytes of stack below 0x3FF000. */
  predicate OwnPage(x: Loaded, a: nat) {
    || (0x40_0000 <= a && (a - 0x40_0000) / 4096 * 4096 < |x.file|)
    || 0x3F_F000 - 16384 <= a < 0x3F_F000
  }

  lemma OwnPageIs(x: Loaded, a: nat)
    requires 0 < |x.file| <= HEAP_BLOCKS * 4096
    ensures OwnPage(x, a) <==> OwnEntry(x, a / 4096)
  {
    var n, size := H.BlocksFor(|x.file|), |x.file|;
    H.BlocksForExact(size);
    if a >= 0x40_0000 {
      var q := (a - 0x40_0000) / 4096;
      assert a / 4096 == 1024 + q;
      FewerBlocks(q, n, size);
    }
  }

  lemma FewerBlocks(q: nat, n: nat, size: nat)
    requires n >= 1 && size <= n * 4096 && (n - 1) * 4096 < size
    ensures q < n <==> q * 4096 < size
  {
  }

  /** A process may read every address. It may write an address exactly if its page is one
      of its program or of its stack. */
  lemma UserAccess(h: HeapState, m: Ram, x: Loaded, a: nat)
    requires InMemory(h, m, x) && a < LIMIT
    ensures UserReads(m, DirectoryOf(m, x.chunk), a)
    ensures UserWrites(m, DirectoryOf(m, x.chunk), a) <==> OwnPage(x, a)
  {
    hide Chunk, ChunkPages, ProcessMap, TableWord, DirectoryWord, Bytes, H.BlocksFor, Present, Writable, ForUser, Flat;
    hide SlotAt, OwnPage, OwnEntry;
    var d := DirectoryOf(m, x.chunk);
    WordsAre(m, d, a);
    OpenBits(SlotAt(m, d, a / 4096 / 1024));
    EntryBits(h, m, x, a);
    OwnPageIs(x, a);
  }

  /** Those pages are the pages of its own addresses. */
  lemma OwnPages(x: Loaded, a: nat)
    requires |x.file| > 0
    ensures OwnPage(x, a) <==> exists b :: Own(x, b) && PageOf(b) == PageOf(a)
  {
    if OwnPage(x, a) {
      var b := if 0x40_0000 <= a then 0x40_0000 + (a - 0x40_0000) / 4096 * 4096 else a;
      if 0x40_0000 <= a { SameStart(a); }
      assert Own(x, b) && PageOf(b) == PageOf(a);
    }
    if b :| Own(x, b) && PageOf(b) == PageOf(a) {
      SamePages(a, b);
    }
  }

  lemma SameStart(a: nat)
    requires 0x40_0000 <= a
    ensures PageOf(0x40_0000 + (a - 0x40_0000) / 4096 * 4096) == PageOf(a)
  {
  }

  lemma SamePages(a: nat, b: nat)
    requires PageOf(a) == PageOf(b)
    ensures 0x40_0000 <= a <==> 0x40_0000 <= b
    ensures 0x40_0000 <= a ==> (a - 0x40_0000) / 4096 == (b - 0x40_0000) / 4096
    ensures 0x3F_B000 <= a < 0x3F_F000 <==> 0x3F_B000 <= b < 0x3F_F000
  {
  }

  /** In any state that the loads reach this holds of every process. */
  lemma LoadedAccess(table: ProcessTable, h: HeapState, m: Ram, i: nat, a: nat)
    requires table.Holds(h, m) && i in table.loaded && a < LIMIT
    ensures table.loaded[i].chunk + 4 <= LIMIT
    ensures UserReads(m, DirectoryOf(m, table.loaded[i].chunk), a)
    ensures UserWrites(m, DirectoryOf(m, table.loaded[i].chunk), a) <==> OwnPage(table.loaded[i], a)
  {
    hide InMemory, UserReads, UserWrites, DirectoryOf, OwnPage;
    LoadedBounds(h, m, table.loaded[i]);
    UserAccess(h, m, table.loaded[i], a);
  }

  /** While a string is copied, the temporary page is open to reading and writing. */
  lemma TmpAccess(m: Ram, d: Page, t: Page, i: nat)
    requires Tree(m, d) && DirectoryOpen(m, d) && i < 4096
    ensures t * 4096 + i < LIMIT && UserWrites(SetEntry(m, d, t, t * 4096 + MAP_FLAGS), d, t * 4096 + i)
  {
    hide Tree, SetEntry, DirectoryWord, TableWord, EntryFor, SlotAt, Flat, Present, Writable, ForUser;
    var m', a := SetEntry(m, d, t, t * 4096 + MAP_FLAGS), t * 4096 + i;
    SetEntryFlat(m, d, t, t * 4096 + MAP_FLAGS);
    OpenFrame(m, m', d);
    InTmpPage(t, i);
    WordsAre(m', d, a);
    OpenBits(SlotAt(m', d, a / 4096 / 1024));
    assert Flat(m', d)[t] == t * 4096 + MAP_FLAGS;
    FrameBits(EntryFor(m', d, t), t, MAP_FLAGS);
  }

  lemma InTmpPage(t: Page, i: nat)
    requires i < 4096
    ensures (t * 4096 + i) / 4096 == t && t * 4096 + i < LIMIT
  {
  }
}
