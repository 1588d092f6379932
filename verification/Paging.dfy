/** Page-table code of src/mem/paging.c over the machine's memory. */
module Paging {
  import opened Status
  import opened Memory
  import opened Wrappers
  import opened Bits
  import opened HeapSpec
  import opened HeapGrants
  import opened PageTables
  import opened Machine
  import opened Blocks

  const WRITEABLE: nat := 2
  const TABLE_SPAN: nat := 0x40_0000

  // ---- a chunk: the structure that owns a directory ----

  /** Page of the directory that the chunk at address c points to. */
  function DirectoryOf(m: Ram, c: nat): Page
    requires c + 4 <= LIMIT
  {
    WordAt(m, c) / 4096
  }

  ghost function ChunkPages(m: Ram, c: nat): set<nat>
    requires c + 4 <= LIMIT
  {
    {PageOf(c)} + Footprint(m, DirectoryOf(m, c))
  }

  /** The chunk at c is one heap block and its directory and tables are 1025 more. */
  ghost predicate Chunk(h: HeapState, m: Ram, c: nat) {
    && c % 4096 == 0 && c + PAGE <= LIMIT
    && WordAt(m, c) % 4096 == 0
    && Tree(m, DirectoryOf(m, c))
    && PageOf(c) !in Footprint(m, DirectoryOf(m, c))
    && forall p :: p in ChunkPages(m, c) ==> OneBlock(h, p)
  }

  /** Page p is the block of a live one-block allocation. */
  ghost predicate OneBlock(h: HeapState, p: nat) {
    HeapPage(p) && (p - HEAP_PAGE) in h.live && h.live[p - HEAP_PAGE] == 1
  }

  /** The heap blocks that the pages ps are. */
  ghost function BlocksOf(ps: set<nat>): set<nat> {
    set b: nat | b < HEAP_BLOCKS && BlockPage(b) in ps
  }

  lemma BlocksOfMore(ps: set<nat>, b: nat)
    requires b < HEAP_BLOCKS
    ensures BlocksOf(ps + {BlockPage(b)}) == BlocksOf(ps) + {b}
  {
  }

  /** A chunk's structures are untouched by writes to other pages. */
  lemma ChunkFrame(h: HeapState, m: Ram, h': HeapState, m': Ram, c: nat, ps: set<nat>)
    requires Chunk(h, m, c) && SameOutside(m, m', ps) && ps !! ChunkPages(m, c)
    requires forall b :: b in h.live && h.live[b] == 1 ==> b in h'.live && h'.live[b] == 1
    ensures Chunk(h', m', c) && ChunkPages(m', c) == ChunkPages(m, c)
    ensures DirectoryOf(m', c) == DirectoryOf(m, c)
    ensures Flat(m', DirectoryOf(m, c)) == Flat(m, DirectoryOf(m, c))
    ensures SameDirectory(m, m', DirectoryOf(m, c))
  {
    assert PageOf(c) in ChunkPages(m, c);
    OutsideIsSame(m, m', ps, PageOf(c));
    SamePageSlot(m, m', PageOf(c), 0);
    assert Slot(PageOf(c), 0) == c;
    TreeFrame(m, m', DirectoryOf(m, c), ps);
  }

  // ---- building and freeing an address space ----

  /** One table of the loop in paging_new_4gb: entry b is (offset + b * 4096) | flags. */
  method FillTable(k: Machine, t: Page, offset: nat, flags: nat)
    requires flags < 256 && offset % 4096 == 0 && offset + TABLE_SPAN <= LIMIT
    modifies k`ram
    ensures TableFilled(k.ram, t, offset, flags)
    ensures SameOutside(old(k.ram), k.ram, {t})
  {
    hide SlotAt, PutSlot, SameOutside, Or;
    OutsideSame(k.ram);
    OutsideWiden(k.ram, k.ram, k.ram, {}, {}, {t as nat});
    for b := 0 to SLOTS
      invariant forall j :: 0 <= j < b ==> SlotAt(k.ram, t, j) == offset + j * 4096 + flags
      invariant SameOutside(old(k.ram), k.ram, {t})
    {
      ghost var m := k.ram;
      OrFlags(offset + b * 4096, flags);
      k.ram := PutSlot(k.ram, t, b, Or(offset + b * 4096, flags));
      FillStep(m, t, offset, flags, b, offset + b * 4096 + flags);
      OutsideWiden(old(k.ram), m, k.ram, {t as nat}, {t as nat}, {t as nat});
    }
  }

  lemma FillStep(m: Ram, t: Page, offset: nat, flags: nat, b: nat, v: Word)
    requires b < SLOTS && v == offset + b * 4096 + flags
    requires forall j :: 0 <= j < b ==> SlotAt(m, t, j) == offset + j * 4096 + flags
    ensures forall j :: 0 <= j <= b ==> SlotAt(PutSlot(m, t, b, v), t, j) == offset + j * 4096 + flags
    ensures SameOutside(m, PutSlot(m, t, b, v), {t as nat})
  {
    hide SlotAt, PutSlot, SameOutside;
    PutSlotOutside(m, t, b, v);
    forall j | 0 <= j <= b ensures SlotAt(PutSlot(m, t, b, v), t, j) == offset + j * 4096 + flags {
      SlotAfterPut(m, t, b, v, t, j);
    }
  }

  /** The address space that paging_new_4gb builds is the identity, entry by entry. */
  ghost predicate Identity(m: Ram, d: Page, flags: nat) {
    forall p: nat :: p < PAGES ==> EntryFor(m, d, p) == p * 4096 + flags
  }

  ghost predicate DirectoryFlags(m: Ram, d: Page, flags: nat) {
    forall i :: 0 <= i < SLOTS ==> SlotAt(m, d, i) % 4096 == Or(flags, WRITEABLE)
  }

  ghost predicate TableFilled(m: Ram, t: Page, offset: nat, flags: nat) {
    forall b :: 0 <= b < SLOTS ==> SlotAt(m, t, b) == offset + b * 4096 + flags
  }

  ghost function PagesOf(bs: set<nat>): (r: set<nat>)
    ensures forall p :: p in r <==> p >= HEAP_PAGE && p - HEAP_PAGE in bs
  {
    var r := set b | b in bs :: BlockPage(b);
    assert forall p: nat :: p >= HEAP_PAGE && p - HEAP_PAGE in bs ==> p in r by {
      forall p: nat | p >= HEAP_PAGE && p - HEAP_PAGE in bs ensures p in r {
        assert p == BlockPage(p - HEAP_PAGE);
      }
    }
    r
  }

  ghost function Elems(s: seq<nat>): (r: set<nat>)
    ensures forall x :: x in r <==> x in s
  {
    set x | x in s
  }

  /** Progress of paging_new_4gb in the heap: directory block db and table blocks tp are taken. */
  ghost predicate Taken(h0: HeapState, h: HeapState, db: nat, tp: seq<nat>) {
    var bs := {db} + Elems(tp);
    && |h0.table| == HEAP_BLOCKS
    && bs <= FreeSet(h0.table) && |bs| == |tp| + 1
    && h == Take(h0, bs)
    && db !in tp && Distinct(tp)
  }

  /** Progress in memory: the first |tp| tables are filled and entered in the directory. */
  ghost predicate Entered(m: Ram, d: Page, tp: seq<nat>, flags: nat) {
    && |tp| <= SLOTS && (forall j :: 0 <= j < |tp| ==> tp[j] < HEAP_BLOCKS)
    && (forall j :: 0 <= j < |tp| ==> SlotAt(m, d, j) == BlockPage(tp[j]) * 4096 + Or(flags, WRITEABLE))
    && (forall j :: 0 <= j < |tp| ==> TableFilled(m, BlockPage(tp[j]), j * 0x40_0000, flags))
  }

  lemma NoneDistinct()
    ensures Distinct<nat>([])
  {
  }

  lemma AppendDistinct(s: seq<nat>, b: nat)
    requires Distinct(s) && b !in s
    ensures Distinct(s + [b]) && Elems(s + [b]) == Elems(s) + {b}
  {
  }

  lemma TakenStep(h0: HeapState, h: HeapState, db: nat, tp: seq<nat>, b: nat)
    requires Taken(h0, h, db, tp) && b in FreeSet(h.table)
    ensures Taken(h0, Take(h, {b}), db, tp + [b]) && b != db && b !in tp
    ensures {db} + Elems(tp + [b]) == {db} + Elems(tp) + {b}
  {
    hide Take, FreeSet, Inv, Distinct, Elems;
    var bs := {db} + Elems(tp);
    assert b in FreeSet(h0.table) && b !in bs by { FreeAfterTake(h0, bs); }
    AppendDistinct(tp, b);
    TakeLength(h0, bs);
    assert {db} + Elems(tp + [b]) == bs + {b};
    assert Take(h, {b}) == Take(h0, bs + {b}) by { TakeMore(h0, bs, b); }
  }

  /** Writing in other pages keeps what is entered. */
  lemma EnteredFrame(m: Ram, m': Ram, d: Page, tp: seq<nat>, flags: nat, b: nat)
    requires Entered(m, d, tp, flags) && SameOutside(m, m', {BlockPage(b)})
    requires b !in tp && BlockPage(b) != d
    ensures Entered(m', d, tp, flags)
  {
    OutsideIsSame(m, m', {BlockPage(b)}, d);
    forall j | 0 <= j < |tp|
      ensures SlotAt(m', d, j) == SlotAt(m, d, j) && TableFilled(m', BlockPage(tp[j]), j * 0x40_0000, flags)
    {
      SamePageSlot(m, m', d, j);
      var t := BlockPage(tp[j]);
      OutsideIsSame(m, m', {BlockPage(b)}, t);
      assert TableFilled(m, t, j * 0x40_0000, flags);
      forall e | 0 <= e < SLOTS ensures SlotAt(m', t, e) == SlotAt(m, t, e) {
        SamePageSlot(m, m', t, e);
      }
    }
  }

  lemma EnteredStep(m: Ram, d: Page, tp: seq<nat>, flags: nat, b: nat, v: Word, m': Ram)
    requires Entered(m, d, tp, flags) && |tp| < SLOTS && b < HEAP_BLOCKS
    requires BlockPage(b) != d && forall j :: 0 <= j < |tp| ==> BlockPage(tp[j]) != d
    requires TableFilled(m, BlockPage(b), |tp| * 0x40_0000, flags) && Or(flags, WRITEABLE) < PAGE
    requires v == BlockPage(b) * 4096 + Or(flags, WRITEABLE) && m' == PutSlot(m, d, |tp|, v)
    ensures Entered(m', d, tp + [b], flags)
  {
    var tp' := tp + [b];
    forall j | 0 <= j <= |tp|
      ensures SlotAt(m', d, j) == BlockPage(tp'[j]) * 4096 + Or(flags, WRITEABLE)
      ensures TableFilled(m', BlockPage(tp'[j]), j * 0x40_0000, flags)
    {
      SlotAfterPut(m, d, |tp|, v, d, j);
      var t := BlockPage(tp'[j]);
      assert TableFilled(m, t, j * 0x40_0000, flags);
      forall e | 0 <= e < SLOTS ensures SlotAt(m', t, e) == SlotAt(m, t, e) {
        SlotAfterPut(m, d, |tp|, v, t, e);
      }
    }
  }

  lemma EnteredAt(m: Ram, d: Page, tp: seq<nat>, flags: nat, j: nat)
    requires Entered(m, d, tp, flags) && j < |tp| && Or(flags, WRITEABLE) < PAGE
    ensures TablePage(m, d, j) == BlockPage(tp[j]) && SlotAt(m, d, j) % 4096 == Or(flags, WRITEABLE)
    ensures TableFilled(m, BlockPage(tp[j]), j * 0x40_0000, flags)
  {
    assert SlotAt(m, d, j) == BlockPage(tp[j]) * 4096 + Or(flags, WRITEABLE);
  }

  lemma EnteredEntry(m: Ram, d: Page, tp: seq<nat>, flags: nat, p: Page)
    requires Entered(m, d, tp, flags) && |tp| == SLOTS && Or(flags, WRITEABLE) < PAGE
    ensures EntryFor(m, d, p) == p * 4096 + flags
  {
    hide Entered, WordAt, Or;
    EnteredAt(m, d, tp, flags, p / 1024);
    assert p == p / 1024 * 1024 + p % 1024;
  }

  /** The finished directory is a tree of its own pages and maps every page to itself. */
  lemma EnteredDone(m: Ram, db: nat, tp: seq<nat>, flags: nat)
    requires db < HEAP_BLOCKS && db !in tp && Distinct(tp)
    requires Entered(m, BlockPage(db), tp, flags) && |tp| == SLOTS && Or(flags, WRITEABLE) < PAGE
    ensures Tree(m, BlockPage(db)) && Identity(m, BlockPage(db), flags) && DirectoryFlags(m, BlockPage(db), flags)
    ensures Footprint(m, BlockPage(db)) == PagesOf({db} + Elems(tp))
  {
    hide Entered, WordAt, Or, Distinct;
    NoneTwice(tp);
    var d := BlockPage(db);
    forall j | 0 <= j < SLOTS
      ensures TablePage(m, d, j) == BlockPage(tp[j]) && SlotAt(m, d, j) % 4096 == Or(flags, WRITEABLE)
    {
      EnteredAt(m, d, tp, flags, j);
    }
    forall p: nat | p < PAGES ensures EntryFor(m, d, p) == p * 4096 + flags {
      EnteredEntry(m, d, tp, flags, p);
    }
    FootprintIs(m, db, tp);
  }

  lemma NoneTwice(tp: seq<nat>)
    requires Distinct(tp)
    ensures forall i, j :: 0 <= i < j < |tp| ==> tp[i] != tp[j]
  {
  }

  lemma FootprintIs(m: Ram, db: nat, tp: seq<nat>)
    requires db < HEAP_BLOCKS && |tp| == SLOTS
    requires forall j :: 0 <= j < SLOTS ==> TablePage(m, BlockPage(db), j) == BlockPage(tp[j])
    ensures Footprint(m, BlockPage(db)) == PagesOf({db} + Elems(tp))
  {
    var d := BlockPage(db);
    forall b | b in tp ensures BlockPage(b) in Footprint(m, d) {
      var j :| 0 <= j < |tp| && tp[j] == b;
      assert TablePage(m, d, j) == BlockPage(b);
    }
    forall p | p in PagesOf({db} + Elems(tp)) ensures p in Footprint(m, d) {
      var b: nat := p - HEAP_PAGE;
      assert p == BlockPage(b);
    }
  }

  lemma OutsideSame(m: Ram)
    ensures SameOutside(m, m, {})
  {
  }

  lemma OutsideWiden(m: Ram, m1: Ram, m2: Ram, ps: set<nat>, qs: set<nat>, all: set<nat>)
    requires SameOutside(m, m1, ps) && SameOutside(m1, m2, qs) && ps + qs <= all
    ensures SameOutside(m, m2, all)
  {
  }

  lemma EntryFlags(flags: nat)
    requires flags < 256
    ensures Or(flags, WRITEABLE) < 256 && Or(flags, WRITEABLE) % 2 == flags % 2
  {
    Pow2Values();
    OrBound(flags, WRITEABLE, 8);
    OrOdd(flags, WRITEABLE);
  }

  lemma OrChain(a: nat, flags: nat)
    requires a < LIMIT && a % 4096 == 0 && flags < 256
    ensures Or(Or(a, flags), WRITEABLE) == a + Or(flags, WRITEABLE)
  {
    EntryFlags(flags);
    OrAssociates(a, flags, WRITEABLE);
    OrFlags(a, Or(flags, WRITEABLE));
  }

  lemma SpanFacts(i: nat)
    requires i < SLOTS
    ensures i * 0x40_0000 % 4096 == 0 && i * 0x40_0000 + TABLE_SPAN == (i + 1) * 0x40_0000 <= LIMIT
    ensures (i + 1) * 0x40_0000 == LIMIT <==> i + 1 == SLOTS
  {
    assert i * 0x40_0000 == 4096 * (i * 1024);
  }

  lemma OffsetStep(i: nat)
    requires i < SLOTS
    ensures (i * 0x40_0000 + TABLE_SPAN) % 0x1_0000_0000 == if i + 1 == SLOTS then 0 else (i + 1) * 0x40_0000
  {
    SpanFacts(i);
  }

  lemma SomeFree(h: HeapState, bs: set<nat>)
    requires bs <= FreeSet(h.table) && |bs| < |FreeSet(h.table)|
    ensures FreeSet(Take(h, bs).table) != {}
  {
    FreeAfterTake(h, bs);
    assert bs + (FreeSet(h.table) - bs) == FreeSet(h.table);
  }

  lemma NotDirectory(h0: HeapState, h: HeapState, db: nat, tp: seq<nat>)
    requires Taken(h0, h, db, tp)
    ensures forall j :: 0 <= j < |tp| ==> BlockPage(tp[j]) != BlockPage(db)
  {
    hide Take, FreeSet, Distinct, Elems;
  }

  /** One pass of the outer loop of paging_new_4gb. */
  method AddTable(k: Machine, d: Page, i: nat, offset: nat, flags: nat, ghost h0: HeapState, ghost db: nat,
                  ghost tp: seq<nat>)
    returns (ghost b: nat)
    requires k.Valid() && flags < 256 && i < SLOTS && offset == i * 0x40_0000
    requires d == BlockPage(db) && |tp| == i && FreeSet(k.HeapNow().table) != {}
    requires Taken(h0, k.HeapNow(), db, tp) && Entered(k.ram, d, tp, flags)
    modifies k`ram, k.heap, k.heap.entries
    ensures k.Valid() && b !in tp && b != db
    ensures Taken(h0, k.HeapNow(), db, tp + [b]) && Entered(k.ram, d, tp + [b], flags)
    ensures SameOutside(old(k.ram), k.ram, {BlockPage(b), d})
  {
    hide Taken, Entered, TableFilled, Take, FreeSet, Elems, SameOutside, Or;
    ghost var h, m := k.HeapNow(), k.ram;
    var entry;
    entry, b := ZallocBlock(k, 1024 * 4);
    TakenStep(h0, h, db, tp, b);
    ghost var m1 := k.ram;
    EnteredFrame(m, m1, d, tp, flags, b);
    SpanFacts(i);
    FillTable(k, entry / 4096, offset, flags);
    ghost var m2 := k.ram;
    assert TableFilled(m2, BlockPage(b), |tp| * 0x40_0000, flags);
    EnteredFrame(m1, m2, d, tp, flags, b);
    OrChain(entry, flags);
    EntryFlags(flags);
    var v: Word := Or(Or(entry, flags), WRITEABLE);
    assert v == BlockPage(b) * 4096 + Or(flags, WRITEABLE);
    k.ram := PutSlot(k.ram, d, i, v);
    NotDirectory(h0, h, db, tp);
    EnteredStep(m2, d, tp, flags, b, v, k.ram);
    PutSlotOutside(m2, d, i, v);
    OutsideWiden(old(k.ram), m1, m2, {BlockPage(b)}, {BlockPage(b)}, {BlockPage(b)});
    OutsideWiden(old(k.ram), m2, k.ram, {BlockPage(b)}, {d as nat}, {BlockPage(b), d});
  }

  /** paging_new_4gb: takes 1026 blocks and builds in them an address space that maps
      every page to itself; nothing else in memory or in the heap changes. */
  method PagingNew4gb(k: Machine, flags: nat) returns (chunk: nat)
    requires k.Valid() && flags < 256
    requires |FreeSet(k.HeapNow().table)| >= SLOTS + 2
    modifies k`ram, k.heap, k.heap.entries
    ensures k.Valid() && chunk + 4 <= LIMIT && Chunk(k.HeapNow(), k.ram, chunk)
    ensures Identity(k.ram, DirectoryOf(k.ram, chunk), flags)
    ensures DirectoryFlags(k.ram, DirectoryOf(k.ram, chunk), flags)
    ensures k.HeapNow() == Take(old(k.HeapNow()), BlocksOf(ChunkPages(k.ram, chunk)))
    ensures BlocksOf(ChunkPages(k.ram, chunk)) <= FreeSet(old(k.HeapNow()).table)
    ensures |BlocksOf(ChunkPages(k.ram, chunk))| == SLOTS + 2
    ensures SameOutside(old(k.ram), k.ram, ChunkPages(k.ram, chunk))
  {
    hide Take, FreeSet, SameOutside, Tree, Chunk, ChunkPages, Identity, DirectoryFlags, Footprint, Or, Building, Inv;
    ghost var h0, m0 := k.HeapNow(), k.ram;
    var directory;
    ghost var db;
    directory, db := NewDirectory(k, flags);
    var d: Page := directory / 4096;
    ghost var tp: seq<nat> := [];
    var offset := 0;
    for i := 0 to SLOTS
      invariant k.Valid() && |tp| == i && Building(h0, m0, k.HeapNow(), k.ram, db, tp, flags)
      invariant offset == if i == SLOTS then 0 else i * 0x40_0000
    {
      tp := NextTable(k, d, i, offset, flags, h0, m0, db, tp);
      OffsetStep(i);
      offset := (offset + TABLE_SPAN) % 0x1_0000_0000;
    }
    DirectoryBuilt(h0, m0, k.HeapNow(), k.ram, db, tp, flags);
    chunk := AddChunk(k, d, flags, h0, m0, {db} + Elems(tp));
  }

  /** Progress of paging_new_4gb, in the heap and in memory. */
  ghost predicate Building(h0: HeapState, m0: Ram, h: HeapState, m: Ram, db: nat, tp: seq<nat>, flags: nat) {
    && db < HEAP_BLOCKS && Taken(h0, h, db, tp) && Entered(m, BlockPage(db), tp, flags)
    && SameOutside(m0, m, PagesOf({db} + Elems(tp)))
  }

  /** The empty directory. */
  method NewDirectory(k: Machine, ghost flags: nat) returns (directory: nat, ghost db: nat)
    requires k.Valid() && FreeSet(k.HeapNow().table) != {}
    modifies k`ram, k.heap, k.heap.entries
    ensures k.Valid() && directory < LIMIT && db < HEAP_BLOCKS && directory / 4096 == BlockPage(db)
    ensures Building(old(k.HeapNow()), old(k.ram), k.HeapNow(), k.ram, db, [], flags)
  {
    hide Take, FreeSet, TableFilled, SameOutside, Or, Distinct, Inv;
    ghost var m0 := k.ram;
    NoneDistinct();
    directory, db := ZallocBlock(k, 1024 * 4);
    assert {db} + Elems([]) == {db};
    OutsideSame(m0);
    OutsideWiden(m0, m0, k.ram, {}, {BlockPage(db)}, PagesOf({db}));
  }

  /** One pass, seen from the start. */
  method NextTable(k: Machine, d: Page, i: nat, offset: nat, flags: nat,
                   ghost h0: HeapState, ghost m0: Ram, ghost db: nat, ghost tp: seq<nat>)
    returns (ghost tp': seq<nat>)
    requires k.Valid() && flags < 256 && i < SLOTS && offset == i * 0x40_0000 && |tp| == i
    requires d == BlockPage(db) && Building(h0, m0, k.HeapNow(), k.ram, db, tp, flags)
    requires |FreeSet(h0.table)| >= SLOTS + 2
    modifies k`ram, k.heap, k.heap.entries
    ensures k.Valid() && |tp'| == i + 1 && Building(h0, m0, k.HeapNow(), k.ram, db, tp', flags)
  {
    hide Take, FreeSet, TableFilled, SameOutside, Or, Distinct, Inv, Entered;
    ghost var m, bs := k.ram, {db} + Elems(tp);
    SomeFree(h0, bs);
    ghost var b := AddTable(k, d, i, offset, flags, h0, db, tp);
    OutsideWiden(m0, m, k.ram, PagesOf(bs), {BlockPage(b), d as nat}, PagesOf({db} + Elems(tp + [b])));
    tp' := tp + [b];
  }

  lemma DirectoryBuilt(h0: HeapState, m0: Ram, h: HeapState, m: Ram, db: nat, tp: seq<nat>, flags: nat)
    requires Building(h0, m0, h, m, db, tp, flags) && |tp| == SLOTS && flags < 256
    ensures var bs, d := {db} + Elems(tp), BlockPage(db);
      && |h0.table| == HEAP_BLOCKS && bs <= FreeSet(h0.table) && |bs| == SLOTS + 1 && h == Take(h0, bs)
      && Tree(m, d) && Identity(m, d, flags) && DirectoryFlags(m, d, flags)
      && Footprint(m, d) == PagesOf(bs) && SameOutside(m0, m, PagesOf(bs))
  {
    hide Take, FreeSet, TableFilled, SameOutside, Tree, Identity, DirectoryFlags, Footprint, Or, Distinct, Entered;
    EntryFlags(flags);
    EnteredDone(m, db, tp, flags);
  }

  /** The end of paging_new_4gb: the chunk that points to the directory. */
  method AddChunk(k: Machine, d: Page, flags: nat, ghost h0: HeapState, ghost m0: Ram, ghost bs: set<nat>)
    returns (chunk: nat)
    requires k.Valid() && Inv(h0) && |h0.table| == HEAP_BLOCKS && bs <= FreeSet(h0.table)
    requires |bs| == SLOTS + 1 < |FreeSet(h0.table)| && k.HeapNow() == Take(h0, bs)
    requires Tree(k.ram, d) && Identity(k.ram, d, flags) && DirectoryFlags(k.ram, d, flags)
    requires Footprint(k.ram, d) == PagesOf(bs) && SameOutside(m0, k.ram, PagesOf(bs))
    modifies k`ram, k.heap, k.heap.entries
    ensures k.Valid() && chunk + 4 <= LIMIT && Chunk(k.HeapNow(), k.ram, chunk)
    ensures Identity(k.ram, DirectoryOf(k.ram, chunk), flags) && DirectoryFlags(k.ram, DirectoryOf(k.ram, chunk), flags)
    ensures k.HeapNow() == Take(h0, BlocksOf(ChunkPages(k.ram, chunk)))
    ensures BlocksOf(ChunkPages(k.ram, chunk)) <= FreeSet(h0.table)
    ensures |BlocksOf(ChunkPages(k.ram, chunk))| == SLOTS + 2
    ensures SameOutside(m0, k.ram, ChunkPages(k.ram, chunk))
  {
    hide SameOutside, Tree, Chunk, ChunkPages, Identity, DirectoryFlags, Footprint, WordAt, Take, FreeSet;
    ghost var m := k.ram;
    SomeFree(h0, bs);
    ghost var c;
    chunk, c := ZallocBlock(k, 4);
    FreeAfterTake(h0, bs);
    ghost var m1 := k.ram;
    k.ram := PutWord(k.ram, chunk, d * 4096);
    assert chunk == Slot(BlockPage(c), 0);
    PutSlotOutside(m1, BlockPage(c), 0, d * 4096);
    WordAfterPut(m1, chunk, d * 4096, chunk);
    OutsideWiden(m, m1, k.ram, {BlockPage(c)}, {BlockPage(c)}, {BlockPage(c)});
    TakeMore(h0, bs, c);
    NewChunk(h0, m0, m, k.ram, bs, d, c, flags);
  }

  lemma IdentityFrame(m: Ram, m': Ram, d: Page, flags: nat, ps: set<nat>)
    requires Tree(m, d) && Identity(m, d, flags) && DirectoryFlags(m, d, flags)
    requires SameOutside(m, m', ps) && ps !! Footprint(m, d)
    ensures Tree(m', d) && Identity(m', d, flags) && DirectoryFlags(m', d, flags)
    ensures Footprint(m', d) == Footprint(m, d)
  {
    TreeFrame(m, m', d, ps);
    forall p: nat | p < PAGES ensures EntryFor(m', d, p) == p * 4096 + flags {
      assert Flat(m', d)[p] == Flat(m, d)[p];
    }
    forall i | 0 <= i < SLOTS ensures SlotAt(m', d, i) % 4096 == Or(flags, WRITEABLE) {
      assert SlotAt(m', d, i) == SlotAt(m, d, i);
    }
  }

  lemma PagesOfMore(bs: set<nat>, c: nat)
    ensures PagesOf(bs + {c}) == PagesOf(bs) + {BlockPage(c)}
    ensures c !in bs ==> BlockPage(c) !in PagesOf(bs)
  {
  }

  lemma NewChunk(h0: HeapState, m0: Ram, m: Ram, m': Ram, bs: set<nat>, d: Page, c: nat, flags: nat)
    requires Inv(h0) && |h0.table| == HEAP_BLOCKS && bs <= FreeSet(h0.table) && |bs| == SLOTS + 1
    requires c in FreeSet(h0.table) && c !in bs
    requires Tree(m, d) && Identity(m, d, flags) && DirectoryFlags(m, d, flags) && Footprint(m, d) == PagesOf(bs)
    requires SameOutside(m0, m, PagesOf(bs)) && SameOutside(m, m', {BlockPage(c)})
    requires WordAt(m', BlockAddress(c)) == d * 4096
    ensures var chunk := BlockAddress(c);
      && Chunk(Take(h0, bs + {c}), m', chunk) && DirectoryOf(m', chunk) == d
      && Identity(m', d, flags) && DirectoryFlags(m', d, flags)
      && BlocksOf(ChunkPages(m', chunk)) == bs + {c}
      && SameOutside(m0, m', ChunkPages(m', chunk))
  {
    hide SameDirectory, Identity, DirectoryFlags, Tree, Footprint, SameOutside, WordAt, FreeSet, Take;
    hide Chunk, ChunkPages, DirectoryOf, PagesOf, BlocksOf, BlockPage, BlockAddress, OneBlock, Inv;
    var chunk := BlockAddress(c);
    TakenAreBlocks(h0, bs + {c});
    BlockIsPage(c);
    PagesOfMore(bs, c);
    IdentityFrame(m, m', d, flags, {BlockPage(c)});
    assert {PageOf(chunk)} + Footprint(m', d) == PagesOf(bs + {c});
    MakeChunk(Take(h0, bs + {c}), m', chunk, d);
    BlocksOfPages(bs + {c});
    OutsideWiden(m0, m, m', PagesOf(bs), {BlockPage(c)}, PagesOf(bs + {c}));
  }

  lemma MakeChunk(h: HeapState, m: Ram, c: nat, d: Page)
    requires c % 4096 == 0 && c + PAGE <= LIMIT && WordAt(m, c) == d * 4096
    requires Tree(m, d) && PageOf(c) !in Footprint(m, d)
    requires forall p :: p in {PageOf(c)} + Footprint(m, d) ==> OneBlock(h, p)
    ensures Chunk(h, m, c) && DirectoryOf(m, c) == d && ChunkPages(m, c) == {PageOf(c)} + Footprint(m, d)
  {
    hide Tree, Footprint, WordAt, OneBlock;
  }

  lemma TakenAreBlocks(h: HeapState, bs: set<nat>)
    requires |h.table| == HEAP_BLOCKS && bs <= FreeSet(h.table)
    ensures forall p :: p in PagesOf(bs) ==> OneBlock(Take(h, bs), p)
    ensures forall b :: b in bs ==> b < HEAP_BLOCKS
  {
  }

  lemma BlocksOfPages(bs: set<nat>)
    requires forall b :: b in bs ==> b < HEAP_BLOCKS
    ensures BlocksOf(PagesOf(bs)) == bs
  {
  }

  /** paging_switch */
  method PagingSwitch(k: Machine, chunk: nat)
    requires chunk + 4 <= LIMIT
    modifies k`currentDirectory
    ensures k.currentDirectory == WordAt(k.ram, chunk)
  {
    k.currentDirectory := WordAt(k.ram, chunk);
  }

  /** The pages of the first n tables of directory d. */
  ghost function TablesTo(m: Ram, d: Page, n: nat): (r: set<nat>)
    requires n <= SLOTS
    ensures forall i :: 0 <= i < n ==> TablePage(m, d, i) in r
    ensures forall p :: p in r ==> exists i :: 0 <= i < n && TablePage(m, d, i) == p
  {
    if n == 0 then {} else TablesTo(m, d, n - 1) + {TablePage(m, d, n - 1) as nat}
  }

  lemma TablesToAll(m: Ram, d: Page)
    ensures TablesTo(m, d, SLOTS) == TablePages(m, d)
  {
    hide TablesTo, TablePage;
    forall p ensures p in TablesTo(m, d, SLOTS) <==> p in TablePages(m, d) {
    }
  }

  lemma ChunkTable(h: HeapState, m: Ram, c: nat, i: nat)
    requires c + 4 <= LIMIT && Chunk(h, m, c) && i < SLOTS
    ensures OneBlock(h, TablePage(m, DirectoryOf(m, c), i))
    ensures TablePage(m, DirectoryOf(m, c), i) !in TablesTo(m, DirectoryOf(m, c), i)
  {
    hide OneBlock;
    var d := DirectoryOf(m, c);
    assert TablePage(m, d, i) in Footprint(m, d);
    forall j | 0 <= j < i ensures TablePage(m, d, j) != TablePage(m, d, i) {
    }
  }

  lemma ChunkRest(h: HeapState, m: Ram, c: nat)
    requires c + 4 <= LIMIT && Chunk(h, m, c)
    ensures var d := DirectoryOf(m, c); var ps := TablesTo(m, d, SLOTS);
      && OneBlock(h, d) && OneBlock(h, PageOf(c)) && d !in ps && PageOf(c) !in ps + {d as nat}
      && ps + {d as nat} + {PageOf(c)} == ChunkPages(m, c)
  {
    hide OneBlock;
    var d := DirectoryOf(m, c);
    TablesToAll(m, d);
    assert d in Footprint(m, d);
  }

  /** kfree of page p, after the blocks of the pages ps of h were freed. */
  method FreeNext(k: Machine, p: Page, ghost h: HeapState, ghost ps: set<nat>)
    requires k.Valid() && Inv(h) && OneBlock(h, p) && p !in ps
    requires k.HeapNow() == Release(h, BlocksOf(ps))
    modifies k.heap, k.heap.entries
    ensures k.Valid() && k.HeapNow() == Release(h, BlocksOf(ps + {p as nat}))
  {
    ghost var b: nat := p - HEAP_PAGE;
    BlocksOfMore(ps, b);
    FreeOne(k.HeapNow(), b);
    ReleaseMore(h, BlocksOf(ps), b);
    PageToBlock(p);
    k.Kfree(p * 4096);
  }

  lemma PageToBlock(p: Page)
    requires HeapPage(p)
    ensures HEAP_ADDRESS <= p * 4096 && (p * 4096 - HEAP_ADDRESS) / 4096 == p - HEAP_PAGE
  {
  }

  lemma TableBaseIs(m: Ram, d: Page, i: nat)
    requires i < SLOTS
    ensures PageBase(SlotAt(m, d, i)) == TablePage(m, d, i) * 4096
  {
    hide PageBase;
    PageBaseIs(SlotAt(m, d, i));
  }

  /** paging_free_4gb: frees exactly the blocks of the chunk. */
  method PagingFree4gb(k: Machine, chunk: nat)
    requires k.Valid() && chunk + 4 <= LIMIT && Chunk(k.HeapNow(), k.ram, chunk)
    modifies k.heap, k.heap.entries
    ensures k.Valid() && k.HeapNow() == Release(old(k.HeapNow()), BlocksOf(ChunkPages(k.ram, chunk)))
  {
    hide Chunk, ChunkPages, Release, Footprint, Tree, BlocksOf, OneBlock, PageBase, SlotAt;
    ghost var h := k.HeapNow();
    var d: Page := WordAt(k.ram, chunk) / 4096;
    ReleaseNothing(h);
    for i := 0 to SLOTS
      invariant k.Valid() && k.HeapNow() == Release(h, BlocksOf(TablesTo(k.ram, d, i)))
    {
      var entry := SlotAt(k.ram, d, i);
      var table := PageBase(entry);
      TableBaseIs(k.ram, d, i);
      ChunkTable(h, k.ram, chunk, i);
      FreeNext(k, table / 4096, h, TablesTo(k.ram, d, i));
    }
    ChunkRest(h, k.ram, chunk);
    FreeNext(k, d, h, TablesTo(k.ram, d, SLOTS));
    FreeNext(k, chunk / 4096, h, TablesTo(k.ram, d, SLOTS) + {d as nat});
  }

  lemma ReleaseNothing(h: HeapState)
    ensures Release(h, BlocksOf({})) == h
  {
    TakeNone(h);
    assert BlocksOf({}) == {};
  }

  // ---- reading and writing entries ----

  function IsAligned(addr: nat): bool { addr % 4096 == 0 }

  /** paging_get_indexes: directory and table index of an aligned address. */
  method PagingGetIndexes(virt: nat, directoryIndex: nat, tableIndex: nat) returns (r: int, di: nat, ti: nat)
    requires virt < LIMIT
    ensures r == if virt % 4096 == 0 then 0 else -EINVARG
    ensures r == 0 ==> di < SLOTS && ti < SLOTS && virt == (di * 1024 + ti) * 4096
    ensures r != 0 ==> di == directoryIndex && ti == tableIndex
  {
    r, di, ti := 0, directoryIndex, tableIndex;
    if !IsAligned(virt) {
      return -EINVARG, di, ti;
    }
    di := virt / (1024 * 4096);
    ti := virt % (1024 * 4096) / 4096;
  }

  /** paging_align_address: the next page boundary, and 0 after the last one. */
  function AlignAddress(ptr: Word): (r: Word)
    ensures r % 4096 == 0
    ensures ptr <= 0xffff_f000 ==> ptr <= r < ptr + PAGE
    ensures ptr > 0xffff_f000 ==> r == 0
  {
    if ptr % 4096 != 0 then (ptr + PAGE - ptr % 4096) % 0x1_0000_0000 else ptr
  }

  /** paging_get; an address that is not aligned reads the entry of page 0. */
  method PagingGet(k: Machine, directory: nat, virt: nat) returns (r: Word)
    requires directory % 4096 == 0 && directory < LIMIT && virt < LIMIT
    ensures r == EntryFor(k.ram, directory / 4096, if virt % 4096 == 0 then virt / 4096 else 0)
  {
    hide PageBase, SlotAt, TablePage;
    var e, di, ti := PagingGetIndexes(virt, 0, 0);
    var entry := SlotAt(k.ram, directory / 4096, di);
    var table := PageBase(entry);
    TableBaseIs(k.ram, directory / 4096, di);
    if virt % 4096 == 0 { IndexOf(virt, di, ti); }
    r := SlotAt(k.ram, table / 4096, ti);
  }

  lemma IndexOf(virt: nat, di: nat, ti: nat)
    requires di < SLOTS && ti < SLOTS && virt == (di * 1024 + ti) * 4096
    ensures virt / 4096 / 1024 == di && virt / 4096 % 1024 == ti
  {
  }

  /** paging_set */
  method PagingSet(k: Machine, directory: nat, virt: nat, val: Word) returns (r: int)
    requires directory % 4096 == 0 && directory < LIMIT && virt < LIMIT
    modifies k`ram
    ensures r == if virt % 4096 == 0 then 0 else -EINVARG
    ensures k.ram == if virt % 4096 == 0 then SetEntry(old(k.ram), directory / 4096, virt / 4096, val) else old(k.ram)
  {
    hide PageBase, WordAt, PutWord;
    if !IsAligned(virt) {
      return -EINVARG;
    }
    var di, ti;
    r, di, ti := PagingGetIndexes(virt, 0, 0);
    if r < 0 {
      return;
    }
    var entry := SlotAt(k.ram, directory / 4096, di);
    var table := PageBase(entry);
    TableBaseIs(k.ram, directory / 4096, di);
    IndexOf(virt, di, ti);
    k.ram := PutSlot(k.ram, table / 4096, ti, val);
    r := 0;
  }

  /** What a successful or refused call leaves of directory d: its map becomes f, its
      own words and everything outside its tables stay. */
  ghost predicate Remapped(m: Ram, m': Ram, d: Page, f: seq<Word>) {
    && Tree(m', d) && Flat(m', d) == f && SameDirectory(m, m', d)
    && TablePages(m', d) == TablePages(m, d) && SameOutside(m, m', TablePages(m, d))
  }

  lemma RemappedNone(m: Ram, d: Page)
    requires Tree(m, d)
    ensures Remapped(m, m, d, Flat(m, d))
  {
  }

  lemma RemappedMore(m: Ram, m': Ram, d: Page, f: seq<Word>, p: Page, v: Word)
    requires Remapped(m, m', d, f)
    ensures Remapped(m, SetEntry(m', d, p, v), d, f[p := v])
  {
    hide Tree, SetEntry, TablePages, SlotAt;
    SetEntryFlat(m', d, p, v);
  }

  /** paging_map; flags is the bit pattern of the int. */
  method PagingMap(k: Machine, directory: nat, virt: nat, phys: nat, flags: Word) returns (r: int)
    requires directory % 4096 == 0 && directory < LIMIT && virt < LIMIT && phys < LIMIT
    modifies k`ram
    ensures r == if virt % 4096 == 0 && phys % 4096 == 0 then 0 else -EINVARG
    ensures r == 0 ==> k.ram == SetEntry(old(k.ram), directory / 4096, virt / 4096, FrameEntry(phys / 4096, flags))
    ensures r != 0 ==> k.ram == old(k.ram)
  {
    hide SetEntry, Or;
    if virt % 4096 != 0 || phys % 4096 != 0 {
      return -EINVARG;
    }
    OrWord(phys, flags);
    assert phys / 4096 * 4096 == phys;
    r := PagingSet(k, directory, virt, Or(phys, flags));
  }

  /** paging_map_range; the addresses wrap at 2^32. */
  method PagingMapRange(k: Machine, directory: nat, virt: nat, phys: nat, count: int, flags: Word) returns (r: int)
    requires directory % 4096 == 0 && directory < LIMIT && virt < LIMIT && phys < LIMIT
    requires Tree(k.ram, directory / 4096)
    modifies k`ram
    ensures r == if count <= 0 || (virt % 4096 == 0 && phys % 4096 == 0) then 0 else -EINVARG
    ensures Remapped(old(k.ram), k.ram, directory / 4096,
      if count <= 0 || r != 0 then Flat(old(k.ram), directory / 4096)
      else MapPages(Flat(old(k.ram), directory / 4096), virt / 4096, phys / 4096, count, flags))
  {
    hide Remapped, SetEntry, FrameEntry, Tree;
    var d: Page := directory / 4096;
    ghost var m := k.ram;
    var v, p := virt, phys;
    r := 0;
    RemappedNone(m, d);
    var i := 0;
    while i < count && r == 0
      invariant 0 <= i && (i <= count || i == 0)
      invariant r == if i == 0 || (virt % 4096 == 0 && phys % 4096 == 0) then 0 else -EINVARG
      invariant i == 0 ==> v == virt && p == phys
      invariant r == 0 ==> v == (virt + i * 4096) % 0x1_0000_0000 && p == (phys + i * 4096) % 0x1_0000_0000
      invariant Remapped(m, k.ram, d,
        if i == 0 || r != 0 then Flat(m, d) else MapPages(Flat(m, d), virt / 4096, phys / 4096, i, flags))
      decreases count - i
    {
      ghost var m1 := k.ram;
      if virt % 4096 == 0 { RangeStep(virt, i); }
      if phys % 4096 == 0 { RangeStep(phys, i); }
      r := PagingMap(k, directory, v, p, flags);
      if r == 0 {
        RemappedMore(m, m1, d, MapPages(Flat(m, d), virt / 4096, phys / 4096, i, flags), v / 4096,
                     FrameEntry(p / 4096, flags));
        v := (v + PAGE) % 0x1_0000_0000;
        p := (p + PAGE) % 0x1_0000_0000;
      }
      i := i + 1;
    }
  }

  lemma PageTimes(x: nat)
    ensures x * 4096 % 0x1_0000_0000 == x % 0x10_0000 * 4096 && x * 4096 % 0x1_0000_0000 / 4096 == x % 0x10_0000
  {
    var q, r := x / 0x10_0000, x % 0x10_0000;
    assert x * 4096 == q * 0x1_0000_0000 + r * 4096;
  }

  lemma AddMod(y: nat)
    ensures (y % 0x1_0000_0000 + PAGE) % 0x1_0000_0000 == (y + PAGE) % 0x1_0000_0000
  {
  }

  lemma RangeStep(addr: nat, i: nat)
    requires addr < LIMIT && addr % 4096 == 0
    ensures (addr + i * 4096) % 0x1_0000_0000 == (addr / 4096 + i) % 0x10_0000 * 4096
    ensures (addr + i * 4096) % 0x1_0000_0000 / 4096 == (addr / 4096 + i) % 0x10_0000
    ensures (addr + i * 4096) % 0x1_0000_0000 % 4096 == 0
    ensures ((addr + i * 4096) % 0x1_0000_0000 + PAGE) % 0x1_0000_0000 == (addr + (i + 1) * 4096) % 0x1_0000_0000
  {
    var x := addr / 4096 + i;
    assert addr + i * 4096 == x * 4096;
    PageTimes(x);
    AddMod(addr + i * 4096);
  }

  /** paging_map_to */
  method PagingMapTo(k: Machine, directory: nat, virt: nat, phys: nat, physEnd: nat, flags: Word) returns (r: int)
    requires directory % 4096 == 0 && directory < LIMIT && virt < LIMIT && phys < LIMIT && physEnd < LIMIT
    requires Tree(k.ram, directory / 4096)
    modifies k`ram
    ensures r == if virt % 4096 == 0 && phys % 4096 == 0 && physEnd % 4096 == 0 && phys <= physEnd then 0 else -EINVARG
    ensures Remapped(old(k.ram), k.ram, directory / 4096,
      if r != 0 then Flat(old(k.ram), directory / 4096)
      else MapPages(Flat(old(k.ram), directory / 4096), virt / 4096, phys / 4096, (physEnd - phys) / 4096, flags))
  {
    hide Remapped, Tree;
    RemappedNone(k.ram, directory / 4096);
    if virt % 4096 != 0 {
      return -EINVARG;
    }
    if phys % 4096 != 0 {
      return -EINVARG;
    }
    if physEnd % 4096 != 0 {
      return -EINVARG;
    }
    if physEnd < phys {
      return -EINVARG;
    }
    var totalPages := (physEnd - phys) / 4096;
    r := PagingMapRange(k, directory, virt, phys, totalPages, flags);
  }

  /** Building an address space, setting entries in it any number of times and freeing
      it leaves the heap as it was. */
  method PagingRoundTrip(k: Machine, flags: nat, pages: seq<Page>, values: seq<Word>)
    requires k.Valid() && flags < 256 && |FreeSet(k.HeapNow().table)| >= SLOTS + 2 && |pages| == |values|
    modifies k`ram, k.heap, k.heap.entries
    ensures k.Valid() && k.HeapNow() == old(k.HeapNow())
  {
    hide Chunk, ChunkPages, Take, Release, FreeSet, Tree, Identity, DirectoryFlags, BlocksOf, SetEntry, WordAt;
    hide SameOutside;
    ghost var h := k.HeapNow();
    var chunk := PagingNew4gb(k, flags);
    ghost var m := k.ram;
    for i := 0 to |pages|
      invariant k.Valid() && Chunk(k.HeapNow(), k.ram, chunk)
      invariant k.HeapNow() == Take(h, BlocksOf(ChunkPages(k.ram, chunk)))
      invariant BlocksOf(ChunkPages(k.ram, chunk)) <= FreeSet(h.table)
    {
      ChunkAfterSet(k.HeapNow(), k.ram, chunk, pages[i], values[i]);
      var page: nat := pages[i];
      PageAddress(page);
      var r := PagingSet(k, WordAt(k.ram, chunk), page * 4096, values[i]);
    }
    ReleaseTaken(h, BlocksOf(ChunkPages(k.ram, chunk)));
    PagingFree4gb(k, chunk);
  }

  lemma PageAddress(p: nat)
    requires p < PAGES
    ensures p * 4096 < LIMIT && p * 4096 % 4096 == 0 && p * 4096 / 4096 == p
  {
  }

  lemma ChunkAfterSet(h: HeapState, m: Ram, c: nat, p: Page, v: Word)
    requires c + 4 <= LIMIT && Chunk(h, m, c)
    ensures WordAt(m, c) % 4096 == 0
    ensures Chunk(h, SetEntry(m, DirectoryOf(m, c), p, v), c)
    ensures ChunkPages(SetEntry(m, DirectoryOf(m, c), p, v), c) == ChunkPages(m, c)
  {
    hide OneBlock, SetEntry, TablePages;
    var d := DirectoryOf(m, c);
    var m' := SetEntry(m, d, p, v);
    SetEntryFlat(m, d, p, v);
    OutsideIsSame(m, m', TablePages(m, d), PageOf(c));
    SamePageSlot(m, m', PageOf(c), 0);
    assert Slot(PageOf(c), 0) == c;
  }
}
