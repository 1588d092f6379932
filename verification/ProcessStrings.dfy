/** copy_string_from_task for a loaded process: the string comes out of its file. */
module ProcessStrings {
  import opened Status
  import opened Memory
  import opened Wrappers
  import opened HeapSpec
  import opened PageTables
  import opened Machine
  import opened Paging
  import opened Strings
  import opened UserMemory
  import opened TaskCopy
  import opened Growth
  import opened AddressSpace
  import opened Process
  import H = Heap

  /** The first n bytes of s, with zeros after it if it is shorter. */
  function Fitted(s: seq<Byte>, n: nat): (r: seq<Byte>)
    ensures |r| == n
  {
    if n <= |s| then s[..n] else s + Zeros(n - |s|)
  }

  /** The string at index at of the file ends in the file, or is longer than the copy. */
  predicate StringInside(file: seq<Byte>, at: nat, max: nat) {
    at <= |file| && (at + max <= |file| || 0 in file[at..])
  }

  /** The bytes that the process sees from 0x400000 + at on. */
  function Seen(m: Ram, x: Loaded, at: nat, n: nat): (r: seq<Byte>)
    requires x.chunk + 4 <= LIMIT
    ensures |r| == n
  {
    BytesFrom(m, DirectoryOf(m, x.chunk), PROGRAM_ADDRESS + at, n)
  }

  lemma NulLater(s: seq<Byte>, i: nat, j: nat)
    requires i <= |s| && j < |s| && s[j] == 0
    ensures 0 !in s[..i] ==> i <= j
  {
    if j < i { assert s[..i][j] == 0; }
  }

  /** Byte i of the string, if no NUL comes before it, is a byte of the file. */
  lemma ReadInside(h: HeapState, m: Ram, x: Loaded, at: nat, max: nat, i: nat)
    requires InMemory(h, m, x) && StringInside(x.file, at, max) && i < max
    requires 0 !in Fitted(x.file[at..], max)[..i] || 0 !in Seen(m, x, at, max)[..i]
    ensures at + i < |x.file|
    ensures Fitted(x.file[at..], max)[i] == x.file[at + i] == Seen(m, x, at, max)[i]
  {
    hide InMemory, DirectoryOf, ByteAt, Translate;
    LoadedBounds(h, m, x);
    var f, b, d := Fitted(x.file[at..], max), Seen(m, x, at, max), DirectoryOf(m, x.chunk);
    if at + max > |x.file| {
      var j :| 0 <= j < |x.file[at..]| && x.file[at..][j] == 0;
      ProgramSeen(h, m, x, at + j);
      assert f[j] == 0 && b[j] == ByteAt(m, d, PROGRAM_ADDRESS + (at + j));
      NulLater(f, i, j);
      NulLater(b, i, j);
    }
    ProgramSeen(h, m, x, at + i);
    assert b[i] == ByteAt(m, d, PROGRAM_ADDRESS + (at + i));
  }

  /** The string that the process sees is the file's. */
  lemma StringSeen(h: HeapState, m: Ram, x: Loaded, at: nat, max: nat)
    requires InMemory(h, m, x) && StringInside(x.file, at, max)
    ensures x.chunk + 4 <= LIMIT && Strncpied(Seen(m, x, at, max)) == Strncpied(Fitted(x.file[at..], max))
  {
    hide InMemory, DirectoryOf, BytesFrom, Fitted, StringInside, Strncpied;
    LoadedBounds(h, m, x);
    AtBound(x.file, at, max);
    var b, f := Seen(m, x, at, max), Fitted(x.file[at..], max);
    forall i | 0 <= i < |b| && 0 !in b[..i] ensures b[i] == f[i] {
      ReadInside(h, m, x, at, max, i);
    }
    StrncpiedSame(b, f);
  }

  /** A program frame is neither the free block t nor the page of an entry of the tables. */
  lemma FrameUntouched(h: HeapState, m: Ram, x: Loaded, t: Page, k: nat)
    requires Inv(h) && |h.table| == HEAP_BLOCKS && InMemory(h, m, x) && FreePage(h, t) && k < |x.file|
    requires (PROGRAM_ADDRESS + k) / 4096 != t
    ensures PROGRAM_ADDRESS + k < LIMIT && Untouched(m, DirectoryOf(m, x.chunk), PROGRAM_ADDRESS + k, t)
  {
    hide DirectoryOpen, Flat, Translate, ProcessMap, Bytes, Inv, SlotAt, Footprint;
    LoadedBounds(h, m, x);
    ProgramSeen(h, m, x, k);
    var d, a := DirectoryOf(m, x.chunk), BlockAddress(x.program) + k;
    H.BlocksForExact(|x.file|);
    FrameLive(h, x.program, k);
    EntryPage(h, m, x, t);
    var p := TablePage(m, d, t / 1024);
    BlocksApart(h, x.program, p - HEAP_PAGE, k, 0);
    EntryInPage(p, t % 1024, p - HEAP_PAGE, a);
  }

  lemma FrameLive(h: HeapState, s: nat, k: nat)
    requires Inv(h) && |h.table| == HEAP_BLOCKS && s in h.live && k < h.live[s] * 4096
    ensures !FreePage(h, PageOf(BlockAddress(s) + k))
  {
    PlaceIn(BlockAddress(s), k);
    LiveNotFree(h, s, s + k / 4096);
  }

  /** The page of the table that holds the entry of t is a block other than the program's. */
  lemma EntryPage(h: HeapState, m: Ram, x: Loaded, t: Page)
    requires InMemory(h, m, x)
    ensures var p := TablePage(m, DirectoryOf(m, x.chunk), t / 1024);
      p < PAGES && OneBlock(h, p) && p - HEAP_PAGE != x.program
  {
    hide DirectoryOpen, Flat, Translate, ProcessMap, Bytes, SlotAt;
    assert TablePage(m, DirectoryOf(m, x.chunk), t / 1024) in ChunkPages(m, x.chunk);
  }

  lemma EntryInPage(p: nat, k: nat, b: nat, a: nat)
    requires HEAP_PAGE <= p < PAGES && k < SLOTS && b == p - HEAP_PAGE && PageOf(a) != PageOf(BlockAddress(b) + 0)
    ensures !(Slot(p, k) <= a < Slot(p, k) + 4)
  {
    SlotBounds(p, k);
  }

  /** What the copy asks of the string and of the rest: the string is inside the file, the
      buffer's block is no page of it, and kernel space and destination are as they should. */
  ghost predicate StringReady(h: HeapState, m: Ram, x: Loaded, kernelChunk: nat, at: nat, phys: nat, max: nat) {
    && StringInside(x.file, at, max) && SpacesReady(h, m, x.chunk, kernelChunk, phys, max)
    && (max < PAGE && TmpBlock(h, max) >= 0 ==> PagesApart(at, max, TmpBlock(h, max)))
  }

  /** Such a string of a loaded process is ready to be copied. */
  lemma ProcessReady(h: HeapState, m: Ram, x: Loaded, kernelChunk: nat, at: nat, phys: nat, max: nat)
    requires Inv(h) && |h.table| == HEAP_BLOCKS && InMemory(h, m, x)
    requires StringReady(h, m, x, kernelChunk, at, phys, max)
    ensures CopyReady(h, m, x.chunk, kernelChunk, PROGRAM_ADDRESS + at, phys, max)
  {
    hide InMemory, DirectoryOf, StringInside, SpacesReady, SourceApart, Inv, TmpBlock, MallocBlocks, FreePage;
    LoadedBounds(h, m, x);
    AtBound(x.file, at, max);
    if max < PAGE && TmpBlock(h, max) >= 0 {
      TmpBlockFacts(h, max);
      SourceReady(h, m, x, at, max, TmpBlock(h, max));
    }
  }

  lemma SourceReady(h: HeapState, m: Ram, x: Loaded, at: nat, max: nat, b: nat)
    requires Inv(h) && |h.table| == HEAP_BLOCKS && InMemory(h, m, x) && StringInside(x.file, at, max)
    requires b < HEAP_BLOCKS && FreePage(h, BlockPage(b)) && PagesApart(at, max, b)
    ensures x.chunk + 4 <= LIMIT && SourceApart(m, DirectoryOf(m, x.chunk), PROGRAM_ADDRESS + at, max, BlockPage(b))
  {
    hide InMemory, DirectoryOf, BytesFrom, StringInside, Untouched, Inv, FreePage, BlockPage, PagesApart;
    LoadedBounds(h, m, x);
    AtBound(x.file, at, max);
    PageInRange(b);
    var s := Seen(m, x, at, max);
    forall i | 0 <= i < max && 0 !in s[..i]
      ensures Untouched(m, DirectoryOf(m, x.chunk), (PROGRAM_ADDRESS + at + i) % 0x1_0000_0000, BlockPage(b))
    {
      ByteUntouched(h, m, x, at, max, b, i);
    }
  }

  lemma ByteUntouched(h: HeapState, m: Ram, x: Loaded, at: nat, max: nat, b: nat, i: nat)
    requires Inv(h) && |h.table| == HEAP_BLOCKS && InMemory(h, m, x) && StringInside(x.file, at, max)
    requires b < HEAP_BLOCKS && FreePage(h, BlockPage(b)) && PagesApart(at, max, b)
    requires i < max && 0 !in Seen(m, x, at, max)[..i]
    ensures BlockPage(b) < PAGES
    ensures Untouched(m, DirectoryOf(m, x.chunk), (PROGRAM_ADDRESS + at + i) % 0x1_0000_0000, BlockPage(b))
  {
    hide InMemory, DirectoryOf, Seen, Fitted, StringInside, Untouched, Inv, FreePage, BlockPage, PagesApart;
    LoadedBounds(h, m, x);
    AtBound(x.file, at, max);
    PageInRange(b);
    ReadInside(h, m, x, at, max, i);
    NotThePage(at, max, b, i);
    FrameUntouched(h, m, x, BlockPage(b), at + i);
  }

  lemma PageInRange(b: nat)
    requires b < HEAP_BLOCKS
    ensures BlockPage(b) < PAGES
  {
  }

  lemma NotThePage(at: nat, max: nat, b: nat, i: nat)
    requires PagesApart(at, max, b) && i < max && at + i < HEAP_BLOCKS * 4096
    ensures (PROGRAM_ADDRESS + (at + i)) / 4096 != BlockPage(b)
    ensures (PROGRAM_ADDRESS + at + i) % 0x1_0000_0000 == PROGRAM_ADDRESS + (at + i)
  {
    assert PageOf(PROGRAM_ADDRESS + at + i) != HEAP_PAGE + b;
  }

  lemma DestinationInside(h: HeapState, m: Ram, chunk: nat, kernelChunk: nat, phys: nat, max: nat)
    requires SpacesReady(h, m, chunk, kernelChunk, phys, max) && max < PAGE && TmpBlock(h, max) >= 0
    ensures phys + max <= LIMIT
  {
  }

  lemma AtBound(file: seq<Byte>, at: nat, max: nat)
    requires StringInside(file, at, max)
    ensures at <= |file|
  {
  }

  /** The pages of the string are not the page number of heap block b. */
  predicate PagesApart(at: nat, max: nat, b: int) {
    forall a :: PROGRAM_ADDRESS + at <= a < PROGRAM_ADDRESS + at + max ==> PageOf(a) != HEAP_PAGE + b
  }

  /** copy_string_from_task for a string in the program of a loaded process: what arrives
      are the bytes of the file up to the string's end, and zeros. */
  method CopyFromProcess(k: Machine, table: ProcessTable, i: nat, kernelChunk: nat, at: nat, phys: nat, max: nat)
    returns (r: int)
    requires k.Valid() && table.Holds(k.HeapNow(), k.ram) && i in table.loaded
    requires StringReady(k.HeapNow(), k.ram, table.loaded[i], kernelChunk, at, phys, max)
    modifies k, k.heap, k.heap.entries
    ensures k.Valid() && k.HeapNow() == old(k.HeapNow())
    ensures r == if max >= PAGE then -EINVARG else if TmpBlock(old(k.HeapNow()), max) < 0 then -ENOMEM else 0
    ensures r == 0 ==>
      phys + max <= LIMIT && Bytes(k.ram, phys, max) == Strncpied(Fitted(table.loaded[i].file[at..], max))
  {
    hide InMemory, BytesFrom, Fitted, StringInside, SpacesReady, Inv, TmpBlock, MallocBlocks, Strncpied, CopyReady;
    hide PagesApart, Separate, Chunk;
    ghost var x := table.loaded[i];
    ProcessReady(k.HeapNow(), k.ram, x, kernelChunk, at, phys, max);
    StringSeen(k.HeapNow(), k.ram, x, at, max);
    if max < PAGE && TmpBlock(k.HeapNow(), max) >= 0 {
      DestinationInside(k.HeapNow(), k.ram, x.chunk, kernelChunk, phys, max);
    }
    r := CopyStringFromTask(k, table.slots[i].task.pageDirectory, kernelChunk, PROGRAM_ADDRESS + at, phys, max);
  }
}
