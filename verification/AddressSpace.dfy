/** The address space of a loaded process (src/proc/process.c, process_map_memory):
    what its page map is and what the process sees through it. */
module AddressSpace {
  import opened Memory
  import opened Wrappers
  import opened HeapSpec
  import opened PageTables
  import opened Machine
  import opened Blocks
  import opened Paging
  import opened UserMemory
  import opened TaskCopy
  import opened Growth
  import H = Heap

  const PROGRAM_PAGE: nat := 1024
  const STACK_PAGE: nat := 1019
  const PROGRAM_ADDRESS: nat := 0x40_0000
  const STACK_END: nat := 0x3F_B000
  const STACK_SIZE: nat := 0x4000
  const STACK_BLOCKS: nat := 4
  const USER_FLAGS: nat := 7
  const TASK_FLAGS: nat := 5

  /** A process in memory: the heap blocks where its program and its stack start, the
      chunk of its address space, and the file that was loaded. */
  datatype Loaded = Loaded(program: nat, stack: nat, chunk: nat, file: seq<Byte>)

  ghost function IdentityMap(flags: nat): (f: seq<Word>)
    requires flags < 256
    ensures |f| == PAGES && forall p: nat :: p < PAGES ==> f[p] == p * 4096 + flags
  {
    seq(PAGES, p requires 0 <= p < PAGES => IdentityEntry(p, flags))
  }

  function IdentityEntry(p: Page, flags: nat): Word
    requires flags < 256
  {
    p * 4096 + flags
  }

  /** The page map: program pages from 0x400000 on, stack pages below 0x3FF000, every
      other page mapped to itself. */
  ghost function ProcessMap(program: Page, programPages: nat, stack: Page): (f: seq<Word>)
    ensures |f| == PAGES
  {
    WithProcess(IdentityMap(TASK_FLAGS), program, programPages, stack)
  }

  /** A page map with the program and the stack of a process entered in it. */
  ghost function WithProcess(f: seq<Word>, program: Page, programPages: nat, stack: Page): (g: seq<Word>)
    requires |f| == PAGES
    ensures |g| == PAGES
  {
    MapPages(MapPages(f, PROGRAM_PAGE, program, programPages, USER_FLAGS), STACK_PAGE, stack, STACK_BLOCKS, USER_FLAGS)
  }

  /** The two ranges do not overlap, and every other page keeps its entry. */
  lemma WithProcessAt(f: seq<Word>, program: Page, n: nat, stack: Page, p: Page)
    requires |f| == PAGES && n <= HEAP_BLOCKS && program + n <= PAGES && stack + STACK_BLOCKS <= PAGES
    ensures WithProcess(f, program, n, stack)[p] ==
      if PROGRAM_PAGE <= p < PROGRAM_PAGE + n then (program + (p - PROGRAM_PAGE)) * 4096 + USER_FLAGS
      else if STACK_PAGE <= p < STACK_PAGE + STACK_BLOCKS then (stack + (p - STACK_PAGE)) * 4096 + USER_FLAGS
      else f[p]
  {
    hide MapPages;
    MapPagesInside(f, PROGRAM_PAGE, program, n, USER_FLAGS, p);
    MapPagesInside(MapPages(f, PROGRAM_PAGE, program, n, USER_FLAGS), STACK_PAGE, stack, STACK_BLOCKS, USER_FLAGS, p);
  }

  /** The map page by page: the two ranges do not overlap. */
  lemma ProcessMapAt(program: Page, n: nat, stack: Page, p: Page)
    requires n <= HEAP_BLOCKS && program + n <= PAGES && stack + STACK_BLOCKS <= PAGES
    ensures ProcessMap(program, n, stack)[p] ==
      if PROGRAM_PAGE <= p < PROGRAM_PAGE + n then (program + (p - PROGRAM_PAGE)) * 4096 + USER_FLAGS
      else if STACK_PAGE <= p < STACK_PAGE + STACK_BLOCKS then (stack + (p - STACK_PAGE)) * 4096 + USER_FLAGS
      else p * 4096 + TASK_FLAGS
  {
    hide WithProcess;
    WithProcessAt(IdentityMap(TASK_FLAGS), program, n, stack, p);
  }

  /** Every entry of the directory is present, writable and open to the user. */
  ghost predicate DirectoryOpen(m: Ram, d: Page) {
    forall i :: 0 <= i < SLOTS ==> SlotAt(m, d, i) % 8 == 7
  }

  lemma OpenFrame(m: Ram, m': Ram, d: Page)
    requires DirectoryOpen(m, d) && SameDirectory(m, m', d)
    ensures DirectoryOpen(m', d)
  {
    hide SlotAt;
    forall i | 0 <= i < SLOTS ensures SlotAt(m', d, i) % 8 == 7 {
      assert SlotAt(m', d, i) == SlotAt(m, d, i);
    }
  }

  /** The process is in memory: its program, stack and tables are different live
      allocations, its tables hold its map, and its program bytes are the file's. */
  ghost predicate InMemory(h: HeapState, m: Ram, x: Loaded) {
    && 0 < |x.file| <= HEAP_BLOCKS * 4096 && x.program != x.stack
    && x.program in h.live && h.live[x.program] == H.BlocksFor(|x.file|)
    && x.stack in h.live && h.live[x.stack] == STACK_BLOCKS
    && x.program + H.BlocksFor(|x.file|) <= HEAP_BLOCKS && x.stack + STACK_BLOCKS <= HEAP_BLOCKS
    && x.chunk + 4 <= LIMIT && Chunk(h, m, x.chunk)
    && BlockPage(x.program) !in ChunkPages(m, x.chunk) && BlockPage(x.stack) !in ChunkPages(m, x.chunk)
    && DirectoryOpen(m, DirectoryOf(m, x.chunk))
    && Flat(m, DirectoryOf(m, x.chunk)) == ProcessMap(BlockPage(x.program), H.BlocksFor(|x.file|), BlockPage(x.stack))
    && Bytes(m, BlockAddress(x.program), |x.file|) == x.file
  }

  /** A loaded process stays as it is while memory only grows. */
  lemma InMemoryKept(h: HeapState, m: Ram, h': HeapState, m': Ram, x: Loaded)
    requires Inv(h) && |h.table| == HEAP_BLOCKS && InMemory(h, m, x) && Extends(h, m, h', m')
    ensures InMemory(h', m', x) && ChunkPages(m', x.chunk) == ChunkPages(m, x.chunk)
  {
    hide Chunk, ChunkPages, DirectoryOf, Flat, ProcessMap, DirectoryOpen, Tree;
    H.BlocksForExact(|x.file|);
    LiveKept(h, m, h', m', x.program, |x.file|);
    ChunkKept(h, m, h', m', x.chunk);
    OpenFrame(m, m', DirectoryOf(m, x.chunk));
  }

  lemma EntryTranslates(m: Ram, d: Page, a: nat, frame: nat, flags: nat)
    requires a < LIMIT && DirectoryOpen(m, d) && frame < PAGES && flags < 4096 && flags % 2 == 1
    requires EntryFor(m, d, a / 4096) == frame * 4096 + flags
    ensures Translate(m, d, a) == Some(frame * 4096 + a % 4096)
  {
    hide EntryFor, SlotAt;
    assert SlotAt(m, d, a / 4096 / 1024) % 8 == 7;
    FrameOf(frame, flags);
  }

  lemma FrameOf(frame: nat, flags: nat)
    requires flags < 4096 && flags % 2 == 1
    ensures (frame * 4096 + flags) / 4096 == frame && (frame * 4096 + flags) % 2 == 1
  {
  }

  lemma PlaceIn(base: nat, k: nat)
    requires base % 4096 == 0
    ensures (base + k) / 4096 == base / 4096 + k / 4096 && (base + k) % 4096 == k % 4096
  {
  }

  /** Address 0x400000 + k of the process is byte k of its file, in its own program
      frames. */
  lemma ProgramSeen(h: HeapState, m: Ram, x: Loaded, k: nat)
    requires InMemory(h, m, x) && k < |x.file|
    ensures var d := DirectoryOf(m, x.chunk);
      && Translate(m, d, PROGRAM_ADDRESS + k) == Some(BlockAddress(x.program) + k)
      && ByteAt(m, d, PROGRAM_ADDRESS + k) == x.file[k]
  {
    hide Chunk, ChunkPages, Translate, ProcessMap, EntryFor, DirectoryOpen;
    var d, n := DirectoryOf(m, x.chunk), H.BlocksFor(|x.file|);
    var p: Page := PROGRAM_PAGE + k / 4096;
    H.BlocksForExact(|x.file|);
    assert k / 4096 < n;
    ProcessMapAt(BlockPage(x.program), n, BlockPage(x.stack), p);
    assert EntryFor(m, d, p) == Flat(m, d)[p];
    PlaceIn(PROGRAM_ADDRESS, k);
    EntryTranslates(m, d, PROGRAM_ADDRESS + k, BlockPage(x.program) + k / 4096, USER_FLAGS);
    BlockIsPage(x.program);
    assert Bytes(m, BlockAddress(x.program), |x.file|)[k] == m[BlockAddress(x.program) + k];
  }

  /** Byte k above 0x3FB000 is byte k of the process's stack. */
  lemma StackSeen(h: HeapState, m: Ram, x: Loaded, k: nat)
    requires InMemory(h, m, x) && k < STACK_SIZE
    ensures Translate(m, DirectoryOf(m, x.chunk), STACK_END + k) == Some(BlockAddress(x.stack) + k)
  {
    hide Chunk, ChunkPages, Translate, ProcessMap, EntryFor, DirectoryOpen, Bytes, H.BlocksFor;
    var d, n := DirectoryOf(m, x.chunk), H.BlocksFor(|x.file|);
    var p: Page := STACK_PAGE + k / 4096;
    H.BlocksForExact(|x.file|);
    ProcessMapAt(BlockPage(x.program), n, BlockPage(x.stack), p);
    assert EntryFor(m, d, p) == Flat(m, d)[p];
    PlaceIn(STACK_END, k);
    EntryTranslates(m, d, STACK_END + k, BlockPage(x.stack) + k / 4096, USER_FLAGS);
    BlockIsPage(x.stack);
  }

  /** Every address outside the two ranges is mapped to itself. */
  lemma OthersSeen(h: HeapState, m: Ram, x: Loaded, a: nat)
    requires InMemory(h, m, x) && a < LIMIT
    requires
      || a < STACK_END || STACK_END + STACK_SIZE <= a < PROGRAM_ADDRESS
      || PROGRAM_ADDRESS + H.BlocksFor(|x.file|) * 4096 <= a
    ensures Translate(m, DirectoryOf(m, x.chunk), a) == Some(a)
  {
    hide Chunk, ChunkPages, Translate, ProcessMap, EntryFor, DirectoryOpen, Bytes, H.BlocksFor;
    var d, n := DirectoryOf(m, x.chunk), H.BlocksFor(|x.file|);
    var p: Page := a / 4096;
    H.BlocksForExact(|x.file|);
    ProcessMapAt(BlockPage(x.program), n, BlockPage(x.stack), p);
    assert EntryFor(m, d, p) == Flat(m, d)[p];
    EntryTranslates(m, d, a, p, TASK_FLAGS);
  }

  /** The addresses of a process that are its own: its program and its stack. */
  predicate Own(x: Loaded, a: nat) {
    PROGRAM_ADDRESS <= a < PROGRAM_ADDRESS + |x.file| || STACK_END <= a < STACK_END + STACK_SIZE
  }

  /** Program and stack of the two processes are four different allocations. */
  predicate Separate(x: Loaded, y: Loaded) {
    x.program != y.program && x.program != y.stack && x.stack != y.program && x.stack != y.stack
  }

  /** Where an own address leads: into the process's program or stack allocation. */
  lemma OwnFrame(h: HeapState, m: Ram, x: Loaded, a: nat) returns (s: nat, i: nat)
    requires InMemory(h, m, x) && Own(x, a)
    ensures a < LIMIT && (s == x.program || s == x.stack) && s in h.live && i < h.live[s] * 4096
    ensures Translate(m, DirectoryOf(m, x.chunk), a) == Some(BlockAddress(s) + i)
  {
    hide Chunk, ChunkPages, ProcessMap, DirectoryOpen, Flat, Translate, Bytes;
    H.BlocksForExact(|x.file|);
    if PROGRAM_ADDRESS <= a {
      s, i := x.program, a - PROGRAM_ADDRESS;
      ProgramSeen(h, m, x, i);
    } else {
      s, i := x.stack, a - STACK_END;
      StackSeen(h, m, x, i);
    }
  }

  /** No two processes share a frame behind their own pages. */
  lemma FramesApart(h: HeapState, m: Ram, x: Loaded, y: Loaded, a: nat, b: nat)
    requires Inv(h) && InMemory(h, m, x) && InMemory(h, m, y) && Separate(x, y)
    requires Own(x, a) && Own(y, b)
    ensures a < LIMIT && b < LIMIT
    ensures var p, q := Translate(m, DirectoryOf(m, x.chunk), a), Translate(m, DirectoryOf(m, y.chunk), b);
      p.Some? && q.Some? && PageOf(p.value) != PageOf(q.value)
  {
    hide InMemory, Translate, Inv;
    var s, i := OwnFrame(h, m, x, a);
    var t, j := OwnFrame(h, m, y, b);
    BlocksApart(h, s, t, i, j);
  }

  /** Bytes of different live allocations lie in different pages. */
  lemma BlocksApart(h: HeapState, s: nat, t: nat, i: nat, j: nat)
    requires Inv(h) && s in h.live && t in h.live && s != t
    requires i < h.live[s] * 4096 && j < h.live[t] * 4096
    ensures PageOf(BlockAddress(s) + i) != PageOf(BlockAddress(t) + j)
  {
    assert if s < t then s + h.live[s] <= t else t + h.live[t] <= s;
    PlaceIn(BlockAddress(s), i);
    PlaceIn(BlockAddress(t), j);
  }
}
