/** Loading programs (src/proc/process.c) and creating their tasks (task_new). */
module Process {
  import opened Status
  import opened Memory
  import opened Wrappers
  import opened Bits
  import opened HeapSpec
  import opened HeapGrants
  import opened PageTables
  import opened Machine
  import opened Blocks
  import opened Paging
  import opened UserMemory
  import opened TaskCopy
  import opened Growth
  import opened AddressSpace
  import opened TaskList
  import opened Streamer
  import opened Strings
  import opened Fat16Names
  import opened Directory
  import opened Files
  import H = Heap

  const MAX_PROCESSES: nat := 12
  // id, file name, padding, task, allocations, program, stack, size, and the keyboard's ring
  const PROCESS_SIZE: nat := 2 + MAX_PATH + 2 + 4 + 4 * 1024 + 4 + 4 + 4 + (1024 + 4 + 4)
  const PROCESS_BLOCKS: nat := 2
  const TASK_SIZE: nat := 64

  class Process {
    const address: nat
    var id: nat
    var ptr: nat
    var stack: nat
    var size: nat
    var task: Task?

    constructor (address: nat)
      ensures this.address == address && id == 0 && ptr == 0 && stack == 0 && size == 0 && task == null
    {
      this.address := address;
      id, ptr, stack, size, task := 0, 0, 0, 0, null;
    }
  }

  // ---- mapping ----

  lemma ChunkRemapped(h: HeapState, m: Ram, m': Ram, c: nat, f: seq<Word>)
    requires c + 4 <= LIMIT && Chunk(h, m, c) && Remapped(m, m', DirectoryOf(m, c), f)
    ensures Chunk(h, m', c) && ChunkPages(m', c) == ChunkPages(m, c) && DirectoryOf(m', c) == DirectoryOf(m, c)
    ensures Flat(m', DirectoryOf(m, c)) == f && SameDirectory(m, m', DirectoryOf(m, c))
    ensures SameOutside(m, m', ChunkPages(m, c))
  {
    hide OneBlock, SameOutside, Tree, SameDirectory, Flat, WordAt, TablePages;
    var d := DirectoryOf(m, c);
    WordSame(m, m', c, TablePages(m, d));
    SameFootprint(m, m', d);
    OutsideWiden(m, m, m', {}, TablePages(m, d), ChunkPages(m, c)) by { OutsideSame(m); }
  }

  lemma RemappedTwice(m: Ram, m1: Ram, m2: Ram, d: Page, f: seq<Word>, g: seq<Word>)
    requires Remapped(m, m1, d, f) && Remapped(m1, m2, d, g)
    ensures Remapped(m, m2, d, g)
  {
    hide Tree, Flat, TablePages;
  }

  lemma ProgramPages(b: nat, size: nat)
    requires 0 < size <= HEAP_BLOCKS * 4096 && b + H.BlocksFor(size) <= HEAP_BLOCKS
    ensures b < HEAP_BLOCKS && H.BlocksFor(size) >= 1
    ensures var ptr := BlockAddress(b);
      ptr + size < LIMIT && ptr <= ProgramEnd(ptr, size) && (ProgramEnd(ptr, size) - ptr) / 4096 == H.BlocksFor(size)
  {
    H.BlocksForExact(size);
    BlockIsPage(b);
  }

  /** Where the pages of a buffer end. */
  function ProgramEnd(ptr: Word, size: Word): Word {
    AlignAddress((ptr + size) % 0x1_0000_0000)
  }

  /** process_map_binary: errors of paging_map_to are not looked at. */
  method ProcessMapBinary(k: Machine, process: Process) returns (r: int)
    requires process.task != null && process.task.pageDirectory + 4 <= LIMIT
    requires WordAt(k.ram, process.task.pageDirectory) % PAGE == 0
    requires Tree(k.ram, DirectoryOf(k.ram, process.task.pageDirectory))
    requires process.ptr < LIMIT && process.size < LIMIT
    modifies k`ram
    ensures r == 0
    ensures var d, end := DirectoryOf(old(k.ram), process.task.pageDirectory), ProgramEnd(process.ptr, process.size);
      Remapped(old(k.ram), k.ram, d,
        if process.ptr % 4096 == 0 && process.ptr <= end then
          MapPages(Flat(old(k.ram), d), PROGRAM_PAGE, process.ptr / 4096, (end - process.ptr) / 4096, USER_FLAGS)
        else Flat(old(k.ram), d))
  {
    hide Remapped, Tree, WordAt, Flat, MapPages, AlignAddress;
    r := 0;
    var ignored := PagingMapTo(k, WordAt(k.ram, process.task.pageDirectory), PROGRAM_ADDRESS, process.ptr,
                               ProgramEnd(process.ptr, process.size), USER_FLAGS);
  }

  /** process_map_memory: the program from 0x400000 on and the stack below 0x3FF000. */
  method ProcessMapMemory(k: Machine, process: Process, ghost h: HeapState, ghost pb: nat, ghost sb: nat)
    returns (r: int)
    requires process.task != null && process.task.pageDirectory + 4 <= LIMIT
    requires Chunk(h, k.ram, process.task.pageDirectory)
    requires 0 < process.size <= HEAP_BLOCKS * 4096
    requires pb + H.BlocksFor(process.size) <= HEAP_BLOCKS && sb + STACK_BLOCKS <= HEAP_BLOCKS
    requires process.ptr == BlockAddress(pb) && process.stack == BlockAddress(sb)
    modifies k`ram
    ensures r == 0
    ensures var d := DirectoryOf(old(k.ram), process.task.pageDirectory);
      Remapped(old(k.ram), k.ram, d,
        WithProcess(Flat(old(k.ram), d), BlockPage(pb), H.BlocksFor(process.size), BlockPage(sb)))
  {
    hide Remapped, Tree, WordAt, Flat, MapPages, Footprint, OneBlock, H.BlocksFor, BlockAddress;
    ghost var m, c := k.ram, process.task.pageDirectory;
    ghost var d := DirectoryOf(m, c);
    ProgramPages(pb, process.size);
    BlockIsPage(pb);
    BlockIsPage(sb);
    StackPages(sb);
    r := ProcessMapBinary(k, process);
    if r < 0 {
      return;
    }
    ghost var m1 := k.ram;
    ghost var f := MapPages(Flat(m, d), PROGRAM_PAGE, BlockPage(pb), H.BlocksFor(process.size), USER_FLAGS);
    assert Remapped(m, m1, d, f);
    ChunkRemapped(h, m, m1, c, f);
    var ignored := PagingMapTo(k, WordAt(k.ram, process.task.pageDirectory), STACK_END, process.stack,
                               ProgramEnd(process.stack, STACK_SIZE), USER_FLAGS);
    RemappedTwice(m, m1, k.ram, d, f, WithProcess(Flat(m, d), BlockPage(pb), H.BlocksFor(process.size), BlockPage(sb)));
  }

  lemma StackPages(b: nat)
    requires b + STACK_BLOCKS <= HEAP_BLOCKS
    ensures var p := BlockAddress(b);
      && p + STACK_SIZE < LIMIT && ProgramEnd(p, STACK_SIZE) == p + STACK_SIZE
      && (p + STACK_SIZE - p) / 4096 == STACK_BLOCKS
  {
    BlockIsPage(b);
  }

  // ---- loading the file ----

  /** The file's bytes are in the block s of n blocks, allocated in between. */
  ghost predicate FileIn(h: HeapState, h': HeapState, m': Ram, s: nat, file: seq<Byte>) {
    && 0 < |file| <= HEAP_BLOCKS * 4096
    && s !in h.live && s in h'.live && h'.live[s] == H.BlocksFor(|file|) && s + H.BlocksFor(|file|) <= HEAP_BLOCKS
    && Bytes(m', BlockAddress(s), |file|) == file
  }

  lemma FileWritten(h: HeapState, m: Ram, h': HeapState, s: nat, n: nat, size: nat, bytes: seq<Byte>)
    requires |h.table| == HEAP_BLOCKS && s + n <= HEAP_BLOCKS && |bytes| <= size <= n * 4096
    requires Extends(h, m, h', Splice(m, BlockAddress(s), Zeros(size)))
    requires forall p :: p in BlockPages(s, n) ==> FreePage(h, p)
    ensures Extends(h, m, h', Splice(Splice(m, BlockAddress(s), Zeros(size)), BlockAddress(s), bytes))
  {
    hide Extends, Splice;
    var m1 := Splice(m, BlockAddress(s), Zeros(size));
    forall a | BlockAddress(s) <= a < BlockAddress(s) + |bytes| ensures PageOf(a) in BlockPages(s, n) {
      BytesInBlocks(s, n, size, a);
    }
    SpliceOutside(m1, BlockAddress(s), bytes, BlockPages(s, n));
    ExtendsWrite(h, m, h', m1, Splice(m1, BlockAddress(s), bytes), BlockPages(s, n));
  }

  /** A request of n blocks is served in full or refused: it does not get the short run
      at the end of the table. */
  ghost predicate NeverShort(t: Table, n: nat) {
    StartBlock(t, n) < 0 || HasRun(t, n)
  }

  ghost predicate HasRun(t: Table, n: nat) { n >= 1 && Fits(t, n) }

  /** Whether such a request is served, and what it means for its size in bytes. */
  lemma Served(h: HeapState, size: Word)
    requires |h.table| == HEAP_BLOCKS && size > 0 && NeverShort(h.table, H.BlocksFor(size))
    ensures HasRun(h.table, H.BlocksFor(size)) ==>
      && 1 <= H.BlocksFor(size) <= HEAP_BLOCKS && size <= H.BlocksFor(size) * 4096 && HEAP_END + size <= LIMIT
      && Fits(h.table, H.BlocksFor(size)) && MallocBlocks(h, H.BlocksFor(size)).1 >= 0
    ensures !HasRun(h.table, H.BlocksFor(size)) ==>
      && MallocBlocks(h, H.BlocksFor(size)) == (h, -ENOMEM)
  {
    var n := H.BlocksFor(size);
    H.BlocksForExact(size);
    if n >= 1 { StartBlockExact(h.table, n); }
  }

  /** process_load_binary on a heap where fopen finds its blocks and the program is not
      handed a short run. */
  method ProcessLoadBinary(k: Machine, v: Mount, fatStream: DiskStream, stream: DiskStream, path: seq<Byte>,
                           process: Process)
    returns (r: int, ghost s: nat, ghost bytes: seq<Byte>)
    requires k.Valid() && 0 !in path && PathSafe(v, path)
    requires OpenNeeds(v, path) <= |FreeSet(k.HeapNow().table)|
    requires Nonempty(Opened(v, path)) ==>
      NeverShort(AfterOpen(k.HeapNow(), v, path).table, H.BlocksFor(Opened(v, path).value.size))
    modifies k`ram, k.heap, k.heap.entries, fatStream, stream, process
    ensures k.Valid() && Extends(old(k.HeapNow()), old(k.ram), k.HeapNow(), k.ram)
    ensures r == 0 || r == -EIO || r == -ENOMEM
    ensures r == 0 <==>
      && Nonempty(Opened(v, path)) && Reaches(v, Opened(v, path).value)
      && HasRun(AfterOpen(old(k.HeapNow()), v, path).table, H.BlocksFor(Opened(v, path).value.size))
    ensures r == 0 ==> process.ptr == BlockAddress(s) && process.size == |bytes|
    ensures r == 0 ==> FileIn(old(k.HeapNow()), k.HeapNow(), k.ram, s, bytes)
    ensures r == 0 ==> |bytes| == Opened(v, path).value.size
    ensures r == 0 ==> k.HeapNow() == AfterLoad(old(k.HeapNow()), v, path, |bytes|)
    ensures r == 0 ==> IsFile(v, Opened(v, path).value, bytes)
    ensures process.stack == old(process.stack) && process.task == old(process.task) && process.id == old(process.id)
  {
    hide Extends, IsFile, Opened, MallocBlocks, HasRun, NeverShort, Inv, FreeSet, FileIn, FileOf, Singles;
    hide OpenIn, OpenAt;
    hide H.BlocksFor, Reaches, PathSafe, OpenNeeds, OpenTakes, BlockAddress, Release;
    ghost var h, m := k.HeapNow(), k.ram;
    s, bytes := 0, [];
    ghost var o;
    var fd;
    fd, o := Fopen(k, v, path);
    if fd == 0 {
      return -EIO, s, bytes;
    }
    ghost var h2, m2 := k.HeapNow(), k.ram;
    ghost var entry :| OpenFile(h2, m2, o, entry, Opened(v, path));
    FourFree(h, v, path, o);
    r, s, bytes := ReadProgram(k, v, fatStream, stream, fd, process, o, entry);
    ghost var h3, m3 := k.HeapNow(), k.ram;
    OpenKept(h2, m2, h3, m3, o, entry);
    Fclose(k, fd, o, entry);
    ExtendsTrans(h, m, h2, m2, h3, m3);
    ReleaseExtends(h, m, h3, m3, Four(o));
    if r == 0 { ClosedFile(h, m, h2, m2, h3, m3, s, o, entry, bytes); }
  }

  /** The heap after the open of a path. */
  ghost function AfterOpen(h: HeapState, v: Mount, path: seq<Byte>): HeapState {
    Singles(h, OpenTakes(v, path))
  }

  /** The heap after the file was opened, its program allocated, and the file closed. */
  ghost function AfterLoad(h: HeapState, v: Mount, path: seq<Byte>, size: Word): HeapState {
    Release(MallocBlocks(AfterOpen(h, v, path), H.BlocksFor(size)).0, FileBlocks(h, SlotsOf(v, path)))
  }

  predicate Nonempty(file: Option<File>) { file.Some? && file.value.size > 0 }

  /** The file stays in its block when the open file's blocks are freed. */
  lemma ClosedFile(h: HeapState, m: Ram, h2: HeapState, m2: Ram, h3: HeapState, m3: Ram, s: nat, o: Open,
                   entry: seq<Byte>, bytes: seq<Byte>)
    requires Extends(h, m, h2, m2) && OpenIn(h2, m2, o, entry) && FileIn(h2, h3, m3, s, bytes)
    ensures FileIn(h, Release(h3, Four(o)), m3, s, bytes)
  {
    hide Bytes, SlotAt, ItemIn;
  }

  /** The steps of process_load_binary between fopen and fclose. */
  method ReadProgram(k: Machine, v: Mount, fatStream: DiskStream, stream: DiskStream, fd: nat, process: Process,
                     ghost o: Open, ghost entry: seq<Byte>)
    returns (r: int, ghost s: nat, ghost bytes: seq<Byte>)
    requires k.Valid() && OpenIn(k.HeapNow(), k.ram, o, entry) && |entry| == ITEM && fd == BlockAddress(o.fd)
    requires FileOf(entry).size > 0 ==> NeverShort(k.HeapNow().table, H.BlocksFor(FileOf(entry).size))
    modifies k`ram, k.heap, k.heap.entries, fatStream, stream, process
    ensures k.Valid() && Extends(old(k.HeapNow()), old(k.ram), k.HeapNow(), k.ram)
    ensures r == 0 || r == -EIO || r == -ENOMEM
    ensures r == 0 <==>
      && FileOf(entry).size > 0 && Reaches(v, FileOf(entry))
      && HasRun(old(k.HeapNow()).table, H.BlocksFor(FileOf(entry).size))
    ensures r == 0 ==> process.ptr == BlockAddress(s) && process.size == |bytes| == FileOf(entry).size
    ensures r == 0 ==> FileIn(old(k.HeapNow()), k.HeapNow(), k.ram, s, bytes)
    ensures r == 0 ==> k.HeapNow() == MallocBlocks(old(k.HeapNow()), H.BlocksFor(|bytes|)).0
    ensures r == 0 ==> IsFile(v, FileOf(entry), bytes)
    ensures process.stack == old(process.stack) && process.task == old(process.task) && process.id == old(process.id)
  {
    hide Extends, IsFile, MallocBlocks, HasRun, NeverShort, Inv, Reaches, Splice, StartAddress, BlockAddress, FileOf;
    hide OpenIn;
    hide H.BlocksFor, FreePage;
    ghost var h, m := k.HeapNow(), k.ram;
    s, bytes := 0, [];
    ExtendsSelf(h, m);
    var size;
    r, size := Fstat(k, fd, o, entry);
    if r != 0 {
      return;
    }
    if size > 0 { Served(h, size); }
    var programData := k.Kzalloc(size);
    ghost var h', start := k.HeapNow(), MallocBlocks(h, H.BlocksFor(size)).1;
    NullIsNone(start);
    if programData == 0 {
      FailedUnchanged(h, H.BlocksFor(size));
      return -ENOMEM, s, bytes;
    }
    s := start;
    ghost var m1 := k.ram;
    if size == 0 {
      NothingGranted(h, m, m1, s, size);
    } else {
      GrantExtends(h, m, H.BlocksFor(size), size);
    }
    OpenKept(h, m, h', m1, o, entry);
    var n;
    n, bytes := FreadAll(k, v, fatStream, stream, fd, size, programData, o, entry);
    if size == 0 {
      NothingSpliced(m1, programData, bytes);
    } else {
      H.BlocksForExact(size);
      FileWritten(h, m, h', s, H.BlocksFor(size), size, bytes);
      SplicedBytes(m1, programData, bytes);
    }
    if n != 1 {
      r := -EIO;
    } else {
      process.ptr := programData;
      process.size := size;
      r := 0;
    }
  }

  lemma NothingGranted(h: HeapState, m: Ram, m1: Ram, s: nat, size: nat)
    requires size == 0 && BlockAddress(s) <= LIMIT && m1 == Splice(m, BlockAddress(s), Zeros(size))
    ensures m1 == m && MallocBlocks(h, H.BlocksFor(size)).0 == h
  {
  }

  lemma NothingSpliced(m: Ram, a: nat, bytes: seq<Byte>)
    requires a <= LIMIT && bytes == []
    ensures Splice(m, a, bytes) == m
  {
  }

  lemma SplicedBytes(m: Ram, a: nat, bytes: seq<Byte>)
    requires a + |bytes| <= LIMIT
    ensures Bytes(Splice(m, a, bytes), a, |bytes|) == bytes
  {
  }

  // ---- tasks ----

  /** task_new and task_init: the task structure, its identity address space, and its
      place at the end of the list. */
  method TaskNew(k: Machine, tasks: List) returns (task: Task)
    requires k.Valid() && tasks.Valid() && |FreeSet(k.HeapNow().table)| >= SLOTS + 3
    modifies k`ram, k.heap, k.heap.entries, tasks, tasks.nodes
    ensures k.Valid() && Extends(old(k.HeapNow()), old(k.ram), k.HeapNow(), k.ram)
    ensures tasks.Valid() && fresh(task) && tasks.nodes == old(tasks.nodes) + [task]
    ensures var c := task.pageDirectory;
      && c + 4 <= LIMIT && Chunk(k.HeapNow(), k.ram, c)
      && Flat(k.ram, DirectoryOf(k.ram, c)) == IdentityMap(TASK_FLAGS) && DirectoryOpen(k.ram, DirectoryOf(k.ram, c))
      && forall p :: p in ChunkPages(k.ram, c) ==> FreePage(old(k.HeapNow()), p)
  {
    hide Extends, Inv, Fits, FreeSet, MallocBlocks, Chunk, ChunkPages, Identity, DirectoryFlags, DirectoryOpen;
    hide Flat, SameOutside, Splice, Take;
    ghost var h, m := k.HeapNow(), k.ram;
    TaskRoom(h);
    var address := k.Kzalloc(TASK_SIZE);
    ghost var h1, m1 := k.HeapNow(), k.ram;
    TaskBlock(h, m, h1, m1, address);
    var pageDirectory := PagingNew4gb(k, TASK_FLAGS);
    task := new Task(address, pageDirectory);
    tasks.Append(task);
    NewSpace(h1, m1, k.HeapNow(), k.ram, pageDirectory);
    ExtendsTrans(h, m, h1, m1, k.HeapNow(), k.ram);
    FreeEarlier(h, m, h1, m1, ChunkPages(k.ram, pageDirectory));
  }

  lemma TaskRoom(h: HeapState)
    requires Inv(h) && |h.table| == HEAP_BLOCKS && |FreeSet(h.table)| >= SLOTS + 3
    ensures Fits(h.table, 1) && |FreeSet(MallocBlocks(h, 1).0.table)| >= SLOTS + 2
  {
    hide FreeSet, Take, MallocBlocks, Fits, Inv;
    FreeBlockFits(h.table);
    MallocOne(h);
    var s := MallocBlocks(h, 1).1;
    FreeAfterTake(h, {s});
    assert FreeSet(h.table) == FreeSet(h.table) - {s} + {s};
  }

  lemma TaskBlock(h: HeapState, m: Ram, h1: HeapState, m1: Ram, address: nat)
    requires Inv(h) && |h.table| == HEAP_BLOCKS && Fits(h.table, 1)
    requires h1 == MallocBlocks(h, H.BlocksFor(TASK_SIZE)).0
    requires address == StartAddress(MallocBlocks(h, H.BlocksFor(TASK_SIZE)).1)
    requires address != 0 ==> address < HEAP_END && m1 == Splice(m, address, Zeros(TASK_SIZE))
    ensures Extends(h, m, h1, m1) && H.BlocksFor(TASK_SIZE) == 1
  {
    hide MallocBlocks, Extends, Splice, Inv, Fits;
    OneBlockSize(TASK_SIZE);
    GrantExtends(h, m, 1, TASK_SIZE);
  }

  /** The identity map as the flat map of a new address space. */
  lemma NewSpace(h: HeapState, m: Ram, h': HeapState, m': Ram, c: nat)
    requires Inv(h) && |h.table| == HEAP_BLOCKS && c + 4 <= LIMIT && Chunk(h', m', c)
    requires Identity(m', DirectoryOf(m', c), TASK_FLAGS) && DirectoryFlags(m', DirectoryOf(m', c), TASK_FLAGS)
    requires h' == Take(h, BlocksOf(ChunkPages(m', c))) && BlocksOf(ChunkPages(m', c)) <= FreeSet(h.table)
    requires SameOutside(m, m', ChunkPages(m', c))
    ensures Extends(h, m, h', m')
    ensures Flat(m', DirectoryOf(m', c)) == IdentityMap(TASK_FLAGS) && DirectoryOpen(m', DirectoryOf(m', c))
    ensures forall p :: p in ChunkPages(m', c) ==> FreePage(h, p)
  {
    hide Chunk, Tree, Take, Inv, SameOutside, ChunkPages, DirectoryOf, DirectoryFlags, Identity, Extends;
    hide DirectoryOpen, Flat, IdentityMap, FreeSet, BlocksOf;
    var ps := ChunkPages(m', c);
    ChunkBlocks(h', m', c);
    TakeExtends(h, m, BlocksOf(ps), m', ps);
    TakenFree(h, ps);
    FlatIdentity(m', DirectoryOf(m', c));
  }

  lemma ChunkBlocks(h: HeapState, m: Ram, c: nat)
    requires c + 4 <= LIMIT && Chunk(h, m, c)
    ensures forall p :: p in ChunkPages(m, c) ==> HeapPage(p) && p - HEAP_PAGE in BlocksOf(ChunkPages(m, c))
  {
    hide Tree, ChunkPages;
    var ps := ChunkPages(m, c);
    forall p | p in ps ensures HeapPage(p) && p - HEAP_PAGE in BlocksOf(ps) {
      assert OneBlock(h, p);
      assert BlockPage(p - HEAP_PAGE) == p;
    }
  }

  lemma TakenFree(h: HeapState, ps: set<nat>)
    requires |h.table| == HEAP_BLOCKS && BlocksOf(ps) <= FreeSet(h.table)
    requires forall p :: p in ps ==> HeapPage(p) && p - HEAP_PAGE in BlocksOf(ps)
    ensures forall p :: p in ps ==> FreePage(h, p)
  {
    hide BlocksOf;
  }

  lemma FlatIdentity(m: Ram, d: Page)
    requires Identity(m, d, TASK_FLAGS) && DirectoryFlags(m, d, TASK_FLAGS)
    ensures Flat(m, d) == IdentityMap(TASK_FLAGS) && DirectoryOpen(m, d)
  {
    hide EntryFor, SlotAt, Or;
    assert Flat(m, d) == IdentityMap(TASK_FLAGS);
    TaskBits();
    forall i | 0 <= i < SLOTS ensures SlotAt(m, d, i) % 8 == 7 {
      assert SlotAt(m, d, i) % 4096 == Or(TASK_FLAGS, WRITEABLE);
      LowBits(SlotAt(m, d, i));
    }
  }

  lemma TaskBits()
    ensures Or(TASK_FLAGS, WRITEABLE) == 7
  {
  }

  lemma LowBits(w: nat)
    ensures w % 8 == w % 4096 % 8
  {
  }

  lemma FreeEarlier(h: HeapState, m: Ram, h1: HeapState, m1: Ram, ps: set<nat>)
    requires Extends(h, m, h1, m1) && forall p :: p in ps ==> FreePage(h1, p)
    ensures forall p :: p in ps ==> FreePage(h, p)
  {
  }

  // ---- the table of processes ----

  lemma SomeMissing(slots: set<nat>, n: nat)
    requires forall i :: i in slots ==> i < n
    ensures |slots| < n <==> exists i :: 0 <= i < n && i !in slots
  {
    RangeSize(0, n);
    assert slots <= Range(0, n);
    if i :| 0 <= i < n && i !in slots {
      SubsetSize(slots, Range(0, n) - {i});
    } else {
      assert slots == Range(0, n);
    }
  }

  /** The process structure says where x is. */
  ghost predicate Describes(process: Process?, x: Loaded, i: nat)
    reads process
  {
    && process != null && process.id == i
    && process.ptr == BlockAddress(x.program) && process.stack == BlockAddress(x.stack)
    && process.size == |x.file|
    && process.task != null && process.task.pageDirectory == x.chunk
  }

  class ProcessTable {
    const slots: array<Process?>
    // what is in memory for each occupied slot
    ghost var loaded: map<nat, Loaded>

    /** Every occupied slot's process is in memory, and no two share program or stack. */
    ghost predicate Holds(h: HeapState, m: Ram)
      reads this, slots, slots[..]
    {
      && slots.Length == MAX_PROCESSES
      && (forall i :: 0 <= i < MAX_PROCESSES ==> (slots[i] != null <==> i in loaded))
      && (forall i :: i in loaded ==> i < MAX_PROCESSES)
      && (forall i :: i in loaded ==> Describes(slots[i], loaded[i], i) && InMemory(h, m, loaded[i]))
      && (forall i, j :: i in loaded && j in loaded && i < j ==> Separate(loaded[i], loaded[j]))
    }

    constructor ()
      ensures fresh(slots) && loaded == map[] && slots.Length == MAX_PROCESSES
      ensures forall i :: 0 <= i < MAX_PROCESSES ==> slots[i] == null
      ensures forall h, m :: Holds(h, m)
    {
      slots := new Process?[MAX_PROCESSES](_ => null);
      loaded := map[];
    }

    /** process_get */
    function ProcessGet(processId: int): Process?
      requires slots.Length == MAX_PROCESSES
      reads this, slots
    {
      if processId < 0 || processId >= MAX_PROCESSES then null else slots[processId]
    }

    /** process_get_free_slot */
    method GetFreeSlot() returns (r: int)
      requires slots.Length == MAX_PROCESSES
      ensures r >= 0 ==> r < MAX_PROCESSES && slots[r] == null && forall j :: 0 <= j < r ==> slots[j] != null
      ensures r < 0 ==> r == -EISTKN && forall j :: 0 <= j < MAX_PROCESSES ==> slots[j] != null
    {
      for i := 0 to MAX_PROCESSES
        invariant forall j :: 0 <= j < i ==> slots[j] != null
      {
        if slots[i] == null {
          return i;
        }
      }
      r := -EISTKN;
    }

    /** A slot is free exactly when fewer than twelve processes are loaded. */
    lemma FullOrNot(h: HeapState, m: Ram)
      requires Holds(h, m)
      ensures |loaded| < 12 <==> exists i :: 0 <= i < slots.Length && slots[i] == null
    {
      hide InMemory, Describes, Separate;
      SomeMissing(loaded.Keys, MAX_PROCESSES);
    }

    /** processes[slot] = process */
    method Publish(process: Process, ghost x: Loaded, slot: nat, ghost h: HeapState, ghost m: Ram)
      requires Holds(h, m) && slot < MAX_PROCESSES && slots[slot] == null
      requires Describes(process, x, slot) && InMemory(h, m, x)
      requires forall i :: i in loaded ==> Separate(loaded[i], x) && Separate(x, loaded[i])
      modifies this, slots
      ensures Holds(h, m) && loaded == old(loaded)[slot := x] && slots[slot] == process
      ensures forall i :: 0 <= i < MAX_PROCESSES && i != slot ==> slots[i] == old(slots[i])
    {
      hide InMemory;
      slots[slot] := process;
      loaded := loaded[slot := x];
    }

    /** The processes stay in memory while memory only grows. */
    lemma Kept(h: HeapState, m: Ram, h': HeapState, m': Ram)
      requires Holds(h, m) && Inv(h) && |h.table| == HEAP_BLOCKS && Extends(h, m, h', m')
      ensures Holds(h', m')
    {
      hide InMemory, Extends, Inv;
      forall i | i in loaded ensures Describes(slots[i], loaded[i], i) && InMemory(h', m', loaded[i]) {
        InMemoryKept(h, m, h', m', loaded[i]);
      }
    }
  }

  // ---- loading a process ----

  /** What a load asks of the heap: the structure, the program and the stack are not
      handed a short run, and the open, then the task and its address space find single
      blocks. The steps after one that fails ask nothing. */
  ghost predicate LoadSound(h: HeapState, v: Mount, path: seq<Byte>) {
    && NeverShort(h.table, PROCESS_BLOCKS)
    && (HasRun(h.table, PROCESS_BLOCKS) ==> OpenSound(MallocBlocks(h, PROCESS_BLOCKS).0, v, path))
  }

  ghost predicate OpenSound(h1: HeapState, v: Mount, path: seq<Byte>) {
    && OpenNeeds(v, path) <= |FreeSet(h1.table)|
    && (Nonempty(Opened(v, path)) ==> ProgramSound(h1, v, path, Opened(v, path).value))
  }

  ghost predicate ProgramSound(h1: HeapState, v: Mount, path: seq<Byte>, file: File) {
    && NeverShort(AfterOpen(h1, v, path).table, H.BlocksFor(file.size))
    && (HasRun(AfterOpen(h1, v, path).table, H.BlocksFor(file.size)) && Reaches(v, file) ==>
          StackSound(AfterLoad(h1, v, path, file.size)))
  }

  ghost predicate StackSound(h2: HeapState) {
    && NeverShort(h2.table, STACK_BLOCKS)
    && (HasRun(h2.table, STACK_BLOCKS) ==> |FreeSet(MallocBlocks(h2, STACK_BLOCKS).0.table)| >= SLOTS + 3)
  }

  /** The structure, then with the file open the program, then with the file closed the
      stack find their runs of blocks. */
  ghost predicate LoadFits(h: HeapState, v: Mount, path: seq<Byte>, size: Word) {
    && HasRun(h.table, PROCESS_BLOCKS)
    && var h1 := MallocBlocks(h, PROCESS_BLOCKS).0;
    && HasRun(AfterOpen(h1, v, path).table, H.BlocksFor(size))
    && HasRun(AfterLoad(h1, v, path, size).table, STACK_BLOCKS)
  }

  /** One free run of all the blocks together is more than enough. */
  lemma RunIsEnough(h: HeapState, v: Mount, path: seq<Byte>)
    requires Inv(h) && Opened(v, path).Some? && 0 < Opened(v, path).value.size <= 0xffff_f000
    requires Fits(h.table, OpenTakes(v, path) + H.BlocksFor(Opened(v, path).value.size) + SLOTS + 9)
    ensures LoadSound(h, v, path) && LoadFits(h, v, path, Opened(v, path).value.size)
  {
    hide MallocBlocks, Fits, Inv, FreeSet, Reaches, Opened, OpenTakes, Singles, Release, FileBlocks;
    var j, size := OpenTakes(v, path), Opened(v, path).value.size;
    var b := H.BlocksFor(size);
    H.BlocksForExact(size);
    TakesForOne(v, path);
    FitShrinks(h, j + b + SLOTS + 9, PROCESS_BLOCKS);
    MallocInv(h, PROCESS_BLOCKS);
    var h1 := MallocBlocks(h, PROCESS_BLOCKS).0;
    FitsFreeSet(h1.table, j + b + SLOTS + 7);
    SinglesFit(h1, j + b + SLOTS + 7, j);
    var h2 := Singles(h1, j);
    FitShrinks(h2, b + SLOTS + 7, b);
    var h4 := Release(MallocBlocks(h2, b).0, FileBlocks(h1, SlotsOf(v, path)));
    ReleaseFits(MallocBlocks(h2, b).0, FileBlocks(h1, SlotsOf(v, path)), SLOTS + 7);
    FitShrinks(h4, SLOTS + 7, STACK_BLOCKS);
    FitsFreeSet(MallocBlocks(h4, STACK_BLOCKS).0.table, SLOTS + 3);
  }

  /** kzalloc of a size that is not handed a short run. */
  method ZallocSound(k: Machine, size: Word, ghost n: nat) returns (ptr: nat, ghost s: nat)
    requires k.Valid() && size > 0 && n == H.BlocksFor(size) && NeverShort(k.HeapNow().table, n)
    modifies k`ram, k.heap, k.heap.entries
    ensures k.Valid() && k.HeapNow() == MallocBlocks(old(k.HeapNow()), n).0
    ensures ptr == 0 <==> !HasRun(old(k.HeapNow()).table, n)
    ensures ptr == 0 ==> k.HeapNow() == old(k.HeapNow()) && k.ram == old(k.ram)
    ensures ptr != 0 ==> ptr == BlockAddress(s) && s + n <= HEAP_BLOCKS
    ensures ptr != 0 ==> s !in old(k.HeapNow()).live && s in k.HeapNow().live && k.HeapNow().live[s] == n
    ensures Extends(old(k.HeapNow()), old(k.ram), k.HeapNow(), k.ram)
  {
    hide Extends, MallocBlocks, Fits, HasRun, Inv, Splice, NeverShort, H.BlocksFor;
    ghost var h, m := k.HeapNow(), k.ram;
    Served(h, size);
    ExtendsSelf(h, m);
    NullIsNone(MallocBlocks(h, n).1);
    ptr := k.Kzalloc(size);
    s := 0;
    if ptr != 0 {
      GrantExtends(h, m, n, size);
      s := MallocBlocks(h, n).1;
    }
  }

  /** The parts come together: program (h2), stack (h3), task (h4), map (m5). */
  lemma LoadDone(h: HeapState, m: Ram, h1: HeapState, m1: Ram, h2: HeapState, m2: Ram, h3: HeapState, m3: Ram,
                 h4: HeapState, m4: Ram, m5: Ram, x: Loaded)
    requires Inv(h2) && Inv(h3) && |h2.table| == HEAP_BLOCKS && |h3.table| == HEAP_BLOCKS
    requires Extends(h, m, h1, m1) && Extends(h1, m1, h2, m2) && Extends(h2, m2, h3, m3) && Extends(h3, m3, h4, m4)
    requires FileIn(h1, h2, m2, x.program, x.file)
    requires x.stack !in h2.live && x.stack in h3.live && h3.live[x.stack] == STACK_BLOCKS
    requires x.stack + STACK_BLOCKS <= HEAP_BLOCKS
    requires x.chunk + 4 <= LIMIT && Chunk(h4, m4, x.chunk) && DirectoryOpen(m4, DirectoryOf(m4, x.chunk))
    requires forall p :: p in ChunkPages(m4, x.chunk) ==> FreePage(h3, p)
    requires Remapped(m4, m5, DirectoryOf(m4, x.chunk),
                      ProcessMap(BlockPage(x.program), H.BlocksFor(|x.file|), BlockPage(x.stack)))
    ensures Extends(h, m, h4, m5) && InMemory(h4, m5, x)
    ensures x.program !in h.live && x.stack !in h.live
  {
    hide Inv, Chunk, ChunkPages, DirectoryOpen, Remapped, ProcessMap, Flat, Bytes, FreePage, SameOutside;
    hide DirectoryOf;
    var f := ProcessMap(BlockPage(x.program), H.BlocksFor(|x.file|), BlockPage(x.stack));
    ChunkRemapped(h4, m4, m5, x.chunk, f);
    ExtendsWrite(h3, m3, h4, m4, m5, ChunkPages(m4, x.chunk));
    ExtendsTrans(h2, m2, h3, m3, h4, m5);
    ExtendsTrans(h1, m1, h2, m2, h4, m5);
    ExtendsTrans(h, m, h1, m1, h4, m5);
    H.BlocksForExact(|x.file|);
    LiveKept(h2, m2, h4, m5, x.program, |x.file|);
    OpenFrame(m4, m5, DirectoryOf(m4, x.chunk));
    KeptThrough(h1, m1, h2, m2, h3, m3, h4, m5, x);
    LiveOutside(h3, x.program, ChunkPages(m4, x.chunk));
    LiveOutside(h3, x.stack, ChunkPages(m4, x.chunk));
  }

  lemma LiveOutside(h: HeapState, s: nat, ps: set<nat>)
    requires Inv(h) && |h.table| == HEAP_BLOCKS && s in h.live && h.live[s] >= 1
    requires forall p :: p in ps ==> FreePage(h, p)
    ensures BlockPage(s) !in ps
  {
    hide Inv;
    LiveNotFree(h, s, s);
  }

  lemma KeptThrough(h1: HeapState, m1: Ram, h2: HeapState, m2: Ram, h3: HeapState, m3: Ram, h4: HeapState, m5: Ram,
                    x: Loaded)
    requires Extends(h1, m1, h2, m2) && Extends(h2, m2, h3, m3) && Extends(h3, m3, h4, m5)
    requires x.program in h2.live && x.stack !in h2.live && x.stack in h3.live
    ensures x.program in h4.live && h4.live[x.program] == h2.live[x.program]
    ensures x.program in h3.live && h3.live[x.program] == h2.live[x.program]
    ensures x.stack in h4.live && h4.live[x.stack] == h3.live[x.stack]
    ensures x.stack !in h1.live && x.program != x.stack
  {
  }

  /** The file is loaded: what the structure says and where the bytes are. */
  ghost predicate ProgramLoaded(h: HeapState, m: Ram, h1: HeapState, m1: Ram, h2: HeapState, m2: Ram, process: Process,
                                s: nat, file: seq<Byte>)
    reads process
  {
    && Extends(h, m, h1, m1) && Extends(h1, m1, h2, m2) && FileIn(h1, h2, m2, s, file)
    && process.ptr == BlockAddress(s) && process.size == |file|
  }

  lemma StackSize()
    ensures H.BlocksFor(STACK_SIZE) == STACK_BLOCKS && H.BlocksFor(PROCESS_SIZE) == PROCESS_BLOCKS
  {
  }

  /** The rest of process_load_for_slot: stack, task and mapping. */
  method AddStackAndTask(k: Machine, tasks: List, process: Process, slot: nat,
                         ghost h: HeapState, ghost m: Ram, ghost h1: HeapState, ghost m1: Ram, ghost s: nat,
                         ghost file: seq<Byte>)
    returns (r: int, ghost x: Loaded)
    requires k.Valid() && tasks.Valid() && ProgramLoaded(h, m, h1, m1, k.HeapNow(), k.ram, process, s, file)
    requires StackSound(k.HeapNow())
    modifies k`ram, k.heap, k.heap.entries, tasks, tasks.nodes, process
    ensures k.Valid() && tasks.Valid() && (r == 0 || r == -ENOMEM)
    ensures r == 0 <==> HasRun(old(k.HeapNow()).table, STACK_BLOCKS)
    ensures Extends(h, m, k.HeapNow(), k.ram)
    ensures r == 0 ==> InMemory(k.HeapNow(), k.ram, x) && Describes(process, x, slot) && x.file == file
    ensures r == 0 ==> x.program !in h.live && x.stack !in h.live
  {
    hide Extends, Inv, HasRun, MallocBlocks, Chunk, ChunkPages, DirectoryOpen, Flat, IdentityMap, ProcessMap;
    hide WithProcess, InMemory, FileIn, Remapped;
    hide FreePage, FreeSet, BlockAddress, DirectoryOf, H.BlocksFor, NeverShort;
    ghost var h2, m2 := k.HeapNow(), k.ram;
    x := Loaded(0, 0, 0, []);
    StackSize();
    ExtendsTrans(h, m, h1, m1, h2, m2);
    var programStack;
    ghost var sb;
    programStack, sb := ZallocSound(k, STACK_SIZE, STACK_BLOCKS);
    if programStack == 0 {
      return -ENOMEM, x;
    }
    process.stack := programStack;
    process.id := slot;
    FileBounds(h1, h2, m2, s, file);
    r, x := AddTask(k, tasks, process, h, m, h1, m1, h2, m2, s, sb, file);
  }

  lemma FileBounds(h1: HeapState, h2: HeapState, m2: Ram, s: nat, file: seq<Byte>)
    requires FileIn(h1, h2, m2, s, file)
    ensures 0 < |file| <= HEAP_BLOCKS * 4096 && s + H.BlocksFor(|file|) <= HEAP_BLOCKS
  {
  }

  /** The task of the process, and its map. */
  method AddTask(k: Machine, tasks: List, process: Process, ghost h: HeapState, ghost m: Ram, ghost h1: HeapState,
                 ghost m1: Ram,
                 ghost h2: HeapState, ghost m2: Ram, ghost s: nat, ghost sb: nat, ghost file: seq<Byte>)
    returns (r: int, ghost x: Loaded)
    requires k.Valid() && tasks.Valid() && |FreeSet(k.HeapNow().table)| >= SLOTS + 3
    requires Inv(h2) && |h2.table| == HEAP_BLOCKS && FileIn(h1, h2, m2, s, file) && 0 < |file| <= HEAP_BLOCKS * 4096
    requires Extends(h, m, h1, m1) && Extends(h1, m1, h2, m2) && Extends(h2, m2, k.HeapNow(), k.ram)
    requires process.ptr == BlockAddress(s) && process.size == |file| && s + H.BlocksFor(|file|) <= HEAP_BLOCKS
    requires process.stack == BlockAddress(sb) && sb + STACK_BLOCKS <= HEAP_BLOCKS
    requires sb !in h2.live && sb in k.HeapNow().live && k.HeapNow().live[sb] == STACK_BLOCKS
    modifies k`ram, k.heap, k.heap.entries, tasks, tasks.nodes, process`task
    ensures k.Valid() && tasks.Valid() && r == 0
    ensures x.program == s && x.stack == sb && x.file == file && process.task != null
    ensures process.task.pageDirectory == x.chunk
    ensures Extends(h, m, k.HeapNow(), k.ram) && InMemory(k.HeapNow(), k.ram, x)
    ensures x.program !in h.live && x.stack !in h.live
  {
    hide Extends, Inv, MallocBlocks, Chunk, ChunkPages, DirectoryOpen, Flat, IdentityMap, WithProcess, InMemory;
    hide FileIn, Remapped;
    hide FreePage, FreeSet, BlockAddress, DirectoryOf, H.BlocksFor;
    ghost var h3, m3 := k.HeapNow(), k.ram;
    var task := TaskNew(k, tasks);
    ghost var h4, m4 := k.HeapNow(), k.ram;
    process.task := task;
    r := ProcessMapMemory(k, process, h4, s, sb);
    x := Loaded(s, sb, task.pageDirectory, file);
    LoadDone(h, m, h1, m1, h2, m2, h3, m3, h4, m4, k.ram, x);
  }

  /** The part of process_load_for_slot that allocates, reads and maps. */
  method BuildProcess(k: Machine, v: Mount, fatStream: DiskStream, stream: DiskStream,
                      tasks: List, path: seq<Byte>, slot: nat)
    returns (r: int, process: Process?, ghost x: Loaded)
    requires k.Valid() && tasks.Valid() && LoadSound(k.HeapNow(), v, path)
    requires 0 !in path && PathSafe(v, path)
    modifies k`ram, k.heap, k.heap.entries, fatStream, stream, tasks, tasks.nodes
    ensures k.Valid() && tasks.Valid() && (process != null ==> fresh(process))
    ensures Extends(old(k.HeapNow()), old(k.ram), k.HeapNow(), k.ram)
    ensures r <= 0 && (r == 0 <==> CanLoad(old(k.HeapNow()), v, path))
    ensures r == 0 ==> process != null && Describes(process, x, slot) && InMemory(k.HeapNow(), k.ram, x)
    ensures r == 0 ==> x.program !in old(k.HeapNow()).live && x.stack !in old(k.HeapNow()).live
    ensures r == 0 ==> IsFile(v, Opened(v, path).value, x.file)
  {
    hide Extends, Inv, HasRun, MallocBlocks, InMemory, FileIn, H.BlocksFor, IsFile, Opened, Reaches, BlockAddress;
    hide Describes, NeverShort;
    hide StackSound, PathSafe, FreeSet, AfterOpen, AfterLoad, OpenNeeds;
    ghost var h, m := k.HeapNow(), k.ram;
    x := Loaded(0, 0, 0, []);
    process := null;
    StackSize();
    var address;
    ghost var ab;
    address, ab := ZallocSound(k, PROCESS_SIZE, PROCESS_BLOCKS);
    if address == 0 {
      return -ENOMEM, null, x;
    }
    ghost var h1, m1 := k.HeapNow(), k.ram;
    process := new Process(address);
    ghost var s, bytes;
    r, s, bytes := ProcessLoadBinary(k, v, fatStream, stream, path, process);
    ExtendsTrans(h, m, h1, m1, k.HeapNow(), k.ram);
    if r < 0 {
      return;
    }
    r, x := AddStackAndTask(k, tasks, process, slot, h, m, h1, m1, s, bytes);
  }

  /** A load succeeds: the path opens a file that is not empty and has a chain long
      enough, and the load finds its runs of blocks. */
  ghost predicate CanLoad(h: HeapState, v: Mount, path: seq<Byte>) {
    && Nonempty(Opened(v, path)) && Reaches(v, Opened(v, path).value)
    && LoadFits(h, v, path, Opened(v, path).value.size)
  }

  /** process_load_for_slot */
  method ProcessLoadForSlot(k: Machine, v: Mount, fatStream: DiskStream, stream: DiskStream,
                            tasks: List, table: ProcessTable, path: seq<Byte>, slot: nat)
    returns (r: int, process: Process?)
    requires k.Valid() && tasks.Valid() && table.Holds(k.HeapNow(), k.ram) && slot < MAX_PROCESSES
    requires table.slots[slot] == null ==> LoadSound(k.HeapNow(), v, path)
    requires 0 !in path && PathSafe(v, path)
    modifies k`ram, k.heap, k.heap.entries, fatStream, stream, tasks, tasks.nodes, table, table.slots
    ensures k.Valid() && tasks.Valid() && table.Holds(k.HeapNow(), k.ram)
    ensures Extends(old(k.HeapNow()), old(k.ram), k.HeapNow(), k.ram)
    ensures r == 0 <==> old(table.slots[slot]) == null && CanLoad(old(k.HeapNow()), v, path)
    ensures old(table.slots[slot]) != null ==> r == -EISTKN
    ensures r != 0 ==> table.loaded == old(table.loaded) && process == null
    ensures r == 0 ==> table.loaded.Keys == old(table.loaded).Keys + {slot} && table.slots[slot] == process
    ensures r == 0 ==> forall i :: i in old(table.loaded) ==> table.loaded[i] == old(table.loaded[i])
    ensures r == 0 ==> Opened(v, path).Some? && IsFile(v, Opened(v, path).value, table.loaded[slot].file)
  {
    hide Extends, InMemory, IsFile, Opened, LoadFits, LoadSound, PathSafe, Describes, Separate;
    process := null;
    ghost var h, m := k.HeapNow(), k.ram;
    ExtendsSelf(h, m);
    if table.ProcessGet(slot) != null {
      return -EISTKN, null;
    }
    var p;
    ghost var x;
    r, p, x := BuildProcess(k, v, fatStream, stream, tasks, path, slot);
    table.Kept(h, m, k.HeapNow(), k.ram);
    if r < 0 {
      return r, null;
    }
    process := p;
    NewSeparate(h, m, table.loaded, x);
    table.Publish(p, x, slot, k.HeapNow(), k.ram);
  }

  /** What is newly allocated is separate from what was loaded before. */
  lemma NewSeparate(h: HeapState, m: Ram, loaded: map<nat, Loaded>, x: Loaded)
    requires forall i :: i in loaded ==> InMemory(h, m, loaded[i])
    requires x.program !in h.live && x.stack !in h.live
    ensures forall i :: i in loaded ==> Separate(loaded[i], x) && Separate(x, loaded[i])
  {
  }

  /** process_load: into the first free slot. */
  method ProcessLoad(k: Machine, v: Mount, fatStream: DiskStream, stream: DiskStream,
                     tasks: List, table: ProcessTable, path: seq<Byte>)
    returns (r: int, process: Process?)
    requires k.Valid() && tasks.Valid() && table.Holds(k.HeapNow(), k.ram)
    requires |table.loaded| < MAX_PROCESSES ==> LoadSound(k.HeapNow(), v, path)
    requires 0 !in path && PathSafe(v, path)
    modifies k`ram, k.heap, k.heap.entries, fatStream, stream, tasks, tasks.nodes, table, table.slots
    ensures k.Valid() && tasks.Valid() && table.Holds(k.HeapNow(), k.ram)
    ensures r == 0 <==> |old(table.loaded)| < MAX_PROCESSES && CanLoad(old(k.HeapNow()), v, path)
    ensures r != 0 ==> table.loaded == old(table.loaded)
    ensures forall i :: i in old(table.loaded) ==> i in table.loaded && table.loaded[i] == old(table.loaded[i])
    ensures r == 0 ==> process != null && process.id in table.loaded && process.id !in old(table.loaded)
    ensures r == 0 ==> Opened(v, path).Some? && IsFile(v, Opened(v, path).value, table.loaded[process.id].file)
  {
    hide InMemory, IsFile, Opened, LoadFits, LoadSound, PathSafe, Separate, Extends;
    var processSlot := table.GetFreeSlot();
    table.FullOrNot(k.HeapNow(), k.ram);
    if processSlot < 0 {
      return -EISTKN, null;
    }
    r, process := ProcessLoadForSlot(k, v, fatStream, stream, tasks, table, path, processSlot);
  }

  /** In any state that the loads reach, each process sees its own file from 0x400000 on,
      and no two processes share a frame behind their own addresses. */
  lemma LoadedProcesses(table: ProcessTable, h: HeapState, m: Ram, i: nat, j: nat, k: nat, a: nat, b: nat)
    requires table.Holds(h, m) && Inv(h) && i in table.loaded && j in table.loaded
    requires k < |table.loaded[i].file| && Own(table.loaded[i], a) && Own(table.loaded[j], b)
    ensures a < LIMIT && b < LIMIT && PROGRAM_ADDRESS + k < LIMIT
    ensures ByteAt(m, DirectoryOf(m, table.loaded[i].chunk), PROGRAM_ADDRESS + k) == table.loaded[i].file[k]
    ensures i != j ==>
      var p := Translate(m, DirectoryOf(m, table.loaded[i].chunk), a);
      var q := Translate(m, DirectoryOf(m, table.loaded[j].chunk), b);
      p.Some? && q.Some? && PageOf(p.value) != PageOf(q.value)
  {
    hide InMemory, Translate, ByteAt, Inv, DirectoryOf;
    var x, y := table.loaded[i], table.loaded[j];
    LoadedBounds(h, m, x);
    LoadedBounds(h, m, y);
    ProgramSeen(h, m, x, k);
    if i < j {
      FramesApart(h, m, x, y, a, b);
    } else if j < i {
      FramesApart(h, m, y, x, b, a);
    }
  }

  lemma LoadedBounds(h: HeapState, m: Ram, x: Loaded)
    requires InMemory(h, m, x)
    ensures |x.file| <= HEAP_BLOCKS * 4096 && x.chunk + 4 <= LIMIT
  {
  }
}
