# Dexter kernel model

A model of the stateful core of the Dexter x86 kernel and proofs about it. Memory is
2^32 bytes of RAM; the kernel heap, the page tables, tasks and processes, the FAT16 read
path, the path parser, the keyboard ring and the descriptor encoder work on it or beside it.

The modules build on each other:

- `HeapSpec`, `Heap`, `HeapGrants`, `Machine`, `Blocks`, `Growth`: the block heap, first as
  functions on its table, then as a class over the table array, then over physical memory.
- `Bits`, `Memory`, `PageTables`, `Paging`: words and pages of memory, and the two-level tables
  as a refinement of a flat map of 2^20 pages. That directories and tables do not overlap
  comes from the heap. Translation follows section 4.3 of the Intel SDM, Volume 3A.
- `Strings`, `UserMemory`, `TaskCopy`, `TaskList`: strings read through a loaded directory,
  the copy out of a task, and the list of tasks.
- `Int32`, `Streamer`, `FatPosition`, `Geometry`, `Fat16Read`, `Fat16Exact`, `Fat16Format`: `int`
  arithmetic, the sector reader, where things lie on a volume, and the chain read with its exact
  conditions, against the chain of the code and that of the format. Layout rules are those of
  "FAT: General Overview of On-Disk Format", version 1.03.
- `Fat16Names`, `Directory`, `Entries`: the names of directory entries, looking one up in the
  directory, and entries as the format writes them against what is read out of them.
- `Paths`, `PathParser`, `Files`: what a path means, the parser over the heap, and opening and
  closing a file with the heap blocks that this takes.
- `AddressSpace`, `Process`, `Access`, `Loader`, `ProcessStrings`: loading a program, and what it may
  then read and write (section 4.6 of the same volume). `Process.ProcessLoad` with
  `Process.LoadedProcesses` joins heap, tables, path, file and chain read; `Loader.LoadPath` ends at
  the bytes that the process sees, and `ProcessStrings.CopyFromProcess` copies one of its strings.
- `Keyboard`, `Gdt`: the ring refines a queue; encoding and decoding a descriptor.
- `Status`, `Wrappers`: error numbers, the option type and distinct sequences.

## Which version of the code

The methods follow the code as it is written. Where it falls short of its intent the
theorems say so:

- `HEAP_BLOCK_HAS_NEXT` is 256 and an entry is an `unsigned char` (src/mem/heap.h:10-13), so
  the bit is lost. The width of an entry is a parameter, `UnsignedChar` (as written) or
  `UnsignedShort` (repaired). Safety and everything in `Paging`, `TaskCopy`, `Process` and
  `PathParser` holds at both; `HeapSpec.MallocThenFree` says exactly what is lost, and
  `HeapSpec.RunConserves` which runs lose nothing.
- The heap search hands out a short run at the end of the table (src/mem/heap.c:103). It is
  modelled as an allocation that can be freed like any other, with the memory after the table
  that marking the run overwrites.
- The sector reader indexes by offset + i (src/fs/streamer.c:43), and the chain read
  ignores the place in the cluster (src/fs/fat16.c:467). Both are modelled for all
  arguments. Positions and offsets are of type `int` (src/fs/streamer.c:20, src/fs/fat16.c:466), and
  the model wraps them: past byte 2^31 the code reads elsewhere. `Streamer.AlignedExact` and
  `Fat16Exact.ReadAlignedExact` give the exact conditions under which the reads are right.
- The FAT entry position is a product (src/fs/fat16.c:384) and the end markers are 12-bit
  values. `FatPosition.NeverTheEntry` shows that the position is wrong for every cluster. The
  chain theorems hold for any successor function, in particular for the one that the
  code computes, with the marker set of the code. `Fat16Format.ReadFormatExact` says what the
  position costs: no read that needs a second cluster is right by the format on every disk.
- The end of the root directory is rounded down to a sector (src/fs/fat16.c:251), where the format
  rounds up: `Geometry.PlacesAgree` says when all clusters are a sector too low.
- 8.3 names are scanned without a bound and cut at their first space (src/fs/fat16.c:309), where the
  format pads them at the end only, and deleted entries shift the count (src/fs/fat16.c:161-208).
  `Fat16Names.NameExact` and `Fat16Names.CountCovers` are exact, and `Directory.LookupExact` is for one
  name at a time: entries of long names, labels and other names that are built wrong do no harm
  to the lookup of a name that they do not meet.
- A parsed path is never freed, and each entry with the name takes an item of which only the last
  is used (src/fs/fat16.c:601-617): `Files.LeavesPathOnly` and `Files.OpenAndClose` count what stays.
- `task_list_remove` leaves the prev link of the successor (src/proc/task.c:117-138). The list
  has a constant `repaired`; `Remove` says exactly which removals stay right, and `RunChanges`
  which runs, as written and with the missing line.

## Model

| member | source | states |
|---|---|---|
| HeapSpec.StartBlockExact | src/mem/heap.c:75-109 | For every table and every request of at least one block: -ENOMEM is returned exactly when no free run of that length exists and the last block is taken; a returned block has the whole request inside the table exactly when some run fits (otherwise the short run at the end of the table is handed out) |
| HeapSpec.EntryMasks | src/mem/heap.c:41-44 | Free blocks and chains are told by the bits that the code masks: the low four, and bit 8 |
| HeapSpec.OneBlockNeverShort | src/mem/heap.c:75-109 | A request for one block is refused exactly when no block is free; it is never handed a short run |
| HeapSpec.FirstFit | src/mem/heap.c:75-109 | The start is a run of free blocks of the requested length, and no lower block starts one |
| HeapSpec.MallocInv | src/mem/heap.c:160-176 | At either entry width, allocating any number of blocks keeps: live allocations, short runs among them, are in bounds, marked, pairwise disjoint, and with the leaked blocks they are exactly the taken blocks |
| HeapSpec.ChainOfLive | src/mem/heap.c:144-158 | Freeing a live allocation clears all its blocks when an entry can hold HAS_NEXT, and only its first block when it cannot |
| HeapSpec.FreeInv | src/mem/heap.c:186-189 | Freeing a live or free block keeps the invariant, at either width |
| HeapSpec.FreeOfFree | src/mem/heap.c:186-189 | Freeing a free block changes nothing |
| HeapSpec.RunInv | src/mem/heap.c:160-189 | The invariant survives every run of allocations and frees of returned pointers, also those of short runs, from any state that has it |
| HeapSpec.RunSafety | src/mem/heap.c:121-189 | After every run from the empty heap in which each pointer that was returned may be freed, as written and with wide entries, live allocations are in bounds, marked taken and pairwise disjoint |
| HeapSpec.RunLossless | src/mem/heap.c:121-189 | For every such run from any good state: nothing is leaked, now or when the rest is freed, if and only if nothing was at the start and each operation conserves (a request for no blocks, a refused one, one that is granted a single block, or any when entries are wide) |
| HeapSpec.RunConserves | src/mem/heap.c:121-189 | A run that frees all it was returned, in any order, leaves every entry 0 if and only if each of its operations conserves |
| HeapSpec.MallocThenFree | src/mem/heap.c:121-189 | A request that returns a pointer, freed at once, restores the heap if and only if one block was granted or entries are wide; what is lost otherwise is exactly all granted blocks but the first, also for a short run |
| Heap.BlocksForExact | src/mem/heap.c:28-39 | The block count is the least that holds the bytes, except above 0xfffff000, where the rounding wraps to none |
| Heap.HeapCreate | src/mem/heap.c:46-73 | Refused exactly for misaligned bounds or a table of the wrong size; otherwise a valid, empty heap |
| Heap.Heap.constructor | src/mem/heap.c:46-73 | The table as initialised is the empty heap state |
| Heap.Heap.GetStartBlock | src/mem/heap.c:75-109 | The scan with its two counters computes the first-fit specification for every table and request, including its two failure results |
| Heap.Heap.MarkBlocksTaken | src/mem/heap.c:121-142 | Every entry of the run gets the flags of its place in the chain, every other entry of the table stays, and what lies past the table is overwritten as far as a short run reaches |
| Heap.Heap.MarkBlocksFree | src/mem/heap.c:144-158 | Exactly the chain from the start block is cleared |
| Heap.Heap.MallocBlocks | src/mem/heap.c:160-176 | The heap and the address are those of the specification, for all requests up to 2^20 blocks |
| Heap.Heap.Malloc | src/mem/heap.c:178-184 | The same for a size in bytes, any 32-bit value |
| Heap.Heap.Free | src/mem/heap.c:186-189 | The heap after freeing a returned pointer or a free block is that of the specification |
| HeapGrants.MallocOne | src/mem/heap.c:160-176 | A one-block request, when some block is free, takes just one free block |
| HeapGrants.SinglesTake | src/mem/heap.c:121-189 | For any number of one-block requests up to the number of free blocks: each takes another free block and nothing else changes |
| HeapGrants.SinglesApart | src/mem/heap.c:121-189 | Different requests in such a row get different blocks |
| HeapGrants.ReleaseTaken | src/mem/heap.c:121-189 | Taking any set of free blocks one by one and freeing them, in any order, restores the heap |
| HeapGrants.ReleaseSome | src/mem/heap.c:121-189 | Freeing some of the blocks taken one by one leaves the heap as if only the others had been taken |
| HeapGrants.FreeOne | src/mem/heap.c:186-189 | Freeing a one-block allocation clears just that block at either width |
| Machine.Machine.constructor | src/mem/kheap.c:11-27 | The kernel heap starts empty: 25600 blocks from 0x01000000 |
| Machine.HeapRange | src/mem/kheap.c:11-27 | The blocks of the kernel heap are exactly the pages of the 104857600 bytes from 16 MiB on |
| Machine.LiveInHeap | src/mem/kheap.c:11-27 | Every byte of a live allocation lies in that range |
| Machine.Machine.Clear | src/mem/kheap.c:39-51 | The given bytes are 0 and no other byte of memory changed |
| Machine.Machine.Kmalloc | src/mem/kheap.c:29-32 | Address and heap as specified; 0 on failure |
| Machine.Machine.Kfree | src/mem/kheap.c:34-37 | The heap as specified |
| Machine.Machine.Kzalloc | src/mem/kheap.c:39-51 | As kmalloc, and exactly the requested bytes are zeroed; on failure memory is unchanged |
| Blocks.ZallocBlock | src/mem/kheap.c:39-51 | For up to one block: the result is an aligned heap page that was free, no other page changed |
| Bits.OrDisjoint | src/mem/paging.c:18-22 | OR of values without a common bit is their sum, proved bit by bit |
| Bits.OrFlags | src/mem/paging.c:18-22 | For an aligned address and flags below 4096, OR is the sum, and masking with 0xfffff000 gives the address back |
| Bits.PageBaseIs | src/mem/paging.c:39-50 | Masking with 0xfffff000 rounds any 32-bit value down to its page |
| Memory.LowByteFirst | src/mem/paging.c:148-183 | Words lie in memory with the low byte first |
| PageTables.SetEntryFlat | src/mem/paging.c:161-183 | Storing an entry is one update of the flat map of 2^20 pages: that page reads the new entry, every other page and every directory entry is unchanged |
| PageTables.SetEntryBack | src/mem/paging.c:161-183 | Storing the old entry back restores memory byte for byte |
| PageTables.TreeFrame | src/mem/paging.c:148-183 | Writes outside the 1025 pages of a directory and its tables leave its flat map alone |
| PageTables.SameTranslation | src/mem/paging.c:148-183 | Equal flat maps and directory words translate every address alike |
| PageTables.MapPagesAt | src/mem/paging.c:97-113 | After mapping a range of any length, also one that wraps at 2^20 pages: page q reads the frame as far after the first frame as q is after the first page, if that lies in the range, and every other page is unchanged; any flags |
| PageTables.MapPagesInside | src/mem/paging.c:97-113 | The same for a range that does not wrap, with flags below 4096: the entry is frame * 4096 + flags |
| Paging.FillTable | src/mem/paging.c:9-31 | One inner loop fills a table with the identity entries of its 4 MiB and touches no other page |
| Paging.AddTable | src/mem/paging.c:9-31 | One outer pass takes one more free block, fills it and enters it in the directory, keeping all earlier tables |
| Paging.EnteredDone | src/mem/paging.c:9-31 | 1024 entered tables in different blocks are a tree whose 2^20 entries are the identity |
| Paging.AddChunk | src/mem/paging.c:9-31 | The chunk structure is one more block that points to the directory and disturbs none of it |
| Paging.PagingNew4gb | src/mem/paging.c:9-31 | Exactly 1026 free blocks are taken, nothing else in memory changes, and every page p reads p * 4096 + flags, in spite of the 32-bit wrap of offset |
| Paging.PagingSwitch | src/mem/paging.c:33-37 | The loaded directory is the one that the chunk points to |
| Paging.PagingFree4gb | src/mem/paging.c:39-50 | Exactly the 1026 blocks of the chunk are released, found by masking the directory entries |
| Paging.PagingGetIndexes | src/mem/paging.c:62-75 | The two indexes rebuild the aligned address; a misaligned one is refused and nothing is written |
| Paging.AlignAddress | src/mem/paging.c:77-85 | The least multiple of 4096 not below the address, and 0 above 0xfffff000 |
| Paging.PagingGet | src/mem/paging.c:148-159 | The flat map entry of the address; a misaligned address reads the entry of page 0 |
| Paging.PagingSet | src/mem/paging.c:161-183 | The entry is stored in the flat map, or a misaligned address is refused and nothing changes |
| Paging.PagingMap | src/mem/paging.c:87-95 | Refused exactly for misaligned addresses; otherwise the entry is the frame with the flags, any 32-bit flags |
| Paging.PagingMapRange | src/mem/paging.c:97-113 | For any count, including negative, any flags, and addresses that wrap at 2^32: the flat map becomes the old one with the range replaced, and only table pages are written |
| Paging.PagingMapTo | src/mem/paging.c:115-146 | Refused exactly for the three alignment conditions and an end before the start; otherwise the range is mapped |
| Paging.PagingRoundTrip | src/mem/paging.c:9-50 | Building an address space, setting any number of entries in it and freeing it restores the heap |
| Paging.ChunkFrame | src/mem/paging.c:9-50 | Writes outside its 1026 blocks leave a chunk, its tables and its flat map as they were |
| Growth.GrantExtends | src/mem/heap.c:160-184 | An allocation that fits keeps all live ones, and clearing it writes only blocks that were free |
| Growth.FitShrinks | src/mem/heap.c:75-109 | After part of a free run of blocks is allocated, a run as long as the rest is still free |
| Growth.SinglesFit | src/mem/heap.c:75-109 | Each one-block request shortens the longest free run that is left by at most one |
| Growth.LiveKept | src/mem/heap.c:121-189 | The bytes of a live allocation survive every step that only allocates and writes in free blocks |
| Growth.ReleaseExtends | src/mem/heap.c:121-189 | Freeing what was free at the start keeps every earlier allocation and its bytes |
| Growth.ChunkKept | src/mem/paging.c:9-50 | So do the tables and the page map of every chunk |
| Streamer.DiskReadBlock | src/fs/disk.c:61-69 | The buffer holds the 512 bytes of the sector |
| Streamer.DiskStreamerSeek | src/fs/streamer.c:20-24 | The position is the given one |
| Streamer.DiskStreamerRead | src/fs/streamer.c:26-55 | As written, for every int position and length: each delivered byte is the disk byte, or the byte beside the sector buffer that the index offset + i reaches, where positions past 2^31 wrap to negative ones; the position advances by the length; no other byte of the buffer changes; the recursion ends |
| Streamer.AlignedRead | src/fs/streamer.c:26-55 | A read that starts on a sector boundary or stays in one sector, and ends at or before byte 2^31, is the flat slice of the disk |
| Streamer.AlignedExact | src/fs/streamer.c:26-55 | A read of any int position and any length is the flat slice on every disk, whatever lies around the sector buffer, if and only if it has no bytes, or starts on a sector boundary or stays in one sector with a position that is not negative, and ends at or before byte 2^31 |
| Geometry.RootAfterFats | src/fs/fat16.c:210-216 | For every header: each copy of the FAT ends at or before the sector where the code reads the root directory, and the last one ends exactly there |
| Geometry.RootIs | src/fs/fat16.c:210-216 | That sector is the one after all copies, counted one by one |
| Geometry.EntriesTile | src/fs/fat16.c:372-402 | Where the format puts them, the entries of the clusters follow each other two bytes apart from the start of the first FAT, and stay in it |
| Geometry.DataAfterRoot | src/fs/fat16.c:362-365 | For every header: cluster 2 starts less than a sector before the end of the root directory, and exactly at its end if and only if the number of entries is a multiple of 16 |
| Geometry.ClustersTile | src/fs/fat16.c:362-365 | Each cluster starts where the one before it ends |
| Geometry.ClustersApart | src/fs/fat16.c:362-365 | Bytes of different clusters lie apart |
| Geometry.AfterRoot | src/fs/fat16.c:362-365 | If the number of entries is a multiple of 16, clusters from 2 on lie after the root directory |
| Geometry.PlacesAgree | src/fs/fat16.c:251-252 | For every header and cluster: the place of the code is that of the format, which rounds the directory up, if and only if the number of entries is a multiple of 16, and a sector too low otherwise |
| Fat16Read.NeverTheIntendedEntry | src/fs/fat16.c:372-402 | On every disk with at least one reserved sector, for every cluster of every chain from a 16-bit start, the entry is read at a place where FAT does not put it |
| FatPosition.NeverTheEntry | src/fs/fat16.c:372-402 | For every number of reserved sectors from 1 to 65535 and every 16-bit cluster, the wrapped product is not the position that FAT defines |
| FatPosition.ReadPositionStep | src/fs/fat16.c:372-402 | The positions that the code reads start at 0 and go up by 1024 times the reserved sectors, wrapping as an int |
| Fat16Read.FatEntryPositionAligned | src/fs/fat16.c:372-402 | The entry read is sector-aligned, so the stream condition holds |
| Fat16Read.GetFatEntry | src/fs/fat16.c:372-402 | The two bytes at that position, read through the stream |
| Fat16Read.GetClusterForOffset | src/fs/fat16.c:404-449 | For every int offset: the cluster reached by walking the chain, and -EIO exactly when a marker entry lies on the way; a negative offset stays at the first cluster |
| Fat16Format.LeadsOnExact | src/fs/fat16.c:404-449 | The entries that lead on by the format are the numbers of the at most 65524 clusters of a FAT16 volume |
| Fat16Format.MarkerExact | src/fs/fat16.c:414-445 | For every entry: the code stops where the format does if and only if the entry is 0, or the number of a cluster other than five that it takes for marks |
| Fat16Read.ReadInternalFromStream | src/fs/fat16.c:451-492 | As written, for every int offset and length and with int positions: result and buffer are those of the chunk-by-chunk specification, and no byte outside the range is written; the recursion ends |
| Fat16Read.ReadSucceeds | src/fs/fat16.c:404-492 | A read that begins on a cluster boundary, or stays in a cluster and there begins on a sector boundary or stays in a sector of the disk, succeeds exactly when no marker lies before the last cluster that it needs |
| Fat16Read.ReadIsChain | src/fs/fat16.c:404-492 | For such a read, if the bytes of the chain lie before byte 2^31 of the disk: the buffer is exactly the bytes of the concatenated chain from the offset on, also what was written before a failure |
| Fat16Exact.ReadAlignedExact | src/fs/fat16.c:451-492 | For every layout: a read of a given place and length is right on every disk and from every 16-bit start if and only if it is empty, or is aligned in that sense, no step begins at a file offset of 2^31 or more, and its bytes of cluster 0xFFFF end at or before byte 2^31; the counterexamples are disks as the code reads them |
| Fat16Exact.BelowEverywhere | src/fs/fat16.c:451-492 | Under that condition the bytes of every chain lie before byte 2^31 |
| Fat16Format.ReadFormatExact | src/fs/fat16.c:372-492 | For every header with reserved sectors: a read of a given place and length delivers the bytes that the format defines, with its own chain and its own place of the clusters, on every disk and from every start, if and only if it meets the condition of ReadAlignedExact, needs no cluster but the first, and is empty or on a volume with a multiple of 16 root entries |
| Fat16Format.SecondFails | src/fs/fat16.c:372-492 | On every such layout there is a disk whose chain goes on by the format and where every read that looks up a second cluster fails |
| Fat16Format.RunsOut | src/fs/fat16.c:451-492 | A read that runs out of its cluster without looking up the next one takes its last byte from elsewhere, on a disk whose chain goes on |
| Fat16Format.SectorLow | src/fs/fat16.c:362-365 | With any other number of root entries a read takes its first byte from a sector too low, on some disk |
| Fat16Format.FirstByte | src/fs/fat16.c:404-492 | On a volume with a multiple of 16 root entries a file has the same bytes in its first cluster by the code and by the format |
| Fat16Read.WalkStops | src/fs/fat16.c:404-449 | A chain that ends stays ended for every later cluster |
| Fat16Read.Fat16Read | src/fs/fat16.c:658-683 | Any number of items of any 32-bit size from any 32-bit position, both passed on as ints: the count is returned exactly when all of them can be read, and the buffer holds the specified bytes |
| Fat16Read.ReadManyIsChain | src/fs/fat16.c:658-683 | If every item is aligned and lies before byte 2^31 of the disk, the items together are the bytes of the chain from the position on |
| Strings.StrncpiedAt | src/libc/string.c:84-99 | Byte i of the destination is 0 once a NUL has been met, and byte i of the source before that |
| Strings.StrncpiedSame | src/libc/string.c:84-99 | Bytes after the first NUL of the source do not matter |
| Strings.StrncpiedTwice | src/libc/string.c:84-99 | Copying a copied string again changes nothing |
| Strings.UpperLetter | src/libc/string.c:152-162 | Two bytes are equal in upper case if and only if they are the same, or both are ASCII letters and differ by 0x20 |
| Strings.Istrncmp | src/libc/string.c:3-21 | The result is 0 if and only if the n bytes are pairwise the same or the same letter in different cases; the comparison does not stop at a NUL |
| UserMemory.SpliceKeeps | src/proc/task.c:18-58 | A write outside the tables of a directory changes neither translations nor bytes seen elsewhere |
| UserMemory.Strncpy | src/libc/string.c:84-99 | Through a loaded page directory: the destination is the source string zero-padded to n, with linear addresses that wrap, and no other byte changes |
| TaskCopy.IdentityIsAllToSelf | src/mem/paging.c:9-31 | An address space fresh from paging_new_4gb with the present flag translates every address to itself |
| TaskCopy.SourceRead | src/proc/task.c:36-41 | The string read through the map with the temporary page is the string that the task sees |
| TaskCopy.Restored | src/proc/task.c:43-46 | Putting the old entry back undoes the mapping, outside the temporary page |
| TaskCopy.CopyStringFromTask | src/proc/task.c:18-58 | For every max: the heap is as before; on success the task page map is as before, the kernel directory is loaded, the destination is the string of the task zero-padded to max, and no byte outside destination and temporary block changes; refused calls change nothing |
| TaskList.List.Append | src/proc/task.c:85-97 | The new task is last, the rest of the order stays, and it becomes current only in an empty list |
| TaskList.List.GetNext | src/proc/task.c:107-115 | In a well-formed list, the task after the current one in cyclic order |
| TaskList.List.Remove | src/proc/task.c:117-138 | The next-chain becomes the old order without the task if and only if the prev link of the task was right or the task was the head with a link leading out of the list; then head, tail and current are right too. As written the successor is left with a stale prev link; with the missing line none ever is |
| TaskList.RunChanges | src/proc/task.c:85-138 | As written and with the missing line: a run of additions and removals keeps the list right if and only if every dropped task is the head or has a right prev link when its turn comes, and then the list holds the tasks in the order that the run leaves; with the missing line every run does |
| TaskList.DropOne | src/proc/task.c:117-138 | One removal in a run keeps the list right if and only if the task is the head or has a right prev link; afterwards exactly its successor has a wrong one, as written |
| TaskList.List.KeepsNext | src/proc/task.c:117-138 | The next links after such a removal |
| TaskList.List.KeepsPrev | src/proc/task.c:117-138 | The prev links after such a removal, and which one is stale |
| TaskList.List.BreaksNext | src/proc/task.c:117-138 | Any other removal leaves the next-chain wrong |
| TaskList.List.UnlinkedExact | src/proc/task.c:117-138 | After a removal the list is linked exactly in those cases, and then its prev links are as they should be |
| TaskList.RemoveTwoBreaks | src/proc/task.c:117-138 | As written, removing a task and then its successor breaks every list in which it is neither first nor last |
| TaskList.Cycle | src/proc/task.c:107-115 | From any task, iterating visits every task exactly once, in order, and returns to the start |
| AddressSpace.ProcessMapAt | src/proc/process.c:82-105 | The page map of a loaded process, page by page: program, stack, identity; the two ranges do not overlap |
| AddressSpace.WithProcessAt | src/proc/process.c:82-105 | The same over any earlier page map: every page outside the two ranges keeps its entry |
| AddressSpace.ProgramSeen | src/proc/process.c:82-87 | Address 0x400000 + k translates to byte k of the program buffer and holds byte k of the file |
| AddressSpace.StackSeen | src/proc/process.c:89-105 | Address 0x3FB000 + k translates to byte k of the stack buffer |
| AddressSpace.OthersSeen | src/proc/process.c:82-105 | Every other address keeps its identity translation |
| Access.TranslateExact | src/mem/paging.c:148-183 | The translation used throughout is that of the processor, from the words of memory that the bits of the address select |
| Access.UserAccess | src/proc/process.c:82-105 | For every process in memory and every address, by the bits of directory and table entry together: the user may read it, and may write it if and only if its page belongs to the program from 0x400000 on or to the 16384 bytes of stack below 0x3FF000 |
| Access.OwnPages | src/proc/process.c:82-105 | Those pages are exactly the pages of the own addresses of the process |
| Access.LoadedAccess | src/proc/process.c:37-105 | The same for every process in any state that the loads reach |
| Access.TmpAccess | src/proc/task.c:18-58 | While a string is copied, the temporary page is present and open to user reads and writes |
| AddressSpace.FramesApart | src/proc/process.c:82-105 | The frames behind the program and stack pages of two processes are different |
| AddressSpace.BlocksApart | src/mem/heap.c:28-39 | Bytes of different live allocations lie in different pages |
| AddressSpace.InMemoryKept | src/proc/process.c:136-214 | A loaded process keeps its map and its bytes while memory only grows |
| Process.ProcessMapBinary | src/proc/process.c:82-87 | The pages from 0x400000 on are mapped to the buffer, up to its end rounded up; a misaligned buffer or an end that wraps maps nothing |
| Process.ProcessMapMemory | src/proc/process.c:89-105 | Whatever the map was, program and stack are entered in it; only table pages are written |
| Directory.MountVolume | src/fs/fat16.c:210-254 | The items in memory are the bytes of the volume from the end of the last FAT copy on, computed from the fields of the header, whatever the names in them; their count and the sector taken for the end of the directory are those of the volume |
| Directory.LastMatchIs | src/fs/fat16.c:601-617 | The slot that a name leads to matches it and no later one does |
| Directory.SlotExact | src/fs/fat16.c:601-617 | A slot is matched exactly if its entry is in use and has the name by the format, if and only if the entry is in use with a name that is built right, or with neither the built name nor its own the one looked for, or is deleted and not matched |
| Directory.LookupExact | src/fs/fat16.c:161-208 | Looking a name up finds exactly the entries of the directory on disk that have it by the format, ignoring case, if and only if that holds of every slot that the lookup reaches and no entry with the name lies past them |
| Directory.SameEntry | src/fs/fat16.c:601-617 | Then the slot used is the last entry that has the name, and the slots matched are as many as the entries that have it |
| Directory.AllAgree | src/fs/fat16.c:601-617 | If no deleted entry precedes one in use and all names in use are built right, the lookup stays in bounds and is right for every name |
| Entries.EncodedFile | src/fs/fat16.c:69-84 | For every entry written by the format: the size read is the size written, and the first cluster is the one written, ORed with the upper half without a shift |
| Entries.EncodedDirectory | src/fs/fat16.c:590-594 | It is taken for a subdirectory if and only if bit 4 of the attribute is set |
| Entries.EncodedName | src/fs/fat16.c:69-84 | Its name by the format is the name written, with a dot before the extension if there is one, also for a first byte of 0xE5 |
| Entries.EncodedNamed | src/fs/fat16.c:161-208 | On disk it is in use, and has exactly the names that are its own but for case |
| Entries.EverydayRight | src/fs/fat16.c:322-334 | For names without NUL and space that leave room, or with a plain attribute, the string built is right |
| Entries.DeleteOne | src/fs/fat16.c:161-208 | Marking an entry in use with 0xE5 takes exactly one off the count |
| Entries.BlankBin | src/sys/kernel.c:90 | The path that the kernel loads parses to one part on drive 0, which is the name of the entry BLANK BIN |
| Files.ZallocSingle | src/mem/kheap.c:39-51 | The next of a row of one-block requests: a free block, nothing else in memory changes |
| Files.NewFatItem | src/fs/fat16.c:580-599 | For an entry that is no subdirectory: two more blocks are taken, and they hold the item, with its type, and a copy of the entry |
| Files.FindItemInDirectory | src/fs/fat16.c:601-617 | Every slot whose built name is the one looked for, ignoring case, takes two blocks, and the result is the item in memory of the last of them; none exactly if there is none |
| Files.GetDirectoryEntry | src/fs/fat16.c:619-650 | The name is read out of the list in memory; the item is that of the last slot that matches it, and none if there is none or the path has a second part |
| Files.OpenFirst | src/fs/fat16.c:761-786 | Descriptor, items and file descriptor each take a block, the descriptor also when nothing is found; if the open succeeds they lead in memory from one to the next down to the entry |
| Files.Fopen | src/fs/file.c:219-289 | For every path and every mounted directory: opens exactly if the path has one part, on drive 0, and a slot matches it; the file is that of the last such slot. In both cases the blocks taken are exact, and no earlier allocation or its bytes change |
| Files.OpensMeant | src/fs/file.c:219-289 | When the lookup of the first part is right, a path opens the file of the last entry on disk that has its name by the format |
| Files.OpenKept | src/fs/file.c:219-289 | An open file stays open while memory only grows |
| Files.Fclose | src/fs/file.c:161-182 | Exactly the copy, the item, the FAT descriptor and the file descriptor are freed, found by following the file descriptor in memory |
| Files.CloseLeaves | src/fs/file.c:161-289 | Of the blocks of an open, those of the parsed path stay taken after the close, and two for each further slot that matches |
| Files.LeavesPathOnly | src/fs/file.c:161-289 | Opening and closing leaves exactly one block and two for each part taken if and only if nothing is looked up or the file is found in one slot |
| Files.OpenAndClose | src/fs/file.c:161-289 | The number of blocks that an open and its close never return; if they are only those of the path, the heap is exactly the old one with these taken |
| Files.Fstat | src/fs/file.c:184-199 | The size of the open file, as its entry in memory has it |
| Files.WholeFileRead | src/fs/fat16.c:451-492 | A read from the start of a file is aligned; it succeeds exactly when the chain reaches the last byte, and reads the bytes of the chain if these lie before byte 2^31 |
| Files.FreadAll | src/fs/file.c:137-159 | One item of the whole size of an open file: 1 exactly when the size is not 0 and the chain reaches the last byte, and then the bytes are those of the chain if these lie before byte 2^31 |
| Process.ProcessLoadBinary | src/proc/process.c:37-73 | From the path: succeeds exactly if it opens a file of size over 0 whose chain is long enough and, with the file open, a run of blocks is free; then the buffer, newly allocated, holds the bytes of the file, and the heap is that after open, allocation and close; all earlier allocations and their bytes are kept either way |
| Process.ReadProgram | src/proc/process.c:37-73 | The steps with the file open, and the failure of each |
| Process.ClosedFile | src/proc/process.c:37-73 | Closing the file leaves the program where it is |
| Process.TaskNew | src/proc/task.c:67-105 | With 1027 free blocks anywhere: the new task is last in the list and has an identity address space in blocks that were free |
| Process.LoadDone | src/proc/process.c:136-214 | Program, stack, task and map, each built after the other, are all still there at the end |
| Process.AddStackAndTask | src/proc/process.c:136-214 | -ENOMEM exactly when no run is free for the stack; otherwise a process with stack, task and map in memory |
| Process.AddTask | src/proc/process.c:136-214 | The task and the map complete the process, and everything allocated before is still in memory |
| Process.RunIsEnough | src/proc/process.c:136-214 | One free run of all the blocks together, those of the open included, meets every request of a load |
| Process.BuildProcess | src/proc/process.c:136-214 | The whole build from the path, with the failures of each step: exact success condition, the process structure describes what is in memory, the file is that of the chain |
| Process.ProcessLoadForSlot | src/proc/process.c:136-214 | Refused exactly for an occupied slot, a path that opens no file or an empty one, a chain too short or no free run for one of the steps; otherwise the slot holds the new process; all other processes stay in memory and separate |
| Process.ProcessLoad | src/proc/process.c:120-134 | Succeeds exactly when fewer than 12 processes are loaded, the path opens a file that can be read and each step finds its run of blocks in the heap as the steps before leave it; loaded processes are never disturbed |
| Process.ProcessTable.GetFreeSlot | src/proc/process.c:107-118 | The least free slot, or -EISTKN exactly when none is free |
| Process.ProcessTable.FullOrNot | src/proc/process.c:107-118 | A slot is free exactly when fewer than 12 processes are loaded |
| Process.ProcessTable.Publish | src/proc/process.c:136-214 | Entering a process in its slot keeps every slot right |
| Process.ProcessTable.Kept | src/proc/process.c:136-214 | All processes stay in memory while memory only grows |
| Process.LoadedProcesses | src/proc/process.c:37-105 | For any number of loaded processes: each reads byte k of its own file at 0x400000 + k through its own tables, and no own page of one shares a frame with an own page of another |
| Loader.ChainSeen | src/proc/process.c:37-105 | A loaded process reads from 0x400000 on the bytes of the chain of its file, if these lie before byte 2^31 of the disk |
| Loader.OneClusterSeen | src/fs/fat16.c:404-492 | For a file of one cluster on a volume with a multiple of 16 root entries the process sees the bytes of the chain of the code exactly if it sees those of the format |
| Loader.LoadPath | src/proc/process.c:120-214 | End to end on a mounted volume: a path is parsed, opened, loaded and closed; success is exact, and byte k at 0x400000 + k in the tables of the process is byte k of the chain of the file that was opened, if the chain lies before byte 2^31 of the disk; the file is the one that the path means by the format whenever its lookup is right, and its bytes are those of the format if it needs one cluster |
| ProcessStrings.StringSeen | src/proc/task.c:18-58 | A string that ends in the file of a loaded process, or is longer than the copy, reads through the tables of the process as in the file |
| ProcessStrings.FrameUntouched | src/proc/task.c:18-58 | The frames of a loaded program are neither the temporary block nor hold the entry that is replaced for it |
| ProcessStrings.ProcessReady | src/proc/task.c:18-58 | A loaded process meets what the copy asks of the string, unless a page of the string has the page number of the temporary block |
| ProcessStrings.CopyFromProcess | src/proc/task.c:18-58 | For any loaded process and any string in its file: the bytes of the file from there up to the NUL arrive in the kernel, zero-padded to max; the heap is as before |
| Fat16Names.ToProperString | src/fs/fat16.c:307-320 | The bytes before the first NUL or space are written, and a NUL after them exactly when a space stopped the scan |
| Fat16Names.GetFullRelativeFilename | src/fs/fat16.c:322-334 | The buffer is the name, with dot and extension if there is one, padded with zeros |
| Fat16Names.FieldExact | src/fs/fat16.c:307-320 | Without the length bound, the scan gives the field trimmed if and only if the field, or the byte after it, ends the name |
| Fat16Names.TrimmedExact | src/fs/fat16.c:307-334 | For every entry: the string built is that of the two fields, each cut at its first NUL or space, if and only if both scans stay inside their fields or end right after them |
| Fat16Names.NameExact | src/fs/fat16.c:307-334 | For every entry: the string built is the 8.3 name by the format, with fields padded at the end only and a first byte of 5 for 0xE5, if and only if the scans stay inside, neither field has a NUL or a space before its padding, and the first byte is not 5; the same holds ignoring case |
| Fat16Names.PaddedInjective | src/fs/fat16.c:322-334 | Zero padding loses nothing of strings without NUL |
| Fat16Names.PaddedCompare | src/libc/string.c:3-21 | Comparing the padded buffers ignoring case decides whether the names are equal ignoring case |
| Fat16Names.NamesDecideEntries | src/fs/fat16.c:322-334 | Equal 8.3 names ignoring case come from equal name and extension fields ignoring case, if no name field has a dot |
| Fat16Names.GetTotalItemsForDirectory | src/fs/fat16.c:161-208 | The number of entries before the first empty one that are not deleted |
| Fat16Names.CountCovers | src/fs/fat16.c:161-208 | A lookup over that many slots reaches every entry in use if and only if no deleted entry precedes one in use |
| Fat16Names.ReadRootDirectory | src/fs/fat16.c:210-254 | The items in memory are what the stream delivers, and the bytes of the directory on disk if it ends at or before byte 2^31; the position after it rounds down |
| Fat16Names.InsideNameable | src/fs/fat16.c:322-334 | Such a name can be built, is the 8.3 name and fits the buffer |
| Fat16Names.InUseFirst | src/fs/fat16.c:161-208 | In a directory without a deleted entry before one in use, the entries in use are exactly those that the lookup reaches |
| Fat16Names.EntryMatches | src/fs/fat16.c:601-617 | For every entry and every name: comparing the built name tells exactly whether the 8.3 name is the one looked for, byte by byte but for the case of letters, if and only if the name is built right or neither is the one looked for |
| Paths.Prefix | src/fs/pparser.c:40-65 | The bytes up to the first slash or the end |
| Paths.PartsOfJoin | src/fs/pparser.c:106-148 | Parsing any list of printable parts joined by slashes gives the list back, with or without a trailing slash |
| Paths.ParsePrint | src/fs/pparser.c:106-148 | Printing a drive and parts within 108 characters and parsing gives the drive and the parts back |
| Paths.ParseAccepts | src/fs/pparser.c:9-13 | A path is accepted if and only if it has at most 108 bytes and starts with a digit, a colon and a slash; the digit is the drive |
| Paths.PartsBack | src/fs/pparser.c:106-148 | The parts joined by slashes are what the rest of the path starts with; it ends there, or goes on with a slash and then ends or has another one |
| PathParser.CreateRoot | src/fs/pparser.c:29-37 | One block is taken; it holds the drive and no first part |
| PathParser.GetPathPart | src/fs/pparser.c:40-65 | A newly taken block holds the part padded with zeros to 108 bytes, and the cursor is after the slash; for an empty part the heap is as before |
| PathParser.ParsePathPart | src/fs/pparser.c:67-87 | The list in memory grows by one linked node that holds the next part; for an empty part list and heap are as before |
| PathParser.NextPart | src/fs/pparser.c:106-148 | One step of the loop: what is parsed and what is left make up the whole path, and the cursor moves on |
| PathParser.ListGrows | src/fs/pparser.c:67-87 | Linking a filled node to the last one extends the list and disturbs no node |
| PathParser.PathparserParse | src/fs/pparser.c:106-148 | For every path: 0 and no change exactly when it is too long or malformed; otherwise exactly one block for the root and two per part are taken, the list in memory is the parts before the first empty one, and no memory that was in use changes |
| PathParser.PathparserFree | src/fs/pparser.c:89-104 | The walk over the list ends and releases exactly the root, the nodes and the strings |
| PathParser.ParseAndFree | src/fs/pparser.c:89-148 | Parsing any path and freeing the result restores the heap |
| Keyboard.PushExact | src/dev/keyboard.c:23-36 | A push appends to the queue if and only if the character is not 0 and fewer than 1024 are pending |
| Keyboard.PopFirst | src/dev/keyboard.c:38-59 | A pop returns and removes the first character, 0 on the empty queue |
| Keyboard.BackspaceExact | src/dev/keyboard.c:16-21 | A backspace removes the last character if there is one; on the empty queue the ring is no queue afterwards |
| Keyboard.WrapIndex | src/dev/keyboard.c:11-14 | Wrapping a counter at 2^32 does not move its index |
| Keyboard.RunRefines | src/dev/keyboard.c:11-59 | Over every run of pushes, pops and backspaces within those conditions, the pops return what a FIFO queue with erase-last returns, also when head and tail wrap |
| Keyboard.RunFromEmpty | src/dev/keyboard.c:11-59 | From the empty ring, the pops of every such run return what the queue returns |
| Keyboard.KeyboardPush | src/dev/keyboard.c:23-36 | Nothing without a current process; otherwise its buffer and counters are those of the ring specification |
| Keyboard.KeyboardPop | src/dev/keyboard.c:38-59 | 0 without a current task; otherwise likewise, with the returned character |
| Keyboard.KeyboardBuffer.KeyboardBackspace | src/dev/keyboard.c:16-21 | Likewise |
| Gdt.EncodeGdtEntry | src/sys/gdt.c:4-32 | Accepted exactly when the limit is at most 65536 or its low 12 bits are ones; then the bytes decode, as the processor reads them, to the same base, limit and type; no other byte changes |
| Gdt.EncodeLimit | src/sys/gdt.c:4-32 | Only bytes 0, 1 and 6 change; byte 6 keeps its flags and gains the top of the limit |
| Gdt.EncodeBase | src/sys/gdt.c:4-32 | Only bytes 2, 3, 4 and 7 change, to the parts of the base |
| Gdt.GdtStructuredToGdt | src/sys/gdt.c:34-40 | Every descriptor up to the first that is refused decodes to its source |
| Gdt.DecodeOf | src/sys/gdt.c:4-32 | Bytes holding the parts of a base, limit and type decode to them |
| Gdt.DecodeExact | src/sys/gdt.c:4-32 | The decoding is by the bits of the 64-bit descriptor: limit, base, type and granularity each from their bits |
| Gdt.RepresentableExact | src/sys/gdt.c:6-17 | A descriptor can have exactly the limits below 2^20 and those that end a page |
| Gdt.EncodableExact | src/sys/gdt.c:6-9 | The code accepts every limit that a descriptor can have except those over 65536 and below 2^20 that do not end a page; the limit 0xFFFFFFFF is accepted |

## Left out

- Port I/O, ATA, PIC, interrupts, VGA text, TSS and all assembly: effects of hardware. The disk is a function from positions to bytes that does not change, and always answers; `disk_read_block` cannot fail.
- Loading a page directory: a field of the machine. TLB and access rights are not modelled; translation is by the present bits and the frame numbers. Kernel code reaches memory by physical address, except in `copy_string_from_task`, where both copies go through the loaded directory.
- RAM is one field holding a sequence of bytes that methods reassign, and buffers passed to the disk code are sequences in and out: aliasing between an output buffer and other data is not captured there. Process, task and list structures are Dafny objects; their heap blocks are allocated, but their fields are not laid out in RAM.
- Integers wrap where the code's can: heap rounding, page ranges, linear addresses, disk positions, file offsets and sizes, keyboard counters. Counts that memory bounds (blocks, parts, directory entries) do not. An `int` is taken to wrap where it overflows.
- Out of memory in callers that do not check it: `PathParser` and `Paging.PagingNew4gb` require enough free blocks, `Process.TaskNew` 1027 of them. Where the code checks for null, failure is modelled.
- The table of file descriptors and file system dispatch: an open file is the address of its structure, whose index, file system and disk are not laid out, and a slot is taken to be free. Descriptor 512 can be handed out but is rejected by the lookup (src/fs/file.c:84). The file system is mounted, and the mode is read.
- Subdirectories: the type of an item is always overwritten (src/fs/fat16.c:595), so none is ever entered. Seeking and the flags of `fstat` are slot bookkeeping.
- `task_free`, `task_switch`, saving registers, `process_free`, isr80h commands, `rand`, `atoi`, terminal, floating point: single branches, hardware or no settled property.
- The path that is parsed is a sequence without NUL beside memory, so a path that overlaps the blocks the parser takes is not captured.
- Machine.Machine.Kzalloc: requires that the size leaves the cleared range inside 2^32 from any heap block, or that the request is refused; otherwise the clearing would wrap.
- Heap.Heap.Free: requires a pointer into a block that is free or starts a live allocation; a pointer into the middle of an allocation is never freed in the model.
- Machine.Machine.Kfree: requires the same of its pointer.
- The table of the heap is not part of `Machine.ram`, and so neither is what marking a short run overwrites after it; the claims of `Machine` that no other byte changes are about `ram`.
- TaskCopy.CopyStringFromTask: requires a max that is not negative, a destination outside both address spaces' tables, and a string that lies neither in the temporary page nor in the table entry of that page; the task must map its tables as `paging_new_4gb` makes them.
- Streamer.DiskReadBlock: one sector, from the one disk; the refusal of another disk is not modelled.
- Streamer.DiskStreamerRead: the bytes beside the sector buffer may differ at every level of the recursion, but are the same for two reads at the same position.
- Strings.Istrncmp: requires a length of at least 1; with 0 the count would wrap and the comparison run on.
- Paging.PagingSwitch: records the directory only.
- Files.NewFatItem: requires an entry that is not a subdirectory, and so do the members that open a path of the slots that match its first part; loading the subdirectory, which is dropped at once and never freed, is not modelled.
- Files.FindItemInDirectory: requires that the names built from the slots end in the directory's memory and fit the buffer of 108 bytes, and so do the members that open a path when they look a name up; past that the code reads and writes out of bounds.
- Files.Fopen: requires the single blocks that it needs; out of memory while opening is not modelled.
- Directory.MountVolume: requires a directory that ends at or before byte 2^31 of the disk and has no more entries in use than its slots; reading the header, the signature check and the allocations of mounting are not modelled, and the items are a sequence beside memory.
- Files.FreadAll: the size is the one of the file and below 2^31.
- Fat16Names.GetTotalItemsForDirectory: requires that the directory ends with an empty entry before byte 2^31 of the disk; without one the loop has no end.
- Fat16Names.ReadRootDirectory: the buffer for the items is given; its allocation and failure are not modelled.
- Process.ProcessLoad: requires that no step is handed the short run at the end of the heap, which the code would take for a whole one and write beyond, and 1027 free blocks for the task if the load gets there. `Process.RunIsEnough` gives a simple case.
- Loader.LoadPath: requires what the mount, the lookup and the heap steps above do. The files of the disk are meant by their 8.3 names; long names are not modelled.
- Process.ProcessLoadForSlot: for an occupied slot gives -EISTKN and nothing else; the code then tests a pointer that was never set (src/proc/process.c:141, src/proc/process.c:205), and what it does if that is not null is not modelled. `process_load` never gets there.
- Keyboard.KeyboardPush: the current process is an argument. Nothing in the code ever sets `current_process`, so as written a push has none and returns.
- Keyboard.RunRefines: one buffer; pushes go to the current process and pops come from the process of the current task, so a run speaks of the code only where these are the same process.
- ProcessStrings.CopyFromProcess: requires of the kernel's address space and of the destination what `TaskCopy.CopyStringFromTask` does, and a string that does not run past the end of the file.
- Process.TaskNew: the structure's saved registers are not modelled.
- TaskList.List.Remove: requires that the task is in the list, and that the list is right when it starts.
