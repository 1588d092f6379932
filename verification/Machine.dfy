/** The kernel's memory: physical RAM, the kernel heap over part of it
    (src/mem/kheap.c), and the page directory that is loaded. */
module Machine {
  import opened Memory
  import opened HeapSpec
  import H = Heap

  const HEAP_ADDRESS: nat := 0x0100_0000
  const HEAP_BLOCKS: nat := 25600
  const HEAP_END: nat := 0x0740_0000
  const HEAP_PAGE: nat := 4096

  /** Address of a heap block; a heap block is a page. */
  function BlockAddress(b: nat): nat { HEAP_ADDRESS + b * 4096 }
  function BlockPage(b: nat): nat { HEAP_PAGE + b }

  ghost predicate HeapPage(p: nat) { HEAP_PAGE <= p < HEAP_PAGE + HEAP_BLOCKS }

  /** p is the page of a heap block that is free. */
  ghost predicate FreePage(h: HeapState, p: nat) {
    HEAP_PAGE <= p < HEAP_PAGE + |h.table| && IsFree(h.table[p - HEAP_PAGE])
  }

  function StartAddress(start: int): nat {
    if start < 0 then 0 else BlockAddress(start)
  }

  class Machine {
    const heap: H.Heap
    var ram: Ram
    // physical address of the directory that paging_switch loaded last
    var currentDirectory: nat

    ghost predicate Valid()
      reads this, heap, heap.entries
    {
      heap.Valid() && heap.saddr == HEAP_ADDRESS && heap.total == HEAP_BLOCKS
    }

    ghost function HeapNow(): (h: HeapState)
      requires Valid()
      reads this, heap, heap.entries
      ensures Inv(h) && |h.table| == HEAP_BLOCKS
    {
      heap.State()
    }

    /** kheap_init over memory with the given contents. */
    constructor (width: Width, contents: Ram)
      ensures Valid() && fresh(heap) && fresh(heap.entries)
      ensures HeapNow() == Empty(width, HEAP_BLOCKS) && ram == contents
    {
      heap := new H.Heap(width, HEAP_ADDRESS, HEAP_BLOCKS);
      ram := contents;
      currentDirectory := 0;
    }

    /** memset(ptr, 0, size) */
    method Clear(ptr: nat, size: nat)
      requires ptr + size <= LIMIT
      modifies this`ram
      ensures ram == Splice(old(ram), ptr, Zeros(size))
    {
      for i := 0 to size
        invariant ram == Splice(old(ram), ptr, Zeros(i))
      {
        ram := ram[ptr + i := 0];
      }
    }

    method Kmalloc(size: nat) returns (ptr: nat)
      requires Valid() && size < LIMIT
      modifies heap, heap.entries
      ensures Valid()
      ensures HeapNow() == MallocBlocks(old(HeapNow()), H.BlocksFor(size)).0
      ensures ptr == StartAddress(MallocBlocks(old(HeapNow()), H.BlocksFor(size)).1)
    {
      ptr := heap.Malloc(size);
    }

    method Kzalloc(size: nat) returns (ptr: nat)
      requires Valid() && size < LIMIT
      requires HEAP_END + size <= LIMIT || MallocBlocks(HeapNow(), H.BlocksFor(size)).1 < 0
      modifies this`ram, heap, heap.entries
      ensures Valid()
      ensures HeapNow() == MallocBlocks(old(HeapNow()), H.BlocksFor(size)).0
      ensures ptr == StartAddress(MallocBlocks(old(HeapNow()), H.BlocksFor(size)).1)
      ensures ptr == 0 ==> ram == old(ram)
      ensures ptr != 0 ==> HEAP_END + size <= LIMIT && ptr < HEAP_END && ram == Splice(old(ram), ptr, Zeros(size))
    {
      ghost var h := HeapNow();
      ptr := Kmalloc(size);
      if ptr == 0 {
        return;
      }
      StartInTable(h, H.BlocksFor(size));
      Clear(ptr, size);
    }

    method Kfree(ptr: nat)
      requires Valid() && HEAP_ADDRESS <= ptr && Freeable(HeapNow(), (ptr - HEAP_ADDRESS) / 4096)
      modifies heap, heap.entries
      ensures Valid()
      ensures HeapNow() == HeapSpec.Free(old(HeapNow()), (ptr - HEAP_ADDRESS) / 4096)
    {
      heap.Free(ptr);
    }
  }

  /** The blocks of the heap are the pages of the 104857600 bytes from 16 MiB on. */
  lemma HeapRange(p: nat)
    ensures HeapPage(p) <==> 0x100_0000 <= p * 4096 < 0x100_0000 + 104857600
    ensures HeapPage(p) ==> BlockPage(p - HEAP_PAGE) == p && BlockAddress(p - HEAP_PAGE) == p * 4096
  {
  }

  /** Every byte of a live allocation lies there. */
  lemma LiveInHeap(h: HeapState, s: nat, i: nat)
    requires Inv(h) && |h.table| == HEAP_BLOCKS && s in h.live && i < h.live[s] * 4096
    ensures 0x100_0000 <= BlockAddress(s) + i < 0x100_0000 + 104857600
  {
    assert s + h.live[s] <= HEAP_BLOCKS;
  }

  lemma StartInTable(h: HeapState, n: nat)
    ensures MallocBlocks(h, n).1 <= |h.table|
    ensures MallocBlocks(h, n).1 >= 0 ==> MallocBlocks(h, n).1 < |h.table|
  {
  }
}
