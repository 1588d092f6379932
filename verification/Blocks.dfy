/** kzalloc of at most one block, seen through the group of blocks taken. */
module Blocks {
  import opened Memory
  import opened HeapSpec
  import opened HeapGrants
  import opened Machine
  import H = Heap

  lemma OneBlockSize(size: nat)
    requires 0 < size <= PAGE
    ensures H.BlocksFor(size) == 1
  {
  }

  lemma BlockIsPage(b: nat)
    requires b < HEAP_BLOCKS
    ensures BlockAddress(b) / 4096 == BlockPage(b) && BlockAddress(b) % 4096 == 0
    ensures BlockAddress(b) == BlockPage(b) * 4096 && BlockAddress(b) + PAGE <= HEAP_END
    ensures HEAP_ADDRESS <= BlockAddress(b) && (BlockAddress(b) - HEAP_ADDRESS) / 4096 == b
  {
  }

  /** Zeroing at most a block changes that block's page only. */
  lemma ZeroedBlock(m: Ram, b: nat, size: nat)
    requires b < HEAP_BLOCKS && size <= PAGE
    ensures SameOutside(m, Splice(m, BlockAddress(b), Zeros(size)), {BlockPage(b)})
  {
    var a := BlockAddress(b);
    forall i | a <= i < a + size ensures PageOf(i) == BlockPage(b) {
    }
    SpliceOutside(m, a, Zeros(size), {BlockPage(b)});
  }

  /** A block that was free is allocated and its first size bytes are zero. */
  method ZallocBlock(k: Machine, size: nat) returns (ptr: nat, ghost b: nat)
    requires k.Valid() && 0 < size <= PAGE && FreeSet(k.HeapNow().table) != {}
    modifies k`ram, k.heap, k.heap.entries
    ensures k.Valid() && b in FreeSet(old(k.HeapNow()).table) && b < HEAP_BLOCKS && ptr == BlockAddress(b)
    ensures ptr / 4096 == BlockPage(b) && ptr % 4096 == 0 && ptr == BlockPage(b) * 4096 && ptr + PAGE <= HEAP_END
    ensures k.HeapNow() == Take(old(k.HeapNow()), {b}) && (k.HeapNow(), b as int) == MallocBlocks(old(k.HeapNow()), 1)
    ensures k.ram == Splice(old(k.ram), ptr, Zeros(size))
    ensures SameOutside(old(k.ram), k.ram, {BlockPage(b)})
  {
    OneBlockSize(size);
    MallocOne(k.HeapNow());
    ptr := k.Kzalloc(size);
    b := ptr / 4096 - HEAP_PAGE;
    BlockIsPage(b);
    ZeroedBlock(old(k.ram), b, size);
  }
}
