/** The block heap of src/mem/heap.c: a table of entries, overwritten in place. */
module Heap {
  import opened Status
  import opened HeapSpec

  const MAX_BLOCKS: nat := 0x10_0000

  /** heap_align_value_to_upper, on 32-bit values: the top block wraps to 0. */
  function AlignUp(val: nat): nat
    requires val < 0x1_0000_0000
  {
    if val % 4096 == 0 then val else (val - val % 4096 + BLOCK) % 0x1_0000_0000
  }

  /** Blocks that a request of size bytes asks for. */
  function BlocksFor(size: nat): nat
    requires size < 0x1_0000_0000
  {
    AlignUp(size) / 4096
  }

  /** The blocks asked for are the least number that hold size bytes, unless the
      rounding wraps around, and then they are none. */
  lemma BlocksForExact(size: nat)
    requires size < 0x1_0000_0000
    ensures BlocksFor(size) <= MAX_BLOCKS
    ensures size <= 0xffff_f000 ==> size <= BlocksFor(size) * 4096 < size + BLOCK
    ensures size > 0xffff_f000 ==> BlocksFor(size) == 0
  {
    var r := size % 4096;
    assert (size - r) % 4096 == 0;
  }

  /** A run with nothing free before it that fits is the first fit. */
  lemma FirstIs(t: Table, n: nat, s: nat)
    requires n >= 1 && FreeRun(t, s, n) && (s == 0 || !IsFree(t[s - 1]))
    requires forall r: nat :: r + n <= s + n - 1 ==> !FreeRun(t, r, n)
    ensures StartBlock(t, n) == s
  {
  }

  lemma {:induction false} TrailingIs(t: Table, s: nat)
    requires s <= |t| && FreeRun(t, s, |t| - s) && (s == 0 || !IsFree(t[s - 1]))
    ensures TrailingStart(t) == s
  {
    assert FreeRun(t, TrailingStart(t), |t| - TrailingStart(t));
  }

  class Heap {
    const width: Width
    const saddr: nat
    const total: nat
    // The table, and after its last entry the memory that a run of marks reaching
    // past the end of the table overwrites.
    const entries: array<Entry>
    ghost var live: map<nat, nat>
    ghost var leaked: set<nat>

    ghost predicate Shaped() {
      && total + MAX_BLOCKS <= entries.Length
      && saddr % 4096 == 0 && saddr > 0
      && saddr + total * 4096 <= 0x1_0000_0000
    }

    ghost function State(): HeapState
      requires Shaped()
      reads this, entries
    {
      HeapState(width, entries[..total], live, leaked)
    }

    ghost predicate Valid()
      reads this, entries
    {
      Shaped() && Inv(State())
    }

    /** heap_create over [ptr, end) with a table of tableTotal entries, once the
        checks of HeapCreate have passed: every entry is set free. */
    constructor (width: Width, ptr: nat, tableTotal: nat)
      requires ptr > 0 && ptr % 4096 == 0 && ptr + tableTotal * 4096 <= 0x1_0000_0000
      ensures Valid() && fresh(entries)
      ensures this.width == width && saddr == ptr && total == tableTotal
      ensures State() == Empty(width, tableTotal)
    {
      this.width := width;
      saddr := ptr;
      total := tableTotal;
      entries := new Entry[tableTotal + MAX_BLOCKS](_ => 0);
      live := map[];
      leaked := {};
      new;
      assert entries[..total] == Empty(width, tableTotal).table;
      EmptyInv(width, tableTotal);
    }

    method GetStartBlock(totalBlocks: nat) returns (r: int)
      requires Shaped()
      ensures r == StartBlock(State().table, totalBlocks)
    {
      ghost var t := State().table;
      var bc: nat, bs: int := 0, -1;
      for i := 0 to total
        invariant bs == -1 ==> bc == 0 && (i == 0 || !IsFree(t[i - 1]))
        invariant bs != -1 ==>
          0 <= bs && bc >= 1 && bs + bc == i && FreeRun(t, bs, bc) && (bs == 0 || !IsFree(t[bs - 1]))
        invariant totalBlocks >= 1 ==> bc < totalBlocks
        invariant totalBlocks >= 1 ==> forall s: nat :: s + totalBlocks <= i ==> !FreeRun(t, s, totalBlocks)
      {
        assert entries[i] == t[i];
        if !IsFree(entries[i]) {
          bc := 0;
          bs := -1;
        } else {
          if bs == -1 {
            bs := i;
          }
          bc := bc + 1;
          if bc == totalBlocks {
            assert FreeRun(t, bs, totalBlocks);
            FirstIs(t, totalBlocks, bs);
            return bs;
          }
        }
      }
      assert totalBlocks >= 1 ==> !Fits(t, totalBlocks);
      if bs == -1 {
        r := -ENOMEM;
      } else {
        assert FreeRun(t, bs, total - bs);
        TrailingIs(t, bs);
        r := bs;
      }
    }

    function BlockToAddress(block: nat): nat {
      saddr + block * 4096
    }

    function AddressToBlock(address: nat): nat
      requires saddr <= address
    {
      (address - saddr) / 4096
    }

    method MarkBlocksTaken(startBlock: nat, totalBlocks: nat)
      requires Shaped() && startBlock <= total && totalBlocks <= MAX_BLOCKS
      modifies entries
      ensures entries[..total] == Marked(width, old(entries[..total]), startBlock, totalBlocks)
      ensures forall i :: total <= i < entries.Length ==>
        entries[i] ==
          if i < startBlock + totalBlocks then EntryOf(width, i - startBlock, totalBlocks) else old(entries[i])
    {
      var endBlock := startBlock + totalBlocks - 1;
      var entry := Store(width, TAKEN + IS_FIRST);
      if totalBlocks > 1 {
        entry := Store(width, TAKEN + IS_FIRST + HAS_NEXT);
      }
      var i := startBlock;
      while i <= endBlock
        invariant startBlock <= i <= startBlock + totalBlocks
        invariant i <= endBlock ==> entry == EntryOf(width, i - startBlock, totalBlocks)
        invariant forall k :: 0 <= k < entries.Length ==>
          entries[k] == if startBlock <= k < i then EntryOf(width, k - startBlock, totalBlocks) else old(entries[k])
      {
        entries[i] := entry;
        entry := Store(width, TAKEN);
        if i != endBlock - 1 {
          entry := Store(width, TAKEN + HAS_NEXT);
        }
        i := i + 1;
      }
    }

    method MarkBlocksFree(startBlock: nat)
      requires Shaped()
      modifies entries
      ensures entries[..total] ==
        Cleared(old(entries[..total]), startBlock, ChainEnd(old(entries[..total]), startBlock))
      ensures forall i :: total <= i < entries.Length ==> entries[i] == old(entries[i])
    {
      ghost var t := entries[..total];
      var i := startBlock;
      var more := true;
      while i < total && more
        invariant startBlock <= i && (i <= total || i == startBlock)
        invariant ChainEnd(t, startBlock) == if more then ChainEnd(t, i) else i
        invariant forall k :: 0 <= k < entries.Length ==>
          entries[k] == if startBlock <= k < i then 0 else old(entries[k])
        decreases total - i
      {
        var entry := entries[i];
        entries[i] := 0;
        more := HasNext(entry);
        i := i + 1;
      }
    }

    /** heap_malloc_blocks. A null result is 0. */
    method MallocBlocks(totalBlocks: nat) returns (address: nat)
      requires Valid() && totalBlocks <= MAX_BLOCKS
      modifies this, entries
      ensures Valid()
      ensures State() == HeapSpec.MallocBlocks(old(State()), totalBlocks).0
      ensures address == AddressFor(HeapSpec.MallocBlocks(old(State()), totalBlocks).1)
    {
      hide Inv, Marked, EntryOf;
      ghost var h := State();
      MallocInv(h, totalBlocks);
      address := 0;
      var startBlock := GetStartBlock(totalBlocks);
      if startBlock >= 0 {
        address := BlockToAddress(startBlock);
        MarkBlocksTaken(startBlock, totalBlocks);
        if totalBlocks > 0 {
          live := live[startBlock := Min(totalBlocks, total - startBlock)];
        } else {
          assert State().table == h.table;
        }
      }
    }

    function AddressFor(start: int): nat {
      if start < 0 then 0 else BlockToAddress(start)
    }

    /** heap_malloc */
    method Malloc(size: nat) returns (address: nat)
      requires Valid() && size < 0x1_0000_0000
      modifies this, entries
      ensures Valid()
      ensures State() == HeapSpec.MallocBlocks(old(State()), BlocksFor(size)).0
      ensures address == AddressFor(HeapSpec.MallocBlocks(old(State()), BlocksFor(size)).1)
    {
      var alignedSize := AlignUp(size);
      BlocksForExact(size);
      address := MallocBlocks(alignedSize / 4096);
    }

    /** heap_free of a pointer into a live allocation's first block, or into a free block. */
    method Free(ptr: nat)
      requires Valid() && saddr <= ptr && Freeable(State(), AddressToBlock(ptr))
      modifies this, entries
      ensures Valid()
      ensures State() == HeapSpec.Free(old(State()), AddressToBlock(ptr))
    {
      ghost var h := State();
      var block := AddressToBlock(ptr);
      FreeInv(h, block);
      ghost var e := ChainEnd(h.table, block);
      MarkBlocksFree(block);
      if block in live {
        leaked := leaked + Range(e, block + live[block]);
      }
      live := live - {block};
    }
  }

  /** heap_create: misaligned bounds, or a table of the wrong size, are refused. */
  method HeapCreate(width: Width, ptr: nat, end: nat, tableTotal: nat) returns (r: int, heap: Heap?)
    requires 0 < ptr <= end <= 0x1_0000_0000
    ensures r == 0 <==> ptr % 4096 == 0 && end % 4096 == 0 && tableTotal == (end - ptr) / 4096
    ensures r != 0 ==> r == -EINVARG && heap == null
    ensures r == 0 ==> heap != null && fresh(heap) && fresh(heap.entries) && heap.Valid()
    ensures r == 0 ==> heap.saddr == ptr && heap.total == tableTotal && heap.State() == Empty(width, tableTotal)
  {
    heap := null;
    if ptr % 4096 != 0 || end % 4096 != 0 {
      return -EINVARG, null;
    }
    if tableTotal != (end - ptr) / 4096 {
      return -EINVARG, null;
    }
    heap := new Heap(width, ptr, tableTotal);
    r := 0;
  }
}
