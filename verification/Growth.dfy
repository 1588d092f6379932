/** Steps that only add to memory: allocations are kept, and nothing is written except
    in blocks that were free. What a live allocation holds survives such steps. */
module Growth {
  import opened Memory
  import opened HeapSpec
  import opened HeapGrants
  import opened PageTables
  import opened Machine
  import opened Paging

  /** From h, m to h', m' live allocations were kept, no block was freed, and memory
      changed only in blocks that were free in h. */
  ghost predicate Extends(h: HeapState, m: Ram, h': HeapState, m': Ram) {
    && |h'.table| == |h.table|
    && (forall b :: b in h.live ==> b in h'.live && h'.live[b] == h.live[b])
    && (forall i :: 0 <= i < |h.table| && IsFree(h'.table[i]) ==> IsFree(h.table[i]))
    && (forall a :: 0 <= a < LIMIT && !FreePage(h, PageOf(a)) ==> m'[a] == m[a])
  }

  lemma ExtendsSelf(h: HeapState, m: Ram)
    ensures Extends(h, m, h, m)
  {
  }

  lemma ExtendsTrans(h: HeapState, m: Ram, h1: HeapState, m1: Ram, h2: HeapState, m2: Ram)
    requires Extends(h, m, h1, m1) && Extends(h1, m1, h2, m2)
    ensures Extends(h, m, h2, m2)
  {
  }

  /** Writing in pages that were free at the start is still an extension. */
  lemma ExtendsWrite(h: HeapState, m: Ram, h1: HeapState, m1: Ram, m2: Ram, ps: set<nat>)
    requires Extends(h, m, h1, m1) && SameOutside(m1, m2, ps)
    requires forall p :: p in ps ==> FreePage(h, p)
    ensures Extends(h, m, h1, m2)
  {
  }

  /** The pages of n blocks from s on. */
  ghost function BlockPages(s: nat, n: nat): (r: set<nat>)
    ensures forall p :: p in r <==> BlockPage(s) <= p < BlockPage(s) + n
  {
    Range(BlockPage(s), BlockPage(s) + n)
  }

  lemma BytesInBlocks(s: nat, n: nat, size: nat, a: nat)
    requires size <= n * 4096 && BlockAddress(s) <= a < BlockAddress(s) + size
    ensures PageOf(a) in BlockPages(s, n)
  {
  }

  /** An allocation that fits, and clearing it, extend memory. */
  lemma GrantExtends(h: HeapState, m: Ram, n: nat, size: nat)
    requires Inv(h) && |h.table| == HEAP_BLOCKS && n >= 1 && Fits(h.table, n) && size <= n * 4096
    ensures var (h', s) := MallocBlocks(h, n);
      && 0 <= s && s + n <= HEAP_BLOCKS && s !in h.live && s in h'.live && h'.live[s] == n
      && (forall p :: p in BlockPages(s, n) ==> FreePage(h, p))
      && Extends(h, m, h', Splice(m, BlockAddress(s), Zeros(size)))
  {
    StartBlockExact(h.table, n);
    var (h', s) := MallocBlocks(h, n);
    FreeRunNotLive(h, s, n, s);
    forall a | BlockAddress(s) <= a < BlockAddress(s) + size ensures PageOf(a) in BlockPages(s, n) {
      BytesInBlocks(s, n, size, a);
    }
    SpliceOutside(m, BlockAddress(s), Zeros(size), BlockPages(s, n));
    forall i | 0 <= i < |h.table| && IsFree(h'.table[i]) ensures IsFree(h.table[i]) {
      assert Accounted(h, i);
    }
    ExtendsSelf(h, m);
    assert Extends(h, m, h', m);
    ExtendsWrite(h, m, h', m, Splice(m, BlockAddress(s), Zeros(size)), BlockPages(s, n));
  }

  /** Taking free blocks one by one, and writing in them, extends memory. */
  lemma TakeExtends(h: HeapState, m: Ram, bs: set<nat>, m': Ram, ps: set<nat>)
    requires Inv(h) && |h.table| == HEAP_BLOCKS && bs <= FreeSet(h.table) && SameOutside(m, m', ps)
    requires forall p :: p in ps ==> HeapPage(p) && p - HEAP_PAGE in bs
    ensures Extends(h, m, Take(h, bs), m')
  {
    var h' := Take(h, bs);
    forall b | b in h.live ensures b in h'.live && h'.live[b] == h.live[b] {
      TakeKeepsLive(h, bs, b);
    }
    assert Extends(h, m, h', m);
    ExtendsWrite(h, m, h', m, m', ps);
  }

  /** Freeing blocks that were free at the start is still an extension. */
  lemma ReleaseExtends(h: HeapState, m: Ram, h': HeapState, m': Ram, bs: set<nat>)
    requires Inv(h) && Extends(h, m, h', m') && bs <= FreeSet(h.table)
    ensures Extends(h, m, Release(h', bs), m')
  {
    forall b | b in h.live ensures b !in bs {
      if b in bs { FreeRunNotLive(h, b, 1, b); }
    }
  }

  /** A free run of more than k blocks leaves a run of the rest after k are allocated. */
  lemma FitShrinks(h: HeapState, total: nat, k: nat)
    requires 1 <= k < total && Fits(h.table, total)
    ensures Fits(h.table, k) && Fits(MallocBlocks(h, k).0.table, total - k)
  {
    var s: nat :| FreeRun(h.table, s, total);
    assert FreeRun(h.table, s, k);
    StartBlockExact(h.table, k);
    var (h', r) := MallocBlocks(h, k);
    assert r <= s;
    var from := if r + k <= s then s else r + k;
    assert FreeRun(h'.table, from, total - k);
  }

  lemma {:induction false} SinglesFit(h: HeapState, total: nat, k: nat)
    requires k < total && Fits(h.table, total)
    ensures Fits(Singles(h, k).table, total - k)
  {
    hide Fits, MallocBlocks;
    if k > 0 {
      SinglesFit(h, total, k - 1);
      FitShrinks(Singles(h, k - 1), total - (k - 1), 1);
    }
  }

  lemma ReleaseFits(h: HeapState, bs: set<nat>, n: nat)
    requires Fits(h.table, n)
    ensures Fits(Release(h, bs).table, n)
  {
    var s: nat :| FreeRun(h.table, s, n);
    assert FreeRun(Release(h, bs).table, s, n);
  }

  lemma {:induction false} RangeSize(a: nat, b: nat)
    requires a <= b
    ensures |Range(a, b)| == b - a
    decreases b - a
  {
    if a < b {
      RangeSize(a + 1, b);
      assert a !in Range(a + 1, b);
    }
  }

  lemma FitsFreeSet(t: Table, n: nat)
    requires Fits(t, n)
    ensures |FreeSet(t)| >= n
  {
    var s: nat :| FreeRun(t, s, n);
    RangeSize(s, s + n);
    assert Range(s, s + n) <= FreeSet(t);
    SubsetSize(Range(s, s + n), FreeSet(t));
  }

  lemma SubsetSize(a: set<nat>, b: set<nat>)
    requires a <= b
    ensures |a| <= |b|
  {
    assert b == a + (b - a);
  }

  /** The block of a live allocation keeps its bytes. */
  lemma LiveKept(h: HeapState, m: Ram, h': HeapState, m': Ram, s: nat, size: nat)
    requires Inv(h) && |h.table| == HEAP_BLOCKS && Extends(h, m, h', m')
    requires s in h.live && size <= h.live[s] * 4096
    ensures BlockAddress(s) + size <= HEAP_END
    ensures Bytes(m', BlockAddress(s), size) == Bytes(m, BlockAddress(s), size)
  {
    assert s + h.live[s] <= HEAP_BLOCKS;
    forall a | BlockAddress(s) <= a < BlockAddress(s) + size ensures m'[a] == m[a] {
      LiveNotFree(h, s, a / 4096 - HEAP_PAGE);
    }
  }

  lemma LiveNotFree(h: HeapState, s: nat, b: nat)
    requires Inv(h) && s in h.live && s <= b < s + h.live[s]
    ensures b < |h.table| && !IsFree(h.table[b])
  {
    assert RunEntry(h, s, b);
  }

  /** A chunk keeps its structures and its map. */
  lemma ChunkKept(h: HeapState, m: Ram, h': HeapState, m': Ram, c: nat)
    requires Inv(h) && |h.table| == HEAP_BLOCKS && Extends(h, m, h', m') && c + 4 <= LIMIT && Chunk(h, m, c)
    ensures Chunk(h', m', c) && ChunkPages(m', c) == ChunkPages(m, c)
    ensures DirectoryOf(m', c) == DirectoryOf(m, c)
    ensures Flat(m', DirectoryOf(m, c)) == Flat(m, DirectoryOf(m, c)) && SameDirectory(m, m', DirectoryOf(m, c))
  {
    hide ChunkPages, Chunk, DirectoryOf;
    var free := FreePages(h);
    assert free !! ChunkPages(m, c) by { ChunkNotFree(h, m, c); }
    ChunkFrame(h, m, h', m', c, free);
  }

  ghost function FreePages(h: HeapState): (r: set<nat>)
    requires |h.table| == HEAP_BLOCKS
    ensures forall p :: p in r <==> FreePage(h, p)
  {
    set p: nat | p < HEAP_PAGE + HEAP_BLOCKS && FreePage(h, p)
  }

  lemma ChunkNotFree(h: HeapState, m: Ram, c: nat)
    requires Inv(h) && |h.table| == HEAP_BLOCKS && c + 4 <= LIMIT && Chunk(h, m, c)
    ensures forall p :: p in ChunkPages(m, c) ==> !FreePage(h, p)
  {
    hide Tree, ChunkPages;
    forall p | p in ChunkPages(m, c) ensures !FreePage(h, p) {
      assert OneBlock(h, p);
      LiveNotFree(h, p - HEAP_PAGE, p - HEAP_PAGE);
    }
  }
}
