/** Groups of single-block allocations: taking a set of free blocks one by one and
    releasing a set of single-block allocations in any order. */
module HeapGrants {
  import opened HeapSpec

  ghost function FreeSet(t: Table): set<nat> {
    set i: nat | i < |t| && IsFree(t[i])
  }

  /** h after the free blocks s have each been allocated on their own. */
  ghost function Take(h: HeapState, s: set<nat>): HeapState {
    HeapState(h.width,
              seq(|h.table|, i requires 0 <= i < |h.table| => if i in s then EntryOf(h.width, 0, 1) else h.table[i]),
              map b | b in h.live.Keys + s :: if b in s then 1 else h.live[b],
              h.leaked)
  }

  /** h after the single-block allocations s have been freed. */
  ghost function Release(h: HeapState, s: set<nat>): HeapState {
    HeapState(h.width,
              seq(|h.table|, i requires 0 <= i < |h.table| => if i in s then 0 else h.table[i]),
              h.live - s,
              h.leaked)
  }

  lemma TakeNone(h: HeapState)
    ensures Take(h, {}) == h && Release(h, {}) == h
  {
    assert Take(h, {}).table == h.table && Release(h, {}).table == h.table;
  }

  lemma TakeLength(h: HeapState, s: set<nat>)
    ensures |Take(h, s).table| == |h.table|
  {
  }

  lemma FreeBlockFits(t: Table)
    requires FreeSet(t) != {}
    ensures Fits(t, 1)
  {
    var i :| i in FreeSet(t);
    assert FreeRun(t, i, 1);
  }

  /** A one-block request takes the least free block, when there is one. */
  lemma MallocOne(h: HeapState)
    requires Inv(h) && FreeSet(h.table) != {}
    ensures var (h', s) := MallocBlocks(h, 1);
      0 <= s < |h.table| && s in FreeSet(h.table) && h' == Take(h, {s}) && s !in h.live
  {
    FreeBlockFits(h.table);
    StartBlockExact(h.table, 1);
    var (h', s) := MallocBlocks(h, 1);
    FreeRunNotLive(h, s, 1, s);
    assert h'.table == Take(h, {s}).table;
    assert h'.live == Take(h, {s}).live;
  }

  lemma TakeMore(h: HeapState, s: set<nat>, b: nat)
    ensures Take(Take(h, s), {b}) == Take(h, s + {b})
  {
    assert Take(Take(h, s), {b}).table == Take(h, s + {b}).table;
    assert Take(Take(h, s), {b}).live == Take(h, s + {b}).live;
  }

  lemma FreeAfterTake(h: HeapState, s: set<nat>)
    ensures FreeSet(Take(h, s).table) == FreeSet(h.table) - s
  {
  }

  lemma FreeOne(h: HeapState, b: nat)
    requires Inv(h) && b in h.live && h.live[b] == 1
    ensures Free(h, b) == Release(h, {b}) && Freeable(h, b)
  {
    ChainOfLive(h, b);
    assert Free(h, b).table == Release(h, {b}).table;
  }

  lemma ReleaseMore(h: HeapState, s: set<nat>, b: nat)
    ensures Release(Release(h, s), {b}) == Release(h, s + {b})
  {
    assert Release(Release(h, s), {b}).table == Release(h, s + {b}).table;
    assert Release(Release(h, s), {b}).live == Release(h, s + {b}).live;
  }

  /** Releasing the blocks that were taken restores the heap. */
  lemma ReleaseTaken(h: HeapState, s: set<nat>)
    requires Inv(h) && s <= FreeSet(h.table)
    ensures Release(Take(h, s), s) == h
  {
    forall b | b in s ensures b !in h.live && h.table[b] == 0 {
      FreeRunNotLive(h, b, 1, b);
      assert Accounted(h, b);
    }
    assert Release(Take(h, s), s).table == h.table;
    assert Release(Take(h, s), s).live == h.live;
  }

  /** Releasing some of the blocks that were taken leaves the others taken. */
  lemma ReleaseSome(h: HeapState, s: set<nat>, t: set<nat>)
    requires Inv(h) && t <= s <= FreeSet(h.table)
    ensures Release(Take(h, s), t) == Take(h, s - t)
  {
    forall b | b in t ensures b !in h.live && h.table[b] == 0 {
      FreeRunNotLive(h, b, 1, b);
      assert Accounted(h, b);
    }
    assert Release(Take(h, s), t).table == Take(h, s - t).table;
    assert Release(Take(h, s), t).live == Take(h, s - t).live;
  }

  lemma TakeKeepsLive(h: HeapState, s: set<nat>, b: nat)
    requires Inv(h) && s <= FreeSet(h.table) && b in h.live
    ensures b in Take(h, s).live && Take(h, s).live[b] == h.live[b] && b !in s
  {
    if b in s { FreeRunNotLive(h, b, 1, b); }
  }

  // ---- one-block requests in a row ----

  /** h after k requests for one block. */
  ghost function Singles(h: HeapState, k: nat): HeapState {
    if k == 0 then h else MallocBlocks(Singles(h, k - 1), 1).0
  }

  /** The block that request number i gets. */
  ghost function SingleAt(h: HeapState, i: nat): nat {
    var s := MallocBlocks(Singles(h, i), 1).1;
    if s < 0 then 0 else s
  }

  ghost function SingleBlocks(h: HeapState, k: nat): set<nat> {
    if k == 0 then {} else SingleBlocks(h, k - 1) + {SingleAt(h, k - 1)}
  }

  /** While blocks are free, the requests take different free blocks. */
  lemma {:induction false} SinglesTake(h: HeapState, k: nat)
    requires Inv(h) && k <= |FreeSet(h.table)|
    ensures Inv(Singles(h, k)) && Singles(h, k) == Take(h, SingleBlocks(h, k))
    ensures SingleBlocks(h, k) <= FreeSet(h.table) && |SingleBlocks(h, k)| == k
    ensures FreeSet(Singles(h, k).table) == FreeSet(h.table) - SingleBlocks(h, k)
    decreases k, 0
  {
    hide Inv, FreeSet, Take, MallocBlocks;
    FreeAfterTake(h, SingleBlocks(h, k));
    if k == 0 {
      TakeNone(h);
    } else {
      SinglesTake(h, k - 1);
      NextSingle(h, k - 1);
      TakeMore(h, SingleBlocks(h, k - 1), SingleAt(h, k - 1));
      MallocInv(Singles(h, k - 1), 1);
    }
  }

  lemma NextSingle(h: HeapState, k: nat)
    requires Inv(h) && k < |FreeSet(h.table)|
    ensures MallocBlocks(Singles(h, k), 1) == (Singles(h, k + 1), SingleAt(h, k))
    ensures SingleAt(h, k) in FreeSet(h.table) && SingleAt(h, k) !in SingleBlocks(h, k)
    ensures Singles(h, k + 1) == Take(Singles(h, k), {SingleAt(h, k)})
    decreases k, 1
  {
    hide Inv, FreeSet, Take, MallocBlocks;
    SinglesTake(h, k);
    LeftOver(FreeSet(h.table), SingleBlocks(h, k));
    MallocOne(Singles(h, k));
  }

  lemma LeftOver(s: set<nat>, t: set<nat>)
    requires |t| < |s|
    ensures s - t != {}
  {
    assert s == s * t + (s - t) && t == s * t + (t - s);
  }

  lemma {:induction false} SinglesAdd(h: HeapState, j: nat, k: nat)
    ensures Singles(Singles(h, j), k) == Singles(h, j + k) && SingleAt(Singles(h, j), k) == SingleAt(h, j + k)
    decreases k
  {
    hide MallocBlocks;
    if k > 0 { SinglesAdd(h, j, k - 1); }
  }

  lemma {:induction false} InSingles(h: HeapState, i: nat, k: nat)
    requires i < k
    ensures SingleAt(h, i) in SingleBlocks(h, k)
  {
    hide SingleAt;
    if i < k - 1 { InSingles(h, i, k - 1); }
  }

  /** Different requests get different blocks. */
  lemma SinglesApart(h: HeapState, i: nat, j: nat)
    requires Inv(h) && i < j < |FreeSet(h.table)|
    ensures SingleAt(h, i) != SingleAt(h, j)
  {
    hide Inv, FreeSet, SingleAt, Singles, SingleBlocks;
    InSingles(h, i, j);
    NextSingle(h, j);
  }
}
