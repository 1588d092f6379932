/** What the block heap does, as functions on its table of entries, and what every
    run of allocations and frees keeps. The width of a table entry is a parameter:
    UnsignedChar is the declared type, in which the HAS_NEXT bit (256) is lost when
    it is stored; UnsignedShort is an entry wide enough to hold it. */
module HeapSpec {
  import Bits
  import opened Status

  const BLOCK: nat := 4096
  const TAKEN: nat := 1
  const IS_FIRST: nat := 128
  const HAS_NEXT: nat := 256

  datatype Width = UnsignedChar | UnsignedShort

  type Entry = e: nat | e < 0x1_0000
  type Table = seq<Entry>

  /** What an entry variable of the given width holds after an assignment. */
  function Store(w: Width, v: Entry): Entry {
    if w.UnsignedChar? then v % 256 else v
  }

  // entry & 0x0f
  predicate IsFree(e: Entry) { e % 16 == 0 }

  // entry & HEAP_BLOCK_HAS_NEXT
  predicate HasNext(e: Entry) { e / 256 % 2 == 1 }

  /** The low four bits of an entry say whether its block is free, and bit 8 whether the
      chain goes on. */
  lemma EntryMasks(e: Entry)
    ensures IsFree(e) <==> Bits.And(e, 0x0F) == 0
    ensures HasNext(e) <==> Bits.And(e, 0x100) != 0
  {
    assert Bits.Pow2(4) == 16;
    Bits.AndLow(e, 4, 16);
    Bits.AndBit8(e);
  }

  /** The entry of block k of an allocation of n blocks. */
  function EntryOf(w: Width, k: nat, n: nat): (e: Entry)
    ensures e % 16 == 1
    ensures HasNext(e) <==> w.UnsignedShort? && k + 1 < n
  {
    Store(w, TAKEN + (if k == 0 then IS_FIRST else 0) + (if k + 1 < n then HAS_NEXT else 0))
  }

  // ---- the search for a start block ----

  predicate FreeRun(t: Table, s: nat, n: nat) {
    s + n <= |t| && forall i :: s <= i < s + n ==> IsFree(t[i])
  }

  /** Some run of n free blocks exists. */
  ghost predicate Fits(t: Table, n: nat) {
    exists s: nat :: FreeRun(t, s, n)
  }

  ghost function FirstFitFrom(t: Table, n: nat, from: nat): (s: nat)
    requires exists r: nat :: r >= from && FreeRun(t, r, n)
    ensures s >= from && FreeRun(t, s, n)
    ensures forall r: nat :: from <= r < s ==> !FreeRun(t, r, n)
    decreases |t| - from
  {
    if FreeRun(t, from, n) then from else FirstFitFrom(t, n, from + 1)
  }

  ghost function FirstFit(t: Table, n: nat): (s: nat)
    requires Fits(t, n)
    ensures FreeRun(t, s, n) && forall r: nat :: r < s ==> !FreeRun(t, r, n)
  {
    FirstFitFrom(t, n, 0)
  }

  /** Start of the free run that ends the table; |t| when the last block is taken. */
  function TrailingStart(t: Table): (s: nat)
    ensures s <= |t| && FreeRun(t, s, |t| - s)
    ensures s > 0 ==> !IsFree(t[s - 1])
  {
    if |t| == 0 || !IsFree(t[|t| - 1]) then |t| else TrailingStart(t[..|t| - 1])
  }

  /** The block the search returns, or -ENOMEM. */
  ghost function StartBlock(t: Table, n: nat): int {
    if n >= 1 && Fits(t, n) then FirstFit(t, n)
    else if TrailingStart(t) == |t| then -ENOMEM
    else TrailingStart(t)
  }

  /** The search refuses exactly when the last block is taken and nothing fits;
      otherwise, when nothing fits, it hands out the short run at the end. */
  lemma StartBlockExact(t: Table, n: nat)
    requires n >= 1
    ensures StartBlock(t, n) == -ENOMEM <==> !Fits(t, n) && (|t| == 0 || !IsFree(t[|t| - 1]))
    ensures StartBlock(t, n) >= 0 ==> (StartBlock(t, n) + n <= |t| <==> Fits(t, n))
  {
    var s := TrailingStart(t);
    if s + n <= |t| {
      assert FreeRun(t, s, n);
    }
  }

  /** A request for one block is never handed a short run. */
  lemma OneBlockNeverShort(t: Table)
    ensures StartBlock(t, 1) == -ENOMEM <==> !Fits(t, 1)
  {
    StartBlockExact(t, 1);
    if |t| > 0 && IsFree(t[|t| - 1]) {
      assert FreeRun(t, |t| - 1, 1);
    }
  }

  // ---- marking ----

  /** The numbers from a up to, not including, b. */
  function Range(a: nat, b: nat): (r: set<nat>)
    ensures forall i :: i in r <==> a <= i < b
    decreases b - a
  {
    if a >= b then {} else {a} + Range(a + 1, b)
  }

  function Min(a: int, b: int): int { if a <= b then a else b }

  function MarkedAt(w: Width, e: Entry, s: nat, n: nat, i: nat): Entry {
    if s <= i < s + n then EntryOf(w, i - s, n) else e
  }

  /** The table after n blocks from s are marked taken (as far as it reaches). */
  function Marked(w: Width, t: Table, s: nat, n: nat): (r: Table)
    ensures |r| == |t|
    ensures forall i :: 0 <= i < |t| ==> r[i] == if s <= i < s + n then EntryOf(w, i - s, n) else t[i]
  {
    seq(|t|, i requires 0 <= i < |t| => MarkedAt(w, t[i], s, n, i))
  }

  /** The first block after those that freeing from i clears. */
  function ChainEnd(t: Table, i: nat): (e: nat)
    ensures i <= e && (i < |t| ==> i < e <= |t|)
    decreases |t| - i
  {
    if i >= |t| then i
    else if HasNext(t[i]) then ChainEnd(t, i + 1)
    else i + 1
  }

  function Cleared(t: Table, s: nat, e: nat): (r: Table)
    ensures |r| == |t|
    ensures forall i :: 0 <= i < |t| ==> r[i] == if s <= i < e then 0 else t[i]
  {
    seq<Entry>(|t|, i requires 0 <= i < |t| => if s <= i < e then 0 else t[i])
  }

  // ---- the heap with its live allocations ----

  /** live maps the start block of each live allocation to its length in blocks;
      leaked holds taken blocks that belong to no live allocation. */
  datatype HeapState = HeapState(width: Width, table: Table, live: map<nat, nat>, leaked: set<nat>)

  ghost predicate Within(live: map<nat, nat>, s: nat, i: int) {
    s in live && s <= i < s + live[s]
  }

  ghost predicate Covered(live: map<nat, nat>, i: int) {
    exists s :: Within(live, s, i)
  }

  ghost predicate LiveMarked(h: HeapState) {
    forall s :: s in h.live ==>
      && h.live[s] >= 1 && s + h.live[s] <= |h.table|
      && forall i :: s <= i < s + h.live[s] ==> RunEntry(h, s, i)
  }

  /** Block i is marked as a block of the allocation at s. The last block of the table may
      be marked as having a next one: that is how a short run ends. */
  ghost predicate RunEntry(h: HeapState, s: nat, i: nat)
    requires s in h.live && s <= i < |h.table|
  {
    || h.table[i] == EntryOf(h.width, i - s, h.live[s])
    || (i == |h.table| - 1 && h.table[i] == EntryOf(h.width, i - s, h.live[s] + 1))
  }

  ghost predicate Disjoint(live: map<nat, nat>) {
    forall a, b :: a in live && b in live && a < b ==> a + live[a] <= b
  }

  ghost predicate LeakedApart(h: HeapState) {
    forall i :: i in h.leaked ==> i < |h.table| && !Covered(h.live, i)
  }

  /** Block i is free exactly when it is neither leaked nor part of a live allocation. */
  ghost predicate Accounted(h: HeapState, i: nat)
    requires i < |h.table|
  {
    && (IsFree(h.table[i]) <==> i !in h.leaked && !Covered(h.live, i))
    && (IsFree(h.table[i]) ==> h.table[i] == 0)
  }

  /** Live allocations are marked, in bounds and pairwise disjoint, and the taken
      blocks are exactly theirs and the leaked ones. */
  ghost predicate Inv(h: HeapState) {
    && LiveMarked(h)
    && Disjoint(h.live)
    && LeakedApart(h)
    && forall i :: 0 <= i < |h.table| ==> Accounted(h, i)
  }

  function Empty(w: Width, total: nat): HeapState {
    HeapState(w, seq(total, _ => 0), map[], {})
  }

  /** How many blocks a request for n blocks is granted, when it is not refused: all of
      them, or the short run at the end of the table. */
  ghost function Granted(t: Table, n: nat): int { Min(n, |t| - StartBlock(t, n)) }

  /** heap_malloc_blocks: the new state and the start block, negative on failure. What is
      granted to a request for at least one block is live. */
  ghost function MallocBlocks(h: HeapState, n: nat): (HeapState, int) {
    var s := StartBlock(h.table, n);
    if s < 0 then (h, s)
    else if n == 0 then (h, s)
    else (HeapState(h.width, Marked(h.width, h.table, s, n), h.live[s := Granted(h.table, n)], h.leaked), s)
  }

  /** heap_free of a live allocation, or of a block that is free already. */
  ghost function Free(h: HeapState, s: nat): HeapState
    requires s < |h.table|
  {
    var e := ChainEnd(h.table, s);
    HeapState(h.width, Cleared(h.table, s, e), h.live - {s},
              if s in h.live then h.leaked + Range(e, s + h.live[s]) else h.leaked)
  }

  predicate Freeable(h: HeapState, s: nat) {
    s < |h.table| && (s in h.live || IsFree(h.table[s]))
  }

  // ---- every operation keeps the invariant ----

  lemma EmptyInv(w: Width, total: nat)
    ensures Inv(Empty(w, total))
  {
  }

  lemma FreeRunNotLive(h: HeapState, s: nat, n: nat, i: nat)
    requires Inv(h) && FreeRun(h.table, s, n) && s <= i < s + n
    ensures i !in h.leaked && !Covered(h.live, i) && i !in h.live
  {
    assert Accounted(h, i);
    if i in h.live { assert Within(h.live, i, i); }
  }

  lemma NewRunDisjoint(h: HeapState, s: nat, n: nat, a: nat)
    requires Inv(h) && n >= 1 && FreeRun(h.table, s, n) && a in h.live
    ensures a + h.live[a] <= s || s + n <= a
  {
    if s <= a < s + n {
      FreeRunNotLive(h, s, n, a);
    } else if a < s < a + h.live[a] {
      assert Within(h.live, a, s);
      FreeRunNotLive(h, s, n, s);
    }
  }

  lemma CoveredAfterAdd(live: map<nat, nat>, s: nat, n: nat, i: int)
    requires s !in live
    ensures Covered(live[s := n], i) <==> Covered(live, i) || s <= i < s + n
  {
    var live' := live[s := n];
    if Covered(live, i) {
      var a :| Within(live, a, i);
      assert Within(live', a, i);
    }
    if s <= i < s + n { assert Within(live', s, i); }
    if Covered(live', i) {
      var a :| Within(live', a, i);
      if a != s { assert Within(live, a, i); }
    }
  }

  lemma CoveredAfterRemove(live: map<nat, nat>, s: nat, i: int)
    requires Disjoint(live) && s in live
    ensures Covered(live - {s}, i) <==> Covered(live, i) && !(s <= i < s + live[s])
  {
    var live' := live - {s};
    if Covered(live', i) {
      var a :| Within(live', a, i);
      assert Within(live, a, i);
    }
    if Covered(live, i) && !(s <= i < s + live[s]) {
      var a :| Within(live, a, i);
      assert Within(live', a, i);
    }
  }

  /** Marking g free blocks of a request for n, all of them or as many as the table has. */
  lemma MarkRun(h: HeapState, s: nat, n: nat, g: nat, h': HeapState)
    requires Inv(h) && 1 <= g <= n && FreeRun(h.table, s, g) && (g == n || s + g == |h.table|)
    requires h' == HeapState(h.width, Marked(h.width, h.table, s, n), h.live[s := g], h.leaked)
    ensures Inv(h')
  {
    hide EntryOf;
    forall i | s <= i < s + g ensures i !in h.leaked && !Covered(h.live, i) && i !in h.live {
      FreeRunNotLive(h, s, g, i);
    }
    forall a | a in h.live ensures a + h.live[a] <= s || s + g <= a {
      NewRunDisjoint(h, s, g, a);
    }
    forall i: int ensures Covered(h'.live, i) <==> Covered(h.live, i) || s <= i < s + g {
      CoveredAfterAdd(h.live, s, g, i);
    }
    forall i | 0 <= i < |h'.table| ensures Accounted(h', i) {
      assert Accounted(h, i);
    }
    forall i | s <= i < s + g ensures RunEntry(h', s, i) {
      EntryAlike(h.width, i - s, n, if i - s + 1 < g then g else g + 1);
    }
    forall a, i | a in h.live && a <= i < a + h.live[a] ensures RunEntry(h', a, i) {
      assert RunEntry(h, a, i);
    }
  }

  /** An entry depends only on whether it is the first, and whether it is the last. */
  lemma EntryAlike(w: Width, k: nat, m: nat, n: nat)
    ensures (k + 1 < m <==> k + 1 < n) ==> EntryOf(w, k, m) == EntryOf(w, k, n)
  {
  }

  /** What is granted is a run of free blocks at the start block. */
  lemma GrantedRun(t: Table, n: nat)
    requires n >= 1 && StartBlock(t, n) >= 0
    ensures 1 <= Granted(t, n) <= n && FreeRun(t, StartBlock(t, n), Granted(t, n))
    ensures Granted(t, n) == n || StartBlock(t, n) + Granted(t, n) == |t|
    ensures Fits(t, n) <==> Granted(t, n) == n
  {
    StartBlockExact(t, n);
  }

  lemma MallocInv(h: HeapState, n: nat)
    requires Inv(h)
    ensures Inv(MallocBlocks(h, n).0)
  {
    hide Inv, FreeRun, Marked;
    var (h', s) := MallocBlocks(h, n);
    if s >= 0 && n >= 1 {
      GrantedRun(h.table, n);
      MarkRun(h, s, n, Granted(h.table, n), h');
    }
  }

  /** Freeing a live allocation clears all of it when entries can hold HAS_NEXT,
      and only its first block when they cannot. */
  lemma ChainOfLive(h: HeapState, s: nat)
    requires Inv(h) && s in h.live
    ensures ChainEnd(h.table, s) == if h.width.UnsignedShort? then s + h.live[s] else s + 1
  {
    assert RunEntry(h, s, s);
    if h.width.UnsignedShort? { ChainFrom(h, s, s); }
  }

  lemma {:induction false} ChainFrom(h: HeapState, s: nat, i: nat)
    requires Inv(h) && s in h.live && h.width.UnsignedShort? && s <= i < s + h.live[s]
    ensures ChainEnd(h.table, i) == s + h.live[s]
    decreases s + h.live[s] - i
  {
    assert RunEntry(h, s, i);
    if i + 1 < s + h.live[s] { ChainFrom(h, s, i + 1); }
  }

  lemma FreeInv(h: HeapState, s: nat)
    requires Inv(h) && Freeable(h, s)
    ensures Inv(Free(h, s))
  {
    if s in h.live {
      FreeLiveInv(h, s);
    } else {
      FreeOfFree(h, s);
    }
  }

  lemma FreeLiveInv(h: HeapState, s: nat)
    requires Inv(h) && s in h.live
    ensures Inv(Free(h, s))
  {
    hide ChainEnd, Covered, Accounted;
    var h' := Free(h, s);
    ChainOfLive(h, s);
    forall i: int ensures Covered(h'.live, i) <==> Covered(h.live, i) && !(s <= i < s + h.live[s]) {
      CoveredAfterRemove(h.live, s, i);
    }
    forall i | 0 <= i < |h'.table| ensures Accounted(h', i) {
      AccountedAfterFree(h, s, i);
    }
    forall a, i | a in h'.live && a <= i < a + h'.live[a] ensures RunEntry(h', a, i) {
      assert RunEntry(h, a, i);
    }
  }

  lemma AccountedAfterFree(h: HeapState, s: nat, i: nat)
    requires Inv(h) && s in h.live && i < |h.table|
    ensures Accounted(Free(h, s), i)
  {
    hide ChainEnd, Covered;
    ChainOfLive(h, s);
    CoveredAfterRemove(h.live, s, i);
    assert Accounted(h, i);
    if s <= i < s + h.live[s] {
      assert Covered(h.live, i) by { LiveCovers(h.live, s, i); }
    }
  }

  lemma LiveCovers(live: map<nat, nat>, s: nat, i: int)
    requires s in live && s <= i < s + live[s]
    ensures Covered(live, i)
  {
    assert Within(live, s, i);
  }

  /** Freeing a block that is already free changes nothing. */
  lemma FreeOfFree(h: HeapState, s: nat)
    requires Inv(h) && s < |h.table| && IsFree(h.table[s])
    ensures s !in h.live && Free(h, s) == h
  {
    FreeRunNotLive(h, s, 1, s);
    assert Accounted(h, s);
    assert Free(h, s).table == h.table;
    assert h.live - {s} == h.live;
  }

  // ---- whole runs ----

  datatype Op = Allocate(blocks: nat) | Deallocate(start: nat)

  /** A pointer that is freed is one that was returned and not freed since, or leads to a
      free block, as one returned for no blocks does. */
  ghost predicate Legal(h: HeapState, op: Op) {
    op.Deallocate? ==> Freeable(h, op.start)
  }

  ghost function Apply(h: HeapState, op: Op): HeapState
    requires Legal(h, op)
  {
    match op
    case Allocate(n) => MallocBlocks(h, n).0
    case Deallocate(s) => Free(h, s)
  }

  ghost predicate LegalRun(h: HeapState, ops: seq<Op>)
    decreases |ops|
  {
    ops == [] || (Legal(h, ops[0]) && LegalRun(Apply(h, ops[0]), ops[1..]))
  }

  ghost function Run(h: HeapState, ops: seq<Op>): HeapState
    requires LegalRun(h, ops)
    decreases |ops|
  {
    if ops == [] then h else Run(Apply(h, ops[0]), ops[1..])
  }

  lemma ApplyInv(h: HeapState, op: Op)
    requires Inv(h) && Legal(h, op)
    ensures Inv(Apply(h, op))
  {
    match op
    case Allocate(n) => MallocInv(h, n);
    case Deallocate(s) => FreeInv(h, s);
  }

  /** After any run from the empty heap, live allocations are in bounds, marked
      taken and pairwise disjoint, at either entry width. */
  lemma RunSafety(w: Width, total: nat, ops: seq<Op>)
    requires LegalRun(Empty(w, total), ops)
    ensures Inv(Run(Empty(w, total), ops))
  {
    EmptyInv(w, total);
    RunInv(Empty(w, total), ops);
  }

  lemma {:induction false} RunInv(h: HeapState, ops: seq<Op>)
    requires Inv(h) && LegalRun(h, ops)
    ensures Inv(Run(h, ops))
    decreases |ops|
  {
    if ops != [] {
      ApplyInv(h, ops[0]);
      RunInv(Apply(h, ops[0]), ops[1..]);
    }
  }

  // ---- conservation ----

  /** Operations that lose no block now or later: requests for no blocks, that are
      refused, or that are granted one block, and all when the entry can hold HAS_NEXT. */
  ghost predicate Conserving(h: HeapState, op: Op) {
    match op
    case Allocate(n) => n == 0 || StartBlock(h.table, n) < 0 || h.width.UnsignedShort? || Granted(h.table, n) == 1
    case Deallocate(_) => true
  }

  ghost predicate ConservingRun(h: HeapState, ops: seq<Op>)
    requires LegalRun(h, ops)
    decreases |ops|
  {
    ops == [] || (Conserving(h, ops[0]) && ConservingRun(Apply(h, ops[0]), ops[1..]))
  }

  /** No block is leaked, and none will be when the live allocations are freed. */
  ghost predicate Lossless(h: HeapState) {
    h.leaked == {} && (h.width.UnsignedChar? ==> forall s :: s in h.live ==> h.live[s] == 1)
  }

  lemma AllocateLossless(h: HeapState, n: nat)
    requires Inv(h)
    ensures Lossless(MallocBlocks(h, n).0) <==> Lossless(h) && Conserving(h, Allocate(n))
  {
    hide Granted, Marked;
    var (h', s) := MallocBlocks(h, n);
    if s >= 0 && n >= 1 {
      GrantedRun(h.table, n);
      FreeRunNotLive(h, s, Granted(h.table, n), s);
      assert s in h'.live && h'.live[s] == Granted(h.table, n);
      assert forall a :: a in h.live ==> a in h'.live && h'.live[a] == h.live[a];
    }
  }

  lemma DeallocateLossless(h: HeapState, s: nat)
    requires Inv(h) && Freeable(h, s)
    ensures Lossless(Free(h, s)) <==> Lossless(h)
  {
    if s !in h.live {
      FreeOfFree(h, s);
    } else {
      ChainOfLive(h, s);
      var h' := Free(h, s);
      if h.width.UnsignedChar? && h.live[s] > 1 {
        assert s + 1 in h'.leaked;
      } else {
        assert h'.leaked == h.leaked;
        assert forall a :: a in h.live ==> a == s || (a in h'.live && h'.live[a] == h.live[a]);
      }
    }
  }

  lemma {:induction false} RunLossless(h: HeapState, ops: seq<Op>)
    requires Inv(h) && LegalRun(h, ops)
    ensures Lossless(Run(h, ops)) <==> Lossless(h) && ConservingRun(h, ops)
    decreases |ops|
  {
    hide Lossless, Conserving, Inv, MallocBlocks, Free;
    if ops != [] {
      ApplyInv(h, ops[0]);
      RunLossless(Apply(h, ops[0]), ops[1..]);
      match ops[0]
      case Allocate(n) => AllocateLossless(h, n);
      case Deallocate(s) =>
        DeallocateLossless(h, s);
        assert Conserving(h, ops[0]) by { AlwaysConserving(h, s); }
    }
  }

  lemma AlwaysConserving(h: HeapState, s: nat)
    ensures Conserving(h, Deallocate(s))
  {
  }

  /** A run that frees all it allocated, in any order, leaves every block free if and
      only if each of its operations conserves. */
  lemma RunConserves(w: Width, total: nat, ops: seq<Op>)
    requires LegalRun(Empty(w, total), ops)
    requires Run(Empty(w, total), ops).live == map[]
    ensures (forall e :: e in Run(Empty(w, total), ops).table ==> e == 0) <==> ConservingRun(Empty(w, total), ops)
  {
    hide Run, LegalRun, ConservingRun;
    var h := Run(Empty(w, total), ops);
    EmptyInv(w, total);
    RunInv(Empty(w, total), ops);
    RunLossless(Empty(w, total), ops);
    AllFree(h);
  }

  lemma AllAlike(t: Table)
    ensures (forall e :: e in t ==> e == 0) <==> (forall i :: 0 <= i < |t| ==> t[i] == 0)
  {
    if forall e :: e in t ==> e == 0 {
      forall i | 0 <= i < |t| ensures t[i] == 0 {
        assert t[i] in t;
      }
    }
  }

  lemma AllFree(h: HeapState)
    requires Inv(h) && h.live == map[]
    ensures (forall e :: e in h.table ==> e == 0) <==> h.leaked == {}
  {
    forall i | 0 <= i < |h.table| ensures h.table[i] == 0 <==> i !in h.leaked {
      assert Accounted(h, i);
    }
    AllAlike(h.table);
  }

  /** Allocating and freeing at once restores the heap if and only if one block was
      granted or the entry can hold HAS_NEXT, also when a short run was granted. */
  lemma MallocThenFree(h: HeapState, n: nat)
    requires Inv(h) && n >= 1 && StartBlock(h.table, n) >= 0
    ensures var (h', s) := MallocBlocks(h, n); var g := Granted(h.table, n);
      && Legal(h', Deallocate(s))
      && (Free(h', s) == h <==> g == 1 || h.width.UnsignedShort?)
      && Free(h', s).leaked == h.leaked + (if h.width.UnsignedShort? then {} else Range(s + 1, s + g))
  {
    hide Inv, ChainEnd, Marked, Cleared, FreeRun, Fits, Granted;
    var (h', s) := MallocBlocks(h, n);
    var g := Granted(h.table, n);
    GrantedRun(h.table, n);
    MallocInv(h, n);
    GrantedInside(h.table, n);
    ChainOfLive(h', s);
    FreeRunNotLive(h, s, g, s);
    var f := Free(h', s);
    assert f.live == h.live;
    if g == 1 || h.width.UnsignedShort? {
      ClearedAgain(h, s, n, g);
      assert f.leaked == h.leaked;
    } else {
      FreeRunNotLive(h, s, g, s + 1);
      assert s + 1 in f.leaked;
    }
  }

  lemma GrantedInside(t: Table, n: nat)
    requires n >= 1 && StartBlock(t, n) >= 0
    ensures StartBlock(t, n) + Granted(t, n) <= |t|
  {
    GrantedRun(t, n);
  }

  lemma ClearedAgain(h: HeapState, s: nat, n: nat, g: nat)
    requires Inv(h) && FreeRun(h.table, s, g) && (g == n || s + g == |h.table|)
    ensures Cleared(Marked(h.width, h.table, s, n), s, s + g) == h.table
  {
    hide Covered;
    forall i | s <= i < s + g ensures h.table[i] == 0 {
      assert Accounted(h, i);
    }
  }
}
