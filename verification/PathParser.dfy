/** The path parser over the kernel heap (src/fs/pparser.c): a root structure and a linked
    list of parts, each part a structure and a 108-byte string, all in heap blocks. */
module PathParser {
  import opened Memory
  import opened HeapSpec
  import opened HeapGrants
  import opened Machine
  import opened Blocks
  import opened Paging
  import opened Growth
  import opened Strings
  import opened Paths

  const ROOT_SIZE: nat := 8
  const PART_SIZE: nat := 8

  type HeapBlock = b: nat | b < HEAP_BLOCKS

  /** The blocks of one part: its structure and its string. */
  datatype Node = Node(part: HeapBlock, str: HeapBlock)

  /** What a link to node j holds: its address, or 0 past the end. */
  function LinkTo(nodes: seq<Node>, j: nat): nat {
    if j < |nodes| then BlockAddress(nodes[j].part) else 0
  }

  ghost function NodeBlocks(nodes: seq<Node>): set<nat> {
    if nodes == [] then {}
    else NodeBlocks(nodes[..|nodes| - 1]) + {nodes[|nodes| - 1].part, nodes[|nodes| - 1].str}
  }

  lemma NodeBlocksMore(nodes: seq<Node>, node: Node)
    ensures NodeBlocks(nodes + [node]) == NodeBlocks(nodes) + {node.part, node.str}
  {
    assert (nodes + [node])[..|nodes|] == nodes;
  }

  lemma {:induction false} NodeBlocksHold(nodes: seq<Node>, i: nat)
    requires i < |nodes|
    ensures nodes[i].part in NodeBlocks(nodes) && nodes[i].str in NodeBlocks(nodes)
  {
    if i < |nodes| - 1 { NodeBlocksHold(nodes[..|nodes| - 1], i); }
  }

  lemma {:induction false} NodeBlocksSize(nodes: seq<Node>)
    ensures |NodeBlocks(nodes)| <= 2 * |nodes|
  {
    if nodes != [] {
      NodeBlocksSize(nodes[..|nodes| - 1]);
      var last := nodes[|nodes| - 1];
      assert |{last.part, last.str}| <= 2;
      UnionSize(NodeBlocks(nodes[..|nodes| - 1]), {last.part, last.str});
    }
  }

  lemma UnionSize(s: set<nat>, t: set<nat>)
    ensures |s + t| <= |s| + |t|
  {
    assert s + t == s + (t - s);
    SubsetSize(t - s, t);
  }

  /** The blocks of a node are two, and outside the given ones. */
  ghost predicate Fresh(node: Node, bs: set<nat>) {
    node.part != node.str && node.part !in bs && node.str !in bs
  }

  /** The root, the structures and the strings are all different blocks of the heap. */
  ghost predicate Apart(root: nat, nodes: seq<Node>)
    decreases |nodes|
  {
    if nodes == [] then root < HEAP_BLOCKS
    else
      && Apart(root, nodes[..|nodes| - 1])
      && Fresh(nodes[|nodes| - 1], {root} + NodeBlocks(nodes[..|nodes| - 1]))
  }

  lemma ApartMore(root: nat, nodes: seq<Node>, node: Node)
    requires Apart(root, nodes) && Fresh(node, {root} + NodeBlocks(nodes))
    ensures Apart(root, nodes + [node])
  {
    assert (nodes + [node])[..|nodes|] == nodes;
  }

  lemma {:induction false} ApartPrefix(root: nat, nodes: seq<Node>, i: nat)
    requires Apart(root, nodes) && i < |nodes|
    ensures Apart(root, nodes[..i + 1]) && Fresh(nodes[i], {root} + NodeBlocks(nodes[..i]))
    decreases |nodes|
  {
    hide Fresh, NodeBlocks;
    var init := nodes[..|nodes| - 1];
    if i < |nodes| - 1 {
      ApartPrefix(root, init, i);
      assert init[..i + 1] == nodes[..i + 1] && init[..i] == nodes[..i];
    } else {
      assert nodes[..i + 1] == nodes;
    }
  }

  /** Node i is in memory: its string pointer, its link, and its string padded with zeros. */
  ghost predicate NodeIn(m: Ram, nodes: seq<Node>, parts: seq<seq<Byte>>, i: nat)
    requires i < |nodes| == |parts|
  {
    && |parts[i]| <= MAX_PATH
    && SlotAt(m, BlockPage(nodes[i].part), 0) == BlockAddress(nodes[i].str)
    && SlotAt(m, BlockPage(nodes[i].part), 1) == LinkTo(nodes, i + 1)
    && Bytes(m, BlockAddress(nodes[i].str), MAX_PATH) == Padded(parts[i], MAX_PATH)
  }

  ghost predicate ListIn(m: Ram, nodes: seq<Node>, parts: seq<seq<Byte>>) {
    |nodes| == |parts| && forall i :: 0 <= i < |nodes| ==> NodeIn(m, nodes, parts, i)
  }

  /** The root structure is in memory: the drive number and the first link. */
  ghost predicate RootIn(m: Ram, root: nat, drive: nat, first: nat) {
    root < HEAP_BLOCKS && SlotAt(m, BlockPage(root), 0) == drive && SlotAt(m, BlockPage(root), 1) == first
  }

  // ---- writes that keep the list ----

  lemma BlockKept(m: Ram, m': Ram, b: nat, c: nat)
    requires b < HEAP_BLOCKS && c < HEAP_BLOCKS && b != c && SameOutside(m, m', {BlockPage(c)})
    ensures SlotAt(m', BlockPage(b), 0) == SlotAt(m, BlockPage(b), 0)
    ensures SlotAt(m', BlockPage(b), 1) == SlotAt(m, BlockPage(b), 1)
    ensures Bytes(m', BlockAddress(b), MAX_PATH) == Bytes(m, BlockAddress(b), MAX_PATH)
  {
    hide SlotAt;
    OutsideIsSame(m, m', {BlockPage(c)}, BlockPage(b));
    SamePageSlot(m, m', BlockPage(b), 0);
    SamePageSlot(m, m', BlockPage(b), 1);
    BlockIsPage(b);
  }

  /** A write to a block that is not in the list keeps the list. */
  lemma ListKept(m: Ram, m': Ram, nodes: seq<Node>, parts: seq<seq<Byte>>, c: nat)
    requires ListIn(m, nodes, parts) && c < HEAP_BLOCKS && c !in NodeBlocks(nodes) && SameOutside(m, m', {BlockPage(c)})
    ensures ListIn(m', nodes, parts)
  {
    hide SlotAt, SameOutside, Bytes, Padded, BlockPage, BlockAddress, NodeBlocks;
    forall i | 0 <= i < |nodes| ensures NodeIn(m', nodes, parts, i) {
      assert NodeIn(m, nodes, parts, i);
      NodeBlocksHold(nodes, i);
      BlockKept(m, m', nodes[i].part, c);
      BlockKept(m, m', nodes[i].str, c);
    }
  }

  /** Setting the last part's link keeps what block b holds, except for that link. */
  lemma LinkWritten(m: Ram, last: HeapBlock, v: Word, part: HeapBlock, str: HeapBlock)
    requires str != last
    ensures var m' := PutSlot(m, BlockPage(last), 1, v);
      && SlotAt(m', BlockPage(part), 0) == SlotAt(m, BlockPage(part), 0)
      && SlotAt(m', BlockPage(part), 1) == (if part == last then v else SlotAt(m, BlockPage(part), 1))
      && Bytes(m', BlockAddress(str), MAX_PATH) == Bytes(m, BlockAddress(str), MAX_PATH)
  {
    hide SlotAt, PutSlot, SameOutside;
    SlotAfterPut(m, BlockPage(last), 1, v, BlockPage(part), 0);
    SlotAfterPut(m, BlockPage(last), 1, v, BlockPage(part), 1);
    PutSlotOutside(m, BlockPage(last), 1, v);
    BlockKept(m, PutSlot(m, BlockPage(last), 1, v), str, last);
  }

  /** A part in its own two blocks: no link yet. */
  ghost predicate Single(m: Ram, node: Node, p: seq<Byte>) {
    && |p| <= MAX_PATH
    && SlotAt(m, BlockPage(node.part), 0) == BlockAddress(node.str)
    && SlotAt(m, BlockPage(node.part), 1) == 0
    && Bytes(m, BlockAddress(node.str), MAX_PATH) == Padded(p, MAX_PATH)
  }

  /** Memory after the last part, if any, is linked to the new one. */
  function Linked(m: Ram, nodes: seq<Node>, node: Node): Ram
  {
    if nodes == [] then m else PutSlot(m, BlockPage(nodes[|nodes| - 1].part), 1, BlockAddress(node.part))
  }

  lemma OldNodeLinked(m: Ram, root: nat, nodes: seq<Node>, parts: seq<seq<Byte>>, node: Node, p: seq<Byte>, i: nat)
    requires Apart(root, nodes) && ListIn(m, nodes, parts) && i < |nodes|
    ensures NodeIn(Linked(m, nodes, node), nodes + [node], parts + [p], i)
  {
    hide SlotAt, PutSlot, Bytes, Padded, BlockPage, Apart, NodeBlocks;
    var last := nodes[|nodes| - 1];
    assert NodeIn(m, nodes, parts, i) && NodeIn(m, nodes, parts, |nodes| - 1);
    ApartPrefix(root, nodes, |nodes| - 1);
    if i < |nodes| - 1 { NodeBlocksHold(nodes[..|nodes| - 1], i); }
    LinkWritten(m, last.part, BlockAddress(node.part), nodes[i].part, nodes[i].str);
    assert (nodes + [node])[i] == nodes[i] && (parts + [p])[i] == parts[i];
    assert i + 1 < |nodes| ==> LinkTo(nodes + [node], i + 1) == LinkTo(nodes, i + 1);
  }

  lemma NewNodeLinked(m: Ram, root: nat, nodes: seq<Node>, parts: seq<seq<Byte>>, node: Node, p: seq<Byte>)
    requires Apart(root, nodes) && ListIn(m, nodes, parts) && Fresh(node, {root} + NodeBlocks(nodes))
    requires Single(m, node, p)
    ensures NodeIn(Linked(m, nodes, node), nodes + [node], parts + [p], |nodes|)
  {
    hide SlotAt, PutSlot, Bytes, Padded, BlockPage, Apart, NodeBlocks;
    if nodes != [] {
      var last := nodes[|nodes| - 1];
      NodeBlocksHold(nodes, |nodes| - 1);
      assert NodeIn(m, nodes, parts, |nodes| - 1);
      LinkWritten(m, last.part, BlockAddress(node.part), node.part, node.str);
    }
  }

  /** Linking a new part to the last one makes the list one part longer. */
  lemma ListGrows(m: Ram, root: nat, nodes: seq<Node>, parts: seq<seq<Byte>>, node: Node, p: seq<Byte>)
    requires Apart(root, nodes) && ListIn(m, nodes, parts) && Fresh(node, {root} + NodeBlocks(nodes))
    requires Single(m, node, p)
    ensures ListIn(Linked(m, nodes, node), nodes + [node], parts + [p])
  {
    hide NodeIn, Linked, Apart, NodeBlocks, Single;
    forall i | 0 <= i < |nodes + [node]| ensures NodeIn(Linked(m, nodes, node), nodes + [node], parts + [p], i) {
      if i < |nodes| {
        OldNodeLinked(m, root, nodes, parts, node, p, i);
      } else {
        NewNodeLinked(m, root, nodes, parts, node, p);
      }
    }
  }

  // ---- one part ----

  // The byte of the C string path at index i.
  function CharAt(path: seq<Byte>, i: nat): Byte {
    if i < |path| then path[i] else 0
  }

  /** pathparser_get_path_part from index pos on: a block with the part padded with
      zeros, or nothing and the heap as it was when the part is empty. */
  method GetPathPart(k: Machine, path: seq<Byte>, pos: nat) returns (result: nat, next: nat, ghost b: nat)
    requires k.Valid() && FreeSet(k.HeapNow().table) != {}
    requires 0 !in path && pos <= |path| && |path[pos..]| <= MAX_PATH
    modifies k`ram, k.heap, k.heap.entries
    ensures k.Valid() && b in FreeSet(old(k.HeapNow()).table) && b < HEAP_BLOCKS
    ensures SameOutside(old(k.ram), k.ram, {BlockPage(b)})
    ensures pos <= next <= |path| && path[next..] == Rest(path[pos..])
    ensures Prefix(path[pos..]) == [] ==> result == 0 && k.HeapNow() == old(k.HeapNow())
    ensures Prefix(path[pos..]) != [] ==>
      result == BlockAddress(b) && k.HeapNow() == Take(old(k.HeapNow()), {b}) == MallocBlocks(old(k.HeapNow()), 1).0
    ensures Prefix(path[pos..]) != [] ==>
      Bytes(k.ram, BlockAddress(b), MAX_PATH) == Padded(Prefix(path[pos..]), MAX_PATH)
  {
    hide Take, FreeSet, SameOutside, Padded, Prefix, Rest, Splice, Bytes, Inv, Freeable, Free;
    ghost var h, s := k.HeapNow(), path[pos..];
    ghost var whole := Prefix(s);
    result, b := ZallocBlock(k, MAX_PATH);
    ghost var m1 := k.ram;
    ZeroedText(old(k.ram), result);
    OutsideSame(m1);
    OutsideWiden(m1, m1, m1, {}, {}, {BlockPage(b)});
    assert whole[..0] == [];
    next := pos;
    var i := 0;
    while CharAt(path, next) != SLASH && CharAt(path, next) != 0
      invariant 0 <= i <= |whole| && next == pos + i
      invariant k.Valid() && k.HeapNow() == Take(h, {b})
      invariant Bytes(k.ram, result, MAX_PATH) == Padded(whole[..i], MAX_PATH)
      invariant SameOutside(m1, k.ram, {BlockPage(b)})
      decreases |path| - next
    {
      PartByte(path, pos, i);
      TextStep(k.ram, b, whole[..i], path[next]);
      ghost var before := k.ram;
      k.ram := k.ram[result + i := path[next]];
      SameStep(m1, before, k.ram, b, i, path[next]);
      assert whole[..i + 1] == whole[..i] + [path[next]];
      next := next + 1;
      i := i + 1;
    }
    PartEnd(path, pos, i);
    assert whole[..i] == whole;
    if CharAt(path, next) == SLASH {
      next := next + 1;
    }
    OutsideWiden(old(k.ram), m1, k.ram, {BlockPage(b)}, {BlockPage(b)}, {BlockPage(b)});
    if i == 0 {
      TakenOnce(h, b);
      BlockIsPage(b);
      k.Kfree(result);
      result := 0;
    }
  }

  lemma ZeroedText(m: Ram, a: nat)
    requires a + MAX_PATH <= LIMIT
    ensures Bytes(Splice(m, a, Zeros(MAX_PATH)), a, MAX_PATH) == Padded([], MAX_PATH)
  {
  }

  lemma PartByte(path: seq<Byte>, pos: nat, i: nat)
    requires 0 !in path && pos + i <= |path| && i <= |Prefix(path[pos..])|
    requires CharAt(path, pos + i) != SLASH && CharAt(path, pos + i) != 0
    ensures i < |Prefix(path[pos..])| && pos + i < |path| && Prefix(path[pos..])[i] == path[pos + i]
  {
    hide Prefix;
    assert path[pos..][i] == path[pos + i];
  }

  lemma PartEnd(path: seq<Byte>, pos: nat, i: nat)
    requires 0 !in path && pos + i <= |path| && i <= |Prefix(path[pos..])|
    requires CharAt(path, pos + i) == SLASH || CharAt(path, pos + i) == 0
    ensures i == |Prefix(path[pos..])|
    ensures path[pos + i + (if CharAt(path, pos + i) == SLASH then 1 else 0)..] == Rest(path[pos..])
  {
    hide Prefix, Rest;
    var s := path[pos..];
    var w := Prefix(s);
    forall j | 0 <= j < |w| ensures s[j] != SLASH && s[j] != 0 {
      assert w[j] in w && s[j] == path[pos + j];
    }
    assert i < |s| ==> s[i] == path[pos + i];
  }

  lemma TextStep(m: Ram, b: nat, s: seq<Byte>, c: Byte)
    requires b < HEAP_BLOCKS && |s| < MAX_PATH && Bytes(m, BlockAddress(b), MAX_PATH) == Padded(s, MAX_PATH)
    ensures Bytes(m[BlockAddress(b) + |s| := c], BlockAddress(b), MAX_PATH) == Padded(s + [c], MAX_PATH)
  {
    var m', a := m[BlockAddress(b) + |s| := c], BlockAddress(b);
    forall j | 0 <= j < MAX_PATH ensures Bytes(m', a, MAX_PATH)[j] == Padded(s + [c], MAX_PATH)[j] {
      assert Bytes(m, a, MAX_PATH)[j] == Padded(s, MAX_PATH)[j];
    }
  }

  lemma SameStep(m: Ram, m1: Ram, m2: Ram, b: nat, i: nat, c: Byte)
    requires b < HEAP_BLOCKS && i < PAGE && SameOutside(m, m1, {BlockPage(b)})
    requires m2 == m1[BlockAddress(b) + i := c]
    ensures SameOutside(m, m2, {BlockPage(b)})
  {
    assert PageOf(BlockAddress(b) + i) == BlockPage(b);
  }

  /** Freeing the block that was just taken. */
  lemma TakenOnce(h: HeapState, b: nat)
    requires Inv(h) && b in FreeSet(h.table)
    ensures Inv(Take(h, {b})) ==> Freeable(Take(h, {b}), b) && Free(Take(h, {b}), b) == h
  {
    if Inv(Take(h, {b})) {
      FreeOne(Take(h, {b}), b);
      ReleaseTaken(h, {b});
    }
  }

  // ---- parsing ----

  /** The state of a parse that started in heap h0 and memory m0: exactly the root and the
      parts so far have been allocated, and the list of parts is in memory. */
  ghost predicate Parsing(h0: HeapState, m0: Ram, h: HeapState, m: Ram, root: nat, nodes: seq<Node>,
                          parts: seq<seq<Byte>>) {
    && Inv(h0) && |h0.table| == HEAP_BLOCKS
    && Apart(root, nodes) && {root} + NodeBlocks(nodes) <= FreeSet(h0.table)
    && ListIn(m, nodes, parts)
    && h == Take(h0, {root} + NodeBlocks(nodes)) == Singles(h0, 1 + 2 * |nodes|)
    && Extends(h0, m0, h, m)
  }

  lemma {:induction false} RootApart(root: nat, nodes: seq<Node>)
    requires Apart(root, nodes)
    ensures root < HEAP_BLOCKS && root !in NodeBlocks(nodes)
    decreases |nodes|
  {
    if nodes != [] { RootApart(root, nodes[..|nodes| - 1]); }
  }

  lemma FreeBlockPage(h: HeapState, b: nat)
    requires b in FreeSet(h.table) && |h.table| == HEAP_BLOCKS
    ensures b < HEAP_BLOCKS && FreePage(h, BlockPage(b))
  {
  }

  lemma StillFree(h0: HeapState, root: nat, nodes: seq<Node>, b: nat)
    requires b in FreeSet(Take(h0, {root} + NodeBlocks(nodes)).table)
    ensures b in FreeSet(h0.table) && b != root && b !in NodeBlocks(nodes)
  {
    hide FreeSet, Take, NodeBlocks;
    FreeAfterTake(h0, {root} + NodeBlocks(nodes));
  }

  /** Writing in a block that was free at the start and is not in the list keeps the state. */
  lemma WriteKeeps(h0: HeapState, m0: Ram, h: HeapState, m: Ram, m': Ram, root: nat, nodes: seq<Node>,
                   parts: seq<seq<Byte>>, c: nat)
    requires Parsing(h0, m0, h, m, root, nodes, parts)
    requires c in FreeSet(h0.table) && c !in NodeBlocks(nodes) && SameOutside(m, m', {BlockPage(c)})
    ensures Parsing(h0, m0, h, m', root, nodes, parts)
    ensures root < HEAP_BLOCKS && (c != root ==> SlotAt(m', BlockPage(root), 0) == SlotAt(m, BlockPage(root), 0)
                                                 && SlotAt(m', BlockPage(root), 1) == SlotAt(m, BlockPage(root), 1))
  {
    hide Inv, Apart, NodeBlocks, ListIn, Take, Extends, SameOutside, FreeSet, FreePage, BlockPage, SlotAt;
    FreeBlockPage(h0, c);
    ListKept(m, m', nodes, parts, c);
    ExtendsWrite(h0, m0, h, m, m', {BlockPage(c)});
    RootApart(root, nodes);
    if c != root { BlockKept(m, m', root, c); }
  }

  /** The memory of a new node that has been filled in, and linked to the list. */
  lemma NodeAdded(h0: HeapState, m0: Ram, h: HeapState, m: Ram, root: nat, nodes: seq<Node>, parts: seq<seq<Byte>>,
                  node: Node, p: seq<Byte>)
    requires Parsing(h0, m0, h, m, root, nodes, parts) && Inv(h) && Single(m, node, p)
    requires node.part != node.str && node.part in FreeSet(h.table) && node.str in FreeSet(h.table)
    requires Take(h, {node.part, node.str}) == MallocBlocks(MallocBlocks(h, 1).0, 1).0
    ensures var h', m' := Take(h, {node.part, node.str}), Linked(m, nodes, node);
      && Parsing(h0, m0, h', m', root, nodes + [node], parts + [p])
      && root < HEAP_BLOCKS
      && SlotAt(m', BlockPage(root), 0) == SlotAt(m, BlockPage(root), 0)
      && SlotAt(m', BlockPage(root), 1) == SlotAt(m, BlockPage(root), 1)
  {
    hide Inv, Apart, NodeBlocks, ListIn, Take, Extends, SameOutside, FreeSet, FreePage, BlockPage, SlotAt, Single;
    hide PutSlot;
    hide Singles, MallocBlocks;
    StillFree(h0, root, nodes, node.part);
    StillFree(h0, root, nodes, node.str);
    ApartMore(root, nodes, node);
    NodeBlocksMore(nodes, node);
    ListGrows(m, root, nodes, parts, node, p);
    RootApart(root, nodes);
    HeapAdded(h0, root, nodes, node);
    OutsideSame(m);
    TakeLength(h0, {root} + NodeBlocks(nodes));
    TakeExtends(h, m, {node.part, node.str}, m, {});
    ExtendsTrans(h0, m0, h, m, Take(h, {node.part, node.str}), m);
    if nodes != [] {
      var last := nodes[|nodes| - 1].part;
      NodeBlocksHold(nodes, |nodes| - 1);
      FreeBlockPage(h0, last);
      PutSlotOutside(m, BlockPage(last), 1, BlockAddress(node.part));
      ExtendsWrite(h0, m0, Take(h, {node.part, node.str}), m, Linked(m, nodes, node), {BlockPage(last)});
      BlockKept(m, Linked(m, nodes, node), root, last);
    }
  }

  lemma HeapAdded(h0: HeapState, root: nat, nodes: seq<Node>, node: Node)
    requires Singles(h0, 1 + 2 * |nodes|) == Take(h0, {root} + NodeBlocks(nodes))
    requires var h := Take(h0, {root} + NodeBlocks(nodes));
      Take(h, {node.part, node.str}) == MallocBlocks(MallocBlocks(h, 1).0, 1).0
    ensures Take(Take(h0, {root} + NodeBlocks(nodes)), {node.part, node.str})
      == Take(h0, {root} + NodeBlocks(nodes + [node])) == Singles(h0, 1 + 2 * |nodes + [node]|)
    ensures {root} + NodeBlocks(nodes + [node]) == {root} + NodeBlocks(nodes) + {node.part, node.str}
  {
    hide NodeBlocks, Take, MallocBlocks, Singles;
    NodeBlocksMore(nodes, node);
    TakenMore(h0, {root} + NodeBlocks(nodes), {node.part, node.str});
    TwoMore(h0, 1 + 2 * |nodes|);
    assert {root} + NodeBlocks(nodes + [node]) == {root} + NodeBlocks(nodes) + {node.part, node.str};
  }

  lemma TwoMore(h: HeapState, k: nat)
    ensures Singles(h, k + 2) == MallocBlocks(MallocBlocks(Singles(h, k), 1).0, 1).0
  {
    hide MallocBlocks;
    assert Singles(h, k + 1) == MallocBlocks(Singles(h, k), 1).0;
  }

  lemma TakenMore(h: HeapState, s: set<nat>, t: set<nat>)
    ensures Take(Take(h, s), t) == Take(h, s + t)
  {
    assert Take(Take(h, s), t).table == Take(h, s + t).table;
    assert Take(Take(h, s), t).live == Take(h, s + t).live;
  }

  /** The blocks that a parse may still need are free. */
  lemma EnoughLeft(h0: HeapState, root: nat, nodes: seq<Node>, more: nat)
    requires |FreeSet(h0.table)| >= 1 + 2 * |nodes| + more
    ensures |FreeSet(Take(h0, {root} + NodeBlocks(nodes)).table)| >= more
  {
    hide FreeSet, Take, NodeBlocks;
    var s := {root} + NodeBlocks(nodes);
    FreeAfterTake(h0, s);
    NodeBlocksSize(nodes);
    UnionSize({root}, NodeBlocks(nodes));
    UnionSize(FreeSet(h0.table) - s, s);
    SubsetSize(FreeSet(h0.table), FreeSet(h0.table) - s + s);
  }

  function LastPart(nodes: seq<Node>): nat {
    if nodes == [] then 0 else BlockAddress(nodes[|nodes| - 1].part)
  }

  lemma TwoLeft(h: HeapState, b: nat)
    requires |FreeSet(h.table)| >= 2
    ensures FreeSet(Take(h, {b}).table) != {}
  {
    hide FreeSet, Take;
    FreeAfterTake(h, {b});
    UnionSize(FreeSet(h.table) - {b}, {b});
    SubsetSize(FreeSet(h.table), FreeSet(h.table) - {b} + {b});
  }

  lemma InAfterTake(h: HeapState, b: nat, c: nat)
    requires c in FreeSet(Take(h, {b}).table)
    ensures c in FreeSet(h.table) && c != b
  {
    hide FreeSet, Take;
    FreeAfterTake(h, {b});
  }

  /** part->part = str and part->next = 0, in the zeroed block c. */
  method FillPart(k: Machine, part: nat, str: nat, ghost b: nat, ghost c: nat, ghost p: seq<Byte>)
    requires b < HEAP_BLOCKS && c < HEAP_BLOCKS && b != c && part == BlockAddress(c) && str == BlockAddress(b)
    requires |p| <= MAX_PATH && Bytes(k.ram, BlockAddress(b), MAX_PATH) == Padded(p, MAX_PATH)
    modifies k`ram
    ensures Single(k.ram, Node(c, b), p)
    ensures SameOutside(old(k.ram), k.ram, {BlockPage(c)})
  {
    hide SlotAt, PutSlot, SameOutside, Bytes, Padded;
    ghost var m := k.ram;
    BlockIsPage(c);
    k.ram := PutSlot(k.ram, part / 4096, 0, str);
    ghost var m1 := k.ram;
    k.ram := PutSlot(k.ram, part / 4096, 1, 0);
    SlotAfterPut(m, BlockPage(c), 0, str, BlockPage(c), 0);
    SlotAfterPut(m1, BlockPage(c), 1, 0, BlockPage(c), 0);
    SlotAfterPut(m1, BlockPage(c), 1, 0, BlockPage(c), 1);
    PutSlotOutside(m, BlockPage(c), 0, str);
    PutSlotOutside(m1, BlockPage(c), 1, 0);
    OutsideWiden(m, m1, k.ram, {BlockPage(c)}, {BlockPage(c)}, {BlockPage(c)});
    BlockKept(m, k.ram, b, c);
  }

  /** last_part->next = part, when there is a last part. */
  method LinkLast(k: Machine, last: nat, part: nat, ghost nodes: seq<Node>, ghost node: Node)
    requires last == LastPart(nodes) && part == BlockAddress(node.part)
    modifies k`ram
    ensures k.ram == Linked(old(k.ram), nodes, node)
  {
    hide PutSlot;
    if last != 0 {
      BlockIsPage(nodes[|nodes| - 1].part);
      k.ram := PutSlot(k.ram, last / 4096, 1, part);
    }
  }

  /** pathparser_parse_path_part: the next part is allocated, filled in and linked to the
      last one; nothing is allocated when the next part is empty. */
  method ParsePathPart(k: Machine, last: nat, path: seq<Byte>, pos: nat,
                       ghost h0: HeapState, ghost m0: Ram, ghost root: nat, ghost nodes: seq<Node>,
                       ghost parts: seq<seq<Byte>>,
                       ghost drive: nat, ghost first: nat)
    returns (part: nat, next: nat, ghost node: Node)
    requires k.Valid() && Parsing(h0, m0, k.HeapNow(), k.ram, root, nodes, parts) && last == LastPart(nodes)
    requires RootIn(k.ram, root, drive, first)
    requires 0 !in path && pos <= |path| && |path[pos..]| <= MAX_PATH
    requires |FreeSet(h0.table)| >= 1 + 2 * |nodes| + (if Prefix(path[pos..]) == [] then 1 else 2)
    modifies k`ram, k.heap, k.heap.entries
    ensures k.Valid() && pos <= next <= |path| && path[next..] == Rest(path[pos..])
    ensures Prefix(path[pos..]) == [] ==> part == 0 && Parsing(h0, m0, k.HeapNow(), k.ram, root, nodes, parts)
    ensures Prefix(path[pos..]) != [] ==>
      && 0 < part < LIMIT && part == BlockAddress(node.part)
      && Parsing(h0, m0, k.HeapNow(), k.ram, root, nodes + [node], parts + [Prefix(path[pos..])])
    ensures RootIn(k.ram, root, drive, first)
  {
    hide Parsing, Inv, NodeBlocks, Take, SameOutside, FreeSet, SlotAt, Single, Linked, Padded, Bytes, Prefix, Rest;
    ghost var h, m, p := k.HeapNow(), k.ram, Prefix(path[pos..]);
    StateFacts(h0, m0, h, m, root, nodes, parts);
    EnoughLeft(h0, root, nodes, if p == [] then 1 else 2);
    ghost var b: nat;
    var str;
    str, next, b := GetPathPart(k, path, pos);
    ghost var m1 := k.ram;
    StillFree(h0, root, nodes, b);
    WriteKeeps(h0, m0, h, m, m1, root, nodes, parts, b);
    node := Node(0, 0);
    part := 0;
    if str != 0 {
      TwoLeft(h, b);
      ghost var c: nat;
      part, c := ZallocBlock(k, PART_SIZE);
      InAfterTake(h, b, c);
      StillFree(h0, root, nodes, c);
      BlockKept(m1, k.ram, b, c);
      ghost var m2 := k.ram;
      FillPart(k, part, str, b, c, p);
      OutsideWiden(m1, m2, k.ram, {BlockPage(c)}, {BlockPage(c)}, {BlockPage(c)});
      WriteKeeps(h0, m0, h, m1, k.ram, root, nodes, parts, c);
      node := Node(c, b);
      TakenMore(h, {b}, {c});
      assert {b} + {c} == {c, b};
      NodeAdded(h0, m0, h, k.ram, root, nodes, parts, node, p);
      LinkLast(k, last, part, nodes, node);
    }
  }

  lemma StateFacts(h0: HeapState, m0: Ram, h: HeapState, m: Ram, root: nat, nodes: seq<Node>, parts: seq<seq<Byte>>)
    requires Parsing(h0, m0, h, m, root, nodes, parts)
    ensures h == Take(h0, {root} + NodeBlocks(nodes)) && root < HEAP_BLOCKS && |nodes| == |parts|
  {
    hide Take, NodeBlocks, FreeSet, Extends;
    RootApart(root, nodes);
  }

  /** pathparser_create_root */
  method CreateRoot(k: Machine, drive: nat) returns (root: nat, ghost r: nat)
    requires k.Valid() && FreeSet(k.HeapNow().table) != {} && drive < 10
    modifies k`ram, k.heap, k.heap.entries
    ensures k.Valid() && r < HEAP_BLOCKS && root == BlockAddress(r) && RootIn(k.ram, r, drive, 0)
    ensures Parsing(old(k.HeapNow()), old(k.ram), k.HeapNow(), k.ram, r, [], [])
  {
    hide Take, FreeSet, SameOutside, SlotAt, PutSlot, Inv, Extends;
    ghost var h, m := k.HeapNow(), k.ram;
    root, r := ZallocBlock(k, ROOT_SIZE);
    ghost var m1 := k.ram;
    k.ram := PutSlot(k.ram, root / 4096, 0, drive);
    ghost var m2 := k.ram;
    k.ram := PutSlot(k.ram, root / 4096, 1, 0);
    SlotAfterPut(m1, BlockPage(r), 0, drive, BlockPage(r), 0);
    SlotAfterPut(m2, BlockPage(r), 1, 0, BlockPage(r), 0);
    SlotAfterPut(m2, BlockPage(r), 1, 0, BlockPage(r), 1);
    PutSlotOutside(m1, BlockPage(r), 0, drive);
    PutSlotOutside(m2, BlockPage(r), 1, 0);
    OutsideWiden(m, m1, m2, {BlockPage(r)}, {BlockPage(r)}, {BlockPage(r)});
    OutsideWiden(m, m2, k.ram, {BlockPage(r)}, {BlockPage(r)}, {BlockPage(r)});
    TakeExtends(h, m, {r}, k.ram, {BlockPage(r)});
    assert {r} + NodeBlocks([]) == {r};
    OneSingle(h);
  }

  lemma OneSingle(h: HeapState)
    ensures Singles(h, 1) == MallocBlocks(h, 1).0
  {
    hide MallocBlocks;
    assert Singles(h, 0) == h;
  }

  /** path_root->first = first */
  method SetFirst(k: Machine, rootPtr: nat, first: nat,
                  ghost h0: HeapState, ghost m0: Ram, ghost h: HeapState, ghost root: nat, ghost nodes: seq<Node>,
                  ghost parts: seq<seq<Byte>>,
                  ghost drive: nat)
    requires Parsing(h0, m0, h, k.ram, root, nodes, parts) && RootIn(k.ram, root, drive, 0)
    requires rootPtr == BlockAddress(root) && first < LIMIT
    modifies k`ram
    ensures Parsing(h0, m0, h, k.ram, root, nodes, parts) && RootIn(k.ram, root, drive, first)
  {
    hide SlotAt, PutSlot, SameOutside, Take, FreeSet, Extends, Inv, ListIn, NodeBlocks;
    RootApart(root, nodes);
    BlockIsPage(root);
    ghost var m := k.ram;
    k.ram := PutSlot(k.ram, rootPtr / 4096, 1, first);
    SlotAfterPut(m, BlockPage(root), 1, first, BlockPage(root), 0);
    SlotAfterPut(m, BlockPage(root), 1, first, BlockPage(root), 1);
    PutSlotOutside(m, BlockPage(root), 1, first);
    assert root in {root} + NodeBlocks(nodes);
    WriteKeeps(h0, m0, h, m, k.ram, root, nodes, parts, root);
  }

  /** Taking one more part off the rest of the path leaves the whole list as it was. */
  lemma PartsStep(parts: seq<seq<Byte>>, s: seq<Byte>, whole: seq<seq<Byte>>)
    requires parts + Parts(s) == whole
    ensures Prefix(s) == [] ==> parts == whole && |whole| == |parts|
    ensures Prefix(s) != [] ==> parts + [Prefix(s)] + Parts(Rest(s)) == whole && |whole| >= |parts| + 1 && s != []
  {
    hide Prefix, Rest;
  }

  /** The state between two steps of a parse: part is the last one, or 0 when the path has
      no more; whole is what the path parses to. */
  ghost predicate Between(h0: HeapState, m0: Ram, h: HeapState, m: Ram, root: nat, nodes: seq<Node>,
                          parts: seq<seq<Byte>>,
                          drive: nat, first: nat, part: nat, rest: seq<Byte>, whole: seq<seq<Byte>>) {
    && Parsing(h0, m0, h, m, root, nodes, parts) && RootIn(m, root, drive, first)
    && |nodes| == |parts| >= 1 && first == BlockAddress(nodes[0].part)
    && (if part != 0 then part == LastPart(nodes) && parts + Parts(rest) == whole else parts == whole)
  }

  /** part = pathparser_parse_path_part(part, &tmp_path) */
  method NextPart(k: Machine, last: nat, path: seq<Byte>, pos: nat,
                  ghost h0: HeapState, ghost m0: Ram, ghost root: nat, ghost nodes: seq<Node>,
                  ghost parts: seq<seq<Byte>>,
                  ghost drive: nat, ghost first: nat, ghost whole: seq<seq<Byte>>)
    returns (part: nat, next: nat, ghost nodes': seq<Node>, ghost parts': seq<seq<Byte>>)
    requires k.Valid() && 0 !in path && pos <= |path| <= MAX_PATH && last != 0
    requires Between(h0, m0, k.HeapNow(), k.ram, root, nodes, parts, drive, first, last, path[pos..], whole)
    requires |FreeSet(h0.table)| >= 2 + 2 * |whole|
    modifies k`ram, k.heap, k.heap.entries
    ensures k.Valid() && pos <= next <= |path| && (part != 0 ==> pos < next)
    ensures Between(h0, m0, k.HeapNow(), k.ram, root, nodes', parts', drive, first, part, path[next..], whole)
  {
    hide Parsing, Inv, NodeBlocks, Take, FreeSet, RootIn, BlockAddress, Parts, Prefix, Rest;
    PartsStep(parts, path[pos..], whole);
    ghost var p, node := Prefix(path[pos..]), Node(0, 0);
    part, next, node := ParsePathPart(k, last, path, pos, h0, m0, root, nodes, parts, drive, first);
    nodes', parts' := nodes, parts;
    if part != 0 {
      nodes', parts' := nodes + [node], parts + [p];
    }
  }

  /** What a parsed path looks like: the root holds the drive and the address of the first
      part, the parts are the path's, and no other memory that was in use has changed. */
  ghost predicate Result(h0: HeapState, m0: Ram, h: HeapState, m: Ram, root: nat, nodes: seq<Node>, drive: nat,
                         parts: seq<seq<Byte>>) {
    Parsing(h0, m0, h, m, root, nodes, parts) && RootIn(m, root, drive, LinkTo(nodes, 0))
  }

  /** pathparser_parse. A null result is 0. */
  method PathparserParse(k: Machine, path: seq<Byte>) returns (root: nat, ghost r: nat, ghost nodes: seq<Node>)
    requires k.Valid() && 0 !in path
    requires Parse(path).Path? ==> |FreeSet(k.HeapNow().table)| >= 2 + 2 * |Parse(path).parts|
    modifies k`ram, k.heap, k.heap.entries
    ensures k.Valid()
    ensures Parse(path).Refused? ==> root == 0 && k.HeapNow() == old(k.HeapNow()) && k.ram == old(k.ram)
    ensures Parse(path).Path? ==>
      && root == BlockAddress(r)
      && Result(old(k.HeapNow()), old(k.ram), k.HeapNow(), k.ram, r, nodes, Parse(path).drive, Parse(path).parts)
  {
    hide Parsing, Inv, NodeBlocks, Take, FreeSet, RootIn, BlockAddress, Parts, Prefix, Rest;
    ghost var h0, m0 := k.HeapNow(), k.ram;
    root, r, nodes := 0, 0, [];
    if |path| > MAX_PATH || !ValidFormat(path) {
      return;
    }
    var drive := path[0] - 48;
    ghost var whole := Parts(path[3..]);
    SomeFree(h0);
    root, r := CreateRoot(k, drive);
    ghost var parts: seq<seq<Byte>> := [];
    assert [] + whole == whole;
    PartsStep([], path[3..], whole);
    var part, pos;
    ghost var node;
    part, pos, node := ParsePathPart(k, 0, path, 3, h0, m0, r, [], [], drive, 0);
    if part == 0 {
      return;
    }
    nodes, parts := [] + [node], [] + [Prefix(path[3..])];
    ghost var first := part;
    SetFirst(k, root, part, h0, m0, k.HeapNow(), r, nodes, parts, drive);
    part, pos, nodes, parts := NextPart(k, part, path, pos, h0, m0, r, nodes, parts, drive, first, whole);
    while part != 0
      invariant k.Valid() && 3 <= pos <= |path|
      invariant Between(h0, m0, k.HeapNow(), k.ram, r, nodes, parts, drive, first, part, path[pos..], whole)
      decreases |path| - pos, part
    {
      hide Between;
      part, pos, nodes, parts := NextPart(k, part, path, pos, h0, m0, r, nodes, parts, drive, first, whole);
    }
  }

  lemma SomeFree(h: HeapState)
    ensures |FreeSet(h.table)| >= 1 ==> FreeSet(h.table) != {}
  {
  }

  // ---- freeing ----

  /** pathparser_free: the root, the structures and the strings are freed, and no more. */
  method PathparserFree(k: Machine, root: nat, ghost r: nat, ghost nodes: seq<Node>, ghost drive: nat,
                        ghost parts: seq<seq<Byte>>)
    requires k.Valid() && root == BlockAddress(r) && Apart(r, nodes)
    requires ListIn(k.ram, nodes, parts) && RootIn(k.ram, r, drive, LinkTo(nodes, 0))
    requires forall b :: b in {r} + NodeBlocks(nodes) ==> b in k.HeapNow().live && k.HeapNow().live[b] == 1
    modifies k.heap, k.heap.entries
    ensures k.Valid() && k.HeapNow() == Release(old(k.HeapNow()), {r} + NodeBlocks(nodes))
  {
    hide Inv, NodeBlocks, Apart, Release, SlotAt, Bytes, Padded;
    ghost var h := k.HeapNow();
    BlockIsPage(r);
    var part := SlotAt(k.ram, root / 4096, 1);
    ghost var i := 0;
    NoneReleased(h, nodes);
    while part != 0
      invariant k.Valid() && 0 <= i <= |nodes| && part == LinkTo(nodes, i)
      invariant k.HeapNow() == Release(h, NodeBlocks(nodes[..i]))
      decreases |nodes| - i
    {
      assert NodeIn(k.ram, nodes, parts, i);
      BlockIsPage(nodes[i].part);
      BlockIsPage(nodes[i].str);
      var nextPart := SlotAt(k.ram, part / 4096, 1);
      ReleaseNode(h, r, nodes, i);
      k.Kfree(SlotAt(k.ram, part / 4096, 0));
      k.Kfree(part);
      part := nextPart;
      i := i + 1;
    }
    assert nodes[..i] == nodes;
    ReleaseRoot(h, r, nodes);
    k.Kfree(root);
  }

  lemma NoneReleased(h: HeapState, nodes: seq<Node>)
    ensures Release(h, NodeBlocks(nodes[..0])) == h
  {
    hide Release;
    TakeNone(h);
  }

  /** Freeing one more live block, outside those released already. */
  lemma ReleaseNext(h: HeapState, s: set<nat>, b: nat)
    requires b in h.live && h.live[b] == 1 && b !in s
    ensures Inv(Release(h, s)) ==> Freeable(Release(h, s), b) && Free(Release(h, s), b) == Release(h, s + {b})
  {
    if Inv(Release(h, s)) {
      FreeOne(Release(h, s), b);
      ReleaseMore(h, s, b);
    }
  }

  lemma ReleaseNode(h: HeapState, r: nat, nodes: seq<Node>, i: nat)
    requires Apart(r, nodes) && i < |nodes|
    requires forall b :: b in {r} + NodeBlocks(nodes) ==> b in h.live && h.live[b] == 1
    ensures var h1, h2 := Release(h, NodeBlocks(nodes[..i]) + {nodes[i].str}), Release(h, NodeBlocks(nodes[..i + 1]));
      && (Inv(Release(h, NodeBlocks(nodes[..i]))) ==> Freeable(Release(h, NodeBlocks(nodes[..i])), nodes[i].str)
                                                      && Free(Release(h, NodeBlocks(nodes[..i])), nodes[i].str) == h1)
      && (Inv(h1) ==> Freeable(h1, nodes[i].part) && Free(h1, nodes[i].part) == h2)
  {
    hide Inv, NodeBlocks, Apart, Release, Free, Freeable;
    var s := NodeBlocks(nodes[..i]);
    ApartPrefix(r, nodes, i);
    NodeBlocksHold(nodes, i);
    ReleaseNext(h, s, nodes[i].str);
    ReleaseNext(h, s + {nodes[i].str}, nodes[i].part);
    NodeBlocksMore(nodes[..i], nodes[i]);
    assert nodes[..i + 1] == nodes[..i] + [nodes[i]];
    assert s + {nodes[i].str} + {nodes[i].part} == s + {nodes[i].part, nodes[i].str};
  }

  lemma ReleaseRoot(h: HeapState, r: nat, nodes: seq<Node>)
    requires Apart(r, nodes) && r in h.live && h.live[r] == 1
    ensures Inv(Release(h, NodeBlocks(nodes))) ==>
      && Freeable(Release(h, NodeBlocks(nodes)), r)
      && Free(Release(h, NodeBlocks(nodes)), r) == Release(h, {r} + NodeBlocks(nodes))
  {
    hide Inv, NodeBlocks, Apart, Release, Free, Freeable;
    RootApart(r, nodes);
    ReleaseNext(h, NodeBlocks(nodes), r);
    assert NodeBlocks(nodes) + {r} == {r} + NodeBlocks(nodes);
  }

  /** Parsing any path and freeing the result leaves the heap as it was. */
  method ParseAndFree(k: Machine, path: seq<Byte>)
    requires k.Valid() && 0 !in path
    requires Parse(path).Path? ==> |FreeSet(k.HeapNow().table)| >= 2 + 2 * |Parse(path).parts|
    modifies k`ram, k.heap, k.heap.entries
    ensures k.Valid() && k.HeapNow() == old(k.HeapNow())
  {
    hide Inv, NodeBlocks, Take, Release, FreeSet, SlotAt, Extends, Parts, ListIn, Apart;
    ghost var h0 := k.HeapNow();
    ghost var r, nodes;
    var root;
    root, r, nodes := PathparserParse(k, path);
    if root != 0 {
      LiveOfTaken(h0, {r} + NodeBlocks(nodes));
      PathparserFree(k, root, r, nodes, Parse(path).drive, Parse(path).parts);
      ReleaseTaken(h0, {r} + NodeBlocks(nodes));
    }
  }

  lemma LiveOfTaken(h: HeapState, s: set<nat>)
    ensures forall b :: b in s ==> b in Take(h, s).live && Take(h, s).live[b] == 1
  {
  }
}
