/** Memory as the processor sees it through the loaded page directory, and strncpy
    over it. */
module UserMemory {
  import opened Memory
  import opened Wrappers
  import opened PageTables
  import opened Machine
  import opened Strings

  /** The byte at linear address a, when a is mapped. */
  function ByteAt(m: Ram, d: Page, a: nat): Byte
    requires a < LIMIT
  {
    match Translate(m, d, a)
    case None => 0
    case Some(p) => m[p]
  }

  /** The n bytes from linear address a on; addresses wrap at 2^32. */
  function BytesFrom(m: Ram, d: Page, a: nat, n: nat): (r: seq<Byte>)
    ensures |r| == n && forall i :: 0 <= i < n ==> r[i] == ByteAt(m, d, (a + i) % 0x1_0000_0000)
  {
    seq<Byte>(n, i requires 0 <= i => ByteAt(m, d, (a + i) % 0x1_0000_0000))
  }

  ghost predicate Meets(p: nat, a: nat, n: nat) { p * 4096 < a + n && a < (p + 1) * 4096 }

  /** The pages that the n bytes from a on touch. */
  ghost function RangePages(a: nat, n: nat): (r: set<nat>)
    ensures forall i :: a <= i < a + n && i < LIMIT ==> PageOf(i) in r
  {
    var r := set p: nat | p < PAGES && Meets(p, a, n);
    assert forall i :: a <= i < a + n && i < LIMIT ==> PageOf(i) in r by {
      forall i | a <= i < a + n && i < LIMIT ensures PageOf(i) in r {
        assert Meets(PageOf(i), a, n);
      }
    }
    r
  }

  /** Linear addresses a to a + n - 1 are mapped to themselves. */
  ghost predicate MappedToSelf(m: Ram, d: Page, a: nat, n: nat) {
    a + n <= LIMIT && forall i :: a <= i < a + n ==> Translate(m, d, i) == Some(i)
  }

  /** The bytes of the string at a, as far as strncpy of n bytes reads them, are mapped
      to frames outside the pages ps. */
  ghost predicate Readable(m: Ram, d: Page, a: nat, n: nat, ps: set<nat>) {
    forall i :: 0 <= i < n && 0 !in BytesFrom(m, d, a, n)[..i] ==> FrameOutside(m, d, (a + i) % 0x1_0000_0000, ps)
  }

  ghost predicate FrameOutside(m: Ram, d: Page, a: nat, ps: set<nat>)
    requires a < LIMIT
  {
    Translate(m, d, a).Some? && PageOf(Translate(m, d, a).value) !in ps
  }

  /** A write outside the tables of d changes neither translation nor bytes elsewhere. */
  lemma SpliceKeeps(m: Ram, d: Page, dest: nat, s: seq<Byte>, ps: set<nat>, a: nat)
    requires Tree(m, d) && dest + |s| <= LIMIT && a < LIMIT
    requires RangePages(dest, |s|) <= ps && ps !! Footprint(m, d)
    ensures Translate(Splice(m, dest, s), d, a) == Translate(m, d, a)
    ensures FrameOutside(m, d, a, ps) ==> ByteAt(Splice(m, dest, s), d, a) == ByteAt(m, d, a)
  {
    hide Tree, Footprint, Flat, WordAt;
    var m' := Splice(m, dest, s);
    SpliceOutside(m, dest, s, ps);
    TreeFrame(m, m', d, ps);
    SameTranslation(m, m', d, a);
  }

  lemma RangeGrows(a: nat, i: nat, n: nat)
    requires i <= n
    ensures RangePages(a, i) <= RangePages(a, n)
  {
  }

  lemma PrefixStep(m: Ram, dest: nat, r: seq<Byte>, i: nat)
    requires dest + |r| <= LIMIT && i < |r|
    ensures Splice(m, dest, r[..i])[dest + i := r[i]] == Splice(m, dest, r[..i + 1])
  {
  }

  /** The n bytes at dest are mapped to themselves, in pages ps that hold no table of d. */
  ghost predicate Writable(m: Ram, d: Page, dest: nat, n: nat, ps: set<nat>) {
    Tree(m, d) && dest + n <= LIMIT && MappedToSelf(m, d, dest, n) && RangePages(dest, n) <= ps && ps !! Footprint(m, d)
  }

  lemma NulSoFar(s: seq<Byte>, i: nat)
    requires i < |s|
    ensures 0 in s[..i + 1] <==> 0 in s[..i] || s[i] == 0
    ensures Strncpied(s)[i] == if 0 !in s[..i] then s[i] else 0
  {
    hide Strncpied;
    assert s[..i + 1] == s[..i] + [s[i]];
    StrncpiedAt(s, i);
  }

  lemma NextReadable(m: Ram, d: Page, a: nat, n: nat, ps: set<nat>, i: nat)
    requires Readable(m, d, a, n, ps) && i < n && 0 !in BytesFrom(m, d, a, n)[..i]
    ensures FrameOutside(m, d, (a + i) % 0x1_0000_0000, ps)
  {
    hide FrameOutside, BytesFrom;
  }

  lemma NulHere(s: seq<Byte>, i: nat)
    requires i < |s| && s[i] == 0
    ensures 0 in s[..i + 1]
  {
    assert s[..i + 1][i] == 0;
  }

  lemma NulStays(s: seq<Byte>, i: nat)
    requires i < |s| && 0 in s[..i]
    ensures 0 in s[..i + 1]
  {
    assert s[..i + 1] == s[..i] + [s[i]];
  }

  /** dest[i] = c through the loaded directory, when i bytes of r are already there. */
  method StoreNext(k: Machine, dest: nat, i: nat, c: Byte, ghost d: Page, ghost ps: set<nat>, ghost m: Ram,
                   ghost r: seq<Byte>)
    requires k.currentDirectory == d * 4096 && i < |r| && r[i] == c
    requires dest + |r| <= LIMIT && Writable(m, d, dest, |r|, ps)
    requires k.ram == Splice(m, dest, r[..i])
    modifies k`ram
    ensures k.ram == Splice(m, dest, r[..i + 1])
  {
    hide Translate, Tree, Footprint, Splice, RangePages;
    RangeGrows(dest, i, |r|);
    SpliceKeeps(m, d, dest, r[..i], ps, dest + i);
    PrefixStep(m, dest, r, i);
    var dir: Page := k.currentDirectory / 4096;
    k.ram := k.ram[Translate(k.ram, dir, dest + i).value := c];
  }

  /** strncpy through the loaded directory, into a range that is mapped to itself. */
  method Strncpy(k: Machine, dest: nat, src: nat, n: nat, ghost d: Page, ghost ps: set<nat>)
    requires k.currentDirectory == d * 4096 && dest + n <= LIMIT
    requires Writable(k.ram, d, dest, n, ps)
    requires Readable(k.ram, d, src, n, ps)
    modifies k`ram
    ensures k.ram == Splice(old(k.ram), dest, Strncpied(BytesFrom(old(k.ram), d, src, n)))
  {
    hide Translate, Tree, Footprint, Splice, RangePages, ByteAt, MappedToSelf, Strncpied, BytesFrom, Readable;
    hide FrameOutside, Writable;
    ghost var m := k.ram;
    ghost var s := BytesFrom(m, d, src, n);
    ghost var r := Strncpied(s);
    var i := 0;
    NothingYet(m, dest, r);
    var go := n > 0;
    while go
      invariant 0 <= i <= n && k.ram == Splice(m, dest, r[..i]) && 0 !in s[..i]
      invariant go ==> i < n
      invariant !go ==> i == n || s[i] == 0
      decreases n - i, go
    {
      NulSoFar(s, i);
      NextReadable(m, d, src, n, ps, i);
      var c := LoadNext(k, (src + i) % 0x1_0000_0000, d, ps, m, dest, r, i);
      if c == 0 {
        go := false;
      } else {
        StoreNext(k, dest, i, c, d, ps, m, r);
        i := i + 1;
        go := i < n;
      }
    }
    if i < n { NulHere(s, i); }
    while i < n
      invariant 0 <= i <= n && k.ram == Splice(m, dest, r[..i])
      invariant i < n ==> 0 in s[..i + 1]
    {
      StrncpiedAt(s, i);
      StoreNext(k, dest, i, 0, d, ps, m, r);
      i := i + 1;
      if i < n { NulStays(s, i); }
    }
    assert r[..n] == r;
  }

  lemma NothingYet(m: Ram, dest: nat, r: seq<Byte>)
    requires dest + |r| <= LIMIT
    ensures Splice(m, dest, r[..0]) == m
  {
  }

  /** The byte at a linear address, when i bytes of r have been written to dest. */
  method LoadNext(k: Machine, from: nat, ghost d: Page, ghost ps: set<nat>, ghost m: Ram, ghost dest: nat,
                  ghost r: seq<Byte>, ghost i: nat)
    returns (c: Byte)
    requires from < LIMIT && k.currentDirectory == d * 4096 && i <= |r| && dest + |r| <= LIMIT
    requires Writable(m, d, dest, |r|, ps) && FrameOutside(m, d, from, ps)
    requires k.ram == Splice(m, dest, r[..i])
    ensures c == ByteAt(m, d, from)
  {
    hide Translate, Tree, Footprint, Splice, RangePages;
    RangeGrows(dest, i, |r|);
    SpliceKeeps(m, d, dest, r[..i], ps, from);
    var dir: Page := k.currentDirectory / 4096;
    c := k.ram[Translate(k.ram, dir, from).value];
  }
}
