/** The two-level page tables as they lie in memory, the flat map of 2^20 pages
    that they represent, and address translation by them (Intel SDM, Volume 3A,
    section 4.3). A directory is named by the number of the page it fills. */
module PageTables {
  import opened Memory
  import opened Wrappers
  import opened Bits

  const PAGES: nat := 0x10_0000

  type Page = p: nat | p < 0x10_0000

  /** Page of the i-th table of directory d. */
  function TablePage(m: Ram, d: Page, i: nat): Page
    requires i < SLOTS
  {
    SlotAt(m, d, i) / 4096
  }

  /** The directory and its 1024 tables are 1025 different pages. */
  ghost predicate Tree(m: Ram, d: Page) {
    && (forall i :: 0 <= i < SLOTS ==> TablePage(m, d, i) != d)
    && (forall i, j :: 0 <= i < j < SLOTS ==> TablePage(m, d, i) != TablePage(m, d, j))
  }

  ghost function TablePages(m: Ram, d: Page): (ps: set<nat>)
    ensures forall i :: 0 <= i < SLOTS ==> TablePage(m, d, i) in ps
  {
    set i: nat | i < SLOTS :: TablePage(m, d, i) as nat
  }

  /** The pages that the directory and its tables fill. */
  ghost function Footprint(m: Ram, d: Page): set<nat> {
    {d as nat} + TablePages(m, d)
  }

  /** The table entry for page p of the address space. */
  function EntryFor(m: Ram, d: Page, p: Page): Word {
    SlotAt(m, TablePage(m, d, p / 1024), p % 1024)
  }

  /** The map from pages to entries that the tables represent. */
  ghost function Flat(m: Ram, d: Page): (f: seq<Word>)
    ensures |f| == PAGES && forall p :: 0 <= p < PAGES ==> f[p] == EntryFor(m, d, p)
  {
    seq(PAGES, p requires 0 <= p < PAGES => EntryFor(m, d, p))
  }

  function SetEntry(m: Ram, d: Page, p: Page, v: Word): Ram {
    PutSlot(m, TablePage(m, d, p / 1024), p % 1024, v)
  }

  /** The physical address of linear address a, unless the directory or the table
      entry is not present (bit 0). */
  function Translate(m: Ram, d: Page, a: nat): (t: Option<nat>)
    requires a < LIMIT
    ensures t.Some? ==> t.value < LIMIT
  {
    var e := EntryFor(m, d, a / 4096);
    if SlotAt(m, d, a / 4096 / 1024) % 2 == 0 || e % 2 == 0 then None
    else Some(InFrame(e, a))
  }

  /** The place of address a in the frame that entry e names. */
  function InFrame(e: Word, a: nat): (p: Word) {
    assert e / 4096 <= 0xf_ffff;
    e / 4096 * 4096 + a % 4096
  }

  ghost predicate SameDirectory(m: Ram, m': Ram, d: Page) {
    forall i :: 0 <= i < SLOTS ==> SlotAt(m', d, i) == SlotAt(m, d, i)
  }

  lemma SameTables(m: Ram, m': Ram, d: Page)
    requires SameDirectory(m, m', d)
    ensures forall i :: 0 <= i < SLOTS ==> TablePage(m', d, i) == TablePage(m, d, i)
    ensures TablePages(m', d) == TablePages(m, d) && Tree(m', d) == Tree(m, d)
  {
    forall i | 0 <= i < SLOTS ensures TablePage(m', d, i) == TablePage(m, d, i) {
      assert SlotAt(m', d, i) == SlotAt(m, d, i);
    }
  }

  /** Storing an entry changes that page's entry and no other, and no directory entry. */
  lemma SetEntryFlat(m: Ram, d: Page, p: Page, v: Word)
    requires Tree(m, d)
    ensures var m' := SetEntry(m, d, p, v);
      && Tree(m', d)
      && Flat(m', d) == Flat(m, d)[p := v]
      && SameDirectory(m, m', d)
      && TablePages(m', d) == TablePages(m, d)
      && SameOutside(m, m', TablePages(m, d))
  {
    var t := TablePage(m, d, p / 1024);
    var m' := SetEntry(m, d, p, v);
    assert SameDirectory(m, m', d) by {
      forall i | 0 <= i < SLOTS ensures SlotAt(m', d, i) == SlotAt(m, d, i) {
        SlotAfterPut(m, t, p % 1024, v, d, i);
      }
    }
    SameTables(m, m', d);
    forall q: Page ensures EntryFor(m', d, q) == if q == p then v else EntryFor(m, d, q) {
      SetEntryOther(m, d, p, v, q);
    }
    assert SameOutside(m, m', TablePages(m, d)) by {
      PutSlotOutside(m, t, p % 1024, v);
    }
  }

  lemma SetEntryOther(m: Ram, d: Page, p: Page, v: Word, q: Page)
    requires Tree(m, d)
    requires SameDirectory(m, SetEntry(m, d, p, v), d)
    ensures EntryFor(SetEntry(m, d, p, v), d, q) == if q == p then v else EntryFor(m, d, q)
  {
    SameTables(m, SetEntry(m, d, p, v), d);
    var i, j := p / 1024, q / 1024;
    assert i < j ==> TablePage(m, d, i) != TablePage(m, d, j);
    assert j < i ==> TablePage(m, d, j) != TablePage(m, d, i);
    assert p == i * 1024 + p % 1024 && q == j * 1024 + q % 1024;
    SlotAfterPut(m, TablePage(m, d, i), p % 1024, v, TablePage(m, d, j), q % 1024);
  }

  /** Storing the old entry back restores memory. */
  lemma SetEntryBack(m: Ram, d: Page, p: Page, v: Word)
    requires Tree(m, d)
    ensures SetEntry(SetEntry(m, d, p, v), d, p, EntryFor(m, d, p)) == m
  {
    SetEntryFlat(m, d, p, v);
    PutBack(m, Slot(TablePage(m, d, p / 1024), p % 1024), v);
  }

  /** What is written outside the pages of a directory leaves its map as it was. */
  lemma TreeFrame(m: Ram, m': Ram, d: Page, ps: set<nat>)
    requires Tree(m, d) && SameOutside(m, m', ps) && ps !! Footprint(m, d)
    ensures Tree(m', d) && Flat(m', d) == Flat(m, d)
    ensures SameDirectory(m, m', d) && TablePages(m', d) == TablePages(m, d)
  {
    assert d in Footprint(m, d);
    OutsideIsSame(m, m', ps, d);
    assert SameDirectory(m, m', d) by {
      forall i | 0 <= i < SLOTS ensures SlotAt(m', d, i) == SlotAt(m, d, i) {
        SamePageSlot(m, m', d, i);
      }
    }
    SameTables(m, m', d);
    forall p: Page ensures EntryFor(m', d, p) == EntryFor(m, d, p) {
      var t := TablePage(m, d, p / 1024);
      assert t in Footprint(m, d);
      OutsideIsSame(m, m', ps, t);
      SamePageSlot(m, m', t, p % 1024);
    }
  }

  /** Equal maps and equal directory words translate alike. */
  lemma SameTranslation(m: Ram, m': Ram, d: Page, a: nat)
    requires a < LIMIT && Flat(m', d) == Flat(m, d)
    requires SameDirectory(m, m', d)
    ensures Translate(m', d, a) == Translate(m, d, a)
  {
    var p: Page := a / 4096;
    assert Flat(m', d)[p] == Flat(m, d)[p];
  }

  // ---- ranges ----

  /** The map f with n pages from vp on sent to the n frames from pp on; page and
      frame numbers wrap at 2^20 as the 32-bit addresses do. */
  ghost function MapPages(f: seq<Word>, vp: Page, pp: Page, n: nat, flags: Word): (r: seq<Word>)
    requires |f| == PAGES
    ensures |r| == PAGES
  {
    if n == 0 then f
    else MapPages(f, vp, pp, n - 1, flags)[(vp + n - 1) % 0x10_0000 := FrameEntry((pp + n - 1) % 0x10_0000, flags)]
  }

  /** The entry that leads to a frame. */
  function FrameEntry(frame: Page, flags: Word): (e: Word)
    ensures flags < PAGE ==> e == frame * 4096 + flags
  {
    OrWord(frame * 4096, flags);
    if flags < PAGE then OrFlags(frame * 4096, flags); Or(frame * 4096, flags) else Or(frame * 4096, flags)
  }

  /** How many pages after vp page q comes, going round at 2^20. */
  function PagesAfter(vp: Page, q: Page): Page { (q - vp) % 0x10_0000 }

  /** In a range of any length every page is sent to its frame, and outside nothing
      changes. */
  lemma {:induction false} MapPagesAt(f: seq<Word>, vp: Page, pp: Page, n: nat, flags: Word, q: Page)
    requires |f| == PAGES
    ensures MapPages(f, vp, pp, n, flags)[q] ==
      if PagesAfter(vp, q) < n then FrameEntry((pp + PagesAfter(vp, q)) % 0x10_0000, flags) else f[q]
  {
    hide FrameEntry;
    if n > 0 {
      MapPagesAt(f, vp, pp, n - 1, flags, q);
      LastOfRange(vp, pp, n - 1, q);
    }
  }

  lemma LastOfRange(vp: Page, pp: Page, i: nat, q: Page)
    ensures (vp + i) % 0x10_0000 == q ==> (pp + i) % 0x10_0000 == (pp + PagesAfter(vp, q)) % 0x10_0000
    ensures i == PagesAfter(vp, q) ==> (vp + i) % 0x10_0000 == q
    ensures i < PagesAfter(vp, q) ==> (vp + i) % 0x10_0000 != q
  {
    var a, d := (vp + i) / 0x10_0000, PagesAfter(vp, q);
    assert vp + d == q || vp + d == q + 0x10_0000;
    if (vp + i) % 0x10_0000 == q {
      assert vp + i == 0x10_0000 * a + q;
      Round(pp + d, if vp + d == q then a else a - 1);
    }
  }

  lemma Round(x: nat, t: int)
    requires x + 0x10_0000 * t >= 0
    ensures (x + 0x10_0000 * t) % 0x10_0000 == x % 0x10_0000
  {
    DivModUnique(x + 0x10_0000 * t, 0x10_0000, x / 0x10_0000 + t, x % 0x10_0000);
  }

  /** A range of at most 2^20 pages that does not wrap. */
  lemma MapPagesInside(f: seq<Word>, vp: Page, pp: Page, n: nat, flags: Word, q: Page)
    requires |f| == PAGES && flags < PAGE && vp + n <= PAGES && pp + n <= PAGES
    ensures MapPages(f, vp, pp, n, flags)[q] == if vp <= q < vp + n then (pp + (q - vp)) * 4096 + flags else f[q]
  {
    hide MapPages;
    MapPagesAt(f, vp, pp, n, flags, q);
  }
}
