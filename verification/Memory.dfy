/** Physical memory: 2^32 bytes, read and written as bytes, as little-endian
    32-bit words, and as runs of bytes. A page is 4096 bytes; the k-th word of
    page p is its slot (p, k). */
module Memory {

  const PAGE: nat := 4096
  const LIMIT: nat := 0x1_0000_0000
  const SLOTS: nat := 1024

  type Byte = b: nat | b < 256
  type Word = w: nat | w < 0x1_0000_0000
  type Ram = m: seq<Byte> | |m| == 0x1_0000_0000 ghost witness seq(0x1_0000_0000, _ => 0)

  /** A buffer with the bytes s written at a. */
  function Write(buf: seq<Byte>, a: nat, s: seq<Byte>): (r: seq<Byte>)
    requires a + |s| <= |buf|
    ensures |r| == |buf|
    ensures forall i :: 0 <= i < |buf| ==> r[i] == if a <= i < a + |s| then s[i - a] else buf[i]
  {
    buf[..a] + s + buf[a + |s|..]
  }

  /** Memory with the bytes s written at a. */
  function Splice(m: Ram, a: nat, s: seq<Byte>): (r: Ram)
    requires a + |s| <= LIMIT
    ensures forall i :: 0 <= i < LIMIT ==> r[i] == if a <= i < a + |s| then s[i - a] else m[i]
  {
    Write(m, a, s)
  }

  /** Two writes side by side are one. */
  lemma WriteWrite(buf: seq<Byte>, a: nat, s: seq<Byte>, t: seq<Byte>)
    requires a + |s| + |t| <= |buf|
    ensures Write(Write(buf, a, s), a + |s|, t) == Write(buf, a, s + t)
  {
  }

  function Bytes(m: Ram, a: nat, n: nat): (r: seq<Byte>)
    requires a + n <= LIMIT
    ensures |r| == n && forall i :: 0 <= i < n ==> r[i] == m[a + i]
  {
    m[a..a + n]
  }

  function Zeros(n: nat): (r: seq<Byte>)
    ensures |r| == n && forall i :: 0 <= i < n ==> r[i] == 0
  {
    seq(n, _ => 0)
  }

  function WordOf(b0: Byte, b1: Byte, b2: Byte, b3: Byte): Word {
    b0 + 0x100 * b1 + 0x1_0000 * b2 + 0x100_0000 * b3
  }

  function BytesOf(v: Word): (r: seq<Byte>)
    ensures |r| == 4 && WordOf(r[0], r[1], r[2], r[3]) == v
  {
    var w1, w2 := v / 0x100, v / 0x100 / 0x100;
    [v % 0x100, w1 % 0x100, w2 % 0x100, w2 / 0x100]
  }

  /** Words are stored with the low byte first. */
  lemma LowByteFirst(v: Word)
    ensures BytesOf(v) == [v % 0x100, v / 0x100 % 0x100, v / 0x1_0000 % 0x100, v / 0x100_0000]
  {
    hide WordOf;
    Shifted(v);
    assert BytesOf(v) == [v % 0x100, v / 0x100 % 0x100, v / 0x100 / 0x100 % 0x100, v / 0x100 / 0x100 / 0x100];
  }

  lemma Shifted(v: nat)
    ensures v / 0x100 / 0x100 == v / 0x1_0000 && v / 0x100 / 0x100 / 0x100 == v / 0x100_0000
  {
  }

  lemma DigitsAre(v: Word, b0: Byte, b1: Byte, b2: Byte, b3: Byte)
    requires b0 == v % 0x100 && b1 == v / 0x100 % 0x100 && b2 == v / 0x1_0000 % 0x100 && b3 == v / 0x100_0000
    ensures WordOf(b0, b1, b2, b3) == v
  {
    LowByteFirst(v);
  }

  lemma BytesOfUnique(v: Word, b0: Byte, b1: Byte, b2: Byte, b3: Byte)
    requires WordOf(b0, b1, b2, b3) == v
    ensures BytesOf(v) == [b0, b1, b2, b3]
  {
    LowByte(v, b0, b1 + 0x100 * b2 + 0x1_0000 * b3);
    LowByte(v / 0x100, b1, b2 + 0x100 * b3);
    LowByte(v / 0x100 / 0x100, b2, b3);
  }

  lemma LowByte(v: nat, b: Byte, rest: nat)
    requires v == b + 0x100 * rest
    ensures v % 0x100 == b && v / 0x100 == rest
  {
  }

  function WordAt(m: Ram, a: nat): Word
    requires a + 4 <= LIMIT
  {
    WordOf(m[a], m[a + 1], m[a + 2], m[a + 3])
  }

  function PutWord(m: Ram, a: nat, v: Word): Ram
    requires a + 4 <= LIMIT
  {
    Splice(m, a, BytesOf(v))
  }

  /** A written word is read back, and words that do not overlap it stay. */
  lemma WordAfterPut(m: Ram, a: nat, v: Word, b: nat)
    requires a + 4 <= LIMIT && b + 4 <= LIMIT
    ensures a == b ==> WordAt(PutWord(m, a, v), b) == v
    ensures a + 4 <= b || b + 4 <= a ==> WordAt(PutWord(m, a, v), b) == WordAt(m, b)
  {
  }

  /** Writing a word back over itself, after another value stood there, restores memory. */
  lemma PutBack(m: Ram, a: nat, v: Word)
    requires a + 4 <= LIMIT
    ensures PutWord(PutWord(m, a, v), a, WordAt(m, a)) == m
  {
    BytesOfUnique(WordAt(m, a), m[a], m[a + 1], m[a + 2], m[a + 3]);
  }

  // ---- pages and slots ----

  function PageOf(a: nat): nat { a / 4096 }

  function Slot(p: nat, k: nat): nat { p * 4096 + 4 * k }

  lemma SlotBounds(p: nat, k: nat)
    requires p < 0x10_0000 && k < SLOTS
    ensures Slot(p, k) + 4 <= LIMIT && Slot(p, k) / 4096 == p && (Slot(p, k) + 3) / 4096 == p
  {
  }

  /** Distinct slots do not overlap. */
  lemma SlotsApart(p: nat, k: nat, q: nat, l: nat)
    requires k < SLOTS && l < SLOTS && (p, k) != (q, l)
    ensures Slot(p, k) + 4 <= Slot(q, l) || Slot(q, l) + 4 <= Slot(p, k)
  {
    if p < q {
      assert p * 4096 + 4096 <= q * 4096;
    } else if q < p {
      assert q * 4096 + 4096 <= p * 4096;
    }
  }

  function SlotAt(m: Ram, p: nat, k: nat): Word
    requires p < 0x10_0000 && k < SLOTS
  {
    WordAt(m, Slot(p, k))
  }

  function PutSlot(m: Ram, p: nat, k: nat, v: Word): Ram
    requires p < 0x10_0000 && k < SLOTS
  {
    PutWord(m, Slot(p, k), v)
  }

  lemma SlotAfterPut(m: Ram, p: nat, k: nat, v: Word, q: nat, l: nat)
    requires p < 0x10_0000 && k < SLOTS && q < 0x10_0000 && l < SLOTS
    ensures SlotAt(PutSlot(m, p, k, v), q, l) == if (p, k) == (q, l) then v else SlotAt(m, q, l)
  {
    WordAfterPut(m, Slot(p, k), v, Slot(q, l));
    if (p, k) != (q, l) { SlotsApart(p, k, q, l); }
  }

  /** The two memories agree on page p. */
  ghost predicate SamePage(m: Ram, m': Ram, p: nat)
    requires p < 0x10_0000
  {
    forall a :: p * 4096 <= a < (p + 1) * 4096 ==> m[a] == m'[a]
  }

  /** The two memories agree on every page that is not in ps. */
  ghost predicate SameOutside(m: Ram, m': Ram, ps: set<nat>) {
    forall a :: 0 <= a < LIMIT && PageOf(a) !in ps ==> m[a] == m'[a]
  }

  lemma SamePageSlot(m: Ram, m': Ram, p: nat, k: nat)
    requires p < 0x10_0000 && k < SLOTS && SamePage(m, m', p)
    ensures SlotAt(m, p, k) == SlotAt(m', p, k)
  {
  }

  lemma OutsideIsSame(m: Ram, m': Ram, ps: set<nat>, p: nat)
    requires p < 0x10_0000 && p !in ps && SameOutside(m, m', ps)
    ensures SamePage(m, m', p)
  {
    forall a | p * 4096 <= a < (p + 1) * 4096 ensures m[a] == m'[a] {
      assert PageOf(a) == p;
    }
  }

  lemma PutSlotOutside(m: Ram, p: nat, k: nat, v: Word)
    requires p < 0x10_0000 && k < SLOTS
    ensures SameOutside(m, PutSlot(m, p, k, v), {p})
  {
    SlotBounds(p, k);
  }

  lemma SpliceOutside(m: Ram, a: nat, s: seq<Byte>, ps: set<nat>)
    requires a + |s| <= LIMIT
    requires forall i :: a <= i < a + |s| ==> PageOf(i) in ps
    ensures SameOutside(m, Splice(m, a, s), ps)
  {
  }
}
