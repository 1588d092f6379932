/** Encoding of segment descriptors (src/sys/gdt.c), and their decoding as the processor
    reads them (Intel SDM, Volume 3A, section 3.4.5). */
module Gdt {
  import opened Memory
  import opened Bits

  const ENTRY: nat := 8

  datatype Segment = Segment(base: Word, limit: Word, kind: Byte)

  /** The descriptor's limit is not over 65536, or its low 12 bits are all ones. */
  predicate Encodable(s: Segment) {
    s.limit <= 65536 || s.limit % 4096 == 4095
  }

  /** What the eight bytes of a descriptor mean: base, limit in bytes, and type. The
      limit counts pages when the granularity bit is set. */
  function Decode(t: seq<Byte>): Segment
    requires |t| == ENTRY
  {
    Segment(WordOf(t[2], t[3], t[4], t[7]), DecodeLimit(t[0], t[1], t[6]), t[5])
  }

  function DecodeLimit(low: nat, middle: nat, flags: nat): Word
    requires low < 256 && middle < 256 && flags < 256
  {
    var limit20 := low + 0x100 * middle + 0x1_0000 * (flags % 16);
    if flags / 128 == 1 then limit20 * 4096 + 4095 else limit20
  }

  /** The descriptor as a number of 64 bits. */
  function Number(t: seq<Byte>): nat
    requires |t| == 8
  {
    WordOf(t[0], t[1], t[2], t[3]) + 0x1_0000_0000 * WordOf(t[4], t[5], t[6], t[7])
  }

  /** By the bits of the descriptor: the limit is in bits 0 to 15 and 48 to 51, the base in
      bits 16 to 39 and 56 to 63, the type in bits 40 to 47, and bit 55 makes the limit
      count pages. */
  lemma DecodeExact(t: seq<Byte>)
    requires |t| == 8
    ensures var n, s := Number(t), Decode(t);
      var limit20 := n % 0x1_0000 + n / 0x1_0000_0000_0000 % 16 * 0x1_0000;
      && s.base == n / 0x1_0000 % 0x100_0000 + n / 0x100_0000_0000_0000 * 0x100_0000
      && s.limit == (if n / 0x80_0000_0000_0000 % 2 == 1 then limit20 * 4096 + 4095 else limit20)
      && s.kind == n / 0x100_0000_0000 % 0x100
  {
    var n := Number(t);
    var t0: nat, t1: nat, t2: nat, t3: nat, t4: nat := t[0], t[1], t[2], t[3], t[4];
    Digits(n, t0 + 0x100 * t1, t2 + 0x100 * t3 + 0x1_0000 * t4, t[5], t[6], t[7]);
  }

  lemma Digits(n: nat, limit: nat, base: nat, kind: Byte, flags: Byte, top: Byte)
    requires limit < 0x1_0000 && base < 0x100_0000
    requires n == limit + 0x1_0000 * (base + 0x100_0000 * (kind + 0x100 * (flags + 0x100 * top)))
    ensures n % 0x1_0000 == limit && n / 0x1_0000 % 0x100_0000 == base && n / 0x100_0000_0000 % 0x100 == kind
    ensures n / 0x1_0000_0000_0000 % 16 == flags % 16 && n / 0x80_0000_0000_0000 % 2 == flags / 128
    ensures n / 0x100_0000_0000_0000 == top
  {
    var high, low: nat := flags / 16, flags % 16;
    var d := flags + 0x100 * top;
    var e := kind + 0x100 * d;
    DivModUnique(n, 0x1_0000, base + 0x100_0000 * e, limit);
    DivModUnique(base + 0x100_0000 * e, 0x100_0000, e, base);
    DivModUnique(n, 0x100_0000_0000, e, limit + 0x1_0000 * base);
    DivModUnique(e, 0x100, d, kind);
    DivModUnique(n, 0x1_0000_0000_0000, d, limit + 0x1_0000 * base + 0x100_0000_0000 * kind);
    DivModUnique(d, 16, high + 16 * top, low);
    var below := limit + 0x1_0000 * base + 0x100_0000_0000 * kind;
    DivModUnique(n, 0x100_0000_0000_0000, top, below + 0x1_0000_0000_0000 * flags);
    DivModUnique(n, 0x80_0000_0000_0000, flags / 128 + 2 * top, below + 0x1_0000_0000_0000 * (flags % 128));
    DivModUnique(flags / 128 + 2 * top, 2, top, flags / 128);
  }

  /** Some descriptor has the limit. */
  ghost predicate Representable(limit: Word) {
    exists t: seq<Byte> :: |t| == 8 && Decode(t).limit == limit
  }

  lemma RepresentableExact(limit: Word)
    ensures Representable(limit) <==> limit < 0x10_0000 || limit % 4096 == 4095
  {
    hide Decode;
    if limit < 0x10_0000 {
      var t := WithLimit(limit, false);
    } else if limit % 4096 == 4095 {
      var t := WithLimit(limit / 4096, true);
    }
    forall t: seq<Byte> | |t| == 8 ensures Decode(t).limit < 0x10_0000 || Decode(t).limit % 4096 == 4095 {
      LimitOf(t);
    }
  }

  lemma WithLimit(n: nat, granular: bool) returns (t: seq<Byte>)
    requires n < 0x10_0000
    ensures |t| == 8 && Decode(t).limit == if granular then n * 4096 + 4095 else n
  {
    hide DecodeLimit, WordOf, Shift8;
    LimitParts(n, granular);
    ByteSize(n);
    t := [n % 0x100, Shift8(n) % 0x100, 0, 0, 0, 0, (if granular then 0xC0 else 0x40) + Shift8(Shift8(n)), 0];
  }

  lemma ByteSize(n: nat)
    ensures n % 0x100 < 256 && Shift8(n) % 0x100 < 256
  {
  }

  lemma LimitOf(t: seq<Byte>)
    requires |t| == 8
    ensures Decode(t).limit < 0x10_0000 || Decode(t).limit % 4096 == 4095
  {
    hide WordOf;
    var low: nat, middle: nat, flags: nat := t[0], t[1], t[6];
    assert low + 0x100 * middle + 0x1_0000 * (flags % 16) < 0x10_0000;
  }

  /** The code accepts every limit that a descriptor can have, except those over 65536 and
      below 2^20 that do not end a page; among others the 0xFFFFFFFF of the kernel's own
      segments. */
  lemma EncodableExact(s: Segment)
    ensures Encodable(s) <==> Representable(s.limit) && !(65536 < s.limit < 0x10_0000 && (s.limit + 1) % 4096 != 0)
    ensures s.limit == 0xFFFF_FFFF ==> Encodable(s)
  {
    hide Representable;
    RepresentableExact(s.limit);
    PageEnd(s.limit);
  }

  lemma PageEnd(limit: nat)
    ensures limit % 4096 == 4095 <==> (limit + 1) % 4096 == 0
  {
  }

  /** Bit 6, the default operation size, is set and bits 4 and 5 are clear. */
  predicate Flags(t: seq<Byte>)
    requires |t| == ENTRY
  {
    t[6] / 16 % 8 == 4
  }

  // v >> 8
  function Shift8(v: nat): nat { v / 0x100 }

  lemma LimitParts(n: nat, granular: bool)
    requires n < 0x10_0000
    ensures Shift8(Shift8(n)) < 16 && Shift8(Shift8(n)) % 16 == Shift8(Shift8(n))
    ensures DecodeLimit(n % 0x100, Shift8(n) % 0x100, (if granular then 0xC0 else 0x40) + Shift8(Shift8(n)))
      == if granular then n * 4096 + 4095 else n
  {
  }

  lemma BaseParts(v: Word)
    ensures WordOf(v % 0x100, Shift8(v) % 0x100, Shift8(Shift8(v)) % 0x100, Shift8(Shift8(Shift8(v))) % 0x100) == v
  {
    var r := BytesOf(v);
  }

  /** encodeGdtEntry into the eight bytes at offset at; the panic is a result of false,
      with nothing written. */
  method EncodeGdtEntry(target: array<Byte>, at: nat, source: Segment) returns (ok: bool)
    requires at + ENTRY <= target.Length
    modifies target
    ensures ok <==> Encodable(source)
    ensures ok ==> Decode(target[at..at + ENTRY]) == source && Flags(target[at..at + ENTRY])
    ensures forall i :: 0 <= i < target.Length && !(ok && at <= i < at + ENTRY) ==> target[i] == old(target[i])
  {
    if source.limit > 65536 && source.limit % 4096 != 4095 {
      return false;
    }
    hide Shift8, Decode, Flags;
    var limit: nat := source.limit;
    target[at + 6] := 0x40;
    if limit > 65536 {
      limit := limit / 4096;
      target[at + 6] := 0xC0;
    }
    EncodeLimit(target, at, limit);
    EncodeBase(target, at, source.base);
    target[at + 5] := source.kind;
    DecodeOf(target[at..at + ENTRY], source, limit);
    ok := true;
  }

  /** The limit goes to bytes 0 and 1 and to the low half of byte 6. */
  method EncodeLimit(target: array<Byte>, at: nat, limit: nat)
    requires at + ENTRY <= target.Length && limit < 0x10_0000 && (target[at + 6] == 0x40 || target[at + 6] == 0xC0)
    modifies target
    ensures target[at] == limit % 0x100 && target[at + 1] == Shift8(limit) % 0x100
    ensures target[at + 6] == old(target[at + 6]) + Shift8(Shift8(limit))
    ensures forall i :: 0 <= i < target.Length && i != at && i != at + 1 && i != at + 6 ==> target[i] == old(target[i])
  {
    LimitParts(limit, false);
    hide Shift8, Or;
    HighFlags(target[at + 6], Shift8(Shift8(limit)));
    target[at] := limit % 0x100;
    target[at + 1] := Shift8(limit) % 0x100;
    target[at + 6] := Or(target[at + 6], Shift8(Shift8(limit)) % 16);
  }

  /** The base goes to bytes 2, 3, 4 and 7. */
  method EncodeBase(target: array<Byte>, at: nat, base: Word)
    requires at + ENTRY <= target.Length
    modifies target
    ensures target[at + 2] == base % 0x100 && target[at + 3] == Shift8(base) % 0x100
    ensures target[at + 4] == Shift8(Shift8(base)) % 0x100 && target[at + 7] == Shift8(Shift8(Shift8(base))) % 0x100
    ensures forall i :: 0 <= i < target.Length && (i < at + 2 || at + 4 < i) && i != at + 7 ==>
      target[i] == old(target[i])
  {
    hide Shift8;
    target[at + 2] := base % 0x100;
    target[at + 3] := Shift8(base) % 0x100;
    target[at + 4] := Shift8(Shift8(base)) % 0x100;
    target[at + 7] := Shift8(Shift8(Shift8(base))) % 0x100;
  }

  /** Bytes that hold the parts of a base, of a limit and of a type decode to them. */
  lemma DecodeOf(t: seq<Byte>, s: Segment, limit: nat)
    requires |t| == ENTRY && limit == (if s.limit > 65536 then s.limit / 4096 else s.limit) && Encodable(s)
    requires t[0] == limit % 0x100 && t[1] == Shift8(limit) % 0x100 && t[5] == s.kind
    requires t[6] == (if s.limit > 65536 then 0xC0 else 0x40) + Shift8(Shift8(limit))
    requires t[2] == s.base % 0x100 && t[3] == Shift8(s.base) % 0x100
    requires t[4] == Shift8(Shift8(s.base)) % 0x100 && t[7] == Shift8(Shift8(Shift8(s.base))) % 0x100
    ensures Decode(t) == s && Flags(t)
  {
    hide Flags, DecodeLimit, WordOf;
    LimitParts(limit, s.limit > 65536);
    BaseParts(s.base);
    hide Shift8;
    if s.limit > 65536 { PagesBack(s.limit); }
    FlagsOf(t, Shift8(Shift8(limit)));
  }

  lemma FlagsOf(t: seq<Byte>, high: nat)
    requires |t| == ENTRY && high < 16 && (t[6] == 0x40 + high || t[6] == 0xC0 + high)
    ensures Flags(t)
  {
  }

  lemma PagesBack(limit: nat)
    requires limit % 4096 == 4095
    ensures limit / 4096 * 4096 + 4095 == limit
  {
  }

  lemma HighFlags(flags: nat, high: nat)
    requires (flags == 0x40 || flags == 0xC0) && high < 16
    ensures Or(flags, high) == flags + high && (flags + high) / 16 % 8 == 4 && high % 16 == high
  {
    hide Or;
    NibblePower(4);
    OrDisjoint(flags, high, 4);
  }

  lemma NibblePower(k: nat)
    requires k == 4
    ensures Pow2(k) == 16
  {
    assert Pow2(k) == 2 * Pow2(k - 1) == 4 * Pow2(k - 2) == 8 * Pow2(k - 3) == 16 * Pow2(k - 4);
  }

  /** gdt_structured_to_gdt: every descriptor up to the first that panics decodes to its
      source. */
  method GdtStructuredToGdt(gdt: array<Byte>, structured: seq<Segment>) returns (done: nat)
    requires gdt.Length == ENTRY * |structured|
    modifies gdt
    ensures done <= |structured| && forall i :: 0 <= i < done ==> Encodable(structured[i])
    ensures done < |structured| ==> !Encodable(structured[done])
    ensures forall i :: 0 <= i < done ==> Decode(gdt[8 * i..8 * i + 8]) == structured[i] && Flags(gdt[8 * i..8 * i + 8])
  {
    hide Decode, Flags, Encodable;
    for i := 0 to |structured|
      invariant forall j :: 0 <= j < i ==> Encodable(structured[j])
      invariant forall j :: 0 <= j < i ==>
        Decode(gdt[8 * j..8 * j + 8]) == structured[j] && Flags(gdt[8 * j..8 * j + 8])
    {
      ghost var before := gdt[..];
      var ok := EncodeGdtEntry(gdt, 8 * i, structured[i]);
      assert gdt[..8 * i] == before[..8 * i];
      EntriesKept(before, gdt[..], i);
      if !ok {
        return i;
      }
    }
    done := |structured|;
  }

  lemma EntriesKept(before: seq<Byte>, after: seq<Byte>, n: nat)
    requires 8 * n <= |before| && |before| == |after| && before[..8 * n] == after[..8 * n]
    ensures forall j :: 0 <= j < n ==> after[8 * j..8 * j + 8] == before[8 * j..8 * j + 8]
  {
    forall j | 0 <= j < n ensures after[8 * j..8 * j + 8] == before[8 * j..8 * j + 8] {
      assert after[..8 * n][8 * j..8 * j + 8] == after[8 * j..8 * j + 8];
      assert before[..8 * n][8 * j..8 * j + 8] == before[8 * j..8 * j + 8];
    }
  }
}
