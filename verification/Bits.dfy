/** The C operators | and & on non-negative values, defined bit by bit, and the
    facts that let page-table code treat "address | flags" as a sum. */
module Bits {

  function Pow2(k: nat): (p: nat)
    ensures p >= 1
  {
    if k == 0 then 1 else 2 * Pow2(k - 1)
  }

  function Or(a: nat, b: nat): nat
    decreases a + b
  {
    if a == 0 && b == 0 then 0
    else (if a % 2 == 1 || b % 2 == 1 then 1 else 0) + 2 * Or(a / 2, b / 2)
  }

  function And(a: nat, b: nat): nat
    decreases a + b
  {
    if a == 0 || b == 0 then 0
    else (if a % 2 == 1 && b % 2 == 1 then 1 else 0) + 2 * And(a / 2, b / 2)
  }

  lemma ModEven(a: nat, p: nat)
    requires p >= 1 && a % (2 * p) == 0
    ensures a % 2 == 0 && (a / 2) % p == 0
  {
    var q := a / (2 * p);
    assert a == (2 * p) * q == 2 * (p * q);
    assert a / 2 == p * q;
    MulMod(p, q);
  }

  lemma MulMod(p: nat, q: nat)
    requires p >= 1
    ensures (p * q) % p == 0 && (p * q) / p == q
  {
    DivModUnique(p * q, p, q, 0);
  }

  lemma MulAtLeast(p: nat, d: nat)
    requires d >= 1
    ensures p * d >= p
  {
  }

  lemma DivNonNegative(k: nat, p: nat)
    requires p >= 1
    ensures k / p >= 0
  {
  }

  lemma MulMonotone(p: nat, a: nat, b: nat)
    requires a <= b
    ensures p * a <= p * b
  {
  }

  /** Quotient and remainder are unique. */
  lemma DivModUnique(a: int, p: int, q: int, r: int)
    requires p >= 1 && 0 <= r < p && a == p * q + r
    ensures a / p == q && a % p == r
  {
    var d := a / p - q;
    assert a == p * (a / p) + a % p;
    assert p * d == r - a % p;
    if d >= 1 {
      MulAtLeast(p, d);
    } else if d <= -1 {
      MulAtLeast(p, -d);
    }
  }

  /** OR of values that share no bit is their sum. */
  lemma {:induction false} OrDisjoint(a: nat, b: nat, k: nat)
    requires a % Pow2(k) == 0 && b < Pow2(k)
    ensures Or(a, b) == a + b
    decreases k, a
  {
    if k == 0 {
      OrZero(a);
    } else {
      ModEven(a, Pow2(k - 1));
      OrDisjoint(a / 2, b / 2, k - 1);
    }
  }

  lemma {:induction false} OrZero(a: nat)
    ensures Or(a, 0) == a
  {
    if a > 0 { OrZero(a / 2); }
  }

  lemma {:induction false} OrAssociates(a: nat, b: nat, c: nat)
    ensures Or(Or(a, b), c) == Or(a, Or(b, c))
    decreases a + b + c
  {
    if a > 0 || b > 0 || c > 0 {
      OrStep(a, b); OrStep(b, c); OrStep(Or(a, b), c); OrStep(a, Or(b, c));
      OrAssociates(a / 2, b / 2, c / 2);
    } else {
      OrZero(Or(a, b)); OrZero(0);
    }
  }

  lemma OrStep(a: nat, b: nat)
    ensures Or(a, b) / 2 == Or(a / 2, b / 2)
    ensures Or(a, b) % 2 == (if a % 2 == 1 || b % 2 == 1 then 1 else 0)
  {
    OrOdd(a, b);
  }

  lemma {:induction false} OrBound(a: nat, b: nat, k: nat)
    requires a < Pow2(k) && b < Pow2(k)
    ensures Or(a, b) < Pow2(k)
  {
    if k > 0 && (a > 0 || b > 0) { OrBound(a / 2, b / 2, k - 1); }
  }

  lemma {:induction false} OrSwap(a: nat, b: nat)
    ensures Or(a, b) == Or(b, a)
    decreases a + b
  {
    if a > 0 || b > 0 { OrSwap(a / 2, b / 2); }
  }

  lemma OrHalf(a: nat, b: nat)
    requires a < 0x1_0000 && b < 0x1_0000
    ensures Or(a, b) < 0x1_0000
  {
    hide Or;
    Pow2Values();
    OrBound(a, b, 16);
  }

  lemma OrWord(a: nat, b: nat)
    requires a < 0x1_0000_0000 && b < 0x1_0000_0000
    ensures Or(a, b) < 0x1_0000_0000
  {
    OrWordBits(a, b, 32);
  }

  lemma OrWordBits(a: nat, b: nat, k: nat)
    requires a < 0x1_0000_0000 && b < 0x1_0000_0000 && k == 32
    ensures Or(a, b) < 0x1_0000_0000
  {
    hide Or;
    Pow2Values();
    Pow2Sum(12, 20);
    OrBound(a, b, k);
  }

  lemma {:induction false} Pow2Sum(j: nat, k: nat)
    ensures Pow2(j + k) == Pow2(j) * Pow2(k)
  {
    if j > 0 { Pow2Sum(j - 1, k); }
  }

  /** Bit 0 of an OR is set exactly when one of the operands has it. */
  lemma OrOdd(a: nat, b: nat)
    ensures Or(a, b) % 2 == (if a % 2 == 1 || b % 2 == 1 then 1 else 0)
  {
    if a > 0 || b > 0 { DivModUnique(Or(a, b), 2, Or(a / 2, b / 2), if a % 2 == 1 || b % 2 == 1 then 1 else 0); }
  }

  lemma AndStep(a: nat, b: nat)
    ensures And(a, b) == (if a % 2 == 1 && b % 2 == 1 then 1 else 0) + 2 * And(a / 2, b / 2)
  {
  }

  /** Masking with a run of low ones keeps the remainder. */
  lemma {:induction false} AndLow(a: nat, k: nat, p: nat)
    requires p == Pow2(k)
    ensures And(a, p - 1) == a % p
    decreases k
  {
    if k > 0 {
      var h := Pow2(k - 1);
      AndLow(a / 2, k - 1, h);
      AndStep(a, p - 1);
      ModDouble(a, h);
    }
  }

  /** Masking with 0x10 takes out bit 4. */
  lemma AndBit4(a: nat)
    ensures And(a, 0x10) == 16 * (a / 16 % 2)
  {
    AndStep(a, 16);
    AndStep(a / 2, 8);
    AndStep(a / 4, 4);
    AndStep(a / 8, 2);
    AndStep(a / 16, 1);
    assert a / 2 / 2 == a / 4 && a / 4 / 2 == a / 8 && a / 8 / 2 == a / 16;
  }

  /** Masking with 0x100 takes out bit 8. */
  lemma AndBit8(a: nat)
    ensures And(a, 0x100) == 256 * (a / 256 % 2)
  {
    AndBit4(a / 16);
    AndStep(a, 256);
    AndStep(a / 2, 128);
    AndStep(a / 4, 64);
    AndStep(a / 8, 32);
    assert a / 2 / 2 == a / 4 && a / 4 / 2 == a / 8 && a / 8 / 2 == a / 16 && a / 16 / 16 == a / 256;
  }

  lemma ModDouble(a: nat, h: nat)
    requires h >= 1
    ensures a % (2 * h) == 2 * (a / 2 % h) + a % 2
  {
    var x := a / 2;
    assert x == h * (x / h) + x % h;
    assert a == 2 * x + a % 2 == 2 * h * (x / h) + (2 * (x % h) + a % 2) by {
      assert 2 * (h * (x / h)) == 2 * h * (x / h);
    }
    DivModUnique(a, 2 * h, x / h, 2 * (x % h) + a % 2);
  }

  function Shr(a: nat, k: nat): nat {
    if k == 0 then a else Shr(a / 2, k - 1)
  }

  function Shl(a: nat, k: nat): nat {
    if k == 0 then a else 2 * Shl(a, k - 1)
  }

  /** Masking with ones shifted up by k drops the low k bits first. */
  lemma {:induction false} AndShifted(a: nat, m: nat, k: nat)
    ensures And(a, Shl(m, k)) == Shl(And(Shr(a, k), m), k)
    decreases k
  {
    if k > 0 {
      AndShifted(a / 2, m, k - 1);
      AndStep(a, Shl(m, k));
    }
  }

  lemma {:induction false} ShiftSplit(a: nat, j: nat, k: nat)
    ensures Shr(a, j + k) == Shr(Shr(a, j), k) && Shl(a, j + k) == Shl(Shl(a, k), j)
    decreases j
  {
    if j > 0 { ShiftSplit(a / 2, j - 1, k); ShiftSplit(a, j - 1, k); }
  }

  lemma ShiftBy4(a: nat, k: nat)
    requires k == 4
    ensures Shr(a, k) == a / 16 && Shl(a, k) == a * 16
  {
    assert Shr(a, k) == Shr(a / 2 / 2, 2) == Shr(a / 2 / 2 / 2, 1) == a / 2 / 2 / 2 / 2;
    assert Shl(a, k) == 2 * Shl(a, 3) == 4 * Shl(a, 2) == 8 * Shl(a, 1) == 16 * a;
  }

  lemma ShiftBy12(a: nat, k: nat)
    requires k == 12
    ensures Shr(a, k) == a / 4096 && Shl(a, k) == a * 4096
  {
    ShiftSplit(a, 4, 8); ShiftSplit(a / 16, 4, 4); ShiftSplit(a, 8, 4); ShiftSplit(a, 4, 4);
    ShiftBy4(a, 4); ShiftBy4(a / 16, 4); ShiftBy4(a / 16 / 16, 4); ShiftBy4(16 * a, 4); ShiftBy4(256 * a, 4);
  }

  lemma Pow2Values()
    ensures Pow2(8) == 256 && Pow2(12) == 4096 && Pow2(16) == 0x10000 && Pow2(20) == 0x100000
  {
    assert Pow2(4) == 16;
    assert Pow2(8) == 16 * Pow2(4);
    assert Pow2(12) == 16 * Pow2(8);
    assert Pow2(16) == 16 * Pow2(12);
  }

  /** "entry & 0xfffff000" */
  function PageBase(entry: nat): nat {
    And(entry, 0xfffff000)
  }

  /** Masking recovers the page address of any 32-bit entry. */
  lemma PageBaseIs(a: nat)
    requires a < 0x1_0000_0000
    ensures PageBase(a) == a / 4096 * 4096
  {
    MaskIs(a, 0xfffff000, 0xfffff, 12, 20);
  }

  lemma MaskIs(a: nat, mask: nat, ones: nat, low: nat, high: nat)
    requires a < 0x1_0000_0000 && mask == 0xfffff000 && ones == 0xfffff && low == 12 && high == 20
    ensures And(a, mask) == a / 4096 * 4096
  {
    var q := a / 4096;
    assert Shl(ones, low) == mask by { ShiftBy12(ones, low); }
    assert Shr(a, low) == q by { ShiftBy12(a, low); }
    assert And(q, ones) == q by { AndOnes(q, ones, high); }
    assert Shl(q, low) == q * 4096 by { ShiftBy12(q, low); }
    AndShifted(a, ones, low);
  }

  lemma AndOnes(q: nat, ones: nat, k: nat)
    requires k == 20 && ones == 0xfffff && q <= ones
    ensures And(q, ones) == q
  {
    hide And;
    assert Pow2(k) == 0x100000 by { Pow2Values(); }
    AndLow(q, k, ones + 1);
  }

  /** OR-ing flags into a page address adds them, and masking gives the address back. */
  lemma OrFlags(a: nat, flags: nat)
    requires a < 0x1_0000_0000 && a % 4096 == 0 && flags < 4096
    ensures Or(a, flags) == a + flags && PageBase(a + flags) == a
  {
    hide Or, PageBase;
    OrIsSum(a, flags, 12);
    PageAndFlags(a, flags);
    PageBaseIs(a + flags);
  }

  lemma PageAndFlags(a: nat, flags: nat)
    requires a < 0x1_0000_0000 && a % 4096 == 0 && flags < 4096
    ensures (a + flags) / 4096 * 4096 == a && a + flags < 0x1_0000_0000
  {
    DivModUnique(a + flags, 4096, a / 4096, flags);
  }

  lemma OrIsSum(a: nat, flags: nat, k: nat)
    requires a % 4096 == 0 && flags < 4096 && k == 12
    ensures Or(a, flags) == a + flags
  {
    Pow2Values();
    OrDisjoint(a, flags, k);
  }
}
