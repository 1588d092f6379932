/** The C type int: 32 bits, two's complement, with wrap-around. */
module Int32 {
  import Bits

  type Int = x: int | -0x8000_0000 <= x < 0x8000_0000

  /** The value of a 32-bit pattern as an int. */
  function ToInt(v: nat): Int
    requires v < 0x1_0000_0000
  {
    if v < 0x8000_0000 then v else v - 0x1_0000_0000
  }

  /** What an int holds after x is stored in it. */
  function Wrap(x: int): (w: Int)
    ensures -0x8000_0000 <= x < 0x8000_0000 ==> w == x
  {
    ToInt(x % 0x1_0000_0000)
  }

  lemma WrapBy(x: int) returns (t: int)
    ensures Wrap(x) == x + t * 0x1_0000_0000
  {
    var q := x / 0x1_0000_0000;
    t := if x % 0x1_0000_0000 < 0x8000_0000 then -q else -q - 1;
  }

  lemma WrapRound(x: int, t: int)
    ensures Wrap(x + t * 0x1_0000_0000) == Wrap(x)
  {
    var q, r := x / 0x1_0000_0000, x % 0x1_0000_0000;
    Bits.DivModUnique(x + t * 0x1_0000_0000, 0x1_0000_0000, q + t, r);
  }

  /** Wrapping on the way does not matter. */
  lemma WrapAdd(a: int, b: int)
    ensures Wrap(Wrap(a) + b) == Wrap(a + b)
  {
    hide Wrap;
    var t := WrapBy(a);
    WrapRound(a + b, t);
    assert Wrap(a) + b == a + b + t * 0x1_0000_0000;
  }

  /** A wrapped value keeps its place in a sector, and is another value or the same. */
  lemma WrapSector(x: int)
    ensures Wrap(x) % 512 == x % 512
  {
    hide Wrap;
    var t := WrapBy(x);
    Bits.DivModUnique(x + t * 0x1_0000_0000, 512, x / 512 + t * 0x80_0000, x % 512);
  }

  // ---- division ----

  // C division and remainder: the quotient is truncated toward zero.
  function CDiv(a: int, b: int): int
    requires b > 0
  {
    if a >= 0 then a / b else -((-a) / b)
  }

  function CMod(a: int, b: int): int
    requires b > 0
  {
    a - CDiv(a, b) * b
  }

  lemma CModBounds(a: int, b: int)
    requires b > 0
    ensures -b < CMod(a, b) < b
    ensures a >= 0 ==> CMod(a, b) == a % b && CMod(a, b) >= 0
    ensures a < 0 ==> CMod(a, b) <= 0
  {
    if a < 0 {
      assert -a == b * ((-a) / b) + (-a) % b;
    } else {
      assert a == b * (a / b) + a % b;
    }
  }
}
