/** Where fat16_get_fat_entry (src/fs/fat16.c) looks for the entry of a cluster. The
    position is a product where the format has a sum; the two never agree. */
module FatPosition {

  import opened Int32

  /** Where the code reads: the table's position times twice the cluster. */
  function ReadPosition(reservedSectors: nat, cluster: nat): Int {
    Wrap(reservedSectors * 512 * (cluster * 2))
  }

  /** Where the entry lies by the format: the table's position plus twice the cluster. */
  function EntryPosition(reservedSectors: nat, cluster: nat): nat {
    reservedSectors * 512 + cluster * 2
  }

  /** The code takes the entries to lie 1024 bytes apart for each reserved sector, from
      byte 0 of the disk on; positions wrap as ints do. */
  lemma ReadPositionStep(reservedSectors: nat, cluster: nat)
    ensures ReadPosition(reservedSectors, 0) == 0
    ensures ReadPosition(reservedSectors, cluster + 1)
      == Wrap(ReadPosition(reservedSectors, cluster) + 1024 * reservedSectors)
  {
    hide Wrap;
    WrapAdd(reservedSectors * 512 * (cluster * 2), 1024 * reservedSectors);
    Next(reservedSectors, cluster);
    assert reservedSectors * 512 * 0 == 0;
  }

  lemma Next(r: nat, c: nat)
    ensures r * 512 * ((c + 1) * 2) == r * 512 * (c * 2) + 1024 * r
  {
    assert r * 512 * (c * 2 + 2) == r * 512 * (c * 2) + r * 512 * 2;
  }

  /** The square of a number up to 8. */
  function Square(a: nat): nat {
    if a == 0 then 0 else if a == 1 then 1 else if a == 2 then 4 else if a == 3 then 9
    else if a == 4 then 16 else if a == 5 then 25 else if a == 6 then 36 else if a == 7 then 49 else 64
  }

  lemma SquareIs(a: nat)
    requires a <= 8
    ensures Square(a) == a * a
  {
    if a <= 3 { assert a == 0 || a == 1 || a == 2 || a == 3; }
    else { assert a == 4 || a == 5 || a == 6 || a == 7 || a == 8; }
  }

  /** What a cluster 256 * (32 * a + b) that is read at the right place would satisfy. */
  predicate Hits(a: nat, b: int, e: int, j: int) {
    16 * Square(a) + a * b + e == 8 * j && 1 <= 64 * e - b * b <= 128 && (j + b * b * b) % 32 == 0
  }

  lemma NoHitLowest(a: nat, b: int, e: int, j: int)
    requires a <= 8 && -16 <= b < -8
    ensures !Hits(a, b, e, j)
  {
    match b
    case -16 => assert !Hits(a, -16, e, j);
    case -15 => assert !Hits(a, -15, e, j);
    case -14 => assert !Hits(a, -14, e, j);
    case -13 => assert !Hits(a, -13, e, j);
    case -12 => assert !Hits(a, -12, e, j);
    case -11 => assert !Hits(a, -11, e, j);
    case -10 => assert !Hits(a, -10, e, j);
    case -9 => assert !Hits(a, -9, e, j);
  }

  lemma NoHitLow(a: nat, b: int, e: int, j: int)
    requires a <= 8 && -8 <= b < 0
    ensures !Hits(a, b, e, j)
  {
    match b
    case -8 => assert !Hits(a, -8, e, j);
    case -7 => assert !Hits(a, -7, e, j);
    case -6 => assert !Hits(a, -6, e, j);
    case -5 => assert !Hits(a, -5, e, j);
    case -4 => assert !Hits(a, -4, e, j);
    case -3 => assert !Hits(a, -3, e, j);
    case -2 => assert !Hits(a, -2, e, j);
    case -1 => assert !Hits(a, -1, e, j);
  }

  lemma NoHitHigh(a: nat, b: int, e: int, j: int)
    requires a <= 8 && 0 <= b < 8
    ensures !Hits(a, b, e, j)
  {
    match b
    case 0 => assert !Hits(a, 0, e, j);
    case 1 => assert !Hits(a, 1, e, j);
    case 2 => assert !Hits(a, 2, e, j);
    case 3 => assert !Hits(a, 3, e, j);
    case 4 => assert !Hits(a, 4, e, j);
    case 5 => assert !Hits(a, 5, e, j);
    case 6 => assert !Hits(a, 6, e, j);
    case 7 => assert !Hits(a, 7, e, j);
  }

  lemma NoHitHighest(a: nat, b: int, e: int, j: int)
    requires a <= 8 && 8 <= b < 16
    ensures !Hits(a, b, e, j)
  {
    match b
    case 8 => assert !Hits(a, 8, e, j);
    case 9 => assert !Hits(a, 9, e, j);
    case 10 => assert !Hits(a, 10, e, j);
    case 11 => assert !Hits(a, 11, e, j);
    case 12 => assert !Hits(a, 12, e, j);
    case 13 => assert !Hits(a, 13, e, j);
    case 14 => assert !Hits(a, 14, e, j);
    case 15 => assert !Hits(a, 15, e, j);
  }

  lemma NoHit(a: nat, b: int, e: int, j: int)
    requires a <= 8 && -16 <= b < 16
    ensures !Hits(a, b, e, j)
  {
    hide Hits;
    if b < -8 {
      NoHitLowest(a, b, e, j);
    } else if b < 0 {
      NoHitLow(a, b, e, j);
    } else if b < 8 {
      NoHitHigh(a, b, e, j);
    } else {
      NoHitHighest(a, b, e, j);
    }
  }

  /** The equation that an entry read at the right place means, with all factors of 2
      divided out: m is the cluster over 256, and r + m is 512 times k. */
  lemma Divided(r: nat, c: nat) returns (m: nat, k: nat, q: int)
    requires 1 <= r < 0x1_0000 && c < 0x1_0000
    requires r * 512 * (c * 2) % 0x1_0000_0000 == r * 512 + c * 2
    ensures c == 256 * m && m < 256 && r + m == 512 * k && 1 <= k <= 128
    ensures k == r * m - 0x4000 * q
  {
    var p := r * c;
    q := r * 512 * (c * 2) / 0x1_0000_0000;
    assert r * 512 * (c * 2) == 1024 * p;
    assert c == 256 * (2 * p - q * 0x80_0000 - r);
    m := c / 256;
    var s := r * m;
    assert p == 256 * s by { assert r * (256 * m) == 256 * (r * m); }
    assert r + m == 512 * (s - 0x4000 * q);
    k := s - 0x4000 * q;
  }

  /** The equation modulo 32: m is 32 * a + b. */
  lemma Reduced(r: nat, m: nat, k: nat, q: int) returns (a: nat, b: int, e: int, j: int)
    requires m < 256 && r + m == 512 * k && 1 <= k <= 128 && k == r * m - 0x4000 * q
    ensures a <= 8 && -16 <= b < 16 && Hits(a, b, e, j)
  {
    hide Hits, Square;
    a := (m + 16) / 32;
    b := m - 32 * a;
    j := k * m - 32 * q;
    e := 8 * j - 16 * (a * a) - a * b;
    Distribute(r, m, k);
    SquareOfSum(a, b);
    Collect(r * m, k * m, m * m, a * a, a * b, b * b, k, q, e, j);
    Cubes(a, b, e);
    MakeHit(a, b, e, j, 64 * (a * e) + 2 * (e * b) - a * (b * b) - q);
  }

  lemma Distribute(r: int, m: int, k: int)
    requires r == 512 * k - m
    ensures r * m == 512 * (k * m) - m * m
  {
  }

  /** The linear part: squares and products are given as numbers. */
  lemma Collect(rm: int, km: int, mm: int, aa: int, ab: int, bb: int, k: int, q: int, e: int, j: int)
    requires rm == 512 * km - mm && mm == 1024 * aa + 64 * ab + bb && k == rm - 0x4000 * q
    requires j == km - 32 * q && e == 8 * j - 16 * aa - ab
    ensures 64 * e - bb == k
  {
  }

  lemma SquareOfSum(a: int, b: int)
    ensures (32 * a + b) * (32 * a + b) == 1024 * (a * a) + 64 * (a * b) + b * b
  {
  }

  lemma Cubes(a: int, b: int, e: int)
    ensures (64 * e - b * b) * (32 * a + b) + b * b * b == 32 * (64 * (a * e) + 2 * (e * b) - a * (b * b))
  {
    assert (64 * e - b * b) * (32 * a + b) == 64 * e * (32 * a + b) - b * b * (32 * a + b);
    assert b * b * (32 * a + b) == 32 * (a * (b * b)) + b * b * b;
    assert 64 * e * (32 * a + b) == 2048 * (a * e) + 64 * (e * b);
  }

  lemma MakeHit(a: nat, b: int, e: int, j: int, t: int)
    requires a <= 8 && e == 8 * j - 16 * (a * a) - a * b && 1 <= 64 * e - b * b <= 128 && j + b * b * b == 32 * t
    ensures Hits(a, b, e, j)
  {
    SquareIs(a);
  }

  /** No cluster's entry is read where the format puts it. */
  lemma NeverTheEntry(reservedSectors: nat, cluster: nat)
    requires 1 <= reservedSectors < 0x1_0000 && cluster < 0x1_0000
    ensures ReadPosition(reservedSectors, cluster) != EntryPosition(reservedSectors, cluster)
  {
    hide Hits;
    if ReadPosition(reservedSectors, cluster) == EntryPosition(reservedSectors, cluster) {
      var m, k, q := Divided(reservedSectors, cluster);
      var a, b, e, j := Reduced(reservedSectors, m, k, q);
      NoHit(a, b, e, j);
    }
  }
}
