/** Integer facts used when relating PHP's shift-and-mask length fields to
    plain numbers. */
module Arith {

  /** `x >> k` on a non-negative integer. */
  function Shr(x: nat, k: nat): (r: nat)
    ensures r <= x
  {
    if k == 0 then x else Shr(x, k - 1) / 2
  }

  function Pow2(n: nat): (r: nat)
    ensures r >= 1
  {
    if n == 0 then 1 else 2 * Pow2(n - 1)
  }

  function Pow256(n: nat): (r: nat)
    ensures r >= 1
  {
    if n == 0 then 1 else 256 * Pow256(n - 1)
  }

  /** Shifting by a then by b is shifting by a + b. */
  lemma {:induction false} ShrShr(x: nat, a: nat, b: nat)
    ensures Shr(Shr(x, a), b) == Shr(x, a + b)
  {
    if b > 0 {
      ShrShr(x, a, b - 1);
    }
  }

  /** A shift by eight drops one byte. */
  lemma ShrByte8(x: nat)
    ensures Shr(x, 8) == x / 256
  {
    assert Shr(x, 1) == x / 2;
    assert Shr(x, 2) == x / 4;
    assert Shr(x, 3) == x / 8;
    assert Shr(x, 4) == x / 16;
    assert Shr(x, 5) == x / 32;
    assert Shr(x, 6) == x / 64;
    assert Shr(x, 7) == x / 128;
  }

  /** Eight more bits of shift is one more byte dropped. */
  lemma ShrStep(x: nat, k: nat)
    ensures Shr(x, k + 8) == Shr(x, k) / 256
  {
    ShrShr(x, k, 8);
    ShrByte8(Shr(x, k));
  }

  /** The remainder modulo m is the b of any split y == m * a + b with
      0 <= b < m. */
  lemma ModUnique(y: nat, m: nat, a: nat, b: nat)
    requires m > 0 && b < m && y == m * a + b
    ensures y % m == b && y / m == a
  {
    var d := y / m;
    var r := y % m;
    assert y == m * d + r;
    if a > d {
      MulSplit(m, d, a - d);
      MulAtLeast(m, a - d);
    } else if a < d {
      MulSplit(m, a, d - a);
      MulAtLeast(m, d - a);
    }
  }

  lemma MulSplit(m: nat, d: nat, k: nat)
    ensures m * (d + k) == m * d + m * k
  {
  }

  lemma {:induction false} MulAtLeast(m: nat, k: nat)
    requires k >= 1
    ensures m * k >= m
  {
    if k > 1 {
      MulAtLeast(m, k - 1);
      MulSplit(m, k - 1, 1);
    }
  }

  /** Dropping the low byte, reducing modulo p and putting the byte back is
      reducing modulo 256 * p. */
  lemma ModStep(y: nat, p: nat)
    requires p > 0
    ensures (y / 256 % p) * 256 + y % 256 == y % (256 * p)
  {
    var q := y / 256;
    var a := q / p;
    var c := q % p;
    assert q == p * a + c;
    assert y == 256 * q + y % 256;
    assert 256 * q == (256 * p) * a + 256 * c;
    ModUnique(y, 256 * p, a, 256 * c + y % 256);
  }

  /** A number below 256 * p leaves a quotient below p when divided by 256. */
  lemma DivBound(x: nat, p: nat)
    requires p > 0 && x < 256 * p
    ensures x / 256 < p
  {
  }

  /** `x >> k` is `x` divided by 2^k, rounded down. */
  lemma {:induction false} ShrIsDiv(x: nat, k: nat)
    ensures Shr(x, k) == x / Pow2(k)
  {
    if k > 0 {
      ShrIsDiv(x, k - 1);
      DivDiv(x, Pow2(k - 1), 2);
    }
  }

  /** Dividing by a and then by b is dividing by a * b. */
  lemma DivDiv(x: nat, a: nat, b: nat)
    requires a > 0 && b > 0
    ensures x / a / b == x / (a * b)
  {
    var q := x / a;
    var r1 := x % a;
    var q2 := q / b;
    var r2 := q % b;
    assert x == a * q + r1;
    assert q == b * q2 + r2;
    assert x == (a * b) * q2 + (a * r2 + r1) by {
      MulSplit(a, b * q2, r2);
      MulAssoc(a, b, q2);
    }
    SplitBelow(a, b, r1, r2);
    ModUnique(x, a * b, q2, a * r2 + r1);
  }

  lemma MulAssoc(a: nat, b: nat, c: nat)
    ensures a * (b * c) == (a * b) * c
  {
  }

  /** Two remainders combine into a remainder modulo the product. */
  lemma SplitBelow(a: nat, b: nat, r1: nat, r2: nat)
    requires r1 < a && r2 < b
    ensures a * r2 + r1 < a * b
  {
    MulSplit(a, r2, b - 1 - r2);
    MulSplit(a, b - 1, 1);
  }
}
