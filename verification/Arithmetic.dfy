/** The facts about products, quotients and remainders that the arithmetic proofs use. */
module Arithmetic {

  lemma MulNonNegative(x: int, y: int)
    requires x >= 0 && y >= 0
    ensures x * y >= 0
  {
  }

  lemma MulSub(q: int, p: int, m: int)
    ensures (q - p) * m == q * m - p * m
  {
  }

  lemma SmallMultiple(d: int, m: int)
    requires -m < d * m < m
    ensures d == 0
  {
    if d >= 1 {
      MulNonNegative(d - 1, m);
      MulSub(d, 1, m);
    } else if d <= -1 {
      MulNonNegative(-d - 1, m);
      MulSub(-d, 1, m);
      MulSub(0, d, m);
    }
  }

  lemma DivMod(x: int, m: int)
    requires m > 0
    ensures x == (x / m) * m + x % m && 0 <= x % m < m
  {
  }

  /** Quotient and remainder are determined by the equation between them. */
  lemma DivModUnique(x: int, m: int, q: int, r: int)
    requires x == q * m + r && 0 <= r < m
    ensures x / m == q && x % m == r
  {
    DivMod(x, m);
    MulSub(q, x / m, m);
    SmallMultiple(q - x / m, m);
  }

  lemma MulAdd(q: int, p: int, m: int)
    ensures (q + p) * m == q * m + p * m
  {
  }

  lemma ModAddMultiple(x: int, m: int, q: int)
    requires m > 0
    ensures (x + q * m) % m == x % m
  {
    DivMod(x, m);
    MulAdd(x / m, q, m);
    DivModUnique(x + q * m, m, x / m + q, x % m);
  }

  /** A remainder does not change when `z` is added exactly when `z` is a multiple. */
  lemma ModReturns(x: int, m: int, z: int)
    requires 0 <= x < m
    ensures (x + z) % m == x <==> z % m == 0
  {
    DivMod(x + z, m);
    DivMod(z, m);
    if z % m == 0 { DivModUnique(x + z, m, z / m, x); }
    if (x + z) % m == x { DivModUnique(z, m, (x + z) / m, 0); }
  }

  lemma DivModSucc(m: int, r: int)
    requires r > 0
    ensures (m + 1) / r == m / r + (if m % r == r - 1 then 1 else 0)
    ensures (m + 1) % r == if m % r == r - 1 then 0 else m % r + 1
  {
    DivMod(m, r);
    MulAdd(m / r, 1, r);
    if m % r == r - 1 {
      DivModUnique(m + 1, r, m / r + 1, 0);
    } else {
      DivModUnique(m + 1, r, m / r, m % r + 1);
    }
  }

  lemma ProductParity(x: int, y: int)
    ensures (x * y) % 2 == 1 <==> x % 2 == 1 && y % 2 == 1
  {
    var h, i := x / 2, y / 2;
    if x % 2 == 0 {
      HalfTimes(h, y, x * y);
    } else if y % 2 == 0 {
      HalfTimes(i, x, x * y);
    } else {
      OddProduct(h, i, x * y);
    }
  }

  lemma HalfTimes(h: int, y: int, z: int)
    requires z == (2 * h) * y
    ensures z == 2 * (h * y)
  {
  }

  lemma OddProduct(h: int, i: int, z: int)
    requires z == (2 * h + 1) * (2 * i + 1)
    ensures z == 2 * (2 * h * i + h + i) + 1
  {
  }
}
