/** Division and remainder with a variable divisor. */
module Arithmetic {

  /** The quotient and remainder are determined by their defining equation. */
  lemma DivModUnique(x: int, m: int, q: int, r: int)
    requires 0 <= r < m && x == q * m + r
    ensures x / m == q && x % m == r
  {
    var q1, r1 := x / m, x % m;
    assert x == m * q1 + r1;
    assert (q1 - q) * m == r - r1;
    assert (q - q1) * m == r1 - r;
    if q1 > q {
      MulAtLeast(q1 - q, m);
    } else if q1 < q {
      MulAtLeast(q - q1, m);
    }
  }

  lemma MulAtLeast(k: int, m: int)
    requires 1 <= k && 0 <= m
    ensures k * m >= m
  {
  }

  lemma MulMonotone(x: int, y: int, m: int)
    requires x <= y && 0 <= m
    ensures x * m <= y * m
  {
  }

  lemma DivMod(x: int, m: int)
    requires 0 < m
    ensures x == (x / m) * m + x % m && 0 <= x % m < m
  {
  }

  lemma ModAtMost(x: nat, m: nat)
    ensures m > 0 ==> x % m <= x
  {
    if m > 0 && x < m {
      ModSmall(x, m);
    }
  }

  lemma ModSmall(x: nat, m: nat)
    requires x < m
    ensures x % m == x && x / m == 0
  {
  }

  lemma ModOne(x: int)
    ensures x % 1 == 0
  {
  }
}
