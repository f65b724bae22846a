/** The few facts about products and remainders that the layouts below rest on. */
module Arith {

  lemma {:induction false} Below(x: nat, y: nat, n: nat)
    requires x < y
    ensures x * n + n <= y * n
    decreases y
  {
    if x + 1 < y {
      Below(x, y - 1, n);
    }
    assert y * n == (y - 1) * n + n;
  }

  lemma DivMod(a: nat, d: nat)
    requires d > 0
    ensures a == a / d * d + a % d
  {
  }

  /** Rows of n columns: position x + y * n identifies both. */
  lemma RowMajorInjective(n: nat, x: nat, y: nat, x': nat, y': nat)
    requires x < n && x' < n && x + y * n == x' + y' * n
    ensures x == x' && y == y'
  {
    if y < y' {
      Below(y, y', n);
    } else if y' < y {
      Below(y', y, n);
    }
  }

  lemma Unpack(d: nat, q: nat, r: nat)
    requires r < d
    ensures (q * d + r) / d == q && (q * d + r) % d == r
  {
    var a := q * d + r;
    DivMod(a, d);
    RowMajorInjective(d, r, q, a % d, a / d);
  }

  lemma NegativeMultiple(d: nat, k: int)
    requires k < 0
    ensures d * k <= -1 * d
  {
  }

  lemma QuotientUnique(n: nat, d: nat, k: int)
    requires 0 <= n - d * k < d
    ensures k == n / d
  {
    if k < 0 {
      NegativeMultiple(d, k);
    } else {
      DivMod(n, d);
      RowMajorInjective(d, n - d * k, k, n % d, n / d);
    }
  }

  /** A position below n * d lies in one of the n rows. */
  lemma RowBound(a: nat, d: nat, n: nat)
    requires d > 0 && a < d * n
    ensures a / d < n
  {
    DivMod(a, d);
    if a / d > n {
      Below(n, a / d, d);
    }
  }
}
