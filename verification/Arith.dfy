/** Facts about products and Euclidean division by a positive variable. */
module Arith {
  lemma MulGrows(n: nat, d: int)
    ensures d >= 1 ==> n * d >= n
    ensures d <= -1 ==> n * d <= 0 - n
  {
    if d >= 1 {
      assert n * d == n + n * (d - 1) && n * (d - 1) >= 0;
    } else if d <= -1 {
      assert n * d == n * (d + 1) - n && n * (d + 1) <= 0;
    }
  }

  /** Quotient and remainder are unique. */
  lemma DivUnique(x: int, n: nat, q: int, r: int)
    requires n > 0 && x == n * q + r && 0 <= r < n
    ensures x / n == q && x % n == r
  {
    var d := x / n - q;
    assert x == n * (x / n) + x % n;
    assert n * d == r - x % n;
    MulGrows(n, d);
  }

  /** A row-major position gives back its row and column. */
  lemma Locate(n: nat, row: nat, column: nat)
    requires column < n
    ensures (row * n + column) / n == row && (row * n + column) % n == column
  {
    DivUnique(row * n + column, n, row, column);
  }

  lemma MulMonotone(a: nat, b: nat, n: nat)
    requires a <= b
    ensures a * n <= b * n
  {
  }

  lemma QuotientAtLeast(x: nat, n: nat, q: nat)
    requires n > 0 && x >= q * n
    ensures x / n >= q
  {
    var r := x - q * n;
    DivUnique(x, n, q + r / n, r % n);
  }

  lemma NextMultiple(x: nat, n: nat)
    requires n > 0 && x % n == 0
    ensures (x + n) % n == 0
  {
    DivUnique(x + n, n, x / n + 1, 0);
  }

  lemma LessFactor(a: int, b: int, n: nat)
    requires a * n < b * n
    ensures a < b
  {
    assert a * n - b * n == n * (a - b);
    MulGrows(n, a - b);
  }

  lemma QuotientMonotone(x: nat, y: nat, n: nat)
    requires n > 0 && x <= y
    ensures x / n <= y / n
  {
    assert y == n * (y / n) + y % n && x == n * (x / n) + x % n;
    LessFactor(x / n, y / n + 1, n);
  }
}
