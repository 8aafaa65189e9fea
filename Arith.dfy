/** Small facts about multiplication and division that the solver needs spelled out. */
module Arith {

  lemma MulMonotone(a: int, b: int, c: int)
    requires a <= b && c >= 0
    ensures a * c <= b * c
  {
    assert b * c - a * c == (b - a) * c;
  }

  /** Moving one row down or up moves a row-major offset by one row length. */
  lemma MulNeighbours(a: int, c: int)
    ensures (a + 1) * c == a * c + c && (a - 1) * c == a * c - c
  {
  }

  /** Multiplication distributes over a sum on the left. */
  lemma MulAdd(a: int, k: int, c: int)
    ensures (a + k) * c == a * c + k * c
  {
  }

  /** d * n strictly between -n and n forces d == 0. */
  lemma MulBetween(d: int, n: int)
    requires n > 0 && -n < d * n < n
    ensures d == 0
  {
    if d >= 1 {
      MulMonotone(1, d, n);
    } else if d <= -1 {
      MulMonotone(d, -1, n);
    }
  }

  /** Quotient and remainder are determined by n == d * q + r with 0 <= r < d. */
  lemma DivModUnique(n: int, d: int, q: int, r: int)
    requires d > 0 && n == d * q + r && 0 <= r < d
    ensures n / d == q && n % d == r
  {
    assert n == d * (n / d) + n % d;
    assert (q - n / d) * d == n % d - r;
    MulBetween(q - n / d, d);
  }

  /** Adding the divisor adds one to the quotient and keeps the remainder. */
  lemma DivAddDivisor(n: int, d: int)
    requires d > 0
    ensures (n + d) / d == n / d + 1 && (n + d) % d == n % d
  {
    var q, r := n / d, n % d;
    assert n + d == d * (q + 1) + r by {
      assert n == d * q + r;
      assert d * (q + 1) == d * q + d;
    }
    DivModUnique(n + d, d, q + 1, r);
  }

  /** Row-major offsets row * w + col with 0 <= col < w are distinct for distinct (row, col). */
  lemma RowMajorInjective(w: int, row: int, col: int, row': int, col': int)
    requires 0 <= col < w && 0 <= col' < w
    requires row * w + col == row' * w + col'
    ensures row == row' && col == col'
  {
    assert (row - row') * w == col' - col;
    MulBetween(row - row', w);
  }
}
