/** Row-major index arithmetic used by the buffer layouts. */
module IndexArith {

  lemma MulMono(a: int, b: int, m: nat)
    requires a <= b
    ensures a * m <= b * m
  {
  }

  lemma MulPositive(a: int, b: int)
    requires a > 0 && b > 0
    ensures a * b > 0
  {
  }

  lemma MulNonNegative(a: int, b: int)
    requires a >= 0 && b >= 0
    ensures a * b >= 0
  {
  }

  lemma Distributes(a: int, b: int, m: int)
    ensures (a + b) * m == a * m + b * m && m * (a + b) == m * a + m * b
  {
  }

  lemma Associates(a: int, b: int, c: int)
    ensures a * (b * c) == a * b * c
  {
  }

  /** A number is `a * m + b` with `0 <= b < m` in one way only. */
  lemma DivMod(a: int, b: int, m: int)
    requires a >= 0 && 0 <= b < m
    ensures (a * m + b) / m == a && (a * m + b) % m == b
  {
    MulNonNegative(a, m);
    Quotient(a * m + b, m, a);
  }

  lemma Quotient(x: int, m: int, q: int)
    requires m > 0 && q * m <= x < q * m + m
    ensures x / m == q && x % m == x - q * m
  {
    var d := x / m;
    assert d * m <= x < d * m + m;
    if d < q {
      MulMono(d + 1, q, m);
      Distributes(d, 1, m);
    } else if d > q {
      MulMono(q + 1, d, m);
      Distributes(q, 1, m);
    }
  }

  lemma RowOf(x: int, m: int, row: int)
    requires m > 0
    ensures x / m == row <==> row * m <= x < row * m + m
  {
    if row * m <= x < row * m + m {
      Quotient(x, m, row);
    }
  }

  lemma RowBound(a: int, b: int, m: int, rows: int)
    requires 0 <= a < rows && 0 <= b < m
    ensures 0 <= a * m + b < rows * m
  {
    MulNonNegative(a, m);
    MulMono(a + 1, rows, m);
    Distributes(a, 1, m);
  }

  /** Splitting an index below `rows * m` into row and column. */
  lemma Split(x: int, m: int, rows: int)
    requires 0 <= x < rows * m && m >= 0
    ensures m > 0 && 0 <= x / m < rows && 0 <= x % m < m
    ensures x == x / m * m + x % m
  {
    assert m == 0 ==> rows * m == 0;
    var q := x / m;
    if rows <= q {
      MulMono(rows, q, m);
    }
  }
}
