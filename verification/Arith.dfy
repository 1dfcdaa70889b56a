/** Products, quotients and remainders: the facts the solver is not asked to find twice. */
module Arith {

  lemma MulMonotone(a: int, b: int, c: nat)
    requires a <= b
    ensures a * c <= b * c
  {
  }

  lemma PositiveProduct(a: nat, b: nat)
    requires a > 0 && b > 0
    ensures a * b > 0
  {
  }

  lemma DivisionBounds(x: nat, n: nat)
    requires n > 0
    ensures x == (x / n) * n + x % n && x % n < n
    ensures x >= n ==> x / n > 0
  {
  }

  /** Quotient and remainder are unique. */
  lemma {:induction false} DivisionUnique(x: nat, n: nat, q: nat, r: nat)
    requires r < n && x == q * n + r
    ensures x / n == q && x % n == r
  {
    DivisionBounds(x, n);
    var d := x / n;
    if d < q {
      MulMonotone(d + 1, q, n);
    } else if d > q {
      MulMonotone(q + 1, d, n);
    }
  }

  lemma QuotientBound(x: nat, n: nat, m: nat)
    requires n > 0 && x < n * m
    ensures x / n < m
  {
    DivisionBounds(x, n);
    if m <= x / n {
      MulMonotone(m, x / n, n);
      assert false;
    }
  }

  /** Row-major positions of an n-column grid lie below its size. */
  lemma {:induction false} GridBound(n: nat, m: nat, col: nat, row: nat)
    requires col < n && row < m
    ensures row * n + col < n * m
  {
    MulMonotone(row + 1, m, n);
    assert (row + 1) * n == row * n + n;
  }

  /** Column and row of a row-major position. */
  lemma GridCell(w: nat, h: nat, k: nat)
    requires k < w * h
    ensures w > 0 && k % w < w && k / w < h
  {
    if w > 0 {
      QuotientBound(k, w, h);
    }
  }

  /** Distinct cells of an n-column grid have distinct row-major positions. */
  lemma {:induction false} GridInjective(n: nat, col: nat, row: nat, col': nat, row': nat)
    requires col < n && col' < n
    ensures row * n + col == row' * n + col' <==> col == col' && row == row'
  {
    DivisionUnique(row * n + col, n, row, col);
    DivisionUnique(row' * n + col', n, row', col');
  }
}
