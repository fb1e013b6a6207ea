/** Facts about products, whole-number quotients and table positions that several modules need. */
module Arithmetic {
  lemma MulMono(a: int, b: int, n: nat)
    requires a <= b
    ensures a * n <= b * n
  {
  }

  lemma QuotientAtMost(a: nat, n: nat, c: int)
    requires n > 0 && a < (c + 1) * n
    ensures 0 <= a / n <= c
  {
    var q := a / n;
    assert q * n <= a;
    if c < q {
      MulMono(c + 1, q, n);
    }
  }

  lemma QuotientAtLeast(a: nat, n: nat, c: int)
    requires n > 0 && c * n <= a
    ensures c <= a / n
  {
    var q := a / n;
    assert a < (q + 1) * n;
    if q < c {
      MulMono(q + 1, c, n);
    }
  }

  lemma QuotientIs(a: nat, n: nat, q: nat)
    requires n > 0 && q * n <= a < (q + 1) * n
    ensures a / n == q
  {
    QuotientAtMost(a, n, q);
    QuotientAtLeast(a, n, q);
  }

  /** A quotient from its remainder. */
  lemma QuotientByRest(n: nat, q: nat, rest: nat, a: nat)
    requires rest < n && a == q * n + rest
    ensures a / n == q
  {
    assert (q + 1) * n == q * n + n;
    QuotientIs(a, n, q);
  }

  lemma QuotientMono(a: nat, b: nat, n: nat)
    requires a <= b && n > 0
    ensures a / n <= b / n
  {
    assert a / n * n <= a;
    QuotientAtLeast(b, n, a / n);
  }

  /** Position of a cell in a table of `ys` rows of `xs` cells. */
  lemma CellInTable(xs: nat, ys: nat, row: nat, column: nat)
    requires row < ys && column < xs
    ensures 0 <= row * xs + column < xs * ys
  {
    assert (row + 1) * xs <= ys * xs;
  }
}
