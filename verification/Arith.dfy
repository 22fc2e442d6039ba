/** The few nonlinear facts the index arithmetic of the other modules rests on. */
module Arith {

  lemma MulMonotone(x: int, y: int, d: nat)
    requires x <= y
    ensures x * d <= y * d
  {
  }

  lemma MulStrict(x: int, y: int, d: nat)
    requires x < y
    ensures x * d + d <= y * d
  {
    MulMonotone(x + 1, y, d);
  }

  /** A quotient is pinned down by its remainder's range. */
  lemma DivUnique(a: int, d: nat, q: int, r: int)
    requires 0 < d && a == q * d + r && 0 <= r < d
    ensures a / d == q && a % d == r
  {
    assert a == (a / d) * d + a % d;
    if a / d < q {
      MulStrict(a / d, q, d);
    } else if q < a / d {
      MulStrict(q, a / d, d);
    }
  }

  lemma DivAtLeast(a: int, d: nat, q: int)
    requires 0 < d && q * d <= a
    ensures q <= a / d
  {
    assert a == (a / d) * d + a % d;
    if a / d < q {
      MulStrict(a / d, q, d);
    }
  }

  lemma DivMonotone(a: int, b: int, d: nat)
    requires a <= b && 0 < d
    ensures a / d <= b / d
  {
    DivAtLeast(b, d, a / d);
  }

  lemma Quotient(a: int, e: nat)
    requires 0 < e
    ensures a / e * e <= a < (a / e + 1) * e
  {
    assert a == (a / e) * e + a % e;
  }

  lemma QuotientFits(a: nat, e: nat)
    requires 0 < e
    ensures 0 <= a / e && a / e * e <= a
  {
    assert a == (a / e) * e + a % e;
  }

  lemma DivAntitone(a: nat, d: nat, e: nat)
    requires 0 < d <= e
    ensures a / e <= a / d
  {
    QuotientFits(a, e);
    var q := a / e;
    MulMonotone(d, e, q);
    DivAtLeast(a, d, q);
  }

  /** Offset of pixel (y, x) in a raster of width w. */
  function Idx(w: nat, y: nat, x: nat): nat {
    MulMonotone(0, y, w);
    y * w + x
  }

  /** Inside one line only that line's own columns lie in [Idx(w, m, n), Idx(w, m, n) + cols). */
  lemma IdxInLine(w: nat, m: nat, n: nat, cols: nat, y: nat, x: nat)
    requires n + cols <= w && x < w
    ensures Idx(w, m, n) <= Idx(w, y, x) < Idx(w, m, n) + cols <==> y == m && n <= x < n + cols
  {
    if y < m {
      MulStrict(y, m, w);
    } else if m < y {
      MulStrict(m, y, w);
    }
  }

  lemma IdxBound(w: nat, y: nat, x: nat, rows: nat)
    requires y < rows && x < w
    ensures Idx(w, y, x) < Idx(w, rows, 0)
  {
    MulStrict(y, rows, w);
  }
}
