/** Products, quotients and sizes the solver does not settle by itself. */
module Arithmetic {

  lemma Product(a: int, b: int, m: int)
    requires m > 0
    ensures a >= b ==> a * m >= b * m
  {
    if a >= b {
      assert (a - b) * m >= 0;
      assert (a - b) * m == a * m - b * m;
    }
  }

  lemma OnlyZero(d: int, m: int)
    requires m > 0
    ensures -m < d * m < m ==> d == 0
  {
    if d >= 1 {
      assert d * m >= m;
    } else if d <= -1 {
      assert (-d) * m >= m;
    }
  }

  lemma DivModUnique(n: int, m: int, q: int, r: int)
    requires n == q * m + r && 0 <= r < m
    ensures n / m == q && n % m == r
  {
    var q', r' := n / m, n % m;
    assert n == m * q' + r';
    assert q' * m - q * m == (q' - q) * m;
    OnlyZero(q' - q, m);
  }

  /** A row-major index stays below width * height and determines its row and column. */
  lemma RowMajor(w: int, h: int, x: int, y: int)
    requires 0 <= x < w && 0 <= y < h
    ensures 0 <= y * w + x < w * h
    ensures (y * w + x) / w == y && (y * w + x) % w == x
  {
    Product(h - 1, y, w);
    assert (h - 1) * w == w * h - w;
    Product(y, 0, w);
    DivModUnique(y * w + x, w, y, x);
  }

  /** And every index below width * height has its column in the width and its row in the height. */
  lemma RowColumn(n: int, w: int, h: int)
    requires w > 0 && 0 <= n < w * h
    ensures 0 <= n % w < w && 0 <= n / w < h
  {
    assert n == w * (n / w) + n % w;
    Product(n / w, h, w);
    Product(-1, n / w, w);
  }

  function Max(a: int, b: int): int {
    if a >= b then a else b
  }

  lemma MulMonotone(k: nat, a: int, b: int)
    requires a <= b
    ensures k * a <= k * b && a * k <= b * k
  {
  }

  lemma {:induction false} SubsetSize<T>(a: set<T>, b: set<T>)
    requires a <= b
    ensures |a| <= |b|
  {
    if a != {} {
      var x :| x in a;
      SubsetSize(a - {x}, b - {x});
    }
  }
}
