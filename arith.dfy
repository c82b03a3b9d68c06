/** Nonlinear facts about row-major grid indexing (`x + y * width`). */
module Arith {

  lemma PositiveFactors(w: nat, h: nat)
    requires w * h > 0
    ensures w >= 1 && h >= 1
  {
  }

  lemma MulMonotone(a: nat, b: nat, w: nat)
    requires a <= b
    ensures a * w <= b * w
  {
    assert b * w == a * w + (b - a) * w;
  }

  /** A cell given by column `x < w` and row `y < h` has a row-major index below `w * h`. */
  lemma IndexOfCell(x: nat, y: nat, w: nat, h: nat)
    requires x < w && y < h
    ensures x + y * w < w * h
  {
    MulMonotone(y, h - 1, w);
    assert (h - 1) * w == h * w - w;
  }

  lemma OnlyZeroIsSmall(k: int, w: nat)
    requires -(w as int) < k * w < w
    ensures k == 0
  {
  }

  /** Column and row of a row-major index are the remainder and the quotient. */
  lemma DivModOfCell(x: nat, y: nat, w: nat)
    requires x < w
    ensures (x + y * w) / w == y && (x + y * w) % w == x
  {
    var i := x + y * w;
    var q, r := i / w, i % w;
    assert i == q * w + r && 0 <= r < w;
    assert (q - y) * w == x - r;
    OnlyZeroIsSmall(q - y, w);
  }

  /** A remainder by `w` of a number up to `w`. */
  lemma ModOfSmall(n: nat, w: nat)
    requires w >= 1
    ensures n < w ==> n % w == n
    ensures n == w ==> n % w == 0
  {
    if n < w {
      DivModOfCell(n, 0, w);
    } else if n == w {
      DivModOfCell(0, 1, w);
    }
  }

  /**
   * The cells of row `y` from column `x0` to `x0 + len` are the `len` consecutive indices
   * from `x0 + w * y`.
   */
  lemma RowSpan(i: nat, x0: nat, y: nat, len: nat, w: nat)
    requires w >= 1 && x0 + len <= w
    ensures (i / w == y && x0 <= i % w < x0 + len) <==> (x0 + w * y <= i < x0 + w * y + len)
    ensures x0 + w * y <= i < x0 + w * y + len ==> i % w == x0 + (i - (x0 + w * y))
  {
    var x, q := i % w, i / w;
    assert i == x + q * w;
    if x0 + w * y <= i < x0 + w * y + len {
      DivModOfCell(x0 + (i - (x0 + w * y)), y, w);
    }
  }

  /** An index below `w * h` lies in column `i % w < w` and row `i / w < h`. */
  lemma CellOfIndex(i: nat, w: nat, h: nat)
    requires i < w * h
    ensures w >= 1 && h >= 1
    ensures i % w < w && i / w < h
    ensures i % w + (i / w) * w == i
  {
    PositiveFactors(w, h);
    var q := i / w;
    assert i == q * w + i % w;
  }

  /** How many whole rows of width `w` fit in `n` cells, counted row by row. */
  function FullRows(n: nat, w: nat): nat
    requires w >= 1
    decreases n
  {
    if n < w then 0 else 1 + FullRows(n - w, w)
  }

  /** Counting whole rows is dividing by the row width, and they fit in `n` cells. */
  lemma {:induction false} FullRowsIsDivision(n: nat, w: nat)
    requires w >= 1
    ensures FullRows(n, w) == n / w
    ensures FullRows(n, w) * w <= n < FullRows(n, w) * w + w
    decreases n
  {
    if n >= w {
      var m := n - w;
      FullRowsIsDivision(m, w);
      var h := FullRows(m, w);
      assert (h + 1) * w == h * w + w;
      var x := m - h * w;
      assert n == x + (h + 1) * w;
      DivModOfCell(x, h + 1, w);
    } else {
      DivModOfCell(n, 0, w);
    }
  }

  lemma FullRowsIsQuotient(n: nat, w: nat)
    requires w >= 1
    ensures n / w == FullRows(n, w)
  {
    FullRowsIsDivision(n, w);
  }

  /** `k` whole rows are `k` rows. */
  lemma {:induction false} FullRowsOfWhole(k: nat, w: nat)
    requires w >= 1
    ensures FullRows(k * w, w) == k
  {
    if k > 0 {
      assert k * w - w == (k - 1) * w;
      FullRowsOfWhole(k - 1, w);
    }
  }
}
