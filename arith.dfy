/** Non-linear arithmetic facts the layout and buffer-index proofs rely on. */
module Arith {

  lemma MulMono(a: nat, b: nat, k: nat)
    requires a <= b
    ensures k * a <= k * b
  {
  }

  /** Monotonicity in implication form, usable without a case split. */
  lemma MulMonoIf(a: int, b: int, k: nat)
    ensures a <= b ==> k * a <= k * b
  {
  }

  /** Euclidean division is determined by the bracket d*q <= a < d*q + d. */
  lemma DivUnique(a: nat, d: nat, q: nat)
    requires d > 0 && d * q <= a < d * q + d
    ensures a / d == q && a % d == a - d * q
  {
    var q' := a / d;
    assert a == d * q' + a % d;
    MulMonoIf(q' + 1, q, d);
    MulMonoIf(q + 1, q', d);
    assert d * (q' + 1) == d * q' + d;
    assert d * (q + 1) == d * q + d;
  }

  /** Splitting a row-major index x*n + y back into its two coordinates. */
  lemma MixedRadix(x: nat, y: nat, n: nat)
    requires y < n
    ensures (x * n + y) / n == x && (x * n + y) % n == y
  {
    DivUnique(x * n + y, n, x);
  }

  /** Euclidean division of a natural number by a positive one. */
  lemma DivMod(q: nat, w: nat)
    requires w > 0
    ensures 0 <= q / w && 0 <= q % w < w && q == (q / w) * w + q % w
  {
  }

  /** Dividing by a positive number never increases a natural number. */
  lemma DivLe(a: nat, n: nat)
    requires n > 0
    ensures a / n <= a
  {
    MulMono(1, n, a / n);
    assert a == n * (a / n) + a % n;
  }

  /** a / n is the quotient q with q*n <= a < (q+1)*n. */
  lemma FloorDiv(a: nat, n: nat)
    requires n > 0
    ensures (a / n) * n <= a < (a / n + 1) * n
  {
    assert a == n * (a / n) + a % n;
    assert (a / n + 1) * n == (a / n) * n + n;
  }

  /** An index below m*n has a quotient by n below m. */
  lemma DivBelow(c: nat, n: nat, m: nat)
    requires n > 0 && c < m * n
    ensures c / n < m
  {
    MulMonoIf(m, c / n, n);
  }

  /** A row-major index of an n-row, w-column grid stays below n*w. */
  lemma RowMajorBound(r: nat, n: nat, c: nat, w: nat)
    requires r < n && c < w
    ensures r * w + c < n * w
  {
    MulMono(r + 1, n, w);
    assert w * (r + 1) == r * w + w;
  }

  /** The k-th of n equal slices of total (each total / n wide) ends inside total. */
  lemma SliceInside(total: nat, n: nat, k: nat)
    requires k < n
    ensures (total / n) * k + total / n <= total
  {
    var t := total / n;
    MulMono(k + 1, n, t);
    assert t * (k + 1) == t * k + t;
    assert n * t + total % n == total;
  }

  /** A natural number has at most one floor square root: r with r * r <= n < (r + 1) * (r + 1). */
  lemma UniqueRoot(r: nat, k: nat, n: nat)
    requires r * r <= n < (r + 1) * (r + 1) && k * k == n
    ensures r == k
  {
    if r < k {
      SquareMono(r + 1, k);
    } else if r > k {
      SquareMono(k + 1, r);
    }
  }

  lemma SquareMono(a: nat, b: nat)
    requires a <= b
    ensures a * a <= b * b
  {
    MulMono(a, b, a);
    MulMono(a, b, b);
  }

  /** Extending a row prefix from b to b + 1 columns adds exactly the slot row * n + b. */
  lemma PrefixStep(j: nat, n: nat, row: nat, b: nat)
    requires b < n
    ensures (j / n == row && j % n < b + 1) <==> ((j / n == row && j % n < b) || j == row * n + b)
  {
    if j == row * n + b {
      MixedRadix(row, b, n);
    }
    if j / n == row && j % n == b {
      assert j == n * (j / n) + j % n;
    }
  }

  /**
   * Slot b of row rel in a buffer of perRow lane-wide batches per row: the
   * pixel-to-batch index (rel * (lanes * perRow) + lanes * b) / lanes names it,
   * and it lies in row rel at column b, inside rows * perRow.
   */
  lemma BatchSlot(lanes: nat, perRow: nat, rows: nat, rel: nat, b: nat)
    requires lanes > 0 && b < perRow && rel < rows
    ensures (rel * (lanes * perRow) + lanes * b) / lanes == rel * perRow + b
    ensures (rel * perRow + b) / perRow == rel && (rel * perRow + b) % perRow == b
    ensures rel * perRow + b < perRow * rows
  {
    var q := rel * perRow + b;
    assert rel * (lanes * perRow) + lanes * b == lanes * q;
    DivUnique(lanes * q, lanes, q);
    MixedRadix(rel, b, perRow);
    RowMajorBound(rel, rows, b, perRow);
  }

  /** Index j lies in the block of row `row` exactly when j / perRow == row. */
  lemma RowBlock(row: nat, perRow: nat, j: nat)
    requires perRow > 0
    ensures (row * perRow <= j < row * perRow + perRow) <==> j / perRow == row
  {
    if row * perRow <= j < row * perRow + perRow {
      DivUnique(j, perRow, row);
    }
    var q := j / perRow;
    assert perRow * q <= j < perRow * q + perRow;
  }

  /** A row below `rows` starts a block that ends inside rows * perRow. */
  lemma RowInside(row: nat, perRow: nat, rows: nat)
    requires row < rows
    ensures row * perRow + perRow <= perRow * rows
  {
    MulMono(row + 1, rows, perRow);
    assert perRow * (row + 1) == row * perRow + perRow;
  }

  /** Row y, columns x0..x1-1 of a w-wide row-major grid is the index range y * w + x0 .. y * w + x1 - 1. */
  lemma RowSegment(q: nat, w: nat, y: nat, x0: nat, x1: nat)
    requires x0 <= x1 <= w
    ensures w > 0 ==> ((y * w + x0 <= q < y * w + x1) <==> (q / w == y && x0 <= q % w < x1))
    ensures w > 0 ==> q == (q / w) * w + q % w
  {
    if w > 0 {
      if y * w + x0 <= q < y * w + x1 {
        MixedRadix(y, q - y * w, w);
      }
      assert q == w * (q / w) + q % w;
    }
  }

  /** A w-wide, h-high block packed into lane-wide batches fills exactly (w / lanes) * h batches. */
  lemma PackedArea(lanes: nat, w: nat, h: nat)
    requires lanes > 0 && w % lanes == 0
    ensures lanes * ((w / lanes) * h) == h * w
  {
    assert lanes * (w / lanes) == w;
    assert lanes * ((w / lanes) * h) == (lanes * (w / lanes)) * h;
  }

  /** Advancing the input by one row of wb batches (w pixels) and the output by one row of cw pixels. */
  lemma PointerStep(lanes: nat, y: nat, y0: nat, w: nat, wb: nat, cw: nat, x0: nat, inBatch: nat, outPtr: nat)
    requires lanes * wb == w && y0 <= y
    requires lanes * inBatch == (y - y0) * w && outPtr == y * cw + x0
    ensures lanes * (inBatch + wb) == (y + 1 - y0) * w
    ensures outPtr + cw == (y + 1) * cw + x0
  {
    assert (y + 1 - y0) * w == (y - y0) * w + w;
    assert (y + 1) * cw == y * cw + cw;
  }

  /**
   * Pixel col of row `row` in rows of lanes * perRow pixels, packed lanes to
   * a batch: it is lane col % lanes of batch row * perRow + col / lanes, and
   * that batch lies in row `row` at column col / lanes.
   */
  lemma LaneSplit(lanes: nat, perRow: nat, row: nat, col: nat)
    requires lanes > 0 && col < lanes * perRow
    ensures (row * (lanes * perRow) + col) / lanes == row * perRow + col / lanes
    ensures (row * (lanes * perRow) + col) % lanes == col % lanes
    ensures (row * perRow + col / lanes) / perRow == row
    ensures (row * perRow + col / lanes) % perRow == col / lanes
  {
    var b := col / lanes;
    assert b < perRow by {
      DivBelow(col, lanes, perRow);
    }
    PixelSplit(lanes, row * perRow, col);
    assert row * (lanes * perRow) == lanes * (row * perRow);
    MixedRadix(row, b, perRow);
  }

  /** Index lanes * base + col is lane col % lanes of batch base + col / lanes. */
  lemma PixelSplit(lanes: nat, base: nat, col: nat)
    requires lanes > 0
    ensures (lanes * base + col) / lanes == base + col / lanes
    ensures (lanes * base + col) % lanes == col % lanes
  {
    var b, m := col / lanes, col % lanes;
    assert lanes * base + col == lanes * (base + b) + m;
    DivUnique(lanes * base + col, lanes, base + b);
  }
}
