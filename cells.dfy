/**
 * Board geometry shared by every part of the solver: the flat row-major
 * index of a cell and the index of the block that holds it.
 */
module Cells {

  /**
   * The geometry the solver works with: N = blockSize * blockSize, and N fits
   * the 32-bit masks (bit N must exist, bit 0 is unused). The 0 x 0 board,
   * whose block size sqrt(0) is 0, is one of them; it has no cells.
   */
  predicate Geometry(n: int, blockSize: int)
  {
    || (n == 0 && blockSize == 0)
    || (1 <= blockSize && blockSize * blockSize == n && n <= 31)
  }

  /** A cell coordinate inside an N x N board. */
  predicate OnBoard(n: int, row: int, col: int)
  {
    0 <= row < n && 0 <= col < n
  }

  /** Quotient and remainder of a*n + b by n, for 0 <= b < n. */
  lemma DivModOfSum(a: int, b: int, n: int)
    requires 0 < n && 0 <= b < n
    ensures (a * n + b) / n == a && (a * n + b) % n == b
  {
    var q, r := (a * n + b) / n, (a * n + b) % n;
    assert q * n + r == a * n + b;
    if q > a {
      assert (q - a) * n >= n by { MulAtLeast(q - a, n); }
      assert false;
    } else if q < a {
      assert (a - q) * n >= n by { MulAtLeast(a - q, n); }
      assert false;
    }
  }

  /** x splits into its quotient and remainder by d. */
  lemma DivModSplit(x: int, d: int)
    requires 0 < d
    ensures x == (x / d) * d + x % d && 0 <= x % d < d
  {
  }

  lemma MulAtLeast(k: int, n: int)
    requires 1 <= k && 0 < n
    ensures k * n >= n
  {
    assert k * n == n + (k - 1) * n;
  }

  /** Row `row` of the flat board starts at row * N, and the next row N cells later. */
  lemma RowStart(n: int, row: int)
    requires 0 <= row < n
    ensures 0 <= row * n && row * n + n == (row + 1) * n <= n * n
  {
    MulAtLeast(n - row, n);
    assert (n - row) * n == n * n - row * n;
  }

  /** The flat row-major index of a cell (getIndex). Its inverse is pos / N, pos % N. */
  function Index(n: int, row: int, col: int): (i: int)
    requires OnBoard(n, row, col)
    ensures 0 <= i < n * n
    ensures i / n == row && i % n == col
  {
    DivModOfSum(row, col, n);
    MulAtLeast(n - row, n);
    assert (n - row) * n == n * n - row * n;
    row * n + col
  }

  /** Splitting a flat position into (pos / N, pos % N) and indexing back gives the position. */
  lemma IndexOfDivMod(n: int, pos: int)
    requires 0 < n && 0 <= pos < n * n
    ensures OnBoard(n, pos / n, pos % n) && Index(n, pos / n, pos % n) == pos
  {
    if pos / n >= n {
      assert false;
    }
  }

  /** The row of a cell's block, scaled back to a row: (row / blockSize) * blockSize. */
  lemma BlockQuotientBound(blockSize: int, x: int)
    requires 1 <= blockSize && 0 <= x < blockSize * blockSize
    ensures 0 <= x / blockSize < blockSize
  {
  }

  /** The index of the block holding cell (row, col): (row / bs) * bs + col / bs. */
  function BlockIndex(n: int, blockSize: int, row: int, col: int): (k: int)
    requires Geometry(n, blockSize) && OnBoard(n, row, col)
    ensures 0 <= k < n
    ensures k / blockSize == row / blockSize && k % blockSize == col / blockSize
  {
    BlockQuotientBound(blockSize, row);
    BlockQuotientBound(blockSize, col);
    DivModOfSum(row / blockSize, col / blockSize, blockSize);
    MulAtLeast(blockSize - row / blockSize, blockSize);
    assert (blockSize - row / blockSize) * blockSize == n - (row / blockSize) * blockSize;
    (row / blockSize) * blockSize + col / blockSize
  }

  /** Two cells share a block index exactly when they share block row and block column. */
  lemma SameBlock(n: int, blockSize: int, row: int, col: int, row': int, col': int)
    requires Geometry(n, blockSize) && OnBoard(n, row, col) && OnBoard(n, row', col')
    ensures BlockIndex(n, blockSize, row, col) == BlockIndex(n, blockSize, row', col')
        <==> row / blockSize == row' / blockSize && col / blockSize == col' / blockSize
  {
  }

  /** Distinct cells have distinct flat indices. */
  lemma IndexInjective(n: int, row: int, col: int, row': int, col': int)
    requires OnBoard(n, row, col) && OnBoard(n, row', col')
    ensures Index(n, row, col) == Index(n, row', col') <==> row == row' && col == col'
  {
  }
}
