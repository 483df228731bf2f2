/**
 * The board as the scanning checks see it: a flat row-major sequence of N*N
 * ints, 0 for an empty cell. This module states what the scans compute
 * (isInRow, isInCol, isInBlock, isValid) and when a set of masks agrees with
 * a board, and proves that the mask test then gives the same answer as the
 * scans.
 */
module Grid {
  import opened Cells
  import opened BitMask

  /** A board of the right length for the geometry. */
  predicate Shaped(n: int, blockSize: int, board: seq<int>)
  {
    Geometry(n, blockSize) && |board| == n * n
  }

  /** Some cell of row `row` holds value. */
  ghost predicate InRow(n: int, board: seq<int>, row: int, value: int)
    requires |board| == n * n && 0 <= row < n
  {
    exists col :: 0 <= col < n && board[Index(n, row, col)] == value
  }

  /** Some cell of column `col` holds value. */
  ghost predicate InCol(n: int, board: seq<int>, col: int, value: int)
    requires |board| == n * n && 0 <= col < n
  {
    exists row :: 0 <= row < n && board[Index(n, row, col)] == value
  }

  /** Some cell of the blockSize x blockSize block that holds (row, col) holds value. */
  ghost predicate InBlock(n: int, blockSize: int, board: seq<int>, row: int, col: int, value: int)
    requires Shaped(n, blockSize, board) && OnBoard(n, row, col)
  {
    exists i, j :: 0 <= i < blockSize && 0 <= j < blockSize
      && BlockCellOnBoard(n, blockSize, row, col, i, j)
      && board[Index(n, (row / blockSize) * blockSize + i, (col / blockSize) * blockSize + j)] == value
  }

  /** Offset (i, j) inside the block of (row, col) is a cell of the board. */
  lemma BlockCell(n: int, blockSize: int, row: int, col: int, i: int, j: int)
    requires Geometry(n, blockSize) && OnBoard(n, row, col) && 0 <= i < blockSize && 0 <= j < blockSize
    ensures BlockCellOnBoard(n, blockSize, row, col, i, j)
    ensures ((row / blockSize) * blockSize + i) / blockSize == row / blockSize
    ensures ((col / blockSize) * blockSize + j) / blockSize == col / blockSize
  {
    BlockOffset(blockSize, row, i);
    BlockOffset(blockSize, col, j);
  }

  /** Offset i into the block band holding coordinate x stays on the board and in that band. */
  lemma BlockOffset(blockSize: int, x: int, i: int)
    requires 1 <= blockSize && 0 <= x < blockSize * blockSize && 0 <= i < blockSize
    ensures 0 <= (x / blockSize) * blockSize + i < blockSize * blockSize
    ensures ((x / blockSize) * blockSize + i) / blockSize == x / blockSize
  {
    BlockQuotientBound(blockSize, x);
    DivModOfSum(x / blockSize, i, blockSize);
    BlockRowBound(blockSize, x / blockSize, i);
  }

  lemma BlockRowBound(blockSize: int, q: int, i: int)
    requires 1 <= blockSize && 0 <= q < blockSize && 0 <= i < blockSize
    ensures 0 <= q * blockSize + i < blockSize * blockSize
  {
    MulAtLeast(blockSize - q, blockSize);
    assert (blockSize - q) * blockSize == blockSize * blockSize - q * blockSize;
  }

  predicate BlockCellOnBoard(n: int, blockSize: int, row: int, col: int, i: int, j: int)
    requires 1 <= blockSize
  {
    OnBoard(n, (row / blockSize) * blockSize + i, (col / blockSize) * blockSize + j)
  }

  /** isValid(row, col, value): value occurs in neither the row, the column nor the block. */
  ghost predicate IsValid(n: int, blockSize: int, board: seq<int>, row: int, col: int, value: int)
    requires Shaped(n, blockSize, board) && OnBoard(n, row, col)
  {
    !InRow(n, board, row, value) && !InCol(n, board, col, value) && !InBlock(n, blockSize, board, row, col, value)
  }

  /** Some cell whose block index is k holds value. */
  ghost predicate InBlockAt(n: int, blockSize: int, board: seq<int>, k: int, value: int)
    requires Shaped(n, blockSize, board)
  {
    exists row, col :: OnBoard(n, row, col) && BlockIndex(n, blockSize, row, col) == k
      && board[Index(n, row, col)] == value
  }

  /**
   * The masks agree with the board: value v is in a row, column or block mask
   * exactly when v is a mask value (1..31) that occurs in that row, column or
   * block. generateSubproblems establishes this from the clues and every
   * place/undo step keeps it.
   */
  ghost predicate Consistent(n: int, blockSize: int, board: seq<int>, m: Masks)
  {
    && Shaped(n, blockSize, board)
    && m.Sized(n)
    && (forall r, v :: 0 <= r < n ==> (v in m.rowMask[r] <==> InMaskRange(v) && InRow(n, board, r, v)))
    && (forall c, v :: 0 <= c < n ==> (v in m.colMask[c] <==> InMaskRange(v) && InCol(n, board, c, v)))
    && (forall k, v :: 0 <= k < n ==> (v in m.blockMask[k] <==> InMaskRange(v) && InBlockAt(n, blockSize, board, k, v)))
  }

  /** A cell found by scanning the block of (row, col) has the block index of (row, col). */
  lemma ScannedCellInBlock(n: int, blockSize: int, row: int, col: int, i: int, j: int)
    requires Geometry(n, blockSize) && OnBoard(n, row, col) && 0 <= i < blockSize && 0 <= j < blockSize
    ensures BlockCellOnBoard(n, blockSize, row, col, i, j)
    ensures BlockIndex(n, blockSize, (row / blockSize) * blockSize + i, (col / blockSize) * blockSize + j)
         == BlockIndex(n, blockSize, row, col)
  {
    BlockCell(n, blockSize, row, col, i, j);
    SameBlock(n, blockSize, row, col, (row / blockSize) * blockSize + i, (col / blockSize) * blockSize + j);
  }

  /** A cell with the block index of (row, col) is found by scanning that block, at offset (r % bs, c % bs). */
  lemma BlockMemberScanned(n: int, blockSize: int, row: int, col: int, r: int, c: int)
    requires Geometry(n, blockSize) && OnBoard(n, row, col) && OnBoard(n, r, c)
    requires BlockIndex(n, blockSize, r, c) == BlockIndex(n, blockSize, row, col)
    ensures 0 <= r % blockSize < blockSize && 0 <= c % blockSize < blockSize
    ensures (row / blockSize) * blockSize + r % blockSize == r
    ensures (col / blockSize) * blockSize + c % blockSize == c
  {
    SameBlock(n, blockSize, row, col, r, c);
    DivModSplit(r, blockSize);
    DivModSplit(c, blockSize);
  }

  /** Scanning the block of (row, col) finds value exactly when some cell with the same block index holds it. */
  lemma InBlockByIndex(n: int, blockSize: int, board: seq<int>, row: int, col: int, value: int)
    requires Shaped(n, blockSize, board) && OnBoard(n, row, col)
    ensures InBlock(n, blockSize, board, row, col, value)
        <==> InBlockAt(n, blockSize, board, BlockIndex(n, blockSize, row, col), value)
  {
    if InBlock(n, blockSize, board, row, col, value) {
      ScanHitHasIndex(n, blockSize, board, row, col, value);
    }
    if InBlockAt(n, blockSize, board, BlockIndex(n, blockSize, row, col), value) {
      IndexHitIsScanned(n, blockSize, board, row, col, value);
    }
  }

  lemma ScanHitHasIndex(n: int, blockSize: int, board: seq<int>, row: int, col: int, value: int)
    requires Shaped(n, blockSize, board) && OnBoard(n, row, col)
    requires InBlock(n, blockSize, board, row, col, value)
    ensures InBlockAt(n, blockSize, board, BlockIndex(n, blockSize, row, col), value)
  {
    var br, bc := (row / blockSize) * blockSize, (col / blockSize) * blockSize;
    var i, j :| 0 <= i < blockSize && 0 <= j < blockSize
      && BlockCellOnBoard(n, blockSize, row, col, i, j)
      && board[Index(n, br + i, bc + j)] == value;
    ScannedCellInBlock(n, blockSize, row, col, i, j);
    assert OnBoard(n, br + i, bc + j) && BlockIndex(n, blockSize, br + i, bc + j) == BlockIndex(n, blockSize, row, col);
  }

  lemma IndexHitIsScanned(n: int, blockSize: int, board: seq<int>, row: int, col: int, value: int)
    requires Shaped(n, blockSize, board) && OnBoard(n, row, col)
    requires InBlockAt(n, blockSize, board, BlockIndex(n, blockSize, row, col), value)
    ensures InBlock(n, blockSize, board, row, col, value)
  {
    var br, bc := (row / blockSize) * blockSize, (col / blockSize) * blockSize;
    var r, c :| OnBoard(n, r, c) && BlockIndex(n, blockSize, r, c) == BlockIndex(n, blockSize, row, col)
      && board[Index(n, r, c)] == value;
    BlockMemberScanned(n, blockSize, row, col, r, c);
    var i, j := r % blockSize, c % blockSize;
    ScannedCellInBlock(n, blockSize, row, col, i, j);
    assert board[Index(n, br + i, bc + j)] == value;
  }

  /**
   * With masks that agree with the board, canPlace gives the same answer as
   * isValid for every value 1..N.
   */
  lemma CanPlaceIsValid(n: int, blockSize: int, board: seq<int>, m: Masks, row: int, col: int, value: int)
    requires Consistent(n, blockSize, board, m) && OnBoard(n, row, col) && 1 <= value <= n
    ensures m.CanPlace(n, blockSize, row, col, value) == IsValid(n, blockSize, board, row, col, value)
  {
    InBlockByIndex(n, blockSize, board, row, col, value);
  }

  /** Writing value into an empty cell adds exactly that value to the cell's row, column and block. */
  lemma PlaceChangesLines(n: int, blockSize: int, board: seq<int>, row: int, col: int, value: int, w: int)
    requires Shaped(n, blockSize, board) && OnBoard(n, row, col) && board[Index(n, row, col)] == 0 && w != 0
    ensures var b := board[Index(n, row, col) := value];
      && (forall r :: 0 <= r < n ==> (InRow(n, b, r, w) <==> InRow(n, board, r, w) || (r == row && w == value)))
      && (forall c :: 0 <= c < n ==> (InCol(n, b, c, w) <==> InCol(n, board, c, w) || (c == col && w == value)))
      && (forall k :: 0 <= k < n ==>
            (InBlockAt(n, blockSize, b, k, w)
             <==> (InBlockAt(n, blockSize, board, k, w) || (k == BlockIndex(n, blockSize, row, col) && w == value))))
  {
    var b := board[Index(n, row, col) := value];
    forall r | 0 <= r < n
      ensures InRow(n, b, r, w) <==> InRow(n, board, r, w) || (r == row && w == value)
    {
      if InRow(n, b, r, w) {
        var c :| 0 <= c < n && b[Index(n, r, c)] == w;
        if !(r == row && c == col) {
          IndexInjective(n, r, c, row, col);
        }
      }
      if InRow(n, board, r, w) {
        var c :| 0 <= c < n && board[Index(n, r, c)] == w;
        IndexInjective(n, r, c, row, col);
      }
      if r == row && w == value {
        assert b[Index(n, row, col)] == w;
      }
    }
    forall c | 0 <= c < n
      ensures InCol(n, b, c, w) <==> InCol(n, board, c, w) || (c == col && w == value)
    {
      if InCol(n, b, c, w) {
        var r :| 0 <= r < n && b[Index(n, r, c)] == w;
        if !(r == row && c == col) {
          IndexInjective(n, r, c, row, col);
        }
      }
      if InCol(n, board, c, w) {
        var r :| 0 <= r < n && board[Index(n, r, c)] == w;
        IndexInjective(n, r, c, row, col);
      }
      if c == col && w == value {
        assert b[Index(n, row, col)] == w;
      }
    }
    forall k | 0 <= k < n
      ensures InBlockAt(n, blockSize, b, k, w)
          <==> InBlockAt(n, blockSize, board, k, w) || (k == BlockIndex(n, blockSize, row, col) && w == value)
    {
      if InBlockAt(n, blockSize, b, k, w) {
        var r, c :| OnBoard(n, r, c) && BlockIndex(n, blockSize, r, c) == k && b[Index(n, r, c)] == w;
        if !(r == row && c == col) {
          IndexInjective(n, r, c, row, col);
        }
      }
      if InBlockAt(n, blockSize, board, k, w) {
        var r, c :| OnBoard(n, r, c) && BlockIndex(n, blockSize, r, c) == k && board[Index(n, r, c)] == w;
        IndexInjective(n, r, c, row, col);
      }
      if k == BlockIndex(n, blockSize, row, col) && w == value {
        assert b[Index(n, row, col)] == w;
      }
    }
  }

  /** Placing a value in an empty cell and setting its bits keeps board and masks in agreement. */
  lemma PlaceKeepsConsistent(n: int, blockSize: int, board: seq<int>, m: Masks, row: int, col: int, value: int)
    requires Consistent(n, blockSize, board, m) && OnBoard(n, row, col) && board[Index(n, row, col)] == 0
    ensures Consistent(n, blockSize, board[Index(n, row, col) := value], m.Set(n, blockSize, row, col, value))
  {
    var b, m' := board[Index(n, row, col) := value], m.Set(n, blockSize, row, col, value);
    SetRecords(m, n, blockSize, row, col, value);
    forall r, v | 0 <= r < n
      ensures v in m'.rowMask[r] <==> InMaskRange(v) && InRow(n, b, r, v)
    {
      if v != 0 { PlaceChangesLines(n, blockSize, board, row, col, value, v); }
    }
    forall c, v | 0 <= c < n
      ensures v in m'.colMask[c] <==> InMaskRange(v) && InCol(n, b, c, v)
    {
      if v != 0 { PlaceChangesLines(n, blockSize, board, row, col, value, v); }
    }
    forall k, v | 0 <= k < n
      ensures v in m'.blockMask[k] <==> InMaskRange(v) && InBlockAt(n, blockSize, b, k, v)
    {
      if v != 0 { PlaceChangesLines(n, blockSize, board, row, col, value, v); }
    }
  }

  /**
   * The block scan of (row, col) has passed offset (i, j) in row-major order
   * without meeting value.
   */
  ghost predicate ClearBefore(n: int, blockSize: int, board: seq<int>, row: int, col: int, value: int, i: int, j: int)
    requires Shaped(n, blockSize, board) && OnBoard(n, row, col)
  {
    forall i', j' :: 0 <= i' < blockSize && 0 <= j' < blockSize && (i' < i || (i' == i && j' < j))
      && BlockCellOnBoard(n, blockSize, row, col, i', j')
      ==> board[Index(n, (row / blockSize) * blockSize + i', (col / blockSize) * blockSize + j')] != value
  }

  lemma ClearStep(n: int, blockSize: int, board: seq<int>, row: int, col: int, value: int, i: int, j: int)
    requires Shaped(n, blockSize, board) && OnBoard(n, row, col) && 0 <= i < blockSize && 0 <= j < blockSize
    requires ClearBefore(n, blockSize, board, row, col, value, i, j)
    requires BlockCellOnBoard(n, blockSize, row, col, i, j)
    requires board[Index(n, (row / blockSize) * blockSize + i, (col / blockSize) * blockSize + j)] != value
    ensures ClearBefore(n, blockSize, board, row, col, value, i, j + 1)
  {
  }

  lemma ClearRow(n: int, blockSize: int, board: seq<int>, row: int, col: int, value: int, i: int)
    requires Shaped(n, blockSize, board) && OnBoard(n, row, col)
    requires ClearBefore(n, blockSize, board, row, col, value, i, blockSize)
    ensures ClearBefore(n, blockSize, board, row, col, value, i + 1, 0)
  {
  }

  /** A scan that passed the whole block without meeting value shows value is not in the block. */
  lemma ClearAll(n: int, blockSize: int, board: seq<int>, row: int, col: int, value: int)
    requires Shaped(n, blockSize, board) && OnBoard(n, row, col)
    requires ClearBefore(n, blockSize, board, row, col, value, blockSize, 0)
    ensures !InBlock(n, blockSize, board, row, col, value)
  {
  }
}
