/**
 * The SudokuSolver object: the board it was loaded with, the solution count
 * of the last solve, and the scanning, copying and bitmask counters that the
 * three solve entry points use. Every counter is proved to return the count
 * of the search specification in Counting, and every entry point to store
 * the count from position 0 of the loaded board.
 */
module Solver {
  import opened Cells
  import opened BitMask
  import opened Grid
  import opened Counting
  import opened Partition

  class SudokuSolver {
    const N: int
    const blockSize: int
    var board: seq<int>
    var numSolutions: nat

    /** The board always holds N*N cells for a square geometry. */
    ghost predicate Valid()
      reads this
    {
      Shaped(N, blockSize, board)
    }

    /** SudokuSolver(N): an empty N x N board and no solutions counted yet. */
    constructor (n: int, blockSize: int)
      requires Geometry(n, blockSize)
      ensures Valid() && N == n && this.blockSize == blockSize
      ensures board == seq(n * n, _ => 0) && numSolutions == 0
    {
      N := n;
      this.blockSize := blockSize;
      board := seq(n * n, _ => 0);
      numSolutions := 0;
    }

    /** loadBoard: a board of the wrong length is refused and the old board kept. */
    method LoadBoard(boardData: seq<int>)
      requires Valid()
      modifies this
      ensures Valid()
      ensures board == if |boardData| == N * N then boardData else old(board)
      ensures numSolutions == old(numSolutions)
    {
      if |boardData| != N * N {
        return;
      }
      board := boardData;
    }

    /** isInRow: scans the row and reports whether some cell holds value. */
    method IsInRow(row: int, value: int) returns (found: bool)
      requires Valid() && 0 <= row < N
      ensures found == InRow(N, board, row, value)
    {
      for col := 0 to N
        invariant forall c :: 0 <= c < col ==> board[Index(N, row, c)] != value
      {
        if board[Index(N, row, col)] == value {
          return true;
        }
      }
      return false;
    }

    /** isInCol: scans the column and reports whether some cell holds value. */
    method IsInCol(col: int, value: int) returns (found: bool)
      requires Valid() && 0 <= col < N
      ensures found == InCol(N, board, col, value)
    {
      for row := 0 to N
        invariant forall r :: 0 <= r < row ==> board[Index(N, r, col)] != value
      {
        if board[Index(N, row, col)] == value {
          return true;
        }
      }
      return false;
    }

    /** isInBlock: scans the block of (row, col) and reports whether some cell holds value. */
    method IsInBlock(row: int, col: int, value: int) returns (found: bool)
      requires Valid() && OnBoard(N, row, col)
      ensures found == InBlock(N, blockSize, board, row, col, value)
    {
      found := ScanBlock(board, row, col, value);
    }

    /** isValid: value is in neither the row, the column nor the block. */
    method IsValid(row: int, col: int, value: int) returns (ok: bool)
      requires Valid() && OnBoard(N, row, col)
      ensures ok == Grid.IsValid(N, blockSize, board, row, col, value)
    {
      var inRow := IsInRow(row, value);
      if inRow {
        return false;
      }
      var inCol := IsInCol(col, value);
      if inCol {
        return false;
      }
      var inBlock := IsInBlock(row, col, value);
      return !inBlock;
    }

    /** isValidWithBoard: the same three scans, on a board passed in rather than the solver's own. */
    method IsValidWithBoard(boardRef: seq<int>, row: int, col: int, value: int) returns (ok: bool)
      requires Shaped(N, blockSize, boardRef) && OnBoard(N, row, col)
      ensures ok == Grid.IsValid(N, blockSize, boardRef, row, col, value)
    {
      for c := 0 to N
        invariant forall c' :: 0 <= c' < c ==> boardRef[Index(N, row, c')] != value
      {
        if boardRef[Index(N, row, c)] == value {
          return false;
        }
      }
      assert !InRow(N, boardRef, row, value);
      for r := 0 to N
        invariant forall r' :: 0 <= r' < r ==> boardRef[Index(N, r', col)] != value
      {
        if boardRef[Index(N, r, col)] == value {
          return false;
        }
      }
      assert !InCol(N, boardRef, col, value);
      var inBlock := ScanBlock(boardRef, row, col, value);
      return !inBlock;
    }

    /** The nested scan over the blockSize x blockSize block that holds (row, col). */
    method ScanBlock(b: seq<int>, row: int, col: int, value: int) returns (found: bool)
      requires Shaped(N, blockSize, b) && OnBoard(N, row, col)
      ensures found == InBlock(N, blockSize, b, row, col, value)
    {
      var blockRow := (row / blockSize) * blockSize;
      var blockCol := (col / blockSize) * blockSize;
      for r := blockRow to blockRow + blockSize
        invariant ClearBefore(N, blockSize, b, row, col, value, r - blockRow, 0)
      {
        for c := blockCol to blockCol + blockSize
          invariant ClearBefore(N, blockSize, b, row, col, value, r - blockRow, c - blockCol)
        {
          BlockCell(N, blockSize, row, col, r - blockRow, c - blockCol);
          if b[Index(N, r, c)] == value {
            return true;
          }
          ClearStep(N, blockSize, b, row, col, value, r - blockRow, c - blockCol);
        }
        ClearRow(N, blockSize, b, row, col, value, r - blockRow);
      }
      ClearAll(N, blockSize, b, row, col, value);
      return false;
    }

    /**
     * findNextEmptyCell: the first empty cell in row-major order, which is
     * the cell the scan from position 0 stops at. row and col are the
     * caller's reference parameters: when there is no empty cell row is left
     * at N, and col at N too unless the board is 0x0, where the inner loop
     * never runs and col keeps the caller's value col0.
     */
    method FindNextEmptyCell(col0: int) returns (found: bool, row: int, col: int)
      requires Valid()
      ensures found ==> FirstEmpty(N, board, row, col) && Index(N, row, col) == NextEmpty(board, 0)
      ensures !found ==> row == N && col == (if N == 0 then col0 else N) && FilledBefore(board, N * N)
    {
      row, col := 0, col0;
      while row < N
        invariant 0 <= row <= N && col == (if row == 0 then col0 else N)
        invariant 0 <= row * N <= N * N && FilledBefore(board, row * N)
      {
        RowStart(N, row);
        col := 0;
        while col < N
          invariant 0 <= col <= N
          invariant row * N + col <= N * N && FilledBefore(board, row * N + col)
        {
          if board[Index(N, row, col)] == 0 {
            NextEmptyIsFirstZero(board, 0, Index(N, row, col));
            return true, row, col;
          }
          col := col + 1;
        }
        row := row + 1;
      }
      return false, row, col;
    }

    /** getPossibleValues: exactly the values 1..N that isValid admits at (row, col). */
    method GetPossibleValues(row: int, col: int) returns (possibleValues: set<int>)
      requires Valid() && OnBoard(N, row, col)
      ensures forall v :: v in possibleValues <==> 1 <= v <= N && Grid.IsValid(N, blockSize, board, row, col, v)
    {
      possibleValues := {};
      for value := 1 to N + 1
        invariant forall v :: v in possibleValues <==> 1 <= v < value && Grid.IsValid(N, blockSize, board, row, col, v)
      {
        var ok := IsValid(row, col, value);
        if ok {
          possibleValues := possibleValues + {value};
        }
      }
    }

    /**
     * backtrackSingleThread: counts the completions of the solver's own board
     * from pos, writing each admissible value in place and clearing it again,
     * so the board is as before when it returns.
     */
    method BacktrackSingleThread(pos: int) returns (count: nat)
      requires Valid() && 0 <= pos <= N * N
      modifies this
      ensures board == old(board) && numSolutions == old(numSolutions)
      ensures count == Count(N, blockSize, board, pos)
      decreases N * N - pos
    {
      if pos == N * N {
        return 1;
      }
      IndexOfDivMod(N, pos);
      var row, col := pos / N, pos % N;
      if board[Index(N, row, col)] != 0 {
        count := BacktrackSingleThread(pos + 1);
        return;
      }
      count := 0;
      for value := 1 to N + 1
        invariant board == old(board) && numSolutions == old(numSolutions)
        invariant count + Branches(N, blockSize, board, pos, value) == Branches(N, blockSize, board, pos, 1)
      {
        var ok := IsValid(row, col, value);
        if ok {
          board := board[Index(N, row, col) := value];
          var sub := BacktrackSingleThread(pos + 1);
          board := board[Index(N, row, col) := 0];
          assert board == old(board);
          count := count + sub;
        }
      }
    }

    /**
     * solveFromState: counts the completions of boardRef from pos, giving
     * every admissible value its own copy of the board.
     */
    method SolveFromState(boardRef: seq<int>, pos: int) returns (count: nat)
      requires Shaped(N, blockSize, boardRef) && 0 <= pos <= N * N
      ensures count == Count(N, blockSize, boardRef, pos)
      decreases N * N - pos
    {
      if pos == N * N {
        return 1;
      }
      IndexOfDivMod(N, pos);
      var row, col := pos / N, pos % N;
      if boardRef[Index(N, row, col)] != 0 {
        count := SolveFromState(boardRef, pos + 1);
        return;
      }
      count := 0;
      for value := 1 to N + 1
        invariant count + Branches(N, blockSize, boardRef, pos, value) == Branches(N, blockSize, boardRef, pos, 1)
      {
        var ok := IsValidWithBoard(boardRef, row, col, value);
        if ok {
          var boardCopy := boardRef[Index(N, row, col) := value];
          var sub := SolveFromState(boardCopy, pos + 1);
          count := count + sub;
        }
      }
    }

    /**
     * backtrackWithBitmask: the same search with the masks deciding which
     * values fit. Given masks that agree with the board it counts exactly
     * what the scanning search counts, and it leaves board and masks as it
     * found them.
     */
    method BacktrackWithBitmask(boardRef: array<int>, state: BitMaskState, pos: int) returns (count: nat)
      requires Consistent(N, blockSize, boardRef[..], state.Value()) && 0 <= pos <= N * N
      modifies boardRef, state
      ensures boardRef[..] == old(boardRef[..]) && state.Value() == old(state.Value())
      ensures count == Count(N, blockSize, boardRef[..], pos)
      decreases N * N - pos
    {
      if pos == N * N {
        return 1;
      }
      IndexOfDivMod(N, pos);
      var row, col := pos / N, pos % N;
      if boardRef[Index(N, row, col)] != 0 {
        count := BacktrackWithBitmask(boardRef, state, pos + 1);
        return;
      }
      ghost var b, m := boardRef[..], state.Value();
      count := 0;
      for value := 1 to N + 1
        invariant boardRef[..] == b && state.Value() == m
        invariant count + Branches(N, blockSize, b, pos, value) == Branches(N, blockSize, b, pos, 1)
      {
        TryValue(N, blockSize, b, m, pos, value);
        var ok := state.CanPlace(N, blockSize, row, col, value);
        if ok {
          boardRef[pos] := value;
          state.Set(N, blockSize, row, col, value);
          assert boardRef[..] == b[pos := value];
          var sub := BacktrackWithBitmask(boardRef, state, pos + 1);
          assert sub == Count(N, blockSize, b[pos := value], pos + 1);
          boardRef[pos] := 0;
          state.Unset(N, blockSize, row, col, value);
          assert boardRef[..] == b[pos := value][pos := 0];
          count := count + sub;
        }
      }
    }

    /** solveSubproblem: runs the bitmask search on private copies of the subproblem's board and masks. */
    method SolveSubproblem(subproblem: Subproblem) returns (count: nat)
      requires WellFormed(N, blockSize, subproblem)
      requires Consistent(N, blockSize, subproblem.board, subproblem.state)
      ensures count == Count(N, blockSize, subproblem.board, subproblem.startPos)
    {
      var boardCopy := new int[|subproblem.board|](i requires 0 <= i < |subproblem.board| => subproblem.board[i]);
      assert boardCopy[..] == subproblem.board;
      var stateCopy := new BitMaskState.Copy(subproblem.state);
      count := BacktrackWithBitmask(boardCopy, stateCopy, subproblem.startPos);
    }

    /**
     * generateSubproblemsRecursive: appends to results the subproblems that
     * Generated describes for current.
     */
    method GenerateSubproblemsRecursive(current: Subproblem, depth: int, maxDepth: int, results: seq<Subproblem>)
      returns (out: seq<Subproblem>)
      requires WellFormed(N, blockSize, current)
      ensures out == results + Generated(N, blockSize, current, depth, maxDepth)
      decreases N * N - current.startPos
    {
      if depth == maxDepth {
        return results + [current];
      }
      var pos := current.startPos;
      while pos < N * N && current.board[pos] != 0
        invariant current.startPos <= pos <= N * N
        invariant NextEmpty(current.board, pos) == NextEmpty(current.board, current.startPos)
      {
        pos := pos + 1;
      }
      if pos >= N * N {
        return results + [current];
      }
      IndexOfDivMod(N, pos);
      var row, col := pos / N, pos % N;
      out := results;
      for value := 1 to N + 1
        invariant out + Expanded(N, blockSize, current, pos, depth, maxDepth, value)
               == results + Expanded(N, blockSize, current, pos, depth, maxDepth, 1)
      {
        ExpandedStep(N, blockSize, current, pos, depth, maxDepth, value);
        ghost var branch := Branch(N, blockSize, current, pos, depth, maxDepth, value);
        ghost var rest := Expanded(N, blockSize, current, pos, depth, maxDepth, value + 1);
        ghost var before := out;
        if current.state.CanPlace(N, blockSize, row, col, value) {
          var next := current.(board := current.board[pos := value],
                               state := current.state.Set(N, blockSize, row, col, value),
                               startPos := pos + 1);
          assert next == Child(N, blockSize, current, pos, value);
          out := GenerateSubproblemsRecursive(next, depth + 1, maxDepth, out);
        }
        assert out == before + branch;
        AppendAssociative(before, branch, rest);
      }
    }

    /**
     * generateSubproblems: seeds the masks from every clue of the board in
     * row-major order, then generates from the whole board at position 0.
     */
    method GenerateSubproblems(partitionDepth: int, subproblems: seq<Subproblem>) returns (out: seq<Subproblem>)
      requires Valid()
      ensures out == subproblems + Generated(N, blockSize, Initial(N, blockSize, board), 0, partitionDepth)
    {
      var state := new BitMaskState(N);
      for row := 0 to N
        invariant 0 <= row * N <= N * N
        invariant state.Value() == Seed(N, blockSize, board, row * N)
      {
        RowStart(N, row);
        ghost var k := row * N;
        for col := 0 to N
          invariant k == row * N + col <= N * N
          invariant state.Value() == Seed(N, blockSize, board, k)
        {
          var value := board[Index(N, row, col)];
          SeedStep(N, blockSize, board, row, col);
          if value != 0 {
            state.Set(N, blockSize, row, col, value);
          }
          k := k + 1;
        }
      }
      var initial := Subproblem(board, state.Value(), 0);
      out := GenerateSubproblemsRecursive(initial, 0, partitionDepth, subproblems);
    }

    /** solveSingleThread: the count of the loaded board from position 0. */
    method SolveSingleThread()
      requires Valid()
      modifies this
      ensures Valid() && board == old(board)
      ensures numSolutions == Count(N, blockSize, board, 0)
    {
      numSolutions := BacktrackSingleThread(0);
    }

    /**
     * solveParallel: splits the search at the first empty cell, one branch
     * per admissible value in increasing order, and adds the branch counts;
     * a board with no empty cell has exactly one solution.
     */
    method SolveParallel(numThreads: int)
      requires Valid()
      modifies this
      ensures Valid() && board == old(board)
      ensures numSolutions == Count(N, blockSize, board, 0)
    {
      var firstRow, firstCol := -1, -1;
      var foundEmpty := false;
      var row := 0;
      while row < N && !foundEmpty
        invariant 0 <= row <= N && board == old(board)
        invariant foundEmpty ==> FirstEmpty(N, board, firstRow, firstCol)
        invariant !foundEmpty ==> 0 <= row * N <= N * N && FilledBefore(board, row * N)
      {
        RowStart(N, row);
        var col := 0;
        while col < N && !foundEmpty
          invariant 0 <= col <= N && board == old(board)
          invariant foundEmpty ==> FirstEmpty(N, board, firstRow, firstCol)
          invariant !foundEmpty ==> row * N + col <= N * N && FilledBefore(board, row * N + col)
        {
          if board[Index(N, row, col)] == 0 {
            firstRow, firstCol := row, col;
            foundEmpty := true;
          }
          col := col + 1;
        }
        row := row + 1;
      }

      if !foundEmpty {
        CountOfFullBoard(N, blockSize, board, 0);
        numSolutions := 1;
        return;
      }

      var possibleValues := GetPossibleValues(firstRow, firstCol);
      var valuesList := SortedElements(possibleValues, 1, N);
      var first := Index(N, firstRow, firstCol);

      var totalSolutions: nat := 0;
      for i := 0 to |valuesList|
        invariant board == old(board)
        invariant totalSolutions == SumOverValues(N, blockSize, board, first, valuesList[..i])
      {
        var value := valuesList[i];
        var boardCopy := board[first := value];
        var solutions := SolveFromState(boardCopy, first + 1);
        SumOverValuesPrefix(N, blockSize, board, first, valuesList, i);
        totalSolutions := totalSolutions + solutions;
      }
      assert valuesList[..|valuesList|] == valuesList;
      SplitAtFirstEmpty(N, blockSize, board, firstRow, firstCol, possibleValues);
      numSolutions := totalSolutions;
    }

    /**
     * solveParallelOptimized: generates the subproblems for the partition
     * depth and adds their counts; no subproblem at all means no solution.
     */
    method SolveParallelOptimized(numThreads: int, partitionDepth: int)
      requires Valid()
      modifies this
      ensures Valid() && board == old(board)
      ensures numSolutions == Count(N, blockSize, board, 0)
    {
      var subproblems := GenerateSubproblems(partitionDepth, []);
      PartitionKeepsCount(N, blockSize, board, partitionDepth);
      assert [] + Generated(N, blockSize, Initial(N, blockSize, board), 0, partitionDepth) == subproblems;

      if |subproblems| == 0 {
        numSolutions := 0;
        return;
      }

      var totalSolutions: nat := 0;
      for i := 0 to |subproblems|
        invariant board == old(board)
        invariant totalSolutions == SumCounts(N, blockSize, subproblems[..i])
      {
        var solutions := SolveSubproblem(subproblems[i]);
        SumCountsPrefix(N, blockSize, subproblems, i);
        totalSolutions := totalSolutions + solutions;
      }
      assert subproblems[..|subproblems|] == subproblems;
      numSolutions := totalSolutions;
    }
  }

  /**
   * Splitting at the first empty cell: the count from position 0 is the sum,
   * over the admissible values of that cell in increasing order, of the
   * counts after writing each of them.
   */
  lemma SplitAtFirstEmpty(n: int, blockSize: int, board: seq<int>, row: int, col: int, values: set<int>)
    requires Shaped(n, blockSize, board) && FirstEmpty(n, board, row, col)
    requires forall v :: v in values <==> 1 <= v <= n && Grid.IsValid(n, blockSize, board, row, col, v)
    ensures Count(n, blockSize, board, 0)
         == SumOverValues(n, blockSize, board, Index(n, row, col), SortedElements(values, 1, n))
  {
    var first := Index(n, row, col);
    IndexOfDivMod(n, first);
    assert values == Admissible(n, blockSize, board, first);
    SumOverAdmissible(n, blockSize, board, first, 1);
    CountSkipsFilled(n, blockSize, board, 0, first);
  }

  /**
   * One value tried at the empty cell pos: the masks accept it exactly when
   * isValid does, placing it keeps board and masks in agreement, and undoing
   * the placement restores both.
   */
  lemma TryValue(n: int, blockSize: int, b: seq<int>, m: Masks, pos: int, value: int)
    requires Consistent(n, blockSize, b, m) && 0 <= pos < n * n && b[pos] == 0 && 1 <= value <= n
    ensures OnBoard(n, pos / n, pos % n) && Index(n, pos / n, pos % n) == pos
    ensures var ok := m.CanPlace(n, blockSize, pos / n, pos % n, value);
      Branches(n, blockSize, b, pos, value)
        == (if ok then Count(n, blockSize, b[pos := value], pos + 1) else 0) + Branches(n, blockSize, b, pos, value + 1)
    ensures m.CanPlace(n, blockSize, pos / n, pos % n, value) ==>
      && Consistent(n, blockSize, b[pos := value], m.Set(n, blockSize, pos / n, pos % n, value))
      && m.Set(n, blockSize, pos / n, pos % n, value).Unset(n, blockSize, pos / n, pos % n, value) == m
      && b[pos := value][pos := 0] == b
  {
    IndexOfDivMod(n, pos);
    var row, col := pos / n, pos % n;
    CanPlaceIsValid(n, blockSize, b, m, row, col, value);
    if m.CanPlace(n, blockSize, row, col, value) {
      PlaceKeepsConsistent(n, blockSize, b, m, row, col, value);
      SetUnsetRoundTrip(m, n, blockSize, row, col, value);
      UpdateRestored(b, pos, value);
    }
  }

  /** Writing a value into an empty cell and clearing it again gives back the board. */
  lemma UpdateRestored(b: seq<int>, pos: int, value: int)
    requires 0 <= pos < |b| && b[pos] == 0
    ensures b[pos := value][pos := 0] == b
  {
  }
}
