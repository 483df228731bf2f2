/**
 * Subproblem generation: the search tree is expanded over the first K empty
 * cells in scan order and every still-open partial assignment becomes an
 * independent subproblem. This module states which list of subproblems the
 * generator produces and proves that solving them all counts exactly what
 * the single sequential search counts.
 */
module Partition {
  import opened Cells
  import opened BitMask
  import opened Grid
  import opened Counting

  /** A snapshot handed to one worker: its own board, its own masks, and where its search resumes. */
  datatype Subproblem = Subproblem(board: seq<int>, state: Masks, startPos: int)

  /** A subproblem the sequential search can start from. */
  predicate WellFormed(n: int, blockSize: int, sp: Subproblem)
  {
    Shaped(n, blockSize, sp.board) && sp.state.Sized(n) && 0 <= sp.startPos <= n * n
  }

  /** The scan for the next empty cell: the first position at or after pos holding 0, or |board|. */
  function NextEmpty(board: seq<int>, pos: int): (p: int)
    requires 0 <= pos <= |board|
    ensures pos <= p <= |board|
    ensures forall i :: pos <= i < p ==> board[i] != 0
    ensures p < |board| ==> board[p] == 0
    decreases |board| - pos
  {
    if pos == |board| || board[pos] == 0 then pos else NextEmpty(board, pos + 1)
  }

  /** The scan's stopping point is the first zero: a zero at p after a run of nonzero cells is where NextEmpty lands. */
  lemma {:induction false} NextEmptyIsFirstZero(board: seq<int>, from: int, p: int)
    requires 0 <= from <= p < |board| && board[p] == 0
    requires forall i :: from <= i < p ==> board[i] != 0
    ensures NextEmpty(board, from) == p
    decreases p - from
  {
    if from < p {
      NextEmptyIsFirstZero(board, from + 1, p);
    }
  }

  /** Every cell before flat position k is filled. */
  ghost predicate FilledBefore(board: seq<int>, k: int)
    requires 0 <= k <= |board|
  {
    forall i :: 0 <= i < k ==> board[i] != 0
  }

  /** (row, col) is the first empty cell of the board in row-major order. */
  ghost predicate FirstEmpty(n: int, board: seq<int>, row: int, col: int)
    requires |board| == n * n
  {
    && OnBoard(n, row, col)
    && board[Index(n, row, col)] == 0
    && FilledBefore(board, Index(n, row, col))
  }

  /**
   * sp is a descendant of cur in the search: it changes only cells that were
   * empty in cur, writing values 1..N into them, and every cell between the
   * two resume positions is filled.
   */
  ghost predicate Descends(n: int, blockSize: int, cur: Subproblem, sp: Subproblem)
    requires WellFormed(n, blockSize, cur)
  {
    && WellFormed(n, blockSize, sp)
    && cur.startPos <= sp.startPos
    && (forall i :: 0 <= i < |cur.board| && sp.board[i] != cur.board[i] ==> cur.board[i] == 0 && 1 <= sp.board[i] <= n)
    && (forall i :: cur.startPos <= i < sp.startPos ==> sp.board[i] != 0)
  }

  /**
   * The subproblems generateSubproblemsRecursive(cur, depth, maxDepth)
   * appends, in order: cur itself at depth maxDepth or when no empty cell is
   * left, and otherwise those of every child obtained by writing a value the
   * masks allow into the next empty cell. A dead end (no value fits)
   * contributes nothing.
   */
  ghost function Generated(n: int, blockSize: int, cur: Subproblem, depth: int, maxDepth: int): (r: seq<Subproblem>)
    requires WellFormed(n, blockSize, cur)
    ensures AllWellFormed(n, blockSize, r)
    decreases n * n - cur.startPos, n + 2
  {
    if depth == maxDepth then [cur]
    else
      var pos := NextEmpty(cur.board, cur.startPos);
      if pos >= n * n then [cur]
      else Expanded(n, blockSize, cur, pos, depth, maxDepth, 1)
  }

  /** The requirements on the empty cell pos that generation expands next from cur. */
  predicate ExpandsAt(n: int, blockSize: int, cur: Subproblem, pos: int)
  {
    && WellFormed(n, blockSize, cur) && cur.startPos <= pos < n * n
    && (forall i :: cur.startPos <= i < pos ==> cur.board[i] != 0)
    && cur.board[pos] == 0
  }

  /** The subproblems generated from the values value..N at the empty cell pos of cur. */
  ghost function Expanded(n: int, blockSize: int, cur: Subproblem, pos: int, depth: int, maxDepth: int, value: int)
    : (r: seq<Subproblem>)
    requires ExpandsAt(n, blockSize, cur, pos) && 1 <= value <= n + 1
    ensures AllWellFormed(n, blockSize, r)
    decreases n * n - cur.startPos, n + 1 - value
  {
    if value > n then []
    else Branch(n, blockSize, cur, pos, depth, maxDepth, value) + Expanded(n, blockSize, cur, pos, depth, maxDepth, value + 1)
  }

  /** Appending to a list of subproblems is associative. */
  lemma AppendAssociative(a: seq<Subproblem>, b: seq<Subproblem>, c: seq<Subproblem>)
    ensures (a + b) + c == a + (b + c)
  {
  }

  /** Expanded from value is Branch for value followed by Expanded from value + 1. */
  lemma ExpandedStep(n: int, blockSize: int, cur: Subproblem, pos: int, depth: int, maxDepth: int, value: int)
    requires ExpandsAt(n, blockSize, cur, pos) && 1 <= value <= n
    ensures OnBoard(n, pos / n, pos % n)
    ensures Expanded(n, blockSize, cur, pos, depth, maxDepth, value)
         == Branch(n, blockSize, cur, pos, depth, maxDepth, value) + Expanded(n, blockSize, cur, pos, depth, maxDepth, value + 1)
    ensures Branch(n, blockSize, cur, pos, depth, maxDepth, value)
         == if cur.state.CanPlace(n, blockSize, pos / n, pos % n, value)
            then Generated(n, blockSize, Child(n, blockSize, cur, pos, value), depth + 1, maxDepth) else []
  {
    IndexOfDivMod(n, pos);
  }

  /** The subproblems under value at pos: none if the masks refuse it, else those of the child. */
  ghost function Branch(n: int, blockSize: int, cur: Subproblem, pos: int, depth: int, maxDepth: int, value: int)
    : (r: seq<Subproblem>)
    requires ExpandsAt(n, blockSize, cur, pos) && 1 <= value <= n
    ensures AllWellFormed(n, blockSize, r)
    decreases n * n - cur.startPos, 0
  {
    IndexOfDivMod(n, pos);
    if cur.state.CanPlace(n, blockSize, pos / n, pos % n, value)
    then Generated(n, blockSize, Child(n, blockSize, cur, pos, value), depth + 1, maxDepth)
    else []
  }

  /** The copy of cur with value written at pos, its bits set, and the search resuming after pos. */
  function Child(n: int, blockSize: int, cur: Subproblem, pos: int, value: int): (next: Subproblem)
    requires WellFormed(n, blockSize, cur) && cur.startPos <= pos < n * n && 1 <= value <= n
    ensures WellFormed(n, blockSize, next)
  {
    IndexOfDivMod(n, pos);
    Subproblem(cur.board[pos := value], cur.state.Set(n, blockSize, pos / n, pos % n, value), pos + 1)
  }

  /** With partition depth 0 the generator hands back the subproblem it was given, alone. */
  lemma DepthZeroIsRoot(n: int, blockSize: int, cur: Subproblem)
    requires WellFormed(n, blockSize, cur)
    ensures Generated(n, blockSize, cur, 0, 0) == [cur]
  {
  }

  /** Every subproblem of sps descends from cur. */
  ghost predicate AllDescend(n: int, blockSize: int, cur: Subproblem, sps: seq<Subproblem>)
    requires WellFormed(n, blockSize, cur)
  {
    forall i :: 0 <= i < |sps| ==> Descends(n, blockSize, cur, sps[i])
  }

  /**
   * Every generated subproblem descends from the one it was generated from:
   * the clues and earlier choices are kept, only empty cells receive values
   * 1..N, and the resume position only moves forward over filled cells.
   */
  lemma {:induction false} GeneratedDescends(n: int, blockSize: int, cur: Subproblem, depth: int, maxDepth: int)
    requires WellFormed(n, blockSize, cur)
    ensures AllDescend(n, blockSize, cur, Generated(n, blockSize, cur, depth, maxDepth))
    decreases n * n - cur.startPos, n + 2
  {
    if depth != maxDepth {
      var pos := NextEmpty(cur.board, cur.startPos);
      if pos < n * n {
        ExpandedDescends(n, blockSize, cur, pos, depth, maxDepth, 1);
      }
    }
  }

  lemma {:induction false} ExpandedDescends(n: int, blockSize: int, cur: Subproblem, pos: int, depth: int, maxDepth: int,
                                            value: int)
    requires ExpandsAt(n, blockSize, cur, pos) && 1 <= value <= n + 1
    ensures AllDescend(n, blockSize, cur, Expanded(n, blockSize, cur, pos, depth, maxDepth, value))
    decreases n * n - cur.startPos, n + 1 - value
  {
    if value <= n {
      BranchDescends(n, blockSize, cur, pos, depth, maxDepth, value);
      ExpandedDescends(n, blockSize, cur, pos, depth, maxDepth, value + 1);
    }
  }

  lemma {:induction false} BranchDescends(n: int, blockSize: int, cur: Subproblem, pos: int, depth: int, maxDepth: int,
                                          value: int)
    requires ExpandsAt(n, blockSize, cur, pos) && 1 <= value <= n
    ensures AllDescend(n, blockSize, cur, Branch(n, blockSize, cur, pos, depth, maxDepth, value))
    decreases n * n - cur.startPos, 0
  {
    IndexOfDivMod(n, pos);
    if cur.state.CanPlace(n, blockSize, pos / n, pos % n, value) {
      var next := Child(n, blockSize, cur, pos, value);
      var sub := Generated(n, blockSize, next, depth + 1, maxDepth);
      GeneratedDescends(n, blockSize, next, depth + 1, maxDepth);
      forall i | 0 <= i < |sub| ensures Descends(n, blockSize, cur, sub[i]) {
        DescendsTrans(n, blockSize, cur, next, sub[i]);
      }
    }
  }

  /** Descent through a child: what descends from the child also descends from the parent. */
  lemma DescendsTrans(n: int, blockSize: int, cur: Subproblem, next: Subproblem, sp: Subproblem)
    requires WellFormed(n, blockSize, cur) && WellFormed(n, blockSize, next)
    requires Descends(n, blockSize, cur, next) && Descends(n, blockSize, next, sp)
    ensures Descends(n, blockSize, cur, sp)
  {
  }

  /** Every subproblem of sps is well formed. */
  ghost predicate AllWellFormed(n: int, blockSize: int, sps: seq<Subproblem>)
  {
    forall i :: 0 <= i < |sps| ==> WellFormed(n, blockSize, sps[i])
  }

  /** The total number of solutions found by solving every subproblem of sps from its resume position. */
  ghost function SumCounts(n: int, blockSize: int, sps: seq<Subproblem>): nat
    requires AllWellFormed(n, blockSize, sps)
  {
    if sps == [] then 0
    else
      assert WellFormed(n, blockSize, sps[0]);
      Count(n, blockSize, sps[0].board, sps[0].startPos) + SumCounts(n, blockSize, sps[1..])
  }

  lemma {:induction false} SumCountsAppend(n: int, blockSize: int, a: seq<Subproblem>, b: seq<Subproblem>)
    requires AllWellFormed(n, blockSize, a) && AllWellFormed(n, blockSize, b)
    ensures SumCounts(n, blockSize, a + b) == SumCounts(n, blockSize, a) + SumCounts(n, blockSize, b)
  {
    if a == [] {
      assert a + b == b;
    } else {
      assert (a + b)[1..] == a[1..] + b;
      SumCountsAppend(n, blockSize, a[1..], b);
    }
  }

  /** Extending the summed prefix of sps by one subproblem adds that subproblem's count. */
  lemma SumCountsPrefix(n: int, blockSize: int, sps: seq<Subproblem>, i: int)
    requires AllWellFormed(n, blockSize, sps)
    requires 0 <= i < |sps|
    ensures SumCounts(n, blockSize, sps[..i + 1])
         == SumCounts(n, blockSize, sps[..i]) + Count(n, blockSize, sps[i].board, sps[i].startPos)
  {
    assert sps[..i + 1] == sps[..i] + [sps[i]];
    SumCountsAppend(n, blockSize, sps[..i], [sps[i]]);
    assert [sps[i]][1..] == [];
  }

  /** Every subproblem of sps carries masks that agree with its board. */
  ghost predicate AllConsistent(n: int, blockSize: int, sps: seq<Subproblem>)
  {
    forall i :: 0 <= i < |sps| ==> Consistent(n, blockSize, sps[i].board, sps[i].state)
  }

  /** Subproblem generation hands every worker masks that agree with its board. */
  lemma {:induction false} GeneratedConsistent(n: int, blockSize: int, cur: Subproblem, depth: int, maxDepth: int)
    requires WellFormed(n, blockSize, cur) && Consistent(n, blockSize, cur.board, cur.state)
    ensures AllConsistent(n, blockSize, Generated(n, blockSize, cur, depth, maxDepth))
    decreases n * n - cur.startPos, n + 2
  {
    if depth != maxDepth {
      var pos := NextEmpty(cur.board, cur.startPos);
      if pos < n * n {
        ExpandedConsistent(n, blockSize, cur, pos, depth, maxDepth, 1);
      }
    }
  }

  lemma {:induction false} ExpandedConsistent(n: int, blockSize: int, cur: Subproblem, pos: int, depth: int, maxDepth: int,
                                              value: int)
    requires ExpandsAt(n, blockSize, cur, pos) && 1 <= value <= n + 1
    requires Consistent(n, blockSize, cur.board, cur.state)
    ensures AllConsistent(n, blockSize, Expanded(n, blockSize, cur, pos, depth, maxDepth, value))
    decreases n * n - cur.startPos, n + 1 - value
  {
    if value <= n {
      BranchConsistent(n, blockSize, cur, pos, depth, maxDepth, value);
      ExpandedConsistent(n, blockSize, cur, pos, depth, maxDepth, value + 1);
    }
  }

  lemma {:induction false} BranchConsistent(n: int, blockSize: int, cur: Subproblem, pos: int, depth: int, maxDepth: int,
                                            value: int)
    requires ExpandsAt(n, blockSize, cur, pos) && 1 <= value <= n
    requires Consistent(n, blockSize, cur.board, cur.state)
    ensures AllConsistent(n, blockSize, Branch(n, blockSize, cur, pos, depth, maxDepth, value))
    decreases n * n - cur.startPos, 0
  {
    IndexOfDivMod(n, pos);
    if cur.state.CanPlace(n, blockSize, pos / n, pos % n, value) {
      PlaceKeepsConsistent(n, blockSize, cur.board, cur.state, pos / n, pos % n, value);
      GeneratedConsistent(n, blockSize, Child(n, blockSize, cur, pos, value), depth + 1, maxDepth);
    }
  }

  /**
   * Splitting loses and repeats nothing: for a subproblem whose masks agree
   * with its board, the solutions of the generated subproblems add up to the
   * solutions of the subproblem itself, whatever the depths.
   */
  lemma {:induction false} GeneratedSum(n: int, blockSize: int, cur: Subproblem, depth: int, maxDepth: int)
    requires WellFormed(n, blockSize, cur) && Consistent(n, blockSize, cur.board, cur.state)
    ensures SumCounts(n, blockSize, Generated(n, blockSize, cur, depth, maxDepth))
         == Count(n, blockSize, cur.board, cur.startPos)
    decreases n * n - cur.startPos, n + 2
  {
    var r := Generated(n, blockSize, cur, depth, maxDepth);
    if depth == maxDepth {
      assert r[1..] == [];
    } else {
      var pos := NextEmpty(cur.board, cur.startPos);
      if pos >= n * n {
        assert r[1..] == [];
      } else {
        CountSkipsFilled(n, blockSize, cur.board, cur.startPos, pos);
        ExpandedSum(n, blockSize, cur, pos, depth, maxDepth, 1);
      }
    }
  }

  lemma {:induction false} ExpandedSum(n: int, blockSize: int, cur: Subproblem, pos: int, depth: int, maxDepth: int,
                                       value: int)
    requires ExpandsAt(n, blockSize, cur, pos) && 1 <= value <= n + 1
    requires Consistent(n, blockSize, cur.board, cur.state)
    ensures SumCounts(n, blockSize, Expanded(n, blockSize, cur, pos, depth, maxDepth, value))
         == Branches(n, blockSize, cur.board, pos, value)
    decreases n * n - cur.startPos, n + 2 - value
  {
    if value <= n {
      var here := SumCounts(n, blockSize, Expanded(n, blockSize, cur, pos, depth, maxDepth, value));
      var branch := SumCounts(n, blockSize, Branch(n, blockSize, cur, pos, depth, maxDepth, value));
      var rest := SumCounts(n, blockSize, Expanded(n, blockSize, cur, pos, depth, maxDepth, value + 1));
      assert here == branch + rest by {
        ExpandedSumStep(n, blockSize, cur, pos, depth, maxDepth, value);
      }
      assert rest == Branches(n, blockSize, cur.board, pos, value + 1) by {
        ExpandedSum(n, blockSize, cur, pos, depth, maxDepth, value + 1);
      }
      assert branch + Branches(n, blockSize, cur.board, pos, value + 1) == Branches(n, blockSize, cur.board, pos, value) by {
        BranchThenRest(n, blockSize, cur, pos, depth, maxDepth, value);
      }
    }
  }

  /** The subproblems under value, added to the search from value + 1, give the search from value. */
  lemma BranchThenRest(n: int, blockSize: int, cur: Subproblem, pos: int, depth: int, maxDepth: int, value: int)
    requires ExpandsAt(n, blockSize, cur, pos) && 1 <= value <= n
    requires Consistent(n, blockSize, cur.board, cur.state)
    ensures SumCounts(n, blockSize, Branch(n, blockSize, cur, pos, depth, maxDepth, value))
          + Branches(n, blockSize, cur.board, pos, value + 1)
         == Branches(n, blockSize, cur.board, pos, value)
    decreases n * n - cur.startPos, 1
  {
    BranchSum(n, blockSize, cur, pos, depth, maxDepth, value);
    BranchesStep(n, blockSize, cur.board, pos, value);
  }

  /** The subproblems for value..N sum to those for value plus those for value + 1..N. */
  lemma ExpandedSumStep(n: int, blockSize: int, cur: Subproblem, pos: int, depth: int, maxDepth: int, value: int)
    requires ExpandsAt(n, blockSize, cur, pos) && 1 <= value <= n
    ensures SumCounts(n, blockSize, Expanded(n, blockSize, cur, pos, depth, maxDepth, value))
         == SumCounts(n, blockSize, Branch(n, blockSize, cur, pos, depth, maxDepth, value))
          + SumCounts(n, blockSize, Expanded(n, blockSize, cur, pos, depth, maxDepth, value + 1))
  {
    SumCountsAppend(n, blockSize, Branch(n, blockSize, cur, pos, depth, maxDepth, value),
                    Expanded(n, blockSize, cur, pos, depth, maxDepth, value + 1));
  }

  /** The subproblems under one value at pos count what the search counts after writing that value. */
  lemma {:induction false} BranchSum(n: int, blockSize: int, cur: Subproblem, pos: int, depth: int, maxDepth: int,
                                     value: int)
    requires ExpandsAt(n, blockSize, cur, pos) && 1 <= value <= n
    requires Consistent(n, blockSize, cur.board, cur.state)
    ensures OnBoard(n, pos / n, pos % n)
    ensures SumCounts(n, blockSize, Branch(n, blockSize, cur, pos, depth, maxDepth, value))
         == if IsValid(n, blockSize, cur.board, pos / n, pos % n, value)
            then Count(n, blockSize, cur.board[pos := value], pos + 1) else 0
    decreases n * n - cur.startPos, 0
  {
    IndexOfDivMod(n, pos);
    var row, col := pos / n, pos % n;
    CanPlaceIsValid(n, blockSize, cur.board, cur.state, row, col, value);
    if cur.state.CanPlace(n, blockSize, row, col, value) {
      PlaceKeepsConsistent(n, blockSize, cur.board, cur.state, row, col, value);
      GeneratedSum(n, blockSize, Child(n, blockSize, cur, pos, value), depth + 1, maxDepth);
    }
  }

  /**
   * The masks generateSubproblems builds from the clues in the cells before
   * position k: every nonzero cell, in row-major order, passed to set.
   */
  function Seed(n: int, blockSize: int, board: seq<int>, k: int): (m: Masks)
    requires Shaped(n, blockSize, board) && 0 <= k <= n * n
    ensures m.Sized(n)
  {
    if k == 0 then Empty(n)
    else
      var prev := Seed(n, blockSize, board, k - 1);
      IndexOfDivMod(n, k - 1);
      if board[k - 1] != 0 then prev.Set(n, blockSize, (k - 1) / n, (k - 1) % n, board[k - 1]) else prev
  }

  /** One more clue seeded: the masks up to and including cell (row, col) are those before it with that cell set. */
  lemma SeedStep(n: int, blockSize: int, board: seq<int>, row: int, col: int)
    requires Shaped(n, blockSize, board) && OnBoard(n, row, col)
    ensures var k := Index(n, row, col);
      Seed(n, blockSize, board, k + 1)
        == if board[k] != 0 then Seed(n, blockSize, board, k).Set(n, blockSize, row, col, board[k])
           else Seed(n, blockSize, board, k)
  {
    IndexOfDivMod(n, Index(n, row, col));
  }


  /** The board with only its first k cells kept and the rest emptied. */
  function Prefix(board: seq<int>, k: int): (b: seq<int>)
    ensures |b| == |board|
    ensures forall i :: 0 <= i < |board| ==> b[i] == if i < k then board[i] else 0
  {
    seq(|board|, i requires 0 <= i < |board| => if i < k then board[i] else 0)
  }

  /** The masks seeded from the first k cells agree with the board holding just those cells. */
  lemma {:induction false} SeedConsistent(n: int, blockSize: int, board: seq<int>, k: int)
    requires Shaped(n, blockSize, board) && 0 <= k <= n * n
    ensures Consistent(n, blockSize, Prefix(board, k), Seed(n, blockSize, board, k))
  {
    var b := Prefix(board, k);
    if k == 0 {
      assert forall i :: 0 <= i < n * n ==> b[i] == 0;
    } else {
      SeedConsistent(n, blockSize, board, k - 1);
      var prev := Prefix(board, k - 1);
      IndexOfDivMod(n, k - 1);
      if board[k - 1] != 0 {
        assert b == prev[k - 1 := board[k - 1]];
        PlaceKeepsConsistent(n, blockSize, prev, Seed(n, blockSize, board, k - 1), (k - 1) / n, (k - 1) % n, board[k - 1]);
      } else {
        assert b == prev;
      }
    }
  }

  /** The subproblem generateSubproblems starts from: the board, its seeded masks, position 0. */
  function Initial(n: int, blockSize: int, board: seq<int>): (sp: Subproblem)
    requires Shaped(n, blockSize, board)
    ensures WellFormed(n, blockSize, sp) && sp.board == board && sp.startPos == 0
  {
    Subproblem(board, Seed(n, blockSize, board, n * n), 0)
  }

  /** The seeded masks of the initial subproblem agree with the whole board. */
  lemma InitialConsistent(n: int, blockSize: int, board: seq<int>)
    requires Shaped(n, blockSize, board)
    ensures Consistent(n, blockSize, board, Initial(n, blockSize, board).state)
  {
    SeedConsistent(n, blockSize, board, n * n);
    assert Prefix(board, n * n) == board;
  }

  /**
   * The subproblems of generateSubproblems(K) account for every solution
   * exactly once: their counts add up to the single-threaded count, for
   * every partition depth.
   */
  lemma PartitionKeepsCount(n: int, blockSize: int, board: seq<int>, maxDepth: int)
    requires Shaped(n, blockSize, board)
    ensures var sps := Generated(n, blockSize, Initial(n, blockSize, board), 0, maxDepth);
      && AllConsistent(n, blockSize, sps)
      && SumCounts(n, blockSize, sps) == Count(n, blockSize, board, 0)
  {
    InitialConsistent(n, blockSize, board);
    GeneratedConsistent(n, blockSize, Initial(n, blockSize, board), 0, maxDepth);
    GeneratedSum(n, blockSize, Initial(n, blockSize, board), 0, maxDepth);
  }

  /**
   * What every subproblem handed to a worker looks like: it keeps every
   * clue of the board, writes only values 1..N and only into empty cells,
   * has no empty cell before its resume position, and carries masks that
   * agree with its own board.
   */
  lemma GeneratedFromRoot(n: int, blockSize: int, board: seq<int>, maxDepth: int)
    requires Shaped(n, blockSize, board)
    ensures var sps := Generated(n, blockSize, Initial(n, blockSize, board), 0, maxDepth);
      forall k :: 0 <= k < |sps| ==>
        && WellFormed(n, blockSize, sps[k])
        && (forall i :: 0 <= i < n * n && board[i] != 0 ==> sps[k].board[i] == board[i])
        && (forall i :: 0 <= i < n * n && sps[k].board[i] != board[i] ==> board[i] == 0 && 1 <= sps[k].board[i] <= n)
        && (forall i :: 0 <= i < sps[k].startPos ==> sps[k].board[i] != 0)
        && Consistent(n, blockSize, sps[k].board, sps[k].state)
  {
    var root := Initial(n, blockSize, board);
    GeneratedDescends(n, blockSize, root, 0, maxDepth);
    InitialConsistent(n, blockSize, board);
    GeneratedConsistent(n, blockSize, root, 0, maxDepth);
  }

  /**
   * A subproblem with no empty cell left is emitted as it is, before the
   * depth is reached, keeping its own resume position: for the filled 1 x 1
   * board and depth 1 the single subproblem resumes at 0, not at N*N.
   */
  lemma ExhaustedKeepsResume(n: int, blockSize: int, cur: Subproblem, depth: int, maxDepth: int)
    requires WellFormed(n, blockSize, cur)
    requires forall i :: cur.startPos <= i < n * n ==> cur.board[i] != 0
    ensures Generated(n, blockSize, cur, depth, maxDepth) == [cur]
  {
  }

  lemma FilledBoardResumesAtZero()
    ensures var sps := Generated(1, 1, Initial(1, 1, [1]), 0, 1);
      |sps| == 1 && sps[0].startPos == 0 && sps[0].board == [1]
  {
    ExhaustedKeepsResume(1, 1, Initial(1, 1, [1]), 0, 1);
  }
}
