/**
 * What the three backtracking counters compute. Count(board, pos) is the
 * number of ways the search that starts at flat position pos can fill the
 * remaining empty cells: 1 once every position is passed, the count of the
 * next position for a filled cell, and otherwise the sum, over the values
 * 1..N that the scans admit, of the count after writing that value.
 */
module Counting {
  import opened Cells
  import opened Grid

  ghost function Count(n: int, blockSize: int, board: seq<int>, pos: int): nat
    requires Shaped(n, blockSize, board) && 0 <= pos <= n * n
    decreases n * n - pos, n + 2
  {
    if pos == n * n then 1
    else if board[pos] != 0 then Count(n, blockSize, board, pos + 1)
    else Branches(n, blockSize, board, pos, 1)
  }

  /** The part of the sum at an empty position that comes from the values value..N. */
  ghost function Branches(n: int, blockSize: int, board: seq<int>, pos: int, value: int): nat
    requires Shaped(n, blockSize, board) && 0 <= pos < n * n && 1 <= value <= n + 1
    decreases n * n - pos, n + 1 - value
  {
    if value > n then 0
    else
      IndexOfDivMod(n, pos);
      (if IsValid(n, blockSize, board, pos / n, pos % n, value)
       then Count(n, blockSize, board[pos := value], pos + 1) else 0)
      + Branches(n, blockSize, board, pos, value + 1)
  }

  /** Filled cells pass the count through: starting anywhere in a run of filled cells counts the same. */
  lemma {:induction false} CountSkipsFilled(n: int, blockSize: int, board: seq<int>, pos: int, next: int)
    requires Shaped(n, blockSize, board) && 0 <= pos <= next <= n * n
    requires forall i :: pos <= i < next ==> board[i] != 0
    ensures Count(n, blockSize, board, pos) == Count(n, blockSize, board, next)
    decreases next - pos
  {
    if pos < next {
      CountSkipsFilled(n, blockSize, board, pos + 1, next);
    }
  }

  /** The 0 x 0 board (N = 0, block size 0) is a geometry the solver accepts, and it has exactly one solution. */
  lemma EmptyBoardHasOneSolution()
    ensures Geometry(0, 0) && Shaped(0, 0, [])
    ensures Count(0, 0, [], 0) == 1
  {
  }

  /** With no empty cell from pos on, there is exactly one way to finish: the board itself. */
  lemma CountOfFullBoard(n: int, blockSize: int, board: seq<int>, pos: int)
    requires Shaped(n, blockSize, board) && 0 <= pos <= n * n
    requires forall i :: pos <= i < n * n ==> board[i] != 0
    ensures Count(n, blockSize, board, pos) == 1
  {
    CountSkipsFilled(n, blockSize, board, pos, n * n);
  }

  /**
   * The values lo..hi of s in increasing order: the iteration order of a
   * std::set<int>. SortedElementsMembers and SortedElementsIncreasing
   * prove what it holds and in which order.
   */
  function SortedElements(s: set<int>, lo: int, hi: int): seq<int>
    decreases hi - lo
  {
    if lo > hi then []
    else (if lo in s then [lo] else []) + SortedElements(s, lo + 1, hi)
  }

  /** The sorted elements are exactly the elements of s between lo and hi. */
  lemma {:induction false} SortedElementsMembers(s: set<int>, lo: int, hi: int)
    ensures forall x :: x in SortedElements(s, lo, hi) <==> x in s && lo <= x <= hi
    decreases hi - lo
  {
    if lo <= hi {
      SortedElementsMembers(s, lo + 1, hi);
    }
  }

  /** Every element of r is smaller than every later one. */
  ghost predicate Increasing(r: seq<int>)
  {
    forall i, j :: 0 <= i < j < |r| ==> r[i] < r[j]
  }

  /** The sorted elements are strictly increasing, so each value appears once. */
  lemma SortedElementsIncreasing(s: set<int>, lo: int, hi: int)
    ensures Increasing(SortedElements(s, lo, hi))
  {
    var r := SortedElements(s, lo, hi);
    forall i, j | 0 <= i < j < |r| ensures r[i] < r[j] {
      SortedElementsOrdered(s, lo, hi, i, j);
    }
  }

  /** One pair of positions of the sorted elements is in increasing order. */
  lemma {:induction false} SortedElementsOrdered(s: set<int>, lo: int, hi: int, i: int, j: int)
    requires 0 <= i < j < |SortedElements(s, lo, hi)|
    ensures SortedElements(s, lo, hi)[i] < SortedElements(s, lo, hi)[j]
    decreases hi - lo
  {
    var head, rest := if lo in s then [lo] else [], SortedElements(s, lo + 1, hi);
    assert SortedElements(s, lo, hi) == head + rest;
    if i < |head| {
      SortedElementsMembers(s, lo + 1, hi);
      assert rest[j - 1] in rest;
    } else {
      SortedElementsOrdered(s, lo + 1, hi, i - |head|, j - |head|);
    }
  }

  lemma SortedElementsStep(s: set<int>, lo: int, hi: int)
    requires lo <= hi
    ensures SortedElements(s, lo, hi) == (if lo in s then [lo] else []) + SortedElements(s, lo + 1, hi)
  {
  }

  /** The sum, over the values vs, of the count after writing each value at pos. */
  ghost function SumOverValues(n: int, blockSize: int, board: seq<int>, pos: int, vs: seq<int>): nat
    requires Shaped(n, blockSize, board) && 0 <= pos < n * n
  {
    if vs == [] then 0
    else Count(n, blockSize, board[pos := vs[0]], pos + 1) + SumOverValues(n, blockSize, board, pos, vs[1..])
  }

  lemma {:induction false} SumOverValuesAppend(n: int, blockSize: int, board: seq<int>, pos: int, a: seq<int>, b: seq<int>)
    requires Shaped(n, blockSize, board) && 0 <= pos < n * n
    ensures SumOverValues(n, blockSize, board, pos, a + b)
         == SumOverValues(n, blockSize, board, pos, a) + SumOverValues(n, blockSize, board, pos, b)
  {
    if a == [] {
      assert a + b == b;
    } else {
      assert (a + b)[1..] == a[1..] + b;
      SumOverValuesAppend(n, blockSize, board, pos, a[1..], b);
    }
  }

  /** Extending the summed prefix of vs by one value adds that value's count. */
  lemma SumOverValuesPrefix(n: int, blockSize: int, board: seq<int>, pos: int, vs: seq<int>, i: int)
    requires Shaped(n, blockSize, board) && 0 <= pos < n * n && 0 <= i < |vs|
    ensures SumOverValues(n, blockSize, board, pos, vs[..i + 1])
         == SumOverValues(n, blockSize, board, pos, vs[..i]) + Count(n, blockSize, board[pos := vs[i]], pos + 1)
  {
    assert vs[..i + 1] == vs[..i] + [vs[i]];
    SumOverValuesAppend(n, blockSize, board, pos, vs[..i], [vs[i]]);
    assert [vs[i]][1..] == [];
  }

  /** The admissible values of the cell at pos (what getPossibleValues returns). */
  ghost function Admissible(n: int, blockSize: int, board: seq<int>, pos: int): set<int>
    requires Shaped(n, blockSize, board) && 0 <= pos < n * n
  {
    IndexOfDivMod(n, pos);
    set v | 1 <= v <= n && IsValid(n, blockSize, board, pos / n, pos % n, v)
  }

  /**
   * Summing over the admissible values of an empty cell in increasing order
   * gives the count at that cell: splitting the search at the cell loses and
   * repeats nothing.
   */
  lemma {:induction false} SumOverAdmissible(n: int, blockSize: int, board: seq<int>, pos: int, value: int)
    requires Shaped(n, blockSize, board) && 0 <= pos < n * n && 1 <= value <= n + 1
    ensures SumOverValues(n, blockSize, board, pos, SortedElements(Admissible(n, blockSize, board, pos), value, n))
         == Branches(n, blockSize, board, pos, value)
    decreases n + 1 - value
  {
    if value <= n {
      var s := Admissible(n, blockSize, board, pos);
      var head := if value in s then [value] else [];
      var here, rest := SumOverValues(n, blockSize, board, pos, SortedElements(s, value, n)),
                        SumOverValues(n, blockSize, board, pos, SortedElements(s, value + 1, n));
      assert here == SumOverValues(n, blockSize, board, pos, head) + rest by {
        SumOverSortedStep(n, blockSize, board, pos, s, value);
      }
      assert rest == Branches(n, blockSize, board, pos, value + 1) by {
        SumOverAdmissible(n, blockSize, board, pos, value + 1);
      }
      assert SumOverValues(n, blockSize, board, pos, head) + Branches(n, blockSize, board, pos, value + 1)
          == Branches(n, blockSize, board, pos, value) by {
        AdmissibleHead(n, blockSize, board, pos, value);
      }
    } else {
      assert SortedElements(Admissible(n, blockSize, board, pos), value, n) == [];
    }
  }

  /** Summing over the sorted elements from lo splits into the part for lo and the part for lo + 1 on. */
  lemma SumOverSortedStep(n: int, blockSize: int, board: seq<int>, pos: int, s: set<int>, lo: int)
    requires Shaped(n, blockSize, board) && 0 <= pos < n * n && lo <= n
    ensures SumOverValues(n, blockSize, board, pos, SortedElements(s, lo, n))
         == SumOverValues(n, blockSize, board, pos, if lo in s then [lo] else [])
          + SumOverValues(n, blockSize, board, pos, SortedElements(s, lo + 1, n))
  {
    SortedElementsStep(s, lo, n);
    SumOverValuesAppend(n, blockSize, board, pos, if lo in s then [lo] else [], SortedElements(s, lo + 1, n));
  }

  /** Branches from value is the count under value, when it fits, plus Branches from value + 1. */
  lemma BranchesStep(n: int, blockSize: int, board: seq<int>, pos: int, value: int)
    requires Shaped(n, blockSize, board) && 0 <= pos < n * n && 1 <= value <= n
    ensures OnBoard(n, pos / n, pos % n)
    ensures Branches(n, blockSize, board, pos, value)
         == (if IsValid(n, blockSize, board, pos / n, pos % n, value)
             then Count(n, blockSize, board[pos := value], pos + 1) else 0)
          + Branches(n, blockSize, board, pos, value + 1)
  {
    IndexOfDivMod(n, pos);
  }

  lemma AdmissibleHead(n: int, blockSize: int, board: seq<int>, pos: int, value: int)
    requires Shaped(n, blockSize, board) && 0 <= pos < n * n && 1 <= value <= n
    ensures var s := Admissible(n, blockSize, board, pos);
      SumOverValues(n, blockSize, board, pos, if value in s then [value] else [])
      + Branches(n, blockSize, board, pos, value + 1)
      == Branches(n, blockSize, board, pos, value)
  {
    IndexOfDivMod(n, pos);
    var s := Admissible(n, blockSize, board, pos);
    assert value in s <==> IsValid(n, blockSize, board, pos / n, pos % n, value);
    if value in s {
      assert [value][1..] == [];
    }
  }
}
