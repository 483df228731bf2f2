# Parallel Sudoku solution counter — a verified model of its counting core

The solver counts every way to complete an N x N Sudoku board, where
N = blockSize², N ≤ 31 and 0 marks an empty cell. It has three
interchangeable backtracking counters:

- a scan-based in-place search (`backtrackSingleThread`);
- a copy-per-branch search (`solveFromState`), which `solveParallel` runs once
  per admissible value of the first empty cell;
- a bitmask-pruned in-place search (`backtrackWithBitmask`). It runs once per
  subproblem that `generateSubproblems` produces by expanding the first K
  empty cells.

The model is split into six modules:

- `Cells` holds the board geometry: the flat row-major index and the block index.
- `BitMask` holds the three mask vectors of `BitMaskState`:
  - as a value (`Masks`), with `Set`, `Unset` and `CanPlace`;
  - as a class whose methods update its fields in place.
- `Grid` holds what the scans compute (`InRow`, `InCol`, `InBlock`, `IsValid`).
  Its predicate `Consistent` says when masks agree with a board. With such
  masks, the mask test and the scans give the same answer.
- `Counting` holds the ghost specification `Count(board, pos)`. It counts 1 at
  position N*N, passes through filled cells, and otherwise sums over the
  admissible values 1..N.
- `Partition` holds the list of subproblems that generation produces
  (`Generated`). It also proves that the counts of these subproblems add up to
  the sequential count, at every partition depth.
- `Solver` holds the class `SudokuSolver`. Its fields are `N`, `blockSize`,
  `board` and `numSolutions`. Every member function in the core is a method,
  except `getIndex`, which computes only and is the function `Cells.Index`.
  Each method is proved against the functions above:
  - every counter returns `Count`;
  - the in-place counters restore what they changed;
  - every solve entry point stores `Count(board, 0)`.

## Model

| member | source | states |
|---|---|---|
| Cells.Index | src/sudoku_solver.cpp:75-77 | getIndex maps every on-board cell into 0..N*N-1, and pos / N, pos % N recover the row and column |
| Cells.IndexOfDivMod | src/sudoku_solver.cpp:179-183 | splitting a position into pos / N and pos % N and calling getIndex gives the position back |
| Cells.BlockIndex | src/sudoku_solver.cpp:19 | the block index (row/bs)*bs + col/bs lies in [0, N), and its quotient and remainder by bs are the block row and block column |
| BitMask.Empty | src/sudoku_solver.cpp:8-12 | a fresh state has N masks per vector, all of them zero |
| BitMask.BitMaskState.constructor | src/sudoku_solver.cpp:8-12 | the constructed object holds the empty masks of size N |
| BitMask.BitMaskState.Copy | src/sudoku_solver.cpp:380-381 | copying a state gives a new object holding the same three vectors |
| BitMask.Masks.Set | src/sudoku_solver.cpp:14-23 | set on the mask values: out of range (below 1 or above 31) it returns the masks unchanged, else it adds value to the row mask of row, the column mask of col and the block mask of the cell's block; the result keeps N masks per vector, and SetRecords states what it records |
| BitMask.Masks.Unset | src/sudoku_solver.cpp:25-34 | unset on the mask values: the same guard, then value is removed from the same three masks; the result keeps N masks per vector, and UnsetClears states what it clears |
| BitMask.SetRecords | src/sudoku_solver.cpp:14-23 | set adds value to the row mask of row, the column mask of col and the block mask of the cell's block, and to no other mask; outside 1..31 it changes nothing |
| BitMask.UnsetClears | src/sudoku_solver.cpp:25-34 | unset removes value from exactly those three masks, and afterwards value can be placed at the cell; outside 1..31 it changes nothing |
| BitMask.OutOfRangeIgnored | src/sudoku_solver.cpp:14-44 | for a value outside 1..31, Masks.Set and Masks.Unset are no-ops and Masks.CanPlace (the guard, then the three bit tests at cpp:36-44) is false |
| BitMask.SetUnsetRoundTrip | src/sudoku_solver.cpp:14-34 | after a canPlace that holds, set followed by unset restores all three vectors exactly |
| BitMask.SetBlocksPeers | src/sudoku_solver.cpp:19-43 | after set(r, c, v), Masks.CanPlace refuses v at every cell sharing r's row, c's column or the block, and its answer for any other value w is unchanged at every cell |
| BitMask.BitMaskState.Set | src/sudoku_solver.cpp:14-23 | the object's masks become those of the value-level set |
| BitMask.BitMaskState.Unset | src/sudoku_solver.cpp:25-34 | the object's masks become those of the value-level unset |
| BitMask.BitMaskState.CanPlace | src/sudoku_solver.cpp:36-44 | the answer is the guard followed by the three bit tests on the object's masks |
| Grid.InBlockByIndex | src/sudoku_solver.cpp:100-112 | scanning the block of (row, col) finds value exactly when some cell with the same block index holds it |
| Grid.CanPlaceIsValid | src/sudoku_solver.cpp:36-147 | with masks that agree with the board, Masks.CanPlace(r, c, v) equals isValid(r, c, v) for every v in 1..N |
| Grid.PlaceChangesLines | src/sudoku_solver.cpp:190 | writing v into an empty cell adds v to that cell's row, column and block, and changes no other row, column or block |
| Grid.PlaceKeepsConsistent | src/sudoku_solver.cpp:362-363 | writing a value into an empty cell and setting its bits keeps masks and board in agreement |
| Counting.Count | src/sudoku_solver.cpp:173-197 | the search every counter performs: 1 at position N*N, the count of the next position for a filled cell, and otherwise Branches from value 1; its properties are CountSkipsFilled, CountOfFullBoard and SumOverAdmissible |
| Counting.Branches | src/sudoku_solver.cpp:187-194 | the value loop at an empty cell: the sum, over values value..N that isValid admits, of the count after writing the value |
| Counting.EmptyBoardHasOneSolution | src/sudoku_solver.cpp:47-63 | the 0 x 0 board is an accepted geometry, and its count from position 0 is 1 |
| Counting.SumOverValues | src/sudoku_solver.cpp:279-290 | the reduction over a list of values: the sum of the counts after writing each value at pos; SplitAtFirstEmpty relates it to Count |
| Counting.Admissible | src/sudoku_solver.cpp:162-170 | the set of values 1..N that isValid admits at a cell; GetPossibleValues returns exactly this set |
| Counting.CountSkipsFilled | src/sudoku_solver.cpp:182-185 | the count passes through filled cells unchanged |
| Counting.CountOfFullBoard | src/sudoku_solver.cpp:261-263 | with no empty cell from pos on, there is exactly one solution |
| Counting.SortedElementsMembers | src/sudoku_solver.cpp:271-272 | SortedElements(s, lo, hi), the list a std::set iterates over, holds exactly the elements of s between lo and hi |
| Counting.SortedElementsIncreasing | src/sudoku_solver.cpp:271-272 | that list is strictly increasing, so every element appears once and in the order a std::set iterates |
| Counting.SumOverAdmissible | src/sudoku_solver.cpp:162-170 | summing, over the admissible values of an empty cell in increasing order, the counts after writing each value gives the count at that cell |
| Partition.NextEmpty | src/sudoku_solver.cpp:394-397 | the scan stops at the first empty position at or after startPos, or at N*N |
| Partition.NextEmptyIsFirstZero | src/sudoku_solver.cpp:394-397 | a zero after a run of filled cells is where the scan for the next empty cell stops |
| Partition.Child | src/sudoku_solver.cpp:415-418 | the child subproblem (value written, its bits set, resume after pos) is again well formed |
| Partition.Generated | src/sudoku_solver.cpp:386-429 | every subproblem generated is well formed: board of N*N cells, N masks per vector, resume position at most N*N |
| Partition.Expanded | src/sudoku_solver.cpp:410-422 | the subproblems from values value..N at the empty cell pos, in increasing value order; every one is well formed, and ExpandedSum gives their total |
| Partition.Branch | src/sudoku_solver.cpp:411-421 | the subproblems under one value: none when the masks refuse it, else those of the child; every one is well formed, and BranchSum gives their total |
| Partition.Seed | src/sudoku_solver.cpp:438-445 | the masks seeded from the clues among the first k cells in row-major order hold N masks per vector; SeedConsistent shows they agree with those cells |
| Partition.SumCounts | src/sudoku_solver.cpp:472-476 | the reduction over a list of subproblems: the sum of each one's count from its resume position; PartitionKeepsCount relates it to Count |
| Partition.DepthZeroIsRoot | src/sudoku_solver.cpp:388-391 | with partition depth 0 exactly one subproblem is emitted: the root |
| Partition.GeneratedDescends | src/sudoku_solver.cpp:386-429 | every generated subproblem changes only cells that were empty, writes values 1..N into them, and has every cell between the two resume positions filled |
| Partition.GeneratedConsistent | src/sudoku_solver.cpp:386-429 | every generated subproblem carries masks that agree with its board |
| Partition.GeneratedSum | src/sudoku_solver.cpp:386-429 | the counts of the generated subproblems add up to the count of the subproblem they come from |
| Partition.ExpandedSum | src/sudoku_solver.cpp:410-422 | the subproblems generated from the values value..N at an empty cell count what the sequential search counts for those values |
| Partition.BranchSum | src/sudoku_solver.cpp:411-421 | the subproblems under one value count the completions after writing it when isValid admits it, and 0 otherwise |
| Partition.SeedConsistent | src/sudoku_solver.cpp:438-445 | the masks seeded from the first k cells agree with the board that holds only those cells |
| Partition.Initial | src/sudoku_solver.cpp:433-435 | the root subproblem holds the loaded board, its seeded masks, and resumes at 0 |
| Partition.InitialConsistent | src/sudoku_solver.cpp:432-445 | the masks seeded from every clue agree with the whole board |
| Partition.PartitionKeepsCount | src/sudoku_solver.cpp:451-478 | for every partition depth, the generated subproblems have agreeing masks and their counts add up to the count from position 0 |
| Partition.GeneratedFromRoot | src/sudoku_solver.cpp:386-448 | every emitted subproblem keeps every clue, writes only values 1..N into empty cells, has no empty cell before its resume position, and has agreeing masks |
| Partition.ExhaustedKeepsResume | src/sudoku_solver.cpp:399-403 | a subproblem with no empty cell left from its resume position is emitted unchanged |
| Partition.FilledBoardResumesAtZero | src/sudoku_solver.cpp:399-403 | a filled 1 x 1 board at depth 1 yields one subproblem, which resumes at 0 rather than at N*N |
| Solver.SudokuSolver.constructor | src/sudoku_solver.cpp:47-63 | an all-empty board of N*N cells and no solutions counted |
| Solver.SudokuSolver.LoadBoard | src/sudoku_solver.cpp:66-72 | a board of length N*N replaces the board; any other length leaves it untouched |
| Solver.SudokuSolver.IsInRow | src/sudoku_solver.cpp:80-87 | true exactly when some cell of the row holds value |
| Solver.SudokuSolver.IsInCol | src/sudoku_solver.cpp:90-97 | true exactly when some cell of the column holds value |
| Solver.SudokuSolver.IsInBlock | src/sudoku_solver.cpp:100-112 | true exactly when some cell of the block of (row, col) holds value |
| Solver.SudokuSolver.ScanBlock | src/sudoku_solver.cpp:136-144 | the nested block scan finds value exactly when the block holds it |
| Solver.SudokuSolver.IsValid | src/sudoku_solver.cpp:115-117 | true exactly when value is in neither the row, the column nor the block |
| Solver.SudokuSolver.IsValidWithBoard | src/sudoku_solver.cpp:120-147 | on any board passed in, gives the same answer as isValid would on that board |
| Solver.SudokuSolver.FindNextEmptyCell | src/sudoku_solver.cpp:149-158 | finds the first empty cell in row-major order, which is where the search from position 0 stops; with none, it reports false with every cell filled, row at N, and col at N, except on the 0x0 board, where col keeps the caller's value because the inner loop never runs |
| Solver.SudokuSolver.GetPossibleValues | src/sudoku_solver.cpp:162-170 | exactly the values 1..N that isValid admits |
| Solver.SudokuSolver.BacktrackSingleThread | src/sudoku_solver.cpp:173-197 | returns the count from pos, and leaves board and numSolutions unchanged |
| Solver.SudokuSolver.SolveFromState | src/sudoku_solver.cpp:200-228 | returns the count from pos of the board passed in |
| Solver.SudokuSolver.BacktrackWithBitmask | src/sudoku_solver.cpp:345-373 | with masks that agree with the board, returns the same count as the scanning counters, and restores both board and masks |
| Solver.TryValue | src/sudoku_solver.cpp:360-369 | one turn of the value loop at an empty cell: with agreeing masks canPlace says what isValid says, after placing the value board and masks still agree, and clearing the cell with unset after set gives back both exactly |
| Solver.SudokuSolver.SolveSubproblem | src/sudoku_solver.cpp:376-383 | a subproblem with agreeing masks counts the completions of its board from its resume position |
| Solver.SudokuSolver.GenerateSubproblemsRecursive | src/sudoku_solver.cpp:386-429 | appends to results exactly the subproblems Generated describes |
| Solver.SudokuSolver.GenerateSubproblems | src/sudoku_solver.cpp:432-448 | appends the subproblems generated from the root, whose masks are seeded from every clue |
| Solver.SudokuSolver.SolveSingleThread | src/sudoku_solver.cpp:231-239 | stores the count of the loaded board from position 0 |
| Solver.SudokuSolver.SolveParallel | src/sudoku_solver.cpp:242-297 | stores the count from position 0: 1 for a board with no empty cell, otherwise the sum of the branch counts over the admissible values of the first empty cell |
| Solver.SudokuSolver.SolveParallelOptimized | src/sudoku_solver.cpp:451-483 | stores the count from position 0: 0 for an empty subproblem list, otherwise the sum of the subproblem counts |
| Solver.SplitAtFirstEmpty | src/sudoku_solver.cpp:247-292 | the count from position 0 equals the sum, over the admissible values of the first empty cell in increasing order, of the counts after writing each value |
| Solver.UpdateRestored | src/sudoku_solver.cpp:190-192 | writing a value into an empty cell and clearing it again gives back the board |

## Left out

- OpenMP: `omp_set_num_threads` and the parallel-for reductions become sequential sums over the list, and `numThreads` is an unused parameter. The scheduling is concurrency only; the sum is order-independent.
- Wall-clock timing with `std::chrono` and the `runningTime` double are left out. They are a clock and a floating-point value.
- The getters and `printBoard` are left out. They only read fields or render text.
- The warnings that the constructor and `loadBoard` write to `std::cerr` are left out. Only the observable state is kept.
- `src/main.cpp` and `src/performance_analysis.cpp` are left out. They are benchmark drivers with console and file output.
- `src/sudoku_solver.h` is out of date with the definitions. The class fields follow it, and the members follow the `.cpp` file.
- Solver.SudokuSolver.constructor: it takes `blockSize` as a parameter and requires either N = 0 with block size 0, or blockSize >= 1 with blockSize * blockSize == N and N <= 31. It does not model the floating `sqrt`, or the silent degradation for an N that is not a square or exceeds 31, which the source only warns about.
- The masks are modelled as sets of bit positions rather than `uint32_t` words. Only bits 1..31 are ever touched, because of the guard, so nothing wraps.
- Solution counts are `nat`. The `int` overflow of very large counts is not modelled.
- Solver.SudokuSolver.BacktrackWithBitmask: its count is stated only for masks that agree with the board. The source also runs with other masks, but then it counts a different search. Every caller passes agreeing masks, as GeneratedFromRoot and PartitionKeepsCount show.
- Solver.SudokuSolver.SolveSubproblem: requires agreeing masks, for the same reason.
- `generateSubproblemsRecursive` receives `current` by reference but never changes it. It is modelled as a value.
- A subproblem's `state` is the mask value (`Masks`), because `Subproblem` copies it by value.
- The final `foundAny` test in `generateSubproblemsRecursive` only returns, so it has no effect and is not modelled.
- Partition.Generated: a subproblem whose board has no empty cell left from its resume position is emitted with the resume position it already had (src/sudoku_solver.cpp:399-402). That position can be below N*N, for example 0 for a filled board, as FilledBoardResumesAtZero shows. The counts are unaffected, because Count passes through filled cells.
