# Sudoku engine of xeeeveee/sudoku, modelled in Dafny

This project models the Sudoku engine of the PHP library xeeeveee/sudoku.
The engine appears twice: in the `Puzzle` class (src/Puzzle.php) and in the
older `Sudoku` class (src/Sudoku.php). It has four parts:

- a container check that finds a repeated value in one row, column or box,
  refusing zeros unless told to allow them;
- a grid check (`checkConstraints`, or `isSolvable` in `Sudoku`). It walks the
  rows, refuses values outside 1..9, collects the non-zero cells by column and
  by 3×3 box, and checks every collection;
- a backtracking solver (`calculateSolution` with `getValidOptions`);
- the objects that hold a puzzle and its solution, changed by the setters,
  by `solve` and by `generatePuzzle`.

Modules:

- `Wrappers`: `Option` (None is the PHP `false` of a failed search), `Outcome`
  (a call that returns, or one that aborts with a PHP TypeError) and `Value`
  (an argument that is an integer, or something else).
- `Grids`: the 9×9 grid, the rules as predicates (`Consistent`, `IsCandidate`,
  `IsCompletion`), and facts about them. This includes a valid full grid, so
  the empty grid has a solution, and a grid that passes the checks yet has no
  solution.
- `Checker`: `checkContainerForViolations` and `checkConstraints`, with the
  `$columns` / `$boxes` accumulators as maps.
- `Solver`: `getValidOptions` and `calculateSolution`.
- `PuzzleState`: the class `Puzzle`.
- `SudokuState`: the class `Sudoku`.

Both classes share the logic that Sudoku.php copies. Its
`calculateSolution` (src/Sudoku.php:260-310) and `getValidOptions`
(src/Sudoku.php:321-354) are the same code as in src/Puzzle.php, so they are
`Solver.CalculateSolution` and `Solver.GetValidOptions`. Its `isSolvable`
(src/Sudoku.php:120-173) is `checkConstraints` with zeros allowed, so it calls
`Checker.CheckConstraints` with `allowZeros` set to true. Its
`checkForViolations` (src/Sudoku.php:366-379) is the container check with
zeros allowed.

Randomness is an input. A `Solver.Shuffler` is handed the grid that
`getValidOptions` works on, and then chooses which remaining option comes
next (`Solver.Shuffle`). Within one search the grid only gains values, so the
solver never draws options for the same grid twice. Every sequence of random
orders a run can draw is therefore given by some `Shuffler`, and each solver
result is proved for every `Shuffler`. `array_rand` is the input set `cells`:
the row-major indices (0..80) that `generatePuzzle` keeps.

Main results:

- The container check and the grid check return exactly the rules in
  `Grids.Consistent`.
- `getValidOptions` returns exactly the candidates of the cell, with no value
  twice, in the order the `Shuffler` picks.
- The solver's measure is the number of empty cells. Every grid it returns is
  full and keeps every given. That grid is a solution whenever the puzzle
  passed `checkConstraints` with zeros allowed. It returns `false` only when
  no solution exists. On any 9×9 grid, even one that fails the checks, a full
  grid comes back unchanged, and a first empty cell with no candidate gives
  `false`.
- So `generatePuzzle` always gets a full grid from the empty grid. The puzzle
  it leaves keeps exactly the chosen cells of a valid full grid, passes the
  checks and can be solved.
- `Grids.ConsistentWithoutCompletion`: passing the check with zeros allowed
  (`isSolvable`) does not mean a solution exists. On such a grid,
  `Puzzle::solve` returns true and stores `false`. A later `isSolved` call
  then aborts, because `checkConstraints` requires an array.

Two behaviours of the code that the model keeps as written:

- `setCellSize` writes only the field. It accepts any integer, including
  values ≤ 0, and leaves the puzzle and the solution as they are
  (src/Puzzle.php:61-69).
- `generatePuzzle` accepts counts 0..80 and refuses 81 (src/Puzzle.php:189,
  src/Sudoku.php:186).

## Model

| member | source | states |
|---|---|---|
| Checker.NonZerosMembers | src/Puzzle.php:440-444 | after the `unset` loop, the kept values are exactly the non-zero values of the container |
| Checker.DistinctAppend | src/Puzzle.php:446 | appending a value keeps a list free of repeats exactly when the value is new |
| Checker.NonZeroDistinctAppend | src/Puzzle.php:446 | appending a value keeps the non-zero values free of repeats exactly when it is 0 or new |
| Checker.DistinctNonZeros | src/Puzzle.php:440-448 | the list without its zeros is free of repeats exactly when no non-zero value repeats |
| Checker.CheckContainerForViolations | src/Puzzle.php:434-451 | true exactly when (zeros are allowed or there is no 0) and no non-zero value repeats |
| Checker.BoxKeySame | src/Puzzle.php:247-259 | two cells get the same `$boxRow . $boxColumn` key exactly when they lie in the same 3×3 box |
| Checker.CollectedHas | src/Puzzle.php:237-259 | a value is in the column (or box) list for a key exactly when it is non-zero and some visited cell with that key holds it |
| Checker.PrefixStep | src/Puzzle.php:235-260 | the visited cells avoid repeats per key exactly when the earlier cells did and the newest cell repeats nothing |
| Checker.CollectedStep | src/Puzzle.php:245-259 | the collected lists stay free of repeats exactly when they were and the appended cell is new in its list |
| Checker.CollectedDistinct | src/Puzzle.php:229-261 | every collected list is free of repeats exactly when no two visited cells with one key share a non-zero value |
| Checker.CollectedValid | src/Puzzle.php:263-277 | the container check passes on every collected list exactly when no column (or box) repeats a non-zero value |
| Checker.ColumnsFromPrefix | src/Puzzle.php:245 | no repeats under the column keys is the same as no column repeating a non-zero value |
| Checker.BoxesFromPrefix | src/Puzzle.php:247-259 | no repeats under the box keys is the same as no box repeating a non-zero value |
| Checker.CollectedAt | src/Puzzle.php:237-259 | visiting cell (i, j) appends its value under column j and under its box key, or skips it when it is 0 |
| Checker.ConsistentByGroups | src/Puzzle.php:227-280 | the rules hold exactly when every row passes, every value is in range, and every collected column and box passes |
| Checker.CheckGroups | src/Puzzle.php:263-277 | true exactly when every collected list passes the container check |
| Checker.CollectRow | src/Puzzle.php:235-260 | refuses a non-zero cell outside 1..9 in the row; otherwise extends both accumulators by the row |
| Checker.CheckConstraints | src/Puzzle.php:227-280 | true exactly when every row passes the container check, every non-zero cell is in 1..9, and no column or box repeats a non-zero value |
| Grids.Assign | src/Puzzle.php:361 | writing a cell changes that cell and no other |
| Grids.AssignShrinksZeroCells | src/Puzzle.php:361 | filling an empty cell with a non-zero value leaves exactly one empty cell fewer (the solver's termination measure) |
| Grids.NoZerosIffNoZeroCells | src/Puzzle.php:356-358 | a grid has no 0 exactly when its set of empty cells is empty |
| Grids.AssignCandidateKeepsConsistent | src/Puzzle.php:361 | writing a candidate into an empty cell of a grid that passes with zeros allowed keeps it passing |
| Grids.CompletionValueIsCandidate | src/Puzzle.php:341 | the value any solution puts into an empty cell is among that cell's candidates |
| Grids.CompletionAfterAssign | src/Puzzle.php:366-368 | a solution of the grid with v written into (r, c) solves the grid; a solution with v at (r, c) solves the grid with v written there |
| Grids.FullGridIsOwnCompletion | src/Puzzle.php:356-358 | a full grid that passes with zeros allowed also passes with zeros refused, and solves itself |
| Grids.CompletableIsConsistent | src/Puzzle.php:173-176 | a grid that has a solution passes the checks with zeros allowed |
| Grids.EmptyGridCompletions | src/Puzzle.php:196 | the solutions of the empty grid are exactly the valid full grids |
| Grids.PatternGrid | src/Puzzle.php:196 | a 9×9 grid given by the shifted-rows pattern |
| Grids.PatternDistinct | src/Puzzle.php:196 | two different cells of one row, column or box get different pattern values |
| Grids.PatternGridIsValid | src/Puzzle.php:196 | the pattern grid is full and passes the checks with zeros refused |
| Grids.EmptyGridHasCompletion | src/Puzzle.php:196 | the empty grid has a solution |
| Grids.StuckBlocksEverySolution | src/Puzzle.php:343-345 | no full grid that keeps the givens of the grid Stuck passes the checks |
| Grids.ConsistentWithoutCompletion | src/Puzzle.php:132-140 | a grid can pass the check with zeros allowed (isSolvable) and still have no solution |
| Grids.MaskGivens | src/Puzzle.php:198-211 | blanking a full grid outside `cells` keeps non-zero exactly the cells whose index is in `cells` |
| Grids.MaskIsSolvable | src/Puzzle.php:196-211 | a valid full grid, blanked anywhere, leaves a puzzle that passes the checks with zeros allowed and that the full grid solves |
| Solver.Digits | src/Puzzle.php:417 | `range(1, 9)`: nine values without repeats, exactly 1..9 |
| Solver.DistinctPrepend | src/Puzzle.php:418 | putting a value in front keeps a list free of repeats exactly when the value is new |
| Solver.Without | src/Puzzle.php:417 | `array_diff`: holds exactly the values of the first list absent from the second, and repeats none if the first repeats none |
| Solver.RemoveAtFacts | src/Puzzle.php:418 | taking one entry out leaves the other values, and keeps a list without repeats free of them |
| Solver.Shuffle | src/Puzzle.php:418 | `shuffle` under the order the oracle chooses: a permutation of its input (same multiset), without repeats when the input has none |
| Solver.ShuffleMembers | src/Puzzle.php:418 | a shuffled list holds the same values as the input |
| Solver.ColumnOf | src/Puzzle.php:392-394 | the column the `for` loop appends: entry i is cell (i, c) |
| Solver.BoxSlices | src/Puzzle.php:408-415 | the three slices `array_slice($grid[$boxRow + d], $boxColumn, 3)` give the nine box cells, row by row |
| Solver.CandidateBySlices | src/Puzzle.php:388-417 | a candidate is exactly a digit 1..9 absent from the row, the column and the box slices |
| Solver.GetValidOptions | src/Puzzle.php:388-421 | the options are exactly the candidates of the cell (1..9 minus its row, column and box), with no value twice, and in order they are the `shuffle` (under `pick(grid)`) of `range(1, 9)` minus the `$invalid` list of row, column and box slices |
| Solver.SearchZero | src/Puzzle.php:335 | `array_search(0, $row)`: None exactly when the row has no 0; otherwise the index of its first 0 |
| Solver.FindTarget | src/Puzzle.php:333-354 | None exactly when the grid has no 0; otherwise the first 0 of the first row that has one |
| Solver.FirstZeroUnique | src/Puzzle.php:333-339 | a grid has only one first empty cell in the scan's order |
| Solver.CandidateNotDeadEnd | src/Puzzle.php:341-345 | when the first empty cell has a candidate, the scan does not give up and the grid is not full |
| Solver.AssignStep | src/Puzzle.php:361 | writing a candidate into an empty cell keeps the original givens, keeps the checks passing, and leaves one empty cell fewer |
| Solver.ForcedKeepsCompletions | src/Puzzle.php:360-363 | when every solution puts v into the cell, writing v there in place keeps exactly the same solutions |
| Solver.BranchCompletion | src/Puzzle.php:365-372 | a solution found for the cloned grid with one option written in solves the grid |
| Solver.BranchExcluded | src/Puzzle.php:365-373 | when the cloned grid with option v has no solution, no solution of the grid puts v in that cell |
| Solver.BranchesExcluded | src/Puzzle.php:365-373 | after each failed branch, no solution of the grid puts any option tried so far into the cell |
| Solver.CalculateSolution | src/Puzzle.php:327-377 | a returned grid is full and keeps every given, and solves the puzzle when the puzzle passed with zeros allowed; `false` only when no solution exists; on any grid, a full grid comes back unchanged and a first empty cell without candidates gives `false` |
| Solver.TryOptions | src/Puzzle.php:365-375 | trying the options in turn on copies of the grid: a grid found is full, keeps the givens and solves the grid when it passed with zeros allowed; `false` only when no solution puts any option into the cell |
| PuzzleState.Puzzle.GenerateEmptyPuzzle | src/Puzzle.php:287-290 | an all-zero grid that passes the format check; the empty 9×9 grid when the box size is 3 |
| PuzzleState.Puzzle.IsValidPuzzleFormat | src/Puzzle.php:299-312 | cellSize² rows, each of cellSize² cells, for any box size |
| PuzzleState.Puzzle.FormatIsGrid9 | src/Puzzle.php:299-312 | with box size 3, the format check holds exactly for 9 rows of 9 cells |
| PuzzleState.Puzzle.constructor | src/Puzzle.php:39-43 | box size 3; a 9×9 puzzle is stored, anything else becomes the empty grid; the same for the solution |
| PuzzleState.Puzzle.SetCellSize | src/Puzzle.php:61-69 | true exactly for an integer, which is stored as it is; puzzle and solution stay |
| PuzzleState.Puzzle.SetSolution | src/Puzzle.php:117-125 | stores a grid of the right shape and returns true; otherwise returns false and keeps the solution |
| PuzzleState.Puzzle.SetPuzzle | src/Puzzle.php:88-99 | stores a grid of the right shape (true) or the empty grid (false); either way resets the solution to the empty grid |
| PuzzleState.Puzzle.IsSolvable | src/Puzzle.php:173-176 | true exactly when the puzzle passes the checks with zeros allowed |
| PuzzleState.Puzzle.Solve | src/Puzzle.php:132-140 | returns isSolvable; on true stores a solution of the puzzle, or `false` exactly when none exists; on false keeps the solution |
| PuzzleState.Puzzle.IsSolved | src/Puzzle.php:147-164 | aborts on a stored `false`; otherwise true exactly when the solution is full, valid and agrees with every non-zero puzzle cell |
| PuzzleState.Puzzle.BlankOutside | src/Puzzle.php:199-211 | the by-reference loop zeroes exactly the cells whose row-major index is not in `cells` |
| PuzzleState.Puzzle.GeneratePuzzle | src/Puzzle.php:187-217 | refuses a non-integer or a count outside 0..80 and changes nothing; 0 gives the empty grid; otherwise keeps exactly the chosen cells of a valid full grid, which passes the checks and has a solution; resets the solution |
| SudokuState.Numbers | src/Sudoku.php:130 | the board as the checks read it, with the same shape |
| SudokuState.Lift | src/Sudoku.php:193 | the solver's integer grid stored as a board, which reads back as the same grid |
| SudokuState.IsValidPuzzleFormat | src/Sudoku.php:232-245 | nine rows, each of nine cells |
| SudokuState.FormatIsGrid9 | src/Sudoku.php:232-245 | a board has nine rows of nine cells exactly when the grid it reads as is 9×9 |
| SudokuState.GenerateEmptyPuzzle | src/Sudoku.php:220-223 | nine rows of nine zeros, passing the format check |
| SudokuState.CheckForViolations | src/Sudoku.php:366-379 | true exactly when no non-zero value repeats; zeros never fail |
| SudokuState.BlankedReadsAsMask | src/Sudoku.php:202-208 | a board blanked with `null` reads as the full grid blanked with 0 |
| SudokuState.Sudoku.constructor | src/Sudoku.php:35-38 | flag clear, solution `[]`, puzzle stored or replaced by the empty board |
| SudokuState.Sudoku.SetPuzzle | src/Sudoku.php:59-72 | always clears the flag; stores a 9×9 board (true) or the empty board (false); keeps the solution |
| SudokuState.Sudoku.IsSolvable | src/Sudoku.php:120-173 | true exactly when no non-zero cell is outside 1..9 and no row, column or box repeats a non-zero value; blanks and zeros never fail |
| SudokuState.Sudoku.Solve | src/Sudoku.php:79-91 | the flag becomes the result; on true stores a solution, or `false` exactly when none exists; on false keeps the solution |
| SudokuState.Sudoku.IsSolved | src/Sudoku.php:108-111 | while the flag is set, the puzzle is solvable and the stored solution solves it, or is `false` exactly when none exists |
| SudokuState.Sudoku.BlankOutside | src/Sudoku.php:196-208 | the by-reference loop sets to `null` exactly the cells whose row-major index is not in `cells` |
| SudokuState.Sudoku.GeneratePuzzle | src/Sudoku.php:184-213 | refuses a non-integer or a count outside 0..80 and changes nothing; otherwise clears the flag and keeps the solution; 0 gives the empty board; a positive count keeps exactly the chosen cells of a valid full grid, blanks the rest to `null`, and leaves a solvable puzzle |

## Left out

- Distributions of `shuffle` and `array_rand`: the option order is any order chosen by `pick`, and the kept cells are any input set `cells`. Probabilities are not modelled.
- PHP loose comparison and coercion: `in_array`, `array_search`, `==` against 0, `$result == true`. Cells are integers, or `Option<int>` for the `null` blanks of src/Sudoku.php. Strings, floats and booleans in a grid are not modelled.
- Arrays whose keys are not 0..n-1: a grid is a list of rows, so `foreach` order is index order. `array_diff` keeps the original keys and `shuffle` renumbers them; the model keeps only the order.
- `array_unique` in `getValidOptions` (src/Puzzle.php:408): it only drops repeated values, and `array_diff` reads only membership, so the model skips it.
- Box sizes other than 3: `setCellSize` and the format check work for any integer, but the checker and the solver are hard-wired to 9×9. The methods that call them require box size 3 and 9×9 grids.
- PuzzleState.Puzzle.IsSolved: when a `false` is stored, PHP raises a TypeError. The model returns `Aborts` and says nothing about the exception itself.
- Default arguments: a call without arguments is modelled as the call with the default values: `generatePuzzle()` as `generatePuzzle(15)` (src/Puzzle.php:187, src/Sudoku.php:184), and `setPuzzle()` and both constructors as the call with `[]`, which is not a 9×9 grid and so installs the empty grid (src/Puzzle.php:39, 88; src/Sudoku.php:35, 59).
- The getters (`getPuzzle`, `getSolution`, `getCellSize`) are the fields themselves.
- Running time of the solver: only termination is modelled.
