/**
 * The `Puzzle` class of src/Puzzle.php: a puzzle, its solution and the box
 * size, changed by the setters, by solve and by generatePuzzle.
 *
 * The checker and the solver are hard-wired to 9×9 grids, so every method
 * that calls them requires `Ready()`: box size 3 and a 9×9 puzzle (and a
 * 9×9 solution, when there is one). The setters and the format check work
 * for any box size, as the source does.
 */
module PuzzleState {
  import opened Wrappers
  import opened Grids
  import Checker
  import Solver

  class Puzzle {
    /** `$puzzle`. */
    var puzzle: Grid
    /** `$solution`; None is the `false` solve stores when calculateSolution fails. */
    var solution: Option<Grid>
    /** `$CellSize`, the box side; a grid has cellSize² rows of cellSize² cells. */
    var cellSize: int

    /** The state the checker and the solver can work on. */
    predicate Ready()
      reads this
    {
      cellSize == 3 && IsGrid9(puzzle) && (solution.Some? ==> IsGrid9(solution.value))
    }

    /** isValidPuzzleFormat (src/Puzzle.php:299-312): cellSize² rows, each of cellSize² cells. */
    predicate IsValidPuzzleFormat(p: Grid)
      reads this
    {
      |p| == cellSize * cellSize && forall row :: row in p ==> |row| == cellSize * cellSize
    }

    /** generateEmptyPuzzle (src/Puzzle.php:287-290): the all-zero grid of the current size. */
    function GenerateEmptyPuzzle(): (g: Grid)
      reads this
      ensures IsValidPuzzleFormat(g)
      ensures forall row :: row in g ==> forall x :: x in row ==> x == 0
      ensures cellSize == 3 ==> g == EmptyGrid()
    {
      var n := cellSize * cellSize;
      assert n >= 0 by {
        if cellSize < 0 { assert n == (-cellSize) * (-cellSize); }
      }
      seq(n, _ => seq(n, _ => 0))
    }

    /** __construct (src/Puzzle.php:39-43): setPuzzle, then setSolution. */
    constructor (p: Grid, s: Grid)
      ensures cellSize == 3
      ensures puzzle == (if IsGrid9(p) then p else EmptyGrid())
      ensures solution == Some(if IsGrid9(s) then s else EmptyGrid())
      ensures Ready()
    {
      puzzle := [];
      solution := None;
      cellSize := 3;
      new;
      FormatIsGrid9(p);
      FormatIsGrid9(s);
      var _ := SetPuzzle(p);
      var _ := SetSolution(s);
    }

    /** With box size 3 the format check is exactly the 9×9 shape. */
    lemma FormatIsGrid9(p: Grid)
      requires cellSize == 3
      ensures IsValidPuzzleFormat(p) <==> IsGrid9(p)
    {
      if IsGrid9(p) {
        forall row | row in p ensures |row| == 9 {
          var i :| 0 <= i < 9 && p[i] == row;
        }
      }
    }

    /** setCellSize (src/Puzzle.php:61-69): stores any integer and nothing else. */
    method SetCellSize(size: Value) returns (ok: bool)
      modifies this
      ensures ok == size.Int?
      ensures cellSize == (if ok then size.i else old(cellSize))
      ensures puzzle == old(puzzle) && solution == old(solution)
    {
      if size.Int? {
        cellSize := size.i;
        return true;
      }
      return false;
    }

    /** setSolution (src/Puzzle.php:117-125): stores a grid of the right shape, refuses any other. */
    method SetSolution(s: Grid) returns (ok: bool)
      modifies this
      ensures ok == old(IsValidPuzzleFormat(s))
      ensures solution == (if ok then Some(s) else old(solution))
      ensures puzzle == old(puzzle) && cellSize == old(cellSize)
    {
      if IsValidPuzzleFormat(s) {
        solution := Some(s);
        return true;
      }
      return false;
    }

    /**
     * setPuzzle (src/Puzzle.php:88-99): stores a grid of the right shape, or
     * the empty grid instead, and resets the solution to the empty grid.
     */
    method SetPuzzle(p: Grid) returns (ok: bool)
      modifies this
      ensures ok == old(IsValidPuzzleFormat(p))
      ensures puzzle == (if ok then p else old(GenerateEmptyPuzzle()))
      ensures solution == Some(old(GenerateEmptyPuzzle()))
      ensures cellSize == old(cellSize)
    {
      if IsValidPuzzleFormat(p) {
        puzzle := p;
        var _ := SetSolution(GenerateEmptyPuzzle());
        return true;
      } else {
        puzzle := GenerateEmptyPuzzle();
        var _ := SetSolution(GenerateEmptyPuzzle());
        return false;
      }
    }

    /** isSolvable (src/Puzzle.php:173-176): the puzzle passes checkConstraints with zeros allowed. */
    method IsSolvable() returns (ok: bool)
      requires Ready()
      ensures ok == Consistent(puzzle, true)
    {
      ok := Checker.CheckConstraints(puzzle, true);
    }

    /**
     * solve (src/Puzzle.php:132-140): when the puzzle is solvable, stores what
     * calculateSolution returns — a solution of the puzzle, or `false` when
     * it has none — and returns true; otherwise changes nothing.
     */
    method Solve(pick: Solver.Shuffler) returns (ok: bool)
      requires Ready()
      modifies this
      ensures Ready() && puzzle == old(puzzle) && cellSize == old(cellSize)
      ensures ok == Consistent(puzzle, true)
      ensures !ok ==> solution == old(solution)
      ensures ok ==> (solution.Some? <==> HasCompletion(puzzle))
      ensures ok && solution.Some? ==> IsCompletion(puzzle, solution.value)
    {
      ok := IsSolvable();
      if ok {
        solution := Solver.CalculateSolution(puzzle, pick);
        return true;
      }
      return false;
    }

    /**
     * isSolved (src/Puzzle.php:147-164): the solution passes checkConstraints
     * with zeros refused and agrees with every non-zero puzzle cell. A stored
     * `false` is not an array, so the call aborts.
     */
    method IsSolved() returns (r: Outcome<bool>)
      requires Ready()
      ensures solution.None? <==> r.Aborts?
      ensures solution.Some? ==> r == Returns(IsCompletion(puzzle, solution.value))
    {
      if solution.None? {
        return Aborts;
      }
      var sol := solution.value;
      var valid := Checker.CheckConstraints(sol, false);
      if !valid {
        return Returns(false);
      }
      for rowIndex := 0 to 9
        invariant forall i, j :: 0 <= i < rowIndex && 0 <= j < 9 && puzzle[i][j] != 0 ==> sol[i][j] == puzzle[i][j]
      {
        var row := puzzle[rowIndex];
        for columnIndex := 0 to 9
          invariant forall j :: 0 <= j < columnIndex && row[j] != 0 ==> sol[rowIndex][j] == row[j]
        {
          if row[columnIndex] != 0 {
            if puzzle[rowIndex][columnIndex] != sol[rowIndex][columnIndex] {
              return Returns(false);
            }
          }
        }
      }
      return Returns(true);
    }

    /**
     * The by-reference loop of generatePuzzle (src/Puzzle.php:199-211):
     * counts the cells in row-major order and zeroes each one whose index is
     * not in `cells`.
     */
    method BlankOutside(cells: set<int>)
      requires IsGrid9(puzzle)
      modifies this
      ensures MaskOf(puzzle, old(puzzle), cells)
      ensures solution == old(solution) && cellSize == old(cellSize)
    {
      ghost var full := puzzle;
      var index := 0;
      for rowIndex := 0 to 9
        invariant IsGrid9(puzzle) && index == 9 * rowIndex
        invariant solution == old(solution) && cellSize == old(cellSize)
        invariant forall i, j :: 0 <= i < 9 && 0 <= j < 9 ==>
          puzzle[i][j] == (if i < rowIndex && Index(i, j) !in cells then 0 else full[i][j])
      {
        for columnIndex := 0 to 9
          invariant IsGrid9(puzzle) && index == 9 * rowIndex + columnIndex
          invariant solution == old(solution) && cellSize == old(cellSize)
          invariant forall i, j :: 0 <= i < 9 && 0 <= j < 9 ==>
            puzzle[i][j] ==
              (if (i < rowIndex || (i == rowIndex && j < columnIndex)) && Index(i, j) !in cells then 0 else full[i][j])
        {
          if index !in cells {
            puzzle := puzzle[rowIndex := puzzle[rowIndex][columnIndex := 0]];
          }
          index := index + 1;
        }
      }
    }

    /**
     * generatePuzzle (src/Puzzle.php:187-217): refuses a count that is not an
     * integer in 0..80; for 0 installs the empty grid; otherwise solves the
     * empty grid and blanks every cell whose row-major index is not among the
     * `count` indices `cells` that array_rand picked. Resets the solution.
     */
    method GeneratePuzzle(count: Value, pick: Solver.Shuffler, cells: set<int>) returns (ok: bool)
      requires Ready()
      requires count.Int? && 1 <= count.i <= 80 ==> |cells| == count.i && forall k :: k in cells ==> 0 <= k < 81
      modifies this
      ensures ok == (count.Int? && 0 <= count.i <= 80)
      ensures !ok ==> puzzle == old(puzzle) && solution == old(solution) && cellSize == old(cellSize)
      ensures ok ==> Ready() && cellSize == old(cellSize) && solution == Some(EmptyGrid())
      ensures ok && count.i == 0 ==> puzzle == EmptyGrid()
      ensures ok && count.i > 0 ==> exists s :: IsGrid9(s) && Consistent(s, false) && MaskOf(puzzle, s, cells)
      ensures ok && count.i > 0 ==> Givens(puzzle) == cells && |Givens(puzzle)| == count.i
      ensures ok ==> Consistent(puzzle, true) && HasCompletion(puzzle)
    {
      if !count.Int? || count.i < 0 || count.i > 80 {
        return false;
      }
      if count.i == 0 {
        puzzle := GenerateEmptyPuzzle();
        EmptyGridHasCompletion();
        assert Consistent(puzzle, true);
      } else {
        var full := Solver.CalculateSolution(GenerateEmptyPuzzle(), pick);
        EmptyGridHasCompletion();
        assert Consistent(EmptyGrid(), true);
        var s := full.value;
        puzzle := s;
        BlankOutside(cells);
        MaskGivens(puzzle, s, cells);
        MaskIsSolvable(puzzle, s, cells);
      }
      var _ := SetSolution(GenerateEmptyPuzzle());
      return true;
    }
  }
}
