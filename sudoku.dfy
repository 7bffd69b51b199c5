/**
 * The older `Sudoku` class of src/Sudoku.php: a puzzle, its solution and an
 * `isSolved` flag. Its calculateSolution and getValidOptions are the same
 * code as in src/Puzzle.php and are modelled once, in module Solver; its
 * isSolvable is checkConstraints with zeros allowed (module Checker), and
 * its checkForViolations is checkContainerForViolations with zeros allowed.
 *
 * generatePuzzle here blanks cells to `null` rather than 0, so a cell is an
 * `Option<int>`. Every reader compares cells with `==` against 0, which
 * `null` passes, so the checker and the solver see a blank as 0: `Numbers`.
 */
module SudokuState {
  import opened Wrappers
  import opened Grids
  import Checker
  import Solver

  /** A cell: an integer, or None for the `null` of a blanked cell. */
  type Board = seq<seq<Option<int>>>

  /** The board as the checker and the solver read it: a blank is 0. */
  function Numbers(p: Board): (g: Grid)
    ensures |g| == |p| && forall i :: 0 <= i < |p| ==> |g[i]| == |p[i]|
  {
    seq(|p|, i requires 0 <= i < |p| =>
      seq(|p[i]|, j requires 0 <= j < |p[i]| => if p[i][j].Some? then p[i][j].value else 0))
  }

  /** A grid of integers as a board: `$this->puzzle = $this->calculateSolution(...)`. */
  function Lift(g: Grid): (p: Board)
    ensures Numbers(p) == g
    ensures forall i, j :: 0 <= i < |g| && 0 <= j < |g[i]| ==> p[i][j].Some?
  {
    var p := seq(|g|, i requires 0 <= i < |g| => seq(|g[i]|, j requires 0 <= j < |g[i]| => Some(g[i][j])));
    assert forall i :: 0 <= i < |g| ==> Numbers(p)[i] == g[i];
    p
  }

  /** isValidPuzzleFormat (src/Sudoku.php:232-245): nine rows of nine cells. */
  predicate IsValidPuzzleFormat(p: Board) {
    |p| == 9 && forall row :: row in p ==> |row| == 9
  }

  /** A board has the right shape exactly when the grid the checker reads is 9×9. */
  lemma FormatIsGrid9(p: Board)
    ensures IsValidPuzzleFormat(p) <==> IsGrid9(Numbers(p))
  {
    if IsGrid9(Numbers(p)) {
      forall row | row in p ensures |row| == 9 {
        var i :| 0 <= i < |p| && p[i] == row;
      }
    }
  }

  /** generateEmptyPuzzle (src/Sudoku.php:220-223): nine rows of nine zeros. */
  function GenerateEmptyPuzzle(): (p: Board)
    ensures IsValidPuzzleFormat(p) && Numbers(p) == EmptyGrid()
    ensures forall row :: row in p ==> forall x :: x in row ==> x == Some(0)
  {
    Lift(EmptyGrid())
  }

  /** checkForViolations (src/Sudoku.php:366-379): zeros are dropped, the rest must not repeat. */
  method CheckForViolations(container: seq<int>) returns (ok: bool)
    ensures ok == NonZeroDistinct(container)
  {
    ok := Checker.CheckContainerForViolations(container, true);
  }

  /** `b` is `s` with every cell whose row-major index is outside `cells` set to `null`. */
  predicate Blanked(b: Board, s: Grid, cells: set<int>)
    requires IsGrid9(s)
  {
    IsValidPuzzleFormat(b) &&
    forall i, j :: 0 <= i < 9 && 0 <= j < 9 ==> b[i][j] == (if Index(i, j) in cells then Some(s[i][j]) else None)
  }

  /** A board blanked with `null` reads as the grid blanked with 0. */
  lemma BlankedReadsAsMask(b: Board, s: Grid, cells: set<int>)
    requires IsGrid9(s) && Blanked(b, s, cells)
    ensures MaskOf(Numbers(b), s, cells)
  {
    FormatIsGrid9(b);
    assert |b[0]| == 9 by { assert b[0] in b; }
  }

  class Sudoku {
    /** `$puzzle`. */
    var puzzle: Board
    /** `$solution`; None is the `false` solve stores when calculateSolution fails. */
    var solution: Option<Grid>
    /** `$isSolved`. */
    var isSolved: bool

    /**
     * The puzzle always has the right shape, and the flag is set only while
     * the solution is what solve computed for the current puzzle.
     */
    ghost predicate Valid()
      reads this
    {
      && IsValidPuzzleFormat(puzzle)
      && IsGrid9(Numbers(puzzle))
      && (isSolved ==>
            && Consistent(Numbers(puzzle), true)
            && (solution.Some? <==> HasCompletion(Numbers(puzzle)))
            && (solution.Some? ==> IsCompletion(Numbers(puzzle), solution.value)))
    }

    /** __construct (src/Sudoku.php:35-38): setPuzzle; the solution starts as `[]`. */
    constructor (p: Board)
      ensures Valid() && !isSolved && solution == Some([])
      ensures puzzle == (if IsValidPuzzleFormat(p) then p else GenerateEmptyPuzzle())
    {
      puzzle := [];
      solution := Some([]);
      isSolved := false;
      new;
      var _ := SetPuzzle(p);
    }

    /**
     * setPuzzle (src/Sudoku.php:59-72): clears the flag, then stores a board
     * of the right shape, or the empty board instead.
     */
    method SetPuzzle(p: Board) returns (ok: bool)
      modifies this
      ensures Valid() && !isSolved && solution == old(solution)
      ensures ok == IsValidPuzzleFormat(p)
      ensures puzzle == (if ok then p else GenerateEmptyPuzzle())
    {
      isSolved := false;
      if IsValidPuzzleFormat(p) {
        puzzle := p;
        FormatIsGrid9(p);
        return true;
      } else {
        puzzle := GenerateEmptyPuzzle();
        return false;
      }
    }

    /** isSolvable (src/Sudoku.php:120-173): checkConstraints with zeros allowed, blanks read as 0. */
    method IsSolvable() returns (ok: bool)
      requires Valid()
      ensures ok == Consistent(Numbers(puzzle), true)
    {
      ok := Checker.CheckConstraints(Numbers(puzzle), true);
    }

    /**
     * solve (src/Sudoku.php:79-91): when the puzzle is solvable, stores what
     * calculateSolution returns and sets the flag; otherwise clears the flag
     * and keeps the solution.
     */
    method Solve(pick: Solver.Shuffler) returns (ok: bool)
      requires Valid()
      modifies this
      ensures Valid() && puzzle == old(puzzle)
      ensures ok == Consistent(Numbers(puzzle), true) && isSolved == ok
      ensures !ok ==> solution == old(solution)
      ensures ok ==> (solution.Some? <==> HasCompletion(Numbers(puzzle)))
    {
      ok := IsSolvable();
      if ok {
        solution := Solver.CalculateSolution(Numbers(puzzle), pick);
        isSolved := true;
        return true;
      } else {
        isSolved := false;
        return false;
      }
    }

    /**
     * isSolved (src/Sudoku.php:108-111): the flag. While it is set the puzzle
     * is solvable and the stored solution solves it, or is `false` exactly
     * when no solution exists.
     */
    function IsSolved(): (b: bool)
      reads this
      requires Valid()
      ensures b ==> Consistent(Numbers(puzzle), true)
      ensures b ==> (solution.Some? <==> HasCompletion(Numbers(puzzle)))
      ensures b && solution.Some? ==> IsCompletion(Numbers(puzzle), solution.value)
    {
      isSolved
    }

    /**
     * The by-reference loop of generatePuzzle (src/Sudoku.php:196-208):
     * counts the cells in row-major order and sets each one whose index is
     * not in `cells` to `null`.
     */
    method BlankOutside(cells: set<int>)
      requires IsValidPuzzleFormat(puzzle)
      modifies this
      ensures IsValidPuzzleFormat(puzzle)
      ensures forall i, j :: 0 <= i < 9 && 0 <= j < 9 ==>
        puzzle[i][j] == (if Index(i, j) in cells then old(puzzle)[i][j] else None)
      ensures solution == old(solution) && isSolved == old(isSolved)
    {
      ghost var full := puzzle;
      assert forall i :: 0 <= i < 9 ==> |puzzle[i]| == 9 by {
        forall i | 0 <= i < 9 ensures |puzzle[i]| == 9 { assert puzzle[i] in puzzle; }
      }
      var index := 0;
      for rowIndex := 0 to 9
        invariant |puzzle| == 9 && (forall i :: 0 <= i < 9 ==> |puzzle[i]| == 9) && index == 9 * rowIndex
        invariant solution == old(solution) && isSolved == old(isSolved)
        invariant forall i, j :: 0 <= i < 9 && 0 <= j < 9 ==>
          puzzle[i][j] == (if i < rowIndex && Index(i, j) !in cells then None else full[i][j])
      {
        for columnIndex := 0 to 9
          invariant |puzzle| == 9 && (forall i :: 0 <= i < 9 ==> |puzzle[i]| == 9)
          invariant index == 9 * rowIndex + columnIndex
          invariant solution == old(solution) && isSolved == old(isSolved)
          invariant forall i, j :: 0 <= i < 9 && 0 <= j < 9 ==>
            puzzle[i][j] ==
              (if (i < rowIndex || (i == rowIndex && j < columnIndex)) && Index(i, j) !in cells then None else full[i][j])
        {
          if index !in cells {
            puzzle := puzzle[rowIndex := puzzle[rowIndex][columnIndex := None]];
          }
          index := index + 1;
        }
      }
      assert forall row :: row in puzzle ==> |row| == 9;
    }

    /**
     * generatePuzzle (src/Sudoku.php:184-213): refuses a count that is not an
     * integer in 0..80; for 0 installs the empty board; otherwise solves the
     * empty grid and sets to `null` every cell whose row-major index is not
     * among the `count` indices `cells` that array_rand picked. Clears the
     * flag and keeps the solution.
     */
    method GeneratePuzzle(count: Value, pick: Solver.Shuffler, cells: set<int>) returns (ok: bool)
      requires Valid()
      requires count.Int? && 1 <= count.i <= 80 ==> |cells| == count.i && forall k :: k in cells ==> 0 <= k < 81
      modifies this
      ensures Valid()
      ensures ok == (count.Int? && 0 <= count.i <= 80)
      ensures !ok ==> puzzle == old(puzzle) && solution == old(solution) && isSolved == old(isSolved)
      ensures ok ==> !isSolved && solution == old(solution)
      ensures ok && count.i == 0 ==> puzzle == GenerateEmptyPuzzle()
      ensures ok && count.i > 0 ==> exists s :: IsGrid9(s) && Consistent(s, false) && Blanked(puzzle, s, cells)
      ensures ok && count.i > 0 ==> Givens(Numbers(puzzle)) == cells && |Givens(Numbers(puzzle))| == count.i
      ensures ok ==> Consistent(Numbers(puzzle), true) && HasCompletion(Numbers(puzzle))
    {
      if !count.Int? || count.i < 0 || count.i > 80 {
        return false;
      }
      if count.i == 0 {
        puzzle := GenerateEmptyPuzzle();
        EmptyGridHasCompletion();
        assert Consistent(Numbers(puzzle), true);
      } else {
        var full := Solver.CalculateSolution(Numbers(GenerateEmptyPuzzle()), pick);
        EmptyGridHasCompletion();
        assert Consistent(EmptyGrid(), true);
        var s := full.value;
        puzzle := Lift(s);
        FormatIsGrid9(puzzle);
        BlankOutside(cells);
        assert Blanked(puzzle, s, cells);
        BlankedReadsAsMask(puzzle, s, cells);
        MaskGivens(Numbers(puzzle), s, cells);
        MaskIsSolvable(Numbers(puzzle), s, cells);
      }
      isSolved := false;
      return true;
    }
  }
}
