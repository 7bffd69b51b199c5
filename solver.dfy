/**
 * The backtracking solver of src/Puzzle.php (calculateSolution and
 * getValidOptions); src/Sudoku.php holds the same two methods line for line.
 *
 * The random order of `shuffle` is an input: a `Shuffler` is given the grid
 * getValidOptions works on and then chooses which of the remaining options
 * comes next. Within one search the grid only gains values, so no grid is
 * searched twice, and every sequence of random orders the solver can draw
 * is the one some `Shuffler` gives; every result below holds for all of them.
 */
module Solver {
  import opened Wrappers
  import opened Grids

  /** The random choices of every `shuffle` in one search, keyed by the grid the options were drawn for. */
  type Shuffler = Grid -> seq<int> -> nat

  // ---------------------------------------------------------------------------
  // getValidOptions
  // ---------------------------------------------------------------------------

  /** `range(1, 9)`. */
  function Digits(): (r: seq<int>)
    ensures |r| == 9 && Distinct(r)
    ensures forall v :: v in r <==> 1 <= v <= 9
  {
    var r := seq(9, i => i + 1);
    assert forall v :: 1 <= v <= 9 ==> v in r by {
      forall v | 1 <= v <= 9 ensures v in r {
        assert r[v - 1] == v;
      }
    }
    r
  }

  lemma DistinctPrepend(x: int, s: seq<int>)
    ensures Distinct([x] + s) <==> x !in s && Distinct(s)
  {
    if x in s {
      var a :| 0 <= a < |s| && s[a] == x;
      assert ([x] + s)[0] == ([x] + s)[a + 1];
    }
    if Distinct([x] + s) {
      forall a, b | 0 <= a < b < |s| ensures s[a] != s[b] {
        assert ([x] + s)[a + 1] == s[a] && ([x] + s)[b + 1] == s[b];
      }
    }
    if x !in s && Distinct(s) {
      forall a, b | 0 <= a < b < |s| + 1 ensures ([x] + s)[a] != ([x] + s)[b] {
        if a > 0 { assert ([x] + s)[a] == s[a - 1]; }
        assert ([x] + s)[b] == s[b - 1];
      }
    }
  }

  /** `array_diff($s, $invalid)`: the entries of `s` that do not occur in `invalid`, in order. */
  function Without(s: seq<int>, invalid: seq<int>): (r: seq<int>)
    ensures forall v :: v in r <==> v in s && v !in invalid
    ensures Distinct(s) ==> Distinct(r)
  {
    if s == [] then []
    else
      var rest := Without(s[1..], invalid);
      assert Distinct(s) ==> s[0] !in s[1..] && Distinct(s[1..]) by {
        DistinctPrepend(s[0], s[1..]);
        assert s == [s[0]] + s[1..];
      }
      DistinctPrepend(s[0], rest);
      if s[0] in invalid then rest else [s[0]] + rest
  }

  /** `s` without its entry at `k`. */
  function RemoveAt(s: seq<int>, k: int): seq<int>
    requires 0 <= k < |s|
  {
    s[..k] + s[k + 1..]
  }

  /** Taking out one entry leaves the other values, and a repeat-free list stays so without the entry. */
  lemma RemoveAtFacts(s: seq<int>, k: int)
    requires 0 <= k < |s|
    ensures multiset(s) == multiset{s[k]} + multiset(RemoveAt(s, k))
    ensures Distinct(s) ==> s[k] !in RemoveAt(s, k) && Distinct(RemoveAt(s, k))
  {
    var rest := RemoveAt(s, k);
    assert s == s[..k] + [s[k]] + s[k + 1..];
    assert forall a :: 0 <= a < |rest| ==> rest[a] == s[if a < k then a else a + 1];
    if Distinct(s) {
      forall a, b | 0 <= a < b < |rest| ensures rest[a] != rest[b] {
        assert rest[a] == s[if a < k then a else a + 1];
      }
      forall a | 0 <= a < |rest| ensures rest[a] != s[k] {
        assert rest[a] == s[if a < k then a else a + 1];
      }
    }
  }

  /**
   * `shuffle($s)` with the random choices made by `pick`: the entry at
   * `pick(s) % |s|` comes first, then the rest shuffled the same way.
   */
  function Shuffle(s: seq<int>, pick: seq<int> -> nat): (r: seq<int>)
    ensures multiset(r) == multiset(s)
    ensures Distinct(s) ==> Distinct(r)
    decreases |s|
  {
    if s == [] then []
    else
      var k := pick(s) % |s|;
      var tail := Shuffle(RemoveAt(s, k), pick);
      RemoveAtFacts(s, k);
      assert s[k] in multiset(tail) <==> s[k] in multiset(RemoveAt(s, k));
      DistinctPrepend(s[k], tail);
      [s[k]] + tail
  }

  /** A shuffled list holds the same values. */
  lemma ShuffleMembers(s: seq<int>, pick: seq<int> -> nat)
    ensures forall v :: v in Shuffle(s, pick) <==> v in s
  {
    var r := Shuffle(s, pick);
    forall v ensures v in r <==> v in s {
      assert v in r <==> v in multiset(r);
      assert v in s <==> v in multiset(s);
    }
  }

  /** Column c of the grid, top to bottom: what the `for` loop appends, `$grid[$i][$columnIndex]`. */
  function ColumnOf(grid: Grid, c: int): (col: seq<int>)
    requires IsGrid9(grid) && 0 <= c < 9
    ensures |col| == 9 && forall i :: 0 <= i < 9 ==> col[i] == grid[i][c]
  {
    seq(9, i requires 0 <= i < 9 => grid[i][c])
  }

  /** A three-cell slice holds the three cells. */
  lemma SliceCells(row: seq<int>, b: int)
    requires |row| == 9 && 0 <= b <= 6
    ensures row[b..b + 3] == [row[b], row[b + 1], row[b + 2]]
  {
  }

  /**
   * The three-cell slices of the box rows, `array_slice($grid[$boxRow + d], $boxColumn, 3)`
   * for d = 0, 1, 2, one after the other: the nine cells of the box, row by row.
   */
  function BoxSlices(grid: Grid, boxRow: int, boxColumn: int): (r: seq<int>)
    requires IsGrid9(grid) && 0 <= boxRow <= 6 && 0 <= boxColumn <= 6
    ensures |r| == 9
    ensures forall a :: 0 <= a < 9 ==> r[a] == grid[boxRow + a / 3][boxColumn + a % 3]
  {
    SliceCells(grid[boxRow], boxColumn);
    SliceCells(grid[boxRow + 1], boxColumn);
    SliceCells(grid[boxRow + 2], boxColumn);
    grid[boxRow][boxColumn..boxColumn + 3] + grid[boxRow + 1][boxColumn..boxColumn + 3] +
    grid[boxRow + 2][boxColumn..boxColumn + 3]
  }

  /** A candidate is a digit missing from the cell's row, its column and the slices of its box. */
  lemma CandidateBySlices(grid: Grid, r: int, c: int, v: int)
    requires IsGrid9(grid) && 0 <= r < 9 && 0 <= c < 9
    ensures IsCandidate(grid, r, c, v) <==>
            1 <= v <= 9 && v !in grid[r] && v !in ColumnOf(grid, c) && v !in BoxSlices(grid, BoxStart(r), BoxStart(c))
  {
    var col, box := ColumnOf(grid, c), BoxSlices(grid, BoxStart(r), BoxStart(c));
    if v in grid[r] {
      var j :| 0 <= j < 9 && grid[r][j] == v;
    }
    if v in col {
      var i :| 0 <= i < 9 && col[i] == v;
    }
    if v in box {
      var a :| 0 <= a < 9 && box[a] == v;
      assert SameBox(BoxStart(r) + a / 3, BoxStart(c) + a % 3, r, c);
    }
    if v !in box {
      forall i, j | 0 <= i < 9 && 0 <= j < 9 && SameBox(i, j, r, c) ensures grid[i][j] != v {
        var a := 3 * (i - BoxStart(r)) + (j - BoxStart(c));
        assert a / 3 == i - BoxStart(r) && a % 3 == j - BoxStart(c);
        assert box[a] == grid[i][j];
      }
    }
    if v !in col {
      forall i | 0 <= i < 9 ensures grid[i][c] != v {
        assert col[i] == grid[i][c];
      }
    }
  }

  /** `$invalid`: the cell's row, then its column, then the three slices of its box. */
  function Excluded(grid: Grid, r: int, c: int): seq<int>
    requires IsGrid9(grid) && 0 <= r < 9 && 0 <= c < 9
  {
    grid[r] + ColumnOf(grid, c) + BoxSlices(grid, BoxStart(r), BoxStart(c))
  }

  /**
   * getValidOptions (src/Puzzle.php:388-421): 1..9 without the values of
   * the cell's row, column and box, in the order `pick(grid)` shuffles them to.
   */
  method GetValidOptions(grid: Grid, rowIndex: int, columnIndex: int, pick: Shuffler)
    returns (valid: seq<int>)
    requires IsGrid9(grid) && 0 <= rowIndex < 9 && 0 <= columnIndex < 9
    ensures forall v :: v in valid <==> IsCandidate(grid, rowIndex, columnIndex, v)
    ensures Distinct(valid)
    ensures valid == Shuffle(Without(Digits(), Excluded(grid, rowIndex, columnIndex)), pick(grid))
  {
    var invalid := grid[rowIndex];
    for i := 0 to 9
      invariant invalid == grid[rowIndex] + ColumnOf(grid, columnIndex)[..i]
    {
      assert ColumnOf(grid, columnIndex)[..i + 1] == ColumnOf(grid, columnIndex)[..i] + [grid[i][columnIndex]];
      invalid := invalid + [grid[i][columnIndex]];
    }
    assert ColumnOf(grid, columnIndex)[..9] == ColumnOf(grid, columnIndex);
    var boxRow := if rowIndex % 3 == 0 then rowIndex else rowIndex - rowIndex % 3;
    var boxColumn := if columnIndex % 3 == 0 then columnIndex else columnIndex - columnIndex % 3;
    assert boxRow == BoxStart(rowIndex) && boxColumn == BoxStart(columnIndex);
    // array_unique only drops repeats, and array_diff reads membership alone
    invalid := invalid + BoxSlices(grid, boxRow, boxColumn);
    var options := Without(Digits(), invalid);
    valid := Shuffle(options, pick(grid));
    ShuffleMembers(options, pick(grid));
    forall v ensures v in valid <==> IsCandidate(grid, rowIndex, columnIndex, v) {
      CandidateBySlices(grid, rowIndex, columnIndex, v);
    }
  }

  // ---------------------------------------------------------------------------
  // calculateSolution
  // ---------------------------------------------------------------------------

  /** `array_search(0, $row)`: the index of the first 0 of `row`, or None (PHP `false`). */
  function SearchZero(row: seq<int>): (k: Option<int>)
    ensures k.None? <==> 0 !in row
    ensures k.Some? ==> 0 <= k.value < |row| && row[k.value] == 0 && 0 !in row[..k.value]
  {
    if row == [] then None
    else if row[0] == 0 then Some(0)
    else match SearchZero(row[1..]) {
      case None => None
      case Some(k) =>
        assert row[..k + 1] == [row[0]] + row[1..][..k];
        Some(k + 1)
    }
  }

  /** (r, c) is the first 0 of the first row of `g` that has one. */
  predicate FirstZero(g: Grid, r: int, c: int)
    requires IsGrid9(g)
  {
    && 0 <= r < 9 && 0 <= c < 9 && g[r][c] == 0
    && (forall i, j :: 0 <= i < r && 0 <= j < 9 ==> g[i][j] != 0)
    && (forall j :: 0 <= j < c ==> g[r][j] != 0)
  }

  /** The first empty cell of `g` has no candidate: calculateSolution gives up there. */
  ghost predicate DeadEnd(g: Grid)
    requires IsGrid9(g)
  {
    exists r, c :: FirstZero(g, r, c) && forall v :: !IsCandidate(g, r, c, v)
  }

  /** A grid has only one first empty cell. */
  lemma FirstZeroUnique(g: Grid, r: int, c: int, r': int, c': int)
    requires IsGrid9(g) && FirstZero(g, r, c) && FirstZero(g, r', c')
    ensures r == r' && c == c'
  {
  }

  /** A first empty cell with a candidate is no dead end, and the grid is not full. */
  lemma CandidateNotDeadEnd(g: Grid, r: int, c: int, v: int)
    requires IsGrid9(g) && FirstZero(g, r, c) && IsCandidate(g, r, c, v)
    ensures !DeadEnd(g) && !NoZeros(g)
  {
    forall r', c' | FirstZero(g, r', c') ensures IsCandidate(g, r', c', v) {
      FirstZeroUnique(g, r, c, r', c');
    }
  }

  /**
   * The scan at the top of calculateSolution's loop (src/Puzzle.php:333-354):
   * the first zero of the first row that has one, or None when no cell is 0.
   */
  method FindTarget(puzzle: Grid) returns (target: Option<(int, int)>)
    requires IsGrid9(puzzle)
    ensures target.None? <==> NoZeros(puzzle)
    ensures target.Some? ==> FirstZero(puzzle, target.value.0, target.value.1)
  {
    for rowIndex := 0 to 9
      invariant forall i, j :: 0 <= i < rowIndex && 0 <= j < 9 ==> puzzle[i][j] != 0
    {
      var columnIndex := SearchZero(puzzle[rowIndex]);
      if columnIndex.None? {
        assert forall j :: 0 <= j < 9 ==> puzzle[rowIndex][j] in puzzle[rowIndex];
        continue;
      }
      assert forall j :: 0 <= j < columnIndex.value ==> puzzle[rowIndex][j] in puzzle[rowIndex][..columnIndex.value];
      return Some((rowIndex, columnIndex.value));
    }
    return None;
  }

  /**
   * Writing a candidate into an empty cell keeps the givens of the original
   * puzzle, keeps the checks passing, and leaves one empty cell fewer.
   */
  lemma AssignStep(puzzle0: Grid, puzzle: Grid, r: int, c: int, v: int)
    requires IsGrid9(puzzle0) && IsGrid9(puzzle) && Extends(puzzle0, puzzle)
    requires 0 <= r < 9 && 0 <= c < 9 && puzzle[r][c] == 0 && IsCandidate(puzzle, r, c, v)
    requires Consistent(puzzle0, true) ==> Consistent(puzzle, true)
    ensures Extends(puzzle0, Assign(puzzle, r, c, v))
    ensures Consistent(puzzle0, true) ==> Consistent(Assign(puzzle, r, c, v), true)
    ensures |ZeroCells(Assign(puzzle, r, c, v))| == |ZeroCells(puzzle)| - 1
  {
    AssignShrinksZeroCells(puzzle, r, c, v);
    if Consistent(puzzle, true) {
      AssignCandidateKeepsConsistent(puzzle, r, c, v);
    }
  }

  /** When every solution puts `v` into the empty cell (r, c), writing `v` there keeps the same solutions. */
  lemma ForcedKeepsCompletions(puzzle: Grid, r: int, c: int, v: int)
    requires IsGrid9(puzzle) && 0 <= r < 9 && 0 <= c < 9 && puzzle[r][c] == 0
    requires forall s :: IsCompletion(puzzle, s) ==> s[r][c] == v
    ensures forall s :: IsCompletion(puzzle, s) <==> IsCompletion(Assign(puzzle, r, c, v), s)
  {
    forall s ensures IsCompletion(puzzle, s) <==> IsCompletion(Assign(puzzle, r, c, v), s) {
      CompletionAfterAssign(puzzle, s, r, c, v);
    }
  }

  /** A solution of the grid with `v` written into (r, c) solves the grid itself. */
  lemma BranchCompletion(puzzle: Grid, r: int, c: int, v: int, s: Grid)
    requires IsGrid9(puzzle) && 0 <= r < 9 && 0 <= c < 9 && puzzle[r][c] == 0
    requires IsCompletion(Assign(puzzle, r, c, v), s)
    ensures IsCompletion(puzzle, s)
  {
    CompletionAfterAssign(puzzle, s, r, c, v);
  }

  /** When the grid with `v` written into (r, c) has no solution, no solution of the grid puts `v` there. */
  lemma BranchExcluded(puzzle: Grid, r: int, c: int, v: int)
    requires IsGrid9(puzzle) && 0 <= r < 9 && 0 <= c < 9 && puzzle[r][c] == 0
    requires !HasCompletion(Assign(puzzle, r, c, v))
    ensures forall s :: IsCompletion(puzzle, s) ==> s[r][c] != v
  {
    forall s | IsCompletion(puzzle, s) ensures s[r][c] != v {
      CompletionAfterAssign(puzzle, s, r, c, v);
    }
  }

  /** After a failed branch, no solution puts any option tried so far into the cell. */
  lemma BranchesExcluded(puzzle: Grid, r: int, c: int, options: seq<int>, idx: int)
    requires IsGrid9(puzzle) && 0 <= r < 9 && 0 <= c < 9 && puzzle[r][c] == 0
    requires 0 <= idx < |options| && !HasCompletion(Assign(puzzle, r, c, options[idx]))
    requires forall s :: IsCompletion(puzzle, s) ==> s[r][c] !in options[..idx]
    ensures forall s :: IsCompletion(puzzle, s) ==> s[r][c] !in options[..idx + 1]
  {
    BranchExcluded(puzzle, r, c, options[idx]);
    assert options[..idx + 1] == options[..idx] + [options[idx]];
  }

  /**
   * calculateSolution (src/Puzzle.php:327-377). A grid comes back only when
   * it is full and keeps every given; it solves the puzzle whenever the
   * puzzle passed checkConstraints with zeros allowed. None (PHP `false`)
   * comes back only when the puzzle has no solution at all. Whether or not
   * the puzzle passes the checks, a full grid comes back unchanged and a
   * first empty cell without candidates gives None.
   */
  method CalculateSolution(puzzle0: Grid, pick: Shuffler) returns (result: Option<Grid>)
    requires IsGrid9(puzzle0)
    ensures result.Some? ==> IsGrid9(result.value) && NoZeros(result.value) && Extends(puzzle0, result.value)
    ensures result.Some? && Consistent(puzzle0, true) ==> IsCompletion(puzzle0, result.value)
    ensures result.None? ==> !HasCompletion(puzzle0)
    ensures NoZeros(puzzle0) ==> result == Some(puzzle0)
    ensures DeadEnd(puzzle0) ==> result.None?
    decreases |ZeroCells(puzzle0)|, 1
  {
    var puzzle := puzzle0;
    ghost var moved, r0, c0, v0 := false, 0, 0, 0;
    while true
      invariant IsGrid9(puzzle) && Extends(puzzle0, puzzle)
      invariant Consistent(puzzle0, true) ==> Consistent(puzzle, true)
      invariant forall s :: IsCompletion(puzzle0, s) <==> IsCompletion(puzzle, s)
      invariant |ZeroCells(puzzle)| <= |ZeroCells(puzzle0)|
      invariant !moved ==> puzzle == puzzle0
      invariant moved ==> IsGrid9(puzzle0) && FirstZero(puzzle0, r0, c0) && IsCandidate(puzzle0, r0, c0, v0)
      decreases |ZeroCells(puzzle)|
    {
      var target := FindTarget(puzzle);
      if target.None? {
        if Consistent(puzzle, true) {
          FullGridIsOwnCompletion(puzzle);
        }
        if moved {
          CandidateNotDeadEnd(puzzle0, r0, c0, v0);
        } else {
          assert !DeadEnd(puzzle);
        }
        return Some(puzzle);
      }
      var (r, c) := target.value;
      var options := GetValidOptions(puzzle, r, c, pick);
      forall s | IsCompletion(puzzle, s) ensures s[r][c] in options {
        CompletionValueIsCandidate(puzzle, s, r, c);
      }
      if |options| == 0 {
        assert !HasCompletion(puzzle);
        return None;
      }
      if |options| == 1 {
        assert options == [options[0]];
        forall s | IsCompletion(puzzle, s) ensures s[r][c] == options[0] {
          assert s[r][c] in [options[0]];
        }
        AssignStep(puzzle0, puzzle, r, c, options[0]);
        ForcedKeepsCompletions(puzzle, r, c, options[0]);
        if !moved {
          moved, r0, c0, v0 := true, r, c, options[0];
        }
        puzzle := Assign(puzzle, r, c, options[0]);
        continue;
      }
      result := TryOptions(puzzle, r, c, options, pick);
      if result.Some? {
        CandidateNotDeadEnd(puzzle, r, c, options[0]);
        if moved {
          CandidateNotDeadEnd(puzzle0, r0, c0, v0);
        }
      }
      return result;
    }
  }

  /**
   * The `foreach` over the options of calculateSolution (src/Puzzle.php:365-375):
   * each option in turn is written into a copy of the grid and searched;
   * the first grid found comes back, and None when every option failed.
   */
  method TryOptions(puzzle: Grid, r: int, c: int, options: seq<int>, pick: Shuffler) returns (result: Option<Grid>)
    requires IsGrid9(puzzle) && FirstZero(puzzle, r, c)
    requires forall v :: v in options ==> IsCandidate(puzzle, r, c, v)
    ensures result.Some? ==> IsGrid9(result.value) && NoZeros(result.value) && Extends(puzzle, result.value)
    ensures result.Some? && Consistent(puzzle, true) ==> IsCompletion(puzzle, result.value)
    ensures result.None? ==> forall s :: IsCompletion(puzzle, s) ==> s[r][c] !in options
    decreases |ZeroCells(puzzle)|, 0
  {
    var idx := 0;
    while idx < |options|
      invariant 0 <= idx <= |options|
      invariant forall s :: IsCompletion(puzzle, s) ==> s[r][c] !in options[..idx]
    {
      var value := options[idx];
      assert value in options;
      var tempPuzzle := Assign(puzzle, r, c, value);
      AssignStep(puzzle, puzzle, r, c, value);
      result := CalculateSolution(tempPuzzle, pick);
      if result.Some? {
        if Consistent(puzzle, true) {
          BranchCompletion(puzzle, r, c, value, result.value);
        }
        return result;
      }
      BranchesExcluded(puzzle, r, c, options, idx);
      idx := idx + 1;
    }
    assert options[..idx] == options;
    return None;
  }
}
