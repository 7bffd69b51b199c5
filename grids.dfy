/**
 * The 9×9 grid both engine classes are hard-wired to, the rules a grid can
 * satisfy, and the facts about those rules that the checker and the solver
 * rely on. A grid is a list of rows of integers; 0 marks an empty cell.
 */
module Grids {

  type Grid = seq<seq<int>>

  /** Nine rows of nine cells: the only shape the checker and the solver index safely. */
  predicate IsGrid9(g: Grid) {
    |g| == 9 && forall i :: 0 <= i < 9 ==> |g[i]| == 9
  }

  /** First row (or column) of the box holding row (or column) `k`: `$k - $k % 3`. */
  function BoxStart(k: int): int {
    k - k % 3
  }

  /** Cells (i, j) and (i', j') lie in the same 3×3 box. */
  predicate SameBox(i: int, j: int, i': int, j': int) {
    i / 3 == i' / 3 && j / 3 == j' / 3
  }

  /** No value occurs twice in `s`. */
  predicate Distinct(s: seq<int>) {
    forall a, b :: 0 <= a < b < |s| ==> s[a] != s[b]
  }

  /** No non-zero value occurs twice in `c`. */
  predicate NonZeroDistinct(c: seq<int>) {
    forall a, b :: 0 <= a < b < |c| && c[a] != 0 ==> c[a] != c[b]
  }

  /** What checkContainerForViolations accepts: no zero unless zeros are allowed, and no repeated non-zero value. */
  predicate ContainerValid(c: seq<int>, allowZeros: bool) {
    (allowZeros || 0 !in c) && NonZeroDistinct(c)
  }

  predicate RowsValid(g: Grid, allowZeros: bool)
    requires IsGrid9(g)
  {
    forall i :: 0 <= i < 9 ==> ContainerValid(g[i], allowZeros)
  }

  /** Every non-zero cell holds one of 1..9. */
  predicate InRange(g: Grid)
    requires IsGrid9(g)
  {
    forall i, j :: 0 <= i < 9 && 0 <= j < 9 && g[i][j] != 0 ==> 1 <= g[i][j] <= 9
  }

  predicate ColumnsDistinct(g: Grid)
    requires IsGrid9(g)
  {
    forall i, i', j :: 0 <= i < i' < 9 && 0 <= j < 9 && g[i][j] != 0 ==> g[i][j] != g[i'][j]
  }

  predicate BoxesDistinct(g: Grid)
    requires IsGrid9(g)
  {
    forall i, j, i', j' ::
      0 <= i < 9 && 0 <= j < 9 && 0 <= i' < 9 && 0 <= j' < 9 &&
      (i != i' || j != j') && SameBox(i, j, i', j') && g[i][j] != 0
      ==> g[i][j] != g[i'][j']
  }

  /**
   * The rules checkConstraints enforces: every row passes the container check
   * (zeros only when allowed), every non-zero cell is in 1..9, and no column
   * or box repeats a non-zero value.
   */
  predicate Consistent(g: Grid, allowZeros: bool)
    requires IsGrid9(g)
  {
    RowsValid(g, allowZeros) && InRange(g) && ColumnsDistinct(g) && BoxesDistinct(g)
  }

  predicate NoZeros(g: Grid)
    requires IsGrid9(g)
  {
    forall i, j :: 0 <= i < 9 && 0 <= j < 9 ==> g[i][j] != 0
  }

  /** `v` may go into cell (r, c): it is in 1..9 and absent from the cell's row, column and box. */
  predicate IsCandidate(g: Grid, r: int, c: int, v: int)
    requires IsGrid9(g) && 0 <= r < 9 && 0 <= c < 9
  {
    && 1 <= v <= 9
    && (forall j :: 0 <= j < 9 ==> g[r][j] != v)
    && (forall i :: 0 <= i < 9 ==> g[i][c] != v)
    && (forall i, j :: 0 <= i < 9 && 0 <= j < 9 && SameBox(i, j, r, c) ==> g[i][j] != v)
  }

  /** `$puzzle[r][c] = v` on a copy of the grid. */
  function Assign(g: Grid, r: int, c: int, v: int): (h: Grid)
    requires IsGrid9(g) && 0 <= r < 9 && 0 <= c < 9
    ensures IsGrid9(h) && h[r][c] == v
    ensures forall i, j :: 0 <= i < 9 && 0 <= j < 9 && (i != r || j != c) ==> h[i][j] == g[i][j]
  {
    g[r := g[r][c := v]]
  }

  /** `s` keeps every given (non-zero cell) of `g`. */
  predicate Extends(g: Grid, s: Grid)
    requires IsGrid9(g) && IsGrid9(s)
  {
    forall i, j :: 0 <= i < 9 && 0 <= j < 9 && g[i][j] != 0 ==> s[i][j] == g[i][j]
  }

  /** `s` is a solution of `g`: full, valid, and keeping the givens of `g`. */
  predicate IsCompletion(g: Grid, s: Grid)
    requires IsGrid9(g)
  {
    IsGrid9(s) && Extends(g, s) && Consistent(s, false)
  }

  ghost predicate HasCompletion(g: Grid)
    requires IsGrid9(g)
  {
    exists s :: IsCompletion(g, s)
  }

  /** The positions of the empty cells; the solver's termination measure. */
  function ZeroCells(g: Grid): set<(int, int)>
    requires IsGrid9(g)
  {
    set i, j | 0 <= i < 9 && 0 <= j < 9 && g[i][j] == 0 :: (i, j)
  }

  /** The empty 9×9 grid, `array_fill(0, 9, array_fill(0, 9, 0))`. */
  function EmptyGrid(): (g: Grid)
    ensures IsGrid9(g)
  {
    seq(9, _ => seq(9, _ => 0))
  }

  /** Puzzle positions are numbered 0..80 in row-major order, as generatePuzzle's `$i++` counts them. */
  function Index(i: int, j: int): int {
    9 * i + j
  }

  /**
   * `p` is `s` with every cell whose row-major index is outside `cells`
   * blanked to 0: the grid generatePuzzle leaves in Puzzle.php.
   */
  predicate MaskOf(p: Grid, s: Grid, cells: set<int>)
    requires IsGrid9(s)
  {
    IsGrid9(p) &&
    forall i, j :: 0 <= i < 9 && 0 <= j < 9 ==> p[i][j] == (if Index(i, j) in cells then s[i][j] else 0)
  }

  /** The row-major indices of the non-zero cells: the givens a generated puzzle keeps. */
  function Givens(p: Grid): set<int>
    requires IsGrid9(p)
  {
    set i, j | 0 <= i < 9 && 0 <= j < 9 && p[i][j] != 0 :: Index(i, j)
  }

  // ---------------------------------------------------------------------------
  // Facts about the rules
  // ---------------------------------------------------------------------------

  /** Filling an empty cell with a non-zero value removes exactly that cell from the empty ones. */
  lemma AssignShrinksZeroCells(g: Grid, r: int, c: int, v: int)
    requires IsGrid9(g) && 0 <= r < 9 && 0 <= c < 9 && g[r][c] == 0 && v != 0
    ensures ZeroCells(Assign(g, r, c, v)) == ZeroCells(g) - {(r, c)}
    ensures |ZeroCells(Assign(g, r, c, v))| == |ZeroCells(g)| - 1
  {
    var h := Assign(g, r, c, v);
    assert (r, c) in ZeroCells(g);
    assert ZeroCells(h) == ZeroCells(g) - {(r, c)} by {
      forall p | p in ZeroCells(g) - {(r, c)} ensures p in ZeroCells(h) {
        assert h[p.0][p.1] == g[p.0][p.1];
      }
    }
  }

  /** A grid without empty cells has no empty-cell positions, and conversely. */
  lemma NoZerosIffNoZeroCells(g: Grid)
    requires IsGrid9(g)
    ensures NoZeros(g) <==> ZeroCells(g) == {}
  {
    if !NoZeros(g) {
      var i, j :| 0 <= i < 9 && 0 <= j < 9 && g[i][j] == 0;
      assert (i, j) in ZeroCells(g);
    }
  }

  /** Writing a candidate into an empty cell of a grid that passes the checks with zeros allowed keeps it passing. */
  lemma {:induction false} AssignCandidateKeepsConsistent(g: Grid, r: int, c: int, v: int)
    requires IsGrid9(g) && 0 <= r < 9 && 0 <= c < 9
    requires Consistent(g, true) && g[r][c] == 0 && IsCandidate(g, r, c, v)
    ensures Consistent(Assign(g, r, c, v), true)
  {
    var h := Assign(g, r, c, v);
    forall i | 0 <= i < 9 ensures ContainerValid(h[i], true) {
      forall a, b | 0 <= a < b < 9 && h[i][a] != 0 ensures h[i][a] != h[i][b] {
        if i == r && a == c {
          assert h[i][b] == g[r][b];
        } else if i == r && b == c {
          assert h[i][a] == g[r][a];
        } else {
          assert h[i][a] == g[i][a] && h[i][b] == g[i][b];
        }
      }
    }
    forall i, i', j | 0 <= i < i' < 9 && 0 <= j < 9 && h[i][j] != 0 ensures h[i][j] != h[i'][j] {
      if j == c && i == r {
        assert h[i'][j] == g[i'][c];
      } else if j == c && i' == r {
        assert h[i][j] == g[i][c];
      } else {
        assert h[i][j] == g[i][j] && h[i'][j] == g[i'][j];
      }
    }
    forall i, j, i', j' |
      0 <= i < 9 && 0 <= j < 9 && 0 <= i' < 9 && 0 <= j' < 9 &&
      (i != i' || j != j') && SameBox(i, j, i', j') && h[i][j] != 0
      ensures h[i][j] != h[i'][j']
    {
      if i == r && j == c {
        assert h[i'][j'] == g[i'][j'] && SameBox(i', j', r, c);
      } else if i' == r && j' == c {
        assert h[i][j] == g[i][j] && SameBox(i, j, r, c);
      } else {
        assert h[i][j] == g[i][j] && h[i'][j'] == g[i'][j'];
      }
    }
  }

  /** The value a solution puts into an empty cell is one of that cell's candidates. */
  lemma CompletionValueIsCandidate(g: Grid, s: Grid, r: int, c: int)
    requires IsGrid9(g) && 0 <= r < 9 && 0 <= c < 9 && g[r][c] == 0
    requires IsCompletion(g, s)
    ensures IsCandidate(g, r, c, s[r][c])
  {
    var v := s[r][c];
    assert v in s[r];
    forall j | 0 <= j < 9 ensures g[r][j] != v {
      if g[r][j] != 0 && j < c {
        assert s[r][j] != s[r][c];
      } else if g[r][j] != 0 && c < j {
        assert s[r][c] != s[r][j];
      }
    }
    forall i | 0 <= i < 9 ensures g[i][c] != v {
      if g[i][c] != 0 && i < r {
        assert s[i][c] != s[r][c];
      } else if g[i][c] != 0 && r < i {
        assert s[r][c] != s[i][c];
      }
    }
    forall i, j | 0 <= i < 9 && 0 <= j < 9 && SameBox(i, j, r, c) ensures g[i][j] != v {
      if g[i][j] != 0 {
        assert s[i][j] == g[i][j] && (i != r || j != c);
      }
    }
  }

  /** A solution of `g` is a solution of `g` with one empty cell filled in as the solution has it, and conversely. */
  lemma CompletionAfterAssign(g: Grid, s: Grid, r: int, c: int, v: int)
    requires IsGrid9(g) && 0 <= r < 9 && 0 <= c < 9 && g[r][c] == 0
    ensures IsCompletion(Assign(g, r, c, v), s) ==> IsCompletion(g, s)
    ensures IsCompletion(g, s) && s[r][c] == v ==> IsCompletion(Assign(g, r, c, v), s)
  {
  }

  /** A grid with no empty cell that passes with zeros allowed also passes with zeros refused, and is its own solution. */
  lemma FullGridIsOwnCompletion(g: Grid)
    requires IsGrid9(g) && Consistent(g, true) && NoZeros(g)
    ensures Consistent(g, false) && IsCompletion(g, g)
  {
    forall i | 0 <= i < 9 ensures 0 !in g[i] {
      forall j | 0 <= j < 9 ensures g[i][j] != 0 {
      }
    }
  }

  /** A grid that has a solution passes the checks with zeros allowed. */
  lemma CompletableIsConsistent(g: Grid, s: Grid)
    requires IsGrid9(g) && IsCompletion(g, s)
    ensures Consistent(g, true)
  {
    forall i | 0 <= i < 9 ensures NonZeroDistinct(g[i]) {
      forall a, b | 0 <= a < b < 9 && g[i][a] != 0 ensures g[i][a] != g[i][b] {
        assert s[i][a] != s[i][b];
      }
    }
    forall i, i', j | 0 <= i < i' < 9 && 0 <= j < 9 && g[i][j] != 0 ensures g[i][j] != g[i'][j] {
      assert s[i][j] != s[i'][j];
    }
  }

  /** Every solution of the empty grid is a valid full grid, and every valid full grid solves it. */
  lemma EmptyGridCompletions(s: Grid)
    ensures IsCompletion(EmptyGrid(), s) <==> IsGrid9(s) && Consistent(s, false)
  {
  }

  // ---------------------------------------------------------------------------
  // A valid full grid, so the empty grid has a solution
  // ---------------------------------------------------------------------------

  /** The classic shifted-rows pattern: row i is 1..9 rotated by 3 * (i % 3) + i / 3. */
  function Pattern(i: int, j: int): int {
    (3 * (i % 3) + i / 3 + j) % 9 + 1
  }

  function PatternGrid(): (g: Grid)
    ensures IsGrid9(g)
    ensures forall i, j :: 0 <= i < 9 && 0 <= j < 9 ==> g[i][j] == Pattern(i, j)
  {
    seq(9, i => seq(9, j => Pattern(i, j)))
  }

  lemma ModNineDiffers(a: int, b: int)
    requires 0 <= a && 0 <= b && a != b && -9 < a - b < 9
    ensures a % 9 != b % 9
  {
    var qa, qb := a / 9, b / 9;
    assert a == 9 * qa + a % 9 && b == 9 * qb + b % 9;
    if qa == qb {
      assert a % 9 - b % 9 == a - b;
    } else {
      assert -9 < a % 9 - b % 9 < 9;
      assert (a - b) - (a % 9 - b % 9) == 9 * (qa - qb);
    }
  }

  /** The rotation of row i, 3 * (i % 3) + i / 3, differs between different rows. */
  lemma ShiftDistinct(i: int, i': int)
    requires 0 <= i < 9 && 0 <= i' < 9 && i != i'
    ensures 3 * (i % 3) + i / 3 != 3 * (i' % 3) + i' / 3
  {
    assert i == 3 * (i / 3) + i % 3 && i' == 3 * (i' / 3) + i' % 3;
    assert 0 <= i / 3 < 3 && 0 <= i' / 3 < 3;
  }

  /** Two different cells of one row, column or box get different pattern values. */
  lemma PatternDistinct(i: int, j: int, i': int, j': int)
    requires 0 <= i < 9 && 0 <= j < 9 && 0 <= i' < 9 && 0 <= j' < 9 && (i != i' || j != j')
    requires i == i' || j == j' || SameBox(i, j, i', j')
    ensures Pattern(i, j) != Pattern(i', j')
  {
    var x, x' := 3 * (i % 3) + i / 3, 3 * (i' % 3) + i' / 3;
    assert 0 <= x < 9 && 0 <= x' < 9;
    if i == i' {
      ModNineDiffers(x + j, x' + j');
    } else if j == j' {
      ShiftDistinct(i, i');
      ModNineDiffers(x + j, x' + j');
    } else {
      assert i / 3 == i' / 3 && j / 3 == j' / 3;
      assert i % 3 != i' % 3 by {
        assert i == 3 * (i / 3) + i % 3 && i' == 3 * (i' / 3) + i' % 3;
      }
      assert j - j' == j % 3 - j' % 3 by {
        assert j == 3 * (j / 3) + j % 3 && j' == 3 * (j' / 3) + j' % 3;
      }
      assert (x + j) - (x' + j') == 3 * (i % 3 - i' % 3) + (j % 3 - j' % 3);
      ModNineDiffers(x + j, x' + j');
    }
  }

  /** The pattern grid is full and valid. */
  lemma PatternGridIsValid()
    ensures Consistent(PatternGrid(), false)
  {
    var g := PatternGrid();
    forall i | 0 <= i < 9 ensures ContainerValid(g[i], false) {
      forall j | 0 <= j < 9 ensures g[i][j] != 0 { }
      forall a, b | 0 <= a < b < 9 && g[i][a] != 0 ensures g[i][a] != g[i][b] {
        PatternDistinct(i, a, i, b);
      }
    }
    forall i, i', j | 0 <= i < i' < 9 && 0 <= j < 9 && g[i][j] != 0 ensures g[i][j] != g[i'][j] {
      PatternDistinct(i, j, i', j);
    }
    forall i, j, i', j' |
      0 <= i < 9 && 0 <= j < 9 && 0 <= i' < 9 && 0 <= j' < 9 &&
      (i != i' || j != j') && SameBox(i, j, i', j') && g[i][j] != 0
      ensures g[i][j] != g[i'][j']
    {
      PatternDistinct(i, j, i', j');
    }
  }

  /** The empty grid has a solution, so the solver always fills it (src/Puzzle.php:196). */
  lemma EmptyGridHasCompletion()
    ensures HasCompletion(EmptyGrid())
  {
    PatternGridIsValid();
    assert IsCompletion(EmptyGrid(), PatternGrid());
  }

  // ---------------------------------------------------------------------------
  // A grid that passes the checks yet has no solution
  // ---------------------------------------------------------------------------

  /** Row 0 holds 1..8 and leaves its last cell empty; the cell below that empty cell holds 9. */
  function Stuck(): (g: Grid)
    ensures IsGrid9(g)
  {
    seq(9, i => seq(9, j => if i == 0 && j < 8 then j + 1 else if i == 1 && j == 8 then 9 else 0))
  }

  lemma StuckBlocksEverySolution(s: Grid)
    requires IsGrid9(s) && Extends(Stuck(), s)
    ensures !Consistent(s, false)
  {
    var v := s[0][8];
    if v == 0 {
      assert 0 in s[0];
    } else if v < 1 || 9 < v {
      assert !InRange(s);
    } else if v <= 8 {
      assert s[0][v - 1] == v;
      assert !NonZeroDistinct(s[0]);
    } else {
      assert s[1][8] == 9;
      assert !ColumnsDistinct(s);
    }
  }

  /**
   * Passing checkConstraints with zeros allowed (isSolvable) does not mean a
   * solution exists: the grid Stuck passes, yet its empty cell (0, 8) has no
   * candidate, so calculateSolution returns false on it.
   */
  lemma ConsistentWithoutCompletion()
    ensures Consistent(Stuck(), true) && !HasCompletion(Stuck())
  {
    var g := Stuck();
    forall i, j, i', j' | 0 <= i < 9 && 0 <= j < 9 && 0 <= i' < 9 && 0 <= j' < 9 && g[i][j] != 0 && g[i][j] == g[i'][j']
      ensures i == i' && j == j'
    {
    }
    forall s | IsGrid9(s) && Extends(g, s) ensures !Consistent(s, false) {
      StuckBlocksEverySolution(s);
    }
  }

  // ---------------------------------------------------------------------------
  // Masks of a full grid: what generatePuzzle leaves
  // ---------------------------------------------------------------------------

  /** Blanking a full grid outside `cells` (indices in 0..80) keeps exactly the cells in `cells`. */
  lemma MaskGivens(p: Grid, s: Grid, cells: set<int>)
    requires IsGrid9(s) && NoZeros(s) && MaskOf(p, s, cells)
    requires forall k :: k in cells ==> 0 <= k < 81
    ensures Givens(p) == cells
  {
    forall k | k in cells ensures k in Givens(p) {
      var i, j := k / 9, k % 9;
      assert Index(i, j) == k;
      assert p[i][j] == s[i][j] != 0;
    }
  }

  /**
   * Blanking cells of a valid full grid leaves a puzzle that passes the
   * checks with zeros allowed and that the full grid solves.
   */
  lemma MaskIsSolvable(p: Grid, s: Grid, cells: set<int>)
    requires IsGrid9(s) && Consistent(s, false) && MaskOf(p, s, cells)
    ensures IsCompletion(p, s) && HasCompletion(p) && Consistent(p, true)
  {
    assert Extends(p, s);
    assert IsCompletion(p, s);
    CompletableIsConsistent(p, s);
  }
}
