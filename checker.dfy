/**
 * The constraint checker of src/Puzzle.php: checkContainerForViolations on
 * one row, column or box, and checkConstraints on a whole grid, with the
 * `$columns` and `$boxes` accumulators it fills while walking the rows.
 */
module Checker {
  import opened Grids

  // ---------------------------------------------------------------------------
  // One container
  // ---------------------------------------------------------------------------

  /** The entries of `s` that are not 0, in order: what is left after the `unset` loop. */
  function NonZeros(s: seq<int>): seq<int>
  {
    if s == [] then []
    else NonZeros(s[..|s| - 1]) + (if s[|s| - 1] != 0 then [s[|s| - 1]] else [])
  }

  lemma {:induction false} NonZerosMembers(s: seq<int>)
    ensures forall v :: v in NonZeros(s) <==> v in s && v != 0
  {
    if s != [] {
      NonZerosMembers(s[..|s| - 1]);
      assert s == s[..|s| - 1] + [s[|s| - 1]];
    }
  }

  /** Appending `x` keeps a list repeat-free exactly when `x` is new. */
  lemma DistinctAppend(s: seq<int>, x: int)
    ensures Distinct(s + [x]) <==> Distinct(s) && x !in s
  {
    if x in s {
      var a :| 0 <= a < |s| && s[a] == x;
      assert (s + [x])[a] == (s + [x])[|s|];
    }
    if Distinct(s + [x]) {
      forall a, b | 0 <= a < b < |s| ensures s[a] != s[b] {
        assert (s + [x])[a] == s[a] && (s + [x])[b] == s[b];
      }
    }
    if Distinct(s) && x !in s {
      forall a, b | 0 <= a < b < |s| + 1 ensures (s + [x])[a] != (s + [x])[b] {
        if b == |s| { assert (s + [x])[a] == s[a]; }
      }
    }
  }

  /** Appending `x` keeps the non-zero values repeat-free exactly when `x` is 0 or new. */
  lemma NonZeroDistinctAppend(s: seq<int>, x: int)
    ensures NonZeroDistinct(s + [x]) <==> NonZeroDistinct(s) && (x == 0 || x !in s)
  {
    if x != 0 && x in s {
      var a :| 0 <= a < |s| && s[a] == x;
      assert (s + [x])[a] == (s + [x])[|s|];
    }
    if NonZeroDistinct(s + [x]) {
      forall a, b | 0 <= a < b < |s| && s[a] != 0 ensures s[a] != s[b] {
        assert (s + [x])[a] == s[a] && (s + [x])[b] == s[b];
      }
    }
    if NonZeroDistinct(s) && (x == 0 || x !in s) {
      forall a, b | 0 <= a < b < |s| + 1 && (s + [x])[a] != 0 ensures (s + [x])[a] != (s + [x])[b] {
        if b == |s| { assert (s + [x])[a] == s[a]; }
      }
    }
  }

  /** Dropping the zeros leaves a repeat-free list exactly when no non-zero value repeats. */
  lemma {:induction false} DistinctNonZeros(s: seq<int>)
    ensures Distinct(NonZeros(s)) <==> NonZeroDistinct(s)
  {
    if s != [] {
      var init, x := s[..|s| - 1], s[|s| - 1];
      assert s == init + [x];
      DistinctNonZeros(init);
      NonZerosMembers(init);
      NonZeroDistinctAppend(init, x);
      if x != 0 {
        assert NonZeros(s) == NonZeros(init) + [x];
        DistinctAppend(NonZeros(init), x);
      } else {
        assert NonZeros(s) == NonZeros(init) + [];
        assert NonZeros(init) + [] == NonZeros(init);
      }
    }
  }

  /**
   * checkContainerForViolations (src/Puzzle.php:434-451): refuses a 0 unless
   * zeros are allowed, drops the zeros, and refuses the rest when
   * array_unique would shorten it.
   */
  method CheckContainerForViolations(container: seq<int>, allowZeros: bool) returns (ok: bool)
    ensures ok == ContainerValid(container, allowZeros)
  {
    if !allowZeros && 0 in container {
      return false;
    }
    // array_keys($container, 0) and the unset loop
    var kept: seq<int> := [];
    var k := 0;
    while k < |container|
      invariant 0 <= k <= |container|
      invariant kept == NonZeros(container[..k])
    {
      assert container[..k + 1][..k] == container[..k];
      if container[k] != 0 {
        kept := kept + [container[k]];
      }
      k := k + 1;
    }
    assert container[..k] == container;
    // array_unique keeps the first occurrence of every value
    var unique: seq<int> := [];
    var m := 0;
    while m < |kept|
      invariant 0 <= m <= |kept| && |unique| <= m
      invariant forall v :: v in unique <==> v in kept[..m]
      invariant |unique| == m <==> Distinct(kept[..m])
    {
      assert kept[..m + 1] == kept[..m] + [kept[m]];
      DistinctAppend(kept[..m], kept[m]);
      if kept[m] !in unique {
        unique := unique + [kept[m]];
      }
      m := m + 1;
    }
    assert kept[..m] == kept;
    DistinctNonZeros(container);
    ok := |kept| == |unique|;
  }

  // ---------------------------------------------------------------------------
  // The accumulators of checkConstraints
  // ---------------------------------------------------------------------------

  /** Cells are visited in row-major order; position p is cell (p / 9, p % 9). */
  function Cell(g: Grid, p: int): int
    requires IsGrid9(g) && 0 <= p < 81
  {
    g[p / 9][p % 9]
  }

  lemma PositionOf(i: int, j: int)
    requires 0 <= i < 9 && 0 <= j < 9
    ensures 0 <= 9 * i + j < 81 && (9 * i + j) / 9 == i && (9 * i + j) % 9 == j
  {
  }

  /** The key of the `$boxes` accumulator: the digits of `$boxRow . $boxColumn` read as a number. */
  function BoxKey(i: int, j: int): int {
    10 * BoxStart(i) + BoxStart(j)
  }

  lemma BoxKeySame(i: int, j: int, i': int, j': int)
    requires 0 <= i < 9 && 0 <= j < 9 && 0 <= i' < 9 && 0 <= j' < 9
    ensures BoxKey(i, j) == BoxKey(i', j') <==> SameBox(i, j, i', j')
  {
    assert BoxStart(i) == 3 * (i / 3) && BoxStart(i') == 3 * (i' / 3);
    assert BoxStart(j) == 3 * (j / 3) && BoxStart(j') == 3 * (j' / 3);
  }

  /** The accumulator a cell goes into: its column, or its box. */
  function Key(p: int, byBox: bool): int {
    if byBox then BoxKey(p / 9, p % 9) else p % 9
  }

  /** `$m[$k][] = $v`. */
  function Append(m: map<int, seq<int>>, k: int, v: int): map<int, seq<int>> {
    m[k := (if k in m then m[k] else []) + [v]]
  }

  /**
   * The `$columns` (byBox false) or `$boxes` (byBox true) accumulator after
   * the first n cells: each non-zero cell appended under its key.
   */
  function Collected(g: Grid, n: int, byBox: bool): map<int, seq<int>>
    requires IsGrid9(g) && 0 <= n <= 81
  {
    if n == 0 then map[]
    else if Cell(g, n - 1) == 0 then Collected(g, n - 1, byBox)
    else Append(Collected(g, n - 1, byBox), Key(n - 1, byBox), Cell(g, n - 1))
  }

  /** Among the first n cells, no two with the same key hold the same non-zero value. */
  predicate PrefixDistinct(g: Grid, n: int, byBox: bool)
    requires IsGrid9(g) && 0 <= n <= 81
  {
    forall p, q :: 0 <= p < q < n && Key(p, byBox) == Key(q, byBox) && Cell(g, p) != 0 ==> Cell(g, p) != Cell(g, q)
  }

  /** A value is collected under key k exactly when a non-zero cell with key k holds it. */
  lemma {:induction false} CollectedHas(g: Grid, n: int, byBox: bool, k: int, v: int)
    requires IsGrid9(g) && 0 <= n <= 81
    ensures (k in Collected(g, n, byBox) && v in Collected(g, n, byBox)[k]) <==>
            (v != 0 && exists p :: 0 <= p < n && Key(p, byBox) == k && Cell(g, p) == v)
  {
    if n > 0 {
      CollectedHas(g, n - 1, byBox, k, v);
    }
  }

  /** No list in `m` repeats a value. */
  predicate AllDistinct(m: map<int, seq<int>>) {
    forall k :: k in m ==> Distinct(m[k])
  }

  /** Cell n - 1 is 0, or no earlier cell with its key holds its value. */
  predicate Fresh(g: Grid, n: int, byBox: bool)
    requires IsGrid9(g) && 0 < n <= 81
  {
    Cell(g, n - 1) == 0 ||
    forall p :: 0 <= p < n - 1 && Key(p, byBox) == Key(n - 1, byBox) ==> Cell(g, p) != Cell(g, n - 1)
  }

  lemma PrefixStep(g: Grid, n: int, byBox: bool)
    requires IsGrid9(g) && 0 < n <= 81
    ensures PrefixDistinct(g, n, byBox) <==> PrefixDistinct(g, n - 1, byBox) && Fresh(g, n, byBox)
  {
  }

  lemma CollectedStep(g: Grid, n: int, byBox: bool)
    requires IsGrid9(g) && 0 < n <= 81
    ensures AllDistinct(Collected(g, n, byBox)) <==> AllDistinct(Collected(g, n - 1, byBox)) && Fresh(g, n, byBox)
  {
    var m, v, kk := Collected(g, n - 1, byBox), Cell(g, n - 1), Key(n - 1, byBox);
    if v != 0 {
      var list := if kk in m then m[kk] else [];
      var m' := Collected(g, n, byBox);
      assert m' == m[kk := list + [v]];
      DistinctAppend(list, v);
      CollectedHas(g, n - 1, byBox, kk, v);
      assert Fresh(g, n, byBox) <==> v !in list;
      if AllDistinct(m') {
        forall k | k in m ensures Distinct(m[k]) {
          if k != kk { assert m'[k] == m[k]; } else { assert m'[kk] == list + [v]; }
        }
      }
      if AllDistinct(m) && v !in list {
        forall k | k in m' ensures Distinct(m'[k]) {
          if k != kk { assert m'[k] == m[k]; }
        }
      }
    }
  }

  /** Every list collected is repeat-free exactly when no key's cells repeat a non-zero value. */
  lemma {:induction false} CollectedDistinct(g: Grid, n: int, byBox: bool)
    requires IsGrid9(g) && 0 <= n <= 81
    ensures AllDistinct(Collected(g, n, byBox)) <==> PrefixDistinct(g, n, byBox)
  {
    if n > 0 {
      CollectedDistinct(g, n - 1, byBox);
      CollectedStep(g, n, byBox);
      PrefixStep(g, n, byBox);
    }
  }

  /** Every list in `m` passes the container check. */
  predicate GroupsValid(m: map<int, seq<int>>, allowZeros: bool) {
    forall k :: k in m ==> ContainerValid(m[k], allowZeros)
  }

  /** The collected lists hold no zeros, so the container check on them is repeat-freedom. */
  lemma CollectedValid(g: Grid, byBox: bool, allowZeros: bool)
    requires IsGrid9(g)
    ensures GroupsValid(Collected(g, 81, byBox), allowZeros) <==> PrefixDistinct(g, 81, byBox)
  {
    var m := Collected(g, 81, byBox);
    forall k | k in m ensures ContainerValid(m[k], allowZeros) <==> Distinct(m[k]) {
      CollectedHas(g, 81, byBox, k, 0);
      if NonZeroDistinct(m[k]) {
        forall a, b | 0 <= a < b < |m[k]| ensures m[k][a] != m[k][b] {
          assert m[k][a] in m[k];
        }
      }
    }
    CollectedDistinct(g, 81, byBox);
  }

  lemma ColumnsFromPrefix(g: Grid)
    requires IsGrid9(g)
    ensures PrefixDistinct(g, 81, false) <==> ColumnsDistinct(g)
  {
    if PrefixDistinct(g, 81, false) {
      forall i, i', j | 0 <= i < i' < 9 && 0 <= j < 9 && g[i][j] != 0 ensures g[i][j] != g[i'][j] {
        PositionOf(i, j);
        PositionOf(i', j);
        assert Cell(g, 9 * i + j) != Cell(g, 9 * i' + j);
      }
    }
    if ColumnsDistinct(g) {
      forall p, q | 0 <= p < q < 81 && Key(p, false) == Key(q, false) && Cell(g, p) != 0
        ensures Cell(g, p) != Cell(g, q)
      {
        assert p / 9 < q / 9;
      }
    }
  }

  lemma BoxesFromPrefix(g: Grid)
    requires IsGrid9(g)
    ensures PrefixDistinct(g, 81, true) <==> BoxesDistinct(g)
  {
    if PrefixDistinct(g, 81, true) {
      forall i, j, i', j' |
        0 <= i < 9 && 0 <= j < 9 && 0 <= i' < 9 && 0 <= j' < 9 &&
        (i != i' || j != j') && SameBox(i, j, i', j') && g[i][j] != 0
        ensures g[i][j] != g[i'][j']
      {
        PositionOf(i, j);
        PositionOf(i', j');
        BoxKeySame(i, j, i', j');
        var p, q := 9 * i + j, 9 * i' + j';
        if p < q {
          assert Cell(g, p) != Cell(g, q);
        } else if g[i'][j'] != 0 {
          assert Cell(g, q) != Cell(g, p);
        }
      }
    }
    if BoxesDistinct(g) {
      forall p, q | 0 <= p < q < 81 && Key(p, true) == Key(q, true) && Cell(g, p) != 0
        ensures Cell(g, p) != Cell(g, q)
      {
        BoxKeySame(p / 9, p % 9, q / 9, q % 9);
        assert p / 9 != q / 9 || p % 9 != q % 9;
      }
    }
  }

  /** One step of the walk: cell (i, j) is appended to its column's and its box's list unless it is 0. */
  lemma CollectedAt(g: Grid, i: int, j: int)
    requires IsGrid9(g) && 0 <= i < 9 && 0 <= j < 9
    ensures 0 <= 9 * i + j < 81
    ensures Collected(g, 9 * i + j + 1, false) ==
            if g[i][j] == 0 then Collected(g, 9 * i + j, false)
            else Append(Collected(g, 9 * i + j, false), j, g[i][j])
    ensures Collected(g, 9 * i + j + 1, true) ==
            if g[i][j] == 0 then Collected(g, 9 * i + j, true)
            else Append(Collected(g, 9 * i + j, true), BoxKey(i, j), g[i][j])
  {
    PositionOf(i, j);
  }

  /**
   * The rules, restated the way checkConstraints checks them: rows, ranges,
   * then the collected columns and boxes.
   */
  lemma ConsistentByGroups(g: Grid, allowZeros: bool)
    requires IsGrid9(g)
    ensures Consistent(g, allowZeros) <==>
            RowsValid(g, allowZeros) && InRange(g) &&
            GroupsValid(Collected(g, 81, false), allowZeros) && GroupsValid(Collected(g, 81, true), allowZeros)
  {
    CollectedValid(g, false, allowZeros);
    ColumnsFromPrefix(g);
    CollectedValid(g, true, allowZeros);
    BoxesFromPrefix(g);
  }

  // ---------------------------------------------------------------------------
  // The whole grid
  // ---------------------------------------------------------------------------

  /** The `foreach` over `$columns` or `$boxes`: every collected list must pass the container check. */
  method CheckGroups(groups: map<int, seq<int>>, allowZeros: bool) returns (ok: bool)
    ensures ok == GroupsValid(groups, allowZeros)
  {
    var pending := groups.Keys;
    while |pending| > 0
      invariant pending <= groups.Keys
      invariant forall k :: k in groups && k !in pending ==> ContainerValid(groups[k], allowZeros)
      decreases |pending|
    {
      assert (forall k :: k !in pending) ==> pending == {};
      var k :| k in pending;
      var valid := CheckContainerForViolations(groups[k], allowZeros);
      if !valid {
        return false;
      }
      pending := pending - {k};
    }
    return true;
  }

  /**
   * The inner `foreach` of checkConstraints over row `rowIndex`: refuses a
   * non-zero cell outside 1..9, otherwise appends every non-zero cell to its
   * column's and its box's list.
   */
  method CollectRow(puzzle: Grid, rowIndex: int, columns0: map<int, seq<int>>, boxes0: map<int, seq<int>>)
    returns (inRange: bool, columns: map<int, seq<int>>, boxes: map<int, seq<int>>)
    requires IsGrid9(puzzle) && 0 <= rowIndex < 9
    requires columns0 == Collected(puzzle, 9 * rowIndex, false)
    requires boxes0 == Collected(puzzle, 9 * rowIndex, true)
    ensures inRange == forall j :: 0 <= j < 9 && puzzle[rowIndex][j] != 0 ==> 1 <= puzzle[rowIndex][j] <= 9
    ensures inRange ==> columns == Collected(puzzle, 9 * rowIndex + 9, false)
    ensures inRange ==> boxes == Collected(puzzle, 9 * rowIndex + 9, true)
  {
    columns, boxes := columns0, boxes0;
    var row := puzzle[rowIndex];
    for columnIndex := 0 to 9
      invariant forall j :: 0 <= j < columnIndex && row[j] != 0 ==> 1 <= row[j] <= 9
      invariant columns == Collected(puzzle, 9 * rowIndex + columnIndex, false)
      invariant boxes == Collected(puzzle, 9 * rowIndex + columnIndex, true)
    {
      CollectedAt(puzzle, rowIndex, columnIndex);
      var cell := row[columnIndex];
      if cell != 0 {
        if !(1 <= cell <= 9) {
          return false, columns, boxes;
        }
        columns := Append(columns, columnIndex, cell);
        boxes := Append(boxes, BoxKey(rowIndex, columnIndex), cell);
      }
    }
    inRange := true;
  }

  /**
   * checkConstraints (src/Puzzle.php:227-280): checks each row, refuses a
   * non-zero cell outside 1..9, collects the non-zero cells by column and by
   * box, then checks the columns and the boxes.
   */
  method CheckConstraints(puzzle: Grid, allowZeros: bool) returns (ok: bool)
    requires IsGrid9(puzzle)
    ensures ok == Consistent(puzzle, allowZeros)
  {
    var columns: map<int, seq<int>> := map[];
    var boxes: map<int, seq<int>> := map[];
    for rowIndex := 0 to 9
      invariant forall i :: 0 <= i < rowIndex ==> ContainerValid(puzzle[i], allowZeros)
      invariant forall i, j :: 0 <= i < rowIndex && 0 <= j < 9 && puzzle[i][j] != 0 ==> 1 <= puzzle[i][j] <= 9
      invariant columns == Collected(puzzle, 9 * rowIndex, false)
      invariant boxes == Collected(puzzle, 9 * rowIndex, true)
    {
      var rowOk := CheckContainerForViolations(puzzle[rowIndex], allowZeros);
      if !rowOk {
        assert !RowsValid(puzzle, allowZeros);
        return false;
      }
      var inRange;
      inRange, columns, boxes := CollectRow(puzzle, rowIndex, columns, boxes);
      if !inRange {
        assert !InRange(puzzle);
        return false;
      }
    }
    ConsistentByGroups(puzzle, allowZeros);
    ok := CheckGroups(columns, allowZeros);
    if !ok {
      return false;
    }
    ok := CheckGroups(boxes, allowZeros);
  }
}
