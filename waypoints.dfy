/**
 * The waypoint index: the map from each label to a cell holding it, the
 * largest label, and the solver's immutable state built from them.
 */
module Waypoints {
  import opened Geometry

  /**
   * `m` indexes the cells of `grid` scanned before `upTo` in row-major order:
   * every key is a positive label stored at the cell it maps to, every scanned
   * positive cell has its label as a key, and for a label held by several cells
   * the key maps to the last of them.
   */
  ghost predicate IndexesUpTo(grid: seq<seq<int>>, rows: int, cols: int, m: map<int, Coord>, upTo: Coord)
    requires Rectangular(grid, rows, cols)
  {
    && (forall k :: k in m ==> k > 0 && InBounds(rows, cols, m[k]) && At(grid, m[k]) == k && RowMajorBefore(m[k], upTo))
    && (forall x :: InBounds(rows, cols, x) && RowMajorBefore(x, upTo) && At(grid, x) > 0 ==>
          At(grid, x) in m && (x == m[At(grid, x)] || RowMajorBefore(x, m[At(grid, x)])))
  }

  /** `m` is the label index of the whole grid. */
  ghost predicate IsLabelIndex(grid: seq<seq<int>>, rows: int, cols: int, m: map<int, Coord>)
    requires Rectangular(grid, rows, cols)
  {
    IndexesUpTo(grid, rows, cols, m, (rows, 0))
  }

  /** Scans the grid row by row, recording each positive value's cell; a later cell overwrites an earlier one. */
  method FindNumberedCells(grid: seq<seq<int>>, rows: nat, cols: nat) returns (numbered: map<int, Coord>)
    requires Rectangular(grid, rows, cols)
    ensures IsLabelIndex(grid, rows, cols, numbered)
  {
    numbered := map[];
    for r := 0 to rows
      invariant IndexesUpTo(grid, rows, cols, numbered, (r, 0))
    {
      for c := 0 to cols
        invariant IndexesUpTo(grid, rows, cols, numbered, (r, c))
      {
        if grid[r][c] > 0 {
          numbered := numbered[grid[r][c] := (r, c)];
        }
      }
      assert forall x :: InBounds(rows, cols, x) ==> (RowMajorBefore(x, (r + 1, 0)) <==> RowMajorBefore(x, (r, cols)));
    }
  }

  /** The largest key of a non-empty label index. */
  method MaxNumber(numbered: map<int, Coord>) returns (max: int)
    requires numbered != map[]
    ensures max in numbered
    ensures forall k :: k in numbered ==> k <= max
  {
    var rest := numbered.Keys;
    assert numbered.Keys != {};
    HasElement(rest);
    var first :| first in rest;
    max := first;
    while rest != {}
      invariant rest <= numbered.Keys
      invariant max in numbered
      invariant forall k :: k in numbered && k !in rest ==> k <= max
      decreases rest
    {
      HasElement(rest);
      var k :| k in rest;
      if k > max {
        max := k;
      }
      rest := rest - {k};
    }
  }

  lemma HasElement(s: set<int>)
    requires s != {}
    ensures exists k :: k in s
  {
    if forall k :: k !in s {
      assert false;
    }
  }

  /** The solver's state fixed at construction time. */
  datatype ZipSolver = ZipSolver(
    grid: seq<seq<int>>,
    rows: int,
    cols: int,
    totalCells: int,
    numberedCells: map<int, Coord>,
    maxNumber: int)

  /** The fields agree with the grid they were built from. */
  ghost predicate Valid(z: ZipSolver) {
    && z.rows > 0 && z.cols > 0
    && Rectangular(z.grid, z.rows, z.cols)
    && z.totalCells == z.rows * z.cols
    && IsLabelIndex(z.grid, z.rows, z.cols, z.numberedCells)
    && z.maxNumber in z.numberedCells
    && (forall k :: k in z.numberedCells ==> k <= z.maxNumber)
  }

  /** A solver whose fields are consistent with its grid, as NewZipSolver builds it. */
  type Solver = z: ZipSolver | Valid(z) witness ZipSolver([[1]], 1, 1, 1, map[1 := (0, 0)], 1)

  /** The solver's grid value at an in-bounds cell: 0 for a blank, a label otherwise. */
  function Label(z: ZipSolver, x: Coord): int
    requires Rectangular(z.grid, z.rows, z.cols) && InBounds(z.rows, z.cols, x)
  {
    At(z.grid, x)
  }

  /** Builds the solver for a rectangular grid holding at least one label. */
  method NewZipSolver(grid: seq<seq<int>>) returns (z: ZipSolver)
    requires |grid| > 0 && Rectangular(grid, |grid|, |grid[0]|)
    requires exists x :: InBounds(|grid|, |grid[0]|, x) && At(grid, x) > 0
    ensures Valid(z)
    ensures z.grid == grid && z.rows == |grid| && z.cols == |grid[0]|
  {
    var rows, cols := |grid|, |grid[0]|;
    var numbered := FindNumberedCells(grid, rows, cols);
    ghost var x :| InBounds(rows, cols, x) && At(grid, x) > 0;
    assert RowMajorBefore(x, (rows, 0));
    var max := MaxNumber(numbered);
    z := ZipSolver(grid, rows, cols, rows * cols, numbered, max);
  }

  /** Every positive cell value is a label of the index, and no blank cell is ever indexed. */
  lemma LabelIndexCoversPositiveCells(z: Solver, x: Coord)
    requires InBounds(z.rows, z.cols, x)
    ensures Label(z, x) > 0 ==> Label(z, x) in z.numberedCells && Label(z, z.numberedCells[Label(z, x)]) == Label(z, x)
    ensures forall k :: k in z.numberedCells && z.numberedCells[k] == x ==> Label(z, x) == k && k > 0
  {
    assert RowMajorBefore(x, (z.rows, 0));
  }

  /** With duplicate labels the index keeps the last occurrence in row-major order. */
  lemma LastOccurrenceWins(z: Solver, x: Coord)
    requires InBounds(z.rows, z.cols, x) && Label(z, x) > 0
    ensures RowMajorBefore(x, z.numberedCells[Label(z, x)]) || x == z.numberedCells[Label(z, x)]
  {
    assert RowMajorBefore(x, (z.rows, 0));
  }

  /** The largest label bounds every positive cell value of the grid. */
  lemma MaxNumberIsLargestLabel(z: Solver, x: Coord)
    requires InBounds(z.rows, z.cols, x)
    ensures Label(z, x) <= z.maxNumber
    ensures Label(z, z.numberedCells[z.maxNumber]) == z.maxNumber
  {
    assert RowMajorBefore(x, (z.rows, 0));
  }
}
