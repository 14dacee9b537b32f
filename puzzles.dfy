/**
 * The example puzzles shipped with the page (the 6x6 one is also the grid of
 * the walkthrough's `testSolver`), used as concrete inputs: the waypoint index
 * each one gets, and what any path the solver returns for it must look like.
 */
module Puzzles {
  import opened Wrappers
  import opened Geometry
  import opened Waypoints
  import opened Search

  const SixBySix: seq<seq<int>> := [
    [0, 0, 0, 0, 0, 0],
    [2, 0, 0, 0, 4, 0],
    [0, 0, 6, 0, 0, 0],
    [0, 0, 0, 0, 0, 0],
    [3, 0, 7, 0, 5, 0],
    [0, 0, 1, 0, 0, 0]]

  const FourByFour: seq<seq<int>> := [
    [1, 0, 0, 4],
    [0, 0, 0, 0],
    [0, 0, 0, 0],
    [2, 0, 0, 3]]

  const FiveByFive: seq<seq<int>> := [
    [0, 0, 3, 0, 0],
    [0, 0, 0, 0, 0],
    [4, 0, 1, 0, 5],
    [0, 0, 0, 0, 0],
    [0, 0, 2, 0, 0]]

  /**
   * `m` is a one-to-one labelling of `grid`: it maps each key to a cell
   * holding that key, and each labelled cell is the one its label maps to.
   */
  ghost predicate UniqueLabelling(grid: seq<seq<int>>, rows: int, cols: int, m: map<int, Coord>)
    requires Rectangular(grid, rows, cols)
  {
    && (forall k :: k in m ==> k > 0 && InBounds(rows, cols, m[k]) && At(grid, m[k]) == k)
    && (forall x :: InBounds(rows, cols, x) && At(grid, x) > 0 ==> At(grid, x) in m && m[At(grid, x)] == x)
  }

  /** With every label held by one cell only, the waypoint index is that labelling. */
  lemma IndexOfUniqueLabels(z: Solver, m: map<int, Coord>)
    requires UniqueLabelling(z.grid, z.rows, z.cols, m)
    ensures z.numberedCells == m
  {
    forall k | k in z.numberedCells ensures k in m && m[k] == z.numberedCells[k] {
      LabelIndexCoversPositiveCells(z, z.numberedCells[k]);
    }
    forall k | k in m ensures k in z.numberedCells {
      LabelIndexCoversPositiveCells(z, m[k]);
    }
  }

  lemma SixBySixLabels()
    ensures UniqueLabelling(SixBySix, 6, 6,
              map[1 := (5, 2), 2 := (1, 0), 3 := (4, 0), 4 := (1, 4), 5 := (4, 4), 6 := (2, 2), 7 := (4, 2)])
  {
    var g := SixBySix;
    forall x | InBounds(6, 6, x) && At(g, x) > 0
      ensures x in {(5, 2), (1, 0), (4, 0), (1, 4), (4, 4), (2, 2), (4, 2)}
    {
      assert g[x.0][x.1] > 0;
    }
  }

  lemma FourByFourLabels()
    ensures UniqueLabelling(FourByFour, 4, 4, map[1 := (0, 0), 2 := (3, 0), 3 := (3, 3), 4 := (0, 3)])
  {
    var g := FourByFour;
    forall x | InBounds(4, 4, x) && At(g, x) > 0
      ensures x in {(0, 0), (3, 0), (3, 3), (0, 3)}
    {
      assert g[x.0][x.1] > 0;
    }
  }

  lemma FiveByFiveLabels()
    ensures UniqueLabelling(FiveByFive, 5, 5, map[1 := (2, 2), 2 := (4, 2), 3 := (0, 2), 4 := (2, 0), 5 := (2, 4)])
  {
    var g := FiveByFive;
    forall x | InBounds(5, 5, x) && At(g, x) > 0
      ensures x in {(2, 2), (4, 2), (0, 2), (2, 0), (2, 4)}
    {
      assert g[x.0][x.1] > 0;
    }
  }

  /** What a path found for a puzzle with a unique labelling `m` and largest label `max` is. */
  ghost predicate SolvedExample(z: Solver, m: map<int, Coord>, max: int, r: Result<Option<Solution>, SolveError>)
    requires 1 in m && max in m
  {
    && r.Ok?
    && (r.value.Some? ==>
          var p := r.value.value.path;
          && |p| == z.rows * z.cols
          && p[0] == m[1]
          && p[|p| - 1] == m[max]
          && (forall x :: InBounds(z.rows, z.cols, x) ==> x in p)
          && WaypointsInLabelOrder(z, p))
  }

  /** Builds the solver for a uniquely labelled example and solves it. */
  method SolveExample(grid: seq<seq<int>>, ghost m: map<int, Coord>, ghost max: int)
    returns (z: Solver, r: Result<Option<Solution>, SolveError>)
    requires |grid| > 0 && Rectangular(grid, |grid|, |grid[0]|)
    requires UniqueLabelling(grid, |grid|, |grid[0]|, m)
    requires 1 in m && max in m && forall k :: k in m ==> k <= max
    ensures z.grid == grid && z.numberedCells == m && z.maxNumber == max
    ensures SolvedExample(z, m, max, r)
  {
    assert At(grid, m[1]) > 0;
    z := NewZipSolver(grid);
    IndexOfUniqueLabels(z, m);
    r := Solve(z);
    if r.Ok? && r.value.Some? {
      var p := r.value.value.path;
      SolutionVisitsEveryCell(z, p);
      RouteVisitsLabelsInOrder(z, p);
      LabelIndexCoversPositiveCells(z, p[|p| - 1]);
    }
  }

  /**
   * The 6x6 puzzle: labels 1 to 7 are indexed at their cells, and a path
   * found covers all 36 cells, starts on 1, ends on 7 and meets the labels in
   * order.
   */
  method SolveSixBySix() returns (z: Solver, r: Result<Option<Solution>, SolveError>)
    ensures z.numberedCells == map[1 := (5, 2), 2 := (1, 0), 3 := (4, 0), 4 := (1, 4), 5 := (4, 4), 6 := (2, 2), 7 := (4, 2)]
    ensures z.maxNumber == 7 && z.totalCells == 36
    ensures r.Ok?
    ensures r.value.Some? ==>
              var p := r.value.value.path;
              |p| == 36 && p[0] == (5, 2) && p[35] == (4, 2) && WaypointsInLabelOrder(z, p)
  {
    SixBySixLabels();
    z, r := SolveExample(SixBySix, map[1 := (5, 2), 2 := (1, 0), 3 := (4, 0), 4 := (1, 4), 5 := (4, 4), 6 := (2, 2), 7 := (4, 2)], 7);
  }

  /**
   * The 4x4 puzzle: a path found covers all 16 cells, starts at (0, 0), meets
   * (3, 0) before (3, 3) and ends at (0, 3).
   */
  method SolveFourByFour() returns (z: Solver, r: Result<Option<Solution>, SolveError>)
    ensures z.numberedCells == map[1 := (0, 0), 2 := (3, 0), 3 := (3, 3), 4 := (0, 3)]
    ensures z.maxNumber == 4 && z.totalCells == 16
    ensures r.Ok?
    ensures r.value.Some? ==>
              var p := r.value.value.path;
              && |p| == 16 && p[0] == (0, 0) && p[15] == (0, 3)
              && forall i, j :: 0 <= i < 16 && 0 <= j < 16 && p[i] == (3, 0) && p[j] == (3, 3) ==> i < j
  {
    FourByFourLabels();
    z, r := SolveExample(FourByFour, map[1 := (0, 0), 2 := (3, 0), 3 := (3, 3), 4 := (0, 3)], 4);
    if r.Ok? && r.value.Some? {
      var p := r.value.value.path;
      forall i, j | 0 <= i < 16 && 0 <= j < 16 && p[i] == (3, 0) && p[j] == (3, 3) ensures i < j {
        assert p[i] == z.numberedCells[2] && p[j] == z.numberedCells[3];
      }
    }
  }

  /** The 5x5 puzzle: a path found covers all 25 cells, starts at the centre and ends at (2, 4). */
  method SolveFiveByFive() returns (z: Solver, r: Result<Option<Solution>, SolveError>)
    ensures z.numberedCells == map[1 := (2, 2), 2 := (4, 2), 3 := (0, 2), 4 := (2, 0), 5 := (2, 4)]
    ensures z.maxNumber == 5 && z.totalCells == 25
    ensures r.Ok?
    ensures r.value.Some? ==>
              var p := r.value.value.path;
              |p| == 25 && p[0] == (2, 2) && p[24] == (2, 4) && WaypointsInLabelOrder(z, p)
  {
    FiveByFiveLabels();
    z, r := SolveExample(FiveByFive, map[1 := (2, 2), 2 := (4, 2), 3 := (0, 2), 4 := (2, 0), 5 := (2, 4)], 5);
  }
}
