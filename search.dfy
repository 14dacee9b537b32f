/**
 * The search engine: depth-first backtracking over a shared path and visited
 * set, plus the formatter that turns a found path into the solver's result.
 */
module Search {
  import opened Wrappers
  import opened Geometry
  import opened Waypoints
  import opened Moves
  import opened Legality

  /**
   * The search context shared by every level of the recursion: the path as a
   * stack, and the visited set kept in lock-step with it.
   */
  class SearchContext {
    var path: seq<Coord>
    var visited: set<Coord>

    ghost predicate Valid()
      reads this
    {
      && Distinct(path)
      && (forall x :: x in visited <==> x in path)
      && |visited| == |path|
    }

    constructor ()
      ensures Valid() && path == [] && visited == {}
    {
      path := [];
      visited := {};
    }

    /** Pushes a cell and adds it to the visited set. */
    method Push(x: Coord)
      requires Valid() && x !in visited
      modifies this
      ensures Valid()
      ensures path == old(path) + [x] && visited == old(visited) + {x}
    {
      path := path + [x];
      visited := visited + {x};
    }

    /** Pops the top cell `x` and deletes it from the visited set. */
    method Pop(x: Coord)
      requires Valid() && path != [] && path[|path| - 1] == x
      modifies this
      ensures Valid()
      ensures path == old(path)[..|old(path)| - 1] && visited == old(visited) - {x}
    {
      path := path[..|path| - 1];
      visited := visited - {x};
      assert forall y :: y in old(path) ==> y == x || y in path;
    }
  }

  ghost predicate InBoundsPath(z: ZipSolver, p: seq<Coord>) {
    forall i :: 0 <= i < |p| ==> InBounds(z.rows, z.cols, p[i])
  }

  /**
   * Every label below `upTo` that has a cell has that cell on `q`. This is
   * `WaypointsIn` read off the path rather than the visited set: `Route` is a
   * property of the path alone, while the legality check only sees the set.
   */
  ghost predicate WaypointsOnPath(z: ZipSolver, q: seq<Coord>, upTo: int) {
    forall num :: num in z.numberedCells && num < upTo ==> z.numberedCells[num] in q
  }

  /**
   * A route is built one step at a time, as the search builds its path: each
   * appended cell is in bounds, not yet on the route, 4-adjacent to the
   * previous cell, and the cells of all labels below its own are already on
   * the route.
   */
  ghost predicate Route(z: ZipSolver, p: seq<Coord>)
    requires Rectangular(z.grid, z.rows, z.cols)
    decreases |p|
  {
    p == [] ||
    var q, x := p[..|p| - 1], p[|p| - 1];
    && Route(z, q)
    && InBounds(z.rows, z.cols, x)
    && x !in q
    && (q != [] ==> Adjacent(q[|q| - 1], x))
    && WaypointsOnPath(z, q, Label(z, x))
  }

  /** A route stays in bounds, never repeats a cell, and moves between 4-adjacent cells. */
  lemma {:induction false} RouteShape(z: ZipSolver, p: seq<Coord>)
    requires Rectangular(z.grid, z.rows, z.cols) && Route(z, p)
    ensures InBoundsPath(z, p) && Distinct(p) && Steps(p)
    decreases |p|
  {
    if p != [] {
      var q := p[..|p| - 1];
      RouteShape(z, q);
      assert p == q + [p[|p| - 1]];
    }
  }

  /** On a route, a cell holding label L comes after the cells of all smaller labels. */
  lemma {:induction false} LabelsInOrderAt(z: ZipSolver, p: seq<Coord>, i: int)
    requires Rectangular(z.grid, z.rows, z.cols) && Route(z, p) && 0 <= i < |p|
    ensures InBounds(z.rows, z.cols, p[i]) && WaypointsOnPath(z, p[..i], Label(z, p[i]))
    decreases |p|
  {
    if i < |p| - 1 {
      var q := p[..|p| - 1];
      LabelsInOrderAt(z, q, i);
      assert q[..i] == p[..i];
    }
  }

  /**
   * On a route, the cells of two labels that are both on it appear in label
   * order: the smaller label's cell comes first.
   */
  ghost predicate WaypointsInLabelOrder(z: ZipSolver, p: seq<Coord>) {
    forall k, l, i, j ::
      k in z.numberedCells && l in z.numberedCells && k < l
      && 0 <= i < |p| && 0 <= j < |p| && p[i] == z.numberedCells[k] && p[j] == z.numberedCells[l]
      ==> i < j
  }

  /** A route visits the labels it passes through in increasing order. */
  lemma RouteVisitsLabelsInOrder(z: Solver, p: seq<Coord>)
    requires Route(z, p)
    ensures WaypointsInLabelOrder(z, p)
  {
    RouteShape(z, p);
    forall k, l, i, j |
      k in z.numberedCells && l in z.numberedCells && k < l
      && 0 <= i < |p| && 0 <= j < |p| && p[i] == z.numberedCells[k] && p[j] == z.numberedCells[l]
      ensures i < j
    {
      LabelIndexCoversPositiveCells(z, p[j]);
      LabelsInOrderAt(z, p, j);
      assert z.numberedCells[k] in p[..j];
      var i' :| 0 <= i' < j && p[..j][i'] == z.numberedCells[k];
      if i != i' {
        if i < i' {
          DistinctPairs(p, i, i');
        } else {
          DistinctPairs(p, i', i);
        }
      }
    }
  }

  /** A complete route: as many cells as the grid, ending on the largest label. */
  ghost predicate SolutionRoute(z: ZipSolver, p: seq<Coord>)
    requires Rectangular(z.grid, z.rows, z.cols)
  {
    Route(z, p) && |p| == z.totalCells && |p| > 0 && InBounds(z.rows, z.cols, p[|p| - 1])
    && Label(z, p[|p| - 1]) == z.maxNumber
  }

  /** A complete route visits every cell of the grid exactly once. */
  lemma SolutionVisitsEveryCell(z: Solver, p: seq<Coord>)
    requires SolutionRoute(z, p)
    ensures Distinct(p)
    ensures forall x :: InBounds(z.rows, z.cols, x) ==> x in p
  {
    RouteShape(z, p);
    var cells := set x | x in p;
    DistinctCard(p);
    AllCellsCard(z.rows, z.cols);
    assert cells <= AllCells(z.rows, z.cols);
    SubsetCardEqual(cells, AllCells(z.rows, z.cols));
    forall x | InBounds(z.rows, z.cols, x) ensures x in p {
      assert x in AllCells(z.rows, z.cols);
    }
  }

  /** Appending an unvisited adjacent cell whose smaller labels are all on the path extends a route. */
  lemma AppendKeepsRoute(z: ZipSolver, p: seq<Coord>, x: Coord)
    requires Rectangular(z.grid, z.rows, z.cols)
    requires Route(z, p) && InBounds(z.rows, z.cols, x) && x !in p
    requires p != [] ==> Adjacent(p[|p| - 1], x)
    requires WaypointsOnPath(z, p, Label(z, x))
    ensures Route(z, p + [x])
  {
    assert (p + [x])[..|p|] == p;
  }

  /**
   * An accepted candidate is entered with the unchanged watermark, and every
   * label below its own is already visited.
   */
  lemma StepKeepsWatermark(z: Solver, visited: set<Coord>, cand: Coord, next: int, newNext: int)
    requires InBounds(z.rows, z.cols, cand)
    requires WaypointsIn(z, visited, next)
    requires newNext == NextRequiredAfter(Label(z, cand), next)
    requires LegalMove(z, cand, visited, newNext)
    ensures newNext == next
    ensures WaypointsIn(z, visited, newNext) && WaypointsIn(z, visited, Label(z, cand))
  {
    LegalMoveKeepsLabelOrder(z, cand, visited, next);
    WatermarkNeverAdvances(z, cand, visited, next);
  }

  /** A sequence that starts with `q + [y]` starts with `q`. */
  lemma PrefixOfExtension(s: seq<Coord>, q: seq<Coord>, y: Coord)
    requires |s| >= |q| + 1 && s[..|q| + 1] == q + [y]
    ensures s[..|q|] == q
  {
    assert s[..|q|] == s[..|q| + 1][..|q|];
  }

  /** Visiting one more cell of `all` strictly shrinks the set of unvisited ones. */
  lemma VisitingShrinksUnvisited(all: set<Coord>, visited: set<Coord>, x: Coord)
    requires x in all && x !in visited
    ensures all - (visited + {x}) < all - visited
  {
    assert x in all - visited;
  }

  /**
   * Depth-first search from (row, col): pushes the cell, continues the search
   * from it (Explore), and pops the cell again when that fails.
   */
  method Backtrack(z: Solver, ctx: SearchContext, row: int, col: int, next: int) returns (result: Option<seq<Coord>>)
    requires ctx.Valid()
    requires Route(z, ctx.path)
    requires InBounds(z.rows, z.cols, (row, col)) && (row, col) !in ctx.visited
    requires ctx.path != [] ==> Adjacent(ctx.path[|ctx.path| - 1], (row, col))
    requires next == 1
    requires WaypointsIn(z, ctx.visited, Label(z, (row, col)))
    modifies ctx
    decreases AllCells(z.rows, z.cols) - ctx.visited, 0
    ensures ctx.Valid()
    ensures result.None? ==> ctx.path == old(ctx.path) && ctx.visited == old(ctx.visited)
    ensures result.Some? ==>
              && result.value == ctx.path
              && SolutionRoute(z, result.value)
              && |result.value| > |old(ctx.path)|
              && result.value[..|old(ctx.path)| + 1] == old(ctx.path) + [(row, col)]
    ensures |old(ctx.visited)| + 1 == z.totalCells && Label(z, (row, col)) == z.maxNumber ==>
              result == Some(old(ctx.path) + [(row, col)])
  {
    var cell := (row, col);
    ghost var path0, visited0 := ctx.path, ctx.visited;
    assert WaypointsOnPath(z, path0, Label(z, cell));
    AppendKeepsRoute(z, path0, cell);
    ctx.Push(cell);
    assert |ctx.visited| == |ctx.path| == |visited0| + 1;
    VisitingShrinksUnvisited(AllCells(z.rows, z.cols), visited0, cell);
    result := Explore(z, ctx, row, col, next);
    if result.None? {
      ctx.Pop(cell);
    }
  }

  /**
   * The search from the cell just pushed: succeeds with a copy of the path
   * when every cell is visited and the cell holds the largest label;
   * otherwise tries the scored moves in order and returns the first success,
   * leaving the path and visited set as they were when every move fails.
   */
  method Explore(z: Solver, ctx: SearchContext, row: int, col: int, next: int) returns (result: Option<seq<Coord>>)
    requires ctx.Valid() && InBounds(z.rows, z.cols, (row, col))
    requires Route(z, ctx.path) && ctx.path != [] && ctx.path[|ctx.path| - 1] == (row, col)
    requires next == 1
    modifies ctx
    decreases AllCells(z.rows, z.cols) - ctx.visited, 2
    ensures ctx.Valid()
    ensures result.None? ==> ctx.path == old(ctx.path) && ctx.visited == old(ctx.visited)
    ensures result.Some? ==>
              && result.value == ctx.path
              && SolutionRoute(z, result.value)
              && |result.value| >= |old(ctx.path)|
              && result.value[..|old(ctx.path)|] == old(ctx.path)
    ensures |old(ctx.visited)| == z.totalCells && Label(z, (row, col)) == z.maxNumber ==>
              result == Some(old(ctx.path))
  {
    if |ctx.visited| == z.totalCells {
      if z.grid[row][col] == z.maxNumber {
        return Some(ctx.path);
      }
    }
    var cell := (row, col);
    var moves := GetValidMoves(z, row, col, ctx.visited, next);
    var i := 0;
    while i < |moves|
      invariant ctx.Valid()
      invariant ctx.path == old(ctx.path) && ctx.visited == old(ctx.visited)
    {
      assert moves[i] in moves;
      result := TryMove(z, ctx, cell, moves[i], next);
      if result.Some? {
        return;
      }
      i := i + 1;
    }
    return None;
  }

  /**
   * One iteration of the loop: computes the watermark to hand on, asks the
   * legality check, and recurses when the move is accepted.
   */
  method TryMove(z: Solver, ctx: SearchContext, cell: Coord, move: Move, next: int) returns (result: Option<seq<Coord>>)
    requires ctx.Valid()
    requires Route(z, ctx.path) && ctx.path != [] && ctx.path[|ctx.path| - 1] == cell
    requires IsStepTarget(z, cell, ctx.visited, Pos(move))
    requires next == 1
    modifies ctx
    decreases AllCells(z.rows, z.cols) - ctx.visited, 1
    ensures ctx.Valid()
    ensures result.None? ==> ctx.path == old(ctx.path) && ctx.visited == old(ctx.visited)
    ensures result.Some? ==>
              && result.value == ctx.path
              && SolutionRoute(z, result.value)
              && |result.value| > |old(ctx.path)|
              && result.value[..|old(ctx.path)|] == old(ctx.path)
              && result.value[|old(ctx.path)|] == Pos(move)
    ensures result.Some? ==>
              LegalMove(z, Pos(move), old(ctx.visited), NextRequiredAfter(Label(z, Pos(move)), next))
  {
    var nextCellNumber := z.grid[move.r][move.c];
    var newNextRequired := next;
    if nextCellNumber > 0 && nextCellNumber == next {
      newNextRequired := next + 1;
    }
    var ok := IsValidMove(z, move.r, move.c, ctx.visited, newNextRequired);
    if !ok {
      return None;
    }
    assert WaypointsIn(z, ctx.visited, next);
    StepKeepsWatermark(z, ctx.visited, Pos(move), next, newNextRequired);
    result := Backtrack(z, ctx, move.r, move.c, newNextRequired);
    if result.Some? {
      PrefixOfExtension(result.value, old(ctx.path), Pos(move));
    }
  }

  /** One entry of the step list: 1-based step, cell, and the grid value there. */
  datatype StepRecord = StepRecord(step: int, position: Coord, cellValue: int)

  /** The solver's result record. */
  datatype Solution = Solution(path: seq<Coord>, pathLength: int, isComplete: bool, moves: seq<StepRecord>)

  /** Builds the result record of a path. */
  function FormatSolution(z: ZipSolver, path: seq<Coord>): (s: Solution)
    requires Rectangular(z.grid, z.rows, z.cols) && InBoundsPath(z, path)
    ensures s.path == path && s.pathLength == |path|
    ensures s.isComplete <==> |path| == z.totalCells
    ensures |s.moves| == |path|
    ensures forall i :: 0 <= i < |path| ==>
              s.moves[i].step == i + 1 && s.moves[i].position == path[i] && s.moves[i].cellValue == Label(z, path[i])
  {
    Solution(path, |path|, |path| == z.totalCells,
             seq(|path|, i requires 0 <= i < |path| => StepRecord(i + 1, path[i], z.grid[path[i].0][path[i].1])))
  }

  datatype SolveError = NoStartingCell

  /**
   * Starts the search at label 1's cell with watermark 1 and a fresh context;
   * fails when no cell is labelled 1.
   */
  method Solve(z: Solver) returns (r: Result<Option<Solution>, SolveError>)
    ensures r.Err? <==> 1 !in z.numberedCells
    ensures r.Ok? && r.value.Some? ==>
              && SolutionRoute(z, r.value.value.path)
              && r.value.value.path[0] == z.numberedCells[1]
              && r.value.value.isComplete
              && r.value.value.pathLength == z.totalCells
              && |r.value.value.moves| == z.totalCells
    ensures r.Ok? && r.value.Some? ==>
              InBoundsPath(z, r.value.value.path) && r.value.value == FormatSolution(z, r.value.value.path)
    ensures 1 in z.numberedCells && z.totalCells == 1 ==>
              r.Ok? && r.value.Some? && r.value.value.path == [z.numberedCells[1]]
  {
    if 1 !in z.numberedCells {
      return Err(NoStartingCell);
    }
    var start := z.numberedCells[1];
    assert RowMajorBefore(start, (z.rows, 0));
    var ctx := new SearchContext();
    var solution := Backtrack(z, ctx, start.0, start.1, 1);
    match solution
    case None =>
      r := Ok(None);
    case Some(path) =>
      assert path[0] == path[..1][0];
      RouteShape(z, path);
      r := Ok(Some(FormatSolution(z, path)));
  }
}
