/**
 * Move legality: a candidate may not revisit a passed label, may not skip a
 * label whose cell is still unvisited, and may not cut a remaining label off
 * from the first free cell.
 */
module Legality {
  import opened Geometry
  import opened Waypoints
  import opened Reachability

  /** Some label in [next, cellNumber) has a cell that is not yet visited. */
  ghost predicate SkipsWaypoint(z: ZipSolver, cellNumber: int, next: int, visited: set<Coord>) {
    exists num :: next <= num < cellNumber && num in z.numberedCells && z.numberedCells[num] !in visited
  }

  /**
   * Once `cand` is visited too, every label from `next` to the largest whose
   * cell is still unvisited passes the reachability oracle.
   */
  ghost predicate KeepsWaypointsReachable(z: ZipSolver, cand: Coord, visited: set<Coord>, next: int) {
    forall num :: next <= num <= z.maxNumber && num in z.numberedCells && z.numberedCells[num] !in visited + {cand} ==>
      ReachableFromSeed(z.rows, z.cols, visited + {cand}, z.numberedCells[num])
  }

  /** The verdict of the legality check for stepping onto `cand` with watermark `next`. */
  ghost predicate LegalMove(z: ZipSolver, cand: Coord, visited: set<Coord>, next: int)
    requires Rectangular(z.grid, z.rows, z.cols) && InBounds(z.rows, z.cols, cand)
  {
    var cellNumber := Label(z, cand);
    && !(0 < cellNumber < next)
    && !(cellNumber > next && SkipsWaypoint(z, cellNumber, next, visited))
    && KeepsWaypointsReachable(z, cand, visited, next)
  }

  /** Runs the oracle for each remaining label in turn and fails on the first cut-off one. */
  method WouldNotIsolateRequiredCells(z: Solver, row: int, col: int, visited: set<Coord>, next: int) returns (ok: bool)
    ensures ok == KeepsWaypointsReachable(z, (row, col), visited, next)
  {
    var tempVisited := visited + {(row, col)};
    var num := next;
    while num <= z.maxNumber
      invariant next <= num
      invariant forall k :: next <= k < num && k <= z.maxNumber && k in z.numberedCells && z.numberedCells[k] !in tempVisited ==>
                  ReachableFromSeed(z.rows, z.cols, tempVisited, z.numberedCells[k])
      decreases z.maxNumber - num
    {
      if num in z.numberedCells {
        var target := z.numberedCells[num];
        if target !in tempVisited {
          ghost var pushes;
          var reachable;
          reachable, pushes := IsReachable(z.rows, z.cols, target, tempVisited);
          if !reachable {
            return false;
          }
        }
      }
      num := num + 1;
    }
    return true;
  }

  /** Rejects a passed label, then a skipped label, then defers to the isolation check. */
  method IsValidMove(z: Solver, row: int, col: int, visited: set<Coord>, next: int) returns (ok: bool)
    requires InBounds(z.rows, z.cols, (row, col))
    ensures ok == LegalMove(z, (row, col), visited, next)
  {
    var cellNumber := z.grid[row][col];
    if cellNumber > 0 && cellNumber < next {
      return false;
    }
    if cellNumber > next {
      var num := next;
      while num < cellNumber
        invariant next <= num <= cellNumber
        invariant forall k :: next <= k < num && k in z.numberedCells ==> z.numberedCells[k] in visited
      {
        if num in z.numberedCells && z.numberedCells[num] !in visited {
          return false;
        }
        num := num + 1;
      }
    }
    ok := WouldNotIsolateRequiredCells(z, row, col, visited, next);
  }

  /** The watermark the search passes on after stepping onto a cell with `cellNumber`. */
  function NextRequiredAfter(cellNumber: int, next: int): int {
    if cellNumber > 0 && cellNumber == next then next + 1 else next
  }

  /** Every label below `upTo` that has a cell has it in `cells`. */
  ghost predicate WaypointsIn(z: ZipSolver, cells: set<Coord>, upTo: int) {
    forall num :: num in z.numberedCells && num < upTo ==> z.numberedCells[num] in cells
  }

  /**
   * The legality check receives the advanced watermark, so a step onto the
   * label equal to the current watermark is always refused and the watermark
   * handed to an accepted step is the unchanged one.
   */
  lemma WatermarkNeverAdvances(z: ZipSolver, cand: Coord, visited: set<Coord>, next: int)
    requires Rectangular(z.grid, z.rows, z.cols) && InBounds(z.rows, z.cols, cand)
    requires LegalMove(z, cand, visited, NextRequiredAfter(Label(z, cand), next))
    ensures NextRequiredAfter(Label(z, cand), next) == next
    ensures Label(z, cand) > 0 ==> Label(z, cand) > next
  {
  }

  /**
   * An accepted step keeps labels in order: if every label below the
   * watermark is visited, then every label below the candidate's is.
   */
  lemma LegalMoveKeepsLabelOrder(z: Solver, cand: Coord, visited: set<Coord>, next: int)
    requires InBounds(z.rows, z.cols, cand)
    requires WaypointsIn(z, visited, next)
    requires LegalMove(z, cand, visited, NextRequiredAfter(Label(z, cand), next))
    ensures WaypointsIn(z, visited, Label(z, cand))
  {
    WatermarkNeverAdvances(z, cand, visited, next);
    var cellNumber := Label(z, cand);
    forall num | num in z.numberedCells && num < cellNumber ensures z.numberedCells[num] in visited {
      if num >= next {
        assert !SkipsWaypoint(z, cellNumber, next, visited);
      }
    }
  }

  /**
   * A move is refused for isolation only when the free cells left after it
   * do not form a single 4-connected region.
   */
  lemma IsolationMeansSplitRegion(z: Solver, cand: Coord, visited: set<Coord>, next: int)
    requires !KeepsWaypointsReachable(z, cand, visited, next)
    ensures exists a, b :: Free(z.rows, z.cols, visited + {cand}, a) && Free(z.rows, z.cols, visited + {cand}, b)
                           && !Connected(z.rows, z.cols, visited + {cand}, a, b)
  {
    var tv := visited + {cand};
    var num :| next <= num <= z.maxNumber && num in z.numberedCells && z.numberedCells[num] !in tv
               && !ReachableFromSeed(z.rows, z.cols, tv, z.numberedCells[num]);
    var target := z.numberedCells[num];
    assert RowMajorBefore(target, (z.rows, 0));
    var seed := FindSeedValue(z.rows, z.cols, tv, target);
    assert Free(z.rows, z.cols, tv, seed) && Free(z.rows, z.cols, tv, target) && !Connected(z.rows, z.cols, tv, seed, target);
  }

  /**
   * When some cell is free, the first free cell exists. This is the scan of
   * `FindSeed` again, as a lemma, because a lemma cannot call that method.
   */
  lemma FindSeedValue(rows: nat, cols: nat, visited: set<Coord>, free: Coord) returns (s: Coord)
    requires Free(rows, cols, visited, free)
    ensures IsFirstFree(rows, cols, visited, s)
  {
    s := free;
    var r := 0;
    while r <= free.0
      invariant 0 <= r <= free.0 + 1
      invariant forall x :: InBounds(rows, cols, x) && x.0 < r ==> x in visited
      decreases free.0 - r
    {
      var c := 0;
      while c < cols
        invariant 0 <= c <= cols
        invariant forall x :: InBounds(rows, cols, x) && RowMajorBefore(x, (r, c)) ==> x in visited
      {
        if (r, c) !in visited {
          return (r, c);
        }
        c := c + 1;
      }
      r := r + 1;
    }
    assert false;
  }
}
