/**
 * The pruning oracle: a breadth-first flood fill over the cells outside a
 * visited set, seeded at the first free cell in row-major order.
 */
module Reachability {
  import opened Wrappers
  import opened Geometry

  /** An in-bounds cell outside `visited`. */
  ghost predicate Free(rows: int, cols: int, visited: set<Coord>, x: Coord) {
    InBounds(rows, cols, x) && x !in visited
  }

  /** A non-empty walk of 4-adjacent steps through free cells only. */
  ghost predicate FreeWalk(rows: int, cols: int, visited: set<Coord>, p: seq<Coord>) {
    && |p| > 0
    && (forall i :: 0 <= i < |p| ==> Free(rows, cols, visited, p[i]))
    && Steps(p)
  }

  /** `a` and `b` are 4-connected through free cells. */
  ghost predicate Connected(rows: int, cols: int, visited: set<Coord>, a: Coord, b: Coord) {
    exists p :: FreeWalk(rows, cols, visited, p) && p[0] == a && p[|p| - 1] == b
  }

  ghost predicate AllVisited(rows: int, cols: int, visited: set<Coord>) {
    forall x :: InBounds(rows, cols, x) ==> x in visited
  }

  /** `s` is the first free cell in row-major order. */
  ghost predicate IsFirstFree(rows: int, cols: int, visited: set<Coord>, s: Coord) {
    Free(rows, cols, visited, s) && forall x :: InBounds(rows, cols, x) && RowMajorBefore(x, s) ==> x in visited
  }

  /**
   * What the oracle answers: true when no cell is free, otherwise whether the
   * target is 4-connected through free cells to the first free cell.
   */
  ghost predicate ReachableFromSeed(rows: int, cols: int, visited: set<Coord>, target: Coord) {
    AllVisited(rows, cols, visited)
    || exists s :: IsFirstFree(rows, cols, visited, s) && Connected(rows, cols, visited, s, target)
  }

  /** The row-major scan for the first cell outside `visited`. */
  method FindSeed(rows: nat, cols: nat, visited: set<Coord>) returns (seed: Option<Coord>)
    ensures seed.None? <==> AllVisited(rows, cols, visited)
    ensures seed.Some? ==> IsFirstFree(rows, cols, visited, seed.value)
  {
    for r := 0 to rows
      invariant forall x :: InBounds(rows, cols, x) && x.0 < r ==> x in visited
    {
      for c := 0 to cols
        invariant forall x :: InBounds(rows, cols, x) && RowMajorBefore(x, (r, c)) ==> x in visited
      {
        if (r, c) !in visited {
          return Some((r, c));
        }
      }
    }
    return None;
  }

  lemma FirstFreeUnique(rows: int, cols: int, visited: set<Coord>, a: Coord, b: Coord)
    requires IsFirstFree(rows, cols, visited, a) && IsFirstFree(rows, cols, visited, b)
    ensures a == b
  {
  }

  /** A free cell adjacent to a cell connected to `s` is connected to `s` too. */
  lemma ConnectedExtend(rows: int, cols: int, visited: set<Coord>, s: Coord, y: Coord, n: Coord)
    requires Connected(rows, cols, visited, s, y)
    requires Free(rows, cols, visited, n) && Adjacent(y, n)
    ensures Connected(rows, cols, visited, s, n)
  {
    var p :| FreeWalk(rows, cols, visited, p) && p[0] == s && p[|p| - 1] == y;
    var q := p + [n];
    assert FreeWalk(rows, cols, visited, q);
  }

  /**
   * A set holding `s` and closed under stepping to free neighbours holds every
   * cell connected to `s`.
   */
  lemma ClosedHoldsConnected(rows: int, cols: int, visited: set<Coord>, seen: set<Coord>, s: Coord, t: Coord)
    requires s in seen
    requires forall x, n :: x in seen && InBounds(rows, cols, n) && Adjacent(x, n) ==> n in seen || n in visited
    requires Connected(rows, cols, visited, s, t)
    ensures t in seen
  {
    var p :| FreeWalk(rows, cols, visited, p) && p[0] == s && p[|p| - 1] == t;
    var i := 1;
    while i < |p|
      invariant 1 <= i <= |p|
      invariant p[i - 1] in seen
    {
      assert Adjacent(p[i - 1], p[i]) && Free(rows, cols, visited, p[i]);
      i := i + 1;
    }
  }

  /** The shifted cells of `p` that are in bounds, appended to the queue in direction order. */
  method PushNeighbours(rows: nat, cols: nat, p: Coord, queue: seq<Coord>) returns (queue': seq<Coord>)
    ensures queue' == queue + InBoundsNeighbours(rows, cols, p, Directions)
  {
    queue' := queue;
    for i := 0 to |Directions|
      invariant queue' == queue + InBoundsNeighbours(rows, cols, p, Directions[..i])
    {
      var n := Shift(p, Directions[i]);
      assert Directions[..i + 1][..i] == Directions[..i];
      if InBounds(rows, cols, n) {
        queue' := queue' + [n];
      }
    }
    assert Directions[..|Directions|] == Directions;
  }

  /** The loop invariant of the flood fill from seed `s`. */
  ghost predicate FillInvariant(rows: int, cols: int, visited: set<Coord>, target: Coord, s: Coord,
                                seen: set<Coord>, queue: seq<Coord>)
  {
    && (forall x :: x in seen ==> Free(rows, cols, visited, x) && Connected(rows, cols, visited, s, x))
    && (forall q :: q in queue ==> InBounds(rows, cols, q) && (q !in visited ==> Connected(rows, cols, visited, s, q)))
    && s !in visited && (s in seen || s in queue)
    && target !in seen
    && (forall x, n :: x in seen && InBounds(rows, cols, n) && Adjacent(x, n) ==> n in seen || n in queue || n in visited)
  }

  /** Dropping a head that is already reached or blocked keeps the invariant. */
  lemma SkipKeepsInvariant(rows: int, cols: int, visited: set<Coord>, target: Coord, s: Coord,
                           seen: set<Coord>, queue: seq<Coord>)
    requires FillInvariant(rows, cols, visited, target, s, seen, queue)
    requires |queue| > 0 && (queue[0] in seen || queue[0] in visited)
    ensures FillInvariant(rows, cols, visited, target, s, seen, queue[1..])
  {
    forall q | q in queue ensures q == queue[0] || q in queue[1..] {
      var i :| 0 <= i < |queue| && queue[i] == q;
      if i > 0 {
        assert queue[1..][i - 1] == q;
      }
    }
  }

  /** Reaching a free head other than the target and enqueueing its neighbours keeps the invariant. */
  lemma VisitKeepsInvariant(rows: int, cols: int, visited: set<Coord>, target: Coord, s: Coord,
                            seen: set<Coord>, queue: seq<Coord>)
    requires FillInvariant(rows, cols, visited, target, s, seen, queue)
    requires |queue| > 0 && queue[0] !in seen && queue[0] !in visited && queue[0] != target
    ensures FillInvariant(rows, cols, visited, target, s, seen + {queue[0]},
                          queue[1..] + InBoundsNeighbours(rows, cols, queue[0], Directions))
  {
    var p := queue[0];
    var ns := InBoundsNeighbours(rows, cols, p, Directions);
    var queue' := queue[1..] + ns;
    forall q | q in queue ensures q == p || q in queue' {
      var i :| 0 <= i < |queue| && queue[i] == q;
      if i > 0 {
        assert queue[1..][i - 1] == q;
      }
    }
    forall n | n in ns
      ensures InBounds(rows, cols, n) && (n !in visited ==> Connected(rows, cols, visited, s, n))
    {
      InBoundsNeighboursSpec(rows, cols, p, n);
      if n !in visited {
        ConnectedExtend(rows, cols, visited, s, p, n);
      }
    }
    forall n | InBounds(rows, cols, n) && Adjacent(p, n)
      ensures n in queue'
    {
      InBoundsNeighboursSpec(rows, cols, p, n);
    }
  }

  /**
   * The flood fill. Returns true at once when no cell is free; otherwise
   * drains a FIFO queue from the seed, skipping cells already reached or in
   * `visited`, and answers whether the target was reached.
   */
  method IsReachable(rows: nat, cols: nat, target: Coord, visited: set<Coord>) returns (ok: bool, ghost pushes: nat)
    ensures ok == ReachableFromSeed(rows, cols, visited, target)
    ensures pushes <= 4 * (rows * cols)
  {
    pushes := 0;
    var seed := FindSeed(rows, cols, visited);
    if seed.None? {
      return true, pushes;
    }
    var s := seed.value;
    assert FreeWalk(rows, cols, visited, [s]);
    var queue := [s];
    var bfsVisited: set<Coord> := {};
    AllCellsCard(rows, cols);
    while |queue| > 0
      invariant FillInvariant(rows, cols, visited, target, s, bfsVisited, queue)
      invariant bfsVisited <= AllCells(rows, cols)
      invariant pushes <= 4 * |bfsVisited|
      decreases AllCells(rows, cols) - bfsVisited, |queue|
    {
      var p := queue[0];
      if p in bfsVisited || p in visited {
        SkipKeepsInvariant(rows, cols, visited, target, s, bfsVisited, queue);
        queue := queue[1..];
        continue;
      }
      if p == target {
        assert Connected(rows, cols, visited, s, p);
        SubsetCard(bfsVisited, AllCells(rows, cols));
        return true, pushes;
      }
      VisitKeepsInvariant(rows, cols, visited, target, s, bfsVisited, queue);
      assert p in AllCells(rows, cols);
      bfsVisited := bfsVisited + {p};
      queue := PushNeighbours(rows, cols, p, queue[1..]);
      pushes := pushes + |InBoundsNeighbours(rows, cols, p, Directions)|;
    }
    SubsetCard(bfsVisited, AllCells(rows, cols));
    if Connected(rows, cols, visited, s, target) {
      ClosedHoldsConnected(rows, cols, visited, bfsVisited, s, target);
    }
    forall s' | IsFirstFree(rows, cols, visited, s') ensures s' == s {
      FirstFreeUnique(rows, cols, visited, s, s');
    }
    return false, pushes;
  }
}
