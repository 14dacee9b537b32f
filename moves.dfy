/**
 * The move generator: the in-bounds, unvisited 4-neighbours of a cell, each
 * scored by the priority heuristic and stably sorted by descending priority.
 */
module Moves {
  import opened Geometry
  import opened Waypoints

  /** The number of in-bounds 4-neighbours of a cell; the visited set plays no part. */
  function CountAvailableNeighbors(z: ZipSolver, row: int, col: int): (n: nat)
    ensures n <= 4
  {
    |InBoundsNeighbours(z.rows, z.cols, (row, col), Directions)|
  }

  /** Exactly one in-bounds neighbour exists only at the two ends of a grid one cell wide. */
  lemma SingleNeighbourOnlyAtStripEnds(z: ZipSolver, row: int, col: int)
    requires InBounds(z.rows, z.cols, (row, col))
    ensures CountAvailableNeighbors(z, row, col) == 1 <==>
              ((z.rows == 1 && z.cols >= 2 && (col == 0 || col == z.cols - 1))
               || (z.cols == 1 && z.rows >= 2 && (row == 0 || row == z.rows - 1)))
  {
    FourNeighbours(z.rows, z.cols, (row, col));
  }

  function Max(a: int, b: int): int {
    if a < b then b else a
  }

  /**
   * The heuristic score of stepping onto (row, col): 1000 when the cell holds
   * the next required label, up to 100 for being close to that label's cell,
   * and 50 when the cell has a single in-bounds neighbour.
   */
  function CalculateMovePriority(z: ZipSolver, row: int, col: int, next: int): (p: int)
    requires Rectangular(z.grid, z.rows, z.cols) && InBounds(z.rows, z.cols, (row, col))
    ensures 0 <= p <= 1150
    ensures Label(z, (row, col)) == next ==> p >= 1000
    ensures Label(z, (row, col)) != next ==> p <= 150
  {
    var waypoint := if Label(z, (row, col)) == next then 1000 else 0;
    var proximity :=
      if next <= z.maxNumber && next in z.numberedCells
      then Max(0, 100 - Distance((row, col), z.numberedCells[next]) * 10)
      else 0;
    var deadEnd := if CountAvailableNeighbors(z, row, col) == 1 then 50 else 0;
    waypoint + proximity + deadEnd
  }

  /** A candidate step: the target cell and its priority. */
  datatype Move = Move(r: int, c: int, priority: int)

  function Pos(m: Move): Coord {
    (m.r, m.c)
  }

  /** Which of up, down, left, right leads from `from` to the move's cell. */
  function DirectionIndex(from: Coord, m: Move): int {
    if Pos(m) == Shift(from, Directions[0]) then 0
    else if Pos(m) == Shift(from, Directions[1]) then 1
    else if Pos(m) == Shift(from, Directions[2]) then 2
    else 3
  }

  predicate NonIncreasing(ms: seq<Move>) {
    forall i, j :: 0 <= i < j < |ms| ==> ms[i].priority >= ms[j].priority
  }

  /** Moves of equal priority keep the up, down, left, right order. */
  predicate TieOrder(from: Coord, ms: seq<Move>) {
    forall i, j :: 0 <= i < j < |ms| && ms[i].priority == ms[j].priority ==>
      DirectionIndex(from, ms[i]) < DirectionIndex(from, ms[j])
  }

  predicate DirectionOrdered(from: Coord, ms: seq<Move>) {
    forall i, j :: 0 <= i < j < |ms| ==> DirectionIndex(from, ms[i]) < DirectionIndex(from, ms[j])
  }

  /** Places `m` before the first entry of no greater priority. */
  function InsertByPriority(m: Move, ms: seq<Move>): seq<Move> {
    if ms == [] || m.priority >= ms[0].priority then [m] + ms
    else [ms[0]] + InsertByPriority(m, ms[1..])
  }

  /** A stable sort by descending priority (insertion sort). */
  function SortByPriority(ms: seq<Move>): seq<Move> {
    if ms == [] then [] else InsertByPriority(ms[0], SortByPriority(ms[1..]))
  }

  /** A move of no smaller priority than every entry may be put in front of a sorted list. */
  lemma ConsSorted(x: Move, t: seq<Move>)
    requires NonIncreasing(t) && forall y :: y in t ==> y.priority <= x.priority
    ensures NonIncreasing([x] + t)
  {
    var s := [x] + t;
    forall i, j | 0 <= i < j < |s| ensures s[i].priority >= s[j].priority {
      assert s[j] == t[j - 1];
      if i > 0 {
        assert s[i] == t[i - 1];
      } else {
        assert t[j - 1] in t;
      }
    }
  }

  /** A move whose ties in `t` all come later in direction order may be put in front of `t`. */
  lemma ConsKeepsTies(from: Coord, x: Move, t: seq<Move>)
    requires TieOrder(from, t)
    requires forall y :: y in t && y.priority == x.priority ==> DirectionIndex(from, x) < DirectionIndex(from, y)
    ensures TieOrder(from, [x] + t)
  {
    var s := [x] + t;
    forall i, j | 0 <= i < j < |s| && s[i].priority == s[j].priority
      ensures DirectionIndex(from, s[i]) < DirectionIndex(from, s[j])
    {
      assert s[j] == t[j - 1];
      if i > 0 {
        assert s[i] == t[i - 1];
      } else {
        assert t[j - 1] in t;
      }
    }
  }

  lemma {:induction false} InsertPermutes(m: Move, ms: seq<Move>)
    ensures multiset(InsertByPriority(m, ms)) == multiset([m] + ms)
  {
    if ms != [] && m.priority < ms[0].priority {
      InsertPermutes(m, ms[1..]);
      assert ms == [ms[0]] + ms[1..];
    }
  }

  lemma {:induction false} InsertSorted(m: Move, ms: seq<Move>)
    requires NonIncreasing(ms)
    ensures NonIncreasing(InsertByPriority(m, ms))
  {
    if ms != [] && m.priority < ms[0].priority {
      var tail := ms[1..];
      InsertSorted(m, tail);
      InsertPermutes(m, tail);
      var t := InsertByPriority(m, tail);
      forall y | y in t ensures y.priority <= ms[0].priority {
        assert y in multiset([m] + tail);
      }
      ConsSorted(ms[0], t);
    }
  }

  lemma {:induction false} InsertKeepsTies(from: Coord, m: Move, ms: seq<Move>)
    requires NonIncreasing(ms) && TieOrder(from, ms)
    requires forall y :: y in ms ==> DirectionIndex(from, m) < DirectionIndex(from, y)
    ensures TieOrder(from, InsertByPriority(m, ms))
  {
    if ms != [] && m.priority < ms[0].priority {
      var tail := ms[1..];
      InsertKeepsTies(from, m, tail);
      InsertPermutes(m, tail);
      var t := InsertByPriority(m, tail);
      forall y | y in t && y.priority == ms[0].priority
        ensures DirectionIndex(from, ms[0]) < DirectionIndex(from, y)
      {
        assert y in multiset([m] + tail);
      }
      ConsKeepsTies(from, ms[0], t);
    }
  }

  /** Sorting yields a permutation in non-increasing priority order. */
  lemma {:induction false} SortSpec(ms: seq<Move>)
    ensures NonIncreasing(SortByPriority(ms))
    ensures multiset(SortByPriority(ms)) == multiset(ms)
  {
    if ms != [] {
      SortSpec(ms[1..]);
      InsertSorted(ms[0], SortByPriority(ms[1..]));
      InsertPermutes(ms[0], SortByPriority(ms[1..]));
      assert ms == [ms[0]] + ms[1..];
    }
  }

  /** Sorting a direction-ordered list keeps ties in direction order: the sort is stable. */
  lemma {:induction false} SortIsStable(from: Coord, ms: seq<Move>)
    requires DirectionOrdered(from, ms)
    ensures TieOrder(from, SortByPriority(ms))
  {
    if ms != [] {
      SortIsStable(from, ms[1..]);
      SortSpec(ms[1..]);
      var t := SortByPriority(ms[1..]);
      forall y | y in t ensures DirectionIndex(from, ms[0]) < DirectionIndex(from, y) {
        assert y in multiset(ms[1..]);
      }
      InsertKeepsTies(from, ms[0], t);
    }
  }

  /** The scored move onto an in-bounds cell. */
  function MoveTo(z: ZipSolver, x: Coord, next: int): Move
    requires Rectangular(z.grid, z.rows, z.cols) && InBounds(z.rows, z.cols, x)
  {
    Move(x.0, x.1, CalculateMovePriority(z, x.0, x.1, next))
  }

  /** `x` is an in-bounds, unvisited 4-neighbour of `from`. */
  predicate IsStepTarget(z: ZipSolver, from: Coord, visited: set<Coord>, x: Coord) {
    InBounds(z.rows, z.cols, x) && x !in visited && Adjacent(from, x)
  }

  /** `m` steps from `from` to an in-bounds, unvisited neighbour and carries that cell's priority. */
  ghost predicate IsMoveFrom(z: ZipSolver, from: Coord, visited: set<Coord>, next: int, m: Move)
    requires Rectangular(z.grid, z.rows, z.cols)
  {
    IsStepTarget(z, from, visited, Pos(m)) && m == MoveTo(z, Pos(m), next)
  }

  lemma DirectionIndexOfShift(from: Coord, i: int, m: Move)
    requires 0 <= i < |Directions| && Pos(m) == Shift(from, Directions[i])
    ensures DirectionIndex(from, m) == i && Adjacent(from, Pos(m))
  {
  }

  /** Sorting the candidate list keeps its elements and yields the order promised by GetValidMoves. */
  lemma SortedCandidates(z: ZipSolver, from: Coord, visited: set<Coord>, next: int, candidates: seq<Move>)
    requires Rectangular(z.grid, z.rows, z.cols)
    requires forall m :: m in candidates ==> IsMoveFrom(z, from, visited, next, m)
    requires DirectionOrdered(from, candidates)
    ensures forall m :: m in SortByPriority(candidates) <==> m in candidates
    ensures forall i, j :: 0 <= i < j < |SortByPriority(candidates)| ==>
              Pos(SortByPriority(candidates)[i]) != Pos(SortByPriority(candidates)[j])
    ensures NonIncreasing(SortByPriority(candidates))
    ensures TieOrder(from, SortByPriority(candidates))
  {
    var moves := SortByPriority(candidates);
    SortSpec(candidates);
    SortIsStable(from, candidates);
    forall m ensures m in moves <==> m in candidates {
      assert m in moves <==> m in multiset(moves);
    }
    forall i, j | 0 <= i < j < |moves| ensures Pos(moves[i]) != Pos(moves[j]) {
      assert moves[i] in candidates && moves[j] in candidates;
    }
  }

  /**
   * Lists the in-bounds unvisited neighbours of (row, col) in up, down, left,
   * right order, scored, then stably sorted by descending priority.
   */
  method GetValidMoves(z: ZipSolver, row: int, col: int, visited: set<Coord>, next: int) returns (moves: seq<Move>)
    requires Rectangular(z.grid, z.rows, z.cols)
    ensures forall m :: m in moves ==> IsStepTarget(z, (row, col), visited, Pos(m))
    ensures forall m :: m in moves ==> IsMoveFrom(z, (row, col), visited, next, m)
    ensures forall x :: InBounds(z.rows, z.cols, x) && x !in visited && Adjacent((row, col), x) ==> MoveTo(z, x, next) in moves
    ensures forall i, j :: 0 <= i < j < |moves| ==> Pos(moves[i]) != Pos(moves[j])
    ensures NonIncreasing(moves)
    ensures TieOrder((row, col), moves)
  {
    var from := (row, col);
    var candidates: seq<Move> := [];
    for i := 0 to |Directions|
      invariant forall m :: m in candidates ==> IsMoveFrom(z, from, visited, next, m) && DirectionIndex(from, m) < i
      invariant DirectionOrdered(from, candidates)
      invariant forall j :: 0 <= j < i && InBounds(z.rows, z.cols, Shift(from, Directions[j])) && Shift(from, Directions[j]) !in visited
                  ==> MoveTo(z, Shift(from, Directions[j]), next) in candidates
    {
      var n := Shift(from, Directions[i]);
      if InBounds(z.rows, z.cols, n) && n !in visited {
        var m := MoveTo(z, n, next);
        DirectionIndexOfShift(from, i, m);
        candidates := candidates + [m];
      }
    }
    moves := SortByPriority(candidates);
    SortedCandidates(z, from, visited, next, candidates);
    forall x | InBounds(z.rows, z.cols, x) && x !in visited && Adjacent(from, x) ensures MoveTo(z, x, next) in moves {
      AdjacentCases(from, x);
    }
  }
}
