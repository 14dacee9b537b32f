/**
 * Grid geometry shared by the solver and the validator: coordinates, the
 * four-neighbour relation in the order the solver enumerates it, and the set
 * of all cells of a rectangular grid.
 */
module Geometry {

  /** A cell as (row, column), 0-indexed; stands for the `${r},${c}` keys. */
  type Coord = (int, int)

  /** Neighbour offsets in enumeration order: up, down, left, right. */
  const Directions: seq<(int, int)> := [(-1, 0), (1, 0), (0, -1), (0, 1)]

  predicate InBounds(rows: int, cols: int, x: Coord) {
    0 <= x.0 < rows && 0 <= x.1 < cols
  }

  function Shift(x: Coord, d: (int, int)): Coord {
    (x.0 + d.0, x.1 + d.1)
  }

  function Abs(n: int): nat {
    if n < 0 then -n else n
  }

  /** Manhattan distance between two cells. */
  function Distance(a: Coord, b: Coord): nat {
    Abs(a.0 - b.0) + Abs(a.1 - b.1)
  }

  /** 4-adjacency: the two cells share an edge. */
  predicate Adjacent(a: Coord, b: Coord) {
    Distance(a, b) == 1
  }

  /** Row-major order: `a` is scanned strictly before `b`. */
  predicate RowMajorBefore(a: Coord, b: Coord) {
    a.0 < b.0 || (a.0 == b.0 && a.1 < b.1)
  }

  /** Every row has `cols` entries and there are `rows` of them. */
  predicate Rectangular(grid: seq<seq<int>>, rows: int, cols: int) {
    |grid| == rows && forall r :: 0 <= r < rows ==> |grid[r]| == cols
  }

  /** The value stored at an in-bounds cell. */
  function At(grid: seq<seq<int>>, x: Coord): int
    requires 0 <= x.0 < |grid| && 0 <= x.1 < |grid[x.0]|
  {
    grid[x.0][x.1]
  }

  /** The shifted cells, for those offsets of `dirs` that stay in bounds, in order. */
  function InBoundsNeighbours(rows: int, cols: int, x: Coord, dirs: seq<(int, int)>): (ns: seq<Coord>)
    ensures |ns| <= |dirs|
  {
    if dirs == [] then []
    else
      var last := Shift(x, dirs[|dirs| - 1]);
      InBoundsNeighbours(rows, cols, x, dirs[..|dirs| - 1]) + (if InBounds(rows, cols, last) then [last] else [])
  }

  /** Exactly one of the four offsets leads from `a` to an adjacent `b`. */
  lemma AdjacentCases(a: Coord, b: Coord)
    requires Adjacent(a, b)
    ensures b == Shift(a, Directions[0]) || b == Shift(a, Directions[1])
         || b == Shift(a, Directions[2]) || b == Shift(a, Directions[3])
  {
  }

  /** The singleton list of `y` when it is in bounds, else the empty list. */
  function IfInBounds(rows: int, cols: int, y: Coord): seq<Coord> {
    if InBounds(rows, cols, y) then [y] else []
  }

  /** The neighbour list over all four directions, written out direction by direction. */
  lemma FourNeighbours(rows: int, cols: int, x: Coord)
    ensures InBoundsNeighbours(rows, cols, x, Directions)
         == IfInBounds(rows, cols, Shift(x, Directions[0])) + IfInBounds(rows, cols, Shift(x, Directions[1]))
          + IfInBounds(rows, cols, Shift(x, Directions[2])) + IfInBounds(rows, cols, Shift(x, Directions[3]))
  {
    var d := Directions;
    assert d[..4] == d;
    assert d[..4][..3] == d[..3] && d[..3][..2] == d[..2] && d[..2][..1] == d[..1] && d[..1][..0] == [];
    assert InBoundsNeighbours(rows, cols, x, d[..1]) == IfInBounds(rows, cols, Shift(x, d[0]));
    assert InBoundsNeighbours(rows, cols, x, d[..2]) == InBoundsNeighbours(rows, cols, x, d[..1]) + IfInBounds(rows, cols, Shift(x, d[1]));
    assert InBoundsNeighbours(rows, cols, x, d[..3]) == InBoundsNeighbours(rows, cols, x, d[..2]) + IfInBounds(rows, cols, Shift(x, d[2]));
  }

  /** The neighbour list over all four directions holds exactly the in-bounds adjacent cells. */
  lemma InBoundsNeighboursSpec(rows: int, cols: int, x: Coord, n: Coord)
    ensures n in InBoundsNeighbours(rows, cols, x, Directions) <==> InBounds(rows, cols, n) && Adjacent(x, n)
  {
    FourNeighbours(rows, cols, x);
    if InBounds(rows, cols, n) && Adjacent(x, n) {
      AdjacentCases(x, n);
    }
  }

  /** No cell occurs twice: each entry is absent from the entries before it. */
  predicate Distinct(p: seq<Coord>)
    decreases |p|
  {
    p == [] || (Distinct(p[..|p| - 1]) && p[|p| - 1] !in p[..|p| - 1])
  }

  /** In a duplicate-free sequence, entries at different positions differ. */
  lemma {:induction false} DistinctPairs(p: seq<Coord>, i: int, j: int)
    requires Distinct(p) && 0 <= i < j < |p|
    ensures p[i] != p[j]
    decreases |p|
  {
    var q := p[..|p| - 1];
    if j < |p| - 1 {
      DistinctPairs(q, i, j);
    } else {
      assert p[i] == q[i];
    }
  }

  /** Consecutive entries of the path share an edge. */
  predicate Steps(p: seq<Coord>) {
    forall i :: 0 < i < |p| ==> Adjacent(p[i - 1], p[i])
  }

  ghost function AllCells(rows: int, cols: int): set<Coord> {
    set r, c | 0 <= r < rows && 0 <= c < cols :: (r, c)
  }

  ghost function RowCells(r: int, cols: int): set<Coord> {
    set c | 0 <= c < cols :: (r, c)
  }

  lemma {:induction false} RowCellsCard(r: int, cols: nat)
    ensures |RowCells(r, cols)| == cols
  {
    if cols > 0 {
      RowCellsCard(r, cols - 1);
      forall x | x in RowCells(r, cols) ensures x in RowCells(r, cols - 1) + {(r, cols - 1)} {
        if x.1 < cols - 1 {
          assert x in RowCells(r, cols - 1);
        }
      }
      assert RowCells(r, cols) == RowCells(r, cols - 1) + {(r, cols - 1)};
      assert (r, cols - 1) !in RowCells(r, cols - 1);
    } else {
      assert RowCells(r, cols) == {};
    }
  }

  /** The cells of the first `rows` rows are those of the first `rows - 1` rows plus the last row. */
  lemma AllCellsSplit(rows: nat, cols: nat)
    requires rows > 0
    ensures AllCells(rows, cols) == AllCells(rows - 1, cols) + RowCells(rows - 1, cols)
    ensures AllCells(rows - 1, cols) !! RowCells(rows - 1, cols)
  {
    forall x: Coord | x in AllCells(rows, cols)
      ensures x in AllCells(rows - 1, cols) + RowCells(rows - 1, cols)
    {
      if x.0 < rows - 1 {
        assert x in AllCells(rows - 1, cols);
      } else {
        assert x in RowCells(rows - 1, cols);
      }
    }
  }

  /** A rows-by-cols grid has rows * cols cells. */
  lemma {:induction false} AllCellsCard(rows: nat, cols: nat)
    ensures |AllCells(rows, cols)| == rows * cols
  {
    if rows == 0 {
      assert AllCells(rows, cols) == {};
    } else {
      AllCellsCard(rows - 1, cols);
      RowCellsCard(rows - 1, cols);
      AllCellsSplit(rows, cols);
      assert rows * cols == (rows - 1) * cols + cols;
    }
  }

  /** A duplicate-free sequence has as many distinct elements as entries. */
  lemma {:induction false} DistinctCard(p: seq<Coord>)
    requires Distinct(p)
    ensures |set x | x in p| == |p|
  {
    if p != [] {
      var q := p[..|p| - 1];
      DistinctCard(q);
      assert (set x | x in p) == (set x | x in q) + {p[|p| - 1]};
      assert p[|p| - 1] !in q;
    } else {
      assert (set x | x in p) == {};
    }
  }

  /** A subset has no more elements than its superset. */
  lemma {:induction false} SubsetCard(a: set<Coord>, b: set<Coord>)
    requires a <= b
    ensures |a| <= |b|
    decreases |b|
  {
    if a != {} {
      var x :| x in a;
      SubsetCard(a - {x}, b - {x});
    }
  }

  /** A subset as large as its superset is the whole superset. */
  lemma SubsetCardEqual(a: set<Coord>, b: set<Coord>)
    requires a <= b && |a| == |b|
    ensures a == b
  {
    if x :| x in b && x !in a {
      SubsetCard(a, b - {x});
    }
  }
}
