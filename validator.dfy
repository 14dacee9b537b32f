/**
 * The pre-solve validator: a row-major scan that indexes the labelled cells
 * and reports duplicates and oversized labels, the whole-puzzle checks that
 * follow it, and the breadth-first connectivity check it calls.
 */
module Validator {
  import opened Wrappers
  import opened Geometry
  import opened Waypoints

  /** The validator's messages, as tags carrying the values the text interpolates. */
  datatype ValidationError =
    | Duplicate(num: int, at: Coord, first: Coord)
    | TooLarge(num: int, at: Coord, total: int)
    | TooFewNumbered
    | MissingStart
    | Missing(num: int)
    | Unreachable
    | TooMany(count: int, total: int)

  /** The validator's verdict; `maxNumber` is None where the maximum of no labels is taken. */
  datatype Validation = Validation(
    isValid: bool,
    errors: seq<ValidationError>,
    numberedCells: map<int, Coord>,
    maxNumber: Option<int>)

  datatype Connectivity = Connectivity(isConnected: bool, reachableCells: int)

  /** A cell of a possibly ragged grid: its row exists and is long enough. */
  predicate InGrid(grid: seq<seq<int>>, x: Coord) {
    0 <= x.0 < |grid| && 0 <= x.1 < |grid[x.0]|
  }

  /** The value at a cell of the grid; 0 (blank) anywhere else. */
  function Value(grid: seq<seq<int>>, x: Coord): int {
    if InGrid(grid, x) then grid[x.0][x.1] else 0
  }

  /** The first `n` cells of row `r`, left to right. */
  function RowCoords(r: int, n: nat): seq<Coord> {
    seq(n, c => (r, c))
  }

  /** Every cell of the grid in row-major order, each row with its own length. */
  function Cells(grid: seq<seq<int>>): seq<Coord>
    decreases |grid|
  {
    if grid == [] then [] else Cells(grid[..|grid| - 1]) + RowCoords(|grid| - 1, |grid[|grid| - 1]|)
  }

  /** The row-major scan visits exactly the cells of the grid. */
  lemma {:induction false} CellsSpec(grid: seq<seq<int>>, x: Coord)
    ensures x in Cells(grid) <==> InGrid(grid, x)
    decreases |grid|
  {
    if grid != [] {
      var g := grid[..|grid| - 1];
      CellsSpec(g, x);
      if x in RowCoords(|grid| - 1, |grid[|grid| - 1]|) {
        var c :| 0 <= c < |grid[|grid| - 1]| && RowCoords(|grid| - 1, |grid[|grid| - 1]|)[c] == x;
      }
      if InGrid(grid, x) && x.0 == |grid| - 1 {
        assert RowCoords(|grid| - 1, |grid[|grid| - 1]|)[x.1] == x;
      }
    }
  }

  /** A grid whose rows all have `cols` cells has `|grid| * cols` of them. */
  lemma {:induction false} CellsCount(grid: seq<seq<int>>, cols: nat)
    requires forall r :: 0 <= r < |grid| ==> |grid[r]| == cols
    ensures |Cells(grid)| == |grid| * cols
    decreases |grid|
  {
    if grid != [] {
      CellsCount(grid[..|grid| - 1], cols);
      assert |grid| * cols == (|grid| - 1) * cols + cols;
    }
  }

  /**
   * The label index after scanning `cs`: a positive label is entered at the
   * first scanned cell holding it and never overwritten.
   */
  function FirstOccurrences(grid: seq<seq<int>>, cs: seq<Coord>): map<int, Coord>
    decreases |cs|
  {
    if cs == [] then map[]
    else
      var m, x := FirstOccurrences(grid, cs[..|cs| - 1]), cs[|cs| - 1];
      var v := Value(grid, x);
      if v > 0 && v !in m then m[v := x] else m
  }

  /** The reports made while scanning `cs`, in scan order. */
  function ScanErrors(grid: seq<seq<int>>, total: int, cs: seq<Coord>): seq<ValidationError>
    decreases |cs|
  {
    if cs == [] then []
    else
      var p, x := cs[..|cs| - 1], cs[|cs| - 1];
      var m, v := FirstOccurrences(grid, p), Value(grid, x);
      ScanErrors(grid, total, p)
      + (if v > 0 && v in m then [Duplicate(v, x, m[v])] else [])
      + (if v > 0 && v > total then [TooLarge(v, x, total)] else [])
  }

  /** Scanning cell `j` of `cs` meets a label that an earlier scanned cell already holds. */
  ghost predicate Repeats(grid: seq<seq<int>>, cs: seq<Coord>, j: int)
    requires 0 <= j < |cs|
  {
    Value(grid, cs[j]) > 0 && exists i :: 0 <= i < j && Value(grid, cs[i]) == Value(grid, cs[j])
  }

  /** `cs[i]` is the first scanned cell holding label `n`. */
  ghost predicate FirstHolder(grid: seq<seq<int>>, cs: seq<Coord>, n: int, i: int) {
    && 0 <= i < |cs| && Value(grid, cs[i]) == n
    && forall j :: 0 <= j < i ==> Value(grid, cs[j]) != n
  }

  /** Scanning one more cell leaves every entry already in the index as it was. */
  lemma FirstOccurrencesGrow(grid: seq<seq<int>>, cs: seq<Coord>, n: int)
    requires cs != [] && n in FirstOccurrences(grid, cs[..|cs| - 1])
    ensures n in FirstOccurrences(grid, cs)
    ensures FirstOccurrences(grid, cs)[n] == FirstOccurrences(grid, cs[..|cs| - 1])[n]
  {
  }

  /**
   * A label is indexed exactly when it is positive and some scanned cell holds
   * it, and then it is indexed at the first such cell.
   */
  lemma {:induction false} FirstOccurrencesSpec(grid: seq<seq<int>>, cs: seq<Coord>, n: int)
    ensures n in FirstOccurrences(grid, cs) <==> n > 0 && exists i :: 0 <= i < |cs| && Value(grid, cs[i]) == n
    ensures n in FirstOccurrences(grid, cs) ==>
              exists i :: FirstHolder(grid, cs, n, i) && cs[i] == FirstOccurrences(grid, cs)[n]
    decreases |cs|
  {
    if cs != [] {
      var p, x := cs[..|cs| - 1], cs[|cs| - 1];
      FirstOccurrencesSpec(grid, p, n);
      if n in FirstOccurrences(grid, p) {
        FirstOccurrencesGrow(grid, cs, n);
        var i :| FirstHolder(grid, p, n, i) && p[i] == FirstOccurrences(grid, p)[n];
        assert FirstHolder(grid, cs, n, i);
      } else if n > 0 && Value(grid, x) == n {
        assert FirstHolder(grid, cs, n, |cs| - 1);
      }
    }
  }

  /** The scan reports nothing but duplicates and oversized labels. */
  lemma {:induction false} ScanErrorKinds(grid: seq<seq<int>>, total: int, cs: seq<Coord>)
    ensures forall e :: e in ScanErrors(grid, total, cs) ==> e.Duplicate? || e.TooLarge?
    decreases |cs|
  {
    if cs != [] {
      ScanErrorKinds(grid, total, cs[..|cs| - 1]);
    }
  }

  /** Each labelled cell whose label exceeds the cell count is reported once as too large. */
  lemma {:induction false} TooLargeReports(grid: seq<seq<int>>, total: int, cs: seq<Coord>, v: int, x: Coord, t: int)
    ensures TooLarge(v, x, t) in ScanErrors(grid, total, cs) <==>
              t == total && x in cs && v == Value(grid, x) && v > 0 && v > total
    decreases |cs|
  {
    if cs != [] {
      var p := cs[..|cs| - 1];
      TooLargeReports(grid, total, p, v, x, t);
      assert cs == p + [cs[|cs| - 1]];
    }
  }

  /** Some scanned cell `x` holds label `v` and repeats a label met earlier in the scan. */
  ghost predicate RepeatAt(grid: seq<seq<int>>, cs: seq<Coord>, v: int, x: Coord) {
    exists j :: 0 <= j < |cs| && cs[j] == x && Value(grid, x) == v && Repeats(grid, cs, j)
  }

  /** A repeat in `cs` is a repeat among all but its last cell, or that last cell repeating. */
  lemma RepeatAtStep(grid: seq<seq<int>>, cs: seq<Coord>, v: int, x: Coord)
    requires cs != []
    ensures RepeatAt(grid, cs, v, x) <==>
              RepeatAt(grid, cs[..|cs| - 1], v, x)
              || (x == cs[|cs| - 1] && Value(grid, x) == v && v > 0 && v in FirstOccurrences(grid, cs[..|cs| - 1]))
  {
    var p := cs[..|cs| - 1];
    FirstOccurrencesSpec(grid, p, v);
    if RepeatAt(grid, cs, v, x) {
      var j :| 0 <= j < |cs| && cs[j] == x && Value(grid, x) == v && Repeats(grid, cs, j);
      var i :| 0 <= i < j && Value(grid, cs[i]) == Value(grid, cs[j]);
      assert p[i] == cs[i];
      if j < |p| {
        assert p[j] == x && Repeats(grid, p, j);
      }
    }
    if RepeatAt(grid, p, v, x) {
      var j :| 0 <= j < |p| && p[j] == x && Value(grid, x) == v && Repeats(grid, p, j);
      var i :| 0 <= i < j && Value(grid, p[i]) == Value(grid, p[j]);
      assert cs[i] == p[i] && cs[j] == p[j];
      assert Repeats(grid, cs, j);
    }
    if x == cs[|cs| - 1] && Value(grid, x) == v && v > 0 && v in FirstOccurrences(grid, p) {
      var i :| 0 <= i < |p| && Value(grid, p[i]) == v;
      assert cs[i] == p[i];
      assert Repeats(grid, cs, |cs| - 1);
    }
  }

  /**
   * A duplicate report names a scanned cell whose label an earlier cell
   * already holds, together with the first cell holding that label.
   */
  lemma {:induction false} DuplicateReports(grid: seq<seq<int>>, total: int, cs: seq<Coord>, v: int, x: Coord, f: Coord)
    ensures Duplicate(v, x, f) in ScanErrors(grid, total, cs) <==>
              v in FirstOccurrences(grid, cs) && f == FirstOccurrences(grid, cs)[v] && RepeatAt(grid, cs, v, x)
    decreases |cs|
  {
    if cs != [] {
      var p := cs[..|cs| - 1];
      DuplicateReports(grid, total, p, v, x, f);
      RepeatAtStep(grid, cs, v, x);
      FirstOccurrencesSpec(grid, p, v);
      if v in FirstOccurrences(grid, p) {
        FirstOccurrencesGrow(grid, cs, v);
      }
    }
  }

  /** A label index can hold no more labels than cells were scanned. */
  lemma {:induction false} FirstOccurrencesSize(grid: seq<seq<int>>, cs: seq<Coord>)
    ensures |FirstOccurrences(grid, cs)| <= |cs|
    decreases |cs|
  {
    if cs != [] {
      FirstOccurrencesSize(grid, cs[..|cs| - 1]);
    }
  }

  /** One "missing number" report for each label in 1..hi that the index lacks, in ascending order. */
  function Gaps(m: map<int, Coord>, hi: int): seq<ValidationError>
    decreases hi
  {
    if hi < 1 then [] else Gaps(m, hi - 1) + (if hi !in m then [Missing(hi)] else [])
  }

  /** Only gaps in 1..hi are reported, and only as missing. */
  lemma {:induction false} GapsOnlyMissing(m: map<int, Coord>, hi: int)
    ensures forall e :: e in Gaps(m, hi) ==> e.Missing? && 1 <= e.num <= hi && e.num !in m
    decreases hi
  {
    if hi >= 1 {
      GapsOnlyMissing(m, hi - 1);
    }
  }

  /** Label `i` is reported missing exactly once when it is a gap in 1..hi, and never otherwise. */
  lemma {:induction false} GapsCount(m: map<int, Coord>, hi: int, e: ValidationError)
    ensures multiset(Gaps(m, hi))[e] == if e.Missing? && 1 <= e.num <= hi && e.num !in m then 1 else 0
    decreases hi
  {
    if hi >= 1 {
      GapsCount(m, hi - 1, e);
      var last := if hi !in m then [Missing(hi)] else [];
      assert Gaps(m, hi) == Gaps(m, hi - 1) + last;
      assert multiset(Gaps(m, hi))[e] == multiset(Gaps(m, hi - 1))[e] + multiset(last)[e];
      if e != Missing(hi) {
        assert e !in last;
      }
    }
  }

  /** `max` is what the maximum over the labels of `m` comes to; None for no labels. */
  ghost predicate IsMaxLabel(m: map<int, Coord>, max: Option<int>) {
    && (max.None? <==> m == map[])
    && (max.Some? ==> max.value in m && forall k :: k in m ==> k <= max.value)
  }

  /** The connectivity verdict on a grid whose first row has `cols` cells. */
  ghost function ConnectivityOf(rows: int, cols: int, numbered: map<int, Coord>): Connectivity {
    if cols == 0 then Connectivity(false, 1)
    else Connectivity(forall n :: n in numbered ==> InBounds(rows, cols, numbered[n]), rows * cols)
  }

  /** The reports on the number of labels and on label 1. */
  function CountErrors(m: map<int, Coord>): seq<ValidationError> {
    (if |m| < 2 then [TooFewNumbered] else []) + (if 1 !in m then [MissingStart] else [])
  }

  /** The "missing number" reports, up to the largest label when there is one. */
  function GapErrors(m: map<int, Coord>, max: Option<int>): seq<ValidationError> {
    if max.Some? then Gaps(m, max.value) else []
  }

  /** The connectivity report (made only with two or more labels) and the label-count report. */
  ghost function TailErrors(grid: seq<seq<int>>, m: map<int, Coord>): seq<ValidationError>
    requires |grid| > 0
  {
    var total := |grid| * |grid[0]|;
    (if |m| > 1 && !ConnectivityOf(|grid|, |grid[0]|, m).isConnected then [Unreachable] else [])
    + (if |m| > total then [TooMany(|m|, total)] else [])
  }

  /** The full error list, in the order the validator emits it. */
  ghost function ExpectedErrors(grid: seq<seq<int>>, max: Option<int>): seq<ValidationError>
    requires |grid| > 0
  {
    var m := FirstOccurrences(grid, Cells(grid));
    ScanErrors(grid, |grid| * |grid[0]|, Cells(grid)) + CountErrors(m) + GapErrors(m, max) + TailErrors(grid, m)
  }

  /** Every gap in 1..maxNumber is reported exactly once, and nothing else is reported missing. */
  lemma MissingOncePerGap(grid: seq<seq<int>>, max: Option<int>, i: int)
    requires |grid| > 0
    ensures multiset(ExpectedErrors(grid, max))[Missing(i)] ==
              if max.Some? && 1 <= i <= max.value && i !in FirstOccurrences(grid, Cells(grid)) then 1 else 0
  {
    var total := |grid| * |grid[0]|;
    var m := FirstOccurrences(grid, Cells(grid));
    var scan := ScanErrors(grid, total, Cells(grid));
    ScanErrorKinds(grid, total, Cells(grid));
    CountOfAbsent(scan, Missing(i));
    CountOfAbsent(CountErrors(m), Missing(i));
    CountOfAbsent(TailErrors(grid, m), Missing(i));
    if max.Some? {
      GapsCount(m, max.value, Missing(i));
    }
    CountOfParts(scan, CountErrors(m), GapErrors(m, max), TailErrors(grid, m), Missing(i));
  }

  lemma CountOfAbsent(s: seq<ValidationError>, e: ValidationError)
    requires e !in s
    ensures multiset(s)[e] == 0
  {
    assert e !in multiset(s);
  }

  lemma CountOfParts(a: seq<ValidationError>, b: seq<ValidationError>, c: seq<ValidationError>,
                     d: seq<ValidationError>, e: ValidationError)
    ensures multiset(a + b + c + d)[e] == multiset(a)[e] + multiset(b)[e] + multiset(c)[e] + multiset(d)[e]
  {
    assert multiset(a + b + c + d) == multiset(a) + multiset(b) + multiset(c) + multiset(d);
  }

  /** Duplicates are reported at every repeat, naming the first cell, which the index keeps. */
  lemma DuplicateKeepsFirst(grid: seq<seq<int>>, max: Option<int>, v: int, x: Coord, f: Coord)
    requires |grid| > 0
    ensures Duplicate(v, x, f) in ExpectedErrors(grid, max) <==>
              var cs, m := Cells(grid), FirstOccurrences(grid, Cells(grid));
              v in m && f == m[v] && RepeatAt(grid, cs, v, x)
  {
    var m := FirstOccurrences(grid, Cells(grid));
    DuplicateReports(grid, |grid| * |grid[0]|, Cells(grid), v, x, f);
    if max.Some? {
      GapsOnlyMissing(m, max.value);
    }
    assert Duplicate(v, x, f) !in CountErrors(m) + GapErrors(m, max) + TailErrors(grid, m);
  }

  /** On a rectangular grid the "too many numbered cells" report never fires. */
  lemma TooManyNeverFires(grid: seq<seq<int>>, max: Option<int>)
    requires |grid| > 0 && Rectangular(grid, |grid|, |grid[0]|)
    ensures forall e :: e in ExpectedErrors(grid, max) ==> !e.TooMany?
  {
    var total := |grid| * |grid[0]|;
    var m := FirstOccurrences(grid, Cells(grid));
    CellsCount(grid, |grid[0]|);
    FirstOccurrencesSize(grid, Cells(grid));
    ScanErrorKinds(grid, total, Cells(grid));
    if max.Some? {
      forall e | e in Gaps(m, max.value) ensures e.Missing? {
        GapsCount(m, max.value, e);
      }
    }
  }

  /**
   * On a rectangular grid with a non-empty first row the flood fill reaches
   * every cell, so "unreachable" is never reported.
   */
  lemma ConnectivityVacuous(grid: seq<seq<int>>, max: Option<int>)
    requires |grid| > 0 && |grid[0]| > 0 && Rectangular(grid, |grid|, |grid[0]|)
    ensures ConnectivityOf(|grid|, |grid[0]|, FirstOccurrences(grid, Cells(grid))).isConnected
    ensures ConnectivityOf(|grid|, |grid[0]|, FirstOccurrences(grid, Cells(grid))).reachableCells == |grid| * |grid[0]|
    ensures Unreachable !in ExpectedErrors(grid, max)
  {
    var m := FirstOccurrences(grid, Cells(grid));
    forall n | n in m ensures InBounds(|grid|, |grid[0]|, m[n]) {
      IndexedCellInGrid(grid, n);
    }
    var total := |grid| * |grid[0]|;
    ScanErrorKinds(grid, total, Cells(grid));
    if max.Some? {
      GapsOnlyMissing(m, max.value);
    }
    assert Unreachable !in ScanErrors(grid, total, Cells(grid));
    assert Unreachable !in GapErrors(m, max);
  }

  /** Each label of the whole-grid index is indexed at a cell of the grid. */
  lemma IndexedCellInGrid(grid: seq<seq<int>>, n: int)
    requires n in FirstOccurrences(grid, Cells(grid))
    ensures InGrid(grid, FirstOccurrences(grid, Cells(grid))[n])
  {
    var cs := Cells(grid);
    FirstOccurrencesSpec(grid, cs, n);
    var i :| FirstHolder(grid, cs, n, i) && cs[i] == FirstOccurrences(grid, cs)[n];
    CellsSpec(grid, cs[i]);
  }

  /** The cells of the first r + 1 rows are those of the first r rows, then row r. */
  lemma CellsStep(grid: seq<seq<int>>, r: int)
    requires 0 <= r < |grid|
    ensures Cells(grid[..r + 1]) == Cells(grid[..r]) + RowCoords(r, |grid[r]|)
  {
    assert grid[..r + 1][..r] == grid[..r];
  }

  /** Scanning one more cell extends the index and the reports as the loop body does. */
  lemma ScanStep(grid: seq<seq<int>>, total: int, cs: seq<Coord>, x: Coord)
    ensures var m, v := FirstOccurrences(grid, cs), Value(grid, x);
            && FirstOccurrences(grid, cs + [x]) == (if v > 0 && v !in m then m[v := x] else m)
            && ScanErrors(grid, total, cs + [x]) ==
                 ScanErrors(grid, total, cs)
                 + (if v > 0 && v in m then [Duplicate(v, x, m[v])] else [])
                 + (if v > 0 && v > total then [TooLarge(v, x, total)] else [])
  {
    assert (cs + [x])[..|cs|] == cs;
  }

  /**
   * The scan's step at one cell: a positive label already indexed is reported
   * as a duplicate of its first cell, otherwise it is indexed here; a positive
   * label above the cell count is reported as too large.
   */
  method ScanCell(grid: seq<seq<int>>, total: int, x: Coord, ghost cs: seq<Coord>,
                  numbered: map<int, Coord>, errors: seq<ValidationError>)
    returns (numbered': map<int, Coord>, errors': seq<ValidationError>)
    requires InGrid(grid, x)
    requires numbered == FirstOccurrences(grid, cs) && errors == ScanErrors(grid, total, cs)
    ensures numbered' == FirstOccurrences(grid, cs + [x])
    ensures errors' == ScanErrors(grid, total, cs + [x])
  {
    ScanStep(grid, total, cs, x);
    numbered', errors' := numbered, errors;
    var num := grid[x.0][x.1];
    if num > 0 {
      if num in numbered' {
        errors' := errors' + [Duplicate(num, x, numbered'[num])];
      } else {
        numbered' := numbered'[num := x];
      }
      if num > total {
        errors' := errors' + [TooLarge(num, x, total)];
      }
    }
  }

  /** Scans row `r` left to right, continuing from the rows before it. */
  method ScanRow(grid: seq<seq<int>>, total: int, r: nat, ghost done: seq<Coord>,
                 numbered: map<int, Coord>, errors: seq<ValidationError>)
    returns (numbered': map<int, Coord>, errors': seq<ValidationError>)
    requires r < |grid|
    requires numbered == FirstOccurrences(grid, done) && errors == ScanErrors(grid, total, done)
    ensures numbered' == FirstOccurrences(grid, done + RowCoords(r, |grid[r]|))
    ensures errors' == ScanErrors(grid, total, done + RowCoords(r, |grid[r]|))
  {
    numbered', errors' := numbered, errors;
    ghost var scanned := done;
    for c := 0 to |grid[r]|
      invariant |scanned| == |done| + c
      invariant forall k :: 0 <= k < |done| ==> scanned[k] == done[k]
      invariant forall k :: 0 <= k < c ==> scanned[|done| + k] == (r, k)
      invariant numbered' == FirstOccurrences(grid, scanned)
      invariant errors' == ScanErrors(grid, total, scanned)
    {
      numbered', errors' := ScanCell(grid, total, (r, c), scanned, numbered', errors');
      scanned := scanned + [(r, c)];
    }
    assert scanned == done + RowCoords(r, |grid[r]|);
  }

  /** The row-major scan: indexes first occurrences and reports duplicates and oversized labels. */
  method ScanCells(grid: seq<seq<int>>, total: int) returns (numbered: map<int, Coord>, errors: seq<ValidationError>)
    ensures numbered == FirstOccurrences(grid, Cells(grid))
    ensures errors == ScanErrors(grid, total, Cells(grid))
  {
    numbered, errors := map[], [];
    for r := 0 to |grid|
      invariant numbered == FirstOccurrences(grid, Cells(grid[..r]))
      invariant errors == ScanErrors(grid, total, Cells(grid[..r]))
    {
      numbered, errors := ScanRow(grid, total, r, Cells(grid[..r]), numbered, errors);
      CellsStep(grid, r);
    }
    assert grid[..|grid|] == grid;
  }

  /** A set holding (0, 0) and closed under in-bounds steps holds the whole rectangle. */
  lemma ClosedHoldsAll(rows: int, cols: int, s: set<Coord>, x: Coord)
    requires (0, 0) in s
    requires forall y, n :: y in s && InBounds(rows, cols, n) && Adjacent(y, n) ==> n in s
    requires InBounds(rows, cols, x)
    ensures x in s
  {
    var r := 0;
    while r < x.0
      invariant 0 <= r <= x.0 && (r, 0) in s
    {
      assert Adjacent((r, 0), (r + 1, 0));
      r := r + 1;
    }
    var c := 0;
    while c < x.1
      invariant 0 <= c <= x.1 && (x.0, c) in s
    {
      assert Adjacent((x.0, c), (x.0, c + 1));
      c := c + 1;
    }
  }

  /**
   * A fill from (0, 0) that stays in the rectangle (plus (0, 0) itself) and is
   * closed under in-bounds steps is the whole rectangle, or just (0, 0) when
   * the rows are empty.
   */
  lemma FloodFilled(rows: int, cols: int, visited: set<Coord>)
    requires rows > 0
    requires (0, 0) in visited && visited <= AllCells(rows, cols) + {(0, 0)}
    requires forall x, n :: x in visited && InBounds(rows, cols, n) && Adjacent(x, n) ==> n in visited
    ensures cols > 0 ==> |visited| == rows * cols && forall x :: x in visited <==> InBounds(rows, cols, x)
    ensures cols <= 0 ==> visited == {(0, 0)} && |visited| == 1
  {
    if cols > 0 {
      forall x | InBounds(rows, cols, x) ensures x in visited {
        ClosedHoldsAll(rows, cols, visited, x);
      }
      assert (0, 0) in AllCells(rows, cols);
      forall x | x in AllCells(rows, cols) ensures x in visited {
        ClosedHoldsAll(rows, cols, visited, x);
      }
      assert visited == AllCells(rows, cols);
      AllCellsCard(rows, cols);
    } else {
      assert AllCells(rows, cols) == {};
    }
  }

  /**
   * Breadth-first flood fill of the rows x cols rectangle from (0, 0),
   * ignoring the values, then a check that every indexed cell was reached.
   */
  method CheckConnectivity(grid: seq<seq<int>>, numbered: map<int, Coord>) returns (c: Connectivity)
    requires |grid| > 0
    ensures c == ConnectivityOf(|grid|, |grid[0]|, numbered)
  {
    var rows, cols := |grid|, |grid[0]|;
    var visited: set<Coord> := {(0, 0)};
    var queue: seq<Coord> := [(0, 0)];
    ghost var space := AllCells(rows, cols) + {(0, 0)};
    while |queue| > 0
      invariant (0, 0) in visited && visited <= space
      invariant forall q :: q in queue ==> q in visited
      invariant forall x, n :: x in visited && x !in queue && InBounds(rows, cols, n) && Adjacent(x, n) ==> n in visited
      decreases space - visited, |queue|
    {
      var p := queue[0];
      ghost var visited0, queue0 := visited, queue;
      queue := queue[1..];
      for i := 0 to |Directions|
        invariant visited0 <= visited <= space
        invariant forall q :: q in queue ==> q in visited
        invariant |queue| >= |queue0| - 1 && queue[..|queue0| - 1] == queue0[1..]
        invariant forall q :: q in visited && q !in visited0 ==> q in queue
        invariant visited == visited0 ==> queue == queue0[1..]
        invariant forall k :: 0 <= k < i && InBounds(rows, cols, Shift(p, Directions[k])) ==> Shift(p, Directions[k]) in visited
      {
        var n := Shift(p, Directions[i]);
        if InBounds(rows, cols, n) && n !in visited {
          visited := visited + {n};
          queue := queue + [n];
        }
      }
      assert forall k :: 1 <= k < |queue0| ==> queue0[k] == queue[k - 1];
      forall x, n | x in visited && x !in queue && InBounds(rows, cols, n) && Adjacent(x, n)
        ensures n in visited
      {
        if x == p {
          AdjacentCases(p, n);
        }
      }
    }
    FloodFilled(rows, cols, visited);
    var allNumberedReachable := true;
    var rest := numbered.Keys;
    while rest != {}
      invariant rest <= numbered.Keys
      invariant forall n :: n in numbered && n !in rest ==> numbered[n] in visited
      decreases rest
    {
      HasElement(rest);
      var n :| n in rest;
      if numbered[n] !in visited {
        allNumberedReachable := false;
        break;
      }
      rest := rest - {n};
    }
    assert allNumberedReachable <==> forall n :: n in numbered ==> numbered[n] in visited;
    c := Connectivity(|visited| == rows * cols && allNumberedReachable, |visited|);
  }

  /** Appends a "missing number" report for each label in 1..max that the index lacks. */
  method ReportGaps(numbered: map<int, Coord>, max: nat, errors: seq<ValidationError>) returns (errors': seq<ValidationError>)
    ensures errors' == errors + Gaps(numbered, max)
  {
    errors' := errors;
    for i := 1 to max + 1
      invariant errors' == errors + Gaps(numbered, i - 1)
    {
      if i !in numbered {
        errors' := errors' + [Missing(i)];
      }
    }
  }

  /**
   * Validates a grid before solving: the scan, then at least two labels, a
   * label 1, no gaps up to the largest label, connectivity (only with two or
   * more labels), and no more labels than cells.
   */
  method ValidatePuzzle(grid: seq<seq<int>>) returns (v: Validation)
    requires |grid| > 0
    ensures v.isValid <==> v.errors == []
    ensures v.numberedCells == FirstOccurrences(grid, Cells(grid))
    ensures IsMaxLabel(v.numberedCells, v.maxNumber)
    ensures v.errors == ExpectedErrors(grid, v.maxNumber)
  {
    var totalCells := |grid| * |grid[0]|;
    var numberedCells, errors := ScanCells(grid, totalCells);
    ghost var scanned := errors;
    var numberedCount := |numberedCells|;
    if numberedCount < 2 {
      errors := errors + [TooFewNumbered];
    }
    if 1 !in numberedCells {
      errors := errors + [MissingStart];
    }
    assert errors == scanned + CountErrors(numberedCells);
    ghost var counted := errors;
    var maxNumber: Option<int> := None;
    if numberedCells != map[] {
      var max := MaxNumber(numberedCells);
      FirstOccurrencesSpec(grid, Cells(grid), max);
      maxNumber := Some(max);
      errors := ReportGaps(numberedCells, max, errors);
    }
    assert errors == counted + GapErrors(numberedCells, maxNumber);
    ghost var gapped := errors;
    if numberedCount > 1 {
      var connectivity := CheckConnectivity(grid, numberedCells);
      if !connectivity.isConnected {
        errors := errors + [Unreachable];
      }
    }
    if numberedCount > totalCells {
      errors := errors + [TooMany(numberedCount, totalCells)];
    }
    assert errors == gapped + TailErrors(grid, numberedCells);
    v := Validation(errors == [], errors, numberedCells, maxNumber);
  }
}
