# Zip puzzle solver — a verified Dafny model

The repository solves "Zip" puzzles: a rectangular grid whose cells are blank
(0) or carry a label 1..N must be walked through 4-adjacent steps, each cell
exactly once, starting on label 1, meeting the labels in increasing order and
finishing on the largest label. Its solver is the `ZipSolver` class, which
exists twice with the same logic: `public/script.js:2-229` and a commented copy,
`explained/table.js:1-254`. This project models that class once; every member
below stands for the same method in both files (line ranges in the table cite
whichever copy is clearer). The page's pre-solve validator, `validatePuzzle`
with its `checkConnectivity` helper (`public/script.js:328-437`), is modelled as
well.

Modules, one per component of the solver:

- `Geometry` — coordinates, the up/down/left/right offsets, `isInBounds`,
  4-adjacency, row-major order, and set-cardinality facts about the grid.
- `Waypoints` — `findNumberedCells` and `maxNumber` (loops over the grid and
  over the keys), and the solver's fields fixed by its constructor
  (`ZipSolver`, a datatype, since nothing updates them after construction).
- `Moves` — `countAvailableNeighbors`, `calculateMovePriority` and
  `getValidMoves`, with the array sort modelled as a stable insertion sort.
- `Reachability` — `isReachable`: the row-major scan for a seed cell and the
  breadth-first flood fill with a FIFO queue and a `bfsVisited` set.
- `Legality` — `isValidMove` and `wouldNotIsolateRequiredCells`.
- `Search` — the shared `path` array and `visited` set as the class
  `SearchContext` whose `Push`/`Pop` keep them in lock-step, `backtrack`
  (split into `Backtrack`, `Explore` for the body after the push, and
  `TryMove` for one iteration of the move loop), `formatSolution` and `solve`.
- `Validator` — `validatePuzzle` and `checkConnectivity`, with the error
  messages as tags carrying the values the text interpolates.
- `Puzzles` — the three example grids of the page (`public/script.js:240-262`;
  the first is also the grid of `explained/table.js:257-264`) as concrete
  inputs.

The central results:

- A `Backtrack` call that fails leaves `path` and `visited` exactly as they
  were; a successful one returns the shared path, which still holds the whole
  route. A returned path is a `Route`: in bounds, duplicate-free, 4-adjacent
  steps, each labelled cell entered only after the cells of all smaller
  labels. It has `totalCells` entries, starts on label 1's cell, ends on a cell
  holding `maxNumber`, covers every cell and meets the labels in increasing
  order.
- Termination: each recursive call enters a cell outside `visited`, so the set
  of unvisited cells strictly shrinks; the flood fill's queue receives at most
  `4 * rows * cols` neighbour pushes.
- The watermark `nextRequiredNumber` never advances. `backtrack` advances it
  before calling `isValidMove`, and `isValidMove` then refuses the cell whose
  label equals the old watermark (`public/script.js:55-60`, `134-135`). So
  every accepted step is entered with the unchanged watermark, which is 1 from
  the first call on: `Backtrack`, `Explore` and `TryMove` require watermark 1,
  and each recursive call is proved to pass 1 on. Label order is still enforced by the skip scan of
  `isValidMove` (`public/script.js:138-147`). The intended design advances the
  watermark when the next waypoint is entered; the model follows the code as
  written.
- The validator's verdict is exactly "no errors". It reports every repeat of a
  label against the first cell holding it, and that first cell is what it
  keeps. It reports each gap in 1..max exactly once. On a rectangular grid its
  "too many numbered cells" and "unreachable" reports can never fire.

## Model

| member | source | states |
|---|---|---|
| `Geometry.InBoundsNeighboursSpec` | public/script.js:117-128 | the neighbour list over the four offsets holds exactly the in-bounds 4-adjacent cells |
| `Waypoints.FindNumberedCells` | public/script.js:12-22 | the row-major loop builds the label index: every key is a positive label stored at its cell, every positive cell's label is a key, the last occurrence in row-major order wins |
| `Waypoints.MaxNumber` | public/script.js:9 | the result is a key of the index and no key is larger |
| `Waypoints.NewZipSolver` | public/script.js:3-10 | the constructor yields rows, cols, totalCells = rows * cols, the label index of the grid and its largest key |
| `Waypoints.LabelIndexCoversPositiveCells` | explained/table.js:11-24 | every positive cell value is indexed at a cell holding it, and no blank cell is ever indexed |
| `Waypoints.LastOccurrenceWins` | explained/table.js:18-20 | with duplicate labels the index keeps the last cell in row-major order |
| `Waypoints.MaxNumberIsLargestLabel` | explained/table.js:8 | `maxNumber` bounds every cell value and is held by its indexed cell |
| `Moves.CountAvailableNeighbors` | public/script.js:117-129 | the count of in-bounds neighbours lies in 0..4 and does not depend on `visited` |
| `Moves.SingleNeighbourOnlyAtStripEnds` | explained/table.js:125-130 | the +50 bonus condition (exactly one in-bounds neighbour) holds exactly at the two ends of a grid one cell wide |
| `Moves.CalculateMovePriority` | public/script.js:95-115 | the priority lies in [0, 1150]; it is at least 1000 exactly when the cell holds the watermark label, and at most 150 otherwise |
| `Moves.SortSpec` | public/script.js:92 | the sort yields a permutation of the moves in non-increasing priority |
| `Moves.SortIsStable` | explained/table.js:104-105 | moves of equal priority keep their up, down, left, right order |
| `Moves.GetValidMoves` | public/script.js:73-93 | the moves are exactly the in-bounds unvisited 4-neighbours, each with its priority, no cell twice, sorted by non-increasing priority with ties in direction order |
| `Reachability.FindSeed` | public/script.js:174-184 | the scan returns the first cell outside `visited` in row-major order, or nothing exactly when every cell is visited |
| `Reachability.ClosedHoldsConnected` | explained/table.js:213-233 | a cell set holding the seed and closed under stepping to free neighbours contains every cell connected to the seed |
| `Reachability.VisitKeepsInvariant` | explained/table.js:219-232 | marking a free dequeued cell and enqueueing its in-bounds neighbours keeps the flood-fill invariant |
| `Reachability.IsReachable` | public/script.js:170-211 | true when every cell is visited; otherwise true exactly when the target is 4-connected through free cells to the first free cell; at most 4 * rows * cols neighbour pushes |
| `Legality.WouldNotIsolateRequiredCells` | public/script.js:152-168 | true exactly when every label in [next, maxNumber] whose cell lies outside visited + {candidate} passes the reachability test |
| `Legality.IsValidMove` | public/script.js:131-150 | false for a passed label, false when a label in [next, L) has an unvisited cell, otherwise the isolation verdict |
| `Legality.WatermarkNeverAdvances` | public/script.js:55-60 | a step accepted with the advanced watermark was not onto the watermark label, so the watermark handed on is the old one |
| `Legality.LegalMoveKeepsLabelOrder` | public/script.js:138-147 | after an accepted step onto label L, the cells of all labels below L are already visited |
| `Legality.IsolationMeansSplitRegion` | explained/table.js:173-191 | a move is refused for isolation only when the free cells left after it are not one 4-connected region |
| `Search.SearchContext.constructor` | public/script.js:30-31 | the search starts from an empty path and an empty visited set |
| `Search.SearchContext.Push` | public/script.js:39-40 | the cell is appended to the path and added to the visited set, keeping the two in lock-step |
| `Search.SearchContext.Pop` | public/script.js:68-69 | the last cell is removed from the path and from the visited set, keeping the two in lock-step |
| `Search.Backtrack` | public/script.js:37-71 | called only with watermark 1; on failure `path` and `visited` are restored exactly; on success the result is the shared path, a complete route extending the old path by the entered cell; a cell that completes the grid on `maxNumber` succeeds at once |
| `Search.Explore` | explained/table.js:47-81 | called only with watermark 1, after the push: when all cells are visited and the cell holds `maxNumber` the result is the current path; any failure leaves `path` and `visited` unchanged; any success is the shared path, a complete route extending the path it started from |
| `Search.TryMove` | public/script.js:51-65 | called only with watermark 1: a success means the move passed the legality check under the watermark computed for it, and is the shared path, a complete route extending the old path by the move's cell; a failure leaves `path` and `visited` unchanged |
| `Search.StepKeepsWatermark` | explained/table.js:63-71 | an accepted candidate is entered with the unchanged watermark, with the cells of all labels below its own visited |
| `Search.RouteShape` | public/script.js:83 | a route stays in bounds, never repeats a cell and moves between 4-adjacent cells |
| `Search.LabelsInOrderAt` | explained/table.js:156-167 | on a route, the cells of all labels below a cell's label occur before that cell |
| `Search.RouteVisitsLabelsInOrder` | public/script.js:139-145 | on a route, the cell of a smaller label comes before the cell of a larger one |
| `Search.SolutionVisitsEveryCell` | public/script.js:42-46 | a complete route visits every cell of the grid exactly once |
| `Search.FormatSolution` | public/script.js:217-228 | pathLength is the path length, isComplete holds exactly when it equals totalCells, move i has step i + 1, the cell and the grid value there |
| `Search.Solve` | public/script.js:24-35 | an error exactly when no cell is labelled 1; a solution found is the formatted record of a complete route that starts on label 1's cell and ends on `maxNumber`; a 1x1 grid is solved by its single cell |
| `Validator.CellsSpec` | public/script.js:334-335 | the scan visits exactly the cells of the grid, each row with its own length |
| `Validator.FirstOccurrencesSpec` | public/script.js:340-344 | a label is indexed exactly when some scanned cell holds it, and then at the first such cell |
| `Validator.ScanCells` | public/script.js:334-352 | the scan loops build the first-occurrence index and the duplicate and too-large reports in scan order |
| `Validator.TooLargeReports` | public/script.js:346-349 | a too-large report is made exactly for each labelled cell whose label exceeds the cell count |
| `Validator.DuplicateKeepsFirst` | public/script.js:339-344 | a duplicate report is made exactly for each repeat of a label and names the first cell, which the index keeps |
| `Validator.ReportGaps` | public/script.js:369-373 | appends one missing-number report per gap in 1..max, in ascending order |
| `Validator.MissingOncePerGap` | public/script.js:365-373 | each gap in 1..max is reported missing exactly once, and no other number is |
| `Validator.CheckConnectivity` | public/script.js:396-437 | with a non-empty first row the fill from (0, 0) counts rows * cols cells and the verdict is whether every indexed cell lies in the rectangle; with an empty first row it counts 1 cell and the verdict is false |
| `Validator.ConnectivityVacuous` | public/script.js:375-381 | on a rectangular grid with a non-empty first row the fill reaches rows * cols cells, so "unreachable" is never reported |
| `Validator.TooManyNeverFires` | public/script.js:383-386 | on a rectangular grid the "too many numbered cells" report is never made |
| `Validator.ValidatePuzzle` | public/script.js:328-394 | isValid holds exactly when there are no errors; the errors are the scan reports, the count and start reports, the gap reports and the connectivity and count reports, in that order |
| `Puzzles.IndexOfUniqueLabels` | public/script.js:12-22 | when each label is held by one cell only, the waypoint index is that labelling |
| `Puzzles.SixBySixLabels` | explained/table.js:257-264 | the 6x6 example holds labels 1..7 at one cell each |
| `Puzzles.SolveSixBySix` | public/script.js:241-248 | the 6x6 example gets the expected index and maxNumber 7, and a path found covers 36 cells from label 1 to label 7 in label order |
| `Puzzles.SolveFourByFour` | public/script.js:249-254 | the 4x4 example: a path found covers 16 cells, starts at (0, 0), meets (3, 0) before (3, 3) and ends at (0, 3) |
| `Puzzles.SolveFiveByFive` | public/script.js:255-261 | the 5x5 example: a path found covers 25 cells from the centre to label 5 in label order |

## Left out

- DOM and UI code (grid creation, input handling, showing solutions and errors, status text, example loading, `testInvalidPuzzle`), animation and timers, and the console output of `testSolver`: browser plumbing and event-loop scheduling with no logic of the solver.
- The `${r},${c}` string keys are coordinate pairs in a `set`; the `position` string of a step record is the coordinate pair; the validator's messages are error tags carrying the interpolated values.
- `Waypoints.NewZipSolver`: requires a non-empty rectangular grid with at least one labelled cell. With no label the source takes `Math.max` of no keys (`-Infinity`); with ragged rows it reads `undefined`. Both cases are outside the model. The validator keeps its maximum as an option, `None` standing for `-Infinity`.
- `Validator.ValidatePuzzle`: requires at least one row. On an empty grid the source throws a TypeError reading `grid[0].length`; that exception is not modelled.
- `Validator.CheckConnectivity`: requires at least one row, for the same reason (it also reads `grid[0].length`).
- `Search.Solve`: does not claim a solution is found whenever one exists, because the pruning is heuristic. Only soundness of a returned path and termination are proved. Running time (exponential in the worst case, `queue.shift` linear) is not modelled.
- JavaScript numbers are doubles; cell values and labels are modelled as unbounded integers.
- The indexed-cell loop of `checkConnectivity`: the source visits the indexed cells in key order and stops at the first one outside the fill; the model visits them in an unspecified order, which gives the same verdict.
- The returned copy `[...path]` and the copy `new Set(visited)` are values in the model; no aliasing between the shared path and the result arises.
