# Cleaning-bot path generator: verified model of the core

The repository lets a user sketch a closed boundary in the ground plane of a three.js scene and
computes the order in which a cleaning robot visits the grid cells inside it. This project models
the algorithmic core in Dafny:

- **Grid rasterizer** (`GridManager`, module `Grid`): the bounds of the sketched vertices, the
  candidate cells generated x-major then z-minor in steps of `cellSize`, the candidates whose
  anchor corner `(x, z)` passes the inside test, and their indices `0..N-1`. The inside test is a
  library call (turf's `booleanPointInPolygon`) and is a predicate parameter `inPolygon` here.
- **Coverage planner** (`BotSimulator`, module `Planner`): a class over the current cell, the set
  of visited indices and the path. The bot starts at the first inside cell or at the cell nearest a
  given point. It rolls to the first unvisited axis-adjacent cell in grid order, or jumps to the
  nearest unvisited cell by Manhattan distance, until every cell is visited. `Simulate` is proved
  to list every inside cell exactly once, each entry after the first being that move from the
  entry before it; such a walk is unique once its start is fixed.
- **Geometry helpers**: the even-odd ray-casting test `isPointInsidePolygon` (module
  `PointBoundaryChecker`) and `closeShape` (module `CloseShape`), which pushes a copy of the first
  vertex onto the sketch's vertex list.
- **The "start cleaning" action** (module `Pipeline`): a grid manager with cell size 1, a planner
  with no start point, then `simulate`; its path is proved to cover the inside grid exactly once,
  in the planner's move order.

Modules `Types` (Option, `Vec3`, `Cell`) and `Seqs` (order-preserving `Filter` and its lemmas) are
shared. Coordinates are exact `real`s.

Notes on what the code does:

- The inside test is applied to the anchor corner `(x, z)` of a cell, not to its centre.
- There is no boundary-exclusion step.
- The grid manager does not close the ring itself: it relies on the drawing window having called
  `closeShape` when sketching stopped. `closeShape` appends the first vertex without checking
  whether the ring is already closed, so a second call appends it again (`CloseTwice`).
- The drawing windows do not import the `closeShape` helper of `helpers/CloseShape.tsx`: each has
  its own inline copy with the same test and push (`Components/ThreeJSDrawingWindow.tsx:91-99`,
  called at line 116; `Components/CanvasContainer.tsx:86-92`). The module `CloseShape` models the
  helper, and so the behaviour of both copies.
- The rasterizer does not use the even-odd test; it calls turf. `isPointInsidePolygon` is not
  called anywhere. It tests the x/y plane while the sketch lies in the y = 0 plane
  (`FlatSketchNeverInside`).
- The `inside` flag of a cell is never set to true.

## Model

| member | source | states |
|---|---|---|
| Seqs.Filter | CleaningBotPathGenerator/src/helpers/GridManager.tsx:49-51 | the filtered list holds exactly the elements of the input that pass the test, and is no longer than it |
| Seqs.FilterFilter | CleaningBotPathGenerator/src/helpers/BotSimulator.tsx:100-113 | collecting the adjacent cells and then dropping the visited ones equals one filter by the conjunction |
| Seqs.FilterFirst | CleaningBotPathGenerator/src/helpers/BotSimulator.tsx:57-58 | the filtered list is non-empty exactly when some element passes, and its first element is the earliest passing element of the input |
| Seqs.FilterKeepsOrder | CleaningBotPathGenerator/src/helpers/GridManager.tsx:49-51 | filtering preserves every pairwise order of the input |
| CloseShape.CloseShape | CleaningBotPathGenerator/src/helpers/CloseShape.tsx:9-19 | with more than two vertices one copy of the first is appended, so the length grows by one, the old vertices keep their positions and the last equals the first; otherwise the list is unchanged |
| CloseShape.CloseTwice | CleaningBotPathGenerator/src/helpers/CloseShape.tsx:12-14 | there is no already-closed check: closing twice appends two copies of the first vertex |
| PointBoundaryChecker.IsPointInsidePolygon | CleaningBotPathGenerator/src/helpers/PointBoundryChecker.tsx:4-27 | the result is true iff the number of edges (polygon[i], polygon[(i+1) % n]) that straddle point.y and cross strictly right of point.x is odd |
| PointBoundaryChecker.StraddleCrossesSegment | CleaningBotPathGenerator/src/helpers/PointBoundryChecker.tsx:15-17 | a straddling edge is never horizontal, so the division is safe; the crossing point lies on the edge's line and between its endpoints' x |
| PointBoundaryChecker.HorizontalEdgeNeverCrosses | CleaningBotPathGenerator/src/helpers/PointBoundryChecker.tsx:15 | horizontal and zero-length edges are never counted |
| PointBoundaryChecker.CrossingsAtMostEdges | CleaningBotPathGenerator/src/helpers/PointBoundryChecker.tsx:11-22 | the crossing count never exceeds the number of edges examined |
| PointBoundaryChecker.EmptyPolygonHasNoInside | CleaningBotPathGenerator/src/helpers/PointBoundryChecker.tsx:8-26 | an empty polygon contains no point |
| PointBoundaryChecker.OutsideVerticalRange | CleaningBotPathGenerator/src/helpers/PointBoundryChecker.tsx:15 | a point at or above every vertex, or below every vertex, crosses nothing and is outside |
| PointBoundaryChecker.ClosingKeepsInside | CleaningBotPathGenerator/src/helpers/PointBoundryChecker.tsx:11-15 | closing the ring with closeShape does not change the answer for any point |
| PointBoundaryChecker.FlatSketchNeverInside | CleaningBotPathGenerator/src/helpers/PointBoundryChecker.tsx:15 | for vertices and query point in the y = 0 plane the answer is always false |
| Grid.MinOf | CleaningBotPathGenerator/src/helpers/GridManager.tsx:30-32 | the minimum is an element of the list and no element is below it |
| Grid.MaxOf | CleaningBotPathGenerator/src/helpers/GridManager.tsx:31-33 | the maximum is an element of the list and no element is above it |
| Grid.CalculateBounds | CleaningBotPathGenerator/src/helpers/GridManager.tsx:21-35 | no bounds exactly for no vertices; otherwise every vertex lies within minX..maxX and minZ..maxZ and each bound is attained by some vertex |
| Grid.StepWithinBound | CleaningBotPathGenerator/src/helpers/GridManager.tsx:40-41 | the loop test lo + i*cs <= hi holds exactly for the first floor((hi-lo)/cs)+1 steps, so each loop terminates after that many |
| Grid.ColumnsLength | CleaningBotPathGenerator/src/helpers/GridManager.tsx:40-44 | i columns hold i times the row count cells |
| Grid.ColumnsAt | CleaningBotPathGenerator/src/helpers/GridManager.tsx:40-44 | the candidate of column c and row j is present, at position c*rows + j |
| Grid.CandidateInBounds | CleaningBotPathGenerator/src/helpers/GridManager.tsx:40-42 | a candidate of an existing column and row lies within the bounds, is not flagged inside and has no index |
| Grid.ColumnsInBounds | CleaningBotPathGenerator/src/helpers/GridManager.tsx:38-45 | every generated cell lies within the bounds, has inside == false and no index |
| Grid.ColumnsAscending | CleaningBotPathGenerator/src/helpers/GridManager.tsx:40-44 | generated cells are strictly ascending: x first, then z |
| Grid.ColumnsStep | CleaningBotPathGenerator/src/helpers/GridManager.tsx:40-44 | consecutive cells differ by one step: next row in the same column, or the first row (z = minZ) of the next column |
| Grid.GridSize | CleaningBotPathGenerator/src/helpers/GridManager.tsx:40-41 | the grid has (floor((maxX-minX)/cs)+1) * (floor((maxZ-minZ)/cs)+1) cells |
| Grid.GridManager.constructor | CleaningBotPathGenerator/src/helpers/GridManager.tsx:12-18 | with cellSize > 0, stores the bounds of the vertices and leaves grid and inside grid as generated and filtered from them |
| Grid.GridManager.GenerateGrid | CleaningBotPathGenerator/src/helpers/GridManager.tsx:38-45 | the nested loops terminate and push exactly the candidates in generation order |
| Grid.GridManager.FilterInsideGrid | CleaningBotPathGenerator/src/helpers/GridManager.tsx:48-54 | the inside grid is the filtered grid with each cell's index set to its position |
| Grid.GridManager.GetInsideGrid | CleaningBotPathGenerator/src/helpers/GridManager.tsx:56-58 | the stored list, read without changing state; cell i has index i, inside == false and an anchor that passes the test |
| Grid.KeptCellsAreCandidates | CleaningBotPathGenerator/src/helpers/GridManager.tsx:49-53 | every kept cell is a grid cell that passed the test, carrying its position as index |
| Grid.PassingCandidatesAreKept | CleaningBotPathGenerator/src/helpers/GridManager.tsx:49-51 | every grid cell whose anchor passes the test is kept |
| Grid.KeptCellsInOrder | CleaningBotPathGenerator/src/helpers/GridManager.tsx:49-51 | kept cells stay in generation order |
| Grid.InsideGridSelection | CleaningBotPathGenerator/src/helpers/GridManager.tsx:12-18 | the inside grid of a vertex list consists of grid cells passing the test, densely indexed, not flagged inside, in ascending generation order |
| Planner.FindNearestGridCell | CleaningBotPathGenerator/src/helpers/BotSimulator.tsx:31-51 | an empty grid fails; otherwise the result is the cell at minimal distance to the point, the earliest among equals |
| Planner.UnvisitedRemains | CleaningBotPathGenerator/src/helpers/BotSimulator.tsx:121-124 | with dense indices, an unvisited cell exists exactly when fewer indices are visited than there are cells |
| Planner.AdjacentStepTakesEarliest | CleaningBotPathGenerator/src/helpers/BotSimulator.tsx:55-63 | an adjacency step exists exactly when some adjacent unvisited cell does, and it takes the earliest such cell in grid order |
| Planner.PositionNeverAdjacentCandidate | CleaningBotPathGenerator/src/helpers/BotSimulator.tsx:100-113 | the visited current cell is never among the adjacency candidates |
| Planner.BotSimulator.constructor | CleaningBotPathGenerator/src/helpers/BotSimulator.tsx:22-27 | the planner starts at the given cell, with only its index visited and an empty path |
| Planner.BotSimulator.FindAdjacentCells | CleaningBotPathGenerator/src/helpers/BotSimulator.tsx:96-114 | returns, in grid order, exactly the unvisited cells in the same row within one step in x or in the same column within one step in z |
| Planner.BotSimulator.FindNearestUnvisitedCell | CleaningBotPathGenerator/src/helpers/BotSimulator.tsx:66-84 | nothing exactly when every cell is visited; otherwise the unvisited cell at minimal Manhattan distance, the earliest among equals |
| Planner.BotSimulator.MoveBot | CleaningBotPathGenerator/src/helpers/BotSimulator.tsx:54-93 | moves to the first adjacent unvisited cell, else to the Manhattan-nearest unvisited cell; while a cell is unvisited it adds exactly one new index, otherwise nothing changes |
| Planner.BotSimulator.Simulate | CleaningBotPathGenerator/src/helpers/BotSimulator.tsx:117-130 | terminates, keeps the old path, pushes the current cell first and leaves the bot on the last pushed cell; on a fresh planner the path has length N, lists every inside cell exactly once, and each entry after the first is the planner's move from the entry before it given the cells visited so far, and afterwards every index is visited and the visited set is exactly the path's indices |
| Planner.GreedyWalkSteps | CleaningBotPathGenerator/src/helpers/BotSimulator.tsx:121-128 | in a greedy walk, entry k + 1 is the move from entry k with the indices of entries 0..k visited: the first adjacent unvisited cell in grid order, else the first Manhattan-nearest unvisited cell |
| Planner.StepIsDeterministic | CleaningBotPathGenerator/src/helpers/BotSimulator.tsx:55-91 | a move is fully determined by the current cell and the visited set: the strict `<` of the nearest-cell scan leaves no tie unresolved |
| Planner.GreedyWalksAgree | CleaningBotPathGenerator/src/helpers/BotSimulator.tsx:117-130 | two greedy walks of the same length from the same start cell are equal, so the path's contract determines it |
| Planner.NewBotSimulator | CleaningBotPathGenerator/src/helpers/BotSimulator.tsx:10-28 | fails with the matching error on an empty inside grid; starts at insideGrid[0] or at the nearest cell to the point; visits only the start cell |
| Pipeline.StartCleaning | CleaningBotPathGenerator/src/Components/ThreeJSDrawingWindow.tsx:161-167 | with cell size 1 and no start point, fails exactly when the inside grid is empty, and otherwise returns a path starting at the first inside cell that lists every inside cell exactly once, each entry being the planner's move from the one before |

## Left out

- turf's `booleanPointInPolygon` and `polygon()` are a foreign library; the inside test is the uninterpreted parameter `inPolygon`, and `polygon()`'s validation of the ring (and the error it throws) is not modelled.
- Floating-point rounding in `x += cellSize` and in the `===` coordinate comparisons: coordinates are exact reals.
- `Math.sqrt` in the nearest-cell search: squared distances are compared instead, which orders cells the same way.
- The `Number.MAX_VALUE` sentinels of the two minimum searches are `Option` values.
- With no vertices, `Math.min`/`Math.max` give +Infinity/-Infinity and no cell is generated; the bounds are `None` and the grid is empty.
- Cells are shared objects in the source: writing `cell.index` also changes the cell as seen through `grid`. Cells are values here, so `grid` keeps its cells without index; `grid` is never read after filtering.
- The planner reads the inside grid and cell size of its grid manager once, at construction; the grid manager never changes after its constructor, so this is the same.
- Planner.NewBotSimulator: requires the grid manager's invariant, so the planner only sees densely indexed cells; paths over cells with missing or repeated indices are not modelled.
- Grid.GridManager.constructor: requires a positive cell size. With a cell size of zero or less and at least one vertex, the loops of `generateGrid` never end; the only caller passes 1.
- Grid.GridManager.GenerateGrid: requires a positive cell size for the same reason: with zero or less the x loop never advances.
- Planner.BotSimulator.Simulate: on a planner whose path is not empty (a second call), it only states that the old path is kept and the current cell is pushed next.
- The rendering update `line.current.geometry.setFromPoints` in `closeShape`, and all React, three.js scene, camera, mouse and button code.
