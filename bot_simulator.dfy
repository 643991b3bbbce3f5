/**
 * The coverage planner: starting from one inside cell, the bot repeatedly rolls to the first
 * unvisited axis-adjacent cell in grid order, or jumps to the nearest unvisited cell by Manhattan
 * distance when no such neighbour is left, until every inside cell has been visited.
 */
module Planner {
  import opened Types
  import opened Seqs
  import Grid

  /** The two ways construction fails, one per thrown error message. */
  datatype SimError =
    | EmptyInsideGrid  // no start point given and no inside cell
    | NoCellsFound     // a start point given and no inside cell

  datatype Result<T> = Ok(value: T) | Err(error: SimError)

  function Abs(r: real): real
  {
    if r < 0.0 then -r else r
  }

  /** Squared Euclidean distance from a cell's anchor to a point; orders like the distance itself. */
  function SquaredDistance(cell: Cell, point: Vec3): real
  {
    (cell.x - point.x) * (cell.x - point.x) + (cell.z - point.z) * (cell.z - point.z)
  }

  function Manhattan(cell: Cell, from: Cell): real
  {
    Abs(cell.x - from.x) + Abs(cell.z - from.z)
  }

  /** Same row and at most one step apart in x, or same column and at most one step apart in z. */
  predicate IsAdjacent(position: Cell, cell: Cell, cellSize: real)
  {
    (Abs(cell.x - position.x) <= cellSize && cell.z == position.z) ||
    (Abs(cell.z - position.z) <= cellSize && cell.x == position.x)
  }

  /** The cell has an index and that index has not been visited. */
  predicate IsUnvisited(cell: Cell, visited: set<nat>)
  {
    cell.index.Some? && cell.index.value !in visited
  }

  /** The candidates of an adjacency step: the adjacent unvisited cells, in grid order. */
  function AdjacentUnvisited(cells: seq<Cell>, cellSize: real, position: Cell, visited: set<nat>): seq<Cell>
  {
    Filter(cells, (c: Cell) => IsAdjacent(position, c, cellSize) && IsUnvisited(c, visited))
  }

  /** Cell i carries index i, for every i: the numbering the grid manager gives its inside cells. */
  ghost predicate DenselyIndexed(cells: seq<Cell>)
  {
    forall i :: 0 <= i < |cells| ==> cells[i].index == Some(i)
  }

  /** Cell k is at minimal distance from the point, and strictly nearer than every earlier cell. */
  ghost predicate IsNearestTo(cells: seq<Cell>, point: Vec3, k: int)
  {
    0 <= k < |cells| &&
    (forall j :: 0 <= j < |cells| ==> SquaredDistance(cells[k], point) <= SquaredDistance(cells[j], point)) &&
    (forall j :: 0 <= j < k ==> SquaredDistance(cells[k], point) < SquaredDistance(cells[j], point))
  }

  /**
   * Cell k is unvisited, at minimal Manhattan distance among the unvisited cells, and strictly
   * nearer than every earlier unvisited cell.
   */
  ghost predicate IsNearestUnvisited(cells: seq<Cell>, from: Cell, visited: set<nat>, k: int)
  {
    0 <= k < |cells| && IsUnvisited(cells[k], visited) &&
    (forall j :: 0 <= j < |cells| && IsUnvisited(cells[j], visited) ==>
      Manhattan(cells[k], from) <= Manhattan(cells[j], from)) &&
    (forall j :: 0 <= j < k && IsUnvisited(cells[j], visited) ==>
      Manhattan(cells[k], from) < Manhattan(cells[j], from))
  }

  /** Some cell is still unvisited. */
  ghost predicate HasUnvisited(cells: seq<Cell>, visited: set<nat>)
  {
    exists k :: 0 <= k < |cells| && IsUnvisited(cells[k], visited)
  }

  /** The path lists every cell of `cells` exactly once. */
  ghost predicate VisitsEachOnce(path: seq<Cell>, cells: seq<Cell>)
  {
    |path| == |cells| &&
    (forall k :: 0 <= k < |path| ==> path[k] in cells) &&
    (forall i :: 0 <= i < |cells| ==> exists k :: 0 <= k < |path| && path[k] == cells[i]) &&
    (forall k, l :: 0 <= k < l < |path| ==> path[k] != path[l])
  }

  /** The indices carried by the cells of a walk. */
  function IndicesOf(walk: seq<Cell>): set<nat>
  {
    if |walk| == 0 then {}
    else
      var last := walk[|walk| - 1];
      IndicesOf(walk[..|walk| - 1]) + (if last.index.Some? then {last.index.value} else {})
  }

  /** An index is carried by a walk exactly when one of its cells carries it. */
  lemma {:induction false} IndicesOfMembers(walk: seq<Cell>)
    ensures forall v :: v in IndicesOf(walk) <==> exists i :: 0 <= i < |walk| && walk[i].index == Some(v)
  {
    if |walk| > 0 {
      var front := walk[..|walk| - 1];
      IndicesOfMembers(front);
      forall v | v in IndicesOf(walk) ensures exists i :: 0 <= i < |walk| && walk[i].index == Some(v) {
        if v in IndicesOf(front) {
          var i :| 0 <= i < |front| && front[i].index == Some(v);
          assert walk[i] == front[i];
        }
      }
      forall v | exists i :: 0 <= i < |walk| && walk[i].index == Some(v) ensures v in IndicesOf(walk) {
        var i :| 0 <= i < |walk| && walk[i].index == Some(v);
        if i < |front| {
          assert front[i] == walk[i];
        }
      }
    }
  }

  /** A walk carries at most one index per cell. */
  lemma {:induction false} IndicesOfSize(walk: seq<Cell>)
    ensures |IndicesOf(walk)| <= |walk|
  {
    if |walk| > 0 {
      IndicesOfSize(walk[..|walk| - 1]);
    }
  }

  /** The last cell of a walk carrying one index per cell adds an index its front lacks. */
  lemma LastIndexFresh(walk: seq<Cell>)
    requires 0 < |walk| == |IndicesOf(walk)|
    ensures var front := walk[..|walk| - 1];
      walk[|walk| - 1].index.Some? && walk[|walk| - 1].index.value !in IndicesOf(front) &&
      |IndicesOf(front)| == |front|
  {
    IndicesOfSize(walk[..|walk| - 1]);
  }

  /** A walk carrying one index per cell has an index on every cell, and no two cells share one. */
  lemma {:induction false} DistinctIndices(walk: seq<Cell>)
    requires |IndicesOf(walk)| == |walk|
    ensures forall k :: 0 <= k < |walk| ==> walk[k].index.Some?
    ensures forall k, l :: 0 <= k < l < |walk| ==> walk[k].index != walk[l].index
  {
    if |walk| > 0 {
      var front := walk[..|walk| - 1];
      LastIndexFresh(walk);
      DistinctIndices(front);
      IndicesOfMembers(front);
      forall k | 0 <= k < |front| ensures walk[k] == front[k] && front[k].index.value in IndicesOf(front) {
      }
    }
  }

  /**
   * One move of the planner from `from` with `visited` already visited: the first adjacent
   * unvisited cell in grid order if there is one, otherwise the first unvisited cell at minimal
   * Manhattan distance.
   */
  ghost predicate IsStep(cells: seq<Cell>, cellSize: real, visited: set<nat>, from: Cell, to: Cell)
  {
    var adjacent := AdjacentUnvisited(cells, cellSize, from, visited);
    if |adjacent| > 0 then to == adjacent[0]
    else exists k :: IsNearestUnvisited(cells, from, visited, k) && to == cells[k]
  }

  /** Every entry of the walk after the first is the planner's move from the entry before it. */
  ghost predicate GreedyWalk(cells: seq<Cell>, cellSize: real, walk: seq<Cell>)
    decreases |walk|
  {
    |walk| <= 1 ||
    (var front := walk[..|walk| - 1];
     GreedyWalk(cells, cellSize, front) &&
     IsStep(cells, cellSize, IndicesOf(front), front[|front| - 1], walk[|walk| - 1]))
  }

  /** Entry k + 1 of a greedy walk is the move from entry k, with the entries up to k visited. */
  lemma {:induction false} GreedyWalkSteps(cells: seq<Cell>, cellSize: real, walk: seq<Cell>)
    requires GreedyWalk(cells, cellSize, walk)
    ensures forall k :: 0 <= k < |walk| - 1 ==>
      IsStep(cells, cellSize, IndicesOf(walk[..k + 1]), walk[k], walk[k + 1])
  {
    if |walk| > 1 {
      var front := walk[..|walk| - 1];
      GreedyWalkSteps(cells, cellSize, front);
      forall k | 0 <= k < |walk| - 1
        ensures IsStep(cells, cellSize, IndicesOf(walk[..k + 1]), walk[k], walk[k + 1])
      {
        if k + 1 < |front| {
          assert front[..k + 1] == walk[..k + 1];
          assert front[k] == walk[k] && front[k + 1] == walk[k + 1];
        } else {
          assert walk[..k + 1] == front;
        }
      }
    }
  }

  /** A move is determined by where it starts and what is visited: ties go to the earliest cell. */
  lemma StepIsDeterministic(cells: seq<Cell>, cellSize: real, visited: set<nat>, from: Cell, to1: Cell, to2: Cell)
    requires IsStep(cells, cellSize, visited, from, to1) && IsStep(cells, cellSize, visited, from, to2)
    ensures to1 == to2
  {
    if |AdjacentUnvisited(cells, cellSize, from, visited)| == 0 {
      var k1 :| IsNearestUnvisited(cells, from, visited, k1) && to1 == cells[k1];
      var k2 :| IsNearestUnvisited(cells, from, visited, k2) && to2 == cells[k2];
      assert k1 == k2;
    }
  }

  /** Two greedy walks of the same length from the same start cell are the same walk. */
  lemma {:induction false} GreedyWalksAgree(cells: seq<Cell>, cellSize: real, w1: seq<Cell>, w2: seq<Cell>)
    requires GreedyWalk(cells, cellSize, w1) && GreedyWalk(cells, cellSize, w2)
    requires 0 < |w1| == |w2| && w1[0] == w2[0]
    ensures w1 == w2
  {
    if |w1| > 1 {
      var f1, f2 := w1[..|w1| - 1], w2[..|w2| - 1];
      assert f1[0] == w1[0] && f2[0] == w2[0];
      GreedyWalksAgree(cells, cellSize, f1, f2);
      StepIsDeterministic(cells, cellSize, IndicesOf(f1), f1[|f1| - 1], w1[|w1| - 1], w2[|w2| - 1]);
      assert w1 == f1 + [w1[|w1| - 1]];
      assert w2 == f2 + [w2[|w2| - 1]];
    }
  }

  /** The start cell for a given point: one scan keeping the first strictly nearer cell. */
  method FindNearestGridCell(insideGrid: seq<Cell>, point: Vec3) returns (r: Result<Cell>)
    ensures r.Err? <==> |insideGrid| == 0
    ensures r.Err? ==> r.error == NoCellsFound
    ensures r.Ok? ==> exists k :: IsNearestTo(insideGrid, point, k) && r.value == insideGrid[k]
  {
    var nearestCell: Option<Cell> := None;
    ghost var at := 0;
    var minDistance := 0.0;
    for i := 0 to |insideGrid|
      invariant nearestCell.None? <==> i == 0
      invariant nearestCell.Some? ==>
        IsNearestTo(insideGrid[..i], point, at) && nearestCell.value == insideGrid[at] &&
        minDistance == SquaredDistance(insideGrid[at], point)
    {
      var distance := SquaredDistance(insideGrid[i], point);
      if nearestCell.None? || distance < minDistance {
        minDistance := distance;
        nearestCell := Some(insideGrid[i]);
        at := i;
      }
    }
    if nearestCell.None? {
      return Err(NoCellsFound);
    }
    assert insideGrid[..|insideGrid|] == insideGrid;
    r := Ok(nearestCell.value);
  }

  /** The set of the indices below n. */
  function Below(n: nat): (s: set<nat>)
    ensures forall i :: i in s <==> 0 <= i < n
  {
    if n == 0 then {} else Below(n - 1) + {n - 1}
  }

  lemma {:induction false} BelowSize(n: nat)
    ensures |Below(n)| == n
  {
    if n > 0 {
      BelowSize(n - 1);
    }
  }

  /**
   * A set of indices below n misses exactly n - |s| of them; so it has at most n elements, and
   * exactly n only when it holds them all.
   */
  lemma IndicesBelow(s: set<nat>, n: nat)
    requires forall v :: v in s ==> v < n
    ensures |Below(n) - s| == n - |s|
    ensures |s| == n ==> forall i :: 0 <= i < n ==> i in s
  {
    BelowSize(n);
    assert s <= Below(n);
    assert Below(n) == (Below(n) - s) + s;
    if |s| == n {
      assert Below(n) - s == {};
      forall i | 0 <= i < n ensures i in s {
        assert i in Below(n);
      }
    }
  }

  /** With dense indices, fewer visited indices than cells leaves some cell unvisited. */
  lemma UnvisitedRemains(cells: seq<Cell>, visited: set<nat>)
    requires DenselyIndexed(cells)
    requires forall v :: v in visited ==> v < |cells|
    ensures HasUnvisited(cells, visited) <==> |visited| < |cells|
  {
    IndicesBelow(visited, |cells|);
    if |visited| < |cells| {
      assert Below(|cells|) - visited != {};
      var i :| i in Below(|cells|) - visited;
      assert IsUnvisited(cells[i], visited);
    } else {
      forall k | 0 <= k < |cells| ensures !IsUnvisited(cells[k], visited) {
        assert cells[k].index == Some(k);
      }
    }
  }

  /**
   * The first candidate of an adjacency step is the earliest cell of the grid that is adjacent
   * and unvisited; there is one exactly when such a cell exists.
   */
  lemma AdjacentStepTakesEarliest(cells: seq<Cell>, cellSize: real, position: Cell, visited: set<nat>)
    ensures var adjacent := AdjacentUnvisited(cells, cellSize, position, visited);
      (|adjacent| > 0 <==>
        exists k :: 0 <= k < |cells| && IsAdjacent(position, cells[k], cellSize) && IsUnvisited(cells[k], visited)) &&
      (|adjacent| > 0 ==>
        exists k :: 0 <= k < |cells| && adjacent[0] == cells[k] &&
          IsAdjacent(position, cells[k], cellSize) && IsUnvisited(cells[k], visited) &&
          forall j :: 0 <= j < k ==> !(IsAdjacent(position, cells[j], cellSize) && IsUnvisited(cells[j], visited)))
  {
    FilterFirst(cells, (c: Cell) => IsAdjacent(position, c, cellSize) && IsUnvisited(c, visited));
  }

  /** The position itself is never a candidate of an adjacency step once it is visited. */
  lemma PositionNeverAdjacentCandidate(cells: seq<Cell>, cellSize: real, position: Cell, visited: set<nat>)
    requires position.index.Some? && position.index.value in visited
    ensures position !in AdjacentUnvisited(cells, cellSize, position, visited)
  {
  }

  /** The planner: the current cell, the indices visited so far and the path walked. */
  class BotSimulator {
    const insideGrid: seq<Cell>
    const cellSize: real
    var currentPosition: Cell
    var visitedCells: set<nat>
    var path: seq<Cell>

    ghost predicate Valid()
      reads this
    {
      DenselyIndexed(insideGrid) &&
      currentPosition.index.Some? && currentPosition.index.value < |insideGrid| &&
      insideGrid[currentPosition.index.value] == currentPosition &&
      currentPosition.index.value in visitedCells &&
      (forall v :: v in visitedCells ==> v < |insideGrid|)
    }

    /** Starts at the given inside cell, with only that cell visited and an empty path. */
    constructor (insideGrid: seq<Cell>, cellSize: real, start: Cell)
      requires DenselyIndexed(insideGrid) && start in insideGrid
      ensures Valid()
      ensures this.insideGrid == insideGrid && this.cellSize == cellSize
      ensures currentPosition == start && path == []
      ensures visitedCells == {start.index.value}
    {
      this.insideGrid := insideGrid;
      this.cellSize := cellSize;
      currentPosition := start;
      visitedCells := {start.index.value};
      path := [];
    }

    /** The adjacent cells of a position, in grid order, that are not yet visited. */
    method FindAdjacentCells(position: Cell) returns (adjacentCells: seq<Cell>)
      ensures adjacentCells == AdjacentUnvisited(insideGrid, cellSize, position, visitedCells)
      ensures forall c :: c in adjacentCells <==>
        c in insideGrid && IsAdjacent(position, c, cellSize) && IsUnvisited(c, visitedCells)
    {
      adjacentCells := [];
      var allCells := insideGrid;
      for i := 0 to |allCells|
        invariant adjacentCells == Filter(allCells[..i], (c: Cell) => IsAdjacent(position, c, cellSize))
      {
        FilterSnoc(allCells[..i], allCells[i], (c: Cell) => IsAdjacent(position, c, cellSize));
        assert allCells[..i + 1] == allCells[..i] + [allCells[i]];
        if IsAdjacent(position, allCells[i], cellSize) {
          adjacentCells := adjacentCells + [allCells[i]];
        }
      }
      assert allCells[..|allCells|] == allCells;
      var visited := visitedCells;
      adjacentCells := Filter(adjacentCells, (c: Cell) => IsUnvisited(c, visited));
      FilterFilter(allCells, (c: Cell) => IsAdjacent(position, c, cellSize),
        (c: Cell) => IsUnvisited(c, visited),
        (c: Cell) => IsAdjacent(position, c, cellSize) && IsUnvisited(c, visited));
    }

    /** The fallback scan: the first unvisited cell at minimal Manhattan distance from the bot. */
    method FindNearestUnvisitedCell() returns (nearestCell: Option<Cell>)
      ensures nearestCell.None? <==> !HasUnvisited(insideGrid, visitedCells)
      ensures nearestCell.Some? ==> exists k ::
        IsNearestUnvisited(insideGrid, currentPosition, visitedCells, k) && nearestCell.value == insideGrid[k]
    {
      nearestCell := None;
      ghost var at := 0;
      var minDistance := 0.0;
      for i := 0 to |insideGrid|
        invariant nearestCell.None? <==> !HasUnvisited(insideGrid[..i], visitedCells)
        invariant nearestCell.Some? ==>
          IsNearestUnvisited(insideGrid[..i], currentPosition, visitedCells, at) &&
          nearestCell.value == insideGrid[at] &&
          minDistance == Manhattan(insideGrid[at], currentPosition)
      {
        var cell := insideGrid[i];
        if cell.index.Some? && cell.index.value !in visitedCells {
          var distance := Abs(cell.x - currentPosition.x) + Abs(cell.z - currentPosition.z);
          if nearestCell.None? || distance < minDistance {
            minDistance := distance;
            nearestCell := Some(cell);
            at := i;
          }
        }
        assert insideGrid[..i + 1][i] == cell;
      }
      assert insideGrid[..|insideGrid|] == insideGrid;
    }

    /**
     * One move: to the first adjacent unvisited cell if there is one, otherwise to the nearest
     * unvisited cell; with nothing left to visit the bot stays where it is.
     */
    method MoveBot()
      requires Valid()
      modifies this`currentPosition, this`visitedCells
      ensures Valid()
      ensures HasUnvisited(insideGrid, old(visitedCells)) ==>
        IsStep(insideGrid, cellSize, old(visitedCells), old(currentPosition), currentPosition)
      ensures HasUnvisited(insideGrid, old(visitedCells)) ==>
        currentPosition.index.value !in old(visitedCells) &&
        visitedCells == old(visitedCells) + {currentPosition.index.value}
      ensures !HasUnvisited(insideGrid, old(visitedCells)) ==>
        currentPosition == old(currentPosition) && visitedCells == old(visitedCells)
    {
      var adjacentCells := FindAdjacentCells(currentPosition);
      AdjacentStepTakesEarliest(insideGrid, cellSize, currentPosition, visitedCells);
      if |adjacentCells| > 0 {
        var nextCell := adjacentCells[0];
        ghost var k :| 0 <= k < |insideGrid| && nextCell == insideGrid[k] &&
          IsAdjacent(currentPosition, insideGrid[k], cellSize) && IsUnvisited(insideGrid[k], visitedCells);
        currentPosition := nextCell;
        if nextCell.index.Some? {
          visitedCells := visitedCells + {nextCell.index.value};
        }
      } else {
        var nearestCell := FindNearestUnvisitedCell();
        if nearestCell.Some? {
          ghost var k :| IsNearestUnvisited(insideGrid, currentPosition, visitedCells, k) &&
            nearestCell.value == insideGrid[k];
          currentPosition := nearestCell.value;
          if nearestCell.value.index.Some? {
            visitedCells := visitedCells + {nearestCell.value.index.value};
          }
        }
      }
    }

    /**
     * Pushes the current cell, then moves and pushes until every cell is visited or the path is as
     * long as the inside grid. On a fresh planner the path lists every inside cell exactly once,
     * starting at the start cell, and each later entry is the move from the entry before it; the bot
     * ends on the last pushed cell with every index visited.
     */
    method Simulate() returns (result: seq<Cell>)
      requires Valid()
      modifies this`currentPosition, this`visitedCells, this`path
      ensures Valid() && result == path
      ensures |path| > |old(path)| && path[..|old(path)|] == old(path)
      ensures path[|old(path)|] == old(currentPosition)
      ensures currentPosition == path[|path| - 1]
      ensures old(path) == [] && old(visitedCells) == {old(currentPosition).index.value} ==>
        VisitsEachOnce(path, insideGrid) && GreedyWalk(insideGrid, cellSize, path) &&
        visitedCells == IndicesOf(path) && forall i :: 0 <= i < |insideGrid| ==> i in visitedCells
    {
      ghost var fresh0 := path == [] && visitedCells == {currentPosition.index.value};
      ghost var p0 := path;
      ghost var c0, walk := currentPosition, [currentPosition];
      var n := |insideGrid|;
      path := path + [currentPosition];
      while |visitedCells| < n && |path| < n
        invariant Valid()
        invariant path == p0 + walk && |walk| > 0 && walk[|walk| - 1] == currentPosition
        invariant walk[0] == c0
        invariant fresh0 ==> Planned(walk, visitedCells)
        decreases n - |path|
      {
        UnvisitedRemains(insideGrid, visitedCells);
        ghost var before, visited := walk, visitedCells;
        MoveBot();
        path := path + [currentPosition];
        walk := walk + [currentPosition];
        PlanExtends(fresh0, before, visited, currentPosition);
      }
      assert path[..|p0|] == p0 && path[|p0|] == walk[0];
      if fresh0 {
        PlanComplete(walk, visitedCells);
        assert path == walk;
      }
      result := path;
    }

    /** The walk so far: cells of the grid, one per visited index, carrying exactly the visited indices. */
    ghost predicate WalkSoFar(walk: seq<Cell>, visited: set<nat>)
    {
      visited == IndicesOf(walk) && |visited| == |walk| &&
      forall k :: 0 <= k < |walk| ==>
        walk[k].index.Some? && walk[k].index.value < |insideGrid| && insideGrid[walk[k].index.value] == walk[k]
    }

    /** Pushing the cell of a newly visited index extends the walk. */
    lemma WalkExtends(walk: seq<Cell>, visited: set<nat>, cell: Cell)
      requires WalkSoFar(walk, visited)
      requires cell.index.Some? && cell.index.value < |insideGrid| && insideGrid[cell.index.value] == cell
      requires cell.index.value !in visited
      ensures WalkSoFar(walk + [cell], visited + {cell.index.value})
    {
      assert (walk + [cell])[..|walk|] == walk;
    }

    /** The walk of a fresh planner: each cell once, with visited indices, each move greedy. */
    ghost predicate Planned(walk: seq<Cell>, visited: set<nat>)
    {
      WalkSoFar(walk, visited) && GreedyWalk(insideGrid, cellSize, walk)
    }

    /** Pushing the planner's move from the last cell of a planned walk keeps it planned. */
    lemma PlanExtends(planned: bool, walk: seq<Cell>, visited: set<nat>, cell: Cell)
      requires planned ==> Planned(walk, visited)
      requires |walk| > 0
      requires cell.index.Some? && cell.index.value < |insideGrid| && insideGrid[cell.index.value] == cell
      requires cell.index.value !in visited
      requires IsStep(insideGrid, cellSize, visited, walk[|walk| - 1], cell)
      ensures planned ==> Planned(walk + [cell], visited + {cell.index.value})
    {
      if planned {
        WalkExtends(walk, visited, cell);
        assert (walk + [cell])[..|walk|] == walk;
      }
    }

    /** A planned walk the loop stops on covers the inside grid. */
    lemma PlanComplete(walk: seq<Cell>, visited: set<nat>)
      requires Planned(walk, visited)
      requires forall v :: v in visited ==> v < |insideGrid|
      requires |visited| >= |insideGrid| || |walk| >= |insideGrid|
      ensures VisitsEachOnce(walk, insideGrid) && GreedyWalk(insideGrid, cellSize, walk)
      ensures visited == IndicesOf(walk) && forall i :: 0 <= i < |insideGrid| ==> i in visited
    {
      IndicesBelow(visited, |insideGrid|);
      WalkCoversAll(walk, visited);
    }

    /** A walk holding every index of the grid visits every cell exactly once. */
    lemma WalkCoversAll(walk: seq<Cell>, visited: set<nat>)
      requires WalkSoFar(walk, visited) && |walk| == |insideGrid|
      requires forall i :: 0 <= i < |insideGrid| ==> i in visited
      ensures VisitsEachOnce(walk, insideGrid)
    {
      IndicesOfMembers(walk);
      DistinctIndices(walk);
      forall i | 0 <= i < |insideGrid| ensures exists k :: 0 <= k < |walk| && walk[k] == insideGrid[i] {
        var k :| 0 <= k < |walk| && walk[k].index == Some(i);
        assert walk[k] == insideGrid[i];
      }
    }
  }

  /**
   * Construction: without a start point the first inside cell is the start, and an empty inside
   * grid is an error; with a start point the nearest inside cell is the start.
   */
  method NewBotSimulator(gridManager: Grid.GridManager, initialPosition: Option<Vec3>)
    returns (r: Result<BotSimulator>)
    requires gridManager.Valid()
    ensures r.Err? <==> |gridManager.insideGrid| == 0
    ensures r.Err? ==> r.error == (if initialPosition.None? then EmptyInsideGrid else NoCellsFound)
    ensures r.Ok? ==>
      fresh(r.value) && r.value.Valid() &&
      r.value.insideGrid == gridManager.insideGrid && r.value.cellSize == gridManager.cellSize &&
      r.value.path == [] && r.value.visitedCells == {r.value.currentPosition.index.value}
    ensures r.Ok? && initialPosition.None? ==> r.value.currentPosition == gridManager.insideGrid[0]
    ensures r.Ok? && initialPosition.Some? ==> exists k ::
      IsNearestTo(gridManager.insideGrid, initialPosition.value, k) &&
      r.value.currentPosition == gridManager.insideGrid[k]
  {
    var insideGrid := gridManager.GetInsideGrid();
    var start: Cell;
    if initialPosition.None? {
      if |insideGrid| == 0 {
        return Err(EmptyInsideGrid);
      }
      start := insideGrid[0];
    } else {
      var found := FindNearestGridCell(insideGrid, initialPosition.value);
      if found.Err? {
        return Err(found.error);
      }
      start := found.value;
    }
    var simulator := new BotSimulator(insideGrid, gridManager.cellSize, start);
    r := Ok(simulator);
  }
}
