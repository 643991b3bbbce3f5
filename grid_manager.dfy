/**
 * The grid rasterizer: the bounding box of the sketched vertices is covered by candidate cells,
 * one per step of `cellSize` along x and z, and the candidates whose anchor corner passes the
 * inside test are kept and given the indices 0..N-1 in generation order.
 */
module Grid {
  import opened Types
  import opened Seqs

  /** Axis-aligned bounds of the vertices in the x/z plane. */
  datatype Bounds = Bounds(minX: real, maxX: real, minZ: real, maxZ: real)

  /** `Math.min(...xs)` for a non-empty list. */
  function MinOf(xs: seq<real>): (m: real)
    requires |xs| > 0
    ensures m in xs
    ensures forall i :: 0 <= i < |xs| ==> m <= xs[i]
  {
    if |xs| == 1 then xs[0]
    else
      var rest := MinOf(xs[1..]);
      if xs[0] <= rest then xs[0] else rest
  }

  /** `Math.max(...xs)` for a non-empty list. */
  function MaxOf(xs: seq<real>): (m: real)
    requires |xs| > 0
    ensures m in xs
    ensures forall i :: 0 <= i < |xs| ==> xs[i] <= m
  {
    if |xs| == 1 then xs[0]
    else
      var rest := MaxOf(xs[1..]);
      if xs[0] >= rest then xs[0] else rest
  }

  function XsOf(points: seq<Vec3>): (xs: seq<real>)
  {
    seq(|points|, i requires 0 <= i < |points| => points[i].x)
  }

  function ZsOf(points: seq<Vec3>): (zs: seq<real>)
  {
    seq(|points|, i requires 0 <= i < |points| => points[i].z)
  }

  /**
   * The bounds of the vertices. With no vertices at all, `Math.min` and `Math.max` give +Infinity
   * and -Infinity and no candidate cell is generated; that case is `None`.
   */
  function CalculateBounds(points: seq<Vec3>): (b: Option<Bounds>)
    ensures b.None? <==> |points| == 0
    ensures b.Some? ==> forall i :: 0 <= i < |points| ==>
      b.value.minX <= points[i].x <= b.value.maxX && b.value.minZ <= points[i].z <= b.value.maxZ
    ensures b.Some? ==>
      (exists i :: 0 <= i < |points| && points[i].x == b.value.minX) &&
      (exists i :: 0 <= i < |points| && points[i].x == b.value.maxX) &&
      (exists i :: 0 <= i < |points| && points[i].z == b.value.minZ) &&
      (exists i :: 0 <= i < |points| && points[i].z == b.value.maxZ)
  {
    if |points| == 0 then None
    else
      var xs, zs := XsOf(points), ZsOf(points);
      assert forall i :: 0 <= i < |points| ==> xs[i] == points[i].x && zs[i] == points[i].z;
      Some(Bounds(MinOf(xs), MaxOf(xs), MinOf(zs), MaxOf(zs)))
  }

  /** How many of lo, lo + cs, lo + 2 cs, ... stay at or below hi. */
  function StepCount(lo: real, hi: real, cs: real): nat
    requires cs > 0.0
  {
    if hi < lo then 0 else ((hi - lo) / cs).Floor + 1
  }

  /** The i-th value the loop variable takes when it starts at lo and steps by cs. */
  function Coord(lo: real, cs: real, i: nat): real
  {
    lo + (i as real) * cs
  }

  /** Multiplying by a positive step keeps the order of the factors. */
  lemma MulMonotone(a: real, b: real, cs: real)
    requires cs > 0.0
    ensures a <= b <==> a * cs <= b * cs
    ensures a < b <==> a * cs < b * cs
  {
    assert b * cs - a * cs == (b - a) * cs;
  }

  /** Coordinates start at lo, grow by one step per index, and are strictly ascending. */
  lemma CoordFacts(lo: real, cs: real, i: nat, j: nat)
    requires cs > 0.0
    ensures lo <= Coord(lo, cs, i)
    ensures Coord(lo, cs, i + 1) == Coord(lo, cs, i) + cs
    ensures i < j ==> Coord(lo, cs, i) < Coord(lo, cs, j)
  {
    MulMonotone(0.0, i as real, cs);
    MulMonotone(i as real, j as real, cs);
    assert ((i + 1) as real) * cs == (i as real) * cs + cs;
  }

  /** Dividing by the step and multiplying back gives the distance again. */
  lemma DivMul(d: real, cs: real)
    requires cs > 0.0
    ensures (d / cs) * cs == d
  {
  }

  /** The loop test `Coord(lo, cs, i) <= hi` holds exactly for the first StepCount steps. */
  lemma StepWithinBound(lo: real, hi: real, cs: real, i: nat)
    requires cs > 0.0
    ensures Coord(lo, cs, i) <= hi <==> i < StepCount(lo, hi, cs)
  {
    var ir := i as real;
    CoordFacts(lo, cs, i, i);
    var offset := ir * cs;
    assert Coord(lo, cs, i) == lo + offset;
    if hi >= lo {
      var q := (hi - lo) / cs;
      var f := q.Floor;
      DivMul(hi - lo, cs);
      var span := q * cs;
      assert span == hi - lo;
      MulMonotone(ir, q, cs);
      assert ir <= q <==> offset <= span;
      assert f as real <= q < (f as real) + 1.0;
      assert i <= f <==> ir <= q;
    }
  }

  /** The candidate cell in column i and row j. */
  function CandidateAt(b: Bounds, cs: real, i: nat, j: nat): Cell
  {
    Cell(Coord(b.minX, cs, i), Coord(b.minZ, cs, j), false, None)
  }

  function RowCount(b: Bounds, cs: real): nat
    requires cs > 0.0
  {
    StepCount(b.minZ, b.maxZ, cs)
  }

  function ColumnCount(b: Bounds, cs: real): nat
    requires cs > 0.0
  {
    StepCount(b.minX, b.maxX, cs)
  }

  /** The cells the inner loop pushes for column i, z ascending. */
  function Column(b: Bounds, cs: real, i: nat): seq<Cell>
    requires cs > 0.0
  {
    seq(RowCount(b, cs), j requires 0 <= j < RowCount(b, cs) => CandidateAt(b, cs, i, j))
  }

  /** The cells of the first i columns, x ascending. */
  function Columns(b: Bounds, cs: real, i: nat): seq<Cell>
    requires cs > 0.0
  {
    if i == 0 then [] else Columns(b, cs, i - 1) + Column(b, cs, i - 1)
  }

  /** All candidate cells, in generation order. */
  function Candidates(bounds: Option<Bounds>, cs: real): seq<Cell>
    requires cs > 0.0
  {
    match bounds
    case None => []
    case Some(b) => Columns(b, cs, ColumnCount(b, cs))
  }

  /** Anchor order of generation: x ascending, then z ascending. */
  predicate AnchorBefore(c: Cell, d: Cell)
  {
    c.x < d.x || (c.x == d.x && c.z < d.z)
  }

  /** The kept cells with `index` set to their position. */
  function Indexed(cells: seq<Cell>): seq<Cell>
  {
    seq(|cells|, i requires 0 <= i < |cells| => cells[i].(index := Some(i)))
  }

  /** The inside grid built from a vertex list, a cell size and an inside test. */
  function InsideCells(points: seq<Vec3>, cs: real, inPolygon: (real, real) -> bool): seq<Cell>
    requires cs > 0.0
  {
    Indexed(Filter(Candidates(CalculateBounds(points), cs), (c: Cell) => inPolygon(c.x, c.z)))
  }

  /** There are RowCount cells per column. */
  lemma {:induction false} ColumnsLength(b: Bounds, cs: real, i: nat)
    requires cs > 0.0
    ensures |Columns(b, cs, i)| == i * RowCount(b, cs)
  {
    if i > 0 {
      ColumnsLength(b, cs, i - 1);
      assert (i - 1) * RowCount(b, cs) + RowCount(b, cs) == i * RowCount(b, cs);
    }
  }

  /** The grid has one cell per column and row: the cell of column c and row j is at c * rows + j. */
  lemma {:induction false} ColumnsAt(b: Bounds, cs: real, i: nat, c: nat, j: nat)
    requires cs > 0.0
    requires c < i && j < RowCount(b, cs)
    ensures c * RowCount(b, cs) + j < |Columns(b, cs, i)|
    ensures Columns(b, cs, i)[c * RowCount(b, cs) + j] == CandidateAt(b, cs, c, j)
  {
    var n := RowCount(b, cs);
    ColumnsLength(b, cs, i - 1);
    ColumnsLength(b, cs, i);
    if c == i - 1 {
      assert Columns(b, cs, i)[c * n + j] == Column(b, cs, c)[j];
    } else {
      ColumnsAt(b, cs, i - 1, c, j);
    }
    assert c * n + j < i * n by {
      assert (i - c - 1) * n >= 0;
      assert i * n == c * n + n + (i - c - 1) * n;
    }
  }

  /** A candidate of an existing column and row lies in the bounds. */
  lemma CandidateInBounds(b: Bounds, cs: real, i: nat, j: nat)
    requires cs > 0.0
    requires i < ColumnCount(b, cs) && j < RowCount(b, cs)
    ensures var c := CandidateAt(b, cs, i, j);
      b.minX <= c.x <= b.maxX && b.minZ <= c.z <= b.maxZ && !c.inside && c.index.None?
  {
    StepWithinBound(b.minX, b.maxX, cs, i);
    StepWithinBound(b.minZ, b.maxZ, cs, j);
    CoordFacts(b.minX, cs, i, i);
    CoordFacts(b.minZ, cs, j, j);
  }

  /** Every candidate lies in the bounds, is not flagged inside and has no index yet. */
  lemma {:induction false} ColumnsInBounds(b: Bounds, cs: real, i: nat)
    requires cs > 0.0
    requires i <= ColumnCount(b, cs)
    ensures forall k :: 0 <= k < |Columns(b, cs, i)| ==>
      var c := Columns(b, cs, i)[k];
      b.minX <= c.x <= b.maxX && b.minZ <= c.z <= b.maxZ && !c.inside && c.index.None?
  {
    if i > 0 {
      ColumnsInBounds(b, cs, i - 1);
      var prev, col := Columns(b, cs, i - 1), Column(b, cs, i - 1);
      var g := Columns(b, cs, i);
      assert g == prev + col;
      forall k | 0 <= k < |g|
        ensures b.minX <= g[k].x <= b.maxX && b.minZ <= g[k].z <= b.maxZ
        ensures !g[k].inside && g[k].index.None?
      {
        if k < |prev| {
          assert g[k] == prev[k];
        } else {
          assert g[k] == col[k - |prev|] == CandidateAt(b, cs, i - 1, k - |prev|);
          CandidateInBounds(b, cs, i - 1, k - |prev|);
        }
      }
    }
  }

  /** The cells of the first i columns all lie strictly left of column i. */
  lemma {:induction false} ColumnsLeftOf(b: Bounds, cs: real, i: nat)
    requires cs > 0.0
    ensures forall k :: 0 <= k < |Columns(b, cs, i)| ==>
      Columns(b, cs, i)[k].x < Coord(b.minX, cs, i)
  {
    if i > 0 {
      ColumnsLeftOf(b, cs, i - 1);
      CoordFacts(b.minX, cs, i - 1, i);
    }
  }

  /** Generation order is strictly ascending: x first, then z. */
  lemma {:induction false} ColumnsAscending(b: Bounds, cs: real, i: nat)
    requires cs > 0.0
    ensures forall k, l :: 0 <= k < l < |Columns(b, cs, i)| ==>
      AnchorBefore(Columns(b, cs, i)[k], Columns(b, cs, i)[l])
  {
    if i > 0 {
      ColumnsAscending(b, cs, i - 1);
      ColumnsLeftOf(b, cs, i - 1);
      var prev, col := Columns(b, cs, i - 1), Column(b, cs, i - 1);
      var g := Columns(b, cs, i);
      assert g == prev + col;
      forall k, l | 0 <= k < l < |g| ensures AnchorBefore(g[k], g[l]) {
        if l < |prev| {
          assert g[k] == prev[k] && g[l] == prev[l];
        } else if k < |prev| {
          assert g[k] == prev[k] && g[l] == col[l - |prev|];
        } else {
          var jk, jl := k - |prev|, l - |prev|;
          assert g[k] == col[jk] && g[l] == col[jl];
          CoordFacts(b.minZ, cs, jk, jl);
        }
      }
    }
  }

  /** The last cell of column i - 1 is followed by the first cell of column i. */
  lemma ColumnBoundary(b: Bounds, cs: real, i: nat)
    requires cs > 0.0 && i > 0 && RowCount(b, cs) > 0
    ensures |Columns(b, cs, i)| == i * RowCount(b, cs)
    ensures Columns(b, cs, i)[|Columns(b, cs, i)| - 1] == CandidateAt(b, cs, i - 1, RowCount(b, cs) - 1)
    ensures Columns(b, cs, i + 1)[|Columns(b, cs, i)|] == CandidateAt(b, cs, i, 0)
  {
    ColumnsLength(b, cs, i);
    var n := RowCount(b, cs);
    var g := Columns(b, cs, i);
    assert g == Columns(b, cs, i - 1) + Column(b, cs, i - 1);
    ColumnsLength(b, cs, i - 1);
    assert |g| - 1 == |Columns(b, cs, i - 1)| + (n - 1);
    assert Columns(b, cs, i + 1) == g + Column(b, cs, i);
  }

  /**
   * Consecutive candidates differ by one step: the next row in the same column, or the first row
   * of the next column.
   */
  lemma {:induction false} ColumnsStep(b: Bounds, cs: real, i: nat)
    requires cs > 0.0
    ensures forall k :: 0 <= k < |Columns(b, cs, i)| - 1 ==>
      var c, d := Columns(b, cs, i)[k], Columns(b, cs, i)[k + 1];
      (d.x == c.x && d.z == c.z + cs) || (d.x == c.x + cs && d.z == b.minZ)
  {
    if i > 0 {
      ColumnsStep(b, cs, i - 1);
      var prev, col := Columns(b, cs, i - 1), Column(b, cs, i - 1);
      var g := Columns(b, cs, i);
      assert g == prev + col;
      forall k | 0 <= k < |g| - 1
        ensures (g[k + 1].x == g[k].x && g[k + 1].z == g[k].z + cs) ||
                (g[k + 1].x == g[k].x + cs && g[k + 1].z == b.minZ)
      {
        if k + 1 < |prev| {
          assert g[k] == prev[k] && g[k + 1] == prev[k + 1];
        } else if k + 1 == |prev| {
          ColumnsLength(b, cs, i - 1);
          assert i - 1 > 0 && RowCount(b, cs) > 0;
          ColumnBoundary(b, cs, i - 1);
          assert g[k] == CandidateAt(b, cs, i - 2, RowCount(b, cs) - 1);
          assert g[k + 1] == CandidateAt(b, cs, i - 1, 0);
          CoordFacts(b.minX, cs, i - 2, i - 2);
          CoordFacts(b.minZ, cs, 0, 0);
        } else {
          var j := k - |prev|;
          assert g[k] == col[j] && g[k + 1] == col[j + 1];
          CoordFacts(b.minZ, cs, j, j);
        }
      }
    }
  }

  /** Grid size in exact arithmetic: (floor((maxX - minX) / cs) + 1) * (floor((maxZ - minZ) / cs) + 1). */
  lemma GridSize(b: Bounds, cs: real)
    requires cs > 0.0
    requires b.minX <= b.maxX && b.minZ <= b.maxZ
    ensures |Candidates(Some(b), cs)| ==
      (((b.maxX - b.minX) / cs).Floor + 1) * (((b.maxZ - b.minZ) / cs).Floor + 1)
  {
    ColumnsLength(b, cs, ColumnCount(b, cs));
  }

  /**
   * The grid manager: it computes the bounds, generates the candidates and keeps the inside
   * cells once, at construction; afterwards its state is only read.
   */
  class GridManager {
    const cellSize: real
    /** The inside test on a cell's anchor corner; a library call, left uninterpreted. */
    const inPolygon: (real, real) -> bool
    var bounds: Option<Bounds>
    var grid: seq<Cell>
    var insideGrid: seq<Cell>

    ghost predicate Valid()
      reads this
    {
      cellSize > 0.0 &&
      grid == Candidates(bounds, cellSize) &&
      insideGrid == Indexed(Filter(grid, (c: Cell) => inPolygon(c.x, c.z)))
    }

    constructor (points: seq<Vec3>, cellSize: real, inPolygon: (real, real) -> bool)
      requires cellSize > 0.0
      ensures Valid()
      ensures this.cellSize == cellSize && this.inPolygon == inPolygon
      ensures bounds == CalculateBounds(points)
      ensures insideGrid == InsideCells(points, cellSize, inPolygon)
    {
      this.cellSize := cellSize;
      this.inPolygon := inPolygon;
      grid := [];
      insideGrid := [];
      bounds := CalculateBounds(points);
      new;
      GenerateGrid();
      FilterInsideGrid();
    }

    /** Nested loops over x and z, pushing one candidate cell per step. */
    method GenerateGrid()
      requires cellSize > 0.0
      modifies this`grid
      ensures grid == old(grid) + Candidates(bounds, cellSize)
    {
      if bounds.None? {
        return;
      }
      var b := bounds.value;
      ghost var g0 := grid;
      ghost var i: nat := 0;
      var x := b.minX;
      while x <= b.maxX
        invariant x == Coord(b.minX, cellSize, i)
        invariant i <= ColumnCount(b, cellSize)
        invariant grid == g0 + Columns(b, cellSize, i)
        decreases ColumnCount(b, cellSize) - i
      {
        StepWithinBound(b.minX, b.maxX, cellSize, i);
        ghost var j: nat := 0;
        var z := b.minZ;
        while z <= b.maxZ
          invariant z == Coord(b.minZ, cellSize, j)
          invariant j <= RowCount(b, cellSize)
          invariant grid == g0 + Columns(b, cellSize, i) + Column(b, cellSize, i)[..j]
          decreases RowCount(b, cellSize) - j
        {
          StepWithinBound(b.minZ, b.maxZ, cellSize, j);
          CoordFacts(b.minZ, cellSize, j, j);
          assert Column(b, cellSize, i)[..j + 1] == Column(b, cellSize, i)[..j] + [Cell(x, z, false, None)];
          grid := grid + [Cell(x, z, false, None)];
          z := z + cellSize;
          j := j + 1;
        }
        StepWithinBound(b.minZ, b.maxZ, cellSize, j);
        assert Column(b, cellSize, i)[..j] == Column(b, cellSize, i);
        CoordFacts(b.minX, cellSize, i, i);
        x := x + cellSize;
        i := i + 1;
      }
      StepWithinBound(b.minX, b.maxX, cellSize, i);
    }

    /** Keeps the cells whose anchor passes the inside test, then numbers them in place. */
    method FilterInsideGrid()
      modifies this`insideGrid
      ensures insideGrid == Indexed(Filter(grid, (c: Cell) => inPolygon(c.x, c.z)))
    {
      var kept := Filter(grid, (c: Cell) => inPolygon(c.x, c.z));
      insideGrid := kept;
      var index := 0;
      while index < |insideGrid|
        invariant 0 <= index <= |insideGrid| == |kept|
        invariant forall k :: 0 <= k < index ==> insideGrid[k] == kept[k].(index := Some(k))
        invariant forall k :: index <= k < |kept| ==> insideGrid[k] == kept[k]
      {
        insideGrid := insideGrid[index := insideGrid[index].(index := Some(index))];
        index := index + 1;
      }
    }

    /** The stored inside grid; each cell carries its own position as index. */
    function GetInsideGrid(): (cells: seq<Cell>)
      reads this
      requires Valid()
      ensures forall i :: 0 <= i < |cells| ==>
        cells[i].index == Some(i) && !cells[i].inside && inPolygon(cells[i].x, cells[i].z)
    {
      GridInsideCells(grid, bounds, cellSize, inPolygon);
      insideGrid
    }
  }

  /** What the inside cells of a candidate grid are, cell by cell. */
  lemma GridInsideCells(grid: seq<Cell>, bounds: Option<Bounds>, cs: real, inPolygon: (real, real) -> bool)
    requires cs > 0.0 && grid == Candidates(bounds, cs)
    ensures var cells := Indexed(Filter(grid, (c: Cell) => inPolygon(c.x, c.z)));
      forall i :: 0 <= i < |cells| ==>
        cells[i].index == Some(i) && !cells[i].inside && inPolygon(cells[i].x, cells[i].z)
  {
    var kept := Filter(grid, (c: Cell) => inPolygon(c.x, c.z));
    if bounds.Some? {
      ColumnsInBounds(bounds.value, cs, ColumnCount(bounds.value, cs));
    }
    forall i | 0 <= i < |kept| ensures !kept[i].inside && inPolygon(kept[i].x, kept[i].z) {
      assert kept[i] in kept;
    }
  }

  /** Every kept cell is a candidate that passed the test, now carrying its position as index. */
  lemma KeptCellsAreCandidates(grid: seq<Cell>, inPolygon: (real, real) -> bool)
    requires forall k :: 0 <= k < |grid| ==> grid[k].index.None?
    ensures var cells := Indexed(Filter(grid, (c: Cell) => inPolygon(c.x, c.z)));
      forall i :: 0 <= i < |cells| ==>
        cells[i].(index := None) in grid && cells[i].index == Some(i) &&
        inPolygon(cells[i].x, cells[i].z)
  {
    var kept := Filter(grid, (c: Cell) => inPolygon(c.x, c.z));
    forall i | 0 <= i < |kept|
      ensures kept[i] in grid && kept[i].index.None? && inPolygon(kept[i].x, kept[i].z)
    {
      assert kept[i] in kept;
    }
  }

  /** Every candidate that passes the test is kept, at some position that becomes its index. */
  lemma PassingCandidatesAreKept(grid: seq<Cell>, inPolygon: (real, real) -> bool, c: Cell)
    requires c in grid && inPolygon(c.x, c.z)
    ensures var cells := Indexed(Filter(grid, (c: Cell) => inPolygon(c.x, c.z)));
      exists i :: 0 <= i < |cells| && cells[i] == c.(index := Some(i))
  {
    var kept := Filter(grid, (c: Cell) => inPolygon(c.x, c.z));
    assert c in kept;
    var i :| 0 <= i < |kept| && kept[i] == c;
    assert Indexed(kept)[i] == c.(index := Some(i));
  }

  /** Kept cells stay in generation order. */
  lemma KeptCellsInOrder(grid: seq<Cell>, inPolygon: (real, real) -> bool)
    requires forall k, l :: 0 <= k < l < |grid| ==> AnchorBefore(grid[k], grid[l])
    ensures var cells := Indexed(Filter(grid, (c: Cell) => inPolygon(c.x, c.z)));
      forall i, j :: 0 <= i < j < |cells| ==> AnchorBefore(cells[i], cells[j])
  {
    var kept := Filter(grid, (c: Cell) => inPolygon(c.x, c.z));
    var before := (c: Cell, d: Cell) => AnchorBefore(c, d);
    FilterKeepsOrder(grid, (c: Cell) => inPolygon(c.x, c.z), before);
    forall i, j | 0 <= i < j < |kept| ensures AnchorBefore(kept[i], kept[j]) {
      assert before(kept[i], kept[j]);
    }
  }

  /**
   * The inside grid built from a vertex list is the order-preserving selection of the candidates
   * whose anchor passes the test, densely indexed, each cell within the bounds and not flagged.
   */
  lemma InsideGridSelection(points: seq<Vec3>, cs: real, inPolygon: (real, real) -> bool)
    requires cs > 0.0
    ensures var grid := Candidates(CalculateBounds(points), cs);
      var cells := InsideCells(points, cs, inPolygon);
      (forall i :: 0 <= i < |cells| ==>
        cells[i].(index := None) in grid && cells[i].index == Some(i) && !cells[i].inside &&
        inPolygon(cells[i].x, cells[i].z)) &&
      (forall i, j :: 0 <= i < j < |cells| ==> AnchorBefore(cells[i], cells[j]))
  {
    var bounds := CalculateBounds(points);
    var grid := Candidates(bounds, cs);
    if bounds.Some? {
      ColumnsInBounds(bounds.value, cs, ColumnCount(bounds.value, cs));
      ColumnsAscending(bounds.value, cs, ColumnCount(bounds.value, cs));
    }
    KeptCellsAreCandidates(grid, inPolygon);
    KeptCellsInOrder(grid, inPolygon);
  }
}
