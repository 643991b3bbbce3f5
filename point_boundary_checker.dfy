/**
 * Even-odd ray casting in the x/y plane: a horizontal ray from the point towards +x crosses the
 * polygon's edges, and the point is inside when the number of crossings is odd.
 */
module PointBoundaryChecker {
  import opened Types
  import CloseShape

  /** One endpoint of the edge lies strictly above `point.y` and the other does not. */
  predicate Straddles(p1: Vec3, p2: Vec3, point: Vec3)
  {
    (p1.y > point.y) != (p2.y > point.y)
  }

  /** The x at which the line through p1 and p2 reaches height `point.y`. */
  function CrossingX(p1: Vec3, p2: Vec3, point: Vec3): real
    requires p1.y != p2.y
  {
    (p2.x - p1.x) * (point.y - p1.y) / (p2.y - p1.y) + p1.x
  }

  /** The edge from p1 to p2 is crossed by the ray: it straddles the ray and lies to the right. */
  predicate Crosses(p1: Vec3, p2: Vec3, point: Vec3)
  {
    Straddles(p1, p2, point) && point.x < CrossingX(p1, p2, point)
  }

  /** Number of edges (polygon[i], polygon[(i + 1) % |polygon|]) with i < k that the ray crosses. */
  function Crossings(point: Vec3, polygon: seq<Vec3>, k: nat): nat
    requires k <= |polygon|
  {
    if k == 0 then 0
    else
      var counted := if Crosses(polygon[k - 1], polygon[k % |polygon|], point) then 1 else 0;
      Crossings(point, polygon, k - 1) + counted
  }

  /** The even-odd rule over all edges of the polygon, the last one wrapping to the first vertex. */
  predicate Inside(point: Vec3, polygon: seq<Vec3>)
  {
    Crossings(point, polygon, |polygon|) % 2 == 1
  }

  /** The counting loop: one pass over the edges, incrementing a counter per crossing. */
  method IsPointInsidePolygon(point: Vec3, polygon: seq<Vec3>) returns (inside: bool)
    ensures inside <==> Inside(point, polygon)
  {
    var intersections := 0;
    for i := 0 to |polygon|
      invariant intersections == Crossings(point, polygon, i)
    {
      var p1 := polygon[i];
      var p2 := polygon[(i + 1) % |polygon|];
      if Straddles(p1, p2, point) {
        var intersectionX := CrossingX(p1, p2, point);
        if point.x < intersectionX {
          intersections := intersections + 1;
        }
      }
    }
    inside := intersections % 2 == 1;
  }

  /**
   * The division is safe: a straddling edge is never horizontal. The crossing point lies on the
   * segment from p1 to p2: on its line, and between its endpoints' x.
   */
  lemma StraddleCrossesSegment(p1: Vec3, p2: Vec3, point: Vec3)
    requires Straddles(p1, p2, point)
    ensures p1.y != p2.y
    ensures (CrossingX(p1, p2, point) - p1.x) * (p2.y - p1.y) == (p2.x - p1.x) * (point.y - p1.y)
    ensures p1.x <= p2.x ==> p1.x <= CrossingX(p1, p2, point) <= p2.x
    ensures p2.x <= p1.x ==> p2.x <= CrossingX(p1, p2, point) <= p1.x
  {
    var a, d := point.y - p1.y, p2.y - p1.y;
    var t := a / d;
    if d > 0.0 {
      assert 0.0 <= a < d;
    } else {
      assert d <= a < 0.0;
    }
    assert 0.0 <= t <= 1.0;
    var dx := p2.x - p1.x;
    assert dx * a / d == dx * t;
    assert CrossingX(p1, p2, point) == dx * t + p1.x;
    ScaleWithinUnit(dx, t);
  }

  /** Scaling a difference by a factor in [0, 1] keeps it between zero and itself. */
  lemma ScaleWithinUnit(dx: real, t: real)
    requires 0.0 <= t <= 1.0
    ensures dx >= 0.0 ==> 0.0 <= dx * t <= dx
    ensures dx < 0.0 ==> dx <= dx * t <= 0.0
  {
    var u := 1.0 - t;
    assert dx * t + dx * u == dx;
    if dx >= 0.0 {
      ProductSign(dx, t);
      ProductSign(dx, u);
    } else {
      ProductSign(-dx, t);
      ProductSign(-dx, u);
    }
  }

  lemma ProductSign(a: real, b: real)
    requires a >= 0.0 && b >= 0.0
    ensures a * b >= 0.0 && (-a) * b == -(a * b)
  {
  }

  /** Horizontal edges, zero-length edges among them, are never counted. */
  lemma HorizontalEdgeNeverCrosses(p1: Vec3, p2: Vec3, point: Vec3)
    requires p1.y == p2.y
    ensures !Crosses(p1, p2, point)
  {
  }

  /** The counter never exceeds the number of edges looked at. */
  lemma {:induction false} CrossingsAtMostEdges(point: Vec3, polygon: seq<Vec3>, k: nat)
    requires k <= |polygon|
    ensures Crossings(point, polygon, k) <= k
  {
    if k > 0 {
      CrossingsAtMostEdges(point, polygon, k - 1);
    }
  }

  /** An empty polygon has no edges, so no point is inside it. */
  lemma EmptyPolygonHasNoInside(point: Vec3)
    ensures !Inside(point, [])
  {
  }

  /** A point at or above every vertex, or below every vertex, meets no edge and is outside. */
  lemma {:induction false} OutsideVerticalRange(point: Vec3, polygon: seq<Vec3>, k: nat)
    requires k <= |polygon|
    requires (forall i :: 0 <= i < |polygon| ==> polygon[i].y <= point.y) ||
             (forall i :: 0 <= i < |polygon| ==> polygon[i].y > point.y)
    ensures Crossings(point, polygon, k) == 0
    ensures k == |polygon| ==> !Inside(point, polygon)
  {
    if k > 0 {
      OutsideVerticalRange(point, polygon, k - 1);
      assert !Straddles(polygon[k - 1], polygon[k % |polygon|], point);
    }
  }

  /** Edges before the last vertex are the same in a polygon and in its closed ring. */
  lemma {:induction false} ClosedRingSharesEdges(point: Vec3, polygon: seq<Vec3>, k: nat)
    requires 0 < k < |polygon|
    ensures Crossings(point, polygon + [polygon[0]], k) == Crossings(point, polygon, k)
  {
    var ring := polygon + [polygon[0]];
    SmallModulus(k, |polygon|);
    SmallModulus(k, |ring|);
    assert ring[k - 1] == polygon[k - 1];
    assert ring[k] == polygon[k];
    if k > 1 {
      ClosedRingSharesEdges(point, polygon, k - 1);
    }
  }

  lemma SmallModulus(a: nat, m: nat)
    requires a < m
    ensures a % m == a
  {
  }

  /**
   * Closing the ring does not change the answer: the wrap-around edge of the open polygon becomes
   * an ordinary edge, and the new wrap-around edge has length zero.
   */
  lemma ClosingKeepsInside(point: Vec3, polygon: seq<Vec3>)
    ensures Inside(point, CloseShape.Closed(polygon)) <==> Inside(point, polygon)
  {
    if |polygon| > 2 {
      var n := |polygon|;
      var ring := polygon + [polygon[0]];
      assert CloseShape.Closed(polygon) == ring;
      ClosedRingSharesEdges(point, polygon, n - 1);
      SmallModulus(n, n + 1);
      assert n % n == 0 && (n + 1) % (n + 1) == 0;
      assert ring[n - 1] == polygon[n - 1] && ring[n] == polygon[0];
      assert Crossings(point, ring, n) == Crossings(point, polygon, n);
      HorizontalEdgeNeverCrosses(ring[n], ring[0], point);
      assert Crossings(point, ring, n + 1) == Crossings(point, ring, n);
    }
  }

  /**
   * Sketched vertices lie in the y = 0 plane, so every edge is horizontal in this x/y test and a
   * query point on that plane is never inside.
   */
  lemma FlatSketchNeverInside(point: Vec3, polygon: seq<Vec3>)
    requires point.y == 0.0
    requires forall i :: 0 <= i < |polygon| ==> polygon[i].y == 0.0
    ensures !Inside(point, polygon)
  {
    OutsideVerticalRange(point, polygon, |polygon|);
  }
}
