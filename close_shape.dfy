/** Closing a sketched boundary: the first vertex is pushed again at the end of the vertex list. */
module CloseShape {
  import opened Types

  /** A React ref holding the mutable vertex list of the sketch (`points.current`). */
  class PointsRef {
    var current: seq<Vec3>

    constructor (points: seq<Vec3>)
      ensures current == points
    {
      current := points;
    }
  }

  /** The vertex list after closing: with more than two vertices, the first is repeated at the end. */
  function Closed(points: seq<Vec3>): seq<Vec3>
  {
    if |points| > 2 then points + [points[0]] else points
  }

  /**
   * Pushes a copy of the first vertex when the list holds more than two vertices, and leaves it
   * alone otherwise. Existing vertices keep their positions: the list only grows at its end.
   */
  method CloseShape(points: PointsRef)
    modifies points
    ensures points.current == Closed(old(points.current))
    ensures |old(points.current)| > 2 ==>
      |points.current| == |old(points.current)| + 1 &&
      points.current[..|old(points.current)|] == old(points.current) &&
      points.current[|points.current| - 1] == points.current[0]
    ensures |old(points.current)| <= 2 ==> points.current == old(points.current)
  {
    if |points.current| > 2 {
      points.current := points.current + [points.current[0]];
    }
  }

  /**
   * There is no check for a ring that is already closed: closing twice appends two copies of
   * the first vertex.
   */
  lemma CloseTwice(points: seq<Vec3>)
    requires |points| > 2
    ensures Closed(Closed(points)) == points + [points[0], points[0]]
  {
    assert Closed(points)[0] == points[0];
  }
}
