/**
 * The "start cleaning" action of the drawing window: a grid manager over the sketched vertices
 * with cell size 1, a planner started at the first inside cell, and the path it walks.
 */
module Pipeline {
  import opened Types
  import Grid
  import Planner

  method StartCleaning(points: seq<Vec3>, inPolygon: (real, real) -> bool)
    returns (r: Planner.Result<seq<Cell>>)
    ensures r.Err? <==> |Grid.InsideCells(points, 1.0, inPolygon)| == 0
    ensures r.Err? ==> r.error == Planner.EmptyInsideGrid
    ensures r.Ok? ==>
      Planner.VisitsEachOnce(r.value, Grid.InsideCells(points, 1.0, inPolygon)) &&
      Planner.GreedyWalk(Grid.InsideCells(points, 1.0, inPolygon), 1.0, r.value) &&
      r.value[0] == Grid.InsideCells(points, 1.0, inPolygon)[0]
  {
    var gridManager := new Grid.GridManager(points, 1.0, inPolygon);
    var created := Planner.NewBotSimulator(gridManager, None);
    if created.Err? {
      return Planner.Err(created.error);
    }
    var path := created.value.Simulate();
    r := Planner.Ok(path);
  }
}
