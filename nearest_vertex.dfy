/**
 * The nearest-vertex lookup (src/vertice_mais_proximo.rs): validate a query
 * coordinate against the map, then scan the vertices for the closest one.
 */
module NearestVertex {
  import opened Wrappers
  import opened Structs
  import opened ReadMap

  /** Why a query coordinate was refused. */
  datatype LocateError = OutOfBounds | Obstructed

  /** The query lies outside the pixel bounds; the upper bounds are exclusive. */
  predicate OutsideBounds(b: Bounds, x: real, y: real) {
    x < b.xMin as real || y < b.yMin as real || x >= b.xMax as real || y >= b.yMax as real
  }

  /**
   * `vertice_mais_prox`: bounds first, then obstruction, then the index of
   * the closest vertex by `dist(vertex, query)`; strict `<` keeps the first
   * of several equally close vertices, and an empty graph yields index 0.
   * The initial "infinite" best distance is modelled as "no candidate yet".
   */
  method NearestVertex(g: Graph, m: OccupancyMap, dist: (Point, Point) -> real, x: real, y: real)
    returns (r: Result<nat, LocateError>)
    requires ValidImage(m.image)
    ensures r == Err(OutOfBounds) <==> OutsideBounds(m.pixelBounds, x, y)
    ensures r == Err(Obstructed) <==> !OutsideBounds(m.pixelBounds, x, y) && IsObstructed(m, Point(x, y))
    ensures r.Ok? && |g.vertices| == 0 ==> r.value == 0
    ensures r.Ok? && |g.vertices| > 0 ==>
              && r.value < |g.vertices|
              && (forall j :: 0 <= j < |g.vertices| ==>
                    dist(g.vertices[r.value], Point(x, y)) <= dist(g.vertices[j], Point(x, y)))
              && (forall j :: 0 <= j < r.value ==>
                    dist(g.vertices[r.value], Point(x, y)) < dist(g.vertices[j], Point(x, y)))
  {
    var q := Point(x, y);
    if OutsideBounds(m.pixelBounds, x, y) {
      return Err(OutOfBounds);
    }
    if IsObstructed(m, q) {
      return Err(Obstructed);
    }
    var best: Option<real> := None;
    var nearest: nat := 0;
    var i := 0;
    while i < |g.vertices|
      invariant 0 <= i <= |g.vertices|
      invariant best.None? <==> i == 0
      invariant i == 0 ==> nearest == 0
      invariant i > 0 ==> nearest < i && best == Some(dist(g.vertices[nearest], q))
      invariant forall j :: 0 <= j < i ==> dist(g.vertices[nearest], q) <= dist(g.vertices[j], q)
      invariant forall j :: 0 <= j < nearest ==> dist(g.vertices[nearest], q) < dist(g.vertices[j], q)
    {
      var d := dist(g.vertices[i], q);
      if best.None? || d < best.value {
        best := Some(d);
        nearest := i;
      }
      i := i + 1;
    }
    return Ok(nearest);
  }
}
