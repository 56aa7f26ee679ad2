/**
 * The probabilistic roadmap (src/prm_generator.rs): sampling valid points,
 * connecting every close, collision-free pair i < j, and selecting the rows
 * that the roadmap export writes.
 */
module PrmGenerator {
  import opened Wrappers
  import opened Structs
  import opened ReadMap

  /** The largest value of a Rust `i32`. */
  const I32Max: int := 0x7FFF_FFFF

  /** The least integer at or above r. */
  function Ceil(r: real): (c: int)
    ensures r <= c as real < r + 1.0
  {
    -((-r).Floor)
  }

  /**
   * `collision_check_steps`: `ceil(radius / 2)`, at least 1, through the
   * saturating cast to `i32`.
   */
  function CollisionSteps(radius: real): (steps: nat)
    ensures 1 <= steps <= I32Max
    ensures steps < I32Max ==> radius / 2.0 <= steps as real
    ensures steps > 1 ==> (steps - 1) as real < radius / 2.0
  {
    var c := Ceil(radius / 2.0);
    var atLeastOne := if c < 1 then 1 else c;
    if atLeastOne > I32Max then I32Max else atLeastOne
  }

  /**
   * `sample_valid_point`: the first unobstructed point among the random
   * draws. The source draws until it finds one; here the draws are a finite
   * supply, and running out of them yields `None`.
   */
  method SampleValidPoint(m: OccupancyMap, draws: seq<Point>) returns (r: Option<Point>)
    requires ValidImage(m.image)
    ensures r.Some? ==> !IsObstructed(m, r.value)
    ensures r.Some? ==> exists k :: 0 <= k < |draws| && draws[k] == r.value &&
                          forall j :: 0 <= j < k ==> IsObstructed(m, draws[j])
    ensures r.None? <==> forall j :: 0 <= j < |draws| ==> IsObstructed(m, draws[j])
  {
    var k := 0;
    while k < |draws|
      invariant 0 <= k <= |draws|
      invariant forall j :: 0 <= j < k ==> IsObstructed(m, draws[j])
    {
      if !IsObstructed(m, draws[k]) {
        return Some(draws[k]);
      }
      k := k + 1;
    }
    return None;
  }

  /** The pair (i, j) is connected: close enough and collision-free. */
  ghost predicate Connects(m: OccupancyMap, vs: seq<Point>, radius: real, dist: (Point, Point) -> real,
                           i: nat, j: nat)
    requires ValidImage(m.image) && i < |vs| && j < |vs|
  {
    dist(vs[i], vs[j]) <= radius && !PathColliding(m, vs[i], vs[j], CollisionSteps(radius))
  }

  /** The edges the connection phase gives vertex i towards the vertices i < j < hi, in j order. */
  ghost function Links(m: OccupancyMap, vs: seq<Point>, radius: real, dist: (Point, Point) -> real,
                       i: nat, hi: nat): seq<Edge>
    requires ValidImage(m.image) && i < |vs| && hi <= |vs|
    decreases hi
  {
    if hi <= i + 1 then []
    else
      Links(m, vs, radius, dist, i, hi - 1)
      + (if Connects(m, vs, radius, dist, i, hi - 1) then [Edge(hi - 1, dist(vs[i], vs[hi - 1]))] else [])
  }

  /** Every edge of vertex i goes to a later, connected vertex below hi, weighted by its distance. */
  lemma {:induction false} LinksSound(m: OccupancyMap, vs: seq<Point>, radius: real, dist: (Point, Point) -> real,
                                      i: nat, hi: nat)
    requires ValidImage(m.image) && i < |vs| && hi <= |vs|
    ensures forall e :: e in Links(m, vs, radius, dist, i, hi) ==>
              && i < e.toIdx < hi
              && e.weight == dist(vs[i], vs[e.toIdx]) && e.weight <= radius
              && !PathColliding(m, vs[i], vs[e.toIdx], CollisionSteps(radius))
    decreases hi
  {
    if hi > i + 1 {
      LinksSound(m, vs, radius, dist, i, hi - 1);
    }
  }

  /** Every connected j with i < j < hi has an edge from vertex i. */
  lemma {:induction false} LinksComplete(m: OccupancyMap, vs: seq<Point>, radius: real, dist: (Point, Point) -> real,
                                         i: nat, hi: nat, j: nat)
    requires ValidImage(m.image) && i < j < hi <= |vs|
    requires Connects(m, vs, radius, dist, i, j)
    ensures Edge(j, dist(vs[i], vs[j])) in Links(m, vs, radius, dist, i, hi)
    decreases hi
  {
    if j < hi - 1 {
      LinksComplete(m, vs, radius, dist, i, hi - 1, j);
    }
  }

  /** Destinations strictly increase along the edges of vertex i. */
  lemma {:induction false} LinksIncreasing(m: OccupancyMap, vs: seq<Point>, radius: real, dist: (Point, Point) -> real,
                                           i: nat, hi: nat)
    requires ValidImage(m.image) && i < |vs| && hi <= |vs|
    ensures forall k, l :: 0 <= k < l < |Links(m, vs, radius, dist, i, hi)| ==>
              Links(m, vs, radius, dist, i, hi)[k].toIdx < Links(m, vs, radius, dist, i, hi)[l].toIdx
    decreases hi
  {
    if hi > i + 1 {
      LinksIncreasing(m, vs, radius, dist, i, hi - 1);
      LinksSound(m, vs, radius, dist, i, hi - 1);
      var prev := Links(m, vs, radius, dist, i, hi - 1);
      var all := Links(m, vs, radius, dist, i, hi);
      forall k, l | 0 <= k < l < |all| ensures all[k].toIdx < all[l].toIdx {
        assert all[k] == prev[k] && all[k] in prev;
        if l < |prev| {
          assert all[l] == prev[l];
        }
      }
    }
  }

  /**
   * `generate_random_graph` from already sampled points: one vertex per
   * sample, in order, then for every i < j (in i-major, j-minor order) a
   * directed edge i -> j of weight `dist` when the pair connects. No edge
   * j -> i is added.
   */
  method GenerateRandomGraph(m: OccupancyMap, samples: seq<Point>, radius: real, dist: (Point, Point) -> real)
    returns (g: Graph)
    requires ValidImage(m.image)
    ensures fresh(g) && g.Valid()
    ensures g.vertices == samples
    ensures forall i :: 0 <= i < |samples| ==> g.adj[i] == Links(m, samples, radius, dist, i, |samples|)
  {
    g := WithVertices(samples);

    var steps := CollisionSteps(radius);
    var vertices := g.vertices;
    var n := |vertices|;
    var i := 0;
    while i < n
      invariant 0 <= i <= n
      invariant g.Valid() && g.vertices == samples
      invariant forall u :: 0 <= u < i ==> g.adj[u] == Links(m, samples, radius, dist, u, n)
      invariant forall u :: i <= u < n ==> g.adj[u] == []
    {
      var j := i + 1;
      assert g.adj[i] == Links(m, samples, radius, dist, i, j);
      while j < n
        invariant i + 1 <= j <= n
        invariant g.Valid() && g.vertices == samples
        invariant forall u :: 0 <= u < i ==> g.adj[u] == Links(m, samples, radius, dist, u, n)
        invariant g.adj[i] == Links(m, samples, radius, dist, i, j)
        invariant forall u :: i < u < n ==> g.adj[u] == []
      {
        var p1, p2 := vertices[i], vertices[j];
        var d := dist(p1, p2);
        if d <= radius {
          var colliding := IsPathColliding(m, p1, p2, steps);
          if !colliding {
            g.AddEdge(i, j, d);
          }
        }
        j := j + 1;
      }
      i := i + 1;
    }
  }

  /** One row of the roadmap export: source point, destination point, weight. */
  datatype Row = Row(p1: Point, p2: Point, weight: real)

  /** The export rows for a list of canonical edges. */
  function RowsOf(vs: seq<Point>, es: seq<UndirectedEdge>): (rows: seq<Row>)
    requires EndpointsInRange(es, |vs|)
  {
    if es == [] then [] else RowsOf(vs, es[..|es| - 1]) + [Row(vs[es[|es| - 1].from], vs[es[|es| - 1].to], es[|es| - 1].weight)]
  }

  /** Row i holds the points of edge i's two ends and its weight. */
  lemma {:induction false} RowsOfAt(vs: seq<Point>, es: seq<UndirectedEdge>)
    requires EndpointsInRange(es, |vs|)
    ensures |RowsOf(vs, es)| == |es|
    ensures forall i :: 0 <= i < |es| ==> RowsOf(vs, es)[i] == Row(vs[es[i].from], vs[es[i].to], es[i].weight)
  {
    if es != [] {
      RowsOfAt(vs, es[..|es| - 1]);
    }
  }

  /** One more canonical edge adds one more row at the end. */
  lemma RowsOfSnoc(vs: seq<Point>, es: seq<UndirectedEdge>, e: UndirectedEdge)
    requires EndpointsInRange(es, |vs|) && e.from < |vs| && e.to < |vs|
    ensures EndpointsInRange(es + [e], |vs|)
    ensures RowsOf(vs, es + [e]) == RowsOf(vs, es) + [Row(vs[e.from], vs[e.to], e.weight)]
  {
    assert (es + [e])[..|es|] == es;
  }

  /** The kept entries of a list prefix grow by at most the next entry. */
  lemma ForwardSnoc(u: nat, es: seq<Edge>, k: nat)
    requires k < |es|
    ensures Forward(u, es[..k + 1]) ==
              Forward(u, es[..k]) + (if u < es[k].toIdx then [UndirectedEdge(u, es[k].toIdx, es[k].weight)] else [])
  {
    assert es[..k + 1][..k] == es[..k];
  }

  /** The canonical list of a longer prefix of the adjacency lists. */
  lemma CanonicalSnoc(adj: seq<seq<Edge>>, u: nat)
    requires u < |adj|
    ensures CanonicalEdges(adj[..u + 1]) == CanonicalEdges(adj[..u]) + Forward(u, adj[u])
  {
    assert adj[..u + 1][..u] == adj[..u];
  }

  /** One adjacency entry of the export loop: a row exactly when u < to_idx. */
  lemma RowStep(vs: seq<Point>, done: seq<UndirectedEdge>, u: nat, edges: seq<Edge>, k: nat)
    requires k < |edges| && u < |vs| && edges[k].toIdx < |vs|
    requires EndpointsInRange(done + Forward(u, edges[..k]), |vs|)
    ensures EndpointsInRange(done + Forward(u, edges[..k + 1]), |vs|)
    ensures RowsOf(vs, done + Forward(u, edges[..k + 1])) ==
              RowsOf(vs, done + Forward(u, edges[..k]))
              + (if u < edges[k].toIdx then [Row(vs[u], vs[edges[k].toIdx], edges[k].weight)] else [])
  {
    ForwardSnoc(u, edges, k);
    var before := done + Forward(u, edges[..k]);
    if u < edges[k].toIdx {
      var e := UndirectedEdge(u, edges[k].toIdx, edges[k].weight);
      assert done + Forward(u, edges[..k + 1]) == before + [e];
      RowsOfSnoc(vs, before, e);
    } else {
      assert done + Forward(u, edges[..k + 1]) == before;
    }
  }

  /**
   * The row selection of `save_graph_to_csv`: for each source u in index
   * order and each of its edges in list order, a row when u < to_idx. The
   * rows are those of the canonical edge list.
   */
  method GraphRows(g: Graph) returns (rows: seq<Row>)
    requires g.Valid()
    ensures EndpointsInRange(CanonicalEdges(g.adj), |g.vertices|)
    ensures rows == RowsOf(g.vertices, CanonicalEdges(g.adj))
  {
    CanonicalInRange(g.adj, |g.vertices|);
    rows := [];
    var n := |g.vertices|;
    var u := 0;
    while u < n
      invariant 0 <= u <= n
      invariant EndpointsInRange(CanonicalEdges(g.adj[..u]), n)
      invariant rows == RowsOf(g.vertices, CanonicalEdges(g.adj[..u]))
    {
      var neighbors := g.GetNeighbors(u);
      match neighbors {
        case Some(edges) =>
          ghost var done := CanonicalEdges(g.adj[..u]);
          var k := 0;
          assert done + Forward(u, edges[..0]) == done by {
            assert edges[..0] == [];
          }
          while k < |edges|
            invariant 0 <= k <= |edges|
            invariant EndpointsInRange(done + Forward(u, edges[..k]), n)
            invariant rows == RowsOf(g.vertices, done + Forward(u, edges[..k]))
          {
            var v := edges[k].toIdx;
            RowStep(g.vertices, done, u, edges, k);
            if u < v {
              rows := rows + [Row(g.vertices[u], g.vertices[v], edges[k].weight)];
            }
            k := k + 1;
          }
          assert edges[..k] == edges;
          CanonicalSnoc(g.adj, u);
        case None =>
      }
      u := u + 1;
    }
    assert g.adj[..n] == g.adj;
  }
}
