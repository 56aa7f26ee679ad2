/**
 * Rebuilding a graph from already-parsed edge records (src/read_graph.rs):
 * every point gets a vertex index on its first appearance, and every record
 * adds one directed edge.
 */
module ReadGraph {
  import opened Structs

  /** One parsed row: source point, destination point, weight. */
  datatype Record = Record(p1: Point, p2: Point, weight: real)

  /** The points of the records in reading order: p1 before p2 within a record. */
  function Endpoints(rs: seq<Record>): seq<Point> {
    if rs == [] then [] else Endpoints(rs[..|rs| - 1]) + [rs[|rs| - 1].p1, rs[|rs| - 1].p2]
  }

  /** The distinct points of ps in order of first occurrence. */
  function Interned(ps: seq<Point>): seq<Point> {
    if ps == [] then []
    else
      var front := Interned(ps[..|ps| - 1]);
      if ps[|ps| - 1] in front then front else front + [ps[|ps| - 1]]
  }

  /** The first position of p in vs. */
  function IndexOf(vs: seq<Point>, p: Point): (i: nat)
    requires p in vs
    ensures i < |vs| && vs[i] == p && p !in vs[..i]
  {
    if vs[0] == p then 0 else 1 + IndexOf(vs[1..], p)
  }

  /** No point occurs twice. */
  ghost predicate Distinct(vs: seq<Point>) {
    forall i, j :: 0 <= i < j < |vs| ==> vs[i] != vs[j]
  }

  /**
   * Interning keeps each point once, loses none and adds none, and lists
   * the points in the order of their first occurrence.
   */
  lemma {:induction false} InternedSpec(ps: seq<Point>)
    ensures Distinct(Interned(ps))
    ensures forall p :: p in Interned(ps) <==> p in ps
    ensures forall i, j :: 0 <= i < j < |Interned(ps)| ==>
              IndexOf(ps, Interned(ps)[i]) < IndexOf(ps, Interned(ps)[j])
  {
    if ps != [] {
      var front, last := ps[..|ps| - 1], ps[|ps| - 1];
      InternedSpec(front);
      assert ps == front + [last];
      var vs := Interned(ps);
      forall p | p in front
        ensures IndexOf(ps, p) == IndexOf(front, p)
      {
        FirstIndexInPrefix(front, [last], p);
      }
      if last !in Interned(front) {
        assert last !in front;
        assert IndexOf(ps, last) == |front| by {
          assert ps[|front|] == last && last !in ps[..|front|];
          IndexOfUnique(ps, last, |front|);
        }
      }
    }
  }

  /** Extending a sequence does not move the first occurrence of a point it already held. */
  lemma FirstIndexInPrefix(vs: seq<Point>, ws: seq<Point>, p: Point)
    requires p in vs
    ensures IndexOf(vs + ws, p) == IndexOf(vs, p)
  {
    var i := IndexOf(vs, p);
    assert (vs + ws)[..i] == vs[..i];
    IndexOfUnique(vs + ws, p, i);
  }

  /** The first occurrence is the position holding p with no p before it. */
  lemma IndexOfUnique(vs: seq<Point>, p: Point, i: nat)
    requires i < |vs| && vs[i] == p && p !in vs[..i]
    ensures IndexOf(vs, p) == i
  {
  }

  /** In a sequence without repeats the first occurrence is the only one. */
  lemma IndexOfDistinct(vs: seq<Point>, i: nat)
    requires Distinct(vs) && i < |vs|
    ensures IndexOf(vs, vs[i]) == i
  {
    IndexOfUnique(vs, vs[i], i);
  }

  /** Every endpoint of every record occurs in vs. */
  ghost predicate Covers(vs: seq<Point>, rs: seq<Record>) {
    forall j :: 0 <= j < |rs| ==> rs[j].p1 in vs && rs[j].p2 in vs
  }

  /** Both points of every record are among its endpoints. */
  lemma {:induction false} EndpointsCover(rs: seq<Record>)
    ensures Covers(Endpoints(rs), rs)
  {
    if rs != [] {
      var front := rs[..|rs| - 1];
      EndpointsCover(front);
      forall j | 0 <= j < |front| ensures front[j] == rs[j] { }
    }
  }

  /**
   * The edges of vertex u in record order: one edge per record whose first
   * point is `vs[u]`, to the index of its second point, with its weight.
   */
  ghost function OutEdges(rs: seq<Record>, vs: seq<Point>, u: nat): seq<Edge>
    requires u < |vs| && Covers(vs, rs)
  {
    if rs == [] then []
    else
      var r := rs[|rs| - 1];
      OutEdges(rs[..|rs| - 1], vs, u) + (if r.p1 == vs[u] then [Edge(IndexOf(vs, r.p2), r.weight)] else [])
  }

  /** Appending points to the vertex list leaves the edges of the old vertices as they were. */
  lemma {:induction false} OutEdgesExtend(rs: seq<Record>, vs: seq<Point>, ws: seq<Point>, u: nat)
    requires u < |vs| && Covers(vs, rs)
    ensures Covers(vs + ws, rs)
    ensures OutEdges(rs, vs + ws, u) == OutEdges(rs, vs, u)
  {
    if rs != [] {
      OutEdgesExtend(rs[..|rs| - 1], vs, ws, u);
      FirstIndexInPrefix(vs, ws, rs[|rs| - 1].p2);
    }
  }

  /** A longer vertex list still holds every endpoint. */
  lemma CoversExtend(rs: seq<Record>, vs: seq<Point>, ws: seq<Point>)
    requires Covers(vs, rs)
    ensures Covers(vs + ws, rs)
  {
    forall j | 0 <= j < |rs| ensures rs[j].p1 in vs + ws && rs[j].p2 in vs + ws {
      var a, b := IndexOf(vs, rs[j].p1), IndexOf(vs, rs[j].p2);
      assert (vs + ws)[a] == rs[j].p1 && (vs + ws)[b] == rs[j].p2;
    }
  }

  /** A vertex whose point is no first point of any record has no edges. */
  lemma {:induction false} OutEdgesAbsent(rs: seq<Record>, vs: seq<Point>, u: nat)
    requires u < |vs| && Covers(vs, rs)
    requires forall j :: 0 <= j < |rs| ==> rs[j].p1 != vs[u]
    ensures OutEdges(rs, vs, u) == []
  {
    if rs != [] {
      OutEdgesAbsent(rs[..|rs| - 1], vs, u);
    }
  }

  /**
   * One more record, read against the vertex list vs that extends vs0 by the
   * record's new points: the source vertex's list gains the record's edge and
   * every other list is unchanged (new vertices start without edges).
   */
  lemma RecordStep(done: seq<Record>, r: Record, vs0: seq<Point>, ws: seq<Point>, w: nat)
    requires Covers(vs0, done) && Distinct(vs0 + ws)
    requires r.p1 in vs0 + ws && r.p2 in vs0 + ws && w < |vs0 + ws|
    ensures Covers(vs0 + ws, done + [r])
    ensures OutEdges(done + [r], vs0 + ws, w) ==
              (if w < |vs0| then OutEdges(done, vs0, w) else [])
              + (if IndexOf(vs0 + ws, r.p1) == w then [Edge(IndexOf(vs0 + ws, r.p2), r.weight)] else [])
  {
    var vs := vs0 + ws;
    var rs := done + [r];
    assert rs[..|done|] == done && rs[|done|] == r;
    CoversExtend(done, vs0, ws);
    assert Covers(vs, rs) by {
      forall j | 0 <= j < |rs| ensures rs[j].p1 in vs && rs[j].p2 in vs {
        if j < |done| {
          assert rs[j] == done[j];
        }
      }
    }
    var tail := if r.p1 == vs[w] then [Edge(IndexOf(vs, r.p2), r.weight)] else [];
    assert OutEdges(rs, vs, w) == OutEdges(done, vs, w) + tail;
    if w < |vs0| {
      OutEdgesExtend(done, vs0, ws, w);
    } else {
      forall j | 0 <= j < |done| ensures done[j].p1 != vs[w] {
        var i := IndexOf(vs0, done[j].p1);
        assert vs[i] == done[j].p1;
      }
      OutEdgesAbsent(done, vs, w);
    }
    IndexOfDistinct(vs, w);
  }

  /** A point is an endpoint exactly when some record starts or ends at it. */
  lemma {:induction false} EndpointsMembers(rs: seq<Record>, p: Point)
    ensures p in Endpoints(rs) <==> exists j :: 0 <= j < |rs| && (rs[j].p1 == p || rs[j].p2 == p)
  {
    if rs != [] {
      var front := rs[..|rs| - 1];
      EndpointsMembers(front, p);
      if exists j :: 0 <= j < |front| && (front[j].p1 == p || front[j].p2 == p) {
        var j :| 0 <= j < |front| && (front[j].p1 == p || front[j].p2 == p);
        assert rs[j] == front[j];
      }
      if exists j :: 0 <= j < |rs| && (rs[j].p1 == p || rs[j].p2 == p) {
        var j :| 0 <= j < |rs| && (rs[j].p1 == p || rs[j].p2 == p);
        if j < |front| {
          assert front[j] == rs[j];
        }
      }
    }
  }

  /**
   * Vertex u's list holds an edge exactly when some record starts at u's
   * point, and then the edge goes to the index of that record's second
   * point with that record's weight.
   */
  lemma {:induction false} OutEdgesMembers(rs: seq<Record>, vs: seq<Point>, u: nat, x: Edge)
    requires u < |vs| && Covers(vs, rs)
    ensures x in OutEdges(rs, vs, u) <==>
              exists j :: 0 <= j < |rs| && rs[j].p1 == vs[u] && x == Edge(IndexOf(vs, rs[j].p2), rs[j].weight)
  {
    if rs != [] {
      var front, r := rs[..|rs| - 1], rs[|rs| - 1];
      assert Covers(vs, front) by {
        forall j | 0 <= j < |front| ensures front[j].p1 in vs && front[j].p2 in vs {
          assert front[j] == rs[j];
        }
      }
      OutEdgesMembers(front, vs, u, x);
      if exists j :: 0 <= j < |front| && front[j].p1 == vs[u] && x == Edge(IndexOf(vs, front[j].p2), front[j].weight) {
        var j :| 0 <= j < |front| && front[j].p1 == vs[u] && x == Edge(IndexOf(vs, front[j].p2), front[j].weight);
        assert rs[j] == front[j];
      }
      if exists j :: 0 <= j < |rs| && rs[j].p1 == vs[u] && x == Edge(IndexOf(vs, rs[j].p2), rs[j].weight) {
        var j :| 0 <= j < |rs| && rs[j].p1 == vs[u] && x == Edge(IndexOf(vs, rs[j].p2), rs[j].weight);
        if j < |front| {
          assert front[j] == rs[j];
        }
      }
    }
  }

  /** The map sends exactly the points of vs to their positions in vs. */
  ghost predicate IndexesPoints(m: map<Point, nat>, vs: seq<Point>) {
    && (forall p :: p in m <==> p in vs)
    && (forall p :: p in m ==> m[p] < |vs| && vs[m[p]] == p)
  }

  /** One interning step: a point already seen keeps the list, a new one is appended. */
  function InternStep(vs: seq<Point>, p: Point): seq<Point> {
    if p in vs then vs else vs + [p]
  }

  /**
   * `point_to_idx.entry(p).or_insert_with(|| graph.add_vertex(p))`: the
   * stored index of a known point, or a new vertex for a new point.
   */
  method Intern(g: Graph, pointToIdx: map<Point, nat>, p: Point) returns (idx: nat, pointToIdx': map<Point, nat>)
    requires g.Valid() && IndexesPoints(pointToIdx, g.vertices)
    modifies g
    ensures g.Valid() && IndexesPoints(pointToIdx', g.vertices)
    ensures g.vertices == InternStep(old(g.vertices), p)
    ensures g.adj == old(g.adj) + (if p in old(g.vertices) then [] else [[]])
    ensures idx < |g.vertices| && g.vertices[idx] == p
  {
    if p in pointToIdx {
      idx, pointToIdx' := pointToIdx[p], pointToIdx;
    } else {
      idx := g.AddVertex(p);
      pointToIdx' := pointToIdx[p := idx];
    }
  }

  /** What the graph holds after the records rs: their points interned, and their edges. */
  ghost predicate Holds(g: Graph, pointToIdx: map<Point, nat>, rs: seq<Record>)
    reads g
  {
    && g.Valid() && g.vertices == Interned(Endpoints(rs))
    && Distinct(g.vertices) && Covers(g.vertices, rs)
    && IndexesPoints(pointToIdx, g.vertices)
    && forall u :: 0 <= u < |g.vertices| ==> g.adj[u] == OutEdges(rs, g.vertices, u)
  }

  /**
   * One record of the loop of `read_graph`: intern its first point, then its
   * second, then add the directed edge between them with the record's weight.
   */
  method AddRecord(g: Graph, pointToIdx: map<Point, nat>, ghost done: seq<Record>, r: Record)
    returns (pointToIdx': map<Point, nat>)
    requires Holds(g, pointToIdx, done)
    modifies g
    ensures Holds(g, pointToIdx', done + [r])
  {
    ghost var vs0, adj0 := g.vertices, g.adj;
    var u, v;
    u, pointToIdx' := Intern(g, pointToIdx, r.p1);
    v, pointToIdx' := Intern(g, pointToIdx', r.p2);
    ghost var adj1 := g.adj;
    g.AddEdge(u, v, r.weight);
    AdjStep(done, r, vs0, g.vertices, u, v, adj0, adj1, g.adj);
    InternRecord(done, r);
  }

  /**
   * `read_graph` over parsed records: the vertices are the distinct points
   * in order of first occurrence, and vertex u's list holds, in record
   * order, one edge per record starting at its point. No reverse edge is
   * added.
   */
  method ReadGraph(records: seq<Record>) returns (g: Graph)
    ensures fresh(g) && g.Valid()
    ensures g.vertices == Interned(Endpoints(records))
    ensures Covers(g.vertices, records)
    ensures forall u :: 0 <= u < |g.vertices| ==> g.adj[u] == OutEdges(records, g.vertices, u)
  {
    g := new Graph();
    var pointToIdx: map<Point, nat> := map[];
    var k := 0;
    while k < |records|
      invariant 0 <= k <= |records|
      invariant Holds(g, pointToIdx, records[..k])
    {
      assert records[..k + 1] == records[..k] + [records[k]];
      pointToIdx := AddRecord(g, pointToIdx, records[..k], records[k]);
      k := k + 1;
    }
    assert records[..k] == records;
  }

  /** Interning points into a list without repeats keeps it without repeats. */
  lemma InternStepDistinct(vs: seq<Point>, p: Point)
    requires Distinct(vs)
    ensures Distinct(InternStep(vs, p)) && vs <= InternStep(vs, p)
    ensures forall q :: q in InternStep(vs, p) <==> q in vs || q == p
  {
  }

  /**
   * The adjacency after one record: the lists of the old vertices, empty
   * lists for the new ones, and the record's edge appended to its source.
   */
  lemma AdjStep(done: seq<Record>, r: Record, vs0: seq<Point>, vs: seq<Point>, u: nat, v: nat,
                adj0: seq<seq<Edge>>, adj1: seq<seq<Edge>>, adj: seq<seq<Edge>>)
    requires Covers(vs0, done) && Distinct(vs0)
    requires vs == InternStep(InternStep(vs0, r.p1), r.p2)
    requires u < |vs| && vs[u] == r.p1 && v < |vs| && vs[v] == r.p2
    requires |adj0| == |vs0| && forall i :: 0 <= i < |vs0| ==> adj0[i] == OutEdges(done, vs0, i)
    requires adj1 == adj0 + (if r.p1 in vs0 then [] else [[]])
                     + (if r.p2 in InternStep(vs0, r.p1) then [] else [[]])
    requires adj == adj1[u := adj1[u] + [Edge(v, r.weight)]]
    ensures Distinct(vs) && Covers(vs, done + [r])
    ensures forall w :: 0 <= w < |vs| ==> adj[w] == OutEdges(done + [r], vs, w)
  {
    InternStepDistinct(vs0, r.p1);
    InternStepDistinct(InternStep(vs0, r.p1), r.p2);
    var ws := vs[|vs0|..];
    assert vs == vs0 + ws;
    PaddedAdj(done, vs0, adj0, adj1, r.p1 in vs0, r.p2 in InternStep(vs0, r.p1));
    assert |adj1| == |vs|;
    forall w | 0 <= w < |vs|
      ensures adj[w] == OutEdges(done + [r], vs, w)
    {
      AdjAt(done, r, vs0, ws, u, v, adj1, adj, w);
    }
    RecordStep(done, r, vs0, ws, u);
  }

  /** The list of one vertex w after the record's edge is added. */
  lemma AdjAt(done: seq<Record>, r: Record, vs0: seq<Point>, ws: seq<Point>, u: nat, v: nat,
              adj1: seq<seq<Edge>>, adj: seq<seq<Edge>>, w: nat)
    requires Covers(vs0, done) && Distinct(vs0 + ws)
    requires u < |vs0 + ws| && (vs0 + ws)[u] == r.p1 && v < |vs0 + ws| && (vs0 + ws)[v] == r.p2
    requires |adj1| == |vs0 + ws| && w < |adj1|
    requires adj1[w] == if w < |vs0| then OutEdges(done, vs0, w) else []
    requires adj == adj1[u := adj1[u] + [Edge(v, r.weight)]]
    ensures Covers(vs0 + ws, done + [r])
    ensures adj[w] == OutEdges(done + [r], vs0 + ws, w)
  {
    RecordStep(done, r, vs0, ws, w);
    IndexOfDistinct(vs0 + ws, u);
    IndexOfDistinct(vs0 + ws, v);
  }

  /** The lists of the old vertices, followed by empty lists for the new ones. */
  lemma PaddedAdj(done: seq<Record>, vs0: seq<Point>, adj0: seq<seq<Edge>>, adj1: seq<seq<Edge>>, old1: bool, old2: bool)
    requires Covers(vs0, done) && |adj0| == |vs0|
    requires forall i :: 0 <= i < |vs0| ==> adj0[i] == OutEdges(done, vs0, i)
    requires adj1 == adj0 + (if old1 then [] else [[]]) + (if old2 then [] else [[]])
    ensures |adj1| >= |vs0|
    ensures forall w :: 0 <= w < |adj1| ==> adj1[w] == if w < |vs0| then OutEdges(done, vs0, w) else []
  {
    forall w | 0 <= w < |adj1| ensures adj1[w] == if w < |vs0| then OutEdges(done, vs0, w) else [] {
      if w < |vs0| {
        assert adj1[w] == adj0[w];
      }
    }
  }

  /** Interning one more record's points, p1 first, then p2. */
  lemma InternRecord(done: seq<Record>, r: Record)
    ensures Interned(Endpoints(done + [r])) == InternStep(InternStep(Interned(Endpoints(done)), r.p1), r.p2)
  {
    var ends := Endpoints(done);
    assert (done + [r])[..|done|] == done;
    assert Endpoints(done + [r]) == ends + [r.p1] + [r.p2];
    assert (ends + [r.p1])[..|ends|] == ends;
    assert (ends + [r.p1] + [r.p2])[..|ends| + 1] == ends + [r.p1];
  }
}
