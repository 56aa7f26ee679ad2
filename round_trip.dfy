/**
 * Writing a graph's rows as `save_graph_to_csv` does (src/prm_generator.rs)
 * and reading them back with `read_graph` (src/read_graph.rs): what comes
 * back, and a graph whose canonical edges do not survive the trip.
 */
module RoundTrip {
  import opened Structs
  import opened PrmGenerator
  import opened ReadGraph

  /** The record `read_graph` parses from an exported row. */
  function AsRecord(row: Row): Record {
    Record(row.p1, row.p2, row.weight)
  }

  /** The records read back from the rows a valid graph's lists export. */
  function Exported(vs: seq<Point>, adj: seq<seq<Edge>>): (rs: seq<Record>)
    requires |adj| == |vs| && EdgesInRange(adj, |vs|)
    ensures EndpointsInRange(CanonicalEdges(adj), |vs|)
    ensures |rs| == |CanonicalEdges(adj)|
    ensures forall j :: 0 <= j < |rs| ==>
              var e := CanonicalEdges(adj)[j];
              rs[j] == Record(vs[e.from], vs[e.to], e.weight)
  {
    CanonicalInRange(adj, |vs|);
    var rows := RowsOf(vs, CanonicalEdges(adj));
    RowsOfAt(vs, CanonicalEdges(adj));
    seq(|rows|, j requires 0 <= j < |rows| => AsRecord(rows[j]))
  }

  /** The vertices `read_graph` interns hold every point of the records. */
  lemma InternedCovers(rs: seq<Record>)
    ensures Covers(Interned(Endpoints(rs)), rs)
  {
    EndpointsCover(rs);
    InternedSpec(Endpoints(rs));
  }

  /** The lists `read_graph` builds from the records, as its contract states them. */
  ghost function ReadAdj(rs: seq<Record>): seq<seq<Edge>> {
    var vs := Interned(Endpoints(rs));
    InternedCovers(rs);
    seq(|vs|, u requires 0 <= u < |vs| => OutEdges(rs, vs, u))
  }

  /**
   * `save_graph_to_csv` followed by `read_graph` on the rows it wrote: the
   * graph read back is the one the records `Exported` describe.
   */
  method ExportAndRead(g: Graph) returns (h: Graph)
    requires g.Valid()
    ensures fresh(h) && h.Valid()
    ensures h.vertices == Interned(Endpoints(Exported(g.vertices, g.adj)))
    ensures h.adj == ReadAdj(Exported(g.vertices, g.adj))
  {
    var rows := GraphRows(g);
    var records := seq(|rows|, j requires 0 <= j < |rows| => AsRecord(rows[j]));
    RowsOfAt(g.vertices, CanonicalEdges(g.adj));
    assert records == Exported(g.vertices, g.adj);
    h := ReadGraph.ReadGraph(records);
  }

  /**
   * The vertices read back are exactly the points at the ends of the
   * graph's canonical edges: a vertex with no canonical edge is lost.
   */
  lemma ReadBackVertices(vs: seq<Point>, adj: seq<seq<Edge>>, p: Point)
    requires |adj| == |vs| && EdgesInRange(adj, |vs|)
    ensures EndpointsInRange(CanonicalEdges(adj), |vs|)
    ensures p in Interned(Endpoints(Exported(vs, adj))) <==>
              exists i :: 0 <= i < |CanonicalEdges(adj)| &&
                (vs[CanonicalEdges(adj)[i].from] == p || vs[CanonicalEdges(adj)[i].to] == p)
  {
    var rs, es := Exported(vs, adj), CanonicalEdges(adj);
    InternedSpec(Endpoints(rs));
    EndpointsMembers(rs, p);
    if p in Interned(Endpoints(rs)) {
      var j :| 0 <= j < |rs| && (rs[j].p1 == p || rs[j].p2 == p);
      assert 0 <= j < |es| && (vs[es[j].from] == p || vs[es[j].to] == p);
      assert exists i :: 0 <= i < |CanonicalEdges(adj)| &&
                (vs[CanonicalEdges(adj)[i].from] == p || vs[CanonicalEdges(adj)[i].to] == p);
    } else {
      forall i | 0 <= i < |es| ensures vs[es[i].from] != p && vs[es[i].to] != p {
        assert rs[i] == Record(vs[es[i].from], vs[es[i].to], es[i].weight);
      }
    }
  }

  /**
   * Read back, vertex u holds an edge exactly when some canonical edge i
   * runs from u's point: the edge goes to the new index of edge i's other
   * point, with edge i's weight. Nothing else comes back.
   */
  lemma ReadBackEdges(vs: seq<Point>, adj: seq<seq<Edge>>, u: nat, x: Edge)
    requires |adj| == |vs| && EdgesInRange(adj, |vs|)
    requires u < |Interned(Endpoints(Exported(vs, adj)))|
    ensures EndpointsInRange(CanonicalEdges(adj), |vs|)
    ensures x in ReadAdj(Exported(vs, adj))[u] <==>
              exists i :: 0 <= i < |CanonicalEdges(adj)| &&
                vs[CanonicalEdges(adj)[i].from] == Interned(Endpoints(Exported(vs, adj)))[u] &&
                vs[CanonicalEdges(adj)[i].to] in Interned(Endpoints(Exported(vs, adj))) &&
                x == Edge(IndexOf(Interned(Endpoints(Exported(vs, adj))), vs[CanonicalEdges(adj)[i].to]),
                          CanonicalEdges(adj)[i].weight)
  {
    ReadBackEdgesOf(vs, adj, Exported(vs, adj), CanonicalEdges(adj), Interned(Endpoints(Exported(vs, adj))), u, x);
  }

  /** `ReadBackEdges` with the exported records, the canonical edges and the read-back vertices named. */
  lemma ReadBackEdgesOf(vs: seq<Point>, adj: seq<seq<Edge>>, rs: seq<Record>, es: seq<UndirectedEdge>,
                        back: seq<Point>, u: nat, x: Edge)
    requires |adj| == |vs| && EdgesInRange(adj, |vs|)
    requires rs == Exported(vs, adj) && es == CanonicalEdges(adj) && back == Interned(Endpoints(rs))
    requires u < |back|
    ensures EndpointsInRange(es, |vs|)
    ensures x in ReadAdj(rs)[u] <==>
              exists i :: 0 <= i < |es| && vs[es[i].from] == back[u] && vs[es[i].to] in back &&
                x == Edge(IndexOf(back, vs[es[i].to]), es[i].weight)
  {
    InternedCovers(rs);
    OutEdgesMembers(rs, back, u, x);
    assert ReadAdj(rs)[u] == OutEdges(rs, back, u);
    if x in ReadAdj(rs)[u] {
      var j :| 0 <= j < |rs| && rs[j].p1 == back[u] && x == Edge(IndexOf(back, rs[j].p2), rs[j].weight);
      assert rs[j] == Record(vs[es[j].from], vs[es[j].to], es[j].weight);
      assert rs[j].p2 in back;
    }
    if exists i :: 0 <= i < |es| && vs[es[i].from] == back[u] && vs[es[i].to] in back &&
         x == Edge(IndexOf(back, vs[es[i].to]), es[i].weight) {
      var i :| 0 <= i < |es| && vs[es[i].from] == back[u] && vs[es[i].to] in back &&
        x == Edge(IndexOf(back, vs[es[i].to]), es[i].weight);
      assert rs[i] == Record(vs[es[i].from], vs[es[i].to], es[i].weight);
    }
  }

  /** The canonical edges of a two-edge tree stored at the lower ends. */
  lemma TreeCanonical(w: real, w2: real)
    ensures CanonicalEdges([[Edge(2, w)], [Edge(2, w2)], []]) == [UndirectedEdge(0, 2, w), UndirectedEdge(1, 2, w2)]
  {
    var adj := [[Edge(2, w)], [Edge(2, w2)], []];
    assert Forward(0, [Edge(2, w)]) == [UndirectedEdge(0, 2, w)] by {
      assert [Edge(2, w)][..0] == [];
    }
    assert Forward(1, [Edge(2, w2)]) == [UndirectedEdge(1, 2, w2)] by {
      assert [Edge(2, w2)][..0] == [];
    }
    CanonicalSnoc(adj, 0);
    CanonicalSnoc(adj, 1);
    CanonicalSnoc(adj, 2);
    assert adj[..0] == [] && adj[..3] == adj;
  }

  /** The canonical edges of the lists read back: the edge stored at its higher end is dropped. */
  lemma ReadBackCanonical(w: real, w2: real)
    ensures CanonicalEdges([[Edge(1, w)], [], [Edge(1, w2)]]) == [UndirectedEdge(0, 1, w)]
  {
    var adj := [[Edge(1, w)], [], [Edge(1, w2)]];
    assert Forward(0, [Edge(1, w)]) == [UndirectedEdge(0, 1, w)] by {
      assert [Edge(1, w)][..0] == [];
    }
    assert Forward(2, [Edge(1, w2)]) == [] by {
      assert [Edge(1, w2)][..0] == [];
    }
    CanonicalSnoc(adj, 0);
    CanonicalSnoc(adj, 1);
    CanonicalSnoc(adj, 2);
    assert adj[..0] == [] && adj[..3] == adj;
  }

  /** The points of the two exported rows, interned in order of first appearance. */
  lemma TreeInterned(a: Point, b: Point, c: Point, w: real, w2: real)
    requires a != b && b != c && a != c
    ensures Interned(Endpoints([Record(a, c, w), Record(b, c, w2)])) == [a, c, b]
  {
    var r1, r2 := Record(a, c, w), Record(b, c, w2);
    var rs := [r1, r2];
    assert rs[..1] == [r1] && [r1][..0] == [];
    assert Endpoints([r1]) == [a, c];
    assert Endpoints(rs) == [a, c, b, c];
    var ps := [a, c, b, c];
    assert ps[..3][..2] == ps[..2] && ps[..2][..1] == ps[..1] && ps[..1][..0] == [];
    assert Interned(ps[..1]) == [a];
    assert Interned(ps[..2]) == [a, c];
    assert Interned(ps[..3]) == [a, c, b];
  }

  /** The lists read back from the two exported rows. */
  lemma TreeReadAdj(a: Point, b: Point, c: Point, w: real, w2: real)
    requires a != b && b != c && a != c
    ensures ReadAdj([Record(a, c, w), Record(b, c, w2)]) == [[Edge(1, w)], [], [Edge(1, w2)]]
  {
    var r1, r2 := Record(a, c, w), Record(b, c, w2);
    var rs := [r1, r2];
    TreeInterned(a, b, c, w, w2);
    var back := [a, c, b];
    InternedCovers(rs);
    assert rs[..1] == [r1] && [r1][..0] == [];
    assert IndexOf(back, c) == 1;
    var adj' := [[Edge(1, w)], [], [Edge(1, w2)]];
    forall u | 0 <= u < 3 ensures OutEdges(rs, back, u) == adj'[u] {
      assert OutEdges([r1], back, u) == if u == 0 then [Edge(1, w)] else [];
    }
    var got := ReadAdj(rs);
    assert |got| == 3 && got[0] == adj'[0] && got[1] == adj'[1] && got[2] == adj'[2];
  }

  /**
   * The round trip loses an edge. Vertices a, b, c carry the edges 0 → 2 and
   * 1 → 2, as `kruskal` stores a tree at the lower end of each edge. Read
   * back, the points are renumbered in order of first appearance, a, c, b,
   * and the edge between b and c is stored one way, from b's new index 2 to
   * c's new index 1. It is no longer a canonical edge, and exporting again
   * writes only one row.
   */
  lemma RoundTripLoses(a: Point, b: Point, c: Point, w: real, w2: real)
    requires a != b && b != c && a != c
    ensures
      var adj := [[Edge(2, w)], [Edge(2, w2)], []];
      var rs := Exported([a, b, c], adj);
      && CanonicalEdges(adj) == [UndirectedEdge(0, 2, w), UndirectedEdge(1, 2, w2)]
      && Interned(Endpoints(rs)) == [a, c, b]
      && ReadAdj(rs) == [[Edge(1, w)], [], [Edge(1, w2)]]
      && CanonicalEdges(ReadAdj(rs)) == [UndirectedEdge(0, 1, w)]
  {
    var adj := [[Edge(2, w)], [Edge(2, w2)], []];
    TreeCanonical(w, w2);
    var rs := Exported([a, b, c], adj);
    assert rs == [Record(a, c, w), Record(b, c, w2)];
    TreeInterned(a, b, c, w, w2);
    TreeReadAdj(a, b, c, w, w2);
    ReadBackCanonical(w, w2);
  }
}
