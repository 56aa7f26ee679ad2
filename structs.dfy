/**
 * Points, directed weighted edges and the adjacency-list graph of the roadmap
 * (src/structs.rs), and the canonical undirected edge list that the minimum
 * spanning tree and the roadmap export read off a graph.
 */
module Structs {
  import opened Wrappers

  /** A position in the plane; equality is exact equality of both coordinates. */
  datatype Point = Point(x: real, y: real)

  /** A directed edge as stored in the adjacency list of its source vertex. */
  datatype Edge = Edge(toIdx: nat, weight: real)

  /** An edge together with its source index, as the minimum spanning tree processes it. */
  datatype UndirectedEdge = UndirectedEdge(from: nat, to: nat, weight: real)

  /** Every adjacency entry points at an existing vertex. */
  ghost predicate EdgesInRange(adj: seq<seq<Edge>>, n: nat) {
    forall u, k :: 0 <= u < |adj| && 0 <= k < |adj[u]| ==> adj[u][k].toIdx < n
  }

  /**
   * The graph: a vertex sequence and a parallel sequence of outgoing-edge
   * lists. Both grow in place; indices are never reused.
   */
  class Graph {
    var vertices: seq<Point>
    var adj: seq<seq<Edge>>

    /** One adjacency list per vertex, and every edge ends at a vertex. */
    ghost predicate Valid()
      reads this
    {
      |adj| == |vertices| && EdgesInRange(adj, |vertices|)
    }

    /** `Graph::new`: no vertices and no adjacency lists. */
    constructor ()
      ensures Valid()
      ensures vertices == [] && adj == []
    {
      vertices := [];
      adj := [];
    }

    /**
     * `add_vertex`: the new vertex gets the next free index, comes with an
     * empty adjacency list, and every earlier entry stays as it was.
     */
    method AddVertex(p: Point) returns (idx: nat)
      requires Valid()
      modifies this
      ensures Valid()
      ensures idx == |old(vertices)|
      ensures vertices == old(vertices) + [p]
      ensures adj == old(adj) + [[]]
    {
      idx := |vertices|;
      vertices := vertices + [p];
      adj := adj + [[]];
    }

    /**
     * `add_edge`: a DIRECTED edge. With both indices in range the edge is
     * appended to the end of the source's list and no other list changes
     * (in particular no reverse edge is added); otherwise nothing changes.
     */
    method AddEdge(fromIdx: nat, toIdx: nat, weight: real)
      requires Valid()
      modifies this
      ensures Valid()
      ensures vertices == old(vertices)
      ensures fromIdx < |vertices| && toIdx < |vertices| ==>
                adj == old(adj)[fromIdx := old(adj)[fromIdx] + [Edge(toIdx, weight)]]
      ensures !(fromIdx < |vertices| && toIdx < |vertices|) ==> adj == old(adj)
    {
      if fromIdx < |vertices| && toIdx < |vertices| {
        adj := adj[fromIdx := adj[fromIdx] + [Edge(toIdx, weight)]];
      }
    }

    /** `get_vertex`: `None` exactly when the index is past the end. */
    function GetVertex(idx: nat): (r: Option<Point>)
      reads this
      ensures r.None? <==> idx >= |vertices|
      ensures r.Some? ==> r.value == vertices[idx]
    {
      if idx < |vertices| then Some(vertices[idx]) else None
    }

    /** `get_neighbors`: `None` exactly when the index is past the end. */
    function GetNeighbors(idx: nat): (r: Option<seq<Edge>>)
      reads this
      ensures r.None? <==> idx >= |adj|
      ensures r.Some? ==> r.value == adj[idx]
    {
      if idx < |adj| then Some(adj[idx]) else None
    }
  }

  /**
   * A new graph given the points one `add_vertex` at a time: vertex i is
   * ps[i] and no vertex has an edge yet.
   */
  method WithVertices(ps: seq<Point>) returns (g: Graph)
    ensures fresh(g) && g.Valid()
    ensures g.vertices == ps
    ensures forall u :: 0 <= u < |ps| ==> g.adj[u] == []
  {
    g := new Graph();
    for i := 0 to |ps|
      modifies g
      invariant g.Valid() && g.vertices == ps[..i]
      invariant forall u :: 0 <= u < i ==> g.adj[u] == []
    {
      var _ := g.AddVertex(ps[i]);
    }
    assert ps[..|ps|] == ps;
  }

  /** The entries of one adjacency list that point to a higher index, in list order. */
  function Forward(u: nat, es: seq<Edge>): seq<UndirectedEdge>
  {
    if es == [] then []
    else
      Forward(u, es[..|es| - 1])
      + (if u < es[|es| - 1].toIdx then [UndirectedEdge(u, es[|es| - 1].toIdx, es[|es| - 1].weight)] else [])
  }

  /**
   * The canonical undirected edge list of a graph (the `get_undirected_edges`
   * that the spanning tree calls): for each vertex in index order, each of its
   * adjacency entries with a higher destination, in list order. It is the same
   * filter the roadmap export applies.
   */
  function CanonicalEdges(adj: seq<seq<Edge>>): seq<UndirectedEdge>
  {
    if adj == [] then []
    else CanonicalEdges(adj[..|adj| - 1]) + Forward(|adj| - 1, adj[|adj| - 1])
  }

  /** An entry of one list is kept exactly when it points forward. */
  lemma {:induction false} ForwardMembers(u: nat, es: seq<Edge>, e: UndirectedEdge)
    ensures e in Forward(u, es) <==>
              e.from == u && u < e.to && Edge(e.to, e.weight) in es
  {
    if es != [] {
      ForwardMembers(u, es[..|es| - 1], e);
      assert es == es[..|es| - 1] + [es[|es| - 1]];
    }
  }

  /** Every kept entry has the list's owner as its source. */
  lemma {:induction false} ForwardFrom(u: nat, es: seq<Edge>)
    ensures forall i :: 0 <= i < |Forward(u, es)| ==> Forward(u, es)[i].from == u
  {
    if es != [] {
      ForwardFrom(u, es[..|es| - 1]);
    }
  }

  /**
   * An undirected edge is in the canonical list exactly when some vertex u
   * has an adjacency entry to a higher index with that weight.
   */
  lemma {:induction false} CanonicalMembers(adj: seq<seq<Edge>>, e: UndirectedEdge)
    ensures e in CanonicalEdges(adj) <==>
              e.from < |adj| && e.from < e.to && Edge(e.to, e.weight) in adj[e.from]
  {
    if adj != [] {
      var last := |adj| - 1;
      CanonicalMembers(adj[..last], e);
      ForwardMembers(last, adj[last], e);
    }
  }

  /** Sources appear in non-decreasing order, each below |adj| and below its destination. */
  lemma {:induction false} CanonicalOrdered(adj: seq<seq<Edge>>)
    ensures forall i :: 0 <= i < |CanonicalEdges(adj)| ==>
              CanonicalEdges(adj)[i].from < |adj| && CanonicalEdges(adj)[i].from < CanonicalEdges(adj)[i].to
    ensures forall i, j :: 0 <= i < j < |CanonicalEdges(adj)| ==>
              CanonicalEdges(adj)[i].from <= CanonicalEdges(adj)[j].from
  {
    if adj != [] {
      var last := |adj| - 1;
      CanonicalOrdered(adj[..last]);
      ForwardFrom(last, adj[last]);
      var front, back := CanonicalEdges(adj[..last]), Forward(last, adj[last]);
      assert CanonicalEdges(adj) == front + back;
      forall i | 0 <= i < |back|
        ensures back[i].from < back[i].to
      {
        ForwardMembers(last, adj[last], back[i]);
      }
    }
  }

  /** Both ends of every listed edge are below n. */
  ghost predicate EndpointsInRange(es: seq<UndirectedEdge>, n: nat) {
    forall i :: 0 <= i < |es| ==> es[i].from < n && es[i].to < n
  }

  /** With every edge in range, every canonical edge joins two existing vertices. */
  lemma CanonicalInRange(adj: seq<seq<Edge>>, n: nat)
    requires EdgesInRange(adj, n) && |adj| <= n
    ensures EndpointsInRange(CanonicalEdges(adj), n)
  {
    CanonicalOrdered(adj);
    forall i | 0 <= i < |CanonicalEdges(adj)|
      ensures CanonicalEdges(adj)[i].to < n
    {
      var e := CanonicalEdges(adj)[i];
      CanonicalMembers(adj, e);
      var k :| 0 <= k < |adj[e.from]| && adj[e.from][k] == Edge(e.to, e.weight);
    }
  }
}
