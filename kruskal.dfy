/**
 * Minimum spanning tree by Kruskal's method (src/kruskal.rs): a
 * disjoint-set union whose `find` compresses paths and whose `union`
 * links the second root under the first, and the greedy pass over the
 * edges sorted by weight.
 */
module Kruskal {
  import opened Wrappers
  import opened Structs
  import opened Connectivity
  import opened EdgeSort

  // Disjoint-set forests -------------------------------------------------

  /** The largest entry of s (0 for the empty sequence). */
  function MaxOf(s: seq<nat>): (m: nat)
    ensures forall i :: 0 <= i < |s| ==> s[i] <= m
  {
    if s == [] then 0
    else
      var front := MaxOf(s[..|s| - 1]);
      assert forall i :: 0 <= i < |s| - 1 ==> s[..|s| - 1][i] == s[i];
      if s[|s| - 1] > front then s[|s| - 1] else front
  }

  /**
   * The parent links form a forest: every link stays inside the structure,
   * and a ghost rank grows strictly from a child to its parent, so that
   * following parents always reaches a root.
   */
  ghost predicate Forest(parent: seq<nat>, rank: seq<nat>) {
    && |rank| == |parent|
    && (forall i :: 0 <= i < |parent| ==> parent[i] < |parent|)
    && (forall i :: 0 <= i < |parent| && parent[i] != i ==> rank[i] < rank[parent[i]])
  }

  /** The root reached from x by following parent links. */
  ghost function RootOf(parent: seq<nat>, rank: seq<nat>, x: nat): (r: nat)
    requires Forest(parent, rank) && x < |parent|
    ensures r < |parent| && parent[r] == r
    ensures parent[x] != x ==> rank[x] < rank[r]
    decreases MaxOf(rank) - rank[x]
  {
    if parent[x] == x then x else RootOf(parent, rank, parent[x])
  }

  /** The root of every element: the partition the forest stands for. */
  ghost function RootLabels(parent: seq<nat>, rank: seq<nat>): seq<nat>
    requires Forest(parent, rank)
  {
    seq(|parent|, i requires 0 <= i < |parent| => RootOf(parent, rank, i))
  }

  /** Pointing x straight at its root changes no element's root. */
  lemma {:induction false} CompressRoot(parent: seq<nat>, rank: seq<nat>, x: nat, y: nat)
    requires Forest(parent, rank) && x < |parent| && y < |parent|
    requires Forest(parent[x := RootOf(parent, rank, x)], rank)
    ensures RootOf(parent[x := RootOf(parent, rank, x)], rank, y) == RootOf(parent, rank, y)
    decreases MaxOf(rank) - rank[y]
  {
    var root := RootOf(parent, rank, x);
    var p' := parent[x := root];
    if y == x {
      if parent[x] != x {
        assert p'[root] == root;
      }
    } else if parent[y] != y {
      CompressRoot(parent, rank, x, parent[y]);
    }
  }

  /** Path compression of one element keeps the forest and the partition. */
  lemma CompressPreserves(parent: seq<nat>, rank: seq<nat>, x: nat)
    requires Forest(parent, rank) && x < |parent|
    ensures Forest(parent[x := RootOf(parent, rank, x)], rank)
    ensures RootLabels(parent[x := RootOf(parent, rank, x)], rank) == RootLabels(parent, rank)
  {
    var p' := parent[x := RootOf(parent, rank, x)];
    assert Forest(p', rank);
    forall y | 0 <= y < |parent|
      ensures RootLabels(p', rank)[y] == RootLabels(parent, rank)[y]
    {
      CompressRoot(parent, rank, x, y);
    }
  }

  /** The forest after linking root rb under root ra, with ra's rank raised above rb's. */
  ghost function LinkedRank(rank: seq<nat>, ra: nat, rb: nat): seq<nat>
    requires ra < |rank| && rb < |rank|
  {
    rank[ra := if rank[ra] > rank[rb] then rank[ra] else rank[rb] + 1]
  }

  lemma {:induction false} LinkRoot(parent: seq<nat>, rank: seq<nat>, ra: nat, rb: nat, y: nat)
    requires Forest(parent, rank) && ra < |parent| && rb < |parent| && y < |parent|
    requires parent[ra] == ra && parent[rb] == rb && ra != rb
    requires Forest(parent[rb := ra], LinkedRank(rank, ra, rb))
    ensures RootOf(parent[rb := ra], LinkedRank(rank, ra, rb), y) ==
              if RootOf(parent, rank, y) == rb then ra else RootOf(parent, rank, y)
    decreases MaxOf(rank) - rank[y]
  {
    var p', k' := parent[rb := ra], LinkedRank(rank, ra, rb);
    if parent[y] != y {
      LinkRoot(parent, rank, ra, rb, parent[y]);
    } else if y == rb {
      assert RootOf(p', k', ra) == ra;
    }
  }

  /**
   * Linking the root of one tree under the root of another keeps a forest
   * and merges exactly those two classes: every element whose root was rb
   * now has root ra, and no other element's root changes.
   */
  lemma LinkRelabels(parent: seq<nat>, rank: seq<nat>, ra: nat, rb: nat)
    requires Forest(parent, rank) && ra < |parent| && rb < |parent|
    requires parent[ra] == ra && parent[rb] == rb && ra != rb
    ensures Forest(parent[rb := ra], LinkedRank(rank, ra, rb))
    ensures RootLabels(parent[rb := ra], LinkedRank(rank, ra, rb)) == Relabel(RootLabels(parent, rank), rb, ra)
  {
    var p', k' := parent[rb := ra], LinkedRank(rank, ra, rb);
    assert Forest(p', k') by {
      forall i | 0 <= i < |p'| && p'[i] != i ensures k'[i] < k'[p'[i]] {
        if i != rb {
          assert p'[i] == parent[i] && i != ra;
        }
      }
    }
    forall y | 0 <= y < |parent|
      ensures RootLabels(p', k')[y] == Relabel(RootLabels(parent, rank), rb, ra)[y]
    {
      LinkRoot(parent, rank, ra, rb, y);
    }
  }

  /** `DSU`: the parent vector, with a ghost rank that witnesses it is a forest. */
  class DSU {
    var parent: seq<nat>
    ghost var rank: seq<nat>

    ghost predicate Valid()
      reads this
    {
      Forest(parent, rank)
    }

    /** The root of every element. */
    ghost function Labels(): seq<nat>
      reads this
      requires Valid()
    {
      RootLabels(parent, rank)
    }

    /** `DSU::new(size)`: every element is its own parent, so every set is a singleton. */
    constructor (size: nat)
      ensures Valid()
      ensures parent == Identity(size)
      ensures Labels() == Identity(size)
    {
      parent := Identity(size);
      rank := seq(size, _ => 0);
      new;
      assert forall i :: 0 <= i < size ==> RootOf(parent, rank, i) == i;
    }

    /**
     * `find(x)`: returns x's root and leaves x pointing straight at it,
     * compressing the path on the way back; no element changes set.
     */
    method Find(x: nat) returns (r: nat)
      requires Valid() && x < |parent|
      modifies this
      ensures Valid() && rank == old(rank) && |parent| == |old(parent)|
      ensures Labels() == old(Labels())
      ensures r == old(Labels())[x]
      ensures parent[x] == r && parent[r] == r
      decreases MaxOf(rank) - rank[x]
    {
      if parent[x] != x {
        ghost var before := Labels();
        assert before[x] == before[parent[x]];
        var root := Find(parent[x]);
        assert root == before[x] == Labels()[x] == RootOf(parent, rank, x);
        CompressPreserves(parent, rank, x);
        parent := parent[x := root];
      }
      r := parent[x];
    }

    /**
     * `union(a, b)`: false when a and b already share a root, leaving every
     * set as it was; otherwise b's root is linked under a's root and b's
     * whole set joins a's, every other set untouched.
     */
    method Union(a: nat, b: nat) returns (merged: bool)
      requires Valid() && a < |parent| && b < |parent|
      modifies this
      ensures Valid() && |parent| == |old(parent)|
      ensures merged <==> old(Labels())[a] != old(Labels())[b]
      ensures Labels() == if merged then Relabel(old(Labels()), old(Labels())[b], old(Labels())[a])
                          else old(Labels())
      ensures merged ==> parent[old(Labels())[b]] == old(Labels())[a]
    {
      var rootA := Find(a);
      var rootB := Find(b);
      if rootA == rootB {
        merged := false;
      } else {
        assert parent[rootA] == rootA by {
          assert RootOf(parent, rank, rootA) == rootA;
        }
        LinkRelabels(parent, rank, rootA, rootB);
        parent := parent[rootB := rootA];
        rank := LinkedRank(rank, rootA, rootB);
        merged := true;
      }
    }
  }

  // The greedy pass --------------------------------------------------------

  /**
   * The reference choice rule: take each edge in turn unless its ends are
   * already connected by the edges taken so far.
   */
  ghost function Greedy(s: seq<UndirectedEdge>): seq<UndirectedEdge> {
    if s == [] then []
    else
      var t, e := Greedy(s[..|s| - 1]), s[|s| - 1];
      if Connected(t, e.from, e.to) then t else t + [e]
  }

  /** The tree's outgoing lists: each taken edge is stored at its `from` end only. */
  function OutOf(t: seq<UndirectedEdge>, u: nat): seq<Edge> {
    if t == [] then []
    else
      var e := t[|t| - 1];
      OutOf(t[..|t| - 1], u) + (if e.from == u then [Edge(e.to, e.weight)] else [])
  }

  /** Failure of `kruskal`: the graph has this many components. */
  datatype KruskalError = Disconnected(components: nat)

  /** The greedy choice keeps only edges of its input, in their order of weight. */
  lemma {:induction false} GreedyEdges(s: seq<UndirectedEdge>)
    ensures forall e :: e in Greedy(s) ==> e in s
    ensures ByWeight(s) ==> ByWeight(Greedy(s))
  {
    if s != [] {
      var front := s[..|s| - 1];
      GreedyEdges(front);
      if ByWeight(s) {
        assert ByWeight(front);
        var t := Greedy(front);
        forall f | f in t ensures f.weight <= s[|s| - 1].weight {
          var k :| 0 <= k < |front| && front[k] == f;
          assert s[k] == f;
        }
      }
    }
  }

  /** Every edge the greedy choice takes joins two parts not yet connected: it makes no cycle. */
  lemma {:induction false} GreedyAcyclic(s: seq<UndirectedEdge>)
    ensures Acyclic(Greedy(s))
  {
    if s != [] {
      var t := Greedy(s[..|s| - 1]);
      GreedyAcyclic(s[..|s| - 1]);
      var t' := Greedy(s);
      forall i | 0 <= i < |t'| ensures !Connected(t'[..i], t'[i].from, t'[i].to) {
        if i < |t| {
          assert t'[..i] == t[..i] && t'[i] == t[i];
        } else {
          assert t'[..i] == t;
        }
      }
    }
  }

  /** The greedy choice connects exactly what its input connects: it spans every component. */
  lemma {:induction false} GreedySpans(s: seq<UndirectedEdge>, u: nat, v: nat)
    ensures Connected(Greedy(s), u, v) <==> Connected(s, u, v)
  {
    GreedyEdges(s);
    if Connected(Greedy(s), u, v) {
      ConnectedMono(Greedy(s), s, u, v);
    }
    if s != [] && Connected(s, u, v) {
      var front, e := s[..|s| - 1], s[|s| - 1];
      var t := Greedy(front);
      var t' := Greedy(s);
      forall f | f in t ensures f in t' { }
      forall f | f in s ensures Connected(t', f.from, f.to) {
        if f == e {
          if Connected(t, e.from, e.to) {
            ConnectedMono(t, t', e.from, e.to);
          } else {
            EdgeConnects(t', e);
          }
        } else {
          assert f in front;
          EdgeConnects(front, f);
          GreedySpans(front, f.from, f.to);
          ConnectedMono(t, t', f.from, f.to);
        }
      }
      ConnectedByEdges(s, t', u, v);
    }
  }

  /** Two edge lists with the same members connect the same vertices. */
  lemma SameMembersConnect(s1: seq<UndirectedEdge>, s2: seq<UndirectedEdge>, u: nat, v: nat)
    requires forall e :: e in s1 <==> e in s2
    ensures Connected(s1, u, v) <==> Connected(s2, u, v)
  {
    if Connected(s1, u, v) {
      ConnectedMono(s1, s2, u, v);
    }
    if Connected(s2, u, v) {
      ConnectedMono(s2, s1, u, v);
    }
  }

  /** One more edge of the pass: kept exactly when its ends are not yet connected. */
  lemma GreedyPrefix(s: seq<UndirectedEdge>, k: nat)
    requires k < |s|
    ensures Greedy(s[..k + 1]) ==
              if Connected(Greedy(s[..k]), s[k].from, s[k].to) then Greedy(s[..k]) else Greedy(s[..k]) + [s[k]]
  {
    assert s[..k + 1][..k] == s[..k];
  }

  /** Appending a taken edge to its source's list keeps the lists equal to the tree's. */
  lemma OutOfSnoc(adj: seq<seq<Edge>>, t: seq<UndirectedEdge>, e: UndirectedEdge)
    requires e.from < |adj|
    requires forall u :: 0 <= u < |adj| ==> adj[u] == OutOf(t, u)
    ensures forall u :: 0 <= u < |adj| ==>
              adj[e.from := adj[e.from] + [Edge(e.to, e.weight)]][u] == OutOf(t + [e], u)
  {
    assert (t + [e])[..|t|] == t;
  }

  // Minimum total weight ---------------------------------------------------

  /**
   * f is a spanning forest of the edge list s: it uses only edges of s, has
   * no cycle, and connects the two ends of every edge of s.
   */
  ghost predicate SpanningForest(f: seq<UndirectedEdge>, s: seq<UndirectedEdge>) {
    && (forall e :: e in f ==> e in s)
    && Acyclic(f)
    && (forall e :: e in s ==> Connected(f, e.from, e.to))
  }

  /** The greedy choice is a spanning forest of its input. */
  lemma GreedySpanningForest(s: seq<UndirectedEdge>)
    ensures SpanningForest(Greedy(s), s)
  {
    GreedyEdges(s);
    GreedyAcyclic(s);
    forall e | e in s ensures Connected(Greedy(s), e.from, e.to) {
      EdgeConnects(s, e);
      GreedySpans(s, e.from, e.to);
    }
  }

  /** Dropping the heavy edges of an acyclic list leaves it acyclic. */
  lemma {:induction false} LightAcyclic(t: seq<UndirectedEdge>, w: real)
    requires Acyclic(t)
    ensures Acyclic(Light(t, w))
    decreases |t|
  {
    if t != [] {
      var front, e := t[..|t| - 1], t[|t| - 1];
      assert t == front + [e];
      AcyclicSnoc(front, e);
      LightAcyclic(front, w);
      LightAppend(front, [e], w);
      assert Light([e], w) == if e.weight <= w then [e] else [];
      if e.weight <= w {
        var lf := Light(front, w);
        if Connected(lf, e.from, e.to) {
          forall f | f in lf ensures f in front {
            LightMembers(front, w, f);
          }
          ConnectedMono(lf, front, e.from, e.to);
        }
        AcyclicSnoc(lf, e);
      } else {
        assert Light(t, w) == Light(front, w);
      }
    }
  }

  /** A list whose edges all weigh at most w is all light. */
  lemma {:induction false} LightAll(t: seq<UndirectedEdge>, w: real)
    requires forall e :: e in t ==> e.weight <= w
    ensures Light(t, w) == t
  {
    if t != [] {
      LightAll(t[1..], w);
      assert t == [t[0]] + t[1..];
    }
  }

  /**
   * On a weight-ordered input, the tree's edges of weight at most w are the
   * greedy choice over the input's edges of weight at most w.
   */
  lemma {:induction false} GreedyLight(s: seq<UndirectedEdge>, w: real)
    requires ByWeight(s)
    ensures Light(Greedy(s), w) == Greedy(Light(s, w))
    decreases |s|
  {
    if s == [] {
    } else {
      var front, e := s[..|s| - 1], s[|s| - 1];
      assert s == front + [e];
      LightAppend(front, [e], w);
      assert Light([e], w) == if e.weight <= w then [e] else [];
      if e.weight <= w {
        forall f | f in s ensures f.weight <= w {
          var i :| 0 <= i < |s| && s[i] == f;
        }
        LightAll(s, w);
        GreedyEdges(s);
        LightAll(Greedy(s), w);
      } else {
        var g := Greedy(front);
        assert ByWeight(front);
        GreedyLight(front, w);
        assert Light(s, w) == Light(front, w);
        LightAppend(g, [e], w);
        assert Light(Greedy(s), w) == Light(g, w);
      }
    }
  }

  /**
   * At every weight w, no spanning forest has more edges of weight at most
   * w than the greedy choice over weight-ordered edges.
   */
  lemma LightRank(s: seq<UndirectedEdge>, f: seq<UndirectedEdge>, n: nat, w: real)
    requires ByWeight(s) && EdgesBelow(s, n) && SpanningForest(f, s)
    ensures |Light(f, w)| <= |Light(Greedy(s), w)|
  {
    var light := Light(s, w);
    var a, b := Light(f, w), Greedy(light);
    GreedyLight(s, w);
    LightAcyclic(f, w);
    GreedyAcyclic(light);
    GreedyEdges(light);
    forall e | e in a ensures e.from < n && e.to < n && Connected(b, e.from, e.to) {
      LightMembers(f, w, e);
      LightMembers(s, w, e);
      EdgeConnects(light, e);
      GreedySpans(light, e.from, e.to);
    }
    forall e | e in b ensures e.from < n && e.to < n {
      LightMembers(s, w, e);
    }
    ForestRank(a, b, n);
  }

  /**
   * The greedy choice over weight-ordered edges has the least total weight
   * of all spanning forests of those edges.
   */
  lemma GreedyMinimal(s: seq<UndirectedEdge>, f: seq<UndirectedEdge>, n: nat)
    requires ByWeight(s) && EdgesBelow(s, n) && SpanningForest(f, s)
    ensures Weight(Greedy(s)) <= Weight(f)
  {
    var g := Greedy(s);
    GreedySpanningForest(s);
    GreedyEdges(s);
    ForestRank(f, g, n);
    ForestRank(g, f, n);
    var sorted := SortByWeight(f);
    SortByWeightSpec(f);
    forall w ensures |Light(sorted, w)| <= |Light(g, w)| {
      SortWeight(f, w);
      LightRank(s, f, n, w);
    }
    SortedPointwise(sorted, g);
    PointwiseWeight(sorted, g);
    SortWeight(f, 0.0);
  }

  /**
   * `kruskal` returns a minimum spanning tree: the greedy choice over the
   * sorted canonical edges is a spanning forest of the graph, and no
   * spanning forest of the graph weighs less.
   */
  lemma KruskalMinimal(adj: seq<seq<Edge>>, n: nat)
    requires EdgesInRange(adj, n) && |adj| <= n
    ensures SpanningForest(Greedy(SortByWeight(CanonicalEdges(adj))), CanonicalEdges(adj))
    ensures forall f :: SpanningForest(f, CanonicalEdges(adj)) ==>
              Weight(Greedy(SortByWeight(CanonicalEdges(adj)))) <= Weight(f)
  {
    var edges, sorted := CanonicalEdges(adj), SortByWeight(CanonicalEdges(adj));
    SortByWeightSpec(edges);
    SortedInRange(adj, n);
    forall e ensures e in sorted <==> e in edges {
      SortedMembers(edges, e);
    }
    GreedySpanningForest(sorted);
    forall f | SpanningForest(f, edges) ensures Weight(Greedy(sorted)) <= Weight(f) {
      GreedyMinimal(sorted, f, n);
    }
  }

  /** The sorted canonical edges join existing vertices. */
  lemma SortedInRange(adj: seq<seq<Edge>>, n: nat)
    requires EdgesInRange(adj, n) && |adj| <= n
    ensures EdgesBelow(SortByWeight(CanonicalEdges(adj)), n)
  {
    CanonicalInRange(adj, n);
    forall e | e in SortByWeight(CanonicalEdges(adj)) ensures e.from < n && e.to < n {
      SortedMembers(CanonicalEdges(adj), e);
    }
  }

  /** Labels naming the components of the greedy tree name those of the whole graph. */
  lemma SortedComponents(adj: seq<seq<Edge>>, lab: seq<nat>)
    requires LabelsComponents(lab, Greedy(SortByWeight(CanonicalEdges(adj))))
    ensures LabelsComponents(lab, CanonicalEdges(adj))
  {
    var edges := SortByWeight(CanonicalEdges(adj));
    forall e ensures e in edges <==> e in CanonicalEdges(adj) {
      SortedMembers(CanonicalEdges(adj), e);
    }
    forall u: nat, v: nat | u < |lab| && v < |lab|
      ensures lab[u] == lab[v] <==> Connected(CanonicalEdges(adj), u, v)
    {
      GreedySpans(edges, u, v);
      SameMembersConnect(edges, CanonicalEdges(adj), u, v);
    }
  }

  /**
   * One edge of the greedy pass, on labels: the edge is taken exactly when
   * its ends carry different labels, which is exactly when they are not yet
   * connected; taking it merges the two classes, so the labels still name
   * the components and tree size plus label count stays the same.
   */
  lemma TakeStep(tree: seq<UndirectedEdge>, lab: seq<nat>, e: UndirectedEdge)
    requires LabelsComponents(lab, tree) && EdgesBelow(tree, |lab|)
    requires e.from < |lab| && e.to < |lab|
    ensures lab[e.from] != lab[e.to] <==> !Connected(tree, e.from, e.to)
    ensures lab[e.from] != lab[e.to] ==>
              && LabelsComponents(Relabel(lab, lab[e.to], lab[e.from]), tree + [e])
              && EdgesBelow(tree + [e], |lab|)
              && |tree + [e]| + |LabelSet(Relabel(lab, lab[e.to], lab[e.from]))| == |tree| + |LabelSet(lab)|
  {
    if lab[e.from] != lab[e.to] {
      MergeStep(tree, lab, e);
      RelabelCount(lab, e.from, e.to);
      assert lab[e.to] in LabelSet(lab);
    }
  }

  /**
   * The edge loop of `kruskal`: each edge in order, through `union`, into
   * the tree graph exactly when it joins two sets. The edges taken are the
   * greedy selection, the labels name the tree's components, and the tree's
   * size plus the number of classes stays the number of vertices.
   */
  method TakeEdges(edges: seq<UndirectedEdge>, dsu: DSU, agm: Graph) returns (ghost tree: seq<UndirectedEdge>)
    requires EdgesBelow(edges, |agm.vertices|)
    requires dsu.Valid() && dsu.Labels() == Identity(|agm.vertices|)
    requires agm.Valid() && forall u :: 0 <= u < |agm.vertices| ==> agm.adj[u] == []
    modifies dsu, agm
    ensures tree == Greedy(edges)
    ensures dsu.Valid() && |dsu.Labels()| == |agm.vertices| && LabelsComponents(dsu.Labels(), tree)
    ensures |tree| + |LabelSet(dsu.Labels())| == |agm.vertices|
    ensures agm.Valid() && agm.vertices == old(agm.vertices)
    ensures forall u :: 0 <= u < |agm.vertices| ==> agm.adj[u] == OutOf(tree, u)
  {
    var n := |agm.vertices|;
    tree := [];
    IdentityComponents(n);
    ghost var labs := dsu.Labels();
    for k := 0 to |edges|
      modifies dsu, agm
      invariant dsu.Valid() && dsu.Labels() == labs && |labs| == n
      invariant LabelsComponents(labs, tree) && EdgesBelow(tree, n)
      invariant tree == Greedy(edges[..k])
      invariant |tree| + |LabelSet(labs)| == n
      invariant agm.Valid() && agm.vertices == old(agm.vertices)
      invariant forall u :: 0 <= u < n ==> agm.adj[u] == OutOf(tree, u)
    {
      GreedyPrefix(edges, k);
      tree, labs := TakeEdge(edges[k], dsu, agm, tree, labs);
    }
    assert edges[..|edges|] == edges;
  }

  /**
   * One iteration of the edge loop: `union(e.from, e.to)`, and the edge into
   * the tree graph when that merged two sets, which is exactly when its ends
   * were not yet connected by the tree.
   */
  method TakeEdge(e: UndirectedEdge, dsu: DSU, agm: Graph, ghost tree: seq<UndirectedEdge>, ghost labs: seq<nat>)
    returns (ghost tree': seq<UndirectedEdge>, ghost labs': seq<nat>)
    requires e.from < |labs| && e.to < |labs| && |labs| == |agm.vertices|
    requires dsu.Valid() && dsu.Labels() == labs
    requires LabelsComponents(labs, tree) && EdgesBelow(tree, |labs|)
    requires agm.Valid() && forall u :: 0 <= u < |labs| ==> agm.adj[u] == OutOf(tree, u)
    modifies dsu, agm
    ensures tree' == if Connected(tree, e.from, e.to) then tree else tree + [e]
    ensures dsu.Valid() && dsu.Labels() == labs' && |labs'| == |labs|
    ensures LabelsComponents(labs', tree') && EdgesBelow(tree', |labs|)
    ensures |tree'| + |LabelSet(labs')| == |tree| + |LabelSet(labs)|
    ensures agm.Valid() && agm.vertices == old(agm.vertices)
    ensures forall u :: 0 <= u < |labs| ==> agm.adj[u] == OutOf(tree', u)
  {
    TakeStep(tree, labs, e);
    ghost var adj0 := agm.adj;
    var merged := dsu.Union(e.from, e.to);
    labs' := if merged then Relabel(labs, labs[e.to], labs[e.from]) else labs;
    tree' := tree;
    assert agm.adj == adj0 && agm.Valid();
    if merged {
      agm.AddEdge(e.from, e.to, e.weight);
      assert agm.adj == adj0[e.from := adj0[e.from] + [Edge(e.to, e.weight)]];
      OutOfSnoc(adj0, tree, e);
      tree' := tree + [e];
    }
  }

  /** The roots loop of `kruskal`: the set of `find(i)` over all elements, which are the classes. */
  method CountRoots(dsu: DSU) returns (roots: set<nat>)
    requires dsu.Valid()
    modifies dsu
    ensures dsu.Valid() && dsu.Labels() == old(dsu.Labels())
    ensures roots == LabelSet(dsu.Labels())
  {
    ghost var lab := dsu.Labels();
    var n := |dsu.parent|;
    roots := {};
    for i := 0 to n
      modifies dsu
      invariant dsu.Valid() && dsu.Labels() == lab && |dsu.parent| == n
      invariant roots == LabelSet(lab[..i])
    {
      var root := dsu.Find(i);
      LabelSetSnoc(lab, i);
      roots := roots + {root};
    }
    assert lab[..n] == lab;
  }

  /**
   * `kruskal(gr)`: the canonical edges sorted stably by weight, taken
   * greedily through the disjoint-set union into a copy of the vertices.
   * `tree` is the list of taken edges and `lab` the final root of every
   * vertex. The tree is a spanning forest of the graph, and no spanning
   * forest weighs less. The result is an error exactly when more than one
   * component remains, and the error carries their number; on success the
   * tree has one edge fewer than there are vertices.
   */
  method Kruskal(gr: Graph) returns (r: Result<Graph, KruskalError>, ghost tree: seq<UndirectedEdge>, ghost lab: seq<nat>)
    requires gr.Valid()
    ensures tree == Greedy(SortByWeight(CanonicalEdges(gr.adj)))
    ensures SpanningForest(tree, CanonicalEdges(gr.adj))
    ensures forall f :: SpanningForest(f, CanonicalEdges(gr.adj)) ==> Weight(tree) <= Weight(f)
    ensures |lab| == |gr.vertices| && LabelsComponents(lab, CanonicalEdges(gr.adj))
    ensures |tree| + |LabelSet(lab)| == |gr.vertices|
    ensures r.Err? <==> |LabelSet(lab)| > 1
    ensures r.Err? ==> r.error == Disconnected(|LabelSet(lab)|)
    ensures r.Ok? && |gr.vertices| > 0 ==> |tree| == |gr.vertices| - 1
    ensures r.Ok? ==> fresh(r.value) && r.value.Valid() && r.value.vertices == gr.vertices
    ensures r.Ok? ==> forall u :: 0 <= u < |gr.vertices| ==> r.value.adj[u] == OutOf(tree, u)
  {
    var n := |gr.vertices|;
    var edges := SortByWeight(CanonicalEdges(gr.adj));
    SortedInRange(gr.adj, n);
    KruskalMinimal(gr.adj, n);

    var dsu := new DSU(n);
    var agm := WithVertices(gr.vertices);
    tree := TakeEdges(edges, dsu, agm);
    lab := dsu.Labels();
    var roots := CountRoots(dsu);

    SortedComponents(gr.adj, lab);
    if n > 0 {
      assert lab[0] in LabelSet(lab);
    }

    if |roots| > 1 {
      r := Err(Disconnected(|roots|));
    } else {
      r := Ok(agm);
    }
  }
}
