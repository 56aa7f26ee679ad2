/**
 * Undirected connectivity over a list of weighted edges, and labellings of
 * the vertices 0..n-1 that name their connected components. This is the
 * reference the disjoint-set forest and the spanning tree are measured
 * against.
 */
module Connectivity {
  import opened Structs

  /** The edge joins u and v, in either direction. */
  predicate Joins(e: UndirectedEdge, u: nat, v: nat) {
    (e.from == u && e.to == v) || (e.from == v && e.to == u)
  }

  /** Some edge of es joins u and v. */
  ghost predicate Linked(es: seq<UndirectedEdge>, u: nat, v: nat) {
    exists e :: e in es && Joins(e, u, v)
  }

  /** A non-empty vertex sequence whose neighbours are linked by edges of es. */
  ghost predicate IsWalk(es: seq<UndirectedEdge>, w: seq<nat>) {
    |w| >= 1 && forall i :: 0 <= i < |w| - 1 ==> Linked(es, w[i], w[i + 1])
  }

  /** u and v lie in one connected component of the undirected graph es. */
  ghost predicate Connected(es: seq<UndirectedEdge>, u: nat, v: nat) {
    exists w :: IsWalk(es, w) && w[0] == u && w[|w| - 1] == v
  }

  /** Every edge of es joins two vertices below n. */
  ghost predicate EdgesBelow(es: seq<UndirectedEdge>, n: nat) {
    forall e :: e in es ==> e.from < n && e.to < n
  }

  /** The labelling names the components: equal labels exactly for connected vertices. */
  ghost predicate LabelsComponents(lab: seq<nat>, es: seq<UndirectedEdge>) {
    forall u: nat, v: nat :: u < |lab| && v < |lab| ==> (lab[u] == lab[v] <==> Connected(es, u, v))
  }

  /** The labels in use. */
  function LabelSet(lab: seq<nat>): set<nat> {
    set i | 0 <= i < |lab| :: lab[i]
  }

  /** Every vertex labelled `from` is labelled `to` instead. */
  function Relabel(lab: seq<nat>, from: nat, to: nat): seq<nat> {
    seq(|lab|, i requires 0 <= i < |lab| => if lab[i] == from then to else lab[i])
  }

  /** The vertices 0..n-1 each in a component of its own. */
  function Identity(n: nat): seq<nat> {
    seq(n, i requires 0 <= i < n => i)
  }

  lemma ConnectedRefl(es: seq<UndirectedEdge>, u: nat)
    ensures Connected(es, u, u)
  {
    assert IsWalk(es, [u]);
  }

  /** An edge connects its two ends, both ways. */
  lemma EdgeConnects(es: seq<UndirectedEdge>, e: UndirectedEdge)
    requires e in es
    ensures Connected(es, e.from, e.to) && Connected(es, e.to, e.from)
  {
    assert Joins(e, e.from, e.to) && Joins(e, e.to, e.from);
    assert IsWalk(es, [e.from, e.to]);
    assert IsWalk(es, [e.to, e.from]);
  }

  lemma ConnectedSym(es: seq<UndirectedEdge>, u: nat, v: nat)
    requires Connected(es, u, v)
    ensures Connected(es, v, u)
  {
    var w :| IsWalk(es, w) && w[0] == u && w[|w| - 1] == v;
    var n := |w|;
    var r := seq(n, i requires 0 <= i < n => w[n - 1 - i]);
    forall i | 0 <= i < n - 1
      ensures Linked(es, r[i], r[i + 1])
    {
      assert Linked(es, w[n - 2 - i], w[n - 1 - i]);
      var e :| e in es && Joins(e, w[n - 2 - i], w[n - 1 - i]);
      assert Joins(e, r[i], r[i + 1]);
    }
    assert IsWalk(es, r);
  }

  lemma ConnectedTrans(es: seq<UndirectedEdge>, u: nat, v: nat, x: nat)
    requires Connected(es, u, v) && Connected(es, v, x)
    ensures Connected(es, u, x)
  {
    var w1 :| IsWalk(es, w1) && w1[0] == u && w1[|w1| - 1] == v;
    var w2 :| IsWalk(es, w2) && w2[0] == v && w2[|w2| - 1] == x;
    var w := w1 + w2[1..];
    forall i | 0 <= i < |w| - 1
      ensures Linked(es, w[i], w[i + 1])
    {
      if i < |w1| - 1 {
        assert w[i] == w1[i] && w[i + 1] == w1[i + 1];
      } else {
        var j := i - (|w1| - 1);
        assert w[i] == w2[j] && w[i + 1] == w2[j + 1];
      }
    }
    assert IsWalk(es, w);
  }

  /** A walk over es1 stays connected in es2 when every edge of es1 is. */
  lemma {:induction false} WalkByEdges(es1: seq<UndirectedEdge>, es2: seq<UndirectedEdge>, w: seq<nat>)
    requires forall e :: e in es1 ==> Connected(es2, e.from, e.to)
    requires IsWalk(es1, w)
    ensures Connected(es2, w[0], w[|w| - 1])
    decreases |w|
  {
    if |w| == 1 {
      ConnectedRefl(es2, w[0]);
    } else {
      var front := w[..|w| - 1];
      assert IsWalk(es1, front) by {
        forall i | 0 <= i < |front| - 1 ensures Linked(es1, front[i], front[i + 1]) {
          assert front[i] == w[i] && front[i + 1] == w[i + 1];
        }
      }
      WalkByEdges(es1, es2, front);
      var a, b := w[|w| - 2], w[|w| - 1];
      assert Linked(es1, a, b);
      var e :| e in es1 && Joins(e, a, b);
      if e.from == a {
        assert Connected(es2, a, b);
      } else {
        ConnectedSym(es2, b, a);
      }
      ConnectedTrans(es2, w[0], a, b);
    }
  }

  /** Connectivity over es1 carries over to es2 when every edge of es1 is connected in es2. */
  lemma ConnectedByEdges(es1: seq<UndirectedEdge>, es2: seq<UndirectedEdge>, u: nat, v: nat)
    requires forall e :: e in es1 ==> Connected(es2, e.from, e.to)
    requires Connected(es1, u, v)
    ensures Connected(es2, u, v)
  {
    var w :| IsWalk(es1, w) && w[0] == u && w[|w| - 1] == v;
    WalkByEdges(es1, es2, w);
  }

  /** Adding edges keeps every connection. */
  lemma ConnectedMono(es1: seq<UndirectedEdge>, es2: seq<UndirectedEdge>, u: nat, v: nat)
    requires forall e :: e in es1 ==> e in es2
    requires Connected(es1, u, v)
    ensures Connected(es2, u, v)
  {
    forall e | e in es1 ensures Connected(es2, e.from, e.to) {
      EdgeConnects(es2, e);
    }
    ConnectedByEdges(es1, es2, u, v);
  }

  /** A walk never leaves a label class when every edge joins equally labelled vertices. */
  lemma {:induction false} WalkKeepsLabel(es: seq<UndirectedEdge>, lab: seq<nat>, w: seq<nat>)
    requires forall e :: e in es ==> e.from < |lab| && e.to < |lab| && lab[e.from] == lab[e.to]
    requires IsWalk(es, w) && w[0] < |lab|
    ensures w[|w| - 1] < |lab| && lab[w[|w| - 1]] == lab[w[0]]
    decreases |w|
  {
    if |w| > 1 {
      var front := w[..|w| - 1];
      assert IsWalk(es, front) by {
        forall i | 0 <= i < |front| - 1 ensures Linked(es, front[i], front[i + 1]) {
          assert front[i] == w[i] && front[i + 1] == w[i + 1];
        }
      }
      WalkKeepsLabel(es, lab, front);
      assert Linked(es, w[|w| - 2], w[|w| - 1]);
    }
  }

  /** Connected vertices carry one label when every edge joins equally labelled vertices. */
  lemma ConnectedKeepsLabel(es: seq<UndirectedEdge>, lab: seq<nat>, u: nat, v: nat)
    requires forall e :: e in es ==> e.from < |lab| && e.to < |lab| && lab[e.from] == lab[e.to]
    requires u < |lab| && Connected(es, u, v)
    ensures v < |lab| && lab[v] == lab[u]
  {
    var w :| IsWalk(es, w) && w[0] == u && w[|w| - 1] == v;
    WalkKeepsLabel(es, lab, w);
  }

  /** Without edges every vertex is alone, and n vertices carry n labels. */
  lemma IdentityComponents(n: nat)
    ensures LabelsComponents(Identity(n), [])
    ensures |LabelSet(Identity(n))| == n
  {
    var lab := Identity(n);
    forall u: nat, v: nat | u < n && v < n
      ensures lab[u] == lab[v] <==> Connected([], u, v)
    {
      if Connected([], u, v) {
        var w :| IsWalk([], w) && w[0] == u && w[|w| - 1] == v;
        if |w| > 1 {
          assert Linked([], w[0], w[1]);
        }
      }
      if u == v {
        ConnectedRefl([], u);
      }
    }
    IdentityLabelCount(n);
  }

  lemma {:induction false} IdentityLabelCount(n: nat)
    ensures |LabelSet(Identity(n))| == n
  {
    if n > 0 {
      IdentityLabelCount(n - 1);
      var lab, front := Identity(n), Identity(n - 1);
      forall l | l in LabelSet(lab) ensures l in LabelSet(front) + {n - 1} {
        var k :| 0 <= k < n && lab[k] == l;
        if k < n - 1 {
          assert front[k] == l;
        }
      }
      forall l | l in LabelSet(front) ensures l in LabelSet(lab) && l != n - 1 {
        var k :| 0 <= k < n - 1 && front[k] == l;
        assert lab[k] == l;
      }
      assert lab[n - 1] == n - 1;
      assert LabelSet(lab) == LabelSet(front) + {n - 1};
    }
  }

  /** Merging one label class into another removes exactly one label. */
  lemma RelabelCount(lab: seq<nat>, i: nat, j: nat)
    requires i < |lab| && j < |lab| && lab[i] != lab[j]
    ensures LabelSet(Relabel(lab, lab[j], lab[i])) == LabelSet(lab) - {lab[j]}
    ensures |LabelSet(Relabel(lab, lab[j], lab[i]))| == |LabelSet(lab)| - 1
  {
    var out := Relabel(lab, lab[j], lab[i]);
    assert out[i] == lab[i];
    forall l | l in LabelSet(lab) - {lab[j]} ensures l in LabelSet(out) {
      var k :| 0 <= k < |lab| && lab[k] == l;
      assert out[k] == l;
    }
    assert LabelSet(out) == LabelSet(lab) - {lab[j]};
  }

  /**
   * Joining two differently labelled vertices by a new edge: the ends were
   * not yet connected, and merging the second end's class into the first's
   * names the components of the larger edge list.
   */
  lemma MergeStep(tree: seq<UndirectedEdge>, lab: seq<nat>, e: UndirectedEdge)
    requires LabelsComponents(lab, tree) && EdgesBelow(tree, |lab|)
    requires e.from < |lab| && e.to < |lab| && lab[e.from] != lab[e.to]
    ensures !Connected(tree, e.from, e.to)
    ensures LabelsComponents(Relabel(lab, lab[e.to], lab[e.from]), tree + [e])
  {
    var a, b := e.from, e.to;
    var la, lb := lab[a], lab[b];
    var lab' := Relabel(lab, lb, la);
    var t' := tree + [e];
    forall f | f in tree ensures f in t' { }
    EdgeConnects(t', e);
    forall x: nat | x < |lab| && (lab[x] == la || lab[x] == lb)
      ensures Connected(t', x, a)
    {
      if lab[x] == la {
        ConnectedMono(tree, t', x, a);
      } else {
        ConnectedMono(tree, t', x, b);
        ConnectedTrans(t', x, b, a);
      }
    }
    forall f | f in t'
      ensures f.from < |lab'| && f.to < |lab'| && lab'[f.from] == lab'[f.to]
    {
      if f in tree {
        EdgeConnects(tree, f);
      }
    }
    forall u: nat, v: nat | u < |lab'| && v < |lab'|
      ensures lab'[u] == lab'[v] <==> Connected(t', u, v)
    {
      if lab'[u] == lab'[v] {
        if lab[u] == la || lab[u] == lb {
          ConnectedSym(t', v, a);
          ConnectedTrans(t', u, a, v);
        } else {
          ConnectedMono(tree, t', u, v);
        }
      }
      if Connected(t', u, v) {
        ConnectedKeepsLabel(t', lab', u, v);
      }
    }
  }

  /** One more element adds exactly its label to the labels in use. */
  lemma LabelSetSnoc(lab: seq<nat>, i: nat)
    requires i < |lab|
    ensures LabelSet(lab[..i + 1]) == LabelSet(lab[..i]) + {lab[i]}
  {
    var front, next := lab[..i], lab[..i + 1];
    forall l | l in LabelSet(next) ensures l in LabelSet(front) + {lab[i]} {
      var k :| 0 <= k < i + 1 && next[k] == l;
      if k < i {
        assert front[k] == l;
      }
    }
    forall l | l in LabelSet(front) ensures l in LabelSet(next) {
      var k :| 0 <= k < i && front[k] == l;
      assert next[k] == l;
    }
    assert next[i] == lab[i];
  }

  /** No edge of t closes a cycle with the edges before it. */
  ghost predicate Acyclic(t: seq<UndirectedEdge>) {
    forall i :: 0 <= i < |t| ==> !Connected(t[..i], t[i].from, t[i].to)
  }

  /** One more edge keeps a list acyclic exactly when its ends were not yet connected. */
  lemma AcyclicSnoc(t: seq<UndirectedEdge>, e: UndirectedEdge)
    ensures Acyclic(t + [e]) <==> Acyclic(t) && !Connected(t, e.from, e.to)
  {
    var t' := t + [e];
    assert t'[..|t|] == t;
    forall i | 0 <= i < |t| ensures t'[..i] == t[..i] && t'[i] == t[i] { }
  }

  /**
   * An acyclic edge list over the vertices 0..n-1 has a labelling that
   * names its components, and its edges and its components add up to n.
   */
  lemma {:induction false} ForestLabels(t: seq<UndirectedEdge>, n: nat) returns (lab: seq<nat>)
    requires Acyclic(t) && EdgesBelow(t, n)
    ensures |lab| == n && LabelsComponents(lab, t)
    ensures |t| + |LabelSet(lab)| == n
    decreases |t|
  {
    if t == [] {
      IdentityComponents(n);
      lab := Identity(n);
    } else {
      var front, e := t[..|t| - 1], t[|t| - 1];
      assert t == front + [e];
      AcyclicSnoc(front, e);
      var before := ForestLabels(front, n);
      MergeStep(front, before, e);
      RelabelCount(before, e.from, e.to);
      lab := Relabel(before, before[e.to], before[e.from]);
    }
  }

  /** On the first k vertices, a labelling that only merges classes of another has no more labels. */
  lemma {:induction false} CoarserPrefix(fine: seq<nat>, coarse: seq<nat>, k: nat)
    requires |fine| == |coarse| && k <= |fine|
    requires forall u, v :: 0 <= u < |fine| && 0 <= v < |fine| && fine[u] == fine[v] ==> coarse[u] == coarse[v]
    ensures |LabelSet(coarse[..k])| <= |LabelSet(fine[..k])|
  {
    if k == 0 {
      assert LabelSet(coarse[..0]) == {};
    } else {
      var i := k - 1;
      CoarserPrefix(fine, coarse, i);
      LabelSetSnoc(fine, i);
      LabelSetSnoc(coarse, i);
      if fine[i] in LabelSet(fine[..i]) {
        var j :| 0 <= j < i && fine[..i][j] == fine[i];
        assert coarse[..i][j] == coarse[i];
      }
    }
  }

  /** A labelling that only merges classes of another has no more labels than it. */
  lemma Coarser(fine: seq<nat>, coarse: seq<nat>)
    requires |fine| == |coarse|
    requires forall u, v :: 0 <= u < |fine| && 0 <= v < |fine| && fine[u] == fine[v] ==> coarse[u] == coarse[v]
    ensures |LabelSet(coarse)| <= |LabelSet(fine)|
  {
    CoarserPrefix(fine, coarse, |fine|);
    assert fine[..|fine|] == fine && coarse[..|coarse|] == coarse;
  }

  /**
   * The rank bound: an acyclic list whose every edge is connected by another
   * acyclic list has no more edges than that list.
   */
  lemma ForestRank(a: seq<UndirectedEdge>, b: seq<UndirectedEdge>, n: nat)
    requires Acyclic(a) && EdgesBelow(a, n) && Acyclic(b) && EdgesBelow(b, n)
    requires forall e :: e in a ==> Connected(b, e.from, e.to)
    ensures |a| <= |b|
  {
    var la := ForestLabels(a, n);
    var lb := ForestLabels(b, n);
    forall u, v | 0 <= u < n && 0 <= v < n && la[u] == la[v] ensures lb[u] == lb[v] {
      ConnectedByEdges(a, b, u, v);
    }
    Coarser(la, lb);
  }
}
