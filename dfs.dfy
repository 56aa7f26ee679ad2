/**
 * Path extraction by depth-first search (src/dfs.rs). The search follows the
 * adjacency lists exactly as stored, so paths are directed.
 */
module Dfs {
  import opened Wrappers
  import opened Structs

  /** Some adjacency entry of u points at v. */
  ghost predicate HasEdge(adj: seq<seq<Edge>>, u: nat, v: nat) {
    u < |adj| && exists k :: 0 <= k < |adj[u]| && adj[u][k].toIdx == v
  }

  /** A non-empty vertex sequence whose consecutive vertices are joined by edges. */
  ghost predicate IsPath(adj: seq<seq<Edge>>, p: seq<nat>) {
    |p| > 0 && forall k :: 0 <= k < |p| - 1 ==> HasEdge(adj, p[k], p[k + 1])
  }

  /** t can be reached from s along directed edges. */
  ghost predicate Reachable(adj: seq<seq<Edge>>, s: nat, t: nat) {
    exists p :: IsPath(adj, p) && p[0] == s && p[|p| - 1] == t
  }

  /** No vertex occurs twice. */
  ghost predicate Distinct(p: seq<nat>) {
    forall i, j :: 0 <= i < j < |p| ==> p[i] != p[j]
  }

  /** The vertices the search marked during a call: unmarked before, marked after. */
  ghost predicate NewlyVisited(before: seq<bool>, after: seq<bool>, u: nat)
    requires |before| == |after|
  {
    u < |after| && after[u] && !before[u]
  }

  /** Every vertex the call marked has all its successors marked. */
  ghost predicate NewlyClosed(adj: seq<seq<Edge>>, before: seq<bool>, after: seq<bool>)
    requires |before| == |after| == |adj| && EdgesInRange(adj, |adj|)
  {
    forall u :: 0 <= u < |after| && after[u] && !before[u] ==>
      forall k :: 0 <= k < |adj[u]| ==> after[adj[u][k].toIdx]
  }

  /** Every vertex marked in a stays marked in b. */
  ghost predicate Grows(a: seq<bool>, b: seq<bool>) {
    |a| == |b| && forall i :: 0 <= i < |a| && a[i] ==> b[i]
  }

  /**
   * p is the accumulator `path` followed by a path from head to end that
   * repeats no vertex and uses only vertices unmarked in `before`.
   */
  ghost predicate FoundFrom(adj: seq<seq<Edge>>, path: seq<nat>, p: seq<nat>, head: nat, end: nat, before: seq<bool>) {
    && |p| > |path| && p[..|path|] == path
    && IsPath(adj, p[|path|..])
    && p[|path|] == head && p[|p| - 1] == end
    && Distinct(p[|path|..])
    && forall k :: |path| <= k < |p| ==> p[k] < |before| && !before[p[k]]
  }

  /** The number of unmarked vertices, the measure the recursion decreases. */
  function CountFalse(s: seq<bool>): nat {
    if s == [] then 0 else CountFalse(s[..|s| - 1]) + (if s[|s| - 1] then 0 else 1)
  }

  /** Marking more vertices never increases the number of unmarked ones. */
  lemma {:induction false} CountFalseMonotone(a: seq<bool>, b: seq<bool>)
    requires |a| == |b| && forall i :: 0 <= i < |a| && a[i] ==> b[i]
    ensures CountFalse(b) <= CountFalse(a)
  {
    if a != [] {
      CountFalseMonotone(a[..|a| - 1], b[..|b| - 1]);
    }
  }

  /** Marking one unmarked vertex lowers the count by one. */
  lemma {:induction false} CountFalseMark(a: seq<bool>, i: nat)
    requires i < |a| && !a[i]
    ensures CountFalse(a[i := true]) == CountFalse(a) - 1
  {
    var last := |a| - 1;
    assert a[i := true][..last] == if i < last then a[..last][i := true] else a[..last];
    if i < last {
      CountFalseMark(a[..last], i);
    }
  }

  /** Every vertex of a path that starts in a successor-closed set stays in it. */
  lemma {:induction false} PathStaysMarked(adj: seq<seq<Edge>>, vis: seq<bool>, p: seq<nat>, k: nat)
    requires |vis| == |adj| && EdgesInRange(adj, |adj|)
    requires forall u :: 0 <= u < |vis| && vis[u] ==> forall j :: 0 <= j < |adj[u]| ==> vis[adj[u][j].toIdx]
    requires IsPath(adj, p) && p[0] < |vis| && vis[p[0]] && k < |p|
    ensures p[k] < |vis| && vis[p[k]]
  {
    if k > 0 {
      PathStaysMarked(adj, vis, p, k - 1);
      assert HasEdge(adj, p[k - 1], p[k]);
      var j :| 0 <= j < |adj[p[k - 1]]| && adj[p[k - 1]][j].toIdx == p[k];
    }
  }

  /**
   * A successor-closed marked set that holds s and not t shows that t is
   * unreachable from s.
   */
  lemma ClosedSetBlocks(adj: seq<seq<Edge>>, vis: seq<bool>, s: nat, t: nat)
    requires |vis| == |adj| && EdgesInRange(adj, |adj|)
    requires forall u :: 0 <= u < |vis| && vis[u] ==> forall j :: 0 <= j < |adj[u]| ==> vis[adj[u][j].toIdx]
    requires s < |vis| && vis[s] && !(t < |vis| && vis[t])
    ensures !Reachable(adj, s, t)
  {
    if Reachable(adj, s, t) {
      var p :| IsPath(adj, p) && p[0] == s && p[|p| - 1] == t;
      PathStaysMarked(adj, vis, p, |p| - 1);
    }
  }

  /** Every vertex marked since before, other than head, has all its successors marked. */
  ghost predicate ClosedBesides(adj: seq<seq<Edge>>, before: seq<bool>, vis: seq<bool>, head: nat)
    requires |before| == |vis| == |adj| && EdgesInRange(adj, |adj|)
  {
    forall u :: 0 <= u < |vis| && vis[u] && !before[u] && u != head ==>
      forall j :: 0 <= j < |adj[u]| ==> vis[adj[u][j].toIdx]
  }

  /** A failed recursive call keeps the marked set closed and does not mark `end`. */
  lemma ClosedAfterCall(adj: seq<seq<Edge>>, before: seq<bool>, mid: seq<bool>, after: seq<bool>, head: nat, end: nat)
    requires |before| == |mid| == |after| == |adj| && EdgesInRange(adj, |adj|)
    requires forall i :: 0 <= i < |mid| && mid[i] ==> after[i]
    requires ClosedBesides(adj, before, mid, head) && NewlyClosed(adj, mid, after)
    requires !NewlyVisited(before, mid, end) && !NewlyVisited(mid, after, end)
    ensures ClosedBesides(adj, before, after, head) && !NewlyVisited(before, after, end)
  {
    forall u | 0 <= u < |after| && after[u] && !before[u] && u != head
      ensures forall j :: 0 <= j < |adj[u]| ==> after[adj[u][j].toIdx]
    {
      if mid[u] {
        forall j | 0 <= j < |adj[u]| ensures after[adj[u][j].toIdx] {
          assert mid[adj[u][j].toIdx];
        }
      }
    }
  }

  /**
   * The inner recursive `dfs`: mark `head`, push it, stop at `end`, otherwise
   * try the unmarked successors in list order and return at the first that
   * succeeds; on failure pop `head` again. The accumulator is passed in and
   * handed back.
   */
  method Search(g: Graph, head: nat, end: nat, visited: array<bool>, path: seq<nat>)
    returns (found: bool, path': seq<nat>)
    requires g.Valid() && visited.Length == |g.vertices| && head < visited.Length && !visited[head]
    modifies visited
    ensures Grows(old(visited[..]), visited[..]) && visited[head]
    ensures head == end ==> found && path' == path + [head]
    ensures !found ==> path' == path
    ensures !found ==> NewlyClosed(g.adj, old(visited[..]), visited[..])
    ensures !found ==> !NewlyVisited(old(visited[..]), visited[..], end)
    ensures found ==> FoundFrom(g.adj, path, path', head, end, old(visited[..]))
    decreases CountFalse(visited[..])
  {
    ghost var before := visited[..];
    visited[head] := true;
    CountFalseMark(before, head);
    path' := path + [head];
    if head == end {
      assert path'[|path|..] == [head];
      assert path'[..|path|] == path;
      return true, path';
    }
    var edges := g.adj[head];
    var k := 0;
    while k < |edges|
      invariant 0 <= k <= |edges|
      invariant path' == path + [head]
      invariant visited[head]
      invariant Grows(before, visited[..])
      invariant CountFalse(visited[..]) < CountFalse(before)
      invariant forall j :: 0 <= j < k ==> visited[edges[j].toIdx]
      invariant ClosedBesides(g.adj, before, visited[..], head)
      invariant !NewlyVisited(before, visited[..], end)
    {
      var next := edges[k].toIdx;
      if !visited[next] {
        ghost var mid := visited[..];
        var ok, p := Search(g, next, end, visited, path');
        CountFalseMonotone(mid, visited[..]);
        if !ok {
          ClosedAfterCall(g.adj, before, mid, visited[..], head, end);
        }
        if ok {
          PrependHead(g.adj, path, head, k, p, end, before, mid);
          found, path' := true, p;
          return;
        }
      }
      k := k + 1;
    }
    path' := path;
    found := false;
  }

  /**
   * A path found from a successor of head, behind the accumulator
   * path + [head], extends to a path from head: it still repeats no vertex
   * and uses only vertices unmarked before head was marked.
   */
  lemma PrependHead(adj: seq<seq<Edge>>, path: seq<nat>, head: nat, k: nat, p: seq<nat>, end: nat,
                    before: seq<bool>, mid: seq<bool>)
    requires head < |adj| && k < |adj[head]|
    requires FoundFrom(adj, path + [head], p, adj[head][k].toIdx, end, mid)
    requires Grows(before, mid) && head < |before| && !before[head] && mid[head]
    ensures FoundFrom(adj, path, p, head, end, before)
  {
    var child := p[|path| + 1..];
    assert p[|path|] == (path + [head])[|path|];
    assert p[|path|..] == [head] + child;
    assert p[..|path|] == p[..|path| + 1][..|path|];
    assert HasEdge(adj, head, child[0]);
    forall i | 0 <= i < |child| ensures child[i] != head {
      assert !mid[child[i]];
    }
  }

  /** A path of two or more vertices leaves its first vertex along a stored edge. */
  lemma PathLeaves(adj: seq<seq<Edge>>, p: seq<nat>)
    requires IsPath(adj, p) && p[0] < |adj|
    ensures |p| > 1 ==> |adj[p[0]]| > 0
  {
    if |p| > 1 {
      assert HasEdge(adj, p[0], p[1]);
    }
  }

  /**
   * Edges are followed one way only: after a single `add_edge(0, 1, w)` the
   * search reaches 1 from 0 but never 0 from 1, whatever the comments about
   * bidirectional edges suggest.
   */
  lemma OneWayEdge(w: real)
    ensures Reachable([[Edge(1, w)], []], 0, 1)
    ensures !Reachable([[Edge(1, w)], []], 1, 0)
  {
    var adj := [[Edge(1, w)], []];
    assert HasEdge(adj, 0, 1) by {
      assert adj[0][0].toIdx == 1;
    }
    assert IsPath(adj, [0, 1]);
    forall p | IsPath(adj, p) && p[0] == 1
      ensures p[|p| - 1] == 1
    {
      PathLeaves(adj, p);
    }
  }

  /**
   * The graph that `Graph::new`, two `add_vertex` calls and one
   * `add_edge(0, 1, w)` build has the lists of `OneWayEdge`: the search
   * reaches the second point from the first and never the first from the
   * second.
   */
  method OneEdgeGraph(p: Point, q: Point, w: real) returns (g: Graph)
    ensures fresh(g) && g.Valid() && g.vertices == [p, q]
    ensures Reachable(g.adj, 0, 1) && !Reachable(g.adj, 1, 0)
  {
    g := new Graph();
    var a := g.AddVertex(p);
    var b := g.AddVertex(q);
    assert a == 0 && b == 1 && g.vertices == [p, q] && g.adj == [[], []];
    g.AddEdge(a, b, w);
    assert [] + [Edge(1, w)] == [Edge(1, w)];
    assert |g.adj| == 2 && g.adj[0] == [Edge(1, w)] && g.adj[1] == [];
    assert g.adj == [[Edge(1, w)], []];
    OneWayEdge(w);
  }

  /**
   * `dfs_path`: a path from `start` to `end` when `end` is reachable, `None`
   * exactly when it is not. The path starts at `start`, ends at `end`,
   * follows stored edges and repeats no vertex; for `start == end` it is
   * `[start]`.
   */
  method DfsPath(g: Graph, start: nat, end: nat) returns (r: Option<seq<nat>>)
    requires g.Valid() && start < |g.vertices|
    ensures r.Some? ==>
              && IsPath(g.adj, r.value) && r.value[0] == start && r.value[|r.value| - 1] == end
              && Distinct(r.value)
    ensures r.None? <==> !Reachable(g.adj, start, end)
    ensures start == end ==> r == Some([start])
  {
    var visited := new bool[|g.vertices|](_ => false);
    ghost var before := visited[..];
    var found, path := Search(g, start, end, visited, []);
    if found {
      FoundFromStart(g.adj, path, start, end, before);
      r := Some(path);
    } else {
      NothingMarkedBefore(g.adj, before, visited[..], start, end);
      r := None;
    }
  }

  /** A search from start with an empty accumulator yields a path from start to end. */
  lemma FoundFromStart(adj: seq<seq<Edge>>, p: seq<nat>, start: nat, end: nat, before: seq<bool>)
    requires FoundFrom(adj, [], p, start, end, before)
    ensures IsPath(adj, p) && p[0] == start && p[|p| - 1] == end && Distinct(p)
    ensures Reachable(adj, start, end)
  {
    assert p[0..] == p;
  }

  /**
   * A failed search that started with nothing marked leaves a
   * successor-closed set holding start and not end.
   */
  lemma NothingMarkedBefore(adj: seq<seq<Edge>>, before: seq<bool>, after: seq<bool>, start: nat, end: nat)
    requires |before| == |after| == |adj| && EdgesInRange(adj, |adj|)
    requires forall i :: 0 <= i < |before| ==> !before[i]
    requires NewlyClosed(adj, before, after) && !NewlyVisited(before, after, end)
    requires start < |after| && after[start]
    ensures !Reachable(adj, start, end)
  {
    ClosedSetBlocks(adj, after, start, end);
  }
}
