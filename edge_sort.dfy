/**
 * The weight order in which the spanning tree takes edges: a stable sort
 * by weight, as `sort_by` with a comparison on weights is. Written as an
 * insertion sort; its three properties below (ordered, a permutation,
 * equal weights kept in input order) determine the result.
 */
module EdgeSort {
  import opened Structs

  /** Weights never decrease along s. */
  ghost predicate ByWeight(s: seq<UndirectedEdge>) {
    forall i, j :: 0 <= i < j < |s| ==> s[i].weight <= s[j].weight
  }

  /** The edges of s that have weight w, in their order in s. */
  function WithWeight(s: seq<UndirectedEdge>, w: real): seq<UndirectedEdge> {
    if s == [] then []
    else (if s[0].weight == w then [s[0]] else []) + WithWeight(s[1..], w)
  }

  /** e placed before the first edge that weighs at least as much. */
  function Insert(e: UndirectedEdge, t: seq<UndirectedEdge>): (r: seq<UndirectedEdge>)
    ensures |r| == |t| + 1
  {
    if t == [] then [e]
    else if e.weight <= t[0].weight then [e] + t
    else [t[0]] + Insert(e, t[1..])
  }

  /** The edges of s by non-decreasing weight; equal weights keep their order. */
  function SortByWeight(s: seq<UndirectedEdge>): (r: seq<UndirectedEdge>)
    ensures |r| == |s|
  {
    if s == [] then [] else Insert(s[0], SortByWeight(s[1..]))
  }

  lemma {:induction false} InsertMultiset(e: UndirectedEdge, t: seq<UndirectedEdge>)
    ensures multiset(Insert(e, t)) == multiset{e} + multiset(t)
  {
    if t == [] {
      assert Insert(e, t) == [e];
    } else if e.weight <= t[0].weight {
      assert Insert(e, t) == [e] + t;
    } else {
      var rest := t[1..];
      InsertMultiset(e, rest);
      assert Insert(e, t) == [t[0]] + Insert(e, rest);
      assert t == [t[0]] + rest;
      assert multiset(Insert(e, t)) == multiset{t[0]} + multiset(Insert(e, rest));
      assert multiset(t) == multiset{t[0]} + multiset(rest);
    }
  }

  /** Filtering a sequence with a known first element. */
  lemma WithWeightCons(x: UndirectedEdge, t: seq<UndirectedEdge>, w: real)
    ensures WithWeight([x] + t, w) == (if x.weight == w then [x] else []) + WithWeight(t, w)
  {
    assert ([x] + t)[1..] == t;
  }

  lemma {:induction false} InsertWithWeight(e: UndirectedEdge, t: seq<UndirectedEdge>, w: real)
    ensures WithWeight(Insert(e, t), w) == (if e.weight == w then [e] else []) + WithWeight(t, w)
  {
    if t == [] {
      WithWeightCons(e, [], w);
      assert [e] + [] == [e];
    } else if e.weight <= t[0].weight {
      WithWeightCons(e, t, w);
    } else {
      var rest, tail := t[1..], Insert(e, t[1..]);
      assert Insert(e, t) == [t[0]] + tail;
      InsertWithWeight(e, rest, w);
      WithWeightCons(t[0], tail, w);
      WithWeightCons(t[0], rest, w);
      assert t == [t[0]] + rest;
      if e.weight == w {
        assert t[0].weight != w;
      }
    }
  }

  /** An edge no heavier than any edge of an ordered list can go in front of it. */
  lemma ConsOrdered(x: UndirectedEdge, t: seq<UndirectedEdge>)
    requires ByWeight(t) && forall y :: y in t ==> x.weight <= y.weight
    ensures ByWeight([x] + t)
  {
    var out := [x] + t;
    forall i, j | 0 <= i < j < |out| ensures out[i].weight <= out[j].weight {
      assert out[j] == t[j - 1];
      if i > 0 {
        assert out[i] == t[i - 1];
      }
    }
  }

  lemma {:induction false} InsertOrdered(e: UndirectedEdge, t: seq<UndirectedEdge>)
    requires ByWeight(t)
    ensures ByWeight(Insert(e, t))
  {
    if t == [] {
      assert Insert(e, t) == [e];
    } else if e.weight <= t[0].weight {
      assert Insert(e, t) == [e] + t;
      forall y | y in t ensures e.weight <= y.weight {
        var j :| 0 <= j < |t| && t[j] == y;
        assert t[0].weight <= t[j].weight;
      }
      ConsOrdered(e, t);
    } else {
      var rest := t[1..];
      assert ByWeight(rest) by {
        forall i, j | 0 <= i < j < |rest| ensures rest[i].weight <= rest[j].weight {
          assert rest[i] == t[i + 1] && rest[j] == t[j + 1];
        }
      }
      InsertOrdered(e, rest);
      InsertMultiset(e, rest);
      var tail := Insert(e, rest);
      assert Insert(e, t) == [t[0]] + tail;
      forall y | y in tail ensures t[0].weight <= y.weight {
        assert y in multiset(tail);
        if y != e {
          var j :| 0 <= j < |rest| && rest[j] == y;
          assert t[j + 1] == y;
        }
      }
      ConsOrdered(t[0], tail);
    }
  }

  /**
   * The sort orders by weight, loses and adds nothing, and is stable: the
   * edges of any one weight come out in their input order.
   */
  lemma {:induction false} SortByWeightSpec(s: seq<UndirectedEdge>)
    ensures ByWeight(SortByWeight(s))
    ensures multiset(SortByWeight(s)) == multiset(s)
    ensures forall w :: WithWeight(SortByWeight(s), w) == WithWeight(s, w)
  {
    if s != [] {
      var rest := SortByWeight(s[1..]);
      SortByWeightSpec(s[1..]);
      InsertOrdered(s[0], rest);
      InsertMultiset(s[0], rest);
      assert s == [s[0]] + s[1..];
      forall w ensures WithWeight(SortByWeight(s), w) == WithWeight(s, w) {
        InsertWithWeight(s[0], rest, w);
      }
    }
  }

  /** A permutation has the same members. */
  lemma SortedMembers(s: seq<UndirectedEdge>, e: UndirectedEdge)
    ensures e in SortByWeight(s) <==> e in s
  {
    SortByWeightSpec(s);
    assert e in SortByWeight(s) <==> e in multiset(SortByWeight(s));
  }

  // Weights ---------------------------------------------------------------

  /** The total weight of an edge list. */
  function Weight(s: seq<UndirectedEdge>): real {
    if s == [] then 0.0 else s[0].weight + Weight(s[1..])
  }

  /** The edges of s that weigh at most w, in their order in s. */
  function Light(s: seq<UndirectedEdge>, w: real): seq<UndirectedEdge> {
    if s == [] then []
    else (if s[0].weight <= w then [s[0]] else []) + Light(s[1..], w)
  }

  lemma {:induction false} LightAppend(a: seq<UndirectedEdge>, b: seq<UndirectedEdge>, w: real)
    ensures Light(a + b, w) == Light(a, w) + Light(b, w)
  {
    if a != [] {
      assert (a + b)[1..] == a[1..] + b && (a + b)[0] == a[0];
      LightAppend(a[1..], b, w);
      var head := if a[0].weight <= w then [a[0]] else [];
      assert Light(a + b, w) == head + (Light(a[1..], w) + Light(b, w));
    } else {
      assert a + b == b;
    }
  }

  /** The light edges are exactly the edges of s of weight at most w. */
  lemma {:induction false} LightMembers(s: seq<UndirectedEdge>, w: real, e: UndirectedEdge)
    ensures e in Light(s, w) <==> e in s && e.weight <= w
  {
    if s != [] {
      LightMembers(s[1..], w, e);
      assert s == [s[0]] + s[1..];
    }
  }

  lemma {:induction false} InsertWeight(e: UndirectedEdge, t: seq<UndirectedEdge>, w: real)
    ensures Weight(Insert(e, t)) == e.weight + Weight(t)
    ensures |Light(Insert(e, t), w)| == (if e.weight <= w then 1 else 0) + |Light(t, w)|
  {
    if t != [] && e.weight > t[0].weight {
      InsertWeight(e, t[1..], w);
      assert Insert(e, t)[1..] == Insert(e, t[1..]);
    }
  }

  /** Sorting keeps the total weight and the number of edges at most any weight. */
  lemma {:induction false} SortWeight(s: seq<UndirectedEdge>, w: real)
    ensures Weight(SortByWeight(s)) == Weight(s)
    ensures |Light(SortByWeight(s), w)| == |Light(s, w)|
  {
    if s != [] {
      SortWeight(s[1..], w);
      InsertWeight(s[0], SortByWeight(s[1..]), w);
    }
  }

  /** When the first k + 1 edges weigh at most w, more than k edges are light. */
  lemma {:induction false} LightCovers(t: seq<UndirectedEdge>, w: real, k: nat)
    requires k < |t| && forall i :: 0 <= i <= k ==> t[i].weight <= w
    ensures |Light(t, w)| > k
  {
    if k > 0 {
      LightCovers(t[1..], w, k - 1);
    }
  }

  /** When every edge from position k on weighs more than w, at most k edges are light. */
  lemma {:induction false} LightBound(t: seq<UndirectedEdge>, w: real, k: nat)
    requires k <= |t| && forall j :: k <= j < |t| ==> t[j].weight > w
    ensures |Light(t, w)| <= k
  {
    if t != [] {
      if k == 0 {
        LightBound(t[1..], w, 0);
      } else {
        LightBound(t[1..], w, k - 1);
      }
    }
  }

  /**
   * Of two weight-ordered lists of one length, the one with at least as many
   * light edges at every weight is lighter position by position.
   */
  lemma SortedPointwise(a: seq<UndirectedEdge>, b: seq<UndirectedEdge>)
    requires ByWeight(a) && ByWeight(b) && |a| == |b|
    requires forall w :: |Light(a, w)| <= |Light(b, w)|
    ensures forall k :: 0 <= k < |a| ==> b[k].weight <= a[k].weight
  {
    forall k | 0 <= k < |a| ensures b[k].weight <= a[k].weight {
      var w := a[k].weight;
      LightCovers(a, w, k);
      if b[k].weight > w {
        LightBound(b, w, k);
      }
    }
  }

  /** A list lighter position by position weighs no more in total. */
  lemma {:induction false} PointwiseWeight(a: seq<UndirectedEdge>, b: seq<UndirectedEdge>)
    requires |a| == |b| && forall k :: 0 <= k < |a| ==> b[k].weight <= a[k].weight
    ensures Weight(b) <= Weight(a)
  {
    if a != [] {
      PointwiseWeight(a[1..], b[1..]);
    }
  }
}
