/** Reference counts of DAWG nodes: the number of edges into a node, and one more for the root. */
module DawgRefCounts {
  import opened Words
  import opened DawgGraph
  import opened DawgEdit

  function LabelsTo<U>(edges: map<U, nat>, v: nat): set<U> {
    set c | c in edges && edges[c] == v
  }

  /** How many edges from the first `n` nodes enter `v`. */
  function InDegree<U, V>(g: Graph<U, V>, v: nat, n: nat): nat
    requires n <= |g|
  {
    if n == 0 then 0 else InDegree(g, v, n - 1) + |LabelsTo(g[n - 1].edges, v)|
  }

  predicate Counted<U, V>(g: Graph<U, V>, counts: seq<nat>) {
    |counts| == |g| && forall v ::
      0 <= v < |g| ==> counts[v] == InDegree(g, v, |g|) + if v == 0 then 1 else 0
  }

  lemma {:induction false} EdgeCounts<U, V>(g: Graph<U, V>, v: nat, u: nat, n: nat)
    requires u < n <= |g|
    ensures InDegree(g, v, n) >= |LabelsTo(g[u].edges, v)|
  {
    if u < n - 1 {
      EdgeCounts(g, v, u, n - 1);
    }
  }

  lemma {:induction false} TwoSourcesCount<U, V>(g: Graph<U, V>, v: nat, u: nat, x: nat, n: nat)
    requires u < x < n <= |g|
    ensures InDegree(g, v, n) >= |LabelsTo(g[u].edges, v)| + |LabelsTo(g[x].edges, v)|
  {
    if x < n - 1 {
      TwoSourcesCount(g, v, u, x, n - 1);
    } else {
      EdgeCounts(g, v, u, n - 1);
    }
  }

  lemma TwoLabels<U>(edges: map<U, nat>, v: nat, c: U, d: U)
    requires c in edges && edges[c] == v
    ensures |LabelsTo(edges, v)| >= 1
    ensures d in edges && edges[d] == v && d != c ==> |LabelsTo(edges, v)| >= 2
  {
    var s := LabelsTo(edges, v);
    assert c in s && |s - {c}| == |s| - 1;
    if d in edges && edges[d] == v && d != c {
      assert d in s - {c};
    }
  }

  /** A count of at most one means that no other edge enters the node. */
  lemma CountIsSole<U(!new), V>(g: Graph<U, V>, counts: seq<nat>, u: nat, c: U, v: nat)
    requires Counted(g, counts) && IsEdge(g, u, c, v) && 0 < v < |g| && counts[v] <= 1
    ensures SoleEntry(g, v, u, c)
  {
    forall x: nat, d | IsEdge(g, x, d, v) ensures x == u && d == c {
      TwoLabels(g[u].edges, v, c, d);
      TwoLabels(g[x].edges, v, d, c);
      EdgeCounts(g, v, u, |g|);
      if u < x {
        TwoSourcesCount(g, v, u, x, |g|);
      } else if x < u {
        TwoSourcesCount(g, v, x, u, |g|);
      }
    }
  }

  /** A node that only one edge enters has a count of at most one. */
  lemma {:induction false} SoleIsCount<U(!new), V>(g: Graph<U, V>, v: nat, u: nat, c: U, n: nat)
    requires n <= |g| && SoleEntry(g, v, u, c)
    ensures InDegree(g, v, n) <= if u < n then 1 else 0
  {
    if n > 0 {
      SoleIsCount(g, v, u, c, n - 1);
      var s := LabelsTo(g[n - 1].edges, v);
      forall d | d in s ensures n - 1 == u && d == c {
        assert IsEdge(g, n - 1, d, v);
      }
      if n - 1 == u {
        assert s <= {c};
        SubsetSize(s, {c});
      } else {
        assert s == {};
      }
    }
  }

  /** Changing the edges of one node changes the counts by that node's share. */
  lemma {:induction false} ChangeOneNode<U, V>(g: Graph<U, V>, h: Graph<U, V>, u: nat, v: nat, n: nat)
    requires n <= |g| && n <= |h| && u < |g| && u < |h|
    requires forall k :: 0 <= k < n && k != u ==> h[k].edges == g[k].edges
    ensures InDegree(h, v, n) == InDegree(g, v, n) +
      if u < n then |LabelsTo(h[u].edges, v)| - |LabelsTo(g[u].edges, v)| else 0
  {
    if n > 0 {
      ChangeOneNode(g, h, u, v, n - 1);
    }
  }

  lemma MovedLabel<U>(edges: map<U, nat>, c: U, x: nat, y: nat, v: nat)
    requires c in edges && edges[c] == x && x != y
    ensures |LabelsTo(edges[c := y], v)| == |LabelsTo(edges, v)| + (if v == y then 1 else 0) - (if v == x then 1 else 0)
  {
    var s, t := LabelsTo(edges, v), LabelsTo(edges[c := y], v);
    if v == x {
      assert t == s - {c} && c in s;
    } else if v == y {
      assert t == s + {c} && c !in s;
    } else {
      assert t == s;
    }
  }

  lemma {:induction false} NothingEnters<U(!new), V>(g: Graph<U, V>, v: nat, n: nat)
    requires WellFormed(g) && n <= |g| <= v
    ensures InDegree(g, v, n) == 0
  {
    if n > 0 {
      NothingEnters(g, v, n - 1);
      assert LabelsTo(g[n - 1].edges, v) == {};
    }
  }

  /** The counts after a shared node was copied. */
  lemma CopyCounted<U(!new), V>(g: Graph<U, V>, h: Graph<U, V>, u: nat, c: U, x: nat, counts: seq<nat>,
                                counts': seq<nat>)
    requires WellFormed(g) && Copied(g, h, u, c, x) && Counted(g, counts) && |counts'| == |h| && counts'[|g|] == 1
    requires forall t ::
      0 <= t < |g| ==> counts'[t] == counts[t] + |LabelsTo(g[x].edges, t)| - if t == x then 1 else 0
    ensures Counted(h, counts')
  {
    forall t | 0 <= t < |h| ensures counts'[t] == InDegree(h, t, |h|) + if t == 0 then 1 else 0 {
      ChangeOneNode(g, h, u, t, |g|);
      MovedLabel(g[u].edges, c, x, |g|, t);
      if t == |g| {
        NothingEnters(g, t, |g|);
        assert LabelsTo(g[x].edges, t) == {};
      }
    }
  }

  /** Counts all edges afresh. */
  method Recompute<U(!new), V>(g: Graph<U, V>) returns (counts: seq<nat>)
    requires WellFormed(g)
    ensures Counted(g, counts)
  {
    counts := seq(|g|, i => if i == 0 then 1 else 0);
    for u := 0 to |g|
      invariant |counts| == |g|
      invariant forall v ::
        0 <= v < |g| ==> counts[v] == InDegree(g, v, u) + if v == 0 then 1 else 0
    {
      counts := AddTargets(g[u].edges, counts);
    }
  }

  lemma OneMore<U>(edges: map<U, nat>, labels: set<U>, c: U, v: nat)
    requires c in labels && c in edges
    ensures |LabelsTo(edges, v) - (labels - {c})| == |LabelsTo(edges, v) - labels| + if v == edges[c] then 1 else 0
  {
    var s := LabelsTo(edges, v);
    if v == edges[c] {
      assert s - (labels - {c}) == (s - labels) + {c};
    } else {
      assert s - (labels - {c}) == s - labels;
    }
  }

  /** Adds one to the count of the target of every edge. */
  method AddTargets<U>(edges: map<U, nat>, counts: seq<nat>) returns (counts': seq<nat>)
    requires forall c :: c in edges ==> edges[c] < |counts|
    ensures |counts'| == |counts|
    ensures forall v :: 0 <= v < |counts| ==> counts'[v] == counts[v] + |LabelsTo(edges, v)|
  {
    counts' := counts;
    var labels := edges.Keys;
    forall v: nat ensures LabelsTo(edges, v) - labels == {} {
    }
    while labels != {}
      invariant labels <= edges.Keys && |counts'| == |counts|
      invariant forall v ::
        0 <= v < |counts| ==> counts'[v] == counts[v] + |LabelsTo(edges, v) - labels|
    {
      var c :| c in labels;
      forall v: nat
        ensures |LabelsTo(edges, v) - (labels - {c})| == |LabelsTo(edges, v) - labels| + if v == edges[c] then 1 else 0
      {
        OneMore(edges, labels, c, v);
      }
      counts' := counts'[edges[c] := counts'[edges[c]] + 1];
      labels := labels - {c};
    }
    forall v: nat ensures LabelsTo(edges, v) - labels == LabelsTo(edges, v) {
    }
  }
}
