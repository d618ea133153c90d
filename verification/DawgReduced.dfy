/** Merging, redirecting and dropping unreachable nodes: what stays, and when the outcome has no twins. */
module DawgReduced {
  import opened Words
  import opened Renumbering
  import opened DawgGraph
  import opened DawgMerge
  import opened DawgEdit
  import opened DawgMinimal
  import opened DawgSignatures

  // ---- Reachable nodes ----

  /** Marks the nodes that paths from the root enter. */
  method FindReachable<U(!new), V>(g: Graph<U, V>) returns (reachable: set<nat>)
    requires WellFormed(g)
    ensures forall v: nat {:trigger v in reachable} :: v in reachable <==> v < |g| && Live(g, v)
  {
    reachable := {};
    var pending: seq<nat> := [0];
    ghost var all := set v: nat {:trigger g[v]} | v < |g|;
    assert Leads(g, 0, [], 0);
    while pending != []
      invariant forall v: nat {:trigger v in pending} :: v in pending ==> v < |g| && Live(g, v)
      invariant reachable <= all && forall v: nat {:trigger v in reachable} :: v in reachable ==> Live(g, v)
      invariant 0 in reachable || 0 in pending
      invariant forall v, c {:trigger g[v].edges[c]} :: 0 <= v < |g| && v in reachable && c in g[v].edges ==>
        g[v].edges[c] in reachable || g[v].edges[c] in pending
      decreases all - reachable, |pending|
    {
      var current := pending[|pending| - 1];
      var rest := pending[..|pending| - 1];
      assert current in pending && forall v {:trigger v in rest} :: v in rest ==> v in pending;
      assert forall v {:trigger v in pending} :: v in pending ==> v in rest || v == current;
      if current in reachable {
        pending := rest;
      } else {
        var targets := Targets(g[current].edges);
        forall v | v in targets ensures v < |g| && Live(g, v) {
          var c :| c in g[current].edges && g[current].edges[c] == v;
          ChildLive(g, current, c);
        }
        pending := rest + targets;
        reachable := reachable + {current};
        assert forall v {:trigger v in pending} :: v in pending <==> v in rest || v in targets;
      }
    }
    forall v: nat | v < |g| && Live(g, v) ensures v in reachable {
      var w :| Leads(g, 0, w, v);
      ClosedLive(g, reachable, 0, w, v);
    }
  }

  function RedirectNode<U, V>(n: Node<U, V>, m: seq<nat>): (n': Node<U, V>)
    requires forall c :: c in n.edges ==> n.edges[c] < |m|
    ensures RedirectedNode(n, n', m)
  {
    n.(edges := map c | c in n.edges :: m[n.edges[c]])
  }

  /** The listed nodes with their edges redirected by `m`. */
  method RedirectAll<U, V>(g: Graph<U, V>, kept: seq<nat>, m: seq<nat>) returns (h: seq<Node<U, V>>)
    requires WellFormed(g) && |m| == |g| && forall i :: 0 <= i < |kept| ==> kept[i] < |g|
    ensures |h| == |kept|
    ensures forall i :: 0 <= i < |h| ==> RedirectedNode(g[kept[i]], h[i], m)
  {
    h := [];
    for i := 0 to |kept|
      invariant |h| == i
      invariant forall j :: 0 <= j < i ==> RedirectedNode(g[kept[j]], h[j], m)
    {
      h := h + [RedirectNode(g[kept[i]], m)];
    }
  }

  /** Edges of a redirected node lead where `m` says. */
  lemma RedirectedTargets<U, V>(n: Node<U, V>, n': Node<U, V>, m: seq<nat>, c: U)
    requires RedirectedNode(n, n', m) && c in n'.edges
    ensures c in n.edges && n.edges[c] < |m| && n'.edges[c] == m[n.edges[c]]
  {
    assert n'.edges.Keys == n.edges.Keys;
  }

  /** The kept nodes are exactly the live ones. */
  ghost predicate KeepsLive<U(!new), V>(g: Graph<U, V>, kept: seq<nat>)
    requires WellFormed(g)
  {
    && (forall i :: 0 <= i < |kept| ==> kept[i] < |g| && Live(g, kept[i]))
    && (forall i, j :: 0 <= i < j < |kept| ==> kept[i] < kept[j])
    && (forall v {:trigger Live(g, v)} :: 0 <= v < |g| && Live(g, v) ==> v in kept)
  }

  /** Keeps the nodes that paths from the root enter. */
  method Compacted<U(!new), V>(g: Graph<U, V>) returns (h: seq<Node<U, V>>, kept: seq<nat>, index: seq<nat>)
    requires WellFormed(g)
    ensures WellFormed(h) && Renumbered(g, h, kept, index) && |h| <= |g| && KeepsLive(g, kept)
  {
    var reachable := FindReachable(g);
    assert Leads(g, 0, [], 0) && 0 in reachable;
    kept, index := Number(|g|, reachable);
    h := RedirectAll(g, kept, index);
    forall i, c {:trigger g[kept[i]].edges[c]} | 0 <= i < |kept| && c in g[kept[i]].edges
      ensures index[g[kept[i]].edges[c]] < |kept| && kept[index[g[kept[i]].edges[c]]] == g[kept[i]].edges[c]
    {
      ChildLive(g, kept[i], c);
      assert g[kept[i]].edges[c] in reachable;
    }
    forall i, c | 0 <= i < |h| && c in h[i].edges ensures h[i].edges[c] < |h| {
      RedirectedTargets(g[kept[i]], h[i], index, c);
    }
    forall v | 0 <= v < |g| && Live(g, v) ensures v in kept {
      assert v in reachable && kept[index[v]] == v;
    }
  }

  // ---- Paths after renumbering ----

  lemma {:induction false} RenumberLeads<U(!new), V>(g: Graph<U, V>, h: Graph<U, V>, kept: seq<nat>, index: seq<nat>,
        i: nat, w: seq<U>, u: nat)
    requires WellFormed(g) && WellFormed(h) && Renumbered(g, h, kept, index) && i < |h| && Leads(g, kept[i], w, u)
    ensures u < |g| && index[u] < |h| && kept[index[u]] == u && Leads(h, i, w, index[u])
    decreases |w|
  {
    assert RedirectedNode(g[kept[i]], h[i], index);
    if w != [] {
      RenumberLeads(g, h, kept, index, index[g[kept[i]].edges[w[0]]], w[1..], u);
    }
  }

  lemma {:induction false} RenumberBack<U(!new), V>(g: Graph<U, V>, h: Graph<U, V>, kept: seq<nat>, index: seq<nat>,
        i: nat, w: seq<U>, j: nat)
    requires WellFormed(g) && WellFormed(h) && Renumbered(g, h, kept, index) && i < |h| && Leads(h, i, w, j)
    ensures j < |h| && Leads(g, kept[i], w, kept[j])
    decreases |w|
  {
    assert RedirectedNode(g[kept[i]], h[i], index);
    if w != [] {
      RenumberBack(g, h, kept, index, h[i].edges[w[0]], w[1..], j);
    }
  }

  lemma RenumberLive<U(!new), V>(g: Graph<U, V>, h: Graph<U, V>, kept: seq<nat>, index: seq<nat>, i: nat)
    requires WellFormed(g) && WellFormed(h) && Renumbered(g, h, kept, index) && i < |h| && Live(g, kept[i])
    ensures Live(h, i)
  {
    var w :| Leads(g, 0, w, kept[i]);
    RenumberLeads(g, h, kept, index, 0, w, kept[i]);
  }

  lemma RenumberTwins<U(!new), V>(g: Graph<U, V>, h: Graph<U, V>, kept: seq<nat>, index: seq<nat>, i: nat, j: nat)
    requires WellFormed(g) && WellFormed(h) && Renumbered(g, h, kept, index) && i < |h| && j < |h|
    ensures Twins(h, i, j) <==> Twins(g, kept[i], kept[j])
  {
    if Twins(h, i, j) {
      forall w ensures Accepts(g, kept[i], w) == Accepts(g, kept[j], w) {
        RenumberObserve(g, h, kept, index, i, w);
        RenumberObserve(g, h, kept, index, j, w);
        assert Accepts(h, i, w) == Accepts(h, j, w);
      }
      forall w, x: nat | x < |g| && g[x].value != None ensures Leads(g, kept[i], w, x) == Leads(g, kept[j], w, x) {
        RenumberTwinLeads(g, h, kept, index, i, j, w, x);
        RenumberTwinLeads(g, h, kept, index, j, i, w, x);
      }
    }
    if Twins(g, kept[i], kept[j]) {
      forall w ensures Accepts(h, i, w) == Accepts(h, j, w) {
        RenumberObserve(g, h, kept, index, i, w);
        RenumberObserve(g, h, kept, index, j, w);
        assert Accepts(g, kept[i], w) == Accepts(g, kept[j], w);
      }
      forall w, x: nat | x < |h| && h[x].value != None ensures Leads(h, i, w, x) == Leads(h, j, w, x) {
        RenumberTwinBack(g, h, kept, index, i, j, w, x);
        RenumberTwinBack(g, h, kept, index, j, i, w, x);
      }
    }
  }

  lemma RenumberTwinLeads<U(!new), V>(g: Graph<U, V>, h: Graph<U, V>, kept: seq<nat>, index: seq<nat>, i: nat, j: nat,
                                      w: seq<U>, x: nat)
    requires WellFormed(g) && WellFormed(h) && Renumbered(g, h, kept, index) && i < |h| && j < |h|
    requires Twins(h, i, j) && x < |g| && g[x].value != None
    ensures Leads(g, kept[i], w, x) ==> Leads(g, kept[j], w, x)
  {
    if Leads(g, kept[i], w, x) {
      RenumberLeads(g, h, kept, index, i, w, x);
      assert RedirectedNode(g[kept[index[x]]], h[index[x]], index);
      assert Leads(h, j, w, index[x]);
      RenumberBack(g, h, kept, index, j, w, index[x]);
    }
  }

  lemma RenumberTwinBack<U(!new), V>(g: Graph<U, V>, h: Graph<U, V>, kept: seq<nat>, index: seq<nat>, i: nat, j: nat,
                                     w: seq<U>, x: nat)
    requires WellFormed(g) && WellFormed(h) && Renumbered(g, h, kept, index) && i < |h| && j < |h|
    requires Twins(g, kept[i], kept[j]) && x < |h| && h[x].value != None
    ensures Leads(h, i, w, x) ==> Leads(h, j, w, x)
  {
    if Leads(h, i, w, x) {
      RenumberBack(g, h, kept, index, i, w, x);
      assert RedirectedNode(g[kept[x]], h[x], index);
      assert Leads(g, kept[j], w, kept[x]);
      RenumberLeads(g, h, kept, index, j, w, kept[x]);
    }
  }

  // ---- Paths after redirecting ----

  /** A path that enters a node now enters its image. */
  lemma {:induction false} RedirectLeads<U(!new), V>(g: Graph<U, V>, m: seq<nat>, h: Graph<U, V>, v: nat, w: seq<U>,
        u: nat)
    requires WellFormed(g) && WellFormed(h) && Congruence(g, m) && Redirected(g, m, h) && v < |g| && Leads(g, v, w, u)
    ensures u < |g| && if w == [] then Leads(h, v, w, u) else Leads(h, v, w, m[u])
    decreases |w|
  {
    assert RedirectedNode(g[v], h[v], m);
    if w != [] {
      var t := g[v].edges[w[0]];
      CongruentPath(g, m, t, m[t], w[1..], u);
      var u': nat :| u' < |g| && Leads(g, m[t], w[1..], u') && m[u'] == m[u];
      RedirectLeads(g, m, h, m[t], w[1..], u');
    }
  }

  /** From a node with the same image the same word leads to a node with the same image. */
  lemma {:induction false} CongruentPath<U(!new), V>(g: Graph<U, V>, m: seq<nat>, v: nat, t: nat, w: seq<U>, u: nat)
    requires WellFormed(g) && Congruence(g, m) && v < |g| && t < |g| && m[v] == m[t] && Leads(g, v, w, u)
    ensures u < |g| && exists u': nat :: u' < |g| && Leads(g, t, w, u') && m[u'] == m[u]
    decreases |w|
  {
    if w == [] {
      assert Leads(g, t, w, t);
    } else {
      assert Alike(g, m, v, m[v]) && Alike(g, m, t, m[t]);
      CongruentPath(g, m, g[v].edges[w[0]], g[t].edges[w[0]], w[1..], u);
      var u': nat :| u' < |g| && Leads(g, g[t].edges[w[0]], w[1..], u') && m[u'] == m[u];
      assert Leads(g, t, w, u');
    }
  }

  /** A path of the redirected graph enters the image of what it entered before. */
  lemma {:induction false} RedirectBack<U(!new), V>(g: Graph<U, V>, m: seq<nat>, h: Graph<U, V>, v: nat, w: seq<U>,
        u: nat)
    requires WellFormed(g) && WellFormed(h) && Congruence(g, m) && Redirected(g, m, h) && v < |g| && Leads(h, v, w, u)
    requires w != []
    ensures exists u': nat :: u' < |g| && Leads(g, v, w, u') && m[u'] == u
    decreases |w|
  {
    assert RedirectedNode(g[v], h[v], m);
    var t := g[v].edges[w[0]];
    if w[1..] == [] {
      assert Leads(g, v, w, t);
    } else {
      RedirectBack(g, m, h, m[t], w[1..], u);
      var x: nat :| x < |g| && Leads(g, m[t], w[1..], x) && m[x] == u;
      CongruentPath(g, m, m[t], t, w[1..], x);
      var u': nat :| u' < |g| && Leads(g, t, w[1..], u') && m[u'] == m[x];
      assert Leads(g, v, w, u');
    }
  }

  /** Paths to valued nodes are what they were. */
  lemma {:induction false} RedirectValued<U(!new), V>(g: Graph<U, V>, sig: seq<nat>, m: seq<nat>, h: Graph<U, V>,
        v: nat, w: seq<U>, x: nat)
    requires WellFormed(g) && WellFormed(h) && MergedFrom(g, sig, m, 0) && Redirected(g, m, h)
    requires v < |g| && x < |g| && g[x].value != None
    ensures Leads(h, v, w, x) == Leads(g, v, w, x)
    decreases |w|
  {
    assert RedirectedNode(g[v], h[v], m);
    if w != [] && w[0] in g[v].edges {
      MergedCongruence(g, sig, m);
      var t := g[v].edges[w[0]];
      RedirectValued(g, sig, m, h, m[t], w[1..], x);
      CongruentLeads(g, sig, m, m[t], t, w[1..], x);
    }
  }

  lemma RedirectTwins<U(!new), V>(g: Graph<U, V>, sig: seq<nat>, m: seq<nat>, h: Graph<U, V>, u: nat, v: nat)
    requires WellFormed(g) && WellFormed(h) && MergedFrom(g, sig, m, 0) && Redirected(g, m, h) && u < |g| && v < |g|
    ensures Twins(h, u, v) <==> Twins(g, u, v)
  {
    MergedCongruence(g, sig, m);
    forall w ensures Accepts(h, u, w) == Accepts(g, u, w) && Accepts(h, v, w) == Accepts(g, v, w) {
      RedirectObserve(g, m, h, u, w);
      RedirectObserve(g, m, h, v, w);
    }
    forall x: nat | x < |g| ensures g[x].value == h[x].value {
      assert RedirectedNode(g[x], h[x], m);
    }
    forall w, x: nat | x < |g| && g[x].value != None
      ensures Leads(h, u, w, x) == Leads(g, u, w, x) && Leads(h, v, w, x) == Leads(g, v, w, x)
    {
      RedirectValued(g, sig, m, h, u, w, x);
      RedirectValued(g, sig, m, h, v, w, x);
    }
  }

  // ---- The outcome ----

  ghost predicate AllLive<U(!new), V>(g: Graph<U, V>)
    requires WellFormed(g)
  {
    forall v :: 0 <= v < |g| ==> Live(g, v)
  }

  /** No two nodes are twins. */
  ghost predicate TwinFree<U(!new), V>(g: Graph<U, V>)
    requires WellFormed(g)
  {
    forall u, v :: 0 <= u < |g| && 0 <= v < |g| && Twins(g, u, v) ==> u == v
  }

  /** No two nodes have the same right language. */
  ghost predicate Minimal<U(!new), V>(g: Graph<U, V>)
    requires WellFormed(g)
  {
    forall u, v :: 0 <= u < |g| && 0 <= v < |g| && SameLanguage(g, u, v) ==> u == v
  }

  /** A path leads from `v` to a node with a value. */
  ghost predicate ReachesValue<U(!new), V>(g: Graph<U, V>, v: nat)
    requires WellFormed(g) && v < |g|
  {
    exists w, x: nat :: Leads(g, v, w, x) && x < |g| && g[x].value != None
  }

  /** Two nodes have the same right language only if a value lies below one of them. */
  ghost predicate MinimalButValues<U(!new), V>(g: Graph<U, V>)
    requires WellFormed(g)
  {
    forall u, v {:trigger SameLanguage(g, u, v)} :: 0 <= u < |g| && 0 <= v < |g| && SameLanguage(g, u, v) ==>
      u == v || ReachesValue(g, u) || ReachesValue(g, v)
  }

  /** Below different live twins there is no value. */
  lemma TwinsReachNone<U(!new), V>(g: Graph<U, V>, u: nat, v: nat)
    requires WellFormed(g) && ValuesOnce(g) && u < |g| && v < |g| && Live(g, u) && Live(g, v) && Twins(g, u, v)
    requires u != v
    ensures !ReachesValue(g, u) && !ReachesValue(g, v)
  {
    var s :| Leads(g, 0, s, u);
    var t :| Leads(g, 0, t, v);
    if ReachesValue(g, u) || ReachesValue(g, v) {
      var w, x: nat :| Leads(g, u, w, x) && x < |g| && g[x].value != None;
      LeadsAfter(g, 0, s, u, w, x);
      LeadsAfter(g, 0, t, v, w, x);
      assert |s + w| == |t + w| && s == (s + w)[..|s|] && t == (t + w)[..|t|];
      LeadsOne(g, 0, s, u, v);
    }
  }

  /** What it means that no twins are left. */
  lemma TwinFreeMeans<U(!new), V>(g: Graph<U, V>)
    requires WellFormed(g) && AllLive(g) && ValuesOnce(g)
    ensures TwinFree(g) <==> MinimalButValues(g)
  {
    forall u, v | 0 <= u < |g| && 0 <= v < |g| && u != v
      ensures Twins(g, u, v) <==> SameLanguage(g, u, v) && !ReachesValue(g, u) && !ReachesValue(g, v)
    {
      if Twins(g, u, v) {
        TwinsReachNone(g, u, v);
      }
    }
  }

  /** Without values the graph is then minimal. */
  lemma ValueFreeMinimal<U(!new), V>(g: Graph<U, V>)
    requires WellFormed(g) && ValueFree(g)
    ensures Minimal(g) <==> MinimalButValues(g)
  {
    forall v | 0 <= v < |g| ensures !ReachesValue(g, v) {
    }
  }

  /** The merged graph `h`, with its live nodes numbered in `k`. */
  ghost predicate Reduced<U(!new), V>(g: Graph<U, V>, sig: seq<nat>, m: seq<nat>, h: Graph<U, V>, k: Graph<U, V>,
                                      kept: seq<nat>, index: seq<nat>) {
    && WellFormed(g) && MergedFrom(g, sig, m, 0)
    && WellFormed(h) && Redirected(g, m, h)
    && WellFormed(k) && Renumbered(h, k, kept, index) && KeepsLive(h, kept)
  }

  /** Every node but the root is the image of a live node, and itself live. */
  lemma KeptIsImage<U(!new), V>(g: Graph<U, V>, sig: seq<nat>, m: seq<nat>, h: Graph<U, V>, u: nat) returns (x: nat)
    requires WellFormed(g) && MergedFrom(g, sig, m, 0) && WellFormed(h) && Redirected(g, m, h)
    requires NoReturn(g) && Tidy(g) && 0 < u < |h| && Live(h, u)
    ensures 0 < x < |g| && Live(g, x) && m[x] == u && m[u] == u && Live(g, u)
  {
    MergedCongruence(g, sig, m);
    var w :| Leads(h, 0, w, u);
    RedirectBack(g, m, h, 0, w, u);
    x :| x < |g| && Leads(g, 0, w, x) && m[x] == u;
    NotReturned(g, w, x);
    ImageLive(g, sig, m, x);
  }

  lemma NotReturned<U(!new), V>(g: Graph<U, V>, w: seq<U>, x: nat)
    requires WellFormed(g) && NoReturn(g) && Leads(g, 0, w, x) && w != []
    ensures x != 0
  {
    var s, c := Unsnoc(w);
    var t := LeadsUnsnoc(g, 0, s, c, x);
    assert !IsEdge(g, t, c, 0);
  }

  /** The image of a live node is live. */
  lemma ImageKept<U(!new), V>(g: Graph<U, V>, sig: seq<nat>, m: seq<nat>, h: Graph<U, V>, u: nat)
    requires WellFormed(g) && MergedFrom(g, sig, m, 0) && WellFormed(h) && Redirected(g, m, h) && 0 < u < |g|
    requires Live(g, u)
    ensures m[u] < |h| && Live(h, m[u])
  {
    MergedCongruence(g, sig, m);
    var w :| Leads(g, 0, w, u);
    RedirectLeads(g, m, h, 0, w, u);
  }

  /** If merging joined all twins, none are left. */
  lemma MergedTwinFree<U(!new), V>(g: Graph<U, V>, sig: seq<nat>, m: seq<nat>, h: Graph<U, V>, k: Graph<U, V>,
                                   kept: seq<nat>, index: seq<nat>)
    requires Reduced(g, sig, m, h, k, kept, index) && NoReturn(g) && Tidy(g) && Acyclic(g) && MergesTwins(g, m)
    ensures TwinFree(k)
  {
    forall i, j | 0 <= i < |k| && 0 <= j < |k| && Twins(k, i, j) ensures i == j {
      RenumberTwins(h, k, kept, index, i, j);
      RedirectTwins(g, sig, m, h, kept[i], kept[j]);
      var u, v := kept[i], kept[j];
      if u > 0 {
        var x := KeptIsImage(g, sig, m, h, u);
        if v == 0 {
          RootDiffers(g, u);
        }
      }
      if v > 0 {
        var y := KeptIsImage(g, sig, m, h, v);
        if u == 0 {
          RootDiffers(g, v);
        }
      }
      assert u == v;
    }
  }

  /** If no twins are left, merging joined them all. */
  lemma TwinFreeMerged<U(!new), V>(g: Graph<U, V>, sig: seq<nat>, m: seq<nat>, h: Graph<U, V>, k: Graph<U, V>,
                                   kept: seq<nat>, index: seq<nat>)
    requires Reduced(g, sig, m, h, k, kept, index) && Tidy(g) && TwinFree(k)
    ensures MergesTwins(g, m)
  {
    forall u, v | 0 < u < |g| && 0 < v < |g| && Live(g, u) && Live(g, v) && Twins(g, u, v) ensures m[u] == m[v] {
      ImageLive(g, sig, m, u);
      ImageLive(g, sig, m, v);
      TwinsTrans(g, m[u], u, v);
      TwinsTrans(g, m[u], v, m[v]);
      ImageKept(g, sig, m, h, u);
      ImageKept(g, sig, m, h, v);
      var i :| 0 <= i < |kept| && kept[i] == m[u];
      var j :| 0 <= j < |kept| && kept[j] == m[v];
      RedirectTwins(g, sig, m, h, m[u], m[v]);
      RenumberTwins(h, k, kept, index, i, j);
    }
  }

  /** The outcome has no twins if and only if the numbering was aligned. */
  lemma ReducedExactly<U(!new), V>(g: Graph<U, V>, sig: seq<nat>, hash: (bool, map<U, nat>) -> nat, m: seq<nat>,
                                   h: Graph<U, V>, k: Graph<U, V>, kept: seq<nat>, index: seq<nat>)
    requires Reduced(g, sig, m, h, k, kept, index) && NoReturn(g) && Tidy(g) && Acyclic(g) && Signed(g, sig, hash)
    ensures TwinFree(k) <==> Aligned(g)
  {
    MergesExactly(g, sig, hash, m);
    if MergesTwins(g, m) {
      MergedTwinFree(g, sig, m, h, k, kept, index);
    }
    if TwinFree(k) {
      TwinFreeMerged(g, sig, m, h, k, kept, index);
    }
  }

  /** All nodes of the outcome are live, and all but the root lead to a final node. */
  lemma ReducedTidy<U(!new), V>(g: Graph<U, V>, sig: seq<nat>, m: seq<nat>, h: Graph<U, V>, k: Graph<U, V>,
                                kept: seq<nat>, index: seq<nat>)
    requires Reduced(g, sig, m, h, k, kept, index) && NoReturn(g) && Tidy(g)
    ensures AllLive(k) && Tidy(k)
  {
    MergedCongruence(g, sig, m);
    forall i | 0 <= i < |k| ensures Live(k, i) {
      RenumberLive(h, k, kept, index, i);
    }
    forall i | 0 < i < |k| ensures TidyNode(k, i) {
      var x := KeptIsImage(g, sig, m, h, kept[i]);
      assert TidyNode(g, kept[i]);
      var w :| Accepts(g, kept[i], w);
      RedirectObserve(g, m, h, kept[i], w);
      RenumberObserve(h, k, kept, index, i, w);
      assert Accepts(k, i, w);
    }
  }

  /** No edge enters the root, and what was said of values still holds. */
  lemma ReducedShape<U(!new), V>(g: Graph<U, V>, sig: seq<nat>, m: seq<nat>, h: Graph<U, V>, k: Graph<U, V>,
                                 kept: seq<nat>, index: seq<nat>)
    requires Reduced(g, sig, m, h, k, kept, index) && NoReturn(g) && ValuesFinal(g) && ValuesOnce(g)
    ensures NoReturn(k) && ValuesFinal(k) && ValuesOnce(k) && (ValueFree(g) ==> ValueFree(k))
  {
    forall i: nat, c ensures !IsEdge(k, i, c, 0) {
      if i < |k| && c in k[i].edges {
        assert RedirectedNode(h[kept[i]], k[i], index) && RedirectedNode(g[kept[i]], h[kept[i]], m);
        RedirectedTargets(h[kept[i]], k[i], index, c);
        RedirectedTargets(g[kept[i]], h[kept[i]], m, c);
        assert !IsEdge(g, kept[i], c, 0);
        assert NodeMerged(g, sig, m, g[kept[i]].edges[c]);
      }
    }
    forall i | 0 <= i < |k| ensures k[i].value == g[kept[i]].value && k[i].isFinal == g[kept[i]].isFinal {
      assert RedirectedNode(h[kept[i]], k[i], index) && RedirectedNode(g[kept[i]], h[kept[i]], m);
    }
    forall w, z, i: nat | i < |k| && k[i].value != None && Leads(k, 0, w, i) && Leads(k, 0, z, i) ensures w == z {
      RenumberBack(h, k, kept, index, 0, w, i);
      RenumberBack(h, k, kept, index, 0, z, i);
      RedirectValued(g, sig, m, h, 0, w, kept[i]);
      RedirectValued(g, sig, m, h, 0, z, kept[i]);
    }
  }

  /** Merges nodes, redirects edges and drops what no path enters. */
  method Minimized<U(!new), V>(g: Graph<U, V>, hash: (bool, map<U, nat>) -> nat) returns (k: seq<Node<U, V>>)
    requires WellFormed(g) && NoReturn(g) && ValuesFinal(g) && ValuesOnce(g) && Tidy(g) && Acyclic(g)
    ensures WellFormed(k) && NoReturn(k) && ValuesFinal(k) && ValuesOnce(k) && Tidy(k)
    ensures |k| <= |g| && SameObserve(g, k) && AllLive(k) && (ValueFree(g) ==> ValueFree(k))
    ensures MinimalButValues(k) <==> Aligned(g)
  {
    var sig := ComputeSignatures(g, hash);
    var m := MergeNodes(g, sig);
    MergedCongruence(g, sig, m);
    var h := RedirectAll(g, seq(|g|, i requires 0 <= i < |g| => i), m);
    forall v, c | 0 <= v < |h| && c in h[v].edges ensures h[v].edges[c] < |h| {
      RedirectedTargets(g[v], h[v], m, c);
    }
    var kept, index;
    k, kept, index := Compacted(h);
    forall w ensures Observe(k, 0, w) == Observe(g, 0, w) {
      RenumberObserve(h, k, kept, index, 0, w);
      RedirectObserve(g, m, h, 0, w);
    }
    assert Reduced(g, sig, m, h, k, kept, index);
    ReducedTidy(g, sig, m, h, k, kept, index);
    ReducedShape(g, sig, m, h, k, kept, index);
    ReducedExactly(g, sig, hash, m, h, k, kept, index);
    TwinFreeMeans(k);
  }
}
