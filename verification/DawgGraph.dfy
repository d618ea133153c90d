/**
 The index-addressed graph of a DAWG. Node 0 is the root; every node has edges by label, a
 final flag and an optional value. Reading a word observes the final flag and the value of
 the node it leads to.
 */
module DawgGraph {
  import opened Words

  datatype Node<U(==), V(==)> = Node(edges: map<U, nat>, isFinal: bool, value: Option<V>)

  type Graph<U(==), V(==)> = seq<Node<U, V>>

  predicate WellFormed<U, V>(g: Graph<U, V>) {
    |g| > 0 && forall v, c :: 0 <= v < |g| && c in g[v].edges ==> g[v].edges[c] < |g|
  }

  /** What reading `w` from node `v` ends with: the final flag and the value, if the path exists. */
  function Observe<U, V>(g: Graph<U, V>, v: nat, w: seq<U>): (r: Option<(bool, Option<V>)>)
    requires WellFormed(g) && v < |g|
    decreases |w|
  {
    if w == [] then Some((g[v].isFinal, g[v].value))
    else if w[0] in g[v].edges then Observe(g, g[v].edges[w[0]], w[1..])
    else None
  }

  /** The right language of `v`: the words that lead from it to a final node. */
  predicate Accepts<U, V>(g: Graph<U, V>, v: nat, w: seq<U>)
    requires WellFormed(g) && v < |g|
  {
    Observe(g, v, w).Some? && Observe(g, v, w).value.0
  }

  ghost predicate SameLanguage<U(!new), V>(g: Graph<U, V>, u: nat, v: nat)
    requires WellFormed(g) && u < |g| && v < |g|
  {
    forall w :: Accepts(g, u, w) == Accepts(g, v, w)
  }

  /** A path labelled `w` leads from `v` to `u`. */
  predicate Leads<U(==), V>(g: Graph<U, V>, v: nat, w: seq<U>, u: nat)
    requires WellFormed(g) && v < |g|
    decreases |w|
  {
    if w == [] then u == v
    else w[0] in g[v].edges && Leads(g, g[v].edges[w[0]], w[1..], u)
  }

  ghost predicate Live<U(!new), V>(g: Graph<U, V>, u: nat)
    requires WellFormed(g)
  {
    exists w :: Leads(g, 0, w, u)
  }

  lemma {:induction false} LeadsInside<U, V>(g: Graph<U, V>, v: nat, w: seq<U>, u: nat)
    requires WellFormed(g) && v < |g| && Leads(g, v, w, u)
    ensures u < |g|
    decreases |w|
  {
    if w != [] {
      LeadsInside(g, g[v].edges[w[0]], w[1..], u);
    }
  }

  /** A word leads to at most one node. */
  lemma {:induction false} LeadsOne<U, V>(g: Graph<U, V>, v: nat, w: seq<U>, x: nat, y: nat)
    requires WellFormed(g) && v < |g| && Leads(g, v, w, x)
    ensures Leads(g, v, w, y) ==> x == y
    decreases |w|
  {
    if w != [] && Leads(g, v, w, y) {
      LeadsOne(g, g[v].edges[w[0]], w[1..], x, y);
    }
  }

  /** Reading goes on from where a path leads. */
  lemma {:induction false} ObserveAfter<U, V>(g: Graph<U, V>, v: nat, w: seq<U>, u: nat, x: seq<U>)
    requires WellFormed(g) && v < |g| && Leads(g, v, w, u) && u < |g|
    ensures Observe(g, v, w + x) == Observe(g, u, x)
    decreases |w|
  {
    if w == [] {
      assert w + x == x;
    } else {
      assert (w + x)[1..] == w[1..] + x;
      ObserveAfter(g, g[v].edges[w[0]], w[1..], u, x);
    }
  }

  lemma {:induction false} LeadsAfter<U, V>(g: Graph<U, V>, v: nat, w: seq<U>, u: nat, x: seq<U>, t: nat)
    requires WellFormed(g) && v < |g| && Leads(g, v, w, u) && u < |g| && Leads(g, u, x, t)
    ensures Leads(g, v, w + x, t)
    decreases |w|
  {
    if w == [] {
      assert w + x == x;
    } else {
      assert (w + x)[1..] == w[1..] + x;
      LeadsAfter(g, g[v].edges[w[0]], w[1..], u, x, t);
    }
  }

  lemma ChildLive<U(!new), V>(g: Graph<U, V>, v: nat, c: U)
    requires WellFormed(g) && v < |g| && Live(g, v) && c in g[v].edges
    ensures Live(g, g[v].edges[c])
  {
    var w :| Leads(g, 0, w, v);
    var u := g[v].edges[c];
    assert Leads(g, u, [c][1..], u);
    assert Leads(g, v, [c], u);
    LeadsAfter(g, 0, w, v, [c], u);
  }

  /** Nodes that are not final carry no value. */
  predicate ValuesFinal<U, V>(g: Graph<U, V>) {
    forall v :: 0 <= v < |g| && !g[v].isFinal ==> g[v].value == None
  }

  ghost predicate SameObserve<U(!new), V>(g: Graph<U, V>, h: Graph<U, V>)
    requires WellFormed(g) && WellFormed(h)
  {
    forall w :: Observe(h, 0, w) == Observe(g, 0, w)
  }

  // ---- Redirecting edges along a congruence ----

  /** `u` and `v` agree on flag, value and labels, and `m` sends their children to the same nodes. */
  predicate Alike<U, V>(g: Graph<U, V>, m: seq<nat>, u: nat, v: nat)
    requires WellFormed(g) && |m| == |g| && u < |g| && v < |g|
  {
    && g[u].isFinal == g[v].isFinal && g[u].value == g[v].value && g[u].edges.Keys == g[v].edges.Keys
    && forall c ::
      c in g[u].edges ==> m[g[u].edges[c]] == m[g[v].edges[c]]
  }

  /** Every node is like the node it is mapped to. */
  predicate Congruence<U, V>(g: Graph<U, V>, m: seq<nat>)
    requires WellFormed(g)
  {
    && |m| == |g|
    && (forall v :: 0 <= v < |g| ==> m[v] < |g| && m[m[v]] == m[v])
    && (forall v :: 0 <= v < |g| ==> Alike(g, m, v, m[v]))
  }

  /** Nodes with the same image cannot be told apart. */
  lemma {:induction false} CongruentObserve<U, V>(g: Graph<U, V>, m: seq<nat>, u: nat, v: nat, w: seq<U>)
    requires WellFormed(g) && Congruence(g, m) && u < |g| && v < |g| && m[u] == m[v]
    ensures Observe(g, u, w) == Observe(g, v, w)
    decreases |w|
  {
    assert Alike(g, m, u, m[u]) && Alike(g, m, v, m[v]);
    if w != [] && w[0] in g[u].edges {
      CongruentObserve(g, m, g[u].edges[w[0]], g[v].edges[w[0]], w[1..]);
    }
  }

  predicate RedirectedNode<U, V>(n: Node<U, V>, n': Node<U, V>, m: seq<nat>) {
    && n'.isFinal == n.isFinal && n'.value == n.value && n'.edges.Keys == n.edges.Keys
    && forall c ::
      c in n.edges ==> n.edges[c] < |m| && n'.edges[c] == m[n.edges[c]]
  }

  /** `h` is `g` with every edge redirected to the image of its target. */
  predicate Redirected<U, V>(g: Graph<U, V>, m: seq<nat>, h: Graph<U, V>) {
    |h| == |g| && forall v :: 0 <= v < |g| ==> RedirectedNode(g[v], h[v], m)
  }

  /** Redirecting along a congruence changes nothing that can be observed, at any node. */
  lemma {:induction false} RedirectObserve<U, V>(g: Graph<U, V>, m: seq<nat>, h: Graph<U, V>, v: nat, w: seq<U>)
    requires WellFormed(g) && Congruence(g, m) && Redirected(g, m, h) && WellFormed(h) && v < |g|
    ensures Observe(h, v, w) == Observe(g, v, w)
    decreases |w|
  {
    assert RedirectedNode(g[v], h[v], m);
    if w != [] && w[0] in g[v].edges {
      var u := g[v].edges[w[0]];
      RedirectObserve(g, m, h, m[u], w[1..]);
      CongruentObserve(g, m, m[u], u, w[1..]);
    }
  }

  // ---- Dropping and renumbering nodes ----

  /** `h` holds the nodes listed in `kept`, renumbered by `index`; edges of kept nodes lead to kept nodes. */
  predicate Renumbered<U, V>(g: Graph<U, V>, h: Graph<U, V>, kept: seq<nat>, index: seq<nat>)
    requires WellFormed(g)
  {
    && |index| == |g| && |kept| == |h| && index[0] == 0 && |kept| > 0 && kept[0] == 0
    && (forall i :: 0 <= i < |kept| ==> kept[i] < |g| && index[kept[i]] == i)
    && (forall i, c :: 0 <= i < |kept| && c in g[kept[i]].edges ==>
          index[g[kept[i]].edges[c]] < |kept| && kept[index[g[kept[i]].edges[c]]] == g[kept[i]].edges[c])
    && (forall i ::
      0 <= i < |kept| ==> RedirectedNode(g[kept[i]], h[i], index))
  }

  lemma {:induction false} RenumberObserve<U, V>(g: Graph<U, V>, h: Graph<U, V>, kept: seq<nat>, index: seq<nat>,
        i: nat, w: seq<U>)
    requires WellFormed(g) && WellFormed(h) && Renumbered(g, h, kept, index) && i < |h|
    ensures Observe(h, i, w) == Observe(g, kept[i], w)
    decreases |w|
  {
    assert RedirectedNode(g[kept[i]], h[i], index);
    if w != [] && w[0] in g[kept[i]].edges {
      RenumberObserve(g, h, kept, index, index[g[kept[i]].edges[w[0]]], w[1..]);
    }
  }
}
