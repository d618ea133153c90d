/**
 When merging makes a DAWG minimal. Merging can only join twins: nodes with the same right
 language from which the same words lead to each valued node, since valued nodes are never
 merged. It joins all of them exactly when the numbering is aligned: where a node and the
 last of its twins have different children under a label, both children come after the node.
 This holds for every hash function.
 */
module DawgMinimal {
  import opened Words
  import opened DawgGraph
  import opened DawgMerge
  import opened DawgEdit

  /** Edges lead to later nodes, as in a freshly built trie. */
  predicate Upward<U, V>(g: Graph<U, V>) {
    forall v, c :: 0 <= v < |g| && c in g[v].edges ==> g[v].edges[c] > v
  }

  ghost predicate Productive<U(!new), V>(g: Graph<U, V>, v: nat)
    requires WellFormed(g) && v < |g|
  {
    exists w :: Accepts(g, v, w)
  }

  predicate Bare<U, V>(n: Node<U, V>) {
    n.edges == map[] && !n.isFinal && n.value == None
  }

  /** Nodes entered from the root lead to a final node; what was cut off is empty. */
  ghost predicate TidyNode<U(!new), V>(g: Graph<U, V>, v: nat)
    requires WellFormed(g) && v < |g|
  {
    if Live(g, v) then Productive(g, v) else Bare(g[v])
  }

  ghost predicate Tidy<U(!new), V>(g: Graph<U, V>)
    requires WellFormed(g)
  {
    forall v :: 0 < v < |g| ==> TidyNode(g, v)
  }

  /** No path from `v` is longer than `n`. */
  ghost predicate Shallow<U(!new), V>(g: Graph<U, V>, v: nat, n: nat)
    requires WellFormed(g) && v < |g|
  {
    forall w :: Observe(g, v, w).Some? ==> |w| <= n
  }

  /** The paths from the root do not run in circles. */
  ghost predicate Acyclic<U(!new), V>(g: Graph<U, V>)
    requires WellFormed(g)
  {
    exists n: nat :: Shallow(g, 0, n)
  }

  predicate ValueFree<U, V>(g: Graph<U, V>) {
    forall v :: 0 <= v < |g| ==> g[v].value == None
  }

  /** Only one word leads to a valued node. */
  ghost predicate ValuesOnce<U(!new), V>(g: Graph<U, V>)
    requires WellFormed(g)
  {
    forall w, z, x: nat :: x < |g| && g[x].value != None && Leads(g, 0, w, x) && Leads(g, 0, z, x) ==> w == z
  }

  /** The same words are accepted, and the same words lead to each node that has a value. */
  ghost predicate Twins<U(!new), V>(g: Graph<U, V>, u: nat, v: nat)
    requires WellFormed(g) && u < |g| && v < |g|
  {
    && SameLanguage(g, u, v)
    && forall w, x: nat :: x < |g| && g[x].value != None ==> Leads(g, u, w, x) == Leads(g, v, w, x)
  }

  /** `y` is the last of the live nodes that are its twins. */
  ghost predicate LastTwin<U(!new), V>(g: Graph<U, V>, y: nat)
    requires WellFormed(g) && y < |g|
  {
    forall z :: y < z < |g| && Live(g, z) ==> !Twins(g, y, z)
  }

  /** Under each label `u` and `y` have one child, or two that both come after `u`. */
  predicate ChildrenAligned<U, V>(g: Graph<U, V>, u: nat, y: nat)
    requires u < |g| && y < |g|
  {
    forall c :: c in g[u].edges && c in g[y].edges ==>
      g[u].edges[c] == g[y].edges[c] || (g[u].edges[c] > u && g[y].edges[c] > u)
  }

  /** A live node and the last of its twins have aligned children. */
  ghost predicate Aligned<U(!new), V>(g: Graph<U, V>)
    requires WellFormed(g)
  {
    forall u, y ::
      0 < u < y < |g| && Live(g, u) && Live(g, y) && Twins(g, u, y) && LastTwin(g, y) ==> ChildrenAligned(g, u, y)
  }

  lemma UpwardAligned<U(!new), V>(g: Graph<U, V>)
    requires WellFormed(g) && Upward(g)
    ensures Aligned(g)
  {
    forall u, y | 0 < u < y < |g| ensures ChildrenAligned(g, u, y) {
      forall c | c in g[u].edges && c in g[y].edges ensures g[u].edges[c] > u && g[y].edges[c] > u {
        assert g[u].edges[c] > u && g[y].edges[c] > y;
      }
    }
  }

  // ---- Signatures ----

  /** The signatures of the children of `v`, by label. */
  function ChildSignatures<U, V>(g: Graph<U, V>, sig: seq<nat>, v: nat): map<U, nat>
    requires WellFormed(g) && |sig| == |g| && v < |g|
  {
    map c | c in g[v].edges :: sig[g[v].edges[c]]
  }

  predicate SignedNode<U, V>(g: Graph<U, V>, sig: seq<nat>, hash: (bool, map<U, nat>) -> nat, v: nat)
    requires WellFormed(g) && |sig| == |g| && v < |g|
  {
    sig[v] == hash(g[v].isFinal, ChildSignatures(g, sig, v))
  }

  /** The signature of every live node is computed from those of its children. */
  ghost predicate Signed<U(!new), V>(g: Graph<U, V>, sig: seq<nat>, hash: (bool, map<U, nat>) -> nat)
    requires WellFormed(g)
  {
    |sig| == |g| && forall v ::
      0 <= v < |g| && Live(g, v) ==> SignedNode(g, sig, hash, v)
  }

  // ---- Twins ----

  lemma AcceptStep<U, V>(g: Graph<U, V>, v: nat, c: U, w: seq<U>)
    requires WellFormed(g) && v < |g|
    ensures Accepts(g, v, [c] + w) <==> c in g[v].edges && Accepts(g, g[v].edges[c], w)
    ensures Observe(g, v, [c] + w).Some? <==> c in g[v].edges && Observe(g, g[v].edges[c], w).Some?
  {
    assert ([c] + w)[1..] == w;
  }

  lemma LeadStep<U, V>(g: Graph<U, V>, v: nat, c: U, w: seq<U>, x: nat)
    requires WellFormed(g) && v < |g|
    ensures Leads(g, v, [c] + w, x) <==> c in g[v].edges && Leads(g, g[v].edges[c], w, x)
  {
    assert ([c] + w)[1..] == w;
  }

  lemma TwinsTrans<U(!new), V>(g: Graph<U, V>, u: nat, v: nat, x: nat)
    requires WellFormed(g) && u < |g| && v < |g| && x < |g| && Twins(g, u, v) && Twins(g, v, x)
    ensures Twins(g, u, x)
  {
    forall w ensures Accepts(g, u, w) == Accepts(g, x, w) {
      assert Accepts(g, u, w) == Accepts(g, v, w);
    }
    forall w, t: nat | t < |g| && g[t].value != None ensures Leads(g, u, w, t) == Leads(g, x, w, t) {
      assert Leads(g, u, w, t) == Leads(g, v, w, t);
    }
  }

  /** A valued node has no twin but itself. */
  lemma TwinsUnvalued<U(!new), V>(g: Graph<U, V>, u: nat, v: nat)
    requires WellFormed(g) && u < |g| && v < |g| && Twins(g, u, v) && u != v
    ensures g[u].value == None && g[v].value == None
  {
    assert Leads(g, u, [], u) && Leads(g, v, [], v) && !Leads(g, v, [], u);
  }

  lemma LiveChild<U(!new), V>(g: Graph<U, V>, v: nat, c: U)
    requires WellFormed(g) && NoReturn(g) && Tidy(g) && v < |g| && Live(g, v) && c in g[v].edges
    ensures 0 < g[v].edges[c] < |g| && Live(g, g[v].edges[c]) && Productive(g, g[v].edges[c])
  {
    ChildLive(g, v, c);
    assert IsEdge(g, v, c, g[v].edges[c]);
    assert !IsEdge(g, v, c, 0);
    assert TidyNode(g, g[v].edges[c]);
  }

  lemma SameLabels<U(!new), V>(g: Graph<U, V>, u: nat, v: nat)
    requires WellFormed(g) && NoReturn(g) && Tidy(g) && u < |g| && v < |g| && Live(g, u) && SameLanguage(g, u, v)
    ensures g[u].edges.Keys <= g[v].edges.Keys
  {
    forall c | c in g[u].edges ensures c in g[v].edges {
      LiveChild(g, u, c);
      var w :| Accepts(g, g[u].edges[c], w);
      AcceptStep(g, u, c, w);
      AcceptStep(g, v, c, w);
    }
  }

  /** Twins have the same flag, labels and, child by child, twins as children. */
  lemma TwinShape<U(!new), V>(g: Graph<U, V>, u: nat, v: nat)
    requires WellFormed(g) && NoReturn(g) && Tidy(g) && u < |g| && v < |g| && Live(g, u) && Live(g, v) && Twins(g, u, v)
    ensures g[u].isFinal == g[v].isFinal && g[u].edges.Keys == g[v].edges.Keys
    ensures forall c ::
      c in g[u].edges ==> Twins(g, g[u].edges[c], g[v].edges[c])
  {
    assert Accepts(g, u, []) == Accepts(g, v, []);
    SameLabels(g, u, v);
    SameLabels(g, v, u);
    forall c | c in g[u].edges ensures Twins(g, g[u].edges[c], g[v].edges[c]) {
      TwinChild(g, u, v, c);
    }
  }

  lemma TwinChild<U(!new), V>(g: Graph<U, V>, u: nat, v: nat, c: U)
    requires WellFormed(g) && u < |g| && v < |g| && Twins(g, u, v) && c in g[u].edges && c in g[v].edges
    ensures Twins(g, g[u].edges[c], g[v].edges[c])
  {
    forall w ensures Accepts(g, g[u].edges[c], w) == Accepts(g, g[v].edges[c], w) {
      AcceptStep(g, u, c, w);
      AcceptStep(g, v, c, w);
    }
    forall w, x: nat | x < |g| && g[x].value != None
      ensures Leads(g, g[u].edges[c], w, x) == Leads(g, g[v].edges[c], w, x)
    {
      LeadStep(g, u, c, w, x);
      LeadStep(g, v, c, w, x);
    }
  }

  lemma ShallowChild<U(!new), V>(g: Graph<U, V>, v: nat, c: U, n: nat)
    requires WellFormed(g) && v < |g| && Shallow(g, v, n) && c in g[v].edges
    ensures n > 0 && Shallow(g, g[v].edges[c], n - 1)
  {
    forall w | Observe(g, g[v].edges[c], w).Some? ensures |w| + 1 <= n {
      AcceptStep(g, v, c, w);
    }
    assert Observe(g, g[v].edges[c], []).Some?;
  }

  lemma LiveShallow<U(!new), V>(g: Graph<U, V>, v: nat, n: nat)
    requires WellFormed(g) && Shallow(g, 0, n) && v < |g| && Live(g, v)
    ensures Shallow(g, v, n)
  {
    var z :| Leads(g, 0, z, v);
    forall w | Observe(g, v, w).Some? ensures |w| <= n {
      ObserveAfter(g, 0, z, v, w);
    }
  }

  /** Twins have equal signatures, whatever the hash. */
  lemma {:induction false} SameSignature<U(!new), V>(g: Graph<U, V>, sig: seq<nat>,
        hash: (bool, map<U, nat>) -> nat, n: nat, u: nat, v: nat)
    requires WellFormed(g) && NoReturn(g) && Tidy(g) && Signed(g, sig, hash)
    requires u < |g| && v < |g| && Live(g, u) && Live(g, v) && Shallow(g, u, n) && Twins(g, u, v)
    ensures sig[u] == sig[v]
    decreases n
  {
    TwinShape(g, u, v);
    forall c | c in g[u].edges ensures sig[g[u].edges[c]] == sig[g[v].edges[c]] {
      LiveChild(g, u, c);
      LiveChild(g, v, c);
      ShallowChild(g, u, c, n);
      SameSignature(g, sig, hash, n - 1, g[u].edges[c], g[v].edges[c]);
    }
    assert SignedNode(g, sig, hash, u) && SignedNode(g, sig, hash, v);
    assert ChildSignatures(g, sig, u) == ChildSignatures(g, sig, v);
  }

  // ---- Only twins are merged ----

  /** A valued node is kept, and nothing is merged into it. */
  lemma ValuedAlone<U, V>(g: Graph<U, V>, sig: seq<nat>, m: seq<nat>, x: nat)
    requires WellFormed(g) && MergedFrom(g, sig, m, 0) && x < |g| && g[x].value != None
    ensures m[x] == x && forall v :: 0 <= v < |g| && m[v] == x ==> v == x
  {
    assert NodeMerged(g, sig, m, x);
    forall v | 0 <= v < |g| && m[v] == x ensures v == x {
      assert NodeMerged(g, sig, m, v);
    }
  }

  lemma {:induction false} CongruentLeads<U, V>(g: Graph<U, V>, sig: seq<nat>, m: seq<nat>, u: nat, v: nat, w: seq<U>,
        x: nat)
    requires WellFormed(g) && MergedFrom(g, sig, m, 0) && x < |g| && g[x].value != None
    requires u < |g| && v < |g| && m[u] == m[v]
    ensures Leads(g, u, w, x) == Leads(g, v, w, x)
    decreases |w|
  {
    if w == [] {
      ValuedAlone(g, sig, m, x);
    } else {
      MergedCongruence(g, sig, m);
      assert Alike(g, m, u, m[u]) && Alike(g, m, v, m[v]);
      if w[0] in g[u].edges {
        CongruentLeads(g, sig, m, g[u].edges[w[0]], g[v].edges[w[0]], w[1..], x);
      }
    }
  }

  /** Nodes merged into one are twins. */
  lemma MergedTwins<U(!new), V>(g: Graph<U, V>, sig: seq<nat>, m: seq<nat>, u: nat, v: nat)
    requires WellFormed(g) && MergedFrom(g, sig, m, 0) && u < |g| && v < |g| && m[u] == m[v]
    ensures Twins(g, u, v)
  {
    MergedCongruence(g, sig, m);
    forall w ensures Accepts(g, u, w) == Accepts(g, v, w) {
      CongruentObserve(g, m, u, v, w);
    }
    forall w, x: nat | x < |g| && g[x].value != None ensures Leads(g, u, w, x) == Leads(g, v, w, x) {
      CongruentLeads(g, sig, m, u, v, w, x);
    }
  }

  /** What a live node is merged into is a live twin that is not before it. */
  lemma ImageLive<U(!new), V>(g: Graph<U, V>, sig: seq<nat>, m: seq<nat>, u: nat)
    requires WellFormed(g) && Tidy(g) && MergedFrom(g, sig, m, 0) && 0 < u < |g| && Live(g, u)
    ensures u <= m[u] < |g| && m[m[u]] == m[u] && Twins(g, u, m[u]) && Live(g, m[u])
  {
    assert NodeMerged(g, sig, m, u);
    MergedTwins(g, sig, m, u, m[u]);
    assert TidyNode(g, u) && TidyNode(g, m[u]);
    var w :| Accepts(g, u, w);
    assert Accepts(g, m[u], w);
  }

  // ---- All twins are merged exactly when the numbering is aligned ----

  ghost predicate MergesTwins<U(!new), V>(g: Graph<U, V>, m: seq<nat>)
    requires WellFormed(g) && |m| == |g|
  {
    forall u, v ::
      0 < u < |g| && 0 < v < |g| && Live(g, u) && Live(g, v) && Twins(g, u, v) ==> m[u] == m[v]
  }

  lemma {:induction false} FindLastTwin<U(!new), V>(g: Graph<U, V>, u: nat) returns (y: nat)
    requires WellFormed(g) && u < |g| && Live(g, u)
    ensures u <= y < |g| && Live(g, y) && Twins(g, u, y) && LastTwin(g, y)
    decreases |g| - u
  {
    y := u;
    if z: nat :| u < z < |g| && Live(g, z) && Twins(g, u, z) {
      y := FindLastTwin(g, z);
      TwinsTrans(g, u, z, y);
    }
  }

  lemma LastIsKept<U(!new), V>(g: Graph<U, V>, sig: seq<nat>, m: seq<nat>, y: nat)
    requires WellFormed(g) && Tidy(g) && MergedFrom(g, sig, m, 0) && 0 < y < |g| && Live(g, y) && LastTwin(g, y)
    ensures m[y] == y
  {
    ImageLive(g, sig, m, y);
  }

  /** A node is not kept if its children are mapped like those of its last twin. */
  lemma NotKept<U(!new), V>(g: Graph<U, V>, sig: seq<nat>, m: seq<nat>, u: nat, y: nat)
    requires WellFormed(g) && |m| == |g| && |sig| == |g| && u < y < |g| && NodeMerged(g, sig, m, u) && Twins(g, u, y)
    requires m[y] == y && sig[y] == sig[u] && g[u].isFinal == g[y].isFinal && g[u].edges.Keys == g[y].edges.Keys
    requires ChildrenAligned(g, u, y)
    requires forall c :: c in g[u].edges ==> m[g[u].edges[c]] == m[g[y].edges[c]]
    ensures m[u] != u
  {
    TwinsUnvalued(g, u, y);
    assert EqualAt(g, m, u, y);
  }

  /** Paths from a twin are no longer: each can be completed to an accepted word. */
  lemma TwinShallow<U(!new), V>(g: Graph<U, V>, u: nat, v: nat, n: nat)
    requires WellFormed(g) && NoReturn(g) && Tidy(g) && u < |g| && v < |g| && Live(g, v) && Shallow(g, u, n)
    requires Twins(g, u, v)
    ensures Shallow(g, v, n)
  {
    forall w | Observe(g, v, w).Some? && w != [] ensures |w| <= n {
      var x := Complete(g, v, w);
      assert Accepts(g, u, w + x);
    }
  }

  lemma {:induction false} Complete<U(!new), V>(g: Graph<U, V>, v: nat, w: seq<U>) returns (x: seq<U>)
    requires WellFormed(g) && NoReturn(g) && Tidy(g) && v < |g| && Live(g, v) && Observe(g, v, w).Some? && w != []
    ensures Accepts(g, v, w + x)
    decreases |w|
  {
    LiveChild(g, v, w[0]);
    var t := g[v].edges[w[0]];
    if w[1..] == [] {
      x :| Accepts(g, t, x);
      assert w + x == [w[0]] + x;
    } else {
      x := Complete(g, t, w[1..]);
      assert w + x == [w[0]] + (w[1..] + x);
    }
    AcceptStep(g, v, w[0], w[1..] + x);
    assert w[1..] + x == if w[1..] == [] then x else w[1..] + x;
  }

  /** In an aligned graph every live node is merged into the last of its twins. */
  lemma {:induction false} MergedIntoLast<U(!new), V>(g: Graph<U, V>, sig: seq<nat>, hash: (bool, map<U, nat>) -> nat,
                                                      m: seq<nat>, n: nat, u: nat, y: nat)
    requires WellFormed(g) && NoReturn(g) && Tidy(g) && Signed(g, sig, hash) && MergedFrom(g, sig, m, 0) && Aligned(g)
    requires 0 < u <= y < |g| && Live(g, u) && Live(g, y) && Twins(g, u, y) && LastTwin(g, y) && Shallow(g, u, n)
    ensures m[u] == y
    decreases n, |g| - u
  {
    LastIsKept(g, sig, m, y);
    if u < y {
      TwinShape(g, u, y);
      SameSignature(g, sig, hash, n, u, y);
      TwinShallow(g, u, y, n);
      forall c | c in g[u].edges ensures m[g[u].edges[c]] == m[g[y].edges[c]] {
        ShallowChild(g, u, c, n);
        ShallowChild(g, y, c, n);
        LiveChild(g, u, c);
        LiveChild(g, y, c);
        TwinsMerged(g, sig, hash, m, n - 1, g[u].edges[c], g[y].edges[c]);
      }
      assert ChildrenAligned(g, u, y);
      assert NodeMerged(g, sig, m, u);
      NotKept(g, sig, m, u, y);
      ImageLive(g, sig, m, u);
      TwinsTrans(g, y, u, m[u]);
      TwinShallow(g, u, m[u], n);
      MergedIntoLast(g, sig, hash, m, n, m[u], y);
    }
  }

  lemma {:induction false} TwinsMerged<U(!new), V>(g: Graph<U, V>, sig: seq<nat>, hash: (bool, map<U, nat>) -> nat,
                                                   m: seq<nat>, n: nat, u: nat, v: nat)
    requires WellFormed(g) && NoReturn(g) && Tidy(g) && Signed(g, sig, hash) && MergedFrom(g, sig, m, 0) && Aligned(g)
    requires 0 < u < |g| && 0 < v < |g| && Live(g, u) && Live(g, v) && Twins(g, u, v) && Shallow(g, u, n)
    requires Shallow(g, v, n)
    ensures m[u] == m[v]
    decreases n, |g| + 1
  {
    var y := FindLastTwin(g, u);
    TwinsTrans(g, y, u, v);
    TwinsTrans(g, v, u, y);
    MergedIntoLast(g, sig, hash, m, n, u, y);
    MergedIntoLast(g, sig, hash, m, n, v, y);
  }

  /** If all twins are merged, the numbering was aligned: what is merged was equal when it was compared. */
  lemma MergedAligned<U(!new), V>(g: Graph<U, V>, sig: seq<nat>, m: seq<nat>)
    requires WellFormed(g) && Tidy(g) && MergedFrom(g, sig, m, 0) && MergesTwins(g, m)
    ensures Aligned(g)
  {
    forall u, y | 0 < u < y < |g| && Live(g, u) && Live(g, y) && Twins(g, u, y) && LastTwin(g, y)
      ensures ChildrenAligned(g, u, y)
    {
      LastIsKept(g, sig, m, y);
      assert NodeMerged(g, sig, m, u) && EqualAt(g, m, u, y);
      forall c | c in g[u].edges && c in g[y].edges
        ensures g[u].edges[c] == g[y].edges[c] || (g[u].edges[c] > u && g[y].edges[c] > u)
      {
        var a, b := g[u].edges[c], g[y].edges[c];
        assert At(m, u, a) == At(m, u, b);
        assert NodeMerged(g, sig, m, a) && NodeMerged(g, sig, m, b);
      }
    }
  }

  /** Merging joins all live twins if and only if the numbering is aligned. */
  lemma MergesExactly<U(!new), V>(g: Graph<U, V>, sig: seq<nat>, hash: (bool, map<U, nat>) -> nat, m: seq<nat>)
    requires WellFormed(g) && NoReturn(g) && Tidy(g) && Acyclic(g) && Signed(g, sig, hash) && MergedFrom(g, sig, m, 0)
    ensures MergesTwins(g, m) <==> Aligned(g)
  {
    if Aligned(g) {
      var n: nat :| Shallow(g, 0, n);
      forall u, v | 0 < u < |g| && 0 < v < |g| && Live(g, u) && Live(g, v) && Twins(g, u, v) ensures m[u] == m[v] {
        LiveShallow(g, u, n);
        LiveShallow(g, v, n);
        TwinsMerged(g, sig, hash, m, n, u, v);
      }
    }
    if MergesTwins(g, m) {
      MergedAligned(g, sig, m);
    }
  }

  // ---- The root is not like any other live node ----

  /** If reading `z` first never matters, accepted words can be made as long as one likes. */
  lemma {:induction false} Pump<U(!new), V>(g: Graph<U, V>, v: nat, z: seq<U>, x: seq<U>, n: nat) returns (w: seq<U>)
    requires WellFormed(g) && v < |g| && z != [] && Accepts(g, v, x)
    requires forall w :: Accepts(g, v, w) ==> Accepts(g, v, z + w)
    ensures Accepts(g, v, w) && |w| >= n
  {
    w := x;
    if n > 0 {
      w := Pump(g, v, z, x, n - 1);
      w := z + w;
    }
  }

  lemma RootDiffers<U(!new), V>(g: Graph<U, V>, v: nat)
    requires WellFormed(g) && Tidy(g) && Acyclic(g) && 0 < v < |g| && Live(g, v)
    ensures !SameLanguage(g, 0, v)
  {
    if SameLanguage(g, 0, v) {
      var n: nat :| Shallow(g, 0, n);
      var z :| Leads(g, 0, z, v);
      assert TidyNode(g, v);
      var x :| Accepts(g, v, x);
      forall w | Accepts(g, 0, w) ensures Accepts(g, 0, z + w) {
        ObserveAfter(g, 0, z, v, w);
        assert Accepts(g, v, w);
      }
      assert Accepts(g, 0, x);
      var w := Pump(g, 0, z, x, n + 1);
      assert false;
    }
  }
}
