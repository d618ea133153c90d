/** Counting the terms of a shared acyclic word graph with an explicit stack. */
module TermCount {

  /** Edges in the order in which they are listed. */
  datatype Node<U> = Node(edges: seq<(U, nat)>, isFinal: bool)

  type Graph<U> = seq<Node<U>>

  /** Edges stay in the graph and lead to nodes of lower rank; labels of a node differ. */
  predicate Acyclic<U(==)>(g: Graph<U>, rank: seq<nat>) {
    && |rank| == |g|
    && (forall v, i :: 0 <= v < |g| && 0 <= i < |g[v].edges| ==>
          g[v].edges[i].1 < |g| && rank[g[v].edges[i].1] < rank[v])
    && (forall v, i, j :: 0 <= v < |g| && 0 <= i < j < |g[v].edges| ==>
          g[v].edges[i].0 != g[v].edges[j].0)
  }

  /** The words that lead from `v` to a final node. */
  predicate Accepts<U(==)>(g: Graph<U>, rank: seq<nat>, v: nat, w: seq<U>)
    requires Acyclic(g, rank) && v < |g|
    decreases |w|
  {
    if w == [] then g[v].isFinal
    else exists i :: 0 <= i < |g[v].edges| && g[v].edges[i].0 == w[0] && Accepts(g, rank, g[v].edges[i].1, w[1..])
  }

  ghost function Prefixed<U(!new)>(c: U, ws: set<seq<U>>): set<seq<U>> {
    set w | w in ws :: [c] + w
  }

  /** The right language of `v`, built from those of its children. */
  ghost function Language<U(!new)>(g: Graph<U>, rank: seq<nat>, v: nat): set<seq<U>>
    requires Acyclic(g, rank) && v < |g|
    decreases rank[v], |g[v].edges| + 1
  {
    (if g[v].isFinal then {[]} else {}) + EdgeLanguage(g, rank, v, |g[v].edges|)
  }

  ghost function EdgeLanguage<U(!new)>(g: Graph<U>, rank: seq<nat>, v: nat, n: nat): set<seq<U>>
    requires Acyclic(g, rank) && v < |g| && n <= |g[v].edges|
    decreases rank[v], n
  {
    if n == 0 then {}
    else EdgeLanguage(g, rank, v, n - 1) + Prefixed(g[v].edges[n - 1].0, Language(g, rank, g[v].edges[n - 1].1))
  }

  lemma {:induction false} LanguageAccepts<U(!new)>(g: Graph<U>, rank: seq<nat>, v: nat, w: seq<U>)
    requires Acyclic(g, rank) && v < |g|
    ensures w in Language(g, rank, v) <==> Accepts(g, rank, v, w)
    decreases rank[v], |g[v].edges| + 1
  {
    EdgeLanguageAccepts(g, rank, v, |g[v].edges|, w);
  }

  lemma {:induction false} EdgeLanguageAccepts<U(!new)>(g: Graph<U>, rank: seq<nat>, v: nat, n: nat, w: seq<U>)
    requires Acyclic(g, rank) && v < |g| && n <= |g[v].edges|
    ensures w in EdgeLanguage(g, rank, v, n) <==>
      w != [] && exists i :: 0 <= i < n && g[v].edges[i].0 == w[0] && Accepts(g, rank, g[v].edges[i].1, w[1..])
    decreases rank[v], n
  {
    if n > 0 {
      EdgeLanguageAccepts(g, rank, v, n - 1, w);
      var (c, t) := g[v].edges[n - 1];
      if w != [] {
        LanguageAccepts(g, rank, t, w[1..]);
        if w[0] == c && w[1..] in Language(g, rank, t) {
          assert w == [c] + w[1..];
        }
      }
      if x :| x in Language(g, rank, t) && w == [c] + x {
        assert w[1..] == x;
      }
    }
  }

  lemma {:induction false} PrefixedSize<U(!new)>(c: U, ws: set<seq<U>>)
    ensures |Prefixed(c, ws)| == |ws|
  {
    if w :| w in ws {
      PrefixedSize(c, ws - {w});
      var rest := Prefixed(c, ws - {w});
      forall x | x in ws - {w} ensures [c] + x != [c] + w {
        assert ([c] + x)[1..] == x && ([c] + w)[1..] == w;
      }
      assert Prefixed(c, ws) == rest + {[c] + w};
    }
  }

  /** The number of terms below a node. */
  ghost function Terms<U(!new)>(g: Graph<U>, rank: seq<nat>, v: nat): nat
    requires Acyclic(g, rank) && v < |g|
    decreases rank[v], |g[v].edges| + 1
  {
    (if g[v].isFinal then 1 else 0) + EdgeTerms(g, rank, v, |g[v].edges|)
  }

  ghost function EdgeTerms<U(!new)>(g: Graph<U>, rank: seq<nat>, v: nat, n: nat): nat
    requires Acyclic(g, rank) && v < |g| && n <= |g[v].edges|
    decreases rank[v], n
  {
    if n == 0 then 0 else EdgeTerms(g, rank, v, n - 1) + Terms(g, rank, g[v].edges[n - 1].1)
  }

  /** Words with different first labels differ, so the counts add up. */
  lemma {:induction false} TermsCountLanguage<U(!new)>(g: Graph<U>, rank: seq<nat>, v: nat)
    requires Acyclic(g, rank) && v < |g|
    ensures Terms(g, rank, v) == |Language(g, rank, v)|
    decreases rank[v], |g[v].edges| + 1
  {
    var n := |g[v].edges|;
    EdgeTermsCountLanguage(g, rank, v, n);
    EdgeLanguageAccepts(g, rank, v, n, []);
    assert (if g[v].isFinal then {[]} else {}) !! EdgeLanguage(g, rank, v, n);
  }

  lemma AddedSize<U(!new)>(before: set<seq<U>>, c: U, ws: set<seq<U>>)
    requires before !! Prefixed(c, ws)
    ensures |before + Prefixed(c, ws)| == |before| + |ws|
  {
    PrefixedSize(c, ws);
  }

  lemma FirstLabelsDiffer<U(!new)>(g: Graph<U>, rank: seq<nat>, v: nat, n: nat, ws: set<seq<U>>)
    requires Acyclic(g, rank) && v < |g| && n < |g[v].edges|
    ensures EdgeLanguage(g, rank, v, n) !! Prefixed(g[v].edges[n].0, ws)
  {
    var c := g[v].edges[n].0;
    forall w | w in EdgeLanguage(g, rank, v, n) ensures w !in Prefixed(c, ws) {
      EdgeLanguageAccepts(g, rank, v, n, w);
      assert w[0] != c;
    }
  }

  lemma {:induction false} EdgeTermsCountLanguage<U(!new)>(g: Graph<U>, rank: seq<nat>, v: nat, n: nat)
    requires Acyclic(g, rank) && v < |g| && n <= |g[v].edges|
    ensures EdgeTerms(g, rank, v, n) == |EdgeLanguage(g, rank, v, n)|
    decreases rank[v], n
  {
    if n == 0 {
      assert EdgeLanguage(g, rank, v, 0) == {};
    } else {
      EdgeTermsCountLanguage(g, rank, v, n - 1);
      TermsCountLanguage(g, rank, g[v].edges[n - 1].1);
      EdgeStepCounts(g, rank, v, n);
    }
  }

  lemma EdgeStepCounts<U(!new)>(g: Graph<U>, rank: seq<nat>, v: nat, n: nat)
    requires Acyclic(g, rank) && v < |g| && 0 < n <= |g[v].edges|
    requires EdgeTerms(g, rank, v, n - 1) == |EdgeLanguage(g, rank, v, n - 1)|
    requires Terms(g, rank, g[v].edges[n - 1].1) == |Language(g, rank, g[v].edges[n - 1].1)|
    ensures EdgeTerms(g, rank, v, n) == |EdgeLanguage(g, rank, v, n)|
  {
    EdgeLanguageGrows(g, rank, v, n);
  }

  lemma EdgeLanguageGrows<U(!new)>(g: Graph<U>, rank: seq<nat>, v: nat, n: nat)
    requires Acyclic(g, rank) && v < |g| && 0 < n <= |g[v].edges|
    ensures |EdgeLanguage(g, rank, v, n)| ==
      |EdgeLanguage(g, rank, v, n - 1)| + |Language(g, rank, g[v].edges[n - 1].1)|
  {
    EdgeLanguageSize(g, rank, v, n - 1, Language(g, rank, g[v].edges[n - 1].1));
  }

  lemma EdgeLanguageSize<U(!new)>(g: Graph<U>, rank: seq<nat>, v: nat, n: nat, ws: set<seq<U>>)
    requires Acyclic(g, rank) && v < |g| && n < |g[v].edges|
    ensures |EdgeLanguage(g, rank, v, n) + Prefixed(g[v].edges[n].0, ws)| == |EdgeLanguage(g, rank, v, n)| + |ws|
  {
    FirstLabelsDiffer(g, rank, v, n, ws);
    AddedSize(EdgeLanguage(g, rank, v, n), g[v].edges[n].0, ws);
  }

  /** How many nodes the walk below a node visits, shared nodes counted each time. */
  ghost function Visits<U(!new)>(g: Graph<U>, rank: seq<nat>, v: nat): nat
    requires Acyclic(g, rank) && v < |g|
    decreases rank[v], |g[v].edges| + 1
  {
    1 + EdgeVisits(g, rank, v, |g[v].edges|)
  }

  ghost function EdgeVisits<U(!new)>(g: Graph<U>, rank: seq<nat>, v: nat, n: nat): nat
    requires Acyclic(g, rank) && v < |g| && n <= |g[v].edges|
    decreases rank[v], n
  {
    if n == 0 then 0 else EdgeVisits(g, rank, v, n - 1) + Visits(g, rank, g[v].edges[n - 1].1)
  }

  /** The stack, top first. */
  datatype Stack = Empty | Push(node: nat, below: Stack)

  predicate Inside<U>(g: Graph<U>, s: Stack) {
    s.Push? ==> s.node < |g| && Inside(g, s.below)
  }

  ghost function StackTerms<U(!new)>(g: Graph<U>, rank: seq<nat>, s: Stack): nat
    requires Acyclic(g, rank) && Inside(g, s)
  {
    if s.Empty? then 0 else Terms(g, rank, s.node) + StackTerms(g, rank, s.below)
  }

  ghost function StackVisits<U(!new)>(g: Graph<U>, rank: seq<nat>, s: Stack): nat
    requires Acyclic(g, rank) && Inside(g, s)
  {
    if s.Empty? then 0 else Visits(g, rank, s.node) + StackVisits(g, rank, s.below)
  }

  /** The walk ends and returns the number of different accepted words, however nodes are shared. */
  method CountNodeTerms<U(!new)>(g: Graph<U>, ghost rank: seq<nat>, root: nat) returns (count: nat)
    requires Acyclic(g, rank) && root < |g|
    ensures count == |Language(g, rank, root)|
  {
    count := 0;
    var stack := Push(root, Empty);
    while stack.Push?
      invariant Inside(g, stack)
      invariant count + StackTerms(g, rank, stack) == Terms(g, rank, root)
      decreases StackVisits(g, rank, stack)
    {
      var v := stack.node;
      ghost var below := stack.below;
      stack := stack.below;
      if g[v].isFinal {
        count := count + 1;
      }
      for i := 0 to |g[v].edges|
        invariant Inside(g, stack)
        invariant StackTerms(g, rank, stack) == StackTerms(g, rank, below) + EdgeTerms(g, rank, v, i)
        invariant StackVisits(g, rank, stack) == StackVisits(g, rank, below) + EdgeVisits(g, rank, v, i)
      {
        stack := Push(g[v].edges[i].1, stack);
      }
    }
    TermsCountLanguage(g, rank, root);
  }

  lemma LeafCounts<U(!new)>(g: Graph<U>, rank: seq<nat>, v: nat)
    requires Acyclic(g, rank) && v < |g| && g[v].edges == [] && g[v].isFinal
    ensures Terms(g, rank, v) == 1 && Visits(g, rank, v) == 1
  {
    assert EdgeVisits(g, rank, v, 0) == 0;
  }

  lemma TwoEdges<U(!new)>(g: Graph<U>, rank: seq<nat>, v: nat)
    requires Acyclic(g, rank) && v < |g| && |g[v].edges| == 2
    ensures var a, b := g[v].edges[0].1, g[v].edges[1].1;
      && Terms(g, rank, v) == (if g[v].isFinal then 1 else 0) + Terms(g, rank, a) + Terms(g, rank, b)
      && Visits(g, rank, v) == 1 + Visits(g, rank, a) + Visits(g, rank, b)
  {
    assert EdgeTerms(g, rank, v, 1) == Terms(g, rank, g[v].edges[0].1);
    assert EdgeVisits(g, rank, v, 1) == Visits(g, rank, g[v].edges[0].1);
  }

  /** Two labels lead to one node that is shared: it is visited twice, and both words are counted. */
  lemma SharedCounted<U(!new)>(c: U, d: U)
    requires c != d
    ensures var g := [Node([(c, 1), (d, 1)], false), Node([], true)];
      Acyclic(g, [1, 0]) && Terms(g, [1, 0], 0) == 2 && Visits(g, [1, 0], 0) == 3
  {
    var g, rank := [Node([(c, 1), (d, 1)], false), Node([], true)], [1, 0];
    assert Acyclic(g, rank) && |g[0].edges| == 2;
    LeafCounts(g, rank, 1);
    TwoEdges(g, rank, 0);
  }
}
