/**
 Compaction of a suffix automaton: the proper states, which are exactly the states that
 paths from the root enter, are kept and renumbered; the leftovers are dropped.
 */
module SuffixCompact {
  import opened Words
  import opened SuffixGraph

  /** State `i` of `h` is state `v` of `g` with its edges and link renumbered by `index`. */
  predicate Renumbered<U>(g: Graph<U>, h: Graph<U>, index: seq<nat>, v: nat, i: nat)
    requires WellFormed(g) && |index| == |g| && v < |g| && i < |h|
  {
    && h[i].len == g[v].len && h[i].isFinal == g[v].isFinal
    && h[i].edges.Keys == g[v].edges.Keys
    && (forall c :: c in g[v].edges ==> h[i].edges[c] == index[g[v].edges[c]])
    && h[i].link == if g[v].link.None? then None else Some(index[g[v].link.value])
  }

  datatype Compaction<U(==,!new)> = Compaction(g: Graph<U>, names: seq<seq<U>>, h: Graph<U>, kept: seq<nat>,
    index: seq<nat>) {

    /** `kept` lists the proper states of `g`, and `index` is its inverse. */
    predicate Listed()
      requires WellFormed(g)
    {
      && |index| == |g| && |kept| == |h|
      && index[0] == 0
      && (forall v {:trigger index[v]} :: 0 <= v < |g| && Proper(g, v) ==> index[v] < |kept| && kept[index[v]] == v)
      && (forall i :: 0 <= i < |kept| ==> kept[i] < |g| && Proper(g, kept[i]) && index[kept[i]] == i)
    }

    ghost predicate Ok()
    {
      && Automaton(g, names)
      && Listed()
      && (forall i {:trigger h[i]} {:trigger kept[i]} :: 0 <= i < |h| ==> Renumbered(g, h, index, kept[i], i))
    }

    ghost predicate Names(names': seq<seq<U>>) {
      |names'| == |kept| && forall i {:trigger names'[i]} ::
        0 <= i < |kept| ==> kept[i] < |names| && names'[i] == names[kept[i]]
    }
  }

  /** Edges and links of proper states lead to proper states. */
  lemma ProperTargets<U(!new)>(g: Graph<U>, names: seq<seq<U>>, v: nat)
    requires Automaton(g, names) && v < |g| && Proper(g, v)
    ensures forall c {:trigger g[v].edges[c]} :: c in g[v].edges ==> Proper(g, g[v].edges[c])
    ensures v > 0 ==> Proper(g, Link(g, v))
  {
    forall c | c in g[v].edges ensures Proper(g, g[v].edges[c]) {
      assert EdgeFits(g, names, v, c);
    }
  }

  lemma CompactShape<U(!new)>(k: Compaction<U>)
    requires k.Ok()
    ensures WellFormed(k.h) && Linked(k.h)
    ensures forall i :: 0 <= i < |k.h| ==> Proper(k.h, i)
    ensures forall i {:trigger k.kept[i]} ::
      0 < i < |k.h| ==> k.kept[i] > 0 && Link(k.h, i) == k.index[Link(k.g, k.kept[i])]
  {
    var g, h := k.g, k.h;
    assert Proper(g, 0) && k.kept[0] == 0;
    forall i | 0 <= i < |h|
      ensures i > 0 ==> k.kept[i] > 0 && h[i].link.Some? && h[i].link.value == k.index[Link(g, k.kept[i])] < |h|
      ensures i > 0 ==> h[h[i].link.value].len < h[i].len
      ensures forall c :: c in h[i].edges ==> h[i].edges[c] < |h|
    {
      ProperTargets(g, k.names, k.kept[i]);
    }
  }

  /** Suffix-link paths correspond. */
  lemma {:induction false} CompactChain<U(!new)>(k: Compaction<U>, v: nat, u: nat)
    requires k.Ok() && WellFormed(k.h) && Linked(k.h) && v < |k.g| && u < |k.g| && Proper(k.g, v) && Proper(k.g, u)
    ensures k.index[v] < |k.h| && (OnChain(k.h, k.index[v], k.index[u]) <==> OnChain(k.g, v, u))
    decreases k.g[v].len
  {
    CompactShape(k);
    var i := k.index[v];
    assert k.kept[i] == v && k.kept[k.index[u]] == u;
    if v != 0 {
      assert k.kept[0] == 0;
      ProperTargets(k.g, k.names, v);
      CompactChain(k, Link(k.g, v), u);
    }
  }

  /** Words are read alike. */
  lemma {:induction false} CompactReach<U(!new)>(k: Compaction<U>, w: seq<U>)
    requires k.Ok() && WellFormed(k.h)
    ensures Reach(k.h, w).Some? == Reach(k.g, w).Some?
    ensures Reach(k.g, w).Some? ==>
      Proper(k.g, Reach(k.g, w).value) && Reach(k.h, w).value == k.index[Reach(k.g, w).value]
    decreases |w|
  {
    assert Proper(k.g, 0);
    if w != [] {
      var s, c := Unsnoc(w);
      ReachSnoc(k.g, s, c);
      ReachSnoc(k.h, s, c);
      CompactReach(k, s);
      if Reach(k.g, s).Some? {
        ProperTargets(k.g, k.names, Reach(k.g, s).value);
        assert k.kept[k.index[Reach(k.g, s).value]] == Reach(k.g, s).value;
      }
    }
  }

  lemma CompactEdge<U(!new)>(k: Compaction<U>, names': seq<seq<U>>, i: nat, c: U)
    requires k.Ok() && k.Names(names') && WellFormed(k.h) && Linked(k.h) && i < |k.h| && c in k.h[i].edges
    ensures EdgeFits(k.h, names', i, c)
    ensures i > 0 ==> EdgeFollowsLink(k.h, i, c)
  {
    var g, v := k.g, k.kept[i];
    CompactShape(k);
    assert Renumbered(g, k.h, k.index, v, i);
    ProperTargets(g, k.names, v);
    var u := g[v].edges[c];
    assert EdgeFits(g, k.names, v, c);
    var j := k.index[u];
    assert k.kept[j] == u && k.kept[0] == 0;
    ProperTargets(g, k.names, u);
    assert k.kept[k.index[Link(g, u)]] == Link(g, u);
    if i > 0 {
      assert EdgeFollowsLink(g, v, c);
      var l := Link(g, v);
      assert k.kept[k.index[l]] == l;
      ProperTargets(g, k.names, l);
      CompactChain(k, u, g[l].edges[c]);
    }
  }

  lemma CompactReadInto<U(!new)>(k: Compaction<U>, names': seq<seq<U>>, i: nat, s: seq<U>)
    requires k.Ok() && k.Names(names') && WellFormed(k.h) && Linked(k.h) && i < |k.h| && IsSuffix(s, names'[i])
    ensures ReadInto(k.h, s, i)
  {
    var v := k.kept[i];
    assert ReadInto(k.g, s, v);
    CompactReach(k, s);
    CompactChain(k, v, Reach(k.g, s).value);
  }

  /** The compacted graph is a suffix automaton, all of whose states are proper. */
  lemma CompactAutomaton<U(!new)>(k: Compaction<U>, names': seq<seq<U>>)
    requires k.Ok() && k.Names(names')
    ensures Automaton(k.h, names')
    ensures forall i :: 0 <= i < |k.h| ==> Proper(k.h, i)
  {
    var h := k.h;
    CompactShape(k);
    forall i | 0 < i < |h| ensures IsSuffix(names'[Link(h, i)], names'[i]) {
      ProperTargets(k.g, k.names, k.kept[i]);
      var l := Link(k.g, k.kept[i]);
      assert k.kept[k.index[l]] == l;
    }
    assert Named(h, names') by {
      forall i | 0 <= i < |h| ensures |names'[i]| == h[i].len {
        assert Renumbered(k.g, h, k.index, k.kept[i], i);
      }
    }
    forall i, c {:trigger EdgeFits(h, names', i, c)} | 0 <= i < |h| && c in h[i].edges
      ensures EdgeFits(h, names', i, c)
    {
      CompactEdge(k, names', i, c);
    }
    forall i, c {:trigger EdgeFollowsLink(h, i, c)} | 0 < i < |h| && c in h[i].edges ensures EdgeFollowsLink(h, i, c) {
      CompactEdge(k, names', i, c);
    }
    forall i, s {:trigger ReadInto(h, s, i)} | 0 <= i < |h| && IsSuffix(s, names'[i]) ensures ReadInto(h, s, i) {
      CompactReadInto(k, names', i, s);
    }
    forall i | 0 <= i < |h| ensures Homed(h, names', i) {
      assert Homed(k.g, k.names, k.kept[i]);
      CompactReach(k, names'[i]);
    }
  }

  /** A leftover has the name of its link, so every name is the name of a proper state. */
  lemma NamesKept<U(!new)>(k: Compaction<U>, names': seq<seq<U>>, v: nat)
    requires k.Ok() && k.Names(names') && v < |k.g|
    ensures k.names[v] in names'
  {
    var u := if Proper(k.g, v) then v else Link(k.g, v);
    assert k.names[u] == k.names[v];
    assert k.kept[k.index[u]] == u && names'[k.index[u]] == k.names[u];
  }
}
