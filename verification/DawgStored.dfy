/** What a DAWG stores, and how editing the end of a path changes it. */
module DawgStored {
  import opened Words
  import opened DawgGraph
  import opened DawgEdit
  import opened DawgMinimal
  import opened DawgTidy

  /** The graph stores exactly the words of `contents`, with their values. */
  ghost predicate Holds<U(!new), V>(g: Graph<U, V>, contents: map<seq<U>, Option<V>>)
    requires WellFormed(g)
  {
    forall w ::
      Stored(g, 0, w) == if w in contents then Some(contents[w]) else None
  }

  lemma SameHolds<U(!new), V>(g: Graph<U, V>, h: Graph<U, V>, contents: map<seq<U>, Option<V>>)
    requires WellFormed(g) && WellFormed(h) && SameObserve(g, h) && Holds(g, contents)
    ensures Holds(h, contents)
  {
    forall w ensures Stored(h, 0, w) == if w in contents then Some(contents[w]) else None {
      assert Observe(h, 0, w) == Observe(g, 0, w);
      assert Stored(g, 0, w) == if w in contents then Some(contents[w]) else None;
    }
  }

  /** Which labels leave the end of a path, and its flag, can be observed at the root. */
  lemma PathEnd<U(!new), V>(g: Graph<U, V>, path: seq<nat>, units: seq<U>, c: U)
    requires WellFormed(g) && Follows(g, path, units)
    ensures path[|path| - 1] < |g|
    ensures Observe(g, 0, units[..|path| - 1] + [c]).Some? <==> c in g[path[|path| - 1]].edges
    ensures Observe(g, 0, units[..|path| - 1]) == Some((g[path[|path| - 1]].isFinal, g[path[|path| - 1]].value))
  {
    var k := |path| - 1;
    PathLeads(g, path, units, k);
    ObserveAfter(g, 0, units[..k], path[k], [c]);
    ObserveAfter(g, 0, units[..k], path[k], []);
    assert units[..k] + [] == units[..k];
  }

  /** Setting the flag and value at the end of a unique path stores exactly that word. */
  lemma RelabelStored<U(!new), V>(g: Graph<U, V>, h: Graph<U, V>, path: seq<nat>, units: seq<U>, isFinal: bool,
                                  value: Option<V>, w: seq<U>)
    requires WellFormed(g) && NoReturn(g) && UniquePath(g, path, units) && |path| == |units| + 1
    requires WellFormed(h) && Relabelled(g, h, path[|units|], isFinal, value)
    ensures Stored(h, 0, w) == if w == units then (if isFinal then Some(value) else None) else Stored(g, 0, w)
  {
    RelabelObserve(g, h, path[|units|], isFinal, value, 0, w);
    PathLeads(g, path, units, |units|);
    assert units[..|units|] == units;
    if Leads(g, 0, w, path[|units|]) {
      OnlyWord(g, path, units, |units|, w);
    }
  }

  /** Adding a node at the end of a unique path stores at most the word that ends in it. */
  lemma ExtendStored<U(!new), V>(g: Graph<U, V>, h: Graph<U, V>, path: seq<nat>, units: seq<U>, n: Node<U, V>,
                                 w: seq<U>)
    requires WellFormed(g) && NoReturn(g) && UniquePath(g, path, units) && |path| <= |units|
    requires WellFormed(h) && Extended(g, h, path[|path| - 1], units[|path| - 1], n)
    ensures Stored(h, 0, w) == if w == units[..|path|] && n.isFinal then Some(n.value) else Stored(g, 0, w)
  {
    var k := |path| - 1;
    var u, c := path[k], units[k];
    var word := units[..k + 1];
    assert word == units[..k] + [c];
    PathLeads(g, path, units, k);
    PathEnd(g, path, units, c);
    ExtendObserve(g, h, u, c, n, 0, w);
    if s :| w == s + [c] && Leads(g, 0, s, u) {
      OnlyWord(g, path, units, k, s);
    }
  }

  lemma AddHolds<U(!new), V>(g: Graph<U, V>, h: Graph<U, V>, contents: map<seq<U>, Option<V>>, units: seq<U>,
                             value: Option<V>)
    requires WellFormed(g) && WellFormed(h) && Holds(g, contents)
    requires forall w ::
      Stored(h, 0, w) == if w == units then Some(value) else Stored(g, 0, w)
    ensures Holds(h, contents[units := value])
  {
    forall w
      ensures Stored(h, 0, w) == if w in contents[units := value] then Some(contents[units := value][w]) else None
    {
      assert Stored(g, 0, w) == if w in contents then Some(contents[w]) else None;
    }
  }

  lemma DropHolds<U(!new), V>(g: Graph<U, V>, h: Graph<U, V>, contents: map<seq<U>, Option<V>>, units: seq<U>)
    requires WellFormed(g) && WellFormed(h) && Holds(g, contents)
    requires forall w :: Stored(h, 0, w) == if w == units then None else Stored(g, 0, w)
    ensures Holds(h, contents - {units})
  {
    forall w ensures Stored(h, 0, w) == if w in contents - {units} then Some((contents - {units})[w]) else None {
      assert Stored(g, 0, w) == if w in contents then Some(contents[w]) else None;
    }
  }

  /** The prefixes of the stored words, and the empty word. */
  function Prefixes<U(==), V>(contents: map<seq<U>, Option<V>>): set<seq<U>> {
    (set w, k | w in contents && 0 <= k <= |w| :: w[..k]) + {[]}
  }

  /** A tidy graph has a path for exactly the prefixes of its words. */
  lemma PathsArePrefixes<U(!new), V>(g: Graph<U, V>, contents: map<seq<U>, Option<V>>, w: seq<U>)
    requires WellFormed(g) && NoReturn(g) && Tidy(g) && Holds(g, contents)
    ensures Observe(g, 0, w).Some? <==> w in Prefixes(contents)
  {
    if Observe(g, 0, w).Some? && w != [] {
      assert Leads(g, 0, [], 0);
      var x := Complete(g, 0, w);
      assert Stored(g, 0, w + x) == if w + x in contents then Some(contents[w + x]) else None;
      assert w == (w + x)[..|w|];
    } else if w in Prefixes(contents) && w != [] {
      var z, k :| z in contents && 0 <= k <= |z| && w == z[..k];
      assert Stored(g, 0, z) == Some(contents[z]);
      PrefixObserved(g, 0, z, k);
    }
  }

  lemma {:induction false} PrefixObserved<U, V>(g: Graph<U, V>, v: nat, w: seq<U>, k: nat)
    requires WellFormed(g) && v < |g| && Observe(g, v, w).Some? && k <= |w|
    ensures Observe(g, v, w[..k]).Some?
    decreases k
  {
    if k > 0 {
      assert w[..k][1..] == w[1..][..k - 1];
      PrefixObserved(g, g[v].edges[w[0]], w[1..], k - 1);
    }
  }

  lemma {:induction false} LongestKey<U>(keys: set<seq<U>>) returns (n: nat)
    ensures forall w :: w in keys ==> |w| <= n
    decreases |keys|
  {
    n := 0;
    if keys != {} {
      var k :| k in keys;
      n := LongestKey(keys - {k});
      n := if n < |k| then |k| else n;
      assert forall w :: w in keys ==> w == k || w in keys - {k};
    }
  }

  /** A tidy graph with finitely many words has no circle: every path can be completed to a word. */
  lemma HoldsAcyclic<U(!new), V>(g: Graph<U, V>, contents: map<seq<U>, Option<V>>)
    requires WellFormed(g) && NoReturn(g) && Tidy(g) && Holds(g, contents)
    ensures Acyclic(g)
  {
    var n := LongestKey(contents.Keys);
    assert Leads(g, 0, [], 0);
    forall w | Observe(g, 0, w).Some? && w != [] ensures |w| <= n {
      var x := Complete(g, 0, w);
      assert Stored(g, 0, w + x) == if w + x in contents then Some(contents[w + x]) else None;
      assert w + x in contents.Keys;
    }
    assert Shallow(g, 0, n);
  }

  lemma CutHolds<U(!new), V>(g: Graph<U, V>, h: Graph<U, V>, u: nat, c: U, x: nat, contents: map<seq<U>, Option<V>>)
    requires Sound(g) && Holds(g, contents) && IsEdge(g, u, c, x) && Cut(g, h, u, c)
    requires x < |g| && !g[x].isFinal && g[x].edges == map[]
    ensures Sound(h) && Holds(h, contents)
  {
    CutSound(g, h, u, c, x);
    forall w ensures Stored(h, 0, w) == if w in contents then Some(contents[w]) else None {
      CutStored(g, h, u, c, x, 0, w);
      assert Stored(g, 0, w) == if w in contents then Some(contents[w]) else None;
    }
  }
}
