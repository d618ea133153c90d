/**
 Rebuilding a DAWG: all entries are inserted into a fresh trie, which is then merged. The
 trie is numbered from the root down, so that merging joins all twins.
 */
module DawgRebuild {
  import opened Words
  import opened DawgGraph
  import opened DawgMinimal
  import opened DawgEdit
  import opened DawgReduced
  import opened DawgTidy
  import opened DawgStored
  import opened DawgExtract

  /** At most one edge enters a node. */
  ghost predicate SingleEntries<U(!new), V>(g: Graph<U, V>) {
    forall x: nat, d, y: nat, e, v: nat :: IsEdge(g, x, d, v) && IsEdge(g, y, e, v) ==> x == y && d == e
  }

  /** A trie whose nodes are numbered from the root down. */
  ghost predicate Shape<U(!new), V>(g: Graph<U, V>) {
    Sound(g) && Upward(g) && SingleEntries(g) && AllLive(g)
  }

  /** `words` are the words that the trie has a path for, one for each node. */
  ghost predicate NodeWords<U(!new), V>(g: Graph<U, V>, words: set<seq<U>>)
    requires WellFormed(g)
  {
    |words| == |g| && forall w :: w in words <==> Observe(g, 0, w).Some?
  }

  /** Adding a node at the end of the path keeps the trie's shape. */
  lemma ExtendShape<U(!new), V>(g: Graph<U, V>, h: Graph<U, V>, path: seq<nat>, units: seq<U>, n: Node<U, V>)
    requires Shape(g) && UniquePath(g, path, units) && |path| <= |units| && (n.isFinal || n.value == None)
    requires Extended(g, h, path[|path| - 1], units[|path| - 1], n)
    ensures Shape(h) && UniquePath(h, path + [|g|], units)
  {
    var u, c := path[|path| - 1], units[|path| - 1];
    ExtendSound(g, h, path, units, n);
    forall x: nat, d, y: nat, e, v: nat | IsEdge(h, x, d, v) && IsEdge(h, y, e, v) ensures x == y && d == e {
      ExtendEdges(g, h, u, c, n, x, d, v);
      ExtendEdges(g, h, u, c, n, y, e, v);
    }
    forall v, d | 0 <= v < |h| && d in h[v].edges ensures h[v].edges[d] > v {
      ExtendEdges(g, h, u, c, n, v, d, h[v].edges[d]);
    }
    forall v | 0 <= v < |h| ensures Live(h, v) {
      if v < |g| {
        ExtendLive(g, h, u, c, n, v);
      } else {
        PathLeads(h, path + [|g|], units, |path|);
      }
    }
  }

  /** A new node is entered by exactly one new word. */
  lemma ExtendWords<U(!new), V>(g: Graph<U, V>, h: Graph<U, V>, path: seq<nat>, units: seq<U>, n: Node<U, V>,
                                words: set<seq<U>>)
    requires Shape(g) && UniquePath(g, path, units) && |path| <= |units| && NodeWords(g, words)
    requires WellFormed(h) && Extended(g, h, path[|path| - 1], units[|path| - 1], n)
    ensures NodeWords(h, words + {units[..|path|]})
  {
    var k := |path| - 1;
    var u, c := path[k], units[k];
    var word := units[..k + 1];
    assert word == units[..k] + [c];
    PathLeads(g, path, units, k);
    PathEnd(g, path, units, c);
    assert Observe(g, 0, word).None?;
    forall w ensures w in words + {word} <==> Observe(h, 0, w).Some? {
      ExtendObserve(g, h, u, c, n, 0, w);
      if s :| w == s + [c] && Leads(g, 0, s, u) {
        OnlyWord(g, path, units, k, s);
      }
    }
  }

  lemma RelabelKeepsShape<U(!new), V>(g: Graph<U, V>, h: Graph<U, V>, path: seq<nat>, units: seq<U>, value: Option<V>)
    requires Shape(g) && UniquePath(g, path, units) && Relabelled(g, h, path[|path| - 1], true, value)
    ensures Shape(h)
  {
    var x := path[|path| - 1];
    RelabelSound(g, h, path, units, true, value);
    forall a: nat, d, b: nat, e, v: nat | IsEdge(h, a, d, v) && IsEdge(h, b, e, v) ensures a == b && d == e {
      assert IsEdge(g, a, d, v) && IsEdge(g, b, e, v);
    }
    forall v | 0 <= v < |h| ensures Live(h, v) {
      RelabelLive(g, h, x, true, value, v);
    }
  }

  lemma RelabelWords<U(!new), V>(g: Graph<U, V>, h: Graph<U, V>, x: nat, value: Option<V>, words: set<seq<U>>)
    requires WellFormed(g) && WellFormed(h) && Relabelled(g, h, x, true, value) && NodeWords(g, words)
    ensures NodeWords(h, words)
  {
    forall w ensures w in words <==> Observe(h, 0, w).Some? {
      RelabelObserve(g, h, x, true, value, 0, w);
      if Leads(g, 0, w, x) {
        ObserveAfter(g, 0, w, x, []);
        assert w + [] == w;
      }
    }
  }

  // ---- Building the trie ----

  /** The node for one more unit: an existing child, or a new node that is not final. */
  method Descend<U(!new), V>(g: Graph<U, V>, path: seq<nat>, units: seq<U>, ghost words: set<seq<U>>)
    returns (h: seq<Node<U, V>>, child: nat, ghost words': set<seq<U>>)
    requires Shape(g) && UniquePath(g, path, units) && |path| <= |units| && path[|path| - 1] < |g| && TidyBut(g, path)
    requires NodeWords(g, words)
    ensures Shape(h) && UniquePath(h, path + [child], units) && child < |h| && TidyBut(h, path + [child])
    ensures NodeWords(h, words')
    ensures forall w :: Stored(h, 0, w) == Stored(g, 0, w)
    ensures ValueFree(g) ==> ValueFree(h)
  {
    var node, unit := path[|path| - 1], units[|path| - 1];
    if unit in g[node].edges {
      child := g[node].edges[unit];
      assert IsEdge(g, node, unit, child);
      KeepPath(g, path, units, child);
      return g, child, words;
    }
    child := |g|;
    var n := Node(map[], false, None);
    h := g + [n];
    h := h[node := h[node].(edges := h[node].edges[unit := child])];
    assert Extended(g, h, node, unit, n);
    ExtendShape(g, h, path, units, n);
    ExtendTidy(g, h, path, units, n);
    words' := words + {units[..|path|]};
    ExtendWords(g, h, path, units, n, words);
    forall w ensures Stored(h, 0, w) == Stored(g, 0, w) {
      ExtendStored(g, h, path, units, n, w);
    }
  }

  /** Inserts one entry into a trie. */
  method InsertDirect<U(!new), V>(g: Graph<U, V>, units: seq<U>, value: Option<V>, ghost words: set<seq<U>>)
    returns (h: seq<Node<U, V>>, ghost words': set<seq<U>>)
    requires Shape(g) && Tidy(g) && NodeWords(g, words)
    ensures Shape(h) && Tidy(h) && NodeWords(h, words')
    ensures forall w ::
      Stored(h, 0, w) == if w == units then Some(value) else Stored(g, 0, w)
    ensures ValueFree(g) && value == None ==> ValueFree(h)
  {
    var k := g;
    words' := words;
    var path: seq<nat>, node: nat := [0], 0;
    for i := 0 to |units|
      invariant Shape(k) && |path| == i + 1 && node == path[i] < |k| && UniquePath(k, path, units) && TidyBut(k, path)
      invariant NodeWords(k, words')
      invariant forall w :: Stored(k, 0, w) == Stored(g, 0, w)
      invariant ValueFree(g) ==> ValueFree(k)
    {
      k, node, words' := Descend(k, path, units, words');
      path := path + [node];
    }
    h := k[node := k[node].(isFinal := true, value := value)];
    RelabelKeepsShape(k, h, path, units, value);
    RelabelWords(k, h, node, value, words');
    FinalTidy(k, h, path, units, value);
    forall w ensures Stored(h, 0, w) == if w == units then Some(value) else Stored(g, 0, w) {
      RelabelStored(k, h, path, units, true, value, w);
    }
  }

  /** Entry `i` is the last for `w` among the first `n`. */
  predicate IsLast<U(==), V>(entries: seq<(seq<U>, Option<V>)>, n: nat, i: nat, w: seq<U>) {
    && i < n <= |entries| && entries[i].0 == w
    && forall j :: i < j < n ==> entries[j].0 != w
  }

  /** `contents` is what the first `n` entries store; a later entry for a word replaces an earlier one. */
  ghost predicate LastWins<U(!new), V>(entries: seq<(seq<U>, Option<V>)>, n: nat, contents: map<seq<U>, Option<V>>)
    requires n <= |entries|
  {
    && (forall i :: 0 <= i < n ==> entries[i].0 in contents)
    && (forall w :: w in contents ==>
          exists i: nat :: IsLast(entries, n, i, w) && entries[i].1 == contents[w])
  }

  lemma LastWinsStep<U(!new), V>(entries: seq<(seq<U>, Option<V>)>, n: nat, contents: map<seq<U>, Option<V>>)
    requires n < |entries| && LastWins(entries, n, contents)
    ensures LastWins(entries, n + 1, contents[entries[n].0 := entries[n].1])
  {
    var more := contents[entries[n].0 := entries[n].1];
    forall w | w in more ensures exists i: nat :: IsLast(entries, n + 1, i, w) && entries[i].1 == more[w] {
      if w == entries[n].0 {
        assert IsLast(entries, n + 1, n, w);
      } else {
        var i: nat :| IsLast(entries, n, i, w) && entries[i].1 == contents[w];
        assert IsLast(entries, n + 1, i, w);
      }
    }
  }

  /** Entries with different words store what they list, in whatever order they come. */
  lemma ListedWins<U(!new), V>(entries: seq<(seq<U>, Option<V>)>, contents: map<seq<U>, Option<V>>,
                               stored: map<seq<U>, Option<V>>)
    requires Lists(entries, contents) && LastWins(entries, |entries|, stored)
    ensures stored == contents
  {
    forall w | w in stored ensures w in contents && stored[w] == contents[w] {
      var i: nat :| IsLast(entries, |entries|, i, w) && entries[i].1 == stored[w];
    }
    forall w | w in contents ensures w in stored {
      assert Listed(entries, w, contents[w]);
      var i :| 0 <= i < |entries| && entries[i] == (w, contents[w]);
    }
  }

  lemma EmptyTrie<U(!new), V>()
    ensures Shape([Node<U, V>.Node(map[], false, None)]) && Tidy([Node<U, V>.Node(map[], false, None)])
    ensures Holds([Node<U, V>.Node(map[], false, None)], map[])
    ensures NodeWords([Node<U, V>.Node(map[], false, None)], {[]})
  {
    var g: Graph<U, V> := [Node(map[], false, None)];
    assert Leads(g, 0, [], 0);
  }

  predicate NoValues<U, V(==)>(entries: seq<(seq<U>, Option<V>)>, n: nat) {
    forall i :: 0 <= i < n <= |entries| ==> entries[i].1 == None
  }

  /** Inserts all entries into a fresh trie. */
  method BuildTrie<U(==,!new), V(==,!new)>(entries: seq<(seq<U>, Option<V>)>)
    returns (g: seq<Node<U, V>>, ghost words: set<seq<U>>, ghost contents: map<seq<U>, Option<V>>)
    ensures Shape(g) && Tidy(g) && Holds(g, contents) && NodeWords(g, words)
    ensures LastWins(entries, |entries|, contents) && (NoValues(entries, |entries|) ==> ValueFree(g))
  {
    EmptyTrie<U, V>();
    g, words, contents := [Node(map[], false, None)], {[]}, map[];
    for n := 0 to |entries|
      invariant Shape(g) && Tidy(g) && Holds(g, contents) && NodeWords(g, words)
      invariant LastWins(entries, n, contents) && (NoValues(entries, n) ==> ValueFree(g))
    {
      ghost var before := g;
      g, words := InsertDirect(g, entries[n].0, entries[n].1, words);
      AddHolds(before, g, contents, entries[n].0, entries[n].1);
      LastWinsStep(entries, n, contents);
      contents := contents[entries[n].0 := entries[n].1];
    }
  }

  /**
   Rebuilds a graph from its entries: it stores exactly these, and two nodes have the same right
   language only if a value lies below one of them.
   */
  method Rebuild<U(==,!new), V(==,!new)>(entries: seq<(seq<U>, Option<V>)>, hash: (bool, map<U, nat>) -> nat)
    returns (k: seq<Node<U, V>>, merged: nat, ghost contents: map<seq<U>, Option<V>>)
    ensures LastWins(entries, |entries|, contents)
    ensures Sound(k) && Tidy(k) && AllLive(k) && Holds(k, contents) && MinimalButValues(k)
    ensures |k| + merged == |Prefixes(contents)|
    ensures NoValues(entries, |entries|) ==> ValueFree(k) && Minimal(k)
  {
    ghost var words;
    var g;
    g, words, contents := BuildTrie(entries);
    UpwardAligned(g);
    HoldsAcyclic(g, contents);
    k := Minimized(g, hash);
    merged := |g| - |k|;
    SameHolds(g, k, contents);
    forall w ensures w in words <==> w in Prefixes(contents) {
      PathsArePrefixes(g, contents, w);
    }
    assert words == Prefixes(contents);
    if ValueFree(k) {
      ValueFreeMinimal(k);
    }
  }
}
