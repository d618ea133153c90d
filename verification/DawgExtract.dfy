/** Listing all entries of a DAWG: a depth-first walk over its paths, which keeps the word read so far. */
module DawgExtract {
  import opened Words
  import opened DawgGraph
  import opened DawgEdit
  import opened DawgMinimal
  import opened DawgSignatures
  import opened DawgTidy
  import opened DawgStored

  /** The frames stand at the nodes that the prefixes of `term` lead to. */
  ghost predicate AtPrefixes<U(!new), V>(g: Graph<U, V>, f: Frames<U>, term: seq<U>)
    requires WellFormed(g)
    decreases f
  {
    f.Frame? ==>
      && f.node < |g| && Leads(g, 0, term, f.node) && f.todo <= g[f.node].edges.Keys
      && (f.below.Frame? <==> term != [])
      && (term != [] ==> term[|term| - 1] !in f.below.todo && AtPrefixes(g, f.below, term[..|term| - 1]))
  }

  /** `w` goes on from a prefix of `term` by a label that is still to be followed there. */
  ghost predicate Pending<U(!new)>(f: Frames<U>, term: seq<U>, w: seq<U>)
    decreases f
  {
    && f.Frame?
    && ((term <= w && |term| < |w| && w[|term|] in f.todo) || (term != [] && Pending(f.below, term[..|term| - 1], w)))
  }

  /** The words that are read and not pending are those that were seen. */
  ghost predicate Walked<U(!new), V>(g: Graph<U, V>, f: Frames<U>, term: seq<U>, seen: set<seq<U>>)
    requires WellFormed(g)
  {
    forall w :: w in seen <==> Observe(g, 0, w).Some? && !Pending(f, term, w)
  }

  /** `w` is listed with its value. */
  predicate Listed<U(==), V(==)>(entries: seq<(seq<U>, Option<V>)>, w: seq<U>, value: Option<V>) {
    (w, value) in entries
  }

  predicate DistinctWords<U(==), V>(entries: seq<(seq<U>, Option<V>)>) {
    forall i, j :: 0 <= i < j < |entries| ==> entries[i].0 != entries[j].0
  }

  /** Exactly the accepted words out of `seen` are listed, once each. */
  ghost predicate ListsSeen<U(!new), V>(g: Graph<U, V>, entries: seq<(seq<U>, Option<V>)>, seen: set<seq<U>>)
    requires WellFormed(g)
  {
    && DistinctWords(entries)
    && (forall i :: 0 <= i < |entries| ==>
          entries[i].0 in seen && Stored(g, 0, entries[i].0) == Some(entries[i].1))
    && (forall w :: w in seen && Accepts(g, 0, w) ==> Listed(entries, w, Stored(g, 0, w).value))
  }

  /** A word that goes on from `term` is not pending further below. */
  lemma {:induction false} NotBelow<U(!new), V>(g: Graph<U, V>, f: Frames<U>, term: seq<U>, w: seq<U>)
    requires WellFormed(g) && f.Frame? && AtPrefixes(g, f, term) && term <= w && term != []
    ensures !Pending(f.below, term[..|term| - 1], w)
    decreases f
  {
    var t := term[..|term| - 1];
    assert w[|t|] == term[|t|];
    if t != [] {
      NotBelow(g, f.below, t, w);
    }
  }

  /** Following a label: exactly the longer word is seen now. */
  lemma Follow<U(!new), V>(g: Graph<U, V>, f: Frames<U>, term: seq<U>, c: U, w: seq<U>)
    requires WellFormed(g) && f.Frame? && AtPrefixes(g, f, term) && c in f.todo && Observe(g, 0, w).Some?
    ensures var f' := Frame(g[f.node].edges[c], g[g[f.node].edges[c]].edges.Keys, f.(todo := f.todo - {c}));
      Pending(f', term + [c], w) <==> Pending(f, term, w) && w != term + [c]
  {
    var u := g[f.node].edges[c];
    var longer := term + [c];
    var rest := f.(todo := f.todo - {c});
    var f' := Frame(u, g[u].edges.Keys, rest);
    assert longer[..|term|] == term;
    if term <= w && |term| < |w| {
      if term != [] {
        NotBelow(g, f, term, w);
      }
      if w[|term|] == c {
        assert longer <= w;
        if |w| > |longer| {
          ObserveAfter(g, 0, term, f.node, w[|term|..]);
          assert term + w[|term|..] == w;
          assert w[|term|..][0] == c && w[|term|..][1..][0] == w[|longer|];
        }
      }
    }
  }

  lemma FollowFrames<U(!new), V>(g: Graph<U, V>, f: Frames<U>, term: seq<U>, c: U)
    requires WellFormed(g) && f.Frame? && AtPrefixes(g, f, term) && c in f.todo
    ensures var f' := Frame(g[f.node].edges[c], g[g[f.node].edges[c]].edges.Keys, f.(todo := f.todo - {c}));
      AtPrefixes(g, f', term + [c])
  {
    assert (term + [c])[..|term|] == term;
    EdgeLeads(g, f.node, c, g[f.node].edges[c]);
    LeadsAfter(g, 0, term, f.node, [c], g[f.node].edges[c]);
  }

  /** The word of a node that is entered now, with the node's value if it is final. */
  function Entry<U, V>(g: Graph<U, V>, v: nat, term: seq<U>): seq<(seq<U>, Option<V>)>
    requires v < |g|
  {
    if g[v].isFinal then [(term, g[v].value)] else []
  }

  lemma LeadsStored<U, V>(g: Graph<U, V>, w: seq<U>, v: nat)
    requires WellFormed(g) && Leads(g, 0, w, v) && v < |g|
    ensures Observe(g, 0, w).Some? && Stored(g, 0, w) == if g[v].isFinal then Some(g[v].value) else None
  {
    ObserveAfter(g, 0, w, v, []);
    assert w + [] == w;
  }

  lemma ListNew<U(!new), V>(g: Graph<U, V>, entries: seq<(seq<U>, Option<V>)>, seen: set<seq<U>>, w: seq<U>, v: nat)
    requires WellFormed(g) && ListsSeen(g, entries, seen) && w !in seen && v < |g| && Leads(g, 0, w, v)
    ensures ListsSeen(g, entries + Entry(g, v, w), seen + {w})
  {
    LeadsStored(g, w, v);
    var longer := entries + Entry(g, v, w);
    forall z | z in seen + {w} && Accepts(g, 0, z) ensures Listed(longer, z, Stored(g, 0, z).value) {
      if z in seen {
        assert Listed(entries, z, Stored(g, 0, z).value);
      } else {
        assert longer[|entries|] == (w, g[v].value);
      }
    }
  }

  /** The entries are those of `contents`, each once. */
  ghost predicate Lists<U(!new), V>(entries: seq<(seq<U>, Option<V>)>, contents: map<seq<U>, Option<V>>) {
    && DistinctWords(entries)
    && (forall i :: 0 <= i < |entries| ==>
          entries[i].0 in contents && contents[entries[i].0] == entries[i].1)
    && (forall w :: w in contents ==> Listed(entries, w, contents[w]))
  }

  lemma AllListed<U(!new), V>(g: Graph<U, V>, entries: seq<(seq<U>, Option<V>)>, seen: set<seq<U>>,
                              contents: map<seq<U>, Option<V>>)
    requires WellFormed(g) && Holds(g, contents) && ListsSeen(g, entries, seen) && Walked(g, Empty, [], seen)
    ensures Lists(entries, contents)
  {
    forall i | 0 <= i < |entries| ensures entries[i].0 in contents && contents[entries[i].0] == entries[i].1 {
      assert Stored(g, 0, entries[i].0) == Some(entries[i].1);
    }
    forall w | w in contents ensures Listed(entries, w, contents[w]) {
      assert Stored(g, 0, w) == Some(contents[w]);
      assert w in seen && Accepts(g, 0, w);
    }
  }

  /** What the walk keeps. */
  ghost predicate Extracting<U(!new), V>(g: Graph<U, V>, f: Frames<U>, term: seq<U>, seen: set<seq<U>>,
        entries: seq<(seq<U>, Option<V>)>)
    requires WellFormed(g)
  {
    AtPrefixes(g, f, term) && Walked(g, f, term, seen) && ListsSeen(g, entries, seen)
  }

  lemma FollowStep<U(!new), V>(g: Graph<U, V>, f: Frames<U>, term: seq<U>, c: U, seen: set<seq<U>>,
                               entries: seq<(seq<U>, Option<V>)>)
    requires WellFormed(g) && f.Frame? && Extracting(g, f, term, seen, entries) && c in f.todo && c in g[f.node].edges
    ensures var u := g[f.node].edges[c];
      && Extracting(g, Frame(u, g[u].edges.Keys, f.(todo := f.todo - {c})), term + [c], seen + {term + [c]},
        entries + Entry(g, u, term + [c]))
      && term + [c] !in seen && Observe(g, 0, term + [c]).Some?
  {
    var u, longer := g[f.node].edges[c], term + [c];
    var f' := Frame(u, g[u].edges.Keys, f.(todo := f.todo - {c}));
    FollowFrames(g, f, term, c);
    LeadsStored(g, longer, u);
    assert Pending(f, term, longer);
    ListNew(g, entries, seen, longer, u);
    forall w ensures w in seen + {longer} <==> Observe(g, 0, w).Some? && !Pending(f', longer, w) {
      if Observe(g, 0, w).Some? {
        Follow(g, f, term, c, w);
      }
    }
  }

  lemma PopStep<U(!new), V>(g: Graph<U, V>, f: Frames<U>, term: seq<U>, seen: set<seq<U>>,
                            entries: seq<(seq<U>, Option<V>)>)
    requires WellFormed(g) && f.Frame? && Extracting(g, f, term, seen, entries) && f.todo == {}
    ensures Extracting(g, f.below, if term == [] then [] else term[..|term| - 1], seen, entries)
  {
    var t := if term == [] then [] else term[..|term| - 1];
    forall w ensures Pending(f, term, w) == Pending(f.below, t, w) {
    }
  }

  lemma WalkStart<U(!new), V>(g: Graph<U, V>)
    requires WellFormed(g)
    ensures Extracting(g, Frame(0, g[0].edges.Keys, Empty), [], {[]}, Entry(g, 0, []))
  {
    var f := Frame(0, g[0].edges.Keys, Empty);
    assert Leads(g, 0, [], 0);
    assert [] + Entry(g, 0, []) == Entry(g, 0, []);
    var none: set<seq<U>> := {};
    assert none + {[]} == {[]};
    ListNew(g, [], none, [], 0);
  }

  /** Lists every stored word with its value, once. */
  method Extract<U(!new), V>(g: Graph<U, V>, ghost contents: map<seq<U>, Option<V>>)
    returns (entries: seq<(seq<U>, Option<V>)>)
    requires Sound(g) && Tidy(g) && Holds(g, contents)
    ensures Lists(entries, contents)
  {
    var term: seq<U> := [];
    entries := Entry(g, 0, term);
    var frames := Frame(0, g[0].edges.Keys, Empty);
    ghost var seen: set<seq<U>> := {[]};
    ghost var all := Prefixes(contents);
    WalkStart(g);
    while frames.Frame?
      invariant Extracting(g, frames, term, seen, entries) && seen <= all && (frames.Empty? ==> term == [])
      decreases all - seen, frames.Work()
    {
      if frames.todo != {} {
        var c :| c in frames.todo;
        FollowStep(g, frames, term, c, seen, entries);
        PathsArePrefixes(g, contents, term + [c]);
        var child := g[frames.node].edges[c];
        term := term + [c];
        seen := seen + {term};
        entries := entries + Entry(g, child, term);
        frames := Frame(child, g[child].edges.Keys, frames.(todo := frames.todo - {c}));
      } else {
        PopStep(g, frames, term, seen, entries);
        frames := frames.below;
        if frames.Frame? {
          term := term[..|term| - 1];
        }
      }
    }
    AllListed(g, entries, seen, contents);
  }
}
