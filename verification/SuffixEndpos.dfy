/**
 What the states of a suffix automaton are: two words lead to the same state exactly when
 they end at the same positions of the texts. The prefixes of the texts stand for the
 positions; every state differs from its suffix link in one of them.
 */
module SuffixEndpos {
  import opened Words
  import opened SuffixGraph
  import opened SuffixAttach
  import opened SuffixExtend

  /** A word of `ws` ends with the name of the link of `u`, but not with the name of `u`. */
  ghost predicate Parted<U(!new)>(g: Graph<U>, names: seq<seq<U>>, ws: iset<seq<U>>, u: nat)
    requires WellFormed(g) && |names| == |g| && 0 < u < |g|
  {
    exists x :: x in ws && IsSuffix(names[Link(g, u)], x) && !IsSuffix(names[u], x)
  }

  /** Every proper state is parted from its link. */
  ghost predicate Separated<U(!new)>(g: Graph<U>, names: seq<seq<U>>, ws: iset<seq<U>>)
    requires WellFormed(g) && |names| == |g|
  {
    forall u {:trigger Parted(g, names, ws, u)} :: 0 < u < |g| && Proper(g, u) ==> Parted(g, names, ws, u)
  }

  ghost predicate EndsWord<U(!new)>(s: seq<U>, ws: iset<seq<U>>) {
    exists x :: x in ws && IsSuffix(s, x)
  }

  /** The words of `ws` name states, and every name ends one of them. */
  ghost predicate EndWords<U(!new)>(names: seq<seq<U>>, ws: iset<seq<U>>) {
    && (forall x {:trigger x in ws} :: x in ws ==> x in names)
    && (forall v {:trigger EndsWord(names[v], ws)} :: 0 <= v < |names| ==> EndsWord(names[v], ws))
  }

  /** Whatever words stand for the positions so far, the new text prefix completes them. */
  ghost predicate Separates<U(!new)>(g: Graph<U>, names: seq<seq<U>>, h: Graph<U>, names': seq<seq<U>>, z: seq<U>)
    requires WellFormed(g) && |names| == |g| && WellFormed(h) && |names'| == |h|
  {
    forall ws: iset<seq<U>> {:trigger EndWords(names, ws)} ::
      EndWords(names, ws) && Separated(g, names, ws) ==> Separated(h, names', ws + iset{z})
  }

  lemma PartedMore<U(!new)>(g: Graph<U>, names: seq<seq<U>>, ws: iset<seq<U>>, h: Graph<U>, names': seq<seq<U>>,
                            z: seq<U>, u: nat)
    requires WellFormed(g) && |names| == |g| && 0 < u < |g| && Parted(g, names, ws, u)
    requires WellFormed(h) && |names'| == |h| && u < |h| && names'[u] == names[u]
    requires names'[Link(h, u)] == names[Link(g, u)]
    ensures Parted(h, names', ws + iset{z}, u)
  {
    var x :| x in ws && IsSuffix(names[Link(g, u)], x) && !IsSuffix(names[u], x);
    assert x in ws + iset{z};
  }

  /** A word that was not read before ends no earlier position. */
  lemma NewWordEndsNone<U(!new)>(g: Graph<U>, names: seq<seq<U>>, ws: iset<seq<U>>, z: seq<U>, x: seq<U>)
    requires Automaton(g, names) && EndWords(names, ws) && Reach(g, z).None? && x in ws
    ensures !IsSuffix(z, x)
  {
    LanguageOfNames(g, names, z);
    var w :| 0 <= w < |names| && names[w] == x;
  }

  /** The new state is parted from its link `t`, whose name ends an earlier position. */
  lemma NewParted<U(!new)>(g: Graph<U>, names: seq<seq<U>>, ws: iset<seq<U>>, h: Graph<U>, names': seq<seq<U>>,
                           z: seq<U>, q: nat)
    requires Automaton(g, names) && EndWords(names, ws) && Reach(g, z).None? && q < |g|
    requires WellFormed(h) && |names'| == |h| && |g| < |h| && names'[|g|] == z
    requires IsSuffix(names'[Link(h, |g|)], names[q])
    ensures Parted(h, names', ws + iset{z}, |g|)
  {
    assert EndsWord(names[q], ws);
    var x :| x in ws && IsSuffix(names[q], x);
    SuffixTransitive(names'[Link(h, |g|)], names[q], x);
    NewWordEndsNone(g, names, ws, z, x);
    assert x in ws + iset{z};
  }

  /** Extending without a split. */
  lemma ContinuousSeparates<U(!new)>(g: Graph<U>, h: Graph<U>, names: seq<seq<U>>, last: nat, c: U, bare: set<nat>,
                                     target: nat)
    requires Automaton(g, names) && last < |g| && target < |g| && Extended(g, h, last, c, bare, target) && WellFormed(h)
    requires Proper(h, |g|) <==> Reach(g, names[last] + [c]).None?
    requires forall v :: 0 <= v < |g| ==> Proper(h, v) == Proper(g, v)
    ensures Separates(g, names, h, names + [names[last] + [c]], names[last] + [c])
  {
    var z := names[last] + [c];
    var names' := names + [z];
    forall ws: iset<seq<U>> | EndWords(names, ws) && Separated(g, names, ws)
      ensures Separated(h, names', ws + iset{z})
    {
      forall u | 0 < u < |h| && Proper(h, u) ensures Parted(h, names', ws + iset{z}, u) {
        if u < |g| {
          assert Parted(g, names, ws, u);
          assert Link(h, u) == Link(g, u);
          PartedMore(g, names, ws, h, names', z, u);
        } else {
          NewParted(g, names, ws, h, names', z, target);
        }
      }
    }
  }

  /** A suffix of `last` longer than the state at which the walk stops leads to a state without the edge. */
  lemma LongSuffixBare<U(!new)>(g: Graph<U>, names: seq<seq<U>>, last: nat, c: U, bare: set<nat>, p: nat, s: seq<U>)
    requires Automaton(g, names) && last < |g| && Walk(g, last, c, bare, Some(p)) && p < |g|
    requires IsSuffix(s, names[last]) && |s| > g[p].len
    ensures Reach(g, s).Some? && c !in g[Reach(g, s).value].edges
  {
    assert ReadInto(g, s, last);
    ReadWord(g, names, s);
    var r := Reach(g, s).value;
    assert r in bare || OnChain(g, p, r);
  }

  /** The split state does not end the extended text: longer suffixes of `last` had no edge before. */
  lemma SplitNotSuffix<U(!new)>(g: Graph<U>, names: seq<seq<U>>, last: nat, c: U, bare: set<nat>, p: nat, q: nat)
    requires Automaton(g, names) && last < |g| && Walk(g, last, c, bare, Some(p)) && p < |g| && Proper(g, p)
    requires c in g[p].edges && g[p].edges[c] == q && g[q].len > g[p].len + 1
    ensures !IsSuffix(names[q], names[last] + [c])
  {
    assert EdgeFits(g, names, p, c);
    assert Homed(g, names, q);
    if IsSuffix(names[q], names[last] + [c]) {
      var s := SuffixUnsnoc(names[q], names[last], c);
      ReachSnoc(g, s, c);
      LongSuffixBare(g, names, last, c, bare, p, s);
    }
  }

  /** In the old graph the clone's word ends only where the split state's name does. */
  lemma CloneEndsWithSplit<U(!new)>(g: Graph<U>, names: seq<seq<U>>, c: U, p: nat, q: nat, w: nat)
    requires Automaton(g, names) && p < |g| && Proper(g, p) && c in g[p].edges && g[p].edges[c] == q && w < |g|
    ensures IsSuffix(names[p] + [c], names[w]) ==> IsSuffix(names[q], names[w])
  {
    if IsSuffix(names[p] + [c], names[w]) {
      assert ReadInto(g, names[p] + [c], w);
      assert Homed(g, names, p);
      ReachSnoc(g, names[p], c);
      ChainNames(g, names, w, q);
    }
  }

  /** The split state is parted from the clone by the extended text. */
  lemma SplitStateParted<U(!new)>(g: Graph<U>, h: Graph<U>, names: seq<seq<U>>, names': seq<seq<U>>, last: nat, c: U,
                                  bare: set<nat>, p: nat, q: nat, ws: iset<seq<U>>)
    requires Automaton(g, names) && last < |g| && Walk(g, last, c, bare, Some(p)) && p < |g| && Proper(g, p)
    requires c in g[p].edges && g[p].edges[c] == q && g[q].len > g[p].len + 1
    requires WellFormed(h) && |names'| == |h| && 0 < q < |h| && names'[q] == names[q]
    requires names'[Link(h, q)] == names[p] + [c]
    ensures Parted(h, names', ws + iset{names[last] + [c]}, q)
  {
    var z := names[last] + [c];
    ChainNames(g, names, last, p);
    SuffixSnoc(names[p], names[last], c);
    SplitNotSuffix(g, names, last, c, bare, p, q);
    assert z in ws + iset{z};
  }

  /** The clone is parted from its link where the split state was. */
  lemma CloneParted<U(!new)>(g: Graph<U>, h: Graph<U>, names: seq<seq<U>>, names': seq<seq<U>>, c: U, p: nat, q: nat,
                             ws: iset<seq<U>>, z: seq<U>, u: nat)
    requires Automaton(g, names) && p < |g| && Proper(g, p) && c in g[p].edges && g[p].edges[c] == q && 0 < q < |g|
    requires EndWords(names, ws) && Parted(g, names, ws, q)
    requires WellFormed(h) && |names'| == |h| && 0 < u < |h| && names'[u] == names[p] + [c]
    requires names'[Link(h, u)] == names[Link(g, q)]
    ensures Parted(h, names', ws + iset{z}, u)
  {
    var x :| x in ws && IsSuffix(names[Link(g, q)], x) && !IsSuffix(names[q], x);
    assert x in names;
    var w: nat :| w < |names| && names[w] == x;
    CloneEndsWithSplit(g, names, c, p, q, w);
    assert x in ws + iset{z};
  }

  /** The links after a split of `q`. */
  predicate SplitLinked<U>(g: Graph<U>, h: Graph<U>, q: nat)
    requires WellFormed(g) && WellFormed(h)
  {
    && |h| == |g| + 2 && 0 < q < |g|
    && Link(h, q) == |g| + 1 && Link(h, |g|) == |g| + 1 && Link(h, |g| + 1) == Link(g, q)
    && (forall u :: 0 < u < |g| && u != q ==> Link(h, u) == Link(g, u))
  }

  /** The old names, then those of the new state and the clone. */
  predicate SplitNamed<U(==)>(names: seq<seq<U>>, names': seq<seq<U>>, z: seq<U>, y: seq<U>) {
    && |names'| == |names| + 2 && names'[|names|] == z && names'[|names| + 1] == y
    && (forall v :: 0 <= v < |names| ==> names'[v] == names[v])
  }

  /** The states that are not split, and the new state. */
  lemma OthersParted<U(!new)>(g: Graph<U>, h: Graph<U>, names: seq<seq<U>>, names': seq<seq<U>>, z: seq<U>, y: seq<U>,
                              q: nat, ws: iset<seq<U>>, u: nat)
    requires Automaton(g, names) && WellFormed(h) && SplitLinked(g, h, q) && SplitNamed(names, names', z, y)
    requires IsSuffix(y, names[q])
    requires EndWords(names, ws) && 0 < u <= |g| && u != q
    requires if u < |g| then Parted(g, names, ws, u) else Reach(g, z).None?
    ensures Parted(h, names', ws + iset{z}, u)
  {
    if u < |g| {
      PartedMore(g, names, ws, h, names', z, u);
    } else {
      NewParted(g, names, ws, h, names', z, q);
    }
  }

  lemma SplitLinks<U(!new)>(g: Graph<U>, h: Graph<U>, names: seq<seq<U>>, last: nat, c: U, bare: set<nat>, p: nat,
                            q: nat, moved: set<nat>)
    requires Automaton(g, names) && last < |g| && p < |g| && Proper(g, p) && c in g[p].edges && g[p].edges[c] == q
    requires SplitExtended(g, h, last, c, bare, p, q, moved) && WellFormed(h)
    ensures SplitLinked(g, h, q) && Proper(g, q) && IsSuffix(names[p] + [c], names[q])
  {
    assert EdgeFits(g, names, p, c);
  }

  /** Extending with a split. */
  lemma SplitSeparates<U(!new)>(g: Graph<U>, h: Graph<U>, names: seq<seq<U>>, names': seq<seq<U>>, last: nat, c: U,
                                bare: set<nat>, p: nat, q: nat)
    requires Automaton(g, names) && last < |g| && Walk(g, last, c, bare, Some(p)) && p < |g| && Proper(g, p)
    requires c in g[p].edges && g[p].edges[c] == q && g[q].len > g[p].len + 1
    requires WellFormed(h) && SplitLinked(g, h, q) && SplitNamed(names, names', names[last] + [c], names[p] + [c])
    requires Proper(g, q) && IsSuffix(names[p] + [c], names[q])
    requires Proper(h, |g|) <==> Reach(g, names[last] + [c]).None?
    requires forall v :: 0 <= v < |g| ==> Proper(h, v) == Proper(g, v)
    ensures Separates(g, names, h, names', names[last] + [c])
  {
    var z := names[last] + [c];
    forall ws: iset<seq<U>> | EndWords(names, ws) && Separated(g, names, ws)
      ensures Separated(h, names', ws + iset{z})
    {
      forall u | 0 < u < |h| && Proper(h, u) ensures Parted(h, names', ws + iset{z}, u) {
        if u == q {
          SplitStateParted(g, h, names, names', last, c, bare, p, q, ws);
        } else if u <= |g| {
          assert u < |g| ==> Parted(g, names, ws, u);
          OthersParted(g, h, names, names', z, names[p] + [c], q, ws, u);
        } else {
          assert Parted(g, names, ws, q);
          CloneParted(g, h, names, names', c, p, q, ws, z, u);
        }
      }
    }
  }
}
