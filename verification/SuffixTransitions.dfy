/**
 How many transitions the automaton of one text has. An edge to a state one longer than its
 source is primary; a state has at most one of these. For any other edge the source's name and
 the label form a word that names no state; the suffixes of the text that start with such words
 are different for different edges, and the text itself is none of them.
 */
module SuffixTransitions {
  import opened Words
  import opened SuffixGraph
  import opened SuffixIndex
  import opened SuffixEndpos
  import opened SuffixClasses

  function Edges<U>(g: Graph<U>): set<(nat, U)> {
    set v: nat, c | v < |g| && c in g[v].edges :: (v, c)
  }

  predicate Primary<U>(g: Graph<U>, v: nat, c: U)
    requires WellFormed(g) && v < |g| && c in g[v].edges
  {
    g[g[v].edges[c]].len == g[v].len + 1
  }

  /** The automaton of one text, none of whose states is a leftover. */
  ghost predicate OneText<U(!new)>(g: Graph<U>, names: seq<seq<U>>, text: seq<U>) {
    && Automaton(g, names) && AllProper(g)
    && Indexed(names, text, |text|)
    && (forall w {:trigger w in names} :: w in names ==> w == [] || OccursBy(w, text, |text|))
  }

  // ---- Names ----

  /** Reading on from a state, its name grows at the end, and perhaps at the front. */
  lemma {:induction false} NamesGrow<U(!new)>(g: Graph<U>, names: seq<seq<U>>, u: nat, r: seq<U>)
    requires Automaton(g, names) && u < |g| && Proper(g, u) && Read(g, u, r).Some?
    ensures Proper(g, Read(g, u, r).value) && IsSuffix(names[u] + r, names[Read(g, u, r).value])
    decreases |r|
  {
    if r == [] {
      assert names[u] + r == names[u];
    } else {
      var s, c := Unsnoc(r);
      ReadSnoc(g, u, s, c);
      NamesGrow(g, names, u, s);
      var v := Read(g, u, s).value;
      assert EdgeFits(g, names, v, c);
      SuffixSnoc(names[u] + s, names[v], c);
      assert names[u] + r == names[u] + s + [c];
      SuffixTransitive(names[u] + r, names[v] + [c], names[g[v].edges[c]]);
    }
  }

  lemma {:induction false} ReadSplit<U>(g: Graph<U>, v: nat, s: seq<U>, r: seq<U>)
    requires WellFormed(g) && v < |g| && Read(g, v, s + r).Some?
    ensures Read(g, v, s).Some? && Read(g, Read(g, v, s).value, r) == Read(g, v, s + r)
    decreases |s|
  {
    if s == [] {
      assert s + r == r;
    } else {
      assert (s + r)[1..] == s[1..] + r;
      ReadSplit(g, g[v].edges[s[0]], s[1..], r);
    }
  }

  /** A prefix of a name is a name. */
  lemma PrefixIsName<U(!new)>(g: Graph<U>, names: seq<seq<U>>, v: nat, p: seq<U>) returns (u: nat)
    requires Automaton(g, names) && v < |g| && Proper(g, v) && p <= names[v]
    ensures u < |g| && Reach(g, p) == Some(u) && names[u] == p
  {
    var r := names[v][|p|..];
    assert p + r == names[v] && Homed(g, names, v);
    ReadSplit(g, 0, p, r);
    u := Reach(g, p).value;
    ReadWord(g, names, p);
    NamesGrow(g, names, u, r);
    SameLengthSuffix(p, names[u]);
  }

  /** The word of an edge: the name of its source and its label. */
  function EdgeWord<U>(names: seq<seq<U>>, e: (nat, U)): seq<U>
    requires e.0 < |names|
  {
    names[e.0] + [e.1]
  }

  /** The word of an edge is a name exactly if the edge is primary. */
  lemma EdgeNamed<U(!new)>(g: Graph<U>, names: seq<seq<U>>, v: nat, c: U, u: nat)
    requires Automaton(g, names) && v < |g| && Proper(g, v) && c in g[v].edges && u < |g| && Proper(g, u)
    ensures names[u] == names[v] + [c] <==> Primary(g, v, c) && u == g[v].edges[c]
  {
    assert EdgeFits(g, names, v, c) && Homed(g, names, v) && Homed(g, names, u);
    ReachSnoc(g, names[v], c);
    if Primary(g, v, c) {
      SameLengthSuffix(names[v] + [c], names[g[v].edges[c]]);
    }
  }

  lemma NotToRoot<U(!new)>(g: Graph<U>, names: seq<seq<U>>, v: nat, c: U)
    requires Automaton(g, names) && v < |g| && Proper(g, v) && c in g[v].edges
    ensures g[v].edges[c] != 0
  {
    assert EdgeFits(g, names, v, c);
  }

  // ---- Counting primary edges ----

  lemma {:induction false} PrimaryCount<U(!new)>(g: Graph<U>, names: seq<seq<U>>, s: set<(nat, U)>, n: nat)
    requires Automaton(g, names) && AllProper(g) && 0 < n <= |g|
    requires forall e {:trigger e in s} :: e in s ==>
      e.0 < |g| && e.1 in g[e.0].edges && Primary(g, e.0, e.1) && 0 < g[e.0].edges[e.1] < n
    ensures |s| <= n - 1
    decreases n
  {
    if n == 1 {
      assert s == {};
    } else if e :| e in s && g[e.0].edges[e.1] == n - 1 {
      var t := s - {e};
      forall d | d in t ensures g[d.0].edges[d.1] < n - 1 {
        if g[d.0].edges[d.1] == n - 1 {
          SameEdge(g, names, d, e, n - 1);
        }
      }
      PrimaryCount(g, names, t, n - 1);
    } else {
      PrimaryCount(g, names, s, n - 1);
    }
  }

  lemma SameEdge<U(!new)>(g: Graph<U>, names: seq<seq<U>>, d: (nat, U), e: (nat, U), u: nat)
    requires Automaton(g, names) && AllProper(g) && u < |g| && d.0 < |g| && e.0 < |g|
    requires d.1 in g[d.0].edges && g[d.0].edges[d.1] == u && Primary(g, d.0, d.1)
    requires e.1 in g[e.0].edges && g[e.0].edges[e.1] == u && Primary(g, e.0, e.1)
    ensures d == e
  {
    assert Proper(g, d.0) && Proper(g, e.0) && Proper(g, u);
    EdgeNamed(g, names, d.0, d.1, u);
    EdgeNamed(g, names, e.0, e.1, u);
    WordTells(g, names, d, e);
  }

  lemma WordTells<U(!new)>(g: Graph<U>, names: seq<seq<U>>, d: (nat, U), e: (nat, U))
    requires Automaton(g, names) && AllProper(g) && d.0 < |g| && e.0 < |g| && EdgeWord(names, d) == EdgeWord(names, e)
    ensures d == e
  {
    var w, z := names[d.0], names[e.0];
    assert w == (w + [d.1])[..|w|] && z == (z + [e.1])[..|z|] && (w + [d.1])[|w|] == d.1 && (z + [e.1])[|z|] == e.1;
    assert Proper(g, d.0) && Proper(g, e.0);
    assert Homed(g, names, d.0) && Homed(g, names, e.0);
  }

  // ---- Counting the others ----

  /** The word of the edge stands in the text at `k`. */
  predicate StandsAt<U(==)>(names: seq<seq<U>>, text: seq<U>, e: (nat, U), k: nat) {
    e.0 < |names| && k <= |text| && EdgeWord(names, e) <= text[k..]
  }

  /** Where the word of one edge that is not primary stands, that of another does not. */
  lemma StandsApart<U(!new)>(g: Graph<U>, names: seq<seq<U>>, text: seq<U>, d: (nat, U), e: (nat, U), k: nat)
    requires Automaton(g, names) && AllProper(g) && d.0 < |g| && e.0 < |g| && d.1 in g[d.0].edges
    requires !Primary(g, d.0, d.1)
    requires StandsAt(names, text, d, k) && StandsAt(names, text, e, k) && |names[d.0]| <= |names[e.0]|
    ensures d == e
  {
    var w, z := EdgeWord(names, d), EdgeWord(names, e);
    assert Proper(g, d.0) && Proper(g, e.0);
    if |w| < |z| {
      assert w <= names[e.0] by {
        forall i | 0 <= i < |w| ensures w[i] == names[e.0][i] {
          assert w[i] == text[k..][i] == z[i];
        }
      }
      var u := PrefixIsName(g, names, e.0, w);
      assert Proper(g, u);
      EdgeNamed(g, names, d.0, d.1, u);
    } else {
      assert w == text[k..][..|w|] == z;
      WordTells(g, names, d, e);
    }
  }

  /** `s` holds edges that are not primary, with words that stand in the text at 1 or later, but before `n`. */
  ghost predicate Secondary<U(!new)>(g: Graph<U>, names: seq<seq<U>>, text: seq<U>, s: set<(nat, U)>, n: nat)
    requires WellFormed(g)
  {
    forall e {:trigger e in s} :: e in s ==>
      && e.0 < |g| && e.1 in g[e.0].edges && !Primary(g, e.0, e.1)
      && exists k: nat :: 0 < k < n && StandsAt(names, text, e, k)
  }

  lemma {:induction false} SecondaryCount<U(!new)>(g: Graph<U>, names: seq<seq<U>>, text: seq<U>, s: set<(nat, U)>,
        n: nat)
    requires Automaton(g, names) && AllProper(g) && n > 0 && Secondary(g, names, text, s, n)
    ensures |s| <= n - 1
    decreases n
  {
    if n == 1 {
      assert s == {};
    } else if e :| e in s && StandsAt(names, text, e, n - 1) {
      var t := s - {e};
      forall d | d in t ensures exists k: nat :: 0 < k < n - 1 && StandsAt(names, text, d, k) {
        var k: nat :| 0 < k < n && StandsAt(names, text, d, k);
        if k == n - 1 {
          if |names[d.0]| <= |names[e.0]| {
            StandsApart(g, names, text, d, e, k);
          } else {
            StandsApart(g, names, text, e, d, k);
          }
        }
      }
      SecondaryCount(g, names, text, t, n - 1);
    } else {
      forall d | d in s ensures exists k: nat :: 0 < k < n - 1 && StandsAt(names, text, d, k) {
        var k: nat :| 0 < k < n && StandsAt(names, text, d, k);
      }
      SecondaryCount(g, names, text, s, n - 1);
    }
  }

  // ---- All edges ----

  /** The word of an edge occurs in the text. */
  lemma WordStands<U(!new)>(g: Graph<U>, names: seq<seq<U>>, text: seq<U>, e: (nat, U)) returns (k: nat)
    requires OneText(g, names, text) && e.0 < |g| && e.1 in g[e.0].edges
    ensures k < |text| && StandsAt(names, text, e, k)
  {
    var w := EdgeWord(names, e);
    assert Proper(g, e.0);
    assert EdgeFits(g, names, e.0, e.1);
    var u := g[e.0].edges[e.1];
    assert names[u] in names && names[u] != [];
    var end: nat :| end <= |text| && EndsAt(names[u], text, end);
    SuffixTransitive(w, names[u], text[..end]);
    k := end - |w|;
    forall i | 0 <= i < |w| ensures w[i] == text[k..][i] {
      assert w[i] == text[..end][end - |w| + i];
    }
  }

  lemma PrefixState<U(!new)>(g: Graph<U>, names: seq<seq<U>>, text: seq<U>, k: nat) returns (u: nat)
    requires OneText(g, names, text) && k <= |text|
    ensures u < |g| && names[u] == text[..k]
  {
    assert PrefixNamed(names, text, k);
    u :| u < |names| && names[u] == text[..k];
  }

  /** The word of an edge that is not primary does not stand at the beginning. */
  lemma NotAtStart<U(!new)>(g: Graph<U>, names: seq<seq<U>>, text: seq<U>, e: (nat, U))
    requires OneText(g, names, text) && e.0 < |g| && e.1 in g[e.0].edges && StandsAt(names, text, e, 0)
    ensures Primary(g, e.0, e.1)
  {
    var w := EdgeWord(names, e);
    assert text[0..] == text && w == text[..|w|];
    var u := PrefixState(g, names, text, |w|);
    assert Proper(g, e.0) && Proper(g, u);
    EdgeNamed(g, names, e.0, e.1, u);
  }

  /** If the last unit alone is a name, no such word stands there. */
  lemma NotAtEnd<U(!new)>(g: Graph<U>, names: seq<seq<U>>, text: seq<U>, e: (nat, U))
    requires OneText(g, names, text) && e.0 < |g| && e.1 in g[e.0].edges
    requires text != [] && [text[|text| - 1]] in names && StandsAt(names, text, e, |text| - 1)
    ensures Primary(g, e.0, e.1)
  {
    var w := EdgeWord(names, e);
    assert |w| == 1 && w == [text[|text| - 1]];
    var u: nat :| u < |names| && names[u] == w;
    assert Proper(g, e.0) && Proper(g, u);
    EdgeNamed(g, names, e.0, e.1, u);
  }

  lemma PrimaryBound<U(!new)>(g: Graph<U>, names: seq<seq<U>>, s: set<(nat, U)>)
    requires Automaton(g, names) && AllProper(g)
    requires forall e {:trigger e in s} :: e in s ==> e.0 < |g| && e.1 in g[e.0].edges && Primary(g, e.0, e.1)
    ensures |s| <= |g| - 1
  {
    forall e | e in s ensures 0 < g[e.0].edges[e.1] {
      assert Proper(g, e.0);
      NotToRoot(g, names, e.0, e.1);
    }
    PrimaryCount(g, names, s, |g|);
  }

  /** The last unit alone is a name. */
  predicate LastNamed<U(==)>(names: seq<seq<U>>, text: seq<U>) {
    |text| > 1 && [text[|text| - 1]] in names
  }

  lemma OthersStand<U(!new)>(g: Graph<U>, names: seq<seq<U>>, text: seq<U>, e: (nat, U)) returns (k: nat)
    requires OneText(g, names, text) && e.0 < |g| && e.1 in g[e.0].edges && !Primary(g, e.0, e.1)
    ensures 0 < k < (if LastNamed(names, text) then |text| - 1 else |text|) && StandsAt(names, text, e, k)
  {
    k := WordStands(g, names, text, e);
    if k == 0 {
      NotAtStart(g, names, text, e);
    } else if LastNamed(names, text) && k == |text| - 1 {
      NotAtEnd(g, names, text, e);
    }
  }

  lemma OthersBound<U(!new)>(g: Graph<U>, names: seq<seq<U>>, text: seq<U>, s: set<(nat, U)>)
    requires OneText(g, names, text) && text != []
    requires forall e {:trigger e in s} :: e in s ==> e.0 < |g| && e.1 in g[e.0].edges && !Primary(g, e.0, e.1)
    ensures |s| <= |text| - if LastNamed(names, text) then 2 else 1
  {
    var n := if LastNamed(names, text) then |text| - 1 else |text|;
    forall e | e in s ensures exists k: nat :: 0 < k < n && StandsAt(names, text, e, k) {
      var k := OthersStand(g, names, text, e);
    }
    SecondaryCount(g, names, text, s, n);
  }

  /** One edge for each state but the root, and one for each position where the words of others can stand. */
  lemma EdgeBound<U(!new)>(g: Graph<U>, names: seq<seq<U>>, text: seq<U>)
    requires OneText(g, names, text) && text != []
    ensures |Edges(g)| <= |g| - 1 + |text| - if LastNamed(names, text) then 2 else 1
  {
    var all := Edges(g);
    var first := set e | e in all && Primary(g, e.0, e.1);
    PrimaryBound(g, names, first);
    OthersBound(g, names, text, all - first);
    assert all == first + (all - first);
  }

  // ---- The bound ----

  /** In a text of two units only, each of which follows and precedes different ones, both are names. */
  lemma UnitNamed<U(!new)>(g: Graph<U>, names: seq<seq<U>>, text: seq<U>, c: U)
    requires OneText(g, names, text) && EndWords(names, PrefixWords([text])) && TwoUnits(text, |text|) && c in text
    ensures [c] in names
  {
    var u := PrefixState(g, names, text, 1);
    if c == text[0] {
      assert text[..1] == [c];
    } else {
      var v := SecondUnit(g, names, text);
      assert names[v] == [c];
    }
  }

  lemma LastButOne<U>(w: seq<U>, x: seq<U>)
    requires IsSuffix(w, x)
    ensures |w| < 2 || w[|w| - 2] == x[|x| - 2]
  {
  }

  /** The second unit stands after itself and after another, so no longer word ends at the same positions. */
  lemma SecondUnit<U(!new)>(g: Graph<U>, names: seq<seq<U>>, text: seq<U>) returns (v: nat)
    requires OneText(g, names, text) && EndWords(names, PrefixWords([text])) && TwoUnits(text, |text|)
    ensures v < |g| && names[v] == [text[1]]
  {
    var c := text[1];
    var x, y := text[..2], text[..3];
    assert x <= [text][0] && y <= [text][0];
    assert x in PrefixWords([text]) && y in PrefixWords([text]);
    assert IsSuffix([c], x) && IsSuffix([c], y);
    var u := PrefixState(g, names, text, 2);
    assert ReadInto(g, [c], u);
    v := Reach(g, [c]).value;
    ReadWord(g, names, [c]);
    StateEnds(g, names, PrefixWords([text]), [c], x);
    StateEnds(g, names, PrefixWords([text]), [c], y);
    var w := names[v];
    LastButOne(w, x);
    LastButOne(w, y);
    SameLengthSuffix([c], w);
  }

  /** Where the edges of an automaton of two different units are. */
  lemma ThreeEdges<U(!new)>(g: Graph<U>, names: seq<seq<U>>, text: seq<U>)
    requires OneText(g, names, text) && |text| == 2 && text[0] != text[1]
    ensures |Edges(g)| >= 3
  {
    var a, b := text[0], text[1];
    var u := PrefixState(g, names, text, 1);
    var v := PrefixState(g, names, text, 2);
    assert text[..1] == [a] && text[..2] == [a, b];
    assert Proper(g, u) && Proper(g, v);
    assert Homed(g, names, u) && Homed(g, names, v);
    ReachSnoc(g, [], a);
    assert [] + [a] == [a] && [] + [b] == [b] && [a] + [b] == [a, b];
    ReachSnoc(g, [a], b);
    assert IsSuffix([b], names[v]);
    assert ReadInto(g, [b], v);
    ReachSnoc(g, [], b);
    var few := {(0, a), (0, b), (u, b)};
    assert u != 0 by {
      assert |names[u]| == 1 && |names[0]| == 0;
    }
    assert |few| == 3;
    assert few <= Edges(g);
    SubsetSize(few, Edges(g));
  }

  /** For which texts the automaton has at most three transitions for each unit but four. */
  lemma TransitionBound<U(!new)>(g: Graph<U>, names: seq<seq<U>>, text: seq<U>)
    requires OneText(g, names, text) && EndWords(names, PrefixWords([text])) && Counted(1, names, |text|)
    requires |text| >= 3 && |names| == 2 * |text| - 1 ==> TwoUnits(text, |text|)
    ensures |Edges(g)| <= 3 * |text| - 4 <==> |text| >= 3 || (|text| == 2 && text[0] == text[1])
  {
    if |text| >= 2 {
      EdgeBound(g, names, text);
      if |text| == 2 {
        if text[0] == text[1] {
          var u := PrefixState(g, names, text, 1);
          assert text[..1] == [text[1]];
        } else {
          ThreeEdges(g, names, text);
        }
      } else if |names| == 2 * |text| - 1 {
        UnitNamed(g, names, text, text[|text| - 1]);
      }
    }
  }

  /** A text was added to an empty automaton. */
  lemma StageBound<U(!new)>(g: Graph<U>, before: seq<seq<U>>, h: Graph<U>, names: seq<seq<U>>, last: nat,
                            texts: seq<seq<U>>, text: seq<U>)
    requires |g| == 1 && Stage(g, before, h, names, last, texts, text, |text|)
    ensures |Edges(h)| <= 3 * |text| - 4 <==> |text| >= 3 || (|text| == 2 && text[0] == text[1])
  {
    OnlyPrefixes(texts, text);
    TransitionBound(h, names, text);
  }

  lemma OnlyPrefixes<U(!new)>(texts: seq<seq<U>>, text: seq<U>)
    requires forall w :: FactorOfSome(w, texts) ==> w == []
    ensures WordsUpTo(texts, text, |text|) == PrefixWords([text])
  {
    forall x: seq<U> ensures x in WordsUpTo(texts, text, |text|) <==> x in PrefixWords([text]) {
      if x != [] && x in PrefixWords(texts) {
        var j :| 0 <= j < |texts| && x <= texts[j];
        assert EndsAt(x, texts[j], |x|);
        assert FactorOfSome(x, texts);
      }
      assert [text][0] == text;
    }
  }
}
