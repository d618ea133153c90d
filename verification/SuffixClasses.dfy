/** The states of the automaton of some texts are the classes of words with the same end positions. */
module SuffixClasses {
  import opened Words
  import opened SuffixGraph
  import opened SuffixAttach
  import opened SuffixCompact
  import opened SuffixExtend
  import opened SuffixEndpos
  import opened SuffixIndex

  ghost predicate IsPrefixWord<U(!new)>(texts: seq<seq<U>>, x: seq<U>) {
    x == [] || exists j :: 0 <= j < |texts| && x <= texts[j]
  }

  /** The prefixes of the texts, one for each position. */
  ghost function PrefixWords<U(!new)>(texts: seq<seq<U>>): iset<seq<U>> {
    iset x: seq<U> | IsPrefixWord(texts, x)
  }

  /** The prefixes of the texts, and those of `text` up to length `i`. */
  ghost function WordsUpTo<U(!new)>(texts: seq<seq<U>>, text: seq<U>, i: nat): iset<seq<U>> {
    PrefixWords(texts) + iset x: seq<U> | x <= text && |x| <= i
  }

  lemma WordsStart<U(!new)>(texts: seq<seq<U>>, text: seq<U>)
    ensures WordsUpTo(texts, text, 0) == PrefixWords(texts)
  {
  }

  lemma WordsStep<U(!new)>(texts: seq<seq<U>>, text: seq<U>, i: nat)
    requires i < |text|
    ensures WordsUpTo(texts, text, i) + iset{text[..i + 1]} == WordsUpTo(texts, text, i + 1)
  {
    forall x: seq<U> | x <= text && |x| == i + 1 ensures x == text[..i + 1] {
    }
  }

  lemma WordsDone<U(!new)>(texts: seq<seq<U>>, text: seq<U>)
    ensures WordsUpTo(texts, text, |text|) == PrefixWords(texts + [text])
  {
    var all := texts + [text];
    forall x: seq<U> ensures x in WordsUpTo(texts, text, |text|) <==> x in PrefixWords(all) {
      if x in PrefixWords(texts) && x != [] {
        var j :| 0 <= j < |texts| && x <= texts[j];
        assert all[j] == texts[j];
      }
      if x <= text {
        assert all[|texts|] == text;
      }
    }
  }

  /** The prefixes stand for the positions. */
  lemma PrefixPositions<U(!new)>(names: seq<seq<U>>, texts: seq<seq<U>>)
    requires Indexes(names, texts) && |names| > 0 && names[0] == []
    ensures EndWords(names, PrefixWords(texts))
  {
    var ws := PrefixWords(texts);
    forall x | x in ws ensures x in names {
      if x != [] {
        var j :| 0 <= j < |texts| && x <= texts[j];
        assert Indexed(names, texts[j], |texts[j]|);
        assert PrefixNamed(names, texts[j], |x|) && texts[j][..|x|] == x;
      }
    }
    forall v | 0 <= v < |names| ensures EndsWord(names[v], ws) {
      assert names[v] in names;
      if names[v] == [] {
        assert [] in ws && IsSuffix(names[v], []);
      } else {
        var j :| 0 <= j < |texts| && IsFactor(names[v], texts[j]);
        var end: nat :| EndsAt(names[v], texts[j], end);
        assert texts[j][..end] in ws;
      }
    }
  }

  lemma PositionsStep<U(!new)>(names: seq<seq<U>>, names': seq<seq<U>>, last: nat, c: U, ws: iset<seq<U>>)
    requires EndWords(names, ws) && Grown(names, names', last, c)
    ensures EndWords(names', ws + iset{names[last] + [c]})
  {
    var z := names[last] + [c];
    var ws' := ws + iset{z};
    forall x | x in ws' ensures x in names' {
      if x in ws {
        assert x in names;
        var v :| 0 <= v < |names| && names[v] == x;
        assert names'[v] == x;
      } else {
        assert names'[|names|] == z;
      }
    }
    forall v | 0 <= v < |names'| ensures EndsWord(names'[v], ws') {
      if v < |names| {
        assert EndsWord(names[v], ws) && names'[v] == names[v];
        var x :| x in ws && IsSuffix(names[v], x);
        assert x in ws';
      } else {
        assert z in ws' && IsSuffix(names'[v], z);
      }
    }
  }

  /** While a text is inserted, its prefixes so far keep the states apart. */
  ghost predicate Apart<U(!new)>(g: Graph<U>, names: seq<seq<U>>, texts: seq<seq<U>>, text: seq<U>, i: nat)
    requires WellFormed(g) && |names| == |g|
  {
    EndWords(names, WordsUpTo(texts, text, i)) && Separated(g, names, WordsUpTo(texts, text, i))
  }

  lemma ApartStart<U(!new)>(g: Graph<U>, names: seq<seq<U>>, texts: seq<seq<U>>, text: seq<U>)
    requires Automaton(g, names) && Indexes(names, texts) && Separated(g, names, PrefixWords(texts))
    ensures Apart(g, names, texts, text, 0)
  {
    PrefixPositions(names, texts);
    WordsStart(texts, text);
  }

  // ---- A text in an empty automaton ----

  ghost predicate AllProper<U>(g: Graph<U>)
    requires WellFormed(g)
  {
    forall v :: 0 <= v < |g| ==> Proper(g, v)
  }

  /** The text starts with one unit and another one twice, and has no third. */
  predicate TwoUnits<U(==)>(text: seq<U>, i: nat) {
    && 3 <= i <= |text| && text[0] != text[1] && text[1] == text[2]
    && forall k :: 0 <= k < i ==> text[k] == text[0] || text[k] == text[1]
  }

  /** In an empty automaton nothing is left over, and the states double only for such texts. */
  ghost predicate Single<U(!new)>(start: nat, g: Graph<U>, names: seq<seq<U>>, texts: seq<seq<U>>, text: seq<U>, i: nat)
    requires WellFormed(g)
  {
    start == 1 ==>
      && (forall w :: FactorOfSome(w, texts) ==> w == [])
      && AllProper(g)
      && (i >= 3 && |names| == 2 * i - 1 ==> TwoUnits(text, i))
  }

  lemma SingleStart<U(!new)>(g: Graph<U>, names: seq<seq<U>>, texts: seq<seq<U>>, text: seq<U>)
    requires Automaton(g, names) && Indexes(names, texts)
    ensures Single(|g|, g, names, texts, text, 0)
  {
    if |g| == 1 {
      forall w | FactorOfSome(w, texts) ensures w == [] {
        var j :| 0 <= j < |texts| && IsFactor(w, texts[j]);
        assert PrefixNamed(names, texts[j], |texts[j]|);
        assert texts[j][..|texts[j]|] == texts[j] && names[0] == [];
      }
    }
  }

  /** A unit by which a state is split occurred before. */
  lemma SplitUnit<U(!new)>(g: Graph<U>, names: seq<seq<U>>, texts: seq<seq<U>>, text: seq<U>, i: nat, c: U)
    returns (k: nat)
    requires Automaton(g, names) && PartlyIndexes(names, texts, text, i) && Single(1, g, names, texts, text, i)
    requires Splits(g, c)
    ensures k < i && k < |text| && text[k] == c
  {
    var p: nat :| SplitsAt(g, p, c);
    assert EdgeFits(g, names, p, c);
    var q := g[p].edges[c];
    assert names[q] in names;
    var end: nat :| end <= i && EndsAt(names[q], text, end);
    SuffixTransitive(names[p] + [c], names[q], text[..end]);
    assert (names[p] + [c])[|names[p]|] == c;
    k := end - 1;
  }

  lemma NameHome<U(!new)>(g: Graph<U>, names: seq<seq<U>>, u: nat)
    requires Automaton(g, names) && AllProper(g) && u < |g|
    ensures Reach(g, names[u]) == Some(u)
  {
    assert Proper(g, u);
    assert Homed(g, names, u);
  }

  /** After two units, an edge that skips a length leads from the root to the state of both. */
  lemma SkippingEdge<U(!new)>(g: Graph<U>, names: seq<seq<U>>, p: nat, c: U)
    requires Automaton(g, names) && AtMost(names, 2) && SplitsAt(g, p, c)
    ensures names[p] == [] && Reach(g, [c]) == Some(g[p].edges[c]) && |names[g[p].edges[c]]| == 2
    ensures names[g[p].edges[c]][1] == c
  {
    var q := g[p].edges[c];
    assert |names[q]| <= 2 && |names[p]| == g[p].len;
    assert EdgeFits(g, names, p, c) && Homed(g, names, p);
    ReachSnoc(g, names[p], c);
    assert names[p] + [c] == [c];
    assert [c][0] == names[q][|names[q]| - 1];
  }

  /** The third unit splits a state only if it repeats the second, and the first is another. */
  lemma ThirdUnit<U(!new)>(g: Graph<U>, names: seq<seq<U>>, texts: seq<seq<U>>, text: seq<U>)
    requires Automaton(g, names) && PartlyIndexes(names, texts, text, 2) && Single(1, g, names, texts, text, 2)
    requires AtMost(names, 2) && |text| > 2 && Splits(g, text[2])
    ensures TwoUnits(text, 3)
  {
    var c := text[2];
    var p: nat :| SplitsAt(g, p, c);
    SkippingEdge(g, names, p, c);
    var q := g[p].edges[c];
    assert names[q] in names;
    var end: nat :| end <= 2 && EndsAt(names[q], text, end);
    assert names[q][1] == text[..end][1] == text[1];
    if text[0] == text[1] {
      assert PrefixNamed(names, text, 1);
      var u: nat :| u < |names| && names[u] == text[..1];
      assert text[..1] == [c];
      NameHome(g, names, u);
    }
  }

  lemma SingleStep<U(!new)>(start: nat, g: Graph<U>, names: seq<seq<U>>, h: Graph<U>, names': seq<seq<U>>, last: nat,
                            texts: seq<seq<U>>, text: seq<U>, i: nat)
    requires Automaton(g, names) && PartlyIndexes(names, texts, text, i) && Counted(start, names, i) && i < |text|
    requires Single(start, g, names, texts, text, i)
    requires WellFormed(h) && |names'| == |h| && Grown(names, names', last, text[i]) && names[last] == text[..i]
    requires |h| <= |g| + 2 && (|h| == |g| + 2 ==> Splits(g, text[i]) && Proper(h, |g| + 1))
    requires forall v :: 0 <= v < |g| ==> Proper(h, v) == Proper(g, v)
    requires Proper(h, |g|) <==> Reach(g, names[last] + [text[i]]).None?
    ensures Single(start, h, names', texts, text, i + 1)
  {
    if start == 1 {
      assert text[..i] + [text[i]] == text[..i + 1];
      LongWordRead(g, names, texts, text, i, text[..i + 1]);
      if i >= 2 && |names'| == 2 * i + 1 {
        if i == 2 {
          ThirdUnit(g, names, texts, text);
        } else {
          var k := SplitUnit(g, names, texts, text, i, text[i]);
        }
      }
    }
  }

  /** What holds after `i` units of `text` were added to the automaton `g` of `texts`. */
  ghost predicate Stage<U(!new)>(g: Graph<U>, before: seq<seq<U>>, h: Graph<U>, names: seq<seq<U>>, last: nat,
                                 texts: seq<seq<U>>, text: seq<U>, i: nat) {
    && WellFormed(g) && Automaton(h, names) && Extendable(h, last)
    && PartlyIndexes(names, texts, text, i) && Reached(h, names, last, texts, text, i)
    && Keeps(g, before, h, names) && Counted(|g|, names, i)
    && Apart(h, names, texts, text, i) && Single(|g|, h, names, texts, text, i) && Finals(h)
  }

  /** Before its first unit is added, the root stands for the empty prefix of the text. */
  lemma InsertStart<U(!new)>(g: Graph<U>, names: seq<seq<U>>, texts: seq<seq<U>>, text: seq<U>)
    requires Automaton(g, names) && Indexes(names, texts) && Separated(g, names, PrefixWords(texts)) && Finals(g)
    ensures Stage(g, names, g, names, 0, texts, text, 0)
  {
    assert names[0] == [];
    IndexStart(names, texts, text);
    ApartStart(g, names, texts, text);
    SingleStart(g, names, texts, text);
  }

  lemma ApartDone<U(!new)>(g: Graph<U>, names: seq<seq<U>>, texts: seq<seq<U>>, text: seq<U>)
    requires WellFormed(g) && |names| == |g| && Apart(g, names, texts, text, |text|)
    ensures Separated(g, names, PrefixWords(texts + [text]))
  {
    WordsDone(texts, text);
  }

  lemma ApartStep<U(!new)>(g: Graph<U>, names: seq<seq<U>>, h: Graph<U>, names': seq<seq<U>>, last: nat,
                           texts: seq<seq<U>>, text: seq<U>, i: nat)
    requires WellFormed(g) && |names| == |g| && WellFormed(h) && |names'| == |h| && i < |text|
    requires Apart(g, names, texts, text, i)
    requires Grown(names, names', last, text[i]) && names[last] == text[..i]
    requires Separates(g, names, h, names', names[last] + [text[i]])
    ensures Apart(h, names', texts, text, i + 1)
  {
    var ws := WordsUpTo(texts, text, i);
    assert text[..i] + [text[i]] == text[..i + 1];
    PositionsStep(names, names', last, text[i], ws);
    WordsStep(texts, text, i);
  }

  /** `k` is `h` extended by `c` at state `last`: one new state for the longer word, and perhaps a clone. */
  ghost predicate ExtendedBy<U(!new)>(h: Graph<U>, names: seq<seq<U>>, last: nat, k: Graph<U>, names': seq<seq<U>>,
                                      c: U)
    requires WellFormed(h) && |names| == |h|
  {
    && Automaton(k, names') && Extendable(k, |h|) && |h| < |k| <= |h| + 2 && Grown(names, names', last, c)
    && (forall v :: 0 <= v < |h| ==> Proper(k, v) == Proper(h, v))
    && (Proper(k, |h|) <==> Reach(h, names[last] + [c]).None?)
    && (AtMost(names, 1) ==> |k| == |h| + 1)
    && (|k| == |h| + 2 ==> Splits(h, c) && Proper(k, |h| + 1))
    && Separates(h, names, k, names', names[last] + [c]) && (Finals(h) ==> Finals(k))
  }

  lemma StageStep<U(!new)>(g: Graph<U>, before: seq<seq<U>>, h: Graph<U>, names: seq<seq<U>>, last: nat,
                           k: Graph<U>, names': seq<seq<U>>, texts: seq<seq<U>>, text: seq<U>, i: nat)
    requires i < |text| && Stage(g, before, h, names, last, texts, text, i)
    requires ExtendedBy(h, names, last, k, names', text[i])
    ensures Stage(g, before, k, names', |h|, texts, text, i + 1)
  {
    ReachedStep(h, names, k, names', last, texts, text, i);
    IndexStep(names, names', texts, text, i, last);
    KeepsStep(g, before, h, names, k, names', last, text[i]);
    CountStep(|g|, names, names', last, text[i], i);
    ApartStep(h, names, k, names', last, texts, text, i);
    SingleStep(|g|, h, names, k, names', last, texts, text, i);
  }

  /** A finished split keeps states apart. */
  lemma SplitPartsStates<U(!new)>(g: Graph<U>, h: Graph<U>, names: seq<seq<U>>, last: nat, c: U, bare: set<nat>,
                                  p: nat, q: nat, moved: set<nat>)
    requires Automaton(g, names) && last < |g| && Walk(g, last, c, bare, Some(p)) && p < |g| && Proper(g, p)
    requires c in g[p].edges && g[p].edges[c] == q && g[q].len > g[p].len + 1
    requires SplitExtended(g, h, last, c, bare, p, q, moved) && WellFormed(h)
    requires Proper(h, |g|) == (g[p].len < g[last].len)
    requires forall v :: 0 <= v < |g| ==> Proper(h, v) == Proper(g, v)
    ensures Separates(g, names, h, names + [names[last] + [c], names[p] + [c]], names[last] + [c])
  {
    OnChainShorter(g, last, p);
    ReadBefore(g, names, last, c, bare, Some(p));
    SplitLinks(g, h, names, last, c, bare, p, q, moved);
    SplitSeparates(g, h, names, names + [names[last] + [c], names[p] + [c]], last, c, bare, p, q);
  }

  lemma OnChainShorter<U(!new)>(g: Graph<U>, v: nat, u: nat)
    requires WellFormed(g) && Linked(g) && v < |g| && OnChain(g, v, u)
    ensures g[u].len <= g[v].len
  {
  }

  // ---- End positions ----

  ghost predicate SameEnds<U(!new)>(texts: seq<seq<U>>, s: seq<U>, t: seq<U>) {
    forall j, end: nat :: 0 <= j < |texts| ==> EndsAt(s, texts[j], end) == EndsAt(t, texts[j], end)
  }

  /** A word ends a position exactly when the name of its state does. */
  lemma StateEnds<U(!new)>(g: Graph<U>, names: seq<seq<U>>, ws: iset<seq<U>>, s: seq<U>, x: seq<U>)
    requires Automaton(g, names) && EndWords(names, ws) && Reach(g, s).Some? && x in ws
    ensures IsSuffix(s, x) <==> IsSuffix(names[Reach(g, s).value], x)
  {
    var v := Reach(g, s).value;
    ReadWord(g, names, s);
    if IsSuffix(s, x) {
      assert x in names;
      var w: nat :| w < |names| && names[w] == x;
      assert ReadInto(g, s, w);
      ChainNames(g, names, w, v);
    }
    if IsSuffix(names[v], x) {
      SuffixTransitive(s, names[v], x);
    }
  }

  /** A state and a shorter one on its chain end different positions. */
  lemma ChainParts<U(!new)>(g: Graph<U>, names: seq<seq<U>>, ws: iset<seq<U>>, u: nat, v: nat)
    requires Automaton(g, names) && Separated(g, names, ws) && u < |g| && v < |g| && Proper(g, u) && Proper(g, v)
    requires IsSuffix(names[v], names[u]) && u != v
    ensures exists x :: x in ws && IsSuffix(names[v], x) && !IsSuffix(names[u], x)
  {
    SuffixStateOnChain(g, names, u, v);
    ChainSteps(g, u, v);
    assert Parted(g, names, ws, u);
    var x :| x in ws && IsSuffix(names[Link(g, u)], x) && !IsSuffix(names[u], x);
    ChainNames(g, names, Link(g, u), v);
    SuffixTransitive(names[v], names[Link(g, u)], x);
  }

  /** States whose names end the same positions are the same. */
  lemma StatesDiffer<U(!new)>(g: Graph<U>, names: seq<seq<U>>, ws: iset<seq<U>>, u: nat, v: nat)
    requires Automaton(g, names) && EndWords(names, ws) && Separated(g, names, ws) && u < |g| && v < |g| && Proper(g, u)
    requires Proper(g, v)
    requires forall x {:trigger x in ws} :: x in ws ==> (IsSuffix(names[u], x) <==> IsSuffix(names[v], x))
    ensures u == v
  {
    assert EndsWord(names[u], ws);
    var x :| x in ws && IsSuffix(names[u], x);
    if u != v {
      if |names[v]| <= |names[u]| {
        SuffixNested(names[v], names[u], x);
        ChainParts(g, names, ws, u, v);
      } else {
        SuffixNested(names[u], names[v], x);
        ChainParts(g, names, ws, v, u);
      }
      assert false;
    }
  }

  lemma EndsOnWords<U(!new)>(texts: seq<seq<U>>, s: seq<U>, t: seq<U>)
    requires texts != []
    ensures SameEnds(texts, s, t) <==> forall x {:trigger x in PrefixWords(texts)} ::
      x in PrefixWords(texts) ==> (IsSuffix(s, x) <==> IsSuffix(t, x))
  {
    var ws := PrefixWords(texts);
    if SameEnds(texts, s, t) {
      forall x | x in ws ensures IsSuffix(s, x) <==> IsSuffix(t, x) {
        var j: nat :| j < |texts| && x <= texts[j];
        assert texts[j][..|x|] == x;
        assert EndsAt(s, texts[j], |x|) == EndsAt(t, texts[j], |x|);
      }
    }
    if forall x {:trigger x in ws} :: x in ws ==> (IsSuffix(s, x) <==> IsSuffix(t, x)) {
      forall j, end: nat | 0 <= j < |texts| ensures EndsAt(s, texts[j], end) == EndsAt(t, texts[j], end) {
        if end <= |texts[j]| {
          assert texts[j][..end] in ws;
        }
      }
    }
  }

  /** Two words that are read lead to the same state exactly when they end at the same positions of the texts. */
  lemma StatesAreEndClasses<U(!new)>(g: Graph<U>, names: seq<seq<U>>, texts: seq<seq<U>>, s: seq<U>, t: seq<U>)
    requires Automaton(g, names) && Indexes(names, texts) && Separated(g, names, PrefixWords(texts)) && texts != []
    requires Reach(g, s).Some? && Reach(g, t).Some?
    ensures Reach(g, s) == Reach(g, t) <==> SameEnds(texts, s, t)
  {
    var ws := PrefixWords(texts);
    PrefixPositions(names, texts);
    EndsOnWords(texts, s, t);
    var u, v := Reach(g, s).value, Reach(g, t).value;
    forall x | x in ws
      ensures (IsSuffix(s, x) <==> IsSuffix(names[u], x)) && (IsSuffix(t, x) <==> IsSuffix(names[v], x))
    {
      StateEnds(g, names, ws, s, x);
      StateEnds(g, names, ws, t, x);
    }
    ReadWord(g, names, s);
    ReadWord(g, names, t);
    if SameEnds(texts, s, t) {
      StatesDiffer(g, names, ws, u, v);
    }
  }

  /** Compaction keeps states apart. */
  lemma CompactSeparated<U(!new)>(k: Compaction<U>, names': seq<seq<U>>, ws: iset<seq<U>>)
    requires k.Ok() && k.Names(names') && WellFormed(k.h) && Separated(k.g, k.names, ws)
    ensures Separated(k.h, names', ws)
  {
    CompactShape(k);
    forall i | 0 < i < |k.h| && Proper(k.h, i) ensures Parted(k.h, names', ws, i) {
      var v := k.kept[i];
      ProperTargets(k.g, k.names, v);
      assert Parted(k.g, k.names, ws, v);
      var x :| x in ws && IsSuffix(k.names[Link(k.g, v)], x) && !IsSuffix(k.names[v], x);
      var l := Link(k.g, v);
      assert k.kept[k.index[l]] == l && names'[k.index[l]] == k.names[l];
    }
  }
}
