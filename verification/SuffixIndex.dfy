/**
 What the states of a suffix automaton stand for while texts are being inserted, queried,
 removed and compacted, stated over values of the graph, its names and its records.
 */
module SuffixIndex {
  import opened Words
  import opened SuffixGraph
  import opened SuffixAttach
  import opened SuffixExtend
  import opened SuffixCompact
  import opened SuffixSources
  import opened MatchOrder

  /** `last` can be extended: it is proper, or it is a leftover without edges. */
  predicate Extendable<U>(g: Graph<U>, last: nat)
    requires WellFormed(g)
  {
    last < |g| && (Proper(g, last) || g[last].edges == map[])
  }

  /** The extended word was read before exactly when the walk stops at a state as long as `last`. */
  lemma ReadBefore<U(!new)>(g: Graph<U>, names: seq<seq<U>>, last: nat, c: U, bare: set<nat>, p: Option<nat>)
    requires Automaton(g, names) && last < |g| && Walk(g, last, c, bare, p)
    requires p.Some? ==> p.value < |g| && Proper(g, p.value) && c in g[p.value].edges
    ensures Reach(g, names[last] + [c]).Some? <==> p.Some? && g[p.value].len == g[last].len
  {
    ReachSnoc(g, names[last], c);
    var u := OwnNameRead(g, names, last);
    if p.Some? && g[p.value].len == g[last].len {
      ChainNames(g, names, last, p.value);
      SameLengthSuffix(names[p.value], names[last]);
      assert Homed(g, names, p.value);
    }
  }

  /** The name of a state leads to a state on its chain that is as long. */
  lemma OwnNameRead<U(!new)>(g: Graph<U>, names: seq<seq<U>>, v: nat) returns (u: nat)
    requires Automaton(g, names) && v < |g|
    ensures Reach(g, names[v]) == Some(u) && u < |g| && OnChain(g, v, u) && g[u].len == g[v].len
  {
    assert ReadInto(g, names[v], v);
    ReadWord(g, names, names[v]);
    u := Reach(g, names[v]).value;
  }

  /** The graph with a state appended and `c`-edges to it from the states in `bare`. */
  predicate Bridged<U>(g: Graph<U>, h: Graph<U>, c: U, bare: set<nat>) {
    && |h| == |g| + 1
    && forall v {:trigger h[v]} :: 0 <= v < |g| ==>
         h[v] == if v in bare then g[v].(edges := g[v].edges[c := |g|]) else g[v]
  }

  /** New states follow the old ones; the first is named by the extended text, the others by suffixes of it. */
  ghost predicate Grown<U(!new)>(names: seq<seq<U>>, names': seq<seq<U>>, last: nat, c: U) {
    && last < |names| < |names'|
    && (forall v :: 0 <= v < |names| ==> names'[v] == names[v])
    && names'[|names|] == names[last] + [c]
    && forall v :: |names| <= v < |names'| ==> IsSuffix(names'[v], names[last] + [c])
  }

  /** Cloning `q` and redirecting the edges of `moved` to the clone gives the split automaton. */
  lemma SplitFinished<U(!new)>(g: Graph<U>, mid: Graph<U>, h: Graph<U>, names: seq<seq<U>>, last: nat, c: U,
                               bare: set<nat>, p: nat, q: nat, moved: set<nat>)
    requires Automaton(g, names) && last < |g| && Walk(g, last, c, bare, Some(p))
    requires p < |g| && Proper(g, p) && c in g[p].edges && g[p].edges[c] == q && g[q].len > g[p].len + 1
    requires SplitExtended(g, mid, last, c, bare, p, q, {}) && Moves(g, c, p, q, moved)
    requires |h| == |mid| && forall v {:trigger h[v]} :: 0 <= v < |mid| ==>
      h[v] == if v in moved then mid[v].(edges := mid[v].edges[c := |g| + 1]) else mid[v]
    ensures Automaton(h, names + [names[last] + [c], names[p] + [c]])
    ensures Grown(names, names + [names[last] + [c], names[p] + [c]], last, c)
    ensures forall v :: 0 <= v < |g| ==> Proper(h, v) == Proper(g, v)
    ensures h[|g|].edges == map[] && Proper(h, |g|) == (g[p].len < g[last].len)
    ensures SplitExtended(g, h, last, c, bare, p, q, moved)
  {
    assert moved !! bare;
    assert SplitExtended(g, h, last, c, bare, p, q, moved);
    var k := SpareCloning(g, names, c, p, q, moved);
    ExtendSplit(Splitting(g, h, names, last, bare, k));
    SplitGrown(g, names, last, c, p);
  }

  lemma SplitGrown<U(!new)>(g: Graph<U>, names: seq<seq<U>>, last: nat, c: U, p: nat)
    requires Automaton(g, names) && last < |g| && OnChain(g, last, p)
    ensures Grown(names, names + [names[last] + [c], names[p] + [c]], last, c)
  {
    ChainNames(g, names, last, p);
    SuffixSnoc(names[p], names[last], c);
  }

  predicate PrefixNamed<U(==)>(names: seq<seq<U>>, text: seq<U>, k: nat) {
    k <= |text| && text[..k] in names
  }

  /** A text is indexed up to length `n`: each prefix up to there names a state. */
  ghost predicate Indexed<U(!new)>(names: seq<seq<U>>, text: seq<U>, n: nat)
    requires n <= |text|
  {
    forall k :: 0 <= k <= n ==> PrefixNamed(names, text, k)
  }

  ghost predicate FactorOfSome<U>(w: seq<U>, texts: seq<seq<U>>) {
    exists i :: 0 <= i < |texts| && IsFactor(w, texts[i])
  }

  /** The states stand for exactly the prefixes of the texts and some of their factors. */
  ghost predicate Indexes<U(!new)>(names: seq<seq<U>>, texts: seq<seq<U>>) {
    && (forall i :: 0 <= i < |texts| ==> Indexed(names, texts[i], |texts[i]|))
    && (forall w {:trigger w in names} :: w in names ==> w == [] || FactorOfSome(w, texts))
  }

  /** The automaton of a set of texts reads exactly their factors. */
  lemma ReadsFactors<U(!new)>(g: Graph<U>, names: seq<seq<U>>, texts: seq<seq<U>>, w: seq<U>)
    requires Automaton(g, names) && Indexes(names, texts)
    ensures Reach(g, w).Some? <==> w == [] || FactorOfSome(w, texts)
  {
    LanguageOfNames(g, names, w);
    if Reach(g, w).Some? && w != [] {
      var v :| 0 <= v < |g| && IsSuffix(w, names[v]);
      assert names[v] in names;
      var i :| 0 <= i < |texts| && IsFactor(names[v], texts[i]);
      SuffixOfFactor(w, names[v], texts[i]);
    }
    if FactorOfSome(w, texts) {
      var i :| 0 <= i < |texts| && IsFactor(w, texts[i]);
      var end: nat :| EndsAt(w, texts[i], end);
      assert PrefixNamed(names, texts[i], end);
    }
  }

  lemma EmptyAutomaton<U(!new)>()
    ensures Automaton([Node<U>.Node(map[], None, 0, false)], [[]])
  {
    var g: Graph<U>, names: seq<seq<U>> := [Node(map[], None, 0, false)], [[]];
    forall v, s | 0 <= v < |g| && IsSuffix(s, names[v]) ensures ReadInto(g, s, v) {
      assert s == [];
    }
  }

  /** `w` occurs in `text` and ends at `i` or before. */
  ghost predicate OccursBy<U>(w: seq<U>, text: seq<U>, i: nat) {
    exists end: nat :: end <= i && EndsAt(w, text, end)
  }

  /** `texts` are indexed, and `text` up to length `i`. */
  ghost predicate PartlyIndexes<U(!new)>(names: seq<seq<U>>, texts: seq<seq<U>>, text: seq<U>, i: nat) {
    && i <= |text|
    && (forall j :: 0 <= j < |texts| ==> Indexed(names, texts[j], |texts[j]|))
    && Indexed(names, text, i)
    && (forall w {:trigger w in names} :: w in names ==> w == [] || FactorOfSome(w, texts) || OccursBy(w, text, i))
  }

  lemma IndexStart<U(!new)>(names: seq<seq<U>>, texts: seq<seq<U>>, text: seq<U>)
    requires Indexes(names, texts) && |names| > 0 && names[0] == []
    ensures PartlyIndexes(names, texts, text, 0)
  {
    assert text[..0] == [];
  }

  lemma StillIndexed<U(!new)>(names: seq<seq<U>>, names': seq<seq<U>>, text: seq<U>, n: nat)
    requires n <= |text| && Indexed(names, text, n) && forall w {:trigger w in names'} :: w in names ==> w in names'
    ensures Indexed(names', text, n)
  {
    forall k | 0 <= k <= n ensures PrefixNamed(names', text, k) {
      assert PrefixNamed(names, text, k);
    }
  }

  lemma IndexStep<U(!new)>(names: seq<seq<U>>, names': seq<seq<U>>, texts: seq<seq<U>>, text: seq<U>, i: nat, last: nat)
    requires i < |text| && PartlyIndexes(names, texts, text, i)
    requires Grown(names, names', last, text[i]) && names[last] == text[..i]
    ensures PartlyIndexes(names', texts, text, i + 1)
    ensures names'[|names|] == text[..i + 1]
  {
    assert text[..i] + [text[i]] == text[..i + 1];
    forall w | w in names ensures w in names' {
      var v :| 0 <= v < |names| && names[v] == w;
      assert names'[v] == w;
    }
    assert names'[|names|] in names';
    forall j | 0 <= j < |texts| ensures Indexed(names', texts[j], |texts[j]|) {
      StillIndexed(names, names', texts[j], |texts[j]|);
    }
    StillIndexed(names, names', text, i);
    forall w | w in names' ensures w == [] || FactorOfSome(w, texts) || OccursBy(w, text, i + 1) {
      var v :| 0 <= v < |names'| && names'[v] == w;
      if v < |names| {
        assert w == names[v] && w in names;
        if OccursBy(w, text, i) {
          var end: nat :| end <= i && EndsAt(w, text, end);
          assert end <= i + 1 && EndsAt(w, text, end);
        }
      } else {
        assert EndsAt(w, text, i + 1);
      }
    }
  }

  lemma IndexDone<U(!new)>(names: seq<seq<U>>, texts: seq<seq<U>>, text: seq<U>)
    requires PartlyIndexes(names, texts, text, |text|)
    ensures Indexes(names, texts + [text])
  {
    var all := texts + [text];
    forall w | w in names ensures w == [] || FactorOfSome(w, all) {
      if FactorOfSome(w, texts) {
        var j :| 0 <= j < |texts| && IsFactor(w, texts[j]);
        assert all[j] == texts[j];
      } else if OccursBy(w, text, |text|) {
        var end: nat :| end <= |text| && EndsAt(w, text, end);
        assert all[|texts|] == text;
      }
    }
  }

  lemma NameLength<U(!new)>(names: seq<seq<U>>, texts: seq<seq<U>>, text: seq<U>, i: nat, v: nat)
    requires PartlyIndexes(names, texts, text, i) && v < |names|
    ensures FactorOfSome(names[v], texts) || |names[v]| <= i
  {
    assert names[v] in names;
  }

  /** A word longer than the indexed part of the text is read exactly when an earlier text contains it. */
  lemma LongWordRead<U(!new)>(g: Graph<U>, names: seq<seq<U>>, texts: seq<seq<U>>, text: seq<U>, i: nat, w: seq<U>)
    requires Automaton(g, names) && PartlyIndexes(names, texts, text, i) && |w| > i
    ensures Reach(g, w).Some? <==> FactorOfSome(w, texts)
  {
    LanguageOfNames(g, names, w);
    if Reach(g, w).Some? {
      var v :| 0 <= v < |g| && IsSuffix(w, names[v]);
      NameLength(names, texts, text, i, v);
      var j :| 0 <= j < |texts| && IsFactor(names[v], texts[j]);
      SuffixOfFactor(w, names[v], texts[j]);
    }
    if FactorOfSome(w, texts) {
      var j :| 0 <= j < |texts| && IsFactor(w, texts[j]);
      var end: nat :| EndsAt(w, texts[j], end);
      assert PrefixNamed(names, texts[j], end);
    }
  }

  lemma LastHome<U(!new)>(g: Graph<U>, texts: seq<seq<U>>, text: seq<U>, s: nat)
    requires WellFormed(g) && s < |g| && (Proper(g, s) <==> text == [] || !FactorOfSome(text, texts))
    ensures HomeKnown(g, texts + [text], s, |texts|)
  {
    var all := texts + [text];
    assert forall j :: 0 <= j < |texts| ==> all[j] == texts[j];
  }

  predicate AtMost<U>(names: seq<seq<U>>, n: nat) {
    forall v :: 0 <= v < |names| ==> |names[v]| <= n
  }

  /** How many states `i` units add to an automaton of `start` states. */
  predicate Counted<U>(start: nat, names: seq<seq<U>>, i: nat) {
    && start <= |names| <= start + 2 * i
    && (start == 1 ==> AtMost(names, i) && (if i <= 2 then |names| == i + 1 else |names| <= 2 * i - 1))
  }

  lemma CountStep<U(!new)>(start: nat, names: seq<seq<U>>, names': seq<seq<U>>, last: nat, c: U, i: nat)
    requires Grown(names, names', last, c) && Counted(start, names, i) && |names'| <= |names| + 2
    requires AtMost(names, 1) ==> |names'| == |names| + 1
    ensures Counted(start, names', i + 1)
  {
    if start == 1 {
      assert |names[last]| <= i;
      forall v | 0 <= v < |names'| ensures |names'[v]| <= i + 1 {
        if v < |names| {
          assert names'[v] == names[v];
        }
      }
    }
  }

  /** Extending by `c` would split a state: some edge labelled `c` skips a length. */
  predicate SplitsAt<U>(g: Graph<U>, p: nat, c: U)
    requires WellFormed(g)
  {
    p < |g| && Proper(g, p) && c in g[p].edges && g[g[p].edges[c]].len > g[p].len + 1
  }

  ghost predicate Splits<U>(g: Graph<U>, c: U)
    requires WellFormed(g)
  {
    exists p: nat :: SplitsAt(g, p, c)
  }

  /** `h` was grown from `g`: names of the states of `g` and which of them are proper stay the same. */
  ghost predicate Keeps<U(!new)>(g: Graph<U>, names: seq<seq<U>>, h: Graph<U>, names': seq<seq<U>>)
    requires WellFormed(g) && WellFormed(h)
  {
    && |g| <= |h| && |names| == |g| && |names'| == |h|
    && (forall v {:trigger names'[v]} :: 0 <= v < |g| ==> names'[v] == names[v])
    && (forall v {:trigger Proper(h, v)} :: 0 <= v < |g| ==> Proper(h, v) == Proper(g, v))
  }

  /** State `last` stands for the first `i` units; it is proper unless an earlier text contains them. */
  ghost predicate Reached<U(!new)>(g: Graph<U>, names: seq<seq<U>>, last: nat, texts: seq<seq<U>>, text: seq<U>, i: nat)
    requires WellFormed(g) && |names| == |g|
  {
    && i <= |text| && last < |g| && names[last] == text[..i]
    && (Proper(g, last) <==> i == 0 || !FactorOfSome(text[..i], texts))
  }

  lemma ReachedStep<U(!new)>(g: Graph<U>, names: seq<seq<U>>, h: Graph<U>, names': seq<seq<U>>, last: nat,
                             texts: seq<seq<U>>, text: seq<U>, i: nat)
    requires Automaton(g, names) && WellFormed(h) && |names'| == |h| && i < |text|
    requires PartlyIndexes(names, texts, text, i) && Reached(g, names, last, texts, text, i)
    requires Grown(names, names', last, text[i])
    requires Proper(h, |g|) <==> Reach(g, names[last] + [text[i]]).None?
    ensures Reached(h, names', |g|, texts, text, i + 1)
  {
    assert text[..i] + [text[i]] == text[..i + 1];
    LongWordRead(g, names, texts, text, i, text[..i + 1]);
  }

  lemma KeepsStep<U(!new)>(g: Graph<U>, names: seq<seq<U>>, h: Graph<U>, names': seq<seq<U>>, k: Graph<U>,
                           names'': seq<seq<U>>, last: nat, c: U)
    requires WellFormed(g) && WellFormed(h) && WellFormed(k) && Keeps(g, names, h, names')
    requires |names''| == |k| && |h| <= |k| && Grown(names', names'', last, c)
    requires forall v :: 0 <= v < |h| ==> Proper(k, v) == Proper(h, v)
    ensures Keeps(g, names, k, names'')
  {
  }

  /** Filing the inserted text at the state it ended in. */
  lemma Filed<U(!new)>(g: Graph<U>, before: seq<seq<U>>, h: Graph<U>, names: seq<seq<U>>, last: nat,
                       texts: seq<seq<U>>, text: seq<U>, ps: Positions)
    requires WellFormed(g) && WellFormed(h) && Keeps(g, before, h, names)
    requires PartlyIndexes(names, texts, text, |text|) && Reached(h, names, last, texts, text, |text|)
    requires Recorded(before, texts, ps) && HomesKnown(g, texts, ps)
    ensures Indexes(names, texts + [text])
    ensures Recorded(names, texts + [text], AddRecord(ps, last, (|texts|, |text|)))
    ensures HomesKnown(h, texts + [text], AddRecord(ps, last, (|texts|, |text|)))
    ensures forall id: nat :: Active(AddRecord(ps, last, (|texts|, |text|)), id) <==> id == |texts| || Active(ps, id)
  {
    assert text[..|text|] == text;
    IndexDone(names, texts, text);
    AddActive(before, names, texts, text, ps, last);
    LastHome(h, texts, text, last);
    AddHomes(g, h, texts, text, ps, last);
  }

  /** Record `k` of state `s` belongs to a source whose text is `text`. */
  predicate Matching<U(==)>(ps: Positions, texts: seq<seq<U>>, text: seq<U>, s: nat, k: nat) {
    IsRecord(ps, s, k) && ps[s][k].1 == |text| && ps[s][k].0 < |texts| && texts[ps[s][k].0] == text
  }

  /** `best` is a matching record (id, state, index), and no record of `s` below `n` has a smaller id. */
  ghost predicate Least<U>(ps: Positions, texts: seq<seq<U>>, text: seq<U>, s: nat, n: nat,
                           best: Option<(nat, nat, nat)>) {
    && (best.Some? ==>
          Matching(ps, texts, text, best.value.1, best.value.2) && ps[best.value.1][best.value.2].0 == best.value.0)
    && (forall k: nat {:trigger Matching(ps, texts, text, s, k)} :: k < n && Matching(ps, texts, text, s, k) ==>
          best.Some? && best.value.0 <= ps[s][k].0)
  }

  ghost predicate ActiveText<U>(ps: Positions, texts: seq<seq<U>>, text: seq<U>, id: nat) {
    Active(ps, id) && id < |texts| && texts[id] == text
  }

  /** The smallest matching record belongs to the first active source with the text. */
  lemma LeastIsFirst<U>(names: seq<seq<U>>, texts: seq<seq<U>>, ps: Positions, text: seq<U>,
                        best: Option<(nat, nat, nat)>)
    requires Recorded(names, texts, ps)
    requires best.Some? ==>
      Matching(ps, texts, text, best.value.1, best.value.2) && ps[best.value.1][best.value.2].0 == best.value.0
    requires forall s: nat {:trigger s in ps} :: s in ps ==> Least(ps, texts, text, s, |ps[s]|, best)
    ensures best.Some? ==> ActiveText(ps, texts, text, best.value.0)
    ensures forall id: nat :: ActiveText(ps, texts, text, id) ==> best.Some? && best.value.0 <= id
  {
    forall id: nat | ActiveText(ps, texts, text, id) ensures best.Some? && best.value.0 <= id {
      var s: nat, k: nat :| IsRecord(ps, s, k) && ps[s][k].0 == id;
      assert RecordFits(names, texts, s, ps[s][k]) && s in ps;
      assert Matching(ps, texts, text, s, k);
    }
  }

  /** `r` lists the occurrences of `needle` in the sources marked in `active` that come before (id, start). */
  ghost predicate Lists<U>(r: seq<(nat, nat)>, texts: seq<seq<U>>, active: seq<bool>, needle: seq<U>, id: nat,
                           start: nat)
    requires |active| == |texts|
  {
    && Ascending(r)
    && forall i: nat, end: nat {:trigger (i, end) in r} :: (i, end) in r <==>
         i < |texts| && active[i] && EndsAt(needle, texts[i], end) && Before((i, end), (id, start + |needle|))
  }

  lemma ListNext<U>(r: seq<(nat, nat)>, texts: seq<seq<U>>, active: seq<bool>, needle: seq<U>, id: nat, start: nat)
    requires |active| == |texts| && id < |texts| && active[id] && Lists(r, texts, active, needle, id, start)
    ensures EndsAt(needle, texts[id], start + |needle|) ==>
      Lists(r + [(id, start + |needle|)], texts, active, needle, id, start + 1)
    ensures !EndsAt(needle, texts[id], start + |needle|) ==> Lists(r, texts, active, needle, id, start + 1)
  {
    var next := (id, start + |needle|);
    if EndsAt(needle, texts[id], start + |needle|) {
      forall i | 0 <= i < |r| ensures Before(r[i], next) {
        assert r[i] == (r[i].0, r[i].1) && (r[i].0, r[i].1) in r;
      }
      forall i: nat, end: nat ensures (i, end) in r + [next] <==> (i, end) in r || (i, end) == next {
      }
    }
  }

  /** A source too short for a further occurrence, or not marked, adds nothing. */
  lemma NothingToList<U>(r: seq<(nat, nat)>, texts: seq<seq<U>>, active: seq<bool>, needle: seq<U>, id: nat, start: nat)
    requires |active| == |texts| && id < |texts| && (!active[id] || |texts[id]| < start + |needle|)
    requires Lists(r, texts, active, needle, id, start)
    ensures Lists(r, texts, active, needle, id + 1, 0)
  {
    forall i: nat, end: nat | i < |texts| && EndsAt(needle, texts[i], end) ensures end >= |needle| {
    }
  }

  lemma StartsWith<U>(needle: seq<U>, text: seq<U>, start: nat)
    requires start + |needle| <= |text|
    ensures needle <= text[start..] <==> EndsAt(needle, text, start + |needle|)
  {
    var end := start + |needle|;
    if EndsAt(needle, text, end) {
      forall i | 0 <= i < |needle| ensures needle[i] == text[start..][i] {
        assert needle[i] == text[..end][|text[..end]| - |needle| + i];
      }
    }
    if needle <= text[start..] {
      forall i | 0 <= i < |needle| ensures needle[i] == text[..end][|text[..end]| - |needle| + i] {
        assert needle[i] == text[start..][i];
      }
    }
  }

  lemma {:induction false} ClosedUnderRead<U>(g: Graph<U>, marked: set<nat>, w: seq<U>)
    requires WellFormed(g) && 0 in marked && Reach(g, w).Some?
    requires forall v, c {:trigger g[v].edges[c]} ::
      v in marked && v < |g| && c in g[v].edges ==> g[v].edges[c] in marked
    ensures Reach(g, w).value in marked
    decreases |w|
  {
    if w != [] {
      var s, c := Unsnoc(w);
      ReachSnoc(g, s, c);
      ClosedUnderRead(g, marked, s);
    }
  }

  /** What compaction keeps: the language, and exactly the sources whose own state is entered from the root. */
  lemma CompactDone<U(!new)>(k: Compaction<U>, names': seq<seq<U>>, texts: seq<seq<U>>, ps: Positions, ps': Positions)
    requires k.Ok() && k.Names(names') && Indexes(k.names, texts)
    requires Recorded(k.names, texts, ps) && HomesKnown(k.g, texts, ps) && Swept(ps, ps', k.kept)
    ensures Automaton(k.h, names') && Indexes(names', texts)
    ensures Recorded(names', texts, ps') && HomesKnown(k.h, texts, ps')
    ensures forall i :: 0 <= i < |k.h| ==> Proper(k.h, i)
    ensures forall id: nat :: Active(ps', id) <==>
      Active(ps, id) && id < |texts| && (texts[id] == [] || !OccursEarlier(texts, id))
  {
    CompactAutomaton(k, names');
    CompactIndexes(k, names', texts);
    forall v | 0 <= v < |k.g| ensures v in k.kept <==> Proper(k.g, v) {
      if Proper(k.g, v) {
        assert k.kept[k.index[v]] == v;
      }
    }
    SweptActive(k.g, k.names, names', texts, ps, ps', k.kept);
    forall i: nat, j: nat | IsRecord(ps', i, j) ensures HomeKnown(k.h, texts, i, ps'[i][j].0) {
      assert RecordFits(names', texts, i, ps'[i][j]);
    }
  }

  /** The reachable states, numbered, with their renumbered nodes, form a compaction. */
  lemma CompactNamed<U(!new)>(g: Graph<U>, names: seq<seq<U>>, h: Graph<U>, reachable: set<nat>, kept: seq<nat>,
                              index: seq<nat>)
    returns (k: Compaction<U>, names': seq<seq<U>>)
    requires Automaton(g, names) && |index| == |g| && |kept| == |h| && index[0] == 0
    requires forall v {:trigger v in reachable} :: v in reachable <==> 0 <= v < |g| && Proper(g, v)
    requires forall v {:trigger index[v]} :: v in reachable ==> index[v] < |kept| && kept[index[v]] == v
    requires forall i :: 0 <= i < |kept| ==> kept[i] in reachable && index[kept[i]] == i
    requires forall i {:trigger h[i]} {:trigger kept[i]} :: 0 <= i < |h| ==> Renumbered(g, h, index, kept[i], i)
    ensures k == Compaction(g, names, h, kept, index) && k.Ok() && k.Names(names')
  {
    k := Compaction(g, names, h, kept, index);
    names' := seq(|kept|, i requires 0 <= i < |kept| && kept[i] < |names| => names[kept[i]]);
    forall v | 0 <= v < |g| && Proper(g, v) ensures index[v] < |kept| && kept[index[v]] == v {
      assert v in reachable;
    }
  }

  lemma CompactIndexes<U(!new)>(k: Compaction<U>, names': seq<seq<U>>, texts: seq<seq<U>>)
    requires k.Ok() && k.Names(names') && Indexes(k.names, texts)
    ensures Indexes(names', texts)
  {
    forall w | w in k.names ensures w in names' {
      var v :| 0 <= v < |k.g| && k.names[v] == w;
      NamesKept(k, names', v);
    }
    forall i | 0 <= i < |texts| ensures Indexed(names', texts[i], |texts[i]|) {
      StillIndexed(k.names, names', texts[i], |texts[i]|);
    }
    forall w | w in names' ensures w == [] || FactorOfSome(w, texts) {
      var i :| 0 <= i < |names'| && names'[i] == w;
      assert k.names[k.kept[i]] in k.names;
    }
  }

  function RenumberNode<U>(n: Node<U>, index: seq<nat>): Node<U>
    requires forall c :: c in n.edges ==> n.edges[c] < |index|
    requires n.link.Some? ==> n.link.value < |index|
  {
    n.(edges := map c | c in n.edges :: index[n.edges[c]],
       link := if n.link.Some? then Some(index[n.link.value]) else None)
  }
}
