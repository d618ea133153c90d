/**
 Whether the automaton of one text is the smallest one for its substrings. It is not always:
 two states can be followed by the same words. That happens exactly if the longest suffix of
 the text that also occurs elsewhere is there always preceded by one and the same unit.
 */
module SuffixMinimal {
  import opened Words
  import opened SuffixGraph
  import opened SuffixEndpos
  import opened SuffixIndex
  import opened SuffixClasses
  import opened SuffixTransitions

  // ---- Words and their ends ----

  /** A word and more ends where the word ended before the more. */
  lemma EndsTogether<U>(s: seq<U>, x: seq<U>, text: seq<U>, end: nat)
    ensures EndsAt(s + x, text, end) <==>
      |x| <= end <= |text| && EndsAt(s, text, end - |x|) && x == text[end - |x|..end]
  {
    if EndsAt(s + x, text, end) {
      var p := end - |x| - |s|;
      forall i | 0 <= i < |s| ensures s[i] == text[p + i] {
        assert (s + x)[i] == text[..end][p + i];
      }
      forall i | 0 <= i < |x| ensures x[i] == text[end - |x|..end][i] {
        assert (s + x)[|s| + i] == text[..end][p + |s| + i];
      }
    }
  }

  /** Two words that end at one place: the shorter is a suffix of the longer, which is a suffix of anything longer. */
  lemma EndsNested<U>(s: seq<U>, t: seq<U>, text: seq<U>, end: nat)
    requires EndsAt(s, text, end) && EndsAt(t, text, end) && |t| <= |s|
    ensures IsSuffix(t, s)
  {
    SuffixNested(t, s, text[..end]);
  }

  lemma EndsShorter<U>(s: seq<U>, t: seq<U>, text: seq<U>, end: nat)
    requires EndsAt(s, text, end) && IsSuffix(t, s)
    ensures EndsAt(t, text, end)
  {
    SuffixTransitive(t, s, text[..end]);
  }

  /** The same words can follow `s` and `t` in the text. */
  ghost predicate SameFollowers<U(!new)>(text: seq<U>, s: seq<U>, t: seq<U>) {
    forall x :: IsFactor(s + x, text) == IsFactor(t + x, text)
  }

  ghost predicate SamePlaces<U(!new)>(text: seq<U>, s: seq<U>, t: seq<U>) {
    forall end: nat :: EndsAt(s, text, end) == EndsAt(t, text, end)
  }

  /** `z` is a suffix of the text and ends elsewhere, too. */
  ghost predicate Repeated<U(!new)>(text: seq<U>, z: seq<U>) {
    EndsAt(z, text, |text|) && exists end: nat :: end < |text| && EndsAt(z, text, end)
  }

  /** The longest such suffix. */
  ghost predicate IsTail<U(!new)>(text: seq<U>, z: seq<U>) {
    Repeated(text, z) && forall y :: Repeated(text, y) ==> |y| <= |z|
  }

  /** Wherever `z` ends before the end of the text, `c` stands before it. */
  ghost predicate Preceded<U(!new)>(text: seq<U>, z: seq<U>, c: U) {
    forall end: nat ::
      end < |text| && EndsAt(z, text, end) ==> EndsAt([c] + z, text, end)
  }

  /** The tail of the text is always preceded by one unit. */
  ghost predicate TailPreceded<U(!new)>(text: seq<U>) {
    exists z, c :: IsTail(text, z) && Preceded(text, z, c)
  }

  // ---- A tail that is always preceded by one unit ----

  lemma PrecededFollowers<U(!new)>(text: seq<U>, z: seq<U>, c: U)
    requires IsTail(text, z) && Preceded(text, z, c)
    ensures IsFactor(z, text) && IsFactor([c] + z, text)
    ensures SameFollowers(text, [c] + z, z) && !SamePlaces(text, [c] + z, z)
  {
    var cz := [c] + z;
    var at: nat :| at < |text| && EndsAt(z, text, at);
    assert EndsAt(cz, text, at);
    assert IsSuffix(z, cz);
    assert !EndsAt(cz, text, |text|) by {
      if EndsAt(cz, text, |text|) {
        assert Repeated(text, cz);
      }
    }
    forall x ensures IsFactor(cz + x, text) == IsFactor(z + x, text) {
      FollowersBoth(text, z, c, x, at);
    }
  }

  lemma FollowersBoth<U(!new)>(text: seq<U>, z: seq<U>, c: U, x: seq<U>, at: nat)
    requires Preceded(text, z, c) && at < |text| && EndsAt(z, text, at)
    ensures IsFactor([c] + z + x, text) == IsFactor(z + x, text)
  {
    if IsFactor([c] + z + x, text) {
      var end: nat :| EndsAt([c] + z + x, text, end);
      EndsTogether([c] + z, x, text, end);
      assert IsSuffix(z, [c] + z);
      EndsShorter([c] + z, z, text, end - |x|);
      EndsTogether(z, x, text, end);
    }
    if IsFactor(z + x, text) {
      var end: nat :| EndsAt(z + x, text, end);
      EndsTogether(z, x, text, end);
      if end - |x| < |text| {
        assert EndsAt([c] + z, text, end - |x|);
        EndsTogether([c] + z, x, text, end);
      } else {
        assert [c] + z + x == [c] + z;
        assert EndsAt([c] + z, text, at);
      }
    }
  }

  // ---- Two words with the same followers ----

  /** The first place where `s` ends. */
  lemma {:induction false} FirstEnd<U>(text: seq<U>, s: seq<U>, end: nat) returns (first: nat)
    requires EndsAt(s, text, end)
    ensures first <= end && EndsAt(s, text, first) && forall e: nat :: e < first ==> !EndsAt(s, text, e)
    decreases end
  {
    first := end;
    if e: nat :| e < end && EndsAt(s, text, e) {
      first := FirstEnd(text, s, e);
    }
  }

  /** If what follows `s` also follows `t`, then `t` ends where `s` first ended, or before. */
  lemma EndsNoLater<U(!new)>(text: seq<U>, s: seq<U>, t: seq<U>, first: nat) returns (end: nat)
    requires SameFollowers(text, s, t) && EndsAt(s, text, first)
    ensures end <= first && EndsAt(t, text, end)
  {
    var x := text[first..];
    EndsTogether(s, x, text, |text|);
    assert EndsAt(s + x, text, |text|);
    assert IsFactor(s + x, text) && IsFactor(t + x, text);
    var e: nat :| EndsAt(t + x, text, e);
    EndsTogether(t, x, text, e);
    end := e - |x|;
  }

  /** Words with the same followers first end at the same place. */
  lemma SameFirstEnd<U(!new)>(text: seq<U>, s: seq<U>, t: seq<U>) returns (first: nat)
    requires SameFollowers(text, s, t) && IsFactor(s, text)
    ensures EndsAt(s, text, first) && EndsAt(t, text, first)
  {
    var end: nat :| EndsAt(s, text, end);
    first := FirstEnd(text, s, end);
    var e := EndsNoLater(text, s, t, first);
    var e' := EndsNoLater(text, t, s, e);
  }

  /** Between a word and a suffix of it with the same followers, the followers are the same. */
  lemma FollowersBetween<U(!new)>(text: seq<U>, s: seq<U>, r: seq<U>, t: seq<U>)
    requires SameFollowers(text, s, t) && IsSuffix(t, r) && IsSuffix(r, s)
    ensures SameFollowers(text, s, r) && SameFollowers(text, r, t)
  {
    forall x ensures IsFactor(s + x, text) == IsFactor(r + x, text) == IsFactor(t + x, text) {
      FewerFollowers(text, s, r, x);
      FewerFollowers(text, r, t, x);
      assert IsFactor(s + x, text) == IsFactor(t + x, text);
    }
  }

  lemma FewerFollowers<U(!new)>(text: seq<U>, s: seq<U>, t: seq<U>, x: seq<U>)
    requires IsSuffix(t, s)
    ensures IsFactor(s + x, text) ==> IsFactor(t + x, text)
  {
    if IsFactor(s + x, text) {
      var end: nat :| EndsAt(s + x, text, end);
      EndsTogether(s, x, text, end);
      EndsShorter(s, t, text, end - |x|);
      EndsTogether(t, x, text, end);
      assert EndsAt(t + x, text, end);
    }
  }

  /** If a suffix `t` of `s` has the same followers but other places, so have two that differ by one unit in length. */
  lemma {:induction false} OneLonger<U(!new)>(text: seq<U>, s: seq<U>, t: seq<U>) returns (v: seq<U>, c: U)
    requires IsSuffix(t, s) && SameFollowers(text, s, t) && !SamePlaces(text, s, t)
    ensures SameFollowers(text, [c] + v, v) && !SamePlaces(text, [c] + v, v)
    decreases |s| - |t|
  {
    if |s| == |t| {
      SameLengthSuffix(t, s);
    }
    c := s[|s| - |t| - 1];
    var r := [c] + t;
    assert IsSuffix(t, r) && IsSuffix(r, s);
    FollowersBetween(text, s, r, t);
    if SamePlaces(text, r, t) {
      assert !SamePlaces(text, s, r);
      v, c := OneLonger(text, s, r);
    } else {
      v := t;
    }
  }

  /** The first place where `v` ends without `c` before it. */
  lemma {:induction false} FirstUnpreceded<U>(text: seq<U>, v: seq<U>, c: U, end: nat) returns (first: nat)
    requires EndsAt(v, text, end) && !EndsAt([c] + v, text, end)
    ensures EndsAt(v, text, first) && !EndsAt([c] + v, text, first)
    ensures forall e: nat :: e < first && EndsAt(v, text, e) ==> EndsAt([c] + v, text, e)
    decreases end
  {
    first := end;
    if e: nat :| e < end && EndsAt(v, text, e) && !EndsAt([c] + v, text, e) {
      first := FirstUnpreceded(text, v, c, e);
    }
  }

  /** From that place on to the end of the text reaches the tail. */
  lemma UnprecededTail<U(!new)>(text: seq<U>, v: seq<U>, c: U, first: nat)
    requires SameFollowers(text, [c] + v, v) && EndsAt(v, text, first) && !EndsAt([c] + v, text, first)
    requires forall e: nat :: e < first && EndsAt(v, text, e) ==> EndsAt([c] + v, text, e)
    ensures IsTail(text, v + text[first..]) && Preceded(text, v + text[first..], c)
  {
    var x := text[first..];
    var z := v + x;
    EndsTogether(v, x, text, |text|);
    assert EndsAt(z, text, |text|);
    assert IsFactor(z, text) && IsFactor([c] + v + x, text);
    var g: nat :| EndsAt([c] + v + x, text, g);
    assert [c] + v + x == [c] + z;
    EndsTogether([c] + v, x, text, g);
    assert g < |text|;
    EndsShorter([c] + z, z, text, g);
    assert Repeated(text, z);
    forall end: nat | end < |text| && EndsAt(z, text, end) ensures EndsAt([c] + z, text, end) {
      EndsTogether(v, x, text, end);
      EndsTogether([c] + v, x, text, end);
    }
    forall y | Repeated(text, y) ensures |y| <= |z| {
      if |y| > |z| {
        LongerRepeats(text, y, z, c);
        EndsTogether([c] + v, x, text, |text|);
      }
    }
  }

  /** If `c` always stands before an earlier `z`, and a longer suffix repeats, `c` stands before the last `z`, too. */
  lemma LongerRepeats<U(!new)>(text: seq<U>, y: seq<U>, z: seq<U>, c: U)
    requires Repeated(text, y) && EndsAt(z, text, |text|) && |y| > |z| && Preceded(text, z, c)
    ensures EndsAt([c] + z, text, |text|)
  {
    EndsNested(y, z, text, |text|);
    var b := y[|y| - |z| - 1];
    assert IsSuffix([b] + z, y);
    var end: nat :| end < |text| && EndsAt(y, text, end);
    EndsShorter(y, z, text, end);
    EndsShorter(y, [b] + z, text, end);
    assert EndsAt([c] + z, text, end);
    EndsNested([c] + z, [b] + z, text, end);
    SameLengthSuffix([b] + z, [c] + z);
    assert ([b] + z)[0] == ([c] + z)[0];
    EndsShorter(y, [b] + z, text, |text|);
  }

  /** Words of the text with the same followers end at different places only if one unit always precedes the tail. */
  lemma FollowersTell<U(!new)>(text: seq<U>, s: seq<U>, t: seq<U>)
    requires IsFactor(s, text) && IsFactor(t, text) && SameFollowers(text, s, t) && !SamePlaces(text, s, t)
    ensures TailPreceded(text)
  {
    if |t| <= |s| {
      NestedFollowersTell(text, s, t);
    } else {
      NestedFollowersTell(text, t, s);
    }
  }

  lemma NestedFollowersTell<U(!new)>(text: seq<U>, s: seq<U>, t: seq<U>)
    requires IsFactor(s, text) && SameFollowers(text, s, t) && !SamePlaces(text, s, t) && |t| <= |s|
    ensures TailPreceded(text)
  {
    var place := SameFirstEnd(text, s, t);
    EndsNested(s, t, text, place);
    var v, c := OneLonger(text, s, t);
    var end: nat :| EndsAt([c] + v, text, end) != EndsAt(v, text, end);
    assert IsSuffix(v, [c] + v);
    if EndsAt([c] + v, text, end) {
      EndsShorter([c] + v, v, text, end);
    }
    var first := FirstUnpreceded(text, v, c, end);
    UnprecededTail(text, v, c, first);
  }

  // ---- States ----

  /** The same words can be read on from states `u` and `v`. */
  ghost predicate SameReads<U(!new)>(g: Graph<U>, u: nat, v: nat)
    requires WellFormed(g) && u < |g| && v < |g|
  {
    forall x :: Read(g, u, x).Some? == Read(g, v, x).Some?
  }

  /** No two states that paths enter can be told apart by nothing but their numbers. */
  ghost predicate Smallest<U(!new)>(g: Graph<U>)
    requires WellFormed(g)
  {
    forall u, v ::
      0 <= u < |g| && 0 <= v < |g| && Proper(g, u) && Proper(g, v) && SameReads(g, u, v) ==> u == v
  }

  lemma {:induction false} ReadAfter<U>(g: Graph<U>, v: nat, s: seq<U>, x: seq<U>)
    requires WellFormed(g) && v < |g| && Read(g, v, s).Some?
    ensures Read(g, v, s + x) == Read(g, Read(g, v, s).value, x)
    decreases |s|
  {
    if s == [] {
      assert s + x == x;
    } else {
      assert (s + x)[1..] == s[1..] + x;
      ReadAfter(g, g[v].edges[s[0]], s[1..], x);
    }
  }

  lemma OneFactor<U(!new)>(g: Graph<U>, names: seq<seq<U>>, text: seq<U>, w: seq<U>)
    requires Automaton(g, names) && Indexes(names, [text])
    ensures Reach(g, w).Some? <==> IsFactor(w, text)
  {
    ReadsFactors(g, names, [text], w);
    assert EndsAt([], text, 0);
    assert [text][0] == text;
  }

  /** Reading on from a state is following its word in the text. */
  lemma ReadsFollow<U(!new)>(g: Graph<U>, names: seq<seq<U>>, text: seq<U>, s: seq<U>, t: seq<U>)
    requires Automaton(g, names) && Indexes(names, [text]) && Reach(g, s).Some? && Reach(g, t).Some?
    ensures SameReads(g, Reach(g, s).value, Reach(g, t).value) <==> SameFollowers(text, s, t)
  {
    forall x ensures Read(g, Reach(g, s).value, x).Some? == IsFactor(s + x, text)
             ensures Read(g, Reach(g, t).value, x).Some? == IsFactor(t + x, text) {
      ReadAfter(g, 0, s, x);
      ReadAfter(g, 0, t, x);
      OneFactor(g, names, text, s + x);
      OneFactor(g, names, text, t + x);
    }
    if SameFollowers(text, s, t) {
      forall x ensures Read(g, Reach(g, s).value, x).Some? == Read(g, Reach(g, t).value, x).Some? {
        assert IsFactor(s + x, text) == IsFactor(t + x, text);
      }
    }
  }

  lemma SameEndsPlaces<U(!new)>(text: seq<U>, s: seq<U>, t: seq<U>)
    ensures SameEnds([text], s, t) <==> SamePlaces(text, s, t)
  {
    assert [text][0] == text;
    if SameEnds([text], s, t) {
      forall end: nat ensures EndsAt(s, text, end) == EndsAt(t, text, end) {
        assert EndsAt(s, [text][0], end) == EndsAt(t, [text][0], end);
      }
    }
  }

  /** The automaton of a text is the smallest for its substrings unless the tail is always preceded by one unit. */
  lemma SmallestExactly<U(!new)>(g: Graph<U>, names: seq<seq<U>>, text: seq<U>)
    requires Automaton(g, names) && Indexes(names, [text]) && Separated(g, names, PrefixWords([text]))
    ensures Smallest(g) <==> !TailPreceded(text)
  {
    if TailPreceded(text) {
      var z, c :| IsTail(text, z) && Preceded(text, z, c);
      PrecededFollowers(text, z, c);
      DifferentStates(g, names, text, [c] + z, z);
    }
    if !Smallest(g) {
      var u: nat, v: nat :| u < |g| && v < |g| && Proper(g, u) && Proper(g, v) && SameReads(g, u, v) && u != v;
      assert Homed(g, names, u) && Homed(g, names, v);
      OneFactor(g, names, text, names[u]);
      OneFactor(g, names, text, names[v]);
      ReadsFollow(g, names, text, names[u], names[v]);
      StatesAreEndClasses(g, names, [text], names[u], names[v]);
      SameEndsPlaces(text, names[u], names[v]);
      FollowersTell(text, names[u], names[v]);
    }
  }

  lemma DifferentStates<U(!new)>(g: Graph<U>, names: seq<seq<U>>, text: seq<U>, s: seq<U>, t: seq<U>)
    requires Automaton(g, names) && Indexes(names, [text]) && Separated(g, names, PrefixWords([text]))
    requires IsFactor(s, text) && IsFactor(t, text) && SameFollowers(text, s, t) && !SamePlaces(text, s, t)
    ensures !Smallest(g)
  {
    OneFactor(g, names, text, s);
    OneFactor(g, names, text, t);
    ReadsFollow(g, names, text, s, t);
    StatesAreEndClasses(g, names, [text], s, t);
    SameEndsPlaces(text, s, t);
    ReadWord(g, names, s);
    ReadWord(g, names, t);
    assert SameReads(g, Reach(g, s).value, Reach(g, t).value);
  }

  /** The automaton of "abb" is not the smallest: "ab" and "b" lead to different states that read the same. */
  lemma AbbNotSmallest(g: Graph<char>, names: seq<string>)
    requires Automaton(g, names) && Indexes(names, ["abb"]) && Separated(g, names, PrefixWords(["abb"]))
    ensures !Smallest(g)
  {
    var text := "abb";
    assert EndsAt("b", text, 2) && EndsAt("b", text, 3);
    assert Repeated(text, "b");
    forall y | Repeated(text, y) ensures |y| <= 1 {
      var end: nat :| end < 3 && EndsAt(y, text, end);
      LastButOne(y, text[..3]);
      LastButOne(y, text[..end]);
    }
    forall end: nat | end < 3 && EndsAt("b", text, end) ensures EndsAt(['a'] + "b", text, end) {
      assert "b"[0] == text[..end][end - 1];
      assert end == 2;
    }
    assert IsTail(text, "b") && Preceded(text, "b", 'a');
    SmallestExactly(g, names, text);
  }
}
