/**
 The suffix automaton built online from any number of texts. Each text is inserted by
 restarting at the root and extending unit by unit; nothing is looked up first, so a
 text that occurs already leaves states behind that no path from the root enters.
 */
module SuffixAutomaton {
  import opened Words
  import opened SuffixGraph
  import opened Renumbering
  import opened SuffixExtend
  import opened SuffixCompact
  import opened SuffixSources
  import opened MatchOrder
  import opened SuffixIndex
  import opened SuffixEndpos
  import opened SuffixClasses
  import opened SuffixTransitions
  import opened SuffixMinimal
  import opened SourceOrder

  /** One less, but not below zero. */
  function OneLess(n: nat): nat {
    if n > 0 then n - 1 else 0
  }

  class SuffixAutomaton<U(==,!new)> {
    /** The order of the units. */
    const less: (U, U) -> bool
    var nodes: seq<Node<U>>
    var lastState: nat
    var sourceTexts: seq<seq<U>>
    /** Source ids in the order of their texts. */
    var sortedSources: seq<nat>
    var positions: Positions
    var needsCompaction: bool
    var stringCount: nat
    ghost var names: seq<seq<U>>
    /** How many active sources compactions have dropped. */
    ghost var lost: nat

    /** The string count counts the active sources, and those that a compaction dropped. */
    ghost predicate Valid()
      reads this
    {
      Coherent() && stringCount == |ActiveIds(positions, |sourceTexts|)| + lost && Listed()
    }

    /** The sorted list holds the active sources, and as many sources as are counted. */
    ghost predicate Listed()
      reads this`sourceTexts, this`sortedSources, this`stringCount, this`positions
    {
      && StrictTotal(less) && InOrder(less, sourceTexts, sortedSources) && |sortedSources| == stringCount
      && forall id: nat {:trigger Active(positions, id)} :: Active(positions, id) ==> id in sortedSources
    }

    ghost predicate Coherent()
      reads this`nodes, this`names, this`sourceTexts, this`lastState, this`positions
    {
      && Automaton(nodes, names) && Indexes(names, sourceTexts) && lastState == 0
      && Separated(nodes, names, PrefixWords(sourceTexts)) && Finals(nodes)
      && Recorded(names, sourceTexts, positions) && HomesKnown(nodes, sourceTexts, positions)
    }

    constructor (less: (U, U) -> bool)
      requires StrictTotal(less)
      ensures Valid() && sourceTexts == [] && |nodes| == 1 && positions == map[] && lost == 0 && sortedSources == []
      ensures this.less == less && stringCount == 0 && !needsCompaction
    {
      this.less := less;
      nodes, lastState, sourceTexts, sortedSources := [Node(map[], None, 0, false)], 0, [], [];
      positions, needsCompaction, stringCount := map[], false, 0;
      names, lost := [[]], 0;
      new;
      EmptyAutomaton<U>();
    }

    /** Walks the suffix links from `lastState`, adding transitions to the new state `cur`. */
    method AddTransitions(unit: U, cur: nat, ghost g: Graph<U>) returns (p: Option<nat>, ghost bare: set<nat>)
      requires WellFormed(g) && Linked(g) && Extendable(g, lastState) && cur == |g| && Bridged(g, nodes, unit, {})
      modifies this`nodes
      ensures Walk(g, lastState, unit, bare, p)
      ensures p.Some? ==> p.value < |g| && p.value !in bare && Proper(g, p.value) && unit in g[p.value].edges
      ensures Bridged(g, nodes, unit, bare) && nodes[cur] == old(nodes[cur])
    {
      p, bare := Some(lastState), {};
      while p.Some? && unit !in nodes[p.value].edges
        invariant p.Some? ==> p.value < |g| && p.value !in bare && (Proper(g, p.value) || g[p.value].edges == map[])
        invariant Walk(g, lastState, unit, bare, p)
        invariant Bridged(g, nodes, unit, bare) && nodes[cur] == old(nodes[cur])
        decreases if p.Some? then 2 * g[p.value].len + 1 + (if Proper(g, p.value) then 0 else 1) else 0
      {
        WalkStep(g, lastState, unit, bare, p.value);
        nodes := nodes[p.value := nodes[p.value].(edges := nodes[p.value].edges[unit := cur])];
        bare := bare + {p.value};
        p := nodes[p.value].link;
      }
    }

    /** Appends one unit to the text whose state is `lastState`. */
    method Extend(unit: U)
      requires Automaton(nodes, names) && Extendable(nodes, lastState)
      modifies this`nodes, this`lastState, this`names
      ensures lastState == old(|nodes|)
      ensures ExtendedBy(old(nodes), old(names), old(lastState), nodes, names, unit)
    {
      ghost var g := nodes;
      var cur := |nodes|;
      nodes := nodes + [Node(map[], None, nodes[lastState].len + 1, true)];
      var p, bare := AddTransitions(unit, cur, g);
      ReadBefore(g, names, lastState, unit, bare, p);
      LinkOrSplit(unit, p, bare, g);
      lastState := cur;
    }

    /** Links the new state where the walk ended, after splitting the state there if need be. */
    method LinkOrSplit(unit: U, p: Option<nat>, ghost bare: set<nat>, ghost g: Graph<U>)
      requires Automaton(g, names) && lastState < |g| && Walk(g, lastState, unit, bare, p)
      requires p.Some? ==> p.value < |g| && p.value !in bare && Proper(g, p.value) && unit in g[p.value].edges
      requires Bridged(g, nodes, unit, bare) && nodes[|g|] == Node(map[], None, g[lastState].len + 1, true)
      modifies this`nodes, this`names
      ensures Automaton(nodes, names) && |g| < |nodes| <= |g| + 2 && Grown(old(names), names, lastState, unit)
      ensures forall v :: 0 <= v < |g| ==> Proper(nodes, v) == Proper(g, v)
      ensures nodes[|g|].edges == map[] && Proper(nodes, |g|) == (p.Some? ==> g[p.value].len < g[lastState].len)
      ensures AtMost(old(names), 1) ==> |nodes| == |g| + 1
      ensures |nodes| == |g| + 2 ==> Splits(g, unit) && Proper(nodes, |g| + 1)
      ensures Separates(g, old(names), nodes, names, old(names[lastState]) + [unit])
      ensures Finals(g) ==> Finals(nodes)
    {
      if p.Some? {
        var q := nodes[p.value].edges[unit];
        if nodes[p.value].len + 1 == nodes[q].len {
          // Continuous transition: no split needed.
          LinkState(unit, q, p, bare, g);
        } else {
          SplitState(unit, p.value, q, bare, g);
        }
      } else {
        // Reached the root without finding the transition.
        LinkState(unit, 0, p, bare, g);
      }
    }

    /** Links the new state to `target`. */
    method LinkState(unit: U, target: nat, ghost p: Option<nat>, ghost bare: set<nat>, ghost g: Graph<U>)
      requires Automaton(g, names) && lastState < |g| && Walk(g, lastState, unit, bare, p)
      requires Continuous(g, unit, p, target)
      requires Bridged(g, nodes, unit, bare) && nodes[|g|] == Node(map[], None, g[lastState].len + 1, true)
      modifies this`nodes, this`names
      ensures Automaton(nodes, names) && |nodes| == |g| + 1
      ensures Grown(old(names), names, lastState, unit)
      ensures forall v :: 0 <= v < |g| ==> Proper(nodes, v) == Proper(g, v)
      ensures nodes[|g|].edges == map[] && Proper(nodes, |g|) == (p.Some? ==> g[p.value].len < g[lastState].len)
      ensures Separates(g, old(names), nodes, names, names[lastState] + [unit])
      ensures Finals(g) ==> Finals(nodes)
    {
      var cur := |nodes| - 1;
      nodes := nodes[cur := nodes[cur].(link := Some(target))];
      ContinuousTarget(g, names, lastState, unit, bare, p, target);
      ExtendContinuous(g, nodes, names, lastState, unit, bare, p, target);
      ReadBefore(g, names, lastState, unit, bare, p);
      ContinuousSeparates(g, nodes, names, lastState, unit, bare, target);
      names := names + [names[lastState] + [unit]];
    }

    /** Splits `q`, whose longest word is longer than that of `p` followed by `unit`. */
    method SplitState(unit: U, p: nat, q: nat, ghost bare: set<nat>, ghost g: Graph<U>)
      requires Automaton(g, names) && lastState < |g| && Walk(g, lastState, unit, bare, Some(p))
      requires p < |g| && p !in bare && Proper(g, p) && unit in g[p].edges && g[p].edges[unit] == q
      requires g[p].len + 1 != g[q].len
      requires Bridged(g, nodes, unit, bare) && nodes[|g|] == Node(map[], None, g[lastState].len + 1, true)
      modifies this`nodes, this`names
      ensures Automaton(nodes, names) && |nodes| == |g| + 2
      ensures Grown(old(names), names, lastState, unit)
      ensures forall v :: 0 <= v < |g| ==> Proper(nodes, v) == Proper(g, v)
      ensures nodes[|g|].edges == map[] && Proper(nodes, |g|) == (g[p].len < g[lastState].len)
      ensures !AtMost(old(names), 1) && Splits(g, unit) && Proper(nodes, |g| + 1)
      ensures Separates(g, old(names), nodes, names, names[lastState] + [unit])
      ensures Finals(g) ==> Finals(nodes)
    {
      var clone := CloneState(unit, p, q, bare, g);
      ghost var before := nodes;
      ghost var moved := Redirect(unit, p, q, clone, g);
      SplitDone(g, before, nodes, names, lastState, unit, bare, p, q, moved);
      SplitFinals(g, nodes, lastState, unit, bare, p, q, moved);
      assert |names[q]| == g[q].len;
      names := names + [names[lastState] + [unit], names[p] + [unit]];
    }

    /** Appends the clone of `q` and links the new state and `q` to it. */
    method CloneState(unit: U, p: nat, q: nat, ghost bare: set<nat>, ghost g: Graph<U>) returns (clone: nat)
      requires Automaton(g, names) && lastState < |g| && Walk(g, lastState, unit, bare, Some(p))
      requires p < |g| && p !in bare && Proper(g, p) && unit in g[p].edges && g[p].edges[unit] == q
      requires g[p].len + 1 != g[q].len
      requires Bridged(g, nodes, unit, bare) && nodes[|g|] == Node(map[], None, g[lastState].len + 1, true)
      modifies this`nodes
      ensures clone == |g| + 1 && SplitExtended(g, nodes, lastState, unit, bare, p, q, {})
      ensures g[q].len > g[p].len + 1
      ensures forall v: nat {:trigger OnChain(g, p, v)} :: OnChain(g, p, v) ==> nodes[v] == g[v]
    {
      assert g[q].len > g[p].len + 1 by {
        assert EdgeFits(g, names, p, unit);
      }
      var cur := |nodes| - 1;
      clone := |nodes|;
      nodes := nodes + [nodes[q].(len := nodes[p].len + 1, isFinal := true)];
      nodes := nodes[cur := nodes[cur].(link := Some(clone))];
      nodes := nodes[q := nodes[q].(link := Some(clone))];
      forall v: nat {:trigger OnChain(g, p, v)} | OnChain(g, p, v) ensures nodes[v] == g[v] {
        EdgesDownChain(g, names, p, v, unit);
      }
    }

    /** Redirects the transitions to `q` along the suffix-link path of `p` to the clone. */
    method Redirect(unit: U, p: nat, q: nat, clone: nat, ghost g: Graph<U>) returns (ghost moved: set<nat>)
      requires Automaton(g, names) && p < |g| && Proper(g, p) && unit in g[p].edges && g[p].edges[unit] == q
      requires g[q].len > g[p].len + 1 && clone < |nodes|
      requires |g| <= |nodes| && forall v: nat {:trigger OnChain(g, p, v)} :: OnChain(g, p, v) ==> nodes[v] == g[v]
      modifies this`nodes
      ensures Moves(g, unit, p, q, moved)
      ensures |nodes| == old(|nodes|) && forall v {:trigger nodes[v]} :: 0 <= v < |nodes| ==>
        nodes[v] == if v in moved then old(nodes)[v].(edges := old(nodes)[v].edges[unit := clone]) else old(nodes)[v]
    {
      moved := {};
      var p2: Option<nat> := Some(p);
      while p2.Some? && unit in nodes[p2.value].edges && nodes[p2.value].edges[unit] == q
        invariant p2.Some? ==> p2.value < |g| && OnChain(g, p, p2.value) && p2.value !in moved
        invariant forall v :: v in moved ==> OnChain(g, p, v) && unit in g[v].edges && g[v].edges[unit] == q
        invariant forall v :: v in moved && p2.Some? ==> g[p2.value].len < g[v].len
        invariant forall v: nat {:trigger OnChain(g, p, v)} ::
          OnChain(g, p, v) ==> v in moved || (p2.Some? && OnChain(g, p2.value, v))
        invariant |nodes| == old(|nodes|) && forall v {:trigger nodes[v]} :: 0 <= v < |nodes| ==>
          nodes[v] == if v in moved then old(nodes)[v].(edges := old(nodes)[v].edges[unit := clone]) else old(nodes)[v]
        decreases if p2.Some? then g[p2.value].len + 1 else 0
      {
        RedirectStep(g, names, unit, p, q, p2.value);
        nodes := nodes[p2.value := nodes[p2.value].(edges := nodes[p2.value].edges[unit := clone])];
        moved := moved + {p2.value};
        p2 := nodes[p2.value].link;
      }
      forall v: nat {:trigger v in moved}
        ensures v in moved <==> OnChain(g, p, v) && unit in g[v].edges && g[v].edges[unit] == q
      {
        if p2.Some? && OnChain(g, p, v) && OnChain(g, p2.value, v) {
          EdgesDownChain(g, names, p, p2.value, unit);
          RedirectStops(g, names, unit, p, q, p2.value, v);
        }
      }
    }

    /** Extends the automaton, grown from `g`, by unit `i` of a text. */
    method ExtendAt(text: seq<U>, i: nat, ghost texts: seq<seq<U>>, ghost g: Graph<U>, ghost before: seq<seq<U>>)
      requires i < |text| && Stage(g, before, nodes, names, lastState, texts, text, i)
      modifies this`nodes, this`lastState, this`names
      ensures Stage(g, before, nodes, names, lastState, texts, text, i + 1)
    {
      ghost var h, names', last := nodes, names, lastState;
      Extend(text[i]);
      StageStep(g, before, h, names', last, nodes, names, texts, text, i);
    }

    /** Extends the automaton by all units of a text. */
    method ExtendAll(text: seq<U>, ghost texts: seq<seq<U>>, ghost g: Graph<U>, ghost before: seq<seq<U>>)
      requires Stage(g, before, nodes, names, lastState, texts, text, 0)
      modifies this`nodes, this`lastState, this`names
      ensures Stage(g, before, nodes, names, lastState, texts, text, |text|)
    {
      for i := 0 to |text|
        invariant Stage(g, before, nodes, names, lastState, texts, text, i)
      {
        ExtendAt(text, i, texts, g, before);
      }
    }

    /** Records the newest text, source `id`, at the state it ended in. */
    method RecordSource(id: nat, text: seq<U>, ghost texts: seq<seq<U>>, ghost g: Graph<U>, ghost before: seq<seq<U>>)
      requires Stage(g, before, nodes, names, lastState, texts, text, |text|)
      requires Recorded(before, texts, positions) && HomesKnown(g, texts, positions)
      requires id == |texts| && sourceTexts == texts + [text]
      modifies this`positions, this`lastState
      ensures Coherent()
      ensures forall i: nat :: Active(positions, i) <==> i == id || Active(old(positions), i)
    {
      Filed(g, before, nodes, names, lastState, texts, text, positions);
      ApartDone(nodes, names, texts, text);
      positions := AddRecord(positions, lastState, (id, |text|));
      lastState := 0;
    }

    /** Adds a text to the automaton, restarting at the root, and records it. */
    method IndexText(text: seq<U>)
      requires Coherent()
      modifies this`nodes, this`lastState, this`names, this`sourceTexts, this`positions
      ensures Coherent()
      ensures sourceTexts == old(sourceTexts) + [text]
      ensures forall i: nat :: Active(positions, i) <==> i == old(|sourceTexts|) || Active(old(positions), i)
      ensures |nodes| <= old(|nodes|) + 2 * |text|
      ensures old(|nodes|) == 1 ==> (|nodes| <= 2 * |text| - 1 <==> |text| >= 2)
      ensures old(|nodes|) == 1 ==>
        (|Edges(nodes)| <= 3 * |text| - 4 <==> |text| >= 3 || (|text| == 2 && text[0] == text[1]))
      ensures old(sourceTexts) == [] ==> (Smallest(nodes) <==> !TailPreceded(text))
    {
      ghost var texts, g, before := sourceTexts, nodes, names;
      lastState := 0;
      var id := |sourceTexts|;
      InsertStart(nodes, names, texts, text);
      ExtendAll(text, texts, g, before);
      if |g| == 1 {
        StageBound(g, before, nodes, names, lastState, texts, text);
      }
      sourceTexts := sourceTexts + [text];
      RecordSource(id, text, texts, g, before);
      if texts == [] {
        assert sourceTexts == [text];
        SmallestExactly(nodes, names, text);
      }
    }

    /** Puts a source in its place in the sorted list. */
    method IndexSource(id: nat)
      requires StrictTotal(less) && InOrder(less, sourceTexts, sortedSources)
      requires id < |sourceTexts| && id !in sortedSources
      modifies this`sortedSources
      ensures InOrder(less, sourceTexts, sortedSources) && |sortedSources| == old(|sortedSources|) + 1
      ensures forall i {:trigger i in sortedSources} :: i in sortedSources <==> i == id || i in old(sortedSources)
    {
      var k := InsertionPoint(less, sourceTexts, sortedSources, id);
      forall i ensures i in Splice(sortedSources, k, id) <==> i in sortedSources || i == id {
        SpliceMember(sortedSources, k, id, i);
      }
      sortedSources := Splice(sortedSources, k, id);
    }

    /** Takes a source out of the sorted list. */
    method UnindexSource(id: nat)
      requires StrictTotal(less) && InOrder(less, sourceTexts, sortedSources)
      modifies this`sortedSources
      ensures InOrder(less, sourceTexts, sortedSources)
      ensures |sortedSources| == old(|sortedSources|) - if id in old(sortedSources) then 1 else 0
      ensures forall i {:trigger i in sortedSources} :: i in sortedSources <==> i in old(sortedSources) && i != id
    {
      for k := 0 to |sortedSources|
        invariant sortedSources == old(sortedSources) && id !in sortedSources[..k]
      {
        if sortedSources[k] == id {
          UnlistedInOrder(less, sourceTexts, sortedSources, k);
          sortedSources := Unlisted(sortedSources, k);
          return;
        }
      }
    }

    /** Whether a listed source has exactly this text. */
    method ContainsSource(text: seq<U>) returns (found: bool)
      requires Valid()
      ensures found <==> exists id :: id in sortedSources && id < |sourceTexts| && sourceTexts[id] == text
    {
      var first := FirstNotLess(less, sourceTexts, sortedSources, text);
      found := first < |sortedSources| && sourceTexts[sortedSources[first]] == text;
    }

    /** Every listed source is active exactly if no compaction has dropped one. */
    lemma ListedExactly()
      requires Valid()
      ensures (forall id: nat :: id in sortedSources <==> Active(positions, id)) <==> lost == 0
    {
      var listed := set id | id in sortedSources;
      var active := ActiveIds(positions, |sourceTexts|);
      InOrderSize(less, sourceTexts, sortedSources, listed);
      SubsetSize(active, listed);
      assert (forall id: nat :: id in sortedSources <==> Active(positions, id)) ==> active == listed;
    }

    /** The sorted list as it is rebuilt when the automaton is read back: the active sources. */
    method RebuildSources() returns (ids: seq<nat>)
      requires Valid()
      ensures InOrder(less, sourceTexts, ids) && forall id: nat :: id in ids <==> Active(positions, id)
      ensures ids == sortedSources <==> lost == 0
    {
      var active := ActiveSources();
      ids := [];
      for id := 0 to |sourceTexts|
        invariant InOrder(less, sourceTexts, ids)
        invariant forall i: nat {:trigger i in ids} :: i in ids <==> i < id && active[i]
      {
        if active[id] {
          var k := InsertionPoint(less, sourceTexts, ids, id);
          forall i ensures i in Splice(ids, k, id) <==> i in ids || i == id {
            SpliceMember(ids, k, id, i);
          }
          ids := Splice(ids, k, id);
        }
      }
      ListedExactly();
      if lost == 0 {
        InOrderUnique(less, sourceTexts, ids, sortedSources);
      }
    }

    /** Lists and counts the source that was recorded last. */
    method Enlist(text: seq<U>, ghost before: seq<seq<U>>, ghost texts: seq<seq<U>>, ghost ps: Positions)
      requires Coherent() && sourceTexts == texts + [text] && Recorded(before, texts, ps)
      requires forall i: nat {:trigger Active(positions, i)} :: Active(positions, i) <==> i == |texts| || Active(ps, i)
      requires stringCount == |ActiveIds(ps, |texts|)| + lost && |sortedSources| == stringCount
      requires StrictTotal(less) && InOrder(less, texts, sortedSources)
      requires forall id: nat {:trigger Active(ps, id)} :: Active(ps, id) ==> id in sortedSources
      modifies this`sortedSources, this`stringCount
      ensures Valid() && stringCount == old(stringCount) + 1
      ensures forall i: nat :: i in sortedSources <==> i == |texts| || i in old(sortedSources)
    {
      InOrderGrows(less, texts, text, sortedSources);
      IndexSource(|sourceTexts| - 1);
      CountAdded(before, ps, positions, texts);
      stringCount := stringCount + 1;
    }

    /** Inserts a text. */
    method InsertText(text: seq<U>)
      requires Valid()
      modifies this
      ensures Valid()
      ensures sourceTexts == old(sourceTexts) + [text]
      ensures forall i: nat :: Active(positions, i) <==> i == old(|sourceTexts|) || Active(old(positions), i)
      ensures |nodes| <= old(|nodes|) + 2 * |text|
      ensures old(|nodes|) == 1 ==> (|nodes| <= 2 * |text| - 1 <==> |text| >= 2)
      ensures old(|nodes|) == 1 ==>
        (|Edges(nodes)| <= 3 * |text| - 4 <==> |text| >= 3 || (|text| == 2 && text[0] == text[1]))
      ensures needsCompaction == old(needsCompaction)
      ensures stringCount == old(stringCount) + 1 && lost == old(lost)
      ensures old(sourceTexts) == [] ==> (Smallest(nodes) <==> !TailPreceded(text))
      ensures forall i: nat :: i in sortedSources <==> i == old(|sourceTexts|) || i in old(sortedSources)
    {
      ghost var before, texts, ps := names, sourceTexts, positions;
      IndexText(text);
      Enlist(text, before, texts, ps);
    }

    /** Substring query: reading the term from the root succeeds. */
    method Contains(term: seq<U>) returns (found: bool)
      requires Valid()
      ensures found <==> term == [] || FactorOfSome(term, sourceTexts)
    {
      ReadsFactors(nodes, names, sourceTexts, term);
      var state: nat := 0;
      for i := 0 to |term|
        invariant state < |nodes| && Reach(nodes, term) == Read(nodes, state, term[i..])
      {
        if term[i] !in nodes[state].edges {
          return false;
        }
        assert term[i..][1..] == term[i + 1..];
        state := nodes[state].edges[term[i]];
      }
      return true;
    }

    /** What a word leads to is final exactly if the word is not empty. */
    lemma FinalExactly(word: seq<U>)
      requires Valid() && (word == [] || FactorOfSome(word, sourceTexts))
      ensures Reach(nodes, word).Some? && (nodes[Reach(nodes, word).value].isFinal <==> word != [])
    {
      ReadsFactors(nodes, names, sourceTexts, word);
      ReachProper(nodes, names, word);
    }

    /** The matching record with the smaller source id: `best0`, or one of state `s`. */
    method LeastAt(text: seq<U>, s: nat, best0: Option<(nat, nat, nat)>) returns (best: Option<(nat, nat, nat)>)
      requires s in positions && Least(positions, sourceTexts, text, s, 0, best0)
      ensures Least(positions, sourceTexts, text, s, |positions[s]|, best)
      ensures best0.Some? ==> best.Some? && best.value.0 <= best0.value.0
    {
      best := best0;
      for k := 0 to |positions[s]|
        invariant Least(positions, sourceTexts, text, s, k, best)
        invariant best0.Some? ==> best.Some? && best.value.0 <= best0.value.0
      {
        var (id, end) := positions[s][k];
        if end == |text| && id < |sourceTexts| && sourceTexts[id] == text && (best.None? || id < best.value.0) {
          best := Some((id, s, k));
        }
      }
    }

    /** The active source with the text `text` that was inserted first. */
    method FindSource(text: seq<U>) returns (best: Option<(nat, nat, nat)>)
      requires Valid()
      ensures best.Some? ==> Matching(positions, sourceTexts, text, best.value.1, best.value.2)
      ensures best.Some? ==> positions[best.value.1][best.value.2].0 == best.value.0
      ensures best.Some? ==> ActiveText(positions, sourceTexts, text, best.value.0)
      ensures forall id: nat :: ActiveText(positions, sourceTexts, text, id) ==> best.Some? && best.value.0 <= id
    {
      best := None;
      var states := positions.Keys;
      while states != {}
        invariant states <= positions.Keys
        invariant best.Some? ==> Matching(positions, sourceTexts, text, best.value.1, best.value.2)
        invariant best.Some? ==> positions[best.value.1][best.value.2].0 == best.value.0
        invariant forall s: nat {:trigger s in positions} :: s in positions && s !in states ==>
          Least(positions, sourceTexts, text, s, |positions[s]|, best)
      {
        var s :| s in states;
        best := LeastAt(text, s, best);
        states := states - {s};
      }
      LeastIsFirst(names, sourceTexts, positions, text, best);
    }

    /** Removes one source record: of the active sources with this text, the first. */
    method Remove(text: seq<U>) returns (removed: bool, ghost id: nat)
      requires Valid()
      modifies this`positions, this`needsCompaction, this`stringCount, this`sortedSources
      ensures Valid() && stringCount == old(stringCount) - if removed then 1 else 0
      ensures removed <==> exists i: nat :: ActiveText(old(positions), sourceTexts, text, i)
      ensures removed ==> ActiveText(old(positions), sourceTexts, text, id) && needsCompaction
      ensures forall i: nat :: ActiveText(old(positions), sourceTexts, text, i) ==> id <= i
      ensures forall i: nat :: Active(positions, i) <==> Active(old(positions), i) && (removed ==> i != id)
      ensures forall i: nat :: i in sortedSources <==> i in old(sortedSources) && (removed ==> i != id)
      ensures !removed ==> positions == old(positions) && needsCompaction == old(needsCompaction)
    {
      var best := FindSource(text);
      removed, id := best.Some?, 0;
      if best.Some? {
        var (first, s, k) := best.value;
        id := first;
        UnindexSource(first);
        DropActive(names, sourceTexts, positions, s, k);
        DropHomes(nodes, sourceTexts, positions, s, k);
        positions := DropRecord(positions, s, k);
        CountDropped(old(positions), positions, |sourceTexts|, id);
        needsCompaction := true;
        stringCount := OneLess(stringCount);
      }
    }

    /** Marks the sources that some record holds. */
    method ActiveSources() returns (active: seq<bool>)
      requires Valid()
      ensures |active| == |sourceTexts|
      ensures forall id: nat {:trigger active[id]} :: id < |active| ==> (active[id] <==> Active(positions, id))
    {
      active := seq(|sourceTexts|, _ => false);
      var states := positions.Keys;
      while states != {}
        invariant states <= positions.Keys && |active| == |sourceTexts|
        invariant forall id: nat {:trigger active[id]} :: id < |active| && active[id] ==> Active(positions, id)
        invariant forall s: nat, k: nat {:trigger positions[s][k]} :: IsRecord(positions, s, k) && s !in states ==>
          positions[s][k].0 < |active| && active[positions[s][k].0]
      {
        var s :| s in states;
        for k := 0 to |positions[s]|
          invariant |active| == |sourceTexts|
          invariant forall id: nat {:trigger active[id]} :: id < |active| && active[id] ==> Active(positions, id)
          invariant forall t: nat, j: nat {:trigger positions[t][j]} ::
            IsRecord(positions, t, j) && (t !in states || (t == s && j < k)) ==>
            positions[t][j].0 < |active| && active[positions[t][j].0]
        {
          var id := positions[s][k].0;
          assert IsRecord(positions, s, k);
          active := active[id := true];
        }
        states := states - {s};
      }
    }

    /** Lists the occurrences of `needle` in one source, after those in the sources before it. */
    method ScanSource(id: nat, needle: seq<U>, active: seq<bool>, before: seq<(nat, nat)>)
      returns (result: seq<(nat, nat)>)
      requires needle != [] && |active| == |sourceTexts| && id < |active| && active[id] && |needle| <= |sourceTexts[id]|
      requires Lists(before, sourceTexts, active, needle, id, 0)
      ensures Lists(result, sourceTexts, active, needle, id + 1, 0)
    {
      result := before;
      var text := sourceTexts[id];
      for start := 0 to |text| - |needle| + 1
        invariant Lists(result, sourceTexts, active, needle, id, start)
      {
        StartsWith(needle, text, start);
        ListNext(result, sourceTexts, active, needle, id, start);
        if needle <= text[start..] {
          result := result + [(id, start + |needle|)];
        }
      }
      NothingToList(result, sourceTexts, active, needle, id, |text| - |needle| + 1);
    }

    /** All occurrences of a nonempty word in the active sources, as (source id, end), in ascending order. */
    method MatchPositions(substring: seq<U>) returns (result: seq<(nat, nat)>)
      requires Valid()
      ensures Ascending(result)
      ensures substring == [] ==> result == []
      ensures substring != [] ==> forall id: nat, end: nat :: (id, end) in result <==>
        Active(positions, id) && id < |sourceTexts| && EndsAt(substring, sourceTexts[id], end)
    {
      result := [];
      if substring == [] {
        return;
      }
      var found := Contains(substring);
      if !found {
        return;
      }
      var active := ActiveSources();
      for id := 0 to |sourceTexts|
        invariant Lists(result, sourceTexts, active, substring, id, 0)
      {
        if active[id] && |substring| <= |sourceTexts[id]| {
          result := ScanSource(id, substring, active, result);
        } else {
          NothingToList(result, sourceTexts, active, substring, id, 0);
        }
      }
    }

    /** Marks the states that paths from the root enter. */
    method Mark() returns (reachable: set<nat>)
      requires Coherent()
      ensures forall v {:trigger v in reachable} :: v in reachable <==> 0 <= v < |nodes| && Proper(nodes, v)
    {
      reachable := {};
      var stack: seq<nat> := [0];
      ghost var all := set v | 0 <= v < |nodes| && Proper(nodes, v);
      while stack != []
        invariant forall v {:trigger v in stack} :: v in stack ==> v < |nodes| && Proper(nodes, v)
        invariant reachable <= all && forall v {:trigger v in reachable} :: v in reachable ==> Proper(nodes, v)
        invariant 0 in reachable || 0 in stack
        invariant forall v, c {:trigger nodes[v].edges[c]} :: v in reachable && v < |nodes| && c in nodes[v].edges ==>
          nodes[v].edges[c] in reachable || nodes[v].edges[c] in stack
        decreases all - reachable, |stack|
      {
        var state := stack[|stack| - 1];
        var rest := stack[..|stack| - 1];
        assert state in stack && forall v {:trigger v in rest} :: v in rest ==> v in stack;
        assert forall v {:trigger v in stack} :: v in stack ==> v in rest || v == state;
        if state in reachable {
          stack := rest;
        } else {
          ProperTargets(nodes, names, state);
          var targets := Targets(nodes[state].edges);
          stack := rest + targets;
          reachable := reachable + {state};
          assert forall v {:trigger v in stack} :: v in stack <==> v in rest || v in targets;
          forall v | v in targets ensures v < |nodes| && Proper(nodes, v) {
            var c :| c in nodes[state].edges && nodes[state].edges[c] == v;
          }
        }
      }
      forall v | 0 <= v < |nodes| && Proper(nodes, v) ensures v in reachable {
        assert Homed(nodes, names, v);
        ClosedUnderRead(nodes, reachable, names[v]);
      }
    }

    /** The records of the kept states, under their new numbers. */
    method Sweep(reachable: set<nat>, kept: seq<nat>, index: seq<nat>) returns (ps: Positions)
      requires |index| == |nodes| && forall v :: v in reachable ==> v < |nodes|
      requires forall v {:trigger index[v]} :: v in reachable ==> index[v] < |kept| && kept[index[v]] == v
      requires forall i :: 0 <= i < |kept| ==> kept[i] in reachable && index[kept[i]] == i
      ensures Swept(positions, ps, kept)
    {
      ps := map[];
      var states := positions.Keys;
      while states != {}
        invariant states <= positions.Keys
        invariant forall i {:trigger i in ps} ::
          i in ps ==> i < |kept| && kept[i] in positions && ps[i] == positions[kept[i]]
        invariant forall i {:trigger kept[i]} ::
          0 <= i < |kept| && kept[i] in positions && kept[i] !in states ==> i in ps
      {
        var s :| s in states;
        if s in reachable {
          ps := ps[index[s] := positions[s]];
        }
        states := states - {s};
      }
    }

    /** Mark and sweep: the states that paths from the root enter, and the records at them. */
    method MarkAndSweep() returns (h: seq<Node<U>>, ps: Positions, ghost names': seq<seq<U>>)
      requires Coherent()
      ensures Automaton(h, names') && Indexes(names', sourceTexts) && Separated(h, names', PrefixWords(sourceTexts))
      ensures Recorded(names', sourceTexts, ps) && HomesKnown(h, sourceTexts, ps)
      ensures (forall i :: 0 <= i < |h| ==> Proper(h, i)) && Finals(h)
      ensures forall id: nat :: Active(ps, id) <==>
        Active(positions, id) && id < |sourceTexts| && (sourceTexts[id] == [] || !OccursEarlier(sourceTexts, id))
    {
      var reachable := Mark();
      var kept, index := Number(|nodes|, reachable);
      h := Renumber(kept, index);
      ps := Sweep(reachable, kept, index);
      ghost var k;
      k, names' := CompactNamed(nodes, names, h, reachable, kept, index);
      CompactDone(k, names', sourceTexts, positions, ps);
      CompactSeparated(k, names', PrefixWords(sourceTexts));
    }

    /** Drops the states that no path from the root enters, with the records at them. */
    method Collect()
      requires Coherent()
      modifies this`nodes, this`names, this`positions, this`lastState
      ensures Coherent()
      ensures forall v :: 0 <= v < |nodes| ==> Proper(nodes, v)
      ensures forall id: nat :: Active(positions, id) <==>
        Active(old(positions), id) && id < |sourceTexts| && (sourceTexts[id] == [] || !OccursEarlier(sourceTexts, id))
    {
      var newNodes, newPositions, newNames := MarkAndSweep();
      nodes, names, positions := newNodes, newNames, newPositions;
      lastState := 0;
    }

    /** Collects garbage, and notes which active sources go with it. */
    method CompactNow()
      requires Valid()
      modifies this`nodes, this`names, this`positions, this`lastState, this`needsCompaction, this`lost
      ensures Valid() && !needsCompaction
      ensures forall v :: 0 <= v < |nodes| ==> Proper(nodes, v)
      ensures forall id: nat :: Active(positions, id) <==>
        Active(old(positions), id) && id < |sourceTexts| && (sourceTexts[id] == [] || !OccursEarlier(sourceTexts, id))
      ensures lost == old(lost) + |Endangered(old(positions), sourceTexts)|
    {
      Collect();
      CountLost(old(positions), positions, sourceTexts);
      lost := lost + |Endangered(old(positions), sourceTexts)|;
      needsCompaction := false;
    }

    /** Collects garbage, if there may be any. */
    method Compact()
      requires Valid()
      modifies this`nodes, this`names, this`positions, this`lastState, this`needsCompaction, this`lost
      ensures Valid() && sourceTexts == old(sourceTexts) && !needsCompaction && stringCount == old(stringCount)
      ensures !old(needsCompaction) ==> nodes == old(nodes) && positions == old(positions)
      ensures old(needsCompaction) ==> forall v :: 0 <= v < |nodes| ==> Proper(nodes, v)
      ensures old(needsCompaction) ==> forall id: nat :: Active(positions, id) <==>
        Active(old(positions), id) && id < |sourceTexts| && (sourceTexts[id] == [] || !OccursEarlier(sourceTexts, id))
      ensures sortedSources == old(sortedSources)
      ensures lost == old(lost) + if old(needsCompaction) then |Endangered(old(positions), sourceTexts)| else 0
    {
      if needsCompaction {
        CompactNow();
      }
    }

    /** The kept states with all state numbers replaced. */
    method Renumber(kept: seq<nat>, index: seq<nat>) returns (h: seq<Node<U>>)
      requires WellFormed(nodes) && |index| == |nodes| && forall i :: 0 <= i < |kept| ==> kept[i] < |nodes|
      ensures |h| == |kept|
      ensures forall i {:trigger h[i]} {:trigger kept[i]} :: 0 <= i < |h| ==> Renumbered(nodes, h, index, kept[i], i)
    {
      h := [];
      for i := 0 to |kept|
        invariant |h| == i
        invariant forall j :: 0 <= j < i ==> h[j] == RenumberNode(nodes[kept[j]], index)
      {
        h := h + [RenumberNode(nodes[kept[i]], index)];
      }
    }
  }

  predicate CharLess(x: char, y: char) {
    x < y
  }

  method InsertTwo() returns (dict: SuffixAutomaton<char>)
    ensures fresh(dict) && dict.Valid() && dict.sourceTexts == ["ab", "a"] && dict.stringCount == 2
    ensures forall id: nat :: Active(dict.positions, id) <==> id == 0 || id == 1
    ensures dict.less == CharLess && forall id: nat :: id in dict.sortedSources <==> id == 0 || id == 1
  {
    dict := new SuffixAutomaton<char>(CharLess);
    dict.InsertText("ab");
    dict.InsertText("a");
  }

  lemma TextsInOrder()
    ensures InOrder(CharLess, ["ab", "a", "a"], [1, 2, 0])
  {
    assert "ab"[1..] == "b" && "a"[1..] == "";
    assert TextLess(CharLess, "a", "ab");
  }

  /** The list goes by text, a prefix first, and by insertion where texts are equal. */
  method ListedInOrder() returns (ids: seq<nat>)
    ensures ids == [1, 2, 0]
  {
    ids := InsertThree();
    TextsInOrder();
    InOrderUnique(CharLess, ["ab", "a", "a"], ids, [1, 2, 0]);
  }

  method InsertThree() returns (ids: seq<nat>)
    ensures InOrder(CharLess, ["ab", "a", "a"], ids) && forall id: nat :: id in ids <==> id == 0 || id == 1 || id == 2
  {
    var dict := InsertTwo();
    dict.InsertText("a");
    ids := dict.sortedSources;
    assert dict.sourceTexts == ["ab", "a", "a"];
  }

  /** "ab" and "a" inserted, "ab" removed. */
  method InsertTwoRemoveFirst() returns (dict: SuffixAutomaton<char>)
    ensures fresh(dict) && dict.Valid() && dict.needsCompaction && dict.sourceTexts == ["ab", "a"]
    ensures dict.stringCount == 1 && forall id: nat :: Active(dict.positions, id) <==> id == 1
  {
    dict := InsertTwo();
    assert ActiveText(dict.positions, dict.sourceTexts, "ab", 0);
    var _, _ := dict.Remove("ab");
  }

  lemma LaterTextOccursEarlier()
    ensures EndsAt("a", "a", 1) && OccursEarlier(["ab", "a"], 1)
  {
    assert EndsAt("a", "ab", 1) && ["ab", "a"][1] == "a" && ["ab", "a"][0] == "ab";
  }

  /** After the clone was made and the edges redirected. */
  lemma SplitDone<U(!new)>(g: Graph<U>, mid: Graph<U>, h: Graph<U>, names: seq<seq<U>>, last: nat, c: U,
                           bare: set<nat>, p: nat, q: nat, moved: set<nat>)
    requires Automaton(g, names) && last < |g| && Walk(g, last, c, bare, Some(p))
    requires p < |g| && Proper(g, p) && c in g[p].edges && g[p].edges[c] == q && g[q].len > g[p].len + 1
    requires SplitExtended(g, mid, last, c, bare, p, q, {}) && Moves(g, c, p, q, moved)
    requires |h| == |mid| && forall v {:trigger h[v]} :: 0 <= v < |mid| ==>
      h[v] == if v in moved then mid[v].(edges := mid[v].edges[c := |g| + 1]) else mid[v]
    ensures var names' := names + [names[last] + [c], names[p] + [c]];
      && Automaton(h, names') && |h| == |g| + 2 && Grown(names, names', last, c)
      && Separates(g, names, h, names', names[last] + [c])
    ensures forall v :: 0 <= v < |g| ==> Proper(h, v) == Proper(g, v)
    ensures h[|g|].edges == map[] && Proper(h, |g|) == (g[p].len < g[last].len)
    ensures Splits(g, c) && Proper(h, |g| + 1) && SplitExtended(g, h, last, c, bare, p, q, moved)
  {
    SplitFinished(g, mid, h, names, last, c, bare, p, q, moved);
    SplitPartsStates(g, h, names, last, c, bare, p, q, moved);
    CloneProper(g, h, names + [names[last] + [c], names[p] + [c]], c, p, q, moved);
  }

  lemma SplitFinals<U(!new)>(g: Graph<U>, h: Graph<U>, last: nat, c: U, bare: set<nat>, p: nat, q: nat, moved: set<nat>)
    requires last < |g| && p < |g| && q < |g| && SplitExtended(g, h, last, c, bare, p, q, moved)
    ensures Finals(g) ==> Finals(h)
  {
  }

  /** The clone is entered from where the walk stopped. */
  lemma CloneProper<U(!new)>(g: Graph<U>, h: Graph<U>, names: seq<seq<U>>, c: U, p: nat, q: nat, moved: set<nat>)
    requires WellFormed(g) && Linked(g) && p < |g| && Proper(g, p) && c in g[p].edges && g[p].edges[c] == q
    requires g[q].len > g[p].len + 1 && Moves(g, c, p, q, moved)
    requires Automaton(h, names) && p < |h| && Proper(h, p)
    requires p in moved ==> c in h[p].edges && h[p].edges[c] == |g| + 1
    ensures Splits(g, c) && |g| + 1 < |h| && Proper(h, |g| + 1)
  {
    assert SplitsAt(g, p, c);
    assert OnChain(g, p, p);
    assert p in moved;
    assert EdgeFits(h, names, p, c);
  }

  lemma SomeMember(s: seq<(nat, nat)>)
    ensures s == [] || exists id, end :: (id, end) in s
  {
    if s != [] {
      assert (s[0].0, s[0].1) in s;
    }
  }

  /**
   Compaction can lose a source that was never removed: here the text "a", inserted after "ab".
   The string count still counts it and the sorted list still holds it, and it cannot be removed any more.
   */
  method CompactLosesSource()
    returns (before: seq<(nat, nat)>, after: seq<(nat, nat)>, count: nat, listed: bool, removed: bool)
    ensures (1, 1) in before && after == [] && count == 1 && listed && !removed
  {
    var dict := InsertTwoRemoveFirst();
    LaterTextOccursEarlier();
    before := dict.MatchPositions("a");
    dict.Compact();
    after := dict.MatchPositions("a");
    SomeMember(after);
    count := dict.stringCount;
    assert 1 in dict.sortedSources && dict.sourceTexts[1] == "a";
    listed := dict.ContainsSource("a");
    ghost var id;
    removed, id := dict.Remove("a");
  }
}
