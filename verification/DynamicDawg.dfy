/** The dynamic DAWG: words are added and removed in place, and nodes are merged from time to time. */
module DynamicDawg {
  import opened Words
  import opened DawgGraph
  import opened DawgEdit
  import opened DawgMinimal
  import opened DawgReduced
  import opened DawgTidy
  import opened DawgStored
  import opened DawgExtract
  import opened DawgRebuild
  import opened DawgRefCounts
  import opened DawgPut

  /** The path cannot be followed any further. */
  predicate Stuck<U, V>(g: Graph<U, V>, path: seq<nat>, units: seq<U>) {
    0 < |path| <= |units| + 1 && path[|path| - 1] < |g| && (|path| <= |units| ==>
      units[|path| - 1] !in g[path[|path| - 1]].edges)
  }

  /** As many entries as stored words. */
  lemma EntryCount<U(!new), V>(entries: seq<(seq<U>, Option<V>)>, contents: map<seq<U>, Option<V>>)
    requires Lists(entries, contents)
    ensures |entries| == |contents|
  {
    var words := FirstWords(entries, |entries|);
    forall w ensures w in words <==> w in contents {
      if w in contents {
        assert Listed(entries, w, contents[w]);
        var i :| 0 <= i < |entries| && entries[i] == (w, contents[w]);
      }
    }
    assert words == contents.Keys;
    FirstWordsCount(entries, |entries|);
  }

  function FirstWords<U(==), V>(entries: seq<(seq<U>, Option<V>)>, n: nat): set<seq<U>>
    requires n <= |entries|
  {
    set i | 0 <= i < n :: entries[i].0
  }

  lemma {:induction false} FirstWordsCount<U(!new), V>(entries: seq<(seq<U>, Option<V>)>, n: nat)
    requires n <= |entries| && DistinctWords(entries)
    ensures |FirstWords(entries, n)| == n
    decreases n
  {
    if n > 0 {
      FirstWordsCount(entries, n - 1);
      assert FirstWords(entries, n) == FirstWords(entries, n - 1) + {entries[n - 1].0};
    }
  }

  lemma NoValuesListed<U(!new), V>(g: Graph<U, V>, entries: seq<(seq<U>, Option<V>)>, contents: map<seq<U>, Option<V>>)
    requires WellFormed(g) && Holds(g, contents) && Lists(entries, contents)
    ensures ValueFree(g) ==> NoValues(entries, |entries|)
  {
    if ValueFree(g) {
      forall i | 0 <= i < |entries| ensures entries[i].1 == None {
        StoredValue(g, entries[i].0, entries[i].1, contents);
      }
    }
  }

  lemma StoredValue<U(!new), V>(g: Graph<U, V>, w: seq<U>, value: Option<V>, contents: map<seq<U>, Option<V>>)
    requires WellFormed(g) && Holds(g, contents) && ValueFree(g) && w in contents && contents[w] == value
    ensures value == None
  {
    assert Stored(g, 0, w) == Some(value);
    ObservedValue(g, 0, w);
  }

  lemma {:induction false} ObservedValue<U, V>(g: Graph<U, V>, v: nat, w: seq<U>)
    requires WellFormed(g) && ValueFree(g) && v < |g| && Observe(g, v, w).Some?
    ensures Observe(g, v, w).value.1 == None
    decreases |w|
  {
    if w != [] {
      ObservedValue(g, g[v].edges[w[0]], w[1..]);
    }
  }

  class Dawg<U(==, !new), V(==, !new)> {
    var nodes: seq<Node<U, V>>
    var refCounts: seq<nat>
    var termCount: nat
    const hash: (bool, map<U, nat>) -> nat
    ghost var contents: map<seq<U>, Option<V>>

    ghost predicate Shaped()
      reads this
    {
      Sound(nodes) && Tidy(nodes) && Counted(nodes, refCounts)
    }

    ghost predicate Valid()
      reads this
    {
      Shaped() && Holds(nodes, contents) && termCount == |contents|
    }

    constructor (hash: (bool, map<U, nat>) -> nat)
      ensures Valid() && contents == map[] && nodes == [Node(map[], false, None)]
    {
      nodes, refCounts, termCount := [Node(map[], false, None)], [1], 0;
      this.hash := hash;
      contents := map[];
    }

    /** Whether a word is stored. */
    method Contains(units: seq<U>) returns (found: bool)
      requires Valid()
      ensures found <==> units in contents
    {
      assert Stored(nodes, 0, units) == if units in contents then Some(contents[units]) else None;
      var node := 0;
      for i := 0 to |units|
        invariant 0 <= node < |nodes| && Observe(nodes, 0, units) == Observe(nodes, node, units[i..])
      {
        if units[i] !in nodes[node].edges {
          return false;
        }
        assert units[i..][1..] == units[i + 1..];
        node := nodes[node].edges[units[i]];
      }
      return nodes[node].isFinal;
    }

    /** Follows existing edges as far as they go. */
    method FollowPath(units: seq<U>) returns (path: seq<nat>)
      requires Shaped()
      ensures Follows(nodes, path, units) && Stuck(nodes, path, units)
    {
      path := [0];
      var node := 0;
      for i := 0 to |units|
        invariant |path| == i + 1 && path[i] == node < |nodes| && Follows(nodes, path, units)
      {
        if units[i] !in nodes[node].edges {
          return;
        }
        node := nodes[node].edges[units[i]];
        ghost var before := path;
        path := path + [node];
        forall j: nat | j < |path| - 1 ensures PathEdge(nodes, path, units, j) {
          if j < i {
            assert PathEdge(nodes, before, units, j);
          }
        }
      }
    }

    /** Makes sure that the child under `unit` is entered from `parent` only, by copying it if it is shared. */
    method EnsureUniqueChild(parent: nat, unit: U, child: nat, ghost path: seq<nat>, ghost units: seq<U>)
      returns (unique: nat)
      requires Shaped() && UniquePath(nodes, path, units) && |path| <= |units|
      requires parent == path[|path| - 1] && unit == units[|path| - 1] && IsEdge(nodes, parent, unit, child)
      modifies this`nodes, this`refCounts
      ensures Shaped() && SameObserve(old(nodes), nodes)
      ensures UniquePath(nodes, path + [unique], units)
      ensures nodes == Unshared(old(nodes), parent, unit) && unique == nodes[parent].edges[unit]
    {
      ghost var g := nodes;
      assert child != 0 by {
        assert !IsEdge(nodes, parent, unit, 0);
      }
      if refCounts[child] <= 1 {
        CountIsSole(nodes, refCounts, parent, unit, child);
        KeepPath(nodes, path, units, child);
        return child;
      }
      NotOnPath(nodes, refCounts, path, units, child);
      assert parent != child;
      ghost var a, d := SharedEntry(nodes, refCounts, parent, unit, child);
      unique := |nodes|;
      nodes := nodes + [nodes[child]];
      var counts := AddTargets(nodes[child].edges, refCounts + [1]);
      refCounts := counts[child := counts[child] - 1];
      nodes := nodes[parent := nodes[parent].(edges := nodes[parent].edges[unit := unique])];
      CopyDone(g, nodes, parent, unit, child, old(refCounts), counts, refCounts);
      CopyTidy(g, nodes, parent, unit, child, a, d);
      CopySound(g, nodes, parent, unit, child, a, d);
      CopyPath(g, nodes, path, units, child);
      forall w ensures Observe(nodes, 0, w) == Observe(g, 0, w) {
        CopyObserve(g, nodes, parent, unit, child, 0, w);
      }
    }

    /** Copies shared nodes until no node of the path is entered from elsewhere. */
    method MakePathUnique(path: seq<nat>, units: seq<U>, ghost value: Option<V>) returns (unique: seq<nat>)
      requires Shaped() && Follows(nodes, path, units)
      modifies this`nodes, this`refCounts
      ensures Shaped() && SameObserve(old(nodes), nodes)
      ensures UniquePath(nodes, unique, units) && |unique| == |path| && unique[|path| - 1] < |nodes|
      ensures Put(nodes, unique[|path| - 1], units[|path| - 1..], value) == Put(old(nodes), 0, units, value)
    {
      unique := [0];
      ghost var g := nodes;
      assert units[0..] == units;
      for i := 0 to |path| - 1
        invariant Shaped() && SameObserve(g, nodes)
        invariant UniquePath(nodes, unique, units) && |unique| == i + 1 && unique[i] < |nodes|
        invariant Put(nodes, unique[i], units[i..], value) == Put(g, 0, units, value)
      {
        var parent := unique[i];
        StillFollows(g, nodes, path, unique, units, i);
        var child := nodes[parent].edges[units[i]];
        assert units[i..][1..] == units[i + 1..];
        var x := EnsureUniqueChild(parent, units[i], child, unique, units);
        unique := unique + [x];
      }
    }

    /** Appends the nodes for the rest of a word at the end of a unique path. */
    method AppendNodes(path: seq<nat>, units: seq<U>, value: Option<V>) returns (longer: seq<nat>)
      requires Sound(nodes) && Tidy(nodes)
      requires UniquePath(nodes, path, units) && |path| <= |units| && Stuck(nodes, path, units)
      modifies this`nodes
      ensures Sound(nodes) && Tidy(nodes)
      ensures nodes == Put(old(nodes), path[|path| - 1], units[|path| - 1..], value)
      ensures forall w ::
        Stored(nodes, 0, w) == if w == units then Some(value) else Stored(old(nodes), 0, w)
    {
      longer := path;
      assert Appending(nodes, path, nodes, path, units, value);
      for i := |path| - 1 to |units|
        invariant |longer| == i + 1 && Appending(old(nodes), path, nodes, longer, units, value)
      {
        var last := i == |units| - 1;
        var n := Node(map[], last, if last then value else None);
        var newIdx := |nodes|;
        ghost var g := nodes;
        nodes := nodes + [n];
        nodes := nodes[longer[i] := nodes[longer[i]].(edges := nodes[longer[i]].edges[units[i] := newIdx])];
        AppendStep(old(nodes), path, g, nodes, longer, units, value);
        longer := longer + [newIdx];
      }
      AppendDone(old(nodes), path, nodes, longer, units, value);
    }

    /** Puts a word at the end of the longest path that exists for it, which is made unique before. */
    method Place(path: seq<nat>, units: seq<U>, value: Option<V>)
      requires Shaped() && Holds(nodes, contents) && Follows(nodes, path, units) && Stuck(nodes, path, units)
      requires |path| > |units| && value == None ==> !nodes[path[|units|]].isFinal
      modifies this`nodes, this`refCounts
      ensures Sound(nodes) && Tidy(nodes) && Holds(nodes, contents[units := value])
      ensures nodes == Put(old(nodes), 0, units, value)
    {
      ghost var g := nodes;
      var unique := MakePathUnique(path, units, value);
      SameHolds(g, nodes, contents);
      StillStuck(g, nodes, path, unique, units);
      ghost var h := nodes;
      if |path| <= |units| {
        var _ := AppendNodes(unique, units, value);
      } else if value == None {
        MarkFinal(unique, units);
      } else {
        SetValue(unique, units, value.value);
      }
      AddHolds(h, nodes, contents, units, value);
    }

    /** Adds a word; returns whether it is new. */
    method Insert(units: seq<U>, minimizeAfter: bool) returns (added: bool)
      requires Valid()
      modifies this
      ensures Valid()
      ensures added <==> units !in old(contents)
      ensures contents == if added then old(contents)[units := None] else old(contents)
      ensures added && !minimizeAfter ==> nodes == Put(old(nodes), 0, units, None)
      ensures added && minimizeAfter ==> (MinimalButValues(nodes) <==> Aligned(Put(old(nodes), 0, units, None)))
    {
      var path := FollowPath(units);
      var pathLen := |path| - 1;
      ghost var g := nodes;
      PathFound(g, path, units, contents);
      if pathLen == |units| && nodes[path[pathLen]].isFinal {
        return false;
      }
      Place(path, units, None);
      termCount := termCount + 1;
      contents := contents[units := None];
      refCounts := Recompute(nodes);
      if minimizeAfter {
        var _ := Minimize();
      }
      return true;
    }

    /** Makes the node at the end of a unique path final. */
    method MarkFinal(path: seq<nat>, units: seq<U>)
      requires Sound(nodes) && Tidy(nodes)
      requires UniquePath(nodes, path, units) && |path| == |units| + 1 && path[|units|] < |nodes|
      requires !nodes[path[|units|]].isFinal
      modifies this`nodes
      ensures Sound(nodes) && Tidy(nodes)
      ensures nodes == Put(old(nodes), path[|units|], [], None)
      ensures forall w ::
        Stored(nodes, 0, w) == if w == units then Some(None) else Stored(old(nodes), 0, w)
    {
      ghost var g, x := nodes, path[|units|];
      nodes := nodes[path[|units|] := nodes[path[|units|]].(isFinal := true)];
      assert Relabelled(g, nodes, x, true, None);
      RelabelSound(g, nodes, path, units, true, None);
      FinalTidy(g, nodes, path, units, None);
      forall w ensures Stored(nodes, 0, w) == if w == units then Some(None) else Stored(g, 0, w) {
        RelabelStored(g, nodes, path, units, true, None, w);
      }
    }

    /** Makes the node at the end of a unique path final and sets its value. */
    method SetValue(path: seq<nat>, units: seq<U>, value: V)
      requires Sound(nodes) && Tidy(nodes)
      requires UniquePath(nodes, path, units) && |path| == |units| + 1 && path[|units|] < |nodes|
      modifies this`nodes
      ensures Sound(nodes) && Tidy(nodes)
      ensures nodes == Put(old(nodes), path[|units|], [], Some(value))
      ensures forall w ::
        Stored(nodes, 0, w) == if w == units then Some(Some(value)) else Stored(old(nodes), 0, w)
    {
      ghost var g, x := nodes, path[|units|];
      nodes := nodes[path[|units|] := nodes[path[|units|]].(isFinal := true, value := Some(value))];
      RelabelSound(g, nodes, path, units, true, Some(value));
      FinalTidy(g, nodes, path, units, Some(value));
      forall w ensures Stored(nodes, 0, w) == if w == units then Some(Some(value)) else Stored(g, 0, w) {
        RelabelStored(g, nodes, path, units, true, Some(value), w);
      }
    }

    /** Adds a word with a value, or replaces the value of a word; returns whether the word is new. */
    method InsertWithValue(units: seq<U>, value: V, minimizeAfter: bool) returns (added: bool)
      requires Valid()
      modifies this
      ensures Valid()
      ensures added <==> units !in old(contents)
      ensures contents == old(contents)[units := Some(value)]
      ensures !(added && minimizeAfter) ==> nodes == Put(old(nodes), 0, units, Some(value))
      ensures added && minimizeAfter ==> (MinimalButValues(nodes) <==> Aligned(Put(old(nodes), 0, units, Some(value))))
    {
      var path := FollowPath(units);
      var pathLen := |path| - 1;
      ghost var g := nodes;
      PathFound(g, path, units, contents);
      added := pathLen < |units| || !nodes[path[pathLen]].isFinal;
      Place(path, units, Some(value));
      termCount := if added then termCount + 1 else termCount;
      contents := contents[units := Some(value)];
      refCounts := Recompute(nodes);
      if added && minimizeAfter {
        var _ := Minimize();
      }
    }

    /** Removes a word; returns whether it was there. */
    method Remove(units: seq<U>) returns (removed: bool)
      requires Valid()
      modifies this
      ensures Valid()
      ensures removed <==> units in old(contents)
      ensures contents == old(contents) - {units}
    {
      var path := FollowPath(units);
      ghost var g := nodes;
      PathFound(g, path, units, contents);
      if |path| <= |units| || !nodes[path[|units|]].isFinal {
        return false;
      }
      var unique := MakePathUnique(path, units, None);
      SameHolds(g, nodes, contents);
      ghost var h := nodes;
      Unmark(unique, units);
      termCount := termCount - 1;
      contents := contents - {units};
      Prune(unique, units, h);
      refCounts := Recompute(nodes);
      return true;
    }

    /** Makes the node at the end of a unique path not final, and drops its value. */
    method Unmark(path: seq<nat>, units: seq<U>)
      requires Sound(nodes) && Tidy(nodes) && Holds(nodes, contents)
      requires UniquePath(nodes, path, units) && |path| == |units| + 1
      modifies this`nodes
      ensures Sound(nodes) && TidyBut(nodes, path) && Holds(nodes, contents - {units})
      ensures |nodes| == |old(nodes)|
      ensures forall v :: 0 <= v < |nodes| ==> nodes[v].edges == old(nodes)[v].edges
    {
      ghost var h := nodes;
      PathLeads(nodes, path, units, |units|);
      nodes := nodes[path[|units|] := nodes[path[|units|]].(isFinal := false, value := None)];
      RelabelSound(h, nodes, path, units, false, None);
      forall w ensures Stored(nodes, 0, w) == if w == units then None else Stored(h, 0, w) {
        RelabelStored(h, nodes, path, units, false, None, w);
      }
      RelabelTidy(h, nodes, path, units, false, None);
      DropHolds(h, nodes, contents, units);
    }

    /** Cuts off the nodes at the end of the path that are neither final nor have edges. */
    method Prune(path: seq<nat>, units: seq<U>, ghost h: Graph<U, V>)
      requires Sound(nodes) && Holds(nodes, contents) && TidyBut(nodes, path)
      requires WellFormed(h) && NoReturn(h) && UniquePath(h, path, units) && |path| == |units| + 1
      requires |nodes| == |h| && forall v :: 0 <= v < |h| ==> nodes[v].edges == h[v].edges
      modifies this`nodes
      ensures Sound(nodes) && Holds(nodes, contents) && Tidy(nodes)
    {
      assert path[..|units| + 1] == path;
      forall j | 0 <= j < |units| ensures path[j] < |h| {
        PathLeads(h, path, units, j);
      }
      for i := |units| downto 0
        invariant Sound(nodes) && Holds(nodes, contents)
        invariant Pruned(h, nodes, path, i) && TidyBut(nodes, path[..i + 1])
      {
        assert PathEdge(h, path, units, i);
        var parent, child := path[i], path[i + 1];
        PathLeads(h, path, units, i);
        PathLeads(h, path, units, i + 1);
        if nodes[child].isFinal || nodes[child].edges != map[] {
          PruneStops(h, nodes, path, units, i + 1);
          return;
        }
        ghost var g := nodes;
        nodes := nodes[parent := nodes[parent].(edges := nodes[parent].edges - {units[i]})];
        CutHolds(g, nodes, parent, units[i], child, contents);
        PruneStep(h, g, nodes, path, units, i);
      }
    }

    /** Rebuilds the graph from its entries; what is returned counts nodes merged in the rebuilt trie, too. */
    method Compact() returns (reported: nat)
      requires Valid()
      modifies this`nodes, this`refCounts, this`termCount
      ensures Valid() && contents == old(contents) && AllLive(nodes) && MinimalButValues(nodes)
      ensures ValueFree(old(nodes)) ==> ValueFree(nodes) && Minimal(nodes)
      ensures |nodes| <= |Prefixes(contents)|
      ensures reported ==
        (if old(|nodes|) > |nodes| then old(|nodes|) - |nodes| else 0) + |Prefixes(contents)| - |nodes|
    {
      var entries := Extract(nodes, contents);
      ghost var g := nodes;
      var count := |nodes|;
      var k, merged, stored := Rebuild(entries, hash);
      ListedWins(entries, contents, stored);
      nodes := k;
      termCount := |entries|;
      refCounts := Recompute(nodes);
      reported := (if count > |nodes| then count - |nodes| else 0) + merged;
      EntryCount(entries, contents);
      NoValuesListed(g, entries, contents);
    }

    /** Merges nodes and drops the unreachable ones; returns how many nodes went. */
    method Minimize() returns (removed: nat)
      requires Valid()
      modifies this`nodes, this`refCounts
      ensures Valid() && |nodes| + removed == old(|nodes|)
      ensures SameObserve(old(nodes), nodes) && AllLive(nodes)
      ensures MinimalButValues(nodes) <==> Aligned(old(nodes))
      ensures ValueFree(old(nodes)) ==> ValueFree(nodes) && (Minimal(nodes) <==> Aligned(old(nodes)))
    {
      ghost var g := nodes;
      HoldsAcyclic(nodes, contents);
      var k := Minimized(nodes, hash);
      removed := |nodes| - |k|;
      nodes := k;
      refCounts := Recompute(nodes);
      SameHolds(g, nodes, contents);
      if ValueFree(g) {
        ValueFreeMinimal(nodes);
      }
    }
  }

  /** In the graph `g`, edges of `h` are gone, but none from the first `n` nodes of the path. */
  ghost predicate Pruned<U(!new), V>(h: Graph<U, V>, g: Graph<U, V>, path: seq<nat>, n: nat) {
    && |g| == |h|
    && (forall v: nat, c, t: nat :: IsEdge(g, v, c, t) ==> IsEdge(h, v, c, t))
    && (forall j :: 0 <= j < n && j < |path| ==> path[j] < |h| && g[path[j]].edges == h[path[j]].edges)
  }

  lemma PrunedFollows<U(!new), V>(h: Graph<U, V>, g: Graph<U, V>, path: seq<nat>, units: seq<U>, n: nat)
    requires Follows(h, path, units) && Pruned(h, g, path, n) && n < |path|
    ensures Follows(g, path[..n + 1], units)
  {
    var head := path[..n + 1];
    forall j: nat | j < n ensures PathEdge(g, head, units, j) {
      assert PathEdge(h, path, units, j);
    }
  }

  /** Cutting stops at a node that is final or has a child: all nodes before it lead on. */
  lemma PruneStops<U(!new), V>(h: Graph<U, V>, g: Graph<U, V>, path: seq<nat>, units: seq<U>, n: nat)
    requires WellFormed(h) && NoReturn(h) && UniquePath(h, path, units) && WellFormed(g) && NoReturn(g)
    requires 0 < n < |path| && Pruned(h, g, path, n) && TidyBut(g, path[..n + 1])
    requires path[n] < |g| && (g[path[n]].isFinal || g[path[n]].edges != map[])
    ensures Tidy(g)
  {
    var x := path[n];
    PrunedFollows(h, g, path, units, n);
    if g[x].isFinal {
      assert Accepts(g, x, []);
    } else {
      var c :| c in g[x].edges;
      var t := g[x].edges[c];
      assert IsEdge(g, x, c, t) && IsEdge(h, x, c, t) && !IsEdge(g, x, c, 0);
      forall j | 0 <= j <= n ensures path[j] != t {
        if j > 0 && path[j] == t {
          assert SoleStep(h, path, units, j - 1);
          PathDistinct(h, path, units, j - 1, n);
        }
      }
      assert t !in path[..n + 1];
      PathLeads(g, path[..n + 1], units, n);
      LiveThrough(g, x, c, t);
      assert TidyNode(g, t);
      var w :| Accepts(g, t, w);
      AcceptStep(g, x, c, w);
    }
    PathProductive(g, path[..n + 1], units);
  }

  lemma PruneStep<U(!new), V>(h: Graph<U, V>, g: Graph<U, V>, g': Graph<U, V>, path: seq<nat>, units: seq<U>, i: nat)
    requires WellFormed(h) && NoReturn(h) && UniquePath(h, path, units) && WellFormed(g) && WellFormed(g')
    requires ValuesFinal(g)
    requires i < |units| && |path| == |units| + 1 && Pruned(h, g, path, i + 1) && TidyBut(g, path[..i + 2])
    requires path[i] < |g| && path[i + 1] < |g| && Cut(g, g', path[i], units[i])
    requires !g[path[i + 1]].isFinal && g[path[i + 1]].edges == map[]
    ensures Pruned(h, g', path, i) && TidyBut(g', path[..i + 1])
  {
    var u, c, x := path[i], units[i], path[i + 1];
    assert PathEdge(h, path, units, i) && SoleStep(h, path, units, i);
    NotRoot(h, path, units, i + 1);
    PathDistinct(h, path, units, i, i + 1);
    assert path[..i + 2] == path[..i + 1] + [x];
    assert u == path[..i + 1][i];
    assert IsEdge(g, u, c, x) && SoleEntry(g, x, u, c);
    CutTidy(g, g', path[..i + 1], u, c, x);
    forall v: nat, d, t: nat | IsEdge(g', v, d, t) ensures IsEdge(h, v, d, t) {
      assert IsEdge(g, v, d, t);
    }
    forall j | 0 <= j < i ensures path[j] < |h| && g'[path[j]].edges == h[path[j]].edges {
      PathDistinct(h, path, units, j, i);
      assert g[path[j]].edges == h[path[j]].edges;
    }
  }

  /** A graph to which a word is being added at the end of a unique path. */
  ghost predicate Growing<U(!new), V>(g: Graph<U, V>, path: seq<nat>, units: seq<U>) {
    && Sound(g) && UniquePath(g, path, units) && Stuck(g, path, units) && TidyBut(g, path)
  }

  /** The rest of a word is being added to `g0` at the end of `path0`, and `path` leads to what was added so far. */
  ghost predicate Appending<U(!new), V>(g0: Graph<U, V>, path0: seq<nat>, g: Graph<U, V>, path: seq<nat>,
                                        units: seq<U>, value: Option<V>) {
    && Growing(g, path, units) && WellFormed(g0) && 0 < |path0| <= |units| && path0[|path0| - 1] < |g0|
    && Put(g0, path0[|path0| - 1], units[|path0| - 1..], value) ==
       (if |path| > |units| then g else Put(g, path[|path| - 1], units[|path| - 1..], value))
    && (|path| > |units| ==> g[path[|units|]].isFinal)
    && forall w ::
         Stored(g, 0, w) == if w == units && |path| > |units| then Some(value) else Stored(g0, 0, w)
  }

  /** The node that is added for the next unit. */
  function NextNode<U, V>(path: seq<nat>, units: seq<U>, value: Option<V>): Node<U, V> {
    Node(map[], |path| == |units|, if |path| == |units| then value else None)
  }

  lemma AppendStep<U(!new), V>(g0: Graph<U, V>, path0: seq<nat>, g: Graph<U, V>, h: Graph<U, V>, path: seq<nat>,
                               units: seq<U>, value: Option<V>)
    requires Appending(g0, path0, g, path, units, value) && |path| <= |units|
    requires var i := |path| - 1;
      h == (g + [NextNode(path, units, value)])[path[i] := g[path[i]].(edges := g[path[i]].edges[units[i] := |g|])]
    ensures Appending(g0, path0, h, path + [|g|], units, value)
  {
    var n := NextNode(path, units, value);
    GrowStep(g, h, path, units, value);
    assert units[..|units|] == units;
    forall w ensures Stored(h, 0, w) == if w == units && |path| == |units| then Some(value) else Stored(g, 0, w) {
      ExtendStored(g, h, path, units, n, w);
    }
  }

  lemma AppendDone<U(!new), V>(g0: Graph<U, V>, path0: seq<nat>, g: Graph<U, V>, path: seq<nat>, units: seq<U>,
                               value: Option<V>)
    requires Appending(g0, path0, g, path, units, value) && |path| == |units| + 1
    ensures Tidy(g)
  {
    assert Accepts(g, path[|units|], []);
    PathProductive(g, path, units);
  }

  lemma GrowStep<U(!new), V>(g: Graph<U, V>, h: Graph<U, V>, path: seq<nat>, units: seq<U>, value: Option<V>)
    requires Growing(g, path, units) && |path| <= |units|
    requires var i := |path| - 1;
      h == (g + [NextNode(path, units, value)])[path[i] := g[path[i]].(edges := g[path[i]].edges[units[i] := |g|])]
    ensures Growing(h, path + [|g|], units)
    ensures Extended(g, h, path[|path| - 1], units[|path| - 1], NextNode(path, units, value))
    ensures Put(g, path[|path| - 1], units[|path| - 1..], value) ==
            if |path| == |units| then h else Put(h, |g|, units[|path|..], value)
  {
    var i := |path| - 1;
    var n := NextNode(path, units, value);
    assert Extended(g, h, path[i], units[i], n);
    ExtendSound(g, h, path, units, n);
    ExtendTidy(g, h, path, units, n);
    PutNew(g, h, path[i], units[i..], value);
    assert units[i..][1..] == units[i + 1..];
  }

  /** A new node at the end of the path is what putting the rest of the word starts with. */
  lemma PutNew<U(!new), V>(g: Graph<U, V>, h: Graph<U, V>, v: nat, units: seq<U>, value: Option<V>)
    requires WellFormed(g) && v < |g| && units != [] && units[0] !in g[v].edges
    requires var n := Node(map[], |units| == 1, if |units| == 1 then value else None);
      h == (g + [n])[v := g[v].(edges := g[v].edges[units[0] := |g|])]
    ensures WellFormed(h) && Put(g, v, units, value) == if |units| == 1 then h else Put(h, |g|, units[1..], value)
  {
    var k := Attached(g, v, units[0]);
    assert k[v].edges[units[0]] == |g|;
    if |units| == 1 {
      assert units[1..] == [];
      assert Put(k, |g|, [], value) == h;
    } else {
      assert k == h;
    }
  }

  /** A shared node is entered by another edge. */
  lemma SharedEntry<U(!new), V>(g: Graph<U, V>, counts: seq<nat>, u: nat, c: U, x: nat) returns (a: nat, d: U)
    requires WellFormed(g) && Counted(g, counts) && IsEdge(g, u, c, x) && 0 < x < |g| && counts[x] > 1
    ensures IsEdge(g, a, d, x) && !(a == u && d == c)
  {
    if SoleEntry(g, x, u, c) {
      SoleIsCount(g, x, u, c, |g|);
    }
    a, d :| IsEdge(g, a, d, x) && !(a == u && d == c);
  }

  /** Whether the word is stored shows at the end of the longest path. */
  lemma PathFound<U(!new), V>(g: Graph<U, V>, path: seq<nat>, units: seq<U>, contents: map<seq<U>, Option<V>>)
    requires WellFormed(g) && Holds(g, contents) && Follows(g, path, units) && Stuck(g, path, units)
    ensures units in contents <==> |path| == |units| + 1 && g[path[|units|]].isFinal
  {
    assert Stored(g, 0, units) == if units in contents then Some(contents[units]) else None;
    assert units[..|units|] == units;
    var k := |path| - 1;
    PathLeads(g, path, units, k);
    ObserveAfter(g, 0, units[..k], path[k], units[k..]);
    assert units[..k] + units[k..] == units;
  }

  lemma StillStuck<U(!new), V>(g: Graph<U, V>, h: Graph<U, V>, path: seq<nat>, unique: seq<nat>, units: seq<U>)
    requires WellFormed(g) && WellFormed(h) && SameObserve(g, h) && Follows(g, path, units) && Stuck(g, path, units)
    requires Follows(h, unique, units) && |unique| == |path|
    ensures Stuck(h, unique, units) && h[unique[|path| - 1]].isFinal == g[path[|path| - 1]].isFinal
  {
    var k := |path| - 1;
    PathLeads(g, path, units, k);
    PathLeads(h, unique, units, k);
    ObserveAfter(g, 0, units[..k], path[k], []);
    ObserveAfter(h, 0, units[..k], unique[k], []);
    assert Observe(h, 0, units[..k] + []) == Observe(g, 0, units[..k] + []);
    if k < |units| {
      PathEnd(g, path, units, units[k]);
      PathEnd(h, unique, units, units[k]);
    }
  }

  /** A node entered more than once is not on a unique path. */
  lemma NotOnPath<U(!new), V>(g: Graph<U, V>, counts: seq<nat>, path: seq<nat>, units: seq<U>, x: nat)
    requires WellFormed(g) && NoReturn(g) && Counted(g, counts) && UniquePath(g, path, units) && 0 < x < |g|
    requires counts[x] > 1
    ensures forall i :: 0 <= i < |path| ==> path[i] != x
  {
    forall i | 0 <= i < |path| ensures path[i] != x {
      if i > 0 {
        assert SoleStep(g, path, units, i - 1);
        SoleIsCount(g, path[i], path[i - 1], units[i - 1], |g|);
      }
    }
  }

  lemma CopyDone<U(!new), V>(g: Graph<U, V>, h: Graph<U, V>, u: nat, c: U, x: nat, counts: seq<nat>, added: seq<nat>,
                             counts': seq<nat>)
    requires WellFormed(g) && NoReturn(g) && ValuesFinal(g) && Counted(g, counts) && IsEdge(g, u, c, x) && x < |g|
    requires counts[x] > 1
    requires |added| == |g| + 1
    requires forall v :: 0 <= v <= |g| ==> added[v] == (counts + [1])[v] + |LabelsTo(g[x].edges, v)|
    requires added[x] > 0 && counts' == added[x := added[x] - 1]
    requires h == (g + [g[x]])[u := g[u].(edges := g[u].edges[c := |g|])]
    ensures Copied(g, h, u, c, x) && WellFormed(h) && NoReturn(h) && ValuesFinal(h) && Counted(h, counts')
  {
    assert Copied(g, h, u, c, x);
    CopyWellFormed(g, h, u, c, x);
    assert LabelsTo(g[x].edges, |g|) == {};
    CopyCounted(g, h, u, c, x, counts, counts');
  }

  /** The edge that the original path took next is still there after copying. */
  lemma StillFollows<U(!new), V>(g: Graph<U, V>, h: Graph<U, V>, path: seq<nat>, unique: seq<nat>, units: seq<U>,
                                 i: nat)
    requires WellFormed(g) && WellFormed(h) && SameObserve(g, h) && Follows(g, path, units) && Follows(h, unique, units)
    requires |unique| == i + 1 < |path|
    ensures unique[i] < |h| && units[i] in h[unique[i]].edges
  {
    assert PathEdge(g, path, units, i);
    var head := path[..i + 1];
    assert Follows(g, head, units) by {
      forall j: nat | j < i ensures PathEdge(g, head, units, j) {
        assert PathEdge(g, path, units, j);
      }
    }
    PathEnd(g, head, units, units[i]);
    PathEnd(h, unique, units, units[i]);
  }
}
