/**
 Editing keeps a DAWG tidy: nodes that paths enter lead to a final node, and the others are
 empty. In the middle of an edit this holds for the nodes that are not on the edited path.
 */
module DawgTidy {
  import opened Words
  import opened DawgGraph
  import opened DawgEdit
  import opened DawgMinimal

  ghost predicate TidyBut<U(!new), V>(g: Graph<U, V>, path: seq<nat>)
    requires WellFormed(g)
  {
    forall v :: 0 < v < |g| && v !in path ==> TidyNode(g, v)
  }

  lemma {:induction false} PathTail<U(!new), V>(g: Graph<U, V>, path: seq<nat>, units: seq<U>, k: nat)
    requires WellFormed(g) && Follows(g, path, units) && k < |path|
    ensures path[k] < |g| && Leads(g, path[k], units[k..|path| - 1], path[|path| - 1])
    decreases |path| - k
  {
    PathLeads(g, path, units, k);
    if k < |path| - 1 {
      PathTail(g, path, units, k + 1);
      assert PathEdge(g, path, units, k);
      assert units[k..|path| - 1][1..] == units[k + 1..|path| - 1];
    }
  }

  /** If the end of the path leads to a final node, the graph is tidy. */
  lemma PathProductive<U(!new), V>(g: Graph<U, V>, path: seq<nat>, units: seq<U>)
    requires WellFormed(g) && Follows(g, path, units) && TidyBut(g, path)
    requires path[|path| - 1] < |g| && Productive(g, path[|path| - 1])
    ensures Tidy(g)
  {
    var x := path[|path| - 1];
    var z :| Accepts(g, x, z);
    forall v | 0 < v < |g| && v in path ensures TidyNode(g, v) {
      var k :| 0 <= k < |path| && path[k] == v;
      PathLeads(g, path, units, k);
      PathTail(g, path, units, k);
      ObserveAfter(g, v, units[k..|path| - 1], x, z);
      assert Accepts(g, v, units[k..|path| - 1] + z);
    }
  }

  // ---- Copying a shared node ----

  lemma {:induction false} CopyLeads<U(!new), V>(g: Graph<U, V>, h: Graph<U, V>, u: nat, c: U, x: nat, v: nat,
        w: seq<U>, t: nat)
    requires WellFormed(g) && WellFormed(h) && Copied(g, h, u, c, x) && v <= |g|
    ensures Leads(g, if v == |g| then x else v, w, t) ==> Leads(h, v, w, t) || (t == x && Leads(h, v, w, |g|))
    ensures Leads(h, v, w, t) ==> Leads(g, if v == |g| then x else v, w, if t == |g| then x else t)
    decreases |w|
  {
    var v' := if v == |g| then x else v;
    assert h[v].edges.Keys == g[v'].edges.Keys;
    if w != [] && w[0] in h[v].edges {
      CopyLeads(g, h, u, c, x, h[v].edges[w[0]], w[1..], t);
    }
  }

  /** A node with edges is live. */
  lemma EdgedLive<U(!new), V>(g: Graph<U, V>, v: nat, c: U)
    requires WellFormed(g) && Tidy(g) && v < |g| && c in g[v].edges
    ensures Live(g, v)
  {
    if v == 0 {
      assert Leads(g, 0, [], 0);
    } else {
      assert TidyNode(g, v);
    }
  }

  lemma LiveThrough<U(!new), V>(g: Graph<U, V>, v: nat, c: U, t: nat)
    requires WellFormed(g) && v < |g| && Live(g, v) && IsEdge(g, v, c, t)
    ensures Live(g, t)
  {
    ChildLive(g, v, c);
  }

  /** The original is still entered, the copy is entered from `u`. */
  lemma CopyLive<U(!new), V>(g: Graph<U, V>, h: Graph<U, V>, u: nat, c: U, x: nat, a: nat, d: U, v: nat)
    requires WellFormed(g) && WellFormed(h) && Tidy(g) && Copied(g, h, u, c, x) && u != x
    requires IsEdge(g, a, d, x) && !(a == u && d == c)
    ensures v < |g| ==> (Live(h, v) <==> Live(g, v))
    ensures v == |g| ==> Live(h, v)
  {
    EdgedLive(g, u, c);
    EdgedLive(g, a, d);
    if v == |g| {
      var w :| Leads(g, 0, w, u);
      CopyLeads(g, h, u, c, x, 0, w, u);
      CopyEdges(g, h, u, c, x, u, c, |g|);
      LiveThrough(h, u, c, |g|);
    } else if v < |g| {
      if Live(h, v) {
        var w :| Leads(h, 0, w, v);
        CopyLeads(g, h, u, c, x, 0, w, v);
      }
      if Live(g, v) {
        if v != x {
          var w :| Leads(g, 0, w, v);
          CopyLeads(g, h, u, c, x, 0, w, v);
        } else {
          var w :| Leads(g, 0, w, a);
          CopyLeads(g, h, u, c, x, 0, w, a);
          var a' := if Leads(h, 0, w, a) then a else |g|;
          CopyEdges(g, h, u, c, x, a', d, x);
          LiveThrough(h, a', d, x);
        }
      }
    }
  }

  lemma CopyTidy<U(!new), V>(g: Graph<U, V>, h: Graph<U, V>, u: nat, c: U, x: nat, a: nat, d: U)
    requires WellFormed(g) && WellFormed(h) && Tidy(g) && Copied(g, h, u, c, x) && u != x && x != 0
    requires IsEdge(g, a, d, x) && !(a == u && d == c)
    ensures Tidy(h)
  {
    EdgedLive(g, u, c);
    LiveThrough(g, u, c, x);
    forall v | 0 < v < |h| ensures TidyNode(h, v) {
      CopyLive(g, h, u, c, x, a, d, v);
      var v' := if v == |g| then x else v;
      assert TidyNode(g, v');
      if Live(h, v) {
        var w :| Accepts(g, v', w);
        CopyObserve(g, h, u, c, x, v, w);
        assert Accepts(h, v, w);
      }
    }
  }

  // ---- Adding a node at the end of the path ----

  lemma {:induction false} ExtendLeads<U(!new), V>(g: Graph<U, V>, h: Graph<U, V>, u: nat, c: U, n: Node<U, V>, v: nat,
        w: seq<U>, t: nat)
    requires WellFormed(g) && WellFormed(h) && Extended(g, h, u, c, n) && v < |g| && t < |g|
    ensures Leads(h, v, w, t) == Leads(g, v, w, t)
    decreases |w|
  {
    if w != [] {
      if w[0] in g[v].edges {
        assert h[v].edges[w[0]] == g[v].edges[w[0]];
        ExtendLeads(g, h, u, c, n, g[v].edges[w[0]], w[1..], t);
      } else if w[0] in h[v].edges {
        assert h[v].edges[w[0]] == |g| && h[|g|] == n;
      }
    }
  }

  lemma ExtendLive<U(!new), V>(g: Graph<U, V>, h: Graph<U, V>, u: nat, c: U, n: Node<U, V>, v: nat)
    requires WellFormed(g) && WellFormed(h) && Extended(g, h, u, c, n) && v < |g|
    ensures Live(h, v) <==> Live(g, v)
  {
    if Live(g, v) {
      var w :| Leads(g, 0, w, v);
      ExtendLeads(g, h, u, c, n, 0, w, v);
    }
    if Live(h, v) {
      var w :| Leads(h, 0, w, v);
      ExtendLeads(g, h, u, c, n, 0, w, v);
    }
  }

  /** Nodes that lead to a final node still do. */
  lemma ExtendProductive<U(!new), V>(g: Graph<U, V>, h: Graph<U, V>, u: nat, c: U, n: Node<U, V>, v: nat)
    requires WellFormed(g) && WellFormed(h) && Extended(g, h, u, c, n) && v < |g| && Productive(g, v)
    ensures Productive(h, v)
  {
    var w :| Accepts(g, v, w);
    ExtendObserve(g, h, u, c, n, v, w);
    if s :| w == s + [c] && Leads(g, v, s, u) {
      ObserveAfter(g, v, s, u, [c]);
      assert Observe(g, u, [c]) == None;
    }
    assert Accepts(h, v, w);
  }

  lemma ExtendTidy<U(!new), V>(g: Graph<U, V>, h: Graph<U, V>, path: seq<nat>, units: seq<U>, n: Node<U, V>)
    requires WellFormed(g) && WellFormed(h) && TidyBut(g, path) && 0 < |path| <= |units|
    requires Extended(g, h, path[|path| - 1], units[|path| - 1], n)
    ensures TidyBut(h, path + [|g|])
  {
    var u, c := path[|path| - 1], units[|path| - 1];
    forall v | 0 < v < |h| && v !in path + [|g|] ensures TidyNode(h, v) {
      assert v !in path && v != |g| && v != u;
      assert TidyNode(g, v);
      ExtendLive(g, h, u, c, n, v);
      if Live(g, v) {
        ExtendProductive(g, h, u, c, n, v);
      }
    }
  }

  // ---- Changing the flag and value at the end of the path ----

  lemma {:induction false} RelabelLeads<U(!new), V>(g: Graph<U, V>, h: Graph<U, V>, x: nat, isFinal: bool,
        value: Option<V>, v: nat, w: seq<U>, t: nat)
    requires WellFormed(g) && WellFormed(h) && Relabelled(g, h, x, isFinal, value) && v < |g|
    ensures Leads(h, v, w, t) == Leads(g, v, w, t)
    decreases |w|
  {
    if w != [] && w[0] in g[v].edges {
      RelabelLeads(g, h, x, isFinal, value, g[v].edges[w[0]], w[1..], t);
    }
  }

  lemma RelabelLive<U(!new), V>(g: Graph<U, V>, h: Graph<U, V>, x: nat, isFinal: bool, value: Option<V>, v: nat)
    requires WellFormed(g) && WellFormed(h) && Relabelled(g, h, x, isFinal, value) && v < |g|
    ensures Live(h, v) <==> Live(g, v)
  {
    if Live(g, v) {
      var w :| Leads(g, 0, w, v);
      RelabelLeads(g, h, x, isFinal, value, 0, w, v);
    }
    if Live(h, v) {
      var w :| Leads(h, 0, w, v);
      RelabelLeads(g, h, x, isFinal, value, 0, w, v);
    }
  }

  /** No node off the path leads to a node of the path. */
  lemma {:induction false} OffPath<U(!new), V>(g: Graph<U, V>, path: seq<nat>, units: seq<U>, k: nat, v: nat, w: seq<U>)
    requires WellFormed(g) && NoReturn(g) && UniquePath(g, path, units) && k < |path| && v < |g| && v !in path
    ensures !Leads(g, v, w, path[k])
    decreases k
  {
    if w != [] && Leads(g, v, w, path[k]) {
      var s, c := Unsnoc(w);
      var t := LeadsUnsnoc(g, v, s, c, path[k]);
      if k > 0 {
        assert SoleStep(g, path, units, k - 1);
        OffPath(g, path, units, k - 1, v, s);
      }
    }
  }

  lemma RelabelTidy<U(!new), V>(g: Graph<U, V>, h: Graph<U, V>, path: seq<nat>, units: seq<U>, isFinal: bool,
                                value: Option<V>)
    requires WellFormed(g) && NoReturn(g) && UniquePath(g, path, units) && TidyBut(g, path)
    requires WellFormed(h) && Relabelled(g, h, path[|path| - 1], isFinal, value)
    ensures TidyBut(h, path)
  {
    var x := path[|path| - 1];
    forall v | 0 < v < |h| && v !in path ensures TidyNode(h, v) {
      assert TidyNode(g, v);
      RelabelLive(g, h, x, isFinal, value, v);
      if Live(g, v) {
        var w :| Accepts(g, v, w);
        OffPath(g, path, units, |path| - 1, v, w);
        RelabelObserve(g, h, x, isFinal, value, v, w);
        assert Accepts(h, v, w);
      }
    }
  }

  /** Making the end of the path final. */
  lemma FinalTidy<U(!new), V>(g: Graph<U, V>, h: Graph<U, V>, path: seq<nat>, units: seq<U>, value: Option<V>)
    requires WellFormed(g) && NoReturn(g) && TidyBut(g, path) && UniquePath(g, path, units) && |path| == |units| + 1
    requires WellFormed(h) && Relabelled(g, h, path[|units|], true, value)
    ensures Tidy(h)
  {
    RelabelTidy(g, h, path, units, true, value);
    assert Accepts(h, path[|units|], []);
    assert Follows(h, path, units) by {
      forall j: nat | j < |path| - 1 ensures PathEdge(h, path, units, j) {
        assert PathEdge(g, path, units, j);
      }
    }
    PathProductive(h, path, units);
  }

  // ---- Cutting off empty nodes ----

  lemma {:induction false} CutLeads<U(!new), V>(g: Graph<U, V>, h: Graph<U, V>, u: nat, c: U, x: nat, v: nat,
        w: seq<U>, t: nat)
    requires WellFormed(g) && WellFormed(h) && IsEdge(g, u, c, x) && Cut(g, h, u, c) && v < |g| && g[x].edges == map[]
    requires t != x
    ensures Leads(h, v, w, t) == Leads(g, v, w, t)
    decreases |w|
  {
    if w != [] && w[0] in g[v].edges {
      CutLeads(g, h, u, c, x, g[v].edges[w[0]], w[1..], t);
    }
  }

  lemma CutLive<U(!new), V>(g: Graph<U, V>, h: Graph<U, V>, u: nat, c: U, x: nat, v: nat)
    requires WellFormed(g) && WellFormed(h) && IsEdge(g, u, c, x) && Cut(g, h, u, c) && v < |g| && g[x].edges == map[]
    requires v != x
    ensures Live(h, v) <==> Live(g, v)
  {
    if Live(g, v) {
      var w :| Leads(g, 0, w, v);
      CutLeads(g, h, u, c, x, 0, w, v);
    }
    if Live(h, v) {
      var w :| Leads(h, 0, w, v);
      CutLeads(g, h, u, c, x, 0, w, v);
    }
  }

  lemma CutEdges<U(!new), V>(g: Graph<U, V>, h: Graph<U, V>, u: nat, c: U, a: nat, d: U, t: nat)
    requires Cut(g, h, u, c)
    ensures IsEdge(h, a, d, t) <==> IsEdge(g, a, d, t) && !(a == u && d == c)
  {
  }

  /** A node that no edge enters is dead. */
  lemma UnenteredDead<U(!new), V>(g: Graph<U, V>, x: nat)
    requires WellFormed(g) && 0 < x < |g| && forall a: nat, d :: !IsEdge(g, a, d, x)
    ensures !Live(g, x)
  {
    forall w ensures !Leads(g, 0, w, x) {
      if w != [] && Leads(g, 0, w, x) {
        var s, c := Unsnoc(w);
        var t := LeadsUnsnoc(g, 0, s, c, x);
      }
    }
  }

  /** The node cut off is empty and dead; the others are as they were. */
  lemma CutTidy<U(!new), V>(g: Graph<U, V>, h: Graph<U, V>, path: seq<nat>, u: nat, c: U, x: nat)
    requires WellFormed(g) && WellFormed(h) && IsEdge(g, u, c, x) && Cut(g, h, u, c) && 0 < x < |g| && u != x
    requires Bare(g[x]) && SoleEntry(g, x, u, c) && TidyBut(g, path + [x]) && u in path
    ensures TidyBut(h, path)
  {
    forall v | 0 < v < |h| && v !in path ensures TidyNode(h, v) {
      if v == x {
        forall a: nat, d ensures !IsEdge(h, a, d, x) {
          CutEdges(g, h, u, c, a, d, x);
        }
        UnenteredDead(h, x);
      } else {
        assert v !in path + [x];
        assert TidyNode(g, v);
        CutLive(g, h, u, c, x, v);
        if Live(g, v) {
          var w :| Accepts(g, v, w);
          CutStored(g, h, u, c, x, v, w);
          assert Accepts(h, v, w);
        }
      }
    }
  }

  // ---- Only one word leads to a value ----

  /** No edge enters the root; values are at final nodes, and only one word leads to each. */
  ghost predicate Sound<U(!new), V>(g: Graph<U, V>) {
    WellFormed(g) && NoReturn(g) && ValuesFinal(g) && ValuesOnce(g)
  }

  /** A node that is entered twice has no value. */
  lemma SharedUnvalued<U(!new), V>(g: Graph<U, V>, u: nat, c: U, a: nat, d: U, x: nat)
    requires WellFormed(g) && ValuesOnce(g) && Tidy(g) && x < |g|
    requires IsEdge(g, u, c, x) && IsEdge(g, a, d, x) && !(a == u && d == c)
    ensures g[x].value == None
  {
    EdgedLive(g, u, c);
    EdgedLive(g, a, d);
    var w :| Leads(g, 0, w, u);
    var z :| Leads(g, 0, z, a);
    assert Leads(g, x, [c][1..], x) && Leads(g, x, [d][1..], x);
    LeadsAfter(g, 0, w, u, [c], x);
    LeadsAfter(g, 0, z, a, [d], x);
    if w + [c] == z + [d] {
      assert w == (w + [c])[..|w|] && z == (z + [d])[..|z|] && (w + [c])[|w|] == c && (z + [d])[|z|] == d;
      LeadsOne(g, 0, w, u, a);
    }
  }

  lemma CopySound<U(!new), V>(g: Graph<U, V>, h: Graph<U, V>, u: nat, c: U, x: nat, a: nat, d: U)
    requires Sound(g) && Tidy(g) && Copied(g, h, u, c, x) && IsEdge(g, a, d, x) && !(a == u && d == c)
    ensures Sound(h)
  {
    CopyWellFormed(g, h, u, c, x);
    SharedUnvalued(g, u, c, a, d, x);
    forall w, z, t: nat | t < |h| && h[t].value != None && Leads(h, 0, w, t) && Leads(h, 0, z, t) ensures w == z {
      CopyLeads(g, h, u, c, x, 0, w, t);
      CopyLeads(g, h, u, c, x, 0, z, t);
    }
  }

  lemma ExtendSound<U(!new), V>(g: Graph<U, V>, h: Graph<U, V>, path: seq<nat>, units: seq<U>, n: Node<U, V>)
    requires Sound(g) && UniquePath(g, path, units) && |path| <= |units| && (n.isFinal || n.value == None)
    requires Extended(g, h, path[|path| - 1], units[|path| - 1], n)
    ensures Sound(h) && UniquePath(h, path + [|g|], units)
  {
    var u, c := path[|path| - 1], units[|path| - 1];
    ExtendWellFormed(g, h, u, c, n);
    ExtendPath(g, h, path, units, n);
    forall w, z, t: nat | t < |h| && h[t].value != None && Leads(h, 0, w, t) && Leads(h, 0, z, t) ensures w == z {
      if t < |g| {
        ExtendLeads(g, h, u, c, n, 0, w, t);
        ExtendLeads(g, h, u, c, n, 0, z, t);
      } else {
        OnlyWord(h, path + [|g|], units, |path|, w);
        OnlyWord(h, path + [|g|], units, |path|, z);
      }
    }
  }

  lemma RelabelSound<U(!new), V>(g: Graph<U, V>, h: Graph<U, V>, path: seq<nat>, units: seq<U>, isFinal: bool,
                                 value: Option<V>)
    requires Sound(g) && UniquePath(g, path, units) && (isFinal || value == None)
    requires Relabelled(g, h, path[|path| - 1], isFinal, value)
    ensures Sound(h)
  {
    var x := path[|path| - 1];
    forall u: nat, c ensures !IsEdge(h, u, c, 0) {
      assert !IsEdge(g, u, c, 0);
    }
    forall w, z, t: nat | t < |h| && h[t].value != None && Leads(h, 0, w, t) && Leads(h, 0, z, t) ensures w == z {
      RelabelLeads(g, h, x, isFinal, value, 0, w, t);
      RelabelLeads(g, h, x, isFinal, value, 0, z, t);
      if t == x {
        OnlyWord(g, path, units, |path| - 1, w);
        OnlyWord(g, path, units, |path| - 1, z);
      }
    }
  }

  lemma CutSound<U(!new), V>(g: Graph<U, V>, h: Graph<U, V>, u: nat, c: U, x: nat)
    requires Sound(g) && IsEdge(g, u, c, x) && Cut(g, h, u, c) && x < |g| && Bare(g[x])
    ensures Sound(h)
  {
    forall v: nat, d ensures !IsEdge(h, v, d, 0) {
      assert !IsEdge(g, v, d, 0);
    }
    forall w, z, t: nat | t < |h| && h[t].value != None && Leads(h, 0, w, t) && Leads(h, 0, z, t) ensures w == z {
      assert t != x;
      CutLeads(g, h, u, c, x, 0, w, t);
      CutLeads(g, h, u, c, x, 0, z, t);
    }
  }
}
