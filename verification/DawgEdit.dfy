/**
 Editing a DAWG in place. Nodes may be shared between words, so an edit is safe only at the
 end of a path none of whose nodes is entered by any other edge; a node that is entered
 more than once is first replaced on the path by a copy.
 */
module DawgEdit {
  import opened Words
  import opened DawgGraph

  predicate IsEdge<U(==), V>(g: Graph<U, V>, u: nat, c: U, v: nat) {
    u < |g| && c in g[u].edges && g[u].edges[c] == v
  }

  /** No edge enters the root. */
  ghost predicate NoReturn<U(!new), V>(g: Graph<U, V>) {
    forall u: nat, c :: !IsEdge(g, u, c, 0)
  }

  /** The edge labelled `c` from `u` is the only edge into `v`. */
  ghost predicate SoleEntry<U(!new), V>(g: Graph<U, V>, v: nat, u: nat, c: U) {
    forall x: nat, d :: IsEdge(g, x, d, v) ==> x == u && d == c
  }

  predicate PathEdge<U(==), V>(g: Graph<U, V>, path: seq<nat>, units: seq<U>, i: nat) {
    i + 1 < |path| && i < |units| && IsEdge(g, path[i], units[i], path[i + 1])
  }

  /** `path` follows `units` from the root. */
  predicate Follows<U, V>(g: Graph<U, V>, path: seq<nat>, units: seq<U>) {
    && 0 < |path| <= |units| + 1 && path[0] == 0
    && forall i: nat :: i < |path| - 1 ==> PathEdge(g, path, units, i)
  }

  ghost predicate SoleStep<U(!new), V>(g: Graph<U, V>, path: seq<nat>, units: seq<U>, i: nat) {
    i + 1 < |path| && i < |units| && SoleEntry(g, path[i + 1], path[i], units[i])
  }

  /** Each node of the path after the root is entered by the path only. */
  ghost predicate UniquePath<U(!new), V>(g: Graph<U, V>, path: seq<nat>, units: seq<U>) {
    Follows(g, path, units) && forall i: nat :: i < |path| - 1 ==> SoleStep(g, path, units, i)
  }

  lemma {:induction false} LeadsUnsnoc<U(!new), V>(g: Graph<U, V>, v: nat, w: seq<U>, c: U, u: nat) returns (t: nat)
    requires WellFormed(g) && v < |g| && Leads(g, v, w + [c], u)
    ensures t < |g| && Leads(g, v, w, t) && IsEdge(g, t, c, u)
    decreases |w|
  {
    if w == [] {
      assert w + [c] == [c] && [c][1..] == [];
      t := v;
    } else {
      assert (w + [c])[1..] == w[1..] + [c];
      t := LeadsUnsnoc(g, g[v].edges[w[0]], w[1..], c, u);
    }
  }

  lemma {:induction false} PathLeads<U, V>(g: Graph<U, V>, path: seq<nat>, units: seq<U>, k: nat)
    requires WellFormed(g) && Follows(g, path, units) && k < |path|
    ensures path[k] < |g| && Leads(g, 0, units[..k], path[k])
  {
    if k > 0 {
      PathLeads(g, path, units, k - 1);
      assert PathEdge(g, path, units, k - 1);
      var c := units[k - 1];
      assert Leads(g, path[k], [c][1..], path[k]);
      LeadsAfter(g, 0, units[..k - 1], path[k - 1], [c], path[k]);
      assert units[..k - 1] + [c] == units[..k];
    }
  }

  lemma NotRoot<U(!new), V>(g: Graph<U, V>, path: seq<nat>, units: seq<U>, k: nat)
    requires NoReturn(g) && Follows(g, path, units) && k < |path|
    ensures path[k] == 0 ==> k == 0
  {
    if k > 0 {
      assert PathEdge(g, path, units, k - 1);
      assert !IsEdge(g, path[k - 1], units[k - 1], 0);
    }
  }

  /** Only the path's own word leads to a node of the path. */
  lemma {:induction false} OnlyWord<U(!new), V>(g: Graph<U, V>, path: seq<nat>, units: seq<U>, k: nat, w: seq<U>)
    requires WellFormed(g) && NoReturn(g) && UniquePath(g, path, units) && k < |path| && Leads(g, 0, w, path[k])
    ensures w == units[..k]
    decreases k
  {
    NotRoot(g, path, units, k);
    if w != [] {
      var s, c := Unsnoc(w);
      var t := LeadsUnsnoc(g, 0, s, c, path[k]);
      assert SoleStep(g, path, units, k - 1);
      OnlyWord(g, path, units, k - 1, s);
      assert units[..k - 1] + [units[k - 1]] == units[..k];
    }
  }

  /** The nodes of the path are different. */
  lemma PathDistinct<U(!new), V>(g: Graph<U, V>, path: seq<nat>, units: seq<U>, i: nat, j: nat)
    requires WellFormed(g) && NoReturn(g) && UniquePath(g, path, units) && i < j < |path|
    ensures path[i] != path[j]
  {
    PathLeads(g, path, units, i);
    assert |units[..i]| == i && |units[..j]| == j;
    if path[i] == path[j] {
      OnlyWord(g, path, units, j, units[..i]);
    }
  }

  // ---- Copying a shared node ----

  /** `h` is `g` with a copy of `x` appended, to which the edge labelled `c` from `u` now leads. */
  predicate Copied<U, V>(g: Graph<U, V>, h: Graph<U, V>, u: nat, c: U, x: nat) {
    && IsEdge(g, u, c, x) && x < |g| && |h| == |g| + 1 && h[|g|] == g[x]
    && (forall v :: 0 <= v < |g| ==>
          h[v] == if v == u then g[u].(edges := g[u].edges[c := |g|]) else g[v])
  }

  lemma CopyEdges<U(!new), V>(g: Graph<U, V>, h: Graph<U, V>, u: nat, c: U, x: nat, a: nat, d: U, t: nat)
    requires WellFormed(g) && Copied(g, h, u, c, x)
    ensures IsEdge(h, a, d, t) <==>
      if t == |g| then a == u && d == c
      else (IsEdge(g, a, d, t) && !(a == u && d == c)) || (a == |g| && IsEdge(g, x, d, t))
  {
    if a < |g| {
      assert h[a] == if a == u then g[u].(edges := g[u].edges[c := |g|]) else g[a];
    }
  }

  lemma CopyWellFormed<U(!new), V>(g: Graph<U, V>, h: Graph<U, V>, u: nat, c: U, x: nat)
    requires WellFormed(g) && NoReturn(g) && Copied(g, h, u, c, x)
    ensures WellFormed(h) && NoReturn(h)
  {
    forall a: nat, d | IsEdge(h, a, d, 0) ensures false {
      CopyEdges(g, h, u, c, x, a, d, 0);
    }
  }

  /** Copying changes nothing that can be observed. */
  lemma {:induction false} CopyObserve<U(!new), V>(g: Graph<U, V>, h: Graph<U, V>, u: nat, c: U, x: nat, v: nat,
        w: seq<U>)
    requires WellFormed(g) && WellFormed(h) && Copied(g, h, u, c, x) && v <= |g|
    ensures Observe(h, v, w) == Observe(g, if v == |g| then x else v, w)
    decreases |w|
  {
    var v' := if v == |g| then x else v;
    assert h[v].isFinal == g[v'].isFinal && h[v].value == g[v'].value && h[v].edges.Keys == g[v'].edges.Keys;
    if w != [] && w[0] in h[v].edges {
      CopyObserve(g, h, u, c, x, h[v].edges[w[0]], w[1..]);
    }
  }

  /** The path goes on through the copy, which only it enters. */
  lemma CopyPath<U(!new), V>(g: Graph<U, V>, h: Graph<U, V>, path: seq<nat>, units: seq<U>, x: nat)
    requires WellFormed(g) && NoReturn(g) && UniquePath(g, path, units) && |path| <= |units|
    requires Copied(g, h, path[|path| - 1], units[|path| - 1], x)
    requires forall i :: 0 <= i < |path| ==> path[i] != x
    ensures UniquePath(h, path + [|g|], units)
  {
    var n := |path| - 1;
    var u, c, longer := path[n], units[n], path + [|g|];
    forall i: nat | i < |longer| - 1 ensures PathEdge(h, longer, units, i) && SoleStep(h, longer, units, i) {
      CopyEdges(g, h, u, c, x, longer[i], units[i], longer[i + 1]);
      if i < n {
        assert PathEdge(g, path, units, i) && SoleStep(g, path, units, i);
        PathLeads(g, path, units, i + 1);
        PathDistinct(g, path, units, i, n);
      }
      var t := longer[i + 1];
      forall a: nat, d | IsEdge(h, a, d, t) ensures a == longer[i] && d == units[i] {
        CopyEdges(g, h, u, c, x, a, d, t);
      }
    }
  }

  /** A node that only one edge enters needs no copy. */
  lemma KeepPath<U(!new), V>(g: Graph<U, V>, path: seq<nat>, units: seq<U>, x: nat)
    requires UniquePath(g, path, units) && |path| <= |units|
    requires IsEdge(g, path[|path| - 1], units[|path| - 1], x) && SoleEntry(g, x, path[|path| - 1], units[|path| - 1])
    ensures UniquePath(g, path + [x], units)
  {
    var longer := path + [x];
    forall i: nat | i < |longer| - 1 ensures PathEdge(g, longer, units, i) && SoleStep(g, longer, units, i) {
      if i < |path| - 1 {
        assert PathEdge(g, path, units, i) && SoleStep(g, path, units, i);
      }
    }
  }

  // ---- Adding a node at the end of the path ----

  /** `h` is `g` with node `n` appended and an edge labelled `c` from `u` to it. */
  predicate Extended<U, V>(g: Graph<U, V>, h: Graph<U, V>, u: nat, c: U, n: Node<U, V>) {
    && u < |g| && c !in g[u].edges && n.edges == map[] && |h| == |g| + 1 && h[|g|] == n
    && (forall v :: 0 <= v < |g| ==>
          h[v] == if v == u then g[u].(edges := g[u].edges[c := |g|]) else g[v])
  }

  lemma ExtendEdges<U(!new), V>(g: Graph<U, V>, h: Graph<U, V>, u: nat, c: U, n: Node<U, V>, a: nat, d: U, t: nat)
    requires WellFormed(g) && Extended(g, h, u, c, n)
    ensures IsEdge(h, a, d, t) <==> if t == |g| then a == u && d == c else IsEdge(g, a, d, t)
  {
    if a < |g| {
      assert h[a] == if a == u then g[u].(edges := g[u].edges[c := |g|]) else g[a];
    }
  }

  lemma ExtendWellFormed<U(!new), V>(g: Graph<U, V>, h: Graph<U, V>, u: nat, c: U, n: Node<U, V>)
    requires WellFormed(g) && NoReturn(g) && Extended(g, h, u, c, n)
    ensures WellFormed(h) && NoReturn(h)
  {
    forall a: nat, d | IsEdge(h, a, d, 0) ensures false {
      ExtendEdges(g, h, u, c, n, a, d, 0);
    }
  }

  lemma ExtendPath<U(!new), V>(g: Graph<U, V>, h: Graph<U, V>, path: seq<nat>, units: seq<U>, n: Node<U, V>)
    requires WellFormed(g) && NoReturn(g) && UniquePath(g, path, units) && |path| <= |units|
    requires Extended(g, h, path[|path| - 1], units[|path| - 1], n)
    ensures UniquePath(h, path + [|g|], units)
  {
    var longer := path + [|g|];
    var u, c := path[|path| - 1], units[|path| - 1];
    forall i: nat | i < |longer| - 1 ensures PathEdge(h, longer, units, i) && SoleStep(h, longer, units, i) {
      ExtendEdges(g, h, u, c, n, longer[i], units[i], longer[i + 1]);
      if i < |path| - 1 {
        assert PathEdge(g, path, units, i) && SoleStep(g, path, units, i);
        PathLeads(g, path, units, i + 1);
      }
      var t := longer[i + 1];
      forall a: nat, d | IsEdge(h, a, d, t) ensures a == longer[i] && d == units[i] {
        ExtendEdges(g, h, u, c, n, a, d, t);
      }
    }
  }

  /** Only words that lead to `u` and then spell `c` end in the new node; the others are read as before. */
  lemma {:induction false} ExtendObserve<U(!new), V>(g: Graph<U, V>, h: Graph<U, V>, u: nat, c: U, n: Node<U, V>,
        v: nat, w: seq<U>)
    requires WellFormed(g) && WellFormed(h) && Extended(g, h, u, c, n) && v < |g|
    ensures Observe(h, v, w) == Observe(g, v, w) || exists s :: w == s + [c] && Leads(g, v, s, u)
    ensures forall s :: w == s + [c] && Leads(g, v, s, u) ==> Observe(h, v, w) == Some((n.isFinal, n.value))
    decreases |w|
  {
    if w != [] {
      if w[0] in g[v].edges {
        var t := g[v].edges[w[0]];
        assert h[v].edges[w[0]] == t;
        ExtendObserve(g, h, u, c, n, t, w[1..]);
        if s :| w[1..] == s + [c] && Leads(g, t, s, u) {
          var r := [w[0]] + s;
          assert w == r + [c] && r[1..] == s;
          assert Leads(g, v, r, u);
        }
      } else if v == u && w[0] == c {
        if w[1..] == [] {
          assert w == [] + [c] && Leads(g, v, [], u);
        } else {
          assert Observe(h, |g|, w[1..]) == None;
        }
      }
      forall s | w == s + [c] && Leads(g, v, s, u) ensures Observe(h, v, w) == Some((n.isFinal, n.value)) {
        if s == [] {
          assert w[1..] == [];
        } else {
          assert w[1..] == s[1..] + [c];
        }
      }
    }
  }

  // ---- Changing a node's flag and value, and cutting off an edge ----

  /** `h` is `g` with the flag and value of `x` replaced. */
  predicate Relabelled<U, V>(g: Graph<U, V>, h: Graph<U, V>, x: nat, isFinal: bool, value: Option<V>) {
    x < |g| && h == g[x := g[x].(isFinal := isFinal, value := value)]
  }

  lemma {:induction false} RelabelObserve<U(!new), V>(g: Graph<U, V>, h: Graph<U, V>, x: nat, isFinal: bool,
        value: Option<V>, v: nat, w: seq<U>)
    requires WellFormed(g) && WellFormed(h) && Relabelled(g, h, x, isFinal, value) && v < |g|
    ensures Observe(h, v, w) == if Leads(g, v, w, x) then Some((isFinal, value)) else Observe(g, v, w)
    decreases |w|
  {
    if w != [] && w[0] in g[v].edges {
      RelabelObserve(g, h, x, isFinal, value, g[v].edges[w[0]], w[1..]);
    }
  }

  /** What is stored under a word: nothing, or the value of its final node. */
  function Stored<U, V>(g: Graph<U, V>, v: nat, w: seq<U>): Option<Option<V>>
    requires WellFormed(g) && v < |g|
  {
    if Accepts(g, v, w) then Some(Observe(g, v, w).value.1) else None
  }

  /** `h` is `g` without the edge labelled `c` from `u`. */
  predicate Cut<U, V>(g: Graph<U, V>, h: Graph<U, V>, u: nat, c: U) {
    u < |g| && h == g[u := g[u].(edges := g[u].edges - {c})]
  }

  /** Cutting an edge to a node that is neither final nor has edges removes no stored word. */
  lemma {:induction false} CutStored<U(!new), V>(g: Graph<U, V>, h: Graph<U, V>, u: nat, c: U, x: nat, v: nat,
        w: seq<U>)
    requires WellFormed(g) && WellFormed(h) && IsEdge(g, u, c, x) && Cut(g, h, u, c) && v < |g|
    requires !g[x].isFinal && g[x].edges == map[]
    ensures Stored(h, v, w) == Stored(g, v, w)
    decreases |w|
  {
    if w != [] && w[0] in g[v].edges {
      CutStored(g, h, u, c, x, g[v].edges[w[0]], w[1..]);
    }
  }
}
