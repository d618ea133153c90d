/**
 Merging the nodes of a DAWG. Nodes are processed from the last to the first; a node is
 mapped to an earlier processed canonical node with the same signature, but only after a
 structural comparison, so that a colliding signature never merges different nodes.
 */
module DawgMerge {
  import opened Words
  import opened DawgGraph

  /** The image of `w` when node `u` is being processed: only the nodes after `u` are mapped yet. */
  function At(m: seq<nat>, u: nat, w: nat): nat
    requires w < |m|
  {
    if w > u then m[w] else w
  }

  /** The structural comparison of `u` with `x` under the map as it was when `u` was processed. */
  predicate EqualAt<U, V>(g: Graph<U, V>, m: seq<nat>, u: nat, x: nat)
    requires WellFormed(g) && |m| == |g| && u < |g| && x < |g|
  {
    && g[u].isFinal == g[x].isFinal && g[u].value == None && g[x].value == None && g[u].edges.Keys == g[x].edges.Keys
    && forall c {:trigger g[u].edges[c]} {:trigger g[x].edges[c]} ::
      c in g[u].edges ==> At(m, u, g[u].edges[c]) == At(m, u, g[x].edges[c])
  }

  /** `w` was mapped to a canonical node like it, or is canonical and differs from the canonical nodes before it. */
  predicate NodeMerged<U, V>(g: Graph<U, V>, sig: seq<nat>, m: seq<nat>, w: nat)
    requires WellFormed(g) && |m| == |g| && |sig| == |g| && w < |g|
  {
    && w <= m[w] < |g| && m[m[w]] == m[w] && sig[m[w]] == sig[w] && Alike(g, m, w, m[w])
    && (m[w] != w ==> EqualAt(g, m, w, m[w]))
    && (m[w] == w ==> forall x {:trigger m[x]} :: w < x < |g| && m[x] == x && sig[x] == sig[w] ==> !EqualAt(g, m, w, x))
  }

  /** The nodes from `n` on are merged, those before are not yet touched. */
  predicate MergedFrom<U, V>(g: Graph<U, V>, sig: seq<nat>, m: seq<nat>, n: nat)
    requires WellFormed(g)
  {
    && |m| == |g| && |sig| == |g|
    && (forall w :: 0 <= w < n && w < |g| ==> m[w] == w)
    && (forall w :: n <= w < |g| ==> NodeMerged(g, sig, m, w))
  }

  /** The map in the end: a congruence for every signature. */
  lemma MergedCongruence<U, V>(g: Graph<U, V>, sig: seq<nat>, m: seq<nat>)
    requires WellFormed(g) && MergedFrom(g, sig, m, 0)
    ensures Congruence(g, m)
  {
    forall v | 0 <= v < |g| ensures m[v] < |g| && m[m[v]] == m[v] && Alike(g, m, v, m[v]) {
      assert NodeMerged(g, sig, m, v);
    }
  }

  /** Mapping `v` later does not disturb nodes that were alike. */
  lemma AlikeStays<U, V>(g: Graph<U, V>, m: seq<nat>, v: nat, x: nat, a: nat, b: nat)
    requires WellFormed(g) && |m| == |g| && v < |g| && x < |g| && a < |g| && b < |g| && Alike(g, m, a, b)
    requires forall w :: 0 <= w < |g| && m[w] == v ==> w == v
    requires m[v] == v
    ensures Alike(g, m[v := x], a, b)
  {
    forall c | c in g[a].edges ensures m[v := x][g[a].edges[c]] == m[v := x][g[b].edges[c]] {
      assert m[g[a].edges[c]] == m[g[b].edges[c]];
    }
  }

  lemma OnlyItself<U, V>(g: Graph<U, V>, sig: seq<nat>, m: seq<nat>, v: nat)
    requires WellFormed(g) && v < |g| && MergedFrom(g, sig, m, v + 1)
    ensures m[v] == v && forall w :: 0 <= w < |g| && m[w] == v ==> w == v
  {
    forall w | 0 <= w < |g| && w != v ensures m[w] != v {
      if w > v {
        assert NodeMerged(g, sig, m, w);
      }
    }
  }

  lemma MergeStep<U, V>(g: Graph<U, V>, sig: seq<nat>, m: seq<nat>, v: nat, x: nat)
    requires WellFormed(g) && v < x < |g| && MergedFrom(g, sig, m, v + 1)
    requires m[x] == x && sig[x] == sig[v] && EqualAt(g, m, v, x)
    ensures MergedFrom(g, sig, m[v := x], v)
  {
    var m' := m[v := x];
    OnlyItself(g, sig, m, v);
    forall w | v <= w < |g| ensures NodeMerged(g, sig, m', w) {
      if w > v {
        assert NodeMerged(g, sig, m, w);
        AlikeStays(g, m, v, x, w, m[w]);
        assert m'[w] == m[w] && m[w] > v;
        StillDiffers(g, sig, m, v, x, w);
      } else {
        assert Alike(g, m, v, x) by {
          forall c | c in g[v].edges ensures m[g[v].edges[c]] == m[g[x].edges[c]] {
            assert At(m, v, g[v].edges[c]) == At(m, v, g[x].edges[c]);
          }
        }
        AlikeStays(g, m, v, x, v, x);
      }
    }
  }

  lemma StillDiffers<U, V>(g: Graph<U, V>, sig: seq<nat>, m: seq<nat>, v: nat, x: nat, w: nat)
    requires WellFormed(g) && v < w < |g| && |m| == |g| && |sig| == |g| && NodeMerged(g, sig, m, w) && x < |g|
    ensures m[w] != w ==> EqualAt(g, m[v := x], w, m[w])
    ensures m[w] == w ==> forall y {:trigger m[v := x][y]} ::
      w < y < |g| && m[v := x][y] == y && sig[y] == sig[w] ==> !EqualAt(g, m[v := x], w, y)
  {
    forall y: nat | y < |g| ensures EqualAt(g, m[v := x], w, y) == EqualAt(g, m, w, y) {
      assert forall k: nat {:trigger At(m, w, k)} {:trigger At(m[v := x], w, k)} ::
        k < |g| ==> At(m, w, k) == At(m[v := x], w, k);
    }
  }

  lemma KeepStep<U, V>(g: Graph<U, V>, sig: seq<nat>, m: seq<nat>, v: nat)
    requires WellFormed(g) && v < |g| && MergedFrom(g, sig, m, v + 1)
    requires forall x {:trigger m[x]} :: v < x < |g| && m[x] == x && sig[x] == sig[v] ==> !EqualAt(g, m, v, x)
    ensures MergedFrom(g, sig, m, v)
  {
    assert m[v] == v;
    assert NodeMerged(g, sig, m, v);
  }

  /** The candidates of a signature are the canonical nodes with that signature. */
  ghost predicate Buckets(sig: seq<nat>, m: seq<nat>, buckets: map<nat, seq<nat>>, n: nat)
    requires |sig| == |m|
  {
    && (forall s, x {:trigger x in buckets[s]} ::
      s in buckets && x in buckets[s] ==> n <= x < |m| && m[x] == x && sig[x] == s)
    && (forall x {:trigger m[x]} :: n <= x < |m| && m[x] == x ==> sig[x] in buckets && x in buckets[sig[x]])
  }

  /** The structural comparison, with the map as it is. */
  predicate StructurallyEqual<U, V>(g: Graph<U, V>, m: seq<nat>, u: nat, x: nat)
    requires WellFormed(g) && |m| == |g| && u < |g| && x < |g|
  {
    && g[u].isFinal == g[x].isFinal && g[u].value == None && g[x].value == None && g[u].edges.Keys == g[x].edges.Keys
    && forall c :: c in g[u].edges ==> m[g[u].edges[c]] == m[g[x].edges[c]]
  }

  lemma ComparedAt<U, V>(g: Graph<U, V>, m: seq<nat>, v: nat, x: nat)
    requires WellFormed(g) && |m| == |g| && v < |g| && x < |g|
    requires forall w :: 0 <= w <= v ==> m[w] == w
    ensures StructurallyEqual(g, m, v, x) == EqualAt(g, m, v, x)
  {
    assert forall w: nat :: w < |m| ==> At(m, v, w) == m[w];
    assert forall c :: c in g[v].edges ==> At(m, v, g[v].edges[c]) == m[g[v].edges[c]];
    assert forall c :: c in g[x].edges ==> At(m, v, g[x].edges[c]) == m[g[x].edges[c]];
  }

  /** The first candidate that `v` can be merged into. */
  method FindCanonical<U, V>(g: Graph<U, V>, m: seq<nat>, v: nat, candidates: seq<nat>) returns (found: Option<nat>)
    requires WellFormed(g) && |m| == |g| && v < |g| && forall x :: x in candidates ==> x < |g|
    ensures found.Some? ==>
      found.value in candidates && m[found.value] == found.value && StructurallyEqual(g, m, v, found.value)
    ensures found.None? ==> forall x {:trigger x in candidates} ::
      x in candidates && m[x] == x ==> !StructurallyEqual(g, m, v, x)
  {
    for k := 0 to |candidates|
      invariant forall i :: 0 <= i < k ==>
        candidates[i] < |g| && (m[candidates[i]] == candidates[i] ==> !StructurallyEqual(g, m, v, candidates[i]))
    {
      var x := candidates[k];
      assert x in candidates;
      if m[x] == x && StructurallyEqual(g, m, v, x) {
        return Some(x);
      }
    }
    return None;
  }

  /** Builds the map from every node to its canonical node. */
  method MergeNodes<U, V>(g: Graph<U, V>, sig: seq<nat>) returns (m: seq<nat>)
    requires WellFormed(g) && |sig| == |g|
    ensures MergedFrom(g, sig, m, 0)
  {
    m := seq(|g|, i requires 0 <= i < |g| => i);
    var buckets: map<nat, seq<nat>> := map[];
    for v := |g| downto 0
      invariant MergedFrom(g, sig, m, v)
      invariant Buckets(sig, m, buckets, v)
    {
      var s := sig[v];
      var candidates := if s in buckets then buckets[s] else [];
      OnlyItself(g, sig, m, v);
      assert forall x :: x in candidates ==> v < x < |g| && m[x] == x && sig[x] == s;
      forall x: nat | x < |g| ensures StructurallyEqual(g, m, v, x) == EqualAt(g, m, v, x) {
        ComparedAt(g, m, v, x);
      }
      var found := FindCanonical(g, m, v, candidates);
      if found.Some? {
        MergeStep(g, sig, m, v, found.value);
        m := m[v := found.value];
      } else {
        KeepStep(g, sig, m, v);
        buckets := buckets[s := candidates + [v]];
      }
    }
  }
}
