/**
 The index-addressed graph of a suffix automaton: states with labelled edges, a
 suffix link and the length of the longest word of the state.

 `names` gives every state the longest word it stands for. A state is proper when
 its suffix link is strictly shorter; the other states are leftovers of texts that
 an earlier text already contained, and nothing reachable leads to them.
 */
module SuffixGraph {
  import opened Words

  /** A state. Edges are kept as a map from label to target. */
  datatype Node<U(==)> = Node(edges: map<U, nat>, link: Option<nat>, len: nat, isFinal: bool)

  type Graph<U(==)> = seq<Node<U>>

  predicate WellFormed<U>(g: Graph<U>) {
    && |g| > 0
    && g[0].link.None?
    && g[0].len == 0
    && (forall v :: 0 < v < |g| ==> g[v].link.Some? && g[v].link.value < |g|)
    && (forall v, c :: 0 <= v < |g| && c in g[v].edges ==> g[v].edges[c] < |g|)
  }

  function Link<U>(g: Graph<U>, v: nat): (l: nat)
    requires WellFormed(g) && 0 < v < |g|
    ensures l < |g|
  {
    g[v].link.value
  }

  predicate Proper<U>(g: Graph<U>, v: nat)
    requires WellFormed(g) && v < |g|
  {
    v == 0 || g[g[v].link.value].len < g[v].len
  }

  predicate Linked<U>(g: Graph<U>)
    requires WellFormed(g)
  {
    forall v :: 0 < v < |g| ==> Proper(g, Link(g, v)) && g[Link(g, v)].len <= g[v].len
  }

  /** `u` is on the suffix-link path from `v` to the root. */
  predicate OnChain<U>(g: Graph<U>, v: nat, u: nat)
    requires WellFormed(g) && Linked(g) && v < |g|
    ensures OnChain(g, v, u) ==> u < |g| && g[u].len <= g[v].len && (u == v || Proper(g, u))
    decreases g[v].len, if Proper(g, v) then 0 else 1
  {
    u == v || (v != 0 && OnChain(g, Link(g, v), u))
  }

  lemma {:induction false} RootOnChain<U>(g: Graph<U>, v: nat)
    requires WellFormed(g) && Linked(g) && v < |g|
    ensures OnChain(g, v, 0)
    decreases g[v].len, if Proper(g, v) then 0 else 1
  {
    if v != 0 {
      RootOnChain(g, Link(g, v));
    }
  }

  /** The state that reading `w` from state `v` leads to. */
  function Read<U>(g: Graph<U>, v: nat, w: seq<U>): (r: Option<nat>)
    requires WellFormed(g) && v < |g|
    ensures r.Some? ==> r.value < |g|
    decreases |w|
  {
    if w == [] then Some(v)
    else if w[0] in g[v].edges then Read(g, g[v].edges[w[0]], w[1..])
    else None
  }

  /** The state that reading `w` from the root leads to. */
  function Reach<U>(g: Graph<U>, w: seq<U>): (r: Option<nat>)
    requires WellFormed(g)
    ensures r.Some? ==> r.value < |g|
  {
    Read(g, 0, w)
  }

  lemma {:induction false} ReadSnoc<U>(g: Graph<U>, v: nat, s: seq<U>, c: U)
    requires WellFormed(g) && v < |g|
    ensures Read(g, v, s + [c]) ==
      match Read(g, v, s)
      case None => None
      case Some(u) => if c in g[u].edges then Some(g[u].edges[c]) else None
    decreases |s|
  {
    if s == [] {
      assert s + [c] == [c];
    } else {
      assert (s + [c])[1..] == s[1..] + [c];
      if s[0] in g[v].edges {
        ReadSnoc(g, g[v].edges[s[0]], s[1..], c);
      }
    }
  }

  lemma ReachSnoc<U>(g: Graph<U>, s: seq<U>, c: U)
    requires WellFormed(g)
    ensures Reach(g, s + [c]) ==
      match Reach(g, s)
      case None => None
      case Some(u) => if c in g[u].edges then Some(g[u].edges[c]) else None
  {
    ReadSnoc(g, 0, s, c);
  }

  predicate EdgeFits<U>(g: Graph<U>, names: seq<seq<U>>, v: nat, c: U)
    requires WellFormed(g) && |names| == |g| && v < |g| && c in g[v].edges
  {
    var u := g[v].edges[c];
    && u != 0
    && Proper(g, u)
    && IsSuffix(names[v] + [c], names[u])
    && g[Link(g, u)].len <= g[v].len
  }

  predicate EdgeFollowsLink<U>(g: Graph<U>, v: nat, c: U)
    requires WellFormed(g) && Linked(g) && 0 < v < |g| && c in g[v].edges
  {
    && c in g[Link(g, v)].edges
    && OnChain(g, g[v].edges[c], g[Link(g, v)].edges[c])
  }

  predicate ReadInto<U>(g: Graph<U>, s: seq<U>, v: nat)
    requires WellFormed(g) && Linked(g) && v < |g|
  {
    Reach(g, s).Some? && OnChain(g, v, Reach(g, s).value)
  }

  predicate Homed<U>(g: Graph<U>, names: seq<seq<U>>, v: nat)
    requires WellFormed(g) && v < |names|
  {
    Reach(g, names[v]) == Some(v)
  }

  predicate Named<U>(g: Graph<U>, names: seq<seq<U>>)
    requires WellFormed(g)
  {
    && |names| == |g|
    && (forall v {:trigger names[v]} :: 0 <= v < |g| ==> |names[v]| == g[v].len)
    && (forall v :: 0 < v < |g| ==> IsSuffix(names[Link(g, v)], names[v]))
  }

  /** What every state of a suffix automaton under construction keeps. */
  ghost predicate Automaton<U(!new)>(g: Graph<U>, names: seq<seq<U>>) {
    && WellFormed(g)
    && Linked(g)
    && Named(g, names)
    && (forall v, c {:trigger EdgeFits(g, names, v, c)} ::
          0 <= v < |g| && Proper(g, v) && c in g[v].edges ==> EdgeFits(g, names, v, c))
    && (forall v, c {:trigger EdgeFollowsLink(g, v, c)} ::
          0 < v < |g| && Proper(g, v) && c in g[v].edges ==> EdgeFollowsLink(g, v, c))
    && (forall v, s {:trigger ReadInto(g, s, v)} ::
          0 <= v < |g| && IsSuffix(s, names[v]) ==> ReadInto(g, s, v))
    && (forall v {:trigger Homed(g, names, v)} :: 0 <= v < |g| && Proper(g, v) ==> Homed(g, names, v))
  }

  /** Every state but the root is final. */
  predicate Finals<U>(g: Graph<U>) {
    forall v :: 0 <= v < |g| ==> (g[v].isFinal <==> v > 0)
  }

  /** A word that is read leads to a proper state, and back to the root only if it is empty. */
  lemma {:induction false} ReachProper<U(!new)>(g: Graph<U>, names: seq<seq<U>>, w: seq<U>)
    requires Automaton(g, names) && Reach(g, w).Some?
    ensures Proper(g, Reach(g, w).value) && (Reach(g, w).value == 0 <==> w == [])
    decreases |w|
  {
    if w != [] {
      var front, c := w[..|w| - 1], w[|w| - 1];
      assert w == front + [c];
      ReachSnoc(g, front, c);
      ReachProper(g, names, front);
      assert EdgeFits(g, names, Reach(g, front).value, c);
    }
  }

  predicate SameLink<U>(g: Graph<U>, h: Graph<U>, v: nat) {
    v < |g| && v < |h| && h[v].link == g[v].link && h[v].len == g[v].len
  }

  lemma ProperSame<U>(g: Graph<U>, h: Graph<U>, v: nat)
    requires WellFormed(g) && WellFormed(h) && SameLink(g, h, v)
    requires v > 0 ==> SameLink(g, h, Link(g, v))
    ensures Proper(g, v) == Proper(h, v)
  {
  }

  lemma {:induction false} ChainSame<U>(g: Graph<U>, h: Graph<U>, v: nat)
    requires WellFormed(g) && WellFormed(h) && Linked(g) && Linked(h) && v < |g|
    requires forall u {:trigger SameLink(g, h, u)} :: OnChain(g, v, u) ==> SameLink(g, h, u)
    ensures v < |h| && forall u :: OnChain(g, v, u) <==> OnChain(h, v, u)
    decreases g[v].len, if Proper(g, v) then 0 else 1
  {
    assert SameLink(g, h, v);
    if v != 0 {
      assert Link(h, v) == Link(g, v);
      ChainSame(g, h, Link(g, v));
    }
  }

  lemma {:induction false} ChainOfMember<U>(g: Graph<U>, v: nat, u: nat, t: nat)
    requires WellFormed(g) && Linked(g) && v < |g| && OnChain(g, v, u) && OnChain(g, u, t)
    ensures OnChain(g, v, t)
    decreases g[v].len, if Proper(g, v) then 0 else 1
  {
    if u != v {
      ChainOfMember(g, Link(g, v), u, t);
    }
  }

  /** Every state on the chain of `v` other than `v` is at most as long as `v`'s link. */
  lemma ChainSteps<U>(g: Graph<U>, v: nat, u: nat)
    requires WellFormed(g) && Linked(g) && 0 < v < |g| && OnChain(g, v, u)
    ensures u == v || (OnChain(g, Link(g, v), u) && g[u].len <= g[Link(g, v)].len)
  {
  }

  /** Two states on each other's chain are the same state. */
  lemma {:induction false} ChainAntisymmetric<U>(g: Graph<U>, u: nat, v: nat)
    requires WellFormed(g) && Linked(g) && v < |g| && u < |g|
    requires OnChain(g, v, u) && OnChain(g, u, v)
    ensures u == v
  {
    if u > 0 && v > 0 {
      ChainSteps(g, u, v);
      ChainSteps(g, v, u);
    }
  }

  /** Reading a word from the root ends in a proper state whose name ends with the word. */
  lemma {:induction false} ReadWord<U(!new)>(g: Graph<U>, names: seq<seq<U>>, w: seq<U>)
    requires Automaton(g, names) && Reach(g, w).Some?
    ensures Proper(g, Reach(g, w).value)
    ensures IsSuffix(w, names[Reach(g, w).value])
    decreases |w|
  {
    if w != [] {
      var s, c := Unsnoc(w);
      ReachSnoc(g, s, c);
      ReadWord(g, names, s);
      var v := Reach(g, s).value;
      assert EdgeFits(g, names, v, c);
      SuffixSnoc(s, names[v], c);
      SuffixTransitive(w, names[v] + [c], names[g[v].edges[c]]);
    }
  }

  /** If a state on a chain has a `c`-edge, all states further down have one, into the target's chain. */
  lemma {:induction false} EdgesDownChain<U(!new)>(g: Graph<U>, names: seq<seq<U>>, p: nat, v: nat, c: U)
    requires Automaton(g, names) && p < |g| && Proper(g, p) && c in g[p].edges && OnChain(g, p, v)
    ensures c in g[v].edges && OnChain(g, g[p].edges[c], g[v].edges[c])
    decreases g[p].len
  {
    if v != p {
      assert EdgeFollowsLink(g, p, c);
      EdgesDownChain(g, names, Link(g, p), v, c);
      ChainOfMember(g, g[p].edges[c], g[Link(g, p)].edges[c], g[v].edges[c]);
    }
  }

  /** A proper state whose name is a suffix of `p`'s name lies on `p`'s chain. */
  lemma SuffixStateOnChain<U(!new)>(g: Graph<U>, names: seq<seq<U>>, p: nat, v: nat)
    requires Automaton(g, names) && p < |g| && v < |g| && Proper(g, v)
    requires IsSuffix(names[v], names[p])
    ensures OnChain(g, p, v)
  {
    assert ReadInto(g, names[v], p) && Homed(g, names, v);
  }

  /** A suffix of `v`'s name longer than `v`'s link is read into `v` itself, when `v` is proper. */
  lemma LongSuffixReadsState<U(!new)>(g: Graph<U>, names: seq<seq<U>>, v: nat, s: seq<U>)
    requires Automaton(g, names) && 0 < v < |g| && Proper(g, v)
    requires IsSuffix(s, names[v]) && |s| > g[Link(g, v)].len
    ensures Reach(g, s) == Some(v)
  {
    assert ReadInto(g, s, v);
    ReadWord(g, names, s);
    ChainSteps(g, v, Reach(g, s).value);
  }

  /** Along an edge the shortest word of a state grows by at most one unit. */
  lemma ShortestGrowsByOne<U(!new)>(g: Graph<U>, names: seq<seq<U>>, v: nat, c: U)
    requires Automaton(g, names) && 0 < v < |g| && Proper(g, v) && c in g[v].edges
    ensures g[v].edges[c] != 0
    ensures g[Link(g, g[v].edges[c])].len <= g[Link(g, v)].len + 1
  {
    var u := g[v].edges[c];
    assert EdgeFits(g, names, v, c);
    var y := Link(g, u);
    assert Homed(g, names, y);
    SuffixNested(names[y], names[v] + [c], names[u]);
    if names[y] != [] {
      var s := SuffixUnsnoc(names[y], names[v], c);
      if |s| > g[Link(g, v)].len {
        LongSuffixReadsState(g, names, v, s);
        ReachSnoc(g, s, c);
      }
    }
  }

  /** The words a suffix automaton reads are exactly the suffixes of its states' names. */
  lemma LanguageOfNames<U(!new)>(g: Graph<U>, names: seq<seq<U>>, w: seq<U>)
    requires Automaton(g, names)
    ensures Reach(g, w).Some? <==> exists v :: 0 <= v < |g| && IsSuffix(w, names[v])
  {
    if Reach(g, w).Some? {
      ReadWord(g, names, w);
    }
    forall v | 0 <= v < |g| && IsSuffix(w, names[v]) ensures Reach(g, w).Some? {
      assert ReadInto(g, w, v);
    }
  }
}
