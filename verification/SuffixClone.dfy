/**
 Splitting a state: `q` is entered from `p` by a `c`-edge but is longer than `p`'s word
 followed by `c`. A clone with `q`'s edges and suffix link takes over the `c`-edges of the
 states on `p`'s chain that led to `q` (`moved`), and becomes the suffix link of `q`.
 */
module SuffixClone {
  import opened Words
  import opened SuffixGraph
  import opened SuffixAttach

  datatype Cloning<U(==,!new)> = Cloning(
    g: Graph<U>, h: Graph<U>, names: seq<seq<U>>, p: nat, q: nat, c: U, moved: set<nat>)
  {
    ghost predicate Cloneable() {
      && Automaton(g, names)
      && p < |g| && Proper(g, p) && c in g[p].edges && g[p].edges[c] == q
      && g[q].len > g[p].len + 1
      && (forall v: nat {:trigger v in moved} ::
        v in moved <==> OnChain(g, p, v) && c in g[v].edges && g[v].edges[c] == q)
      && |h| == |g| + 1
      && h[|g|] == Node(g[q].edges, g[q].link, g[p].len + 1, true)
      && h[q] == g[q].(link := Some(|g|))
      && (forall v {:trigger h[v]} :: 0 <= v < |g| && v != q ==>
            h[v] == if v in moved then g[v].(edges := g[v].edges[c := |g|]) else g[v])
    }

    function Names(): seq<seq<U>>
      requires p < |names|
    {
      names + [names[p] + [c]]
    }
  }

  lemma CloneFacts<U(!new)>(k: Cloning<U>)
    requires k.Cloneable()
    ensures 0 < k.q < |k.g| && Proper(k.g, k.q) && k.q !in k.moved && k.p in k.moved
    ensures IsSuffix(k.names[k.p] + [k.c], k.names[k.q])
    ensures k.g[Link(k.g, k.q)].len <= k.g[k.p].len
    ensures IsSuffix(k.names[Link(k.g, k.q)], k.names[k.p] + [k.c])
    ensures !OnChain(k.g, k.p, k.q)
  {
    assert EdgeFits(k.g, k.names, k.p, k.c);
    SuffixNested(k.names[Link(k.g, k.q)], k.names[k.p] + [k.c], k.names[k.q]);
  }

  lemma CloneWellFormed<U(!new)>(k: Cloning<U>)
    requires k.Cloneable()
    ensures WellFormed(k.h)
  {
    CloneFacts(k);
    forall v, x | 0 <= v < |k.h| && x in k.h[v].edges ensures k.h[v].edges[x] < |k.h| {
      if v != k.q && v < |k.g| {
        assert k.h[v].edges[x] == if v in k.moved && x == k.c then |k.g| else k.g[v].edges[x];
      }
    }
  }

  lemma CloneProper<U(!new)>(k: Cloning<U>, v: nat)
    requires k.Cloneable() && WellFormed(k.h) && v < |k.g|
    ensures Proper(k.h, v) == Proper(k.g, v)
    ensures v > 0 ==> Link(k.h, v) == if v == k.q then |k.g| else Link(k.g, v)
    ensures v > 0 && v != k.q ==> k.h[Link(k.g, v)].len == k.g[Link(k.g, v)].len
  {
    CloneFacts(k);
    assert k.h[v].len == k.g[v].len;
    if v > 0 && v != k.q {
      assert k.h[v].link == k.g[v].link;
      assert k.h[Link(k.g, v)].len == k.g[Link(k.g, v)].len;
    }
  }

  lemma CloneShape<U(!new)>(k: Cloning<U>)
    requires k.Cloneable()
    ensures WellFormed(k.h) && Linked(k.h) && Proper(k.h, |k.g|)
    ensures forall v :: 0 <= v < |k.g| ==> Proper(k.h, v) == Proper(k.g, v)
  {
    CloneWellFormed(k);
    CloneFacts(k);
    var r := Link(k.g, k.q);
    assert Link(k.h, |k.g|) == r && k.h[r].len == k.g[r].len;
    forall v | 0 <= v < |k.g| ensures Proper(k.h, v) == Proper(k.g, v) {
      CloneProper(k, v);
    }
    forall v | 0 < v < |k.h| ensures Proper(k.h, Link(k.h, v)) && k.h[Link(k.h, v)].len <= k.h[v].len {
      if v < |k.g| {
        CloneProper(k, v);
        assert Proper(k.g, Link(k.g, v)) && k.h[v].len == k.g[v].len;
      } else {
        assert Proper(k.g, r);
      }
    }
  }

  /** The clone enters exactly the chains that go through `q`. */
  lemma {:induction false} CloneChain<U(!new)>(k: Cloning<U>, v: nat, u: nat)
    requires k.Cloneable() && WellFormed(k.h) && Linked(k.h) && v < |k.g|
    ensures OnChain(k.h, v, u) <==> if u == |k.g| then OnChain(k.g, v, k.q) else OnChain(k.g, v, u)
    decreases k.g[v].len, if Proper(k.g, v) then 0 else 1
  {
    CloneFacts(k);
    CloneProper(k, v);
    if v != 0 {
      var l := Link(k.g, v);
      CloneChain(k, l, u);
      if v == k.q {
        assert Link(k.h, |k.g|) == l;
      }
    }
  }

  lemma CloneOwnChain<U(!new)>(k: Cloning<U>, u: nat)
    requires k.Cloneable() && WellFormed(k.h) && Linked(k.h)
    ensures 0 < k.q < |k.g|
    ensures OnChain(k.h, |k.g|, u) <==> u == |k.g| || OnChain(k.g, Link(k.g, k.q), u)
  {
    CloneFacts(k);
    assert Link(k.h, |k.g|) == Link(k.g, k.q);
    CloneChain(k, Link(k.g, k.q), u);
  }

  /** A state of `p`'s chain whose `c`-edge is not moved leads below `q`. */
  lemma UnmovedLeadsBelow<U(!new)>(k: Cloning<U>, v: nat)
    requires k.Cloneable() && OnChain(k.g, k.p, v) && v !in k.moved
    ensures 0 < k.q < |k.g| && k.c in k.g[v].edges && OnChain(k.g, Link(k.g, k.q), k.g[v].edges[k.c])
  {
    CloneFacts(k);
    EdgesDownChain(k.g, k.names, k.p, v, k.c);
    ChainSteps(k.g, k.q, k.g[v].edges[k.c]);
  }

  /** A word is read into the same state as before the split, or into the clone instead of `q`. */
  lemma {:induction false} CloneReach<U(!new)>(k: Cloning<U>, w: seq<U>)
    requires k.Cloneable() && WellFormed(k.h) && Reach(k.g, w).Some?
    ensures Reach(k.h, w) == Reach(k.g, w) || (Reach(k.h, w) == Some(|k.g|) && Reach(k.g, w) == Some(k.q))
    decreases |w|
  {
    if w != [] {
      var s, x := Unsnoc(w);
      ReachSnoc(k.g, s, x);
      CloneReachSnoc(k, s, x);
    }
  }

  /** After a further unit, it is the clone exactly when the edge taken is a moved one. */
  lemma {:induction false} CloneReachSnoc<U(!new)>(k: Cloning<U>, s: seq<U>, x: U)
    requires k.Cloneable() && WellFormed(k.h) && Reach(k.g, s + [x]).Some?
    ensures Reach(k.g, s).Some?
    ensures Reach(k.h, s + [x]) == if x == k.c &&
      Reach(k.g, s).value in k.moved then Some(|k.g|) else Reach(k.g, s + [x])
    ensures x == k.c && Reach(k.g, s).value in k.moved ==> Reach(k.g, s + [x]) == Some(k.q)
    decreases |s + [x]|, 0
  {
    CloneFacts(k);
    ReachSnoc(k.g, s, x);
    ReachSnoc(k.h, s, x);
    CloneReach(k, s);
    var v := Reach(k.g, s).value;
    assert k.h[|k.g|].edges == k.g[k.q].edges;
  }

  lemma CloneReadInto<U(!new)>(k: Cloning<U>, s: seq<U>, v: nat)
    requires k.Cloneable() && WellFormed(k.h) && Linked(k.h) && v < |k.g| && ReadInto(k.g, s, v)
    ensures ReadInto(k.h, s, v)
  {
    CloneReach(k, s);
    CloneChain(k, v, Reach(k.h, s).value);
  }

  lemma CloneReadsOwnSuffix<U(!new)>(k: Cloning<U>, r: seq<U>)
    requires k.Cloneable() && WellFormed(k.h) && Linked(k.h) && IsSuffix(r, k.names[k.p])
    ensures ReadInto(k.h, r + [k.c], |k.g|)
  {
    assert ReadInto(k.g, r, k.p);
    var v := Reach(k.g, r).value;
    EdgesDownChain(k.g, k.names, k.p, v, k.c);
    ReachSnoc(k.g, r, k.c);
    CloneReachSnoc(k, r, k.c);
    CloneOwnChain(k, Reach(k.h, r + [k.c]).value);
    if v !in k.moved {
      UnmovedLeadsBelow(k, v);
    }
  }

  /** An edge into `q` that is not moved starts from a state longer than `p`. */
  lemma UnmovedIsLonger<U(!new)>(k: Cloning<U>, v: nat, x: U)
    requires k.Cloneable() && v < |k.g| && Proper(k.g, v) && x in k.g[v].edges && k.g[v].edges[x] == k.q
    ensures (v in k.moved && x == k.c) || k.g[v].len > k.g[k.p].len
  {
    CloneFacts(k);
    assert EdgeFits(k.g, k.names, v, x);
    if k.g[v].len <= k.g[k.p].len {
      SuffixNested(k.names[v] + [x], k.names[k.p] + [k.c], k.names[k.q]);
      SuffixOfSnoc(k.names[v], x, k.names[k.p], k.c);
      SuffixStateOnChain(k.g, k.names, k.p, v);
    }
  }

  lemma CloneOldEdgeFits<U(!new)>(k: Cloning<U>, v: nat, x: U)
    requires k.Cloneable() && WellFormed(k.h) && v < |k.g| && Proper(k.g, v) && x in k.h[v].edges
    requires forall u :: 0 <= u < |k.g| ==> Proper(k.h, u) == Proper(k.g, u)
    requires Proper(k.h, |k.g|)
    ensures EdgeFits(k.h, k.Names(), v, x)
  {
    CloneFacts(k);
    assert x in k.g[v].edges && EdgeFits(k.g, k.names, v, x);
    if v in k.moved && x == k.c {
      assert k.h[v].edges[x] == |k.g| && Link(k.h, |k.g|) == Link(k.g, k.q);
      ChainNames(k.g, k.names, k.p, v);
      SuffixSnoc(k.names[v], k.names[k.p], k.c);
      assert k.h[Link(k.g, k.q)].len == k.g[Link(k.g, k.q)].len;
      assert k.h[v].len == k.g[v].len;
    } else {
      var u := k.g[v].edges[x];
      assert k.h[v].edges[x] == u && k.h[v].len == k.g[v].len;
      CloneProper(k, u);
      if u == k.q {
        UnmovedIsLonger(k, v, x);
      }
    }
  }

  lemma CloneNewEdgeFits<U(!new)>(k: Cloning<U>, x: U)
    requires k.Cloneable() && WellFormed(k.h) && x in k.h[|k.g|].edges
    requires forall u :: 0 <= u < |k.g| ==> Proper(k.h, u) == Proper(k.g, u)
    ensures EdgeFits(k.h, k.Names(), |k.g|, x)
  {
    CloneFacts(k);
    var u := k.g[k.q].edges[x];
    assert EdgeFits(k.g, k.names, k.q, x);
    ShortestGrowsByOne(k.g, k.names, k.q, x);
    CloneProper(k, u);
    SuffixSnoc(k.names[k.p] + [k.c], k.names[k.q], x);
    SuffixTransitive(k.names[k.p] + [k.c] + [x], k.names[k.q] + [x], k.names[u]);
  }

  lemma MovedEdgeFollowsLink<U(!new)>(k: Cloning<U>, v: nat)
    requires k.Cloneable() && WellFormed(k.h) && Linked(k.h) && v in k.moved && v > 0
    ensures v != k.q && k.c in k.h[v].edges && EdgeFollowsLink(k.h, v, k.c)
  {
    CloneFacts(k);
    CloneProper(k, v);
    var l := Link(k.g, v);
    assert OnChain(k.g, k.p, l) by {
      assert OnChain(k.g, v, l);
      ChainOfMember(k.g, k.p, v, l);
    }
    assert l != k.q;
    if l !in k.moved {
      UnmovedLeadsBelow(k, l);
      CloneOwnChain(k, k.g[l].edges[k.c]);
    }
  }

  lemma CloneOldEdgeFollowsLink<U(!new)>(k: Cloning<U>, v: nat, x: U)
    requires k.Cloneable() && WellFormed(k.h) && Linked(k.h) && 0 < v < |k.g| && Proper(k.g, v) && x in k.h[v].edges
    ensures EdgeFollowsLink(k.h, v, x)
  {
    if v in k.moved && x == k.c {
      MovedEdgeFollowsLink(k, v);
    } else {
      CloneFacts(k);
      CloneProper(k, v);
      assert k.h[v].edges[x] == k.g[v].edges[x];
      var u, l := k.g[v].edges[x], Link(k.g, v);
      if v == k.q {
        assert k.h[|k.g|].edges[x] == u;
      } else {
        assert EdgeFollowsLink(k.g, v, x);
        assert k.h[l].edges[x] == if l in k.moved && x == k.c then |k.g| else k.g[l].edges[x];
        CloneChain(k, u, k.h[l].edges[x]);
      }
    }
  }

  lemma CloneNewEdgeFollowsLink<U(!new)>(k: Cloning<U>, x: U)
    requires k.Cloneable() && WellFormed(k.h) && Linked(k.h) && x in k.h[|k.g|].edges
    ensures EdgeFollowsLink(k.h, |k.g|, x)
  {
    CloneFacts(k);
    var l := Link(k.g, k.q);
    assert Link(k.h, |k.g|) == l && l != k.q;
    assert EdgeFollowsLink(k.g, k.q, x);
    var u := k.g[k.q].edges[x];
    assert k.h[l].edges[x] == if l in k.moved && x == k.c then |k.g| else k.g[l].edges[x];
    CloneChain(k, u, k.h[l].edges[x]);
  }

  lemma CloneHomed<U(!new)>(k: Cloning<U>, v: nat)
    requires k.Cloneable() && WellFormed(k.h) && v <= |k.g| && (v < |k.g| ==> Proper(k.g, v))
    ensures Homed(k.h, k.Names(), v)
  {
    CloneFacts(k);
    if v == |k.g| {
      assert Homed(k.g, k.names, k.p);
      ReachSnoc(k.g, k.names[k.p], k.c);
      CloneReachSnoc(k, k.names[k.p], k.c);
    } else {
      var w := k.names[v];
      assert Homed(k.g, k.names, v);
      if w != [] {
        var s, x := Unsnoc(w);
        CloneReachSnoc(k, s, x);
        ReadWord(k.g, k.names, s);
      }
    }
  }

  lemma CloneNamed<U(!new)>(k: Cloning<U>)
    requires k.Cloneable() && WellFormed(k.h)
    ensures Named(k.h, k.Names())
  {
    CloneFacts(k);
    var names' := k.Names();
    forall v | 0 < v < |k.h| ensures IsSuffix(names'[Link(k.h, v)], names'[v]) {
      if v < |k.g| {
        CloneProper(k, v);
      }
    }
  }

  lemma CloneReads<U(!new)>(k: Cloning<U>, v: nat, s: seq<U>)
    requires k.Cloneable() && WellFormed(k.h) && Linked(k.h) && v < |k.h| && IsSuffix(s, k.Names()[v])
    ensures ReadInto(k.h, s, v)
  {
    if v < |k.g| {
      assert ReadInto(k.g, s, v);
      CloneReadInto(k, s, v);
    } else if s != [] {
      var r := SuffixUnsnoc(s, k.names[k.p], k.c);
      CloneReadsOwnSuffix(k, r);
    } else {
      RootOnChain(k.h, v);
    }
  }

  lemma CloneEdge<U(!new)>(k: Cloning<U>, v: nat, x: U)
    requires k.Cloneable() && WellFormed(k.h) && Linked(k.h) && v < |k.h| && Proper(k.h, v) && x in k.h[v].edges
    ensures |k.Names()| == |k.h| && EdgeFits(k.h, k.Names(), v, x)
    ensures v > 0 ==> EdgeFollowsLink(k.h, v, x)
  {
    CloneShape(k);
    if v < |k.g| {
      CloneOldEdgeFits(k, v, x);
      if v > 0 { CloneOldEdgeFollowsLink(k, v, x); }
    } else {
      CloneNewEdgeFits(k, x);
      CloneNewEdgeFollowsLink(k, x);
    }
  }

  lemma CloneHome<U(!new)>(k: Cloning<U>, v: nat)
    requires k.Cloneable() && WellFormed(k.h) && v < |k.h| && Proper(k.h, v)
    ensures Homed(k.h, k.Names(), v)
  {
    if v < |k.g| {
      CloneProper(k, v);
    }
    CloneHomed(k, v);
  }

  /** Splitting a state keeps the automaton. */
  lemma CloneAutomaton<U(!new)>(k: Cloning<U>)
    requires k.Cloneable()
    ensures Automaton(k.h, k.Names())
  {
    CloneShape(k);
    CloneNamed(k);
    forall v, x | 0 <= v < |k.h| && Proper(k.h, v) && x in k.h[v].edges
      ensures EdgeFits(k.h, k.Names(), v, x) && (v > 0 ==> EdgeFollowsLink(k.h, v, x))
    {
      CloneEdge(k, v, x);
    }
    forall v, s | 0 <= v < |k.h| && IsSuffix(s, k.Names()[v]) ensures ReadInto(k.h, s, v) {
      CloneReads(k, v, s);
    }
    forall v | 0 <= v < |k.h| && Proper(k.h, v) ensures Homed(k.h, k.Names(), v) {
      CloneHome(k, v);
    }
  }
}
