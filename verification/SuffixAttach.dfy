/**
 Adding the state of the extended text: every state of `bare`, the part of the chain
 of `last` without a `c`-edge, gets a `c`-edge to the new state `cur`, whose suffix link
 is `target`. The slot `cur` is an unused state beforehand.
 */
module SuffixAttach {
  import opened Words
  import opened SuffixGraph

  datatype Attachment<U(==,!new)> = Attachment(
    g: Graph<U>, h: Graph<U>, names: seq<seq<U>>, last: nat, bare: set<nat>, c: U, cur: nat, target: nat)
  {
    ghost predicate Attachable() {
      && Automaton(g, names)
      && Placed()
      && Rebuilt()
    }

    /** `cur` is unused and `target` is where the walk from `last` over `bare` ended. */
    ghost predicate Placed()
      requires Automaton(g, names)
    {
      && last < |g| && target < |g| && cur < |g|
      && last != cur
      && cur != 0 && !Proper(g, cur) && g[cur].edges == map[]
      && Proper(g, target)
      && IsSuffix(names[target], names[last] + [c])
      && Walked()
    }

    ghost predicate Walked()
      requires WellFormed(g) && Linked(g) && last < |g| && target < |g|
    {
      && (forall v {:trigger v in bare} :: v in bare ==> OnChain(g, last, v))
      && (forall v {:trigger v in bare} ::
        v in bare ==> c !in g[v].edges && (Proper(g, v) ==> g[target].len <= g[v].len))
      && (forall v: nat {:trigger OnChain(g, last, v)} ::
        OnChain(g, last, v) && v !in bare ==> c in g[v].edges && OnChain(g, target, g[v].edges[c]))
    }

    predicate Rebuilt()
      requires last < |g| && cur < |g|
    {
      && |h| == |g|
      && h[cur] == Node(map[], Some(target), g[last].len + 1, true)
      && (forall v {:trigger h[v]} :: 0 <= v < |g| && v != cur ==>
            h[v] == if v in bare then g[v].(edges := g[v].edges[c := cur]) else g[v])
    }

    function Names(): seq<seq<U>>
      requires cur < |names| && last < |names|
    {
      names[cur := names[last] + [c]]
    }
  }

  lemma AttachApart<U(!new)>(a: Attachment<U>)
    requires a.Attachable()
    ensures a.cur !in a.bare && a.target != a.cur && !OnChain(a.g, a.last, a.cur)
  {
  }

  lemma AttachWellFormed<U(!new)>(a: Attachment<U>)
    requires a.Attachable()
    ensures WellFormed(a.h)
  {
    AttachApart(a);
    forall v, x | 0 <= v < |a.h| && x in a.h[v].edges ensures a.h[v].edges[x] < |a.h| {
    }
  }

  lemma AttachSameLink<U(!new)>(a: Attachment<U>, v: nat)
    requires a.Attachable() && v < |a.g| && v != a.cur
    ensures SameLink(a.g, a.h, v)
  {
  }

  lemma AttachProper<U(!new)>(a: Attachment<U>, v: nat)
    requires a.Attachable() && WellFormed(a.h) && v < |a.g| && v != a.cur
    ensures SameLink(a.g, a.h, v)
    ensures v > 0 ==> Link(a.g, v) != a.cur
    ensures Proper(a.h, v) == Proper(a.g, v)
  {
    AttachSameLink(a, v);
    if v > 0 {
      assert Proper(a.g, Link(a.g, v));
      AttachSameLink(a, Link(a.g, v));
    }
    ProperSame(a.g, a.h, v);
  }

  lemma AttachShape<U(!new)>(a: Attachment<U>)
    requires a.Attachable()
    ensures a.cur !in a.bare && a.target != a.cur
    ensures WellFormed(a.h) && Linked(a.h)
    ensures forall v :: 0 <= v < |a.g| && v != a.cur ==> Proper(a.h, v) == Proper(a.g, v)
    ensures Link(a.h, a.cur) == a.target
  {
    AttachApart(a);
    AttachWellFormed(a);
    forall v | 0 <= v < |a.g| && v != a.cur ensures Proper(a.h, v) == Proper(a.g, v) {
      AttachProper(a, v);
    }
    forall v | 0 < v < |a.h| ensures Proper(a.h, Link(a.h, v)) && a.h[Link(a.h, v)].len <= a.h[v].len {
      if v != a.cur {
        AttachProper(a, v);
      }
    }
  }

  lemma AttachChain<U(!new)>(a: Attachment<U>, v: nat)
    requires a.Attachable() && v < |a.g| && v != a.cur
    requires WellFormed(a.h) && Linked(a.h)
    ensures forall u :: OnChain(a.h, v, u) <==> OnChain(a.g, v, u)
  {
    forall u: nat | OnChain(a.g, v, u) ensures SameLink(a.g, a.h, u) {
      AttachSameLink(a, u);
    }
    ChainSame(a.g, a.h, v);
  }

  /** Words read before are read into the same state afterwards. */
  lemma {:induction false} AttachReach<U(!new)>(a: Attachment<U>, w: seq<U>)
    requires a.Attachable() && Reach(a.g, w).Some?
    requires WellFormed(a.h)
    ensures Reach(a.h, w) == Reach(a.g, w)
    decreases |w|
  {
    if w != [] {
      var s, x := Unsnoc(w);
      ReachSnoc(a.g, s, x);
      ReachSnoc(a.h, s, x);
      AttachReach(a, s);
      ReadWord(a.g, a.names, s);
    }
  }

  /** A suffix `r` of the text, extended by `c`, is read into the chain of the new state. */
  lemma AttachReadsSuffix<U(!new)>(a: Attachment<U>, r: seq<U>)
    requires a.Attachable() && WellFormed(a.h) && Linked(a.h)
    requires IsSuffix(r, a.names[a.last])
    ensures ReadInto(a.h, r + [a.c], a.cur)
    ensures Reach(a.g, r).Some? && Reach(a.g, r).value in a.bare ==> Reach(a.h, r + [a.c]) == Some(a.cur)
  {
    assert Link(a.h, a.cur) == a.target;
    assert ReadInto(a.g, r, a.last);
    AttachReach(a, r);
    ReadWord(a.g, a.names, r);
    ReachSnoc(a.h, r, a.c);
    AttachApart(a);
    AttachChain(a, a.target);
  }

  lemma AttachEdgeFits<U(!new)>(a: Attachment<U>, v: nat, x: U)
    requires a.Attachable()
    requires WellFormed(a.h) && v < |a.h| && Proper(a.h, v) && x in a.h[v].edges
    ensures EdgeFits(a.h, a.Names(), v, x)
  {
    AttachShape(a);
    assert v != a.cur && Proper(a.g, v);
    if v in a.bare && x == a.c {
      NewEdgeFits(a, v);
    } else {
      OldEdgeFits(a, v, x);
    }
  }

  lemma NewEdgeFits<U(!new)>(a: Attachment<U>, v: nat)
    requires a.Attachable() && WellFormed(a.h) && v in a.bare && v < |a.h| && v != a.cur && a.c in a.h[v].edges
    requires Proper(a.g, v) && Proper(a.h, a.cur)
    ensures EdgeFits(a.h, a.Names(), v, a.c)
  {
    assert a.h[v].edges[a.c] == a.cur && Link(a.h, a.cur) == a.target;
    ChainNames(a.g, a.names, a.last, v);
    SuffixSnoc(a.names[v], a.names[a.last], a.c);
  }

  lemma OldEdgeFits<U(!new)>(a: Attachment<U>, v: nat, x: U)
    requires a.Attachable() && WellFormed(a.h) && v < |a.h| && v != a.cur && x in a.h[v].edges
    requires Proper(a.g, v) && !(v in a.bare && x == a.c)
    ensures EdgeFits(a.h, a.Names(), v, x)
  {
    assert EdgeFits(a.g, a.names, v, x);
    assert a.h[v].edges[x] == a.g[v].edges[x] != a.cur;
    assert Link(a.h, a.g[v].edges[x]) == Link(a.g, a.g[v].edges[x]);
  }

  /** The names along a chain are suffixes of the name it starts from. */
  lemma {:induction false} ChainNames<U(!new)>(g: Graph<U>, names: seq<seq<U>>, v: nat, u: nat)
    requires WellFormed(g) && Linked(g) && Named(g, names) && v < |g| && OnChain(g, v, u)
    ensures IsSuffix(names[u], names[v])
    decreases g[v].len, if Proper(g, v) then 0 else 1
  {
    if u != v {
      ChainNames(g, names, Link(g, v), u);
      SuffixTransitive(names[u], names[Link(g, v)], names[v]);
    }
  }

  lemma NewEdgeFollowsLink<U(!new)>(a: Attachment<U>, v: nat)
    requires a.Attachable() && WellFormed(a.h) && Linked(a.h)
    requires v in a.bare && v > 0 && v != a.cur && a.target != a.cur && Link(a.g, v) != a.cur
    requires a.h[v].link == a.g[v].link
    ensures EdgeFollowsLink(a.h, v, a.c)
  {
    var l := Link(a.g, v);
    assert OnChain(a.g, a.last, l) by {
      assert OnChain(a.g, v, l);
      ChainOfMember(a.g, a.last, v, l);
    }
    assert Link(a.h, a.cur) == a.target;
    AttachChain(a, a.target);
  }

  lemma AttachEdgeFollowsLink<U(!new)>(a: Attachment<U>, v: nat, x: U)
    requires a.Attachable() && WellFormed(a.h) && Linked(a.h)
    requires 0 < v < |a.h| && Proper(a.h, v) && x in a.h[v].edges
    ensures EdgeFollowsLink(a.h, v, x)
  {
    AttachApart(a);
    assert v != a.cur;
    AttachProper(a, v);
    if v in a.bare && x == a.c {
      NewEdgeFollowsLink(a, v);
    } else {
      assert EdgeFollowsLink(a.g, v, x);
      assert EdgeFits(a.g, a.names, v, x);
      assert a.h[v].edges[x] == a.g[v].edges[x];
      AttachChain(a, a.g[v].edges[x]);
    }
  }

  /** A state of the chain that has a `c`-edge already is shorter than the new suffix link. */
  lemma BareOrShorter<U(!new)>(a: Attachment<U>, v: nat)
    requires a.Attachable() && OnChain(a.g, a.last, v) && Proper(a.g, v)
    ensures v in a.bare || a.g[v].len < a.g[a.target].len
  {
    if v !in a.bare {
      assert EdgeFits(a.g, a.names, v, a.c);
    }
  }

  lemma AttachHomed<U(!new)>(a: Attachment<U>, v: nat)
    requires a.Attachable()
    requires WellFormed(a.h) && Linked(a.h) && v < |a.h| && Proper(a.h, v)
    ensures Homed(a.h, a.Names(), v)
  {
    AttachShape(a);
    if v != a.cur {
      assert Homed(a.g, a.names, v);
      AttachReach(a, a.names[v]);
    } else {
      var text := a.names[a.last];
      assert ReadInto(a.g, text, a.last);
      ReadWord(a.g, a.names, text);
      var u := Reach(a.g, text).value;
      assert a.g[u].len == a.g[a.last].len;
      assert a.g[a.target].len <= a.g[a.last].len;
      BareOrShorter(a, u);
      AttachReadsSuffix(a, text);
    }
  }

  /** Attaching the state of the extended text keeps the automaton. */
  lemma AttachAutomaton<U(!new)>(a: Attachment<U>)
    requires a.Attachable()
    ensures Automaton(a.h, a.Names())
  {
    var names' := a.Names();
    AttachShape(a);
    assert Link(a.h, a.cur) == a.target;
    assert Named(a.h, names') by {
      forall v | 0 < v < |a.h| ensures IsSuffix(names'[Link(a.h, v)], names'[v]) {
        if v != a.cur {
          assert Link(a.h, v) == Link(a.g, v) && Proper(a.g, Link(a.g, v));
        }
      }
    }
    forall v, x | 0 <= v < |a.h| && Proper(a.h, v) && x in a.h[v].edges ensures EdgeFits(a.h, names', v, x) {
      AttachEdgeFits(a, v, x);
    }
    forall v, x | 0 < v < |a.h| && Proper(a.h, v) && x in a.h[v].edges ensures EdgeFollowsLink(a.h, v, x) {
      AttachEdgeFollowsLink(a, v, x);
    }
    forall v, s | 0 <= v < |a.h| && IsSuffix(s, names'[v]) ensures ReadInto(a.h, s, v) {
      if v == a.cur {
        if s != [] {
          var r := SuffixUnsnoc(s, a.names[a.last], a.c);
          AttachReadsSuffix(a, r);
        } else {
          RootOnChain(a.h, a.cur);
        }
      } else {
        assert ReadInto(a.g, s, v);
        AttachReach(a, s);
        AttachChain(a, v);
      }
    }
    forall v | 0 <= v < |a.h| && Proper(a.h, v) ensures Homed(a.h, names', v) {
      AttachHomed(a, v);
    }
  }
}
