/**
 The two ways `extend` changes the graph, put together from attaching the state of the
 extended text and, when the edge found is not continuous, splitting its target first.
 */
module SuffixExtend {
  import opened Words
  import opened SuffixGraph
  import opened SuffixAttach
  import opened SuffixClone

  /** The suffix-link walk from `last`: `bare` are the states passed, `p` is where it stands. */
  ghost predicate Walk<U(!new)>(g: Graph<U>, last: nat, c: U, bare: set<nat>, p: Option<nat>)
    requires WellFormed(g) && Linked(g) && last < |g|
  {
    && (forall v {:trigger v in bare} :: v in bare ==> OnChain(g, last, v))
    && (forall v {:trigger v in bare} :: v in bare ==> c !in g[v].edges)
    && match p
       case None => forall u: nat {:trigger OnChain(g, last, u)} :: OnChain(g, last, u) ==> u in bare
       case Some(v) =>
         && OnChain(g, last, v)
         && (forall u: nat {:trigger OnChain(g, last, u)} :: OnChain(g, last, u) ==> u in bare || OnChain(g, v, u))
         && (forall u {:trigger u in bare} :: u in bare && Proper(g, u) ==> g[v].len < g[u].len)
  }

  lemma WalkStep<U(!new)>(g: Graph<U>, last: nat, c: U, bare: set<nat>, v: nat)
    requires WellFormed(g) && Linked(g) && last < |g| && v < |g|
    requires Walk(g, last, c, bare, Some(v)) && c !in g[v].edges
    ensures Walk(g, last, c, bare + {v}, g[v].link)
    ensures v > 0 ==> g[v].link.Some? && g[v].link.value < |g| && Proper(g, g[v].link.value) && g[v].link.value != v
    ensures v > 0 ==> g[g[v].link.value].len <= g[v].len && (Proper(g, v) ==> g[g[v].link.value].len < g[v].len)
  {
    if v > 0 {
      assert g[v].link == Some(Link(g, v));
      assert OnChain(g, v, Link(g, v));
      ChainOfMember(g, last, v, Link(g, v));
    }
  }

  /** A spare, unreachable state at the end of the graph. */
  function Spare<U(==)>(): Node<U> { Node(map[], Some(0), 0, false) }

  lemma {:induction false} SpareReach<U>(g: Graph<U>, w: seq<U>)
    requires WellFormed(g) && WellFormed(g + [Spare()])
    ensures Reach(g + [Spare()], w) == Reach(g, w)
    decreases |w|
  {
    if w != [] {
      var s, c := Unsnoc(w);
      ReachSnoc(g, s, c);
      ReachSnoc(g + [Spare()], s, c);
      SpareReach(g, s);
    }
  }

  lemma SpareShape<U>(g: Graph<U>)
    requires WellFormed(g) && Linked(g)
    ensures WellFormed(g + [Spare()]) && Linked(g + [Spare()]) && !Proper(g + [Spare()], |g|)
    ensures forall v :: 0 <= v < |g| ==> Proper(g + [Spare()], v) == Proper(g, v)
  {
    var d := g + [Spare()];
    forall v | 0 <= v < |g| ensures Proper(d, v) == Proper(g, v) {
      if v > 0 { assert d[Link(g, v)] == g[Link(g, v)]; }
    }
    forall v | 0 < v < |d| ensures Proper(d, Link(d, v)) && d[Link(d, v)].len <= d[v].len {
      if v < |g| { assert Link(d, v) == Link(g, v); }
    }
  }

  lemma SpareChain<U>(g: Graph<U>, v: nat)
    requires WellFormed(g) && Linked(g) && WellFormed(g + [Spare()]) && Linked(g + [Spare()]) && v < |g|
    ensures forall u :: OnChain(g + [Spare()], v, u) <==> OnChain(g, v, u)
  {
    forall u: nat | OnChain(g, v, u) ensures SameLink(g, g + [Spare()], u) {
    }
    ChainSame(g, g + [Spare()], v);
  }

  lemma SpareAutomaton<U(!new)>(g: Graph<U>, names: seq<seq<U>>)
    requires Automaton(g, names)
    ensures Automaton(g + [Spare()], names + [[]])
  {
    var d, names' := g + [Spare()], names + [[]];
    SpareShape(g);
    assert Named(d, names') by {
      forall v | 0 < v < |d| ensures IsSuffix(names'[Link(d, v)], names'[v]) {
        if v < |g| { assert Link(d, v) == Link(g, v); } else { assert names[0] == []; }
      }
    }
    forall v, c | 0 <= v < |d| && Proper(d, v) && c in d[v].edges
      ensures EdgeFits(d, names', v, c) && (v > 0 ==> EdgeFollowsLink(d, v, c))
    {
      SpareEdge(g, names, v, c);
    }
    forall v, s | 0 <= v < |d| && IsSuffix(s, names'[v]) ensures ReadInto(d, s, v) {
      SpareReach(g, s);
      if v < |g| {
        assert ReadInto(g, s, v);
        SpareChain(g, v);
      } else {
        assert s == [];
      }
    }
    forall v | 0 <= v < |d| && Proper(d, v) ensures Homed(d, names', v) {
      assert Homed(g, names, v);
      SpareReach(g, names[v]);
    }
  }

  lemma SpareEdge<U(!new)>(g: Graph<U>, names: seq<seq<U>>, v: nat, c: U)
    requires Automaton(g, names) && WellFormed(g + [Spare()]) && Linked(g + [Spare()])
    requires v < |g| && Proper(g, v) && c in g[v].edges
    ensures EdgeFits(g + [Spare()], names + [[]], v, c)
    ensures v > 0 ==> EdgeFollowsLink(g + [Spare()], v, c)
  {
    SpareShape(g);
    assert EdgeFits(g, names, v, c);
    var u := g[v].edges[c];
    SpareChain(g, u);
    assert (g + [Spare()])[v] == g[v] && (g + [Spare()])[u] == g[u];
    assert Link(g + [Spare()], u) == Link(g, u);
    if v > 0 {
      assert EdgeFollowsLink(g, v, c);
      assert Link(g + [Spare()], v) == Link(g, v);
    }
  }

  /** The graph after `extend` when no split is needed. */
  ghost predicate Extended<U(!new)>(g: Graph<U>, h: Graph<U>, last: nat, c: U, bare: set<nat>, target: nat)
    requires last < |g|
  {
    && |h| == |g| + 1
    && h[|g|] == Node(map[], Some(target), g[last].len + 1, true)
    && (forall v {:trigger h[v]} :: 0 <= v < |g| ==>
          h[v] == if v in bare then g[v].(edges := g[v].edges[c := |g|]) else g[v])
  }

  /** The suffix link chosen for the new state when no split is needed. */
  ghost predicate Continuous<U(!new)>(g: Graph<U>, c: U, p: Option<nat>, target: nat)
    requires WellFormed(g)
  {
    match p
    case None => target == 0
    case Some(v) =>
      v < |g| && Proper(g, v) && c in g[v].edges && g[v].edges[c] == target && g[v].len + 1 == g[target].len
  }

  lemma ContinuousTarget<U(!new)>(g: Graph<U>, names: seq<seq<U>>, last: nat, c: U, bare: set<nat>, p: Option<nat>,
                                  target: nat)
    requires Automaton(g, names) && last < |g| && Walk(g, last, c, bare, p) && Continuous(g, c, p, target)
    ensures target < |g| && Proper(g, target) && IsSuffix(names[target], names[last] + [c])
    ensures forall v {:trigger v in bare} :: v in bare && Proper(g, v) ==> g[target].len <= g[v].len
    ensures forall v: nat {:trigger OnChain(g, last, v)} ::
      OnChain(g, last, v) && v !in bare ==> c in g[v].edges && OnChain(g, target, g[v].edges[c])
  {
    match p {
      case None =>
      case Some(v) =>
        assert EdgeFits(g, names, v, c);
        ChainNames(g, names, last, v);
        SuffixSnoc(names[v], names[last], c);
        SuffixNested(names[v] + [c], names[target], names[target]);
        assert names[target] == names[v] + [c];
        forall u: nat | OnChain(g, last, u) && u !in bare ensures c in g[u].edges && OnChain(g, target, g[u].edges[c]) {
          EdgesDownChain(g, names, v, u, c);
        }
    }
  }

  lemma ExtendContinuous<U(!new)>(g: Graph<U>, h: Graph<U>, names: seq<seq<U>>, last: nat, c: U, bare: set<nat>,
                                  p: Option<nat>, target: nat)
    requires Automaton(g, names) && last < |g| && Walk(g, last, c, bare, p) && Continuous(g, c, p, target)
    requires Extended(g, h, last, c, bare, target)
    ensures Automaton(h, names + [names[last] + [c]])
    ensures forall v :: 0 <= v < |g| ==> Proper(h, v) == Proper(g, v)
  {
    var d := g + [Spare()];
    SpareAutomaton(g, names);
    SpareShape(g);
    SpareChain(g, last);
    ContinuousTarget(g, names, last, c, bare, p, target);
    SpareChain(g, target);
    var a := Attachment(d, h, names + [[]], last, bare, c, |g|, target);
    assert a.Attachable();
    AttachAutomaton(a);
    AttachShape(a);
    assert a.Names() == names + [names[last] + [c]];
  }

  /** The graph after `extend` when `q` is split: `moved` are the states whose edge goes to the clone. */
  ghost predicate SplitExtended<U(!new)>(g: Graph<U>, h: Graph<U>, last: nat, c: U, bare: set<nat>, p: nat, q: nat,
        moved: set<nat>)
    requires last < |g| && p < |g| && q < |g|
  {
    var cur, clone := |g|, |g| + 1;
    && |h| == |g| + 2
    && h[cur] == Node(map[], Some(clone), g[last].len + 1, true)
    && h[clone] == Node(if q in bare then g[q].edges[c := cur] else g[q].edges, g[q].link, g[p].len + 1, true)
    && (forall v {:trigger h[v]} :: 0 <= v < |g| ==>
          && h[v].edges == (if v in bare then g[v].edges[c := cur]
                            else if v in moved then g[v].edges[c := clone] else g[v].edges)
          && h[v].link == (if v == q then Some(clone) else g[v].link)
          && h[v].len == g[v].len
          && h[v].isFinal == g[v].isFinal)
  }

  ghost predicate Moves<U(!new)>(g: Graph<U>, c: U, p: nat, q: nat, moved: set<nat>)
    requires WellFormed(g) && Linked(g) && p < |g|
  {
    forall v: nat {:trigger v in moved} :: v in moved <==> OnChain(g, p, v) && c in g[v].edges && g[v].edges[c] == q
  }

  ghost function Split<U(!new)>(g: Graph<U>, c: U, p: nat, q: nat, moved: set<nat>): (h: Graph<U>)
    requires p < |g| && q < |g|
    ensures |h| == |g| + 1
  {
    seq(|g| + 1, i requires 0 <= i <= |g| =>
      if i == |g| then Node(g[q].edges, g[q].link, g[p].len + 1, true)
      else if i == q then g[q].(link := Some(|g|))
      else if i in moved then g[i].(edges := g[i].edges[c := |g|])
      else g[i])
  }

  /** Splitting in the graph with the spare state at the end. */
  lemma SpareCloning<U(!new)>(g: Graph<U>, names: seq<seq<U>>, c: U, p: nat, q: nat, moved: set<nat>)
    returns (k: Cloning<U>)
    requires Automaton(g, names) && p < |g| && Proper(g, p) && c in g[p].edges && g[p].edges[c] == q
    requires g[q].len > g[p].len + 1
    requires Moves(g, c, p, q, moved)
    ensures k.g == g + [Spare()] && k.names == names + [[]] && k.p == p && k.q == q && k.c == c && k.moved == moved
    ensures k.Cloneable()
  {
    var d := g + [Spare()];
    SpareAutomaton(g, names);
    SpareShape(g);
    SpareChain(g, p);
    k := Cloning(d, Split(d, c, p, q, moved), names + [[]], p, q, c, moved);
    forall v: nat {:trigger v in moved}
      ensures v in moved <==> OnChain(d, p, v) && c in d[v].edges && d[v].edges[c] == q
    {
    }
  }

  /** A walk that found a discontinuous edge, with the split it leads to. */
  datatype Splitting<U(==,!new)> = Splitting(
    g: Graph<U>, h: Graph<U>, names: seq<seq<U>>, last: nat, bare: set<nat>, k: Cloning<U>)
  {
    ghost predicate Ok() {
      && Automaton(g, names)
      && last < |g| && k.p < |g| && k.q < |g|
      && Proper(g, k.p)
      && Walk(g, last, k.c, bare, Some(k.p))
      && k.g == g + [Spare()] && k.names == names + [[]]
      && k.Cloneable()
      && Moves(g, k.c, k.p, k.q, k.moved)
      && SplitExtended(g, h, last, k.c, bare, k.p, k.q, k.moved)
    }

    /** The states without a `c`-edge on the chain of `last` after the split. */
    function Below(): set<nat> {
      bare + if k.q in bare then {|g| + 1} else {}
    }

    function Step(): Attachment<U>
      requires k.p < |k.names|
    {
      Attachment(k.h, h, k.Names(), last, Below(), k.c, |g|, |g| + 1)
    }
  }

  lemma SplitShape<U(!new)>(t: Splitting<U>)
    requires t.Ok()
    ensures Automaton(t.k.h, t.k.Names()) && |t.k.h| == |t.g| + 2
    ensures Proper(t.k.h, |t.g| + 1) && !Proper(t.k.h, |t.g|)
    ensures !OnChain(t.g, t.k.p, t.k.q) && t.bare !! t.k.moved && t.k.q !in t.k.moved
  {
    CloneAutomaton(t.k);
    CloneShape(t.k);
    CloneFacts(t.k);
    SpareShape(t.g);
    SpareChain(t.g, t.k.p);
  }

  lemma SplitBelow<U(!new)>(t: Splitting<U>)
    requires t.Ok() && WellFormed(t.k.h) && Linked(t.k.h)
    ensures forall v {:trigger v in t.Below()} :: v in t.Below() ==> OnChain(t.k.h, t.last, v)
  {
    SpareShape(t.g);
    SpareChain(t.g, t.last);
    forall v | v in t.Below() ensures OnChain(t.k.h, t.last, v) {
      CloneChain(t.k, t.last, v);
    }
  }

  lemma SplitAbove<U(!new)>(t: Splitting<U>, v: nat)
    requires t.Ok() && WellFormed(t.k.h) && Linked(t.k.h) && !OnChain(t.g, t.k.p, t.k.q)
    requires OnChain(t.k.h, t.last, v) && v !in t.Below()
    ensures OnChain(t.g, t.k.p, v)
  {
    SpareShape(t.g);
    SpareChain(t.g, t.last);
    CloneChain(t.k, t.last, v);
  }

  lemma SplitNode<U(!new)>(t: Splitting<U>, v: nat)
    requires t.Ok() && v < |t.k.h| && v != |t.g| && t.bare !! t.k.moved
    ensures t.h[v] == if v in t.Below() then t.k.h[v].(edges := t.k.h[v].edges[t.k.c := |t.g|]) else t.k.h[v]
  {
    CloneFacts(t.k);
    if v < |t.g| {
      assert t.k.g[v] == t.g[v];
      assert v in t.Below() <==> v in t.bare;
    } else {
      assert t.k.h[v].edges == t.g[t.k.q].edges;
    }
  }

  lemma SplitSpareNode<U(!new)>(t: Splitting<U>)
    requires t.Ok()
    ensures |t.k.h| == |t.g| + 2 && t.k.h[|t.g|] == Spare()
    ensures t.k.h[t.last].len == t.g[t.last].len && t.k.Names()[t.last] == t.names[t.last]
  {
    CloneFacts(t.k);
    assert t.k.g[|t.g|] == Spare();
    assert !OnChain(t.g, t.k.p, |t.g|);
  }

  lemma SplitBare<U(!new)>(t: Splitting<U>, v: nat)
    requires t.Ok() && WellFormed(t.k.h) && v in t.Below()
    ensures v < |t.k.h| && t.k.c !in t.k.h[v].edges
    ensures Proper(t.k.h, v) ==> t.k.h[|t.g| + 1].len <= t.k.h[v].len
  {
    CloneFacts(t.k);
    if v in t.bare {
      SpareShape(t.g);
      CloneProper(t.k, v);
      assert t.k.g[v] == t.g[v] && v !in t.k.moved;
    }
  }

  lemma SplitUnbare<U(!new)>(t: Splitting<U>, v: nat)
    requires t.Ok() && WellFormed(t.k.h) && Linked(t.k.h) && OnChain(t.g, t.k.p, v)
    ensures t.k.c in t.k.h[v].edges && OnChain(t.k.h, |t.g| + 1, t.k.h[v].edges[t.k.c])
  {
    SpareShape(t.g);
    SpareChain(t.g, t.k.p);
    CloneFacts(t.k);
    if v !in t.k.moved {
      UnmovedLeadsBelow(t.k, v);
      CloneOwnChain(t.k, t.k.g[v].edges[t.k.c]);
    }
  }

  lemma SplitTarget<U(!new)>(t: Splitting<U>)
    requires t.Ok()
    ensures IsSuffix(t.k.Names()[|t.g| + 1], t.k.Names()[t.last] + [t.k.c])
  {
    ChainNames(t.g, t.names, t.last, t.k.p);
    SuffixSnoc(t.names[t.k.p], t.names[t.last], t.k.c);
    assert t.k.Names()[|t.g| + 1] == t.names[t.k.p] + [t.k.c];
  }

  lemma SplitAllBare<U(!new)>(t: Splitting<U>)
    requires t.Ok() && WellFormed(t.k.h)
    ensures |t.k.h| == |t.g| + 2
    ensures forall v {:trigger v in t.Below()} :: v in t.Below() ==>
      v < |t.k.h| && t.k.c !in t.k.h[v].edges && (Proper(t.k.h, v) ==> t.k.h[|t.g| + 1].len <= t.k.h[v].len)
  {
    forall v | v in t.Below()
      ensures v < |t.k.h| && t.k.c !in t.k.h[v].edges && (Proper(t.k.h, v) ==> t.k.h[|t.g| + 1].len <= t.k.h[v].len)
    {
      SplitBare(t, v);
    }
  }

  lemma SplitAllAbove<U(!new)>(t: Splitting<U>)
    requires t.Ok() && WellFormed(t.k.h) && Linked(t.k.h) && !OnChain(t.g, t.k.p, t.k.q)
    ensures |t.k.h| == |t.g| + 2
    ensures forall v: nat {:trigger OnChain(t.k.h, t.last, v)} :: OnChain(t.k.h, t.last, v) && v !in t.Below() ==>
      t.k.c in t.k.h[v].edges && OnChain(t.k.h, |t.g| + 1, t.k.h[v].edges[t.k.c])
  {
    forall v: nat {:trigger OnChain(t.k.h, t.last, v)} | OnChain(t.k.h, t.last, v) && v !in t.Below()
      ensures t.k.c in t.k.h[v].edges && OnChain(t.k.h, |t.g| + 1, t.k.h[v].edges[t.k.c])
    {
      SplitAbove(t, v);
      SplitUnbare(t, v);
    }
  }

  lemma SplitPlaced<U(!new)>(t: Splitting<U>)
    requires t.Ok() && Automaton(t.k.h, t.k.Names())
    ensures t.Step().Placed()
  {
    SplitShape(t);
    SplitSpareNode(t);
    SplitTarget(t);
    SplitBelow(t);
    SplitAllBare(t);
    SplitAllAbove(t);
  }

  lemma SplitRebuilt<U(!new)>(t: Splitting<U>)
    requires t.Ok() && t.bare !! t.k.moved
    ensures t.Step().last < |t.Step().g| && t.Step().cur < |t.Step().g| && t.Step().Rebuilt()
  {
    SplitSpareNode(t);
    var a := t.Step();
    forall v {:trigger a.h[v]} | 0 <= v < |a.g| && v != a.cur
      ensures a.h[v] == if v in a.bare then a.g[v].(edges := a.g[v].edges[a.c := a.cur]) else a.g[v]
    {
      SplitNode(t, v);
    }
  }

  /** After splitting, the new state is attached below the clone. */
  lemma SplitAttachable<U(!new)>(t: Splitting<U>)
    requires t.Ok()
    ensures t.Step().Attachable()
  {
    SplitShape(t);
    SplitPlaced(t);
    SplitRebuilt(t);
  }

  lemma SplitProper<U(!new)>(t: Splitting<U>, v: nat)
    requires t.Ok() && t.Step().Attachable() && WellFormed(t.h) && v < |t.g|
    ensures Proper(t.h, v) == Proper(t.g, v)
  {
    AttachShape(t.Step());
    CloneWellFormed(t.k);
    CloneProper(t.k, v);
    SpareShape(t.g);
  }

  lemma ExtendSplit<U(!new)>(t: Splitting<U>)
    requires t.Ok()
    ensures Automaton(t.h, t.names + [t.names[t.last] + [t.k.c], t.names[t.k.p] + [t.k.c]])
    ensures forall v :: 0 <= v < |t.g| ==> Proper(t.h, v) == Proper(t.g, v)
  {
    SplitAttachable(t);
    AttachAutomaton(t.Step());
    assert t.Step().Names() == t.names + [t.names[t.last] + [t.k.c], t.names[t.k.p] + [t.k.c]];
    forall v | 0 <= v < |t.g| ensures Proper(t.h, v) == Proper(t.g, v) {
      SplitProper(t, v);
    }
  }

  /** The redirect loop stops where no state further down leads to `q`. */
  lemma RedirectStops<U(!new)>(g: Graph<U>, names: seq<seq<U>>, c: U, p: nat, q: nat, v: nat, u: nat)
    requires Automaton(g, names) && p < |g| && Proper(g, p) && c in g[p].edges && g[p].edges[c] == q
    requires OnChain(g, p, v) && c in g[v].edges && g[v].edges[c] != q && OnChain(g, v, u)
    ensures c in g[u].edges && g[u].edges[c] != q
  {
    EdgesDownChain(g, names, p, v, c);
    assert Proper(g, v);
    EdgesDownChain(g, names, v, u, c);
    var t := g[v].edges[c];
    if g[u].edges[c] == q {
      ChainAntisymmetric(g, t, q);
    }
  }

  /** One step of the redirect loop. */
  lemma RedirectStep<U(!new)>(g: Graph<U>, names: seq<seq<U>>, c: U, p: nat, q: nat, v: nat)
    requires Automaton(g, names) && p < |g| && OnChain(g, p, v) && Proper(g, p) && v < |g|
    ensures Proper(g, v)
    ensures v > 0 ==> g[v].link == Some(Link(g, v)) && OnChain(g, p, Link(g, v)) && g[Link(g, v)].len < g[v].len
  {
    if v > 0 {
      assert OnChain(g, v, Link(g, v));
      ChainOfMember(g, p, v, Link(g, v));
    }
  }
}
