/** Signatures of DAWG nodes, computed by a depth-first walk that finishes children before their parents. */
module DawgSignatures {
  import opened DawgGraph
  import opened DawgEdit
  import opened DawgMinimal

  ghost predicate Enters<U(!new), V>(g: Graph<U, V>, u: nat, v: nat) {
    exists c :: IsEdge(g, u, c, v)
  }

  /** The stack of the walk: nodes with the labels of their edges that are still to follow. */
  datatype Frames<U(==,!new)> = Empty | Frame(node: nat, todo: set<U>, below: Frames<U>) {
    /** How many steps the frames still need. */
    function Work(): nat {
      if Empty? then 0 else |todo| + 1 + below.Work()
    }

    predicate Holds(v: nat) {
      Frame? && (v == node || below.Holds(v))
    }

    /** Every frame is within the graph. */
    predicate Fits<V(==)>(g: Graph<U, V>) {
      Frame? ==> node < |g| && todo <= g[node].edges.Keys && below.Fits(g)
    }

    /** Each node is entered from the one below, no node is there twice, and a followed label led to a visited node. */
    ghost predicate Stacked<V>(g: Graph<U, V>, visited: set<nat>, done: set<nat>) {
      Frame? ==>
        && node < |g| && node in visited && node !in done && !below.Holds(node)
        && (forall c {:trigger g[node].edges[c]} :: c in g[node].edges && c !in todo ==> g[node].edges[c] in visited)
        && (if below.Frame? then Enters(g, below.node, node) else node == 0)
        && below.Stacked(g, visited, done)
    }
  }

  /** Visiting more, and finishing a node that is not on the stack, leaves the stack as it is. */
  lemma {:induction false} StackStays<U(!new), V>(f: Frames<U>, g: Graph<U, V>, visited: set<nat>, done: set<nat>,
        more: set<nat>, v: nat)
    requires f.Stacked(g, visited, done) && !f.Holds(v) && visited <= more
    ensures f.Stacked(g, more, done) && f.Stacked(g, more, done + {v})
  {
    if f.Frame? {
      StackStays(f.below, g, visited, done, more, v);
    }
  }

  lemma EdgeLeads<U, V>(g: Graph<U, V>, u: nat, c: U, v: nat)
    requires WellFormed(g) && IsEdge(g, u, c, v)
    ensures v < |g| && Leads(g, u, [c], v)
  {
    assert [c][1..] == [] && Leads(g, v, [], v);
  }

  /** A path leads from every node on the stack to the top. */
  lemma {:induction false} StackLeads<U(!new), V>(f: Frames<U>, g: Graph<U, V>, visited: set<nat>, done: set<nat>,
        v: nat) returns (w: seq<U>)
    requires WellFormed(g) && f.Stacked(g, visited, done) && f.Holds(v)
    ensures v < |g| && Leads(g, v, w, f.node)
  {
    w := [];
    if v != f.node {
      var s := StackLeads(f.below, g, visited, done, v);
      var c :| IsEdge(g, f.below.node, c, f.node);
      EdgeLeads(g, f.below.node, c, f.node);
      LeadsAfter(g, v, s, f.below.node, [c], f.node);
      w := s + [c];
    }
  }

  lemma {:induction false} BottomHeld<U(!new), V>(f: Frames<U>, g: Graph<U, V>, visited: set<nat>, done: set<nat>)
    requires f.Stacked(g, visited, done) && f.Frame?
    ensures f.Holds(0)
  {
    if f.below.Frame? {
      BottomHeld(f.below, g, visited, done);
    }
  }

  lemma TopLive<U(!new), V>(f: Frames<U>, g: Graph<U, V>, visited: set<nat>, done: set<nat>)
    requires WellFormed(g) && f.Stacked(g, visited, done) && f.Frame?
    ensures Live(g, f.node)
  {
    BottomHeld(f, g, visited, done);
    var w := StackLeads(f, g, visited, done, 0);
  }

  /** A circle can be gone round any number of times. */
  lemma {:induction false} Around<U(!new), V>(g: Graph<U, V>, v: nat, z: seq<U>, n: nat) returns (w: seq<U>)
    requires WellFormed(g) && v < |g| && z != [] && Leads(g, v, z, v)
    ensures Leads(g, v, w, v) && |w| >= n
  {
    w := [];
    if n > 0 {
      var s := Around(g, v, z, n - 1);
      LeadsAfter(g, v, z, v, s, v);
      w := z + s;
    }
  }

  lemma LeadsObserve<U, V>(g: Graph<U, V>, v: nat, w: seq<U>, u: nat)
    requires WellFormed(g) && v < |g| && Leads(g, v, w, u)
    ensures Observe(g, v, w).Some?
  {
    LeadsInside(g, v, w, u);
    ObserveAfter(g, v, w, u, []);
    assert w + [] == w;
  }

  lemma NoCircle<U(!new), V>(g: Graph<U, V>, v: nat, z: seq<U>)
    requires WellFormed(g) && Acyclic(g) && v < |g| && Live(g, v) && z != []
    ensures !Leads(g, v, z, v)
  {
    if Leads(g, v, z, v) {
      var n: nat :| Shallow(g, 0, n);
      var s :| Leads(g, 0, s, v);
      var w := Around(g, v, z, n + 1);
      LeadsAfter(g, 0, s, v, w, v);
      LeadsObserve(g, 0, s + w, v);
      assert false;
    }
  }

  /** A finished node: its children are finished and its signature is computed from theirs. */
  predicate Finished<U, V>(g: Graph<U, V>, sig: seq<nat>, hash: (bool, map<U, nat>) -> nat, done: set<nat>, v: nat)
    requires WellFormed(g) && |sig| == |g| && v < |g|
  {
    SignedNode(g, sig, hash, v) && forall c {:trigger g[v].edges[c]} :: c in g[v].edges ==> g[v].edges[c] in done
  }

  /** What the walk keeps in every graph: only live nodes are visited, and the others have no signature. */
  ghost predicate Stepping<U(!new), V>(g: Graph<U, V>, sig: seq<nat>, visited: set<nat>, done: set<nat>, f: Frames<U>)
    requires WellFormed(g) && |sig| == |g|
  {
    && f.Stacked(g, visited, done) && done <= visited
    && (forall v {:trigger v in visited} :: v in visited ==> v < |g| && Live(g, v) && (v in done || f.Holds(v)))
    && (forall v {:trigger sig[v]} :: 0 <= v < |g| && v !in done ==> sig[v] == 0)
  }

  ghost predicate AllFinished<U(!new), V>(g: Graph<U, V>, sig: seq<nat>, hash: (bool, map<U, nat>) -> nat,
        done: set<nat>)
    requires WellFormed(g) && |sig| == |g|
  {
    forall v {:trigger Finished(g, sig, hash, done, v)} :: 0 <= v < |g| && v in done ==> Finished(g, sig, hash, done, v)
  }

  /** When the top node is finished, its children are. */
  lemma ChildrenDone<U(!new), V>(g: Graph<U, V>, sig: seq<nat>, visited: set<nat>, done: set<nat>, f: Frames<U>)
    requires WellFormed(g) && Acyclic(g) && |sig| == |g| && Stepping(g, sig, visited, done, f) && f.Frame?
    requires f.todo == {}
    ensures forall c {:trigger g[f.node].edges[c]} :: c in g[f.node].edges ==> g[f.node].edges[c] in done
  {
    var v := f.node;
    forall c | c in g[v].edges ensures g[v].edges[c] in done {
      var u := g[v].edges[c];
      assert u in visited;
      if f.Holds(u) {
        var w := StackLeads(f, g, visited, done, u);
        EdgeLeads(g, v, c, u);
        LeadsAfter(g, u, w, v, [c], u);
        NoCircle(g, u, w + [c]);
      }
    }
  }

  lemma WalkFinish<U(!new), V>(g: Graph<U, V>, sig: seq<nat>, hash: (bool, map<U, nat>) -> nat, visited: set<nat>,
                               done: set<nat>, f: Frames<U>)
    requires WellFormed(g) && |sig| == |g| && Stepping(g, sig, visited, done, f) && f.Frame? && f.todo == {}
    ensures var sig' := sig[f.node := hash(g[f.node].isFinal, ChildSignatures(g, sig, f.node))];
      && Stepping(g, sig', visited, done + {f.node}, f.below)
      && (Acyclic(g) && AllFinished(g, sig, hash, done) ==> AllFinished(g, sig', hash, done + {f.node}))
  {
    var v := f.node;
    var sig' := sig[v := hash(g[v].isFinal, ChildSignatures(g, sig, v))];
    StackStays(f.below, g, visited, done, visited, v);
    if Acyclic(g) && AllFinished(g, sig, hash, done) {
      ChildrenDone(g, sig, visited, done, f);
      forall u | 0 <= u < |g| && u in done + {v} ensures Finished(g, sig', hash, done + {v}, u) {
        if u != v {
          assert Finished(g, sig, hash, done, u);
        }
        assert ChildSignatures(g, sig', u) == ChildSignatures(g, sig, u);
      }
    }
  }

  /** One label of the top frame is followed; its target is pushed when it is new. */
  lemma WalkLabel<U(!new), V>(g: Graph<U, V>, sig: seq<nat>, visited: set<nat>, done: set<nat>, f: Frames<U>, c: U)
    requires WellFormed(g) && |sig| == |g| && Stepping(g, sig, visited, done, f) && f.Frame? && c in f.todo
    requires c in g[f.node].edges
    ensures var u := g[f.node].edges[c];
      if u in visited then Stepping(g, sig, visited, done, f.(todo := f.todo - {c}))
      else Stepping(g, sig, visited + {u}, done, Frame(u, g[u].edges.Keys, f.(todo := f.todo - {c})))
  {
    var u := g[f.node].edges[c];
    var f' := f.(todo := f.todo - {c});
    StackStays(f.below, g, visited, done, visited + {u}, f.node);
    assert forall v :: f'.Holds(v) == f.Holds(v);
    assert Enters(g, f.node, u) by {
      assert IsEdge(g, f.node, c, u);
    }
    TopLive(f, g, visited, done);
    ChildLive(g, f.node, c);
    if u in visited {
      assert visited + {u} == visited;
    } else if f'.Holds(u) {
      HeldVisited(f', g, visited + {u}, done, u);
      HeldVisited(f, g, visited, done, u);
    }
  }

  lemma {:induction false} HeldVisited<U(!new), V>(f: Frames<U>, g: Graph<U, V>, visited: set<nat>, done: set<nat>,
        v: nat)
    requires f.Stacked(g, visited, done) && f.Holds(v)
    ensures v in visited
  {
    if v != f.node {
      HeldVisited(f.below, g, visited, done, v);
    }
  }

  lemma {:induction false} ClosedLive<U(!new), V>(g: Graph<U, V>, marked: set<nat>, v: nat, w: seq<U>, u: nat)
    requires WellFormed(g) && v < |g| && v in marked && Leads(g, v, w, u)
    requires forall x, c {:trigger g[x].edges[c]} ::
      0 <= x < |g| && x in marked && c in g[x].edges ==> g[x].edges[c] in marked
    ensures u in marked
    decreases |w|
  {
    if w != [] {
      ClosedLive(g, marked, g[v].edges[w[0]], w[1..], u);
    }
  }

  lemma WalkDone<U(!new), V>(g: Graph<U, V>, sig: seq<nat>, hash: (bool, map<U, nat>) -> nat, visited: set<nat>,
                             done: set<nat>, v: nat)
    requires WellFormed(g) && |sig| == |g| && Stepping(g, sig, visited, done, Empty) && AllFinished(g, sig, hash, done)
    requires 0 in visited && v < |g| && Live(g, v)
    ensures SignedNode(g, sig, hash, v)
  {
    var w :| Leads(g, 0, w, v);
    forall x, c {:trigger g[x].edges[c]} | 0 <= x < |g| && x in done && c in g[x].edges ensures g[x].edges[c] in done {
      assert Finished(g, sig, hash, done, x);
    }
    ClosedLive(g, done, 0, w, v);
    assert Finished(g, sig, hash, done, v);
  }

  /** In an acyclic graph every live node is signed from its children; nodes that no path enters get zero. */
  method ComputeSignatures<U(!new), V>(g: Graph<U, V>, hash: (bool, map<U, nat>) -> nat) returns (sig: seq<nat>)
    requires WellFormed(g)
    ensures |sig| == |g| && forall v {:trigger sig[v]} :: 0 <= v < |g| && !Live(g, v) ==> sig[v] == 0
    ensures Acyclic(g) ==> Signed(g, sig, hash)
  {
    sig := seq(|g|, _ => 0);
    var visited: set<nat> := {0};
    var frames := Frame(0, g[0].edges.Keys, Empty);
    ghost var done: set<nat> := {};
    ghost var all := set v: nat {:trigger g[v]} | v < |g|;
    assert Leads(g, 0, [], 0);
    while frames.Frame?
      invariant |sig| == |g| && 0 in visited && visited <= all && frames.Fits(g)
      invariant Stepping(g, sig, visited, done, frames)
      invariant Acyclic(g) ==> AllFinished(g, sig, hash, done)
      decreases all - visited, frames.Work()
    {
      var v := frames.node;
      if frames.todo != {} {
        var c :| c in frames.todo;
        WalkLabel(g, sig, visited, done, frames, c);
        frames := frames.(todo := frames.todo - {c});
        var child := g[v].edges[c];
        if child !in visited {
          visited := visited + {child};
          frames := Frame(child, g[child].edges.Keys, frames);
        }
      } else {
        WalkFinish(g, sig, hash, visited, done, frames);
        sig := sig[v := hash(g[v].isFinal, ChildSignatures(g, sig, v))];
        done := done + {v};
        frames := frames.below;
      }
    }
    if Acyclic(g) {
      forall v | 0 <= v < |g| && Live(g, v) ensures SignedNode(g, sig, hash, v) {
        WalkDone(g, sig, hash, visited, done, v);
      }
    }
  }
}
