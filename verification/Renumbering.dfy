/** What both graphs share when unreachable nodes are dropped: listing targets, and numbering what is kept. */
module Renumbering {

  /** The targets of the edges of a node. */
  method Targets<U(==)>(edges: map<U, nat>) returns (targets: seq<nat>)
    ensures forall t: nat :: t in targets <==> exists c :: c in edges && edges[c] == t
  {
    targets := [];
    var labels := edges.Keys;
    while labels != {}
      invariant labels <= edges.Keys
      invariant forall t: nat :: t in targets <==> exists c :: c in edges && c !in labels && edges[c] == t
    {
      var c :| c in labels;
      targets := targets + [edges[c]];
      labels := labels - {c};
    }
  }

  /** Numbers the reachable nodes out of `n` consecutively, in their order. */
  method Number(n: nat, reachable: set<nat>) returns (kept: seq<nat>, index: seq<nat>)
    requires 0 in reachable && forall v :: v in reachable ==> v < n
    ensures |index| == n && 0 < |kept| <= n && kept[0] == 0 && index[0] == 0
    ensures forall v :: v in reachable ==> index[v] < |kept| && kept[index[v]] == v
    ensures forall i :: 0 <= i < |kept| ==> kept[i] in reachable && kept[i] < n && index[kept[i]] == i
    ensures forall i, j :: 0 <= i < j < |kept| ==> kept[i] < kept[j]
  {
    kept, index := [], seq(n, _ => 0);
    for v := 0 to n
      invariant |index| == n && (v > 0 ==> |kept| > 0 && kept[0] == 0) && |kept| <= v
      invariant forall u :: u in reachable && u < v ==> index[u] < |kept| && kept[index[u]] == u
      invariant forall i :: 0 <= i < |kept| ==> kept[i] in reachable && kept[i] < v && index[kept[i]] == i
      invariant forall i, j :: 0 <= i < j < |kept| ==> kept[i] < kept[j]
    {
      if v in reachable {
        index := index[v := |kept|];
        kept := kept + [v];
      }
    }
  }
}
