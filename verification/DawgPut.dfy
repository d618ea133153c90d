/** Inserting a word in one pass from the root: what the insertion in three passes amounts to. */
module DawgPut {
  import opened Words
  import opened DawgGraph
  import opened DawgRefCounts

  /** The edge labelled `c` from `v` leads to a node of its own: a shared child is copied. */
  function Unshared<U, V>(g: Graph<U, V>, v: nat, c: U): (h: Graph<U, V>)
    requires WellFormed(g) && v < |g| && c in g[v].edges
    ensures WellFormed(h) && |g| <= |h| <= |g| + 1 && c in h[v].edges
  {
    var x := g[v].edges[c];
    if InDegree(g, x, |g|) <= 1 then g
    else (g + [g[x]])[v := g[v].(edges := g[v].edges[c := |g|])]
  }

  /** A new node, entered by a new edge labelled `c` from `v`. */
  function Attached<U, V>(g: Graph<U, V>, v: nat, c: U): (h: Graph<U, V>)
    requires WellFormed(g) && v < |g|
    ensures WellFormed(h) && |h| == |g| + 1 && c in h[v].edges
  {
    (g + [Node(map[], false, None)])[v := g[v].(edges := g[v].edges[c := |g|])]
  }

  /** The rest of a word is put below `v`, with its value. */
  function Put<U, V>(g: Graph<U, V>, v: nat, units: seq<U>, value: Option<V>): (h: Graph<U, V>)
    requires WellFormed(g) && v < |g|
    ensures WellFormed(h)
    decreases |units|
  {
    if units == [] then g[v := g[v].(isFinal := true, value := value)]
    else
      var h := if units[0] in g[v].edges then Unshared(g, v, units[0]) else Attached(g, v, units[0]);
      Put(h, h[v].edges[units[0]], units[1..], value)
  }
}
