/** Two runs of the dictionary: minimizing can leave equal nodes apart, and compacting reports too much. */
module DawgRuns {
  import opened Words
  import opened DawgGraph
  import opened DawgEdit
  import opened DawgMinimal
  import opened DawgReduced
  import opened DawgTidy
  import opened DawgStored
  import opened DawgRefCounts
  import opened DawgPut
  import opened DynamicDawg

  type Contents = map<string, Option<bool>>

  /** What the nodes of a dictionary without values keep. */
  ghost predicate Kept(g: Graph<char, bool>, contents: Contents) {
    Sound(g) && Tidy(g) && Holds(g, contents) && ValueFree(g)
  }

  const TWO: Contents := map["ap" := None, "bp" := None]

  /** The words accepted after `s` are those that complete it to a stored word. */
  lemma AcceptedAfter(g: Graph<char, bool>, contents: Contents, s: string, v: nat, w: string)
    requires Kept(g, contents) && Leads(g, 0, s, v) && v < |g|
    ensures Accepts(g, v, w) <==> s + w in contents
  {
    ObserveAfter(g, 0, s, v, w);
    assert Stored(g, 0, s + w) == if s + w in contents then Some(contents[s + w]) else None;
  }

  /** A prefix of a stored word leads somewhere. */
  lemma PrefixLeads(g: Graph<char, bool>, contents: Contents, s: string, w: string) returns (v: nat)
    requires Kept(g, contents) && s + w in contents
    ensures v < |g| && Leads(g, 0, s, v)
  {
    assert Stored(g, 0, s + w) == Some(contents[s + w]);
    PrefixObserved(g, 0, s + w, |s|);
    assert (s + w)[..|s|] == s;
    v := ObservedNode(g, 0, s);
  }

  lemma {:induction false} ObservedNode(g: Graph<char, bool>, v: nat, w: string) returns (y: nat)
    requires WellFormed(g) && v < |g| && Observe(g, v, w).Some?
    ensures y < |g| && Leads(g, v, w, y)
    decreases |w|
  {
    y := v;
    if w != [] {
      y := ObservedNode(g, g[v].edges[w[0]], w[1..]);
    }
  }

  /** Putting one unit under a new label. */
  lemma PutUnit(g: Graph<char, bool>, v: nat, c: char)
    requires WellFormed(g) && v < |g| && c !in g[v].edges
    ensures Put(g, v, [c], None) == (g + [Node(map[], true, None)])[v := g[v].(edges := g[v].edges[c := |g|])]
  {
    assert [c][1..] == [];
    assert Put(g, v, [c], None) == Put(Attached(g, v, c), |g|, [], None);
  }

  /** `h` is `g` with two nodes more: one below the root under `c`, and a final one below that under `e`. */
  predicate TwoMore(g: Graph<char, bool>, h: Graph<char, bool>, c: char, e: char)
    requires WellFormed(g)
  {
    && |h| == |g| + 2 && h[0] == g[0].(edges := g[0].edges[c := |g|])
    && (forall v :: 0 < v < |g| ==> h[v] == g[v])
    && h[|g|] == Node(map[e := |g| + 1], false, None) && h[|g| + 1] == Node(map[], true, None)
  }

  /** Putting a word of two units under a new label of the root. */
  lemma PutTwo(g: Graph<char, bool>, c: char, e: char)
    requires WellFormed(g) && c !in g[0].edges
    ensures TwoMore(g, Put(g, 0, [c, e], None), c, e)
  {
    var h := Attached(g, 0, c);
    assert [c, e][1..] == [e];
    PutUnit(h, |g|, e);
  }

  /** The trie of two words with different first units. */
  lemma FirstTwo(a: char, b: char, p: char)
    requires a != b
    ensures var g := Put(Put([Node<char, bool>.Node(map[], false, None)], 0, [a, p], None), 0, [b, p], None);
      Upward(g) && ValueFree(g)
  {
    var g: Graph<char, bool> := [Node(map[], false, None)];
    var h := Put(g, 0, [a, p], None);
    PutTwo(g, a, p);
    StillTrie(g, h, a, p);
    PutTwo(h, b, p);
    StillTrie(h, Put(h, 0, [b, p], None), b, p);
  }

  lemma StillTrie(g: Graph<char, bool>, h: Graph<char, bool>, c: char, e: char)
    requires WellFormed(g) && Upward(g) && ValueFree(g) && TwoMore(g, h, c, e)
    ensures Upward(h) && ValueFree(h)
  {
  }

  /** After minimizing there is one node below "a" and "b". */
  lemma OneBelow(g: Graph<char, bool>) returns (x: nat)
    requires Kept(g, TWO) && Minimal(g)
    ensures 0 < x < |g| && IsEdge(g, 0, 'a', x) && IsEdge(g, 0, 'b', x) && 'p' in g[x].edges && 'd' !in g[0].edges
  {
    assert "a" + "p" == "ap" && "b" + "p" == "bp";
    x := PrefixLeads(g, TWO, "a", "p");
    var y := PrefixLeads(g, TWO, "b", "p");
    assert "a"[1..] == "" && "b"[1..] == "";
    forall w ensures Accepts(g, x, w) == Accepts(g, y, w) {
      AcceptedAfter(g, TWO, "a", x, w);
      AcceptedAfter(g, TWO, "b", y, w);
      assert ("a" + w)[0] == 'a' && ("a" + w)[1..] == w && ("b" + w)[0] == 'b' && ("b" + w)[1..] == w;
      assert "ap"[1..] == "p" && "bp"[1..] == "p";
      assert "a" + w in TWO <==> w == "p";
      assert "b" + w in TWO <==> w == "p";
    }
    assert SameLanguage(g, x, y);
    AcceptedAfter(g, TWO, "a", x, "p");
    assert !IsEdge(g, 0, 'a', 0);
    PathsArePrefixes(g, TWO, "d");
    assert "d"[1..] == "" && Observe(g, 0, "d").None?;
  }

  /** Adds a word without minimizing. */
  method Add(d: Dawg<char, bool>, word: string)
    requires d.Valid() && word !in d.contents
    modifies d
    ensures d.Valid() && d.nodes == Put(old(d.nodes), 0, word, None) && d.contents == old(d.contents)[word := None]
  {
    var added := d.Insert(word, false);
  }

  method AddTwo(hash: (bool, map<char, nat>) -> nat) returns (d: Dawg<char, bool>)
    ensures fresh(d) && d.Valid() && d.contents == TWO && Upward(d.nodes) && ValueFree(d.nodes)
  {
    d := new Dawg(hash);
    Add(d, "ap");
    Add(d, "bp");
    FirstTwo('a', 'b', 'p');
    assert d.contents == TWO;
  }

  /** Both runs start with these words, minimized. */
  method Start(hash: (bool, map<char, nat>) -> nat) returns (d: Dawg<char, bool>)
    ensures fresh(d) && d.Valid() && Kept(d.nodes, TWO) && d.contents == TWO && Minimal(d.nodes) && AllLive(d.nodes)
  {
    d := AddTwo(hash);
    UpwardAligned(d.nodes);
    var removed := d.Minimize();
  }

  const FIVE: Contents := TWO["b" := None]["dp" := None]["d" := None]

  /** Inserting a word of one unit copies the node below it: the copy comes last, but its child does not. */
  lemma CopyBelow(g: Graph<char, bool>, x: nat, a: char, b: char)
    requires WellFormed(g) && 0 < x < |g| && a != b && IsEdge(g, 0, a, x) && IsEdge(g, 0, b, x)
    ensures Put(g, 0, [b], None) == (g + [Node(g[x].edges, true, None)])[0 := g[0].(edges := g[0].edges[b := |g|])]
  {
    SharedCopied(g, x, a, b);
    assert [b][1..] == [];
    assert Put(g, 0, [b], None) == Put(Unshared(g, 0, b), |g|, [], None);
  }

  lemma SharedCopied(g: Graph<char, bool>, x: nat, a: char, b: char)
    requires WellFormed(g) && 0 < x < |g| && a != b && IsEdge(g, 0, a, x) && IsEdge(g, 0, b, x)
    ensures Unshared(g, 0, b) == (g + [g[x]])[0 := g[0].(edges := g[0].edges[b := |g|])]
  {
    TwoLabels(g[0].edges, x, a, b);
    EdgeCounts(g, x, 0, |g|);
  }

  /** Inserting a word of one unit whose node is not shared only makes the node final. */
  lemma FinalBelow(g: Graph<char, bool>, y: nat, d: char)
    requires WellFormed(g) && 0 < y < |g| && IsEdge(g, 0, d, y) && SoleEntry(g, y, 0, d)
    ensures Put(g, 0, [d], None) == g[y := g[y].(isFinal := true, value := None)]
  {
    SoleIsCount(g, y, 0, d, |g|);
    assert [d][1..] == [];
    assert Put(g, 0, [d], None) == Put(g, y, [], None);
  }

  /** Only the root enters a node that was just put below it. */
  lemma NewIsSole(g: Graph<char, bool>, h: Graph<char, bool>, c: char, e: char)
    requires WellFormed(g) && c !in g[0].edges && TwoMore(g, h, c, e)
    ensures IsEdge(h, 0, c, |g|) && SoleEntry(h, |g|, 0, c)
  {
    forall a: nat, d | IsEdge(h, a, d, |g|) ensures a == 0 && d == c {
    }
  }

  /** Node `n` below "b" has the edges of `x`, node `n + 1` below "d" leads to the last node. */
  predicate Misaligned(g: Graph<char, bool>, x: nat, h: Graph<char, bool>, b: char, d: char, p: char)
    requires x < |g|
  {
    && |h| == |g| + 3 && IsEdge(h, 0, b, |g|) && IsEdge(h, 0, d, |g| + 1)
    && h[|g|].edges == g[x].edges && h[|g| + 1].edges == map[p := |g| + 2]
  }

  /** Before the second minimization: the copy below "b" comes after its child, the new node below "d" does not. */
  lemma BeforeSecond(g: Graph<char, bool>, x: nat, a: char, b: char, d: char, p: char)
    requires WellFormed(g) && 0 < x < |g| && a != b && b != d
    requires IsEdge(g, 0, a, x) && IsEdge(g, 0, b, x) && d !in g[0].edges
    ensures var h := Put(Put(Put(g, 0, [b], None), 0, [d, p], None), 0, [d], None);
      Misaligned(g, x, h, b, d, p) && (ValueFree(g) ==> ValueFree(h))
  {
    CopyBelow(g, x, a, b);
    var g1 := Put(g, 0, [b], None);
    PutTwo(g1, d, p);
    var g2 := Put(g1, 0, [d, p], None);
    NewIsSole(g1, g2, d, p);
    FinalBelow(g2, |g1|, d);
    Combined(g, x, g1, g2, Put(g2, 0, [d], None), b, d, p);
  }

  lemma Combined(g: Graph<char, bool>, x: nat, g1: Graph<char, bool>, g2: Graph<char, bool>, h: Graph<char, bool>,
                 b: char, d: char, p: char)
    requires WellFormed(g) && 0 < x < |g| && b != d && d !in g[0].edges
    requires g1 == (g + [Node(g[x].edges, true, None)])[0 := g[0].(edges := g[0].edges[b := |g|])]
    requires WellFormed(g1) && TwoMore(g1, g2, d, p)
    requires h == g2[|g1| := g2[|g1|].(isFinal := true, value := None)]
    ensures Misaligned(g, x, h, b, d, p) && (ValueFree(g) ==> ValueFree(h))
  {
  }

  lemma NotAligned(g: Graph<char, bool>, h: Graph<char, bool>, x: nat)
    requires WellFormed(g) && 0 < x < |g| && 'p' in g[x].edges && Kept(h, FIVE)
    requires Misaligned(g, x, h, 'b', 'd', 'p')
    ensures !Aligned(h)
  {
    var n := |g|;
    assert "b"[1..] == "" && "d"[1..] == "" && Leads(h, 0, "b", n) && Leads(h, 0, "d", n + 1);
    forall w ensures Accepts(h, n, w) == Accepts(h, n + 1, w) {
      AcceptedAfter(h, FIVE, "b", n, w);
      AcceptedAfter(h, FIVE, "d", n + 1, w);
      assert ("b" + w)[0] == 'b' && ("b" + w)[1..] == w && ("d" + w)[0] == 'd' && ("d" + w)[1..] == w;
      assert "b" + "" == "b" && "b" + "p" == "bp" && "d" + "" == "d" && "d" + "p" == "dp";
      assert "b"[1..] == "" && "bp"[1..] == "p" && "d"[1..] == "" && "dp"[1..] == "p";
      assert "b" + w in FIVE <==> w == "" || w == "p";
      assert "d" + w in FIVE <==> w == "" || w == "p";
    }
    assert Twins(h, n, n + 1);
    assert !Twins(h, n + 1, n + 2) by {
      assert Leads(h, n + 1, "p", n + 2) && Leads(h, 0, "dp", n + 2);
      AcceptedAfter(h, FIVE, "d", n + 1, "p");
      AcceptedAfter(h, FIVE, "dp", n + 2, "p");
      assert "d" + "p" == "dp" && |"dp" + "p"| == 3;
      assert Accepts(h, n + 1, "p") && !Accepts(h, n + 2, "p");
    }
    assert LastTwin(h, n + 1);
    assert g[x].edges['p'] < n;
    assert !ChildrenAligned(h, n, n + 1) by {
      assert h[n].edges['p'] < n && h[n + 1].edges['p'] == n + 2;
    }
  }

  /** Only insertions and two minimizations, and two nodes with one right language remain. */
  method MinimizeMissesPair(hash: (bool, map<char, nat>) -> nat) returns (d: Dawg<char, bool>)
    ensures fresh(d) && d.Valid() && d.contents == FIVE && ValueFree(d.nodes) && !Minimal(d.nodes)
  {
    d := Start(hash);
    ghost var g := d.nodes;
    ghost var x := OneBelow(g);
    BeforeSecond(g, x, 'a', 'b', 'd', 'p');
    AddThree(d);
    NotAligned(g, d.nodes, x);
    var removed := d.Minimize();
  }

  method AddThree(d: Dawg<char, bool>)
    requires d.Valid() && d.contents == TWO
    modifies d
    ensures d.Valid() && d.contents == FIVE
    ensures d.nodes == Put(Put(Put(old(d.nodes), 0, "b", None), 0, "dp", None), 0, "d", None)
  {
    Different();
    Add(d, "b");
    AddLast(d);
  }

  method AddLast(d: Dawg<char, bool>)
    requires d.Valid() && d.contents == TWO["b" := None]
    modifies d
    ensures d.Valid() && d.contents == FIVE
    ensures d.nodes == Put(Put(old(d.nodes), 0, "dp", None), 0, "d", None)
  {
    Different();
    Add(d, "dp");
    Add(d, "d");
  }

  /** The five words are different. */
  lemma Different()
    ensures "b" !in TWO && "dp" !in TWO["b" := None] && "d" !in TWO["b" := None]["dp" := None]
  {
    assert |"b"| == 1 && |"d"| == 1 && |"ap"| == 2 && |"bp"| == 2 && |"dp"| == 2;
    assert "b"[0] != "d"[0] && "ap"[0] != "dp"[0] && "bp"[0] != "dp"[0];
  }

  // ---- What compacting reports ----

  const ONE_UNIT: Contents := map["a" := None, "b" := None]

  /** The trie of "a" and "b". */
  lemma FirstUnits()
    ensures var g := Put(Put([Node<char, bool>.Node(map[], false, None)], 0, "a", None), 0, "b", None);
      Upward(g) && ValueFree(g)
  {
    var g0: Graph<char, bool> := [Node(map[], false, None)];
    PutUnit(g0, 0, 'a');
    PutUnit(Put(g0, 0, "a", None), 0, 'b');
  }

  /** Every node but the root is below "a", since the nodes below "a" and "b" are one. */
  lemma BelowOne(g: Graph<char, bool>, v: nat)
    requires Kept(g, ONE_UNIT) && Minimal(g) && AllLive(g) && 0 < v < |g|
    ensures 'a' in g[0].edges && v == g[0].edges['a']
  {
    assert "a" + "" == "a" && "b" + "" == "b";
    var x := PrefixLeads(g, ONE_UNIT, "a", "");
    var y := PrefixLeads(g, ONE_UNIT, "b", "");
    assert "a"[1..] == "" && "b"[1..] == "";
    forall w ensures Accepts(g, x, w) == Accepts(g, y, w) {
      AcceptedAfter(g, ONE_UNIT, "a", x, w);
      AcceptedAfter(g, ONE_UNIT, "b", y, w);
      assert ("a" + w)[1..] == w && ("b" + w)[1..] == w;
    }
    assert SameLanguage(g, x, y);
    assert Live(g, v);
    var w :| Leads(g, 0, w, v);
    ObserveAfter(g, 0, w, v, []);
    assert w + [] == w;
    PathsArePrefixes(g, ONE_UNIT, w);
    UnitPrefix(w);
  }

  lemma UnitPrefix(w: string)
    ensures w in Prefixes(ONE_UNIT) <==> w == "" || w == "a" || w == "b"
  {
    if w in Prefixes(ONE_UNIT) && w != "" {
      var z, k :| z in ONE_UNIT && 0 <= k <= |z| && w == z[..k];
      assert k == 1 && w == z;
    }
    assert "a"[..1] == "a" && "b"[..1] == "b";
  }

  lemma UnitPrefixes()
    ensures |Prefixes(ONE_UNIT)| == 3
  {
    forall w ensures w in Prefixes(ONE_UNIT) <==> w == "" || w == "a" || w == "b" {
      UnitPrefix(w);
    }
    assert Prefixes(ONE_UNIT) == {"", "a", "b"};
    assert |""| == 0 && "a"[0] != "b"[0];
    ThreeMembers("", "a", "b");
  }

  lemma ThreeMembers<T>(x: T, y: T, z: T)
    requires x != y && x != z && y != z
    ensures |{x, y, z}| == 3
  {
  }

  lemma TwoNodes(g: Graph<char, bool>)
    requires Kept(g, ONE_UNIT) && Minimal(g) && AllLive(g)
    ensures |g| == 2
  {
    assert "a" + "" == "a";
    var x := PrefixLeads(g, ONE_UNIT, "a", "");
    assert "a"[1..] == "" && !IsEdge(g, 0, 'a', 0);
    if |g| > 2 {
      BelowOne(g, 1);
      BelowOne(g, 2);
    }
  }

  method AddUnits(hash: (bool, map<char, nat>) -> nat) returns (d: Dawg<char, bool>)
    ensures fresh(d) && d.Valid() && d.contents == ONE_UNIT && Upward(d.nodes) && ValueFree(d.nodes)
  {
    d := new Dawg(hash);
    Add(d, "a");
    Add(d, "b");
    FirstUnits();
    assert d.contents == ONE_UNIT;
  }

  /** A minimal dictionary is compacted: no node is removed, but one is reported. */
  method CompactOverReports(hash: (bool, map<char, nat>) -> nat) returns (before: nat, after: nat, reported: nat)
    ensures before == after == 2 && reported == 1
  {
    var d := AddUnits(hash);
    UpwardAligned(d.nodes);
    var removed := d.Minimize();
    TwoNodes(d.nodes);
    before := |d.nodes|;
    reported := Compacted(d);
    after := |d.nodes|;
    UnitPrefixes();
  }

  method Compacted(d: Dawg<char, bool>) returns (reported: nat)
    requires d.Valid() && d.contents == ONE_UNIT && ValueFree(d.nodes)
    modifies d
    ensures |d.nodes| == 2
    ensures reported == (if old(|d.nodes|) > 2 then old(|d.nodes|) - 2 else 0) + |Prefixes(ONE_UNIT)| - 2
  {
    reported := d.Compact();
    TwoNodes(d.nodes);
  }
}
