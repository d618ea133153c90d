/**
 The position records of a suffix automaton. State `s` carries a list of records
 (source id, end); the ids that some record holds are the active sources.
 */
module SuffixSources {
  import opened Words
  import opened SuffixGraph

  type Positions = map<nat, seq<(nat, nat)>>

  predicate IsRecord(ps: Positions, s: nat, k: nat) {
    s in ps && k < |ps[s]|
  }

  ghost predicate Active(ps: Positions, id: nat) {
    exists s: nat, k: nat :: IsRecord(ps, s, k) && ps[s][k].0 == id
  }

  /** A record of source `id` sits at the state named by the text of the source. */
  predicate RecordFits<U(==)>(names: seq<seq<U>>, texts: seq<seq<U>>, s: nat, r: (nat, nat)) {
    s < |names| && r.0 < |texts| && r.1 == |texts[r.0]| && names[s] == texts[r.0]
  }

  /** Text `id` occurs in a text inserted before it. */
  ghost predicate OccursEarlier<U>(texts: seq<seq<U>>, id: nat)
    requires id < |texts|
  {
    exists j :: 0 <= j < id && IsFactor(texts[id], texts[j])
  }

  ghost predicate Recorded<U>(names: seq<seq<U>>, texts: seq<seq<U>>, ps: Positions) {
    && (forall s: nat, k: nat {:trigger ps[s][k]} :: IsRecord(ps, s, k) ==> RecordFits(names, texts, s, ps[s][k]))
    && (forall s: nat, k: nat, s': nat, k': nat {:trigger ps[s][k], ps[s'][k']} ::
          IsRecord(ps, s, k) && IsRecord(ps, s', k') && ps[s][k].0 == ps[s'][k'].0 ==> s == s' && k == k')
  }

  /** Whether the state of a source is proper depends on the earlier texts alone. */
  ghost predicate HomeKnown<U>(g: Graph<U>, texts: seq<seq<U>>, s: nat, id: nat)
    requires WellFormed(g)
  {
    s < |g| && id < |texts| && (Proper(g, s) <==> texts[id] == [] || !OccursEarlier(texts, id))
  }

  ghost predicate HomesKnown<U>(g: Graph<U>, texts: seq<seq<U>>, ps: Positions)
    requires WellFormed(g)
  {
    forall s: nat, k: nat {:trigger ps[s][k]} :: IsRecord(ps, s, k) ==> HomeKnown(g, texts, s, ps[s][k].0)
  }

  function AddRecord(ps: Positions, s: nat, r: (nat, nat)): (ps': Positions)
    ensures s in ps' && r in ps'[s]
  {
    ps[s := (if s in ps then ps[s] else []) + [r]]
  }

  /** Recording the newest text at state `s`. */
  lemma AddActive<U>(names: seq<seq<U>>, names': seq<seq<U>>, texts: seq<seq<U>>, text: seq<U>, ps: Positions, s: nat)
    requires Recorded(names, texts, ps)
    requires |names| <= |names'| && forall v :: 0 <= v < |names| ==> names'[v] == names[v]
    requires s < |names'| && names'[s] == text
    ensures Recorded(names', texts + [text], AddRecord(ps, s, (|texts|, |text|)))
    ensures forall id :: Active(AddRecord(ps, s, (|texts|, |text|)), id) <==> id == |texts| || Active(ps, id)
  {
    var ps' := AddRecord(ps, s, (|texts|, |text|));
    forall t: nat, k: nat | IsRecord(ps', t, k)
      ensures RecordFits(names', texts + [text], t, ps'[t][k])
      ensures (ps'[t][k] == (|texts|, |text|) && t == s && k == |ps'[s]| - 1) ||
        (IsRecord(ps, t, k) && ps'[t][k] == ps[t][k])
    {
    }
    forall t: nat, k: nat | IsRecord(ps, t, k) ensures IsRecord(ps', t, k) && ps'[t][k] == ps[t][k] {
    }
    assert IsRecord(ps', s, |ps'[s]| - 1) && ps'[s][|ps'[s]| - 1].0 == |texts|;
    forall id ensures Active(ps', id) <==> id == |texts| || Active(ps, id) {
      if Active(ps', id) {
        var t: nat, k: nat :| IsRecord(ps', t, k) && ps'[t][k].0 == id;
      }
      if Active(ps, id) {
        var t: nat, k: nat :| IsRecord(ps, t, k) && ps[t][k].0 == id;
        assert IsRecord(ps', t, k);
      }
    }
  }

  function DropRecord(ps: Positions, s: nat, k: nat): Positions
    requires IsRecord(ps, s, k)
  {
    var rest := ps[s][..k] + ps[s][k + 1..];
    if rest == [] then ps - {s} else ps[s := rest]
  }

  /** Where record `j` of the shortened list comes from, and the other way round. */
  lemma DroppedRecord(ps: Positions, s: nat, k: nat, t: nat, j: nat)
    requires IsRecord(ps, s, k)
    ensures IsRecord(DropRecord(ps, s, k), t, j) ==>
      var i := if t == s && j >= k then j + 1 else j;
      IsRecord(ps, t, i) && (t, i) != (s, k) && DropRecord(ps, s, k)[t][j] == ps[t][i]
    ensures IsRecord(ps, t, j) && (t, j) != (s, k) ==>
      var i := if t == s && j > k then j - 1 else j;
      IsRecord(DropRecord(ps, s, k), t, i) && DropRecord(ps, s, k)[t][i] == ps[t][j]
  {
  }

  /** Dropping the record of a source makes this source inactive and no other. */
  lemma DropActive<U>(names: seq<seq<U>>, texts: seq<seq<U>>, ps: Positions, s: nat, k: nat)
    requires Recorded(names, texts, ps) && IsRecord(ps, s, k)
    ensures Recorded(names, texts, DropRecord(ps, s, k))
    ensures forall id :: Active(DropRecord(ps, s, k), id) <==> Active(ps, id) && id != ps[s][k].0
  {
    var ps' := DropRecord(ps, s, k);
    forall t: nat, j: nat | IsRecord(ps', t, j) ensures RecordFits(names, texts, t, ps'[t][j]) {
      DroppedRecord(ps, s, k, t, j);
    }
    forall t: nat, j: nat, t': nat, j': nat | IsRecord(ps', t, j) && IsRecord(ps', t', j') &&
      ps'[t][j].0 == ps'[t'][j'].0
      ensures t == t' && j == j'
    {
      DroppedRecord(ps, s, k, t, j);
      DroppedRecord(ps, s, k, t', j');
    }
    forall id ensures Active(ps', id) <==> Active(ps, id) && id != ps[s][k].0 {
      if Active(ps', id) {
        var t: nat, j: nat :| IsRecord(ps', t, j) && ps'[t][j].0 == id;
        DroppedRecord(ps, s, k, t, j);
      }
      if Active(ps, id) && id != ps[s][k].0 {
        var t: nat, j: nat :| IsRecord(ps, t, j) && ps[t][j].0 == id;
        DroppedRecord(ps, s, k, t, j);
      }
    }
  }

  lemma AddHomes<U>(g: Graph<U>, h: Graph<U>, texts: seq<seq<U>>, text: seq<U>, ps: Positions, s: nat)
    requires WellFormed(g) && WellFormed(h) && HomesKnown(g, texts, ps)
    requires |g| <= |h| && forall v {:trigger Proper(h, v)} :: 0 <= v < |g| ==> Proper(h, v) == Proper(g, v)
    requires s < |h| && HomeKnown(h, texts + [text], s, |texts|)
    ensures HomesKnown(h, texts + [text], AddRecord(ps, s, (|texts|, |text|)))
  {
    var all, ps' := texts + [text], AddRecord(ps, s, (|texts|, |text|));
    forall t: nat, k: nat | IsRecord(ps', t, k) ensures HomeKnown(h, all, t, ps'[t][k].0) {
      if IsRecord(ps, t, k) {
        var id := ps[t][k].0;
        assert HomeKnown(g, texts, t, id) && all[id] == texts[id];
        assert OccursEarlier(all, id) <==> OccursEarlier(texts, id) by {
          assert forall j :: 0 <= j < id ==> all[j] == texts[j];
        }
      }
    }
  }

  lemma DropHomes<U>(g: Graph<U>, texts: seq<seq<U>>, ps: Positions, s: nat, k: nat)
    requires WellFormed(g) && HomesKnown(g, texts, ps) && IsRecord(ps, s, k)
    ensures HomesKnown(g, texts, DropRecord(ps, s, k))
  {
    var ps' := DropRecord(ps, s, k);
    forall t: nat, j: nat | IsRecord(ps', t, j) ensures HomeKnown(g, texts, t, ps'[t][j].0) {
      DroppedRecord(ps, s, k, t, j);
    }
  }

  /** Compaction keeps the records of the kept states, under their new numbers, and drops the others. */
  predicate Swept(ps: Positions, ps': Positions, kept: seq<nat>) {
    && (forall i :: i in ps' ==> i < |kept|)
    && (forall i {:trigger kept[i]} :: 0 <= i < |kept| ==> (i in ps' <==> kept[i] in ps))
    && (forall i {:trigger ps'[i]} :: i in ps' && i < |kept| && kept[i] in ps ==> ps'[i] == ps[kept[i]])
  }

  /** Exactly the sources stay active whose text is empty or did not occur in an earlier text. */
  lemma SweptActive<U>(g: Graph<U>, names: seq<seq<U>>, names': seq<seq<U>>, texts: seq<seq<U>>, ps: Positions,
                       ps': Positions, kept: seq<nat>)
    requires WellFormed(g) && |names| == |g| && Recorded(names, texts, ps) && HomesKnown(g, texts, ps)
    requires Swept(ps, ps', kept)
    requires forall v {:trigger v in kept} :: 0 <= v < |g| ==> (v in kept <==> Proper(g, v))
    requires forall i, j :: 0 <= i < j < |kept| ==> kept[i] != kept[j]
    requires |names'| == |kept| && forall i {:trigger names'[i]} ::
      0 <= i < |kept| ==> kept[i] < |g| && names'[i] == names[kept[i]]
    ensures Recorded(names', texts, ps')
    ensures forall id: nat {:trigger Active(ps, id)} {:trigger Active(ps', id)} ::
      Active(ps', id) <==> Active(ps, id) && id < |texts| && (texts[id] == [] || !OccursEarlier(texts, id))
    ensures forall i: nat, k: nat {:trigger ps'[i][k]} :: IsRecord(ps', i, k) ==>
      ps'[i][k].0 < |texts| && (texts[ps'[i][k].0] == [] || !OccursEarlier(texts, ps'[i][k].0))
  {
    forall i: nat, k: nat | IsRecord(ps', i, k)
      ensures i < |kept| && IsRecord(ps, kept[i], k) && ps'[i][k] == ps[kept[i]][k]
      ensures RecordFits(names', texts, i, ps'[i][k])
      ensures texts[ps'[i][k].0] == [] || !OccursEarlier(texts, ps'[i][k].0)
    {
      assert i in ps';
      assert kept[i] in kept && RecordFits(names, texts, kept[i], ps[kept[i]][k]) && names'[i] == names[kept[i]];
      assert HomeKnown(g, texts, kept[i], ps[kept[i]][k].0);
    }
    forall id: nat
      ensures Active(ps', id) <==> Active(ps, id) && id < |texts| && (texts[id] == [] || !OccursEarlier(texts, id))
    {
      if Active(ps', id) {
        var i: nat, k: nat :| IsRecord(ps', i, k) && ps'[i][k].0 == id;
        assert IsRecord(ps, kept[i], k);
      }
      if Active(ps, id) && id < |texts| && (texts[id] == [] || !OccursEarlier(texts, id)) {
        var s: nat, k: nat :| IsRecord(ps, s, k) && ps[s][k].0 == id;
        assert HomeKnown(g, texts, s, id);
        assert s in kept;
        var i :| 0 <= i < |kept| && kept[i] == s;
        assert IsRecord(ps', i, k);
      }
    }
  }

  // ---- Counting sources ----

  ghost function ActiveIds(ps: Positions, n: nat): set<nat> {
    set id: nat | id < n && Active(ps, id)
  }

  /** The active sources that a compaction drops. */
  ghost function Endangered<U>(ps: Positions, texts: seq<seq<U>>): set<nat> {
    set id: nat | id < |texts| && Active(ps, id) && texts[id] != [] && OccursEarlier(texts, id)
  }

  lemma CountAdded<U>(names: seq<seq<U>>, ps: Positions, ps': Positions, texts: seq<seq<U>>)
    requires Recorded(names, texts, ps)
    requires forall i: nat {:trigger Active(ps', i)} :: Active(ps', i) <==> i == |texts| || Active(ps, i)
    ensures |ActiveIds(ps', |texts| + 1)| == |ActiveIds(ps, |texts|)| + 1
  {
    var ids := ActiveIds(ps, |texts|);
    assert |texts| !in ids;
    assert ActiveIds(ps', |texts| + 1) == ids + {|texts|};
  }

  lemma CountDropped(ps: Positions, ps': Positions, n: nat, id: nat)
    requires id < n && Active(ps, id)
    requires forall i: nat {:trigger Active(ps', i)} :: Active(ps', i) <==> Active(ps, i) && i != id
    ensures |ActiveIds(ps', n)| == |ActiveIds(ps, n)| - 1
  {
    assert ActiveIds(ps', n) == ActiveIds(ps, n) - {id};
  }

  lemma CountLost<U>(ps: Positions, ps': Positions, texts: seq<seq<U>>)
    requires forall id: nat {:trigger Active(ps', id)} ::
      Active(ps', id) <==> Active(ps, id) && id < |texts| && (texts[id] == [] || !OccursEarlier(texts, id))
    ensures |ActiveIds(ps, |texts|)| == |ActiveIds(ps', |texts|)| + |Endangered(ps, texts)|
  {
    assert ActiveIds(ps, |texts|) == ActiveIds(ps', |texts|) + Endangered(ps, texts);
    assert ActiveIds(ps', |texts|) !! Endangered(ps, texts);
  }
}
