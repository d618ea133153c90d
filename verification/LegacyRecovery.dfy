/**
 What reconciling does to each record, told by the records alone. A segment of the legacy kind
 keeps its records without a rank, in the order of their LSNs.
 */
module LegacyRecovery {
  import opened Words
  import opened SortedLists
  import opened WriteLog
  import opened Recovery

  /** What `Reconcile` returns. */
  ghost predicate ReconciledTo(recs: Survivors, loaded: bool, checkpoint: nat, regimeOf: nat -> RankRegime,
                               out: seq<Publication>) {
    Sorted(out) && forall p :: p in out <==> ReplayedBy(recs, loaded, checkpoint, regimeOf, |recs|, p)
  }

  /** The image does not cover the record. */
  predicate Uncovered(loaded: bool, checkpoint: nat, lsn: nat) {
    loaded && checkpoint > 0 ==> lsn > checkpoint
  }

  /** Record `j` ranks `lsn`. */
  predicate Ranks(recs: Survivors, j: nat, lsn: nat) {
    j < |recs| && recs[j].1.CommitRank? && recs[j].1.dataLsn == lsn
  }

  ghost predicate Unranked(recs: Survivors, lsn: nat) {
    forall j: nat :: !Ranks(recs, j, lsn)
  }

  lemma {:induction false} RankInUnranked(recs: Survivors, n: nat, lsn: nat)
    requires n <= |recs| && forall j: nat :: j < n ==> !Ranks(recs, j, lsn)
    ensures RankIn(recs, n, lsn) == None
  {
    if n > 0 {
      assert !Ranks(recs, n - 1, lsn);
      RankInUnranked(recs, n - 1, lsn);
    }
  }

  lemma {:induction false} RankInLast(recs: Survivors, n: nat, lsn: nat, j: nat)
    requires j < n <= |recs| && Ranks(recs, j, lsn) && forall k: nat :: j < k < n ==> !Ranks(recs, k, lsn)
    ensures RankIn(recs, n, lsn) == Some(recs[j].1.generation)
  {
    if j < n - 1 {
      assert !Ranks(recs, n - 1, lsn);
      RankInLast(recs, n - 1, lsn, j);
    }
  }

  lemma {:induction false} LastRank(recs: Survivors, n: nat, lsn: nat, j: nat) returns (k: nat)
    requires j < n <= |recs| && Ranks(recs, j, lsn)
    ensures k < n && Ranks(recs, k, lsn) && forall i: nat :: k < i < n ==> !Ranks(recs, i, lsn)
    decreases n
  {
    if Ranks(recs, n - 1, lsn) {
      k := n - 1;
    } else {
      k := LastRank(recs, n - 1, lsn, j);
    }
  }

  // ---- Which records are replayed ----

  /** A data record is replayed exactly if it is uncovered, and ranked or in a legacy segment; and then once. */
  lemma ReplayedExactly(recs: Survivors, loaded: bool, checkpoint: nat, regimeOf: nat -> RankRegime,
                        out: seq<Publication>, i: nat)
    requires DistinctLsns(recs) && ReconciledTo(recs, loaded, checkpoint, regimeOf, out)
    requires i < |recs| && recs[i].1.Data?
    ensures (exists k :: 0 <= k < |out| && out[k].lsn == recs[i].0) <==>
      Uncovered(loaded, checkpoint, recs[i].0) && (regimeOf(recs[i].0) == Owned || !Unranked(recs, recs[i].0))
    ensures forall k, m :: 0 <= k < m < |out| ==> out[k].lsn != recs[i].0 || out[m].lsn != recs[i].0
  {
    var lsn := recs[i].0;
    if k :| 0 <= k < |out| && out[k].lsn == lsn {
      var j := RecordOf(recs, loaded, checkpoint, regimeOf, out, k);
      assert j == i;
      if Unranked(recs, lsn) {
        RankInUnranked(recs, |recs|, lsn);
      }
    }
    if Uncovered(loaded, checkpoint, lsn) && (regimeOf(lsn) == Owned || !Unranked(recs, lsn)) {
      var p := StampOf(recs, loaded, checkpoint, regimeOf, i);
      assert p in out;
    }
    forall k, m | 0 <= k < m < |out| && out[k].lsn == lsn && out[m].lsn == lsn ensures false {
      OneStamp(recs, loaded, checkpoint, regimeOf, out, k, m);
    }
  }

  lemma OneStamp(recs: Survivors, loaded: bool, checkpoint: nat, regimeOf: nat -> RankRegime, out: seq<Publication>,
                 k: nat, m: nat)
    requires DistinctLsns(recs) && ReconciledTo(recs, loaded, checkpoint, regimeOf, out) && k < m < |out|
    ensures out[k].lsn != out[m].lsn
  {
    var i := RecordOf(recs, loaded, checkpoint, regimeOf, out, k);
    var j := RecordOf(recs, loaded, checkpoint, regimeOf, out, m);
    assert Earlier(out[k], out[m]);
  }

  /** What is replayed is an uncovered data record. */
  lemma RecordOf(recs: Survivors, loaded: bool, checkpoint: nat, regimeOf: nat -> RankRegime, out: seq<Publication>,
                 k: nat) returns (i: nat)
    requires ReconciledTo(recs, loaded, checkpoint, regimeOf, out) && k < |out|
    ensures i < |recs| && recs[i] == (out[k].lsn, Data(out[k].write)) && Uncovered(loaded, checkpoint, out[k].lsn)
    ensures Stamped(recs, loaded, checkpoint, regimeOf, i, out[k])
  {
    assert out[k] in out;
    i :| 0 <= i < |recs| && Stamped(recs, loaded, checkpoint, regimeOf, i, out[k]);
  }

  lemma StampOf(recs: Survivors, loaded: bool, checkpoint: nat, regimeOf: nat -> RankRegime, i: nat)
    returns (p: Publication)
    requires i < |recs| && recs[i].1.Data? && Uncovered(loaded, checkpoint, recs[i].0)
    requires regimeOf(recs[i].0) == Owned || !Unranked(recs, recs[i].0)
    ensures p.lsn == recs[i].0 && ReplayedBy(recs, loaded, checkpoint, regimeOf, |recs|, p)
  {
    var lsn := recs[i].0;
    if Unranked(recs, lsn) {
      RankInUnranked(recs, |recs|, lsn);
      p := Publication(lsn, lsn, recs[i].1.write);
    } else {
      var j: nat :| Ranks(recs, j, lsn);
      var k := LastRank(recs, |recs|, lsn, j);
      RankInLast(recs, |recs|, lsn, k);
      p := Publication(lsn, recs[k].1.generation, recs[i].1.write);
    }
    assert Stamped(recs, loaded, checkpoint, regimeOf, i, p);
  }

  /** The place in the order: the generation of the last rank, or the LSN where there is none. */
  lemma OrderedBy(recs: Survivors, loaded: bool, checkpoint: nat, regimeOf: nat -> RankRegime, out: seq<Publication>,
                  k: nat)
    requires ReconciledTo(recs, loaded, checkpoint, regimeOf, out) && k < |out|
    ensures Unranked(recs, out[k].lsn) ==> out[k].generation == out[k].lsn
    ensures forall j: nat :: Ranks(recs, j, out[k].lsn) && (forall i: nat :: j < i ==> !Ranks(recs, i, out[k].lsn)) ==>
      out[k].generation == recs[j].1.generation
  {
    var i := RecordOf(recs, loaded, checkpoint, regimeOf, out, k);
    if Unranked(recs, out[k].lsn) {
      RankInUnranked(recs, |recs|, out[k].lsn);
    }
    forall j: nat | Ranks(recs, j, out[k].lsn) && (forall i: nat :: j < i ==> !Ranks(recs, i, out[k].lsn))
      ensures out[k].generation == recs[j].1.generation
    {
      RankInLast(recs, |recs|, out[k].lsn, j);
    }
  }

  // ---- A log without ranks ----

  /** The records, in the order of the file, that the image does not cover. */
  function Kept(recs: Survivors, loaded: bool, checkpoint: nat, n: nat): (ps: seq<Publication>)
    requires n <= |recs|
  {
    if n == 0 then []
    else
      var (lsn, r) := recs[n - 1];
      var before := Kept(recs, loaded, checkpoint, n - 1);
      if r.Data? && Uncovered(loaded, checkpoint, lsn) then before + [Publication(lsn, lsn, r.write)] else before
  }

  /** The map after reading the file from the start and doing what every uncovered record says. */
  function InOrder(origin: Contents, recs: Survivors, loaded: bool, checkpoint: nat, n: nat): Contents
    requires n <= |recs|
  {
    if n == 0 then origin
    else
      var m := InOrder(origin, recs, loaded, checkpoint, n - 1);
      if recs[n - 1].1.Data? && Uncovered(loaded, checkpoint, recs[n - 1].0) then Effect(recs[n - 1].1.write, m) else m
  }

  predicate Rising(recs: Survivors) {
    forall i, j :: 0 <= i < j < |recs| ==> recs[i].0 < recs[j].0
  }

  lemma {:induction false} KeptMembers(recs: Survivors, loaded: bool, checkpoint: nat, n: nat)
    requires Rising(recs) && n <= |recs|
    ensures Sorted(Kept(recs, loaded, checkpoint, n))
    ensures forall p :: p in Kept(recs, loaded, checkpoint, n) <==>
      exists i :: 0 <= i < n && recs[i] == (p.lsn, Data(p.write)) && Uncovered(loaded, checkpoint, p.lsn)
        && p.generation == p.lsn
  {
    if n > 0 {
      KeptMembers(recs, loaded, checkpoint, n - 1);
      var before := Kept(recs, loaded, checkpoint, n - 1);
      forall k | 0 <= k < |before| ensures before[k].generation < recs[n - 1].0 {
        assert before[k] in before;
      }
    }
  }

  lemma {:induction false} KeptReplay(origin: Contents, recs: Survivors, loaded: bool, checkpoint: nat, n: nat)
    requires n <= |recs|
    ensures var ps := Kept(recs, loaded, checkpoint, n);
      Replay(origin, ps, |ps|) == InOrder(origin, recs, loaded, checkpoint, n)
  {
    if n > 0 {
      KeptReplay(origin, recs, loaded, checkpoint, n - 1);
      var before := Kept(recs, loaded, checkpoint, n - 1);
      var ps := Kept(recs, loaded, checkpoint, n);
      ReplayPrefix(origin, before, ps, |before|);
    }
  }

  /** A legacy log without ranks is replayed in the order of the file. */
  lemma LegacyInOrder(origin: Contents, recs: Survivors, loaded: bool, checkpoint: nat, regimeOf: nat -> RankRegime,
                      out: seq<Publication>)
    requires Rising(recs) && ReconciledTo(recs, loaded, checkpoint, regimeOf, out)
    requires forall i :: 0 <= i < |recs| ==> regimeOf(recs[i].0) == Owned && !recs[i].1.CommitRank?
    ensures out == Kept(recs, loaded, checkpoint, |recs|)
    ensures Replay(origin, out, |out|) == InOrder(origin, recs, loaded, checkpoint, |recs|)
  {
    var ps := Kept(recs, loaded, checkpoint, |recs|);
    KeptMembers(recs, loaded, checkpoint, |recs|);
    forall p ensures p in out <==> p in ps {
      RankInUnranked(recs, |recs|, p.lsn);
      if p in ps {
        var i :| 0 <= i < |recs| && recs[i] == (p.lsn, Data(p.write)) && Uncovered(loaded, checkpoint, p.lsn)
          && p.generation == p.lsn;
        assert Stamped(recs, loaded, checkpoint, regimeOf, i, p);
      }
    }
    SortedUnique(Earlier, out, ps);
    KeptReplay(origin, recs, loaded, checkpoint, |recs|);
  }
}
