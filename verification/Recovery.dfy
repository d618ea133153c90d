/**
 Reconciling the records that survived a crash: data records are stamped with the
 generation of their commit rank and replayed in the order of generation, then LSN.
 */
module Recovery {
  import opened Words
  import opened WriteLog

  /** What a segment of the log says about records without a rank: legacy ones keep them, others drop them. */
  datatype RankRegime = Owned | Overlay

  function AllOverlay(lsn: nat): RankRegime {
    Overlay
  }

  type Survivors = seq<(nat, Record)>

  predicate DistinctLsns(recs: Survivors) {
    forall i, j :: 0 <= i < j < |recs| ==> recs[i].0 != recs[j].0
  }

  /** The generation of the last rank record for `lsn` among the first `n` records. */
  function RankIn(recs: Survivors, n: nat, lsn: nat): Option<nat>
    requires n <= |recs|
  {
    if n == 0 then None
    else if recs[n - 1].1.CommitRank? && recs[n - 1].1.dataLsn == lsn then Some(recs[n - 1].1.generation)
    else RankIn(recs, n - 1, lsn)
  }

  /** Record `i` is replayed as `p`: it is newer than the checkpoint and ranked, or unranked in a legacy file. */
  predicate Stamped(recs: Survivors, loaded: bool, checkpoint: nat, regimeOf: nat -> RankRegime, i: nat, p: Publication)
    requires i < |recs|
  {
    && recs[i] == (p.lsn, Data(p.write))
    && !(loaded && checkpoint > 0 && p.lsn <= checkpoint)
    && match RankIn(recs, |recs|, p.lsn)
       case Some(g) => p.generation == g
       case None => regimeOf(p.lsn) == Owned && p.generation == p.lsn
  }

  predicate Earlier(p: Publication, q: Publication) {
    p.generation < q.generation || (p.generation == q.generation && p.lsn < q.lsn)
  }

  predicate Sorted(ps: seq<Publication>) {
    forall i, j :: 0 <= i < j < |ps| ==> Earlier(ps[i], ps[j])
  }

  /** Puts `p` in its place. */
  method Insert(ps: seq<Publication>, p: Publication) returns (qs: seq<Publication>)
    requires Sorted(ps) && forall q :: q in ps ==> q.lsn != p.lsn
    ensures Sorted(qs) && forall q :: q in qs <==> q in ps || q == p
  {
    var k := |ps|;
    while k > 0 && Earlier(p, ps[k - 1])
      invariant 0 <= k <= |ps|
      invariant forall i :: k <= i < |ps| ==> Earlier(p, ps[i])
    {
      k := k - 1;
    }
    qs := Splice(ps, k, p);
    forall q ensures q in qs <==> q in ps || q == p {
      SpliceMember(ps, k, p, q);
    }
    if k > 0 {
      assert ps[k - 1] in ps && Earlier(ps[k - 1], p);
    }
    forall i, j | 0 <= i < j < |qs| ensures Earlier(qs[i], qs[j]) {
      assert i < k ==> qs[i] == ps[i];
      assert j > k ==> qs[j] == ps[j - 1];
    }
  }

  /** Pass one: the generation of every ranked data record. */
  method CollectRanks(recs: Survivors) returns (rank: map<nat, nat>)
    ensures forall l: nat :: (l in rank <==>
      RankIn(recs, |recs|, l).Some?) && (l in rank ==> RankIn(recs, |recs|, l) == Some(rank[l]))
  {
    rank := map[];
    for n := 0 to |recs|
      invariant forall l: nat :: (l in rank <==>
        RankIn(recs, n, l).Some?) && (l in rank ==> RankIn(recs, n, l) == Some(rank[l]))
    {
      match recs[n].1 {
        case CommitRank(d, g) => rank := rank[d := g];
        case _ =>
      }
    }
  }

  ghost predicate ReplayedBy(recs: Survivors, loaded: bool, checkpoint: nat, regimeOf: nat -> RankRegime, n: nat,
                             p: Publication) {
    exists i :: 0 <= i < n <= |recs| && Stamped(recs, loaded, checkpoint, regimeOf, i, p)
  }

  predicate DistinctPublications(ps: seq<Publication>) {
    forall i, j :: 0 <= i < j < |ps| ==> ps[i].lsn != ps[j].lsn
  }

  method Sort(ps: seq<Publication>) returns (qs: seq<Publication>)
    requires DistinctPublications(ps)
    ensures Sorted(qs) && forall q :: q in qs <==> q in ps
  {
    qs := [];
    for n := 0 to |ps|
      invariant Sorted(qs) && forall q :: q in qs <==> exists i :: 0 <= i < n && ps[i] == q
    {
      qs := Insert(qs, ps[n]);
    }
  }

  /** Pass two: the data records that are not covered, stamped with their generation, in the order of the log. */
  method StampRecords(recs: Survivors, loaded: bool, checkpoint: nat, regimeOf: nat -> RankRegime)
    returns (stamped: seq<Publication>)
    requires DistinctLsns(recs)
    ensures DistinctPublications(stamped)
    ensures forall p :: p in stamped <==> ReplayedBy(recs, loaded, checkpoint, regimeOf, |recs|, p)
  {
    var rank := CollectRanks(recs);
    stamped := [];
    for n := 0 to |recs|
      invariant DistinctPublications(stamped)
      invariant forall p {:trigger p in stamped} ::
        p in stamped <==> ReplayedBy(recs, loaded, checkpoint, regimeOf, n, p)
    {
      var (lsn, record) := recs[n];
      if record.Data? && !(loaded && checkpoint > 0 && lsn <= checkpoint) && (lsn in rank || regimeOf(lsn) == Owned) {
        var p := Publication(lsn, if lsn in rank then rank[lsn] else lsn, record.write);
        assert forall i :: 0 <= i < |stamped| ==> stamped[i] in stamped;
        stamped := stamped + [p];
      }
      assert forall p {:trigger ReplayedBy(recs, loaded, checkpoint, regimeOf, n + 1, p)} ::
        ReplayedBy(recs, loaded, checkpoint, regimeOf, n + 1, p) <==>
          ReplayedBy(recs, loaded, checkpoint, regimeOf, n, p) || Stamped(recs, loaded, checkpoint, regimeOf, n, p);
    }
  }

  /** Both passes: the records to replay, in order. */
  method Reconcile(recs: Survivors, loaded: bool, checkpoint: nat, regimeOf: nat -> RankRegime)
    returns (out: seq<Publication>)
    requires DistinctLsns(recs)
    ensures Sorted(out)
    ensures forall p :: p in out <==> ReplayedBy(recs, loaded, checkpoint, regimeOf, |recs|, p)
  {
    var stamped := StampRecords(recs, loaded, checkpoint, regimeOf);
    out := Sort(stamped);
  }
}
