/**
 What a crash leaves of the Order-A protocol: recovery reads the image, if there is one,
 and replays the surviving ranked records newer than it in the order of generation.
 */
module CrashSafety {
  import opened Words
  import opened WriteLog
  import opened CommittedWatermark
  import opened OrderA
  import opened Recovery

  // ---- Facts about every reachable state ----

  /** Each write is published once, durable before, and on the root it was checked against. */
  lemma PublishedOnce(s: State, i: nat, j: nat)
    requires Inv(s) && i < j < |s.history|
    ensures s.history[i].generation < s.history[j].generation
    ensures s.history[i].lsn != s.history[j].lsn
    ensures s.history[j].lsn in s.durable
    ensures Applies(s.history[j].write, s.Root(j))
  {
    assert PublicationOk(s, i) && PublicationOk(s, j);
    assert PhaseOk(s, s.history[j].lsn);
  }

  /** Every LSN at or below the watermark is durable; a write there is published and durably ranked, or was refused. */
  lemma WatermarkCommitted(s: State, l: nat)
    requires Inv(s) && 1 <= l <= s.watermark
    ensures l in s.durable && s.InLog(l)
    ensures s.Rec(l).Data? ==>
      l in s.phase && (s.phase[l].Burned? || (IsRanked(s.phase[l]) && s.phase[l].rank in s.durable))
  {
    assert l in s.marked;
    assert RecordOk(s, l);
    if s.Rec(l).Data? {
      assert PhaseOk(s, l);
    }
  }

  /** Along a step the watermark, the durable set, the history and the ranks only grow. */
  ghost predicate Grows(s: State, s': State) {
    && s.watermark <= s'.watermark && s.durable <= s'.durable
    && |s.log| <= |s'.log|
    && |s.history| <= |s'.history|
    && (forall i :: 0 <= i < |s.history| ==> s'.history[i] == s.history[i])
    && (forall i :: |s.history| <= i < |s'.history| ==> s'.history[i].lsn !in s.marked)
    && (forall l :: RankedDurably(s, l) ==> RankedDurably(s', l))
  }

  predicate RankedDurably(s: State, l: nat) {
    l in s.phase && IsRanked(s.phase[l]) && s.phase[l].rank in s.durable
  }

  lemma StepGrows(s: State, a: Action, s': State)
    requires Inv(s) && Step(s, a, s')
    ensures Grows(s, s')
  {
    if s'.marked != s.marked {
      WatermarkMonotone(0, s.marked, s'.marked, s.watermark, s'.watermark);
    } else {
      assert s'.watermark == s.watermark;
    }
    if a.Publish? {
      assert PhaseOk(s, a.l);
    } else if a.Append? {
      LogGrows(s, Data(a.write), s');
    }
  }

  lemma {:induction false} RunGrows(run: seq<State>, i: nat, j: nat)
    requires Run(run) && Inv(run[0]) && i <= j < |run|
    ensures Grows(run[i], run[j])
    decreases j - i
  {
    RunKeeps(run, i);
    if i < j {
      RunGrows(run, i + 1, j);
      assert Steps(run, i);
      var a :| Step(run[i], a, run[i + 1]);
      StepGrows(run[i], a, run[i + 1]);
      MarkedStays(run[i], a, run[i + 1]);
      GrowsTransitive(run[i], run[i + 1], run[j]);
    }
  }

  lemma MarkedStays(s: State, a: Action, s': State)
    requires Inv(s) && Step(s, a, s')
    ensures s.marked <= s'.marked
  {
  }

  lemma GrowsTransitive(s: State, t: State, u: State)
    requires Grows(s, t) && Grows(t, u) && s.marked <= t.marked
    ensures Grows(s, u)
  {
    forall l | RankedDurably(s, l) ensures RankedDurably(u, l) {
      assert RankedDurably(t, l);
    }
  }

  lemma PublishedInLog(s: State)
    requires Inv(s)
    ensures forall i :: 0 <= i < |s.history| ==> 1 <= s.history[i].lsn <= |s.log|
  {
    forall i | 0 <= i < |s.history| ensures 1 <= s.history[i].lsn <= |s.log| {
      assert PublicationOk(s, i);
    }
  }

  /** A write acknowledged before another one was appended is published before it. */
  lemma AcknowledgementOrder(run: seq<State>, i: nat, j: nat, x: nat, y: nat)
    requires Run(run) && run[0] == Initial(run[0].origin) && i <= j < |run|
    requires x < |run[j].history| && y < |run[j].history|
    requires run[j].history[x].lsn in run[i].phase && run[i].phase[run[j].history[x].lsn].Acked?
    requires run[j].history[y].lsn > |run[i].log|
    ensures x < y
  {
    var s, t := run[i], run[j];
    var l := t.history[x].lsn;
    RunKeeps(run, i);
    RunKeeps(run, j);
    RunGrows(run, i, j);
    assert PhaseOk(s, l);
    var k :| 0 <= k < |s.history| && s.history[k] == Publication(l, s.phase[l].gen, s.Rec(l).write);
    assert t.history[k].lsn == t.history[x].lsn;
    if k < x {
      PublishedOnce(t, k, x);
    } else if x < k {
      PublishedOnce(t, x, k);
    }
    PublishedInLog(s);
  }

  // ---- Recovery ----

  function Covered(s: State): nat {
    if s.image.Some? then s.image.value.upTo else 0
  }

  /** The image's own publications. */
  function ImageHistory(s: State): seq<Publication>
    requires ImageOk(s)
  {
    if s.image.Some? then s.history[..s.image.value.rev] else []
  }

  /** After a crash everything durable is still in the log, and perhaps records that were not yet synced. */
  predicate Survives(s: State, alive: set<nat>) {
    s.durable <= alive && forall l {:trigger l in alive} :: l in alive ==> s.InLog(l)
  }

  /** `recs` lists the surviving records with their LSNs, in any order. */
  ghost predicate ListsRecords(s: State, alive: set<nat>, recs: Survivors) {
    && DistinctLsns(recs)
    && forall l: nat, r {:trigger (l, r) in recs} :: (l, r) in recs <==> l in alive && s.InLog(l) && r == s.Rec(l)
  }

  /** The checkpoint LSN on reopening: the larger of the image's own coverage and the surviving checkpoint records. */
  ghost predicate EffectiveCheckpoint(s: State, recs: Survivors, c: nat) {
    && Covered(s) <= c
    && (forall l: nat, u: nat {:trigger (l, Checkpoint(u)) in recs} :: (l, Checkpoint(u)) in recs ==> u <= c)
    && (c == Covered(s) || exists l: nat :: (l, Checkpoint(c)) in recs)
  }

  /** A torn or missing checkpoint record does not matter: the image's own coverage is used. */
  lemma EffectiveIsCovered(s: State, alive: set<nat>, recs: Survivors, c: nat)
    requires Inv(s) && Survives(s, alive) && ListsRecords(s, alive, recs) && EffectiveCheckpoint(s, recs, c)
    ensures c == Covered(s)
  {
    if l: nat :| (l, Checkpoint(c)) in recs {
      assert RecordOk(s, l);
    }
  }

  /** `p` is replayed: its record survived, is newer than the image, and so did its rank record. */
  ghost predicate Replayed(s: State, alive: set<nat>, p: Publication) {
    && p.lsn in alive && s.InLog(p.lsn) && s.Rec(p.lsn) == Data(p.write) && p.lsn > Covered(s)
    && exists r: nat :: r in alive && s.InLog(r) && s.Rec(r) == CommitRank(p.lsn, p.generation)
  }

  ghost predicate Replays(s: State, alive: set<nat>, out: seq<Publication>) {
    Ordered(out) && forall p {:trigger p in out} :: p in out <==> Replayed(s, alive, p)
  }

  /** What is replayed was published; whatever is durably ranked and newer than the image is replayed. */
  lemma ReplayedPublished(s: State, alive: set<nat>, p: Publication)
    requires Inv(s) && Survives(s, alive)
    ensures Replayed(s, alive, p) ==> p in s.history
    ensures p in s.history && p.lsn > Covered(s) && RankedDurably(s, p.lsn) ==> Replayed(s, alive, p)
  {
    if Replayed(s, alive, p) {
      var r: nat :| r in alive && s.InLog(r) && s.Rec(r) == CommitRank(p.lsn, p.generation);
      assert RecordOk(s, r);
      assert PhaseOk(s, p.lsn);
    }
    if p in s.history && p.lsn > Covered(s) && RankedDurably(s, p.lsn) {
      var i :| 0 <= i < |s.history| && s.history[i] == p;
      assert PublicationOk(s, i);
      assert PhaseOk(s, p.lsn);
      assert s.phase[p.lsn].rank in alive;
    }
  }

  lemma RankInFound(recs: Survivors, n: nat, d: nat) returns (i: nat)
    requires n <= |recs| && RankIn(recs, n, d).Some?
    ensures i < n && recs[i].1 == CommitRank(d, RankIn(recs, n, d).value)
    decreases n
  {
    if recs[n - 1].1.CommitRank? && recs[n - 1].1.dataLsn == d {
      i := n - 1;
    } else {
      i := RankInFound(recs, n - 1, d);
    }
  }

  lemma {:induction false} RankInSome(recs: Survivors, n: nat, i: nat, d: nat)
    requires i < n <= |recs| && recs[i].1.CommitRank? && recs[i].1.dataLsn == d
    ensures RankIn(recs, n, d).Some?
    decreases n
  {
    if i < n - 1 && !(recs[n - 1].1.CommitRank? && recs[n - 1].1.dataLsn == d) {
      RankInSome(recs, n - 1, i, d);
    }
  }

  /** The rank that reconciling finds for a data record is the one the protocol gave it. */
  lemma RankFound(s: State, alive: set<nat>, recs: Survivors, p: Publication)
    requires Inv(s) && Survives(s, alive) && ListsRecords(s, alive, recs) && p.lsn in alive
    requires s.Rec(p.lsn) == Data(p.write)
    ensures RankIn(recs, |recs|, p.lsn) == Some(p.generation) <==>
      exists r: nat :: r in alive && s.InLog(r) && s.Rec(r) == CommitRank(p.lsn, p.generation)
  {
    if RankIn(recs, |recs|, p.lsn).Some? {
      var i := RankInFound(recs, |recs|, p.lsn);
      assert recs[i] in recs && recs[i] == (recs[i].0, recs[i].1);
      assert RecordOk(s, recs[i].0);
    }
    forall r: nat | r in alive && s.InLog(r) && s.Rec(r) == CommitRank(p.lsn, p.generation)
      ensures RankIn(recs, |recs|, p.lsn) == Some(p.generation)
    {
      assert (r, s.Rec(r)) in recs;
      var i :| 0 <= i < |recs| && recs[i] == (r, s.Rec(r));
      RankInSome(recs, |recs|, i, p.lsn);
      var k := RankInFound(recs, |recs|, p.lsn);
      assert recs[k] in recs && recs[k] == (recs[k].0, recs[k].1);
      assert RecordOk(s, recs[k].0) && RecordOk(s, r);
    }
  }

  /** Reconciling the surviving records replays exactly those, in publish order. */
  lemma ReconcileReplays(s: State, alive: set<nat>, recs: Survivors, c: nat, out: seq<Publication>)
    requires Inv(s) && Survives(s, alive) && ListsRecords(s, alive, recs) && EffectiveCheckpoint(s, recs, c)
    requires Sorted(out) && forall p :: p in out <==> ReplayedBy(recs, s.image.Some?, c, AllOverlay, |recs|, p)
    ensures Replays(s, alive, out)
  {
    EffectiveIsCovered(s, alive, recs, c);
    forall p ensures p in out <==> Replayed(s, alive, p) {
      if p in out {
        var i :| 0 <= i < |recs| && Stamped(recs, s.image.Some?, c, AllOverlay, i, p);
        assert recs[i] in recs;
        RankFound(s, alive, recs, p);
      }
      if Replayed(s, alive, p) {
        assert (p.lsn, Data(p.write)) in recs;
        var i :| 0 <= i < |recs| && recs[i] == (p.lsn, Data(p.write));
        RankFound(s, alive, recs, p);
        assert Stamped(recs, s.image.Some?, c, AllOverlay, i, p);
      }
    }
    forall i, j | 0 <= i < j < |out| ensures out[i].generation < out[j].generation {
      assert out[i] in out && out[j] in out;
      ReplayedPublished(s, alive, out[i]);
      ReplayedPublished(s, alive, out[j]);
      assert Earlier(out[i], out[j]);
      SameGeneration(s, out[i], out[j]);
    }
  }

  lemma SameGeneration(s: State, p: Publication, q: Publication)
    requires Inv(s) && p in s.history && q in s.history
    ensures p.generation == q.generation ==> p == q
  {
    var i :| 0 <= i < |s.history| && s.history[i] == p;
    var j :| 0 <= j < |s.history| && s.history[j] == q;
    if i < j {
      PublishedOnce(s, i, j);
    } else if j < i {
      PublishedOnce(s, j, i);
    }
  }

  // ---- No acknowledged write is lost ----

  /** The publications recovery ends up with: those in the image, then the replayed ones. */
  function Recovered(s: State, out: seq<Publication>): seq<Publication>
    requires ImageOk(s)
  {
    ImageHistory(s) + out
  }

  ghost predicate IsAcked(s: State, a: nat) {
    a < |s.history| && s.history[a].lsn in s.phase && s.phase[s.history[a].lsn].Acked?
  }

  /** The recovered value of the key of publication `a` comes from publication `a` or a later one. */
  ghost predicate KeptFor(s: State, out: seq<Publication>, a: nat)
    requires ImageOk(s) && a < |s.history|
  {
    var ps := Recovered(s, out);
    exists p: nat :: LastFor(ps, |ps|, s.history[a].write.key, p) && ps[p].generation >= s.history[a].generation
  }

  ghost predicate AckedKept(s: State, out: seq<Publication>)
    requires ImageOk(s)
  {
    forall a: nat {:trigger IsAcked(s, a)} :: IsAcked(s, a) ==> KeptFor(s, out, a)
  }

  /** A write of publication `i` that the image does not cover is older than one that it covers. */
  predicate Overtaken(s: State, i: nat, j: nat) {
    && i < j < |s.history| && s.history[i].write.key == s.history[j].write.key
    && s.history[j].lsn <= Covered(s) < s.history[i].lsn
  }

  /** A write after publication `j` to the same key is durably ranked and newer than the image. */
  ghost predicate Shielded(s: State, j: nat)
    requires j < |s.history|
  {
    exists m :: j < m < |s.history| && s.history[m].write.key == s.history[j].write.key
      && s.history[m].lsn > Covered(s) && RankedDurably(s, s.history[m].lsn)
  }

  /** No overtaken write can be replayed over the write that overtook it. */
  ghost predicate Uninverted(s: State) {
    forall i: nat, j: nat :: Overtaken(s, i, j) ==> Shielded(s, j)
  }

  /** In an ordered list a later position means a larger generation. */
  lemma OrderedPosition(ps: seq<Publication>, p: nat, q: nat)
    requires Ordered(ps) && p < |ps| && q < |ps|
    ensures p <= q <==> ps[p].generation <= ps[q].generation
  {
  }

  /** A replayed publication to the key puts the recovered value at it or later. */
  lemma ReplayedKept(s: State, alive: set<nat>, out: seq<Publication>, h: Publication, p: nat)
    requires Inv(s) && Survives(s, alive) && Replays(s, alive, out) && h in out
    requires LastFor(Recovered(s, out), |Recovered(s, out)|, h.write.key, p)
    ensures |ImageHistory(s)| <= p && Recovered(s, out)[p].generation >= h.generation
  {
    var ps, k := Recovered(s, out), |ImageHistory(s)|;
    var q :| 0 <= q < |out| && out[q] == h;
    assert ps[k + q] == h;
    assert k + q <= p;
    assert ps[p] == out[p - k];
    OrderedPosition(out, q, p - k);
  }

  lemma NewKept(s: State, alive: set<nat>, out: seq<Publication>, a: nat)
    requires Inv(s) && Survives(s, alive) && Replays(s, alive, out)
    requires IsAcked(s, a) && s.history[a].lsn > Covered(s)
    ensures KeptFor(s, out, a)
  {
    var h := s.history[a];
    assert PhaseOk(s, h.lsn) && h in s.history && RankedDurably(s, h.lsn);
    ReplayedPublished(s, alive, h);
    assert h in out;
    var ps, k := Recovered(s, out), |ImageHistory(s)|;
    var q :| 0 <= q < |out| && out[q] == h;
    assert ps[k + q] == h;
    var p := LastExists(ps, |ps|, h.write.key, k + q);
    ReplayedKept(s, alive, out, h, p);
  }

  lemma CoveredKept(s: State, alive: set<nat>, out: seq<Publication>, a: nat)
    requires Inv(s) && Survives(s, alive) && Replays(s, alive, out) && Uninverted(s)
    requires IsAcked(s, a) && s.history[a].lsn <= Covered(s)
    ensures KeptFor(s, out, a)
  {
    var h := s.history[a];
    assert PublicationOk(s, a);
    var ps, k := Recovered(s, out), |ImageHistory(s)|;
    assert a < k && ps[a] == h;
    var p := LastExists(ps, |ps|, h.write.key, a);
    if p < k {
      assert ps[p] == s.history[p];
      OrderedPosition(s.history, a, p);
    } else {
      var g := out[p - k];
      assert ps[p] == g && g in out;
      ReplayedPublished(s, alive, g);
      var i: nat :| i < |s.history| && s.history[i] == g;
      if Shielded(s, a) {
        var m :| a < m < |s.history| && s.history[m].write.key == h.write.key
          && s.history[m].lsn > Covered(s) && RankedDurably(s, s.history[m].lsn);
        ReplayedPublished(s, alive, s.history[m]);
        ReplayedKept(s, alive, out, s.history[m], p);
        OrderedPosition(s.history, a, m);
      } else {
        assert !Overtaken(s, i, a);
        OrderedPosition(s.history, a, i);
      }
    }
  }

  /** Without an inversion no crash loses an acknowledged write. */
  lemma UninvertedKeeps(s: State, alive: set<nat>, out: seq<Publication>)
    requires Inv(s) && Survives(s, alive) && Replays(s, alive, out) && Uninverted(s)
    ensures AckedKept(s, out)
  {
    forall a: nat | IsAcked(s, a) ensures KeptFor(s, out, a) {
      if s.history[a].lsn <= Covered(s) {
        CoveredKept(s, alive, out, a);
      } else {
        NewKept(s, alive, out, a);
      }
    }
  }

  /** The recovered map holds, for each key, the value of the last recovered publication to it. */
  lemma RecoveredValue(s: State, out: seq<Publication>, a: nat)
    requires ImageOk(s) && a < |s.history| && KeptFor(s, out, a)
    ensures exists h {:trigger h in Recovered(s, out)} ::
      && h in Recovered(s, out) && h.write.key == s.history[a].write.key
      && h.generation >= s.history[a].generation
      && Lookup(Replay(s.origin, Recovered(s, out), |Recovered(s, out)|), h.write.key) == h.write.value
  {
    var ps, key := Recovered(s, out), s.history[a].write.key;
    var p: nat :| LastFor(ps, |ps|, key, p) && ps[p].generation >= s.history[a].generation;
    LastWriterWins(s.origin, ps, |ps|, key);
    assert ps[p] in ps;
  }
}
