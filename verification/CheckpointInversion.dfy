/**
 When a checkpoint can make recovery lose an acknowledged write. The image may hold a write
 that overwrote another one which was published but is not covered: replaying the older
 write over the image then undoes the newer one. This is decided when the image is
 published, and the condition is exact.
 */
module CheckpointInversion {
  import opened SortedLists
  import opened WriteLog
  import opened CommittedWatermark
  import opened OrderA
  import opened Recovery
  import opened CrashSafety

  /** A run from `s` during which the image stays the same. */
  ghost predicate Continues(run: seq<State>, s: State) {
    Run(run) && run[0] == s && forall i :: 0 <= i < |run| ==> run[i].image == s.image
  }

  function Last(run: seq<State>): State
    requires |run| > 0
  {
    run[|run| - 1]
  }

  /** However the run goes on with this image, a crash loses no acknowledged write. */
  ghost predicate AlwaysKept(s: State) {
    forall run: seq<State>, alive: set<nat>, out: seq<Publication>
      {:trigger Replays(Last(run), alive, out), Continues(run, s)} ::
      (Continues(run, s) && ImageOk(Last(run)) && Survives(Last(run), alive) && Replays(Last(run), alive, out)) ==>
      AckedKept(Last(run), out)
  }

  // ---- Uninverted is enough ----

  lemma UninvertedStays(s: State, a: Action, s': State)
    requires Inv(s) && Inv(s') && Step(s, a, s') && s'.image == s.image && Uninverted(s)
    ensures Uninverted(s')
  {
    StepGrows(s, a, s');
    forall i: nat, j: nat | Overtaken(s', i, j) ensures Shielded(s', j) {
      OvertakenWasCovered(s, s', i, j);
      assert Overtaken(s, i, j);
      var m :| j < m < |s.history| && s.history[m].write.key == s.history[j].write.key
        && s.history[m].lsn > Covered(s) && RankedDurably(s, s.history[m].lsn);
      assert s'.history[m] == s.history[m];
    }
  }

  /** The image covers only what was published when it was captured. */
  lemma OvertakenWasCovered(s: State, s': State, i: nat, j: nat)
    requires Inv(s) && Inv(s') && Grows(s, s') && s'.image == s.image && Overtaken(s', i, j)
    ensures j < |s.history|
  {
    assert PublicationOk(s', j);
  }

  lemma {:induction false} RunUninverted(run: seq<State>, s: State, i: nat)
    requires Inv(s) && Continues(run, s) && Uninverted(s) && i < |run|
    ensures Inv(run[i]) && Uninverted(run[i])
  {
    RunKeeps(run, i);
    if i > 0 {
      RunUninverted(run, s, i - 1);
      assert Steps(run, i - 1);
      var a :| Step(run[i - 1], a, run[i]);
      UninvertedStays(run[i - 1], a, run[i]);
    }
  }

  lemma UninvertedAlwaysKept(s: State)
    requires Inv(s) && Uninverted(s)
    ensures AlwaysKept(s)
  {
    forall run: seq<State>, alive: set<nat>, out: seq<Publication> |
      Continues(run, s) && ImageOk(Last(run)) && Survives(Last(run), alive) && Replays(Last(run), alive, out)
      ensures AckedKept(Last(run), out)
    {
      RunUninverted(run, s, |run| - 1);
      UninvertedKeeps(Last(run), alive, out);
    }
  }

  // ---- Uninverted is necessary ----

  /** From `s` to `t` nothing is published, and no write but `l` gets a durable rank. */
  ghost predicate Quiet(s: State, t: State, l: nat) {
    && t.history == s.history && t.image == s.image
    && (forall k {:trigger RankedDurably(t, k)} :: k != l && RankedDurably(t, k) ==> RankedDurably(s, k))
    && (forall k {:trigger k in t.phase} :: k in s.phase && s.phase[k].Acked? ==> k in t.phase && t.phase[k].Acked?)
  }

  lemma Extend(run: seq<State>, s: State, a: Action, t: State) returns (longer: seq<State>)
    requires Continues(run, s) && Step(Last(run), a, t) && t.image == s.image
    ensures Continues(longer, s) && Last(longer) == t
  {
    longer := run + [t];
    forall i: nat | i < |longer| - 1 ensures Steps(longer, i) {
      if i < |run| - 1 {
        assert Steps(run, i);
      }
    }
  }

  lemma {:induction false} WatermarkExists(base: nat, marked: set<nat>, lo: nat, above: set<nat>) returns (w: nat)
    requires base <= lo && forall l :: base < l <= lo ==> l in marked
    requires forall l {:trigger l in above} :: l in above <==> l in marked && l > lo
    ensures IsWatermark(base, marked, w)
    decreases above
  {
    if lo + 1 in marked {
      assert lo + 1 in above;
      w := WatermarkExists(base, marked, lo + 1, above - {lo + 1});
    } else {
      w := lo;
    }
  }

  lemma MarkedState(s: State, l: nat) returns (w: nat)
    requires Inv(s)
    ensures IsWatermark(0, s.marked + {l}, w)
  {
    var marked := s.marked + {l};
    w := WatermarkExists(0, marked, s.watermark, set k | k in marked && k > s.watermark);
  }

  /** A marked write can be acknowledged. */
  lemma FinishAck(s: State, l: nat) returns (run: seq<State>)
    requires Inv(s) && l in s.phase && (s.phase[l].DataMarked? || s.phase[l].RankMarked? || s.phase[l].Acked?)
    ensures Continues(run, s) && Inv(Last(run)) && Quiet(s, Last(run), l)
    ensures l in Last(run).phase && Last(run).phase[l].Acked?
    ensures RankedDurably(Last(run), l) ==> RankedDurably(s, l)
  {
    run := [s];
    var t := s;
    if t.phase[l].DataMarked? {
      var w := MarkedState(t, t.phase[l].rank);
      var u := t.(phase := t.phase[l := RankMarked(t.phase[l].gen, t.phase[l].rank)],
        marked := t.marked + {t.phase[l].rank}, watermark := w);
      assert WriterStep(t, MarkRank(l), u);
      StepKeeps(t, MarkRank(l), u);
      run := Extend(run, s, MarkRank(l), u);
      t := u;
    }
    if t.phase[l].RankMarked? {
      var u := t.(phase := t.phase[l := Acked(t.phase[l].gen, t.phase[l].rank)]);
      assert WriterStep(t, Acknowledge(l), u);
      StepKeeps(t, Acknowledge(l), u);
      run := Extend(run, s, Acknowledge(l), u);
    }
  }

  /** A published write can be ranked durably. */
  lemma FinishRank(s: State, l: nat) returns (run: seq<State>)
    requires Inv(s) && l in s.phase && IsPublished(s.phase[l])
    ensures Continues(run, s) && Inv(Last(run)) && Quiet(s, Last(run), l)
    ensures RankedDurably(Last(run), l)
  {
    run := [s];
    var t := s;
    assert PhaseOk(t, l);
    if t.phase[l].Visible? {
      var u := t.(log := t.log + [CommitRank(l, t.phase[l].gen)],
        phase := t.phase[l := Ranking(t.phase[l].gen, t.NextLsn())]);
      assert WriterStep(t, AppendRank(l), u);
      StepKeeps(t, AppendRank(l), u);
      run := Extend(run, s, AppendRank(l), u);
      t := u;
      assert PhaseOk(t, l);
    }
    var r := t.phase[l].rank;
    var u := t.(durable := t.durable + {r});
    assert OtherStep(t, Sync(r), u);
    StepKeeps(t, Sync(r), u);
    run := Extend(run, s, Sync(r), u);
    forall k | k != l && RankedDurably(u, k) ensures RankedDurably(t, k) {
      assert PhaseOk(t, k);
    }
  }

  lemma {:induction false} Join(first: seq<State>, second: seq<State>, n: nat, s: State) returns (run: seq<State>)
    requires Continues(first, s) && Continues(second, Last(first)) && n < |second|
    ensures Continues(run, s) && Last(run) == second[n]
    decreases n
  {
    run := first;
    if n > 0 {
      run := Join(first, second, n - 1, s);
      assert second[n].image == s.image && Steps(second, n - 1);
      var a :| Step(second[n - 1], a, second[n]);
      run := Extend(run, s, a, second[n]);
    }
  }

  /** The replayed publications among the first `n`. */
  ghost function Selected(s: State, alive: set<nat>, n: nat): seq<Publication>
    requires n <= |s.history|
  {
    if n == 0 then []
    else if Replayed(s, alive, s.history[n - 1]) then Selected(s, alive, n - 1) + [s.history[n - 1]]
    else Selected(s, alive, n - 1)
  }

  lemma {:induction false} SelectedOrdered(s: State, alive: set<nat>, n: nat)
    requires Inv(s) && n <= |s.history|
    ensures Ordered(Selected(s, alive, n))
    ensures forall p {:trigger p in Selected(s, alive, n)} ::
      p in Selected(s, alive, n) <==> Replayed(s, alive, p) && exists i :: 0 <= i < n && s.history[i] == p
  {
    if n > 0 {
      SelectedOrdered(s, alive, n - 1);
      var before := Selected(s, alive, n - 1);
      forall i | 0 <= i < |before| ensures before[i].generation < s.history[n - 1].generation {
        assert before[i] in before;
      }
    }
  }

  /** Recovery always has something to replay in order, whatever survived. */
  lemma ReplayExists(s: State, alive: set<nat>) returns (out: seq<Publication>)
    requires Inv(s) && Survives(s, alive)
    ensures Replays(s, alive, out) && out == Selected(s, alive, |s.history|)
  {
    out := Selected(s, alive, |s.history|);
    SelectedOrdered(s, alive, |s.history|);
    forall p ensures p in out <==> Replayed(s, alive, p) {
      ReplayedPublished(s, alive, p);
    }
  }

  /** And it is determined. */
  lemma ReplaysUnique(s: State, alive: set<nat>, ps: seq<Publication>, qs: seq<Publication>)
    requires Replays(s, alive, ps) && Replays(s, alive, qs)
    ensures ps == qs
  {
    SortedUnique(Earlier, ps, qs);
  }

  /** With only the durable records left, what is replayed is durably ranked. */
  lemma ReplayedIsRanked(s: State, p: Publication)
    requires Inv(s) && Replayed(s, s.durable, p)
    ensures RankedDurably(s, p.lsn)
  {
    var r: nat :| r in s.durable && s.InLog(r) && s.Rec(r) == CommitRank(p.lsn, p.generation);
    assert RecordOk(s, r);
  }

  /** An overtaken write that is replayed without a shield undoes the write that overtook it. */
  lemma UnshieldedLost(s: State, out: seq<Publication>, i: nat, j: nat)
    requires Inv(s) && Replays(s, s.durable, out) && Overtaken(s, i, j) && RankedDurably(s, s.history[i].lsn)
    requires forall m ::
      j < m < |s.history| && s.history[m].write.key == s.history[j].write.key && s.history[m].lsn > Covered(s) ==>
      !RankedDurably(s, s.history[m].lsn)
    ensures !KeptFor(s, out, j)
  {
    var h := s.history[i];
    ReplayedPublished(s, s.durable, h);
    var ps, k := Recovered(s, out), |ImageHistory(s)|;
    forall p: nat | LastFor(ps, |ps|, h.write.key, p) ensures ps[p].generation < s.history[j].generation {
      ReplayedKept(s, s.durable, out, h, p);
      var g := out[p - k];
      assert ps[p] == g && g in out;
      ReplayedPublished(s, s.durable, g);
      ReplayedIsRanked(s, g);
      var m :| 0 <= m < |s.history| && s.history[m] == g;
      assert m <= j;
      OrderedPosition(s.history, j, m);
    }
  }

  /** An inversion without a shield can lose an acknowledged write. */
  lemma InvertedLoses(s: State, i: nat, j: nat) returns (run: seq<State>, out: seq<Publication>)
    requires Inv(s) && Overtaken(s, i, j) && !Shielded(s, j)
    ensures Continues(run, s) && Inv(Last(run)) && Replays(Last(run), Last(run).durable, out)
    ensures IsAcked(Last(run), j) && !KeptFor(Last(run), out, j)
  {
    var x, y := s.history[i].lsn, s.history[j].lsn;
    assert PublicationOk(s, i) && PublicationOk(s, j);
    WatermarkCommitted(s, y);
    assert y in s.marked && PhaseOk(s, y);
    var first := FinishAck(s, y);
    var t := Last(first);
    assert PublicationOk(t, i);
    var second := FinishRank(t, x);
    run := Join(first, second, |second| - 1, s);
    var u := Last(run);
    out := ReplayExists(u, u.durable);
    forall m | j < m < |u.history| && u.history[m].write.key == u.history[j].write.key && u.history[m].lsn > Covered(u)
      ensures !RankedDurably(u, u.history[m].lsn)
    {
      PublishedOnce(s, i, m);
      PublishedOnce(s, j, m);
      assert !RankedDurably(s, u.history[m].lsn);
      assert !RankedDurably(t, u.history[m].lsn);
    }
    UnshieldedLost(u, out, i, j);
  }

  /** A checkpoint is safe from there on exactly when it is not inverted. */
  lemma SafeExactly(s: State)
    requires Reachable(s)
    ensures AlwaysKept(s) <==> Uninverted(s)
  {
    ReachableInv(s);
    if Uninverted(s) {
      UninvertedAlwaysKept(s);
    } else {
      var i: nat, j: nat :| Overtaken(s, i, j) && !Shielded(s, j);
      var run, out := InvertedLoses(s, i, j);
      assert Continues(run, s) && Survives(Last(run), Last(run).durable) && Replays(Last(run), Last(run).durable, out);
      assert !AckedKept(Last(run), out);
    }
  }

  /** Without an image nothing can be lost. */
  lemma NoCheckpointSafe(s: State)
    requires Reachable(s) && s.image.None?
    ensures AlwaysKept(s)
  {
    ReachableInv(s);
    PublishedInLog(s);
    assert forall i: nat, j: nat :: !Overtaken(s, i, j);
    UninvertedAlwaysKept(s);
  }

  /** A checkpoint whose image holds nothing but covered writes is safe. */
  lemma QuiescentCheckpointSafe(s: State, s': State)
    requires Inv(s) && Step(s, PublishImage, s') && s.checkpointer.Captured?
    requires forall i :: 0 <= i < s.checkpointer.rev <= |s.history| ==> s.history[i].lsn <= s.checkpointer.upTo
    ensures AlwaysKept(s')
  {
    StepKeeps(s, PublishImage, s');
    assert Uninverted(s');
    UninvertedAlwaysKept(s');
  }

  lemma StepReachable(s: State, a: Action, t: State)
    requires Reachable(s) && Step(s, a, t)
    ensures Reachable(t)
  {
    var run :| Run(run) && run[0] == Initial(s.origin) && run[|run| - 1] == s;
    var longer := run + [t];
    forall i: nat | i < |longer| - 1 ensures Steps(longer, i) {
      if i < |run| - 1 {
        assert Steps(run, i);
      }
    }
    assert Run(longer) && longer[0] == Initial(t.origin) && longer[|longer| - 1] == t;
  }

  // ---- The whole way from the records on disk ----

  /** Reopening after a crash: from the surviving records to the recovered map, no acknowledged write is lost. */
  lemma ReopenKeepsAcknowledged(s: State, alive: set<nat>, recs: Survivors, c: nat, out: seq<Publication>)
    requires Reachable(s) && Uninverted(s)
    requires Survives(s, alive) && ListsRecords(s, alive, recs) && EffectiveCheckpoint(s, recs, c)
    requires Sorted(out) && forall p :: p in out <==> ReplayedBy(recs, s.image.Some?, c, AllOverlay, |recs|, p)
    ensures ImageOk(s) && AckedKept(s, out)
  {
    ReachableInv(s);
    ReconcileReplays(s, alive, recs, c, out);
    UninvertedKeeps(s, alive, out);
  }
}
