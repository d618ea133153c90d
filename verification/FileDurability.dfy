/**
 The same question for a log kept in one file: a sync makes everything written so far durable,
 and after a crash the records up to some place are left. The condition under which a checkpoint
 is safe is then weaker, since a later write also protects when its rank record comes before
 that of the write it protects from.
 */
module FileDurability {
  import opened Words
  import opened WriteLog
  import opened OrderA
  import opened CrashSafety
  import opened CheckpointInversion

  /** The first `n` LSNs. */
  function UpTo(n: nat): (ls: set<nat>)
    ensures forall l: nat :: l in ls <==> 1 <= l <= n
  {
    if n == 0 then {} else UpTo(n - 1) + {n}
  }

  predicate IsPrefix(ls: set<nat>) {
    forall l, k :: l in ls && 1 <= k <= l ==> k in ls
  }

  /** The file is synced up to LSN `n`. */
  predicate SyncTo(s: State, n: nat, s': State) {
    n <= |s.log| && s' == s.(durable := s.durable + UpTo(n))
  }

  ghost predicate FileNext(s: State, s': State) {
    (exists a: Action :: !a.Sync? && Step(s, a, s')) || exists n: nat :: SyncTo(s, n, s')
  }

  ghost predicate FileSteps(run: seq<State>, i: nat) {
    i + 1 < |run| && FileNext(run[i], run[i + 1])
  }

  ghost predicate FileRun(run: seq<State>) {
    |run| > 0 && forall i: nat :: i < |run| - 1 ==> FileSteps(run, i)
  }

  ghost predicate FileReachable(s: State) {
    exists run :: FileRun(run) && run[0] == Initial(s.origin) && run[|run| - 1] == s
  }

  // ---- What every reachable state keeps ----

  ghost predicate FileInv(s: State) {
    Inv(s) && IsPrefix(s.durable)
  }

  lemma SyncToKeeps(s: State, n: nat, s': State)
    requires Inv(s) && SyncTo(s, n, s')
    ensures Inv(s') && Grows(s, s')
  {
    forall l | l in s'.phase ensures PhaseOk(s', l) {
      assert PhaseOk(s, l);
    }
    forall i | 0 <= i < |s'.history| ensures PublicationOk(s', i) {
      assert PublicationOk(s, i);
    }
    forall l: nat | s'.InLog(l) ensures RecordOk(s', l) {
      assert RecordOk(s, l);
    }
  }

  lemma FileStepKeeps(s: State, s': State)
    requires FileInv(s) && FileNext(s, s')
    ensures FileInv(s') && Grows(s, s')
  {
    if a: Action :| !a.Sync? && Step(s, a, s') {
      StepKeeps(s, a, s');
      StepGrows(s, a, s');
      assert s'.durable == s.durable;
    } else {
      var n: nat :| SyncTo(s, n, s');
      SyncToKeeps(s, n, s');
    }
  }

  lemma {:induction false} FileRunKeeps(run: seq<State>, i: nat)
    requires FileRun(run) && FileInv(run[0]) && i < |run|
    ensures FileInv(run[i])
  {
    if i > 0 {
      FileRunKeeps(run, i - 1);
      assert FileSteps(run, i - 1);
      FileStepKeeps(run[i - 1], run[i]);
    }
  }

  lemma FileReachableInv(s: State)
    requires FileReachable(s)
    ensures FileInv(s)
  {
    var run :| FileRun(run) && run[0] == Initial(s.origin) && run[|run| - 1] == s;
    FileRunKeeps(run, |run| - 1);
  }

  // ---- Safety ----

  /** A run from `s` during which the image stays the same. */
  ghost predicate FileContinues(run: seq<State>, s: State) {
    FileRun(run) && run[0] == s && forall i :: 0 <= i < |run| ==> run[i].image == s.image
  }

  /** The file is left up to LSN `n`. */
  predicate Left(s: State, n: nat) {
    n <= |s.log| && s.durable <= UpTo(n)
  }

  /** However the run goes on with this image, a crash loses no acknowledged write. */
  ghost predicate FileAlwaysKept(s: State) {
    forall run: seq<State>, n: nat, out: seq<Publication>
      {:trigger Replays(Last(run), UpTo(n), out), FileContinues(run, s)} ::
      (FileContinues(run, s) && ImageOk(Last(run)) && Left(Last(run), n) && Replays(Last(run), UpTo(n), out)) ==>
      AckedKept(Last(run), out)
  }

  /** Write `l` is ranked in the log, and the rank will be left if that of `k` is: it is durable or comes before. */
  predicate RankedFirst(s: State, l: nat, k: nat) {
    && l in s.phase && IsRanked(s.phase[l])
    && (s.phase[l].rank in s.durable || (k in s.phase && IsRanked(s.phase[k]) ==> s.phase[l].rank < s.phase[k].rank))
  }

  /** A write after publication `j` to the same key is newer than the image and ranked before publication `i`. */
  ghost predicate FileShielded(s: State, i: nat, j: nat)
    requires i < |s.history| && j < |s.history|
  {
    exists m :: j < m < |s.history| && s.history[m].write.key == s.history[j].write.key
      && s.history[m].lsn > Covered(s) && RankedFirst(s, s.history[m].lsn, s.history[i].lsn)
  }

  ghost predicate FileUninverted(s: State) {
    forall i: nat, j: nat {:trigger Overtaken(s, i, j)} :: Overtaken(s, i, j) ==> FileShielded(s, i, j)
  }

  /** The condition is weaker than the one for records that become durable one by one. */
  lemma UninvertedIsFileUninverted(s: State)
    requires Uninverted(s)
    ensures FileUninverted(s)
  {
    forall i: nat, j: nat | Overtaken(s, i, j) ensures FileShielded(s, i, j) {
      var m :| j < m < |s.history| && s.history[m].write.key == s.history[j].write.key
        && s.history[m].lsn > Covered(s) && RankedDurably(s, s.history[m].lsn);
      assert RankedFirst(s, s.history[m].lsn, s.history[i].lsn);
    }
  }

  // ---- The condition is enough ----

  /** Ranks stay, and a rank appended now comes last. */
  lemma RankStays(s: State, a: Action, s': State, k: nat)
    requires Inv(s) && Step(s, a, s')
    ensures k in s.phase && IsRanked(s.phase[k]) ==>
      k in s'.phase && IsRanked(s'.phase[k]) && s'.phase[k].rank == s.phase[k].rank
    ensures k in s'.phase && IsRanked(s'.phase[k]) && !(k in s.phase && IsRanked(s.phase[k])) ==>
      s'.phase[k].rank == s.NextLsn()
  {
    if k in s.phase {
      assert PhaseOk(s, k);
    }
    if WriterStep(s, a, s') {
      if a.Append? {
        assert s.NextLsn() !in s.phase by {
          LogGrows(s, Data(a.write), s');
        }
      }
    } else {
      assert s'.phase == s.phase;
    }
  }

  lemma RankedFirstStays(s: State, s': State, l: nat, k: nat)
    requires FileInv(s) && FileNext(s, s') && RankedFirst(s, l, k)
    ensures RankedFirst(s', l, k)
  {
    FileStepKeeps(s, s');
    assert PhaseOk(s, l);
    if n: nat :| SyncTo(s, n, s') {
    } else {
      var a: Action :| !a.Sync? && Step(s, a, s');
      RankStays(s, a, s', l);
      RankStays(s, a, s', k);
    }
  }

  lemma FileUninvertedStays(s: State, s': State)
    requires FileInv(s) && FileNext(s, s') && s'.image == s.image && FileUninverted(s)
    ensures FileUninverted(s')
  {
    FileStepKeeps(s, s');
    forall i: nat, j: nat | Overtaken(s', i, j) ensures FileShielded(s', i, j) {
      OvertakenWasCovered(s, s', i, j);
      assert Overtaken(s, i, j);
      var m :| j < m < |s.history| && s.history[m].write.key == s.history[j].write.key
        && s.history[m].lsn > Covered(s) && RankedFirst(s, s.history[m].lsn, s.history[i].lsn);
      assert s'.history[m] == s.history[m];
      RankedFirstStays(s, s', s.history[m].lsn, s.history[i].lsn);
    }
  }

  lemma {:induction false} FileRunUninverted(run: seq<State>, s: State, i: nat)
    requires FileInv(s) && FileContinues(run, s) && FileUninverted(s) && i < |run|
    ensures FileInv(run[i]) && FileUninverted(run[i])
  {
    FileRunKeeps(run, i);
    if i > 0 {
      FileRunUninverted(run, s, i - 1);
      assert FileSteps(run, i - 1);
      FileUninvertedStays(run[i - 1], run[i]);
    }
  }

  /** If the rank of `k` is left, so is that of a write ranked first, which is then replayed. */
  lemma FirstIsReplayed(s: State, n: nat, m: nat, k: nat, p: Publication)
    requires Inv(s) && Left(s, n) && m < |s.history| && s.history[m].lsn > Covered(s)
    requires RankedFirst(s, s.history[m].lsn, p.lsn) && Replayed(s, UpTo(n), p)
    ensures Replayed(s, UpTo(n), s.history[m])
  {
    var h := s.history[m];
    var r: nat :| r in UpTo(n) && s.InLog(r) && s.Rec(r) == CommitRank(p.lsn, p.generation);
    assert RecordOk(s, r);
    assert PublicationOk(s, m) && PhaseOk(s, h.lsn);
    assert s.phase[h.lsn].rank in UpTo(n) && s.Rec(s.phase[h.lsn].rank) == CommitRank(h.lsn, h.generation);
  }

  lemma FileCoveredKept(s: State, n: nat, out: seq<Publication>, a: nat)
    requires Inv(s) && Left(s, n) && Replays(s, UpTo(n), out) && FileUninverted(s)
    requires IsAcked(s, a) && s.history[a].lsn <= Covered(s)
    ensures KeptFor(s, out, a)
  {
    var h := s.history[a];
    assert PublicationOk(s, a);
    var ps, k := Recovered(s, out), |ImageHistory(s)|;
    assert a < k && ps[a] == h;
    var p := LastExists(ps, |ps|, h.write.key, a);
    if p < k {
      assert ps[p] == s.history[p];
      OrderedPosition(s.history, a, p);
    } else {
      var g := out[p - k];
      assert ps[p] == g && g in out;
      ReplayedPublished(s, UpTo(n), g);
      var i: nat :| i < |s.history| && s.history[i] == g;
      if Overtaken(s, i, a) {
        var m :| a < m < |s.history| && s.history[m].write.key == h.write.key
          && s.history[m].lsn > Covered(s) && RankedFirst(s, s.history[m].lsn, s.history[i].lsn);
        FirstIsReplayed(s, n, m, i, g);
        ReplayedKept(s, UpTo(n), out, s.history[m], p);
        OrderedPosition(s.history, a, m);
      } else {
        OrderedPosition(s.history, a, i);
      }
    }
  }

  lemma FileUninvertedKeeps(s: State, n: nat, out: seq<Publication>)
    requires Inv(s) && Left(s, n) && Replays(s, UpTo(n), out) && FileUninverted(s)
    ensures AckedKept(s, out)
  {
    forall a: nat | IsAcked(s, a) ensures KeptFor(s, out, a) {
      if s.history[a].lsn <= Covered(s) {
        FileCoveredKept(s, n, out, a);
      } else {
        NewKept(s, UpTo(n), out, a);
      }
    }
  }

  // ---- The condition is necessary ----

  lemma FileExtend(run: seq<State>, s: State, t: State) returns (longer: seq<State>)
    requires FileContinues(run, s) && FileNext(Last(run), t) && t.image == s.image
    ensures FileContinues(longer, s) && Last(longer) == t
  {
    longer := run + [t];
    forall i: nat | i < |longer| - 1 ensures FileSteps(longer, i) {
      if i < |run| - 1 {
        assert FileSteps(run, i);
      }
    }
  }

  /** From `s` to `t` nothing is published, synced, or ranked but perhaps `l`, and that after everything else. */
  ghost predicate Calm(s: State, t: State, l: nat) {
    && t.history == s.history && t.image == s.image && t.durable == s.durable && |s.log| <= |t.log|
    && (forall k {:trigger k in t.phase} :: k in t.phase && k != l && IsRanked(t.phase[k]) ==>
          k in s.phase && IsRanked(s.phase[k]) && s.phase[k].rank == t.phase[k].rank)
    && (forall k {:trigger k in s.phase} :: k in s.phase && s.phase[k].Acked? ==> k in t.phase && t.phase[k].Acked?)
    && (forall k {:trigger k in s.phase} :: k in s.phase && IsRanked(s.phase[k]) ==>
          k in t.phase && IsRanked(t.phase[k]) && t.phase[k].rank == s.phase[k].rank)
  }

  /** A write whose rank is durable can be marked. */
  lemma FileMark(run0: seq<State>, s: State, l: nat) returns (run: seq<State>)
    requires FileContinues(run0, s) && FileInv(Last(run0)) && l in Last(run0).phase && IsRanked(Last(run0).phase[l])
    requires Last(run0).phase[l].rank in Last(run0).durable
    ensures FileContinues(run, s) && FileInv(Last(run)) && Calm(Last(run0), Last(run), l)
    ensures l in Last(run).phase && IsRanked(Last(run).phase[l]) && !Last(run).phase[l].Ranking?
  {
    run := run0;
    var t := Last(run0);
    if t.phase[l].Ranking? {
      var w := MarkedState(t, l);
      var u := t.(phase := t.phase[l := DataMarked(t.phase[l].gen, t.phase[l].rank)],
        marked := t.marked + {l}, watermark := w);
      assert WriterStep(t, MarkData(l), u) && Step(t, MarkData(l), u);
      FileStepKeeps(t, u);
      run := FileExtend(run, s, u);
    }
  }

  /** A marked write can be acknowledged. */
  lemma FileAck(run0: seq<State>, s: State, l: nat) returns (run: seq<State>)
    requires FileContinues(run0, s) && FileInv(Last(run0)) && l in Last(run0).phase
    requires IsRanked(Last(run0).phase[l]) && !Last(run0).phase[l].Ranking?
    ensures FileContinues(run, s) && FileInv(Last(run)) && Calm(Last(run0), Last(run), l)
    ensures l in Last(run).phase && Last(run).phase[l].Acked?
  {
    run := run0;
    var t := Last(run0);
    if t.phase[l].DataMarked? {
      var w := MarkedState(t, t.phase[l].rank);
      var u := t.(phase := t.phase[l := RankMarked(t.phase[l].gen, t.phase[l].rank)],
        marked := t.marked + {t.phase[l].rank}, watermark := w);
      assert WriterStep(t, MarkRank(l), u) && Step(t, MarkRank(l), u);
      FileStepKeeps(t, u);
      run := FileExtend(run, s, u);
      t := u;
    }
    if t.phase[l].RankMarked? {
      var u := t.(phase := t.phase[l := Acked(t.phase[l].gen, t.phase[l].rank)]);
      assert WriterStep(t, Acknowledge(l), u) && Step(t, Acknowledge(l), u);
      FileStepKeeps(t, u);
      run := FileExtend(run, s, u);
    }
  }

  /** A published write can be ranked. */
  lemma FileRank(run0: seq<State>, s: State, l: nat) returns (run: seq<State>)
    requires FileContinues(run0, s) && FileInv(Last(run0)) && l in Last(run0).phase && IsPublished(Last(run0).phase[l])
    ensures FileContinues(run, s) && FileInv(Last(run)) && Calm(Last(run0), Last(run), l)
    ensures l in Last(run).phase && IsRanked(Last(run).phase[l])
  {
    run := run0;
    var t := Last(run0);
    if t.phase[l].Visible? {
      var u := t.(log := t.log + [CommitRank(l, t.phase[l].gen)],
        phase := t.phase[l := Ranking(t.phase[l].gen, t.NextLsn())]);
      assert WriterStep(t, AppendRank(l), u) && Step(t, AppendRank(l), u);
      FileStepKeeps(t, u);
      run := FileExtend(run, s, u);
    }
  }

  /** The file is synced up to the rank of `l`. */
  lemma FileSync(run0: seq<State>, s: State, l: nat) returns (run: seq<State>)
    requires FileContinues(run0, s) && FileInv(Last(run0)) && l in Last(run0).phase && IsRanked(Last(run0).phase[l])
    ensures FileContinues(run, s) && FileInv(Last(run))
    ensures SyncTo(Last(run0), Last(run0).phase[l].rank, Last(run))
  {
    var t := Last(run0);
    assert PhaseOk(t, l);
    var u := t.(durable := t.durable + UpTo(t.phase[l].rank));
    assert SyncTo(t, t.phase[l].rank, u);
    FileStepKeeps(t, u);
    run := FileExtend(run0, s, u);
  }

  /** A prefix that is not empty is all LSNs up to its last. */
  lemma PrefixIsUpTo(s: State) returns (n: nat)
    requires FileInv(s)
    ensures s.durable == UpTo(n) && n <= |s.log|
  {
    n := LastDurable(s, |s.log|);
  }

  lemma {:induction false} LastDurable(s: State, k: nat) returns (n: nat)
    requires FileInv(s) && forall l :: l in s.durable ==> 1 <= l <= k
    ensures s.durable == UpTo(n) && n <= k
  {
    if k == 0 || k in s.durable {
      n := k;
      forall l: nat | 1 <= l <= k ensures l in s.durable {
        assert k in s.durable;
      }
    } else {
      n := LastDurable(s, k - 1);
    }
  }

  /** Write `m` was not ranked before `x`, and `x` was ranked, then synced: `m` is not ranked durably. */
  lemma NotRankedFirst(s: State, t: State, u: State, v: State, x: nat, y: nat, m: nat)
    requires FileInv(s) && Calm(s, t, y) && Calm(t, u, x) && m != x && m != y && !RankedFirst(s, m, x)
    requires x in u.phase && IsRanked(u.phase[x]) && SyncTo(u, u.phase[x].rank, v)
    ensures !RankedDurably(v, m)
  {
    if m in u.phase && IsRanked(u.phase[m]) {
      assert m in t.phase && m in s.phase;
      assert x in s.phase && IsRanked(s.phase[x]);
      assert PhaseOk(s, m) && PhaseOk(s, x);
      assert s.phase[x].rank == u.phase[x].rank < s.phase[m].rank == u.phase[m].rank;
    }
  }

  /** An inversion without a shield can lose an acknowledged write. */
  lemma FileInvertedLoses(s: State, i: nat, j: nat) returns (run: seq<State>, n: nat, out: seq<Publication>)
    requires FileInv(s) && Overtaken(s, i, j) && !FileShielded(s, i, j)
    ensures FileContinues(run, s) && Inv(Last(run)) && Left(Last(run), n) && Replays(Last(run), UpTo(n), out)
    ensures IsAcked(Last(run), j) && !KeptFor(Last(run), out, j)
  {
    var x, y := s.history[i].lsn, s.history[j].lsn;
    assert PublicationOk(s, i) && PublicationOk(s, j);
    WatermarkCommitted(s, y);
    assert y in s.marked && PhaseOk(s, y);
    var first := FileAck([s], s, y);
    var t := Last(first);
    assert PublicationOk(t, i);
    var second := FileRank(first, s, x);
    var u := Last(second);
    run := FileSync(second, s, x);
    var v := Last(run);
    n := PrefixIsUpTo(v);
    out := ReplayExists(v, v.durable);
    assert PhaseOk(u, x);
    forall m | j < m < |v.history| && v.history[m].write.key == v.history[j].write.key && v.history[m].lsn > Covered(v)
      ensures !RankedDurably(v, v.history[m].lsn)
    {
      PublishedOnce(s, i, m);
      PublishedOnce(s, j, m);
      assert !RankedFirst(s, s.history[m].lsn, x);
      NotRankedFirst(s, t, u, v, x, y, s.history[m].lsn);
    }
    UnshieldedLost(v, out, i, j);
  }

  /** On a file a checkpoint is safe from there on exactly when every overtaken write is shielded. */
  lemma FileSafeExactly(s: State)
    requires FileReachable(s)
    ensures FileAlwaysKept(s) <==> FileUninverted(s)
  {
    FileReachableInv(s);
    if FileUninverted(s) {
      forall run: seq<State>, n: nat, out: seq<Publication> |
        FileContinues(run, s) && ImageOk(Last(run)) && Left(Last(run), n) && Replays(Last(run), UpTo(n), out)
        ensures AckedKept(Last(run), out)
      {
        FileRunUninverted(run, s, |run| - 1);
        FileUninvertedKeeps(Last(run), n, out);
      }
    } else {
      var i: nat, j: nat :| Overtaken(s, i, j) && !FileShielded(s, i, j);
      var run, n, out := FileInvertedLoses(s, i, j);
      assert FileContinues(run, s) && Left(Last(run), n) && Replays(Last(run), UpTo(n), out);
      assert !AckedKept(Last(run), out);
    }
  }

  // ---- A file run is a run ----

  /** A sync of the file is a sync of each record. */
  lemma {:induction false} SyncReachable(s: State, n: nat, s': State)
    requires Reachable(s) && SyncTo(s, n, s')
    ensures Reachable(s')
    decreases n
  {
    if n == 0 {
      assert s' == s;
    } else {
      var t := s.(durable := s.durable + UpTo(n - 1));
      SyncReachable(s, n - 1, t);
      assert s'.durable == t.durable + {n};
      assert OtherStep(t, Sync(n), s');
      StepReachable(t, Sync(n), s');
    }
  }

  lemma {:induction false} FileRunReachable(run: seq<State>, i: nat)
    requires FileRun(run) && Reachable(run[0]) && i < |run|
    ensures Reachable(run[i])
  {
    if i > 0 {
      FileRunReachable(run, i - 1);
      assert FileSteps(run, i - 1);
      if a: Action :| !a.Sync? && Step(run[i - 1], a, run[i]) {
        StepReachable(run[i - 1], a, run[i]);
      } else {
        var n: nat :| SyncTo(run[i - 1], n, run[i]);
        SyncReachable(run[i - 1], n, run[i]);
      }
    }
  }

  lemma FileIsReachable(s: State)
    requires FileReachable(s)
    ensures Reachable(s)
  {
    var run :| FileRun(run) && run[0] == Initial(s.origin) && run[|run| - 1] == s;
    assert Run([run[0]]) && [run[0]][0] == run[0];
    FileRunReachable(run, |run| - 1);
  }

  // ---- An inversion is reachable ----

  lemma FileStepReachable(s: State, t: State)
    requires FileReachable(s) && FileNext(s, t) && t.origin == s.origin
    ensures FileReachable(t)
  {
    var run :| FileRun(run) && run[0] == Initial(s.origin) && run[|run| - 1] == s;
    var longer := run + [t];
    forall i: nat | i < |longer| - 1 ensures FileSteps(longer, i) {
      if i < |run| - 1 {
        assert FileSteps(run, i);
      }
    }
    assert FileRun(longer) && longer[0] == Initial(t.origin) && longer[|longer| - 1] == t;
  }

  /** The origin of a run does not change. */
  lemma {:induction false} FileReachableAt(run: seq<State>, s: State, i: nat)
    requires FileReachable(s) && FileContinues(run, s) && i < |run|
    ensures FileReachable(run[i]) && run[i].origin == s.origin
  {
    if i > 0 {
      FileReachableAt(run, s, i - 1);
      assert FileSteps(run, i - 1);
      SameOrigin(run[i - 1], run[i]);
      FileStepReachable(run[i - 1], run[i]);
    }
  }

  lemma SameOrigin(s: State, s': State)
    requires FileNext(s, s')
    ensures s'.origin == s.origin
  {
    if a: Action :| Step(s, a, s') {
    }
  }

  lemma FileReachableOn(run: seq<State>, s: State)
    requires FileReachable(s) && FileContinues(run, s)
    ensures FileReachable(Last(run)) && Last(run).origin == s.origin
  {
    FileReachableAt(run, s, |run| - 1);
  }

  lemma ByAction(s: State, a: Action, t: State)
    requires FileReachable(s) && Step(s, a, t) && !a.Sync?
    ensures FileReachable(t)
  {
    FileStepReachable(s, t);
  }

  lemma BySync(s: State, n: nat, t: State)
    requires FileReachable(s) && SyncTo(s, n, t)
    ensures FileReachable(t)
  {
    FileStepReachable(s, t);
  }

  /** Both writes are appended and durable; the second record is published first. */
  lemma TwoWritesPublished(origin: Contents, newer: Write, older: Write) returns (s: State)
    requires newer.mode == Upsert && older.mode == Upsert
    ensures FileReachable(s) && s.log == [Data(newer), Data(older)] && s.marked == {} && s.watermark == 0
    ensures s.history == [Publication(2, 1, older), Publication(1, 2, newer)]
    ensures 1 in s.phase && s.phase[1] == Visible(2) && s.checkpointer == Resting
  {
    var s0 := Initial(origin);
    assert FileRun([s0]) && [s0][0] == s0;
    var s1 := s0.(log := [Data(newer)], phase := s0.phase[1 := Appended]);
    assert WriterStep(s0, Append(newer), s1);
    ByAction(s0, Append(newer), s1);
    var s2 := s1.(log := [Data(newer), Data(older)], phase := s1.phase[2 := Appended]);
    assert WriterStep(s1, Append(older), s2);
    ByAction(s1, Append(older), s2);
    var s4 := s2.(durable := s2.durable + UpTo(2));
    BySync(s2, 2, s4);
    var s5 := PublishUpsert(s4, 2);
    s := PublishUpsert(s5, 1);
  }

  lemma PublishUpsert(s: State, l: nat) returns (t: State)
    requires FileReachable(s) && l in s.phase && s.phase[l] == Appended && l in s.durable && s.InLog(l)
    requires s.Rec(l).Data? && s.Rec(l).write.mode == Upsert
    ensures FileReachable(t)
    ensures t == s.(commitSeq := s.commitSeq + 1, phase := s.phase[l := Visible(s.commitSeq + 1)],
                    history := s.history + [Publication(l, s.commitSeq + 1, s.Rec(l).write)])
  {
    var s1 := s.(phase := s.phase[l := Loaded(|s.history|)]);
    assert WriterStep(s, Load(l), s1);
    ByAction(s, Load(l), s1);
    var s2 := s1.(commitSeq := s.commitSeq + 1, phase := s1.phase[l := Claimed(|s.history|, s.commitSeq + 1)]);
    assert WriterStep(s1, Claim(l), s2);
    ByAction(s1, Claim(l), s2);
    t := s2.(history := s.history + [Publication(l, s.commitSeq + 1, s.Rec(l).write)],
      phase := s2.phase[l := Visible(s.commitSeq + 1)]);
    assert WriterStep(s2, Publish(l), t);
    ByAction(s2, Publish(l), t);
    assert t.phase == s.phase[l := Visible(s.commitSeq + 1)];
  }

  /** A checkpoint up to the publication of its image, with no other step between. */
  lemma TakeImage(s: State) returns (t: State)
    requires FileReachable(s) && s.checkpointer.Resting?
    ensures FileReachable(t)
    ensures t == s.(checkpointer := Recording(s.watermark), image := Some(Image(s.watermark, |s.history|)))
  {
    var s1 := s.(checkpointer := ReadMark(s.watermark));
    ByAction(s, ReadWatermark, s1);
    var s2 := s1.(checkpointer := Captured(s.watermark, |s.history|));
    ByAction(s1, LoadRoot, s2);
    t := s2.(checkpointer := Recording(s.watermark), image := Some(Image(s.watermark, |s.history|)));
    assert OtherStep(s2, PublishImage, t);
    ByAction(s2, PublishImage, t);
  }

  /** Two upserts of one key suffice: a checkpoint between the marking of the newer and the ranking of the older. */
  lemma InversionReachable(origin: Contents, newer: Write, older: Write) returns (s: State)
    requires newer.mode == Upsert && older.mode == Upsert && newer.key == older.key
    ensures FileReachable(s) && Reachable(s) && s.image.Some? && !AlwaysKept(s) && !FileAlwaysKept(s)
  {
    var s0 := TwoWritesPublished(origin, newer, older);
    var s1 := s0.(log := s0.log + [CommitRank(1, 2)], phase := s0.phase[1 := Ranking(2, 3)]);
    assert WriterStep(s0, AppendRank(1), s1);
    ByAction(s0, AppendRank(1), s1);
    var s2 := s1.(durable := s1.durable + UpTo(3));
    BySync(s1, 3, s2);
    var s3 := s2.(phase := s2.phase[1 := DataMarked(2, 3)], marked := {1}, watermark := 1);
    assert Marks(s2, 1, s3);
    assert WriterStep(s2, MarkData(1), s3);
    ByAction(s2, MarkData(1), s3);
    s := TakeImage(s3);
    assert Overtaken(s, 0, 1) && !Shielded(s, 1) && !FileShielded(s, 0, 1);
    FileIsReachable(s);
    SafeExactly(s);
    FileSafeExactly(s);
  }
}
