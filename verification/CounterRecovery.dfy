/**
 Counters. A durable increment goes through the same steps as any write, but its record holds
 what it adds, and replaying the record adds it to what the image holds. So it matters how
 often an increment is counted after a crash: once for the image, and once for the replay.
 */
module CounterRecovery {
  import opened Words
  import opened WriteLog
  import opened OrderA
  import opened CrashSafety
  import opened CheckpointInversion
  import opened FileDurability

  /** What the first `n` publications add to a key, when a write adds `amount`. */
  function Added(ps: seq<Publication>, n: nat, key: Key, amount: Write -> nat): nat
    requires n <= |ps|
  {
    if n == 0 then 0 else Added(ps, n - 1, key, amount) + Share(ps[n - 1], key, amount)
  }

  function Share(p: Publication, key: Key, amount: Write -> nat): nat {
    if p.write.key == key then amount(p.write) else 0
  }

  predicate InImage(s: State, i: nat) {
    s.image.Some? && i < s.image.value.rev
  }

  /** How often publication `i` is counted after a crash. */
  ghost function Times(s: State, alive: set<nat>, i: nat): nat
    requires i < |s.history|
  {
    (if InImage(s, i) then 1 else 0) + if Replayed(s, alive, s.history[i]) then 1 else 0
  }

  /** What the first `n` publications add to a key, each as often as it is counted. */
  ghost function Weighted(s: State, alive: set<nat>, n: nat, key: Key, amount: Write -> nat): nat
    requires n <= |s.history|
  {
    if n == 0 then 0
    else Weighted(s, alive, n - 1, key, amount) + Times(s, alive, n - 1) * Share(s.history[n - 1], key, amount)
  }

  // ---- The recovered counter ----

  lemma {:induction false} AddedConcat(ps: seq<Publication>, qs: seq<Publication>, n: nat, key: Key,
                                       amount: Write -> nat)
    requires n <= |qs|
    ensures Added(ps + qs, |ps| + n, key, amount) == Added(ps, |ps|, key, amount) + Added(qs, n, key, amount)
  {
    if n == 0 {
      AddedPrefix(ps, ps + qs, |ps|, key, amount);
    } else {
      AddedConcat(ps, qs, n - 1, key, amount);
      assert (ps + qs)[|ps| + n - 1] == qs[n - 1];
    }
  }

  lemma {:induction false} AddedPrefix(ps: seq<Publication>, qs: seq<Publication>, n: nat, key: Key,
                                       amount: Write -> nat)
    requires n <= |ps| && n <= |qs| && forall i :: 0 <= i < n ==> ps[i] == qs[i]
    ensures Added(ps, n, key, amount) == Added(qs, n, key, amount)
  {
    if n > 0 {
      AddedPrefix(ps, qs, n - 1, key, amount);
    }
  }

  lemma AddedLast(ps: seq<Publication>, p: Publication, key: Key, amount: Write -> nat)
    ensures Added(ps + [p], |ps| + 1, key, amount) == Added(ps, |ps|, key, amount) + Share(p, key, amount)
  {
    AddedPrefix(ps, ps + [p], |ps|, key, amount);
  }

  lemma SelectedAdds(s: State, alive: set<nat>, n: nat, key: Key, amount: Write -> nat)
    requires n < |s.history|
    ensures Added(Selected(s, alive, n + 1), |Selected(s, alive, n + 1)|, key, amount) ==
      Added(Selected(s, alive, n), |Selected(s, alive, n)|, key, amount) +
      if Replayed(s, alive, s.history[n]) then Share(s.history[n], key, amount) else 0
  {
    AddedLast(Selected(s, alive, n), s.history[n], key, amount);
  }

  lemma WithTimes(times: nat, share: nat)
    requires times <= 2
    ensures times * share == if times == 0 then 0 else if times == 1 then share else share + share
  {
  }

  /** The part of the image among the first `n` publications, and of what is replayed. */
  lemma {:induction false} WeightedParts(s: State, alive: set<nat>, n: nat, key: Key, amount: Write -> nat)
    requires ImageOk(s) && n <= |s.history|
    ensures var k := |ImageHistory(s)|;
      Weighted(s, alive, n, key, amount) ==
      Added(s.history, if n < k then n else k, key, amount) +
      Added(Selected(s, alive, n), |Selected(s, alive, n)|, key, amount)
  {
    if n > 0 {
      WeightedParts(s, alive, n - 1, key, amount);
      SelectedAdds(s, alive, n - 1, key, amount);
      WithTimes(Times(s, alive, n - 1), Share(s.history[n - 1], key, amount));
    }
  }

  /** A recovered counter holds every published increment as often as it is counted. */
  lemma RecoveredCounter(s: State, alive: set<nat>, out: seq<Publication>, key: Key, amount: Write -> nat)
    requires Inv(s) && Survives(s, alive) && Replays(s, alive, out)
    ensures Added(Recovered(s, out), |Recovered(s, out)|, key, amount) ==
      Weighted(s, alive, |s.history|, key, amount)
  {
    var all := ReplayExists(s, alive);
    ReplaysUnique(s, alive, out, all);
    var image := ImageHistory(s);
    AddedConcat(image, out, |out|, key, amount);
    AddedPrefix(image, s.history, |image|, key, amount);
    WeightedParts(s, alive, |s.history|, key, amount);
  }

  // ---- Once ----

  /** Publication `i` is in the image although the image does not cover its record. */
  predicate Overlapped(s: State, i: nat) {
    InImage(s, i) && i < |s.history| && s.history[i].lsn > Covered(s)
  }

  predicate Disjoint(s: State) {
    forall i: nat :: i < |s.history| ==> !Overlapped(s, i)
  }

  /** An acknowledged increment is counted, whatever survives. */
  lemma AckedCounted(s: State, alive: set<nat>, i: nat)
    requires Inv(s) && Survives(s, alive) && IsAcked(s, i)
    ensures Times(s, alive, i) >= 1
  {
    var h := s.history[i];
    assert PublicationOk(s, i);
    if h.lsn > Covered(s) {
      assert PhaseOk(s, h.lsn) && h in s.history && RankedDurably(s, h.lsn);
      ReplayedPublished(s, alive, h);
    }
  }

  /** It is counted twice exactly if the image holds it uncovered and it is replayed. */
  lemma TwiceExactly(s: State, alive: set<nat>, i: nat)
    requires Inv(s) && i < |s.history|
    ensures Times(s, alive, i) <= 2
    ensures Times(s, alive, i) == 2 <==> Overlapped(s, i) && Replayed(s, alive, s.history[i])
  {
  }

  /** However the run goes on with this image, at every crash each acknowledged increment is counted once. */
  ghost predicate AlwaysOnce(s: State) {
    forall run: seq<State>, n: nat, i: nat
      ::
      FileContinues(run, s) && Left(Last(run), n) && IsAcked(Last(run), i) ==> Times(Last(run), UpTo(n), i) == 1
  }

  lemma {:induction false} DisjointStays(run: seq<State>, s: State, k: nat)
    requires FileInv(s) && FileContinues(run, s) && k < |run|
    ensures FileInv(run[k]) && |s.history| <= |run[k].history|
    ensures forall i :: 0 <= i < |s.history| ==> run[k].history[i] == s.history[i]
  {
    FileRunKeeps(run, k);
    if k > 0 {
      DisjointStays(run, s, k - 1);
      assert FileSteps(run, k - 1);
      FileStepKeeps(run[k - 1], run[k]);
    }
  }

  /** An overlapped increment can be ranked, synced and acknowledged; then it is counted twice. */
  lemma OverlappedTwice(s: State, i: nat) returns (run: seq<State>, n: nat)
    requires FileInv(s) && Overlapped(s, i)
    ensures FileContinues(run, s) && Left(Last(run), n) && IsAcked(Last(run), i)
    ensures Times(Last(run), UpTo(n), i) == 2 && Last(run).history == s.history
  {
    var x := s.history[i].lsn;
    assert PublicationOk(s, i);
    var ranked := FileRank([s], s, x);
    var synced := FileSync(ranked, s, x);
    assert PhaseOk(Last(ranked), x);
    var marked := FileMark(synced, s, x);
    run := FileAck(marked, s, x);
    var t := Last(run);
    n := PrefixIsUpTo(t);
    assert PhaseOk(t, x) && PublicationOk(t, i);
    var h := t.history[i];
    assert h in t.history && RankedDurably(t, h.lsn);
    ReplayedPublished(t, UpTo(n), h);
  }

  /** Acknowledged increments are counted once exactly if the image holds only publications that it covers. */
  lemma OnceExactly(s: State)
    requires FileReachable(s)
    ensures AlwaysOnce(s) <==> Disjoint(s)
  {
    FileReachableInv(s);
    if Disjoint(s) {
      forall run: seq<State>, n: nat, i: nat |
        FileContinues(run, s) && Left(Last(run), n) && IsAcked(Last(run), i)
        ensures Times(Last(run), UpTo(n), i) == 1
      {
        DisjointStays(run, s, |run| - 1);
        AckedCounted(Last(run), UpTo(n), i);
        TwiceExactly(Last(run), UpTo(n), i);
        if Overlapped(Last(run), i) {
          assert Overlapped(s, i);
        }
      }
    } else {
      var i: nat :| i < |s.history| && Overlapped(s, i);
      var run, n := OverlappedTwice(s, i);
    }
  }

  // ---- The value of a counter ----

  /** What the acknowledged ones among the first `n` publications add. */
  ghost function AckedAdded(s: State, n: nat, key: Key, amount: Write -> nat): nat
    requires n <= |s.history|
  {
    if n == 0 then 0
    else AckedAdded(s, n - 1, key, amount) + if IsAcked(s, n - 1) then Share(s.history[n - 1], key, amount) else 0
  }

  lemma {:induction false} WeightedBetween(s: State, alive: set<nat>, n: nat, key: Key, amount: Write -> nat)
    requires Inv(s) && Survives(s, alive) && n <= |s.history|
    ensures AckedAdded(s, n, key, amount) <= Weighted(s, alive, n, key, amount)
    ensures Disjoint(s) ==> Weighted(s, alive, n, key, amount) <= Added(s.history, n, key, amount)
  {
    if n > 0 {
      WeightedBetween(s, alive, n - 1, key, amount);
      TwiceExactly(s, alive, n - 1);
      if IsAcked(s, n - 1) {
        AckedCounted(s, alive, n - 1);
      }
      WithTimes(Times(s, alive, n - 1), Share(s.history[n - 1], key, amount));
    }
  }

  /** A recovered counter holds all acknowledged increments, and nothing twice if the image covers what it holds. */
  lemma CounterBetween(s: State, alive: set<nat>, out: seq<Publication>, key: Key, amount: Write -> nat)
    requires Inv(s) && Survives(s, alive) && Replays(s, alive, out)
    ensures AckedAdded(s, |s.history|, key, amount) <= Added(Recovered(s, out), |Recovered(s, out)|, key, amount)
    ensures Disjoint(s) ==>
      Added(Recovered(s, out), |Recovered(s, out)|, key, amount) <= Added(s.history, |s.history|, key, amount)
  {
    RecoveredCounter(s, alive, out, key, amount);
    WeightedBetween(s, alive, |s.history|, key, amount);
  }

  /** The image of a root with one increment that is not ranked yet. */
  lemma ImageBeforeRank(origin: Contents, w: Write) returns (s: State)
    requires w.mode == Upsert
    ensures FileReachable(s) && s.history == [Publication(1, 1, w)] && s.image == Some(Image(0, 1))
  {
    var s0 := Initial(origin);
    assert FileRun([s0]) && [s0][0] == s0;
    var s1 := s0.(log := [Data(w)], phase := s0.phase[1 := Appended]);
    assert WriterStep(s0, Append(w), s1);
    ByAction(s0, Append(w), s1);
    var s2 := s1.(durable := s1.durable + UpTo(1));
    BySync(s1, 1, s2);
    var s3 := PublishUpsert(s2, 1);
    s := TakeImage(s3);
  }

  /** One increment suffices: a checkpoint between its publication and its ranking makes the counter hold it twice. */
  lemma CountedTwice(origin: Contents, w: Write, amount: Write -> nat)
    returns (s: State, n: nat, out: seq<Publication>)
    requires w.mode == Upsert
    ensures FileReachable(s) && s.history == [Publication(1, 1, w)] && IsAcked(s, 0)
    ensures ImageOk(s) && Left(s, n) && Replays(s, UpTo(n), out)
    ensures Added(s.history, 1, w.key, amount) == amount(w)
    ensures Added(Recovered(s, out), |Recovered(s, out)|, w.key, amount) == amount(w) + amount(w)
  {
    var image := ImageBeforeRank(origin, w);
    FileReachableInv(image);
    var run;
    run, n := OverlappedTwice(image, 0);
    FileReachableOn(run, image);
    s := Last(run);
    FileReachableInv(s);
    out := ReplayExists(s, UpTo(n));
    RecoveredCounter(s, UpTo(n), out, w.key, amount);
    WithTimes(2, amount(w));
  }
}
