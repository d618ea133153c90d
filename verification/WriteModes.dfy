/**
 When a write takes effect. A durable insert is published only where its key is absent, a removal
 only where it is present, a compare-and-swap only where the expected value is found; a write that
 is refused met the opposite. All this on the root that the write loaded, in every reachable state.
 And no write is ever stuck: from every reachable state it can come to its end.
 */
module WriteModes {
  import opened Words
  import opened WriteLog
  import opened OrderA
  import opened CommittedWatermark
  import opened CheckpointInversion

  /** What publication `i` found at its key. */
  function Found(s: State, i: nat): Option<Value>
    requires i < |s.history|
  {
    Lookup(s.Root(i), s.history[i].write.key)
  }

  /** A publication found at its key what its mode asks for. */
  lemma PublishedAsAsked(s: State, i: nat)
    requires Reachable(s) && i < |s.history|
    ensures s.history[i].write.mode.InsertOnce? ==> Found(s, i) == None
    ensures s.history[i].write.mode.RemovePresent? ==> Found(s, i) != None
    ensures s.history[i].write.mode.CompareAndSwap? ==> Found(s, i) == s.history[i].write.mode.expected
  {
    ReachableInv(s);
    assert PublicationOk(s, i);
  }

  /** A refused write found something else, on a root that was published. */
  lemma RefusedAsAsked(s: State, l: nat)
    requires Reachable(s) && l in s.phase && (s.phase[l].Refused? || s.phase[l].Burned?)
    ensures s.InLog(l) && s.Rec(l).Data? && s.phase[l].rev <= |s.history|
    ensures !s.Rec(l).write.mode.Upsert?
    ensures var w, found := s.Rec(l).write, Lookup(s.Root(s.phase[l].rev), s.Rec(l).write.key);
      && (w.mode.InsertOnce? ==> found != None)
      && (w.mode.RemovePresent? ==> found == None)
      && (w.mode.CompareAndSwap? ==> found != w.mode.expected)
  {
    ReachableInv(s);
    assert PhaseOk(s, l);
  }

  /** Between two publications to a key the last one before the second wrote what the second found. */
  lemma LastBefore(s: State, i: nat, j: nat) returns (k: nat)
    requires Reachable(s) && i < j < |s.history| && s.history[i].write.key == s.history[j].write.key
    ensures i <= k < j && s.history[k].write.key == s.history[j].write.key
    ensures s.history[k].write.value == Found(s, j)
  {
    var key := s.history[j].write.key;
    k := LastExists(s.history, j, key, i);
    LastWriterWins(s.origin, s.history, j, key);
  }

  /** Two inserts of one key are both published only if a publication between them removed it. */
  lemma InsertedTwice(s: State, i: nat, j: nat) returns (k: nat)
    requires Reachable(s) && i < j < |s.history| && s.history[i].write.key == s.history[j].write.key
    requires s.history[i].write.value != None && s.history[j].write.mode.InsertOnce?
    ensures i < k < j && s.history[k].write.key == s.history[j].write.key && s.history[k].write.value == None
  {
    PublishedAsAsked(s, j);
    k := LastBefore(s, i, j);
  }

  /** Two compare-and-swaps from one value are both published only if one between them wrote that value again. */
  lemma SwappedTwice(s: State, i: nat, j: nat) returns (k: nat)
    requires Reachable(s) && i < j < |s.history| && s.history[i].write.key == s.history[j].write.key
    requires s.history[j].write.mode.CompareAndSwap?
    requires s.history[i].write.value != s.history[j].write.mode.expected
    ensures i < k < j && s.history[k].write.key == s.history[j].write.key
    ensures s.history[k].write.value == s.history[j].write.mode.expected
  {
    PublishedAsAsked(s, j);
    k := LastBefore(s, i, j);
  }

  // ---- Every write ends ----

  predicate Admits(mode: Mode, found: Option<Value>) {
    && (mode.InsertOnce? ==> found == None)
    && (mode.RemovePresent? ==> found != None)
    && (mode.CompareAndSwap? ==> found == mode.expected)
  }

  /** What the write with LSN `l` would find now. */
  function FindsNow(s: State, l: nat): Option<Value>
    requires s.InLog(l) && s.Rec(l).Data?
  {
    Lookup(s.Root(|s.history|), s.Rec(l).write.key)
  }

  lemma WriteInLog(s: State, l: nat)
    requires Reachable(s) && l in s.phase
    ensures s.InLog(l) && s.Rec(l).Data?
  {
    ReachableInv(s);
    assert PhaseOk(s, l);
  }

  /** A write that is not decided yet can load the root as it is and draw a ticket. */
  lemma Claims(s: State, l: nat) returns (t: State)
    requires Reachable(s) && l in s.phase && (s.phase[l].Appended? || s.phase[l].Loaded? || s.phase[l].Claimed?)
    ensures Reachable(t) && t.history == s.history && t.log == s.log && t.origin == s.origin
    ensures l in t.phase && t.phase[l].Claimed? && t.phase[l].rev == |s.history|
    decreases if s.phase[l].Appended? then 0 else if s.phase[l].Claimed? then 1 else 2
  {
    WriteInLog(s, l);
    if s.phase[l].Appended? {
      var s1 := s.(durable := s.durable + {l});
      assert OtherStep(s, Sync(l), s1);
      StepReachable(s, Sync(l), s1);
      var s2 := s1.(phase := s1.phase[l := Loaded(|s.history|)]);
      assert WriterStep(s1, Load(l), s2);
      StepReachable(s1, Load(l), s2);
      t := s2.(commitSeq := s2.commitSeq + 1, phase := s2.phase[l := Claimed(|s.history|, s2.commitSeq + 1)]);
      assert WriterStep(s2, Claim(l), t);
      StepReachable(s2, Claim(l), t);
    } else if s.phase[l].Claimed? {
      var s1 := s.(phase := s.phase[l := Appended]);
      assert WriterStep(s, Retry(l), s1);
      StepReachable(s, Retry(l), s1);
      t := Claims(s1, l);
    } else {
      var s1 := s.(commitSeq := s.commitSeq + 1, phase := s.phase[l := Claimed(s.phase[l].rev, s.commitSeq + 1)]);
      assert WriterStep(s, Claim(l), s1);
      StepReachable(s, Claim(l), s1);
      t := Claims(s1, l);
    }
  }

  /** On the root as it is a write that found what it asks for is published, and otherwise refused. */
  lemma Decides(s: State, l: nat) returns (t: State)
    requires Reachable(s) && l in s.phase && s.phase[l].Claimed? && s.phase[l].rev == |s.history|
    ensures s.InLog(l) && s.Rec(l).Data? && Reachable(t) && l in t.phase
    ensures if Admits(s.Rec(l).write.mode, FindsNow(s, l))
      then t.phase[l].Visible? && t.history == s.history + [Publication(l, s.phase[l].gen, s.Rec(l).write)]
      else t.phase[l].Refused? && t.history == s.history
  {
    WriteInLog(s, l);
    var w := s.Rec(l).write;
    if Applies(w, s.Root(|s.history|)) {
      t := s.(history := s.history + [Publication(l, s.phase[l].gen, w)],
        phase := s.phase[l := Visible(s.phase[l].gen)]);
      assert WriterStep(s, Publish(l), t);
      StepReachable(s, Publish(l), t);
    } else {
      t := s.(phase := s.phase[l := Refused(|s.history|)]);
      assert WriterStep(s, Refuse(l), t);
      StepReachable(s, Refuse(l), t);
    }
  }

  lemma Marked(s: State, l: nat) returns (w: nat)
    requires Reachable(s)
    ensures IsWatermark(0, s.marked + {l}, w)
  {
    ReachableInv(s);
    w := MarkedState(s, l);
  }

  /** A refused write is burned. */
  lemma Burns(s: State, l: nat) returns (t: State)
    requires Reachable(s) && l in s.phase && s.phase[l].Refused?
    ensures Reachable(t) && l in t.phase && t.phase[l].Burned? && t.history == s.history
  {
    var w := Marked(s, l);
    t := s.(phase := s.phase[l := Burned(s.phase[l].rev)], marked := s.marked + {l}, watermark := w);
    assert WriterStep(s, Burn(l), t);
    StepReachable(s, Burn(l), t);
  }

  /** A published write is ranked. */
  lemma Ranked(s: State, l: nat) returns (t: State)
    requires Reachable(s) && l in s.phase && s.phase[l].Visible?
    ensures Reachable(t) && l in t.phase && t.phase[l].Ranking? && t.history == s.history
  {
    t := s.(log := s.log + [CommitRank(l, s.phase[l].gen)],
      phase := s.phase[l := Ranking(s.phase[l].gen, s.NextLsn())]);
    assert WriterStep(s, AppendRank(l), t);
    StepReachable(s, AppendRank(l), t);
  }

  /** A ranked write is marked and acknowledged. */
  lemma Acknowledges(s: State, l: nat) returns (t: State)
    requires Reachable(s) && l in s.phase && IsRanked(s.phase[l])
    ensures Reachable(t) && l in t.phase && t.phase[l].Acked? && t.history == s.history
    decreases match s.phase[l] case Ranking(_, _) => 3 case DataMarked(_, _) => 2 case RankMarked(_, _) => 1 case _ => 0
  {
    var p := s.phase[l];
    if p.Acked? {
      t := s;
    } else if p.RankMarked? {
      t := s.(phase := s.phase[l := Acked(p.gen, p.rank)]);
      assert WriterStep(s, Acknowledge(l), t);
      StepReachable(s, Acknowledge(l), t);
    } else if p.DataMarked? {
      var w := Marked(s, p.rank);
      var s1 := s.(phase := s.phase[l := RankMarked(p.gen, p.rank)], marked := s.marked + {p.rank}, watermark := w);
      assert WriterStep(s, MarkRank(l), s1);
      StepReachable(s, MarkRank(l), s1);
      t := Acknowledges(s1, l);
    } else {
      var s2 := MarksData(s, l);
      t := Acknowledges(s2, l);
    }
  }

  lemma MarksData(s: State, l: nat) returns (t: State)
    requires Reachable(s) && l in s.phase && s.phase[l].Ranking?
    ensures Reachable(t) && l in t.phase && t.phase[l].DataMarked? && t.history == s.history
  {
    var p := s.phase[l];
    ReachableInv(s);
    assert PhaseOk(s, l);
    var s1 := s.(durable := s.durable + {p.rank});
    assert OtherStep(s, Sync(p.rank), s1);
    StepReachable(s, Sync(p.rank), s1);
    var w := Marked(s1, l);
    t := s1.(phase := s1.phase[l := DataMarked(p.gen, p.rank)], marked := s1.marked + {l}, watermark := w);
    assert WriterStep(s1, MarkData(l), t);
    StepReachable(s1, MarkData(l), t);
  }

  /**
   No write is stuck: left alone it is acknowledged or burned, and which of the two depends on what
   it finds at its key now, if it is not decided yet.
   */
  lemma EveryWriteEnds(s: State, l: nat) returns (t: State)
    requires Reachable(s) && l in s.phase
    ensures Reachable(t) && l in t.phase && (t.phase[l].Acked? || t.phase[l].Burned?)
    ensures s.InLog(l) && s.Rec(l).Data?
    ensures s.phase[l].Appended? || s.phase[l].Loaded? || s.phase[l].Claimed? ==>
      (t.phase[l].Acked? <==> Admits(s.Rec(l).write.mode, FindsNow(s, l)))
    ensures IsPublished(s.phase[l]) ==> t.phase[l].Acked?
    ensures s.phase[l].Refused? || s.phase[l].Burned? ==> t.phase[l].Burned?
  {
    WriteInLog(s, l);
    var u := s;
    if s.phase[l].Appended? || s.phase[l].Loaded? || s.phase[l].Claimed? {
      var v := Claims(s, l);
      u := Decides(v, l);
    }
    if u.phase[l].Burned? {
      t := u;
    } else if u.phase[l].Refused? {
      t := Burns(u, l);
    } else {
      if u.phase[l].Visible? {
        u := Ranked(u, l);
      }
      t := Acknowledges(u, l);
    }
  }

  /** The image of the root as it is, with the watermark as it is. */
  lemma Captures(s: State) returns (t: State)
    requires Reachable(s)
    ensures Reachable(t) && t.checkpointer == Recording(s.watermark)
    ensures t.image == Some(Image(s.watermark, |s.history|)) && t.history == s.history
  {
    var s0 := s.(checkpointer := Resting);
    assert OtherStep(s, Abandon, s0);
    StepReachable(s, Abandon, s0);
    var s1 := s0.(checkpointer := ReadMark(s.watermark));
    assert OtherStep(s0, ReadWatermark, s1);
    StepReachable(s0, ReadWatermark, s1);
    var s2 := s1.(checkpointer := Captured(s.watermark, |s.history|));
    assert OtherStep(s1, LoadRoot, s2);
    StepReachable(s1, LoadRoot, s2);
    t := s2.(checkpointer := Recording(s.watermark), image := Some(Image(s.watermark, |s.history|)));
    assert OtherStep(s2, PublishImage, t);
    StepReachable(s2, PublishImage, t);
  }

  /** A checkpoint left alone writes its image and its record, which is durable and marked in the end. */
  lemma EveryCheckpointEnds(s: State) returns (t: State)
    requires Reachable(s)
    ensures Reachable(t) && t.checkpointer.Resting? && t.history == s.history
    ensures t.image == Some(Image(s.watermark, |s.history|))
    ensures |t.log| > 0 && t.log[|t.log| - 1] == Checkpoint(s.watermark) && |t.log| in t.durable && |t.log| in t.marked
  {
    var s1 := Captures(s);
    var s2 := s1.(checkpointer := Logged(s.watermark, s1.NextLsn()), log := s1.log + [Checkpoint(s.watermark)]);
    assert OtherStep(s1, AppendCheckpoint, s2);
    StepReachable(s1, AppendCheckpoint, s2);
    var l := s1.NextLsn();
    var s3 := s2.(durable := s2.durable + {l});
    assert OtherStep(s2, Sync(l), s3);
    StepReachable(s2, Sync(l), s3);
    var w := Marked(s3, l);
    t := s3.(checkpointer := Resting, marked := s3.marked + {l}, watermark := w);
    assert OtherStep(s3, MarkCheckpoint, t);
    StepReachable(s3, MarkCheckpoint, t);
  }
}
