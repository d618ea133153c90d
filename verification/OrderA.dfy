/**
 The Order-A durable write protocol as a state machine: any number of writers append a
 record and wait until it is durable, publish by a compare-and-swap on the root, append a
 rank record and wait until it is durable, mark both in the watermark, and acknowledge.
 A checkpointer runs beside them. A write is known by the LSN of its data record; the
 record with LSN `l` is `log[l - 1]`.
 */
module OrderA {
  import opened Words
  import opened WriteLog
  import opened CommittedWatermark

  datatype Phase =
    | Appended
    | Loaded(rev: nat)
    | Claimed(rev: nat, gen: nat)
    | Refused(rev: nat)
    | Burned(rev: nat)
    | Visible(gen: nat)
    | Ranking(gen: nat, rank: nat)
    | DataMarked(gen: nat, rank: nat)
    | RankMarked(gen: nat, rank: nat)
    | Acked(gen: nat, rank: nat)

  predicate IsPublished(p: Phase) {
    p.Visible? || IsRanked(p)
  }

  predicate IsRanked(p: Phase) {
    p.Ranking? || p.DataMarked? || p.RankMarked? || p.Acked?
  }

  predicate IsMarked(p: Phase) {
    p.DataMarked? || p.RankMarked? || p.Acked? || p.Burned?
  }

  /** The checkpointer reads the watermark, then the root, then writes the image and its log record. */
  datatype Checkpointer =
    | Resting
    | ReadMark(upTo: nat)
    | Captured(upTo: nat, rev: nat)
    | Recording(upTo: nat)
    | Logged(upTo: nat, lsn: nat)

  /** A durable image: the root after `rev` publications, said to cover every LSN up to `upTo`. */
  datatype Image = Image(upTo: nat, rev: nat)

  /** `origin` is the map that the trie held when it was opened. LSNs and generations count from then. */
  datatype State = State(
    origin: Contents,
    log: seq<Record>,
    durable: set<nat>,
    phase: map<nat, Phase>,
    history: seq<Publication>,
    commitSeq: nat,
    marked: set<nat>,
    watermark: nat,
    checkpointer: Checkpointer,
    image: Option<Image>)
  {
    predicate InLog(l: nat) {
      1 <= l <= |log|
    }

    function Rec(l: nat): Record
      requires InLog(l)
    {
      log[l - 1]
    }

    /** The root after the first `n` publications. */
    function Root(n: nat): Contents
      requires n <= |history|
    {
      Replay(origin, history, n)
    }

    function NextLsn(): nat {
      |log| + 1
    }
  }

  function Initial(origin: Contents): State {
    State(origin, [], {}, map[], [], 0, {}, 0, Resting, None)
  }

  datatype Action =
    | Append(write: Write)
    | Sync(l: nat)
    | Load(l: nat)
    | Claim(l: nat)
    | Refuse(l: nat)
    | Retry(l: nat)
    | Publish(l: nat)
    | AppendRank(l: nat)
    | MarkData(l: nat)
    | MarkRank(l: nat)
    | Acknowledge(l: nat)
    | Burn(l: nat)
    | ReadWatermark
    | LoadRoot
    | PublishImage
    | AppendCheckpoint
    | MarkCheckpoint
    | Abandon

  /** Marks `l`; the watermark moves as far as the prefix closes. */
  predicate Marks(s: State, l: nat, s': State) {
    s'.marked == s.marked + {l} && IsWatermark(0, s'.marked, s'.watermark)
  }

  predicate WriterStep(s: State, a: Action, s': State) {
    match a
    case Append(w) =>
      s' == s.(log := s.log + [Data(w)], phase := s.phase[s.NextLsn() := Appended])
    case Load(l) =>
      // The append has returned: the record is durable.
      l in s.phase && s.phase[l] == Appended && l in s.durable && s' == s.(phase := s.phase[l := Loaded(|s.history|)])
    case Claim(l) =>
      // The ticket is drawn after the root was loaded.
      && l in s.phase && s.phase[l].Loaded?
      && s' == s.(commitSeq := s.commitSeq + 1, phase := s.phase[l := Claimed(s.phase[l].rev, s.commitSeq + 1)])
    case Refuse(l) =>
      && l in s.phase && s.phase[l].Claimed? && s.InLog(l) && s.Rec(l).Data? && s.phase[l].rev <= |s.history|
      && !Applies(s.Rec(l).write, s.Root(s.phase[l].rev))
      && s' == s.(phase := s.phase[l := Refused(s.phase[l].rev)])
    case Retry(l) =>
      // The root changed since it was loaded, or the exchange failed spuriously.
      l in s.phase && s.phase[l].Claimed? && s' == s.(phase := s.phase[l := Appended])
    case Publish(l) =>
      && l in s.phase && s.phase[l].Claimed? && s.InLog(l) && s.Rec(l).Data? && s.phase[l].rev == |s.history|
      && Applies(s.Rec(l).write, s.Root(s.phase[l].rev))
      && s' == s.(history := s.history + [Publication(l, s.phase[l].gen, s.Rec(l).write)],
                  phase := s.phase[l := Visible(s.phase[l].gen)])
    case AppendRank(l) =>
      && l in s.phase && s.phase[l].Visible?
      && s' == s.(log := s.log + [CommitRank(l, s.phase[l].gen)],
        phase := s.phase[l := Ranking(s.phase[l].gen, s.NextLsn())])
    case MarkData(l) =>
      && l in s.phase && s.phase[l].Ranking? && s.phase[l].rank in s.durable && Marks(s, l, s')
      && s' == s.(phase := s.phase[l := DataMarked(s.phase[l].gen, s.phase[l].rank)], marked := s'.marked,
        watermark := s'.watermark)
    case MarkRank(l) =>
      && l in s.phase && s.phase[l].DataMarked? && Marks(s, s.phase[l].rank, s')
      && s' == s.(phase := s.phase[l := RankMarked(s.phase[l].gen, s.phase[l].rank)], marked := s'.marked,
        watermark := s'.watermark)
    case Acknowledge(l) =>
      l in s.phase && s.phase[l].RankMarked? && s' == s.(phase := s.phase[l := Acked(s.phase[l].gen, s.phase[l].rank)])
    case Burn(l) =>
      && l in s.phase && s.phase[l].Refused? && Marks(s, l, s')
      && s' == s.(phase := s.phase[l := Burned(s.phase[l].rev)], marked := s'.marked, watermark := s'.watermark)
    case _ => false
  }

  predicate OtherStep(s: State, a: Action, s': State) {
    match a
    case Sync(l) =>
      s.InLog(l) && s' == s.(durable := s.durable + {l})
    case ReadWatermark =>
      s.checkpointer.Resting? && s' == s.(checkpointer := ReadMark(s.watermark))
    case LoadRoot =>
      s.checkpointer.ReadMark? && s' == s.(checkpointer := Captured(s.checkpointer.upTo, |s.history|))
    case PublishImage =>
      // The image states its own coverage, written together with it.
      && s.checkpointer.Captured?
      && s' == s.(checkpointer := Recording(s.checkpointer.upTo),
        image := Some(Image(s.checkpointer.upTo, s.checkpointer.rev)))
    case AppendCheckpoint =>
      && s.checkpointer.Recording?
      && s' == s.(checkpointer := Logged(s.checkpointer.upTo, s.NextLsn()),
        log := s.log + [Checkpoint(s.checkpointer.upTo)])
    case MarkCheckpoint =>
      && s.checkpointer.Logged? && s.checkpointer.lsn in s.durable && Marks(s, s.checkpointer.lsn, s')
      && s' == s.(checkpointer := Resting, marked := s'.marked, watermark := s'.watermark)
    case Abandon =>
      s' == s.(checkpointer := Resting)
    case _ => false
  }

  predicate Step(s: State, a: Action, s': State) {
    WriterStep(s, a, s') || OtherStep(s, a, s')
  }

  ghost predicate Next(s: State, s': State) {
    exists a :: Step(s, a, s')
  }

  ghost predicate Steps(run: seq<State>, i: nat) {
    i + 1 < |run| && Next(run[i], run[i + 1])
  }

  ghost predicate Run(run: seq<State>) {
    |run| > 0 && forall i: nat :: i < |run| - 1 ==> Steps(run, i)
  }

  ghost predicate Reachable(s: State) {
    exists run :: Run(run) && run[0] == Initial(s.origin) && run[|run| - 1] == s
  }

  // ---- What every reachable state keeps ----

  /** What is known of the write whose data record has LSN `l`. */
  ghost predicate PhaseOk(s: State, l: nat)
    requires l in s.phase
  {
    var p := s.phase[l];
    && s.InLog(l) && s.Rec(l).Data?
    && (!p.Appended? ==> l in s.durable)
    && (p.Loaded? ==> p.rev <= |s.history|)
    && (p.Claimed? ==> TicketOk(s, p.rev, p.gen))
    && (p.Refused? || p.Burned? ==> p.rev <= |s.history| && !Applies(s.Rec(l).write, s.Root(p.rev)))
    && (IsPublished(p) ==> Publication(l, p.gen, s.Rec(l).write) in s.history)
    && (IsRanked(p) ==> s.InLog(p.rank) && s.Rec(p.rank) == CommitRank(l, p.gen))
    && (p.DataMarked? || p.RankMarked? || p.Acked? ==> p.rank in s.durable)
    && (l in s.marked <==> IsMarked(p))
  }

  /** A ticket drawn after loading revision `rev` is larger than the generations published by then. */
  predicate TicketOk(s: State, rev: nat, gen: nat) {
    rev <= |s.history| && gen <= s.commitSeq && forall i :: 0 <= i < rev ==> s.history[i].generation < gen
  }

  predicate PublicationOk(s: State, i: nat)
    requires i < |s.history|
  {
    var h := s.history[i];
    && h.lsn in s.phase && IsPublished(s.phase[h.lsn]) && s.phase[h.lsn].gen == h.generation
    && h.generation <= s.commitSeq
    && s.InLog(h.lsn) && s.Rec(h.lsn) == Data(h.write)
    && Applies(h.write, s.Root(i))
  }

  predicate RecordOk(s: State, l: nat)
    requires s.InLog(l)
  {
    match s.Rec(l)
    case Data(_) => l in s.phase
    case CommitRank(d, g) => d in s.phase && IsRanked(s.phase[d]) && s.phase[d].rank == l && s.phase[d].gen == g
    case Checkpoint(c) => s.image.Some? && c <= s.image.value.upTo
  }

  /** Every publication with an LSN up to `upTo` is among the first `rev`. */
  predicate CoversTo(s: State, upTo: nat, rev: nat) {
    && upTo <= s.watermark && rev <= |s.history|
    && forall i :: 0 <= i < |s.history| && s.history[i].lsn <= upTo ==> i < rev
  }

  predicate ImageOk(s: State) {
    s.image.Some? ==> CoversTo(s, s.image.value.upTo, s.image.value.rev)
  }

  predicate CheckpointerOk(s: State) {
    match s.checkpointer
    case Resting => true
    case ReadMark(c) => c <= s.watermark && (s.image.Some? ==> s.image.value.upTo <= c)
    case Captured(c, k) => CoversTo(s, c, k) && (s.image.Some? ==> s.image.value.upTo <= c)
    case Recording(c) => s.image.Some? && c <= s.image.value.upTo
    case Logged(c, l) => s.image.Some? && c <= s.image.value.upTo && s.InLog(l) && s.Rec(l) == Checkpoint(c)
  }

  /** Publications follow one another in the order of their generations. */
  predicate Ordered(ps: seq<Publication>) {
    forall i, j :: 0 <= i < j < |ps| ==> ps[i].generation < ps[j].generation
  }

  predicate MarksOk(s: State) {
    && s.marked <= s.durable
    && (forall l {:trigger l in s.durable} :: l in s.durable ==> s.InLog(l))
    && IsWatermark(0, s.marked, s.watermark)
  }

  ghost predicate Inv(s: State) {
    && (forall l {:trigger PhaseOk(s, l)} :: l in s.phase ==> PhaseOk(s, l))
    && (forall i :: 0 <= i < |s.history| ==> PublicationOk(s, i))
    && (forall l: nat {:trigger RecordOk(s, l)} :: s.InLog(l) ==> RecordOk(s, l))
    && Ordered(s.history)
    && MarksOk(s)
    && ImageOk(s)
    && CheckpointerOk(s)
  }

  // ---- Every step keeps it ----

  lemma LogGrows(s: State, r: Record, s': State)
    requires Inv(s) && s'.log == s.log + [r]
    ensures forall l: nat {:trigger s'.Rec(l)} {:trigger s.Rec(l)} ::
      s.InLog(l) ==> s'.InLog(l) && s'.Rec(l) == s.Rec(l)
    ensures s'.InLog(s.NextLsn()) && s'.Rec(s.NextLsn()) == r
    ensures s.NextLsn() !in s.phase && s.NextLsn() !in s.durable && s.NextLsn() !in s.marked
    ensures forall l: nat {:trigger s'.InLog(l)} :: s'.InLog(l) ==> s.InLog(l) || l == s.NextLsn()
  {
    var next := s.NextLsn();
    assert (s.log + [r])[next - 1] == r;
    assert !s.InLog(next);
    forall l: nat | s.InLog(l) ensures s'.InLog(l) && s'.Rec(l) == s.Rec(l) {
      assert (s.log + [r])[l - 1] == s.log[l - 1];
    }
    forall l | l in s.phase ensures l != next {
      assert PhaseOk(s, l);
    }
  }

  lemma AppendKeeps(s: State, a: Action, s': State)
    requires Inv(s) && a.Append? && WriterStep(s, a, s')
    ensures Inv(s')
  {
    LogGrows(s, Data(a.write), s');
    forall l | l in s'.phase ensures PhaseOk(s', l) {
      if l != s.NextLsn() {
        assert PhaseOk(s, l);
      }
    }
    forall i | 0 <= i < |s'.history| ensures PublicationOk(s', i) {
      assert PublicationOk(s, i);
    }
    forall l: nat | s'.InLog(l) ensures RecordOk(s', l) {
      if s.InLog(l) {
        assert RecordOk(s, l);
      }
    }
  }

  lemma RankKeeps(s: State, a: Action, s': State)
    requires Inv(s) && a.AppendRank? && WriterStep(s, a, s')
    ensures Inv(s')
  {
    assert PhaseOk(s, a.l);
    LogGrows(s, CommitRank(a.l, s.phase[a.l].gen), s');
    forall l | l in s'.phase ensures PhaseOk(s', l) {
      assert PhaseOk(s, l);
    }
    forall i | 0 <= i < |s'.history| ensures PublicationOk(s', i) {
      assert PublicationOk(s, i);
    }
    forall l: nat | s'.InLog(l) ensures RecordOk(s', l) {
      if s.InLog(l) {
        assert RecordOk(s, l);
      }
    }
  }

  /** The phase of one write changes, without changing whether it is published and ranked. */
  predicate PhaseChange(s: State, s': State, l: nat) {
    && l in s.phase && l in s'.phase && s'.phase == s.phase[l := s'.phase[l]]
    && s'.origin == s.origin && s'.log == s.log && s'.durable == s.durable && s'.history == s.history
    && s.commitSeq <= s'.commitSeq
    && s'.checkpointer == s.checkpointer && s'.image == s.image
    && IsPublished(s'.phase[l]) == IsPublished(s.phase[l]) && IsRanked(s'.phase[l]) == IsRanked(s.phase[l])
    && (IsPublished(s.phase[l]) ==> s'.phase[l].gen == s.phase[l].gen)
    && (IsRanked(s.phase[l]) ==> s'.phase[l].rank == s.phase[l].rank)
  }

  lemma PhaseChangeKeeps(s: State, s': State, l: nat, m: nat)
    requires Inv(s) && PhaseChange(s, s', l) && PhaseOk(s', l)
    requires s'.marked == s.marked || (s'.marked == s.marked + {m} && (m == l || (s.InLog(m) && s.Rec(m).CommitRank?)))
    requires s.watermark <= s'.watermark && MarksOk(s')
    ensures Inv(s')
  {
    forall k | k in s'.phase && k != l ensures PhaseOk(s', k) {
      assert PhaseOk(s, k);
    }
    forall i | 0 <= i < |s'.history| ensures PublicationOk(s', i) {
      assert PublicationOk(s, i);
    }
    forall k: nat | s'.InLog(k) ensures RecordOk(s', k) {
      assert RecordOk(s, k);
    }
  }

  /** Steps that change the phase of one write and draw tickets. */
  lemma PhaseKeeps(s: State, a: Action, s': State)
    requires Inv(s) && (a.Load? || a.Claim? || a.Refuse? || a.Retry? || a.Acknowledge?) && WriterStep(s, a, s')
    ensures Inv(s')
  {
    assert PhaseOk(s, a.l);
    if a.Claim? {
      forall i | 0 <= i < |s.history| ensures s.history[i].generation <= s.commitSeq {
        assert PublicationOk(s, i);
      }
    }
    assert PhaseOk(s', a.l);
    PhaseChangeKeeps(s, s', a.l, a.l);
  }

  lemma PublishKeeps(s: State, a: Action, s': State)
    requires Inv(s) && a.Publish? && WriterStep(s, a, s')
    ensures Inv(s')
  {
    var n := |s.history|;
    assert PhaseOk(s, a.l);
    HistoryGrows(s, s', a.l);
    forall i | 0 <= i < |s'.history| ensures PublicationOk(s', i) {
      if i < n {
        assert PublicationOk(s, i);
      }
    }
    forall l | l in s'.phase ensures PhaseOk(s', l) {
      assert PhaseOk(s, l);
    }
    forall l: nat | s'.InLog(l) ensures RecordOk(s', l) {
      assert RecordOk(s, l);
    }
    assert a.l !in s.marked && a.l > s.watermark;
  }

  lemma HistoryGrows(s: State, s': State, l: nat)
    requires s.InLog(l) && s.Rec(l).Data? && l in s.phase && s.phase[l].Claimed?
    requires s'.history == s.history + [Publication(l, s.phase[l].gen, s.Rec(l).write)] && s'.origin == s.origin
    ensures forall i :: 0 <= i < |s.history| ==> s'.history[i] == s.history[i]
    ensures forall i :: 0 <= i <= |s.history| ==> s'.Root(i) == s.Root(i)
    ensures forall h {:trigger h in s'.history} :: h in s'.history <==> h in s.history || h == s'.history[|s.history|]
  {
    forall i | 0 <= i <= |s.history| ensures s'.Root(i) == s.Root(i) {
      ReplayPrefix(s.origin, s'.history, s.history, i);
    }
  }

  /** Steps in which a writer marks an LSN. */
  lemma MarkKeeps(s: State, a: Action, s': State, m: nat)
    requires Inv(s) && WriterStep(s, a, s')
    requires match a
      case MarkData(l) => m == l
      case Burn(l) => m == l
      case MarkRank(l) => l in s.phase && s.phase[l].DataMarked? && m == s.phase[l].rank
      case _ => false
    ensures Inv(s')
  {
    assert PhaseOk(s, a.l);
    WatermarkMonotone(0, s.marked, s'.marked, s.watermark, s'.watermark);
    assert PhaseOk(s', a.l);
    PhaseChangeKeeps(s, s', a.l, m);
  }

  lemma MarkCheckpointKeeps(s: State, a: Action, s': State)
    requires Inv(s) && a.MarkCheckpoint? && OtherStep(s, a, s')
    ensures Inv(s')
  {
    WatermarkMonotone(0, s.marked, s'.marked, s.watermark, s'.watermark);
    forall l | l in s'.phase ensures PhaseOk(s', l) {
      assert PhaseOk(s, l);
    }
    forall i | 0 <= i < |s'.history| ensures PublicationOk(s', i) {
      assert PublicationOk(s, i);
    }
    forall l: nat | s'.InLog(l) ensures RecordOk(s', l) {
      assert RecordOk(s, l);
    }
  }

  lemma CheckpointLogKeeps(s: State, a: Action, s': State)
    requires Inv(s) && a.AppendCheckpoint? && OtherStep(s, a, s')
    ensures Inv(s')
  {
    LogGrows(s, Checkpoint(s.checkpointer.upTo), s');
    forall l | l in s'.phase ensures PhaseOk(s', l) {
      assert PhaseOk(s, l);
    }
    forall i | 0 <= i < |s'.history| ensures PublicationOk(s', i) {
      assert PublicationOk(s, i);
    }
    forall l: nat | s'.InLog(l) ensures RecordOk(s', l) {
      if s.InLog(l) {
        assert RecordOk(s, l);
      }
    }
  }

  lemma CaptureKeeps(s: State, a: Action, s': State)
    requires Inv(s) && (a.Sync? || a.ReadWatermark? || a.LoadRoot? || a.PublishImage? || a.Abandon?)
    requires OtherStep(s, a, s')
    ensures Inv(s')
  {
    forall l | l in s'.phase ensures PhaseOk(s', l) {
      assert PhaseOk(s, l);
    }
    forall i | 0 <= i < |s'.history| ensures PublicationOk(s', i) {
      assert PublicationOk(s, i);
    }
    forall l: nat | s'.InLog(l) ensures RecordOk(s', l) {
      assert RecordOk(s, l);
    }
  }

  lemma StepKeeps(s: State, a: Action, s': State)
    requires Inv(s) && Step(s, a, s')
    ensures Inv(s')
  {
    if WriterStep(s, a, s') {
      WriterKeeps(s, a, s');
    } else if a.AppendCheckpoint? {
      CheckpointLogKeeps(s, a, s');
    } else if a.MarkCheckpoint? {
      MarkCheckpointKeeps(s, a, s');
    } else {
      CaptureKeeps(s, a, s');
    }
  }

  lemma WriterKeeps(s: State, a: Action, s': State)
    requires Inv(s) && WriterStep(s, a, s')
    ensures Inv(s')
  {
    match a {
      case Append(_) => AppendKeeps(s, a, s');
      case Publish(_) => PublishKeeps(s, a, s');
      case AppendRank(_) => RankKeeps(s, a, s');
      case MarkData(l) => MarkKeeps(s, a, s', l);
      case Burn(l) => MarkKeeps(s, a, s', l);
      case MarkRank(l) => MarkKeeps(s, a, s', s.phase[l].rank);
      case _ => PhaseKeeps(s, a, s');
    }
  }

  lemma {:induction false} RunKeeps(run: seq<State>, i: nat)
    requires Run(run) && Inv(run[0]) && i < |run|
    ensures Inv(run[i])
  {
    if i > 0 {
      RunKeeps(run, i - 1);
      assert Steps(run, i - 1);
      var a :| Step(run[i - 1], a, run[i]);
      StepKeeps(run[i - 1], a, run[i]);
    }
  }

  /** The invariant holds in every reachable state. */
  lemma ReachableInv(s: State)
    requires Reachable(s)
    ensures Inv(s)
  {
    var run :| Run(run) && run[0] == Initial(s.origin) && run[|run| - 1] == s;
    RunKeeps(run, |run| - 1);
  }
}
