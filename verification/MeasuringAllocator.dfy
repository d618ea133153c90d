/**
 The measuring allocator's counters under any interleaving of threads. A thread changes a
 block and the current byte count in two steps: it allocates or resizes and then counts, or
 it counts and then frees. After counting it raises the peak in a compare-exchange loop,
 which may fail spuriously.
 */
module MeasuringAllocator {

  /** A block of the measured window: its size, zero once it is freed, and what the current count holds for it. */
  datatype Block = Block(size: nat, counted: nat)

  /** What a thread is in the middle of. */
  datatype Phase =
    | Allocated(block: nat)
    | Resized(block: nat, was: nat)
    | Adopted(block: nat, was: nat)
    | Releasing(block: nat)
    | Entering(value: nat)
    | Observed(value: nat, observed: nat)

  predicate Updates(p: Phase) {
    p.Entering? || p.Observed?
  }

  /** The thread has changed the block but not yet the count, or the other way round. */
  predicate Holds(p: Phase, i: nat) {
    !Updates(p) && p.block == i
  }

  /**
   `largest` is the largest value the current counter ever held; `foreign` says whether the size of
   a block from before the window was taken off the counter.
   */
  datatype State = State(
    current: nat,
    peak: nat,
    threads: map<nat, Phase>,
    blocks: seq<Block>,
    largest: nat,
    foreign: bool)

  function Initial(): State {
    State(0, 0, map[], [], 0, false)
  }

  function SaturatingSub(a: nat, b: nat): nat {
    if a < b then 0 else a - b
  }

  function Max(a: nat, b: nat): nat {
    if a < b then b else a
  }

  function Sum(blocks: seq<Block>, f: Block -> nat): nat {
    if blocks == [] then 0 else Sum(blocks[..|blocks| - 1], f) + f(blocks[|blocks| - 1])
  }

  function SizeOf(b: Block): nat {
    b.size
  }

  function CountedOf(b: Block): nat {
    b.counted
  }

  function SurplusOf(b: Block): nat {
    SaturatingSub(b.counted, b.size)
  }

  function DeficitOf(b: Block): nat {
    SaturatingSub(b.size, b.counted)
  }

  /** The bytes of the live blocks of the window. */
  function Live(s: State): nat {
    Sum(s.blocks, SizeOf)
  }

  function Counted(s: State): nat {
    Sum(s.blocks, CountedOf)
  }

  /** The bytes by which blocks shrank that are still counted. */
  function Surplus(s: State): nat {
    Sum(s.blocks, SurplusOf)
  }

  /** The bytes of live blocks that are not counted yet, or no longer. */
  function Deficit(s: State): nat {
    Sum(s.blocks, DeficitOf)
  }

  datatype Action =
    | SystemAlloc(thread: nat, size: nat)
    | SystemRealloc(thread: nat, index: nat, size: nat)
    | SystemReallocOld(thread: nat, oldSize: nat, size: nat)
    | Count(thread: nat)
    | CountRelease(thread: nat, index: nat)
    | CountReleaseOld(size: nat)
    | SystemDealloc(thread: nat)
    | LoadPeak(thread: nat)
    | Exchange(thread: nat)
    | Fail(thread: nat)
    | Leave(thread: nat)

  /** No thread is in the middle of something with block `i`. */
  predicate Available(s: State, i: nat) {
    i < |s.blocks| && forall t :: t in s.threads ==> !Holds(s.threads[t], i)
  }

  /** The counter becomes `value`, which thread `t` will raise the peak to. */
  function Changed(s: State, t: nat, value: nat, blocks: seq<Block>, foreign: bool): State {
    s.(current := value, largest := Max(s.largest, value), blocks := blocks, foreign := foreign,
      threads := s.threads[t := Entering(value)])
  }

  /** The counted step of an allocation or a reallocation. */
  predicate Counts(s: State, t: nat, s': State) {
    && t in s.threads && (s.threads[t].Allocated? || s.threads[t].Resized? || s.threads[t].Adopted?)
    && var p := s.threads[t];
       p.block < |s.blocks| &&
       var b := s.blocks[p.block];
       var was := if p.Allocated? then 0 else p.was;
       s' == Changed(s, t, SaturatingSub(s.current, was) + b.size, s.blocks[p.block := Block(b.size, b.size)],
                     s.foreign || p.Adopted?)
  }

  /** Blocks of the window are known by their index, older ones by their size. */
  predicate BlockStep(s: State, a: Action, s': State) {
    match a
    case SystemAlloc(t, n) =>
      && t !in s.threads
      && s' == s.(blocks := s.blocks + [Block(n, 0)], threads := s.threads[t := Allocated(|s.blocks|)])
    case SystemRealloc(t, i, n) =>
      && t !in s.threads && Available(s, i)
      && s' == s.(blocks := s.blocks[i := Block(n, s.blocks[i].counted)],
                  threads := s.threads[t := Resized(i, s.blocks[i].size)])
    case SystemReallocOld(t, o, n) =>
      && t !in s.threads
      && s' == s.(blocks := s.blocks + [Block(n, 0)], threads := s.threads[t := Adopted(|s.blocks|, o)])
    case Count(t) =>
      Counts(s, t, s')
    case CountRelease(t, i) =>
      && t !in s.threads && Available(s, i)
      && s' == s.(current := SaturatingSub(s.current, s.blocks[i].size),
                  blocks := s.blocks[i := Block(s.blocks[i].size, 0)], threads := s.threads[t := Releasing(i)])
    case CountReleaseOld(n) =>
      s' == s.(current := SaturatingSub(s.current, n), foreign := true)
    case SystemDealloc(t) =>
      && t in s.threads && s.threads[t].Releasing? && s.threads[t].block < |s.blocks|
      && s' == s.(blocks := s.blocks[s.threads[t].block := Block(0, 0)], threads := s.threads - {t})
    case _ => false
  }

  /** The compare-exchange loop of one thread. */
  predicate PeakStep(s: State, a: Action, s': State) {
    match a
    case LoadPeak(t) =>
      && t in s.threads && s.threads[t].Entering?
      && s' == s.(threads := s.threads[t := Observed(s.threads[t].value, s.peak)])
    case Exchange(t) =>
      && t in s.threads && s.threads[t].Observed? && s.threads[t].value > s.threads[t].observed == s.peak
      && s' == s.(peak := s.threads[t].value, threads := s.threads - {t})
    case Fail(t) =>
      && t in s.threads && s.threads[t].Observed? && s.threads[t].value > s.threads[t].observed
      && s' == s.(threads := s.threads[t := Observed(s.threads[t].value, s.peak)])
    case Leave(t) =>
      && t in s.threads && s.threads[t].Observed? && s.threads[t].value <= s.threads[t].observed
      && s' == s.(threads := s.threads - {t})
    case _ => false
  }

  predicate Step(s: State, a: Action, s': State) {
    BlockStep(s, a, s') || PeakStep(s, a, s')
  }

  // ---- Sums over the blocks ----

  lemma SumSnoc(blocks: seq<Block>, b: Block, f: Block -> nat)
    ensures Sum(blocks + [b], f) == Sum(blocks, f) + f(b)
  {
    assert (blocks + [b])[..|blocks|] == blocks;
  }

  lemma {:induction false} SumUpdate(blocks: seq<Block>, i: nat, b: Block, f: Block -> nat)
    requires i < |blocks|
    ensures Sum(blocks[i := b], f) == Sum(blocks, f) - f(blocks[i]) + f(b)
    decreases |blocks|
  {
    var n := |blocks| - 1;
    if i < n {
      SumUpdate(blocks[..n], i, b, f);
      assert blocks[i := b][..n] == blocks[..n][i := b];
    } else {
      assert blocks[i := b][..n] == blocks[..n];
    }
  }

  /** What is counted and missing is what is live and counted too much. */
  lemma {:induction false} SumsBalance(s: State)
    ensures Counted(s) + Deficit(s) == Live(s) + Surplus(s)
    decreases |s.blocks|
  {
    if s.blocks != [] {
      SumsBalance(s.(blocks := s.blocks[..|s.blocks| - 1]));
    }
  }

  lemma {:induction false} SumZero(blocks: seq<Block>, f: Block -> nat)
    requires forall b :: b in blocks ==> f(b) == 0
    ensures Sum(blocks, f) == 0
    decreases |blocks|
  {
    if blocks != [] {
      SumZero(blocks[..|blocks| - 1], f);
    }
  }

  // ---- What every step keeps ----

  /** The largest value is in the peak, or a thread is still carrying it there. */
  ghost predicate Carried(s: State) {
    s.peak == s.largest || exists t :: t in s.threads && Updates(s.threads[t]) && s.threads[t].value == s.largest
  }

  predicate ThreadOk(s: State, t: nat)
    requires t in s.threads
  {
    match s.threads[t]
    case Allocated(i) => i < |s.blocks| && s.blocks[i].counted == 0
    case Resized(i, was) => i < |s.blocks| && s.blocks[i].counted == was
    case Adopted(i, _) => i < |s.blocks| && s.blocks[i].counted == 0
    case Releasing(i) => i < |s.blocks| && s.blocks[i].counted == 0
    case Entering(v) => v <= s.largest
    case Observed(v, o) => v <= s.largest && o <= s.peak
  }

  /** A thread in the middle of something has its block to itself. */
  ghost predicate Alone(s: State) {
    forall t, u, i: nat {:trigger Holds(s.threads[t], i), Holds(s.threads[u], i)} ::
      t in s.threads && u in s.threads && Holds(s.threads[t], i) && Holds(s.threads[u], i) ==> t == u
  }

  ghost predicate Inv(s: State) {
    && s.current <= s.largest && s.peak <= s.largest && Carried(s)
    && (forall t {:trigger ThreadOk(s, t)} :: t in s.threads ==> ThreadOk(s, t))
    && Alone(s)
    && (forall i {:trigger Available(s, i)} :: 0 <= i < |s.blocks| && Available(s, i) ==>
          s.blocks[i].counted == s.blocks[i].size)
    && s.current <= Counted(s) && (s.foreign || s.current == Counted(s))
  }

  lemma PeakStepKeeps(s: State, a: Action, s': State)
    requires Inv(s) && PeakStep(s, a, s')
    ensures Inv(s') && s.peak <= s'.peak
  {
    assert ThreadOk(s, a.thread);
    SameBlocks(s, s', a.thread);
    forall t | t in s'.threads ensures ThreadOk(s', t) {
      assert ThreadOk(s, t);
    }
    if s.peak != s.largest {
      var t :| t in s.threads && Updates(s.threads[t]) && s.threads[t].value == s.largest;
      if t in s'.threads {
        assert s'.threads[t].value == s'.largest;
      }
    }
  }

  /** A thread that updates the peak holds no block, before and after. */
  lemma SameBlocks(s: State, s': State, u: nat)
    requires Alone(s) && s'.blocks == s.blocks && u in s.threads && Updates(s.threads[u])
    requires forall t {:trigger t in s'.threads} :: t in s'.threads ==>
      t in s.threads && (if t == u then Updates(s'.threads[t]) else s'.threads[t] == s.threads[t])
    requires forall t {:trigger t in s.threads} :: t in s.threads && t != u ==> t in s'.threads
    ensures Alone(s') && forall i :: Available(s', i) == Available(s, i)
  {
    forall i: nat, t | t in s'.threads && Holds(s'.threads[t], i) ensures t != u && Holds(s.threads[t], i) {
    }
    forall i: nat, t | t in s.threads && Holds(s.threads[t], i) ensures t in s'.threads && Holds(s'.threads[t], i) {
    }
  }

  /** Thread `t` begins with block `i`, which no thread holds. */
  lemma BeginKeeps(s: State, s': State, t: nat, p: Phase, i: nat)
    requires Inv(s) && t !in s.threads && !Updates(p) && p.block == i && i < |s'.blocks|
    requires s'.threads == s.threads[t := p] && (i < |s.blocks| ==> Available(s, i))
    requires |s.blocks| <= |s'.blocks| <= |s.blocks| + 1 && (|s'.blocks| > |s.blocks| ==> i == |s.blocks|)
    requires forall k {:trigger s'.blocks[k]} :: 0 <= k < |s.blocks| && k != i ==> s'.blocks[k] == s.blocks[k]
    requires s'.peak == s.peak && s'.largest == s.largest && s'.current <= s.largest && ThreadOk(s', t)
    requires s'.current <= Counted(s') && (s'.foreign || s'.current == Counted(s'))
    ensures Inv(s')
  {
    forall u | u in s.threads ensures ThreadOk(s', u) && !Holds(s.threads[u], i) {
      assert ThreadOk(s, u);
    }
    forall k | 0 <= k < |s'.blocks| && Available(s', k) ensures s'.blocks[k].counted == s'.blocks[k].size {
      assert Holds(s'.threads[t], i);
      assert k != i;
      forall u | u in s.threads ensures !Holds(s.threads[u], k) {
        assert s'.threads[u] == s.threads[u];
      }
      assert Available(s, k);
    }
    if s.peak != s.largest {
      var u :| u in s.threads && Updates(s.threads[u]) && s.threads[u].value == s.largest;
      assert s'.threads[u].value == s'.largest;
    }
  }

  /** Thread `t` is done with its block: it leaves, or goes on to update the peak. */
  lemma EndKeeps(s: State, s': State, t: nat, i: nat)
    requires Inv(s) && t in s.threads && Holds(s.threads[t], i) && i < |s.blocks| == |s'.blocks|
    requires t in s'.threads ==> s'.threads == s.threads[t := Entering(s'.current)]
    requires t !in s'.threads ==> s'.threads == s.threads - {t}
    requires forall k {:trigger s'.blocks[k]} :: 0 <= k < |s.blocks| && k != i ==> s'.blocks[k] == s.blocks[k]
    requires s'.blocks[i].counted == s'.blocks[i].size && s'.peak == s.peak
    requires t !in s'.threads ==> s'.current == s.current && s'.largest == s.largest
    requires t in s'.threads ==> s'.largest == Max(s.largest, s'.current)
    requires s'.current <= Counted(s') && (s'.foreign || s'.current == Counted(s'))
    ensures Inv(s')
  {
    forall u | u in s'.threads ensures ThreadOk(s', u) {
      if u != t {
        assert ThreadOk(s, u) && s'.threads[u] == s.threads[u];
        assert !Holds(s.threads[u], i);
      }
    }
    forall k | 0 <= k < |s'.blocks| && Available(s', k) ensures s'.blocks[k].counted == s'.blocks[k].size {
      if k != i {
        forall u | u in s.threads ensures !Holds(s.threads[u], k) {
          assert u != t ==> s'.threads[u] == s.threads[u];
        }
        assert Available(s, k);
      }
    }
    EndCarried(s, s', t, i);
  }

  lemma EndCarried(s: State, s': State, t: nat, i: nat)
    requires Inv(s) && t in s.threads && Holds(s.threads[t], i) && s'.peak == s.peak
    requires t in s'.threads ==> s'.threads == s.threads[t := Entering(s'.current)]
    requires t !in s'.threads ==> s'.threads == s.threads - {t}
    requires t !in s'.threads ==> s'.largest == s.largest
    requires t in s'.threads ==> s'.largest == Max(s.largest, s'.current)
    ensures Carried(s')
  {
    if s'.largest > s.largest {
      assert s'.threads[t].value == s'.largest;
    } else if s.peak != s.largest {
      var u :| u in s.threads && Updates(s.threads[u]) && s.threads[u].value == s.largest;
      assert s'.threads[u].value == s'.largest;
    }
  }

  lemma CountKeeps(s: State, t: nat, s': State)
    requires Inv(s) && Counts(s, t, s')
    ensures Inv(s')
  {
    var p := s.threads[t];
    assert ThreadOk(s, t) && Holds(p, p.block);
    SumUpdate(s.blocks, p.block, s'.blocks[p.block], CountedOf);
    CountedAtLeast(s.blocks, p.block);
    EndKeeps(s, s', t, p.block);
  }

  lemma {:induction false} CountedAtLeast(blocks: seq<Block>, i: nat)
    requires i < |blocks|
    ensures Sum(blocks, CountedOf) >= blocks[i].counted
    decreases |blocks|
  {
    if i < |blocks| - 1 {
      CountedAtLeast(blocks[..|blocks| - 1], i);
    }
  }

  lemma BlockStepKeeps(s: State, a: Action, s': State)
    requires Inv(s) && BlockStep(s, a, s')
    ensures Inv(s')
  {
    match a {
      case SystemAlloc(t, n) =>
        SumSnoc(s.blocks, Block(n, 0), CountedOf);
        BeginKeeps(s, s', t, Allocated(|s.blocks|), |s.blocks|);
      case SystemReallocOld(t, o, n) =>
        SumSnoc(s.blocks, Block(n, 0), CountedOf);
        BeginKeeps(s, s', t, Adopted(|s.blocks|, o), |s.blocks|);
      case SystemRealloc(t, i, n) =>
        SumUpdate(s.blocks, i, s'.blocks[i], CountedOf);
        BeginKeeps(s, s', t, Resized(i, s.blocks[i].size), i);
      case CountRelease(t, i) =>
        SumUpdate(s.blocks, i, s'.blocks[i], CountedOf);
        CountedAtLeast(s.blocks, i);
        BeginKeeps(s, s', t, Releasing(i), i);
      case SystemDealloc(t) =>
        assert ThreadOk(s, t) && Holds(s.threads[t], s.threads[t].block);
        SumUpdate(s.blocks, s.threads[t].block, Block(0, 0), CountedOf);
        EndKeeps(s, s', t, s.threads[t].block);
      case Count(t) => CountKeeps(s, t, s');
      case CountReleaseOld(n) => OldReleaseKeeps(s, n, s');
    }
  }

  lemma OldReleaseKeeps(s: State, n: nat, s': State)
    requires Inv(s) && s' == s.(current := SaturatingSub(s.current, n), foreign := true)
    ensures Inv(s')
  {
    forall t | t in s'.threads ensures ThreadOk(s', t) {
      assert ThreadOk(s, t);
    }
    forall i | 0 <= i < |s'.blocks| && Available(s', i) ensures s'.blocks[i].counted == s'.blocks[i].size {
      assert Available(s, i);
    }
  }

  lemma StepKeeps(s: State, a: Action, s': State)
    requires Inv(s) && Step(s, a, s')
    ensures Inv(s') && s.peak <= s'.peak
  {
    if BlockStep(s, a, s') {
      BlockStepKeeps(s, a, s');
    } else {
      PeakStepKeeps(s, a, s');
    }
  }

  // ---- The counter and the live bytes ----

  /** A thread is between the two steps of a reallocation that shrank block `i`. */
  ghost predicate Shrinking(s: State, i: nat) {
    i < |s.blocks| && exists t :: t in s.threads && s.threads[t].Resized? && s.threads[t].block == i
                               && s.threads[t].was > s.blocks[i].size
  }

  /** Exactly the blocks that are being shrunk are counted with too much. */
  lemma SurplusIsShrinking(s: State, i: nat)
    requires Inv(s) && i < |s.blocks|
    ensures s.blocks[i].counted > s.blocks[i].size <==> Shrinking(s, i)
  {
    if s.blocks[i].counted > s.blocks[i].size {
      assert !Available(s, i);
      var t :| t in s.threads && Holds(s.threads[t], i);
      assert ThreadOk(s, t);
    }
    if t :| t in s.threads && s.threads[t].Resized? && s.threads[t].block == i && s.threads[t].was > s.blocks[i].size {
      assert ThreadOk(s, t);
    }
  }

  /** The counter exceeds the live bytes by no more than the shrinkages not yet counted; without any it does not. */
  lemma CurrentBounded(s: State)
    requires Inv(s)
    ensures s.current <= Live(s) + Surplus(s)
    ensures (forall i: nat :: !Shrinking(s, i)) ==> s.current <= Live(s)
    ensures !s.foreign ==> (s.current <= Live(s) <==> Surplus(s) <= Deficit(s))
    ensures s.threads == map[] ==> s.current <= Live(s) && (!s.foreign ==> s.current == Live(s))
  {
    SumsBalance(s);
    if forall i: nat :: !Shrinking(s, i) {
      forall b | b in s.blocks ensures SurplusOf(b) == 0 {
        var i: nat :| i < |s.blocks| && s.blocks[i] == b;
        SurplusIsShrinking(s, i);
        assert !Shrinking(s, i);
      }
      SumZero(s.blocks, SurplusOf);
    }
    if s.threads == map[] {
      forall b | b in s.blocks ensures DeficitOf(b) == 0 && SurplusOf(b) == 0 {
        var i: nat :| i < |s.blocks| && s.blocks[i] == b;
        assert Available(s, i);
      }
      SumZero(s.blocks, SurplusOf);
      SumZero(s.blocks, DeficitOf);
    }
  }

  // ---- Runs ----

  ghost predicate Next(s: State, s': State) {
    exists a :: Step(s, a, s')
  }

  ghost predicate Steps(run: seq<State>, i: nat) {
    i + 1 < |run| && Next(run[i], run[i + 1])
  }

  ghost predicate Run(run: seq<State>) {
    |run| > 0 && run[0] == Initial() && forall i: nat :: i < |run| - 1 ==> Steps(run, i)
  }

  /** The largest value of the current counter over a run. */
  function LargestCurrent(run: seq<State>, i: nat): nat
    requires i < |run|
  {
    if i == 0 then run[0].current else Max(LargestCurrent(run, i - 1), run[i].current)
  }

  /** The most bytes that were ever live. */
  function LargestLive(run: seq<State>, i: nat): nat
    requires i < |run|
  {
    if i == 0 then Live(run[0]) else Max(LargestLive(run, i - 1), Live(run[i]))
  }

  lemma {:induction false} RunKeeps(run: seq<State>, i: nat)
    requires Run(run) && i < |run|
    ensures Inv(run[i]) && run[i].largest == LargestCurrent(run, i)
    ensures i > 0 ==> run[i - 1].peak <= run[i].peak
  {
    if i > 0 {
      RunKeeps(run, i - 1);
      assert Steps(run, i - 1);
      var a :| Step(run[i - 1], a, run[i]);
      StepKeeps(run[i - 1], a, run[i]);
    }
  }

  ghost predicate Updating(s: State) {
    exists t :: t in s.threads && Updates(s.threads[t])
  }

  /**
   The peak never exceeds the largest value the counter held, and equals it whenever no thread
   is inside its update.
   */
  lemma PeakExact(run: seq<State>, i: nat)
    requires Run(run) && i < |run|
    ensures run[i].peak <= LargestCurrent(run, i)
    ensures !Updating(run[i]) ==> run[i].peak == LargestCurrent(run, i)
  {
    RunKeeps(run, i);
  }

  ghost predicate NeverShrinking(run: seq<State>, i: nat)
    requires i < |run|
  {
    forall j: nat, k: nat :: j <= i ==> !Shrinking(run[j], k)
  }

  /** As long as no thread was caught between the steps of a shrinking reallocation, the peak was live. */
  lemma {:induction false} PeakWasLive(run: seq<State>, i: nat)
    requires Run(run) && i < |run| && NeverShrinking(run, i)
    ensures run[i].peak <= LargestCurrent(run, i) <= LargestLive(run, i)
  {
    PeakExact(run, i);
    RunKeeps(run, i);
    CurrentBounded(run[i]);
    if i > 0 {
      PeakWasLive(run, i - 1);
    }
  }

  // ---- A peak that was never live ----

  lemma Extend(run: seq<State>, a: Action, s: State) returns (longer: seq<State>)
    requires Run(run) && Step(run[|run| - 1], a, s)
    ensures Run(longer) && |longer| == |run| + 1 && longer[|run|] == s
    ensures LargestLive(longer, |run|) == Max(LargestLive(run, |run| - 1), Live(s))
  {
    longer := run + [s];
    forall i: nat | i < |longer| - 1 ensures Steps(longer, i) {
      if i < |run| - 1 {
        assert Steps(run, i);
      }
    }
    SameLargestLive(run, longer, |run| - 1);
  }

  lemma {:induction false} SameLargestLive(run: seq<State>, longer: seq<State>, i: nat)
    requires i < |run| <= |longer| && forall k :: 0 <= k <= i ==> run[k] == longer[k]
    ensures LargestLive(run, i) == LargestLive(longer, i)
  {
    if i > 0 {
      SameLargestLive(run, longer, i - 1);
    }
  }

  /** Thread `t` counts and raises the peak undisturbed. */
  lemma CountAndRaise(run: seq<State>, t: nat, current: nat, blocks: seq<Block>) returns (longer: seq<State>)
    requires Run(run) && t in run[|run| - 1].threads && run[|run| - 1].threads[t].Allocated?
    requires var s := run[|run| - 1]; var i := s.threads[t].block;
      i < |s.blocks| && current == s.current + s.blocks[i].size && current > s.peak
      && blocks == s.blocks[i := Block(s.blocks[i].size, s.blocks[i].size)] && Sum(blocks, SizeOf) == Live(s)
    ensures Run(longer) && LargestLive(longer, |longer| - 1) == LargestLive(run, |run| - 1)
    ensures var s := run[|run| - 1]; var s' := longer[|longer| - 1];
      s'.current == s'.peak == current && s'.blocks == blocks && s'.threads == s.threads - {t}
  {
    var s := run[|run| - 1];
    var s1 := Changed(s, t, current, blocks, s.foreign);
    assert BlockStep(s, Count(t), s1);
    longer := Extend(run, Count(t), s1);
    var s2 := s1.(threads := s1.threads[t := Observed(current, s.peak)]);
    assert PeakStep(s1, LoadPeak(t), s2);
    longer := Extend(longer, LoadPeak(t), s2);
    var s3 := s2.(peak := current, threads := s2.threads - {t});
    assert PeakStep(s2, Exchange(t), s3);
    longer := Extend(longer, Exchange(t), s3);
    assert s3.threads == s.threads - {t};
    LiveReached(run, |run| - 1);
  }

  lemma LiveReached(run: seq<State>, i: nat)
    requires i < |run|
    ensures LargestLive(run, i) >= Live(run[i])
  {
  }

  lemma OneBlock(b: Block, f: Block -> nat)
    ensures Sum([b], f) == f(b)
  {
    assert [b][..0] == [];
  }

  lemma TwoBlocks(b: Block, c: Block, f: Block -> nat)
    ensures Sum([b, c], f) == f(b) + f(c)
  {
    assert [b] + [c] == [b, c];
    SumSnoc([b], c, f);
    OneBlock(b, f);
  }

  /** Thread 0 allocates `size` bytes and counts them. */
  lemma FirstBlock(size: nat) returns (run: seq<State>)
    requires size > 0
    ensures Run(run) && LargestLive(run, |run| - 1) == size
    ensures var last := run[|run| - 1];
      last == State(size, size, map[], [Block(size, size)], last.largest, last.foreign)
  {
    var s0 := Initial();
    run := [s0];
    var s1 := s0.(blocks := s0.blocks + [Block(size, 0)], threads := s0.threads[0 := Allocated(0)]);
    assert BlockStep(s0, SystemAlloc(0, size), s1);
    assert s1.blocks == [Block(size, 0)];
    run := Extend(run, SystemAlloc(0, size), s1);
    OneBlock(Block(size, 0), SizeOf);
    OneBlock(Block(size, size), SizeOf);
    run := CountAndRaise(run, 0, size, [Block(size, size)]);
  }

  /**
   A block of `size` bytes is reallocated to `less`, and before that is counted another thread
   allocates `more`: the peak exceeds everything that was ever live exactly if the block shrank.
   */
  lemma PeakNeverLive(size: nat, less: nat, more: nat) returns (run: seq<State>)
    requires size > 0 && more > 0
    ensures Run(run) && var i := |run| - 1;
      run[i].peak == size + more && LargestLive(run, i) == Max(size, less + more)
      && (run[i].peak > LargestLive(run, i) <==> less < size)
  {
    run := FirstBlock(size);
    var s := run[|run| - 1];
    var s1 := s.(blocks := s.blocks[0 := Block(less, size)], threads := s.threads[0 := Resized(0, size)]);
    assert Available(s, 0);
    assert BlockStep(s, SystemRealloc(0, 0, less), s1);
    assert s1.blocks == [Block(less, size)];
    OneBlock(Block(less, size), SizeOf);
    run := Extend(run, SystemRealloc(0, 0, less), s1);
    var s2 := s1.(blocks := s1.blocks + [Block(more, 0)], threads := s1.threads[1 := Allocated(1)]);
    assert BlockStep(s1, SystemAlloc(1, more), s2);
    assert s2.blocks == [Block(less, size), Block(more, 0)];
    TwoBlocks(Block(less, size), Block(more, 0), SizeOf);
    TwoBlocks(Block(less, size), Block(more, more), SizeOf);
    run := Extend(run, SystemAlloc(1, more), s2);
    run := CountAndRaise(run, 1, size + more, [Block(less, size), Block(more, more)]);
  }
}
