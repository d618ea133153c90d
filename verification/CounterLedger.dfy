/**
 The current counter of the measuring allocator as a ledger. Subtraction stops at zero, so blocks
 from before the window make the counter forget. What it holds is exact all the same: the largest
 sum of the latest changes, over all ways to choose where they begin. And every call that a thread
 has begun can come to its end.
 */
module CounterLedger {
  import opened MeasuringAllocator

  /** What a step adds to the counter or takes off it. */
  function ChangesOf(s: State, a: Action): seq<int> {
    match a
    case Count(t) =>
      if t !in s.threads || Updates(s.threads[t]) || s.threads[t].block >= |s.blocks| then []
      else
        var p := s.threads[t];
        var size: int := s.blocks[p.block].size;
        if p.Allocated? then [size]
        else if p.Resized? || p.Adopted? then [0 - p.was, size]
        else []
    case CountRelease(_, i) => if i < |s.blocks| then [0 - s.blocks[i].size] else []
    case CountReleaseOld(n) => [0 - n]
    case _ => []
  }

  /** The actions of a run. */
  ghost predicate Does(run: seq<State>, acts: seq<Action>) {
    && |run| == |acts| + 1 && run[0] == Initial()
    && forall i :: 0 <= i < |acts| ==> Step(run[i], acts[i], run[i + 1])
  }

  function Ledger(run: seq<State>, acts: seq<Action>, n: nat): seq<int>
    requires n <= |acts| < |run|
  {
    if n == 0 then [] else Ledger(run, acts, n - 1) + ChangesOf(run[n - 1], acts[n - 1])
  }

  function SumFrom(xs: seq<int>, k: nat): int
    requires k <= |xs|
    decreases |xs| - k
  {
    if k == |xs| then 0 else xs[k] + SumFrom(xs, k + 1)
  }

  /** No final stretch of the changes sums up to more than `m`, and one does to `m`. */
  ghost predicate LargestEnd(xs: seq<int>, m: int) {
    && (exists k: nat :: k <= |xs| && SumFrom(xs, k) == m)
    && (forall k: nat :: k <= |xs| ==> SumFrom(xs, k) <= m)
  }

  lemma {:induction false} SumFromSnoc(xs: seq<int>, x: int, k: nat)
    requires k <= |xs|
    ensures SumFrom(xs + [x], k) == SumFrom(xs, k) + x
    decreases |xs| - k
  {
    if k < |xs| {
      SumFromSnoc(xs, x, k + 1);
    } else {
      assert SumFrom(xs + [x], |xs| + 1) == 0;
    }
  }

  /** One more change: added if the sum stays above zero, and a new beginning otherwise. */
  lemma LargestEndSnoc(xs: seq<int>, m: int, x: int)
    requires LargestEnd(xs, m)
    ensures LargestEnd(xs + [x], if m + x < 0 then 0 else m + x)
  {
    var ys := xs + [x];
    forall k: nat | k <= |xs| ensures SumFrom(ys, k) == SumFrom(xs, k) + x {
      SumFromSnoc(xs, x, k);
    }
    assert SumFrom(ys, |ys|) == 0;
    var k: nat :| k <= |xs| && SumFrom(xs, k) == m;
    assert SumFrom(ys, k) == m + x;
  }

  lemma ChangesApplied(s: State, a: Action, s': State, xs: seq<int>)
    requires Step(s, a, s') && LargestEnd(xs, s.current)
    ensures LargestEnd(xs + ChangesOf(s, a), s'.current)
  {
    var changes := ChangesOf(s, a);
    if |changes| == 0 {
      assert xs + changes == xs;
    } else {
      LargestEndSnoc(xs, s.current, changes[0]);
      if |changes| == 1 {
        assert changes == [changes[0]];
      } else {
        var m := if s.current + changes[0] < 0 then 0 else s.current + changes[0];
        LargestEndSnoc(xs + [changes[0]], m, changes[1]);
        assert xs + changes == xs + [changes[0]] + [changes[1]];
      }
    }
  }

  /** The counter is the largest sum of the latest changes, through every run. */
  lemma {:induction false} CurrentExact(run: seq<State>, acts: seq<Action>, n: nat)
    requires Does(run, acts) && n <= |acts|
    ensures LargestEnd(Ledger(run, acts, n), run[n].current)
  {
    if n == 0 {
      assert SumFrom([], 0) == 0;
    } else {
      CurrentExact(run, acts, n - 1);
      assert Step(run[n - 1], acts[n - 1], run[n]);
      ChangesApplied(run[n - 1], acts[n - 1], run[n], Ledger(run, acts, n - 1));
    }
  }

  /** So a freed block from before the window takes off its size, or all there is. */
  lemma OldBlockFreed(run: seq<State>, acts: seq<Action>, n: nat)
    requires Does(run, acts) && 0 < n <= |acts| && acts[n - 1].CountReleaseOld?
    ensures run[n].current == Max(run[n - 1].current, acts[n - 1].size) - acts[n - 1].size
  {
    assert Step(run[n - 1], acts[n - 1], run[n]);
  }

  /** The step takes the size of a block from before the window off the counter. */
  predicate TakesOld(s: State, a: Action) {
    a.CountReleaseOld? || (a.Count? && a.thread in s.threads && s.threads[a.thread].Adopted?)
  }

  /** The counter is known to be exact until the first such step, and from there on it is not. */
  lemma {:induction false} ForeignExactly(run: seq<State>, acts: seq<Action>, n: nat)
    requires Does(run, acts) && n <= |acts|
    ensures run[n].foreign <==> exists i :: 0 <= i < n && TakesOld(run[i], acts[i])
  {
    if n > 0 {
      ForeignExactly(run, acts, n - 1);
      assert Step(run[n - 1], acts[n - 1], run[n]);
    }
  }

  /** An exchange raises the peak, to the value that the thread counted; no other step changes it. */
  lemma PeakChanges(s: State, a: Action, s': State)
    requires Step(s, a, s')
    ensures a.Exchange? ==> a.thread in s.threads && Updates(s.threads[a.thread])
    ensures a.Exchange? ==> s'.peak == s.threads[a.thread].value
    ensures s'.peak != s.peak <==> a.Exchange?
    ensures s'.peak >= s.peak
  {
  }

  // ---- Calls begin and end ----

  ghost predicate Path(path: seq<State>, s: State) {
    |path| > 0 && path[0] == s && forall i: nat :: i < |path| - 1 ==> Steps(path, i)
  }

  function End(path: seq<State>): State
    requires |path| > 0
  {
    path[|path| - 1]
  }

  lemma Longer(path: seq<State>, s: State, a: Action, s': State) returns (longer: seq<State>)
    requires Path(path, s) && Step(End(path), a, s')
    ensures Path(longer, s) && End(longer) == s'
  {
    longer := path + [s'];
    forall i: nat | i < |longer| - 1 ensures Steps(longer, i) {
      if i < |path| - 1 {
        assert Steps(path, i);
      }
    }
  }

  /** A thread that is outside can allocate, reallocate and free whatever no other thread is busy with. */
  lemma CallsBegin(s: State, t: nat, i: nat, n: nat, o: nat) returns (a: State, b: State, c: State, d: State, e: State)
    requires t !in s.threads && Available(s, i)
    ensures Step(s, SystemAlloc(t, n), a) && a.blocks == s.blocks + [Block(n, 0)]
    ensures Step(s, SystemRealloc(t, i, n), b) && b.blocks == s.blocks[i := Block(n, s.blocks[i].counted)]
    ensures Step(s, CountRelease(t, i), c) && c.current == Max(s.current, s.blocks[i].size) - s.blocks[i].size
    ensures Step(s, SystemReallocOld(t, o, n), d) && d.blocks == s.blocks + [Block(n, 0)]
    ensures Step(s, CountReleaseOld(o), e) && e.blocks == s.blocks
  {
    a := s.(blocks := s.blocks + [Block(n, 0)], threads := s.threads[t := Allocated(|s.blocks|)]);
    b := s.(blocks := s.blocks[i := Block(n, s.blocks[i].counted)],
      threads := s.threads[t := Resized(i, s.blocks[i].size)]);
    c := s.(current := SaturatingSub(s.current, s.blocks[i].size),
      blocks := s.blocks[i := Block(s.blocks[i].size, 0)], threads := s.threads[t := Releasing(i)]);
    d := s.(blocks := s.blocks + [Block(n, 0)], threads := s.threads[t := Adopted(|s.blocks|, o)]);
    e := s.(current := SaturatingSub(s.current, o), foreign := true);
    assert BlockStep(s, SystemAlloc(t, n), a) && BlockStep(s, SystemRealloc(t, i, n), b);
    assert BlockStep(s, CountRelease(t, i), c) && BlockStep(s, SystemReallocOld(t, o, n), d);
    assert BlockStep(s, CountReleaseOld(o), e);
  }

  /** A thread that raises the peak gets it at least as high as its value. */
  lemma UpdateEnds(s: State, t: nat) returns (path: seq<State>)
    requires t in s.threads && Updates(s.threads[t])
    ensures Path(path, s) && End(path).threads == s.threads - {t} && End(path).blocks == s.blocks
    ensures End(path).peak == Max(s.peak, s.threads[t].value) || End(path).peak == s.peak
    ensures s.threads[t].Entering? ==> End(path).peak == Max(s.peak, s.threads[t].value)
  {
    path := [s];
    var v := s.threads[t].value;
    var u := s.(threads := s.threads[t := Observed(v, s.peak)]);
    if s.threads[t].Entering? {
      assert PeakStep(s, LoadPeak(t), u);
      path := Longer(path, s, LoadPeak(t), u);
    } else if v > s.threads[t].observed {
      assert PeakStep(s, Fail(t), u);
      path := Longer(path, s, Fail(t), u);
    } else {
      u := s;
    }
    if v > u.threads[t].observed {
      var w := u.(peak := v, threads := u.threads - {t});
      assert PeakStep(u, Exchange(t), w);
      path := Longer(path, s, Exchange(t), w);
      assert w.threads == s.threads - {t};
    } else {
      var w := u.(threads := u.threads - {t});
      assert PeakStep(u, Leave(t), w);
      path := Longer(path, s, Leave(t), w);
      assert w.threads == s.threads - {t};
    }
  }

  /** No call is stuck: the thread gets out, an allocated or resized block is counted, and a released one is gone. */
  lemma EveryCallEnds(s: State, t: nat) returns (path: seq<State>)
    requires Inv(s) && t in s.threads
    ensures Path(path, s) && End(path).threads == s.threads - {t}
    ensures !Updates(s.threads[t]) ==> s.threads[t].block < |s.blocks|
    ensures var p := s.threads[t];
      if Updates(p) then End(path).blocks == s.blocks
      else if p.Releasing? then End(path).blocks == s.blocks[p.block := Block(0, 0)]
      else End(path).blocks == s.blocks[p.block := Block(s.blocks[p.block].size, s.blocks[p.block].size)]
  {
    var p := s.threads[t];
    assert ThreadOk(s, t);
    if Updates(p) {
      path := UpdateEnds(s, t);
    } else if p.Releasing? {
      var u := s.(blocks := s.blocks[p.block := Block(0, 0)], threads := s.threads - {t});
      assert BlockStep(s, SystemDealloc(t), u);
      path := Longer([s], s, SystemDealloc(t), u);
    } else {
      var b := s.blocks[p.block];
      var was := if p.Allocated? then 0 else p.was;
      var u := Changed(s, t, SaturatingSub(s.current, was) + b.size, s.blocks[p.block := Block(b.size, b.size)],
                       s.foreign || p.Adopted?);
      assert BlockStep(s, Count(t), u);
      path := Longer([s], s, Count(t), u);
      path := ThenUpdate(path, s, u, t);
    }
  }

  lemma ThenUpdate(path: seq<State>, s: State, u: State, t: nat) returns (longer: seq<State>)
    requires Path(path, s) && End(path) == u && t in u.threads && u.threads[t].Entering?
    ensures Path(longer, s) && End(longer).threads == u.threads - {t} && End(longer).blocks == u.blocks
  {
    var v := u.threads[t].value;
    var x := u.(threads := u.threads[t := Observed(v, u.peak)]);
    assert PeakStep(u, LoadPeak(t), x);
    longer := Longer(path, s, LoadPeak(t), x);
    var w := x.(threads := x.threads - {t}, peak := Max(x.peak, v));
    assert w.threads == u.threads - {t};
    if v > x.peak {
      assert PeakStep(x, Exchange(t), w);
      longer := Longer(longer, s, Exchange(t), w);
    } else {
      assert PeakStep(x, Leave(t), w);
      longer := Longer(longer, s, Leave(t), w);
    }
  }
}
