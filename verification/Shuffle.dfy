/**
 The in-place shuffle of block ids, driven by any generator. From the last position down, each
 position is swapped with a picked one that is not behind it.
 */
module Shuffle {
  import opened XorShift

  /** The ids from 1 to `count`. */
  function Ids(count: nat): (ids: seq<nat>)
    ensures |ids| == count && forall i :: 0 <= i < count ==> ids[i] == i + 1
  {
    seq(count, i requires 0 <= i < count => i + 1)
  }

  // ---- What a shuffle does ----

  function Swapped<T>(s: seq<T>, i: nat, j: nat): (r: seq<T>)
    requires i < |s| && j < |s|
    ensures |r| == |s|
    ensures forall k :: 0 <= k < |s| ==> r[k] == if k == i then s[j] else if k == j then s[i] else s[k]
  {
    s[i := s[j]][j := s[i]]
  }

  /** One pick for every position, not behind it. */
  predicate ArePicks(picks: seq<nat>) {
    forall i :: 0 <= i < |picks| ==> picks[i] <= i
  }

  /** What comes to the last position stood at its pick; the rest, with the last one in its place, goes on. */
  function Shuffled<T>(s: seq<T>, picks: seq<nat>): (r: seq<T>)
    requires |picks| == |s| && ArePicks(picks)
    ensures |r| == |s|
    decreases |s|
  {
    if s == [] then []
    else
      var n := |s| - 1;
      Shuffled(Swapped(s, n, picks[n])[..n], picks[..n]) + [s[picks[n]]]
  }

  lemma ShuffledEnds<T>(s: seq<T>, picks: seq<nat>)
    requires |picks| == |s| && ArePicks(picks) && s != []
    ensures var n := |s| - 1;
      && Shuffled(s, picks)[n] == s[picks[n]]
      && Shuffled(s, picks)[..n] == Shuffled(Swapped(s, n, picks[n])[..n], picks[..n])
  {
  }

  predicate Distinct<T(==)>(s: seq<T>) {
    forall i, j :: 0 <= i < j < |s| ==> s[i] != s[j]
  }

  lemma FrontDistinct<T>(s: seq<T>, j: nat)
    requires Distinct(s) && j < |s|
    ensures Distinct(Swapped(s, |s| - 1, j)[..|s| - 1])
  {
  }

  /** Both lists of picks shuffle `s` alike. */
  predicate SameShuffle<T(==)>(s: seq<T>, picks: seq<nat>, others: seq<nat>) {
    && Distinct(s) && |picks| == |s| == |others| && ArePicks(picks) && ArePicks(others)
    && Shuffled(s, picks) == Shuffled(s, others)
  }

  lemma SameLastPick<T>(s: seq<T>, picks: seq<nat>, others: seq<nat>)
    requires SameShuffle(s, picks, others) && s != []
    ensures var n := |s| - 1;
      picks[n] == others[n] && SameShuffle(Swapped(s, n, picks[n])[..n], picks[..n], others[..n])
  {
    var n := |s| - 1;
    ShuffledEnds(s, picks);
    ShuffledEnds(s, others);
    assert s[picks[n]] == s[others[n]];
    FrontDistinct(s, picks[n]);
  }

  /** Different picks give different permutations. */
  lemma {:induction false} PicksDetermined<T>(s: seq<T>, picks: seq<nat>, others: seq<nat>)
    requires SameShuffle(s, picks, others)
    ensures picks == others
    decreases |s|
  {
    if s != [] {
      var n := |s| - 1;
      SameLastPick(s, picks, others);
      PicksDetermined(Swapped(s, n, picks[n])[..n], picks[..n], others[..n]);
      SameEnds(picks, others);
    }
  }

  lemma FrontMultiset<T>(s: seq<T>)
    requires s != []
    ensures multiset(s[..|s| - 1]) == multiset(s) - multiset{s[|s| - 1]}
  {
    assert s == s[..|s| - 1] + [s[|s| - 1]];
  }

  /** And every permutation comes from some picks. */
  lemma {:induction false} PicksExist<T>(s: seq<T>, r: seq<T>) returns (picks: seq<nat>)
    requires multiset(r) == multiset(s)
    ensures |picks| == |s| && ArePicks(picks) && Shuffled(s, picks) == r
    decreases |s|
  {
    assert |s| == |multiset(s)| && |r| == |multiset(r)|;
    if s == [] {
      picks := [];
    } else {
      var n := |s| - 1;
      var j := LastPick(s, r);
      var front := PicksExist(Swapped(s, n, j)[..n], r[..n]);
      picks := front + [j];
      assert picks[..n] == front;
      ShuffledEnds(s, picks);
      SameEnds(Shuffled(s, picks), r);
    }
  }

  lemma SameEnds<T>(s: seq<T>, r: seq<T>)
    requires |s| == |r| > 0 && s[..|s| - 1] == r[..|s| - 1] && s[|s| - 1] == r[|s| - 1]
    ensures s == r
  {
    assert s == s[..|s| - 1] + [s[|s| - 1]] && r == r[..|s| - 1] + [r[|s| - 1]];
  }

  lemma Position<T>(s: seq<T>, r: seq<T>, i: nat) returns (j: nat)
    requires multiset(r) == multiset(s) && i < |r|
    ensures j < |s| && s[j] == r[i]
  {
    assert r[i] in multiset(s);
    j :| j < |s| && s[j] == r[i];
  }

  lemma SwappedFront<T>(s: seq<T>, j: nat)
    requires j < |s|
    ensures multiset(Swapped(s, |s| - 1, j)[..|s| - 1]) == multiset(s) - multiset{s[j]}
  {
    var n := |s| - 1;
    var front, t := s[..n], Swapped(s, n, j)[..n];
    FrontMultiset(s);
    if j == n {
      assert t == front;
    } else {
      assert t == front[j := s[n]];
      UpdatedMultiset(front, j, s[n]);
    }
  }

  lemma UpdatedMultiset<T>(s: seq<T>, j: nat, x: T)
    requires j < |s|
    ensures multiset(s[j := x]) == multiset(s) + multiset{x} - multiset{s[j]}
  {
  }

  lemma {:induction false} ShuffledPermutes<T>(s: seq<T>, picks: seq<nat>)
    requires |picks| == |s| && ArePicks(picks)
    ensures multiset(Shuffled(s, picks)) == multiset(s)
    decreases |s|
  {
    if s != [] {
      var n := |s| - 1;
      var front := Swapped(s, n, picks[n])[..n];
      ShuffledPermutes(front, picks[..n]);
      SwappedFront(s, picks[n]);
      SnocMultiset(Shuffled(front, picks[..n]), s, picks[n]);
    }
  }

  lemma SnocMultiset<T>(r: seq<T>, s: seq<T>, j: nat)
    requires j < |s| && multiset(r) == multiset(s) - multiset{s[j]}
    ensures multiset(r + [s[j]]) == multiset(s)
  {
    assert s[j] in multiset(s);
  }

  lemma LastPick<T>(s: seq<T>, r: seq<T>) returns (j: nat)
    requires multiset(r) == multiset(s) && |s| == |r| > 0
    ensures j < |s| && s[j] == r[|s| - 1]
    ensures multiset(Swapped(s, |s| - 1, j)[..|s| - 1]) == multiset(r[..|s| - 1])
  {
    j := Position(s, r, |s| - 1);
    SwappedFront(s, j);
    FrontMultiset(r);
  }

  /** For the ids: one result, one list of picks. */
  lemma IdsDetermine(count: nat, picks: seq<nat>, others: seq<nat>)
    requires |picks| == count == |others| && ArePicks(picks) && ArePicks(others)
    ensures Shuffled(Ids(count), picks) == Shuffled(Ids(count), others) <==> picks == others
  {
    if Shuffled(Ids(count), picks) == Shuffled(Ids(count), others) {
      PicksDetermined(Ids(count), picks, others);
    }
  }

  // ---- The method ----

  /** The pick at `i` is the next value of the generator modulo `i + 1`, from the last position down. */
  predicate PickedBy<S>(picks: seq<nat>, seed: S, next: S -> S, value: S -> nat) {
    forall i :: 0 < i < |picks| ==> picks[i] == value(Iterate(next, seed, |picks| - i)) % (i + 1)
  }

  ghost function Picks<S>(count: nat, seed: S, next: S -> S, value: S -> nat): (picks: seq<nat>)
    ensures |picks| == count && ArePicks(picks) && PickedBy(picks, seed, next, value)
  {
    seq(count, i requires 0 <= i < count => value(Iterate(next, seed, count - i)) % (i + 1))
  }

  method Swap(ids: array<nat>, i: nat, j: nat)
    requires j <= i < ids.Length
    modifies ids
    ensures ids[..i] == Swapped(old(ids[..i + 1]), i, j)[..i] && ids[i..] == [old(ids[j])] + old(ids[i + 1..])
  {
    ids[i], ids[j] := ids[j], ids[i];
  }

  /** `done` and `s`, shuffled on, give `target`. */
  ghost predicate Remaining(s: seq<nat>, done: seq<nat>, picks: seq<nat>, target: seq<nat>) {
    |s| <= |picks| && ArePicks(picks) && Shuffled(s, picks[..|s|]) + done == target
  }

  lemma RemainingStep(s: seq<nat>, done: seq<nat>, picks: seq<nat>, target: seq<nat>)
    requires Remaining(s, done, picks, target) && s != []
    ensures var n := |s| - 1;
      Remaining(Swapped(s, n, picks[n])[..n], [s[picks[n]]] + done, picks, target)
  {
    var n := |s| - 1;
    ShuffledEnds(s, picks[..n + 1]);
    assert picks[..n + 1][..n] == picks[..n];
    var r := Shuffled(s, picks[..n + 1]);
    assert r == r[..n] + [s[picks[n]]];
  }

  /** Draws the pick for position `i` and swaps. */
  method ShuffleStep<S>(ids: array<nat>, i: nat, state: S, ghost seed: S, next: S -> S, value: S -> nat,
                        ghost picks: seq<nat>, ghost target: seq<nat>) returns (state': S)
    requires 0 < i < ids.Length == |picks| && PickedBy(picks, seed, next, value)
    requires state == Iterate(next, seed, ids.Length - (i + 1))
    requires Remaining(ids[..i + 1], ids[i + 1..], picks, target)
    modifies ids
    ensures state' == Iterate(next, seed, ids.Length - i) && Remaining(ids[..i], ids[i..], picks, target)
  {
    state' := next(state);
    RemainingStep(ids[..i + 1], ids[i + 1..], picks, target);
    Swap(ids, i, value(state') % (i + 1));
  }

  /** The ids, shuffled with the generator's picks. */
  method ShuffledBlockIds<S>(count: nat, seed: S, next: S -> S, value: S -> nat)
    returns (ids: array<nat>)
    ensures ids[..] == Shuffled(Ids(count), Picks(count, seed, next, value))
    ensures ids.Length == count && multiset(ids[..]) == multiset(Ids(count))
  {
    ghost var picks := Picks(count, seed, next, value);
    ids := new nat[count](i => i + 1);
    ghost var target := Shuffled(Ids(count), picks);
    assert ids[..] == Ids(count) && picks[..count] == picks;
    if count <= 1 {
      ShuffledAtMostOne(ids[..], picks);
    } else {
      var state := seed;
      assert ids[..count] == ids[..] && target + [] == target;
      for i := count downto 1
        invariant state == Iterate(next, seed, count - i)
        invariant Remaining(ids[..i], ids[i..], picks, target)
      {
        state := ShuffleStep(ids, i, state, seed, next, value, picks, target);
      }
      RemainingOne(ids[..1], ids[1..], picks, target);
      assert ids[..] == ids[..1] + ids[1..];
    }
    ShuffledPermutes(Ids(count), picks);
  }

  lemma RemainingOne(s: seq<nat>, done: seq<nat>, picks: seq<nat>, target: seq<nat>)
    requires Remaining(s, done, picks, target) && |s| == 1
    ensures s + done == target
  {
    ShuffledAtMostOne(s, picks[..1]);
  }

  lemma ShuffledAtMostOne<T>(s: seq<T>, picks: seq<nat>)
    requires |picks| == |s| <= 1 && ArePicks(picks)
    ensures Shuffled(s, picks) == s
  {
  }

  /** The shuffle with the generator it uses. */
  method ShuffledByXorShift(count: nat, seed: Word) returns (ids: array<nat>)
    ensures ids[..] == Shuffled(Ids(count), Picks(count, seed, Step, WordValue))
    ensures ids.Length == count && multiset(ids[..]) == multiset(Ids(count))
  {
    ids := ShuffledBlockIds(count, seed, Step, WordValue);
  }

  function WordValue(w: Word): nat {
    Value(w, 64)
  }
}
