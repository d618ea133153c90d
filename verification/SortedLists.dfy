/** Lists that are sorted by a strict order are determined by their members. */
module SortedLists {

  predicate SortedBy<T>(before: (T, T) -> bool, r: seq<T>) {
    forall i, j :: 0 <= i < j < |r| ==> before(r[i], r[j])
  }

  ghost predicate Asymmetric<T(!new)>(before: (T, T) -> bool) {
    forall x, y :: before(x, y) ==> !before(y, x)
  }

  lemma LastIsGreatest<T>(before: (T, T) -> bool, r: seq<T>, x: T)
    requires SortedBy(before, r) && x in r
    ensures x == r[|r| - 1] || before(x, r[|r| - 1])
  {
    var i :| 0 <= i < |r| && r[i] == x;
  }

  lemma InFront<T(!new)>(before: (T, T) -> bool, r: seq<T>, z: T)
    requires Asymmetric(before) && SortedBy(before, r) && r != []
    ensures z in r[..|r| - 1] <==> z in r && z != r[|r| - 1]
  {
    var front := r[..|r| - 1];
    if z in r && z != r[|r| - 1] {
      var i :| 0 <= i < |r| && r[i] == z;
      assert front[i] == z;
    }
    if z in front {
      var i :| 0 <= i < |front| && front[i] == z;
      assert before(r[i], r[|r| - 1]);
    }
  }

  lemma FirstMember<T>(r: seq<T>)
    ensures r == [] || r[0] in r
  {
  }

  lemma {:induction false} SortedUnique<T(!new)>(before: (T, T) -> bool, r: seq<T>, q: seq<T>)
    requires Asymmetric(before) && SortedBy(before, r) && SortedBy(before, q)
    requires forall x :: x in r <==> x in q
    ensures r == q
    decreases |r|
  {
    FirstMember(q);
    if r != [] && r[0] in q {
      var x, y := r[|r| - 1], q[|q| - 1];
      assert x in q && y in r;
      LastIsGreatest(before, r, y);
      LastIsGreatest(before, q, x);
      var r', q' := r[..|r| - 1], q[..|q| - 1];
      forall z ensures z in r' <==> z in q' {
        InFront(before, r, z);
        InFront(before, q, z);
      }
      SortedUnique(before, r', q');
      assert r == r' + [x] && q == q' + [x];
    }
  }

  /** A sorted list has no member twice. */
  lemma {:induction false} SortedSize<T(!new)>(before: (T, T) -> bool, r: seq<T>, members: set<T>)
    requires Asymmetric(before) && SortedBy(before, r)
    requires forall x :: x in r <==> x in members
    ensures |members| == |r|
    decreases |r|
  {
    if r == [] {
      assert members == {};
    } else {
      var x, r' := r[|r| - 1], r[..|r| - 1];
      forall z ensures z in r' <==> z in members - {x} {
        InFront(before, r, z);
      }
      SortedSize(before, r', members - {x});
      assert x in members;
    }
  }
}
