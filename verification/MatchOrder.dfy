/** Matches, pairs of a source and a position, in ascending order. */
module MatchOrder {
  import opened SortedLists

  predicate Before(x: (nat, nat), y: (nat, nat)) {
    x.0 < y.0 || (x.0 == y.0 && x.1 < y.1)
  }

  predicate Ascending(r: seq<(nat, nat)>) {
    forall i, j :: 0 <= i < j < |r| ==> Before(r[i], r[j])
  }

  /** Ascending lists with the same members are equal. */
  lemma AscendingUnique(r: seq<(nat, nat)>, q: seq<(nat, nat)>)
    requires Ascending(r) && Ascending(q) && forall x :: x in r <==> x in q
    ensures r == q
  {
    SortedUnique(Before, r, q);
  }
}
