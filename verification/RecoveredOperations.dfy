/**
 A record can stand for several operations, as one of a batch does. Reconciling expands the
 records first and then sorts the operations, stably, by generation and LSN. The result is the
 same as sorting the records and expanding them then: the operations of one record stay together
 and in order.
 */
module RecoveredOperations {
  import opened Words
  import opened WriteLog
  import opened Recovery

  datatype Item<O> = Item(generation: nat, lsn: nat, op: O)

  predicate Before<O>(x: Item<O>, y: Item<O>) {
    x.generation < y.generation || (x.generation == y.generation && x.lsn < y.lsn)
  }

  /** Sorted, items with the same generation and LSN in any order. */
  predicate NonDecreasing<O>(items: seq<Item<O>>) {
    forall i, j :: 0 <= i < j < |items| ==> !Before(items[j], items[i])
  }

  predicate HasStamp<O>(x: Item<O>, generation: nat, lsn: nat) {
    x.generation == generation && x.lsn == lsn
  }

  /** The items with one generation and LSN, in their order. */
  function With<O>(items: seq<Item<O>>, generation: nat, lsn: nat): seq<Item<O>> {
    if items == [] then []
    else
      var rest, last := items[..|items| - 1], items[|items| - 1];
      With(rest, generation, lsn) + if HasStamp(last, generation, lsn) then [last] else []
  }

  /** `r` holds the same items, and equal ones in the same order. */
  ghost predicate Stable<O(!new)>(items: seq<Item<O>>, r: seq<Item<O>>) {
    NonDecreasing(r) && forall g: nat, l: nat :: With(r, g, l) == With(items, g, l)
  }

  lemma {:induction false} WithConcat<O>(a: seq<Item<O>>, b: seq<Item<O>>, g: nat, l: nat)
    ensures With(a + b, g, l) == With(a, g, l) + With(b, g, l)
    decreases |b|
  {
    if b == [] {
      assert a + b == a;
    } else {
      var rest, last := b[..|b| - 1], b[|b| - 1];
      assert (a + b)[..|a + b| - 1] == a + rest;
      WithConcat(a, rest, g, l);
    }
  }

  lemma {:induction false} WithMember<O>(items: seq<Item<O>>, i: nat)
    requires i < |items|
    ensures items[i] in With(items, items[i].generation, items[i].lsn)
    decreases |items|
  {
    if i < |items| - 1 {
      WithMember(items[..|items| - 1], i);
    }
  }

  lemma {:induction false} WithOnly<O>(items: seq<Item<O>>, g: nat, l: nat, x: Item<O>)
    requires x in With(items, g, l)
    ensures x in items && HasStamp(x, g, l)
    decreases |items|
  {
    var rest, last := items[..|items| - 1], items[|items| - 1];
    if x in With(rest, g, l) {
      WithOnly(rest, g, l, x);
    }
  }

  // ---- There is one stable order ----

  lemma LastStamp<O(!new)>(r: seq<Item<O>>, q: seq<Item<O>>)
    requires NonDecreasing(r) && NonDecreasing(q) && r != [] && q != []
    requires forall g: nat, l: nat :: With(r, g, l) == With(q, g, l)
    ensures !Before(q[|q| - 1], r[|r| - 1])
  {
    var x := r[|r| - 1];
    WithMember(r, |r| - 1);
    WithOnly(q, x.generation, x.lsn, x);
    var i :| 0 <= i < |q| && q[i] == x;
  }

  /** Lists in a stable order with the same items are equal. */
  lemma {:induction false} StableUnique<O(!new)>(r: seq<Item<O>>, q: seq<Item<O>>)
    requires NonDecreasing(r) && NonDecreasing(q) && forall g: nat, l: nat :: With(r, g, l) == With(q, g, l)
    ensures r == q
    decreases |r|
  {
    NonEmptyWith(r, q);
    NonEmptyWith(q, r);
    if r != [] && q != [] {
      var x, y := r[|r| - 1], q[|q| - 1];
      var r', q' := r[..|r| - 1], q[..|q| - 1];
      LastStamp(r, q);
      LastStamp(q, r);
      assert HasStamp(y, x.generation, x.lsn);
      assert With(r, x.generation, x.lsn) == With(r', x.generation, x.lsn) + [x];
      assert With(q, x.generation, x.lsn) == With(q', x.generation, x.lsn) + [y];
      SnocEqual(With(r', x.generation, x.lsn), x, With(q', x.generation, x.lsn), y);
      forall g: nat, l: nat ensures With(r', g, l) == With(q', g, l) {
        assert With(r, g, l) == With(q, g, l);
        if !HasStamp(x, g, l) {
          assert With(r, g, l) == With(r', g, l) && With(q, g, l) == With(q', g, l);
        }
      }
      StableUnique(r', q');
      assert r == r' + [x] && q == q' + [y];
    }
  }

  lemma SnocEqual<T>(a: seq<T>, x: T, b: seq<T>, y: T)
    requires a + [x] == b + [y]
    ensures a == b && x == y
  {
    assert |a + [x]| == |a| + 1 && |b + [y]| == |b| + 1;
    assert (a + [x])[|a|] == x && (b + [y])[|a|] == y;
    assert a == (a + [x])[..|a|] && b == (b + [y])[..|a|];
  }

  lemma NonEmptyWith<O(!new)>(r: seq<Item<O>>, q: seq<Item<O>>)
    requires forall g: nat, l: nat :: With(r, g, l) == With(q, g, l)
    ensures q != [] ==> r != []
  {
    if q != [] {
      WithMember(q, 0);
      assert With(r, q[0].generation, q[0].lsn) != [];
    }
  }

  // ---- The stable sort ----

  /** Puts an item behind all that are not larger. */
  method Place<O(!new)>(r: seq<Item<O>>, x: Item<O>, ghost items: seq<Item<O>>) returns (q: seq<Item<O>>)
    requires Stable(items, r)
    ensures Stable(items + [x], q)
  {
    var k := |r|;
    while k > 0 && Before(x, r[k - 1])
      invariant 0 <= k <= |r| && forall i :: k <= i < |r| ==> Before(x, r[i])
    {
      k := k - 1;
    }
    q := Splice(r, k, x);
    PlacedSorted(r, k, x);
    PlacedStable(r, k, x, items);
  }

  lemma PlacedSorted<O>(r: seq<Item<O>>, k: nat, x: Item<O>)
    requires NonDecreasing(r) && k <= |r| && (k > 0 ==> !Before(x, r[k - 1]))
    requires forall i :: k <= i < |r| ==> Before(x, r[i])
    ensures NonDecreasing(Splice(r, k, x))
  {
    var q := Splice(r, k, x);
    forall i, j | 0 <= i < j < |q| ensures !Before(q[j], q[i]) {
      assert i < k ==> q[i] == r[i];
      assert i > k ==> q[i] == r[i - 1];
      assert j < k ==> q[j] == r[j];
      assert j > k ==> q[j] == r[j - 1];
    }
  }

  lemma {:induction false} WithNone<O>(items: seq<Item<O>>, g: nat, l: nat)
    requires forall i :: 0 <= i < |items| ==> !HasStamp(items[i], g, l)
    ensures With(items, g, l) == []
    decreases |items|
  {
    if items != [] {
      WithNone(items[..|items| - 1], g, l);
    }
  }

  /** What is behind an item has other stamps, so the item can as well come last. */
  lemma PlacedWith<O>(low: seq<Item<O>>, x: Item<O>, high: seq<Item<O>>, g: nat, l: nat)
    requires forall i :: 0 <= i < |high| ==> Before(x, high[i])
    ensures With(low + ([x] + high), g, l) == With(low + high, g, l) + With([x], g, l)
  {
    WithConcat(low, high, g, l);
    WithConcat(low, [x] + high, g, l);
    WithConcat([x], high, g, l);
    if HasStamp(x, g, l) {
      WithNone(high, g, l);
      EmptyLast(With(low, g, l), With([x], g, l));
    } else {
      WithNone([x], g, l);
      EmptyLast(With(low, g, l), With(high, g, l));
    }
  }

  lemma EmptyLast<T>(a: seq<T>, b: seq<T>)
    ensures a + (b + []) == (a + []) + b && a + ([] + b) == (a + b) + []
  {
  }

  lemma PlacedSame<O>(r: seq<Item<O>>, k: nat, x: Item<O>, items: seq<Item<O>>, g: nat, l: nat)
    requires k <= |r| && (forall i :: k <= i < |r| ==> Before(x, r[i])) && With(r, g, l) == With(items, g, l)
    ensures With(Splice(r, k, x), g, l) == With(items + [x], g, l)
  {
    var low, high := r[..k], r[k..];
    assert r == low + high && Splice(r, k, x) == low + ([x] + high);
    PlacedWith(low, x, high, g, l);
    WithConcat(items, [x], g, l);
  }

  lemma PlacedStable<O(!new)>(r: seq<Item<O>>, k: nat, x: Item<O>, items: seq<Item<O>>)
    requires k <= |r| && (forall i :: k <= i < |r| ==> Before(x, r[i]))
    requires forall g: nat, l: nat :: With(r, g, l) == With(items, g, l)
    ensures forall g: nat, l: nat :: With(Splice(r, k, x), g, l) == With(items + [x], g, l)
  {
    forall g: nat, l: nat ensures With(Splice(r, k, x), g, l) == With(items + [x], g, l) {
      PlacedSame(r, k, x, items, g, l);
    }
  }

  method StableSort<O(!new)>(items: seq<Item<O>>) returns (r: seq<Item<O>>)
    ensures Stable(items, r)
  {
    r := [];
    for n := 0 to |items|
      invariant Stable(items[..n], r)
    {
      r := Place(r, items[n], items[..n]);
      assert items[..n] + [items[n]] == items[..n + 1];
    }
    assert items[..|items|] == items;
  }

  // ---- Expanding ----

  /** The operations of one record. */
  function Items<O>(p: Publication, expand: Write -> seq<O>): (items: seq<Item<O>>)
    ensures |items| == |expand(p.write)|
    ensures forall i :: 0 <= i < |items| ==> items[i] == Item(p.generation, p.lsn, expand(p.write)[i])
  {
    seq(|expand(p.write)|, i requires 0 <= i < |expand(p.write)| => Item(p.generation, p.lsn, expand(p.write)[i]))
  }

  /** The operations of all records, one record after the other. */
  function Expanded<O>(ps: seq<Publication>, n: nat, expand: Write -> seq<O>): seq<Item<O>>
    requires n <= |ps|
  {
    if n == 0 then [] else Expanded(ps, n - 1, expand) + Items(ps[n - 1], expand)
  }

  function Operations<O>(ps: seq<Publication>, n: nat, expand: Write -> seq<O>): seq<O>
    requires n <= |ps|
  {
    if n == 0 then [] else Operations(ps, n - 1, expand) + expand(ps[n - 1].write)
  }

  predicate AllStamped<O>(items: seq<Item<O>>, g: nat, l: nat) {
    forall i :: 0 <= i < |items| ==> HasStamp(items[i], g, l)
  }

  lemma {:induction false} WithAll<O>(items: seq<Item<O>>, g: nat, l: nat)
    requires AllStamped(items, g, l)
    ensures With(items, g, l) == items
    decreases |items|
  {
    if items != [] {
      WithAll(items[..|items| - 1], g, l);
      assert items == items[..|items| - 1] + [items[|items| - 1]];
    }
  }

  /** The items with a stamp come from the one record that has it. */
  lemma {:induction false} ExpandedWith<O(!new)>(ps: seq<Publication>, n: nat, expand: Write -> seq<O>, g: nat, l: nat)
    requires n <= |ps| && DistinctPublications(ps)
    ensures forall i :: 0 <= i < n && ps[i].generation == g && ps[i].lsn == l ==>
      With(Expanded(ps, n, expand), g, l) == Items(ps[i], expand)
    ensures (forall i :: 0 <= i < n ==> ps[i].generation != g || ps[i].lsn != l) ==>
      With(Expanded(ps, n, expand), g, l) == []
  {
    if n > 0 {
      ExpandedWith(ps, n - 1, expand, g, l);
      ExpandedNext(ps, n, expand, g, l);
    }
  }

  lemma ExpandedNext<O(!new)>(ps: seq<Publication>, n: nat, expand: Write -> seq<O>, g: nat, l: nat)
    requires 0 < n <= |ps|
    ensures var p := ps[n - 1];
      With(Expanded(ps, n, expand), g, l) ==
      With(Expanded(ps, n - 1, expand), g, l) + if p.generation == g && p.lsn == l then Items(p, expand) else []
  {
    var p := ps[n - 1];
    var items := Items(p, expand);
    WithConcat(Expanded(ps, n - 1, expand), items, g, l);
    if p.generation == g && p.lsn == l {
      WithAll(items, g, l);
    } else {
      WithNone(items, g, l);
    }
  }

  predicate FromOne<O>(x: Item<O>, ps: seq<Publication>, n: nat)
    requires n <= |ps|
  {
    exists k :: 0 <= k < n && HasStamp(x, ps[k].generation, ps[k].lsn)
  }

  lemma {:induction false} ExpandedSorted<O>(ps: seq<Publication>, n: nat, expand: Write -> seq<O>)
    requires n <= |ps| && Sorted(ps)
    ensures NonDecreasing(Expanded(ps, n, expand))
    ensures forall x :: x in Expanded(ps, n, expand) ==> FromOne(x, ps, n)
  {
    if n > 0 {
      ExpandedSorted(ps, n - 1, expand);
      var before, items := Expanded(ps, n - 1, expand), Items(ps[n - 1], expand);
      forall x | x in before + items ensures FromOne(x, ps, n) {
        if x in before {
          assert FromOne(x, ps, n - 1);
        } else {
          assert HasStamp(x, ps[n - 1].generation, ps[n - 1].lsn);
        }
      }
      forall i, j | 0 <= i < j < |before + items| ensures !Before((before + items)[j], (before + items)[i]) {
        if i < |before| <= j {
          assert before[i] in before && FromOne(before[i], ps, n - 1);
        }
      }
    }
  }

  lemma {:induction false} ExpandedOperations<O>(ps: seq<Publication>, n: nat, expand: Write -> seq<O>)
    requires n <= |ps|
    ensures |Operations(ps, n, expand)| == |Expanded(ps, n, expand)|
    ensures forall i :: 0 <= i < |Expanded(ps, n, expand)| ==>
      Expanded(ps, n, expand)[i].op == Operations(ps, n, expand)[i]
  {
    if n > 0 {
      ExpandedOperations(ps, n - 1, expand);
    }
  }

  lemma SortedDistinct(stamped: seq<Publication>, out: seq<Publication>)
    requires DistinctPublications(stamped) && Sorted(out) && forall p :: p in out <==> p in stamped
    ensures DistinctPublications(out)
  {
    forall i, j | 0 <= i < j < |out| ensures out[i].lsn != out[j].lsn {
      assert Earlier(out[i], out[j]) && out[i] in stamped && out[j] in stamped;
    }
  }

  lemma SameWith<O(!new)>(stamped: seq<Publication>, out: seq<Publication>, expand: Write -> seq<O>, g: nat, l: nat)
    requires DistinctPublications(stamped) && DistinctPublications(out) && forall p :: p in out <==> p in stamped
    ensures With(Expanded(stamped, |stamped|, expand), g, l) == With(Expanded(out, |out|, expand), g, l)
  {
    ExpandedWith(stamped, |stamped|, expand, g, l);
    ExpandedWith(out, |out|, expand, g, l);
    if i :| 0 <= i < |stamped| && stamped[i].generation == g && stamped[i].lsn == l {
      assert stamped[i] in stamped;
      var k :| 0 <= k < |out| && out[k] == stamped[i];
    } else {
      forall k | 0 <= k < |out| ensures out[k].generation != g || out[k].lsn != l {
        assert out[k] in out;
      }
    }
  }

  /** Sorting the expanded records is expanding the sorted ones. */
  lemma SortExpanded<O(!new)>(stamped: seq<Publication>, out: seq<Publication>, expand: Write -> seq<O>,
                              r: seq<Item<O>>)
    requires DistinctPublications(stamped) && Sorted(out) && forall p :: p in out <==> p in stamped
    requires Stable(Expanded(stamped, |stamped|, expand), r)
    ensures r == Expanded(out, |out|, expand)
  {
    var q := Expanded(out, |out|, expand);
    ExpandedSorted(out, |out|, expand);
    SortedDistinct(stamped, out);
    forall g: nat, l: nat ensures With(r, g, l) == With(q, g, l) {
      SameWith(stamped, out, expand, g, l);
    }
    StableUnique(r, q);
  }

  method ExpandAll<O>(stamped: seq<Publication>, expand: Write -> seq<O>) returns (items: seq<Item<O>>)
    ensures items == Expanded(stamped, |stamped|, expand)
  {
    items := [];
    for n := 0 to |stamped|
      invariant items == Expanded(stamped, n, expand)
    {
      items := items + Items(stamped[n], expand);
    }
  }

  /** Reconciling as it is done: expand, stamp, sort, drop the stamps. */
  method ReconcileOperations<O(!new)>(recs: Survivors, loaded: bool, checkpoint: nat, regimeOf: nat -> RankRegime,
                                      expand: Write -> seq<O>) returns (ops: seq<O>)
    requires DistinctLsns(recs)
    ensures forall out ::
      Sorted(out) && (forall p :: p in out <==> ReplayedBy(recs, loaded, checkpoint, regimeOf, |recs|, p)) ==>
      ops == Operations(out, |out|, expand)
  {
    var stamped := StampRecords(recs, loaded, checkpoint, regimeOf);
    var items := ExpandAll(stamped, expand);
    var sorted := StableSort(items);
    ops := seq(|sorted|, i requires 0 <= i < |sorted| => sorted[i].op);
    forall out |
      Sorted(out) && (forall p :: p in out <==> ReplayedBy(recs, loaded, checkpoint, regimeOf, |recs|, p))
      ensures ops == Operations(out, |out|, expand)
    {
      SortExpanded(stamped, out, expand, sorted);
      ExpandedOperations(out, |out|, expand);
    }
  }
}
