/**
 The order in which the suffix automaton lists its sources: by text, unit by unit, and by id
 where texts are equal. The list is kept sorted by binary search.
 */
module SourceOrder {
  import opened Words
  import opened SortedLists

  ghost predicate StrictTotal<U(!new)>(less: (U, U) -> bool) {
    && (forall x :: !less(x, x))
    && (forall x, y, z :: less(x, y) && less(y, z) ==> less(x, z))
    && (forall x, y :: x == y || less(x, y) || less(y, x))
  }

  predicate TextLess<U(==)>(less: (U, U) -> bool, s: seq<U>, t: seq<U>)
    decreases |s|
  {
    if t == [] then false
    else if s == [] then true
    else less(s[0], t[0]) || (s[0] == t[0] && TextLess(less, s[1..], t[1..]))
  }

  lemma {:induction false} TextLessTotal<U(!new)>(less: (U, U) -> bool, s: seq<U>, t: seq<U>)
    requires StrictTotal(less)
    ensures TextLess(less, s, t) || s == t || TextLess(less, t, s)
    ensures !(TextLess(less, s, t) && TextLess(less, t, s)) && !TextLess(less, s, s)
    decreases |s|
  {
    if s != [] && t != [] {
      TextLessTotal(less, s[1..], t[1..]);
      assert s == [s[0]] + s[1..] && t == [t[0]] + t[1..];
    } else if s != [] {
      TextLessTotal(less, s[1..], s[1..]);
    }
  }

  lemma {:induction false} TextLessTransitive<U(!new)>(less: (U, U) -> bool, s: seq<U>, t: seq<U>, u: seq<U>)
    requires StrictTotal(less) && TextLess(less, s, t) && TextLess(less, t, u)
    ensures TextLess(less, s, u)
    decreases |s|
  {
    if s != [] && s[0] == t[0] == u[0] {
      TextLessTransitive(less, s[1..], t[1..], u[1..]);
    }
  }

  /** Texts are equal up to place `k`, and there `s` has ended before `t`, or has the smaller unit. */
  predicate DiffersAt<U(==)>(less: (U, U) -> bool, s: seq<U>, t: seq<U>, k: nat) {
    && k <= |s| && k < |t| && s[..k] == t[..k]
    && (k == |s| || less(s[k], t[k]))
  }

  /** The order is that of dictionaries: the first difference decides, and a prefix comes first. */
  lemma {:induction false} FirstDifferenceDecides<U(!new)>(less: (U, U) -> bool, s: seq<U>, t: seq<U>)
    ensures TextLess(less, s, t) <==> exists k: nat :: DiffersAt(less, s, t, k)
    decreases |s|
  {
    if s == [] {
      assert t != [] ==> DiffersAt(less, s, t, 0);
    } else if t != [] {
      if less(s[0], t[0]) {
        assert DiffersAt(less, s, t, 0);
      }
      FirstDifferenceDecides(less, s[1..], t[1..]);
      if s[0] == t[0] {
        DifferenceBehind(less, s, t);
      }
      if k: nat :| DiffersAt(less, s, t, k) {
        assert k > 0 ==> s[..k][0] == t[..k][0];
        assert k > 0 ==> DiffersAt(less, s[1..], t[1..], k - 1);
      }
      if k: nat :| s[0] == t[0] && DiffersAt(less, s[1..], t[1..], k) {
        assert DiffersAt(less, s, t, k + 1);
      }
    }
  }

  lemma DifferenceBehind<U(!new)>(less: (U, U) -> bool, s: seq<U>, t: seq<U>)
    requires s != [] && t != [] && s[0] == t[0]
    ensures forall k: nat :: k > 0 ==> (DiffersAt(less, s, t, k) <==> DiffersAt(less, s[1..], t[1..], k - 1))
  {
    forall k: nat | k > 0 ensures DiffersAt(less, s, t, k) <==> DiffersAt(less, s[1..], t[1..], k - 1) {
      if k <= |s| && k <= |t| {
        assert s[..k] == [s[0]] + s[1..][..k - 1] && t[..k] == [t[0]] + t[1..][..k - 1];
        if s[..k] == t[..k] {
          assert s[1..][..k - 1] == s[..k][1..] && t[1..][..k - 1] == t[..k][1..];
        }
      }
    }
  }

  /** A difference stays the first one when the same is put before, or anything behind. */
  lemma LessInside<U(!new)>(less: (U, U) -> bool, s: seq<U>, t: seq<U>, x: seq<U>, y: seq<U>, k: nat)
    requires k < |s| && k < |t| && s[..k] == t[..k] && less(s[k], t[k])
    ensures TextLess(less, s + x, t + y)
  {
    assert (s + x)[..k] == s[..k] && (t + y)[..k] == t[..k];
    assert DiffersAt(less, s + x, t + y, k);
    FirstDifferenceDecides(less, s + x, t + y);
  }

  lemma {:induction false} LessBehind<U(!new)>(less: (U, U) -> bool, p: seq<U>, s: seq<U>, t: seq<U>)
    requires StrictTotal(less)
    ensures TextLess(less, p + s, p + t) <==> TextLess(less, s, t)
    decreases |p|
  {
    if p == [] {
      assert p + s == s && p + t == t;
    } else {
      assert (p + s)[1..] == p[1..] + s && (p + t)[1..] == p[1..] + t;
      LessBehind(less, p[1..], s, t);
    }
  }

  /** Where texts of one length differ, nothing behind them matters. */
  lemma {:induction false} LessDecided<U(!new)>(less: (U, U) -> bool, s: seq<U>, t: seq<U>, x: seq<U>, y: seq<U>)
    requires StrictTotal(less) && |s| == |t| && s != t
    ensures TextLess(less, s + x, t + y) <==> TextLess(less, s, t)
    decreases |s|
  {
    assert (s + x)[1..] == s[1..] + x && (t + y)[1..] == t[1..] + y;
    if s[0] == t[0] {
      assert s == [s[0]] + s[1..] && t == [t[0]] + t[1..];
      LessDecided(less, s[1..], t[1..], x, y);
    }
  }

  /** Source `i` is listed before source `j`. */
  predicate Precedes<U(==)>(less: (U, U) -> bool, texts: seq<seq<U>>, i: nat, j: nat) {
    && i < |texts| && j < |texts|
    && (TextLess(less, texts[i], texts[j]) || (texts[i] == texts[j] && i < j))
  }

  lemma PrecedesTotal<U(!new)>(less: (U, U) -> bool, texts: seq<seq<U>>, i: nat, j: nat)
    requires StrictTotal(less) && i < |texts| && j < |texts|
    ensures Precedes(less, texts, i, j) || i == j || Precedes(less, texts, j, i)
    ensures !(Precedes(less, texts, i, j) && Precedes(less, texts, j, i))
  {
    TextLessTotal(less, texts[i], texts[j]);
  }

  lemma PrecedesTransitive<U(!new)>(less: (U, U) -> bool, texts: seq<seq<U>>, i: nat, j: nat, k: nat)
    requires StrictTotal(less) && Precedes(less, texts, i, j) && Precedes(less, texts, j, k)
    ensures Precedes(less, texts, i, k)
  {
    if TextLess(less, texts[i], texts[j]) && TextLess(less, texts[j], texts[k]) {
      TextLessTransitive(less, texts[i], texts[j], texts[k]);
    }
  }

  predicate InOrder<U(==)>(less: (U, U) -> bool, texts: seq<seq<U>>, ids: seq<nat>) {
    && (forall i :: 0 <= i < |ids| ==> ids[i] < |texts|)
    && (forall i, j :: 0 <= i < j < |ids| ==> Precedes(less, texts, ids[i], ids[j]))
  }

  lemma InOrderSorted<U(!new)>(less: (U, U) -> bool, texts: seq<seq<U>>, ids: seq<nat>)
    requires StrictTotal(less) && InOrder(less, texts, ids)
    ensures var before := (i: nat, j: nat) => Precedes(less, texts, i, j);
      Asymmetric(before) && SortedBy(before, ids)
  {
    forall i: nat, j: nat | Precedes(less, texts, i, j) ensures !Precedes(less, texts, j, i) {
      PrecedesTotal(less, texts, i, j);
    }
  }

  lemma InOrderUnique<U(!new)>(less: (U, U) -> bool, texts: seq<seq<U>>, ids: seq<nat>, ids': seq<nat>)
    requires StrictTotal(less) && InOrder(less, texts, ids) && InOrder(less, texts, ids')
    requires forall id :: id in ids <==> id in ids'
    ensures ids == ids'
  {
    InOrderSorted(less, texts, ids);
    InOrderSorted(less, texts, ids');
    SortedUnique((i: nat, j: nat) => Precedes(less, texts, i, j), ids, ids');
  }

  lemma InOrderSize<U(!new)>(less: (U, U) -> bool, texts: seq<seq<U>>, ids: seq<nat>, members: set<nat>)
    requires StrictTotal(less) && InOrder(less, texts, ids)
    requires forall id :: id in ids <==> id in members
    ensures |members| == |ids|
  {
    InOrderSorted(less, texts, ids);
    SortedSize((i: nat, j: nat) => Precedes(less, texts, i, j), ids, members);
  }

  /** A text more does not change the order of the others. */
  lemma InOrderGrows<U>(less: (U, U) -> bool, texts: seq<seq<U>>, text: seq<U>, ids: seq<nat>)
    requires InOrder(less, texts, ids)
    ensures InOrder(less, texts + [text], ids)
  {
    forall i, j | 0 <= i < j < |ids| ensures Precedes(less, texts + [text], ids[i], ids[j]) {
      assert Precedes(less, texts, ids[i], ids[j]);
    }
  }

  /** Where a new source goes. */
  method InsertionPoint<U(==,!new)>(less: (U, U) -> bool, texts: seq<seq<U>>, ids: seq<nat>, id: nat) returns (k: nat)
    requires StrictTotal(less) && InOrder(less, texts, ids) && id < |texts| && id !in ids
    ensures k <= |ids| && InOrder(less, texts, Splice(ids, k, id))
  {
    var hi: nat;
    k, hi := 0, |ids|;
    while k < hi
      invariant k <= hi <= |ids|
      invariant forall i :: 0 <= i < k ==> Precedes(less, texts, ids[i], id)
      invariant forall i :: hi <= i < |ids| ==> !Precedes(less, texts, ids[i], id)
    {
      var mid := (k + hi) / 2;
      if Precedes(less, texts, ids[mid], id) {
        forall i | 0 <= i < mid ensures Precedes(less, texts, ids[i], id) {
          PrecedesTransitive(less, texts, ids[i], ids[mid], id);
        }
        k := mid + 1;
      } else {
        forall i | mid < i < |ids| ensures !Precedes(less, texts, ids[i], id) {
          if Precedes(less, texts, ids[i], id) {
            PrecedesTransitive(less, texts, ids[mid], ids[i], id);
          }
        }
        hi := mid;
      }
    }
    SplicedInOrder(less, texts, ids, k, id);
  }

  lemma SplicedInOrder<U(!new)>(less: (U, U) -> bool, texts: seq<seq<U>>, ids: seq<nat>, k: nat, id: nat)
    requires StrictTotal(less) && InOrder(less, texts, ids) && id < |texts| && id !in ids && k <= |ids|
    requires forall i :: 0 <= i < k ==> Precedes(less, texts, ids[i], id)
    requires forall i :: k <= i < |ids| ==> !Precedes(less, texts, ids[i], id)
    ensures InOrder(less, texts, Splice(ids, k, id))
  {
    var r := Splice(ids, k, id);
    forall i | k <= i < |ids| ensures Precedes(less, texts, id, ids[i]) {
      assert ids[i] in ids;
      PrecedesTotal(less, texts, id, ids[i]);
    }
    forall i, j | 0 <= i < j < |r| ensures Precedes(less, texts, r[i], r[j]) {
      assert i < k ==> r[i] == ids[i];
      assert i > k ==> r[i] == ids[i - 1];
      assert j < k ==> r[j] == ids[j];
      assert j > k ==> r[j] == ids[j - 1];
    }
  }

  /** The first listed source whose text is not less than `text`. */
  method FirstNotLess<U(==,!new)>(less: (U, U) -> bool, texts: seq<seq<U>>, ids: seq<nat>, text: seq<U>)
    returns (k: nat)
    requires StrictTotal(less) && InOrder(less, texts, ids)
    ensures k <= |ids|
    ensures (k < |ids| && texts[ids[k]] == text) <==> exists id :: id in ids && id < |texts| && texts[id] == text
  {
    var hi: nat;
    k, hi := 0, |ids|;
    while k < hi
      invariant k <= hi <= |ids|
      invariant forall i :: 0 <= i < k ==> TextLess(less, texts[ids[i]], text)
      invariant forall i :: hi <= i < |ids| ==> !TextLess(less, texts[ids[i]], text)
    {
      var mid := (k + hi) / 2;
      if TextLess(less, texts[ids[mid]], text) {
        forall i | 0 <= i < mid ensures TextLess(less, texts[ids[i]], text) {
          ListedLess(less, texts, ids, i, mid, text);
        }
        k := mid + 1;
      } else {
        forall i | mid < i < |ids| ensures !TextLess(less, texts[ids[i]], text) {
          if TextLess(less, texts[ids[i]], text) {
            ListedLess(less, texts, ids, mid, i, text);
          }
        }
        hi := mid;
      }
    }
    FoundFirst(less, texts, ids, k, text);
  }

  lemma ListedLess<U(!new)>(less: (U, U) -> bool, texts: seq<seq<U>>, ids: seq<nat>, i: nat, j: nat, text: seq<U>)
    requires StrictTotal(less) && InOrder(less, texts, ids) && i < j < |ids| && TextLess(less, texts[ids[j]], text)
    ensures TextLess(less, texts[ids[i]], text)
  {
    assert Precedes(less, texts, ids[i], ids[j]);
    if TextLess(less, texts[ids[i]], texts[ids[j]]) {
      TextLessTransitive(less, texts[ids[i]], texts[ids[j]], text);
    }
  }

  lemma FoundFirst<U(!new)>(less: (U, U) -> bool, texts: seq<seq<U>>, ids: seq<nat>, k: nat, text: seq<U>)
    requires StrictTotal(less) && InOrder(less, texts, ids) && k <= |ids|
    requires forall i :: 0 <= i < k ==> TextLess(less, texts[ids[i]], text)
    requires forall i :: k <= i < |ids| ==> !TextLess(less, texts[ids[i]], text)
    ensures (k < |ids| && texts[ids[k]] == text) <==> exists id :: id in ids && id < |texts| && texts[id] == text
  {
    if k < |ids| && texts[ids[k]] == text {
      assert ids[k] in ids;
    }
    if id :| id in ids && id < |texts| && texts[id] == text {
      var j :| 0 <= j < |ids| && ids[j] == id;
      TextLessTotal(less, text, text);
      assert k <= j;
      if k < j {
        assert Precedes(less, texts, ids[k], ids[j]);
      }
    }
  }

  /** The list without its member at `k`. */
  function Unlisted(ids: seq<nat>, k: nat): (r: seq<nat>)
    requires k < |ids|
    ensures |r| == |ids| - 1
    ensures forall i :: 0 <= i < |r| ==> r[i] == ids[if i < k then i else i + 1]
  {
    ids[..k] + ids[k + 1..]
  }

  lemma UnlistedInOrder<U(!new)>(less: (U, U) -> bool, texts: seq<seq<U>>, ids: seq<nat>, k: nat)
    requires StrictTotal(less) && InOrder(less, texts, ids) && k < |ids|
    ensures InOrder(less, texts, Unlisted(ids, k))
    ensures forall id :: id in Unlisted(ids, k) <==> id in ids && id != ids[k]
  {
    var r := Unlisted(ids, k);
    forall id ensures id in r <==> id in ids && id != ids[k] {
      if id in ids && id != ids[k] {
        var i :| 0 <= i < |ids| && ids[i] == id;
        assert r[if i < k then i else i - 1] == id;
      }
      if id in r {
        var i :| 0 <= i < |r| && r[i] == id;
        PrecedesTotal(less, texts, id, ids[k]);
      }
    }
    forall i, j | 0 <= i < j < |r| ensures Precedes(less, texts, r[i], r[j]) {
      assert r[i] == ids[if i < k then i else i + 1] && r[j] == ids[if j < k then j else j + 1];
    }
  }
}
