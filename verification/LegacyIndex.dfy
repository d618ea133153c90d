/** The suffix index as an object: inserting a text and querying between inserts. */
module LegacyIndex {
  import opened Words
  import opened MatchOrder
  import opened LegacySuffix

  predicate Distinct<T(==)>(r: seq<T>) {
    forall i, j :: 0 <= i < j < |r| ==> r[i] != r[j]
  }

  method InsertSorted(r: seq<(nat, nat)>, x: (nat, nat)) returns (r': seq<(nat, nat)>)
    requires Ascending(r) && x !in r
    ensures Ascending(r') && |r'| == |r| + 1 && forall y :: y in r' <==> y in r || y == x
  {
    var k := |r|;
    while k > 0 && Before(x, r[k - 1])
      invariant 0 <= k <= |r|
      invariant forall i :: k <= i < |r| ==> Before(x, r[i])
    {
      k := k - 1;
    }
    r' := Splice(r, k, x);
    forall y ensures y in r' <==> y in r || y == x {
      SpliceMember(r, k, x, y);
    }
    if k > 0 {
      assert r[k - 1] in r && Before(r[k - 1], x);
    }
    forall i, j | 0 <= i < j < |r'| ensures Before(r'[i], r'[j]) {
      assert i < k ==> r'[i] == r[i];
      assert j > k ==> r'[j] == r[j - 1];
    }
  }

  /** Sorting a list without duplicates leaves nothing for deduplication to remove. */
  method Sort(r: seq<(nat, nat)>) returns (sorted: seq<(nat, nat)>)
    requires Distinct(r)
    ensures Ascending(sorted) && |sorted| == |r| && forall y :: y in sorted <==> y in r
  {
    sorted := [];
    for n := 0 to |r|
      invariant Ascending(sorted) && |sorted| == n
      invariant forall y :: y in sorted <==> exists i :: 0 <= i < n && r[i] == y
    {
      sorted := InsertSorted(sorted, r[n]);
    }
  }

  /** Occurrence `y` comes from a scanned record: under a key not in `keys`, or one of the first `n` under `key`. */
  ghost predicate Scanned<U(!new)>(a: Alphabet<U>, store: Store<U>, p: seq<U>, keys: set<seq<U>>, key: seq<U>, n: nat,
                                   y: (nat, nat)) {
    exists q, i: nat, start: nat ::
      HasRecord(store, q, i, y.0, start) && DataKey(a, p) <= q && y.1 == start + Offset(a, p, |p|) &&
        (q !in keys || (q == key && i < n))
  }

  /** The collected occurrences are those of the scanned records, each once. */
  ghost predicate Collected<U(!new)>(a: Alphabet<U>, store: Store<U>, p: seq<U>, keys: set<seq<U>>, key: seq<U>,
                                     n: nat, r: seq<(nat, nat)>) {
    Distinct(r) && forall y {:trigger y in r} :: y in r <==> Scanned(a, store, p, keys, key, n, y)
  }

  lemma ScannedWitness<U(!new)>(a: Alphabet<U>, store: Store<U>, p: seq<U>, keys: set<seq<U>>, key: seq<U>, n: nat,
                                y: (nat, nat))
    returns (q: seq<U>, i: nat, start: nat)
    requires Scanned(a, store, p, keys, key, n, y)
    ensures HasRecord(store, q, i, y.0, start) && DataKey(a, p) <= q && y.1 == start + Offset(a, p, |p|)
    ensures (q !in keys || (q == key && i < n))
  {
    q, i, start :| HasRecord(store, q, i, y.0, start) && DataKey(a, p) <= q && y.1 == start + Offset(a, p, |p|) &&
      (q !in keys || (q == key && i < n));
  }

  /** The next record adds its occurrence to the scanned ones. */
  lemma ScannedNext<U(!new)>(a: Alphabet<U>, store: Store<U>, p: seq<U>, keys: set<seq<U>>, key: seq<U>, n: nat,
                             id: nat, start: nat, y: (nat, nat))
    requires HasRecord(store, key, n, id, start) && DataKey(a, p) <= key
    ensures Scanned(a, store, p, keys, key, n + 1, y) <==>
      Scanned(a, store, p, keys, key, n, y) || y == (id, start + Offset(a, p, |p|))
  {
    if Scanned(a, store, p, keys, key, n + 1, y) {
      var q, i, b := ScannedWitness(a, store, p, keys, key, n + 1, y);
      if q == key && i == n {
        assert (y.0, b) == (id, start);
      }
    }
    if Scanned(a, store, p, keys, key, n, y) {
      var q, i, b := ScannedWitness(a, store, p, keys, key, n, y);
    }
  }

  /** The occurrence of the next record was not scanned before. */
  lemma NotScanned<U(!new)>(a: Alphabet<U>, s: State<U>, p: seq<U>, keys: set<seq<U>>, key: seq<U>, n: nat, id: nat,
                            start: nat)
    requires Lawful(a) && Inv(a, s) && key in keys && HasRecord(s.store, key, n, id, start)
    ensures !Scanned(a, s.store, p, keys, key, n, (id, start + Offset(a, p, |p|)))
  {
    if Scanned(a, s.store, p, keys, key, n, (id, start + Offset(a, p, |p|))) {
      var q, i, b := ScannedWitness(a, s.store, p, keys, key, n, (id, start + Offset(a, p, |p|)));
      RecordedOnce(a, s, key, n, q, i, id, start);
    }
  }

  lemma CollectAppend<U(!new)>(a: Alphabet<U>, store: Store<U>, p: seq<U>, keys: set<seq<U>>, key: seq<U>, n: nat,
                               id: nat, start: nat, r: seq<(nat, nat)>)
    requires Collected(a, store, p, keys, key, n, r) && HasRecord(store, key, n, id, start) && DataKey(a, p) <= key
    requires !Scanned(a, store, p, keys, key, n, (id, start + Offset(a, p, |p|)))
    ensures Collected(a, store, p, keys, key, n + 1, r + [(id, start + Offset(a, p, |p|))])
  {
    var x := (id, start + Offset(a, p, |p|));
    assert x !in r;
    assert Distinct(r + [x]);
    forall y ensures y in r + [x] <==> Scanned(a, store, p, keys, key, n + 1, y) {
      ScannedNext(a, store, p, keys, key, n, id, start, y);
    }
  }

  lemma CollectNext<U(!new)>(a: Alphabet<U>, s: State<U>, p: seq<U>, keys: set<seq<U>>, key: seq<U>, n: nat, id: nat,
                             start: nat, r: seq<(nat, nat)>)
    requires Lawful(a) && Inv(a, s) && Collected(a, s.store, p, keys, key, n, r) && key in keys
    requires HasRecord(s.store, key, n, id, start) && DataKey(a, p) <= key
    ensures id < |s.Texts()| && Collected(a, s.store, p, keys, key, n + 1, r + [(id, start + Offset(a, p, |p|))])
  {
    assert RecordOk(a, s.Texts(), key, id, start);
    NotScanned(a, s, p, keys, key, n, id, start);
    CollectAppend(a, s.store, p, keys, key, n, id, start, r);
  }

  /** A key is done when all its positions were scanned, or it holds none. */
  lemma CollectKey<U(!new)>(a: Alphabet<U>, store: Store<U>, p: seq<U>, keys: set<seq<U>>, key: seq<U>, n: nat,
                            next: seq<U>, r: seq<(nat, nat)>)
    requires Collected(a, store, p, keys, key, n, r) && key in store
    requires store[key].Suffix? ==> n == |store[key].positions|
    ensures Collected(a, store, p, keys - {key}, next, 0, r)
  {
    forall y ensures y in r <==> Scanned(a, store, p, keys - {key}, next, 0, y) {
      if y in r {
        var q, i: nat, b: nat :| HasRecord(store, q, i, y.0, b) && DataKey(a, p) <= q && y.1 == b + Offset(a, p, |p|) &&
          (q !in keys || (q == key && i < n));
        assert q !in keys - {key};
      }
      if Scanned(a, store, p, keys - {key}, next, 0, y) {
        var q, i: nat, b: nat :| HasRecord(store, q, i, y.0, b) && DataKey(a, p) <= q && y.1 == b + Offset(a, p, |p|) &&
          q !in keys - {key};
        assert q !in keys || (q == key && i < n);
      }
    }
  }

  lemma RisingIsRange(ids: seq<nat>, n: nat)
    requires Rising(ids) && (forall x: nat :: x in ids <==> x < n)
    ensures |ids| == n && forall i :: 0 <= i < |ids| ==> ids[i] == i
  {
    forall i | 0 <= i < |ids| ensures ids[i] == i {
      RisingCounts(ids, n, i);
    }
    assert |ids| !in ids;
    if |ids| > 0 {
      assert ids[|ids| - 1] in ids;
    }
  }

  /** The unit that starts at a byte offset, if the offset is a unit boundary. */
  method UnitIndex<U(!new)>(a: Alphabet<U>, text: seq<U>, start: nat) returns (k: Option<nat>)
    requires Lawful(a)
    ensures k.Some? ==> k.value <= |text| && Offset(a, text, k.value) == start
    ensures k.None? ==> forall j: nat :: j <= |text| ==> Offset(a, text, j) != start
  {
    var offset := 0;
    for j := 0 to |text|
      invariant offset == Offset(a, text, j)
      invariant forall i: nat :: i < j ==> Offset(a, text, i) != start
    {
      if offset == start {
        return Some(j);
      }
      offset := offset + a.width(text[j]);
    }
    return if offset == start then Some(|text|) else None;
  }

  /** `r` is the text of the matched source and the unit at which the match starts. */
  predicate LocatedAt<U(==)>(a: Alphabet<U>, texts: seq<seq<U>>, p: seq<U>, m: (nat, nat), r: (seq<U>, nat)) {
    m.0 < |texts| && r.0 == texts[m.0] && StartsAt(r.0, r.1, p) && m.1 == Offset(a, r.0, r.1) + Offset(a, p, |p|)
  }

  /** Where `x` belongs among rising numbers. */
  method Place(ids: seq<nat>, x: nat) returns (k: nat)
    requires Rising(ids) && x !in ids
    ensures k <= |ids| && Rising(Splice(ids, k, x))
  {
    k := |ids|;
    while k > 0 && x < ids[k - 1]
      invariant 0 <= k <= |ids|
      invariant forall i :: k <= i < |ids| ==> x < ids[i]
    {
      k := k - 1;
    }
    if k > 0 {
      assert ids[k - 1] in ids && ids[k - 1] < x;
    }
    var r := Splice(ids, k, x);
    forall i, j | 0 <= i < j < |r| ensures r[i] < r[j] {
      assert i < k ==> r[i] == ids[i];
      assert j > k ==> r[j] == ids[j - 1];
    }
  }

  predicate Rising(ids: seq<nat>) {
    forall i, j :: 0 <= i < j < |ids| ==> ids[i] < ids[j]
  }

  /** Rising numbers that are exactly the numbers below `n` count up from zero. */
  lemma {:induction false} RisingCounts(ids: seq<nat>, n: nat, i: nat)
    requires Rising(ids) && (forall x: nat :: x in ids <==> x < n) && i < |ids|
    ensures ids[i] == i
  {
    assert ids[i] in ids;
    if i > 0 {
      RisingCounts(ids, n, i - 1);
    }
    if ids[i] > i {
      assert i in ids;
      var j :| 0 <= j < |ids| && ids[j] == i;
      if 0 < i && j <= i - 1 {
        assert j < i;
        RisingCounts(ids, n, j);
      }
    }
  }

  class SuffixIndex<U(==, !new)> {
    const a: Alphabet<U>
    var store: Store<U>
    var nextSourceId: nat
    ghost var published: seq<seq<U>>

    ghost predicate Valid()
      reads this
    {
      Lawful(a) && Inv(a, State(store, published, Idle)) && nextSourceId == |published|
    }

    constructor (a: Alphabet<U>)
      requires Lawful(a)
      ensures Valid() && published == []
    {
      this.a := a;
      store, nextSourceId, published := map[], 0, [];
    }

    /** Adds one position to the list of a suffix. */
    method MergeSuffixPosition(key: seq<U>, sourceId: nat, start: nat)
      modifies this`store
      ensures store == Merge(old(store), key, sourceId, start)
    {
      var positions := if key in store && store[key].Suffix? then store[key].positions else [];
      if (sourceId, start) !in positions {
        positions := positions + [(sourceId, start)];
      }
      store := store[key := Suffix(positions)];
    }

    /** Inserts a text. The suffixes are merged in any order; the source record is written last. */
    method Insert(text: seq<U>)
      requires Valid() && |published| < SOURCE_IDS
      modifies this
      ensures Valid() && published == old(published) + [text]
    {
      var sourceId := nextSourceId;
      nextSourceId := nextSourceId + 1;
      ghost var s0 := State(store, published, Idle);
      ghost var s := State(store, published, Inserting(text, {}));
      BeginKeeps(a, s0, s);
      var todo := if text == [] then {0} else set k: nat {:trigger text[k]} | k < |text|;
      while todo != {}
        invariant s.writer.Inserting? && s.writer.text == text && s.store == store
        invariant s.published == published == old(published)
        invariant nextSourceId == |published| + 1 && Inv(a, s)
        invariant forall k: nat {:trigger k in todo} :: k in todo ==> IsStart(text, k)
        invariant forall k: nat {:trigger IsStart(text, k)} :: IsStart(text, k) ==> k in todo || k in s.writer.merged
        decreases todo
      {
        var k :| k in todo;
        assert IsStart(text, k);
        ghost var s' := s.(store := Merge(store, DataKey(a, text[k..]), sourceId, Offset(a, text, k)),
          writer := s.writer.(merged := s.writer.merged + {k}));
        assert MergesAt(a, s, k, s');
        MergeKeeps(a, s, k, s');
        MergeSuffixPosition(DataKey(a, text[k..]), sourceId, Offset(a, text, k));
        s := s';
        todo := todo - {k};
      }
      assert forall k: nat {:trigger k in s.writer.merged} :: IsStart(text, k) ==> k in s.writer.merged;
      ghost var s' := State(store[SourceKey(a, sourceId) := Source(sourceId, text, true)], published + [text], Idle);
      PublishKeeps(a, s, s');
      store := store[SourceKey(a, sourceId) := Source(sourceId, text, true)];
      published := published + [text];
    }

    /** The ids of the source records. */
    method ActiveSourceIds() returns (active: set<nat>)
      requires Valid()
      ensures forall id: nat :: id in active <==> id < |published|
    {
      active := {};
      var keys := set key | key in store.Keys && [a.sourceTag] <= key;
      while keys != {}
        invariant keys <= store.Keys
        invariant forall key :: key in keys ==> [a.sourceTag] <= key
        invariant forall id: nat :: id in active ==> id < |published|
        invariant forall id: nat {:trigger SourceKey(a, id)} ::
          id < |published| ==> SourceKey(a, id) in keys || id in active
      {
        var key :| key in keys;
        match store[key] {
          case Source(id, _, isActive) =>
            if isActive {
              active := active + {id};
            }
          case Suffix(_) =>
        }
        keys := keys - {key};
      }
      forall id: nat | id < |published| ensures id in active {
        assert SourceKey(a, id) !in keys;
      }
    }

    /** The texts of the source records, sorted by id. */
    method SourceTexts() returns (texts: seq<seq<U>>)
      requires Valid()
      ensures texts == published
    {
      var ids: seq<nat> := [];
      texts := [];
      var keys := set key | key in store.Keys && [a.sourceTag] <= key;
      while keys != {}
        invariant keys <= store.Keys && forall key :: key in keys ==> [a.sourceTag] <= key
        invariant |ids| == |texts| && Rising(ids)
        invariant forall i {:trigger ids[i]} ::
          0 <= i < |ids| ==> ids[i] < |published| && texts[i] == published[ids[i]] && SourceKey(a, ids[i]) !in keys
        invariant forall id: nat {:trigger SourceKey(a, id)} ::
          id < |published| ==> SourceKey(a, id) in keys || id in ids
        decreases keys
      {
        var key :| key in keys;
        match store[key] {
          case Source(id, text, _) =>
            assert forall i :: 0 <= i < |ids| ==> ids[i] != id;
            var k := Place(ids, id);
            forall x ensures x in Splice(ids, k, id) <==> x in ids || x == id {
              SpliceMember(ids, k, id, x);
            }
            ids, texts := Splice(ids, k, id), Splice(texts, k, text);
          case Suffix(_) =>
        }
        keys := keys - {key};
      }
      forall x: nat ensures x in ids <==> x < |published| {
        assert SourceKey(a, x) !in keys;
        if x in ids {
          var i :| 0 <= i < |ids| && ids[i] == x;
        }
      }
      RisingIsRange(ids, |published|);
      assert forall i {:trigger texts[i]} :: 0 <= i < |texts| ==> texts[i] == published[ids[i]];
    }

    /** The occurrences of a nonempty word with their texts and unit indices: none is dropped at a boundary check. */
    method Locations(p: seq<U>) returns (result: seq<(seq<U>, nat)>, ghost found: seq<(nat, nat)>)
      requires Valid()
      ensures p == [] ==> result == []
      ensures Ascending(found) && |result| == |found|
      ensures p != [] ==> forall id: nat, end: nat :: (id, end) in found <==> Matches(a, published, p, id, end)
      ensures forall i {:trigger found[i]} :: 0 <= i < |found| ==> LocatedAt(a, published, p, found[i], result[i])
    {
      var texts := SourceTexts();
      var matches := MatchPositions(p);
      found := matches;
      result := [];
      var width := Offset(a, p, |p|);
      for n := 0 to |matches|
        invariant |result| == n && forall i {:trigger matches[i]} ::
          0 <= i < n ==> LocatedAt(a, published, p, matches[i], result[i])
      {
        var (id, finish) := matches[n];
        assert (id, finish) == matches[n] && matches[n] in matches && Matches(a, published, p, id, finish);
        if id < |texts| && finish >= width {
          ghost var j: nat :| StartsAt(published[id], j, p) && finish == Offset(a, published[id], j) + width;
          var k := UnitIndex(a, texts[id], finish - width);
          assert k.Some? by {
            assert Offset(a, texts[id], j) == finish - width;
          }
          if k.Some? {
            SameOffset(a, texts[id], j, k.value);
            result := result + [(texts[id], k.value)];
          }
        }
      }
    }

    /** All occurrences of a nonempty word, as (source id, end in bytes), in ascending order. */
    method MatchPositions(p: seq<U>) returns (result: seq<(nat, nat)>)
      requires Valid()
      ensures Ascending(result)
      ensures p == [] ==> result == []
      ensures p != [] ==> forall id: nat, end: nat :: (id, end) in result <==> Matches(a, published, p, id, end)
    {
      if p == [] {
        return [];
      }
      ghost var s := State(store, published, Idle);
      var active := ActiveSourceIds();
      var prefix, width := DataKey(a, p), Offset(a, p, |p|);
      var keys := set key | key in store.Keys && prefix <= key;
      var found: seq<(nat, nat)> := [];
      ghost var none: seq<U> := [];
      while keys != {}
        invariant keys <= store.Keys && forall key :: key in keys ==> prefix <= key
        invariant Collected(a, store, p, keys, none, 0, found)
        decreases keys
      {
        var key :| key in keys;
        CollectSwitch(a, store, p, keys, none, key, found);
        match store[key] {
          case Source(_, _, _) =>
            CollectKey(a, store, p, keys, key, 0, none, found);
          case Suffix(positions) =>
            for n := 0 to |positions|
              invariant Collected(a, store, p, keys, key, n, found)
            {
              var (id, start) := positions[n];
              CollectNext(a, s, p, keys, key, n, id, start, found);
              if id in active {
                found := found + [(id, start + width)];
              }
            }
            CollectKey(a, store, p, keys, key, |positions|, none, found);
        }
        keys := keys - {key};
      }
      result := Sort(found);
      forall id: nat, end: nat ensures (id, end) in result <==> Matches(a, published, p, id, end) {
        FoundExactly(a, s, s, p, id, end);
        ActiveExactly(a, s, id);
        FoundIsScanned(a, s, p, none, id, end);
      }
    }
  }

  lemma CollectSwitch<U(!new)>(a: Alphabet<U>, store: Store<U>, p: seq<U>, keys: set<seq<U>>, key: seq<U>,
                               next: seq<U>, r: seq<(nat, nat)>)
    requires Collected(a, store, p, keys, key, 0, r)
    ensures Collected(a, store, p, keys, next, 0, r)
  {
    forall y ensures Scanned(a, store, p, keys, key, 0, y) == Scanned(a, store, p, keys, next, 0, y) {
    }
  }

  /** With no key left, exactly the found occurrences were scanned. */
  lemma FoundIsScanned<U(!new)>(a: Alphabet<U>, s: State<U>, p: seq<U>, key: seq<U>, id: nat, end: nat)
    requires Inv(a, s) && s.writer.Idle?
    ensures Found(a, ActiveIds(a, s.store), s.store, p, id, end) <==> Scanned(a, s.store, p, {}, key, 0, (id, end))
  {
    ActiveExactly(a, s, id);
    if Scanned(a, s.store, p, {}, key, 0, (id, end)) {
      var q, i: nat, b: nat :| HasRecord(s.store, q, i, id, b) && DataKey(a, p) <= q && end == b + Offset(a, p, |p|);
      assert RecordOk(a, s.Texts(), q, id, b);
    }
  }
}
