/**
 A suffix index kept in one ordered map. Every suffix of a text is stored under a tagged key
 with the positions it starts at; a source record is written last and publishes the text.
 The index is the same for bytes and for characters: a unit has a width in bytes, and
 positions are byte offsets.
 */
module LegacySuffix {
  datatype Value<U(==)> =
    | Suffix(positions: seq<(nat, nat)>)
    | Source(id: nat, text: seq<U>, active: bool)

  type Store<U(==)> = map<seq<U>, Value<U>>

  /** The tags of the two key spaces, the width of a unit and the name of a source. */
  datatype Alphabet<!U(==)> = Alphabet(dataTag: U, sourceTag: U, width: U -> nat, sourceName: nat -> seq<U>)

  const SOURCE_IDS: nat := 0x1_0000_0000_0000_0000

  ghost predicate Lawful<U(!new)>(a: Alphabet<U>) {
    && a.dataTag != a.sourceTag
    && (forall u :: a.width(u) > 0)
    && (forall i: nat, j: nat :: i < SOURCE_IDS && j < SOURCE_IDS && a.sourceName(i) == a.sourceName(j) ==> i == j)
  }

  function DataKey<U>(a: Alphabet<U>, suffix: seq<U>): seq<U> {
    [a.dataTag] + suffix
  }

  function SourceKey<U>(a: Alphabet<U>, id: nat): seq<U> {
    [a.sourceTag] + a.sourceName(id)
  }

  /** The byte offset of unit `k`. */
  function Offset<U>(a: Alphabet<U>, t: seq<U>, k: nat): nat
    requires k <= |t|
  {
    if k == 0 then 0 else Offset(a, t, k - 1) + a.width(t[k - 1])
  }

  /** A text is indexed at each of its units, the empty text at position 0. */
  predicate IsStart<U(==)>(t: seq<U>, k: nat) {
    k < |t| || (t == [] && k == 0)
  }

  predicate StartsAt<U(==)>(t: seq<U>, k: nat, p: seq<U>) {
    k + |p| <= |t| && forall i :: 0 <= i < |p| ==> p[i] == t[k + i]
  }

  /** `p` occurs in source `id` and ends at byte `end`. */
  ghost predicate Matches<U>(a: Alphabet<U>, texts: seq<seq<U>>, p: seq<U>, id: nat, end: nat) {
    id < |texts| && exists k: nat :: StartsAt(texts[id], k, p) && end == Offset(a, texts[id], k) + Offset(a, p, |p|)
  }

  // ---- The store ----

  function PositionsAt<U>(store: Store<U>, key: seq<U>): seq<(nat, nat)> {
    if key in store && store[key].Suffix? then store[key].positions else []
  }

  /** Reads the positions of a key and writes them back with one more. */
  function Merge<U>(store: Store<U>, key: seq<U>, id: nat, start: nat): Store<U> {
    var ps := PositionsAt(store, key);
    store[key := Suffix(if (id, start) in ps then ps else ps + [(id, start)])]
  }

  /** The writer is idle, or has claimed the next id and merged the suffixes in `merged`. */
  datatype Writer<U> = Idle | Inserting(text: seq<U>, merged: set<nat>)

  datatype State<U(==)> = State(store: Store<U>, published: seq<seq<U>>, writer: Writer<U>) {
    /** The texts by source id: the published ones, and the one being inserted. */
    function Texts(): seq<seq<U>> {
      if writer.Idle? then published else published + [writer.text]
    }
  }

  predicate Begins<U(==)>(s: State<U>, s': State<U>) {
    s.writer.Idle? && |s.published| < SOURCE_IDS && s'.writer.Inserting? &&
      s' == s.(writer := Inserting(s'.writer.text, {}))
  }

  predicate MergesAt<U>(a: Alphabet<U>, s: State<U>, k: nat, s': State<U>) {
    && s.writer.Inserting? && IsStart(s.writer.text, k)
    && s' == s.(store := Merge(s.store, DataKey(a, s.writer.text[k..]), |s.published|, Offset(a, s.writer.text, k)),
                writer := s.writer.(merged := s.writer.merged + {k}))
  }

  ghost predicate Publishes<U>(a: Alphabet<U>, s: State<U>, s': State<U>) {
    && s.writer.Inserting? && (forall k: nat {:trigger k in s.writer.merged} ::
      IsStart(s.writer.text, k) ==> k in s.writer.merged)
    && s' == State(s.store[SourceKey(a, |s.published|) := Source(|s.published|, s.writer.text, true)],
      s.published + [s.writer.text], Idle)
  }

  ghost predicate Next<U>(a: Alphabet<U>, s: State<U>, s': State<U>) {
    Begins(s, s') || (exists k: nat :: MergesAt(a, s, k, s')) || Publishes(a, s, s')
  }

  // ---- What readers see ----

  ghost predicate IsActive<U(!new)>(a: Alphabet<U>, store: Store<U>, id: nat) {
    exists key :: key in store && [a.sourceTag] <= key && store[key].Source? && store[key].id == id && store[key].active
  }

  /** Record `i` under `key` says that source `id` has a suffix starting at byte `start`. */
  predicate HasRecord<U(==)>(store: Store<U>, key: seq<U>, i: nat, id: nat, start: nat) {
    key in store && store[key].Suffix? && i < |store[key].positions| && store[key].positions[i] == (id, start)
  }

  /** A scan of the keys that start with `p` finds an occurrence in one of the `active` sources that ends at `end`. */
  ghost predicate Found<U(!new)>(a: Alphabet<U>, active: iset<nat>, store: Store<U>, p: seq<U>, id: nat, end: nat) {
    id in active && exists key, i: nat, start: nat ::
      HasRecord(store, key, i, id, start) && DataKey(a, p) <= key && end == start + Offset(a, p, |p|)
  }

  // ---- The invariant ----

  /** A data record names a text and one of its suffixes, under the key of that suffix. */
  ghost predicate RecordOk<U>(a: Alphabet<U>, texts: seq<seq<U>>, key: seq<U>, id: nat, start: nat) {
    id < |texts| && exists k: nat ::
      IsStart(texts[id], k) && k <= |texts[id]| && key == DataKey(a, texts[id][k..]) && start == Offset(a, texts[id], k)
  }

  ghost predicate Inserted<U(!new)>(a: Alphabet<U>, store: Store<U>, t: seq<U>, id: nat, k: nat) {
    k <= |t| && exists i: nat :: HasRecord(store, DataKey(a, t[k..]), i, id, Offset(a, t, k))
  }

  ghost predicate Inv<U(!new)>(a: Alphabet<U>, s: State<U>) {
    && |s.Texts()| <= SOURCE_IDS
    && (forall key, i: nat, id: nat, start: nat ::
          HasRecord(s.store, key, i, id, start) ==> RecordOk(a, s.Texts(), key, id, start))
    && (forall key, i: nat, j: nat, id: nat, start: nat ::
          HasRecord(s.store, key, i, id, start) && HasRecord(s.store, key, j, id, start) ==> i == j)
    && (forall id: nat, k: nat {:trigger Inserted(a, s.store, s.published[id], id, k)} ::
          id < |s.published| && IsStart(s.published[id], k) ==> Inserted(a, s.store, s.published[id], id, k))
    && (s.writer.Inserting? ==> forall k: nat {:trigger Inserted(a, s.store, s.writer.text, |s.published|, k)} ::
          k in s.writer.merged ==> Inserted(a, s.store, s.writer.text, |s.published|, k))
    && (forall key {:trigger key in s.store} :: key in s.store && s.store[key].Source? ==>
          s.store[key].id < |s.published| && key == SourceKey(a, s.store[key].id)
          && s.store[key] == Source(s.store[key].id, s.published[s.store[key].id], true))
    && (forall id: nat {:trigger SourceKey(a, id)} :: id < |s.published| ==>
          SourceKey(a, id) in s.store && s.store[SourceKey(a, id)] == Source(id, s.published[id], true))
  }

  // ---- Every step keeps it ----

  lemma RecordStays<U(!new)>(a: Alphabet<U>, texts: seq<seq<U>>, more: seq<seq<U>>, key: seq<U>, id: nat, start: nat)
    requires RecordOk(a, texts, key, id, start) && |texts| <= |more| && forall i {:trigger more[i]} ::
      0 <= i < |texts| ==> more[i] == texts[i]
    ensures RecordOk(a, more, key, id, start)
  {
    assert more[id] == texts[id];
    var k: nat :| IsStart(texts[id], k) && k <= |texts[id]| && key == DataKey(a, texts[id][k..]) &&
      start == Offset(a, texts[id], k);
  }

  lemma BeginKeeps<U(!new)>(a: Alphabet<U>, s: State<U>, s': State<U>)
    requires Inv(a, s) && Begins(s, s')
    ensures Inv(a, s')
  {
    forall key, i: nat, id: nat, start: nat | HasRecord(s'.store, key, i, id, start)
      ensures RecordOk(a, s'.Texts(), key, id, start)
    {
      RecordStays(a, s.Texts(), s'.Texts(), key, id, start);
    }
  }

  /** Merging adds the record if it is missing and changes no other record. */
  lemma MergeRecords<U(!new)>(store: Store<U>, key: seq<U>, id: nat, start: nat)
    requires key in store ==> store[key].Suffix?
    ensures forall q, i: nat, d: nat, b: nat ::
      HasRecord(Merge(store, key, id, start), q, i, d, b) <==>
        HasRecord(store, q, i, d, b) || (q == key && d == id && b == start && i == |PositionsAt(store, key)| &&
          (id, start) !in PositionsAt(store, key))
    ensures exists i: nat :: HasRecord(Merge(store, key, id, start), key, i, id, start)
  {
    var ps := PositionsAt(store, key);
    var store' := Merge(store, key, id, start);
    if (id, start) in ps {
      var i :| 0 <= i < |ps| && ps[i] == (id, start);
      assert HasRecord(store', key, i, id, start);
    } else {
      assert HasRecord(store', key, |ps|, id, start);
    }
  }

  lemma MergeKeeps<U(!new)>(a: Alphabet<U>, s: State<U>, k: nat, s': State<U>)
    requires Lawful(a) && Inv(a, s) && MergesAt(a, s, k, s')
    ensures Inv(a, s')
  {
    var t, id := s.writer.text, |s.published|;
    var key, start := DataKey(a, t[k..]), Offset(a, t, k);
    assert key in s.store ==> s.store[key].Suffix? by {
      assert forall d: nat :: SourceKey(a, d)[0] != key[0];
    }
    MergeRecords(s.store, key, id, start);
    assert s'.Texts() == s.Texts() && s.Texts()[id] == t;
    assert RecordOk(a, s.Texts(), key, id, start);
    MergeOnce(s.store, key, id, start);
    forall d: nat, j: nat {:trigger Inserted(a, s'.store, s.published[d], d, j)} | d < |s.published| &&
      IsStart(s.published[d], j)
      ensures Inserted(a, s'.store, s.published[d], d, j)
    {
      assert Inserted(a, s.store, s.published[d], d, j);
      var i: nat :| HasRecord(s.store, DataKey(a, s.published[d][j..]), i, d, Offset(a, s.published[d], j));
      assert HasRecord(s'.store, DataKey(a, s.published[d][j..]), i, d, Offset(a, s.published[d], j));
    }
    forall j: nat {:trigger Inserted(a, s'.store, t, id, j)} | j in s'.writer.merged
      ensures Inserted(a, s'.store, t, id, j)
    {
      if j != k {
        assert Inserted(a, s.store, t, id, j);
        var i: nat :| HasRecord(s.store, DataKey(a, t[j..]), i, id, Offset(a, t, j));
        assert HasRecord(s'.store, DataKey(a, t[j..]), i, id, Offset(a, t, j));
      }
    }
    MergeSources(a, s, key, id, start);
  }

  lemma MergeOnce<U(!new)>(store: Store<U>, key: seq<U>, id: nat, start: nat)
    requires key in store ==> store[key].Suffix?
    requires forall q, i: nat, j: nat, d: nat, b: nat ::
      HasRecord(store, q, i, d, b) && HasRecord(store, q, j, d, b) ==> i == j
    ensures forall q, i: nat, j: nat, d: nat, b: nat ::
      HasRecord(Merge(store, key, id, start), q, i, d, b) && HasRecord(Merge(store, key, id, start), q, j, d, b) ==>
        i == j
  {
    MergeRecords(store, key, id, start);
    var ps := PositionsAt(store, key);
    forall q, i: nat, d: nat, b: nat | HasRecord(store, q, i, d, b) && q == key ensures (d, b) in ps {
      assert ps[i] == (d, b);
    }
  }

  lemma MergeSources<U(!new)>(a: Alphabet<U>, s: State<U>, key: seq<U>, id: nat, start: nat)
    requires Lawful(a) && Inv(a, s) && |key| > 0 && key[0] == a.dataTag
    ensures var store := Merge(s.store, key, id, start);
      && (forall q {:trigger q in store} :: q in store && store[q].Source? ==> q in s.store && store[q] == s.store[q])
      && (forall d: nat ::
        d < |s.published| ==> SourceKey(a, d) in store && store[SourceKey(a, d)] == s.store[SourceKey(a, d)])
  {
    assert forall d: nat :: SourceKey(a, d)[0] == a.sourceTag;
  }

  lemma PublishKeeps<U(!new)>(a: Alphabet<U>, s: State<U>, s': State<U>)
    requires Lawful(a) && Inv(a, s) && Publishes(a, s, s')
    ensures Inv(a, s')
  {
    var t, id := s.writer.text, |s.published|;
    var mine := SourceKey(a, id);
    forall key, i: nat, d: nat, b: nat ensures HasRecord(s'.store, key, i, d, b) <==> HasRecord(s.store, key, i, d, b) {
      if HasRecord(s.store, key, i, d, b) {
        assert RecordOk(a, s.Texts(), key, d, b);
        assert key[0] == a.dataTag && mine[0] == a.sourceTag;
      }
    }
    assert s'.Texts() == s.Texts();
    forall d: nat, j: nat {:trigger Inserted(a, s'.store, s'.published[d], d, j)} | d < |s'.published| &&
      IsStart(s'.published[d], j)
      ensures Inserted(a, s'.store, s'.published[d], d, j)
    {
      var u := s'.published[d];
      if d < id {
        assert Inserted(a, s.store, s.published[d], d, j);
      } else {
        assert j in s.writer.merged && Inserted(a, s.store, t, id, j);
      }
      var i: nat :| HasRecord(s.store, DataKey(a, u[j..]), i, d, Offset(a, u, j));
      assert HasRecord(s'.store, DataKey(a, u[j..]), i, d, Offset(a, u, j));
    }
    forall d: nat {:trigger SourceKey(a, d)} | d < |s'.published|
      ensures SourceKey(a, d) in s'.store && s'.store[SourceKey(a, d)] == Source(d, s'.published[d], true)
    {
      if d < id {
        SourceKeysDiffer(a, d, id);
      }
    }
  }

  lemma SourceKeysDiffer<U(!new)>(a: Alphabet<U>, i: nat, j: nat)
    requires Lawful(a) && i < SOURCE_IDS && j < SOURCE_IDS && i != j
    ensures SourceKey(a, i) != SourceKey(a, j)
  {
    assert SourceKey(a, i)[1..] == a.sourceName(i) && SourceKey(a, j)[1..] == a.sourceName(j);
  }

  lemma StepKeeps<U(!new)>(a: Alphabet<U>, s: State<U>, s': State<U>)
    requires Lawful(a) && Inv(a, s) && Next(a, s, s')
    ensures Inv(a, s')
  {
    if Begins(s, s') {
      BeginKeeps(a, s, s');
    } else if Publishes(a, s, s') {
      PublishKeeps(a, s, s');
    } else {
      var k: nat :| MergesAt(a, s, k, s');
      MergeKeeps(a, s, k, s');
    }
  }

  ghost predicate Steps<U>(a: Alphabet<U>, run: seq<State<U>>, i: nat) {
    i + 1 < |run| && Next(a, run[i], run[i + 1])
  }

  /** The store starts empty. */
  ghost predicate Run<U>(a: Alphabet<U>, run: seq<State<U>>) {
    && |run| > 0 && run[0] == State(map[], [], Idle)
    && forall i: nat :: i < |run| - 1 ==> Steps(a, run, i)
  }

  lemma {:induction false} RunKeeps<U(!new)>(a: Alphabet<U>, run: seq<State<U>>, i: nat)
    requires Lawful(a) && Run(a, run) && i < |run|
    ensures Inv(a, run[i])
  {
    if i > 0 {
      RunKeeps(a, run, i - 1);
      assert Steps(a, run, i - 1);
      StepKeeps(a, run[i - 1], run[i]);
    }
  }

  /** Published texts stay published, under their ids. */
  lemma {:induction false} RunGrows<U(!new)>(a: Alphabet<U>, run: seq<State<U>>, i: nat, j: nat)
    requires Run(a, run) && i <= j < |run|
    ensures run[i].published <= run[j].published
    decreases j
  {
    if i < j {
      RunGrows(a, run, i, j - 1);
      assert Steps(a, run, j - 1);
      assert run[j - 1].published <= run[j].published;
    }
  }

  // ---- Readers between the writer's steps ----

  ghost function ActiveIds<U(!new)>(a: Alphabet<U>, store: Store<U>): iset<nat> {
    iset id: nat | IsActive(a, store, id)
  }

  lemma ActiveExactly<U(!new)>(a: Alphabet<U>, s: State<U>, id: nat)
    requires Inv(a, s)
    ensures IsActive(a, s.store, id) <==> id < |s.published|
  {
    if id < |s.published| {
      assert SourceKey(a, id) in s.store && [a.sourceTag] <= SourceKey(a, id);
    }
  }

  lemma PrefixStarts<U(!new)>(a: Alphabet<U>, t: seq<U>, k: nat, p: seq<U>)
    requires k <= |t|
    ensures DataKey(a, p) <= DataKey(a, t[k..]) <==> StartsAt(t, k, p)
  {
    var key, pre := DataKey(a, t[k..]), DataKey(a, p);
    assert key[1..] == t[k..] && pre[1..] == p;
    if pre <= key {
      forall i | 0 <= i < |p| ensures p[i] == t[k + i] {
        assert pre[i + 1] == key[i + 1];
      }
    }
    if StartsAt(t, k, p) {
      forall i | 0 <= i < |pre| ensures pre[i] == key[i] {
        if i > 0 {
          assert p[i - 1] == t[k + i - 1];
        }
      }
    }
  }

  lemma FoundMatches<U(!new)>(a: Alphabet<U>, s: State<U>, p: seq<U>, t: seq<U>, id: nat, key: seq<U>, start: nat)
    returns (k: nat)
    requires id < |s.Texts()| && t == s.Texts()[id] && RecordOk(a, s.Texts(), key, id, start) && DataKey(a, p) <= key
    ensures StartsAt(t, k, p) && start == Offset(a, t, k)
  {
    k :| IsStart(t, k) && k <= |t| && key == DataKey(a, t[k..]) && start == Offset(a, t, k);
    PrefixStarts(a, t, k, p);
  }

  lemma MatchFound<U(!new)>(a: Alphabet<U>, s: State<U>, p: seq<U>, id: nat, k: nat)
    requires Inv(a, s) && id < |s.published| && p != [] && StartsAt(s.published[id], k, p)
    ensures exists key, i: nat :: HasRecord(s.store, key, i, id, Offset(a, s.published[id], k)) && DataKey(a, p) <= key
  {
    assert Inserted(a, s.store, s.published[id], id, k);
    PrefixStarts(a, s.published[id], k, p);
  }

  /** A scan at a later state, filtered by the sources active before, answers exactly for those sources. */
  lemma FoundExactly<U(!new)>(a: Alphabet<U>, s: State<U>, s': State<U>, p: seq<U>, id: nat, end: nat)
    requires Inv(a, s) && Inv(a, s') && s.published <= s'.published && p != []
    ensures Found(a, ActiveIds(a, s.store), s'.store, p, id, end) <==> Matches(a, s.published, p, id, end)
  {
    ActiveExactly(a, s, id);
    if id < |s.published| {
      var t := s.published[id];
      assert s'.Texts()[id] == t == s'.published[id];
      if Found(a, ActiveIds(a, s.store), s'.store, p, id, end) {
        var key, i: nat, start: nat :| HasRecord(s'.store, key, i, id, start) && DataKey(a, p) <= key &&
          end == start + Offset(a, p, |p|);
        var k := FoundMatches(a, s', p, t, id, key, start);
      }
      if Matches(a, s.published, p, id, end) {
        var k: nat :| StartsAt(t, k, p) && end == Offset(a, t, k) + Offset(a, p, |p|);
        MatchFound(a, s', p, id, k);
      }
    }
  }

  /** Whatever the writer does between a reader's scans, the answer is exact for what the first saw published. */
  lemma ReadersExact<U(!new)>(a: Alphabet<U>, run: seq<State<U>>, i: nat, j: nat, p: seq<U>, id: nat, end: nat)
    requires Lawful(a) && Run(a, run) && i <= j < |run| && p != []
    ensures Found(a, ActiveIds(a, run[i].store), run[j].store, p, id, end) <==> Matches(a, run[i].published, p, id, end)
  {
    RunKeeps(a, run, i);
    RunKeeps(a, run, j);
    RunGrows(a, run, i, j);
    FoundExactly(a, run[i], run[j], p, id, end);
  }

  /** With the texts read first of all, the located occurrences are exact for the sources published then. */
  lemma LocationsExact<U(!new)>(a: Alphabet<U>, run: seq<State<U>>, h: nat, i: nat, j: nat, p: seq<U>, id: nat,
                                end: nat)
    requires Lawful(a) && Run(a, run) && h <= i <= j < |run| && p != []
    ensures id < |run[h].published| && Found(a, ActiveIds(a, run[i].store), run[j].store, p, id, end) <==>
      Matches(a, run[h].published, p, id, end)
  {
    ReadersExact(a, run, i, j, p, id, end);
    RunGrows(a, run, h, i);
    if id < |run[h].published| {
      assert run[h].published[id] == run[i].published[id];
    }
  }

  // ---- Each position sits under one key ----

  lemma {:induction false} OffsetGrows<U(!new)>(a: Alphabet<U>, t: seq<U>, i: nat, j: nat)
    requires Lawful(a) && i < j <= |t|
    ensures Offset(a, t, i) < Offset(a, t, j)
  {
    if i < j - 1 {
      OffsetGrows(a, t, i, j - 1);
    }
  }

  lemma SameOffset<U(!new)>(a: Alphabet<U>, t: seq<U>, i: nat, j: nat)
    requires Lawful(a) && i <= |t| && j <= |t| && Offset(a, t, i) == Offset(a, t, j)
    ensures i == j
  {
    if i < j {
      OffsetGrows(a, t, i, j);
    } else if j < i {
      OffsetGrows(a, t, j, i);
    }
  }

  /** A position of a source is recorded once, under one key. */
  lemma RecordedOnce<U(!new)>(a: Alphabet<U>, s: State<U>, key: seq<U>, i: nat, key': seq<U>, i': nat, id: nat,
                              start: nat)
    requires Lawful(a) && Inv(a, s) && HasRecord(s.store, key, i, id, start) && HasRecord(s.store, key', i', id, start)
    ensures key == key' && i == i'
  {
    assert RecordOk(a, s.Texts(), key, id, start) && RecordOk(a, s.Texts(), key', id, start);
    var t := s.Texts()[id];
    var k: nat :| IsStart(t, k) && k <= |t| && key == DataKey(a, t[k..]) && start == Offset(a, t, k);
    var k': nat :| IsStart(t, k') && k' <= |t| && key' == DataKey(a, t[k'..]) && start == Offset(a, t, k');
    SameOffset(a, t, k, k');
  }

  // ---- Every insertion ends ----

  ghost predicate Path<U>(a: Alphabet<U>, path: seq<State<U>>, s: State<U>, t: State<U>) {
    |path| > 0 && path[0] == s && path[|path| - 1] == t && forall i: nat :: i < |path| - 1 ==> Steps(a, path, i)
  }

  lemma PathFront<U>(a: Alphabet<U>, s: State<U>, path: seq<State<U>>, s': State<U>, t: State<U>)
    requires Next(a, s, s') && Path(a, path, s', t)
    ensures Path(a, [s] + path, s, t)
  {
    var longer := [s] + path;
    forall i: nat | i < |longer| - 1 ensures Steps(a, longer, i) {
      if i > 0 {
        assert Steps(a, path, i - 1);
      }
    }
  }

  /** The text that is being inserted can be published, whichever suffixes are merged already. */
  lemma {:induction false} CanPublish<U>(a: Alphabet<U>, s: State<U>, k: nat)
    returns (path: seq<State<U>>, t: State<U>)
    requires s.writer.Inserting? && forall i: nat :: i < k && IsStart(s.writer.text, i) ==> i in s.writer.merged
    requires k <= |s.writer.text| + 1
    ensures Path(a, path, s, t) && t.writer.Idle? && t.published == s.published + [s.writer.text]
    decreases |s.writer.text| + 1 - k
  {
    if IsStart(s.writer.text, k) {
      var s' := s.(store := Merge(s.store, DataKey(a, s.writer.text[k..]), |s.published|, Offset(a, s.writer.text, k)),
        writer := s.writer.(merged := s.writer.merged + {k}));
      assert MergesAt(a, s, k, s');
      var rest;
      rest, t := CanPublish(a, s', k + 1);
      PathFront(a, s, rest, s', t);
      path := [s] + rest;
    } else {
      t := State(s.store[SourceKey(a, |s.published|) := Source(|s.published|, s.writer.text, true)],
        s.published + [s.writer.text], Idle);
      assert Publishes(a, s, t);
      path := [s, t];
      assert Steps(a, path, 0);
    }
  }

  /** No insertion is stuck, and any text can be the next one as long as ids are left. */
  lemma EveryInsertEnds<U>(a: Alphabet<U>, s: State<U>, text: seq<U>) returns (path: seq<State<U>>, t: State<U>)
    requires if s.writer.Idle? then |s.published| < SOURCE_IDS else s.writer.text == text
    ensures Path(a, path, s, t) && t.writer.Idle? && t.published == s.published + [text]
  {
    if s.writer.Idle? {
      var s' := s.(writer := Inserting(text, {}));
      assert Begins(s, s');
      var rest;
      rest, t := CanPublish(a, s', 0);
      PathFront(a, s, rest, s', t);
      path := [s] + rest;
    } else {
      path, t := CanPublish(a, s, 0);
    }
  }
}
