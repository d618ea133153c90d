/**
 The records of the write-ahead log and what a sequence of published writes means as a map.
 */
module WriteLog {
  import opened Words

  type Key = seq<byte>
  type Value = seq<byte>
  type Contents = map<Key, Value>

  /** When a write applies to the root it meets. */
  datatype Mode = InsertOnce | Upsert | CompareAndSwap(expected: Option<Value>) | RemovePresent

  /** A write sets its key to `value`, or removes the key when `value` is `None`. */
  datatype Write = Write(key: Key, value: Option<Value>, mode: Mode)

  datatype Record =
    | Data(write: Write)
    | CommitRank(dataLsn: nat, generation: nat)
    | Checkpoint(upTo: nat)

  /** A data record together with the generation its root CAS was ranked with. */
  datatype Publication = Publication(lsn: nat, generation: nat, write: Write)

  function Lookup(m: Contents, key: Key): Option<Value> {
    if key in m then Some(m[key]) else None
  }

  predicate Applies(w: Write, m: Contents) {
    match w.mode
    case InsertOnce => w.key !in m
    case Upsert => true
    case CompareAndSwap(expected) => Lookup(m, w.key) == expected
    case RemovePresent => w.key in m
  }

  function Effect(w: Write, m: Contents): (m': Contents)
    ensures Lookup(m', w.key) == w.value
    ensures forall key :: key != w.key ==> Lookup(m', key) == Lookup(m, key)
  {
    match w.value
    case Some(v) => m[w.key := v]
    case None => m - {w.key}
  }

  /** The map after the first `n` publications, starting from `origin`. */
  function Replay(origin: Contents, ps: seq<Publication>, n: nat): Contents
    requires n <= |ps|
  {
    if n == 0 then origin else Effect(ps[n - 1].write, Replay(origin, ps, n - 1))
  }

  /** Publication `p` is the last one to `key` among the first `n`. */
  predicate LastFor(ps: seq<Publication>, n: nat, key: Key, p: nat) {
    p < n <= |ps| && ps[p].write.key == key && forall q :: p < q < n ==> ps[q].write.key != key
  }

  predicate Untouched(ps: seq<Publication>, n: nat, key: Key) {
    n <= |ps| && forall q :: 0 <= q < n ==> ps[q].write.key != key
  }

  /** The value of a key is what the last publication to it wrote. */
  lemma {:induction false} LastWriterWins(origin: Contents, ps: seq<Publication>, n: nat, key: Key)
    requires n <= |ps|
    ensures forall p: nat ::
      LastFor(ps, n, key, p) ==> Lookup(Replay(origin, ps, n), key) == ps[p].write.value
    ensures Untouched(ps, n, key) ==> Lookup(Replay(origin, ps, n), key) == Lookup(origin, key)
  {
    if n > 0 {
      LastWriterWins(origin, ps, n - 1, key);
      forall p: nat | LastFor(ps, n, key, p) ensures Lookup(Replay(origin, ps, n), key) == ps[p].write.value {
        if p < n - 1 {
          assert ps[n - 1].write.key != key;
          assert LastFor(ps, n - 1, key, p);
        }
      }
      if Untouched(ps, n, key) {
        assert ps[n - 1].write.key != key;
      }
    }
  }

  /** A publication to a key among the first `n` means that there is a last one. */
  lemma {:induction false} LastExists(ps: seq<Publication>, n: nat, key: Key, q: nat) returns (p: nat)
    requires q < n <= |ps| && ps[q].write.key == key
    ensures LastFor(ps, n, key, p) && q <= p
    decreases n - q
  {
    if m :| q < m < n && ps[m].write.key == key {
      p := LastExists(ps, n, key, m);
    } else {
      p := q;
    }
  }

  /** The first `n` publications decide the map, whatever follows. */
  lemma {:induction false} ReplayPrefix(origin: Contents, ps: seq<Publication>, qs: seq<Publication>, n: nat)
    requires n <= |ps| && n <= |qs| && forall i :: 0 <= i < n ==> ps[i] == qs[i]
    ensures Replay(origin, ps, n) == Replay(origin, qs, n)
  {
    if n > 0 {
      ReplayPrefix(origin, ps, qs, n - 1);
    }
  }
}
