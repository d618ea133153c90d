/**
 Summing up a dictionary through the cursor, and directly. Sums wrap around at 64 bits. What
 an entry adds, the length of its key exclusive-or its value, can be any function of it.
 */
module Traversal {
  import opened Words
  import opened EntryCursor

  const WORD: nat := 0x1_0000_0000_0000_0000

  function WrappingAdd(a: nat, b: nat): (c: nat)
    ensures c < WORD
  {
    (a + b) % WORD
  }

  /** The fold over the first `n` entries. */
  function Checksum(es: seq<Entry>, weight: Entry -> nat, n: nat): (c: nat)
    requires n <= |es|
    ensures c < WORD
  {
    if n == 0 then 0 else WrappingAdd(Checksum(es, weight, n - 1), weight(es[n - 1]))
  }

  /** What the first `n` entries add up to, without wrapping. */
  function Total(es: seq<Entry>, weight: Entry -> nat, n: nat): nat
    requires n <= |es|
  {
    if n == 0 then 0 else Total(es, weight, n - 1) + weight(es[n - 1])
  }

  /** Wrapping at every step is wrapping once at the end. */
  lemma {:induction false} ChecksumIsTotal(es: seq<Entry>, weight: Entry -> nat, n: nat)
    requires n <= |es|
    ensures Checksum(es, weight, n) == Total(es, weight, n) % WORD
  {
    if n > 0 {
      ChecksumIsTotal(es, weight, n - 1);
      WrapStep(Total(es, weight, n - 1), weight(es[n - 1]));
    }
  }

  /** The direct traversal of at most `limit` entries. */
  method DirectOwned(es: seq<Entry>, weight: Entry -> nat, limit: nat) returns (checksum: nat)
    ensures checksum == Checksum(es, weight, Min(limit, |es|)) == Total(es, weight, Min(limit, |es|)) % WORD
  {
    checksum := 0;
    for n := 0 to Min(limit, |es|)
      invariant checksum == Checksum(es, weight, n)
    {
      checksum := WrappingAdd(checksum, weight(es[n]));
    }
    ChecksumIsTotal(es, weight, Min(limit, |es|));
  }

  // ---- Full batches ----

  /** If all units fit, a batch of a provider that ends none early is full. */
  lemma BatchIsFull(es: seq<Entry>, a: nat, b: nat, size: nat, maxUnits: nat, width: nat -> nat)
    requires UnitsIn(es, 0, |es|) <= maxUnits && size <= width(a)
    requires IsBatch(es, a, b, Limits(size, maxUnits, size), width)
    ensures b == Min(a + size, |es|)
  {
    if b + 1 <= |es| && b + 1 - a <= size {
      UnitsWithin(es, a, b + 1, |es|);
      ValuesFit(es, a, b + 1);
    }
  }

  /** `k` batches of `size` entries, and no fewer, hold `n` entries. */
  predicate FewestBatches(k: nat, size: nat, n: nat) {
    n <= k * size && (k > 0 ==> (k - 1) * size < n)
  }

  lemma MulLess(a: nat, b: nat, c: nat)
    requires a < b
    ensures a * c + c <= b * c
  {
    assert b * c == (a + 1) * c + (b - a - 1) * c;
    assert (a + 1) * c == a * c + c;
  }

  /** That is the number of entries divided by the size, rounded up. */
  lemma FewestIsCeiling(k: nat, size: nat, n: nat)
    requires size > 0
    ensures FewestBatches(k, size, n) <==> k == (n + size - 1) / size
  {
    var q := (n + size - 1) / size;
    assert n <= q * size && q * size < n + size by {
      assert n + size - 1 == q * size + (n + size - 1) % size;
    }
    if k > 0 {
      MulLess(k - 1, k, size);
    }
    if k < q {
      MulLess(k, q, size);
    } else if k > q + 1 {
      MulLess(q, k - 1, size);
    }
  }

  // ---- The traversal through the cursor ----

  /** Adds the weights of the entries of one batch, up to the limit. */
  method AddBatch(ghost es: seq<Entry>, weight: Entry -> nat, batch: seq<Entry>, ghost at: nat, maximum: nat,
                  checksum0: nat, processed0: nat) returns (checksum: nat, processed: nat)
    requires Stretch(batch, es, at, at + |batch|) && processed0 == Min(maximum, at)
    requires checksum0 == Checksum(es, weight, processed0)
    ensures processed == Min(maximum, at + |batch|) && checksum == Checksum(es, weight, processed)
  {
    checksum, processed := checksum0, processed0;
    var take := Min(|batch|, maximum - processed);
    for i := 0 to take
      invariant processed == processed0 + i && checksum == Checksum(es, weight, processed)
    {
      assert batch[i] == es[processed];
      checksum := WrappingAdd(checksum, weight(batch[i]));
      processed := processed + 1;
    }
  }

  /** Where the cursor stands after some full batches; with a zero maximum one batch is still fetched. */
  predicate Paced(pos: nat, n: nat, size: nat, maximum: nat, batches: nat) {
    && pos == Min(batches * size, n)
    && (batches > 0 ==> (batches - 1) * size < n && (batches - 1) * size < (if maximum == 0 then 1 else maximum))
  }

  lemma PacedNext(pos: nat, n: nat, size: nat, maximum: nat, batches: nat)
    requires Paced(pos, n, size, maximum, batches) && pos < n && (batches == 0 || pos < maximum)
    ensures Paced(Min(pos + size, n), n, size, maximum, batches + 1)
  {
    assert (batches + 1) * size == batches * size + size;
    assert (batches + 1 - 1) * size == batches * size;
  }

  /** Where the traversal stands: what was added up, and how many calls that took. */
  ghost predicate Progress(es: seq<Entry>, weight: Entry -> nat, maximum: nat, pos: nat, checksum: nat, processed: nat,
                           calls: nat, batches: nat) {
    && pos <= |es| && processed == Min(maximum, pos) && checksum == Checksum(es, weight, processed)
    && calls == 2 + 2 * batches
  }

  /** The provider ends no batch of `size` entries early, and all units fit. */
  ghost predicate Generous(es: seq<Entry>, width: nat -> nat, size: nat, maxUnits: nat) {
    UnitsIn(es, 0, |es|) <= maxUnits && forall p: nat :: size <= width(p)
  }

  /** Fetches one batch, adds it up and releases it; two calls, or one if there is no batch. */
  method FetchBatch(cursor: Cursor, weight: Entry -> nat, limits: Limits, maximum: nat, checksum0: nat, processed0: nat,
                    calls0: nat, ghost batches: nat)
    returns (ended: bool, checksum: nat, processed: nat, calls: nat)
    requires cursor.Valid() && cursor.leased == None && !cursor.ended && !cursor.cancelled && !cursor.freed
    requires limits.maxEntries > 0 && forall i :: 0 <= i < |cursor.entries| ==>
      FitsAlone(cursor.entries[i], limits)
    requires Progress(cursor.entries, weight, maximum, cursor.pos, checksum0, processed0, calls0, batches)
    modifies cursor
    ensures cursor.Valid() && cursor.leased == None && !cursor.cancelled && !cursor.freed && cursor.ended == ended
    ensures ended ==> cursor.pos == old(cursor.pos) == |cursor.entries|
    ensures ended ==> calls == calls0 + 1 && checksum == checksum0 && processed == processed0
    ensures !ended ==> IsBatch(cursor.entries, old(cursor.pos), cursor.pos, limits, cursor.width)
    ensures !ended ==> Progress(cursor.entries, weight, maximum, cursor.pos, checksum, processed, calls, batches + 1)
  {
    ghost var at := cursor.pos;
    var status, batch := cursor.Next(limits);
    calls := calls0 + 1;
    checksum, processed := checksum0, processed0;
    ended := status == End;
    if !ended {
      checksum, processed := AddBatch(cursor.entries, weight, batch.entries, at, maximum, checksum, processed);
      var released := cursor.Release(batch.generation);
      calls := calls + 1;
    }
  }

  /**
   The traversal through the cursor, whatever batches its provider makes: the checksum of the
   direct traversal, two calls for every batch and four more, and as few batches as possible if
   none ends early.
   */
  method AbiTraversal(es: seq<Entry>, width: nat -> nat, weight: Entry -> nat, batchSize: nat, maxUnits: nat,
                      maximum: nat)
    returns (checksum: nat, calls: nat, ghost batches: nat)
    requires Willing(width) && batchSize > 0
    requires forall i :: 0 <= i < |es| ==> |es[i].units| <= maxUnits
    ensures checksum == Checksum(es, weight, Min(maximum, |es|)) == Total(es, weight, Min(maximum, |es|)) % WORD
    ensures calls == 4 + 2 * batches
    ensures Generous(es, width, batchSize, maxUnits) ==>
      FewestBatches(batches, batchSize, Min(if maximum == 0 then 1 else maximum, |es|))
  {
    calls := 1;
    var cursor := new Cursor(es, width);
    calls := calls + 1;
    var limits := Limits(batchSize, maxUnits, batchSize);
    checksum := 0;
    var processed: nat, ended, stopped := 0, false, false;
    batches := 0;
    while !ended && !stopped
      invariant cursor.Valid() && cursor.entries == es && cursor.width == width && fresh(cursor)
      invariant cursor.leased == None && !cursor.cancelled && !cursor.freed
      invariant calls > 0
      invariant Progress(es, weight, maximum, cursor.pos, checksum, processed,
                         if ended then calls - 1 else calls, batches)
      invariant cursor.ended == ended && (ended ==> cursor.pos == |es|)
      invariant stopped <==> batches > 0 && processed >= maximum
      invariant Generous(es, width, batchSize, maxUnits) ==> Paced(cursor.pos, |es|, batchSize, maximum, batches)
      decreases |es| - cursor.pos, if ended then 0 else 1
    {
      ghost var at := cursor.pos;
      ended, checksum, processed, calls :=
        FetchBatch(cursor, weight, limits, maximum, checksum, processed, calls, batches);
      if !ended {
        if Generous(es, width, batchSize, maxUnits) {
          BatchIsFull(es, at, cursor.pos, batchSize, maxUnits, width);
          PacedNext(at, |es|, batchSize, maximum, batches);
        }
        batches := batches + 1;
        stopped := processed >= maximum;
      }
    }
    if !ended {
      var cancelled := cursor.Cancel();
      calls := calls + 1;
    }
    var freed := cursor.Free();
    calls := calls + 1;
    ChecksumIsTotal(es, weight, Min(maximum, |es|));
  }

  /** Summing the same checksum over all passes is wrapping multiplication. */
  method SumPasses(checksum: nat, passes: nat) returns (total: nat)
    requires checksum < WORD
    ensures total == (checksum * passes) % WORD
  {
    total := 0;
    for n := 0 to passes
      invariant total == (checksum * n) % WORD
    {
      WrapStep(checksum * n, checksum);
      assert checksum * (n + 1) == checksum * n + checksum;
      total := WrappingAdd(total, checksum);
    }
  }

  lemma WrapStep(a: nat, b: nat)
    ensures (a % WORD + b) % WORD == (a + b) % WORD
  {
    var q := a / WORD;
    assert a + b == q * WORD + (a % WORD + b);
    WrapShift(q, a % WORD + b);
  }

  lemma {:induction false} WrapShift(q: nat, r: nat)
    ensures (q * WORD + r) % WORD == r % WORD
  {
    if q > 0 {
      WrapShift(q - 1, r);
      assert q * WORD + r == ((q - 1) * WORD + r) + WORD;
    }
  }
}
