/** The native entry cursor: an immutable snapshot read in leased batches. */
module EntryCursor {
  import opened Words

  datatype Entry = Entry(units: seq<nat>, value: Option<nat>)

  datatype Limits = Limits(maxEntries: nat, maxUnits: nat, maxValues: nat)

  datatype Batch = Batch(entries: seq<Entry>, generation: nat)

  datatype Status = Ok | End | BatchInUse | LimitExceeded | InvalidArgument

  /** The number of units of entries `a` to `b`. */
  function UnitsIn(es: seq<Entry>, a: nat, b: nat): nat
    requires a <= b <= |es|
  {
    if a == b then 0 else UnitsIn(es, a, b - 1) + |es[b - 1].units|
  }

  function ValuesIn(es: seq<Entry>, a: nat, b: nat): nat
    requires a <= b <= |es|
  {
    if a == b then 0 else ValuesIn(es, a, b - 1) + if es[b - 1].value.Some? then 1 else 0
  }

  /** The units of entries `a` to `b`, one entry after the other, as a batch holds them. */
  function Flat(es: seq<Entry>, a: nat, b: nat): seq<nat>
    requires a <= b <= |es|
    decreases b - a
  {
    if a == b then [] else es[a].units + Flat(es, a + 1, b)
  }

  /** The values that entries `a` to `b` have. */
  function Present(es: seq<Entry>, a: nat, b: nat): seq<nat>
    requires a <= b <= |es|
    decreases b - a
  {
    if a == b then []
    else (if es[a].value.Some? then [es[a].value.value] else []) + Present(es, a + 1, b)
  }

  /** The limits count what the batch holds. */
  lemma {:induction false} CountsAreSizes(es: seq<Entry>, a: nat, b: nat)
    requires a <= b <= |es|
    ensures UnitsIn(es, a, b) == |Flat(es, a, b)| && ValuesIn(es, a, b) == |Present(es, a, b)|
    decreases b - a
  {
    if a < b {
      CountsAreSizes(es, a + 1, b);
      CountFromFront(es, a, b);
    }
  }

  lemma {:induction false} CountFromFront(es: seq<Entry>, a: nat, b: nat)
    requires a < b <= |es|
    ensures UnitsIn(es, a, b) == |es[a].units| + UnitsIn(es, a + 1, b)
    ensures ValuesIn(es, a, b) == (if es[a].value.Some? then 1 else 0) + ValuesIn(es, a + 1, b)
    decreases b
  {
    if a + 1 < b {
      CountFromFront(es, a, b - 1);
    }
  }

  /** Entries `a` to `b` fit into one batch. */
  predicate Fits(es: seq<Entry>, a: nat, b: nat, limits: Limits) {
    a <= b <= |es| && b - a <= limits.maxEntries && UnitsIn(es, a, b) <= limits.maxUnits &&
      ValuesIn(es, a, b) <= limits.maxValues
  }

  /** `s` is the stretch of `es` from `a` to `b`. */
  predicate Stretch(s: seq<Entry>, es: seq<Entry>, a: nat, b: nat) {
    a <= b <= |es| && |s| == b - a && forall i :: 0 <= i < |s| ==> s[i] == es[a + i]
  }

  const NO_BATCH := Batch([], 0)

  /** The entry is small enough for a batch of its own. */
  predicate FitsAlone(e: Entry, limits: Limits) {
    |e.units| <= limits.maxUnits && (e.value.Some? ==> limits.maxValues > 0)
  }

  lemma FitsOne(es: seq<Entry>, a: nat, limits: Limits)
    requires a < |es| && limits.maxEntries > 0
    ensures Fits(es, a, a + 1, limits) <==> FitsAlone(es[a], limits)
  {
    assert UnitsIn(es, a, a + 1) == |es[a].units|;
    assert ValuesIn(es, a, a + 1) == if es[a].value.Some? then 1 else 0;
  }

  /** Every entry of a batch would fit alone. */
  lemma {:induction false} FitsEach(es: seq<Entry>, a: nat, b: nat, i: nat, limits: Limits)
    requires Fits(es, a, b, limits) && a <= i < b
    ensures FitsAlone(es[i], limits)
    decreases b
  {
    if i < b - 1 {
      FitsEach(es, a, b - 1, i, limits);
    }
  }

  function Min(a: nat, b: nat): nat {
    if a < b then a else b
  }

  /** A provider may end a batch early: how many entries it is ready to put into one that starts at a position. */
  ghost predicate Willing(width: nat -> nat) {
    forall p: nat :: width(p) > 0
  }

  /** Entries `a` to `b` are the batch at `a`: nonempty, within the limits, and as long as the provider goes. */
  predicate IsBatch(es: seq<Entry>, a: nat, b: nat, limits: Limits, width: nat -> nat) {
    a < b && Fits(es, a, b, limits) && b - a <= width(a) && (b - a == width(a) || !Fits(es, a, b + 1, limits))
  }

  class Cursor {
    const entries: seq<Entry>
    const width: nat -> nat
    var pos: nat
    var generation: nat
    var leased: Option<nat>
    var ended: bool
    var cancelled: bool
    var freed: bool

    ghost predicate Valid()
      reads this
    {
      Willing(width) && pos <= |entries| && (leased.Some? ==> 0 < leased.value <= generation)
    }

    constructor (entries: seq<Entry>, width: nat -> nat)
      requires Willing(width)
      ensures Valid() && this.entries == entries && this.width == width
      ensures pos == 0 && generation == 0 && leased == None && !ended && !cancelled && !freed
    {
      this.entries, this.width := entries, width;
      pos, generation, leased := 0, 0, None;
      ended, cancelled, freed := false, false, false;
    }

    /** Takes entries from the snapshot as long as they fit; an entry that does not fit alone is an error. */
    method Fill(limits: Limits) returns (status: Status, taken: seq<Entry>)
      requires Valid()
      modifies this`pos
      ensures Valid() && Stretch(taken, entries, old(pos), pos)
      ensures status != Ok ==> taken == []
      ensures status == if limits.maxEntries == 0 then InvalidArgument
        else if old(pos) < |entries| && taken == [] then LimitExceeded else Ok
      ensures limits.maxEntries > 0 ==> Fits(entries, old(pos), pos, limits)
      ensures limits.maxEntries > 0 ==> !Fits(entries, old(pos), pos + 1, limits)
    {
      if limits.maxEntries == 0 {
        return InvalidArgument, [];
      }
      taken := [];
      ghost var from := pos;
      var units, values := 0, 0;
      while |taken| < limits.maxEntries && pos < |entries|
        invariant Stretch(taken, entries, from, pos) && Fits(entries, from, pos, limits)
        invariant units == UnitsIn(entries, from, pos) && values == ValuesIn(entries, from, pos)
        decreases |entries| - pos
      {
        var entry := entries[pos];
        var unitEnd, valueEnd := units + |entry.units|, values + if entry.value.Some? then 1 else 0;
        if unitEnd > limits.maxUnits || valueEnd > limits.maxValues {
          return if taken == [] then LimitExceeded else Ok, taken;
        }
        taken, units, values := taken + [entry], unitEnd, valueEnd;
        pos := pos + 1;
      }
      status := Ok;
    }

    /** Leases the next batch. */
    method Next(limits: Limits) returns (status: Status, batch: Batch)
      requires Valid() && !freed
      modifies this`pos, this`generation, this`leased, this`ended
      ensures Valid()
      ensures status == BatchInUse <==> old(leased).Some?
      ensures old(leased).None? && (old(ended) || old(cancelled)) ==> status == End
      ensures old(leased).None? && !old(ended) && !old(cancelled) ==>
        && (status == InvalidArgument <==> limits.maxEntries == 0)
        && (status == End <==> limits.maxEntries > 0 && old(pos) == |entries|)
        && (status == LimitExceeded <==>
          limits.maxEntries > 0 && old(pos) < |entries| && !FitsAlone(entries[old(pos)], limits))
      ensures status == Ok ==> old(leased).None? && leased == Some(batch.generation)
      ensures status == Ok ==> generation == batch.generation == old(generation) + 1
      ensures status == Ok ==> Stretch(batch.entries, entries, old(pos), pos)
      ensures status == Ok ==> IsBatch(entries, old(pos), pos, limits, width)
      ensures status != Ok ==> pos == old(pos) && leased == old(leased)
      ensures status != Ok ==> generation == old(generation) && batch == NO_BATCH
      ensures ended == (old(ended) || status == End)
    {
      batch := NO_BATCH;
      if leased.Some? {
        return BatchInUse, batch;
      }
      if ended || cancelled {
        ended := true;
        return End, batch;
      }
      var allowed := limits.(maxEntries := Min(limits.maxEntries, width(pos)));
      if pos < |entries| && limits.maxEntries > 0 {
        FitsOne(entries, pos, allowed);
      }
      var filled, taken := Fill(allowed);
      if filled != Ok {
        return filled, batch;
      }
      if taken == [] {
        ended := true;
        return End, batch;
      }
      FitsEach(entries, old(pos), pos, old(pos), allowed);
      generation := generation + 1;
      leased := Some(generation);
      return Ok, Batch(taken, generation);
    }

    /** Ends the lease of exactly this generation. */
    method Release(gen: nat) returns (status: Status)
      requires Valid() && !freed
      modifies this`leased
      ensures Valid() && (status == Ok <==> old(leased) == Some(gen))
      ensures if status == Ok then leased == None else status == InvalidArgument && leased == old(leased)
    {
      if gen == 0 || leased != Some(gen) {
        return InvalidArgument;
      }
      leased := None;
      return Ok;
    }

    /** No further batch will be leased; a live lease stays. */
    method Cancel() returns (status: Status)
      requires Valid() && !freed
      modifies this`cancelled
      ensures Valid() && status == Ok && cancelled
    {
      cancelled := true;
      return Ok;
    }

    /** Frees the cursor, unless a batch is leased. */
    method Free() returns (status: Status)
      requires Valid() && !freed
      modifies this`freed
      ensures Valid() && (status == Ok <==> leased.None?) && (freed <==> status == Ok)
      ensures status != Ok ==> status == BatchInUse
    {
      if leased.Some? {
        return BatchInUse;
      }
      freed := true;
      return Ok;
    }
  }

  // ---- Reading everything, with limits chosen anew for each batch ----

  /** The `k`th batch is the longest stretch that its limits allow. */
  predicate Greedy(es: seq<Entry>, limitsAt: nat -> Limits, cuts: seq<nat>, k: nat) {
    && k + 1 < |cuts| && cuts[k] < cuts[k + 1]
    && Fits(es, cuts[k], cuts[k + 1], limitsAt(k)) && !Fits(es, cuts[k], cuts[k + 1] + 1, limitsAt(k))
  }

  /** Batches end at `cuts`, as the limits of each call allow. */
  predicate GreedyCuts(es: seq<Entry>, limitsAt: nat -> Limits, cuts: seq<nat>) {
    && cuts != [] && cuts[0] == 0
    && forall k: nat :: k < |cuts| - 1 ==> Greedy(es, limitsAt, cuts, k)
  }

  /** Why no batch is leased at position `at`. */
  function Failure(limits: Limits, at: nat, n: nat): Status {
    if limits.maxEntries == 0 then InvalidArgument else if at == n then End else LimitExceeded
  }

  /** The native provider ends no batch early. */
  function Unlimited(es: seq<Entry>): (width: nat -> nat)
    ensures forall p: nat :: width(p) == |es| + 1
  {
    (p: nat) => |es| + 1
  }

  /** Leases, takes over and releases batches until there is none; the `k`th call uses the `k`th limits. */
  method Drain(entries: seq<Entry>, limitsAt: nat -> Limits)
    returns (status: Status, taken: seq<Entry>, cuts: seq<nat>)
    ensures GreedyCuts(entries, limitsAt, cuts) && cuts[|cuts| - 1] <= |entries| && taken == entries[..cuts[|cuts| - 1]]
    ensures status == Failure(limitsAt(|cuts| - 1), cuts[|cuts| - 1], |entries|)
    ensures status == LimitExceeded ==> !FitsAlone(entries[cuts[|cuts| - 1]], limitsAt(|cuts| - 1))
  {
    var cursor := new Cursor(entries, Unlimited(entries));
    var call := 0;
    taken, cuts, status := [], [0], Ok;
    while status == Ok
      invariant cursor.Valid() && cursor.entries == entries && fresh(cursor) && !cursor.cancelled && !cursor.freed
      invariant status == Ok ==> cursor.leased == None && !cursor.ended && call == |cuts| - 1
      invariant GreedyCuts(entries, limitsAt, cuts) && cuts[|cuts| - 1] == cursor.pos && taken == entries[..cursor.pos]
      invariant status == Ok || status == Failure(limitsAt(|cuts| - 1), cursor.pos, |entries|)
      invariant status == LimitExceeded ==> !FitsAlone(entries[cursor.pos], limitsAt(|cuts| - 1))
      decreases |entries| - cursor.pos, if status == Ok then 1 else 0
    {
      ghost var at := cursor.pos;
      var batch;
      status, batch := cursor.Next(limitsAt(call));
      if status == Ok {
        taken := taken + batch.entries;
        CutMore(entries, limitsAt, cuts, cursor.pos);
        cuts := cuts + [cursor.pos];
        call := call + 1;
        var released := cursor.Release(batch.generation);
      }
    }
  }

  lemma CutMore(es: seq<Entry>, limitsAt: nat -> Limits, cuts: seq<nat>, b: nat)
    requires GreedyCuts(es, limitsAt, cuts) && Greedy(es, limitsAt, cuts + [b], |cuts| - 1)
    ensures GreedyCuts(es, limitsAt, cuts + [b])
  {
    forall k: nat | k < |cuts| ensures Greedy(es, limitsAt, cuts + [b], k) {
      if k < |cuts| - 1 {
        assert Greedy(es, limitsAt, cuts, k);
      }
    }
  }

  predicate Increasing(cuts: seq<nat>, k: nat) {
    k + 1 < |cuts| && cuts[k] < cuts[k + 1]
  }

  /** Limits under which the batches end at `cuts`. */
  function LimitsFor(es: seq<Entry>, cuts: seq<nat>): nat -> Limits {
    (k: nat) => Limits(if Increasing(cuts, k) then cuts[k + 1] - cuts[k] else 1, UnitsIn(es, 0, |es|), |es|)
  }

  /** `cuts` splits the snapshot into nonempty batches. */
  predicate Splits(es: seq<Entry>, cuts: seq<nat>) {
    && cuts != [] && cuts[0] == 0 && cuts[|cuts| - 1] == |es|
    && forall i: nat :: i < |cuts| - 1 ==> Increasing(cuts, i)
  }

  /** Every split of the snapshot into nonempty batches comes from some limits. */
  lemma EverySplit(es: seq<Entry>, cuts: seq<nat>)
    requires Splits(es, cuts)
    ensures GreedyCuts(es, LimitsFor(es, cuts), cuts)
  {
    forall k: nat | k < |cuts| - 1 ensures Greedy(es, LimitsFor(es, cuts), cuts, k) {
      assert Increasing(cuts, k);
      LaterCuts(es, cuts, k + 1);
      AllFits(es, cuts[k], cuts[k + 1], LimitsFor(es, cuts)(k));
      AllFits(es, cuts[k], cuts[k + 1] + 1, LimitsFor(es, cuts)(k));
    }
  }

  /** And whatever limits read the whole snapshot split it so. */
  lemma SplitsExactly(es: seq<Entry>, cuts: seq<nat>)
    ensures Splits(es, cuts) <==>
      exists limitsAt: nat -> Limits :: GreedyCuts(es, limitsAt, cuts) && cuts[|cuts| - 1] == |es|
  {
    if Splits(es, cuts) {
      EverySplit(es, cuts);
    }
    if limitsAt: nat -> Limits :| GreedyCuts(es, limitsAt, cuts) && cuts[|cuts| - 1] == |es| {
      forall k: nat | k < |cuts| - 1 ensures Increasing(cuts, k) {
        assert Greedy(es, limitsAt, cuts, k);
      }
    }
  }

  /** These limits allow no other split. */
  lemma {:induction false} OnlySplit(es: seq<Entry>, cuts: seq<nat>, other: seq<nat>, k: nat)
    requires Splits(es, cuts) && GreedyCuts(es, LimitsFor(es, cuts), other) && k < |other|
    ensures k < |cuts| && other[k] == cuts[k]
  {
    if k > 0 {
      OnlySplit(es, cuts, other, k - 1);
      var a, b := other[k - 1], other[k];
      assert Greedy(es, LimitsFor(es, cuts), other, k - 1);
      if k < |cuts| {
        assert Increasing(cuts, k - 1);
        LaterCuts(es, cuts, k);
        AllFits(es, a, cuts[k], LimitsFor(es, cuts)(k - 1));
        AllFits(es, a, b + 1, LimitsFor(es, cuts)(k - 1));
      }
    }
  }

  /** Reading everything in the given batches. */
  method DrainSplit(entries: seq<Entry>, cuts: seq<nat>) returns (taken: seq<Entry>, ends: seq<nat>)
    requires Splits(entries, cuts)
    ensures ends == cuts && taken == entries
  {
    var status;
    status, taken, ends := Drain(entries, LimitsFor(entries, cuts));
    var n := |ends| - 1;
    forall k: nat | k < |ends| ensures k < |cuts| && ends[k] == cuts[k] {
      OnlySplit(entries, cuts, ends, k);
    }
    AllFitAlone(entries, LimitsFor(entries, cuts)(n));
    LastCut(entries, cuts, n);
  }

  lemma AllFitAlone(es: seq<Entry>, limits: Limits)
    requires UnitsIn(es, 0, |es|) <= limits.maxUnits && limits.maxValues == |es|
    ensures forall e :: e in es ==> FitsAlone(e, limits)
  {
    forall e | e in es ensures FitsAlone(e, limits) {
      var i :| 0 <= i < |es| && es[i] == e;
      UnitsWithin(es, i, i + 1, |es|);
      assert UnitsIn(es, i, i + 1) == |e.units|;
    }
  }

  lemma LastCut(es: seq<Entry>, cuts: seq<nat>, n: nat)
    requires Splits(es, cuts) && n < |cuts| && cuts[n] == |es|
    ensures n == |cuts| - 1
  {
    if n < |cuts| - 1 {
      assert Increasing(cuts, n);
      LaterCuts(es, cuts, n + 1);
    }
  }

  lemma {:induction false} LaterCuts(es: seq<Entry>, cuts: seq<nat>, k: nat)
    requires Splits(es, cuts) && k < |cuts|
    ensures cuts[k] <= |es|
    decreases |cuts| - k
  {
    if k < |cuts| - 1 {
      assert Increasing(cuts, k);
      LaterCuts(es, cuts, k + 1);
    }
  }

  lemma {:induction false} ValuesFit(es: seq<Entry>, a: nat, b: nat)
    requires a <= b <= |es|
    ensures ValuesIn(es, a, b) <= b - a
    decreases b
  {
    if a < b {
      ValuesFit(es, a, b - 1);
    }
  }

  lemma {:induction false} UnitsWithin(es: seq<Entry>, a: nat, b: nat, n: nat)
    requires a <= b <= n <= |es|
    ensures UnitsIn(es, a, b) <= UnitsIn(es, 0, n)
    decreases n
  {
    if b < n {
      UnitsWithin(es, a, b, n - 1);
    } else if a < b {
      UnitsWithin(es, a, b - 1, n - 1);
    }
  }

  /** With room for all units and values, only the number of entries counts. */
  lemma AllFits(es: seq<Entry>, a: nat, b: nat, limits: Limits)
    requires a <= b && UnitsIn(es, 0, |es|) <= limits.maxUnits && limits.maxValues == |es|
    ensures Fits(es, a, b, limits) <==> b <= |es| && b - a <= limits.maxEntries
  {
    if b <= |es| {
      UnitsWithin(es, a, b, |es|);
      ValuesFit(es, a, b);
    }
  }
}
