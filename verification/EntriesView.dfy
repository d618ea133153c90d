/**
 The move-only, single-pass range over a cursor. Failing calls of the cursor, which the range
 reports by throwing, are results here.
 */
module EntriesView {
  import opened Words
  import opened EntryCursor

  /** What asking for a batch at position `at` gives. */
  function Acquired(limits: Limits, entries: seq<Entry>, at: nat): Status {
    if limits.maxEntries == 0 then InvalidArgument
    else if at >= |entries| then End
    else if FitsAlone(entries[at], limits) then Ok
    else LimitExceeded
  }

  class View {
    var cursor: Cursor?
    var limits: Limits
    var batch: Batch
    var index: nat
    var started: bool
    var ended: bool
    var leased: bool

    /** The view owns a live cursor or none; it holds the cursor's lease exactly when it says so. */
    ghost predicate Valid()
      reads this, cursor
    {
      if cursor == null then !leased
      else
        && cursor.Valid() && !cursor.freed
        && (if leased then cursor.leased == Some(batch.generation) && Batched() else cursor.leased == None)
        && (leased ==> started && !ended) && (!leased ==> batch == NO_BATCH)
        && (!ended ==> !cursor.ended && !cursor.cancelled)
        && (!started && !ended ==> cursor.pos == 0)
    }

    /** The batch holds the entries before the cursor's position, and the index is within it. */
    ghost predicate Batched()
      requires cursor != null
      reads this, cursor
    {
      && index < |batch.entries| <= cursor.pos
      && Stretch(batch.entries, cursor.entries, cursor.pos - |batch.entries|, cursor.pos)
      && Fits(cursor.entries, cursor.pos - |batch.entries|, cursor.pos, limits)
    }

    /** The position in the snapshot of the entry that comes next. */
    ghost function At(): int
      requires cursor != null
      reads this, cursor
    {
      if leased then cursor.pos - |batch.entries| + index else cursor.pos
    }

    constructor (entries: seq<Entry>, width: nat -> nat, limits: Limits)
      requires Willing(width)
      ensures Valid() && cursor != null && fresh(cursor) && cursor.entries == entries && !started && !ended && At() == 0
      ensures this.limits == limits && batch == NO_BATCH && index == 0 && !leased
    {
      cursor := new Cursor(entries, width);
      this.limits := limits;
      batch, index, started, ended, leased := NO_BATCH, 0, false, false, false;
    }

    /** Leases the next batch, or ends the view when there is none; a failure leaves the view without a batch. */
    method AcquireNext() returns (status: Status)
      requires Valid() && cursor != null && !leased && !ended && started
      modifies this, cursor
      ensures Valid() && cursor == old(cursor) && limits == old(limits) && started && At() == old(At())
      ensures status == Acquired(limits, cursor.entries, At())
      ensures (leased <==> status == Ok) && (ended <==> status == End)
      ensures status == Ok || status == End ==> index == 0
      ensures status != Ok ==> batch == NO_BATCH
    {
      var next, b := cursor.Next(limits);
      status := next;
      batch := b;
      if status == End {
        ended := true;
        batch := NO_BATCH;
        index := 0;
        return;
      }
      if status != Ok {
        return;
      }
      leased := true;
      index := 0;
    }

    /** Gives the lease back, under its own generation. */
    method ReleaseLease() returns (status: Status)
      requires cursor != null && cursor.Valid() && !cursor.freed
      requires if leased then cursor.leased == Some(batch.generation) else cursor.leased == None
      modifies this, cursor
      ensures status == Ok && !leased && cursor == old(cursor) && cursor.leased == None
      ensures cursor.Valid() && cursor.freed == old(cursor.freed) && cursor.pos == old(cursor.pos)
      ensures cursor.ended == old(cursor.ended) && cursor.cancelled == old(cursor.cancelled)
      ensures limits == old(limits) && started == old(started) && ended == old(ended)
      ensures old(leased) ==> batch == NO_BATCH && index == 0
      ensures !old(leased) ==> batch == old(batch)
    {
      if !leased {
        return Ok;
      }
      status := cursor.Release(batch.generation);
      leased := false;
      batch := NO_BATCH;
      index := 0;
    }

    /**
     Starts the range; returns whether an iterator is handed out. There is a batch for it to read,
     unless an earlier call failed to lease one.
     */
    method Begin() returns (status: Status, more: bool)
      requires Valid()
      modifies this, if cursor != null then {cursor} else {}
      ensures Valid() && cursor == old(cursor) && limits == old(limits)
      ensures cursor != null ==> At() == old(if cursor != null then At() else 0)
      ensures (more && !leased) <==> old(cursor != null && started && !ended && !leased)
      ensures more ==> cursor != null && started && !ended && status == Ok
      ensures cursor != null && old(!started && !ended) ==>
        && started && status == Acquired(limits, cursor.entries, 0)
        && (more <==> status == Ok) && (more <==> leased) && (ended <==> status == End)
      ensures cursor != null && old(started || ended) ==>
        started == old(started) && leased == old(leased) && ended == old(ended) && more == !ended
    {
      if cursor == null || ended {
        return End, false;
      }
      status := Ok;
      if !started {
        started := true;
        status := AcquireNext();
      }
      more := status == Ok && !ended;
    }

    method Current() returns (entry: Entry)
      requires Valid() && cursor != null && leased
      ensures entry == cursor.entries[At()]
    {
      entry := batch.entries[index];
    }

    /** Moves to the next entry; returns whether there is one. After a failed batch it tries again. */
    method Advance() returns (status: Status, more: bool)
      requires Valid() && (ended || (cursor != null && started))
      modifies this, if cursor != null then {cursor} else {}
      ensures Valid() && cursor == old(cursor) && limits == old(limits) && started == old(started)
      ensures old(ended) ==> !more && status == End && ended && leased == old(leased)
      ensures !old(ended) ==> At() == old(if cursor != null then At() + (if leased then 1 else 0) else 0)
      ensures !old(ended) ==> (more <==> status == Ok) && (more <==> leased) && (ended <==> status == End)
      ensures !old(ended) ==> status == Acquired(limits, cursor.entries, At())
    {
      if ended {
        return End, false;
      }
      index := index + 1;
      if index < |batch.entries| {
        FitsEach(cursor.entries, cursor.pos - |batch.entries|, cursor.pos, At(), limits);
        return Ok, true;
      }
      status := ReleaseLease();
      status := AcquireNext();
      more := status == Ok;
    }

    /** Stops the range; the lease is given back. */
    method CancelView() returns (status: Status)
      requires Valid()
      modifies this, if cursor != null then {cursor} else {}
      ensures Valid() && cursor == old(cursor) && (cursor != null ==> ended && !leased) && status == Ok
      ensures old(cursor != null && !ended) ==> cursor.cancelled && cursor.leased == None
      ensures !old(cursor != null && !ended) ==> unchanged(this) && (cursor != null ==> unchanged(cursor))
    {
      if cursor == null || ended {
        return Ok;
      }
      status := cursor.Cancel();
      status := ReleaseLease();
      ended := true;
    }

    /** Cancels, releases and frees, in this order; the cursor is gone. */
    method Close() returns (status: Status)
      requires Valid()
      modifies this, if cursor != null then {cursor} else {}
      ensures Valid() && cursor == null && status == Ok && (old(cursor) != null ==> ended && !leased)
      ensures old(cursor) != null ==> old(cursor).cancelled && old(cursor).freed && old(cursor).leased == None
    {
      status := Ok;
      if cursor == null {
        return;
      }
      status := cursor.Cancel();
      status := ReleaseLease();
      status := cursor.Free();
      cursor := null;
      ended := true;
    }

    /** What the destructor does, from any state: every call succeeds, and the cursor is freed without a lease. */
    method Cleanup()
      requires Valid()
      modifies this, if cursor != null then {cursor} else {}
      ensures Valid() && cursor == null && !leased
      ensures old(cursor) == null ==> unchanged(this)
      ensures old(cursor) != null ==>
        ended && old(cursor).cancelled && old(cursor).freed && old(cursor).leased == None
    {
      if cursor == null {
        return;
      }
      var cancelled := cursor.Cancel();
      if leased {
        var released := cursor.Release(batch.generation);
        assert released == Ok;
      }
      var freed := cursor.Free();
      assert freed == Ok;
      cursor := null;
      leased := false;
      ended := true;
      batch := NO_BATCH;
    }

    /** Takes over another view; the other one is left without a cursor. */
    method MoveFrom(other: View)
      requires Valid() && other.Valid() && this != other && cursor == null
      modifies this, other
      ensures Valid() && other.Valid() && other.cursor == null && other.ended && !other.started && !other.leased
      ensures other.batch == NO_BATCH && other.index == 0 && batch == old(other.batch) && index == old(other.index)
      ensures cursor == old(other.cursor) && limits == old(other.limits) && started == old(other.started)
      ensures ended == old(other.ended) && leased == old(other.leased)
      ensures cursor != null ==> At() == old(if other.cursor != null then other.At() else 0)
    {
      cursor := other.cursor;
      limits, batch, index := other.limits, other.batch, other.index;
      started, ended, leased := other.started, other.ended, other.leased;
      other.cursor := null;
      other.batch, other.index := NO_BATCH, 0;
      other.started, other.ended, other.leased := false, true, false;
    }
  }

  /** The first entries, all of which fit alone, up to one that does not. */
  predicate StopsAt(entries: seq<Entry>, limits: Limits, n: nat) {
    && n <= |entries|
    && (forall i :: 0 <= i < n ==> FitsAlone(entries[i], limits))
    && (n < |entries| ==> !FitsAlone(entries[n], limits))
  }

  /**
   A full loop over a fresh view yields the snapshot, once and in order, whatever batches the
   provider makes. It comes to the end exactly if every entry fits alone; otherwise it stops before
   the first that does not.
   */
  method Traverse(entries: seq<Entry>, width: nat -> nat, limits: Limits) returns (status: Status, seen: seq<Entry>)
    requires Willing(width)
    ensures limits.maxEntries == 0 ==> status == InvalidArgument && seen == []
    ensures limits.maxEntries > 0 ==> StopsAt(entries, limits, |seen|) && seen == entries[..|seen|]
    ensures limits.maxEntries > 0 ==> status == if |seen| == |entries| then End else LimitExceeded
    ensures status == End <==> limits.maxEntries > 0 && forall i ::
      0 <= i < |entries| ==> FitsAlone(entries[i], limits)
  {
    var view := new View(entries, width, limits);
    ghost var c := view.cursor;
    var more;
    status, more := view.Begin();
    seen := [];
    while more
      invariant view.Valid() && view.cursor == c && fresh(view) && fresh(c) && c.entries == entries
      invariant view.limits == limits
      invariant view.At() == |seen| <= |entries| && seen == entries[..|seen|] && view.started
      invariant (more <==> status == Ok) && (more <==> view.leased) && (more ==> !view.ended && |seen| < |entries|)
      invariant forall i :: 0 <= i < |seen| ==> FitsAlone(entries[i], limits)
      invariant status == Acquired(limits, entries, |seen|) && (limits.maxEntries == 0 ==> seen == [])
      decreases |entries| - |seen|
    {
      var entry := view.Current();
      seen := seen + [entry];
      status, more := view.Advance();
    }
    assert |seen| < |entries| && limits.maxEntries > 0 ==> !FitsAlone(entries[|seen|], limits);
    view.Cleanup();
  }

  /** An entry with more units than fit: the first call fails, the second hands out an iterator without a batch. */
  method SecondBegin(entry: Entry, limits: Limits) returns (first: Status, second: Status, more: bool, leased: bool)
    requires limits.maxEntries > 0 && |entry.units| > limits.maxUnits
    ensures first == LimitExceeded && second == Ok && more && !leased
  {
    var view := new View([entry], Unlimited([entry]), limits);
    first, more := view.Begin();
    second, more := view.Begin();
    leased := view.leased;
  }
}
