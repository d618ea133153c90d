/**
 Opening the trie again after a crash: the records left in the file are reconciled over the
 image, new records are appended behind them, the watermark starts at the end of the file, and
 generations go on above those found in it. Each opening is a run of the protocol on the
 recovered map, with LSNs and generations counted from there.
 */
module Reopening {
  import opened Words
  import opened SortedLists
  import opened WriteLog
  import opened OrderA
  import opened Recovery
  import opened CrashSafety
  import opened FileDurability

  /** An image: what it holds, and up to which LSN it covers the log. */
  datatype Saved = Saved(upTo: nat, contents: Contents)

  /** The record with LSN `l` is `log[l - 1]`. */
  datatype Disk = Disk(image: Option<Saved>, log: seq<Record>)

  function Listing(log: seq<Record>, n: nat): (recs: Survivors)
    requires n <= |log|
    ensures |recs| == n && forall i {:trigger recs[i]} :: 0 <= i < n ==> recs[i] == (i + 1, log[i])
  {
    seq(n, i requires 0 <= i < n => (i + 1, log[i]))
  }

  function CoveredOn(d: Disk): nat {
    if d.image.Some? then d.image.value.upTo else 0
  }

  function ImageOn(d: Disk): Contents {
    if d.image.Some? then d.image.value.contents else map[]
  }

  /** The larger of the image's own coverage and the checkpoint records. */
  ghost predicate EffectiveOn(d: Disk, c: nat) {
    && CoveredOn(d) <= c
    && (forall u: nat {:trigger Checkpoint(u) in d.log} :: Checkpoint(u) in d.log ==> u <= c)
    && (c == CoveredOn(d) || Checkpoint(c) in d.log)
  }

  /** `out` is what reconciling the log replays. */
  ghost predicate Reconciled(d: Disk, c: nat, out: seq<Publication>) {
    && EffectiveOn(d, c) && Sorted(out)
    && forall p {:trigger p in out} ::
         p in out <==> ReplayedBy(Listing(d.log, |d.log|), d.image.Some?, c, AllOverlay, |d.log|, p)
  }

  /** Opening the trie gives `contents`. */
  ghost predicate Recovers(d: Disk, contents: Contents) {
    exists c: nat, out :: Reconciled(d, c, out) && contents == Replay(ImageOn(d), out, |out|)
  }

  // ---- One opening and its end ----

  function Shifted(r: Record, lsns: nat, generations: nat): Record {
    match r
    case Data(w) => Data(w)
    case CommitRank(d, g) => CommitRank(d + lsns, g + generations)
    case Checkpoint(c) => Checkpoint(c + lsns)
  }

  /** What a crash leaves on disk: the last image, and `n` records of this opening behind the older ones. */
  function Crashed(d: Disk, s: State, generations: nat, n: nat): Disk
    requires ImageOk(s) && n <= |s.log|
  {
    Disk(if s.image.Some? then Some(Saved(|d.log| + s.image.value.upTo, s.Root(s.image.value.rev))) else d.image,
         d.log + seq(n, i requires 0 <= i < n => Shifted(s.log[i], |d.log|, generations)))
  }

  /** What is known of a disk after a crash. */
  predicate DiskOk(d: Disk) {
    && CoveredOn(d) <= |d.log|
    && forall r :: r in d.log ==>
         match r
         case Data(_) => true
         case CommitRank(l, _) => 1 <= l <= |d.log|
         case Checkpoint(u) => u <= CoveredOn(d)
  }

  /** No generation in the log is above `generations`. */
  predicate Seeds(d: Disk, generations: nat) {
    forall r {:trigger r in d.log} :: r in d.log && r.CommitRank? ==> r.generation <= generations
  }

  lemma CrashedRecord(d: Disk, s: State, generations: nat, n: nat, l: nat)
    requires ImageOk(s) && n <= |s.log|
    ensures |Crashed(d, s, generations, n).log| == |d.log| + n
    ensures l < |d.log| ==> Crashed(d, s, generations, n).log[l] == d.log[l]
    ensures l < n ==> Crashed(d, s, generations, n).log[|d.log| + l] == Shifted(s.log[l], |d.log|, generations)
  {
  }

  /** The image covers only what is left. */
  lemma CoveredIsLeft(s: State, n: nat)
    requires Inv(s) && Left(s, n)
    ensures Covered(s) <= n
  {
    if s.image.Some? && s.image.value.upTo > 0 {
      assert s.image.value.upTo in s.marked;
      assert s.image.value.upTo in UpTo(n);
    }
  }

  /** A record of this opening refers to records that are left, and to no later checkpoint than the image. */
  lemma LeftRecord(s: State, n: nat, l: nat)
    requires Inv(s) && Left(s, n) && l < n
    ensures s.log[l].CommitRank? ==> 1 <= s.log[l].dataLsn <= n
    ensures s.log[l].Checkpoint? ==> s.image.Some? && s.log[l].upTo <= Covered(s)
  {
    assert RecordOk(s, l + 1) && s.Rec(l + 1) == s.log[l];
    if s.log[l].CommitRank? {
      assert PhaseOk(s, s.log[l].dataLsn);
      assert s.log[l].dataLsn in UpTo(n);
    }
  }

  lemma CrashedOk(d: Disk, s: State, generations: nat, n: nat)
    requires DiskOk(d) && Inv(s) && Left(s, n)
    ensures DiskOk(Crashed(d, s, generations, n)) && CoveredOn(d) <= CoveredOn(Crashed(d, s, generations, n))
  {
    var d' := Crashed(d, s, generations, n);
    CoveredIsLeft(s, n);
    forall r | r in d'.log
      ensures r.CommitRank? ==> 1 <= r.dataLsn <= |d'.log|
      ensures r.Checkpoint? ==> r.upTo <= CoveredOn(d')
    {
      var i :| 0 <= i < |d'.log| && d'.log[i] == r;
      if i < |d.log| {
        CrashedRecord(d, s, generations, n, i);
        assert d.log[i] in d.log;
      } else {
        CrashedRecord(d, s, generations, n, i - |d.log|);
        LeftRecord(s, n, i - |d.log|);
      }
    }
  }

  /** A torn or missing checkpoint record does not matter. */
  lemma EffectiveOnDisk(d: Disk, c: nat)
    requires DiskOk(d) && EffectiveOn(d, c)
    ensures c == CoveredOn(d)
  {
  }

  // ---- Ranks ----

  lemma {:induction false} OldRank(d: Disk, d': Disk, k: nat, l: nat)
    requires d.log <= d'.log && k <= |d.log|
    ensures RankIn(Listing(d'.log, |d'.log|), k, l) == RankIn(Listing(d.log, |d.log|), k, l)
  {
    if k > 0 {
      OldRank(d, d', k - 1, l);
      assert d'.log[k - 1] == d.log[k - 1];
    }
  }

  /** Older records rank no record of this opening. */
  lemma {:induction false} NoOldRank(d: Disk, k: nat, l: nat)
    requires DiskOk(d) && k <= |d.log| < l
    ensures RankIn(Listing(d.log, |d.log|), k, l) == None
  {
    if k > 0 {
      NoOldRank(d, k - 1, l);
      assert d.log[k - 1] in d.log;
    }
  }

  function ShiftedRank(r: Option<nat>, generations: nat): Option<nat> {
    if r.Some? then Some(r.value + generations) else None
  }

  /** Records of this opening rank no older record, and each other as they did. */
  lemma {:induction false} CrashedRank(d: Disk, s: State, generations: nat, n: nat, k: nat, l: nat)
    requires DiskOk(d) && Inv(s) && Left(s, n) && k <= n && l > 0
    ensures var recs := Listing(Crashed(d, s, generations, n).log, |d.log| + n);
      && RankIn(recs, |d.log| + k, |d.log| + l) == ShiftedRank(RankIn(Listing(s.log, n), k, l), generations)
      && (l <= |d.log| ==> RankIn(recs, |d.log| + k, l) == RankIn(Listing(d.log, |d.log|), |d.log|, l))
    decreases k
  {
    var d' := Crashed(d, s, generations, n);
    if k == 0 {
      OldRank(d, d', |d.log|, l);
      OldRank(d, d', |d.log|, |d.log| + l);
      NoOldRank(d, |d.log|, |d.log| + l);
    } else {
      CrashedRank(d, s, generations, n, k - 1, l);
      CrashedRecord(d, s, generations, n, k - 1);
      LeftRecord(s, n, k - 1);
    }
  }

  // ---- What is replayed ----

  /** The publication as this opening knew it. */
  function Relative(p: Publication, lsns: nat, generations: nat): Publication {
    Publication(if p.lsn < lsns then 0 else p.lsn - lsns,
                if p.generation < generations then 0 else p.generation - generations, p.write)
  }

  /** The same publication on disk. */
  function Absolute(p: Publication, lsns: nat, generations: nat): Publication {
    Publication(p.lsn + lsns, p.generation + generations, p.write)
  }

  /** The record at `i` of this opening is replayed from disk exactly as it would be from its own log. */
  lemma NewStamped(d: Disk, s: State, generations: nat, n: nat, i: nat, q: Publication)
    requires DiskOk(d) && Inv(s) && Left(s, n) && q.lsn > 0 && i < n
    ensures var d' := Crashed(d, s, generations, n);
      |d'.log| == |d.log| + n &&
      (Stamped(Listing(d'.log, |d'.log|), d'.image.Some?, CoveredOn(d'), AllOverlay, |d.log| + i,
               Absolute(q, |d.log|, generations)) <==>
       Stamped(Listing(s.log, n), s.image.Some?, Covered(s), AllOverlay, i, q))
  {
    CrashedRank(d, s, generations, n, n, q.lsn);
    CrashedRecord(d, s, generations, n, i);
  }

  lemma NewReplayed(d: Disk, s: State, generations: nat, n: nat, q: Publication)
    requires DiskOk(d) && Inv(s) && Left(s, n) && q.lsn > 0
    ensures var d' := Crashed(d, s, generations, n);
      ReplayedBy(Listing(d'.log, |d'.log|), d'.image.Some?, CoveredOn(d'), AllOverlay, |d'.log|,
                 Absolute(q, |d.log|, generations)) <==>
      ReplayedBy(Listing(s.log, n), s.image.Some?, Covered(s), AllOverlay, n, q)
  {
    var d' := Crashed(d, s, generations, n);
    var p := Absolute(q, |d.log|, generations);
    CrashedRecord(d, s, generations, n, 0);
    if ReplayedBy(Listing(d'.log, |d'.log|), d'.image.Some?, CoveredOn(d'), AllOverlay, |d'.log|, p) {
      var i :| 0 <= i < |d'.log| && Stamped(Listing(d'.log, |d'.log|), d'.image.Some?, CoveredOn(d'), AllOverlay, i, p);
      NewStamped(d, s, generations, n, i - |d.log|, q);
    }
    if ReplayedBy(Listing(s.log, n), s.image.Some?, Covered(s), AllOverlay, n, q) {
      var i :| 0 <= i < n && Stamped(Listing(s.log, n), s.image.Some?, Covered(s), AllOverlay, i, q);
      NewStamped(d, s, generations, n, i, q);
    }
  }

  /** What is replayed of this opening has a generation that was seeded. */
  lemma NewGeneration(d: Disk, s: State, generations: nat, n: nat, p: Publication)
    requires DiskOk(d) && Inv(s) && Left(s, n) && p.lsn > |d.log|
    requires var d' := Crashed(d, s, generations, n);
      ReplayedBy(Listing(d'.log, |d'.log|), d'.image.Some?, CoveredOn(d'), AllOverlay, |d'.log|, p)
    ensures p.generation >= generations
  {
    CrashedRank(d, s, generations, n, n, p.lsn - |d.log|);
    CrashedRecord(d, s, generations, n, 0);
  }

  /** An older record is replayed as before, or not any more when a new image covers it. */
  lemma OldReplayed(d: Disk, s: State, generations: nat, n: nat, p: Publication)
    requires DiskOk(d) && Inv(s) && Left(s, n) && p.lsn <= |d.log|
    ensures var d' := Crashed(d, s, generations, n);
      ReplayedBy(Listing(d'.log, |d'.log|), d'.image.Some?, CoveredOn(d'), AllOverlay, |d'.log|, p) <==>
      s.image.None? && ReplayedBy(Listing(d.log, |d.log|), d.image.Some?, CoveredOn(d), AllOverlay, |d.log|, p)
  {
    var d' := Crashed(d, s, generations, n);
    CrashedRecord(d, s, generations, n, 0);
    if p.lsn > 0 {
      CrashedRank(d, s, generations, n, n, p.lsn);
    }
    if ReplayedBy(Listing(d'.log, |d'.log|), d'.image.Some?, CoveredOn(d'), AllOverlay, |d'.log|, p) {
      var i :| 0 <= i < |d'.log| && Stamped(Listing(d'.log, |d'.log|), d'.image.Some?, CoveredOn(d'), AllOverlay, i, p);
      CrashedRecord(d, s, generations, n, i);
      assert s.image.None? ==> Stamped(Listing(d.log, |d.log|), d.image.Some?, CoveredOn(d), AllOverlay, i, p);
    }
    if s.image.None? && ReplayedBy(Listing(d.log, |d.log|), d.image.Some?, CoveredOn(d), AllOverlay, |d.log|, p) {
      var i :| 0 <= i < |d.log| && Stamped(Listing(d.log, |d.log|), d.image.Some?, CoveredOn(d), AllOverlay, i, p);
      CrashedRecord(d, s, generations, n, i);
      assert Stamped(Listing(d'.log, |d'.log|), d'.image.Some?, CoveredOn(d'), AllOverlay, i, p);
    }
  }

  // ---- Sorted lists ----

  /** The first `k` are older than this opening, the others are not. */
  predicate SplitAt(out: seq<Publication>, lsns: nat, k: nat) {
    && k <= |out|
    && (forall i :: 0 <= i < k ==> out[i].lsn <= lsns)
    && (forall i :: k <= i < |out| ==> out[i].lsn > lsns)
  }

  /** In a sorted list the older ones come first, since their generations are not larger. */
  lemma {:induction false} FindSplit(out: seq<Publication>, lsns: nat, generations: nat, n: nat) returns (k: nat)
    requires Sorted(out) && n <= |out|
    requires forall i :: 0 <= i < |out| ==>
      if out[i].lsn <= lsns then out[i].generation <= generations else out[i].generation >= generations
    requires forall i :: n <= i < |out| ==> out[i].lsn > lsns
    ensures SplitAt(out, lsns, k)
    decreases n
  {
    if n > 0 && out[n - 1].lsn > lsns {
      k := FindSplit(out, lsns, generations, n - 1);
    } else {
      k := n;
      forall i | 0 <= i < k ensures out[i].lsn <= lsns {
        if i < n - 1 {
          assert Earlier(out[i], out[n - 1]);
        }
      }
    }
  }

  // ---- Replaying ----

  /** Publications with the same writes do the same. */
  lemma {:induction false} ReplayWrites(origin: Contents, ps: seq<Publication>, k: nat, qs: seq<Publication>, n: nat)
    requires n <= |qs| && k + n <= |ps|
    requires forall i :: 0 <= i < n ==> ps[k + i].write == qs[i].write
    ensures Replay(origin, ps, k + n) == Replay(Replay(origin, ps, k), qs, n)
  {
    if n > 0 {
      ReplayWrites(origin, ps, k, qs, n - 1);
      assert ps[k + (n - 1)].write == qs[n - 1].write;
    }
  }

  lemma {:induction false} ReplayConcat(origin: Contents, ps: seq<Publication>, qs: seq<Publication>, n: nat)
    requires n <= |qs|
    ensures Replay(origin, ps + qs, |ps| + n) == Replay(Replay(origin, ps, |ps|), qs, n)
  {
    if n == 0 {
      ReplayPrefix(origin, ps + qs, ps, |ps|);
    } else {
      ReplayConcat(origin, ps, qs, n - 1);
      assert (ps + qs)[|ps| + n - 1] == qs[n - 1];
    }
  }

  // ---- From the disk to the opening ----

  lemma OldGeneration(d: Disk, loaded: bool, c: nat, generations: nat, p: Publication)
    requires Seeds(d, generations) && ReplayedBy(Listing(d.log, |d.log|), loaded, c, AllOverlay, |d.log|, p)
    ensures p.generation <= generations
  {
    var k := RankInFound(Listing(d.log, |d.log|), |d.log|, p.lsn);
    assert d.log[k] in d.log;
  }

  /** What is replayed after the crash, seen from this opening. */
  function RelativeList(out: seq<Publication>, k: nat, lsns: nat, generations: nat): (rel: seq<Publication>)
    requires k <= |out|
    ensures |rel| == |out| - k
    ensures forall i :: 0 <= i < |rel| ==> rel[i] == Relative(out[k + i], lsns, generations)
  {
    seq(|out| - k, i requires 0 <= i < |out| - k => Relative(out[k + i], lsns, generations))
  }

  /** The list on disk is older records, then those of this opening in the same order as in its own log. */
  lemma SplitReplay(d: Disk, s: State, generations: nat, n: nat, c: nat, out: seq<Publication>) returns (k: nat)
    requires DiskOk(d) && Seeds(d, generations) && Inv(s) && Left(s, n)
    requires Reconciled(Crashed(d, s, generations, n), c, out)
    ensures SplitAt(out, |d.log|, k) && forall p {:trigger p in out} :: p in out && p.lsn > |d.log| ==>
      p.generation >= generations
  {
    var d' := Crashed(d, s, generations, n);
    CrashedOk(d, s, generations, n);
    EffectiveOnDisk(d', c);
    forall p | p in out
      ensures if p.lsn <= |d.log| then p.generation <= generations else p.generation >= generations
    {
      if p.lsn <= |d.log| {
        OldReplayed(d, s, generations, n, p);
        OldGeneration(d, d.image.Some?, CoveredOn(d), generations, p);
      } else {
        NewGeneration(d, s, generations, n, p);
      }
    }
    assert forall i :: 0 <= i < |out| ==> out[i] in out;
    k := FindSplit(out, |d.log|, generations, |out|);
  }

  lemma RelativeReplays(d: Disk, s: State, generations: nat, n: nat, c: nat, out: seq<Publication>, k: nat)
    requires DiskOk(d) && Inv(s) && Left(s, n) && Reconciled(Crashed(d, s, generations, n), c, out)
    requires SplitAt(out, |d.log|, k)
    requires forall p {:trigger p in out} :: p in out && p.lsn > |d.log| ==> p.generation >= generations
    ensures Replays(s, UpTo(n), RelativeList(out, k, |d.log|, generations))
  {
    var rel := RelativeList(out, k, |d.log|, generations);
    CrashedOk(d, s, generations, n);
    EffectiveOnDisk(Crashed(d, s, generations, n), c);
    assert forall i :: 0 <= i < |out| ==> out[i] in out;
    forall i, j | 0 <= i < j < |rel| ensures Earlier(rel[i], rel[j]) {
      assert Earlier(out[k + i], out[k + j]);
    }
    forall q ensures q in rel <==> ReplayedBy(Listing(s.log, n), s.image.Some?, Covered(s), AllOverlay, n, q) {
      RelativeMember(d, s, generations, n, c, out, k, q);
    }
    var recs := Listing(s.log, n);
    assert ListsRecords(s, UpTo(n), recs) by {
      ListingLists(s, n);
    }
    assert EffectiveCheckpoint(s, recs, Covered(s)) by {
      forall l: nat, u: nat | (l, Checkpoint(u)) in recs ensures u <= Covered(s) {
        LeftRecord(s, n, l - 1);
      }
    }
    ReconcileReplays(s, UpTo(n), recs, Covered(s), rel);
  }

  lemma ListingLists(s: State, n: nat)
    requires n <= |s.log|
    ensures ListsRecords(s, UpTo(n), Listing(s.log, n))
  {
    var recs := Listing(s.log, n);
    forall l: nat, r ensures (l, r) in recs <==> l in UpTo(n) && s.InLog(l) && r == s.Rec(l) {
      if l in UpTo(n) {
        assert recs[l - 1] == (l, s.log[l - 1]);
      }
    }
  }

  lemma RelativeMember(d: Disk, s: State, generations: nat, n: nat, c: nat, out: seq<Publication>, k: nat,
                       q: Publication)
    requires DiskOk(d) && Inv(s) && Left(s, n) && Reconciled(Crashed(d, s, generations, n), c, out)
    requires SplitAt(out, |d.log|, k) && c == CoveredOn(Crashed(d, s, generations, n))
    requires forall p {:trigger p in out} :: p in out && p.lsn > |d.log| ==> p.generation >= generations
    ensures q in RelativeList(out, k, |d.log|, generations) <==>
      ReplayedBy(Listing(s.log, n), s.image.Some?, Covered(s), AllOverlay, n, q)
  {
    var rel := RelativeList(out, k, |d.log|, generations);
    if q in rel {
      var i :| 0 <= i < |rel| && rel[i] == q;
      assert out[k + i] in out;
      assert Absolute(q, |d.log|, generations) == out[k + i];
      NewReplayed(d, s, generations, n, q);
    }
    if ReplayedBy(Listing(s.log, n), s.image.Some?, Covered(s), AllOverlay, n, q) {
      NewReplayed(d, s, generations, n, q);
      var p := Absolute(q, |d.log|, generations);
      assert p in out;
      var i :| 0 <= i < |out| && out[i] == p;
      assert i >= k && rel[i - k] == q;
    }
  }

  /** The older part of the list is what was replayed when this opening began, unless a new image replaced it. */
  lemma OldPart(d: Disk, s: State, generations: nat, n: nat, c: nat, out: seq<Publication>, k: nat, c0: nat,
                out0: seq<Publication>)
    requires DiskOk(d) && Inv(s) && Left(s, n) && Reconciled(Crashed(d, s, generations, n), c, out)
    requires SplitAt(out, |d.log|, k) && Reconciled(d, c0, out0)
    ensures out[..k] == if s.image.Some? then [] else out0
  {
    CrashedOk(d, s, generations, n);
    EffectiveOnDisk(Crashed(d, s, generations, n), c);
    EffectiveOnDisk(d, c0);
    var old0 := if s.image.Some? then [] else out0;
    forall p ensures p in out[..k] <==> p in old0 {
      if p.lsn <= |d.log| {
        OldReplayed(d, s, generations, n, p);
      }
      if p in out {
        var i :| 0 <= i < |out| && out[i] == p;
        assert i < k ==> out[..k][i] == p;
      }
      if p in out0 {
        var i :| 0 <= i < |d.log| && Stamped(Listing(d.log, |d.log|), d.image.Some?, c0, AllOverlay, i, p);
      }
    }
    SortedUnique(Earlier, out[..k], old0);
  }

  /** The image and the older part of the list give what this opening began with, or its own image. */
  lemma OldContents(d: Disk, s: State, generations: nat, n: nat, out: seq<Publication>, k: nat, out0: seq<Publication>)
    requires ImageOk(s) && n <= |s.log| && k <= |out|
    requires out[..k] == (if s.image.Some? then [] else out0) && s.origin == Replay(ImageOn(d), out0, |out0|)
    ensures Replay(ImageOn(Crashed(d, s, generations, n)), out, k) ==
      if s.image.Some? then s.Root(s.image.value.rev) else s.origin
  {
    if s.image.None? {
      assert |out0| == k;
      ReplayPrefix(ImageOn(d), out0, out, k);
    } else {
      assert k == 0;
    }
  }

  /** Replaying the list on disk over the image is replaying the list of this opening over what it began with. */
  lemma SplitContents(d: Disk, s: State, generations: nat, n: nat, out: seq<Publication>, k: nat,
                      out0: seq<Publication>)
    requires ImageOk(s) && n <= |s.log| && k <= |out|
    requires out[..k] == (if s.image.Some? then [] else out0) && s.origin == Replay(ImageOn(d), out0, |out0|)
    ensures var rel := RelativeList(out, k, |d.log|, generations);
      Replay(ImageOn(Crashed(d, s, generations, n)), out, |out|) ==
      Replay(s.origin, Recovered(s, rel), |Recovered(s, rel)|)
  {
    var rel := RelativeList(out, k, |d.log|, generations);
    OldContents(d, s, generations, n, out, k, out0);
    ReplayWrites(ImageOn(Crashed(d, s, generations, n)), out, k, rel, |rel|);
    ImageThenReplay(s, rel);
  }

  /** Opening the trie after the crash gives what recovering this opening alone gives. */
  lemma OpenedContents(d: Disk, s: State, generations: nat, n: nat, contents: Contents) returns (rel: seq<Publication>)
    requires DiskOk(d) && Seeds(d, generations) && Inv(s) && Left(s, n) && Recovers(d, s.origin)
    requires Recovers(Crashed(d, s, generations, n), contents)
    ensures Replays(s, UpTo(n), rel) && contents == Replay(s.origin, Recovered(s, rel), |Recovered(s, rel)|)
  {
    var d' := Crashed(d, s, generations, n);
    var c: nat, out :| Reconciled(d', c, out) && contents == Replay(ImageOn(d'), out, |out|);
    var c0: nat, out0 :| Reconciled(d, c0, out0) && s.origin == Replay(ImageOn(d), out0, |out0|);
    var k := SplitReplay(d, s, generations, n, c, out);
    rel := RelativeList(out, k, |d.log|, generations);
    RelativeReplays(d, s, generations, n, c, out, k);
    OldPart(d, s, generations, n, c, out, k, c0, out0);
    SplitContents(d, s, generations, n, out, k, out0);
  }

  lemma ImageThenReplay(s: State, rel: seq<Publication>)
    requires ImageOk(s)
    ensures Replay(s.origin, Recovered(s, rel), |Recovered(s, rel)|) ==
      Replay(if s.image.Some? then s.Root(s.image.value.rev) else s.origin, rel, |rel|)
  {
    var image := ImageHistory(s);
    ReplayConcat(s.origin, image, rel, |rel|);
    if s.image.Some? {
      ReplayPrefix(s.origin, image, s.history, |image|);
    }
  }

  // ---- A disk recovers to one map ----

  function Inserted(ps: seq<Publication>, p: Publication): (qs: seq<Publication>)
    requires Sorted(ps) && forall q {:trigger q in ps} :: q in ps ==> q.lsn != p.lsn
    ensures Sorted(qs) && forall q :: q in qs <==> q in ps || q == p
  {
    if ps == [] || Earlier(ps[|ps| - 1], p) then ps + [p]
    else
      var front, last := ps[..|ps| - 1], ps[|ps| - 1];
      assert ps == front + [last] && last in ps && forall q {:trigger q in front} :: q in front ==> q in ps;
      InsertedBefore(front, last, p);
      var qs := Inserted(front, p);
      AppendSorted(qs, last);
      qs + [last]
  }

  lemma AppendSorted(ps: seq<Publication>, p: Publication)
    requires Sorted(ps) && forall q {:trigger q in ps} :: q in ps ==> Earlier(q, p)
    ensures Sorted(ps + [p])
  {
    forall i, j | 0 <= i < j < |ps + [p]| ensures Earlier((ps + [p])[i], (ps + [p])[j]) {
      assert ps[i] in ps;
    }
  }

  lemma InsertedBefore(front: seq<Publication>, last: Publication, p: Publication)
    requires Sorted(front + [last]) && p.lsn != last.lsn && !Earlier(last, p)
    ensures Sorted(front) && Earlier(p, last) && forall q {:trigger q in front} :: q in front ==> Earlier(q, last)
  {
    var ps := front + [last];
    forall q | q in front ensures Earlier(q, last) {
      var i :| 0 <= i < |front| && front[i] == q;
      assert Earlier(ps[i], ps[|front|]);
    }
    forall i, j | 0 <= i < j < |front| ensures Earlier(front[i], front[j]) {
      assert Earlier(ps[i], ps[j]);
    }
  }

  lemma {:induction false} ReplayListed(d: Disk, c: nat, n: nat) returns (out: seq<Publication>)
    requires n <= |d.log|
    ensures Sorted(out) && forall p {:trigger p in out} ::
      p in out <==> ReplayedBy(Listing(d.log, |d.log|), d.image.Some?, c, AllOverlay, n, p)
    decreases n
  {
    var recs := Listing(d.log, |d.log|);
    if n == 0 {
      out := [];
    } else {
      out := ReplayListed(d, c, n - 1);
      var rank := RankIn(recs, |recs|, n);
      if d.log[n - 1].Data? && !(d.image.Some? && c > 0 && n <= c) && rank.Some? {
        var q := Publication(n, rank.value, d.log[n - 1].write);
        assert Stamped(recs, d.image.Some?, c, AllOverlay, n - 1, q);
        out := Inserted(out, q);
      }
      assert forall p :: ReplayedBy(recs, d.image.Some?, c, AllOverlay, n, p) <==>
        || ReplayedBy(recs, d.image.Some?, c, AllOverlay, n - 1, p)
        || Stamped(recs, d.image.Some?, c, AllOverlay, n - 1, p);
    }
  }

  /** A disk left by a crash recovers to exactly one map. */
  lemma RecoversOne(d: Disk) returns (contents: Contents)
    requires DiskOk(d)
    ensures forall m :: Recovers(d, m) <==> m == contents
  {
    var c := CoveredOn(d);
    var out := ReplayListed(d, c, |d.log|);
    contents := Replay(ImageOn(d), out, |out|);
    assert Reconciled(d, c, out);
    forall m | Recovers(d, m) ensures m == contents {
      var c': nat, out' :| Reconciled(d, c', out') && m == Replay(ImageOn(d), out', |out'|);
      EffectiveOnDisk(d, c');
      SortedUnique(Earlier, out, out');
    }
  }

  lemma {:induction false} SeedExists(log: seq<Record>) returns (generations: nat)
    ensures forall r {:trigger r in log} :: r in log && r.CommitRank? ==> r.generation <= generations
    decreases |log|
  {
    generations := 0;
    if log != [] {
      var front, r := log[..|log| - 1], log[|log| - 1];
      generations := SeedExists(front);
      assert log == front + [r];
      if r.CommitRank? && r.generation > generations {
        generations := r.generation;
      }
    }
  }
}
