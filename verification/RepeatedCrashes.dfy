/**
 Any number of openings and crashes: who wrote what is found, and whether every acknowledgement
 ever given is kept.
 */
module RepeatedCrashes {
  import opened Words
  import opened WriteLog
  import opened OrderA
  import opened CrashSafety
  import opened CheckpointInversion
  import opened FileDurability
  import opened Reopening

  /** A publication of one of the openings. */
  datatype Stamp = Stamp(opening: nat, p: Publication)

  predicate NotBefore(x: Stamp, y: Stamp) {
    x.opening < y.opening || (x.opening == y.opening && x.p.generation <= y.p.generation)
  }

  type Writers = map<Key, Stamp>

  /** The last writer of every key after the first `n` publications of an opening. */
  function Rewritten(ws: Writers, opening: nat, ps: seq<Publication>, n: nat): Writers
    requires n <= |ps|
  {
    if n == 0 then ws else Rewritten(ws, opening, ps, n - 1)[ps[n - 1].write.key := Stamp(opening, ps[n - 1])]
  }

  /** A key holds what its last writer wrote. */
  ghost predicate Explains(ws: Writers, m: Contents) {
    forall key {:trigger Lookup(m, key)} {:trigger key in ws} ::
      Lookup(m, key) == if key in ws then ws[key].p.write.value else None
  }

  lemma {:induction false} RewrittenExplains(ws: Writers, opening: nat, origin: Contents, ps: seq<Publication>, n: nat)
    requires n <= |ps| && Explains(ws, origin)
    ensures Explains(Rewritten(ws, opening, ps, n), Replay(origin, ps, n))
  {
    if n > 0 {
      RewrittenExplains(ws, opening, origin, ps, n - 1);
    }
  }

  lemma {:induction false} RewrittenLast(ws: Writers, opening: nat, ps: seq<Publication>, n: nat, key: Key)
    requires n <= |ps|
    ensures var ws' := Rewritten(ws, opening, ps, n);
      || (key in ws' && exists p: nat :: LastFor(ps, n, key, p) && ws'[key] == Stamp(opening, ps[p]))
      || (Untouched(ps, n, key) && (key in ws' <==> key in ws) && (key in ws ==> ws'[key] == ws[key]))
  {
    if n > 0 {
      RewrittenLast(ws, opening, ps, n - 1, key);
      var before := Rewritten(ws, opening, ps, n - 1);
      if ps[n - 1].write.key == key {
        assert LastFor(ps, n, key, n - 1);
      } else if p: nat :| LastFor(ps, n - 1, key, p) && key in before && before[key] == Stamp(opening, ps[p]) {
        assert LastFor(ps, n, key, p);
      }
    }
  }

  /**
   The trie when it has just been opened: the disk, the contents recovered from it, who wrote them,
   and what all openings so far have published and acknowledged.
   */
  datatype Life = Life(disk: Disk, contents: Contents, opening: nat, writers: Writers,
                       published: set<Stamp>, promised: set<Stamp>)

  function Born(): Life {
    Life(Disk(None, []), map[], 0, map[], {}, {})
  }

  ghost function Published(s: State, opening: nat): set<Stamp> {
    set p | p in s.history :: Stamp(opening, p)
  }

  ghost function Acknowledged(s: State, opening: nat): set<Stamp> {
    set p | p in s.history && p.lsn in s.phase && s.phase[p.lsn].Acked? :: Stamp(opening, p)
  }

  function WritersAfter(l: Life, s: State, rel: seq<Publication>): Writers
    requires ImageOk(s)
  {
    Rewritten(l.writers, l.opening, Recovered(s, rel), |Recovered(s, rel)|)
  }

  /** The trie is used until state `s`, crashes with `n` records of this opening left, and is opened again. */
  ghost predicate Reopens(l: Life, s: State, generations: nat, n: nat, l': Life) {
    && FileReachable(s) && s.origin == l.contents && Left(s, n) && Seeds(l.disk, generations) && ImageOk(s)
    && l'.disk == Crashed(l.disk, s, generations, n) && Recovers(l'.disk, l'.contents)
    && l'.opening == l.opening + 1
    && (exists rel :: Replays(s, UpTo(n), rel) && l'.writers == WritersAfter(l, s, rel))
    && l'.published == l.published + Published(s, l.opening)
    && l'.promised == l.promised + Acknowledged(s, l.opening)
  }

  /** The last writer of an acknowledged write's key is that write or one published after it. */
  ghost predicate Kept(l: Life) {
    forall x {:trigger x in l.promised} :: x in l.promised ==>
      x.p.write.key in l.writers && NotBefore(x, l.writers[x.p.write.key])
  }

  ghost predicate LifeOk(l: Life) {
    && DiskOk(l.disk) && Recovers(l.disk, l.contents) && Explains(l.writers, l.contents)
    && (forall key {:trigger key in l.writers} :: key in l.writers ==>
          l.writers[key] in l.published && l.writers[key].p.write.key == key && l.writers[key].opening < l.opening)
    && (forall x {:trigger x in l.promised} :: x in l.promised ==> x.opening < l.opening)
  }

  lemma BornOk()
    ensures LifeOk(Born()) && Kept(Born())
  {
    assert Reconciled(Born().disk, 0, []);
    assert Replay(map[], [], 0) == map[];
  }

  /** What was recovered of this opening was published by it. */
  lemma RecoveredPublished(s: State, n: nat, rel: seq<Publication>, p: nat)
    requires Inv(s) && Left(s, n) && Replays(s, UpTo(n), rel) && p < |Recovered(s, rel)|
    ensures Recovered(s, rel)[p] in s.history
  {
    var ps, k := Recovered(s, rel), |ImageHistory(s)|;
    if p < k {
      assert ps[p] == s.history[p];
    } else {
      assert ps[p] == rel[p - k] && rel[p - k] in rel;
      ReplayedPublished(s, UpTo(n), ps[p]);
    }
  }

  lemma NewWriter(l: Life, s: State, n: nat, rel: seq<Publication>, key: Key)
    requires LifeOk(l) && Inv(s) && Left(s, n) && Replays(s, UpTo(n), rel)
    requires key in WritersAfter(l, s, rel)
    ensures WritersAfter(l, s, rel)[key] in l.published + Published(s, l.opening)
    ensures WritersAfter(l, s, rel)[key].p.write.key == key && WritersAfter(l, s, rel)[key].opening <= l.opening
  {
    var ps, ws := Recovered(s, rel), WritersAfter(l, s, rel);
    RewrittenLast(l.writers, l.opening, ps, |ps|, key);
    if p: nat :| LastFor(ps, |ps|, key, p) && key in ws && ws[key] == Stamp(l.opening, ps[p]) {
      RecoveredPublished(s, n, rel, p);
    }
  }

  /** What is found after a crash is what the writers of this opening and the earlier ones wrote. */
  lemma ReopenOk(l: Life, s: State, generations: nat, n: nat, l': Life)
    requires LifeOk(l) && Reopens(l, s, generations, n, l')
    ensures LifeOk(l')
  {
    FileReachableInv(s);
    CrashedOk(l.disk, s, generations, n);
    var rel := OpenedContents(l.disk, s, generations, n, l'.contents);
    var rel' :| Replays(s, UpTo(n), rel') && l'.writers == WritersAfter(l, s, rel');
    ReplaysUnique(s, UpTo(n), rel, rel');
    var ps := Recovered(s, rel);
    RewrittenExplains(l.writers, l.opening, s.origin, ps, |ps|);
    forall key | key in l'.writers
      ensures l'.writers[key] in l'.published && l'.writers[key].p.write.key == key
      ensures l'.writers[key].opening < l'.opening
    {
      NewWriter(l, s, n, rel, key);
    }
  }

  /** Promises are kept by a crash exactly when the recovery of this opening alone keeps its own. */
  lemma KeptExactly(l: Life, s: State, generations: nat, n: nat, l': Life, rel: seq<Publication>)
    requires LifeOk(l) && Kept(l) && Reopens(l, s, generations, n, l') && Replays(s, UpTo(n), rel)
    ensures Kept(l') <==> AckedKept(s, rel)
  {
    var rel' :| Replays(s, UpTo(n), rel') && l'.writers == WritersAfter(l, s, rel');
    ReplaysUnique(s, UpTo(n), rel, rel');
    var ps := Recovered(s, rel);
    if AckedKept(s, rel) {
      forall x | x in l'.promised ensures x.p.write.key in l'.writers && NotBefore(x, l'.writers[x.p.write.key]) {
        RewrittenLast(l.writers, l.opening, ps, |ps|, x.p.write.key);
        if x !in l.promised {
          NewPromise(l, s, ps, rel, x);
        }
      }
    }
    if Kept(l') {
      forall a: nat | IsAcked(s, a) ensures KeptFor(s, rel, a) {
        var x := Stamp(l.opening, s.history[a]);
        assert x in Acknowledged(s, l.opening);
        RewrittenLast(l.writers, l.opening, ps, |ps|, x.p.write.key);
      }
    }
  }

  lemma NewPromise(l: Life, s: State, ps: seq<Publication>, rel: seq<Publication>, x: Stamp)
    requires ImageOk(s) && ps == Recovered(s, rel) && AckedKept(s, rel) && x in Acknowledged(s, l.opening)
    ensures var ws := Rewritten(l.writers, l.opening, ps, |ps|);
      x.p.write.key in ws && NotBefore(x, ws[x.p.write.key])
  {
    var key := x.p.write.key;
    var a: nat :| a < |s.history| && s.history[a] == x.p;
    assert IsAcked(s, a);
    var p: nat :| LastFor(ps, |ps|, key, p) && ps[p].generation >= x.p.generation;
    RewrittenLast(l.writers, l.opening, ps, |ps|, key);
    LastIsOne(ps, |ps|, key, p);
  }

  lemma LastIsOne(ps: seq<Publication>, n: nat, key: Key, p: nat)
    requires LastFor(ps, n, key, p)
    ensures forall q: nat :: LastFor(ps, n, key, q) ==> q == p
    ensures !Untouched(ps, n, key)
  {
  }

  lemma ReopenKeeps(l: Life, s: State, generations: nat, n: nat, l': Life)
    requires LifeOk(l) && Kept(l) && Reopens(l, s, generations, n, l') && FileUninverted(s)
    ensures Kept(l')
  {
    FileReachableInv(s);
    var rel := OpenedContents(l.disk, s, generations, n, l'.contents);
    FileUninvertedKeeps(s, n, rel);
    KeptExactly(l, s, generations, n, l', rel);
  }

  /** However an opening goes on with this image, no crash of it loses a promise of this or an earlier opening. */
  ghost predicate NeverLost(l: Life, s: State) {
    forall run: seq<State>, generations: nat, n: nat, l': Life
      {:trigger Reopens(l, Last(run), generations, n, l'), FileContinues(run, s)} ::
      FileContinues(run, s) && Reopens(l, Last(run), generations, n, l') ==> Kept(l')
  }

  /** After any crashes before, an opening is safe from there on exactly when its own checkpoint is not inverted. */
  lemma ReopenedSafeExactly(l: Life, s: State)
    requires LifeOk(l) && Kept(l) && FileReachable(s) && s.origin == l.contents
    ensures NeverLost(l, s) <==> FileUninverted(s)
  {
    FileReachableInv(s);
    if FileUninverted(s) {
      forall run: seq<State>, generations: nat, n: nat, l': Life |
        FileContinues(run, s) && Reopens(l, Last(run), generations, n, l')
        ensures Kept(l')
      {
        FileRunUninverted(run, s, |run| - 1);
        ReopenKeeps(l, Last(run), generations, n, l');
      }
    } else {
      var i: nat, j: nat :| Overtaken(s, i, j) && !FileShielded(s, i, j);
      var run, n, out := FileInvertedLoses(s, i, j);
      assert !AckedKept(Last(run), out);
      FileReachableOn(run, s);
      var generations, l' := CanReopen(l, Last(run), n, out);
      KeptExactly(l, Last(run), generations, n, l', out);
    }
  }

  /** The trie can be opened after every crash. */
  lemma CanReopen(l: Life, s: State, n: nat, rel: seq<Publication>) returns (generations: nat, l': Life)
    requires LifeOk(l) && FileReachable(s) && s.origin == l.contents && Left(s, n) && Replays(s, UpTo(n), rel)
    ensures Reopens(l, s, generations, n, l')
  {
    FileReachableInv(s);
    generations := SeedExists(l.disk.log);
    CrashedOk(l.disk, s, generations, n);
    var disk := Crashed(l.disk, s, generations, n);
    var contents := RecoversOne(disk);
    assert Recovers(disk, contents);
    l' := Life(disk, contents, l.opening + 1, WritersAfter(l, s, rel),
      l.published + Published(s, l.opening), l.promised + Acknowledged(s, l.opening));
  }

  // ---- Whole lives ----

  ghost predicate SafelyReopens(l: Life, l': Life) {
    exists s, generations: nat, n: nat :: Reopens(l, s, generations, n, l') && FileUninverted(s)
  }

  ghost predicate LifeStep(lives: seq<Life>, i: nat) {
    i + 1 < |lives| && SafelyReopens(lives[i], lives[i + 1])
  }

  ghost predicate Lives(lives: seq<Life>) {
    && |lives| > 0 && lives[0] == Born()
    && forall i: nat :: i < |lives| - 1 ==> LifeStep(lives, i)
  }

  lemma SafelyReopensKeeps(l: Life, l': Life)
    requires LifeOk(l) && Kept(l) && SafelyReopens(l, l')
    ensures LifeOk(l') && Kept(l')
  {
    var s, generations: nat, n: nat :| Reopens(l, s, generations, n, l') && FileUninverted(s);
    ReopenOk(l, s, generations, n, l');
    ReopenKeeps(l, s, generations, n, l');
  }

  /** What holds at first and is kept by every step holds throughout. */
  lemma {:induction false} Throughout(holds: Life -> bool, lives: seq<Life>, i: nat)
    requires Lives(lives) && i < |lives| && holds(Born())
    requires forall l, l' :: holds(l) && SafelyReopens(l, l') ==> holds(l')
    ensures holds(lives[i])
  {
    if i > 0 {
      Throughout(holds, lives, i - 1);
      assert LifeStep(lives, i - 1);
    }
  }

  lemma LivesOk(lives: seq<Life>, i: nat)
    requires Lives(lives) && i < |lives|
    ensures LifeOk(lives[i]) && Kept(lives[i])
  {
    var holds := (l: Life) => LifeOk(l) && Kept(l);
    BornOk();
    forall l, l' | holds(l) && SafelyReopens(l, l') ensures holds(l') {
      SafelyReopensKeeps(l, l');
    }
    Throughout(holds, lives, i);
  }

  /**
   After any number of crashes, the key of every write that was ever acknowledged holds what that
   write or one published after it wrote.
   */
  lemma CrashesKeepPromises(lives: seq<Life>, i: nat, x: Stamp) returns (y: Stamp)
    requires Lives(lives) && i < |lives| && x in lives[i].promised
    ensures y in lives[i].published && y.p.write.key == x.p.write.key && NotBefore(x, y)
    ensures Lookup(lives[i].contents, x.p.write.key) == y.p.write.value
  {
    LivesOk(lives, i);
    y := lives[i].writers[x.p.write.key];
  }
}
