/** What the journal guarantees over whole runs: atomicity, durability, anchoring and replay. */
module JournalTheorems {
  import opened Core
  import opened ChangeCodec
  import opened JournalProtocol
  import opened JournalSafety

  // ---- runs ----

  ghost predicate Runs(s: State, steps: seq<Step>)
    decreases |steps|
  {
    steps == [] || (Shaped(s) && Guard(s, steps[0]) && Runs(After(s, steps[0]), steps[1..]))
  }

  ghost function End(s: State, steps: seq<Step>): State
    requires Runs(s, steps)
    decreases |steps|
  {
    if steps == [] then s else End(After(s, steps[0]), steps[1..])
  }

  /** A workspace that has just become logged: sequence zero, nothing pending. */
  ghost predicate Fresh(s: State) {
    && |s.disk.manifests| == 1 && |s.disk.logs| == 1 && s.disk.dirty == {}
    && Anchored(s.disk.Live()) && s.disk.Live().meta.anchor == Some(0)
    && s.disk.Log().active.None? && s.disk.Log().commits == map[]
    && s.disk.Log().checkpoint.None?
    && s.hist == [LiveImage(s.disk)] && s.heads == [0] && !s.open && s.written == {}
  }

  lemma FreshInv(s: State)
    requires Fresh(s)
    ensures Inv(s)
  {
    assert ImageOk(s.hist[0], 0);
    assert VersionOk(s, 0);
  }

  /** The invariant holds after every run of steps, crashes at any point included. */
  lemma {:induction false} RunKeepsInv(s: State, steps: seq<Step>)
    requires Inv(s) && Runs(s, steps)
    ensures Inv(End(s, steps))
    decreases |steps|
  {
    if steps != [] {
      StepKeepsInv(s, steps[0]);
      RunKeepsInv(After(s, steps[0]), steps[1..]);
    }
  }

  lemma {:induction false} RunsSnoc(s: State, steps: seq<Step>, step: Step)
    requires Runs(s, steps) && Shaped(End(s, steps)) && Guard(End(s, steps), step)
    ensures Runs(s, steps + [step]) && End(s, steps + [step]) == After(End(s, steps), step)
    decreases |steps|
  {
    var more := steps + [step];
    if steps == [] {
      assert more[0] == step && more[1..] == [];
    } else {
      RunsSnoc(After(s, steps[0]), steps[1..], step);
      assert more[0] == steps[0] && more[1..] == steps[1..] + [step];
    }
  }

  lemma {:induction false} RunsPrefix(s: State, steps: seq<Step>, k: nat)
    requires Runs(s, steps) && k <= |steps|
    ensures Runs(s, steps[..k])
    decreases k
  {
    if k > 0 {
      RunsPrefix(After(s, steps[0]), steps[1..], k - 1);
      assert steps[..k][0] == steps[0] && steps[..k][1..] == steps[1..][..k - 1];
    }
  }

  /** A crash between any two steps of a run leaves a recoverable workspace at the head it kept. */
  lemma CrashAnywhere(s: State, steps: seq<Step>, k: nat, version: nat, after: Disk)
    requires Inv(s) && Runs(s, steps) && k <= |steps|
    ensures Runs(s, steps[..k]) && Inv(End(s, steps[..k]))
    ensures var m := End(s, steps[..k]);
      Guard(m, Crash(version, after)) ==>
        && Inv(After(m, Crash(version, after)))
        && After(m, Crash(version, after)).hist == m.hist[..m.heads[version] + 1]
  {
    RunsPrefix(s, steps, k);
    RunKeepsInv(s, steps[..k]);
    var m := End(s, steps[..k]);
    if Guard(m, Crash(version, after)) { StepKeepsInv(m, Crash(version, after)); }
  }

  // ---- atomicity ----

  /** Whenever no undo journal is active, the disk holds exactly the last committed database. */
  lemma QuiescentDiskIsLastCommit(s: State)
    requires Inv(s) && s.disk.Log().active.None?
    ensures LiveImage(s.disk) == Last(s.hist)
  {
    LiveQuiet(s);
    LivePages(s);
    assert s.disk.Live() in s.disk.manifests;
    var img := Last(s.hist);
    assert ImageOk(s.hist[|s.hist| - 1], |s.hist| - 1);
    assert forall id :: id in img.pages <==> id in Counted(s.disk.pages, img.manifest.meta.pageCount)
    by {
      forall id | id in img.pages ensures id in s.disk.pages { assert Holds(s.disk, id, img.pages[id]); }
    }
    forall id | id in img.pages ensures Counted(s.disk.pages, img.manifest.meta.pageCount)[id] == img.pages[id] {
      assert Holds(s.disk, id, img.pages[id]);
    }
  }

  function CommitsIn(steps: seq<Step>): nat {
    if steps == [] then 0
    else (if steps[0].CommitRename? then 1 else 0) + CommitsIn(steps[1..])
  }

  /** No crash can take away what lies at or below the durable head. */
  ghost predicate Durable(s: State, n: nat) {
    Shaped(s) && n < |s.hist| && forall i :: 0 <= i < |s.heads| ==> n <= s.heads[i]
  }

  lemma StepHistory(s: State, step: Step, n: nat)
    requires Shaped(s) && Guard(s, step) && Shaped(After(s, step)) && Durable(s, n)
    ensures Durable(After(s, step), n)
    ensures After(s, step).hist[..n + 1] == s.hist[..n + 1]
    ensures step.CommitRename? ==> After(s, step).hist == s.hist + [LiveImage(s.disk)]
    ensures !step.CommitRename? ==> After(s, step).hist <= s.hist
    ensures !step.CommitRename? && !step.Crash? ==> After(s, step).hist == s.hist
  {}

  /**
   Atomicity and durability over any run: the durable history is kept whole, and the rename of
   `active` is the only step that ever adds to it.
   */
  lemma {:induction false} HistoryOnlyGrowsByCommits(s: State, steps: seq<Step>, n: nat)
    requires Inv(s) && Runs(s, steps) && Durable(s, n)
    ensures var e := End(s, steps);
      && Durable(e, n) && e.hist[..n + 1] == s.hist[..n + 1]
      && |e.hist| <= |s.hist| + CommitsIn(steps)
    ensures CommitsIn(steps) == 0 ==> End(s, steps).hist <= s.hist
    decreases |steps|
  {
    if steps != [] {
      var m := After(s, steps[0]);
      StepKeepsInv(s, steps[0]);
      StepHistory(s, steps[0], n);
      HistoryOnlyGrowsByCommits(m, steps[1..], n);
    }
  }

  /** The image was live on the disk at a rename of `active` in the run. */
  ghost predicate CommittedIn(s: State, steps: seq<Step>, img: Image) {
    exists k :: CommittedAt(s, steps, k, img)
  }

  ghost predicate CommittedAt(s: State, steps: seq<Step>, k: nat, img: Image) {
    && k < |steps| && steps[k].CommitRename? && Runs(s, steps[..k])
    && End(s, steps[..k]).disk.Shaped() && img == LiveImage(End(s, steps[..k]).disk)
  }

  lemma CommittedLater(s: State, steps: seq<Step>, img: Image)
    requires steps != [] && Shaped(s) && Guard(s, steps[0]) && CommittedIn(After(s, steps[0]), steps[1..], img)
    ensures CommittedIn(s, steps, img)
  {
    var k: nat :| CommittedAt(After(s, steps[0]), steps[1..], k, img);
    var before := steps[..k + 1];
    assert before[0] == steps[0] && before[1..] == steps[1..][..k];
    assert CommittedAt(s, steps, k + 1, img);
  }

  /**
   Over any run with any number of commits, crashes and recoveries: what was durable stays, and every
   other image of the history was there before or is the database live at one of the run's renames.
   */
  lemma {:induction false} EveryImageWasCommitted(s: State, steps: seq<Step>, n: nat, q: nat)
    requires Inv(s) && Runs(s, steps) && Durable(s, n) && n < q < |End(s, steps).hist|
    ensures (q < |s.hist| && End(s, steps).hist[q] == s.hist[q]) || CommittedIn(s, steps, End(s, steps).hist[q])
    decreases |steps|
  {
    if steps != [] {
      var m, img := After(s, steps[0]), End(s, steps).hist[q];
      StepKeepsInv(s, steps[0]);
      StepHistory(s, steps[0], n);
      EveryImageWasCommitted(m, steps[1..], n, q);
      if CommittedIn(m, steps[1..], img) {
        CommittedLater(s, steps, img);
      } else if q == |s.hist| {
        assert steps[..0] == [];
        assert CommittedAt(s, steps, 0, img);
      }
    }
  }

  /**
   One transaction with any number of crashes and recoveries: the history stays as it was or gains
   exactly the database live at its rename, and once no journal is active the disk is the last image
   of that history.
   */
  lemma CrashAtomicity(s: State, steps: seq<Step>)
    requires Inv(s) && Runs(s, steps) && Durable(s, |s.hist| - 1) && CommitsIn(steps) <= 1
    ensures var e := End(s, steps);
      && (e.hist == s.hist || exists img :: CommittedIn(s, steps, img) && e.hist == s.hist + [img])
      && (e.disk.Shaped() && e.disk.Log().active.None? ==> LiveImage(e.disk) == Last(e.hist))
  {
    var e, n := End(s, steps), |s.hist|;
    RunKeepsInv(s, steps);
    HistoryOnlyGrowsByCommits(s, steps, n - 1);
    assert s.hist[..n] == s.hist;
    if |e.hist| == n {
      assert e.hist[..n] == e.hist;
    } else {
      EveryImageWasCommitted(s, steps, n - 1, n);
      assert e.hist == s.hist + [e.hist[n]];
    }
    if e.disk.Log().active.None? { QuiescentDiskIsLastCommit(e); }
  }

  // ---- history anchoring ----

  /** What `inventory` demands of the log under the anchor of the last committed manifest. */
  predicate HistoryComplete(l: LogDir, head: nat) {
    && |l.commits| <= MAX_COMMIT_DIRS
    && l.Floor() <= head
    && (forall q :: q in l.commits ==> q <= head)
    && (forall q :: l.Floor() < q <= head ==> q in l.commits)
    && (forall q :: q in l.commits && q > l.Floor() ==> l.commits[q].change.Some?)
  }

  /** The before-image of an active journal, or else the live manifest. */
  function Reference(d: Disk): Manifest
    requires d.Shaped()
  {
    if d.Log().active.Some? && d.Log().active.value.before.Some? then d.Log().active.value.before.value
    else d.Live()
  }

  lemma LogComplete(hist: seq<Image>, l: LogDir, head: nat)
    requires head < |hist| && LogOk(hist, l, head)
    ensures HistoryComplete(l, head)
  {
    forall q | q in l.commits && q > l.Floor() ensures l.commits[q].change.Some? {
      assert CommitOk(hist, q, l.commits[q]);
    }
  }

  /** In every reachable state the retained history is exactly checkpoint+1..head under its anchor. */
  lemma HistoryIsAnchored(s: State)
    requires Inv(s)
    ensures Anchored(Reference(s.disk))
    ensures Reference(s.disk).meta.anchor == Some(|s.hist| - 1)
    ensures HistoryComplete(s.disk.Log(), |s.hist| - 1)
  {
    LiveLog(s);
    LogComplete(s.hist, s.disk.Log(), |s.hist| - 1);
    assert ImageOk(s.hist[|s.hist| - 1], |s.hist| - 1);
    if s.disk.Log().active.Some? {
      LiveUndo(s);
    } else {
      LiveQuiet(s);
      assert s.disk.Live() in s.disk.manifests;
    }
  }

  // ---- change-stream replay ----

  /** What a consumer of the change stream holds. */
  datatype Replica = Replica(manifest: bytes, pages: map<nat, bytes>)

  function Copy(img: Image): Replica {
    Replica(img.manifest.raw, map id | id in img.pages :: img.pages[id])
  }

  function ApplyCommit(r: Replica, c: ChangeCommit): Replica {
    Replica(c.manifest, r.pages + PageMap(c.pages))
  }

  function Replay(r: Replica, cs: seq<ChangeCommit>): Replica
    decreases |cs|
  {
    if cs == [] then r else Replay(ApplyCommit(r, cs[0]), cs[1..])
  }

  /** A replica that is the image, up to pages no commit has told it about. */
  ghost predicate Follows(r: Replica, img: Image) {
    && r.manifest == img.manifest.raw
    && forall id :: id in r.pages ==> id in img.pages && r.pages[id] == img.pages[id]
  }

  /** The records of commits a+1 up to b, in order. */
  ghost predicate Stream(hist: seq<Image>, a: nat, cs: seq<ChangeCommit>) {
    a + |cs| < |hist| &&
    forall k {:trigger cs[k]} :: 0 <= k < |cs| ==> RecordLeads(hist[a + k], hist[a + k + 1], cs[k])
  }

  lemma ApplyFollows(r: Replica, a: Image, b: Image, c: ChangeCommit)
    requires Follows(r, a) && RecordLeads(a, b, c)
    ensures Follows(ApplyCommit(r, c), b)
    ensures (a.pages.Keys <= r.pages.Keys && b.pages.Keys <= a.pages.Keys + PageMap(c.pages).Keys)
            ==> b.pages.Keys <= ApplyCommit(r, c).pages.Keys
  {}

  /**
   Replaying the stream on a copy of commit a gives the manifest of the last commit and the right
   bytes for every page of the copy or of a replayed record.
   */
  lemma {:induction false} ReplayAgrees(hist: seq<Image>, a: nat, cs: seq<ChangeCommit>, r: Replica)
    requires Stream(hist, a, cs) && Follows(r, hist[a])
    ensures Follows(Replay(r, cs), hist[a + |cs|])
    ensures r.pages.Keys <= Replay(r, cs).pages.Keys
    ensures forall k :: 0 <= k < |cs| ==> PageMap(cs[k].pages).Keys <= Replay(r, cs).pages.Keys
    decreases |cs|
  {
    if cs != [] {
      ApplyFollows(r, hist[a], hist[a + 1], cs[0]);
      forall k | 0 <= k < |cs[1..]|
        ensures RecordLeads(hist[a + 1 + k], hist[a + 1 + k + 1], cs[1..][k])
      {
        assert cs[1..][k] == cs[k + 1];
      }
      ReplayAgrees(hist, a + 1, cs[1..], ApplyCommit(r, cs[0]));
      forall k | 0 <= k < |cs| ensures PageMap(cs[k].pages).Keys <= Replay(r, cs).pages.Keys {
        if k > 0 { assert cs[1..][k - 1] == cs[k]; }
      }
    }
  }

  /** When every commit carries the pages it adds, the replica is the database, page for page. */
  lemma {:induction false} ReplayIsExact(hist: seq<Image>, a: nat, cs: seq<ChangeCommit>, r: Replica)
    requires Stream(hist, a, cs) && Follows(r, hist[a]) && hist[a].pages.Keys <= r.pages.Keys
    requires forall k {:trigger cs[k]} :: 0 <= k < |cs| ==>
               hist[a + k + 1].pages.Keys <= hist[a + k].pages.Keys + PageMap(cs[k].pages).Keys
    ensures Replay(r, cs) == Copy(hist[a + |cs|])
    decreases |cs|
  {
    if cs == [] {
      assert r.pages == Copy(hist[a]).pages;
    } else {
      assert cs[0] == cs[0];
      ApplyFollows(r, hist[a], hist[a + 1], cs[0]);
      forall k | 0 <= k < |cs[1..]|
        ensures RecordLeads(hist[a + 1 + k], hist[a + 1 + k + 1], cs[1..][k])
        ensures hist[a + 1 + k + 1].pages.Keys <= hist[a + 1 + k].pages.Keys + PageMap(cs[1..][k].pages).Keys
      {
        assert cs[1..][k] == cs[k + 1];
      }
      ReplayIsExact(hist, a + 1, cs[1..], ApplyCommit(r, cs[0]));
    }
  }

  /** The records kept in the log above the checkpoint are such a stream. */
  predicate Retained(l: LogDir, after: nat, cs: seq<ChangeCommit>) {
    forall k {:trigger cs[k]} :: 0 <= k < |cs| ==>
      RetainedAt(l, after + k + 1, cs[k])
  }

  predicate RetainedAt(l: LogDir, q: nat, c: ChangeCommit) {
    q in l.commits && l.commits[q].change == Some(c)
  }

  lemma RetainedIsStream(s: State, after: nat, cs: seq<ChangeCommit>)
    requires Inv(s) && s.disk.Log().Floor() <= after && Retained(s.disk.Log(), after, cs)
    requires after < |s.hist|
    ensures Stream(s.hist, after, cs)
  {
    LiveLog(s);
    forall k | 0 <= k < |cs|
      ensures after + k + 1 < |s.hist| && RecordLeads(s.hist[after + k], s.hist[after + k + 1], cs[k])
    {
      assert RetainedAt(s.disk.Log(), after + k + 1, cs[k]);
      assert CommitOk(s.hist, after + k + 1, s.disk.Log().commits[after + k + 1]);
    }
    if cs != [] { assert RetainedAt(s.disk.Log(), after + (|cs| - 1) + 1, cs[|cs| - 1]); }
  }

  /** A replica knows a page of the base or of a replayed record, and has the right bytes for it. */
  ghost predicate CaughtUp(base: Replica, cs: seq<ChangeCommit>, r: Replica, img: Image) {
    && Follows(r, img) && base.pages.Keys <= r.pages.Keys
    && forall k :: 0 <= k < |cs| ==> PageMap(cs[k].pages).Keys <= r.pages.Keys
  }

  /**
   Change-stream replay in any reachable state: the records after a cursor, replayed on the database
   of that cursor, give the manifest and the bytes of the last of them on every page of the base and
   of every replayed commit, whatever was rolled back in between.
   */
  lemma ReplayOfRetained(s: State, after: nat, cs: seq<ChangeCommit>, base: Replica)
    requires Inv(s) && s.disk.Log().Floor() <= after < |s.hist| && Retained(s.disk.Log(), after, cs)
    requires Follows(base, s.hist[after])
    ensures after + |cs| < |s.hist| && CaughtUp(base, cs, Replay(base, cs), s.hist[after + |cs|])
  {
    RetainedIsStream(s, after, cs);
    ReplayAgrees(s.hist, after, cs, base);
  }
}
