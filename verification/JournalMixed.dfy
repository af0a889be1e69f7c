/** The journal on a file system that does not keep the order of the log directory's entries. */
module JournalMixed {
  import opened Core
  import opened JournalProtocol
  import opened JournalSafety
  import opened JournalTheorems

  // ---- what the log versions since the last sync have in common ----

  /** Commit q is whole under log version j wherever the oldest checkpoint still wants it. */
  ghost predicate Whole(s: State, j: nat, q: nat)
    requires Shaped(s) && j < |s.heads|
  {
    s.disk.logs[0].Floor() < q <= s.heads[j] ==>
      q in s.disk.logs[j].commits && CommitOk(s.hist, q, s.disk.logs[j].commits[q])
  }

  /** Version j has no lower checkpoint and, before any commit since, no other commits than the oldest. */
  ghost predicate Later(s: State, j: nat)
    requires Shaped(s) && j < |s.heads|
  {
    && s.disk.logs[0].Floor() <= s.disk.logs[j].Floor()
    && (s.heads[j] == s.heads[0] ==> s.disk.logs[j].commits.Keys <= s.disk.logs[0].commits.Keys)
    && (j > 0 ==> s.heads[j] == |s.hist| - 1)
  }

  ghost predicate WindowOk(s: State) {
    && Shaped(s)
    && (forall j, q {:trigger Whole(s, j, q)} :: 0 <= j < |s.heads| && 0 <= q ==> Whole(s, j, q))
    && (forall j {:trigger Later(s, j)} :: 0 <= j < |s.heads| ==> Later(s, j))
    && (s.heads[0] != |s.hist| - 1 ==> |s.heads| > 1 && s.disk.logs[1].active.None?)
  }

  lemma SingleWindow(n: State)
    requires Inv(n) && |n.heads| == 1
    ensures WindowOk(n)
  {
    LiveLog(n);
    forall j, q: nat | 0 <= j < |n.heads| ensures Whole(n, j, q) {
      if n.disk.logs[0].Floor() < q <= n.heads[j] { assert CommitOk(n.hist, q, n.disk.logs[0].commits[q]); }
    }
  }

  /** One more log version with the commits that are still wanted. */
  lemma PushWindow(s: State, n: State, l: LogDir)
    requires WindowOk(s) && n.hist == s.hist && Shaped(n)
    requires n.disk.logs == s.disk.logs + [l] && n.heads == s.heads + [Last(s.heads)]
    requires s.disk.Log().Floor() <= l.Floor() && l.commits.Keys <= s.disk.Log().commits.Keys
    requires forall q :: q in s.disk.Log().commits && q > s.disk.logs[0].Floor() ==>
      q in l.commits && l.commits[q] == s.disk.Log().commits[q]
    ensures WindowOk(n)
  {
    var last := |s.heads| - 1;
    assert s.disk.logs[last] == s.disk.Log() && s.heads[last] == Last(s.heads);
    forall j, q: nat | 0 <= j < |n.heads| ensures Whole(n, j, q) {
      var i := if j <= last then j else last;
      assert Whole(s, i, q) && n.heads[j] == s.heads[i] && n.disk.logs[0] == s.disk.logs[0];
      if j <= last { assert n.disk.logs[j] == s.disk.logs[j]; }
    }
    forall j | 0 <= j < |n.heads| ensures Later(n, j) {
      var i := if j <= last then j else last;
      assert Later(s, i) && n.heads[j] == s.heads[i] && n.disk.logs[0] == s.disk.logs[0];
      if j <= last { assert n.disk.logs[j] == s.disk.logs[j]; }
    }
    if |s.heads| > 1 { assert n.disk.logs[1] == s.disk.logs[1]; }
  }

  lemma CommitWindow(s: State)
    requires Inv(s) && Guard(s, CommitRename)
    ensures WindowOk(After(s, CommitRename))
  {
    var n := After(s, CommitRename);
    CommitKeeps(s);
    forall j, q: nat | 0 <= j < |n.heads| ensures Whole(n, j, q) {
      assert VersionOk(n, j);
      if n.disk.logs[0].Floor() < q <= n.heads[j] { assert CommitOk(n.hist, q, n.disk.logs[j].commits[q]); }
    }
  }

  /** The steps that add a log version without a commit. */
  predicate Pushes(step: Step) {
    step.Leftovers? || step.Activate? || step.Discard? || step.SetCheckpoint? || step.Expire?
  }

  lemma PushedWindow(s: State, step: Step)
    requires Inv(s) && WindowOk(s) && Guard(s, step) && Pushes(step)
    ensures WindowOk(After(s, step))
  {
    var n := After(s, step);
    StepKeepsInv(s, step);
    PushWindow(s, n, n.disk.Log());
  }

  /** Pages, manifests and the inside of a directory do not show in the log directory itself. */
  lemma QuietWindow(s: State, n: State)
    requires WindowOk(s) && Shaped(n) && n.hist == s.hist && n.heads == s.heads && n.disk.logs == s.disk.logs
    ensures WindowOk(n)
  {
    forall j, q: nat | 0 <= j < |n.heads| ensures Whole(n, j, q) { assert Whole(s, j, q); }
    forall j | 0 <= j < |n.heads| ensures Later(n, j) { assert Later(s, j); }
  }

  lemma StepKeepsWindow(s: State, step: Step)
    requires Inv(s) && WindowOk(s) && Guard(s, step)
    ensures WindowOk(After(s, step))
  {
    StepKeepsInv(s, step);
    var n := After(s, step);
    if step.CommitRename? {
      CommitWindow(s);
    } else if Pushes(step) {
      PushedWindow(s, step);
    } else if |n.heads| == 1 {
      SingleWindow(n);
    } else {
      QuietWindow(s, n);
    }
  }

  lemma {:induction false} RunKeepsWindow(s: State, steps: seq<Step>)
    requires Inv(s) && WindowOk(s) && Runs(s, steps)
    ensures Inv(End(s, steps)) && WindowOk(End(s, steps))
    decreases |steps|
  {
    if steps != [] {
      StepKeepsInv(s, steps[0]);
      StepKeepsWindow(s, steps[0]);
      RunKeepsWindow(After(s, steps[0]), steps[1..]);
    }
  }

  // ---- every entry at an age of its own ----

  ghost predicate ActiveSurvives(d: Disk, l: LogDir) {
    exists i {:trigger d.logs[i]} :: 0 <= i < |d.logs| &&
      if l.active.None? then d.logs[i].active.None?
      else d.logs[i].active.Some? && DirSurvives(d.logs[i].active.value, l.active.value)
  }

  ghost predicate CheckpointSurvives(d: Disk, l: LogDir) {
    exists i {:trigger d.logs[i]} :: 0 <= i < |d.logs| && l.checkpoint == d.logs[i].checkpoint
  }

  /** No version's checkpoint wants the commit any more, so it may be in any condition. */
  ghost predicate Expired(d: Disk, q: nat) {
    forall i {:trigger d.logs[i]} :: 0 <= i < |d.logs| ==> q <= d.logs[i].Floor()
  }

  ghost predicate CommitSurvives(d: Disk, l: LogDir, q: nat) {
    exists i {:trigger d.logs[i]} :: 0 <= i < |d.logs| &&
      (q in l.commits <==> q in d.logs[i].commits) &&
      (q in l.commits ==> Expired(d, q) || DirSurvives(d.logs[i].commits[q], l.commits[q]))
  }

  /** Each name in the log directory as some version since the last sync has it. */
  ghost predicate MixedLog(d: Disk, l: LogDir) {
    && ActiveSurvives(d, l) && CheckpointSurvives(d, l)
    && forall q: nat {:trigger CommitSurvives(d, l, q)} :: CommitSurvives(d, l, q)
  }

  ghost predicate MixedDisk(d: Disk, e: Disk) {
    && e.dirty == {}
    && (forall id :: id in d.pages && id !in d.dirty ==> id in e.pages && e.pages[id] == d.pages[id])
    && e.pages.Keys <= d.pages.Keys
    && |e.manifests| == 1 && e.manifests[0] in d.manifests
    && |e.logs| == 1 && MixedLog(d, e.logs[0])
  }

  function Rebooted(e: Disk, hist: seq<Image>): State {
    State(e, hist, if hist == [] then [] else [|hist| - 1], false, {})
  }

  /** Some committed image is what recovery makes of the disk. */
  ghost predicate Recoverable(s: State, e: Disk) {
    exists n: nat :: 0 < n <= |s.hist| && Inv(Rebooted(e, s.hist[..n]))
  }

  // ---- without a pending rename every mix recovers ----

  ghost predicate NoRenamePending(s: State) {
    forall i {:trigger s.heads[i]} :: 0 <= i < |s.heads| ==> s.heads[i] == |s.hist| - 1
  }

  lemma MixedLogOk(s: State, l: LogDir)
    requires Inv(s) && WindowOk(s) && NoRenamePending(s) && MixedLog(s.disk, l)
    ensures LogOk(s.hist, l, |s.hist| - 1)
  {
    var d, head := s.disk, |s.hist| - 1;
    var c :| 0 <= c < |d.logs| && l.checkpoint == d.logs[c].checkpoint;
    assert VersionOk(s, c) && VersionOk(s, 0) && Later(s, c);
    forall q | q in l.commits ensures q in d.logs[0].commits && q <= head {
      assert CommitSurvives(d, l, q);
      var i :| 0 <= i < |d.logs| && q in d.logs[i].commits;
      assert Later(s, i) && VersionOk(s, i) && s.heads[i] == s.heads[0];
    }
    SmallerMap(l.commits, d.logs[0].commits);
    forall q: nat | l.Floor() < q <= head ensures q in l.commits && CommitOk(s.hist, q, l.commits[q]) {
      MixedCommitOk(s, l, c, q);
    }
  }

  lemma MixedCommitOk(s: State, l: LogDir, c: nat, q: nat)
    requires Inv(s) && WindowOk(s) && NoRenamePending(s) && CommitSurvives(s.disk, l, q)
    requires c < |s.heads| && s.disk.logs[c].Floor() < q < |s.hist|
    ensures q in l.commits && CommitOk(s.hist, q, l.commits[q])
  {
    var d := s.disk;
    assert !Expired(d, q);
    var i :| 0 <= i < |d.logs| && (q in l.commits <==> q in d.logs[i].commits) &&
      (q in l.commits ==> Expired(d, q) || DirSurvives(d.logs[i].commits[q], l.commits[q]));
    assert Later(s, c) && Whole(s, i, q) && s.heads[i] == |s.hist| - 1;
  }

  lemma MixedRecovers(s: State, e: Disk)
    requires Inv(s) && WindowOk(s) && NoRenamePending(s) && MixedDisk(s.disk, e)
    ensures Inv(Rebooted(e, s.hist))
  {
    var n, d, l, img := Rebooted(e, s.hist), s.disk, e.logs[0], Last(s.hist);
    MixedLogOk(s, l);
    LivePages(s);
    var i :| 0 <= i < |d.logs| &&
      if l.active.None? then d.logs[i].active.None?
      else d.logs[i].active.Some? && DirSurvives(d.logs[i].active.value, l.active.value);
    assert VersionOk(s, i) && s.heads[i] == |s.hist| - 1;
    if l.active.Some? {
      UndoSurvives(d, e, img, d.logs[i].active.value, l.active.value);
    } else {
      QuietFrame(d, e, img);
    }
    VersionFromParts(n, 0, l, img);
    InvFromVersions(n, 0);
  }

  // ---- with one, neither name may survive ----

  /** The renamed directory under neither its old name nor its new one; all else survives. */
  ghost function LostDisk(s: State): Disk
    requires Shaped(s)
  {
    var l := s.disk.logs[0];
    var commits := map q | q in l.commits :: l.commits[q].(loose := {});
    s.disk.(dirty := {}, manifests := [s.disk.Live()], logs := [l.(active := None, commits := commits)])
  }

  /** A crash may lose the renamed directory altogether; nothing in the history is then left to recover to. */
  lemma RenameMayBeLost(s: State)
    requires Inv(s) && WindowOk(s) && !NoRenamePending(s)
    ensures MixedDisk(s.disk, LostDisk(s)) && !Recoverable(s, LostDisk(s))
  {
    var d, e, head := s.disk, LostDisk(s), |s.hist| - 1;
    var i :| 0 <= i < |s.heads| && s.heads[i] != head;
    assert Later(s, i);
    assert i == 0 && s.disk.logs[1].active.None?;
    LostIsMixed(s);
    assert VersionOk(s, 1) && VersionOk(s, 0);
    forall n: nat | 0 < n <= |s.hist| ensures !Inv(Rebooted(e, s.hist[..n])) {
      LostForGood(s, n);
    }
  }

  lemma LostIsMixed(s: State)
    requires Inv(s) && WindowOk(s) && |s.heads| > 1 && s.disk.logs[1].active.None?
    ensures MixedDisk(s.disk, LostDisk(s))
  {
    var d, l := s.disk, LostDisk(s).logs[0];
    forall q: nat ensures CommitSurvives(d, l, q) {
      assert q in l.commits <==> q in d.logs[0].commits;
      if q in l.commits { assert DirSurvives(d.logs[0].commits[q], l.commits[q]); }
    }
  }

  lemma LostForGood(s: State, n: nat)
    requires Inv(s) && 0 < n <= |s.hist| && s.heads[0] < |s.hist| - 1
    requires |s.heads| > 1 && VersionOk(s, 0) && VersionOk(s, 1) && s.disk.logs[1].active.None?
    ensures !Inv(Rebooted(LostDisk(s), s.hist[..n]))
  {
    assert |s.hist| - 1 !in s.disk.logs[0].commits;
    if Inv(Rebooted(LostDisk(s), s.hist[..n])) { LostWanted(s, n); }
  }

  /** A log that recovery accepts has the directory of every commit up to the manifest's. */
  lemma LostWanted(s: State, n: nat)
    requires Inv(s) && 0 < n <= |s.hist| && |s.heads| > 1 && VersionOk(s, 1) && s.disk.logs[1].active.None?
    requires Inv(Rebooted(LostDisk(s), s.hist[..n])) && s.disk.logs[0].Floor() < |s.hist| - 1
    ensures |s.hist| - 1 in s.disk.logs[0].commits
  {
    LostAnchor(s, n);
    assert VersionOk(Rebooted(LostDisk(s), s.hist[..n]), 0);
    assert |s.hist| - 1 in LostDisk(s).logs[0].commits;
  }

  /** The surviving manifest names the commit whose directory is gone. */
  lemma LostAnchor(s: State, n: nat)
    requires Inv(s) && 0 < n <= |s.hist| && |s.heads| > 1 && VersionOk(s, 1) && s.disk.logs[1].active.None?
    requires Inv(Rebooted(LostDisk(s), s.hist[..n]))
    ensures n == |s.hist|
  {
    var r, head := Rebooted(LostDisk(s), s.hist[..n]), |s.hist| - 1;
    assert VersionOk(r, 0);
    assert s.disk.Live() in s.disk.manifests && s.disk.Live() in r.disk.manifests;
    assert s.disk.Live() == s.hist[head].manifest && s.disk.Live() == s.hist[n - 1].manifest;
    assert ImageOk(s.hist[head], head) && ImageOk(s.hist[n - 1], n - 1);
  }

  /**
   When the entries of the log directory may survive at different ages, every disk a crash may leave in a
   reachable state is one recovery accepts if and only if no commit's rename is waiting for its sync.
   */
  lemma MixedRecoverableIff(s: State)
    requires Inv(s) && WindowOk(s)
    ensures (forall e {:trigger MixedDisk(s.disk, e)} :: MixedDisk(s.disk, e) ==> Recoverable(s, e))
      <==> NoRenamePending(s)
  {
    if NoRenamePending(s) {
      forall e | MixedDisk(s.disk, e) ensures Recoverable(s, e) {
        MixedRecovers(s, e);
        WholePrefix(s.hist);
      }
    } else {
      RenameMayBeLost(s);
    }
  }

  /** The same of the state after any run of a freshly logged workspace, crashes included. */
  lemma RunMixedRecoverableIff(s: State, steps: seq<Step>)
    requires Fresh(s) && Runs(s, steps)
    ensures var e := End(s, steps);
      (forall x {:trigger MixedDisk(e.disk, x)} :: MixedDisk(e.disk, x) ==> Recoverable(e, x)) <==> NoRenamePending(e)
  {
    FreshInv(s);
    SingleWindow(s);
    RunKeepsWindow(s, steps);
    MixedRecoverableIff(End(s, steps));
  }
}
