/**
 The marker/backup protocol of a workspace without a commit log: a copy of the committed tree, a marker
 that makes it authoritative, and a restore that can be interrupted and repeated.
 A crash keeps the file operations since the last synced directory up to some point; the last part asks what
 remains when each entry of the root may survive at an age of its own.
 */
module MarkerProtocol {
  import opened Core

  datatype Name = Manifest | Chunks | Blobs

  /** The copied part of a workspace: a file or a directory under each present name. */
  type Tree = map<Name, bytes>

  datatype Disk = Disk(live: Tree, backup: Option<Tree>, marker: bool)

  /** What recovery makes of a disk: the backup when the marker stands, else the live tree. */
  function Outcome(d: Disk): Tree {
    if d.marker && d.backup.Some? then d.backup.value else d.live
  }

  const NAMES: set<Name> := {Manifest, Chunks, Blobs}

  /** Where the program stands between two file operations. */
  datatype Stage =
    | Idle
    | Clearing                    // removing a leftover backup before a new one
    | Copying(done: set<Name>)    // copying into the backup
    | Published                   // marker renamed in, root not yet synced
    | Active                      // mutations may run
    | Flushed                     // page data synced for the commit
    | Ready                       // new manifest renamed in, root not yet synced
    | Committing                  // marker removed, root not yet synced
    | Restoring(done: set<Name>)  // copying the backup over the live tree
    | Restored                    // live tree synced, marker still there
    | Unmarked                    // marker removed after a restore, root not yet synced
    | Dropping                    // removing the backup, nothing depends on it
    | Aborting                    // preparation given up: marker removed, backup going
    | Crashed

  /**
   `disks` are the states a crash may leave, oldest first, the running one last. `base` is the tree
   committed before the current transaction, `next` the one being committed. `adrift` is what the blob directory
   held since its files were last synced: a commit syncs chunk files and the root, but no blob file.
   */
  datatype State = State(disks: seq<Disk>, stage: Stage, base: Tree, next: Tree, adrift: set<Option<bytes>>)

  function Now(s: State): Disk {
    if s.disks == [] then Disk(map[], None, false) else Last(s.disks)
  }

  datatype Step =
    | BeginPrepare
    | DropPart(left: Tree)
    | DropBackup
    | MakeBackup
    | CopyPart(name: Name, partial: bytes)
    | CopyName(name: Name)
    | Publish
    | Sync
    | Mutate(tree: Tree)
    | FlushData
    | PublishManifest(manifest: bytes)
    | RemoveMarkerToCommit
    | BeginRestore
    | Clobber(name: Name, remains: Option<bytes>)
    | RestoreName(name: Name)
    | SyncRestored
    | RemoveMarkerRestored
    | GiveUp
    | Crash(version: nat)
    | Recover

  function SetName(t: Tree, n: Name, c: Option<bytes>): Tree {
    if c.Some? then t[n := c.value] else t - {n}
  }

  function GetName(t: Tree, n: Name): Option<bytes> {
    if n in t then Some(t[n]) else None
  }

  /** A transaction is open: a commit that failed before its marker went may be retried or rolled back. */
  predicate InTransaction(stage: Stage) {
    stage == Active || stage == Flushed || stage == Ready
  }

  /** The chunk files are synced: every disk a crash may leave has them as they are now. */
  function DataSynced(disks: seq<Disk>, live: Tree): (r: seq<Disk>)
    ensures |r| == |disks|
    ensures forall i {:trigger r[i]} :: 0 <= i < |r| ==>
      r[i] == disks[i].(live := SetName(disks[i].live, Chunks, GetName(live, Chunks)))
  {
    seq(|disks|, i requires 0 <= i < |disks| =>
      disks[i].(live := SetName(disks[i].live, Chunks, GetName(live, Chunks))))
  }

  /** The program's own order of operations and the tests it makes. */
  predicate Enabled(s: State, step: Step) {
    s.disks != [] &&
    var d := Now(s);
    match step
    case BeginPrepare => s.stage == Idle && !d.marker
    case DropPart(_) => (s.stage == Clearing || s.stage == Dropping || s.stage == Aborting) && d.backup.Some?
    case DropBackup => s.stage == Clearing || s.stage == Dropping || s.stage == Aborting
    case MakeBackup => s.stage == Clearing && d.backup.None?
    case CopyPart(n, _) => s.stage.Copying? && n !in s.stage.done && d.backup.Some?
    case CopyName(n) => s.stage.Copying? && n !in s.stage.done && d.backup.Some?
    case Publish => s.stage == Copying(NAMES)
    case Sync =>
      s.stage == Published || s.stage == Committing || s.stage == Unmarked || (s.stage == Aborting && d.backup.None?)
    case Mutate(_) => InTransaction(s.stage)
    case FlushData => InTransaction(s.stage)
    case PublishManifest(_) => s.stage == Flushed
    case RemoveMarkerToCommit => s.stage == Ready
    case BeginRestore => InTransaction(s.stage)
    case Clobber(n, _) => s.stage.Restoring? && n !in s.stage.done
    case RestoreName(n) => s.stage.Restoring? && n !in s.stage.done && d.backup.Some?
    case SyncRestored => s.stage == Restoring(NAMES)
    case RemoveMarkerRestored => s.stage == Restored
    case GiveUp => s.stage.Copying? || s.stage == Published || s.stage == Clearing
    case Crash(v) => v < |s.disks|
    case Recover => s.stage == Crashed && (d.marker ==> d.backup.Some? && Manifest in d.backup.value)
  }

  function Wrote(s: State, d: Disk, stage: Stage): State
    requires s.disks != []
  {
    s.(disks := s.disks + [d], stage := stage, adrift := s.adrift + {GetName(d.live, Blobs)})
  }

  /** A blob directory that was just copied with its files synced, or read back after a crash. */
  function BlobsNow(d: Disk): set<Option<bytes>> { {GetName(d.live, Blobs)} }

  function After(s: State, step: Step): State
    requires Enabled(s, step)
  {
    var d := Now(s);
    match step
    case BeginPrepare => s.(stage := Clearing)
    case DropPart(left) => Wrote(s, d.(backup := Some(left)), s.stage)
    case DropBackup => Wrote(s, d.(backup := None), if s.stage == Dropping then Idle else s.stage)
    case MakeBackup => Wrote(s, d.(backup := Some(map[])), Copying({}))
    case CopyPart(n, c) => Wrote(s, d.(backup := Some(d.backup.value[n := c])), s.stage)
    case CopyName(n) =>
      Wrote(s, d.(backup := Some(SetName(d.backup.value, n, GetName(d.live, n)))), Copying(s.stage.done + {n}))
    case Publish => Wrote(s, d.(marker := true), Published)
    case Sync =>
      if s.stage == Published then s.(disks := [d], stage := Active)
      else if s.stage == Committing then s.(disks := [d], stage := Idle, base := s.next)
      else if s.stage == Unmarked then s.(disks := [d], stage := Dropping)
      else s.(disks := [d], stage := Idle)
    case Mutate(t) => Wrote(s, d.(live := t), Active)
    case FlushData => s.(disks := DataSynced(s.disks, d.live), stage := Flushed)
    case PublishManifest(m) => Wrote(s, d.(live := d.live[Manifest := m]), Ready)
    case RemoveMarkerToCommit => Wrote(s, d.(marker := false), Committing).(next := d.live)
    case BeginRestore => s.(stage := Restoring({}))
    case Clobber(n, c) => Wrote(s, d.(live := SetName(d.live, n, c)), s.stage)
    case RestoreName(n) =>
      Wrote(s, d.(live := SetName(d.live, n, GetName(d.backup.value, n))), Restoring(s.stage.done + {n}))
    case SyncRestored => s.(disks := [d], stage := Restored, adrift := BlobsNow(d))
    case RemoveMarkerRestored => Wrote(s, d.(marker := false), Unmarked)
    case GiveUp => Wrote(s, d.(marker := false), Aborting)
    case Crash(v) =>
      var left := s.disks[v];
      s.(disks := [left], stage := Crashed, base := Outcome(left), adrift := BlobsNow(left))
    case Recover => if d.marker then s.(stage := Restoring({})) else s.(stage := Dropping)
  }

  // ---- the invariant ----

  /** A marker on any disk a crash may leave stands beside the complete committed tree. */
  ghost predicate Guarded(d: Disk, base: Tree) {
    d.marker ==> d.backup == Some(base)
  }

  predicate AgreeOn(a: Tree, b: Tree, names: set<Name>) {
    forall n :: n in names ==> GetName(a, n) == GetName(b, n)
  }

  /** What each stage knows of the running disk. */
  ghost predicate StageOk(s: State)
    requires s.disks != []
  {
    var d := Now(s);
    match s.stage
    case Idle => !d.marker && d.live == s.base
    case Clearing => !d.marker && d.live == s.base
    case Copying(done) =>
      && !d.marker && d.live == s.base && d.backup.Some?
      && AgreeOn(d.backup.value, s.base, done) && done <= NAMES
    case Published => d.marker && d.live == s.base
    case Active => d.marker
    case Flushed => d.marker
    case Ready => d.marker && Manifest in d.live
    case Committing => !d.marker && d.live == s.next && Manifest in s.next
    case Restoring(done) => d.marker && AgreeOn(d.live, s.base, done) && done <= NAMES
    case Restored => d.marker && d.live == s.base
    case Unmarked => !d.marker && d.live == s.base
    case Dropping => !d.marker && d.live == s.base
    case Aborting => !d.marker && d.live == s.base
    case Crashed => |s.disks| == 1 && Outcome(d) == s.base
  }

  /** Recovering any disk a crash may leave gives the committed tree, or the one being committed. */
  ghost predicate VersionOk(s: State, d: Disk) {
    Guarded(d, s.base) && (d.marker || d.live == s.base || (s.stage == Committing && d.live == s.next))
  }

  ghost predicate VersionsOk(s: State) {
    forall i {:trigger s.disks[i]} :: 0 <= i < |s.disks| ==> VersionOk(s, s.disks[i])
  }

  /** Some disk a crash may leave has the marker. */
  predicate Marked(s: State) {
    exists i {:trigger s.disks[i]} :: 0 <= i < |s.disks| && s.disks[i].marker
  }

  /** Some disk a crash may leave has no backup at all. */
  predicate Bare(s: State) {
    exists i {:trigger s.disks[i]} :: 0 <= i < |s.disks| && s.disks[i].backup.None?
  }

  /** Every disk a crash may leave has the committed tree as its backup. */
  ghost predicate Backed(s: State) {
    forall i {:trigger s.disks[i]} :: 0 <= i < |s.disks| ==> s.disks[i].backup == Some(s.base)
  }

  ghost predicate AllMarked(s: State) {
    forall i {:trigger s.disks[i]} :: 0 <= i < |s.disks| ==> s.disks[i].marker
  }

  /** Every disk a crash may leave has these chunk files. */
  ghost predicate SameChunks(s: State, live: Tree) {
    forall i {:trigger s.disks[i]} :: 0 <= i < |s.disks| ==> GetName(s.disks[i].live, Chunks) == GetName(live, Chunks)
  }

  /** What each stage knows of all the disks a crash may leave, entry by entry. */
  ghost predicate WindowOk(s: State) {
    match s.stage
    case Idle => !Marked(s)
    case Clearing => !Marked(s)
    case Dropping => !Marked(s)
    case Copying(_) => !Marked(s) && Bare(s)
    case Published => Bare(s)
    case Aborting => Marked(s) ==> Bare(s)
    case Active => AllMarked(s) && Backed(s)
    case Flushed => AllMarked(s) && Backed(s) && SameChunks(s, Now(s).live)
    case Ready => AllMarked(s) && Backed(s) && SameChunks(s, Now(s).live)
    case Committing => Backed(s) && SameChunks(s, s.next)
    case Restoring(_) => AllMarked(s) && Backed(s)
    case Restored => AllMarked(s) && Backed(s) && |s.disks| == 1
    case Unmarked => Backed(s) && forall i {:trigger s.disks[i]} :: 0 <= i < |s.disks| ==> s.disks[i].live == s.base
    case Crashed => true
  }

  ghost predicate Inv(s: State) {
    s.disks != [] && Manifest in s.base && StageOk(s) && VersionsOk(s) && WindowOk(s)
  }

  // ---- every step keeps it ----

  lemma AgreeOnAll(a: Tree, b: Tree)
    requires AgreeOn(a, b, NAMES)
    ensures a == b
  {
    forall n: Name ensures (n in a <==> n in b) && (n in a ==> a[n] == b[n]) {
      assert n == Manifest || n == Chunks || n == Blobs;
      assert n in NAMES;
      assert GetName(a, n) == GetName(b, n);
    }
  }

  lemma AgreeOnMore(a: Tree, b: Tree, names: set<Name>, n: Name)
    requires AgreeOn(a, b, names)
    ensures AgreeOn(SetName(a, n, GetName(b, n)), b, names + {n}) && n in NAMES
  {
    assert n == Manifest || n == Chunks || n == Blobs;
  }

  lemma AgreeOnRest(a: Tree, b: Tree, names: set<Name>, n: Name, c: Option<bytes>)
    requires AgreeOn(a, b, names) && n !in names
    ensures AgreeOn(SetName(a, n, c), b, names)
  {}

  /** The steps that write one more disk. */
  predicate Writes(step: Step) {
    && !step.Crash? && !step.Sync? && !step.SyncRestored? && !step.Recover?
    && !step.BeginPrepare? && !step.BeginRestore? && !step.FlushData?
  }

  lemma WriteAppends(s: State, step: Step)
    requires Enabled(s, step) && Writes(step)
    ensures var t := After(s, step);
      t.disks == s.disks + [Now(t)] && t.base == s.base
  {}

  /** A written disk joins the earlier ones. */
  lemma WroteOk(s: State, d: Disk, t: State)
    requires s.disks != [] && t.disks == s.disks + [d] && t.base == s.base
    requires VersionsOk(s)
    requires (t.stage == Committing && t.next == s.next) || s.stage != Committing
    requires VersionOk(t, d)
    ensures VersionsOk(t)
  {
    forall i | 0 <= i < |t.disks| ensures VersionOk(t, t.disks[i]) {
      if i < |s.disks| { assert t.disks[i] == s.disks[i] && VersionOk(s, s.disks[i]); }
    }
  }

  lemma WriteKeepsStage(s: State, step: Step)
    requires Inv(s) && Enabled(s, step) && Writes(step)
    ensures StageOk(After(s, step))
  {
    var d := Now(s);
    match step {
      case CopyPart(n, c) => AgreeOnRest(d.backup.value, s.base, s.stage.done, n, Some(c));
      case CopyName(n) => AgreeOnMore(d.backup.value, s.base, s.stage.done, n);
      case Clobber(n, c) => AgreeOnRest(d.live, s.base, s.stage.done, n, c);
      case RestoreName(n) => AgreeOnMore(d.live, s.base, s.stage.done, n);
      case _ =>
    }
    assert VersionOk(s, s.disks[|s.disks| - 1]);
  }

  lemma WriteKeepsVersions(s: State, step: Step)
    requires Inv(s) && Enabled(s, step) && Writes(step)
    ensures VersionsOk(After(s, step))
  {
    var t := After(s, step);
    assert VersionOk(s, s.disks[|s.disks| - 1]);
    if step.Publish? { AgreeOnAll(Now(s).backup.value, s.base); }
    WriteAppends(s, step);
    WroteOk(s, Now(t), t);
  }

  /** A written disk keeps what was on some disk, and keeps what is on every disk if it has it too. */
  lemma WindowGrows(s: State, d: Disk, t: State)
    requires t.disks == s.disks + [d] && t.base == s.base
    ensures Bare(t) <==> Bare(s) || d.backup.None?
    ensures Marked(t) <==> Marked(s) || d.marker
    ensures AllMarked(t) <==> AllMarked(s) && d.marker
    ensures Backed(t) <==> Backed(s) && d.backup == Some(s.base)
    ensures forall live {:trigger SameChunks(t, live)} ::
      SameChunks(t, live) <==> SameChunks(s, live) && GetName(d.live, Chunks) == GetName(live, Chunks)
  {
    assert t.disks[|s.disks|] == d;
    assert forall i {:trigger s.disks[i]} :: 0 <= i < |s.disks| ==> t.disks[i] == s.disks[i];
  }

  lemma WriteKeepsWindow(s: State, step: Step)
    requires Inv(s) && Enabled(s, step) && Writes(step)
    ensures WindowOk(After(s, step))
  {
    var t := After(s, step);
    WriteAppends(s, step);
    WindowGrows(s, Now(t), t);
    var last := s.disks[|s.disks| - 1];
    assert last == Now(s);
    assert step.MakeBackup? ==> Bare(s);
  }

  lemma FlushKeepsInv(s: State)
    requires Inv(s) && Enabled(s, FlushData)
    ensures Inv(After(s, FlushData))
  {
    var t := After(s, FlushData);
    forall i | 0 <= i < |t.disks| ensures VersionOk(t, t.disks[i]) {
      assert VersionOk(s, s.disks[i]) && s.disks[i].marker;
    }
  }

  /** A sync leaves the running disk alone. */
  lemma SyncKeepsInv(s: State, step: Step)
    requires Inv(s) && Enabled(s, step) && (step.Sync? || step.SyncRestored?)
    ensures Inv(After(s, step))
  {
    var last := s.disks[|s.disks| - 1];
    assert VersionOk(s, last) && last == Now(s);
    if step.SyncRestored? { AgreeOnAll(last.live, s.base); }
  }

  lemma RecoveryKeepsInv(s: State, step: Step)
    requires Inv(s) && Enabled(s, step) && (step.Crash? || step.Recover?)
    ensures Inv(After(s, step))
  {
    var v := if step.Crash? then step.version else |s.disks| - 1;
    assert VersionOk(s, s.disks[v]);
  }

  /** Beginning a preparation or a restore touches no file. */
  lemma BeginKeepsInv(s: State, step: Step)
    requires Inv(s) && Enabled(s, step) && (step.BeginPrepare? || step.BeginRestore?)
    ensures Inv(After(s, step))
  {
    var t := After(s, step);
    assert forall i {:trigger t.disks[i]} :: 0 <= i < |t.disks| ==> VersionOk(s, s.disks[i]);
  }

  lemma StepKeepsInv(s: State, step: Step)
    requires Inv(s) && Enabled(s, step)
    ensures Inv(After(s, step))
  {
    if step.Sync? || step.SyncRestored? {
      SyncKeepsInv(s, step);
    } else if step.Crash? || step.Recover? {
      RecoveryKeepsInv(s, step);
    } else if step.BeginPrepare? || step.BeginRestore? {
      BeginKeepsInv(s, step);
    } else if step.FlushData? {
      FlushKeepsInv(s);
    } else {
      WriteAppends(s, step);
      WriteKeepsStage(s, step);
      WriteKeepsVersions(s, step);
      WriteKeepsWindow(s, step);
    }
  }

  // ---- whole runs ----

  /** A workspace with this committed tree and nothing else. */
  function Start(tree: Tree): State {
    State([Disk(tree, None, false)], Idle, tree, tree, {GetName(tree, Blobs)})
  }

  ghost predicate Runs(s: State, steps: seq<Step>)
    decreases |steps|
  {
    steps == [] || (Enabled(s, steps[0]) && Runs(After(s, steps[0]), steps[1..]))
  }

  function End(s: State, steps: seq<Step>): State
    requires Runs(s, steps)
    decreases |steps|
  {
    if steps == [] then s else End(After(s, steps[0]), steps[1..])
  }

  lemma {:induction false} RunKeepsInv(s: State, steps: seq<Step>)
    requires Inv(s) && Runs(s, steps)
    ensures Inv(End(s, steps))
    decreases |steps|
  {
    if steps != [] {
      StepKeepsInv(s, steps[0]);
      RunKeepsInv(After(s, steps[0]), steps[1..]);
    }
  }

  /** After any run, wherever a crash strikes, a present marker has a complete backup and recovery can proceed. */
  lemma MarkerImpliesBackup(s: State, steps: seq<Step>, v: nat)
    requires Inv(s) && Runs(s, steps) && v < |End(s, steps).disks|
    ensures var e := End(s, steps);
      && (e.disks[v].marker ==> e.disks[v].backup == Some(e.base))
      && Enabled(After(e, Crash(v)), Recover)
  {
    RunKeepsInv(s, steps);
    assert VersionOk(End(s, steps), End(s, steps).disks[v]);
  }

  /** A step changes the committed tree only by finishing a commit, or by a crash between its two ends. */
  lemma BaseChanges(s: State, step: Step)
    requires Inv(s) && Enabled(s, step)
    ensures After(s, step).base == s.base || (s.stage == Committing && After(s, step).base == s.next)
  {
    if step.Crash? { assert VersionOk(s, s.disks[step.version]); }
  }

  ghost predicate Commits(steps: seq<Step>) {
    exists i :: 0 <= i < |steps| && steps[i] == RemoveMarkerToCommit
  }

  /**
   Until a marker is removed to commit, no run of preparations, mutations, restores, give-ups, crashes and
   recoveries, interrupted anywhere and repeated any number of times, changes the tree the workspace settles on.
   */
  lemma {:induction false} UncommittedLeavesNoTrace(s: State, steps: seq<Step>)
    requires Inv(s) && s.stage != Committing && Runs(s, steps) && !Commits(steps)
    ensures End(s, steps).base == s.base && End(s, steps).stage != Committing
    ensures End(s, steps).stage == Idle ==> Now(End(s, steps)).live == s.base && !Now(End(s, steps)).marker
    decreases |steps|
  {
    RunKeepsInv(s, steps);
    if steps != [] {
      assert steps[0] != RemoveMarkerToCommit;
      StepKeepsInv(s, steps[0]);
      BaseChanges(s, steps[0]);
      assert forall i :: 0 <= i < |steps[1..]| ==> steps[1..][i] == steps[i + 1];
      UncommittedLeavesNoTrace(After(s, steps[0]), steps[1..]);
    }
  }

  /** A crash while committing leaves the tree before or the tree after, and recovery keeps to it. */
  lemma CommitIsAtomic(s: State, v: nat, steps: seq<Step>)
    requires Inv(s) && v < |s.disks| && Runs(After(s, Crash(v)), steps) && !Commits(steps)
    requires End(After(s, Crash(v)), steps).stage == Idle
    ensures var live := Now(End(After(s, Crash(v)), steps)).live;
      && live == Outcome(s.disks[v])
      && (live == s.base || (s.stage == Committing && live == s.next))
  {
    StepKeepsInv(s, Crash(v));
    BaseChanges(s, Crash(v));
    UncommittedLeavesNoTrace(After(s, Crash(v)), steps);
  }

  // ---- a file system that does not keep the order of directory entries ----

  /** The machine as a crash leaves it with this disk. */
  function Rebooted(s: State, d: Disk): State {
    s.(disks := [d], stage := Crashed, adrift := BlobsNow(d))
  }

  /** Some disk a crash may leave has this content under the name; blobs may be older than any root sync. */
  ghost predicate Survives(s: State, n: Name, c: Option<bytes>) {
    || (n == Blobs && c in s.adrift)
    || exists i {:trigger s.disks[i]} :: 0 <= i < |s.disks| && GetName(s.disks[i].live, n) == c
  }

  ghost predicate BackupSurvives(s: State, b: Option<Tree>) {
    exists i {:trigger s.disks[i]} :: 0 <= i < |s.disks| && s.disks[i].backup == b
  }

  ghost predicate MarkerSurvives(s: State, m: bool) {
    exists i {:trigger s.disks[i]} :: 0 <= i < |s.disks| && s.disks[i].marker == m
  }

  /** Each entry of the root may survive at an age of its own. */
  ghost predicate Mixed(s: State, d: Disk) {
    && (forall n {:trigger GetName(d.live, n)} :: Survives(s, n, GetName(d.live, n)))
    && BackupSurvives(s, d.backup) && MarkerSurvives(s, d.marker)
  }

  /** The marker may outlive the backup: it was published, or is being taken back, without a sync in between. */
  predicate Exposed(s: State) {
    Marked(s) && (s.stage == Published || s.stage == Aborting)
  }

  /** While exposed, a crash can leave an intact workspace with a marker and no backup, and recovery refuses it. */
  lemma ExposedDisk(s: State) returns (d: Disk)
    requires Inv(s) && Exposed(s)
    ensures Mixed(s, d) && d.live == s.base && d.marker && d.backup.None?
    ensures !Enabled(Rebooted(s, d), Recover)
  {
    var i :| 0 <= i < |s.disks| && s.disks[i].backup.None?;
    assert VersionOk(s, s.disks[i]);
    d := Disk(s.disks[i].live, None, true);
    assert forall n {:trigger GetName(d.live, n)} :: GetName(s.disks[i].live, n) == GetName(d.live, n);
  }

  /**
   Without ordered directory entries a marker still has its backup, in a reachable state, exactly outside the
   moments between publishing the marker and its sync and between taking it back and that sync.
   */
  lemma MixedMarkerIff(s: State)
    requires Inv(s)
    ensures (forall d {:trigger Mixed(s, d)} :: Mixed(s, d) ==> Guarded(d, s.base)) <==> !Exposed(s)
  {
    if Exposed(s) {
      var d := ExposedDisk(s);
      assert !Guarded(d, s.base);
    } else {
      forall d | Mixed(s, d) ensures Guarded(d, s.base) { UnexposedGuarded(s, d); }
    }
  }

  lemma UnexposedGuarded(s: State, d: Disk)
    requires Inv(s) && !Exposed(s) && Mixed(s, d)
    ensures Guarded(d, s.base)
  {
    var j :| 0 <= j < |s.disks| && s.disks[j].backup == d.backup;
    var k :| 0 <= k < |s.disks| && s.disks[k].marker == d.marker;
    if s.stage == Crashed { assert j == k && VersionOk(s, s.disks[j]); }
  }

  /** A crash that brings this entry back alone undoes nothing, or the whole commit. */
  ghost predicate Harmless(s: State, n: Name, c: Option<bytes>) {
    c == GetName(s.next, n) || s.base == SetName(s.next, n, c)
  }

  ghost predicate HarmlessDisk(s: State, d: Disk) {
    Harmless(s, Manifest, GetName(d.live, Manifest)) && Harmless(s, Blobs, GetName(d.live, Blobs))
  }

  /** The marker goes while an entry may still survive that is neither the new tree's nor makes the old tree. */
  ghost predicate Torn(s: State) {
    && s.stage == Committing
    && (|| (exists i {:trigger s.disks[i]} :: 0 <= i < |s.disks| && !HarmlessDisk(s, s.disks[i]))
        || (exists c {:trigger Harmless(s, Blobs, c)} :: c in s.adrift && !Harmless(s, Blobs, c)))
  }

  /** No commit is under way, a disk may survive without a marker, and so may other blobs than the committed ones. */
  ghost predicate BlobsAdrift(s: State) {
    && s.stage != Committing && MarkerSurvives(s, false)
    && exists c :: c in s.adrift && c != GetName(s.base, Blobs)
  }

  /** The disk recovers to the committed tree, or to the one being committed. */
  ghost predicate Settles(s: State, d: Disk) {
    Outcome(d) == s.base || (s.stage == Committing && Outcome(d) == s.next)
  }

  /** While torn, a crash can leave an unmarked disk with the new pages beside an older manifest or older blobs. */
  lemma TornDisk(s: State) returns (d: Disk)
    requires Inv(s) && Torn(s)
    ensures Mixed(s, d) && !d.marker && !Settles(s, d)
    ensures Enabled(Rebooted(s, d), Recover)
  {
    var n, c := TornEntry(s);
    d := Replaced(s, n, c);
    assert GetName(d.live, n) == c;
  }

  lemma TornEntry(s: State) returns (n: Name, c: Option<bytes>)
    requires Torn(s)
    ensures Survives(s, n, c) && !Harmless(s, n, c)
  {
    if i :| 0 <= i < |s.disks| && !HarmlessDisk(s, s.disks[i]) {
      n := if !Harmless(s, Manifest, GetName(s.disks[i].live, Manifest)) then Manifest else Blobs;
      c := GetName(s.disks[i].live, n);
    } else {
      n := Blobs;
      c :| c in s.adrift && !Harmless(s, Blobs, c);
    }
  }

  /** The running disk with one entry as it may survive. */
  lemma Replaced(s: State, n: Name, c: Option<bytes>) returns (d: Disk)
    requires s.disks != [] && Survives(s, n, c)
    ensures d == Now(s).(live := SetName(Now(s).live, n, c)) && Mixed(s, d)
  {
    var last := s.disks[|s.disks| - 1];
    d := last.(live := SetName(last.live, n, c));
    forall m {:trigger GetName(d.live, m)} ensures Survives(s, m, GetName(d.live, m)) {
      if m == n { assert GetName(d.live, m) == c; } else { assert GetName(d.live, m) == GetName(last.live, m); }
    }
  }

  /** While blobs are adrift, a crash can leave the committed pages and manifest without the committed blobs. */
  lemma AdriftDisk(s: State) returns (d: Disk)
    requires Inv(s) && BlobsAdrift(s)
    ensures Mixed(s, d) && !d.marker && !Settles(s, d)
  {
    var c :| c in s.adrift && c != GetName(s.base, Blobs);
    var i :| 0 <= i < |s.disks| && !s.disks[i].marker;
    assert VersionOk(s, s.disks[i]);
    d := s.disks[i].(live := SetName(s.base, Blobs, c));
    forall m {:trigger GetName(d.live, m)} ensures Survives(s, m, GetName(d.live, m)) {
      if m != Blobs { assert GetName(d.live, m) == GetName(s.disks[i].live, m); }
    }
    assert GetName(d.live, Blobs) == c;
  }

  /** Harmless entries mix only into the tree before or the tree after. */
  lemma HarmlessMix(s: State, live: Tree)
    requires forall n {:trigger GetName(live, n)} :: Harmless(s, n, GetName(live, n))
    ensures live == s.base || live == s.next
  {
    if n :| GetName(live, n) != GetName(s.next, n) {
      assert Harmless(s, n, GetName(live, n));
      forall m | m in NAMES ensures GetName(live, m) == GetName(s.base, m) {
        assert Harmless(s, m, GetName(live, m));
      }
      AgreeOnAll(live, s.base);
    } else {
      AgreeOnAll(live, s.next);
    }
  }

  lemma MixedCommit(s: State, d: Disk)
    requires Inv(s) && s.stage == Committing && !Torn(s) && Mixed(s, d)
    ensures Settles(s, d)
  {
    var j :| 0 <= j < |s.disks| && s.disks[j].backup == d.backup;
    forall n {:trigger GetName(d.live, n)} ensures Harmless(s, n, GetName(d.live, n)) {
      assert Survives(s, n, GetName(d.live, n));
      assert n == Manifest || n == Chunks || n == Blobs;
    }
    HarmlessMix(s, d.live);
  }

  /** Where every disk a crash may leave has the committed tree live, so does every mix of them. */
  lemma MixedBase(s: State, d: Disk)
    requires Mixed(s, d) && forall i {:trigger s.disks[i]} :: 0 <= i < |s.disks| ==> s.disks[i].live == s.base
    requires forall c :: c in s.adrift ==> c == GetName(s.base, Blobs)
    ensures d.live == s.base
  {
    forall n | n in NAMES ensures GetName(d.live, n) == GetName(s.base, n) {
      assert Survives(s, n, GetName(d.live, n));
    }
    AgreeOnAll(d.live, s.base);
  }

  lemma MixedOutside(s: State, d: Disk)
    requires Inv(s) && s.stage != Committing && !Exposed(s) && !BlobsAdrift(s) && Mixed(s, d)
    ensures Settles(s, d)
  {
    UnexposedGuarded(s, d);
    assert forall i {:trigger s.disks[i]} :: 0 <= i < |s.disks| ==> VersionOk(s, s.disks[i]);
    if !d.marker { MixedBase(s, d); }
  }

  /**
   Without ordered directory entries a crash in a reachable state leaves the tree before or the tree after, with a
   complete backup behind every marker, exactly when the marker is not exposed, the commit not torn and no blobs
   adrift.
   */
  lemma MixedAtomicIff(s: State)
    requires Inv(s)
    ensures (forall d {:trigger Mixed(s, d)} :: Mixed(s, d) ==> Guarded(d, s.base) && Settles(s, d))
      <==> !Exposed(s) && !Torn(s) && !BlobsAdrift(s)
  {
    if Exposed(s) {
      var d := ExposedDisk(s);
    } else if Torn(s) {
      var d := TornDisk(s);
    } else if BlobsAdrift(s) {
      var d := AdriftDisk(s);
    } else {
      forall d | Mixed(s, d) ensures Guarded(d, s.base) && Settles(s, d) {
        UnexposedGuarded(s, d);
        if s.stage == Committing { MixedCommit(s, d); } else { MixedOutside(s, d); }
      }
    }
  }

  /** The same, said of every run from an opened workspace. */
  lemma RunMixedAtomicIff(tree: Tree, steps: seq<Step>)
    requires Manifest in tree && Runs(Start(tree), steps)
    ensures var e := End(Start(tree), steps);
      (forall d {:trigger Mixed(e, d)} :: Mixed(e, d) ==> Guarded(d, e.base) && Settles(e, d))
      <==> !Exposed(e) && !Torn(e) && !BlobsAdrift(e)
  {
    RunKeepsInv(Start(tree), steps);
    MixedAtomicIff(End(Start(tree), steps));
  }

  // ---- two runs that show it ----

  lemma {:induction false} RunsTogether(s: State, a: seq<Step>, b: seq<Step>)
    requires Runs(s, a) && Runs(End(s, a), b)
    ensures Runs(s, a + b) && End(s, a + b) == End(End(s, a), b)
    decreases |a|
  {
    if a == [] {
      assert a + b == b;
    } else {
      assert (a + b)[1..] == a[1..] + b;
      RunsTogether(After(s, a[0]), a[1..], b);
    }
  }

  lemma RunOne(s: State, a: seq<Step>, step: Step)
    requires Runs(s, a) && Enabled(End(s, a), step)
    ensures Runs(s, a + [step]) && End(s, a + [step]) == After(End(s, a), step)
  {
    assert [step][1..] == [] && Runs(After(End(s, a), step), []);
    RunsTogether(s, a, [step]);
  }

  const BACKING_UP: seq<Step> := [BeginPrepare, MakeBackup]
  const COPYING: seq<Step> := [CopyName(Manifest), CopyName(Chunks), CopyName(Blobs)]

  lemma BackingUp(tree: Tree)
    requires Manifest in tree
    ensures Runs(Start(tree), BACKING_UP)
    ensures var e := End(Start(tree), BACKING_UP);
      Inv(e) && e.stage == Copying({}) && e.base == tree && e.next == tree
  {
    var s := Start(tree);
    RunOne(s, [], BeginPrepare);
    RunOne(s, [BeginPrepare], MakeBackup);
    assert [BeginPrepare] + [MakeBackup] == BACKING_UP && [] + [BeginPrepare] == [BeginPrepare];
    RunKeepsInv(s, BACKING_UP);
  }

  lemma CopyingAll(s: State)
    requires Inv(s) && s.stage == Copying({})
    ensures Runs(s, COPYING)
    ensures var e := End(s, COPYING); Inv(e) && e.stage == Copying(NAMES) && e.base == s.base && e.next == s.next
  {
    var s1 := After(s, COPYING[0]);
    var s2 := After(s1, COPYING[1]);
    assert Before(3) == NAMES;
    assert COPYING == [COPYING[0]] + ([COPYING[1]] + ([COPYING[2]] + []));
    RunFirst(s2, COPYING[2], []);
    RunFirst(s1, COPYING[1], [COPYING[2]] + []);
    RunFirst(s, COPYING[0], [COPYING[1]] + ([COPYING[2]] + []));
    RunKeepsInv(s, COPYING);
  }

  /** Every first preparation passes through a moment in which the marker alone may survive on an intact workspace. */
  lemma PreparationIsExposed(tree: Tree) returns (run: seq<Step>, d: Disk)
    requires Manifest in tree
    ensures run == BACKING_UP + COPYING + [Publish] && Runs(Start(tree), run)
    ensures var p := End(Start(tree), run);
      && Inv(p) && p.stage == Published && p.base == tree && p.next == tree
      && Mixed(p, d) && d == Disk(tree, None, true) && !Enabled(Rebooted(p, d), Recover)
  {
    var s := Start(tree);
    BackingUp(tree);
    CopyingAll(End(s, BACKING_UP));
    RunsTogether(s, BACKING_UP, COPYING);
    RunOne(s, BACKING_UP + COPYING, Publish);
    run := BACKING_UP + COPYING + [Publish];
    RunKeepsInv(s, run);
    var p := End(s, run);
    assert p.disks[|p.disks| - 1].marker;
    d := ExposedDisk(p);
  }

  /** The moment comes back when a preparation is given up: its marker and its backup go under one sync. */
  lemma GivingUpIsExposed(s: State) returns (d: Disk)
    requires Inv(s) && s.stage == Published
    ensures Enabled(s, GiveUp)
    ensures var g := After(s, GiveUp);
      && Exposed(g) && Mixed(g, d) && d == Disk(s.base, None, true)
      && !Enabled(Rebooted(g, d), Recover)
  {
    var g := After(s, GiveUp);
    StepKeepsInv(s, GiveUp);
    assert g.disks[|s.disks| - 1] == Now(s);
    d := ExposedDisk(g);
  }

  function CommitSteps(base: Tree, pages: bytes, manifest: bytes): seq<Step> {
    [Mutate(base[Chunks := pages]), FlushData, PublishManifest(manifest), RemoveMarkerToCommit]
  }

  lemma RunFirst(s: State, step: Step, rest: seq<Step>)
    requires Enabled(s, step) && Runs(After(s, step), rest)
    ensures Runs(s, [step] + rest) && End(s, [step] + rest) == End(After(s, step), rest)
  {
    assert ([step] + rest)[1..] == rest;
  }

  /** What a crash may leave once the marker is removed to commit. */
  function CommitWindow(base: Tree, pages: bytes, manifest: bytes): seq<Disk> {
    var before := Disk(base[Chunks := pages], Some(base), true);
    var new_ := Disk(before.live[Manifest := manifest], Some(base), true);
    [before, before, new_, new_.(marker := false)]
  }

  lemma CommitRuns(s: State, pages: bytes, manifest: bytes)
    requires s.stage == Active && s.disks == [Disk(s.base, Some(s.base), true)]
    ensures Runs(s, CommitSteps(s.base, pages, manifest))
    ensures var e := End(s, CommitSteps(s.base, pages, manifest));
      && e.disks == CommitWindow(s.base, pages, manifest) && e.stage == Committing
      && e.base == s.base && e.next == s.base[Chunks := pages][Manifest := manifest]
  {
    var steps := CommitSteps(s.base, pages, manifest);
    var before := Disk(s.base[Chunks := pages], Some(s.base), true);
    var s1 := After(s, steps[0]);
    assert s1.disks == [s.disks[0], before];
    SyncedWindow(s1, s.base, pages);
    var s2 := After(s1, steps[1]);
    assert s2.disks == [before, before];
    CommitRunEnds(s2, before, manifest);
    assert steps == [steps[0]] + ([steps[1]] + steps[2..]) && steps[2..] == [steps[2], steps[3]];
    RunFirst(s1, steps[1], steps[2..]);
    RunFirst(s, steps[0], [steps[1]] + steps[2..]);
  }

  lemma CommitRunEnds(s: State, d: Disk, manifest: bytes)
    requires s.stage == Flushed && s.disks == [d, d] && d.marker
    ensures var new_ := d.(live := d.live[Manifest := manifest]);
      var steps := [PublishManifest(manifest), RemoveMarkerToCommit];
      && Runs(s, steps)
      && End(s, steps).disks == [d, d, new_, new_.(marker := false)] && End(s, steps).stage == Committing
      && End(s, steps).base == s.base && End(s, steps).next == new_.live
  {
    var new_ := d.(live := d.live[Manifest := manifest]);
    var s3 := After(s, PublishManifest(manifest));
    assert s3.disks == [d, d, new_];
    assert [PublishManifest(manifest)] + ([RemoveMarkerToCommit] + [])
      == [PublishManifest(manifest), RemoveMarkerToCommit];
    RunFirst(s3, RemoveMarkerToCommit, []);
    RunFirst(s, PublishManifest(manifest), [RemoveMarkerToCommit] + []);
  }

  lemma SyncedWindow(s: State, base: Tree, pages: bytes)
    requires s.disks == [Disk(base, Some(base), true), Disk(base[Chunks := pages], Some(base), true)]
    ensures var d := Disk(base[Chunks := pages], Some(base), true); DataSynced(s.disks, Now(s).live) == [d, d]
  {
    assert base[Chunks := pages][Chunks := pages] == base[Chunks := pages];
  }

  /**
   The manifest's rename and the marker's removal share a sync: committing other pages under another manifest,
   a crash may keep the new pages, the old manifest and no marker, and recovery settles on that third tree.
   */
  lemma CommitIsTorn(s: State, pages: bytes, manifest: bytes) returns (d: Disk)
    requires Inv(s) && s.stage == Active && s.disks == [Disk(s.base, Some(s.base), true)]
    requires GetName(s.base, Chunks) != Some(pages) && s.base[Manifest] != manifest
    ensures d == Disk(s.base[Chunks := pages], Some(s.base), false)
    ensures Runs(s, CommitSteps(s.base, pages, manifest))
    ensures var e := End(s, CommitSteps(s.base, pages, manifest));
      && e.stage == Committing && e.base == s.base && e.next == s.base[Chunks := pages][Manifest := manifest]
      && Mixed(e, d) && Outcome(d) != e.base && Outcome(d) != e.next
      && Enabled(Rebooted(e, d), Recover)
  {
    CommitRuns(s, pages, manifest);
    d := Disk(s.base[Chunks := pages], Some(s.base), false);
    CommitMix(End(s, CommitSteps(s.base, pages, manifest)), pages, manifest, d);
    assert GetName(d.live, Chunks) == Some(pages);
    assert GetName(d.live, Manifest) == Some(s.base[Manifest]);
    assert GetName(s.base[Chunks := pages][Manifest := manifest], Manifest) == Some(manifest);
  }

  lemma CommitMix(e: State, pages: bytes, manifest: bytes, d: Disk)
    requires e.disks == CommitWindow(e.base, pages, manifest)
    requires d == Disk(e.base[Chunks := pages], Some(e.base), false)
    ensures Mixed(e, d)
  {
    assert e.disks[0].live == d.live && e.disks[0].backup == d.backup && e.disks[3].marker == d.marker;
  }

  /** Finishing a commit does not settle its blobs: what the directory held before may come back after the sync. */
  lemma CommittedBlobsMayBeLost(s: State, c: Option<bytes>) returns (d: Disk)
    requires Inv(s) && s.stage == Committing && c in s.adrift && c != GetName(s.next, Blobs)
    ensures Enabled(s, Sync)
    ensures var t := After(s, Sync);
      && t.stage == Idle && t.base == s.next && BlobsAdrift(t)
      && Mixed(t, d) && !d.marker && Outcome(d) == SetName(t.base, Blobs, c) && Outcome(d) != t.base
  {
    var t := After(s, Sync);
    assert !t.disks[0].marker;
    d := Replaced(t, Blobs, c);
    assert GetName(SetName(t.base, Blobs, c), Blobs) == c;
  }

  // ---- the program ----

  const ORDER: seq<Name> := [Manifest, Chunks, Blobs]

  /** The names handled before position i. */
  function Before(i: nat): (r: set<Name>)
    requires i <= 3
    ensures i == 3 ==> r == NAMES
    ensures i < 3 ==> ORDER[i] !in r
  {
    if i == 0 then {} else if i == 1 then {Manifest} else if i == 2 then {Manifest, Chunks} else NAMES
  }

  lemma NextName(i: nat)
    requires i < 3
    ensures Before(i + 1) == Before(i) + {ORDER[i]}
  {}

  /** A workspace directory; any method may stop with an I/O error after any of its file operations. */
  class Workspace {
    var s: State
    const reliable: bool  // no file operation fails

    ghost predicate Valid()
      reads this
    {
      Inv(s)
    }

    constructor (tree: Tree, r: bool)
      requires Manifest in tree
      ensures Valid() && s == Start(tree) && reliable == r
    {
      s, reliable := Start(tree), r;
    }

    /** Whether the next file operation fails. */
    method Fails() returns (b: bool)
      ensures reliable ==> !b
    {
      b := *;
      b := b && !reliable;
    }

    method Take(step: Step)
      requires Valid() && Enabled(s, step)
      modifies this
      ensures Valid() && s == After(old(s), step)
    {
      StepKeepsInv(s, step);
      s := After(s, step);
    }

    /** `copy_tree_synced` of one name into the backup, possibly seen half done by a crash. */
    method CopyOne(i: nat)
      requires Valid() && i < 3 && s.stage == Copying(Before(i)) && Now(s).backup.Some?
      modifies this
      ensures Valid() && s.base == old(s.base) && s.stage == Copying(Before(i + 1)) && Now(s).backup.Some?
    {
      NextName(i);
      var half: bytes := *;
      Take(CopyPart(ORDER[i], half));
      Take(CopyName(ORDER[i]));
    }

    /** `prepare_workspace_transaction`: once it succeeds the backup is the committed tree and the marker is durable. */
    method Prepare() returns (ok: bool)
      requires Valid() && s.stage == Idle
      modifies this
      ensures Valid() && s.base == old(s.base) && s.stage != Committing
      ensures ok ==> s.stage == Active && s.disks == [Disk(s.base, Some(s.base), true)]
      ensures reliable ==> ok
    {
      Take(BeginPrepare);
      if Now(s).backup.Some? {
        var left: Tree := *;
        Take(DropPart(left));
        var fails := Fails();
        if fails { return false; }
        Take(DropBackup);
      }
      Take(MakeBackup);
      for i := 0 to 3
        invariant Valid() && s.base == old(s.base) && s.stage == Copying(Before(i)) && Now(s).backup.Some?
      {
        var fails := Fails();
        if fails { return false; }
        CopyOne(i);
      }
      Take(Publish);
      var fails := Fails();
      if fails { return false; }
      PublishSync();
      ok := true;
    }

    method PublishSync()
      requires Valid() && s.stage == Published
      modifies this
      ensures Valid() && s.base == old(s.base)
      ensures s.stage == Active && s.disks == [Disk(s.base, Some(s.base), true)]
    {
      assert VersionOk(s, s.disks[|s.disks| - 1]);
      Take(Sync);
    }

    /**
     `commit_transaction`: page data is synced, the new manifest renamed in, and the removal of the marker is the
     commit point. A failure before it leaves the transaction open, with `base` still what a crash settles on.
     */
    method Commit(manifest: bytes) returns (r: Result<()>)
      requires Valid() && InTransaction(s.stage)
      modifies this
      ensures Valid()
      ensures r.Ok? ==> s.stage == Idle && s.base == old(Now(s).live)[Manifest := manifest] && Now(s).live == s.base
      ensures r == Err(TransactionOutcomeUnknown) ==>
        s.stage == Committing && s.base == old(s.base) && s.next == old(Now(s).live)[Manifest := manifest]
      ensures r.Err? && r != Err(TransactionOutcomeUnknown) ==>
        r.error == Io && InTransaction(s.stage) && s.base == old(s.base) && Backed(s) && AllMarked(s)
      ensures reliable ==> r.Ok?
    {
      var fails := Fails();
      if fails { return Err(Io); }
      FlushPages();
      fails := Fails();
      if fails { return Err(Io); }
      Take(PublishManifest(manifest));
      fails := Fails();
      if fails { return Err(Io); }
      Take(RemoveMarkerToCommit);
      fails := Fails();
      if fails { return Err(TransactionOutcomeUnknown); }
      Take(Sync);
      r := Ok(());
    }

    /** `flush` up to the sync of the page data. */
    method FlushPages()
      requires Valid() && InTransaction(s.stage)
      modifies this
      ensures Valid() && s.stage == Flushed && s.base == old(s.base) && Now(s).live == old(Now(s).live)
      ensures SameChunks(s, Now(s).live)
    {
      Take(FlushData);
      AgreeOnAll(Now(s).live, old(Now(s).live));
    }

    method RestoreOne(i: nat)
      requires Valid() && i < 3 && s.stage == Restoring(Before(i))
      modifies this
      ensures Valid() && s.base == old(s.base) && s.stage == Restoring(Before(i + 1))
    {
      NextName(i);
      assert VersionOk(s, s.disks[|s.disks| - 1]);
      Take(Clobber(ORDER[i], None));
      var half: bytes := *;
      Take(Clobber(ORDER[i], Some(half)));
      Take(RestoreName(ORDER[i]));
    }

    /** `restore_workspace_transaction`: the backup over the live tree, then the marker, then the backup. */
    method Restore() returns (ok: bool)
      requires Valid() && s.stage == Restoring({})
      modifies this
      ensures Valid() && s.base == old(s.base) && s.stage != Committing
      ensures ok ==> s.stage == Idle && Now(s) == Disk(s.base, None, false)
      ensures reliable ==> ok
    {
      for i := 0 to 3
        invariant Valid() && s.base == old(s.base) && s.stage == Restoring(Before(i))
      {
        var fails := Fails();
        if fails { return false; }
        RestoreOne(i);
      }
      Take(SyncRestored);
      var fails := Fails();
      if fails { return false; }
      Take(RemoveMarkerRestored);
      fails := Fails();
      if fails { return false; }
      Take(Sync);
      ok := DropLeftover();
    }

    method DropLeftover() returns (ok: bool)
      requires Valid() && s.stage == Dropping
      modifies this
      ensures Valid() && s.base == old(s.base) && (s.stage == Dropping || s.stage == Idle)
      ensures ok ==> s.stage == Idle && Now(s) == Disk(s.base, None, false)
      ensures reliable ==> ok
    {
      if Now(s).backup.Some? {
        var left: Tree := *;
        Take(DropPart(left));
        var fails := Fails();
        if fails { return false; }
      }
      Take(DropBackup);
      ok := true;
    }

    /** `recover_workspace_transaction`: never refused, and it settles on the outcome of the crash. */
    method RecoverWorkspace() returns (ok: bool)
      requires Valid() && s.stage == Crashed
      modifies this
      ensures Valid() && s.base == old(Outcome(Now(s))) && s.stage != Committing
      ensures ok ==> s.stage == Idle && Now(s) == Disk(old(Outcome(Now(s))), None, false)
      ensures reliable ==> ok
    {
      assert VersionOk(s, s.disks[|s.disks| - 1]);
      Take(Recover);
      if s.stage == Dropping { ok := DropLeftover(); } else { ok := Restore(); }
    }

    /** Power loss at any moment, back to any disk since the last sync. */
    method LosePower(v: nat)
      requires Valid() && v < |s.disks|
      modifies this
      ensures Valid() && s.stage == Crashed && Now(s) == old(s.disks[v])
      ensures s.base == old(s.base) || (old(s.stage) == Committing && s.base == old(s.next))
    {
      BaseChanges(s, Crash(v));
      Take(Crash(v));
    }
  }
}
