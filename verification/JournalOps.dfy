/**
 The journal as the program runs it: methods that change the disk one step at a time.
 Every method only takes steps the protocol allows, so the run theorems apply at each of them.
 A failed file operation may stop any method after any step.
 */
module JournalOps {
  import opened Core
  import opened ChangeCodec
  import opened JournalProtocol
  import opened JournalBudget
  import opened JournalSafety
  import opened JournalTheorems

  // ---- directory listings ----

  datatype Listing = Listing(head: nat, floor: nat, commits: seq<nat>)

  /** The record of a retained sequence says it led to this manifest. */
  predicate Describes(l: LogDir, q: nat, m: Option<Manifest>)
    requires q in l.commits
  {
    && l.commits[q].change.Some? && l.commits[q].change.value.sequence == q
    && l.commits[q].change.value.manifest == if m.None? then [] else m.value.raw
  }

  /** Nothing says that commits were ever logged here. */
  predicate NeverLogged(m: Option<Manifest>) {
    || m.None? || m.value.meta.formatVersion < FORMAT_VERSION_COMMIT_LOG
    || (m.value.meta.formatVersion >= FORMAT_VERSION_RETRIEVAL && m.value.meta.logged == Some(false))
  }

  /** The older, anchorless form: the newest record must describe the live manifest. */
  method LegacyHead(l: LogDir, m: Option<Manifest>, last: Option<nat>, surviving: nat) returns (r: Result<nat>)
    requires last.Some? ==> last.value in l.commits
    ensures if last.Some? && last.value > l.Floor() then r.Ok? <==> Describes(l, last.value, m)
      else r.Ok? <==> l.Floor() == 0 && NeverLogged(m)
    ensures r == Ok(surviving) || r == Err(Corruption)
  {
    if last.Some? && last.value > l.Floor() {
      var change := l.commits[last.value].change;
      if change.None? { return Err(Corruption); }
      var raw := if m.None? then [] else m.value.raw;
      if change.value.sequence != last.value || change.value.manifest != raw { return Err(Corruption); }
    } else if l.Floor() > 0
      || (m.Some? && m.value.meta.formatVersion >= FORMAT_VERSION_COMMIT_LOG
          && !(m.value.meta.formatVersion >= FORMAT_VERSION_RETRIEVAL && m.value.meta.logged == Some(false))) {
      return Err(Corruption);
    }
    r := Ok(surviving);
  }

  /** The manifest is not too new, and its logging marker fits its anchor and the log. */
  predicate MarkerFits(l: LogDir, m: Manifest) {
    && m.meta.formatVersion <= FORMAT_VERSION
    && (m.meta.formatVersion >= FORMAT_VERSION_RETRIEVAL ==>
          && m.meta.logged == Some(m.meta.anchor.Some?)
          && (m.meta.logged == Some(false) ==> l.Floor() == 0 && forall q :: q in l.commits ==> q == 0))
  }

  /** The log is whole up to this head, and the manifest's anchor or the newest record vouches for it. */
  ghost predicate Admits(l: LogDir, m: Option<Manifest>, head: nat) {
    && HistoryComplete(l, head) && (m.Some? ==> MarkerFits(l, m.value))
    && (if m.Some? && m.value.meta.anchor.Some? then head == m.value.meta.anchor.value
        else if head > l.Floor() then Describes(l, head, m)
        else l.Floor() == 0 && NeverLogged(m))
  }

  /** The walk from the checkpoint: each retained sequence follows the last and has its record. */
  method Contiguous(l: LogDir, commits: seq<nat>, head: nat) returns (ok: bool)
    requires Ascending(commits) && forall q :: q in l.commits <==> q in commits
    requires l.Floor() <= head && forall q :: q in l.commits ==> q <= head
    ensures ok <==>
      && (forall q :: l.Floor() < q <= head ==> q in l.commits)
      && (forall q :: q in l.commits && q > l.Floor() ==> l.commits[q].change.Some?)
  {
    var floor, expected := l.Floor(), l.Floor();
    for i := 0 to |commits|
      invariant floor <= expected <= head
      invariant forall j :: 0 <= j < i ==> commits[j] <= expected
      invariant forall j :: i <= j < |commits| && commits[j] > floor ==> commits[j] > expected
      invariant forall q :: floor < q <= expected ==> q in commits && l.commits[q].change.Some?
    {
      if commits[i] > floor {
        assert commits[i] in commits;
        if expected + 1 != commits[i] {
          assert expected + 1 !in commits;
          return false;
        }
        if l.commits[commits[i]].change.None? { return false; }
        expected := commits[i];
      }
    }
    ok := expected == head;
    if !ok { assert head !in commits; }
  }

  /** The only head a listing can be whole up to. */
  lemma WholeUpTo(l: LogDir, commits: seq<nat>, surviving: nat)
    requires Ascending(commits) && forall q :: q in l.commits <==> q in commits
    requires surviving == if commits != [] && Last(commits) > l.Floor() then Last(commits) else l.Floor()
    ensures forall head: nat :: HistoryComplete(l, head) ==> head == surviving
  {
    forall head: nat | HistoryComplete(l, head) ensures head == surviving {
      if commits != [] { assert Last(commits) in commits; }
      if head > l.Floor() { assert head in commits; }
    }
  }

  /**
   `inventory`: succeeds exactly when a head is admitted, and returns it with the checkpoint and the listing.
   Under an anchored manifest that is when the commits above the checkpoint are the ones up to the anchor.
   */
  method Inventory(l: LogDir, m: Option<Manifest>) returns (r: Result<Listing>)
    ensures r.Ok? ==> Admits(l, m, r.value.head) && r.value.floor == l.Floor()
    ensures r.Ok? ==> Ascending(r.value.commits) && forall q :: q in r.value.commits <==> q in l.commits
    ensures r.Err? ==> forall head: nat :: !Admits(l, m, head)
    ensures r.Err? ==> r.error == if |l.commits| > MAX_COMMIT_DIRS then ResourceLimit else Corruption
    ensures m.Some? && Anchored(m.value) ==>
      (r.Ok? <==> HistoryComplete(l, m.value.meta.anchor.value))
    ensures m.Some? && Anchored(m.value) && r.Ok? ==>
      && r.value.head == m.value.meta.anchor.value && r.value.floor == l.Floor()
      && Ascending(r.value.commits) && forall q :: q in r.value.commits <==> q in l.commits
  {
    if |l.commits| > MAX_COMMIT_DIRS { return Err(ResourceLimit); }
    var commits := SortedKeys(l.commits.Keys);
    assert forall q :: q in l.commits <==> q in commits;
    var floor := l.Floor();
    if m.Some? && m.value.meta.formatVersion > FORMAT_VERSION { return Err(Corruption); }
    var last := if commits == [] then None else Some(Last(commits));
    assert last.Some? ==> last.value in commits;
    var surviving := if last.Some? && last.value > floor then last.value else floor;
    if m.Some? && m.value.meta.formatVersion >= FORMAT_VERSION_RETRIEVAL {
      if m.value.meta.logged != Some(m.value.meta.anchor.Some?)
        || (m.value.meta.logged == Some(false) && surviving != 0) {
        return Err(Corruption);
      }
    }
    WholeUpTo(l, commits, surviving);
    var head;
    if m.Some? && m.value.meta.anchor.Some? {
      head := m.value.meta.anchor.value;
    } else {
      var legacy := LegacyHead(l, m, last, surviving);
      if legacy.Err? { return Err(legacy.error); }
      head := legacy.value;
    }
    if floor > head || surviving > head { return Err(Corruption); }
    var whole := Contiguous(l, commits, head);
    if !whole { return Err(Corruption); }
    r := Ok(Listing(head, floor, commits));
  }

  // ---- the workspace ----

  class Workspace {
    var disk: Disk
    ghost var state: State
    ghost var steps: seq<Step>
    ghost const start: State
    const reliable: bool  // no file operation fails

    /** The disk is what some allowed run from the start has made of it. */
    ghost predicate Valid()
      reads this
    {
      && state.disk == disk && Inv(state)
      && Inv(start) && Runs(start, steps) && End(start, steps) == state
    }

    constructor (d: Disk, ghost s: State, r: bool)
      requires s.disk == d && Fresh(s)
      ensures Valid() && disk == d && state == s && start == s && steps == [] && reliable == r
    {
      FreshInv(s);
      reliable := r;
      disk := d;
      state := s;
      start := s;
      steps := [];
    }

    /** Accounts for one step that has just changed the disk. */
    ghost method Took(step: Step)
      requires Inv(state) && Guard(state, step) && disk == OnDisk(state, step)
      requires Inv(start) && Runs(start, steps) && End(start, steps) == state
      modifies this`state, this`steps
      ensures Valid() && state == After(old(state), step) && steps == old(steps) + [step]
    {
      StepKeepsInv(state, step);
      RunsSnoc(start, steps, step);
      state := After(state, step);
      steps := steps + [step];
    }

    /** The history and the transaction are as before; only the disk moved. */
    twostate predicate Quietly()
      reads this
    {
      && Valid() && old(steps) <= steps
      && state.hist == old(state.hist) && state.open == old(state.open) && state.written == old(state.written)
    }

    /** Power loss at any moment: some version of the log directory survives, with all that it promises. */
    method LosePower(version: nat, after: Disk)
      requires Valid() && Guard(state, Crash(version, after))
      modifies this
      ensures Valid() && disk == after && steps == old(steps) + [Crash(version, after)]
      ensures state.hist == old(state.hist)[..old(state.heads)[version] + 1]
    {
      disk := after;
      Took(Crash(version, after));
    }

    // ---- single file operations, each of which may fail without effect ----

    /** Whether the next file operation fails. */
    method Fails() returns (b: bool)
      ensures reliable ==> !b
    {
      b := *;
      b := b && !reliable;
    }

    method SyncLogDir() returns (ok: bool)
      requires Valid()
      modifies this
      ensures Quietly()
      ensures disk == if ok then old(disk).(logs := [old(disk.Log())]) else old(disk)
      ensures reliable ==> ok
    {
      var fails := Fails();
      if fails { return false; }
      disk := disk.(logs := [disk.Log()]);
      Took(SyncLog);
      ok := true;
    }

    method SyncRootDir() returns (ok: bool)
      requires Valid()
      modifies this
      ensures Quietly()
      ensures disk == if ok then old(disk).(manifests := [old(disk.Live())]) else old(disk)
      ensures reliable ==> ok
    {
      var fails := Fails();
      if fails { return false; }
      disk := disk.(manifests := [disk.Live()]);
      Took(SyncRoot);
      ok := true;
    }

    method SyncPageData() returns (ok: bool)
      requires Valid()
      modifies this
      ensures Quietly()
      ensures disk == if ok then old(disk).(dirty := {}) else old(disk)
      ensures reliable ==> ok
    {
      var fails := Fails();
      if fails { return false; }
      disk := disk.(dirty := {});
      Took(SyncPages);
      ok := true;
    }

    /** Creates, fills or removes the staging and discarded directories. */
    method PutLeftovers(p: Option<TxDir>, q: Option<TxDir>) returns (ok: bool)
      requires Valid() && Settled(disk)
      modifies this
      ensures Quietly() && Settled(disk)
      ensures disk == if ok then PushLog(old(disk), old(disk.Log()).(preparing := p, discarded := q)) else old(disk)
      ensures reliable ==> ok
    {
      var fails := Fails();
      if fails { return false; }
      disk := PushLog(disk, disk.Log().(preparing := p, discarded := q));
      Took(Leftovers(p, q));
      ok := true;
    }

    method RestoreUndoPage(id: nat) returns (ok: bool)
      requires Valid() && disk.Log().active.Some? && id in disk.Log().active.value.undo
      modifies this
      ensures Valid() && old(steps) <= steps && state.hist == old(state.hist)
      ensures disk.logs == old(disk.logs) && disk.manifests == old(disk.manifests)
      ensures ok ==> Holds(disk, id, disk.Log().active.value.undo[id])
      ensures ok ==> forall j, p :: old(Holds(disk, j, p)) && j != id ==> Holds(disk, j, p)
      ensures reliable ==> ok
    {
      var fails := Fails();
      if fails { return false; }
      LiveUndo(state);
      var p := disk.Log().active.value.undo[id];
      disk := PutPage(disk, id, p);
      Took(RestorePage(id));
      ok := SettlePage(id);
    }

    method SettlePage(id: nat) returns (ok: bool)
      requires Valid()
      modifies this
      ensures Valid() && old(steps) <= steps && state.hist == old(state.hist)
      ensures disk == if ok then old(disk).(dirty := old(disk).dirty - {id}) else old(disk)
      ensures reliable ==> ok
    {
      var fails := Fails();
      if fails { return false; }
      disk := disk.(dirty := disk.dirty - {id});
      Took(SyncPage(id));
      ok := true;
    }

    method RestoreBefore() returns (ok: bool)
      requires Valid() && disk.Log().active.Some? && Complete(disk.Log().active.value)
      modifies this
      ensures Valid() && old(steps) <= steps && state.hist == old(state.hist)
      ensures disk == if ok
        then old(disk).(manifests := old(disk).manifests + [old(disk).Log().active.value.before.value])
        else old(disk)
      ensures reliable ==> ok
    {
      var fails := Fails();
      if fails { return false; }
      disk := disk.(manifests := disk.manifests + [disk.Log().active.value.before.value]);
      Took(RestoreManifest);
      ok := true;
    }

    /** The rename to `discarded`, which nothing may occupy. */
    method DiscardActive() returns (ok: bool)
      requires Valid() && disk.Log().active.Some? && Complete(disk.Log().active.value) && disk.Log().discarded.None?
      requires disk.manifests == [disk.Log().active.value.before.value] && Settled(disk)
      modifies this
      ensures Valid() && old(steps) <= steps && state.hist == old(state.hist)
      ensures disk == if ok
        then PushLog(old(disk), old(disk).Log().(active := None, discarded := old(disk).Log().active))
        else old(disk)
      ensures reliable ==> ok
    {
      var fails := Fails();
      if fails { return false; }
      disk := PushLog(disk, disk.Log().(active := None, discarded := disk.Log().active));
      Took(Discard);
      ok := true;
    }

    method StoreCheckpoint(through: nat) returns (ok: bool)
      requires Valid() && Settled(disk) && disk.Log().Floor() <= through < |state.hist|
      modifies this
      ensures Quietly() && Settled(disk)
      ensures disk == if ok then PushLog(old(disk), old(disk.Log()).(checkpoint := Some(through))) else old(disk)
      ensures reliable ==> ok
    {
      var fails := Fails();
      if fails { return false; }
      disk := PushLog(disk, disk.Log().(checkpoint := Some(through)));
      Took(SetCheckpoint(through));
      ok := true;
    }

    /** Removes an expired commit; a crash may leave it behind in any condition. */
    method ExpireCommit(q: nat) returns (ok: bool)
      requires Valid() && Settled(disk) && q in disk.Log().commits
      requires forall i :: 0 <= i < |disk.logs| ==> q <= disk.logs[i].Floor()
      modifies this
      ensures Quietly() && Settled(disk)
      ensures disk == if ok
        then PushLog(old(disk), old(disk.Log()).(commits := old(disk.Log()).commits - {q}))
        else old(disk)
      ensures reliable ==> ok
    {
      var fails := Fails();
      if fails { return false; }
      disk := PushLog(disk, disk.Log().(commits := disk.Log().commits - {q}));
      Took(Expire(q, None));
      ok := true;
    }

    method ActivateStaged() returns (ok: bool)
      requires Valid() && disk.Log().active.None? && Anchored(disk.Live())
      requires HeaderFor(disk.Live()).sequence < U64_END
      requires disk.Log().preparing
        == Some(TxDir(Some(disk.Live()), Some(HeaderFor(disk.Live())), map[], None, {}))
      modifies this
      ensures Valid() && old(steps) <= steps && state.hist == old(state.hist)
      ensures disk == if ok
        then PushLog(old(disk), old(disk.Log()).(active := old(disk.Log()).preparing, preparing := None))
        else old(disk)
      ensures ok ==> state.open && state.written == {}
      ensures reliable ==> ok
    {
      var fails := Fails();
      if fails { return false; }
      disk := PushLog(disk, disk.Log().(active := disk.Log().preparing, preparing := None));
      Took(Activate);
      ok := true;
    }

    method AddUndo(id: nat) returns (ok: bool)
      requires Valid() && state.open && InTx(disk) && id in disk.pages
      requires id < disk.Log().active.value.header.value.pageCount
      requires id in disk.Log().active.value.undo ==> UndoEntry(id) in disk.Log().active.value.loose
      requires |disk.Log().active.value.undo.Keys + {id}| * UNDO_FILE <= HARD_MAX_RECORD
      modifies this
      ensures Quietly()
      ensures var t := old(disk.Log().active.value);
        disk == if ok
          then WithActive(old(disk), t.(undo := t.undo[id := old(disk).pages[id]], loose := t.loose + {UndoEntry(id)}))
          else old(disk)
      ensures reliable ==> ok
    {
      var fails := Fails();
      if fails { return false; }
      var t := disk.Log().active.value;
      disk := WithActive(disk, t.(undo := t.undo[id := disk.pages[id]], loose := t.loose + {UndoEntry(id)}));
      Took(WriteUndo(id));
      ok := true;
    }

    method SyncUndoDir() returns (ok: bool)
      requires Valid() && InTx(disk)
      modifies this
      ensures Quietly()
      ensures var t := old(disk.Log().active.value);
        disk == if ok then WithActive(old(disk), t.(loose := set e | e in t.loose && !e.UndoEntry?)) else old(disk)
      ensures reliable ==> ok
    {
      var fails := Fails();
      if fails { return false; }
      var t := disk.Log().active.value;
      disk := WithActive(disk, t.(loose := set e | e in t.loose && !e.UndoEntry?));
      Took(SyncUndo);
      ok := true;
    }

    method OverwritePage(id: nat, page: Page) returns (ok: bool)
      requires Valid() && state.open && InTx(disk)
      requires id >= disk.Log().active.value.header.value.pageCount
        || (id in disk.Log().active.value.undo && UndoEntry(id) !in disk.Log().active.value.loose)
      modifies this
      ensures Valid() && old(steps) <= steps && state.hist == old(state.hist) && state.open
      ensures disk == if ok then PutPage(old(disk), id, page) else old(disk)
      ensures state.written == if ok then old(state.written) + {id} else old(state.written)
      ensures reliable ==> ok
    {
      var fails := Fails();
      if fails { return false; }
      disk := PutPage(disk, id, page);
      Took(WritePage(id, page));
      ok := true;
    }

    method StoreManifest(m: Manifest) returns (ok: bool)
      requires Valid() && state.open && InTx(disk) && Anchored(m)
      requires m.meta.pageCount >= disk.Log().active.value.header.value.pageCount
      modifies this
      ensures Quietly()
      ensures disk == if ok then old(disk).(manifests := old(disk).manifests + [m]) else old(disk)
      ensures reliable ==> ok
    {
      var fails := Fails();
      if fails { return false; }
      disk := disk.(manifests := disk.manifests + [m]);
      Took(Publish(m));
      ok := true;
    }

    method AddChange(c: ChangeCommit) returns (ok: bool)
      requires Valid() && state.open && InTx(disk)
      modifies this
      ensures Quietly()
      ensures var t := old(disk.Log().active.value);
        disk == if ok then WithActive(old(disk), t.(change := Some(c), loose := t.loose + {ChangeEntry})) else old(disk)
      ensures reliable ==> ok
    {
      var fails := Fails();
      if fails { return false; }
      var t := disk.Log().active.value;
      disk := WithActive(disk, t.(change := Some(c), loose := t.loose + {ChangeEntry}));
      Took(WriteChange(c));
      ok := true;
    }

    method SyncActiveDir() returns (ok: bool)
      requires Valid() && InTx(disk)
      modifies this
      ensures Quietly()
      ensures var t := old(disk.Log().active.value);
        disk == if ok then WithActive(old(disk), t.(loose := set e | e in t.loose && e.UndoEntry?)) else old(disk)
      ensures reliable ==> ok
    {
      var fails := Fails();
      if fails { return false; }
      var t := disk.Log().active.value;
      disk := WithActive(disk, t.(loose := set e | e in t.loose && e.UndoEntry?));
      Took(SyncActive);
      ok := true;
    }

    /** The commit point. */
    method RenameActive() returns (ok: bool)
      requires Valid() && state.open && InTx(disk) && disk.dirty == {} && |disk.manifests| == 1
      requires ChangeEntry !in disk.Log().active.value.loose && disk.Log().active.value.change.Some?
      requires Anchored(disk.Live())
      requires disk.Live().meta.anchor == Some(disk.Log().active.value.header.value.sequence)
      requires disk.Live().meta.pageCount >= disk.Log().active.value.header.value.pageCount
      requires RecordsCommit(disk.Log().active.value.change.value, disk.Log().active.value.header.value,
                             disk.Live(), disk.pages, state.written)
      requires |disk.Log().commits| < MAX_COMMIT_DIRS
      modifies this
      ensures Valid() && old(steps) <= steps
      ensures state.hist == if ok then old(state.hist) + [LiveImage(old(disk))] else old(state.hist)
      ensures var l := old(disk.Log());
        disk == if ok
          then PushLog(old(disk), l.(active := None,
                 commits := l.commits[l.active.value.header.value.sequence := l.active.value]))
          else old(disk)
      ensures !ok ==> Quietly()
      ensures reliable ==> ok
    {
      var fails := Fails();
      if fails { return false; }
      var l := disk.Log();
      var q := l.active.value.header.value.sequence;
      disk := PushLog(disk, l.(active := None, commits := l.commits[q := l.active.value]));
      Took(CommitRename);
      ok := true;
    }

    // ---- inventory, recovery and pruning ----

    method ListHistory() returns (r: Listing)
      requires Valid()
      ensures r.head == |state.hist| - 1 && r.floor == disk.Log().Floor()
      ensures Ascending(r.commits) && forall q :: q in r.commits <==> q in disk.Log().commits
    {
      HistoryIsAnchored(state);
      var result := Inventory(disk.Log(), Some(Reference(disk)));
      r := result.value;
    }

    /** `cleanup_inactive`: neither name can hold a commit or the active undo image. */
    method CleanupInactive() returns (ok: bool)
      requires Valid() && Settled(disk)
      modifies this
      ensures Quietly() && Settled(disk)
      ensures disk.pages == old(disk.pages) && disk.dirty == old(disk.dirty) && disk.manifests == old(disk.manifests)
      ensures ok ==> disk.Log() == old(disk.Log()).(preparing := None, discarded := None)
      ensures disk.Log().active == old(disk.Log().active)
      ensures reliable ==> ok
    {
      if disk.Log().preparing.Some? {
        ok := PutLeftovers(None, disk.Log().discarded);
        if !ok { return; }
      }
      if disk.Log().discarded.Some? {
        ok := PutLeftovers(None, None);
        if !ok { return; }
      }
      ok := true;
    }

    /** The restore loop: afterwards every undo image is back in its page. */
    method RestorePages(ids: seq<nat>) returns (ok: bool)
      requires Valid() && disk.Log().active.Some?
      requires forall id :: id in ids <==> id in disk.Log().active.value.undo
      modifies this
      ensures Valid() && old(steps) <= steps && state.hist == old(state.hist)
      ensures disk.logs == old(disk.logs) && disk.manifests == old(disk.manifests)
      ensures ok ==> Settled(disk)
      ensures reliable ==> ok
    {
      for i := 0 to |ids|
        invariant Valid() && old(steps) <= steps && state.hist == old(state.hist)
        invariant disk.logs == old(disk.logs) && disk.manifests == old(disk.manifests)
        invariant forall j :: 0 <= j < i ==> Holds(disk, ids[j], disk.Log().active.value.undo[ids[j]])
      {
        assert ids[i] in ids;
        ok := RestoreUndoPage(ids[i]);
        if !ok { return; }
      }
      ok := true;
    }

    /**
     `recover`: idempotent undo. Apart from failed file operations it never fails, and when it
     returns the disk holds exactly the last committed database with no leftovers.
     */
    method Recover() returns (r: Result<()>)
      requires Valid()
      modifies this
      ensures Valid() && old(steps) <= steps && state.hist == old(state.hist)
      ensures r.Ok? || r.error == Io
      ensures r.Ok? ==> LiveImage(disk) == Last(state.hist)
      ensures r.Ok? ==> disk.Log().active.None? && disk.Log().preparing.None? && disk.Log().discarded.None?
      ensures reliable ==> r.Ok?
    {
      var listing := ListHistory();
      if disk.Log().active.Some? {
        var undone := UndoActive(listing.head);
        if undone.Err? { return undone; }
      }
      var ok := CleanupInactive();
      if !ok { return Err(Io); }
      QuiescentDiskIsLastCommit(state);
      r := Ok(());
    }

    /** What recovery checks of the active directory before it changes anything. */
    method CheckActive(t: TxDir, head: nat, ids: seq<nat>) returns (r: Result<()>)
      requires Ascending(ids) && forall id :: id in ids <==> id in t.undo
      requires |t.undo| * UNDO_FILE <= HARD_MAX_RECORD
      ensures r.Ok? <==>
        && t.header.Some? && t.before.Some? && t.before.value.meta.clock == t.header.value.beforeTx
        && t.before.value.meta.pageCount == t.header.value.pageCount && head + 1 == t.header.value.sequence
        && forall id :: id in t.undo ==> id < t.header.value.pageCount
    {
      if t.header.None? || t.before.None? { return Err(Corruption); }
      var header, before := t.header.value, t.before.value;
      if before.meta.clock != header.beforeTx || before.meta.pageCount != header.pageCount {
        return Err(Corruption);
      }
      if head + 1 != header.sequence { return Err(Corruption); }
      var valid := ValidUndo(t, ids, header.pageCount);
      r := if valid then Ok(()) else Err(Corruption);
    }

    method UndoActive(head: nat) returns (r: Result<()>)
      requires Valid() && head == |state.hist| - 1 && disk.Log().active.Some?
      modifies this
      ensures Valid() && old(steps) <= steps && state.hist == old(state.hist)
      ensures r.Ok? || r.error == Io
      ensures r.Ok? ==> disk.Log().active.None?
      ensures reliable ==> r.Ok?
    {
      var t := disk.Log().active.value;
      LiveUndo(state);
      assert ImageOk(state.hist[|state.hist| - 1], |state.hist| - 1);
      var ids := SortedKeys(t.undo.Keys);
      r := CheckActive(t, head, ids);
      if r.Ok? {
        var ok := RestorePages(ids);
        r := if ok then Ok(()) else Err(Io);
      }
      if r.Ok? {
        r := ReplaceActive();
      }
    }

    /** Republishes the before-image, then takes the journal out of the way by one rename. */
    method ReplaceActive() returns (r: Result<()>)
      requires Valid() && disk.Log().active.Some? && Complete(disk.Log().active.value) && Settled(disk)
      modifies this
      ensures Valid() && old(steps) <= steps && state.hist == old(state.hist)
      ensures r.Ok? || r.error == Io
      ensures r.Ok? ==> disk.Log().active.None?
      ensures reliable ==> r.Ok?
    {
      var ok := RestoreBefore();
      if !ok { return Err(Io); }
      ok := SyncRootDir();
      if !ok { return Err(Io); }
      if disk.Log().discarded.Some? {
        ok := PutLeftovers(disk.Log().preparing, None);
        if !ok { return Err(Io); }
      }
      ok := DiscardActive();
      if !ok { return Err(Io); }
      ok := SyncLogDir();
      r := if ok then Ok(()) else Err(Io);
    }

    /** The first pass over the undo directory, before any live page is touched. */
    method ValidUndo(t: TxDir, ids: seq<nat>, pageCount: nat) returns (ok: bool)
      requires Ascending(ids) && forall id :: id in ids <==> id in t.undo
      requires |t.undo| * UNDO_FILE <= HARD_MAX_RECORD
      ensures ok <==> forall id :: id in t.undo ==> id < pageCount
    {
      KeysCounted(ids, t.undo.Keys);
      for i := 0 to |ids|
        invariant forall j :: 0 <= j < i ==> ids[j] < pageCount
      {
        if ids[i] >= pageCount {
          assert ids[i] in ids;
          return false;
        }
        SmallerMul(i + 1, |ids|);
        if (i + 1) * UNDO_FILE > HARD_MAX_RECORD { return false; }
      }
      ok := true;
    }

    /** `prune`: the checkpoint is durable before the first expired commit goes. */
    method Prune(through: nat) returns (r: Result<()>)
      requires Valid() && Settled(disk)
      modifies this
      ensures Quietly()
      ensures r.Err? ==> r.error == Io || (r.error == Transaction && through >= |state.hist|)
      ensures through < old(disk.Log().Floor()) ==> r.Ok? && disk == old(disk)
      ensures through >= |state.hist| ==> r == Err(Transaction) && disk == old(disk)
      ensures reliable && through < |state.hist| ==> r.Ok?
      ensures r.Ok? && through >= old(disk.Log().Floor()) ==>
        && disk.Log().Floor() == through && through < |state.hist|
        && forall q :: q in disk.Log().commits <==> q in old(disk.Log().commits) && q > through
    {
      var listing := ListHistory();
      LiveLog(state);
      if through < listing.floor { return Ok(()); }
      if through > listing.head { return Err(Transaction); }
      var ok := StoreCheckpoint(through);
      if !ok { return Err(Io); }
      ok := SyncLogDir();
      if !ok { return Err(Io); }
      ok := RemoveExpired(listing.commits, through);
      if !ok { return Err(Io); }
      ok := SyncLogDir();
      r := if ok then Ok(()) else Err(Io);
    }

    method RemoveExpired(commits: seq<nat>, through: nat) returns (ok: bool)
      requires Valid() && Settled(disk) && |disk.logs| == 1 && disk.Log().checkpoint == Some(through)
      requires Ascending(commits) && forall q :: q in commits <==> q in disk.Log().commits
      modifies this
      ensures Quietly() && Settled(disk) && disk.Log().checkpoint == Some(through)
      ensures ok ==> forall q :: q in disk.Log().commits <==> q in old(disk.Log().commits) && q > through
      ensures reliable ==> ok
    {
      ghost var before, gone := disk.Log().commits, {};
      for i := 0 to |commits|
        invariant Quietly() && Settled(disk)
        invariant forall j :: 0 <= j < |disk.logs| ==> disk.logs[j].checkpoint == Some(through)
        invariant disk.Log().commits == before - gone && forall q :: q in gone ==> q <= through
        invariant forall j :: 0 <= j < i && commits[j] <= through ==> commits[j] in gone
        invariant forall j :: i <= j < |commits| ==> commits[j] !in gone
      {
        if commits[i] <= through {
          assert commits[i] in commits;
          ok := ExpireCommit(commits[i]);
          if !ok { return; }
          gone := gone + {commits[i]};
        }
      }
      ok := true;
    }

    /**
     `changes`: the retained records after a cursor, in order and without gaps, or an error for a
     cursor that is pruned or beyond the head, or for a batch that is too large.
     */
    method Changes(after: nat, limit: nat) returns (r: Result<seq<ChangeCommit>>)
      requires Valid()
      ensures after >= |state.hist| ==> r == Err(Transaction)
      ensures after < |state.hist| && limit == 0 ==> r == Ok([])
      ensures after < |state.hist| && limit > 4096 ==> r == Err(ResourceLimit)
      ensures after < |state.hist| && 0 < limit <= 4096 && after < disk.Log().Floor() ==> r == Err(Transaction)
      ensures r.Err? ==> r.error == Transaction || r.error == ResourceLimit
      ensures r.Ok? && limit > 0 ==>
        && after >= disk.Log().Floor() && Retained(disk.Log(), after, r.value)
        && |r.value| == Wanted(|state.hist| - 1, after, limit)
      ensures disk.Log().Floor() <= after < |state.hist| && 0 < limit <= 4096 ==>
        && (r.Ok? <==> StoredBytes(disk.Log(), after, Wanted(|state.hist| - 1, after, limit)) <= 256 * 1024 * 1024)
        && (r.Err? ==> r.error == ResourceLimit)
    {
      var listing := ListHistory();
      if after > listing.head { return Err(Transaction); }
      if limit == 0 { return Ok([]); }
      if limit > 4096 { return Err(ResourceLimit); }
      if after < listing.floor { return Err(Transaction); }
      RetainedRecords(state);
      r := ReadRecords(disk.Log(), listing.commits, after, limit, listing.head);
    }
  }

  /**
   Power loss at any moment and the recovery of the next open: it fails only on I/O, and when it
   returns the disk is exactly the newest committed database that the surviving log directory names.
   */
  method PowerCycle(ws: Workspace, version: nat, after: Disk) returns (r: Result<()>)
    requires ws.Valid() && Guard(ws.state, Crash(version, after))
    modifies ws
    ensures ws.Valid() && (r.Ok? || r.error == Io)
    ensures old(ws.state.heads)[version] < |old(ws.state.hist)|
    ensures ws.state.hist == old(ws.state.hist)[..old(ws.state.heads)[version] + 1]
    ensures r.Ok? ==> LiveImage(ws.disk) == old(ws.state.hist)[old(ws.state.heads)[version]]
    ensures ws.reliable ==> r.Ok?
  {
    ws.LosePower(version, after);
    r := ws.Recover();
  }

  /** A consumer's step: fetch what follows its cursor and apply it, record by record. */
  method CatchUp(ws: Workspace, base: Replica, after: nat, limit: nat)
    returns (r: Result<(Replica, seq<ChangeCommit>)>)
    requires ws.Valid() && limit > 0 && after < |ws.state.hist| && Follows(base, ws.state.hist[after])
    ensures r.Ok? ==>
      var (replica, cs) := r.value;
      && |cs| == Wanted(|ws.state.hist| - 1, after, limit) && after + |cs| < |ws.state.hist|
      && CaughtUp(base, cs, replica, ws.state.hist[after + |cs|])
    ensures r.Ok? <==>
      && limit <= 4096 && ws.disk.Log().Floor() <= after
      && StoredBytes(ws.disk.Log(), after, Wanted(|ws.state.hist| - 1, after, limit)) <= 256 * 1024 * 1024
  {
    var fetched := ws.Changes(after, limit);
    if fetched.Err? { return Err(fetched.error); }
    var cs, replica := fetched.value, base;
    ReplayOfRetained(ws.state, after, cs, base);
    assert cs[0..] == cs;
    for i := 0 to |cs|
      invariant Replay(replica, cs[i..]) == Replay(base, cs)
    {
      assert cs[i..][0] == cs[i] && cs[i..][1..] == cs[i + 1..];
      replica := ApplyCommit(replica, cs[i]);
    }
    r := Ok((replica, cs));
  }

  /** Every sequence from the checkpoint to the head has its own record. */
  predicate Readable(l: LogDir, head: nat) {
    && (forall q :: q in l.commits ==> q <= head)
    && forall q :: l.Floor() < q <= head ==>
         q in l.commits && l.commits[q].change.Some? && l.commits[q].change.value.sequence == q
  }

  lemma RetainedRecords(s: State)
    requires Inv(s)
    ensures Readable(s.disk.Log(), |s.hist| - 1)
  {
    LiveLog(s);
    var l := s.disk.Log();
    forall q | l.Floor() < q <= |s.hist| - 1
      ensures q in l.commits && l.commits[q].change.Some? && l.commits[q].change.value.sequence == q
    {
      assert CommitOk(s.hist, q, l.commits[q]);
    }
  }

  /** How many records a batch holds: all up to the head, but no more than asked for. */
  function Wanted(head: nat, after: nat, limit: nat): nat
    requires after <= head
  {
    if head - after < limit then head - after else limit
  }

  /** The size of a commit's `change` file: a checksum and the encoded record. */
  function StoredSize(l: LogDir, q: nat): nat {
    if q in l.commits && l.commits[q].change.Some? then 32 + |Encode(l.commits[q].change.value)| else 0
  }

  /** The files of the next n sequences together. */
  function StoredBytes(l: LogDir, after: nat, n: nat): nat {
    if n == 0 then 0 else StoredBytes(l, after, n - 1) + StoredSize(l, after + n)
  }

  lemma {:induction false} MoreIsLarger(l: LogDir, after: nat, m: nat, n: nat)
    requires m <= n
    ensures StoredBytes(l, after, m) <= StoredBytes(l, after, n)
    decreases n
  {
    if m < n { MoreIsLarger(l, after, m, n - 1); }
  }

  lemma ReadableAt(l: LogDir, head: nat, q: nat)
    requires Readable(l, head) && l.Floor() < q <= head
    ensures q in l.commits && l.commits[q].change.Some? && l.commits[q].change.value.sequence == q
  {}

  method ReadRecords(l: LogDir, commits: seq<nat>, after: nat, limit: nat, head: nat)
    returns (r: Result<seq<ChangeCommit>>)
    requires Readable(l, head) && l.Floor() <= after <= head
    requires Ascending(commits) && forall q :: q in commits <==> q in l.commits
    ensures r.Err? ==> r.error == ResourceLimit
    ensures r.Ok? ==> Retained(l, after, r.value) && |r.value| == Wanted(head, after, limit)
    ensures r.Ok? <==> StoredBytes(l, after, Wanted(head, after, limit)) <= 256 * 1024 * 1024
  {
    TailIsContiguous(commits, after, head);
    var out: seq<ChangeCommit>, total: nat, ok: bool := [], 0, true;
    for i := 0 to |commits|
      invariant ReadSoFar(l, commits, after, limit, head, i, out, total)
    {
      ok, out, total := ReadNext(l, commits, after, limit, head, i, out, total);
      if !ok { return Err(ResourceLimit); }
    }
    r := Ok(out);
  }

  /** After i sequences of the listing: the records of those wanted so far, and the size of their files. */
  ghost predicate ReadSoFar(l: LogDir, commits: seq<nat>, after: nat, limit: nat, head: nat, i: nat,
      out: seq<ChangeCommit>, total: nat) {
    && after <= head && head - after <= |commits| && i <= |commits|
    && Retained(l, after, out) && total == StoredBytes(l, after, |out|) <= HARD_MAX_RECORD
    && |out| == TakenOf(|commits| - (head - after), limit, i)
  }

  /** Of the first i sequences, those past the cursor, up to the limit. */
  function TakenOf(first: nat, limit: nat, i: nat): nat {
    if i <= first then 0 else if i - first < limit then i - first else limit
  }

  /** The listing ends with the sequences past the cursor. */
  ghost predicate EndsPast(commits: seq<nat>, after: nat, head: nat) {
    && after <= head && head - after <= |commits|
    && (forall k :: 0 <= k < |commits| - (head - after) ==> commits[k] <= after)
    && (forall k :: |commits| - (head - after) <= k < |commits| ==> commits[k] == head - (|commits| - 1 - k))
  }

  /** Where the listing stands and how many records that makes. */
  lemma NextTaken(commits: seq<nat>, after: nat, limit: nat, head: nat, i: nat, n: nat)
    requires EndsPast(commits, after, head) && i < |commits| && n == TakenOf(|commits| - (head - after), limit, i)
    ensures commits[i] > after && n < limit ==>
      && commits[i] == after + n + 1 <= head && n < Wanted(head, after, limit)
      && n + 1 == TakenOf(|commits| - (head - after), limit, i + 1)
    ensures commits[i] <= after || n >= limit ==> n == TakenOf(|commits| - (head - after), limit, i + 1)
  {}

  /** One sequence of the listing; its file counts before it is read. */
  method ReadNext(l: LogDir, commits: seq<nat>, after: nat, limit: nat, head: nat, i: nat,
      out: seq<ChangeCommit>, total: nat) returns (ok: bool, more: seq<ChangeCommit>, sum: nat)
    requires ReadSoFar(l, commits, after, limit, head, i, out, total) && i < |commits|
    requires Readable(l, head) && l.Floor() <= after && EndsPast(commits, after, head)
    ensures ok ==> ReadSoFar(l, commits, after, limit, head, i + 1, more, sum)
    ensures !ok ==> StoredBytes(l, after, Wanted(head, after, limit)) > HARD_MAX_RECORD
  {
    if commits[i] <= after || |out| >= limit {
      NextTaken(commits, after, limit, head, i, |out|);
      return true, out, total;
    }
    NextIsRead(l, commits, after, limit, head, i, out, total);
    var record := l.commits[commits[i]].change.value;
    sum := total + RecordSize(record);
    more := out + [record];
    ok := sum <= HARD_MAX_RECORD && record.sequence == commits[i] && commits[i] == after + |out| + 1;
  }

  lemma NextIsRead(l: LogDir, commits: seq<nat>, after: nat, limit: nat, head: nat, i: nat,
      out: seq<ChangeCommit>, total: nat)
    requires ReadSoFar(l, commits, after, limit, head, i, out, total) && i < |commits|
    requires Readable(l, head) && l.Floor() <= after && EndsPast(commits, after, head)
    requires commits[i] > after && |out| < limit
    ensures commits[i] in l.commits && l.commits[commits[i]].change.Some?
    ensures var c := l.commits[commits[i]].change.value;
      var sum := total + RecordSize(c);
      && c.sequence == commits[i] == after + |out| + 1
      && (sum <= HARD_MAX_RECORD ==> ReadSoFar(l, commits, after, limit, head, i + 1, out + [c], sum))
      && (sum > HARD_MAX_RECORD ==> StoredBytes(l, after, Wanted(head, after, limit)) > HARD_MAX_RECORD)
  {
    NextTaken(commits, after, limit, head, i, |out|);
    ReadableAt(l, head, commits[i]);
    ReadStep(l, commits, after, limit, head, i, out, total, l.commits[commits[i]].change.value);
  }

  lemma ReadStep(l: LogDir, commits: seq<nat>, after: nat, limit: nat, head: nat, i: nat,
      out: seq<ChangeCommit>, total: nat, c: ChangeCommit)
    requires ReadSoFar(l, commits, after, limit, head, i, out, total) && i < |commits|
    requires RetainedAt(l, after + |out| + 1, c) && |out| < Wanted(head, after, limit)
    requires |out| + 1 == TakenOf(|commits| - (head - after), limit, i + 1)
    ensures var sum := total + RecordSize(c);
      && (sum <= HARD_MAX_RECORD ==> ReadSoFar(l, commits, after, limit, head, i + 1, out + [c], sum))
      && (sum > HARD_MAX_RECORD ==> StoredBytes(l, after, Wanted(head, after, limit)) > HARD_MAX_RECORD)
  {
    NextRecord(l, after, out, c, Wanted(head, after, limit));
  }

  /** The next record joins those read, and its file those counted. */
  lemma NextRecord(l: LogDir, after: nat, out: seq<ChangeCommit>, c: ChangeCommit, wanted: nat)
    requires Retained(l, after, out) && RetainedAt(l, after + |out| + 1, c) && |out| < wanted
    ensures Retained(l, after, out + [c]) && |out + [c]| == |out| + 1
    ensures StoredBytes(l, after, |out + [c]|) == StoredBytes(l, after, |out|) + RecordSize(c)
    ensures StoredBytes(l, after, |out + [c]|) <= StoredBytes(l, after, wanted)
  {
    MoreIsLarger(l, after, |out| + 1, wanted);
    RetainedSnoc(l, after, out, c);
  }

  /** A listing that holds every sequence from after+1 to the head ends with exactly those. */
  lemma {:induction false} TailIsContiguous(commits: seq<nat>, after: nat, head: nat)
    requires Ascending(commits) && after <= head && (forall q :: q in commits ==> q <= head)
    requires forall q :: after < q <= head ==> q in commits
    ensures head - after <= |commits|
    ensures forall i :: 0 <= i < |commits| - (head - after) ==> commits[i] <= after
    ensures forall i :: |commits| - (head - after) <= i < |commits| ==>
              commits[i] == head - (|commits| - 1 - i)
    decreases head
  {
    if head > after {
      var n := |commits| - 1;
      assert head in commits;
      assert commits[n] in commits && commits[n] == head;
      var rest := commits[..n];
      forall q | after < q <= head - 1 ensures q in rest {
        assert q in commits;
        var i :| 0 <= i < |commits| && commits[i] == q;
        assert rest[i] == q;
      }
      forall q | q in rest ensures q <= head - 1 {
        var i :| 0 <= i < |rest| && rest[i] == q;
        assert commits[i] < commits[n];
      }
      TailIsContiguous(rest, after, head - 1);
      assert forall i :: 0 <= i < n ==> commits[i] == rest[i];
    } else {
      forall i | 0 <= i < |commits| ensures commits[i] <= after { assert commits[i] in commits; }
    }
  }

  lemma RetainedSnoc(l: LogDir, after: nat, out: seq<ChangeCommit>, c: ChangeCommit)
    requires Retained(l, after, out)
    requires after + |out| + 1 in l.commits && l.commits[after + |out| + 1].change == Some(c)
    ensures Retained(l, after, out + [c])
  {
    var more := out + [c];
    forall k | 0 <= k < |more| ensures RetainedAt(l, after + k + 1, more[k]) {
      if k < |out| { assert RetainedAt(l, after + k + 1, out[k]); }
    }
  }

  lemma {:induction false} KeysCounted(ids: seq<nat>, keys: set<nat>)
    requires Ascending(ids) && forall id :: id in ids <==> id in keys
    ensures |ids| == |keys|
    decreases |ids|
  {
    if ids == [] {
      assert keys == {};
    } else {
      var last := Last(ids);
      assert last in ids;
      var rest := ids[..|ids| - 1];
      assert ids == rest + [last];
      assert last !in rest;
      KeysCounted(rest, keys - {last});
    }
  }
}
