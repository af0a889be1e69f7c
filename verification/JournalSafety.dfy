/** Every step of the journal protocol keeps the recoverability invariant. */
module JournalSafety {
  import opened Core
  import opened ChangeCodec
  import opened JournalProtocol

  // ---- what a version's guarantee depends on ----

  /** Every page that was safe on d is safe, with the same bytes, on e. */
  ghost predicate PagesKept(d: Disk, e: Disk) {
    forall id :: id in d.pages && id !in d.dirty
      ==> id in e.pages && id !in e.dirty && e.pages[id] == d.pages[id]
  }

  ghost predicate NoNewPages(d: Disk, e: Disk, count: nat) {
    forall id :: id in e.pages && id < count ==> id in d.pages
  }

  lemma VersionFrame(s: State, n: State, i: nat, j: nat)
    requires i < |s.heads| == |s.disk.logs| && s.heads[i] < |s.hist|
    requires j < |n.heads| == |n.disk.logs| && n.heads[j] == s.heads[i]
    requires VersionOk(s, i) && n.hist == s.hist && n.disk.logs[j] == s.disk.logs[i]
    requires PagesKept(s.disk, n.disk)
    requires NoNewPages(s.disk, n.disk, s.hist[s.heads[i]].manifest.meta.pageCount)
    requires s.disk.logs[i].active.None? ==>
               forall m :: m in n.disk.manifests ==> m in s.disk.manifests || m == s.hist[s.heads[i]].manifest
    ensures VersionOk(n, j)
  {}

  lemma AllVersionsFrame(s: State, n: State)
    requires Shaped(s) && (forall i {:trigger VersionOk(s, i)} :: 0 <= i < |s.heads| ==> VersionOk(s, i))
    requires n.hist == s.hist && s.heads <= n.heads && s.disk.logs <= n.disk.logs
    requires |n.heads| == |n.disk.logs|
    requires forall i :: 0 <= i < |n.heads| ==> n.heads[i] < |n.hist|
    requires n.disk.pages == s.disk.pages && n.disk.dirty <= s.disk.dirty
    requires forall m :: m in n.disk.manifests ==> m in s.disk.manifests || m == Last(s.hist).manifest
    ensures forall i {:trigger VersionOk(n, i)} :: 0 <= i < |s.heads| ==> VersionOk(n, i)
  {
    forall i | 0 <= i < |s.heads| ensures VersionOk(n, i) {
      assert VersionOk(s, i) && n.heads[i] == s.heads[i] && n.disk.logs[i] == s.disk.logs[i];
      VersionFrame(s, n, i, i);
    }
  }

  lemma UndoFrame(d: Disk, e: Disk, img: Image, t: TxDir)
    requires UndoOk(d, img, t) && PagesKept(d, e)
    ensures UndoOk(e, img, t)
  {}

  lemma QuietFrame(d: Disk, e: Disk, img: Image)
    requires QuietOk(d, img) && PagesKept(d, e)
    requires forall m :: m in e.manifests ==> m in d.manifests
    ensures QuietOk(e, img)
  {}

  lemma SameLog(hist: seq<Image>, l: LogDir, k: LogDir, head: nat)
    requires head < |hist| && LogOk(hist, l, head)
    requires k.commits == l.commits && k.checkpoint == l.checkpoint
    ensures LogOk(hist, k, head)
  {}

  /** A version assembled from its parts. */
  lemma VersionFromParts(n: State, i: nat, l: LogDir, img: Image)
    requires i < |n.heads| == |n.disk.logs| && n.heads[i] < |n.hist|
    requires n.disk.logs[i] == l && n.hist[n.heads[i]] == img
    requires LogOk(n.hist, l, n.heads[i])
    requires forall id :: id in n.disk.pages && id < img.manifest.meta.pageCount ==> id in img.pages
    requires l.active.None? ==> QuietOk(n.disk, img) && n.heads[i] == |n.hist| - 1
    requires l.active.Some? ==> UndoOk(n.disk, img, l.active.value)
    ensures VersionOk(n, i)
  {}

  /** What the invariant says of the log version a process sees. */
  lemma LiveUndo(s: State)
    requires Inv(s) && s.disk.Log().active.Some?
    ensures UndoOk(s.disk, Last(s.hist), s.disk.Log().active.value)
  {
    assert VersionOk(s, |s.heads| - 1);
  }

  lemma LiveQuiet(s: State)
    requires Inv(s) && s.disk.Log().active.None?
    ensures QuietOk(s.disk, Last(s.hist))
  {
    assert VersionOk(s, |s.heads| - 1);
  }

  lemma LiveLog(s: State)
    requires Inv(s)
    ensures LogOk(s.hist, s.disk.Log(), |s.hist| - 1)
  {
    assert VersionOk(s, |s.heads| - 1);
  }

  lemma LivePages(s: State)
    requires Inv(s)
    ensures forall id :: id in s.disk.pages && id < Last(s.hist).manifest.meta.pageCount
              ==> id in Last(s.hist).pages
  {
    assert VersionOk(s, |s.heads| - 1);
  }

  lemma InvFromVersions(n: State, last: nat)
    requires Shaped(n) && HistOk(n.hist) && OpenOk(n) && |n.heads| == last + 1
    requires last > 0 ==> Settled(n.disk)
    requires forall i {:trigger VersionOk(n, i)} :: 0 <= i < last ==> VersionOk(n, i)
    requires VersionOk(n, last)
    ensures Inv(n)
  {}

  // ---- syncs ----

  lemma SyncPagesKeeps(s: State)
    requires Inv(s)
    ensures Inv(After(s, SyncPages))
  {
    AllVersionsFrame(s, After(s, SyncPages));
  }

  lemma SyncPageKeeps(s: State, id: nat)
    requires Inv(s)
    ensures Inv(After(s, SyncPage(id)))
  {
    AllVersionsFrame(s, After(s, SyncPage(id)));
  }

  lemma SyncRootKeeps(s: State)
    requires Inv(s)
    ensures Inv(After(s, SyncRoot))
  {
    AllVersionsFrame(s, After(s, SyncRoot));
  }

  lemma SyncLogKeeps(s: State)
    requires Inv(s)
    ensures Inv(After(s, SyncLog))
  {
    var n := After(s, SyncLog);
    LiveLog(s);
    LivePages(s);
    if s.disk.Log().active.Some? {
      LiveUndo(s);
      UndoFrame(s.disk, n.disk, Last(s.hist), s.disk.Log().active.value);
    } else {
      LiveQuiet(s);
    }
    VersionFromParts(n, 0, s.disk.Log(), Last(s.hist));
    InvFromVersions(n, 0);
  }

  // ---- the active directory ----

  /** Replacing the active directory of the only log version by one that is as good. */
  lemma ActiveFrame(s: State, n: State, u: TxDir)
    requires Inv(s) && InTx(s.disk)
    requires n == s.(disk := WithActive(s.disk, u))
    requires UndoOk(s.disk, Last(s.hist), u)
    ensures Inv(n)
  {
    LiveLog(s);
    LivePages(s);
    SameLog(s.hist, s.disk.Log(), n.disk.Log(), |s.hist| - 1);
    UndoFrame(s.disk, n.disk, Last(s.hist), u);
    VersionFromParts(n, 0, n.disk.Log(), Last(s.hist));
    InvFromVersions(n, 0);
  }

  lemma UndoAdded(d: Disk, img: Image, t: TxDir, u: TxDir, id: nat)
    requires UndoOk(d, img, t) && id in d.pages && id in img.pages
    requires id in t.undo ==> UndoEntry(id) in t.loose
    requires |t.undo.Keys + {id}| * UNDO_FILE <= HARD_MAX_RECORD
    requires u == t.(undo := t.undo[id := d.pages[id]], loose := t.loose + {UndoEntry(id)})
    ensures UndoOk(d, img, u)
  {
    assert Holds(d, id, img.pages[id]);
    assert u.undo.Keys == t.undo.Keys + {id};
  }

  lemma WriteUndoKeeps(s: State, id: nat)
    requires Inv(s) && Guard(s, WriteUndo(id))
    ensures Inv(After(s, WriteUndo(id)))
  {
    LiveUndo(s);
    LivePages(s);
    var t := s.disk.Log().active.value;
    var u := t.(undo := t.undo[id := s.disk.pages[id]], loose := t.loose + {UndoEntry(id)});
    UndoAdded(s.disk, Last(s.hist), t, u, id);
    ActiveFrame(s, After(s, WriteUndo(id)), u);
  }

  lemma SyncUndoKeeps(s: State)
    requires Inv(s) && Guard(s, SyncUndo)
    ensures Inv(After(s, SyncUndo))
  {
    LiveUndo(s);
    var t := s.disk.Log().active.value;
    ActiveFrame(s, After(s, SyncUndo), t.(loose := set e | e in t.loose && !e.UndoEntry?));
  }

  lemma WriteChangeKeeps(s: State, c: ChangeCommit)
    requires Inv(s) && Guard(s, WriteChange(c))
    ensures Inv(After(s, WriteChange(c)))
  {
    LiveUndo(s);
    var t := s.disk.Log().active.value;
    var u := t.(change := Some(c), loose := t.loose + {ChangeEntry});
    assert UndoOk(s.disk, Last(s.hist), u);
    ActiveFrame(s, After(s, WriteChange(c)), u);
  }

  lemma SyncActiveKeeps(s: State)
    requires Inv(s) && Guard(s, SyncActive)
    ensures Inv(After(s, SyncActive))
  {
    LiveUndo(s);
    var t := s.disk.Log().active.value;
    ActiveFrame(s, After(s, SyncActive), t.(loose := set e | e in t.loose && e.UndoEntry?));
  }

  // ---- pages and manifests ----

  /** The write-ahead rule: a page with a synced undo image may hold anything. */
  lemma UndoCovers(d: Disk, img: Image, t: TxDir, id: nat, p: Page)
    requires UndoOk(d, img, t)
    requires Holds(d, id, p) || id !in img.pages || (id in t.undo && UndoEntry(id) !in t.loose)
    ensures UndoOk(PutPage(d, id, p), img, t)
  {}

  lemma PutPageKeeps(s: State, n: State, id: nat, p: Page)
    requires Inv(s) && InTx(s.disk)
    requires n.disk == PutPage(s.disk, id, p) && n.hist == s.hist && n.heads == s.heads
    requires OpenOk(n)
    requires
      var t := s.disk.Log().active.value;
      || Holds(s.disk, id, p)
      || id >= t.header.value.pageCount
      || (id in t.undo && UndoEntry(id) !in t.loose)
    ensures Inv(n)
  {
    LiveUndo(s);
    LiveLog(s);
    LivePages(s);
    assert ImageOk(s.hist[|s.hist| - 1], |s.hist| - 1);
    UndoCovers(s.disk, Last(s.hist), s.disk.Log().active.value, id, p);
    VersionFromParts(n, 0, s.disk.Log(), Last(s.hist));
    InvFromVersions(n, 0);
  }

  lemma WritePageKeeps(s: State, id: nat, p: Page)
    requires Inv(s) && Guard(s, WritePage(id, p))
    ensures Inv(After(s, WritePage(id, p)))
  {
    PutPageKeeps(s, After(s, WritePage(id, p)), id, p);
  }

  lemma RestorePageKeeps(s: State, id: nat)
    requires Inv(s) && Guard(s, RestorePage(id))
    ensures Inv(After(s, RestorePage(id)))
  {
    var t := s.disk.Log().active.value;
    if Holds(s.disk, id, t.undo[id]) {
      AllVersionsFrame(s, After(s, RestorePage(id)));
    } else {
      PutPageKeeps(s, After(s, RestorePage(id)), id, t.undo[id]);
    }
  }

  lemma PublishKeeps(s: State, m: Manifest)
    requires Inv(s) && Guard(s, Publish(m))
    ensures Inv(After(s, Publish(m)))
  {
    var n := After(s, Publish(m));
    LiveUndo(s);
    LiveLog(s);
    LivePages(s);
    UndoFrame(s.disk, n.disk, Last(s.hist), s.disk.Log().active.value);
    VersionFromParts(n, 0, s.disk.Log(), Last(s.hist));
    InvFromVersions(n, 0);
  }

  lemma RestoreManifestKeeps(s: State)
    requires Inv(s) && Guard(s, RestoreManifest)
    ensures Inv(After(s, RestoreManifest))
  {
    LiveUndo(s);
    AllVersionsFrame(s, After(s, RestoreManifest));
  }

  // ---- renames in the log directory ----

  lemma SmallerMap<K, V>(a: map<K, V>, b: map<K, V>)
    requires a.Keys <= b.Keys
    ensures |a| <= |b|
  {
    SubsetCard(a.Keys, b.Keys);
  }

  /** Pushing a log version that is good by itself. */
  lemma PushKeeps(s: State, n: State, l: LogDir)
    requires Inv(s)
    requires n.disk == PushLog(s.disk, l) && n.hist == s.hist && n.heads == s.heads + [Last(s.heads)]
    requires OpenOk(n) && Settled(n.disk)
    requires LogOk(s.hist, l, |s.hist| - 1)
    requires l.active.None? ==> QuietOk(s.disk, Last(s.hist))
    requires l.active.Some? ==> UndoOk(s.disk, Last(s.hist), l.active.value)
    ensures Inv(n)
  {
    var last := |s.heads|;
    AllVersionsFrame(s, n);
    LivePages(s);
    if l.active.Some? {
      UndoFrame(s.disk, n.disk, Last(s.hist), l.active.value);
    } else {
      QuietFrame(s.disk, n.disk, Last(s.hist));
    }
    VersionFromParts(n, last, l, Last(s.hist));
    InvFromVersions(n, last);
  }

  /** Pushing a version that differs only in names the invariant does not speak of. */
  lemma PushSameActive(s: State, n: State, l: LogDir)
    requires Inv(s) && Settled(s.disk) && l.active == s.disk.Log().active && LogOk(s.hist, l, |s.hist| - 1)
    requires n == s.(disk := PushLog(s.disk, l), heads := s.heads + [Last(s.heads)])
    ensures Inv(n)
  {
    if l.active.Some? { LiveUndo(s); } else { LiveQuiet(s); }
    PushKeeps(s, n, l);
  }

  lemma LeftoversKeep(s: State, p: Option<TxDir>, q: Option<TxDir>)
    requires Inv(s) && Settled(s.disk)
    ensures Inv(After(s, Leftovers(p, q)))
  {
    var l := s.disk.Log().(preparing := p, discarded := q);
    LiveLog(s);
    SameLog(s.hist, s.disk.Log(), l, |s.hist| - 1);
    PushSameActive(s, After(s, Leftovers(p, q)), l);
  }

  lemma ActivateKeeps(s: State)
    requires Inv(s) && Guard(s, Activate)
    ensures Inv(After(s, Activate))
  {
    var l := s.disk.Log().(active := s.disk.Log().preparing, preparing := None);
    LiveLog(s);
    LiveQuiet(s);
    SameLog(s.hist, s.disk.Log(), l, |s.hist| - 1);
    assert s.disk.Live() in s.disk.manifests;
    assert UndoOk(s.disk, Last(s.hist), l.active.value);
    PushKeeps(s, After(s, Activate), l);
  }

  lemma DiscardKeeps(s: State)
    requires Inv(s) && Guard(s, Discard)
    ensures Inv(After(s, Discard))
  {
    var l := s.disk.Log().(active := None, discarded := s.disk.Log().active);
    LiveLog(s);
    LiveUndo(s);
    SameLog(s.hist, s.disk.Log(), l, |s.hist| - 1);
    assert QuietOk(s.disk, Last(s.hist));
    PushKeeps(s, After(s, Discard), l);
  }

  lemma RaisedFloor(hist: seq<Image>, l: LogDir, through: nat, head: nat)
    requires head < |hist| && LogOk(hist, l, head) && l.Floor() <= through <= head
    ensures LogOk(hist, l.(checkpoint := Some(through)), head)
  {}

  lemma SetCheckpointKeeps(s: State, through: nat)
    requires Inv(s) && Guard(s, SetCheckpoint(through))
    ensures Inv(After(s, SetCheckpoint(through)))
  {
    LiveLog(s);
    RaisedFloor(s.hist, s.disk.Log(), through, |s.hist| - 1);
    PushSameActive(s, After(s, SetCheckpoint(through)), s.disk.Log().(checkpoint := Some(through)));
  }

  lemma ExpiredLogOk(hist: seq<Image>, k: LogDir, l: LogDir, q: nat, head: nat)
    requires head < |hist| && LogOk(hist, k, head)
    requires q in k.commits && q <= k.Floor() && l.checkpoint == k.checkpoint
    requires l.commits.Keys <= k.commits.Keys
    requires forall r :: r in k.commits && r != q ==> r in l.commits && l.commits[r] == k.commits[r]
    ensures LogOk(hist, l, head)
  {
    SmallerMap(l.commits, k.commits);
  }

  lemma ExpireKeeps(s: State, q: nat, dir: Option<TxDir>)
    requires Inv(s) && Guard(s, Expire(q, dir))
    ensures Inv(After(s, Expire(q, dir)))
  {
    var k := s.disk.Log();
    assert q <= s.disk.logs[|s.disk.logs| - 1].Floor();
    var l := k.(commits := if dir.None? then k.commits - {q} else k.commits[q := dir.value]);
    LiveLog(s);
    ExpiredLogOk(s.hist, k, l, q, |s.hist| - 1);
    PushSameActive(s, After(s, Expire(q, dir)), l);
  }

  // ---- the commit point ----

  lemma PagesLeadOn(a: map<nat, Page>, pages: map<nat, Page>, count: nat, oldCount: nat,
                    changed: map<nat, bytes>, written: set<nat>)
    requires oldCount <= count && written <= changed.Keys
    requires forall id :: id in a ==> id < oldCount
    requires forall id :: id in written ==> id in pages
    requires forall id :: id in a && id !in written ==> id in pages && pages[id] == a[id]
    requires forall id :: id in changed ==> id in pages && id < count && changed[id] == pages[id]
    ensures PagesLead(a, Counted(pages, count), changed)
  {}

  lemma CommittedImage(s: State)
    requires Inv(s) && Guard(s, CommitRename)
    ensures s.disk.Log().active.value.header.value.sequence == |s.hist|
    ensures RecordLeads(Last(s.hist), LiveImage(s.disk), s.disk.Log().active.value.change.value)
  {
    LiveUndo(s);
    var a, m := Last(s.hist), s.disk.Live();
    assert ImageOk(s.hist[|s.hist| - 1], |s.hist| - 1);
    PagesLeadOn(a.pages, s.disk.pages, m.meta.pageCount, a.manifest.meta.pageCount,
                PageMap(s.disk.Log().active.value.change.value.pages), s.written);
  }

  lemma LogGrows(hist: seq<Image>, img: Image, l: LogDir, head: nat)
    requires head < |hist| && LogOk(hist, l, head)
    ensures LogOk(hist + [img], l, head)
  {
    var more := hist + [img];
    forall q | l.Floor() < q <= head ensures q in l.commits && CommitOk(more, q, l.commits[q]) {
      assert CommitOk(hist, q, l.commits[q]);
      assert more[q] == hist[q] && more[q - 1] == hist[q - 1];
    }
  }

  lemma CommittedLogOk(hist: seq<Image>, img: Image, l: LogDir, t: TxDir)
    requires |hist| > 0 && LogOk(hist, l, |hist| - 1) && |l.commits| < MAX_COMMIT_DIRS
    requires ChangeEntry !in t.loose && t.change.Some? && t.change.value.sequence == |hist|
    requires RecordLeads(Last(hist), img, t.change.value)
    ensures LogOk(hist + [img], l.(active := None, commits := l.commits[|hist| := t]), |hist|)
  {
    var q, more, k := |hist|, hist + [img], l.(active := None, commits := l.commits[|hist| := t]);
    assert CommitOk(more, q, t) by {
      assert more[q - 1] == Last(hist) && more[q] == img;
    }
    LogGrows(hist, img, l, q - 1);
    AddedKey(l.commits, q, t);
    forall r | k.Floor() < r <= q ensures r in k.commits && CommitOk(more, r, k.commits[r]) {
      if r < q { assert r in l.commits && CommitOk(more, r, l.commits[r]); }
    }
  }

  lemma AddedKey<K, V>(m: map<K, V>, k: K, v: V)
    ensures |m[k := v]| <= |m| + 1
  {
    assert m[k := v].Keys == m.Keys + {k};
  }

  /** The log version from before the rename still recovers the old image. */
  lemma BeforeRename(s: State, n: State, img: Image)
    requires Inv(s) && |s.heads| == 1 && s.disk.Log().active.Some?
    requires Shaped(n) && n.hist == s.hist + [img] && |n.heads| == 2 && n.heads[0] == s.heads[0]
    requires n.disk.logs[0] == s.disk.logs[0]
    requires n.disk.pages == s.disk.pages && n.disk.dirty == s.disk.dirty
    ensures VersionOk(n, 0)
  {
    LiveLog(s);
    LiveUndo(s);
    LivePages(s);
    LogGrows(s.hist, img, s.disk.Log(), |s.hist| - 1);
    UndoFrame(s.disk, n.disk, Last(s.hist), s.disk.Log().active.value);
    VersionFromParts(n, 0, s.disk.Log(), Last(s.hist));
  }

  /** The log version after it needs no recovery: manifest and pages are the new image. */
  lemma AfterRename(s: State, n: State, t: TxDir)
    requires Shaped(s) && LogOk(s.hist, s.disk.Log(), |s.hist| - 1)
    requires Shaped(n) && n.hist == s.hist + [LiveImage(s.disk)] && |n.heads| == 2 && n.heads[1] == |s.hist|
    requires s.disk.dirty == {} && |s.disk.manifests| == 1
    requires n.disk.pages == s.disk.pages && n.disk.dirty == {} && n.disk.manifests == s.disk.manifests
    requires var l := s.disk.Log();
      n.disk.logs[1] == l.(active := None, commits := l.commits[|s.hist| := t])
      && |l.commits| < MAX_COMMIT_DIRS && ChangeEntry !in t.loose && t.change.Some?
      && t.change.value.sequence == |s.hist| && RecordLeads(Last(s.hist), LiveImage(s.disk), t.change.value)
    ensures VersionOk(n, 1)
  {
    CommittedLogOk(s.hist, LiveImage(s.disk), s.disk.Log(), t);
    assert QuietOk(n.disk, LiveImage(s.disk));
    VersionFromParts(n, 1, n.disk.logs[1], LiveImage(s.disk));
  }

  lemma HistGrows(s: State)
    requires HistOk(s.hist) && s.disk.Shaped() && Anchored(s.disk.Live())
    requires s.disk.Live().meta.anchor == Some(|s.hist|)
    ensures HistOk(s.hist + [LiveImage(s.disk)])
  {
    var more := s.hist + [LiveImage(s.disk)];
    forall k | 0 <= k < |more| ensures ImageOk(more[k], k) {
      if k < |s.hist| { assert ImageOk(s.hist[k], k); }
    }
  }

  lemma CommitReady(s: State)
    requires Inv(s) && Guard(s, CommitRename)
    ensures |s.heads| == 1 && s.disk.Log().active.Some? && s.disk.Log().active.value.change.Some?
    ensures s.disk.dirty == {} && |s.disk.manifests| == 1 && Anchored(s.disk.Live())
  {}

  lemma CommitSequence(s: State)
    requires Inv(s) && Guard(s, CommitRename)
    ensures s.disk.Live().meta.anchor == Some(|s.hist|)
    ensures s.disk.Log().active.value.change.value.sequence == |s.hist|
    ensures |s.disk.Log().commits| < MAX_COMMIT_DIRS && ChangeEntry !in s.disk.Log().active.value.loose
  {
    LiveUndo(s);
    assert ImageOk(s.hist[|s.hist| - 1], |s.hist| - 1);
  }

  lemma CommitKeeps(s: State)
    requires Inv(s) && Guard(s, CommitRename)
    ensures Inv(After(s, CommitRename))
  {
    CommitReady(s);
    CommitSequence(s);
    CommittedImage(s);
    var l, t := s.disk.Log(), s.disk.Log().active.value;
    CommitInv(s, After(s, CommitRename), l.(active := None, commits := l.commits[|s.hist| := t]), t);
  }

  lemma CommitInv(s: State, n: State, k: LogDir, t: TxDir)
    requires Inv(s) && |s.heads| == 1 && s.disk.Log().active == Some(t) && s.disk.dirty == {}
    requires |s.disk.manifests| == 1 && Anchored(s.disk.Live()) && s.disk.Live().meta.anchor == Some(|s.hist|)
    requires |s.disk.Log().commits| < MAX_COMMIT_DIRS && ChangeEntry !in t.loose && t.change.Some?
    requires t.change.value.sequence == |s.hist|
    requires RecordLeads(Last(s.hist), LiveImage(s.disk), t.change.value)
    requires k == s.disk.Log().(active := None, commits := s.disk.Log().commits[|s.hist| := t])
    requires n == State(PushLog(s.disk, k), s.hist + [LiveImage(s.disk)], s.heads + [|s.hist|], false, {})
    ensures Inv(n)
  {
    HistGrows(s);
    BeforeRename(s, n, LiveImage(s.disk));
    assert VersionOk(n, 1) by {
      LiveLog(s);
      AfterRename(s, n, t);
    }
    InvFromVersions(n, 1);
  }

  // ---- a crash ----

  lemma LogSurvivesOk(hist: seq<Image>, head: nat, v: LogDir, l: LogDir)
    requires head < |hist| && LogOk(hist, v, head) && LogSurvives(v, l)
    ensures LogOk(hist[..head + 1], l, head)
  {
    var kept := hist[..head + 1];
    SmallerMap(l.commits, v.commits);
    forall q | l.Floor() < q <= head ensures q in l.commits && CommitOk(kept, q, l.commits[q]) {
      assert q in v.commits && CommitOk(hist, q, v.commits[q]);
      assert DirSurvives(v.commits[q], l.commits[q]);
      assert kept[q] == hist[q] && kept[q - 1] == hist[q - 1];
    }
  }

  lemma UndoSurvives(d: Disk, e: Disk, img: Image, t: TxDir, u: TxDir)
    requires UndoOk(d, img, t) && DirSurvives(t, u) && PagesKept(d, e)
    ensures UndoOk(e, img, u)
  {
    assert u.undo.Keys <= t.undo.Keys;
    SmallerMap(u.undo, t.undo);
    SmallerMul(|u.undo|, |t.undo|);
  }

  lemma SmallerMul(a: nat, b: nat)
    requires a <= b
    ensures a * UNDO_FILE <= b * UNDO_FILE
  {}

  lemma CrashVersion(d: Disk, hist: seq<Image>, l: LogDir, head: nat, e: Disk, n: State)
    requires head < |hist| && LogOk(hist, l, head)
    requires forall id :: id in d.pages && id < hist[head].manifest.meta.pageCount ==> id in hist[head].pages
    requires l.active.None? ==> QuietOk(d, hist[head])
    requires l.active.Some? ==> UndoOk(d, hist[head], l.active.value)
    requires PagesKept(d, e) && e.pages.Keys <= d.pages.Keys
    requires forall m :: m in e.manifests ==> m in d.manifests
    requires |e.logs| == 1 && LogSurvives(l, e.logs[0])
    requires n.disk == e && n.hist == hist[..head + 1] && n.heads == [head]
    ensures VersionOk(n, 0)
  {
    LogSurvivesOk(hist, head, l, e.logs[0]);
    if l.active.Some? {
      UndoSurvives(d, e, hist[head], l.active.value, e.logs[0].active.value);
    } else {
      QuietFrame(d, e, hist[head]);
    }
    VersionFromParts(n, 0, e.logs[0], hist[head]);
  }

  lemma CrashFacts(d: Disk, version: nat, e: Disk)
    requires version < |d.logs| && DiskSurvives(d, version, e)
    ensures PagesKept(d, e) && e.pages.Keys <= d.pages.Keys && e.Shaped()
    ensures forall m :: m in e.manifests ==> m in d.manifests
    ensures |e.logs| == 1 && LogSurvives(d.logs[version], e.logs[0])
  {}

  lemma HistCut(hist: seq<Image>, head: nat)
    requires HistOk(hist) && head < |hist|
    ensures HistOk(hist[..head + 1])
  {
    var kept := hist[..head + 1];
    forall k | 0 <= k < |kept| ensures ImageOk(kept[k], k) {
      assert ImageOk(hist[k], k);
    }
  }

  lemma CrashKeeps(s: State, version: nat, after: Disk)
    requires Inv(s) && Guard(s, Crash(version, after))
    ensures Inv(After(s, Crash(version, after)))
  {
    var n := After(s, Crash(version, after));
    CrashFacts(s.disk, version, after);
    assert VersionOk(n, 0) by {
      assert VersionOk(s, version);
      CrashVersion(s.disk, s.hist, s.disk.logs[version], s.heads[version], after, n);
    }
    HistCut(s.hist, s.heads[version]);
    InvFromVersions(n, 0);
  }

  /** The invariant is inductive, crashes included. */
  lemma StepKeepsInv(s: State, step: Step)
    requires Inv(s) && Guard(s, step)
    ensures Inv(After(s, step))
  {
    match step
    case WriteUndo(id) => WriteUndoKeeps(s, id);
    case SyncUndo => SyncUndoKeeps(s);
    case WritePage(id, page) => WritePageKeeps(s, id, page);
    case SyncPages => SyncPagesKeeps(s);
    case SyncPage(id) => SyncPageKeeps(s, id);
    case Publish(m) => PublishKeeps(s, m);
    case SyncRoot => SyncRootKeeps(s);
    case WriteChange(c) => WriteChangeKeeps(s, c);
    case SyncActive => SyncActiveKeeps(s);
    case CommitRename => CommitKeeps(s);
    case SyncLog => SyncLogKeeps(s);
    case Leftovers(p, q) => LeftoversKeep(s, p, q);
    case Activate => ActivateKeeps(s);
    case RestorePage(id) => RestorePageKeeps(s, id);
    case RestoreManifest => RestoreManifestKeeps(s);
    case Discard => DiscardKeeps(s);
    case SetCheckpoint(through) => SetCheckpointKeeps(s, through);
    case Expire(q, dir) => ExpireKeeps(s, q, dir);
    case Crash(version, after) => CrashKeeps(s, version, after);
  }
}
