/**
 The page undo journal as a protocol over a crashing disk.

 A step is one write, one rename or one sync. A crash is a step too: it tears any page write that
 was not synced, and it keeps any prefix of the renames made since the directory was last synced.
 */
module JournalProtocol {
  import opened Core
  import opened ChangeCodec

  const HARD_MAX_RECORD: nat := 256 * 1024 * 1024
  const MAX_COMMIT_DIRS: nat := 65536
  const FORMAT_VERSION: nat := 8
  const FORMAT_VERSION_RETRIEVAL: nat := 8
  const FORMAT_VERSION_COMMIT_LOG: nat := 6
  const UNDO_FILE: nat := PAGE_SIZE + 32

  type Page = p: bytes | |p| == PAGE_SIZE witness seq(PAGE_SIZE, _ => 0)

  /** The recovery fields `ManifestMeta` reads out of a manifest. */
  datatype Meta = Meta(
    formatVersion: nat, anchor: Option<nat>, logged: Option<bool>,
    clock: nat, pageCount: nat, hashes: seq<bytes>)

  /** A manifest file together with what is read from it. */
  datatype Manifest = Manifest(raw: bytes, meta: Meta)

  datatype Header = Header(sequence: nat, beforeTx: nat, pageCount: nat)

  datatype Entry = BeforeEntry | HeaderEntry | ChangeEntry | UndoEntry(id: nat)

  /** One transaction directory; `loose` entries are not yet synced into it. */
  datatype TxDir = TxDir(
    before: Option<Manifest>, header: Option<Header>, undo: map<nat, Page>,
    change: Option<ChangeCommit>, loose: set<Entry>)

  /** The names inside `.pv-log`. */
  datatype LogDir = LogDir(
    active: Option<TxDir>, commits: map<nat, TxDir>, checkpoint: Option<nat>,
    preparing: Option<TxDir>, discarded: Option<TxDir>)
  {
    function Floor(): nat {
      if checkpoint.None? then 0 else checkpoint.value
    }
  }

  /**
   `manifests` and `logs` list the versions of the root and log directories since their last sync;
   the last one is what a running process sees. `dirty` pages have unsynced writes.
   */
  datatype Disk = Disk(
    pages: map<nat, Page>, dirty: set<nat>, manifests: seq<Manifest>, logs: seq<LogDir>)
  {
    predicate Shaped() {
      manifests != [] && logs != []
    }

    function Live(): Manifest
      requires Shaped()
    {
      Last(manifests)
    }

    function Log(): LogDir
      requires Shaped()
    {
      Last(logs)
    }
  }

  /** A committed database: its manifest and the pages the manifest counts. */
  datatype Image = Image(manifest: Manifest, pages: map<nat, Page>)

  /** `hist[k]` is the database after commit k; `heads[i]` is the head under log version i. */
  datatype State = State(
    disk: Disk, hist: seq<Image>, heads: seq<nat>, open: bool, written: set<nat>)

  datatype Step =
    | WriteUndo(id: nat)
    | SyncUndo
    | WritePage(id: nat, page: Page)
    | SyncPages
    | SyncPage(id: nat)
    | Publish(manifest: Manifest)
    | SyncRoot
    | WriteChange(change: ChangeCommit)
    | SyncActive
    | CommitRename
    | SyncLog
    | Leftovers(preparing: Option<TxDir>, discarded: Option<TxDir>)
    | Activate
    | RestorePage(id: nat)
    | RestoreManifest
    | Discard
    | SetCheckpoint(through: nat)
    | Expire(sequence: nat, dir: Option<TxDir>)
    | Crash(version: nat, after: Disk)

  // ---- manifests and directories ----

  /** A manifest of a logged workspace that this build can read. */
  predicate Anchored(m: Manifest) {
    && m.meta.anchor.Some? && m.meta.anchor.value < U64_END
    && m.meta.clock < U64_END && m.meta.pageCount < U64_END
    && m.meta.formatVersion <= FORMAT_VERSION
    && (m.meta.formatVersion >= FORMAT_VERSION_RETRIEVAL ==> m.meta.logged == Some(true))
  }

  predicate Complete(t: TxDir) {
    && t.before.Some? && t.header.Some?
    && BeforeEntry !in t.loose && HeaderEntry !in t.loose
  }

  /** The active directory is on stable storage, so pages may be overwritten. */
  predicate InTx(d: Disk) {
    d.Shaped() && |d.logs| == 1 && d.Log().active.Some? && Complete(d.Log().active.value)
  }

  function HeaderFor(m: Manifest): Header
    requires m.meta.anchor.Some?
  {
    Header(m.meta.anchor.value + 1, m.meta.clock, m.meta.pageCount)
  }

  /** The pages a manifest can reach. */
  function Counted(pages: map<nat, Page>, count: nat): map<nat, Page> {
    map id | id in pages && id < count :: pages[id]
  }

  /** A page whose bytes on stable storage are exactly p. */
  predicate Holds(d: Disk, id: nat, p: Page) {
    id in d.pages && id !in d.dirty && d.pages[id] == p
  }

  // ---- what a crash leaves behind ----

  ghost predicate DirSurvives(t: TxDir, u: TxDir) {
    && u.loose == {}
    && (u.before == t.before || (BeforeEntry in t.loose && u.before == None))
    && (u.header == t.header || (HeaderEntry in t.loose && u.header == None))
    && (u.change == t.change || (ChangeEntry in t.loose && u.change == None))
    && (forall id :: id in u.undo ==> id in t.undo && u.undo[id] == t.undo[id])
    && (forall id :: id in t.undo && UndoEntry(id) !in t.loose ==> id in u.undo)
  }

  /** Leftover directories and expired commits may come back in any condition. */
  ghost predicate LogSurvives(v: LogDir, l: LogDir) {
    && l.checkpoint == v.checkpoint
    && (l.active.Some? <==> v.active.Some?)
    && (v.active.Some? ==> DirSurvives(v.active.value, l.active.value))
    && l.commits.Keys <= v.commits.Keys
    && (forall q :: q in v.commits && q > v.Floor()
          ==> q in l.commits && DirSurvives(v.commits[q], l.commits[q]))
  }

  ghost predicate DiskSurvives(d: Disk, version: nat, e: Disk)
    requires version < |d.logs|
  {
    && e.dirty == {}
    && (forall id :: id in d.pages && id !in d.dirty ==> id in e.pages && e.pages[id] == d.pages[id])
    && e.pages.Keys <= d.pages.Keys
    && |e.manifests| == 1 && e.manifests[0] in d.manifests
    && |e.logs| == 1 && LogSurvives(d.logs[version], e.logs[0])
  }

  // ---- the protocol rules ----

  /** The pages a record carries, by id. */
  function PageMap(ps: seq<PageChange>): map<nat, bytes> {
    if ps == [] then map[]
    else PageMap(ps[..|ps| - 1])[Last(ps).pageId := Last(ps).data]
  }

  /** The record names the transaction, carries its manifest and every page it wrote. */
  predicate RecordsCommit(c: ChangeCommit, h: Header, m: Manifest, pages: map<nat, Page>, written: set<nat>) {
    && WellFormed(c)
    && c.sequence == h.sequence && c.beforeTx == h.beforeTx
    && c.afterTx == m.meta.clock && c.manifest == m.raw
    && written <= PageMap(c.pages).Keys
    && forall id :: id in PageMap(c.pages) ==>
         id in pages && id < m.meta.pageCount && PageMap(c.pages)[id] == pages[id]
  }

  /** Every log version has a head inside the history, and the live one is the newest. */
  ghost predicate Shaped(s: State) {
    && s.disk.Shaped() && |s.heads| == |s.disk.logs|
    && (forall i :: 0 <= i < |s.heads| ==> s.heads[i] < |s.hist|)
    && Last(s.heads) == |s.hist| - 1
  }

  /** Nothing is left to undo: the pages already are what the undo images say. */
  predicate Settled(d: Disk)
    requires d.Shaped()
  {
    d.Log().active.Some? ==>
      forall id :: id in d.Log().active.value.undo ==> Holds(d, id, d.Log().active.value.undo[id])
  }

  ghost predicate Guard(s: State, step: Step)
    requires Shaped(s)
  {
    var d := s.disk;
    var l := d.Log();
    match step
    case WriteUndo(id) =>
      && s.open && InTx(d) && id in d.pages && id < l.active.value.header.value.pageCount
      && (id in l.active.value.undo ==> UndoEntry(id) in l.active.value.loose)
      && |l.active.value.undo.Keys + {id}| * UNDO_FILE <= HARD_MAX_RECORD
    case WritePage(id, page) =>
      && s.open && InTx(d)
      && (id >= l.active.value.header.value.pageCount
          || (id in l.active.value.undo && UndoEntry(id) !in l.active.value.loose))
    case Publish(m) =>
      && s.open && InTx(d) && Anchored(m)
      && m.meta.pageCount >= l.active.value.header.value.pageCount
    case WriteChange(_) => s.open && InTx(d)
    case SyncUndo => InTx(d)
    case SyncActive => InTx(d)
    case CommitRename =>
      && s.open && InTx(d) && d.dirty == {} && |d.manifests| == 1
      && ChangeEntry !in l.active.value.loose && l.active.value.change.Some? && Anchored(d.Live())
      && d.Live().meta.anchor == Some(l.active.value.header.value.sequence)
      && d.Live().meta.pageCount >= l.active.value.header.value.pageCount
      && RecordsCommit(l.active.value.change.value, l.active.value.header.value, d.Live(), d.pages, s.written)
      && |l.commits| < MAX_COMMIT_DIRS
    case Activate =>
      && l.active.None? && Anchored(d.Live())
      && HeaderFor(d.Live()).sequence < U64_END
      && l.preparing == Some(TxDir(Some(d.Live()), Some(HeaderFor(d.Live())), map[], None, {}))
    case RestorePage(id) =>
      && l.active.Some? && Complete(l.active.value) && id in l.active.value.undo
      && ((|d.logs| == 1 && UndoEntry(id) !in l.active.value.loose) || Holds(d, id, l.active.value.undo[id]))
    case RestoreManifest => l.active.Some? && Complete(l.active.value)
    case Discard =>
      l.active.Some? && Complete(l.active.value) && d.manifests == [l.active.value.before.value] && Settled(d)
    case Leftovers(_, _) => Settled(d)
    case SetCheckpoint(through) => Settled(d) && l.Floor() <= through <= Last(s.heads)
    case Expire(q, _) =>
      Settled(d) && q in l.commits && forall i :: 0 <= i < |d.logs| ==> q <= d.logs[i].Floor()
    case Crash(version, after) => version < |d.logs| && DiskSurvives(d, version, after)
    case _ => true
  }

  /** Rewriting the bytes a page already holds cannot damage it. */
  function PutPage(d: Disk, id: nat, p: Page): Disk {
    if Holds(d, id, p) then d
    else d.(pages := d.pages[id := p], dirty := d.dirty + {id})
  }

  function WithActive(d: Disk, t: TxDir): Disk
    requires d.Shaped()
  {
    d.(logs := d.logs[|d.logs| - 1 := d.Log().(active := Some(t))])
  }

  function PushLog(d: Disk, l: LogDir): Disk {
    d.(logs := d.logs + [l])
  }

  /** The effect of one step on the disk. */
  ghost function OnDisk(s: State, step: Step): (e: Disk)
    requires Shaped(s) && Guard(s, step)
  {
    var d := s.disk;
    var l := d.Log();
    match step
    case WriteUndo(id) =>
      var t := l.active.value;
      WithActive(d, t.(undo := t.undo[id := d.pages[id]], loose := t.loose + {UndoEntry(id)}))
    case SyncUndo =>
      WithActive(d, l.active.value.(loose := set e | e in l.active.value.loose && !e.UndoEntry?))
    case WritePage(id, page) => PutPage(d, id, page)
    case SyncPages => d.(dirty := {})
    case SyncPage(id) => d.(dirty := d.dirty - {id})
    case Publish(m) => d.(manifests := d.manifests + [m])
    case SyncRoot => d.(manifests := [d.Live()])
    case WriteChange(c) =>
      WithActive(d, l.active.value.(change := Some(c), loose := l.active.value.loose + {ChangeEntry}))
    case SyncActive =>
      WithActive(d, l.active.value.(loose := set e | e in l.active.value.loose && e.UndoEntry?))
    case CommitRename =>
      PushLog(d, l.(active := None, commits := l.commits[l.active.value.header.value.sequence := l.active.value]))
    case SyncLog => d.(logs := [l])
    case Leftovers(p, q) => PushLog(d, l.(preparing := p, discarded := q))
    case Activate => PushLog(d, l.(active := l.preparing, preparing := None))
    case RestorePage(id) => PutPage(d, id, l.active.value.undo[id])
    case RestoreManifest => d.(manifests := d.manifests + [l.active.value.before.value])
    case Discard => PushLog(d, l.(active := None, discarded := l.active))
    case SetCheckpoint(through) => PushLog(d, l.(checkpoint := Some(through)))
    case Expire(q, dir) =>
      PushLog(d, l.(commits := if dir.None? then l.commits - {q} else l.commits[q := dir.value]))
    case Crash(_, after) => after
  }

  /** The database a commit publishes: the live manifest and the pages it counts. */
  function LiveImage(d: Disk): Image
    requires d.Shaped()
  {
    Image(d.Live(), Counted(d.pages, d.Live().meta.pageCount))
  }

  /** The next state: only the commit rename adds to the history, only a crash can cut it. */
  ghost function After(s: State, step: Step): State
    requires Shaped(s) && Guard(s, step)
  {
    var d := OnDisk(s, step);
    var same := s.heads + [Last(s.heads)];
    match step
    case WritePage(id, _) => s.(disk := d, written := s.written + {id})
    case CommitRename => State(d, s.hist + [LiveImage(s.disk)], s.heads + [|s.hist|], false, {})
    case Activate => State(d, s.hist, same, true, {})
    case RestorePage(_) => s.(disk := d, open := false)
    case RestoreManifest => s.(disk := d, open := false)
    case Discard => State(d, s.hist, same, false, {})
    case SyncLog => s.(disk := d, heads := [Last(s.heads)])
    case Leftovers(_, _) => s.(disk := d, heads := same)
    case SetCheckpoint(_) => s.(disk := d, heads := same)
    case Expire(_, _) => s.(disk := d, heads := same)
    case Crash(version, _) => State(d, s.hist[..s.heads[version] + 1], [s.heads[version]], false, {})
    case _ => s.(disk := d)
  }

  // ---- the invariant ----

  /** Overlaying the pages and the manifest of a record on one image gives the next. */
  ghost predicate RecordLeads(a: Image, b: Image, c: ChangeCommit) {
    && WellFormed(c) && c.manifest == b.manifest.raw
    && a.manifest.meta.pageCount <= b.manifest.meta.pageCount
    && PagesLead(a.pages, b.pages, PageMap(c.pages))
  }

  ghost predicate PagesLead(a: map<nat, Page>, b: map<nat, Page>, changed: map<nat, bytes>) {
    && (forall id {:trigger id in a} :: id in a ==>
          id in b && (if id in changed then b[id] == changed[id] else b[id] == a[id]))
    && (forall id {:trigger id in changed} :: id in changed ==> id in b && b[id] == changed[id])
  }

  ghost predicate CommitOk(hist: seq<Image>, q: nat, t: TxDir)
    requires 0 < q < |hist|
  {
    ChangeEntry !in t.loose && t.change.Some? && t.change.value.sequence == q
    && RecordLeads(hist[q - 1], hist[q], t.change.value)
  }

  ghost predicate HistOk(hist: seq<Image>) {
    forall k {:trigger ImageOk(hist[k], k)} :: 0 <= k < |hist| ==> ImageOk(hist[k], k)
  }

  ghost predicate ImageOk(img: Image, k: nat) {
    && Anchored(img.manifest) && img.manifest.meta.anchor == Some(k)
    && forall id :: id in img.pages ==> id < img.manifest.meta.pageCount
  }

  /** The commits above the checkpoint are exactly those up to the head, and whole. */
  ghost predicate LogOk(hist: seq<Image>, l: LogDir, head: nat)
    requires head < |hist|
  {
    && l.Floor() <= head && |l.commits| <= MAX_COMMIT_DIRS
    && (forall q :: q in l.commits ==> q <= head)
    && (forall q :: l.Floor() < q <= head ==> q in l.commits)
    && (forall q {:trigger CommitOk(hist, q, l.commits[q])} ::
          l.Floor() < q <= head ==> CommitOk(hist, q, l.commits[q]))
  }

  /** The undo images and the untouched pages together still hold the old database. */
  ghost predicate UndoOk(d: Disk, img: Image, t: TxDir) {
    && Complete(t)
    && t.before == Some(img.manifest) && img.manifest.meta.anchor.Some?
    && t.header == Some(HeaderFor(img.manifest))
    && |t.undo| * UNDO_FILE <= HARD_MAX_RECORD
    && (forall id :: id in t.undo ==> id in img.pages && t.undo[id] == img.pages[id])
    && (forall id :: id in img.pages ==>
          (id in t.undo && UndoEntry(id) !in t.loose) || Holds(d, id, img.pages[id]))
  }

  ghost predicate QuietOk(d: Disk, img: Image) {
    && (forall m :: m in d.manifests ==> m == img.manifest)
    && (forall id :: id in img.pages ==> Holds(d, id, img.pages[id]))
  }

  /** Whatever log version survives, the database of its head can be reached. */
  ghost predicate VersionOk(s: State, i: nat)
    requires i < |s.heads| == |s.disk.logs| && s.heads[i] < |s.hist|
  {
    var d, l, img := s.disk, s.disk.logs[i], s.hist[s.heads[i]];
    && LogOk(s.hist, l, s.heads[i])
    && (forall id :: id in d.pages && id < img.manifest.meta.pageCount ==> id in img.pages)
    && (l.active.None? ==> QuietOk(d, img) && s.heads[i] == |s.hist| - 1)
    && (l.active.Some? ==> UndoOk(d, img, l.active.value))
  }

  /** While a transaction is open, every page that changed is known to have been written. */
  ghost predicate OpenOk(s: State)
    requires Shaped(s)
  {
    s.open ==>
      && s.disk.Log().active.Some?
      && (forall id :: id in s.written ==> id in s.disk.pages)
      && forall id :: id in Last(s.hist).pages && id !in s.written
           ==> id in s.disk.pages && s.disk.pages[id] == Last(s.hist).pages[id]
  }

  ghost predicate Inv(s: State) {
    && Shaped(s) && HistOk(s.hist)
    && (forall i {:trigger VersionOk(s, i)} :: 0 <= i < |s.heads| ==> VersionOk(s, i))
    && OpenOk(s)
    && (|s.disk.logs| > 1 ==> Settled(s.disk))
  }
}
