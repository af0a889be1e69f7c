/** One journaled transaction: `Journal::begin`, `before_write` and `commit` with their byte budget. */
module JournalWriter {
  import opened Core
  import opened ChangeCodec
  import opened JournalProtocol
  import opened JournalBudget
  import opened JournalSafety
  import opened JournalTheorems
  import opened JournalOps

  lemma UndoSizeGrows(t: TxDir, id: nat, p: Page)
    ensures |t.undo.Keys + {id}| == |t.undo[id := p]| <= |t.undo| + 1
    ensures id in t.undo ==> |t.undo[id := p]| == |t.undo|
    ensures DirSize(t.(undo := t.undo[id := p])) <= DirSize(t) + UNDO_FILE
  {
    assert t.undo[id := p].Keys == t.undo.Keys + {id};
    if id in t.undo { assert t.undo.Keys + {id} == t.undo.Keys; }
  }

  lemma SizeWithActive(l: LogDir, t: TxDir)
    ensures LogSize(l.(active := Some(t))) == LogSize(l) - OptionSize(l.active) + DirSize(t)
  {}

  /** Renaming the active directory to a commit moves its bytes; it adds none. */
  lemma SizeAfterCommit(l: LogDir, q: nat, t: TxDir)
    requires l.active == Some(t) && q !in l.commits
    ensures LogSize(l.(active := None, commits := l.commits[q := t])) == LogSize(l)
  {
    SizesAdd(l.commits, q, t);
  }

  lemma PageMapSnoc(ps: seq<PageChange>, p: PageChange)
    ensures PageMap(ps + [p]) == PageMap(ps)[p.pageId := p.data]
  {
    assert (ps + [p])[..|ps|] == ps;
  }

  /** The list holds the stored pages with these ids, in that order. */
  ghost predicate Lists(ps: seq<PageChange>, ids: seq<nat>, stored: map<nat, Page>) {
    |ps| == |ids| && forall i {:trigger ps[i]} {:trigger ids[i]} :: 0 <= i < |ps| ==>
      ids[i] in stored && ps[i] == PageChange(ids[i], stored[ids[i]])
  }

  lemma {:induction false} ListedPages(ps: seq<PageChange>, ids: seq<nat>, stored: map<nat, Page>)
    requires Lists(ps, ids, stored)
    ensures forall id :: id in PageMap(ps) <==> id in ids
    ensures forall id :: id in ids ==> id in stored && PageMap(ps)[id] == stored[id]
    decreases |ps|
  {
    if ps != [] {
      var n := |ps| - 1;
      ListedPages(ps[..n], ids[..n], stored);
      assert ps == ps[..n] + [ps[n]] && ids == ids[..n] + [ids[n]];
      PageMapSnoc(ps[..n], ps[n]);
    }
  }

  /** A page not written since the transaction began is its own undo image. */
  lemma SameImage(s: State, id: nat)
    requires Inv(s) && s.open && s.disk.Log().active.Some? && id !in s.written && id in s.disk.Log().active.value.undo
    ensures id in s.disk.pages && s.disk.Log().active.value.undo[id] == s.disk.pages[id]
  {
    LiveUndo(s);
  }

  /** The blobs a manifest's hash list adds, in its order. */
  function NewBlobs(hashes: seq<bytes>, known: set<bytes>, blobs: map<bytes, bytes>): seq<BlobChange> {
    if hashes == [] then [] else
    NewBlobs(hashes[..|hashes| - 1], known, blobs) +
    if Last(hashes) in known || Last(hashes) !in blobs then [] else [BlobChange(Last(hashes), blobs[Last(hashes)])]
  }

  lemma NewBlobsSnoc(hashes: seq<bytes>, i: nat, known: set<bytes>, blobs: map<bytes, bytes>)
    requires i < |hashes|
    ensures var h, less := hashes[i], NewBlobs(hashes[..i], known, blobs);
      && h in hashes && (forall x :: x in hashes[..i + 1] <==> x in hashes[..i] || x == h)
      && NewBlobs(hashes[..i + 1], known, blobs)
         == if h in known || h !in blobs then less else less + [BlobChange(h, blobs[h])]
  {
    PrefixSnoc(hashes, i);
    NothingAdded(NewBlobs(hashes[..i], known, blobs));
  }

  lemma {:induction false} NewBlobsPrefix(hashes: seq<bytes>, n: nat, known: set<bytes>, blobs: map<bytes, bytes>)
    requires n <= |hashes|
    ensures BlobData(NewBlobs(hashes[..n], known, blobs)) <= BlobData(NewBlobs(hashes, known, blobs))
    ensures NewBlobs(hashes[..n], known, blobs) != [] ==> NewBlobs(hashes, known, blobs) != []
    decreases |hashes| - n
  {
    if n == |hashes| {
      WholePrefix(hashes);
    } else {
      NewBlobsPrefix(hashes, n + 1, known, blobs);
      PrefixSnoc(hashes, n);
      var less, h := NewBlobs(hashes[..n], known, blobs), hashes[n];
      if h in known || h !in blobs { NothingAdded(less); } else { BlobDataSnoc(less, BlobChange(h, blobs[h])); }
    }
  }

  /** They are exactly the listed hashes that are not known, with their contents. */
  lemma {:induction false} NewBlobsExact(hashes: seq<bytes>, known: set<bytes>, blobs: map<bytes, bytes>)
    ensures forall i :: 0 <= i < |NewBlobs(hashes, known, blobs)| ==>
      var b := NewBlobs(hashes, known, blobs)[i];
      b.hash in hashes && b.hash !in known && b.hash in blobs && b.data == blobs[b.hash]
    ensures forall h :: h in hashes && h !in known && h in blobs ==>
      exists i :: 0 <= i < |NewBlobs(hashes, known, blobs)| && NewBlobs(hashes, known, blobs)[i].hash == h
    decreases |hashes|
  {
    if hashes != [] {
      var front, last := hashes[..|hashes| - 1], Last(hashes);
      FrontAndLast(hashes);
      NewBlobsExact(front, known, blobs);
      var less, all := NewBlobs(front, known, blobs), NewBlobs(hashes, known, blobs);
      assert forall i :: 0 <= i < |less| ==> all[i] == less[i];
      forall h | h in hashes && h !in known && h in blobs ensures exists i :: 0 <= i < |all| && all[i].hash == h {
        if h in front {
          var i :| 0 <= i < |less| && less[i].hash == h;
          assert all[i].hash == h;
        } else {
          assert all[|less|].hash == h;
        }
      }
    }
  }

  class Journal {
    const ws: Workspace
    const header: Header
    const options: Options
    const retained: nat
    const oldHashes: set<bytes>
    var touched: set<nat>
    var used: nat
    var pageCount: nat  // pages allocated by the open store

    /** The active directory of the only log version. */
    function Active(): TxDir
      reads ws
      requires InTx(ws.disk)
    {
      ws.disk.Log().active.value
    }

    /** The stored bytes stay within what was reserved, and that within both limits. */
    ghost predicate WithinBudget()
      reads this, ws
      requires InTx(ws.disk)
    {
      && ValidOptions(options)
      && DirSize(Active()) <= used <= options.maxTransactionBytes
      && retained + used <= options.maxRetainedBytes
      && LogSize(ws.disk.Log()) == retained + DirSize(Active())
    }

    /** Only allocated pages are touched. */
    ghost predicate Allocated()
      reads this
    {
      header.pageCount <= pageCount && forall id :: id in touched ==> id < pageCount
    }

    ghost predicate Valid()
      reads this, ws
    {
      && ws.Valid() && ws.state.open && InTx(ws.disk)
      && Active().header == Some(header) && header.sequence < U64_END && header.beforeTx < U64_END
      && |ws.disk.Log().commits| < MAX_COMMIT_DIRS
      && header.sequence !in ws.disk.Log().commits
      && ws.state.written <= touched && Allocated()
      && (forall id :: id in touched && id < header.pageCount ==>
            id in Active().undo && UndoEntry(id) !in Active().loose)
      && (forall e :: e in Active().loose ==> e.UndoEntry? || e == ChangeEntry)
      && WithinBudget()
    }

    constructor (w: Workspace, h: Header, o: Options, kept: nat, hashes: set<bytes>, reserved: nat)
      requires w.Valid() && w.state.open && w.state.written == {} && InTx(w.disk)
      requires w.disk.Log().active.value.header == Some(h) && h.sequence < U64_END && h.beforeTx < U64_END
      requires w.disk.Log().active.value.loose == {}
      requires |w.disk.Log().commits| < MAX_COMMIT_DIRS && h.sequence !in w.disk.Log().commits
      requires ValidOptions(o) && DirSize(w.disk.Log().active.value) <= reserved <= o.maxTransactionBytes
      requires kept + reserved <= o.maxRetainedBytes
      requires LogSize(w.disk.Log()) == kept + DirSize(w.disk.Log().active.value)
      ensures Valid() && ws == w && touched == {} && header == h && options == o && pageCount == h.pageCount
    {
      ws, header, options, retained, oldHashes := w, h, o, kept, hashes;
      touched, used, pageCount := {}, reserved, h.pageCount;
    }

    /** So many bytes more stay within the transaction's limit and the log's. */
    predicate Affords(n: nat)
      reads this
    {
      used + n <= options.maxTransactionBytes && retained + used + n <= options.maxRetainedBytes
    }

    /** `reserve`: charges bytes against both limits, or changes nothing. */
    method Reserve(n: nat) returns (ok: bool)
      requires ValidOptions(options)
      modifies this`used
      ensures ok <==> old(Affords(n))
      ensures used == if ok then old(used) + n else old(used)
    {
      ok := used + n < U64_END && used + n <= options.maxTransactionBytes
            && retained + (used + n) <= options.maxRetainedBytes;
      if ok { used := used + n; }
    }

    /**
     `before_write`: the first touch of an original page puts its undo image on stable storage.
     */
    method BeforeWrite(id: nat) returns (r: Result<()>)
      requires Valid() && id < pageCount
      modifies this, ws
      ensures Valid() && old(ws.steps) <= ws.steps && pageCount == old(pageCount)
      ensures ws.state.hist == old(ws.state.hist) && ws.state.written == old(ws.state.written)
      ensures ws.disk.pages == old(ws.disk.pages) && ws.disk.dirty == old(ws.disk.dirty)
      ensures ws.disk.manifests == old(ws.disk.manifests)
      ensures r.Ok? ==> touched == old(touched) + {id}
      ensures r.Ok? && id < header.pageCount ==> id in Active().undo && UndoEntry(id) !in Active().loose
      ensures r.Err? ==> r.error == Io || r.error == ResourceLimit
      ensures r == Err(ResourceLimit) <==> id !in old(touched) && !old(Affords(UNDO_FILE))
      ensures ws.reliable && (id in old(touched) || old(Affords(UNDO_FILE))) ==>
        (r.Ok? <==> id in old(touched) || id >= header.pageCount || id in ws.disk.pages)
      ensures used == old(used) + if id !in old(touched) && old(Affords(UNDO_FILE)) then UNDO_FILE else 0
    {
      if id in touched { return Ok(()); }
      r := FirstTouch(id);
      if r.Ok? { touched := touched + {id}; }
    }

    /** The reservation of a first touch and, for an original page, its undo image. */
    method FirstTouch(id: nat) returns (r: Result<()>)
      requires Valid() && id < pageCount && id !in touched
      modifies this`used, ws
      ensures Valid() && old(ws.steps) <= ws.steps
      ensures ws.state.hist == old(ws.state.hist) && ws.state.written == old(ws.state.written)
      ensures ws.disk.pages == old(ws.disk.pages) && ws.disk.dirty == old(ws.disk.dirty)
      ensures ws.disk.manifests == old(ws.disk.manifests)
      ensures r.Ok? && id < header.pageCount ==> id in Active().undo && UndoEntry(id) !in Active().loose
      ensures r.Err? ==> r.error == Io || r.error == ResourceLimit
      ensures r == Err(ResourceLimit) <==> !old(Affords(UNDO_FILE))
      ensures ws.reliable && old(Affords(UNDO_FILE)) ==> (r.Ok? <==> id >= header.pageCount || id in ws.disk.pages)
      ensures used == old(used) + if old(Affords(UNDO_FILE)) then UNDO_FILE else 0
    {
      var ok := Reserve(UNDO_FILE);
      if !ok { return Err(ResourceLimit); }
      if id >= header.pageCount { return Ok(()); }
      if id !in ws.disk.pages { return Err(Io); }
      ok := SaveUndo(id);
      r := if ok then Ok(()) else Err(Io);
    }

    method SaveUndo(id: nat) returns (ok: bool)
      requires ws.Valid() && ws.state.open && InTx(ws.disk) && Active().header == Some(header)
      requires id < header.pageCount && id in ws.disk.pages
      requires id !in ws.state.written
      requires ValidOptions(options) && DirSize(Active()) + UNDO_FILE <= used <= options.maxTransactionBytes
      requires LogSize(ws.disk.Log()) == retained + DirSize(Active())
      requires forall e :: e in Active().loose ==> e.UndoEntry? || e == ChangeEntry
      modifies ws
      ensures ws.Valid() && old(ws.steps) <= ws.steps && ws.state.open && InTx(ws.disk)
      ensures ws.state.hist == old(ws.state.hist) && ws.state.written == old(ws.state.written)
      ensures ws.disk.pages == old(ws.disk.pages) && ws.disk.dirty == old(ws.disk.dirty)
      ensures ws.disk.manifests == old(ws.disk.manifests)
      ensures Active().header == Some(header) && ws.disk.Log().commits == old(ws.disk.Log().commits)
      ensures forall j :: j in old(Active().undo) && UndoEntry(j) !in old(Active().loose) ==>
                j in Active().undo && UndoEntry(j) !in Active().loose
      ensures forall e :: e in Active().loose ==> e.UndoEntry? || e == ChangeEntry
      ensures DirSize(Active()) <= used && LogSize(ws.disk.Log()) == retained + DirSize(Active())
      ensures ok ==> id in Active().undo && UndoEntry(id) !in Active().loose
      ensures ws.reliable ==> ok
    {
      ok := StageUndo(id);
      if !ok { return; }
      ok := SyncUndo();
    }

    /** The undo image under its final name, not yet synced. */
    method StageUndo(id: nat) returns (ok: bool)
      requires ws.Valid() && ws.state.open && InTx(ws.disk) && Active().header == Some(header)
      requires id < header.pageCount && id in ws.disk.pages
      requires id !in ws.state.written
      requires ValidOptions(options) && DirSize(Active()) + UNDO_FILE <= used <= options.maxTransactionBytes
      requires LogSize(ws.disk.Log()) == retained + DirSize(Active())
      requires forall e :: e in Active().loose ==> e.UndoEntry? || e == ChangeEntry
      modifies ws
      ensures Saving() && old(ws.steps) <= ws.steps
      ensures ws.state.hist == old(ws.state.hist) && ws.state.written == old(ws.state.written)
      ensures ws.disk.pages == old(ws.disk.pages) && ws.disk.dirty == old(ws.disk.dirty)
      ensures ws.disk.manifests == old(ws.disk.manifests) && ws.disk.Log().commits == old(ws.disk.Log().commits)
      ensures forall j :: j in old(Active().undo) && UndoEntry(j) !in old(Active().loose) ==>
                j in Active().undo && UndoEntry(j) !in Active().loose
      ensures ok ==> id in Active().undo
      ensures !ok ==> Active() == old(Active())
      ensures ws.reliable ==> ok
    {
      ghost var t := Active();
      if id in Active().undo && UndoEntry(id) !in Active().loose {
        // an earlier, failed attempt left this image and a later sync kept it: the rename replaces it by itself
        SameImage(ws.state, id);
        assert t.undo[id] == ws.disk.pages[id];
        var fails := ws.Fails();
        ok := !fails;
        return;
      }
      UndoSizeGrows(t, id, ws.disk.pages[id]);
      SmallUndo(t, id, ws.disk.pages[id], used);
      ok := ws.AddUndo(id);
    }

    /** A journal in the middle of saving an undo image. */
    ghost predicate Saving()
      reads this, ws
    {
      && ws.Valid() && ws.state.open && InTx(ws.disk) && Active().header == Some(header)
      && (forall e :: e in Active().loose ==> e.UndoEntry? || e == ChangeEntry)
      && DirSize(Active()) <= used && LogSize(ws.disk.Log()) == retained + DirSize(Active())
    }

    method SyncUndo() returns (ok: bool)
      requires Saving()
      modifies ws
      ensures Saving() && old(ws.steps) <= ws.steps
      ensures ws.state.hist == old(ws.state.hist) && ws.state.written == old(ws.state.written)
      ensures ws.disk.pages == old(ws.disk.pages) && ws.disk.dirty == old(ws.disk.dirty)
      ensures ws.disk.manifests == old(ws.disk.manifests) && ws.disk.Log().commits == old(ws.disk.Log().commits)
      ensures Active().undo == old(Active().undo) && Active().loose <= old(Active().loose)
      ensures ok ==> forall j :: UndoEntry(j) !in Active().loose
      ensures ws.reliable ==> ok
    {
      ok := ws.SyncUndoDir();
    }

    /** `DevStore::alloc_page`: the next page id. */
    method AllocPage() returns (id: nat)
      requires Valid()
      modifies this`pageCount
      ensures Valid() && id == old(pageCount) && id !in touched && pageCount == id + 1
    {
      id := pageCount;
      pageCount := pageCount + 1;
    }

    /** `DevStore::write_page` of an allocated page while a journal is open. */
    method Write(id: nat, page: Page) returns (r: Result<()>)
      requires Valid() && id < pageCount
      modifies this, ws
      ensures Valid() && old(ws.steps) <= ws.steps && ws.state.hist == old(ws.state.hist)
      ensures pageCount == old(pageCount)
      ensures ws.disk.manifests == old(ws.disk.manifests)
      ensures r.Ok? ==> id in touched && ws.disk.pages == old(ws.disk.pages)[id := page]
      ensures r.Err? ==> ws.disk.pages == old(ws.disk.pages)
      ensures r.Err? ==> r.error == Io || r.error == ResourceLimit
      ensures r == Err(ResourceLimit) <==> id !in old(touched) && !old(Affords(UNDO_FILE))
      ensures ws.reliable && (id in old(touched) || old(Affords(UNDO_FILE))) ==>
        (r.Ok? <==> id in old(touched) || id >= header.pageCount || id in old(ws.disk.pages))
    {
      r := BeforeWrite(id);
      if r.Err? { return; }
      var ok := ws.OverwritePage(id, page);
      r := if ok then Ok(()) else Err(Io);
    }

    /** The journaled part of `flush`: page data first, then the manifest that counts it. */
    method Flush(m: Manifest) returns (r: Result<()>)
      requires Valid() && Anchored(m) && m.meta.pageCount == pageCount
      modifies ws
      ensures Valid() && old(ws.steps) <= ws.steps && ws.state.hist == old(ws.state.hist)
      ensures r.Ok? ==> ws.disk.dirty == {} && ws.disk.Live() == m && ws.disk.pages == old(ws.disk.pages)
      ensures r.Err? ==> r.error == Io
      ensures r.Ok? ==> ws.disk.Log() == old(ws.disk.Log())
      ensures ws.reliable ==> r.Ok?
    {
      var ok := ws.SyncPageData();
      if !ok { return Err(Io); }
      ok := ws.StoreManifest(m);
      r := if ok then Ok(()) else Err(Io);
    }

    /** The touched pages as they are now, in id order, within the payload budget. */
    method GatherPages(base: nat, budget: nat) returns (r: Result<(seq<PageChange>, nat)>)
      ensures r.Err? ==> r.error == Io || r.error == ResourceLimit
      ensures r.Ok? ==> PageMap(r.value.0).Keys == touched
      ensures r.Ok? ==> forall i :: 0 <= i < |r.value.0| ==>
        && r.value.0[i].pageId in touched && |r.value.0[i].data| == PAGE_SIZE
      ensures r.Ok? ==> forall i, j :: 0 <= i < j < |r.value.0| ==> r.value.0[i].pageId < r.value.0[j].pageId
      ensures r.Ok? ==> forall id :: id in touched ==>
        id in ws.disk.pages && PageMap(r.value.0)[id] == ws.disk.pages[id]
      ensures r.Ok? ==> r.value.1 == base + PAGE_SIZE * |r.value.0| && |r.value.0| == |touched|
      ensures r.Ok? <==> touched <= ws.disk.pages.Keys && (touched == {} || base + PAGE_SIZE * |touched| <= budget)
      ensures r == Err(ResourceLimit) ==> base + PAGE_SIZE * |touched| > budget
    {
      var ids := SortedKeys(touched);
      KeysCounted(ids, touched);
      var pages: seq<PageChange>, payload: nat := [], base;
      for i := 0 to |ids|
        invariant Lists(pages, ids[..i], ws.disk.pages)
        invariant payload == base + PAGE_SIZE * i && (i > 0 ==> payload <= budget)
      {
        payload := payload + PAGE_SIZE;
        if payload > budget { return Err(ResourceLimit); }
        assert ids[i] in ids;
        if ids[i] !in ws.disk.pages { return Err(Io); }
        pages := pages + [PageChange(ids[i], ws.disk.pages[ids[i]])];
      }
      assert ids[..|ids|] == ids;
      ListedPages(pages, ids, ws.disk.pages);
      r := Ok((pages, payload));
    }

    /** The blobs the new manifest references and the old one did not, within what remains of the budget. */
    method GatherBlobs(hashes: seq<bytes>, blobs: map<bytes, bytes>, base: nat, budget: nat)
      returns (r: Result<seq<BlobChange>>)
      ensures r.Err? ==> r.error == Io || r.error == ResourceLimit || r.error == Corruption
      ensures r.Ok? ==> r.value == NewBlobs(hashes, oldHashes, blobs)
      ensures r.Ok? <==>
        && (forall h :: h in hashes && h !in oldHashes ==> IsHash(h) && h in blobs)
        && (NewBlobs(hashes, oldHashes, blobs) == [] || base + BlobData(NewBlobs(hashes, oldHashes, blobs)) <= budget)
      ensures r == Err(ResourceLimit) ==> base + BlobData(NewBlobs(hashes, oldHashes, blobs)) > budget
    {
      var out: seq<BlobChange>, payload: nat := [], base;
      for i := 0 to |hashes|
        invariant out == NewBlobs(hashes[..i], oldHashes, blobs)
        invariant forall h :: h in hashes[..i] && h !in oldHashes ==> IsHash(h) && h in blobs
        invariant payload == base + BlobData(out) && (out != [] ==> payload <= budget)
      {
        var h := hashes[i];
        NewBlobsSnoc(hashes, i, oldHashes, blobs);
        if h !in oldHashes {
          if !IsHash(h) { return Err(Corruption); }
          if h !in blobs { return Err(Io); }
          BlobDataSnoc(out, BlobChange(h, blobs[h]));
          NewBlobsPrefix(hashes, i + 1, oldHashes, blobs);
          if payload + |blobs[h]| > budget { return Err(ResourceLimit); }
          payload := payload + |blobs[h]|;
          out := out + [BlobChange(h, blobs[h])];
        }
      }
      WholePrefix(hashes);
      r := Ok(out);
    }

    /** Encodes the record under the remaining budget and puts it, synced, into the active directory. */
    method StoreRecord(c: ChangeCommit) returns (r: Result<()>)
      requires Valid()
      modifies this, ws
      ensures Valid() && old(ws.steps) <= ws.steps && touched == old(touched) && pageCount == old(pageCount)
      ensures ws.state.hist == old(ws.state.hist) && ws.state.written == old(ws.state.written)
      ensures ws.disk.pages == old(ws.disk.pages) && ws.disk.dirty == old(ws.disk.dirty)
      ensures ws.disk.manifests == old(ws.disk.manifests)
      ensures r.Err? ==> r.error == Io || r.error == ResourceLimit
      ensures r.Ok? ==> |Encode(c)| <= HARD_MAX_RECORD
      ensures r.Ok? ==> Active().change == Some(c) && ChangeEntry !in Active().loose
      ensures r.Ok? ==> old(Active().change).None? && old(Affords(|Encode(c)| + 32))
      ensures ws.reliable && old(Active().change).None? && old(Affords(|Encode(c)| + 32)) ==> r.Ok?
      ensures r == Err(ResourceLimit) ==> !old(Affords(|Encode(c)| + 32))
    {
      if Active().change.Some? { return Err(Io); }
      var out := new LimitedBytes(options.maxTransactionBytes - used);
      var fits := EncodeChange(out, c);
      if !fits { return Err(ResourceLimit); }
      var ok := Reserve(|out.data| + 32);
      if !ok { return Err(ResourceLimit); }
      ok := PutRecord(c);
      r := if ok then Ok(()) else Err(Io);
    }

    method PutRecord(c: ChangeCommit) returns (ok: bool)
      requires Valid() && Active().change.None? && DirSize(Active()) + RecordSize(c) <= used
      modifies ws
      ensures Valid() && old(ws.steps) <= ws.steps
      ensures ws.state.hist == old(ws.state.hist) && ws.state.written == old(ws.state.written)
      ensures ws.disk.pages == old(ws.disk.pages) && ws.disk.dirty == old(ws.disk.dirty)
      ensures ws.disk.manifests == old(ws.disk.manifests)
      ensures ok ==> Active().change == Some(c) && ChangeEntry !in Active().loose
      ensures ws.reliable ==> ok
    {
      ghost var t := Active();
      SizeWithActive(ws.disk.Log(), t.(change := Some(c)));
      ok := ws.AddChange(c);
      if !ok { return; }
      ok := SyncRecord(c);
    }

    method SyncRecord(c: ChangeCommit) returns (ok: bool)
      requires Valid() && Active().change == Some(c)
      modifies ws
      ensures Valid() && old(ws.steps) <= ws.steps
      ensures ws.state.hist == old(ws.state.hist) && ws.state.written == old(ws.state.written)
      ensures ws.disk.pages == old(ws.disk.pages) && ws.disk.dirty == old(ws.disk.dirty)
      ensures ws.disk.manifests == old(ws.disk.manifests) && Active().change == Some(c)
      ensures ok ==> ChangeEntry !in Active().loose
      ensures ws.reliable ==> ok
    {
      ok := ws.SyncActiveDir();
    }

    /** The new database is committed, for good, and the log stays within its limits. */
    ghost predicate CommittedWithin(hist: seq<Image>, img: Image)
      reads this, ws
    {
      && ws.disk.Shaped() && ws.disk.Log().active.None?
      && ws.state.hist == hist + [img] && Durable(ws.state, |hist|)
      && LogSize(ws.disk.Log()) <= options.maxRetainedBytes
      && header.sequence in ws.disk.Log().commits
      && DirSize(ws.disk.Log().commits[header.sequence]) <= used <= options.maxTransactionBytes
    }

    /** The length of the record a commit under this manifest writes. */
    function NextRecordLength(m: Manifest, blobs: map<bytes, bytes>): nat
      reads this
    {
      var added := NewBlobs(m.meta.hashes, oldHashes, blobs);
      56 + |m.raw| + (8 + PAGE_SIZE) * |touched| + 72 * |added| + BlobData(added)
    }

    /** What `commit` asks for: this transaction's anchor, every page and blob at hand, and room for the record. */
    ghost predicate CommitFits(m: Manifest, blobs: map<bytes, bytes>)
      reads this, ws
      requires InTx(ws.disk)
    {
      Gathers(m, blobs) && Active().change.None? && Affords(NextRecordLength(m, blobs) + 32)
    }

    /** Everything but the room for it. */
    ghost predicate Gathers(m: Manifest, blobs: map<bytes, bytes>)
      reads this, ws
    {
      && m.meta.anchor == Some(header.sequence) && touched <= ws.disk.pages.Keys
      && (forall h :: h in m.meta.hashes && h !in oldHashes ==> IsHash(h) && h in blobs)
    }

    /**
     `commit`. On success the live manifest and pages have become the next committed image, durably,
     and the whole log directory is within its retention limit. An unknown outcome means the rename
     happened without its sync; after any other error the transaction is still active and undoable.
     */
    method Commit(blobs: map<bytes, bytes>) returns (r: Result<()>)
      requires Valid() && ws.disk.dirty == {} && Anchored(ws.disk.Live())
      requires ws.disk.Live().meta.pageCount == pageCount
      modifies this, ws
      ensures ws.Valid() && old(ws.steps) <= ws.steps
      ensures r.Ok? ==> CommittedWithin(old(ws.state.hist), LiveImage(old(ws.disk)))
      ensures r == Err(TransactionOutcomeUnknown) ==>
        ws.state.hist == old(ws.state.hist) + [LiveImage(old(ws.disk))] && ws.disk.Log().active.None?
      ensures r.Err? && r.error != TransactionOutcomeUnknown ==>
        Valid() && ws.state.hist == old(ws.state.hist)
      ensures r.Ok? ==> old(CommitFits(ws.disk.Live(), blobs))
      ensures ws.reliable && old(CommitFits(ws.disk.Live(), blobs)) ==> r.Ok?
      ensures old(CommitFits(ws.disk.Live(), blobs)) ==> r.Ok? || r.error == Io || r.error == TransactionOutcomeUnknown
      ensures !old(CommitFits(ws.disk.Live(), blobs)) ==> r == Err(Io) || r == Err(ResourceLimit) || r == Err(Corruption)
    {
      var manifest := ws.disk.Live();
      var record := GatherAndStore(manifest, blobs);
      if record.Err? { return Err(record.error); }
      r := Publish(record.value, manifest);
    }

    /** The record of the transaction, built and stored. */
    method GatherAndStore(m: Manifest, blobs: map<bytes, bytes>) returns (r: Result<ChangeCommit>)
      requires Valid() && Anchored(m) && m.meta.pageCount == pageCount
      modifies this, ws
      ensures Valid() && old(ws.steps) <= ws.steps && ws.state.hist == old(ws.state.hist) && pageCount == old(pageCount)
      ensures ws.disk.pages == old(ws.disk.pages) && ws.disk.dirty == old(ws.disk.dirty)
      ensures ws.disk.manifests == old(ws.disk.manifests)
      ensures r.Err? ==> r.error == Io || r.error == ResourceLimit || r.error == Corruption
      ensures old(CommitFits(m, blobs)) && r.Err? ==> r.error == Io
      ensures r.Ok? ==> Active().change == Some(r.value) && ChangeEntry !in Active().loose
      ensures r.Ok? ==> m.meta.anchor == Some(header.sequence)
      ensures r.Ok? ==> RecordsCommit(r.value, header, m, ws.disk.pages, ws.state.written)
      ensures r.Ok? ==> old(CommitFits(m, blobs))
      ensures ws.reliable && old(CommitFits(m, blobs)) ==> r.Ok?
    {
      r := Gather(m, blobs);
      if r.Err? { return; }
      var stored := StoreRecord(r.value);
      if stored.Err? { r := Err(stored.error); }
    }

    /** The record of the transaction: proper if there is room for it. */
    method Gather(m: Manifest, blobs: map<bytes, bytes>) returns (r: Result<ChangeCommit>)
      requires Valid() && Anchored(m) && m.meta.pageCount == pageCount
      ensures r.Err? ==> r.error == Io || r.error == ResourceLimit || r.error == Corruption
      ensures r.Ok? ==> Gathers(m, blobs) && |Encode(r.value)| == NextRecordLength(m, blobs)
      ensures r.Ok? && Affords(NextRecordLength(m, blobs) + 32) ==>
        RecordsCommit(r.value, header, m, ws.disk.pages, ws.state.written)
      ensures Gathers(m, blobs) && Affords(NextRecordLength(m, blobs) + 32) ==> r.Ok?
    {
      r := BuildRecord(m, blobs);
      if r.Err? { return; }
      GatheredLength(r.value, m, blobs);
      if Affords(NextRecordLength(m, blobs) + 32) { RecordOk(r.value, m); }
    }

    /** The gathered record is as long as its parts say. */
    lemma GatheredLength(c: ChangeCommit, m: Manifest, blobs: map<bytes, bytes>)
      requires Describes(c, m) && c.blobs == NewBlobs(m.meta.hashes, oldHashes, blobs)
      ensures |Encode(c)| == NextRecordLength(m, blobs)
    {
      RecordLength(c);
    }

    /** The database a flush under this manifest describes. */
    function FlushedImage(m: Manifest, pages: map<nat, Page>): Image {
      Image(m, Counted(pages, m.meta.pageCount))
    }

    /** `commit_transaction` on a logged workspace: flush under the store's page count, then `commit`. */
    method FlushAndCommit(m: Manifest, blobs: map<bytes, bytes>) returns (r: Result<()>)
      requires Valid() && Anchored(m) && m.meta.pageCount == pageCount
      modifies this, ws
      ensures ws.Valid() && old(ws.steps) <= ws.steps
      ensures r.Ok? ==> CommittedWithin(old(ws.state.hist), FlushedImage(m, old(ws.disk.pages)))
      ensures r == Err(TransactionOutcomeUnknown) ==>
        ws.state.hist == old(ws.state.hist) + [FlushedImage(m, old(ws.disk.pages))] && ws.disk.Log().active.None?
      ensures r.Err? && r.error != TransactionOutcomeUnknown ==>
        Valid() && ws.state.hist == old(ws.state.hist)
      ensures r.Ok? ==> old(CommitFits(m, blobs))
      ensures ws.reliable && old(CommitFits(m, blobs)) ==> r.Ok?
      ensures old(CommitFits(m, blobs)) && r.Err? ==> r.error == Io || r.error == TransactionOutcomeUnknown
      ensures !old(CommitFits(m, blobs)) ==> r == Err(Io) || r == Err(ResourceLimit) || r == Err(Corruption)
    {
      r := Flush(m);
      if r.Err? { return; }
      r := Commit(blobs);
    }

    /** The change record of this transaction under a manifest. */
    ghost predicate Describes(c: ChangeCommit, m: Manifest)
      reads this, ws
    {
      && c.sequence == header.sequence && c.beforeTx == header.beforeTx
      && c.afterTx == m.meta.clock && c.manifest == m.raw && m.meta.anchor == Some(header.sequence)
      && PageMap(c.pages).Keys == touched
      && (forall i :: 0 <= i < |c.pages| ==> c.pages[i].pageId in touched && |c.pages[i].data| == PAGE_SIZE)
      && (forall id :: id in touched ==> id in ws.disk.pages && PageMap(c.pages)[id] == ws.disk.pages[id])
      && (forall i :: 0 <= i < |c.blobs| ==> IsHash(c.blobs[i].hash))
      && (forall h :: h in m.meta.hashes && h !in oldHashes ==> exists i :: 0 <= i < |c.blobs| && c.blobs[i].hash == h)
      && |c.pages| == |touched|
    }

    method BuildRecord(manifest: Manifest, blobs: map<bytes, bytes>) returns (r: Result<ChangeCommit>)
      requires used <= options.maxTransactionBytes
      ensures r.Err? ==> r.error == Io || r.error == ResourceLimit || r.error == Corruption
      ensures r.Ok? ==> Describes(r.value, manifest) && Gathers(manifest, blobs)
      ensures r.Ok? ==> r.value.blobs == NewBlobs(manifest.meta.hashes, oldHashes, blobs)
      ensures Gathers(manifest, blobs) && Affords(NextRecordLength(manifest, blobs)) ==> r.Ok?
    {
      NewBlobsExact(manifest.meta.hashes, oldHashes, blobs);
      if |manifest.raw| > options.maxTransactionBytes { return Err(ResourceLimit); }
      if manifest.meta.anchor != Some(header.sequence) { return Err(Corruption); }
      var budget := options.maxTransactionBytes - used;
      var pages := GatherPages(|manifest.raw|, budget);
      if pages.Err? { return Err(pages.error); }
      var added := GatherBlobs(manifest.meta.hashes, blobs, pages.value.1, budget);
      if added.Err? { return Err(added.error); }
      r := Ok(ChangeCommit(header.sequence, header.beforeTx, manifest.meta.clock, manifest.raw,
                           pages.value.0, added.value));
    }

    /** The gathered record is a proper record of this transaction. */
    lemma RecordOk(c: ChangeCommit, m: Manifest)
      requires Valid() && Anchored(m) && |Encode(c)| <= HARD_MAX_RECORD && Describes(c, m)
      requires m.meta.pageCount == pageCount
      ensures RecordsCommit(c, header, m, ws.disk.pages, ws.state.written)
    {
      SmallRecordIsWellFormed(c, m.meta.pageCount);
    }

    method Publish(c: ChangeCommit, m: Manifest) returns (r: Result<()>)
      requires Valid() && ws.disk.dirty == {} && ws.disk.Live() == m && Anchored(m)
      requires m.meta.pageCount >= header.pageCount && m.meta.anchor == Some(header.sequence)
      requires Active().change == Some(c) && ChangeEntry !in Active().loose
      requires RecordsCommit(c, header, m, ws.disk.pages, ws.state.written)
      modifies ws
      ensures ws.Valid() && old(ws.steps) <= ws.steps
      ensures r.Ok? ==> CommittedWithin(old(ws.state.hist), LiveImage(old(ws.disk)))
      ensures r == Err(TransactionOutcomeUnknown) ==>
        ws.state.hist == old(ws.state.hist) + [LiveImage(old(ws.disk))] && ws.disk.Log().active.None?
      ensures r.Err? && r.error != TransactionOutcomeUnknown ==>
        Valid() && ws.state.hist == old(ws.state.hist)
      ensures ws.reliable ==> r.Ok?
      ensures r.Err? ==> r.error == Io || r.error == TransactionOutcomeUnknown
    {
      var ok := ws.SyncRootDir();
      if !ok { return Err(Io); }
      r := SwitchOver(c, m);
    }

    /** The rename and its sync. */
    method SwitchOver(c: ChangeCommit, m: Manifest) returns (r: Result<()>)
      requires Valid() && ws.disk.dirty == {} && ws.disk.manifests == [m] && Anchored(m)
      requires m.meta.pageCount >= header.pageCount && m.meta.anchor == Some(header.sequence)
      requires Active().change == Some(c) && ChangeEntry !in Active().loose
      requires RecordsCommit(c, header, m, ws.disk.pages, ws.state.written)
      modifies ws
      ensures ws.Valid() && old(ws.steps) <= ws.steps
      ensures r.Ok? ==> CommittedWithin(old(ws.state.hist), LiveImage(old(ws.disk)))
      ensures r == Err(TransactionOutcomeUnknown) ==>
        ws.state.hist == old(ws.state.hist) + [LiveImage(old(ws.disk))] && ws.disk.Log().active.None?
      ensures r.Err? && r.error != TransactionOutcomeUnknown ==>
        Valid() && ws.state.hist == old(ws.state.hist)
      ensures ws.reliable ==> r.Ok?
      ensures r.Err? ==> r.error == Io || r.error == TransactionOutcomeUnknown
    {
      var ok := SwitchRename(c, m);
      if !ok { return Err(Io); }
      ok := SwitchSync(old(ws.state.hist), LiveImage(old(ws.disk)));
      r := if ok then Ok(()) else Err(TransactionOutcomeUnknown);
    }

    method SwitchSync(ghost hist: seq<Image>, ghost img: Image) returns (ok: bool)
      requires Renamed(hist, img)
      modifies ws
      ensures ws.Valid() && old(ws.steps) <= ws.steps && ws.state.hist == hist + [img] && ws.disk.Log().active.None?
      ensures ok ==> CommittedWithin(hist, img)
      ensures ws.reliable ==> ok
    {
      ok := ws.SyncLogDir();
    }

    /** The rename is taken, and the log is within its limits. */
    ghost predicate Renamed(hist: seq<Image>, img: Image)
      reads this, ws
    {
      && ws.Valid() && ws.disk.Log().active.None? && ws.state.hist == hist + [img]
      && LogSize(ws.disk.Log()) <= options.maxRetainedBytes
      && header.sequence in ws.disk.Log().commits
      && DirSize(ws.disk.Log().commits[header.sequence]) <= used <= options.maxTransactionBytes
    }

    method SwitchRename(c: ChangeCommit, m: Manifest) returns (ok: bool)
      requires Valid() && ws.disk.dirty == {} && ws.disk.manifests == [m] && Anchored(m)
      requires m.meta.pageCount >= header.pageCount && m.meta.anchor == Some(header.sequence)
      requires Active().change == Some(c) && ChangeEntry !in Active().loose
      requires RecordsCommit(c, header, m, ws.disk.pages, ws.state.written)
      modifies ws
      ensures ws.Valid() && old(ws.steps) <= ws.steps
      ensures ok ==> Renamed(old(ws.state.hist), LiveImage(old(ws.disk)))
      ensures !ok ==> Valid() && ws.state.hist == old(ws.state.hist)
      ensures ws.reliable ==> ok
    {
      SizeAfterCommit(ws.disk.Log(), header.sequence, Active());
      ok := ws.RenameActive();
    }
  }

  /** What `begin` asks for: no transaction to recover, a free commit slot, and room for the before-image. */
  ghost predicate BeginFits(d: Disk, options: Options)
    requires d.Shaped()
  {
    var l, need := d.Log(), |d.Live().raw| + 1024;
    && ValidOptions(options) && l.active.None? && |l.commits| < options.maxRetainedCommits
    && need <= options.maxTransactionBytes
    && LogSize(l.(preparing := None, discarded := None)) + need <= options.maxRetainedBytes
  }

  /** `begin`: stages the before-image and the header, then renames them to `active`. */
  method Begin(ws: Workspace, options: Options) returns (r: Result<Journal>)
    requires ws.Valid()
    modifies ws
    ensures ws.Valid() && old(ws.steps) <= ws.steps && ws.state.hist == old(ws.state.hist)
    ensures ws.disk.pages == old(ws.disk.pages) && ws.disk.dirty == old(ws.disk.dirty)
    ensures options.maxTransactionBytes == 0 || options.maxTransactionBytes > 0x1000_0000 ==> r == Err(ResourceLimit)
    ensures options.maxRetainedBytes < options.maxTransactionBytes ==> r == Err(ResourceLimit)
    ensures options.maxRetainedCommits == 0 || options.maxRetainedCommits > 65536 ==> r == Err(ResourceLimit)
    ensures ValidOptions(options) && old(ws.disk.Log()).active.Some? ==> r == Err(Transaction)
    ensures r.Ok? ==> fresh(r.value) && r.value.ws == ws && r.value.Valid() && r.value.touched == {}
    ensures r.Ok? ==> ws.disk.Live() == Last(ws.state.hist).manifest && ws.disk.Live().meta.anchor.Some?
    ensures r.Ok? ==> r.value.header == HeaderFor(ws.disk.Live())
    ensures r.Ok? ==> old(BeginFits(ws.disk, options)) && |ws.state.hist| < U64_END
    ensures ws.reliable && old(BeginFits(ws.disk, options)) && |ws.state.hist| < U64_END ==> r.Ok?
    ensures r.Err? ==> r.error == Io || r.error == ResourceLimit || r.error == Transaction
    ensures r == Err(Transaction) ==> old(ws.disk.Log()).active.Some?
    ensures r == Err(ResourceLimit) ==> !old(BeginFits(ws.disk, options)) || |ws.state.hist| >= U64_END
  {
    if !ValidOptions(options) { return Err(ResourceLimit); }
    var listing := ws.ListHistory();
    KeysCounted(listing.commits, ws.disk.Log().commits.Keys);
    if ws.disk.Log().active.Some? { return Err(Transaction); }
    var ok := ws.CleanupInactive();
    if !ok { return Err(Io); }
    if |listing.commits| >= options.maxRetainedCommits { return Err(ResourceLimit); }
    var retained := TreeSize(ws.disk.Log());
    var before := ws.disk.Live();
    CommittedBefore(ws.state);
    if |before.raw| > options.maxTransactionBytes { return Err(ResourceLimit); }
    if listing.head + 1 >= U64_END { return Err(ResourceLimit); }
    var header := HeaderFor(before);
    var reserved := |before.raw| + 1024;
    if reserved > options.maxTransactionBytes || retained + reserved > options.maxRetainedBytes {
      return Err(ResourceLimit);
    }
    HeaderFits(header);
    ok := Stage(ws, before, header);
    if !ok { return Err(Io); }
    var hashes := set h | h in before.meta.hashes;
    var journal := new Journal(ws, header, options, retained, hashes, reserved);
    r := Ok(journal);
  }

  lemma CommittedBefore(s: State)
    requires Inv(s) && s.disk.Log().active.None?
    ensures s.disk.Live() == Last(s.hist).manifest && Anchored(s.disk.Live())
    ensures s.disk.Live().meta.anchor == Some(|s.hist| - 1)
    ensures forall q :: q in s.disk.Log().commits ==> q < |s.hist|
  {
    LiveQuiet(s);
    LiveLog(s);
    assert s.disk.Live() in s.disk.manifests;
    assert ImageOk(s.hist[|s.hist| - 1], |s.hist| - 1);
  }

  function Staged(before: Manifest, header: Header): TxDir {
    TxDir(Some(before), Some(header), map[], None, {})
  }

  /** Each file is written and then the staging directory itself is synced. */
  method StageFiles(ws: Workspace, before: Manifest, header: Header) returns (ok: bool)
    requires ws.Valid() && ws.disk.Log().active.None?
    requires ws.disk.Log().preparing.None? && ws.disk.Log().discarded.None?
    modifies ws
    ensures ws.Quietly() && ws.disk.manifests == old(ws.disk.manifests)
    ensures ws.disk.pages == old(ws.disk.pages) && ws.disk.dirty == old(ws.disk.dirty)
    ensures ok ==> ws.disk.Log() == old(ws.disk.Log()).(preparing := Some(Staged(before, header)))
    ensures ws.reliable ==> ok
  {
    var dir := TxDir(None, None, map[], None, {});
    ok := ws.PutLeftovers(Some(dir), None);
    if !ok { return; }
    dir := dir.(before := Some(before), loose := {BeforeEntry});
    ok := ws.PutLeftovers(Some(dir), None);
    if !ok { return; }
    dir := dir.(header := Some(header), loose := {BeforeEntry, HeaderEntry});
    ok := ws.PutLeftovers(Some(dir), None);
    if !ok { return; }
    ok := ws.PutLeftovers(Some(dir.(loose := {})), None);
  }

  method Stage(ws: Workspace, before: Manifest, header: Header) returns (ok: bool)
    requires ws.Valid() && ws.disk.Live() == before && Anchored(before)
    requires header == HeaderFor(before) && header.sequence < U64_END
    requires ws.disk.Log().active.None? && ws.disk.Log().preparing.None? && ws.disk.Log().discarded.None?
    modifies ws
    ensures ws.Valid() && old(ws.steps) <= ws.steps && ws.state.hist == old(ws.state.hist)
    ensures ws.disk.pages == old(ws.disk.pages) && ws.disk.dirty == old(ws.disk.dirty)
    ensures ok ==> ws.state.open && ws.state.written == {} && |ws.disk.logs| == 1 && ws.disk.Live() == before
    ensures ok ==> ws.disk.Log() == old(ws.disk.Log()).(active := Some(Staged(before, header)))
    ensures ws.reliable ==> ok
  {
    ok := StageFiles(ws, before, header);
    if !ok { return; }
    ok := ws.ActivateStaged();
    if !ok { return; }
    ok := ws.SyncLogDir();
    if !ok { return; }
    ok := ws.SyncRootDir();
  }

  lemma SmallUndo(t: TxDir, id: nat, p: Page, used: nat)
    requires DirSize(t) + UNDO_FILE <= used <= HARD_MAX_RECORD
    ensures |t.undo.Keys + {id}| * UNDO_FILE <= HARD_MAX_RECORD
  {
    UndoSizeGrows(t, id, p);
    SmallerMul(|t.undo.Keys + {id}|, |t.undo| + 1);
  }

  /** A record that fits the hard limit is one the binary form can hold. */
  lemma SmallRecordIsWellFormed(c: ChangeCommit, pageCount: nat)
    requires |Encode(c)| <= HARD_MAX_RECORD && pageCount < U64_END
    requires c.sequence < U64_END && c.beforeTx < U64_END && c.afterTx < U64_END
    requires forall i :: 0 <= i < |c.pages| ==> c.pages[i].pageId < pageCount && |c.pages[i].data| == PAGE_SIZE
    requires forall i :: 0 <= i < |c.blobs| ==> IsHash(c.blobs[i].hash)
    ensures WellFormed(c)
  {
    RecordLength(c);
  }
}
