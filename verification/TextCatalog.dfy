/** Rebuilding and incrementally maintaining a persistent text index over a table's rows. */
module TextCatalog {
  import opened Core
  import opened MapSums
  import opened TextIndex
  import opened TextSearch

  /** A row prepared for indexing; the fingerprint stands for the hash of its id and fields. */
  datatype Prepared = Prepared(id: Id, fingerprint: bytes, text: Text)

  function DocsOf(rows: seq<Prepared>): Docs {
    if rows == [] then map[] else DocsOf(rows[..|rows| - 1])[Last(rows).id := DocOf(Last(rows).text)]
  }

  predicate DistinctIds(rows: seq<Prepared>) {
    forall i, j :: 0 <= i < j < |rows| ==> rows[i].id != rows[j].id
  }

  predicate TextsOk(rows: seq<Prepared>) {
    forall i :: 0 <= i < |rows| ==> TextOk(rows[i].text)
  }

  lemma {:induction false} DocsOfExact(rows: seq<Prepared>)
    requires DistinctIds(rows)
    ensures forall i :: 0 <= i < |rows| ==>
      rows[i].id in DocsOf(rows) && DocsOf(rows)[rows[i].id] == DocOf(rows[i].text)
    ensures forall id :: id in DocsOf(rows) ==> exists i :: 0 <= i < |rows| && rows[i].id == id
    decreases |rows|
  {
    if rows != [] {
      var n := |rows| - 1;
      var front := rows[..n];
      DocsOfExact(front);
      forall i | 0 <= i < |rows| ensures rows[i].id in DocsOf(rows) && DocsOf(rows)[rows[i].id] == DocOf(rows[i].text) {
        if i < n { assert front[i] == rows[i]; }
      }
      forall id | id in DocsOf(rows) ensures exists i :: 0 <= i < |rows| && rows[i].id == id {
        if id in DocsOf(front) {
          var i :| 0 <= i < |front| && front[i].id == id;
          assert rows[i].id == id;
        } else {
          assert rows[n].id == id;
        }
      }
    }
  }

  // ---- a part of a corpus within the limits is within them ----

  lemma PartSums(part: Docs, whole: Docs)
    requires Submap(part, whole)
    ensures Submap(Sizes(part), Sizes(whole)) && Vocabulary(part) <= Vocabulary(whole)
  {
    forall t | t in Vocabulary(part) ensures t in Vocabulary(whole) {
      var id :| id in part && t in part[id].terms;
      assert id in whole && t in whole[id].terms;
    }
  }

  lemma PartWithin(part: Docs, whole: Docs)
    requires Submap(part, whole) && Within(whole)
    ensures Within(part)
  {
    PartSums(part, whole);
    TotalSubmap(Sizes(part), Sizes(whole));
    SubsetCard(Vocabulary(part), Vocabulary(whole));
    SubsetCard(part.Keys, whole.Keys);
  }

  /** Adding a new document stays within the limits exactly when the outcome does. */
  lemma AddFits(docs: Docs, id: Id, t: Text)
    requires Within(docs) && TextOk(t) && id !in docs
    ensures UpsertFits(docs, id, t) <==> Within(docs[id := DocOf(t)])
  {
    if UpsertFits(docs, id, t) {
      WithinMore(docs, id, t);
    } else if Within(docs[id := DocOf(t)]) {
      AddFitsBack(docs, id, t);
    }
  }

  lemma AddFitsBack(docs: Docs, id: Id, t: Text)
    requires id !in docs && Within(docs[id := DocOf(t)])
    ensures UpsertFits(docs, id, t)
  {
    var more := docs[id := DocOf(t)];
    assert id in more;
    AddSums(docs, id, t);
    SumsOfLess(docs, id);
    VocabularyMore(docs, id, DocOf(t));
    assert Submap(docs, more);
    PartSums(docs, more);
    assert Frequencies(t.words).Keys <= Vocabulary(more);
    SubsetCard(Vocabulary(docs) + Frequencies(t.words).Keys, Vocabulary(more));
  }

  lemma {:induction false} PrefixSubmap(rows: seq<Prepared>, i: nat)
    requires DistinctIds(rows) && i <= |rows|
    ensures Submap(DocsOf(rows[..i]), DocsOf(rows))
  {
    DocsOfExact(rows[..i]);
    DocsOfExact(rows);
    forall id | id in DocsOf(rows[..i]) ensures id in DocsOf(rows) && DocsOf(rows[..i])[id] == DocsOf(rows)[id] {
      var k :| 0 <= k < i && rows[..i][k].id == id;
      assert rows[k] == rows[..i][k];
    }
  }

  /** `from_rows`: in any order of the rows it succeeds exactly when ids are distinct and the corpus fits. */
  method Build(rows: seq<Prepared>) returns (r: Result<SearchIndex>)
    requires TextsOk(rows)
    ensures r.Ok? <==> DistinctIds(rows) && Within(DocsOf(rows))
    ensures r.Err? ==> r.error == Error.Query
    ensures r.Ok? ==> fresh(r.value) && r.value.Valid() && r.value.documents == DocsOf(rows)
  {
    var ix := new SearchIndex();
    for i := 0 to |rows|
      invariant fresh(ix) && ix.Valid() && ix.documents == DocsOf(rows[..i]) && DistinctIds(rows[..i])
    {
      var row := rows[i];
      assert rows[..i + 1][..i] == rows[..i] && Last(rows[..i + 1]) == row;
      DocsOfExact(rows[..i]);
      if row.id in ix.documents {
        RepeatedId(rows, i);
        return Err(Error.Query);
      }
      NewId(rows, i);
      AddFits(ix.documents, row.id, row.text);
      var ok := ix.Upsert(row.id, row.text);
      if !ok {
        NotWithin(rows, i + 1);
        return Err(Error.Query);
      }
    }
    assert rows[..|rows|] == rows;
    r := Ok(ix);
  }

  lemma RepeatedId(rows: seq<Prepared>, i: nat)
    requires i < |rows| && DistinctIds(rows[..i]) && rows[i].id in DocsOf(rows[..i])
    ensures !DistinctIds(rows)
  {
    DocsOfExact(rows[..i]);
    var k :| 0 <= k < i && rows[..i][k].id == rows[i].id;
    assert rows[k].id == rows[i].id;
  }

  lemma NewId(rows: seq<Prepared>, i: nat)
    requires i < |rows| && DistinctIds(rows[..i]) && rows[i].id !in DocsOf(rows[..i])
    ensures DistinctIds(rows[..i + 1])
  {
    DocsOfExact(rows[..i]);
    forall j, k | 0 <= j < k < i + 1 ensures rows[j].id != rows[k].id {
      assert rows[..i][j] == rows[j];
      if k < i { assert rows[..i][k] == rows[k]; }
    }
  }

  lemma NotWithin(rows: seq<Prepared>, i: nat)
    requires i <= |rows| && !Within(DocsOf(rows[..i]))
    ensures !(DistinctIds(rows) && Within(DocsOf(rows)))
  {
    if DistinctIds(rows) && Within(DocsOf(rows)) {
      PrefixSubmap(rows, i);
      PartWithin(DocsOf(rows[..i]), DocsOf(rows));
    }
  }

  // ---- named and unnamed retrieval ----

  /** Every selected row is in the index as it stands in the table. */
  predicate Current(docs: Docs, rows: seq<Prepared>) {
    forall i :: 0 <= i < |rows| ==> rows[i].id in docs && docs[rows[i].id] == DocOf(rows[i].text)
  }

  function Ids(rows: seq<Prepared>): set<Id> { set i | 0 <= i < |rows| :: rows[i].id }

  /** The selected documents of a current index are those of the rows. */
  lemma SelectedDocs(docs: Docs, rows: seq<Prepared>)
    requires Current(docs, rows) && DistinctIds(rows)
    ensures Restrict(docs, Ids(rows)) == DocsOf(rows) && Submap(DocsOf(rows), docs)
    ensures DocsOf(rows).Keys == Ids(rows)
  {
    DocsOfExact(rows);
    forall id ensures id in DocsOf(rows) <==> id in Ids(rows) {
      if id in DocsOf(rows) { var i :| 0 <= i < |rows| && rows[i].id == id; }
    }
    forall id | id in DocsOf(rows) ensures id in docs && DocsOf(rows)[id] == docs[id] {
      var i :| 0 <= i < |rows| && rows[i].id == id;
    }
  }

  /** An id unknown to the index comes before any id is repeated. */
  ghost predicate StrangerFirst(docs: Docs, rows: seq<Prepared>, i: int) {
    0 <= i < |rows| && rows[i].id !in docs && DistinctIds(rows[..i + 1])
  }

  lemma RepeatFirst(docs: Docs, rows: seq<Prepared>, i: nat, k: nat)
    requires k < i < |rows| && rows[k].id == rows[i].id && forall j :: 0 <= j < i ==> rows[j].id in docs
    ensures !exists j :: StrangerFirst(docs, rows, j)
  {
    forall j ensures !StrangerFirst(docs, rows, j) {
      if i <= j < |rows| { assert rows[..j + 1][k].id == rows[..j + 1][i].id; }
    }
  }

  /**
   `selected_ids`: distinct ids, each known to the index. An unknown id means a damaged index, unless a repeated
   id or their number refused the rows first.
   */
  method SelectedIds(docs: Docs, rows: seq<Prepared>) returns (r: Result<set<Id>>)
    ensures r.Ok? <==>
      |rows| <= MAX_DOCUMENTS && DistinctIds(rows) && forall i :: 0 <= i < |rows| ==> rows[i].id in docs
    ensures r.Ok? ==> r.value == Ids(rows)
    ensures r.Err? ==> r.error == Error.Query || r.error == Corruption
    ensures r == Err(Corruption) <==> |rows| <= MAX_DOCUMENTS && exists i :: StrangerFirst(docs, rows, i)
  {
    if |rows| > MAX_DOCUMENTS { return Err(Error.Query); }
    var ids: set<Id> := {};
    for i := 0 to |rows|
      invariant DistinctIds(rows[..i]) && forall k :: 0 <= k < i ==> rows[k].id in docs
      invariant ids == Ids(rows[..i])
    {
      assert forall k :: 0 <= k < i ==> rows[..i][k] == rows[k];
      if rows[i].id in ids {
        var k :| 0 <= k < i && rows[..i][k].id == rows[i].id;
        assert rows[k].id == rows[i].id;
        RepeatFirst(docs, rows, i, k);
        return Err(Error.Query);
      }
      forall j, k | 0 <= j < k < i + 1 ensures rows[j].id != rows[k].id {
        if k == i { assert rows[..i][j].id in Ids(rows[..i]); } else { assert rows[..i][j].id != rows[..i][k].id; }
      }
      if rows[i].id !in docs {
        assert StrangerFirst(docs, rows, i);
        return Err(Corruption);
      }
      assert rows[..i + 1] == rows[..i] + [rows[i]];
      assert Ids(rows[..i + 1]) == Ids(rows[..i]) + {rows[i].id};
      ids := ids + {rows[i].id};
    }
    assert rows[..|rows|] == rows;
    r := Ok(ids);
  }

  /** What retrieval over rebuilt rows answers; every search failure is a query error. */
  ghost function Unnamed<F>(sc: Scorer<F>, rows: seq<Prepared>, q: Query, limit: nat): Result<seq<Hit<F>>> {
    if !DistinctIds(rows) || !Within(DocsOf(rows)) || Find(sc, DocsOf(rows), q, limit).Err? then Err(Error.Query)
    else Find(sc, DocsOf(rows), q, limit)
  }

  lemma {:induction false} CountIds(rows: seq<Prepared>)
    requires DistinctIds(rows)
    ensures |Ids(rows)| == |rows|
    decreases |rows|
  {
    if rows != [] {
      var front := rows[..|rows| - 1];
      CountIds(front);
      assert rows == front + [Last(rows)];
      assert forall k :: 0 <= k < |front| ==> front[k] == rows[k];
      assert Ids(rows) == Ids(front) + {Last(rows).id};
      assert Last(rows).id !in Ids(front);
    }
  }

  /**
   `text_hits`: a named index that is current for the selected rows answers exactly as the unnamed
   path, which rebuilds an index from those rows.
   */
  method TextHits<F(!new)>(entry: Option<SearchIndex>, sc: Scorer<F>, rows: seq<Prepared>, q: Query, limit: nat)
      returns (r: Result<seq<Hit<F>>>)
    requires TextsOk(rows) && (entry.Some? ==> entry.value.Valid() && Current(entry.value.documents, rows))
    ensures r == Unnamed(sc, rows, q, limit)
  {
    if entry.Some? {
      var docs := entry.value.documents;
      var ids := SelectedIds(docs, rows);
      if DistinctIds(rows) {
        SelectedDocs(docs, rows);
        PartWithin(DocsOf(rows), docs);
        CountIds(rows);
      }
      if ids.Err? { return Err(Error.Query); }
      r := SearchFiltered(entry.value, sc, q, limit, ids.value);
    } else {
      var ix := Build(rows);
      if ix.Err? { return Err(Error.Query); }
      r := Search(ix.value, sc, q, limit);
    }
    if r.Err? { r := Err(Error.Query); }
  }

  // ---- incremental maintenance ----

  datatype SourceDocument = SourceDocument(fingerprint: bytes, bytes: nat)

  function SourceOf(p: Prepared): SourceDocument { SourceDocument(p.fingerprint, p.text.bytes) }

  type Corpora = map<Id, Prepared>

  function SourcesOf(m: Corpora): map<Id, SourceDocument> { map id | id in m :: SourceOf(m[id]) }
  function DocsIn(m: Corpora): Docs { map id | id in m :: DocOf(m[id].text) }

  predicate Keyed(m: Corpora) { forall id :: id in m ==> m[id].id == id && TextOk(m[id].text) }

  /** Equal fingerprints come from equal rows. */
  predicate CollisionFree(rows: Corpora, ps: seq<Prepared>) {
    forall id, i :: id in rows && 0 <= i < |ps| && rows[id].fingerprint == ps[i].fingerprint ==> rows[id] == ps[i]
  }

  /** The rows as a map, when their ids are distinct. */
  function MapOf(rows: seq<Prepared>): Corpora {
    if rows == [] then map[] else MapOf(rows[..|rows| - 1])[Last(rows).id := Last(rows)]
  }

  lemma {:induction false} MapOfExact(rows: seq<Prepared>)
    requires DistinctIds(rows)
    ensures forall i :: 0 <= i < |rows| ==> rows[i].id in MapOf(rows) && MapOf(rows)[rows[i].id] == rows[i]
    ensures forall id :: id in MapOf(rows) ==> MapOf(rows)[id] in rows && MapOf(rows)[id].id == id
    decreases |rows|
  {
    if rows != [] {
      var n := |rows| - 1;
      MapOfExact(rows[..n]);
      assert forall i :: 0 <= i < n ==> rows[..n][i] == rows[i];
      assert forall p :: p in rows[..n] ==> p in rows;
    }
  }

  /** Collects rows by id; None on a repeated id. */
  method Collect(rows: seq<Prepared>) returns (m: Option<Corpora>)
    ensures m == if DistinctIds(rows) then Some(MapOf(rows)) else None
  {
    var all: Corpora := map[];
    for i := 0 to |rows|
      invariant DistinctIds(rows[..i]) && all == MapOf(rows[..i])
    {
      CollectStep(rows, i);
      if rows[i].id in all { return None; }
      all := all[rows[i].id := rows[i]];
    }
    assert rows[..|rows|] == rows;
    m := Some(all);
  }

  lemma CollectStep(rows: seq<Prepared>, i: nat)
    requires i < |rows| && DistinctIds(rows[..i])
    ensures MapOf(rows[..i + 1]) == MapOf(rows[..i])[rows[i].id := rows[i]]
    ensures if rows[i].id in MapOf(rows[..i]) then !DistinctIds(rows) else DistinctIds(rows[..i + 1])
  {
    var front, more := rows[..i], rows[..i + 1];
    assert more[..i] == front && Last(more) == rows[i];
    MapOfExact(front);
    if rows[i].id in MapOf(front) {
      var k :| 0 <= k < i && front[k] == MapOf(front)[rows[i].id];
      assert rows[k].id == rows[i].id;
    } else {
      forall j, k | 0 <= j < k < i + 1 ensures more[j].id != more[k].id {
        assert more[j] == front[j];
        if k < i { assert more[k] == front[k]; }
      }
    }
  }

  /** The table's rows after a statement took some out and put others in. */
  function After(rows: Corpora, gone: Corpora, more: Corpora): Corpora {
    (rows - gone.Keys) + more
  }

  ghost predicate EntryOk(sources: map<Id, SourceDocument>, bytes: nat, docs: Docs, rows: Corpora) {
    && bytes == Total(Sizes(docs))
    && forall id {:trigger Matched(sources, docs, rows, id)} :: Matched(sources, docs, rows, id)
  }

  predicate Matched(sources: map<Id, SourceDocument>, docs: Docs, rows: Corpora, id: Id) {
    && (id in sources <==> id in rows) && (id in docs <==> id in rows)
    && (id in rows ==>
      rows[id].id == id && TextOk(rows[id].text) && sources[id] == SourceOf(rows[id])
        && docs[id] == DocOf(rows[id].text))
  }

  lemma EntryLess(sources: map<Id, SourceDocument>, bytes: nat, docs: Docs, rows: Corpora, id: Id)
    requires EntryOk(sources, bytes, docs, rows) && id in sources
    ensures bytes >= sources[id].bytes && EntryOk(sources - {id}, bytes - sources[id].bytes, docs - {id}, rows - {id})
  {
    assert Matched(sources, docs, rows, id);
    RemoveSums(docs, id);
    forall j ensures Matched(sources - {id}, docs - {id}, rows - {id}, j) { assert Matched(sources, docs, rows, j); }
  }

  lemma EntryMore(sources: map<Id, SourceDocument>, bytes: nat, docs: Docs, rows: Corpora, p: Prepared)
    requires EntryOk(sources, bytes, docs, rows) && p.id !in rows && TextOk(p.text)
    ensures EntryOk(sources[p.id := SourceOf(p)], bytes + p.text.bytes, docs[p.id := DocOf(p.text)], rows[p.id := p])
  {
    assert Matched(sources, docs, rows, p.id);
    AddSums(docs, p.id, p.text);
    DropAbsent(docs, p.id);
    var s2, d2, r2 := sources[p.id := SourceOf(p)], docs[p.id := DocOf(p.text)], rows[p.id := p];
    forall j ensures Matched(s2, d2, r2, j) {
      assert Matched(sources, docs, rows, j);
    }
  }

  /** The entry's own checks; with the index's they ask exactly whether the larger corpus fits. */
  method CheckAdd(sources: map<Id, SourceDocument>, bytes: nat, ghost docs: Docs, ghost rows: Corpora, p: Prepared)
      returns (ok: bool)
    requires EntryOk(sources, bytes, docs, rows) && Within(docs) && TextOk(p.text)
    ensures !ok ==> !(p.id !in rows && Within(docs[p.id := DocOf(p.text)]))
    ensures ok ==> p.id !in rows && (UpsertFits(docs, p.id, p.text) <==> Within(docs[p.id := DocOf(p.text)]))
  {
    assert Matched(sources, docs, rows, p.id);
    if p.id in sources { return false; }
    AddFits(docs, p.id, p.text);
    DropAbsent(docs, p.id);
    SumsOfLess(docs, p.id);
    SameCount(sources, docs, rows);
    ok := |sources| < MAX_DOCUMENTS && bytes + p.text.bytes <= MAX_TOTAL_BYTES;
  }

  method DropSource(sources: map<Id, SourceDocument>, bytes: nat, id: Id, ghost docs: Docs, ghost rows: Corpora)
    returns (fewer: map<Id, SourceDocument>, less: nat)
    requires EntryOk(sources, bytes, docs, rows) && id in rows
    ensures EntryOk(fewer, less, docs - {id}, rows - {id})
  {
    assert Matched(sources, docs, rows, id);
    EntryLess(sources, bytes, docs, rows, id);
    fewer, less := sources - {id}, bytes - sources[id].bytes;
  }

  class Entry {
    var sources: map<Id, SourceDocument>
    var sourceBytes: nat
    const data: SearchIndex
    ghost var rows: Corpora

    ghost predicate Valid()
      reads this, data
    {
      data.Valid() && EntryOk(sources, sourceBytes, data.documents, rows)
    }

    constructor ()
      ensures Valid() && fresh(data) && rows == map[]
    {
      sources, sourceBytes, rows := map[], 0, map[];
      data := new SearchIndex();
      new;
      assert SourcesOf(map[]) == map[] && DocsIn(map[]) == map[] && Sizes(map[]) == map[];
    }

    /** `add`: refused exactly when the id is taken or the larger corpus breaks a limit. */
    method Add(p: Prepared) returns (ok: bool)
      requires Valid() && TextOk(p.text)
      modifies this, data
      ensures Valid() && rows == if ok then old(rows)[p.id := p] else old(rows)
      ensures ok <==> p.id !in old(rows) && Within(old(data.documents)[p.id := DocOf(p.text)])
    {
      ok := CheckAdd(sources, sourceBytes, data.documents, rows, p);
      if !ok { return; }
      EntryMore(sources, sourceBytes, data.documents, rows, p);
      ok := data.Upsert(p.id, p.text);
      if ok {
        sources, sourceBytes, rows := sources[p.id := SourceOf(p)], sourceBytes + p.text.bytes, rows[p.id := p];
      }
    }

    method Drop(id: Id)
      requires Valid() && id in rows
      modifies this, data
      ensures Valid() && rows == old(rows) - {id}
    {
      sources, sourceBytes := DropSource(sources, sourceBytes, id, data.documents, rows);
      rows := rows - {id};
      var _ := data.Remove(id);
    }
  }

  lemma SameCount(sources: map<Id, SourceDocument>, docs: Docs, rows: Corpora)
    requires forall id {:trigger Matched(sources, docs, rows, id)} :: Matched(sources, docs, rows, id)
    ensures |sources| == |docs|
  {
    forall id ensures id in sources.Keys <==> id in docs.Keys { assert Matched(sources, docs, rows, id); }
    assert sources.Keys == docs.Keys;
  }

  // ---- several documents at once ----

  /** The corpus an entry's index holds is that of its rows. */
  lemma EntryDocs(sources: map<Id, SourceDocument>, bytes: nat, docs: Docs, rows: Corpora)
    requires EntryOk(sources, bytes, docs, rows)
    ensures docs == DocsIn(rows)
  {
    forall id ensures (id in docs <==> id in DocsIn(rows)) && (id in docs ==> docs[id] == DocsIn(rows)[id]) {
      assert Matched(sources, docs, rows, id);
    }
  }

  function DropList(rows: Corpora, ids: seq<Id>): Corpora {
    if ids == [] then rows else DropList(rows, ids[..|ids| - 1]) - {Last(ids)}
  }

  function AddList(rows: Corpora, ps: seq<Prepared>): Corpora {
    if ps == [] then rows else AddList(rows, ps[..|ps| - 1])[Last(ps).id := Last(ps)]
  }

  lemma {:induction false} DropListExact(rows: Corpora, ids: seq<Id>, id: Id)
    ensures id in DropList(rows, ids) <==> id in rows && id !in ids
    ensures id in DropList(rows, ids) ==> DropList(rows, ids)[id] == rows[id]
    decreases |ids|
  {
    if ids != [] {
      DropListExact(rows, ids[..|ids| - 1], id);
      assert ids == ids[..|ids| - 1] + [Last(ids)];
    }
  }

  lemma {:induction false} AddListExact(rows: Corpora, ps: seq<Prepared>, id: Id)
    requires DistinctIds(ps)
    ensures id in AddList(rows, ps) <==> id in rows || id in MapOf(ps)
    ensures id in MapOf(ps) ==> AddList(rows, ps)[id] == MapOf(ps)[id]
    ensures id in rows && id !in MapOf(ps) ==> AddList(rows, ps)[id] == rows[id]
    decreases |ps|
  {
    if ps != [] { AddListExact(rows, ps[..|ps| - 1], id); }
  }

  lemma DropStep(rows: Corpora, ids: seq<Id>, i: nat)
    requires i < |ids| && (forall j, k :: 0 <= j < k < |ids| ==> ids[j] != ids[k]) && ids[i] in rows
    ensures ids[i] in DropList(rows, ids[..i]) && DropList(rows, ids[..i + 1]) == DropList(rows, ids[..i]) - {ids[i]}
  {
    DropListExact(rows, ids[..i], ids[i]);
    assert ids[..i + 1][..i] == ids[..i];
  }

  method DropAll(e: Entry, ids: seq<Id>)
    requires e.Valid() && (forall i, j :: 0 <= i < j < |ids| ==> ids[i] != ids[j]) && forall i :: 0 <= i < |ids| ==>
      ids[i] in e.rows
    modifies e, e.data
    ensures e.Valid() && e.rows == DropList(old(e.rows), ids)
  {
    ghost var before := e.rows;
    for i := 0 to |ids|
      invariant e.Valid() && e.rows == DropList(before, ids[..i])
    {
      DropStep(before, ids, i);
      e.Drop(ids[i]);
    }
    assert ids[..|ids|] == ids;
  }

  /** The rows are new to the table and together fit. */
  ghost predicate Addable(rows: Corpora, ps: seq<Prepared>) {
    AllNew(rows, ps) && Within(DocsIn(AddList(rows, ps)))
  }

  lemma AddableFront(rows: Corpora, ps: seq<Prepared>)
    requires DistinctIds(ps) && ps != [] && Addable(rows, ps)
    ensures Addable(rows, ps[..|ps| - 1])
  {
    var front := ps[..|ps| - 1];
    AddListExact(rows, front, Last(ps).id);
    LastIsNew(ps);
    FrontSubmap(AddList(rows, front), Last(ps));
    PartWithin(DocsIn(AddList(rows, front)), DocsIn(AddList(rows, ps)));
  }

  lemma DistinctFront(ps: seq<Prepared>)
    requires DistinctIds(ps) && ps != []
    ensures DistinctIds(ps[..|ps| - 1])
  {}

  lemma FrontSubmap(rows: Corpora, p: Prepared)
    requires p.id !in rows
    ensures Submap(DocsIn(rows), DocsIn(rows[p.id := p]))
  {}

  lemma {:induction false} AddablePrefix(rows: Corpora, ps: seq<Prepared>, i: nat)
    requires DistinctIds(ps) && i <= |ps| && Addable(rows, ps)
    ensures Addable(rows, ps[..i])
    decreases |ps|
  {
    if i < |ps| {
      var front := ps[..|ps| - 1];
      AddableFront(rows, ps);
      DistinctFront(ps);
      AddablePrefix(rows, front, i);
      assert front[..i] == ps[..i];
    } else {
      assert ps[..i] == ps;
    }
  }

  lemma LastIsNew(ps: seq<Prepared>)
    requires DistinctIds(ps) && ps != []
    ensures Last(ps).id !in MapOf(ps[..|ps| - 1])
  {
    var front := ps[..|ps| - 1];
    MapOfExact(front);
    assert forall k :: 0 <= k < |front| ==> front[k] == ps[k];
    assert forall p :: p in front ==> p.id != Last(ps).id;
  }

  lemma DocsInSet(rows: Corpora, p: Prepared)
    ensures DocsIn(rows[p.id := p]) == DocsIn(rows)[p.id := DocOf(p.text)]
  {}

  lemma AddListSnoc(rows: Corpora, ps: seq<Prepared>, i: nat)
    requires DistinctIds(ps) && i < |ps|
    ensures AddList(rows, ps[..i + 1]) == AddList(rows, ps[..i])[ps[i].id := ps[i]]
    ensures ps[i].id in AddList(rows, ps[..i]) <==> ps[i].id in rows
  {
    var front, more := ps[..i], ps[..i + 1];
    assert more[..i] == front && Last(more) == ps[i];
    AddListExact(rows, front, ps[i].id);
    LastIsNew(more);
  }

  ghost predicate AllNew(rows: Corpora, ps: seq<Prepared>) {
    forall i :: 0 <= i < |ps| ==> ps[i].id !in rows
  }

  lemma AllNewSnoc(rows: Corpora, ps: seq<Prepared>, i: nat)
    requires i < |ps|
    ensures AllNew(rows, ps[..i + 1]) <==> AllNew(rows, ps[..i]) && ps[i].id !in rows
  {
    assert ps[..i + 1] == ps[..i] + [ps[i]];
    assert (ps[..i] + [ps[i]])[i] == ps[i];
    if AllNew(rows, ps[..i + 1]) {
      forall k | 0 <= k < i ensures ps[..i][k].id !in rows { assert ps[..i + 1][k] == ps[..i][k]; }
    }
  }

  /** What `add` tests for the next row is whether the batch so far still fits. */
  lemma AddableStep(rows: Corpora, ps: seq<Prepared>, i: nat)
    requires DistinctIds(ps) && i < |ps| && Addable(rows, ps[..i])
    ensures var now := AddList(rows, ps[..i]);
      Addable(rows, ps[..i + 1]) <==> ps[i].id !in now && Within(DocsIn(now)[ps[i].id := DocOf(ps[i].text)])
    ensures AddList(rows, ps[..i + 1]) == AddList(rows, ps[..i])[ps[i].id := ps[i]]
  {
    AddListSnoc(rows, ps, i);
    AllNewSnoc(rows, ps, i);
    DocsInSet(AddList(rows, ps[..i]), ps[i]);
  }

  /** New rows in any order: refused exactly when an id is taken or the whole does not fit. */
  method AddAll(e: Entry, ps: seq<Prepared>) returns (ok: bool)
    requires e.Valid() && DistinctIds(ps) && TextsOk(ps)
    modifies e, e.data
    ensures e.Valid() && (ok ==> e.rows == AddList(old(e.rows), ps))
    ensures ok <==> Addable(old(e.rows), ps)
  {
    ghost var before := e.rows;
    EntryDocs(e.sources, e.sourceBytes, e.data.documents, e.rows);
    for i := 0 to |ps|
      invariant e.Valid() && e.rows == AddList(before, ps[..i]) && Addable(before, ps[..i])
    {
      AddableStep(before, ps, i);
      EntryDocs(e.sources, e.sourceBytes, e.data.documents, e.rows);
      ok := e.Add(ps[i]);
      if !ok {
        if Addable(before, ps) { AddablePrefix(before, ps, i + 1); }
        return;
      }
    }
    assert ps[..|ps|] == ps;
    ok := true;
  }

  // ---- one statement ----

  ghost predicate Present(rows: Corpora, ps: seq<Prepared>, n: nat)
    requires n <= |ps|
  {
    forall i :: 0 <= i < n ==> ps[i].id in rows && rows[ps[i].id] == ps[i]
  }

  /** The rows a statement removed are those the entry has under their ids. */
  method CheckRemoved(sources: map<Id, SourceDocument>, removed: seq<Prepared>, ghost bytes: nat, ghost docs: Docs,
      ghost rows: Corpora) returns (ok: bool)
    requires EntryOk(sources, bytes, docs, rows) && CollisionFree(rows, removed)
    ensures ok <==> Present(rows, removed, |removed|)
  {
    for i := 0 to |removed|
      invariant Present(rows, removed, i)
    {
      var p := removed[i];
      assert Matched(sources, docs, rows, p.id);
      if p.id !in sources || sources[p.id] != SourceOf(p) { return false; }
    }
    ok := true;
  }

  /** A map's rows in ascending order of id. */
  method ListRows(m: Corpora) returns (ps: seq<Prepared>)
    requires Keyed(m)
    ensures DistinctIds(ps) && TextsOk(ps) && MapOf(ps) == m
  {
    var ids := ListInOrder(m.Keys);
    ps := seq(|ids|, i requires 0 <= i < |ids| => assert ids[i] in ids; m[ids[i]]);
    forall i | 0 <= i < |ids| ensures ids[i] in m && ps[i] == m[ids[i]] && ps[i].id == ids[i] && TextOk(ps[i].text) {
      assert ids[i] in ids;
    }
    ListedExactly(m, ids, ps);
  }

  lemma ListedExactly(m: Corpora, ids: seq<Id>, ps: seq<Prepared>)
    requires (forall id :: id in ids <==> id in m) && Ascends(ids) && |ps| == |ids|
    requires forall i :: 0 <= i < |ids| ==> ids[i] in m && ps[i] == m[ids[i]] && ps[i].id == ids[i]
    ensures DistinctIds(ps) && MapOf(ps) == m
  {
    forall i, j | 0 <= i < j < |ps| ensures ps[i].id != ps[j].id { assert ids[i] < ids[j]; }
    MapOfExact(ps);
    forall id ensures (id in MapOf(ps) <==> id in m) && (id in m ==> MapOf(ps)[id] == m[id]) {
      if id in m {
        assert id in ids;
        var i :| 0 <= i < |ids| && ids[i] == id;
        assert ps[i].id == id;
      }
      if id in MapOf(ps) {
        var i :| 0 <= i < |ps| && ps[i] == MapOf(ps)[id];
        assert ids[i] in ids;
      }
    }
  }

  /** Ids whose row a statement replaced by an equal one. */
  function Unchanged(gone: Corpora, more: Corpora): set<Id> {
    set id | id in gone && id in more && gone[id].fingerprint == more[id].fingerprint
  }

  /** The whole statement is acceptable: what leaves is there, what comes is new, and the outcome fits. */
  ghost predicate ApplyOk(rows: Corpora, removed: seq<Prepared>, added: seq<Prepared>) {
    && DistinctIds(removed) && DistinctIds(added) && Present(rows, removed, |removed|)
    && (forall id :: id in MapOf(added) ==> id !in rows || id in MapOf(removed))
    && Within(DocsIn(After(rows, MapOf(removed), MapOf(added))))
  }

  lemma UnchangedAreEqual(rows: Corpora, removed: seq<Prepared>, added: seq<Prepared>)
    requires DistinctIds(removed) && DistinctIds(added) && Present(rows, removed, |removed|)
      && CollisionFree(rows, added)
    ensures forall id :: id in Unchanged(MapOf(removed), MapOf(added)) ==> id in rows && rows[id] == MapOf(added)[id]
    ensures forall id :: id in MapOf(removed) ==> id in rows && rows[id] == MapOf(removed)[id]
  {
    MapOfExact(removed);
    MapOfExact(added);
    forall id | id in MapOf(removed) ensures id in rows && rows[id] == MapOf(removed)[id] {
      var i :| 0 <= i < |removed| && removed[i] == MapOf(removed)[id];
    }
    forall id | id in Unchanged(MapOf(removed), MapOf(added)) ensures rows[id] == MapOf(added)[id] {
      var k :| 0 <= k < |added| && added[k] == MapOf(added)[id];
    }
  }

  /** Leaving equal replacements alone leads to the same rows. */
  lemma SkippingIsSame(rows: Corpora, gone: Corpora, more: Corpora, ids: seq<Id>, ps: seq<Prepared>)
    requires forall id :: id in Unchanged(gone, more) ==> id in rows && rows[id] == more[id]
    requires forall id :: id in ids <==> id in gone - Unchanged(gone, more)
    requires DistinctIds(ps) && MapOf(ps) == more - Unchanged(gone, more)
    ensures AddList(DropList(rows, ids), ps) == After(rows, gone, more)
    ensures (forall id :: id in MapOf(ps) ==> id !in DropList(rows, ids)) <==>
      (forall id :: id in more ==> id !in rows || id in gone)
  {
    var same := Unchanged(gone, more);
    var mid := DropList(rows, ids);
    forall id
      ensures id in AddList(mid, ps) <==> id in After(rows, gone, more)
      ensures id in AddList(mid, ps) ==> AddList(mid, ps)[id] == After(rows, gone, more)[id]
      ensures id in MapOf(ps) && id in mid <==> id in more && id in rows && id !in gone
    {
      DropListExact(rows, ids, id);
      AddListExact(mid, ps, id);
    }
  }

  lemma AllNewMap(rows: Corpora, ps: seq<Prepared>)
    requires DistinctIds(ps)
    ensures AllNew(rows, ps) <==> forall id :: id in MapOf(ps) ==> id !in rows
  {
    MapOfExact(ps);
    if AllNew(rows, ps) {
      forall id | id in MapOf(ps) ensures id !in rows {
        var i :| 0 <= i < |ps| && ps[i] == MapOf(ps)[id];
      }
    }
  }

  /** The changes that remain once equal replacements are left alone. */
  method Changes(gone: Corpora, more: Corpora) returns (ids: seq<Id>, ps: seq<Prepared>)
    requires Keyed(more)
    ensures Ascends(ids) && forall id :: id in ids <==> id in gone - Unchanged(gone, more)
    ensures DistinctIds(ps) && TextsOk(ps) && MapOf(ps) == more - Unchanged(gone, more)
  {
    var same := Unchanged(gone, more);
    ids := ListInOrder((gone - same).Keys);
    ps := ListRows(more - same);
  }

  lemma AddedKeyed(added: seq<Prepared>)
    requires DistinctIds(added) && TextsOk(added)
    ensures Keyed(MapOf(added))
  {
    MapOfExact(added);
    forall id | id in MapOf(added) ensures MapOf(added)[id].id == id && TextOk(MapOf(added)[id].text) {
      var i :| 0 <= i < |added| && added[i] == MapOf(added)[id];
    }
  }

  /** The second half of `apply`: removals, then additions. */
  method Perform(e: Entry, ids: seq<Id>, ps: seq<Prepared>, ghost gone: Corpora, ghost more: Corpora) returns (ok: bool)
    requires e.Valid() && Ascends(ids) && DistinctIds(ps) && TextsOk(ps)
    requires forall id :: id in Unchanged(gone, more) ==> id in e.rows && e.rows[id] == more[id]
    requires forall id :: id in ids <==> id in gone - Unchanged(gone, more)
    requires forall id :: id in gone ==> id in e.rows
    requires MapOf(ps) == more - Unchanged(gone, more)
    modifies e, e.data
    ensures e.Valid()
    ensures ok <==>
      (forall id :: id in more ==> id !in old(e.rows) || id in gone) && Within(DocsIn(After(old(e.rows), gone, more)))
    ensures ok ==> e.rows == After(old(e.rows), gone, more)
  {
    ghost var before := e.rows;
    forall i | 0 <= i < |ids| ensures ids[i] in before { assert ids[i] in ids; }
    SkippingIsSame(before, gone, more, ids, ps);
    DropAll(e, ids);
    AllNewMap(e.rows, ps);
    ok := AddAll(e, ps);
  }

  /**
   `apply`: succeeds exactly when the statement's rows are consistent with the entry and the outcome
   fits the limits, and then the entry stands for the table's rows after the statement. On failure
   the caller rolls the statement back.
   */
  method Apply(e: Entry, removed: seq<Prepared>, added: seq<Prepared>) returns (ok: bool)
    requires e.Valid() && CollisionFree(e.rows, removed) && CollisionFree(e.rows, added) && TextsOk(added)
    modifies e, e.data
    ensures e.Valid()
    ensures ok <==> ApplyOk(old(e.rows), removed, added)
    ensures ok ==> e.rows == After(old(e.rows), MapOf(removed), MapOf(added))
  {
    var gone := Collect(removed);
    var present := CheckRemoved(e.sources, removed, e.sourceBytes, e.data.documents, e.rows);
    var more := Collect(added);
    if gone.None? || !present || more.None? { return false; }
    UnchangedAreEqual(e.rows, removed, added);
    AddedKeyed(added);
    var ids, ps := Changes(gone.value, more.value);
    ok := Perform(e, ids, ps, gone.value, more.value);
  }

  // ---- maintained equals rebuilt ----

  /** The rows determine everything an entry stores, whatever order or sequence of changes led to them. */
  lemma EntriesAgree(s: map<Id, SourceDocument>, n: nat, docs: Docs, s2: map<Id, SourceDocument>, n2: nat, docs2: Docs,
      rows: Corpora)
    requires EntryOk(s, n, docs, rows) && EntryOk(s2, n2, docs2, rows)
    ensures s == s2 && docs == docs2 && n == n2
  {
    forall id
      ensures (id in s <==> id in s2) && (id in docs <==> id in docs2)
      ensures (id in s ==> s[id] == s2[id]) && (id in docs ==> docs[id] == docs2[id])
    {
      assert Matched(s, docs, rows, id) && Matched(s2, docs2, rows, id);
    }
  }

  lemma {:induction false} AddListFromNothing(ps: seq<Prepared>)
    ensures AddList(map[], ps) == MapOf(ps)
    decreases |ps|
  {
    if ps != [] { AddListFromNothing(ps[..|ps| - 1]); }
  }

  /**
   A fresh entry fed the current rows in any order never meets a limit and ends with the same
   sources, byte total, documents and postings as the maintained one.
   */
  method Rebuild(e: Entry, ps: seq<Prepared>) returns (ok: bool, again: Entry)
    requires e.Valid() && DistinctIds(ps) && TextsOk(ps) && MapOf(ps) == e.rows
    ensures ok && fresh(again) && fresh(again.data) && again.Valid() && again.rows == e.rows
    ensures again.sources == e.sources && again.sourceBytes == e.sourceBytes
    ensures again.data.documents == e.data.documents && again.data.postings == e.data.postings
    ensures again.data.totalTokens == e.data.totalTokens && again.data.totalBytes == e.data.totalBytes
  {
    again := new Entry();
    EntryDocs(e.sources, e.sourceBytes, e.data.documents, e.rows);
    AddListFromNothing(ps);
    ok := AddAll(again, ps);
    EntriesAgree(e.sources, e.sourceBytes, e.data.documents, again.sources, again.sourceBytes, again.data.documents,
      e.rows);
    TransposeUnique(e.data.documents, e.data.postings, again.data.postings);
  }

  // ---- a run of statements, then a search ----

  /** The rows a statement takes out of the table and puts into it. */
  datatype Statement = Statement(removed: seq<Prepared>, added: seq<Prepared>)

  /** The table's rows after the statements. */
  function RowsAfter(rows: Corpora, run: seq<Statement>): Corpora {
    if run == [] then rows else
    After(RowsAfter(rows, run[..|run| - 1]), MapOf(Last(run).removed), MapOf(Last(run).added))
  }

  /** Equal fingerprints come from equal rows, among all rows there ever are. */
  ghost predicate NoCollisions(all: iset<Prepared>) {
    forall a, b :: a in all && b in all && a.fingerprint == b.fingerprint ==> a == b
  }

  ghost predicate Among(ps: seq<Prepared>, all: iset<Prepared>) {
    forall i :: 0 <= i < |ps| ==> ps[i] in all
  }

  ghost predicate RowsAmong(rows: Corpora, all: iset<Prepared>) {
    forall id :: id in rows ==> rows[id] in all
  }

  ghost predicate RunAmong(run: seq<Statement>, all: iset<Prepared>) {
    forall i :: 0 <= i < |run| ==>
      Among(run[i].removed, all) && Among(run[i].added, all) && TextsOk(run[i].added)
  }

  lemma AfterAmong(rows: Corpora, st: Statement, all: iset<Prepared>)
    requires RowsAmong(rows, all) && Among(st.added, all) && DistinctIds(st.added)
    ensures RowsAmong(After(rows, MapOf(st.removed), MapOf(st.added)), all)
  {
    MapOfExact(st.added);
    forall id | id in MapOf(st.added) ensures MapOf(st.added)[id] in all {
      var i :| 0 <= i < |st.added| && st.added[i] == MapOf(st.added)[id];
    }
  }

  lemma RowsAfterOne(rows: Corpora, run: seq<Statement>, i: nat)
    requires i < |run|
    ensures RowsAfter(rows, run[..i + 1])
      == After(RowsAfter(rows, run[..i]), MapOf(run[i].removed), MapOf(run[i].added))
  {
    PrefixSnoc(run, i);
  }

  /** The maintained entry through a run, up to the first statement that cannot be applied. */
  method ApplyRun(e: Entry, run: seq<Statement>, ghost all: iset<Prepared>) returns (n: nat)
    requires e.Valid() && NoCollisions(all) && RowsAmong(e.rows, all) && RunAmong(run, all)
    modifies e, e.data
    ensures e.Valid() && n <= |run|
    ensures n == |run| ==> e.rows == RowsAfter(old(e.rows), run)
    ensures n < |run| ==> !ApplyOk(RowsAfter(old(e.rows), run[..n]), run[n].removed, run[n].added)
  {
    ghost var rows := e.rows;
    for i := 0 to |run|
      invariant e.Valid() && e.rows == RowsAfter(rows, run[..i]) && RowsAmong(e.rows, all)
    {
      ghost var before := e.rows;
      assert Among(run[i].removed, all) && Among(run[i].added, all);
      var ok := Apply(e, run[i].removed, run[i].added);
      if !ok { return i; }
      RowsAfterOne(rows, run, i);
      AfterAmong(before, run[i], all);
    }
    WholePrefix(run);
    n := |run|;
  }

  /** The selected rows are rows of the table. */
  predicate SelectedFrom(rows: seq<Prepared>, table: Corpora) {
    forall i :: 0 <= i < |rows| ==> rows[i].id in table && table[rows[i].id] == rows[i]
  }

  /** An entry that stands for the table is current for every selection from it. */
  lemma EntryIsCurrent(sources: map<Id, SourceDocument>, bytes: nat, docs: Docs, table: Corpora, rows: seq<Prepared>)
    requires EntryOk(sources, bytes, docs, table) && SelectedFrom(rows, table)
    ensures Current(docs, rows) && TextsOk(rows)
  {
    forall i | 0 <= i < |rows|
      ensures rows[i].id in docs && docs[rows[i].id] == DocOf(rows[i].text) && TextOk(rows[i].text)
    {
      assert Matched(sources, docs, table, rows[i].id);
    }
  }

  /** A named search over rows selected from the table the entry stands for. */
  method NamedHits<F(!new)>(e: Entry, sc: Scorer<F>, rows: seq<Prepared>, q: Query, limit: nat)
      returns (r: Result<seq<Hit<F>>>)
    requires e.Valid() && SelectedFrom(rows, e.rows)
    ensures r == Unnamed(sc, rows, q, limit)
  {
    EntryIsCurrent(e.sources, e.sourceBytes, e.data.documents, e.rows, rows);
    r := TextHits(Some(e.data), sc, rows, q, limit);
  }

  /**
   After any run of applied statements, a named search over any selection of the table's rows answers
   exactly as the unnamed path that rebuilds an index from the selection.
   */
  method NamedAfterRun<F(!new)>(e: Entry, run: seq<Statement>, ghost all: iset<Prepared>, sc: Scorer<F>,
      rows: seq<Prepared>, q: Query, limit: nat) returns (r: Option<Result<seq<Hit<F>>>>)
    requires e.Valid() && NoCollisions(all) && RowsAmong(e.rows, all) && RunAmong(run, all)
    requires SelectedFrom(rows, RowsAfter(e.rows, run))
    modifies e, e.data
    ensures e.Valid() && (r.Some? ==> r.value == Unnamed(sc, rows, q, limit))
    ensures r.None? ==>
      exists i :: 0 <= i < |run| && !ApplyOk(RowsAfter(old(e.rows), run[..i]), run[i].removed, run[i].added)
  {
    var n := ApplyRun(e, run, all);
    if n < |run| { return None; }
    var hits := NamedHits(e, sc, rows, q, limit);
    r := Some(hits);
  }
}
