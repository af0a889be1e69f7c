/** The page store and its tables' chains, changed in place. */
module Pager {
  import opened Core
  import opened Values
  import opened SecondaryIndexes
  import opened IndexedQuery
  import opened PageChain
  import opened PageUpdates

  predicate Apart(a: seq<PageId>, b: seq<PageId>) {
    forall id :: id in a ==> id !in b
  }

  predicate AllApart(ids: map<string, seq<PageId>>) {
    forall m, n {:trigger ids[m], ids[n]} :: m in ids && n in ids && m != n ==> Apart(ids[m], ids[n])
  }

  /** `ids` gives each table's pages in chain order and `model` what its scan lists; no page is shared. */
  ghost predicate StoreOk(pages: seq<Page>, tables: map<string, Chain>, ids: map<string, seq<PageId>>,
      model: map<string, seq<Record>>) {
    && tables.Keys == ids.Keys == model.Keys && AllApart(ids)
    && forall n {:trigger Lists(pages, tables[n], ids[n], model[n])} :: n in tables ==>
      Lists(pages, tables[n], ids[n], model[n])
  }

  /** Only the chain's own pages changed, or new ones were added. */
  predicate Elsewhere(pages: seq<Page>, other: seq<Page>, mine: seq<PageId>) {
    |pages| <= |other| && forall id :: 0 <= id < |pages| && id !in mine ==> other[id] == pages[id]
  }

  lemma ChainBounded(pages: seq<Page>, c: Chain, ids: seq<PageId>)
    requires ChainOk(pages, c, ids)
    ensures forall id :: id in ids ==> id < |pages|
  {
    forall id | id in ids ensures id < |pages| {
      var i :| 0 <= i < |ids| && ids[i] == id;
      if i < |ids| - 1 { StoredPage(pages, c, ids, i); }
    }
  }

  /** A change to other pages leaves a table as it was. */
  lemma ListsElsewhere(pages: seq<Page>, other: seq<Page>, c: Chain, ids: seq<PageId>, rs: seq<Record>,
      theirs: seq<PageId>)
    requires Lists(pages, c, ids, rs) && Apart(ids, theirs) && Elsewhere(pages, other, theirs)
    ensures Lists(other, c, ids, rs)
  {
    forall i | 0 <= i < |ids| - 1 ensures ids[i] < |pages| && other[ids[i]] == pages[ids[i]] {
      StoredPage(pages, c, ids, i);
      assert ids[i] in ids;
    }
    Frame(pages, other, c, ids);
  }

  lemma StillApart(ids: map<string, seq<PageId>>, n: string, mine: seq<PageId>, bound: nat)
    requires AllApart(ids) && n in ids && forall id :: id in mine ==> id in ids[n] || id >= bound
    requires forall m, id {:trigger id in ids[m]} :: m in ids && id in ids[m] ==> id < bound
    ensures AllApart(ids[n := mine])
  {
    var after := ids[n := mine];
    forall l, m | l in after && m in after && l != m ensures Apart(after[l], after[m]) {
      assert Apart(ids[l], ids[m]);
    }
  }

  lemma AllBounded(pages: seq<Page>, tables: map<string, Chain>, ids: map<string, seq<PageId>>,
      model: map<string, seq<Record>>, m: string)
    requires StoreOk(pages, tables, ids, model) && m in ids
    ensures forall id :: id in ids[m] ==> id < |pages|
  {
    assert Lists(pages, tables[m], ids[m], model[m]);
    ChainBounded(pages, tables[m], ids[m]);
  }

  /** One table's change keeps the store sound and shows in that table alone. */
  lemma StepKeepsStore(pages: seq<Page>, other: seq<Page>, tables: map<string, Chain>, ids: map<string, seq<PageId>>,
      model: map<string, seq<Record>>,
                       n: string, c: Chain, mine: seq<PageId>, rs: seq<Record>)
    requires StoreOk(pages, tables, ids, model) && n in tables && Lists(other, c, mine, rs)
      && Elsewhere(pages, other, ids[n])
    requires forall id :: id in mine ==> id in ids[n] || id >= |pages|
    ensures StoreOk(other, tables[n := c], ids[n := mine], model[n := rs])
  {
    forall m, id | m in ids && id in ids[m] ensures id < |pages| { AllBounded(pages, tables, ids, model, m); }
    StillApart(ids, n, mine, |pages|);
    forall m | m in tables && m != n ensures Lists(other, tables[m], ids[m], model[m]) {
      assert Lists(pages, tables[m], ids[m], model[m]) && Apart(ids[m], ids[n]);
      ListsElsewhere(pages, other, tables[m], ids[m], model[m], ids[n]);
    }
  }

  // ---- one chain's changes, with what its scan lists ----

  /** Ownership set and cursor are no part of the content. */
  lemma Annotated(pages: seq<Page>, c: Chain, d: Chain, ids: seq<PageId>, rs: seq<Record>)
    requires Lists(pages, c, ids, rs) && d == c.(ids := d.ids, cursor := d.cursor)
    requires d.ids.Some? ==> d.ids.value == IdSet(ids)
    requires d.cursor.Some? ==> d.cursor.value in ids
    ensures Lists(pages, d, ids, rs)
  {}

  lemma Packed(pages: seq<Page>, c: Chain, ids: seq<PageId>, rs: seq<Record>, k: nat)
    requires Lists(pages, c, ids, rs) && k < |ids| - 1 && ids[k] < |pages| && pages[ids[k]].RowPage?
    ensures Lists(pages[ids[k] := ColdPage(pages[ids[k]].records, pages[ids[k]].next)], c.(cold := c.cold + 1), ids, rs)
    ensures Elsewhere(pages, pages[ids[k] := ColdPage(pages[ids[k]].records, pages[ids[k]].next)], ids)
  {
    PackPage(pages, c, ids, k);
    assert ids[k] in ids;
  }

  /** The pages a chain may have after growing: its own and new ones. */
  predicate Grown(pages: seq<Page>, ids: seq<PageId>, mine: seq<PageId>) {
    forall id :: id in mine ==> id in ids || id >= |pages|
  }

  /** The first page of an empty table. */
  method FirstPage(pages: seq<Page>, c: Chain, ghost ids: seq<PageId>, ghost rs: seq<Record>)
      returns (other: seq<Page>, d: Chain, ghost mine: seq<PageId>)
    requires Lists(pages, c, ids, rs) && c.tail.None?
    ensures Lists(other, d, mine, rs) && Elsewhere(pages, other, ids) && Grown(pages, ids, mine)
    ensures d.width == c.width && mine != [] && d.tail == Some(FreshPage())
  {
    var id := |pages|;
    other, d := pages + [FreshPage()],
      c.(first := Some(id), tailId := Some(id), tail := Some(FreshPage()), ids := WithId(c, id));
    mine := [id];
    StartChain(pages, c, FreshPage());
  }

  /** A full tail is stored with a link to a fresh one. */
  method NextPage(pages: seq<Page>, c: Chain, ghost ids: seq<PageId>, ghost rs: seq<Record>)
      returns (other: seq<Page>, d: Chain, ghost mine: seq<PageId>)
    requires Lists(pages, c, ids, rs) && ids != []
    ensures Lists(other, d, mine, rs) && Elsewhere(pages, other, ids) && Grown(pages, ids, mine)
    ensures d.width == c.width && mine != [] && d.tail == Some(FreshPage())
  {
    var id := |pages|;
    other := pages[c.tailId.value := c.tail.value.(next := Some(id))] + [FreshPage()];
    d := c.(tailId := Some(id), tail := Some(FreshPage()), ids := WithId(c, id));
    mine := ids + [id];
    ExtendChain(pages, c, ids, FreshPage());
    assert Last(ids) in ids;
  }

  lemma ElsewhereTwice(pages: seq<Page>, mid: seq<Page>, other: seq<Page>, ids: seq<PageId>, between: seq<PageId>,
      mine: seq<PageId>)
    requires Elsewhere(pages, mid, ids) && Grown(pages, ids, between) && Elsewhere(mid, other, between)
      && Grown(mid, between, mine)
    ensures Elsewhere(pages, other, ids) && Grown(pages, ids, mine)
  {}

  /** `append_record`. */
  method AppendChain(pages: seq<Page>, c: Chain, v: Version, size: nat, ghost ids: seq<PageId>, ghost rs: seq<Record>)
    returns (a: Addr, other: seq<Page>, d: Chain, ghost mine: seq<PageId>)
    requires Lists(pages, c, ids, rs) && |v.row| == c.width && size <= MAX_RECORD
    ensures Lists(other, d, mine, rs + [Record(a, v.env, v.row)]) && Elsewhere(pages, other, ids)
      && Grown(pages, ids, mine)
    ensures d.width == c.width
  {
    other, d, mine := pages, c, ids;
    if c.tail.None? { other, d, mine := FirstPage(pages, c, ids, rs); }
    assert mine != [] && Lists(other, d, mine, rs);
    if size + SLOT_SIZE > d.tail.value.room {
      ghost var mid, between := other, mine;
      other, d, mine := NextPage(other, d, mine, rs);
      ElsewhereTwice(pages, mid, other, ids, between, mine);
    }
    a := Pack(d.tailId.value, |d.tail.value.records|);
    AddToTail(other, d, mine, v, size);
    d := d.(tail := Some(Added(d.tail.value, v, size)), versions := d.versions + 1);
  }

  /** `patch_delete_at`: the ownership set is validated and kept, then the record is stamped. */
  method PatchChain(pages: seq<Page>, c: Chain, a: Addr, tx: nat, ghost ids: seq<PageId>, ghost rs: seq<Record>)
    returns (ok: bool, other: seq<Page>, d: Chain)
    requires Lists(pages, c, ids, rs)
    ensures ok <==> exists i :: 0 <= i < |rs| && rs[i].addr == a
    ensures Lists(other, d, ids, if ok then Tombstoned(rs, a, tx) else rs) && Elsewhere(pages, other, ids)
    ensures d.width == c.width
  {
    var page, slot := a / SLOT_END, a % SLOT_END;
    NamedIff(pages, c, ids, a);
    var owned := CollectIds(pages, c, ids);
    other, d := pages, c.(ids := Some(owned.value));
    Annotated(pages, c, d, ids, rs);
    ok := false;
    if page in owned.value {
      assert Pack(page, slot) == a;
      if c.tailId == Some(page) {
        if slot < |c.tail.value.records| {
          PatchTail(pages, d, ids, slot, tx);
          ok, d := true, d.(tail := Some(Patched(d.tail.value, slot, tx)));
        }
      } else {
        ghost var j :| 0 <= j < |ids| && ids[j] == page;
        assert j < |ids| - 1;
        StoredPage(pages, c, ids, j);
        if slot < |pages[page].records| {
          PatchStored(pages, d, ids, j, slot, tx);
          ok, other := true, pages[page := Patched(pages[page], slot, tx)];
        }
      }
    }
  }

  /** One page of a pass: packed when `pack` says its cold form came out smaller. */
  method PassPage(pages: seq<Page>, c: Chain, pack: bool, ghost ids: seq<PageId>, ghost rs: seq<Record>, ghost k: nat)
    returns (other: seq<Page>, d: Chain)
    requires Lists(pages, c, ids, rs) && k < |ids| - 1
    requires c.cursor == Some(ids[k]) || (c.cursor.None? && k == 0)
    ensures Lists(other, d, ids, rs) && Elsewhere(pages, other, ids)
    ensures d == c.(cold := d.cold, cursor := Some(ids[k + 1]))
  {
    StoredPage(pages, c, ids, k);
    var id := if c.cursor.Some? then c.cursor.value else c.first.value;
    var p := pages[id];
    other, d := pages, c;
    if p.RowPage? && pack {
      Packed(pages, c, ids, rs, k);
      other, d := pages[id := ColdPage(p.records, p.next)], c.(cold := c.cold + 1);
    }
    assert ids[k + 1] in ids;
    Annotated(other, d, d.(cursor := p.next), ids, rs);
    d := d.(cursor := p.next);
  }

  /** One table's share of a pass: resumes at the cursor, stops at the tail or the budget. */
  method CompactChain(pages: seq<Page>, c: Chain, budget: nat, ghost ids: seq<PageId>, ghost rs: seq<Record>)
    returns (visited: nat, other: seq<Page>, d: Chain)
    requires Lists(pages, c, ids, rs)
    ensures Lists(other, d, ids, rs) && Elsewhere(pages, other, ids) && d.width == c.width
    ensures visited == Smaller(budget, Unvisited(c, ids)) && Unvisited(d, ids) == Unvisited(c, ids) - visited
  {
    ghost var start := Position(c, ids);
    visited, other, d := 0, pages, c;
    while true
      invariant Lists(other, d, ids, rs) && Elsewhere(pages, other, ids) && d.width == c.width
      invariant Position(d, ids) == start + visited && visited <= budget && (ids != [] ==> start + visited < |ids|)
      decreases budget - visited
    {
      var next := if d.cursor.Some? then d.cursor else d.first;
      if next.None? || next == d.tailId || visited >= budget { break; }
      var pack: bool := *;
      other, d := PassPage(other, d, pack, ids, rs, start + visited);
      visited := visited + 1;
      PositionAt(d, ids, start + visited);
    }
  }

  lemma NamedIff(pages: seq<Page>, c: Chain, ids: seq<PageId>, a: Addr)
    requires ChainOk(pages, c, ids)
    ensures Named(pages, c, ids, a).Some? <==>
      exists i :: 0 <= i < |Content(pages, c, ids)| && Content(pages, c, ids)[i].addr == a
  {
    var rs := Content(pages, c, ids);
    if Named(pages, c, ids, a).Some? {
      var v := Named(pages, c, ids, a).value;
      NamedExact(pages, c, ids, a, v);
      var i :| 0 <= i < |rs| && rs[i] == Record(a, v.env, v.row);
    }
    if i :| 0 <= i < |rs| && rs[i].addr == a {
      assert rs[i] in rs;
      ContentOnly(pages, c, ids, rs[i]);
    }
  }

  function Smaller(a: nat, b: nat): nat { if a < b then a else b }

  class Store {
    var pages: seq<Page>
    var tables: map<string, Chain>
    ghost var ids: map<string, seq<PageId>>
    /** Every table's records as its scan lists them. */
    ghost var model: map<string, seq<Record>>

    ghost predicate Valid()
      reads this
    {
      StoreOk(pages, tables, ids, model)
    }

    ghost predicate Fits(n: string, row: Row)
      reads this
    {
      n in tables && |row| == tables[n].width
    }

    constructor ()
      ensures Valid() && model == map[]
    {
      pages, tables, ids, model := [], map[], map[], map[];
    }

    /** `create_table_internal`. */
    method CreateTable(n: string, width: nat)
      requires Valid() && n !in tables
      modifies this
      ensures Valid() && model == old(model)[n := []] && tables == old(tables)[n := EmptyChain(width)]
    {
      assert Lists(pages, EmptyChain(width), [], []);
      tables, ids, model := tables[n := EmptyChain(width)], ids[n := []], model[n := []];
    }

    /** Installs a sound new state of one table that touched only its own pages. */
    method Replace(n: string, other: seq<Page>, c: Chain, ghost mine: seq<PageId>, ghost rs: seq<Record>)
      requires Valid() && n in tables && Lists(other, c, mine, rs) && Elsewhere(pages, other, ids[n])
      requires forall id :: id in mine ==> id in ids[n] || id >= |pages|
      modifies this
      ensures Valid() && pages == other && tables == old(tables)[n := c] && ids == old(ids)[n := mine]
        && model == old(model)[n := rs]
    {
      StepKeepsStore(pages, other, tables, ids, model, n, c, mine, rs);
      pages, tables, ids, model := other, tables[n := c], ids[n := mine], model[n := rs];
    }

    // ---- reading ----

    /** `scan`: on a sound store it lists every version in append order and never fails. */
    method Scan(n: string) returns (r: Result<seq<Record>>)
      requires Valid() && n in tables
      ensures r == Ok(model[n])
    {
      assert Lists(pages, tables[n], ids[n], model[n]);
      ScanNeverFails(pages, tables[n], ids[n], true);
      r := WalkChain(pages, tables[n], true);
    }

    /** `scan_envelopes` agrees with `scan`. */
    method ScanEnvelopes(n: string) returns (r: Result<seq<Envelope>>)
      requires Valid() && n in tables
      ensures r.Ok? && |r.value| == |model[n]| && forall i :: 0 <= i < |r.value| ==> r.value[i] == model[n][i].env
    {
      assert Lists(pages, tables[n], ids[n], model[n]);
      ScanNeverFails(pages, tables[n], ids[n], false);
      var w := WalkChain(pages, tables[n], false);
      r := Ok(seq(|w.value|, i requires 0 <= i < |w.value| => w.value[i].env));
    }

    /** `read_record_at` of an address the scan lists. */
    method Read(n: string, a: Addr, ghost i: nat) returns (v: Version)
      requires Valid() && n in tables && i < |model[n]| && model[n][i].addr == a
      ensures Record(a, v.env, v.row) == model[n][i]
    {
      var c := tables[n];
      assert Lists(pages, c, ids[n], model[n]);
      assert model[n][i] in model[n];
      ContentOnly(pages, c, ids[n], model[n][i]);
      var p := PageAt(pages, c, a / SLOT_END).value;
      v := p.records[a % SLOT_END];
    }

    // ---- changing one table ----

    /** `append_record`: one record more, at the end, under a new address. */
    method Append(n: string, v: Version, size: nat) returns (a: Addr)
      requires Valid() && Fits(n, v.row) && size <= MAX_RECORD
      modifies this
      ensures Valid() && n in tables && tables == old(tables)[n := tables[n]] && tables[n].width == old(tables[n].width)
      ensures model == old(model)[n := old(model[n]) + [Record(a, v.env, v.row)]]
    {
      assert Lists(pages, tables[n], ids[n], model[n]);
      ghost var mine;
      var other, d;
      a, other, d, mine := AppendChain(pages, tables[n], v, size, ids[n], model[n]);
      Replace(n, other, d, mine, model[n] + [Record(a, v.env, v.row)]);
    }

    /** `patch_delete_at`: exactly the addresses a scan lists can be tombstoned. */
    method Tombstone(n: string, a: Addr, tx: nat) returns (r: Result<()>)
      requires Valid() && n in tables
      modifies this
      ensures Valid() && n in tables && tables == old(tables)[n := tables[n]] && tables[n].width == old(tables[n].width)
      ensures r.Ok? <==> exists i :: 0 <= i < |old(model[n])| && old(model[n])[i].addr == a
      ensures r.Err? ==> r.error == Corruption
      ensures model == old(model)[n := if r.Ok? then Tombstoned(old(model[n]), a, tx) else old(model[n])]
    {
      assert Lists(pages, tables[n], ids[n], model[n]);
      var ok, other, d := PatchChain(pages, tables[n], a, tx, ids[n], model[n]);
      Replace(n, other, d, ids[n], if ok then Tombstoned(model[n], a, tx) else model[n]);
      r := if ok then Ok(()) else Err(Corruption);
    }

    /** One table's share of a compaction pass. */
    method CompactTable(n: string, budget: nat) returns (visited: nat)
      requires Valid() && n in tables
      modifies this
      ensures Valid() && model == old(model) && ids == old(ids)
      ensures n in tables && tables == old(tables)[n := tables[n]] && tables[n].width == old(tables[n].width)
      ensures visited == Smaller(budget, Unvisited(old(tables[n]), ids[n]))
      ensures Unvisited(tables[n], ids[n]) == Unvisited(old(tables[n]), ids[n]) - visited
    {
      assert Lists(pages, tables[n], ids[n], model[n]);
      var other, d;
      visited, other, d := CompactChain(pages, tables[n], budget, ids[n], model[n]);
      Replace(n, other, d, ids[n], model[n]);
    }
  }

  // ---- a whole pass ----

  /** The unvisited pages of the named tables together. */
  ghost function Remaining(names: seq<string>, tables: map<string, Chain>, ids: map<string, seq<PageId>>): nat
    requires forall n :: n in names ==> n in tables && n in ids
  {
    if names == [] then 0
    else Remaining(names[..|names| - 1], tables, ids) + Unvisited(tables[Last(names)], ids[Last(names)])
  }

  lemma {:induction false} RemainingSame(names: seq<string>, tables: map<string, Chain>, other: map<string, Chain>,
      ids: map<string, seq<PageId>>)
    requires forall n :: n in names ==> n in tables && n in other && n in ids && tables[n] == other[n]
    ensures Remaining(names, tables, ids) == Remaining(names, other, ids)
    decreases |names|
  {
    if names != [] { RemainingSame(names[..|names| - 1], tables, other, ids); }
  }

  /**
   `compact_step_transaction`: no record changes or moves, and the pass takes exactly its budget
   from the pages no earlier pass has visited, or all of them.
   */
  method CompactStep(store: Store, names: seq<string>, max: nat) returns (visited: nat)
    requires store.Valid() && NoDup(names) && forall n :: n in names <==> n in store.tables
    modifies store
    ensures store.Valid() && store.model == old(store.model) && store.ids == old(store.ids)
      && store.tables.Keys == old(store.tables.Keys)
    ensures forall n :: n in store.tables ==> store.tables[n].width == old(store.tables[n].width)
    ensures visited == Smaller(max, Remaining(names, old(store.tables), store.ids))
    ensures Remaining(names, store.tables, store.ids) == Remaining(names, old(store.tables), store.ids) - visited
  {
    visited := 0;
    ghost var before, ids := store.tables, store.ids;
    for i := 0 to |names|
      invariant store.Valid() && store.model == old(store.model) && store.ids == ids && store.tables.Keys == before.Keys
      invariant forall n :: n in before ==> store.tables[n].width == before[n].width
      invariant PassSoFar(names, i, before, store.tables, ids, visited, max)
    {
      visited := PassNext(store, names, i, max, visited, before);
    }
    assert names[..|names|] == names;
  }

  /** The next table's share of a pass. */
  method PassNext(store: Store, names: seq<string>, i: nat, max: nat, sofar: nat, ghost before: map<string, Chain>)
      returns (visited: nat)
    requires store.Valid() && NoDup(names) && i < |names| && (forall n :: n in names ==> n in store.tables)
    requires PassSoFar(names, i, before, store.tables, store.ids, sofar, max)
    modifies store
    ensures store.Valid() && store.model == old(store.model) && store.ids == old(store.ids)
      && store.tables.Keys == old(store.tables.Keys)
    ensures forall n :: n in store.tables ==> store.tables[n].width == old(store.tables[n].width)
    ensures PassSoFar(names, i + 1, before, store.tables, store.ids, visited, max)
  {
    ghost var tables := store.tables;
    visited := sofar;
    if sofar < max {
      var some := store.CompactTable(names[i], max - sofar);
      visited := sofar + some;
    }
    PassOne(names, i, before, tables, store.tables, store.ids, sofar, visited - sofar, max);
  }

  /** After i tables: what was visited is what their unvisited pages lost, up to the budget. */
  ghost predicate PassSoFar(names: seq<string>, i: nat, before: map<string, Chain>, tables: map<string, Chain>,
      ids: map<string, seq<PageId>>,
                            visited: nat, max: nat)
  {
    && i <= |names| && (forall n :: n in names ==> n in before && n in tables && n in ids)
    && (forall k :: i <= k < |names| ==> tables[names[k]] == before[names[k]])
    && visited == Smaller(max, Remaining(names[..i], before, ids))
    && Remaining(names[..i], tables, ids) == Remaining(names[..i], before, ids) - visited
  }

  lemma PassOne(names: seq<string>, i: nat, before: map<string, Chain>, tables: map<string, Chain>,
      after: map<string, Chain>,
                ids: map<string, seq<PageId>>, visited: nat, some: nat, max: nat)
    requires i < |names| && NoDup(names) && PassSoFar(names, i, before, tables, ids, visited, max)
    requires after.Keys == tables.Keys && forall n :: n in tables && n != names[i] ==> after[n] == tables[n]
    requires visited >= max ==> after == tables
    requires some == if visited < max then Smaller(max - visited, Unvisited(tables[names[i]], ids[names[i]])) else 0
    requires Unvisited(after[names[i]], ids[names[i]]) == Unvisited(tables[names[i]], ids[names[i]]) - some
    ensures PassSoFar(names, i + 1, before, after, ids, visited + some, max)
  {
    var n, front := names[i], names[..i];
    assert names[..i + 1] == front + [n];
    assert (front + [n])[..i] == front;
    RemainingSame(front, tables, after, ids);
  }

  // ---- ownership ----

  /** How far a walk over the ownership set has come. */
  ghost predicate Collected(pages: seq<Page>, c: Chain, ids: seq<PageId>, k: nat, next: Option<PageId>,
      seen: set<PageId>, cold: nat, cursorFound: bool) {
    && ChainOk(pages, c, ids) && k <= |ids|
    && next == (if k < |ids| then Some(ids[k]) else None)
    && seen == IdSet(ids[..k])
    && cold == (if k < |ids| then Colds(pages, ids, k) else c.cold)
    && (cursorFound <==> c.cursor.None? || c.cursor.value in ids[..k])
  }

  /** The page a walk is at, and that none of its checks can fail. */
  lemma CollectStep(pages: seq<Page>, c: Chain, ids: seq<PageId>, k: nat, next: Option<PageId>, seen: set<PageId>,
      cold: nat, cursorFound: bool)
    requires Collected(pages, c, ids, k, next, seen, cold, cursorFound) && k < |ids|
    ensures var id := ids[k];
      && k + 1 <= |pages| + 1 && id < |pages| && id !in seen && PageAt(pages, c, id).Some?
      && var p := PageAt(pages, c, id).value;
         var isCold := p.ColdPage? && c.tailId != Some(id);
         var more := cold + if isCold then 1 else 0;
         && (isCold ==> more <= c.cold) && (c.tailId == Some(id) ==> p.next.None?) && (p.ColdPage? ==> isCold)
         && Collected(pages, c, ids, k + 1, p.next, seen + {id}, more, cursorFound || c.cursor == Some(id))
  {
    var id := ids[k];
    FewDistinct(ids, |pages|);
    assert ids[..k + 1] == ids[..k] + [id];
    assert IdSet(ids[..k + 1]) == IdSet(ids[..k]) + {id};
    assert id !in ids[..k];
    if k < |ids| - 1 { StoredPage(pages, c, ids, k); }
  }

  /** `ensure_table_page_ids`: a sound chain passes every check. */
  method CollectIds(pages: seq<Page>, c: Chain, ghost ids: seq<PageId>) returns (r: Result<set<PageId>>)
    requires ChainOk(pages, c, ids)
    ensures r == Ok(IdSet(ids))
  {
    if c.ids.Some? { return Ok(c.ids.value); }
    var seen: set<PageId> := {};
    var next, cold, cursorFound, hops, ok := c.first, 0, c.cursor.None?, 0, true;
    while next.Some? && ok
      invariant ok && Collected(pages, c, ids, hops, next, seen, cold, cursorFound)
      decreases |ids| - hops
    {
      var id := next.value;
      CollectStep(pages, c, ids, hops, next, seen, cold, cursorFound);
      hops := hops + 1;
      var p := PageAt(pages, c, id).value;
      ok := hops <= |pages| + 1 && id < |pages| && id !in seen;
      seen := seen + {id};
      cursorFound := cursorFound || c.cursor == Some(id);
      cold := cold + if p.ColdPage? && c.tailId != Some(id) then 1 else 0;
      ok := ok && (p.ColdPage? ==> cold <= c.cold) && (c.tailId == Some(id) ==> p.next.None?);
      next := p.next;
    }
    assert ids[..|ids|] == ids;
    ok := ok && (c.tailId.Some? ==> c.tailId.value in seen) && cold == c.cold && cursorFound;
    r := if ok then Ok(seen) else Err(Corruption);
  }

  // ---- the maintenance cursor ----

  function IndexOf(ids: seq<PageId>, id: PageId): (k: nat)
    requires id in ids
    ensures k < |ids| && ids[k] == id
  {
    if ids[0] == id then 0 else 1 + IndexOf(ids[1..], id)
  }

  /** Where a compaction pass resumes in the chain. */
  ghost function Position(c: Chain, ids: seq<PageId>): nat {
    if c.cursor.Some? && c.cursor.value in ids then IndexOf(ids, c.cursor.value) else 0
  }

  /** The pages before the tail that no pass has visited yet. */
  ghost function Unvisited(c: Chain, ids: seq<PageId>): nat {
    if Position(c, ids) < |ids| then |ids| - 1 - Position(c, ids) else 0
  }

  lemma PositionAt(c: Chain, ids: seq<PageId>, k: nat)
    requires NoDup(ids) && k < |ids| && c.cursor == Some(ids[k])
    ensures Position(c, ids) == k
  {}

  /** The walk as it runs, on any stored bytes. */
  method WalkChain(pages: seq<Page>, c: Chain, strict: bool) returns (r: Result<seq<Record>>)
    ensures r == WalkFrom(pages, c, strict, c.first, StartWalk(c))
  {
    var next, w := c.first, StartWalk(c);
    while next.Some?
      invariant WalkFrom(pages, c, strict, next, w) == WalkFrom(pages, c, strict, c.first, StartWalk(c))
      invariant w.hops <= |pages| + 1
      decreases |pages| + 1 - w.hops, next.Some?
    {
      var v := Visit(pages, c, strict, next.value, w);
      if v.Err? { return Err(v.error); }
      next, w := PageAt(pages, c, next.value).value.next, v.value;
    }
    r := Finish(c, w);
  }
}
