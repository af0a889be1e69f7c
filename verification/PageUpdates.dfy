/** What appending, tombstoning and packing do to a sound chain. */
module PageUpdates {
  import opened Core
  import opened SecondaryIndexes
  import opened IndexedQuery
  import opened PageChain

  // ---- changes elsewhere do not matter ----

  lemma {:induction false} PrefixSame(pages: seq<Page>, other: seq<Page>, ids: seq<PageId>, more: seq<PageId>, n: nat,
      width: nat)
    requires n < |ids| && n < |more| && Linked(pages, ids, width) && Linked(other, more, width)
    requires forall i :: 0 <= i < n ==> ids[i] == more[i] && other[ids[i]].records == pages[ids[i]].records
    ensures Prefix(other, more, n, width) == Prefix(pages, ids, n, width)
    decreases n
  {
    if n > 0 { PrefixSame(pages, other, ids, more, n - 1, width); }
  }

  lemma {:induction false} ColdsSame(pages: seq<Page>, other: seq<Page>, ids: seq<PageId>, more: seq<PageId>, n: nat)
    requires n <= |ids| && n <= |more|
      && (forall i :: 0 <= i < n ==> ids[i] == more[i] && ids[i] < |pages| && ids[i] < |other|)
    requires forall i :: 0 <= i < n ==> other[ids[i]].ColdPage? == pages[ids[i]].ColdPage?
    ensures Colds(other, more, n) == Colds(pages, ids, n)
    decreases n
  {
    if n > 0 { ColdsSame(pages, other, ids, more, n - 1); }
  }

  /** The stored pages of the chain are the same in both. */
  predicate SamePages(pages: seq<Page>, other: seq<Page>, ids: seq<PageId>) {
    |pages| <= |other| && forall i :: 0 <= i < |ids| - 1 ==> ids[i] < |pages| && other[ids[i]] == pages[ids[i]]
  }

  lemma Frame(pages: seq<Page>, other: seq<Page>, c: Chain, ids: seq<PageId>)
    requires ChainOk(pages, c, ids) && SamePages(pages, other, ids)
    ensures ChainOk(other, c, ids) && Content(other, c, ids) == Content(pages, c, ids)
  {
    assert Linked(other, ids, c.width);
    if ids != [] {
      PrefixSame(pages, other, ids, ids, |ids| - 1, c.width);
      ColdsSame(pages, other, ids, ids, |ids| - 1);
    }
  }

  // ---- appending ----

  /** `RowPage::insert` into a page with room. */
  function Added(p: Page, v: Version, size: nat): Page
    requires p.RowPage? && size + SLOT_SIZE <= p.room
  {
    p.(records := p.records + [v], room := p.room - size - SLOT_SIZE)
  }

  function WithId(c: Chain, id: PageId): Option<set<PageId>> {
    if c.ids.Some? then Some(c.ids.value + {id}) else None
  }

  /** The first page of an empty table. */
  lemma StartChain(pages: seq<Page>, c: Chain, blank: Page)
    requires ChainOk(pages, c, [])
    ensures var id := |pages|;
      var d := c.(first := Some(id), tailId := Some(id), tail := Some(FreshPage()), ids := WithId(c, id));
      ChainOk(pages + [blank], d, [id]) && Content(pages + [blank], d, [id]) == []
  {}

  /** The tail takes the record: one more at the end, under the next slot. */
  lemma AddToTail(pages: seq<Page>, c: Chain, ids: seq<PageId>, v: Version, size: nat)
    requires ChainOk(pages, c, ids) && ids != [] && size + SLOT_SIZE <= c.tail.value.room && |v.row| == c.width
    ensures |c.tail.value.records| < SLOT_END
    ensures var d := c.(tail := Some(Added(c.tail.value, v, size)), versions := c.versions + 1);
      && ChainOk(pages, d, ids)
      && Content(pages, d, ids)
        == Content(pages, c, ids) + [Record(Pack(Last(ids), |c.tail.value.records|), v.env, v.row)]
  {
    var before, after := c.tail.value, Added(c.tail.value, v, size);
    assert RecordsOf(Last(ids), after)
      == RecordsOf(Last(ids), before) + [Record(Pack(Last(ids), |before.records|), v.env, v.row)];
    assert Prefix(pages, ids, |ids| - 1, c.width) + RecordsOf(Last(ids), after)
        == Content(pages, c, ids) + [Record(Pack(Last(ids), |before.records|), v.env, v.row)];
  }

  /** The full tail is stored with a link to a fresh page: same records, one page more. */
  lemma ExtendChain(pages: seq<Page>, c: Chain, ids: seq<PageId>, blank: Page)
    requires ChainOk(pages, c, ids) && ids != []
    ensures var id := |pages|;
      var stored := pages[Last(ids) := c.tail.value.(next := Some(id))] + [blank];
      var d := c.(tailId := Some(id), tail := Some(FreshPage()), ids := WithId(c, id));
      && ChainOk(stored, d, ids + [id]) && Content(stored, d, ids + [id]) == Content(pages, c, ids)
      && SamePages(pages, stored, ids)
  {
    var id := |pages|;
    var more := ids + [id];
    var stored := pages[Last(ids) := c.tail.value.(next := Some(id))] + [blank];
    ExtendedPages(pages, c, ids, blank);
    ExtendedIds(pages, c, ids);
    LinkedMore(pages, c, ids, blank);
    ExtendedPrefix(pages, c, ids, stored);
    FreshContent(stored, c.(tailId := Some(id), tail := Some(FreshPage()), ids := WithId(c, id)), more);
    if c.cursor.Some? { assert c.cursor.value in more; }
  }

  /** A chain whose tail is a fresh page has the records before it. */
  lemma FreshContent(pages: seq<Page>, d: Chain, more: seq<PageId>)
    requires more != [] && Linked(pages, more, d.width) && d.tail == Some(FreshPage())
    ensures PageOk(FreshPage(), d.width) && Content(pages, d, more) == Prefix(pages, more, |more| - 1, d.width)
  {
    NothingAdded(Prefix(pages, more, |more| - 1, d.width));
    assert RecordsOf(Last(more), FreshPage()) == [];
  }

  lemma ExtendedPages(pages: seq<Page>, c: Chain, ids: seq<PageId>, blank: Page)
    requires ChainOk(pages, c, ids) && ids != []
    ensures var stored := pages[Last(ids) := c.tail.value.(next := Some(|pages|))] + [blank];
      SamePages(pages, stored, ids) && stored[Last(ids)] == c.tail.value.(next := Some(|pages|))
  {
    var n := |ids| - 1;
    var stored := pages[ids[n] := c.tail.value.(next := Some(|pages|))] + [blank];
    forall i | 0 <= i < n ensures ids[i] < |pages| && stored[ids[i]] == pages[ids[i]] { assert ids[i] != ids[n]; }
  }

  lemma ExtendedIds(pages: seq<Page>, c: Chain, ids: seq<PageId>)
    requires ChainOk(pages, c, ids) && ids != []
    ensures NoDup(ids + [|pages|]) && IdSet(ids + [|pages|]) == IdSet(ids) + {|pages|}
  {
    var more := ids + [|pages|];
    assert more[|ids|] == |pages| && forall i :: 0 <= i < |ids| ==> more[i] == ids[i] < |pages|;
    forall id ensures id in IdSet(more) <==> id in IdSet(ids) + {|pages|} {
      assert id in more <==> id in ids || id == |pages|;
    }
  }

  /** The old tail, now stored, ends the prefix; it was a row page, so no cold page is added. */
  lemma ExtendedPrefix(pages: seq<Page>, c: Chain, ids: seq<PageId>, stored: seq<Page>)
    requires ChainOk(pages, c, ids) && ids != [] && SamePages(pages, stored, ids)
    requires stored[Last(ids)] == c.tail.value.(next := Some(|pages|))
    requires Linked(stored, ids + [|pages|], c.width)
    ensures Prefix(stored, ids + [|pages|], |ids|, c.width) == Content(pages, c, ids)
    ensures Colds(stored, ids + [|pages|], |ids|) == c.cold
  {
    var n, more := |ids| - 1, ids + [|pages|];
    assert forall i :: 0 <= i < |ids| ==> more[i] == ids[i];
    PrefixSame(pages, stored, ids, more, n, c.width);
    ColdsSame(pages, stored, ids, more, n);
    assert more[n] == Last(ids);
  }

  lemma LinkedMore(pages: seq<Page>, c: Chain, ids: seq<PageId>, blank: Page)
    requires ChainOk(pages, c, ids) && ids != []
    ensures Linked(pages[Last(ids) := c.tail.value.(next := Some(|pages|))] + [blank], ids + [|pages|], c.width)
  {
    var n, more := |ids| - 1, ids + [|pages|];
    var stored := pages[Last(ids) := c.tail.value.(next := Some(|pages|))] + [blank];
    forall i | 0 <= i < |more| - 1
      ensures more[i] < |stored| && stored[more[i]].next == Some(more[i + 1]) && PageOk(stored[more[i]], c.width)
    {
      if i < n { assert ids[i] != ids[n] && pages[ids[i]].next == Some(ids[i + 1]); }
    }
  }

  // ---- tombstones ----

  function Stamp(r: Record, a: Addr, tx: nat): Record {
    if r.addr == a then r.(env := r.env.(deleted := tx)) else r
  }

  /** The record at the address marked deleted, every other as it was. */
  function Tombstoned(rs: seq<Record>, a: Addr, tx: nat): (t: seq<Record>)
    ensures |t| == |rs| && forall k :: 0 <= k < |rs| ==> t[k] == Stamp(rs[k], a, tx)
  {
    seq(|rs|, k requires 0 <= k < |rs| => Stamp(rs[k], a, tx))
  }

  lemma TombstonedConcat(a: seq<Record>, b: seq<Record>, at: Addr, tx: nat)
    ensures Tombstoned(a + b, at, tx) == Tombstoned(a, at, tx) + Tombstoned(b, at, tx)
  {}

  /** `patch_envelope_deleted` on a row page or a cold page. */
  function Patched(p: Page, slot: nat, tx: nat): Page
    requires slot < |p.records|
  {
    p.(records := p.records[slot := p.records[slot].(env := p.records[slot].env.(deleted := tx))])
  }

  lemma PatchedRecords(id: PageId, p: Page, slot: nat, tx: nat)
    requires slot < |p.records| <= SLOT_END
    ensures RecordsOf(id, Patched(p, slot, tx)) == Tombstoned(RecordsOf(id, p), Pack(id, slot), tx)
  {
    forall k | 0 <= k < |p.records| ensures Pack(id, k) == Pack(id, slot) <==> k == slot {
      assert Pack(id, k) % SLOT_END == k;
    }
  }

  lemma OtherPageRecords(id: PageId, p: Page, page: PageId, slot: nat, tx: nat)
    requires |p.records| <= SLOT_END && slot < SLOT_END && id != page
    ensures RecordsOf(id, p) == Tombstoned(RecordsOf(id, p), Pack(page, slot), tx)
  {
    forall k | 0 <= k < |p.records| ensures Pack(id, k) != Pack(page, slot) {
      assert Pack(id, k) / SLOT_END == id && Pack(page, slot) / SLOT_END == page;
    }
  }

  lemma {:induction false} PrefixPatched(pages: seq<Page>, other: seq<Page>, ids: seq<PageId>, n: nat, width: nat,
      page: PageId, slot: nat, tx: nat)
    requires n < |ids| && Linked(pages, ids, width) && Linked(other, ids, width) && slot < SLOT_END
    requires forall i :: 0 <= i < n ==>
      other[ids[i]] == if ids[i] == page && slot < |pages[page].records| then Patched(pages[page], slot, tx)
        else pages[ids[i]]
    requires forall i :: 0 <= i < n && ids[i] == page ==> slot < |pages[page].records|
    ensures Prefix(other, ids, n, width) == Tombstoned(Prefix(pages, ids, n, width), Pack(page, slot), tx)
    decreases n
  {
    if n > 0 {
      PrefixPatched(pages, other, ids, n - 1, width, page, slot, tx);
      var id := ids[n - 1];
      if id == page {
        PatchedRecords(id, pages[id], slot, tx);
      } else {
        OtherPageRecords(id, pages[id], page, slot, tx);
      }
      TombstonedConcat(Prefix(pages, ids, n - 1, width), RecordsOf(id, pages[id]), Pack(page, slot), tx);
    }
  }

  lemma PatchTail(pages: seq<Page>, c: Chain, ids: seq<PageId>, slot: nat, tx: nat)
    requires ChainOk(pages, c, ids) && ids != [] && slot < |c.tail.value.records|
    ensures var d := c.(tail := Some(Patched(c.tail.value, slot, tx)));
      ChainOk(pages, d, ids) && Content(pages, d, ids) == Tombstoned(Content(pages, c, ids), Pack(Last(ids), slot), tx)
  {
    var n, p := |ids| - 1, c.tail.value;
    var d := c.(tail := Some(Patched(p, slot, tx)));
    PatchedRecords(Last(ids), p, slot, tx);
    PatchedFits(p, slot, tx, c.width);
    assert forall i :: 0 <= i < n ==> ids[i] != Last(ids);
    PrefixPatched(pages, pages, ids, n, c.width, Last(ids), slot, tx);
    TombstonedConcat(Prefix(pages, ids, n, c.width), RecordsOf(Last(ids), p), Pack(Last(ids), slot), tx);
  }

  lemma PatchedFits(p: Page, slot: nat, tx: nat, width: nat)
    requires slot < |p.records| && PageOk(p, width)
    ensures PageOk(Patched(p, slot, tx), width)
  {
    forall v | v in Patched(p, slot, tx).records ensures |v.row| == width {
      var k :| 0 <= k < |p.records| && Patched(p, slot, tx).records[k] == v;
      assert p.records[k] in p.records;
    }
  }

  lemma PatchStored(pages: seq<Page>, c: Chain, ids: seq<PageId>, j: nat, slot: nat, tx: nat)
    requires ChainOk(pages, c, ids) && j < |ids| - 1 && slot < |pages[ids[j]].records|
    ensures var other := pages[ids[j] := Patched(pages[ids[j]], slot, tx)];
      ChainOk(other, c, ids) && Content(other, c, ids) == Tombstoned(Content(pages, c, ids), Pack(ids[j], slot), tx)
  {
    var n, id := |ids| - 1, ids[j];
    var other := pages[id := Patched(pages[id], slot, tx)];
    PatchedFits(pages[id], slot, tx, c.width);
    assert Linked(other, ids, c.width);
    ColdsSame(pages, other, ids, ids, n);
    PrefixPatched(pages, other, ids, n, c.width, id, slot, tx);
    OtherPageRecords(Last(ids), c.tail.value, id, slot, tx);
    TombstonedConcat(Prefix(pages, ids, n, c.width), RecordsOf(Last(ids), c.tail.value), Pack(id, slot), tx);
  }

  // ---- packing ----

  lemma {:induction false} ColdsPacked(pages: seq<Page>, other: seq<Page>, ids: seq<PageId>, n: nat, j: nat)
    requires n <= |ids| && j < |ids| && NoDup(ids) && forall i :: 0 <= i < n ==> ids[i] < |pages|
    requires ids[j] < |pages| && pages[ids[j]].RowPage? && |other| == |pages| && other[ids[j]].ColdPage?
    requires forall i :: 0 <= i < n && i != j ==> other[ids[i]] == pages[ids[i]]
    ensures Colds(other, ids, n) == Colds(pages, ids, n) + if j < n then 1 else 0
    decreases n
  {
    if n > 0 { ColdsPacked(pages, other, ids, n - 1, j); }
  }

  /** Rewriting a full row page as a cold page keeps every record at its address. */
  lemma PackPage(pages: seq<Page>, c: Chain, ids: seq<PageId>, j: nat)
    requires ChainOk(pages, c, ids) && j < |ids| - 1 && pages[ids[j]].RowPage?
    ensures var other := pages[ids[j] := ColdPage(pages[ids[j]].records, pages[ids[j]].next)];
      var d := c.(cold := c.cold + 1);
      ChainOk(other, d, ids) && Content(other, d, ids) == Content(pages, c, ids)
  {
    var n, id := |ids| - 1, ids[j];
    var other := pages[id := ColdPage(pages[id].records, pages[id].next)];
    PackedLinks(pages, c, ids, j, other);
    ColdsPacked(pages, other, ids, n, j);
    PrefixSame(pages, other, ids, ids, n, c.width);
  }

  lemma PackedLinks(pages: seq<Page>, c: Chain, ids: seq<PageId>, j: nat, other: seq<Page>)
    requires ChainOk(pages, c, ids) && j < |ids| - 1 && pages[ids[j]].RowPage?
    requires other == pages[ids[j] := ColdPage(pages[ids[j]].records, pages[ids[j]].next)]
    ensures Linked(other, ids, c.width)
    ensures forall i :: 0 <= i < |ids| - 1 ==> other[ids[i]].records == pages[ids[i]].records
    ensures forall i :: 0 <= i < |ids| - 1 && i != j ==> other[ids[i]] == pages[ids[i]]
  {}

  // ---- addresses ----

  lemma {:induction false} PrefixPages(pages: seq<Page>, ids: seq<PageId>, n: nat, width: nat)
    requires n < |ids| && Linked(pages, ids, width) && NoDup(ids)
    ensures DistinctAddrs(Prefix(pages, ids, n, width))
    ensures forall r :: r in Prefix(pages, ids, n, width) ==> r.addr / SLOT_END in ids[..n]
    decreases n
  {
    if n > 0 {
      PrefixPages(pages, ids, n - 1, width);
      var front, id := Prefix(pages, ids, n - 1, width), ids[n - 1];
      var back := RecordsOf(id, pages[id]);
      assert ids[..n] == ids[..n - 1] + [id];
      DistinctAppend(front, back, ids[..n - 1], id);
    }
  }

  lemma DistinctAppend(front: seq<Record>, back: seq<Record>, before: seq<PageId>, id: PageId)
    requires DistinctAddrs(front) && (forall r :: r in front ==> r.addr / SLOT_END in before) && id !in before
    requires |back| <= SLOT_END && forall k :: 0 <= k < |back| ==> back[k].addr == Pack(id, k)
    ensures DistinctAddrs(front + back) && forall r :: r in front + back ==> r.addr / SLOT_END in before + [id]
  {
    var all := front + back;
    forall i, j | 0 <= i < j < |all| ensures all[i].addr != all[j].addr {
      if i < |front| <= j {
        assert all[i] in front && all[j].addr / SLOT_END == id;
      } else if |front| <= i {
        assert all[i].addr % SLOT_END == i - |front| && all[j].addr % SLOT_END == j - |front|;
      }
    }
    forall r | r in all ensures r.addr / SLOT_END in before + [id] {
      var k :| 0 <= k < |all| && all[k] == r;
      if k < |front| { assert all[k] in front; }
    }
  }

  /** Every record of a sound chain has an address of its own. */
  lemma ContentDistinct(pages: seq<Page>, c: Chain, ids: seq<PageId>)
    requires ChainOk(pages, c, ids)
    ensures DistinctAddrs(Content(pages, c, ids))
    ensures forall r :: r in Content(pages, c, ids) ==> |r.row| == c.width && r.addr / SLOT_END in ids
  {
    if ids != [] {
      var n := |ids| - 1;
      PrefixPages(pages, ids, n, c.width);
      assert ids == ids[..n] + [ids[n]];
      DistinctAppend(Prefix(pages, ids, n, c.width), RecordsOf(ids[n], c.tail.value), ids[..n], ids[n]);
      PrefixFits(pages, ids, n, c.width);
      forall r | r in Content(pages, c, ids) ensures |r.row| == c.width {
        if r !in Prefix(pages, ids, n, c.width) {
          var k :| 0 <= k < |c.tail.value.records| && RecordsOf(ids[n], c.tail.value)[k] == r;
          assert c.tail.value.records[k] in c.tail.value.records;
        }
      }
    }
  }

  lemma {:induction false} PrefixFits(pages: seq<Page>, ids: seq<PageId>, n: nat, width: nat)
    requires n < |ids| && Linked(pages, ids, width)
    ensures forall r :: r in Prefix(pages, ids, n, width) ==> |r.row| == width
    decreases n
  {
    if n > 0 {
      PrefixFits(pages, ids, n - 1, width);
      var p := pages[ids[n - 1]];
      forall r | r in RecordsOf(ids[n - 1], p) ensures |r.row| == width {
        var k :| 0 <= k < |p.records| && RecordsOf(ids[n - 1], p)[k] == r;
        assert p.records[k] in p.records;
      }
    }
  }

  /** A chain page and a slot within it name a record; nothing else does. */
  lemma {:induction false} PrefixHas(pages: seq<Page>, ids: seq<PageId>, n: nat, width: nat, j: nat, slot: nat)
    requires n < |ids| && j < n && Linked(pages, ids, width) && slot < |pages[ids[j]].records|
    ensures Record(Pack(ids[j], slot), pages[ids[j]].records[slot].env,
      pages[ids[j]].records[slot].row) in Prefix(pages, ids, n, width)
    decreases n
  {
    if j < n - 1 {
      PrefixHas(pages, ids, n - 1, width, j, slot);
    } else {
      var back := RecordsOf(ids[j], pages[ids[j]]);
      assert back[slot] in back;
    }
  }

  lemma {:induction false} PrefixOnly(pages: seq<Page>, ids: seq<PageId>, n: nat, width: nat, r: Record)
    requires n < |ids| && Linked(pages, ids, width) && r in Prefix(pages, ids, n, width)
    ensures exists j ::
      && 0 <= j < n && ids[j] == r.addr / SLOT_END && r.addr % SLOT_END < |pages[ids[j]].records|
      && pages[ids[j]].records[r.addr % SLOT_END] == Version(r.env, r.row)
    decreases n
  {
    if r in Prefix(pages, ids, n - 1, width) {
      PrefixOnly(pages, ids, n - 1, width, r);
    } else {
      var p := pages[ids[n - 1]];
      var k :| 0 <= k < |p.records| && RecordsOf(ids[n - 1], p)[k] == r;
      assert ids[n - 1] == r.addr / SLOT_END && k == r.addr % SLOT_END;
    }
  }

  /** The stored version an address names, when its page belongs to the chain. */
  function Named(pages: seq<Page>, c: Chain, ids: seq<PageId>, a: Addr): Option<Version> {
    var page, slot := a / SLOT_END, a % SLOT_END;
    if page !in ids || PageAt(pages, c, page).None? then None else
    var p := PageAt(pages, c, page).value;
    if slot < |p.records| then Some(p.records[slot]) else None
  }

  /** Addresses name exactly the records of the scan. */
  lemma NamedExact(pages: seq<Page>, c: Chain, ids: seq<PageId>, a: Addr, v: Version)
    requires ChainOk(pages, c, ids)
    ensures Named(pages, c, ids, a) == Some(v) <==> Record(a, v.env, v.row) in Content(pages, c, ids)
  {
    var r, page, slot := Record(a, v.env, v.row), a / SLOT_END, a % SLOT_END;
    if Named(pages, c, ids, a) == Some(v) {
      assert Pack(page, slot) == a;
      var j :| 0 <= j < |ids| && ids[j] == page;
      if j < |ids| - 1 {
        StoredPage(pages, c, ids, j);
        PrefixHas(pages, ids, |ids| - 1, c.width, j, slot);
      } else {
        assert RecordsOf(page, c.tail.value)[slot] == r;
      }
    }
    if r in Content(pages, c, ids) { ContentOnly(pages, c, ids, r); }
  }

  lemma ContentOnly(pages: seq<Page>, c: Chain, ids: seq<PageId>, r: Record)
    requires ChainOk(pages, c, ids) && r in Content(pages, c, ids)
    ensures Named(pages, c, ids, r.addr) == Some(Version(r.env, r.row))
  {
    var n := |ids| - 1;
    if r in Prefix(pages, ids, n, c.width) {
      PrefixOnly(pages, ids, n, c.width, r);
      var j :| 0 <= j < n && ids[j] == r.addr / SLOT_END && r.addr % SLOT_END < |pages[ids[j]].records|
        && pages[ids[j]].records[r.addr % SLOT_END] == Version(r.env, r.row);
      StoredPage(pages, c, ids, j);
    } else {
      var k :| 0 <= k < |c.tail.value.records| && RecordsOf(Last(ids), c.tail.value)[k] == r;
      assert Last(ids) == r.addr / SLOT_END && k == r.addr % SLOT_END;
    }
  }
}
