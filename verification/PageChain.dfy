/** A table's chain of row and cold pages, and what walking it means. */
module PageChain {
  import opened Core
  import opened Values
  import opened SecondaryIndexes
  import opened IndexedQuery

  const PAGE_HEADER_SIZE: nat := 28
  const SLOT_SIZE: nat := 4
  const PAGE_ROOM: nat := PAGE_SIZE - PAGE_HEADER_SIZE
  const MAX_RECORD: nat := PAGE_SIZE - PAGE_HEADER_SIZE - SLOT_SIZE
  const SLOT_END: nat := 0x1_0000

  type PageId = nat

  datatype Version = Version(env: Envelope, row: Row)

  /** Decoded pages; `room` is the byte count a row page can still give out. */
  datatype Page =
    | RowPage(records: seq<Version>, room: nat, next: Option<PageId>)
    | ColdPage(records: seq<Version>, next: Option<PageId>)

  function FreshPage(): Page { RowPage([], PAGE_ROOM, None) }

  /** The table's catalog entry: chain ends, resident tail, declared counts and maintenance cursor. */
  datatype Chain = Chain(width: nat, first: Option<PageId>, tailId: Option<PageId>, tail: Option<Page>,
                         versions: nat, cold: nat, cursor: Option<PageId>, ids: Option<set<PageId>>)

  function EmptyChain(width: nat): Chain { Chain(width, None, None, None, 0, 0, None, None) }

  // ---- addresses ----

  /** `pack_addr`. */
  function Pack(page: PageId, slot: nat): (a: Addr)
    requires slot < SLOT_END
    ensures a / SLOT_END == page && a % SLOT_END == slot
  {
    page * SLOT_END + slot
  }

  function RecordsOf(id: PageId, p: Page): (r: seq<Record>)
    requires |p.records| <= SLOT_END
    ensures |r| == |p.records|
    ensures forall k :: 0 <= k < |r| ==> r[k] == Record(Pack(id, k), p.records[k].env, p.records[k].row)
  {
    seq(|p.records|, k requires 0 <= k < |p.records| => Record(Pack(id, k), p.records[k].env, p.records[k].row))
  }

  // ---- walking a chain, sound or not ----

  predicate RowsFit(p: Page, width: nat) {
    forall v :: v in p.records ==> |v.row| == width
  }

  /** What a walk has seen so far. */
  datatype Walk = Walk(hops: nat, cold: nat, tailFound: bool, out: seq<Record>)

  function StartWalk(c: Chain): Walk { Walk(0, 0, c.tailId.None?, []) }

  /** The page a walk reads at `id`: the resident tail, or a stored page. */
  function PageAt(pages: seq<Page>, c: Chain, id: PageId): Option<Page> {
    if c.tailId == Some(id) && c.tail.Some? then c.tail
    else if id < |pages| then Some(pages[id])
    else None
  }

  /** One page of `scan` (`strict`, which also checks row widths) or `scan_envelopes`. */
  function Visit(pages: seq<Page>, c: Chain, strict: bool, id: PageId, w: Walk): (r: Result<Walk>)
    ensures r.Ok? ==> r.value.hops == w.hops + 1 <= |pages| + 1 && PageAt(pages, c, id).Some?
    ensures r.Err? ==> r.error == Corruption
  {
    var page := PageAt(pages, c, id);
    if w.hops + 1 > |pages| + 1 || page.None? then Err(Corruption) else
    var p := page.value;
    var isTail := c.tailId == Some(id);
    var stored := !(isTail && c.tail.Some?);
    var cold := if stored && p.ColdPage? then w.cold + 1 else w.cold;
    if cold > w.cold && cold > c.cold then Err(Corruption)
    else if strict && !RowsFit(p, c.width) then Err(Corruption)
    else if |p.records| > SLOT_END || (isTail && p.next.Some?) then Err(Corruption)
    else Ok(Walk(w.hops + 1, cold, w.tailFound || isTail, w.out + RecordsOf(id, p)))
  }

  /** The checks after the last page. */
  function Finish(c: Chain, w: Walk): (r: Result<seq<Record>>)
    ensures r.Err? ==> r.error == Corruption
  {
    if w.cold != c.cold || !w.tailFound || |w.out| != c.versions then Err(Corruption) else Ok(w.out)
  }

  function WalkFrom(pages: seq<Page>, c: Chain, strict: bool, next: Option<PageId>, w: Walk): (r: Result<seq<Record>>)
    ensures r.Err? ==> r.error == Corruption
    decreases |pages| + 1 - w.hops
  {
    if next.None? then Finish(c, w) else
    var v := Visit(pages, c, strict, next.value, w);
    if v.Err? then Err(v.error)
    else WalkFrom(pages, c, strict, PageAt(pages, c, next.value).value.next, v.value)
  }

  /** Whatever the stored bytes, `scan_envelopes` accepts what `scan` accepts, with the same records. */
  lemma {:induction false} StrictWalkIsLoose(pages: seq<Page>, c: Chain, next: Option<PageId>, w: Walk)
    requires WalkFrom(pages, c, true, next, w).Ok?
    ensures WalkFrom(pages, c, false, next, w) == WalkFrom(pages, c, true, next, w)
    decreases |pages| + 1 - w.hops
  {
    if next.Some? {
      var v := Visit(pages, c, true, next.value, w);
      assert v == Visit(pages, c, false, next.value, w);
      StrictWalkIsLoose(pages, c, PageAt(pages, c, next.value).value.next, v.value);
    }
  }

  // ---- exactly which bytes a walk accepts ----

  /** These pages, linked one to the next from `next` on, the last without a successor. */
  predicate Path(pages: seq<Page>, c: Chain, next: Option<PageId>, ids: seq<PageId>)
    decreases |ids|
  {
    if ids == [] then next.None? else
    && next == Some(ids[0]) && PageAt(pages, c, ids[0]).Some?
    && Path(pages, c, PageAt(pages, c, ids[0]).value.next, ids[1..])
  }

  /** Its slots can be addressed, its rows are as wide as the table's, and nothing follows the tail. */
  predicate Acceptable(pages: seq<Page>, c: Chain, strict: bool, id: PageId) {
    PageAt(pages, c, id).Some? &&
    var p := PageAt(pages, c, id).value;
    && |p.records| <= 0x1_0000 && (c.tailId == Some(id) ==> p.next.None?)
    && (strict ==> forall i :: 0 <= i < |p.records| ==> |p.records[i].row| == c.width)
  }

  predicate ColdAt(pages: seq<Page>, c: Chain, id: PageId) {
    id < |pages| && pages[id].ColdPage? && (c.tailId != Some(id) || c.tail.None?)
  }

  function ColdCount(pages: seq<Page>, c: Chain, ids: seq<PageId>): nat {
    if ids == [] then 0 else (if ColdAt(pages, c, ids[0]) then 1 else 0) + ColdCount(pages, c, ids[1..])
  }

  function AllRecords(pages: seq<Page>, c: Chain, strict: bool, ids: seq<PageId>): seq<Record>
    requires forall id :: id in ids ==> Acceptable(pages, c, strict, id)
  {
    if ids == [] then [] else
    assert Acceptable(pages, c, strict, ids[0]);
    RecordsOf(ids[0], PageAt(pages, c, ids[0]).value) + AllRecords(pages, c, strict, ids[1..])
  }

  /** The rest of a walk is over these pages, fits the declared counts and ends with these records. */
  predicate Walks(pages: seq<Page>, c: Chain, strict: bool, next: Option<PageId>, w: Walk, ids: seq<PageId>,
      rs: seq<Record>)
  {
    && Path(pages, c, next, ids) && w.hops + |ids| <= |pages| + 1
    && (forall id :: id in ids ==> Acceptable(pages, c, strict, id))
    && w.cold + ColdCount(pages, c, ids) == c.cold
    && (w.tailFound || (c.tailId.Some? && c.tailId.value in ids))
    && rs == w.out + AllRecords(pages, c, strict, ids) && |rs| == c.versions
  }

  lemma VisitMeans(pages: seq<Page>, c: Chain, strict: bool, id: PageId, w: Walk)
    ensures Visit(pages, c, strict, id, w).Ok? <==>
      && w.hops <= |pages| && Acceptable(pages, c, strict, id)
      && (ColdAt(pages, c, id) ==> w.cold < c.cold)
    ensures Visit(pages, c, strict, id, w).Ok? ==>
      Visit(pages, c, strict, id, w).value == Walk(w.hops + 1, w.cold + (if ColdAt(pages, c, id) then 1 else 0),
        w.tailFound || c.tailId == Some(id), w.out + RecordsOf(id, PageAt(pages, c, id).value))
  {}

  lemma {:induction false} AcceptedIsPath(pages: seq<Page>, c: Chain, strict: bool, next: Option<PageId>, w: Walk)
      returns (ids: seq<PageId>)
    requires WalkFrom(pages, c, strict, next, w).Ok? && w.hops <= |pages| + 1
    ensures Walks(pages, c, strict, next, w, ids, WalkFrom(pages, c, strict, next, w).value)
    decreases |pages| + 1 - w.hops
  {
    if next.None? {
      ids := [];
      NothingAdded(w.out);
    } else {
      var id := next.value;
      var v, p := Visit(pages, c, strict, id, w).value, PageAt(pages, c, id).value;
      VisitMeans(pages, c, strict, id, w);
      var rest := AcceptedIsPath(pages, c, strict, p.next, v);
      ids := [id] + rest;
      assert ids[0] == id && ids[1..] == rest;
      AddedInTurn(w.out, RecordsOf(id, p), AllRecords(pages, c, strict, rest));
    }
  }

  lemma {:induction false} PathIsAccepted(pages: seq<Page>, c: Chain, strict: bool, next: Option<PageId>, w: Walk,
      ids: seq<PageId>, rs: seq<Record>)
    requires Walks(pages, c, strict, next, w, ids, rs)
    ensures WalkFrom(pages, c, strict, next, w) == Ok(rs)
    decreases |ids|
  {
    if ids == [] {
      NothingAdded(w.out);
    } else {
      var id, rest := ids[0], ids[1..];
      VisitMeans(pages, c, strict, id, w);
      var v, p := Visit(pages, c, strict, id, w).value, PageAt(pages, c, id).value;
      FirstAndRest(ids);
      AddedInTurn(w.out, RecordsOf(id, p), AllRecords(pages, c, strict, rest));
      PathIsAccepted(pages, c, strict, p.next, v, rest, rs);
    }
  }

  /** On any stored bytes: accepted with these records exactly when the pages from the first on form such a path. */
  lemma WalkExact(pages: seq<Page>, c: Chain, strict: bool, rs: seq<Record>)
    ensures WalkFrom(pages, c, strict, c.first, StartWalk(c)) == Ok(rs) <==>
      exists ids :: Walks(pages, c, strict, c.first, StartWalk(c), ids, rs)
  {
    if WalkFrom(pages, c, strict, c.first, StartWalk(c)).Ok? {
      var ids := AcceptedIsPath(pages, c, strict, c.first, StartWalk(c));
    }
    if ids :| Walks(pages, c, strict, c.first, StartWalk(c), ids, rs) {
      PathIsAccepted(pages, c, strict, c.first, StartWalk(c), ids, rs);
    }
  }

  // ---- sound chains ----

  /** Slots are four bytes each, so a page never holds 2^16 of them. */
  predicate PageOk(p: Page, width: nat) {
    && RowsFit(p, width)
    && |p.records| * SLOT_SIZE + (if p.RowPage? then p.room else 0) <= PAGE_ROOM
  }

  predicate Linked(pages: seq<Page>, ids: seq<PageId>, width: nat) {
    && (forall i :: 0 <= i < |ids| - 1 ==> ids[i] < |pages| && PageOk(pages[ids[i]], width))
    && (forall i, j {:trigger ids[i], ids[j]} :: 0 <= i < |ids| - 1 && j == i + 1 ==>
      pages[ids[i]].next == Some(ids[j]))
  }

  /** `ids` are the table's pages in chain order; all but the resident tail are stored. */
  ghost predicate ChainOk(pages: seq<Page>, c: Chain, ids: seq<PageId>) {
    && (ids == [] <==> c.first.None?) && (ids == [] <==> c.tailId.None?) && (ids == [] <==> c.tail.None?)
    && (ids != [] ==> c.first == Some(ids[0]) && c.tailId == Some(Last(ids)) && Last(ids) < |pages|)
    && (ids != [] ==> c.tail.value.RowPage? && c.tail.value.next == None && PageOk(c.tail.value, c.width))
    && NoDup(ids) && Linked(pages, ids, c.width)
    && c.cold == Colds(pages, ids, |ids| - 1)
    && c.versions == |Content(pages, c, ids)|
    && (c.cursor.Some? ==> c.cursor.value in ids)
    && (c.ids.Some? ==> c.ids.value == IdSet(ids))
  }

  function IdSet(ids: seq<PageId>): set<PageId> { set i | i in ids }

  /** Cold pages among the first n. */
  function Colds(pages: seq<Page>, ids: seq<PageId>, n: int): nat
    requires n <= |ids| && forall i :: 0 <= i < n ==> ids[i] < |pages|
    decreases n
  {
    if n <= 0 then 0 else Colds(pages, ids, n - 1) + if pages[ids[n - 1]].ColdPage? then 1 else 0
  }

  /** The records of the first n pages, in chain order. */
  function Prefix(pages: seq<Page>, ids: seq<PageId>, n: int, width: nat): seq<Record>
    requires n < |ids| && Linked(pages, ids, width)
    decreases n
  {
    if n <= 0 then [] else Prefix(pages, ids, n - 1, width) + RecordsOf(ids[n - 1], pages[ids[n - 1]])
  }

  ghost function Content(pages: seq<Page>, c: Chain, ids: seq<PageId>): seq<Record>
    requires Linked(pages, ids, c.width)
    requires ids != [] ==> c.tail.Some? && PageOk(c.tail.value, c.width)
  {
    if ids == [] then [] else Prefix(pages, ids, |ids| - 1, c.width) + RecordsOf(Last(ids), c.tail.value)
  }

  /** The chain is sound and a scan lists these records. */
  ghost predicate Lists(pages: seq<Page>, c: Chain, ids: seq<PageId>, rs: seq<Record>) {
    ChainOk(pages, c, ids) && Content(pages, c, ids) == rs
  }

  // ---- a sound chain is never refused ----

  function UpTo(n: nat): (r: set<nat>)
    ensures |r| == n && forall i :: i in r <==> 0 <= i < n
  {
    if n == 0 then {} else UpTo(n - 1) + {n - 1}
  }

  /** Distinct numbers below n are at most n many, so the hop limit is never reached. */
  lemma FewDistinct(s: seq<nat>, n: nat)
    requires NoDup(s) && forall i :: 0 <= i < |s| ==> s[i] < n
    ensures |s| <= n
  {
    Members(s);
    SubsetCard(IdSet(s), UpTo(n));
  }

  lemma {:induction false} Members(s: seq<nat>)
    requires NoDup(s)
    ensures |IdSet(s)| == |s|
    decreases |s|
  {
    if s != [] {
      var front := s[..|s| - 1];
      Members(front);
      assert s == front + [Last(s)];
      assert IdSet(s) == IdSet(front) + {Last(s)};
    }
  }

  lemma {:induction false} ColdsMonotone(pages: seq<Page>, ids: seq<PageId>, i: nat, n: nat)
    requires i <= n <= |ids| && forall k :: 0 <= k < n ==> ids[k] < |pages|
    ensures Colds(pages, ids, i) <= Colds(pages, ids, n)
    decreases n
  {
    if i < n { ColdsMonotone(pages, ids, i, n - 1); }
  }

  lemma StoredPage(pages: seq<Page>, c: Chain, ids: seq<PageId>, i: nat)
    requires ChainOk(pages, c, ids) && i < |ids| - 1
    ensures ids[i] < |pages| && c.tailId != Some(ids[i]) && PageOk(pages[ids[i]], c.width)
    ensures pages[ids[i]].next == Some(ids[i + 1])
    ensures i + 1 < |pages| && Colds(pages, ids, i) <= Colds(pages, ids, i + 1) <= c.cold
  {
    FewDistinct(ids, |pages|);
    ColdsMonotone(pages, ids, i + 1, |ids| - 1);
    assert ids[i] != Last(ids);
  }

  /** Page i of a sound chain is visited without error. */
  lemma VisitSound(pages: seq<Page>, c: Chain, ids: seq<PageId>, strict: bool, i: nat)
    requires ChainOk(pages, c, ids) && i < |ids| - 1
    ensures Visit(pages, c, strict, ids[i], Walk(i, Colds(pages, ids, i), false, Prefix(pages, ids, i, c.width)))
         == Ok(Walk(i + 1, Colds(pages, ids, i + 1), false, Prefix(pages, ids, i + 1, c.width)))
    ensures PageAt(pages, c, ids[i]) == Some(pages[ids[i]])
  {
    StoredPage(pages, c, ids, i);
    OneMorePage(pages, c, ids, i);
    var w := Walk(i, Colds(pages, ids, i), false, Prefix(pages, ids, i, c.width));
    VisitNext(pages, c, strict, ids[i], w, Colds(pages, ids, i + 1), Prefix(pages, ids, i + 1, c.width));
  }

  lemma VisitNext(pages: seq<Page>, c: Chain, strict: bool, id: PageId, w: Walk, cold: nat, out: seq<Record>)
    requires id < |pages| && c.tailId != Some(id) && PageOk(pages[id], c.width) && w.hops < |pages|
    requires cold == w.cold + (if pages[id].ColdPage? then 1 else 0) && cold <= c.cold
    requires out == w.out + RecordsOf(id, pages[id])
    ensures Visit(pages, c, strict, id, w) == Ok(Walk(w.hops + 1, cold, w.tailFound, out))
    ensures PageAt(pages, c, id) == Some(pages[id])
  {
    VisitStored(pages, c, strict, id, w);
  }

  lemma OneMorePage(pages: seq<Page>, c: Chain, ids: seq<PageId>, i: nat)
    requires ChainOk(pages, c, ids) && i < |ids| - 1 && ids[i] < |pages|
    ensures Prefix(pages, ids, i + 1, c.width) == Prefix(pages, ids, i, c.width) + RecordsOf(ids[i], pages[ids[i]])
    ensures Colds(pages, ids, i + 1) == Colds(pages, ids, i) + if pages[ids[i]].ColdPage? then 1 else 0
  {}

  lemma VisitStored(pages: seq<Page>, c: Chain, strict: bool, id: PageId, w: Walk)
    requires id < |pages| && c.tailId != Some(id) && PageOk(pages[id], c.width)
    requires w.hops < |pages| && (pages[id].ColdPage? ==> w.cold + 1 <= c.cold)
    ensures Visit(pages, c, strict, id, w)
         == Ok(Walk(w.hops + 1, w.cold + (if pages[id].ColdPage? then 1 else 0), w.tailFound,
           w.out + RecordsOf(id, pages[id])))
  {}

  lemma VisitTail(pages: seq<Page>, c: Chain, ids: seq<PageId>, strict: bool)
    requires ChainOk(pages, c, ids) && ids != []
    ensures Visit(pages, c, strict, Last(ids), Walk(|ids| - 1, c.cold, false, Prefix(pages, ids, |ids| - 1, c.width)))
         == Ok(Walk(|ids|, c.cold, true, Content(pages, c, ids)))
  {
    FewDistinct(ids, |pages|);
  }

  /** A walk over a sound chain ends with all its records, in append order. */
  lemma {:induction false} WalkSound(pages: seq<Page>, c: Chain, ids: seq<PageId>, strict: bool, i: nat)
    requires ChainOk(pages, c, ids) && i < |ids|
    ensures WalkFrom(pages, c, strict, Some(ids[i]),
      Walk(i, Colds(pages, ids, i), false, Prefix(pages, ids, i, c.width)))
         == Ok(Content(pages, c, ids))
    decreases |ids| - i
  {
    if i < |ids| - 1 {
      VisitSound(pages, c, ids, strict, i);
      WalkSound(pages, c, ids, strict, i + 1);
    } else {
      VisitTail(pages, c, ids, strict);
    }
  }

  /** `scan` and `scan_envelopes` never refuse a sound chain. */
  lemma ScanNeverFails(pages: seq<Page>, c: Chain, ids: seq<PageId>, strict: bool)
    requires ChainOk(pages, c, ids)
    ensures WalkFrom(pages, c, strict, c.first, StartWalk(c)) == Ok(Content(pages, c, ids))
  {
    if ids != [] { WalkSound(pages, c, ids, strict, 0); }
  }
}
