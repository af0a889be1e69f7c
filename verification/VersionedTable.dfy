/** A table under INSERT, UPDATE, DELETE, CREATE INDEX and compaction, read at any snapshot. */
module VersionedTable {
  import opened Core
  import opened Values
  import opened Predicates
  import opened IndexedQuery
  import opened SecondaryIndexes
  import opened PageChain
  import opened PageUpdates
  import opened Pager
  import opened Versions
  import opened Uniqueness
  import opened TableChanges

  const ENVELOPE_LEN: nat := 24
  const CAS_INLINE_THRESHOLD: nat := 16

  function CharLength(c: int): nat {
    if c < 0x80 then 1 else if c < 0x800 then 2 else if c < 0x1_0000 then 3 else 4
  }

  function Utf8Length(s: string): nat {
    if s == [] then 0 else Utf8Length(s[..|s| - 1]) + CharLength(Last(s) as int)
  }

  /** Long fields are stored by reference. */
  function BytesFieldLength(n: nat): nat {
    if n > CAS_INLINE_THRESHOLD then 9 else 3 + n
  }

  function FieldLength(v: Value): nat {
    match v
    case Null => 1
    case Int(_) => 9
    case Decimal(_) => 17
    case Text(s) => BytesFieldLength(Utf8Length(s))
    case Blob(b) => BytesFieldLength(|b|)
  }

  function FieldsLength(row: Row): nat {
    if row == [] then 0 else FieldsLength(row[..|row| - 1]) + FieldLength(Last(row))
  }

  function RecordLength(row: Row): nat { ENVELOPE_LEN + 2 + FieldsLength(row) }

  /** `validate_row_constraints` accepts. */
  predicate Storable(s: Schema, row: Row)
    requires SchemaOk(s)
  {
    |row| <= 65535 && RecordLength(row) <= MAX_RECORD && Allowed(s, row)
  }

  predicate AllStorable(s: Schema, rows: seq<Row>)
    requires SchemaOk(s)
  {
    forall i :: 0 <= i < |rows| ==> Storable(s, rows[i])
  }

  /** New versions of the rows, under consecutive transactions from `first`. */
  predicate NewVersions(news: seq<Record>, rows: seq<Row>, first: nat) {
    |news| == |rows| && forall i :: 0 <= i < |news| ==> news[i].row == rows[i] && news[i].env == Envelope(first + i, 0)
  }

  lemma StoreDistinct(pages: seq<Page>, tables: map<string, Chain>, ids: map<string, seq<PageId>>,
      model: map<string, seq<Record>>, n: string)
    requires StoreOk(pages, tables, ids, model) && n in tables
    ensures DistinctAddrs(model[n]) && AllFit(model[n], tables[n].width)
  {
    assert Lists(pages, tables[n], ids[n], model[n]);
    ContentDistinct(pages, tables[n], ids[n]);
    forall i | 0 <= i < |model[n]| ensures |model[n][i].row| == tables[n].width { assert model[n][i] in model[n]; }
  }

  /** `validate_row_constraints`. */
  method ValidateRow(s: Schema, row: Row) returns (ok: bool)
    requires SchemaOk(s)
    ensures ok <==> Storable(s, row)
  {
    if |row| != |s.columns| || |row| > 65535 || RecordLength(row) > MAX_RECORD { return false; }
    ok := NoneNull(s, row);
    if !ok { return; }
    ok := ChecksPass(s, row);
  }

  method NoneNull(s: Schema, row: Row) returns (ok: bool)
    requires SchemaOk(s) && |row| == |s.columns|
    ensures ok <==> forall c :: c in s.notNull ==> !row[Pos(s, c)].Null?
  {
    var rest := s.notNull;
    while rest != {}
      invariant rest <= s.notNull && forall c :: c in s.notNull - rest ==> !row[Pos(s, c)].Null?
      decreases |rest|
    {
      var c :| c in rest;
      if row[Pos(s, c)] == Null { return false; }
      rest := rest - {c};
    }
    ok := true;
  }

  method ChecksPass(s: Schema, row: Row) returns (ok: bool)
    requires SchemaOk(s) && |row| == |s.columns|
    ensures ok <==> forall i :: 0 <= i < |s.checks| ==> Check(s.checks[i], s.columns, row) != Some(false)
  {
    for i := 0 to |s.checks|
      invariant forall k :: 0 <= k < i ==> Check(s.checks[k], s.columns, row) != Some(false)
    {
      if Check(s.checks[i], s.columns, row) == Some(false) { return false; }
    }
    ok := true;
  }

  /** The number of visible rows equal to a value, through any index. */
  method CountEqual(t: Table, c: string, v: Value, clock: nat, ghost col: nat) returns (n: nat)
    requires TableOk(t) && ColumnPos(t.columns, c) == Ok(col) && Timed(t.records, clock)
      && AllFit(t.records, |t.columns|) && !v.Null?
    ensures n == LiveBag(t.records, col)[JoinKey(v)]
  {
    var hits := CollectMatching(t, Compare(c, Eq, v), clock);
    HitsAreCounted(t, c, col, v, clock, t.records);
    AsMany(hits.value, ScanHits(t, Compare(c, Eq, v), clock, t.records));
    n := |hits.value|;
  }

  type Pending = map<string, set<Value>>

  function Waiting(p: Pending, c: string): set<Value> {
    if c in p then p[c] else {}
  }

  /** The pending keys are those of the rows already accepted into the batch. */
  ghost predicate PendingOk(s: Schema, p: Pending, rows: seq<Row>)
    requires SchemaOk(s) && SameWidth(rows, |s.columns|)
  {
    forall c {:trigger Waiting(p, c)} :: c in s.unique ==> WaitingOk(Waiting(p, c), rows, Pos(s, c))
  }

  ghost predicate WaitingOk(keys: set<Value>, rows: seq<Row>, col: nat)
    requires RowsWide(rows, col)
  {
    forall k :: k in keys <==> k in RowBag(rows, col)
  }

  /** One unique column of `validate_insert_values`. */
  method CheckKey(t: Table, c: string, clock: nat, row: Row, col: nat, keys: set<Value>, ghost rows: seq<Row>)
      returns (ok: bool)
    requires TableOk(t) && ColumnPos(t.columns, c) == Ok(col) && Timed(t.records, clock)
      && AllFit(t.records, |t.columns|)
    requires |row| == |t.columns| && RowsWide(rows, col) && WaitingOk(keys, rows, col)
    ensures ok <==> FreshAt(t.records, rows, row, col)
  {
    if row[col] == Null { return true; }
    if JoinKey(row[col]) in keys { return false; }
    var n := CountEqual(t, c, row[col], clock, col);
    ok := n == 0;
  }

  lemma KeyAdded(keys: set<Value>, rows: seq<Row>, row: Row, col: nat)
    requires RowsWide(rows, col) && col < |row| && WaitingOk(keys, rows, col)
    ensures WaitingOk(if row[col].Null? then keys else keys + {JoinKey(row[col])}, rows + [row], col)
  {
    RowBagSnoc(rows, row, col);
  }

  /** The keys after the columns outside `rest` took the row's. */
  ghost predicate Advanced(s: Schema, before: Pending, after: Pending, row: Row, rest: set<string>)
    requires SchemaOk(s) && |row| == |s.columns|
  {
    forall c {:trigger Waiting(after, c)} :: c in s.unique ==>
      Waiting(after, c) == if c in rest || row[Pos(s, c)].Null? then Waiting(before, c)
        else Waiting(before, c) + {JoinKey(row[Pos(s, c)])}
  }

  lemma AdvanceStep(s: Schema, before: Pending, mid: Pending, row: Row, rest: set<string>, c: string)
    requires SchemaOk(s) && |row| == |s.columns| && c in rest && rest <= s.unique && Advanced(s, before, mid, row, rest)
    ensures Advanced(s, before, AddKey(mid, c, row[Pos(s, c)]), row, rest - {c})
  {
    var after := AddKey(mid, c, row[Pos(s, c)]);
    forall d | d in s.unique
      ensures Waiting(after, d) == if d in rest - {c} || row[Pos(s, d)].Null? then Waiting(before, d)
        else Waiting(before, d) + {JoinKey(row[Pos(s, d)])}
    {
      assert Waiting(mid, d) == if d in rest || row[Pos(s, d)].Null? then Waiting(before, d)
        else Waiting(before, d) + {JoinKey(row[Pos(s, d)])};
    }
  }

  lemma AdvancedAll(s: Schema, before: Pending, after: Pending, row: Row, rows: seq<Row>)
    requires SchemaOk(s) && |row| == |s.columns| && SameWidth(rows, |s.columns|) && PendingOk(s, before, rows)
      && Advanced(s, before, after, row, {})
    ensures SameWidth(rows + [row], |s.columns|) && PendingOk(s, after, rows + [row])
  {
    forall c | c in s.unique ensures WaitingOk(Waiting(after, c), rows + [row], Pos(s, c)) {
      assert WaitingOk(Waiting(before, c), rows, Pos(s, c));
      KeyAdded(Waiting(before, c), rows, row, Pos(s, c));
    }
  }

  function AddKey(p: Pending, c: string, v: Value): (after: Pending)
    ensures forall d {:trigger Waiting(after, d)} :: Waiting(after, d) == if d == c && !v.Null?
      then Waiting(p, d) + {JoinKey(v)} else Waiting(p, d)
  {
    if v.Null? then p else p[c := Waiting(p, c) + {JoinKey(v)}]
  }

  /** The unique part of `validate_insert_values`. */
  method ValidateKeys(s: Schema, t: Table, clock: nat, row: Row, pending: Pending, ghost rows: seq<Row>)
      returns (ok: bool, after: Pending)
    requires SchemaOk(s) && t.columns == s.columns && TableOk(t) && Timed(t.records, clock)
      && AllFit(t.records, |s.columns|)
    requires |row| == |s.columns| && SameWidth(rows, |s.columns|) && PendingOk(s, pending, rows)
    ensures ok <==> Fresh(s, t.records, rows, row)
    ensures ok ==> SameWidth(rows + [row], |s.columns|) && PendingOk(s, after, rows + [row])
  {
    after := pending;
    var rest := s.unique;
    while rest != {}
      invariant rest <= s.unique && Advanced(s, pending, after, row, rest)
      invariant forall c :: c in s.unique - rest ==> FreshAt(t.records, rows, row, Pos(s, c))
      decreases |rest|
    {
      var c :| c in rest;
      var col := Pos(s, c);
      ExactNameResolves(s.columns, col);
      assert WaitingOk(Waiting(pending, c), rows, col);
      ok := CheckKey(t, c, clock, row, col, Waiting(after, c), rows);
      if !ok { return; }
      AdvanceStep(s, pending, after, row, rest, c);
      after := AddKey(after, c, row[col]);
      rest := rest - {c};
    }
    ok := true;
    AdvancedAll(s, pending, after, row, rows);
  }

  // ---- whole batches ----

  /** The batch is storable and would break no unique column. */
  ghost predicate BatchOk(s: Schema, rs: seq<Record>, rows: seq<Row>)
    requires SchemaOk(s) && AllFit(rs, |s.columns|)
  {
    AllStorable(s, rows) && SameWidth(rows, |s.columns|) && Compatible(s, rs, rows)
  }

  lemma EmptyBatch(s: Schema, rs: seq<Record>)
    requires SchemaOk(s) && AllFit(rs, |s.columns|) && UniqueOk(s, rs)
    ensures BatchOk(s, rs, [])
  {
    forall c | c in s.unique ensures Single(LiveBag(rs, Pos(s, c)) + RowBag([], Pos(s, c))) {
      assert LiveBag(rs, Pos(s, c)) + RowBag([], Pos(s, c)) == LiveBag(rs, Pos(s, c));
    }
  }

  /** A batch is good row by row. */
  lemma BatchSnoc(s: Schema, rs: seq<Record>, rows: seq<Row>, i: nat)
    requires SchemaOk(s) && AllFit(rs, |s.columns|) && i < |rows| && BatchOk(s, rs, rows[..i])
    ensures BatchOk(s, rs, rows[..i + 1]) <==> Storable(s, rows[i]) && Fresh(s, rs, rows[..i], rows[i])
  {
    assert rows[..i + 1] == rows[..i] + [rows[i]];
    if Storable(s, rows[i]) {
      CompatibleSnoc(s, rs, rows[..i], rows[i]);
    }
    assert (rows[..i] + [rows[i]])[i] == rows[i];
  }

  lemma BatchPrefix(s: Schema, rs: seq<Record>, rows: seq<Row>, i: nat)
    requires SchemaOk(s) && AllFit(rs, |s.columns|) && i <= |rows| && BatchOk(s, rs, rows)
    ensures BatchOk(s, rs, rows[..i])
  {
    CompatiblePrefix(s, rs, rows, i);
  }

  /** The validation loop of a batch INSERT accepts exactly the batches that break no constraint. */
  method ValidateBatch(s: Schema, t: Table, clock: nat, rows: seq<Row>) returns (ok: bool)
    requires SchemaOk(s) && t.columns == s.columns && TableOk(t) && Timed(t.records, clock)
      && AllFit(t.records, |s.columns|) && UniqueOk(s, t.records)
    ensures ok <==> BatchOk(s, t.records, rows)
  {
    var pending: Pending := map[];
    EmptyBatch(s, t.records);
    for i := 0 to |rows|
      invariant BatchOk(s, t.records, rows[..i]) && PendingOk(s, pending, rows[..i])
    {
      BatchSnoc(s, t.records, rows, i);
      ok := ValidateRow(s, rows[i]);
      if ok { ok, pending := ValidateKeys(s, t, clock, rows[i], pending, rows[..i]); }
      if !ok {
        if BatchOk(s, t.records, rows) { BatchPrefix(s, t.records, rows, i + 1); }
        return;
      }
      assert rows[..i + 1] == rows[..i] + [rows[i]];
    }
    assert rows[..|rows|] == rows;
    ok := true;
  }

  /** The table after the first i rows of a batch were appended. */
  ghost predicate Batched(before: seq<Record>, rs: seq<Record>, rows: seq<Row>, i: nat, clock: nat) {
    && i <= |rows| && |rs| == |before| + i && rs[..|before|] == before
    && NewVersions(rs[|before|..], rows[..i], clock + 1) && Evolves(before, rs, clock)
  }

  lemma BatchedFree(s: Schema, before: seq<Record>, rs: seq<Record>, rows: seq<Row>, i: nat, clock: nat)
    requires SchemaOk(s) && AllFit(before, |s.columns|) && AllFit(rs, |s.columns|) && i < |rows|
    requires BatchOk(s, before, rows) && Batched(before, rs, rows, i, clock)
    ensures Free(s, rs, rows[i])
  {
    var news := rs[|before|..];
    assert rs == before + news;
    forall k | 0 <= k < |news| ensures news[k].row == rows[..i][k] && Live(news[k]) && |news[k].row| == |s.columns| {}
    NextIsFree(s, before, news, rows);
  }

  lemma BatchedStep(before: seq<Record>, rs: seq<Record>, after: seq<Record>, rows: seq<Row>, i: nat, clock: nat)
    requires i < |rows| && Batched(before, rs, rows, i, clock) && |after| == |rs| + 1 && after[..|rs|] == rs
    requires Last(after).row == rows[i] && Last(after).env == Envelope(clock + i + 1, 0)
      && Evolves(rs, after, clock + i)
    ensures Batched(before, after, rows, i + 1, clock)
  {
    EvolvesTransitive(before, rs, after, clock, clock + i);
    assert after[|before|..] == rs[|before|..] + [Last(after)];
    assert rows[..i + 1] == rows[..i] + [rows[i]];
    assert after[..|before|] == after[..|rs|][..|before|];
  }

  /** The visible matching records tombstoned under the next transaction, every other unchanged. */
  ghost predicate Deleted(t: Table, pred: Predicate, clock: nat, after: seq<Record>)
    requires Resolves(t.columns, pred) && forall i :: 0 <= i < |t.records| ==> |t.records[i].row| == |t.columns|
  {
    && |after| == |t.records|
    && forall k :: 0 <= k < |after| ==> after[k] == DeletedRecord(t, pred, clock, t.records[k])
  }

  function DeletedRecord(t: Table, pred: Predicate, clock: nat, r: Record): Record
    requires Resolves(t.columns, pred) && |r.row| == |t.columns|
  {
    if Selected(t, pred, clock, r) then r.(env := Envelope(r.env.inserted, clock + 1)) else r
  }

  /** Tombstoning what a search found. */
  lemma HitsAreDeleted(t: Table, pred: Predicate, clock: nat, hits: seq<Hit>) returns (after: seq<Record>)
    requires TableOk(t) && Resolves(t.columns, pred) && Timed(t.records, clock)
    requires multiset(hits) == multiset(ScanHits(t, pred, clock, t.records))
    requires forall i, j :: 0 <= i < j < |hits| ==> hits[i].addr != hits[j].addr
    ensures PairsOk(t.records, Addrs(hits), Rows(hits)) && after == Marked(t.records, Addrs(hits), clock + 1)
    ensures Evolves(t.records, after, clock) && Deleted(t, pred, clock, after)
  {
    after := Marked(t.records, Addrs(hits), clock + 1);
    HitsFromScan(t, pred, clock, hits);
    PairsAreLive(t.records, Addrs(hits), Rows(hits));
    MarkedEvolves(t.records, Addrs(hits), clock);
  }

  // ---- updates ----

  lemma MarkedFits(rs: seq<Record>, addrs: seq<Addr>, tx: nat, width: nat)
    requires AllFit(rs, width)
    ensures AllFit(Marked(rs, addrs, tx), width)
  {}

  /** The replacements could follow the tombstones without breaking a constraint. */
  ghost predicate UpdateOk(s: Schema, rs: seq<Record>, clock: nat, hits: seq<Hit>, at: nat, v: Value)
    requires SchemaOk(s) && AllFit(rs, |s.columns|) && RowsWide(Rows(hits), at)
  {
    MarkedFits(rs, Addrs(hits), clock + 1, |s.columns|);
    BatchOk(s, Marked(rs, Addrs(hits), clock + 1), Replaced(Rows(hits), at, v))
  }

  /** The unique-column test of `update_where`. */
  method CheckUpdateKey(s: Schema, t: Table, clock: nat, hits: seq<Hit>, at: nat, v: Value) returns (ok: bool)
    requires SchemaOk(s) && t.columns == s.columns && TableOk(t) && Timed(t.records, clock)
      && AllFit(t.records, |s.columns|) && UniqueOk(s, t.records)
    requires at < |s.columns| && PairsOk(t.records, Addrs(hits), Rows(hits)) && SameWidth(Rows(hits), |s.columns|)
    ensures ok <==> Compatible(s, Marked(t.records, Addrs(hits), clock + 1), Replaced(Rows(hits), at, v))
  {
    UpdateCompatible(s, t.records, Addrs(hits), Rows(hits), at, v, clock + 1);
    ok := true;
    if s.columns[at] in s.unique && v != Null {
      EqualCountIsBag(Rows(hits), at, v);
      var already := EqualCount(Rows(hits), at, v);
      ExactNameResolves(s.columns, at);
      var existing := CountEqual(t, s.columns[at], v, clock, at);
      ok := UpdateClear(|hits|, existing, already);
    }
  }

  /** Every check `update_where` makes before it writes, and exactly what they amount to. */
  method ValidateUpdate(s: Schema, t: Table, clock: nat, hits: seq<Hit>, at: nat, v: Value) returns (ok: bool)
    requires SchemaOk(s) && t.columns == s.columns && TableOk(t) && Timed(t.records, clock)
      && AllFit(t.records, |s.columns|) && UniqueOk(s, t.records)
    requires at < |s.columns| && PairsOk(t.records, Addrs(hits), Rows(hits)) && SameWidth(Rows(hits), |s.columns|)
    ensures ok <==> UpdateOk(s, t.records, clock, hits, at, v)
  {
    MarkedFits(t.records, Addrs(hits), clock + 1, |s.columns|);
    ok := CheckUpdateKey(s, t, clock, hits, at, v);
    if !ok { return; }
    ok := ValidateRows(s, Replaced(Rows(hits), at, v));
  }

  method ValidateRows(s: Schema, rows: seq<Row>) returns (ok: bool)
    requires SchemaOk(s)
    ensures ok <==> AllStorable(s, rows)
  {
    for i := 0 to |rows|
      invariant forall k :: 0 <= k < i ==> Storable(s, rows[k])
    {
      ok := ValidateRow(s, rows[i]);
      if !ok { return; }
    }
    ok := true;
  }

  /** The records after a statement's tombstones. */
  lemma HitsMarked(s: Schema, rs: seq<Record>, indexes: map<string, Index>, hits: seq<Hit>, clock: nat)
    requires Good(s, rs, indexes, clock) && PairsOk(rs, Addrs(hits), Rows(hits))
    ensures Good(s, Marked(rs, Addrs(hits), clock + 1), indexes, clock + 1)
  {
    PairsAreLive(rs, Addrs(hits), Rows(hits));
    MarkedGood(s, rs, indexes, Addrs(hits), clock);
  }

  lemma UpdateDone(before: seq<Record>, marked: seq<Record>, after: seq<Record>, hits: seq<Hit>, at: nat, v: Value,
      clock: nat)
    requires RowsWide(Rows(hits), at) && marked == Marked(before, Addrs(hits), clock + 1)
    requires Evolves(before, marked, clock) && Evolves(marked, after, clock + 1)
    requires |after| == |marked| + |hits| && after[..|marked|] == marked
      && NewVersions(after[|marked|..], Replaced(Rows(hits), at, v), clock + 2)
    ensures Updated(before, after, hits, at, v, clock) && Evolves(before, after, clock)
  {
    EvolvesTransitive(before, marked, after, clock, clock + 1);
  }

  // ---- CREATE INDEX ----

  /** An index filled by a scan is complete. */
  method BuildIndex(rs: seq<Record>, col: nat) returns (ix: Index)
    requires DistinctAddrs(rs) && forall r :: r in rs ==> col < |r.row|
    ensures IndexOk(ix, Owner(rs, col))
  {
    ix := [];
    for i := 0 to |rs|
      invariant IndexOk(ix, Owner(rs[..i], col))
    {
      IndexStep(rs, i, col, ix);
      ix := Insert(ix, rs[i].row[col], rs[i].addr);
    }
    assert rs[..|rs|] == rs;
  }

  lemma IndexStep(rs: seq<Record>, i: nat, col: nat, ix: Index)
    requires DistinctAddrs(rs) && (forall r :: r in rs ==> col < |r.row|) && i < |rs|
      && IndexOk(ix, Owner(rs[..i], col))
    ensures IndexOk(Insert(ix, rs[i].row[col], rs[i].addr), Owner(rs[..i + 1], col))
  {
    OwnerExact(rs[..i], col);
    assert rs[..i + 1] == rs[..i] + [rs[i]];
    OwnerSnoc(rs[..i], rs[i], col);
    assert forall k :: 0 <= k < i ==> rs[..i][k].addr != rs[i].addr;
    InsertKeepsIndex(ix, Owner(rs[..i], col), rs[i].row[col], rs[i].addr);
  }

  /** The values seen so far carry exactly the live keys. */
  ghost predicate SeenOk(rs: seq<Record>, col: nat, seen: seq<Value>)
    requires Wide(rs, col)
  {
    Single(LiveBag(rs, col)) && forall k :: k in LiveBag(rs, col) <==> Carries(seen, k)
  }

  ghost predicate Carries(seen: seq<Value>, k: Value) {
    exists j :: 0 <= j < |seen| && JoinKey(seen[j]) == k
  }

  lemma CarriesSnoc(seen: seq<Value>, v: Value, k: Value)
    ensures Carries(seen + [v], k) <==> Carries(seen, k) || JoinKey(v) == k
  {
    var more := seen + [v];
    assert more[|seen|] == v;
    if Carries(seen, k) {
      var j :| 0 <= j < |seen| && JoinKey(seen[j]) == k;
      assert more[j] == seen[j];
    }
  }

  /** Reading one more record: a live, non-NULL value is either new or a duplicate. */
  lemma SeenStep(rs: seq<Record>, i: nat, col: nat, seen: seq<Value>)
    requires Wide(rs, col) && i < |rs| && SeenOk(rs[..i], col, seen)
    ensures var v := rs[i].row[col];
      if !Live(rs[i]) || v.Null? then SeenOk(rs[..i + 1], col, seen)
      else if Carries(seen, JoinKey(v)) then !Single(LiveBag(rs, col))
      else SeenOk(rs[..i + 1], col, seen + [v])
  {
    var v := rs[i].row[col];
    assert rs[..i + 1] == rs[..i] + [rs[i]];
    BagSnoc(rs[..i], rs[i], col);
    if !Live(rs[i]) || v.Null? {
      assert LiveBag(rs[..i + 1], col) == LiveBag(rs[..i], col);
    } else {
      SingleAdd(LiveBag(rs[..i], col), JoinKey(v));
      if Carries(seen, JoinKey(v)) {
        BagPrefix(rs, i + 1, col);
      } else {
        forall k ensures k in LiveBag(rs[..i + 1], col) <==> Carries(seen + [v], k) { CarriesSnoc(seen, v, k); }
      }
    }
  }

  /** `validate_unique`: the quadratic search for two equal visible values. */
  method ValidateUnique(rs: seq<Record>, col: nat, clock: nat) returns (ok: bool)
    requires Wide(rs, col) && Timed(rs, clock)
    ensures ok <==> Single(LiveBag(rs, col))
  {
    var seen: seq<Value> := [];
    for i := 0 to |rs|
      invariant SeenOk(rs[..i], col, seen)
    {
      var v := rs[i].row[col];
      SeenStep(rs, i, col, seen);
      LiveIsVisible(rs, clock, i);
      if Sees(clock, rs[i].env) && v != Null {
        var clash := HasEqual(seen, v);
        if clash { return false; }
        seen := seen + [v];
      }
    }
    assert rs[..|rs|] == rs;
    ok := true;
  }

  method HasEqual(seen: seq<Value>, v: Value) returns (found: bool)
    ensures found <==> Carries(seen, JoinKey(v))
  {
    for i := 0 to |seen|
      invariant forall j :: 0 <= j < i ==> JoinKey(seen[j]) != JoinKey(v)
    {
      JoinKeyIsEquality(seen[i], v);
      if ValuesEqual(seen[i], v) { return true; }
    }
    found := false;
  }

  lemma {:induction false} BagPrefix(rs: seq<Record>, i: nat, col: nat)
    requires Wide(rs, col) && i <= |rs| && !Single(LiveBag(rs[..i], col))
    ensures !Single(LiveBag(rs, col))
    decreases |rs|
  {
    if i < |rs| {
      var front := rs[..|rs| - 1];
      assert front[..i] == rs[..i];
      BagPrefix(front, i, col);
      var k :| LiveBag(front, col)[k] > 1;
      assert LiveBag(rs, col)[k] >= LiveBag(front, col)[k];
    } else {
      assert rs[..i] == rs;
    }
  }

  lemma SameAllowed(s: Schema, after: Schema, row: Row)
    requires SchemaOk(s) && SchemaOk(after) && after == s.(unique := after.unique)
    ensures Allowed(after, row) <==> Allowed(s, row)
  {
    if |row| == |s.columns| {
      assert forall c :: c in s.notNull ==> Pos(after, c) == Pos(s, c);
    }
  }

  lemma IndexAdded(s: Schema, rs: seq<Record>, indexes: map<string, Index>, clock: nat, c: string, ix: Index,
      unique: bool)
    requires Good(s, rs, indexes, clock) && c in s.columns && IndexOk(ix, Owner(rs, ColPos(s.columns, c)))
    requires unique ==> Single(LiveBag(rs, ColPos(s.columns, c)))
    ensures Good(if unique then s.(unique := s.unique + {c}) else s, rs, indexes[c := ix], clock)
  {
    var after := if unique then s.(unique := s.unique + {c}) else s;
    assert Backed(s.columns, rs, ix, c);
    forall i | 0 <= i < |rs| ensures Allowed(after, rs[i].row) {
      assert Allowed(s, rs[i].row); SameAllowed(s, after, rs[i].row);
    }
    forall d | d in after.unique ensures Single(LiveBag(rs, Pos(after, d))) {
      if d in s.unique { assert Single(LiveBag(rs, Pos(s, d))); }
    }
  }

  lemma AsMany<T>(a: seq<T>, b: seq<T>)
    requires multiset(a) == multiset(b)
    ensures |a| == |b|
  {
    assert |multiset(a)| == |multiset(b)|;
  }

  // ---- the table ----

  class LiveTable {
    const store: Store
    const name: string
    var clock: nat
    var schema: Schema
    var indexes: map<string, Index>

    ghost predicate Valid()
      reads this, store
    {
      && store.Valid() && name in store.tables && name in store.model && store.tables[name].width == |schema.columns|
      && Good(schema, store.model[name], indexes, clock)
    }

    /** Every stored version, as a scan lists them. */
    ghost function Records(): seq<Record>
      reads this, store
      requires name in store.model
    {
      store.model[name]
    }

    constructor (s: Store, n: string, sch: Schema, now: nat)
      requires s.Valid() && n !in s.tables && SchemaOk(sch)
      modifies s
      ensures store == s && name == n && schema == sch && clock == now
      ensures Valid() && Records() == []
    {
      store, name, schema, clock := s, n, sch, now;
      indexes := map c | c in sch.unique :: [];
      new;
      s.CreateTable(n, |sch.columns|);
      EmptyGood(sch, indexes, now);
    }

    /** `select` at a snapshot. */
    method Select(before: Option<nat>) returns (hits: seq<Hit>)
      requires Valid()
      ensures var at := if before.Some? then before.value else clock;
        && hits == AsOf(Records(), at)
        && exists list :: VisibleRows(Records(), at, hits, list)
    {
      var all := store.Scan(name);
      var at := if before.Some? then before.value else clock;
      ghost var list: seq<nat> := [];
      hits := [];
      for i := 0 to |all.value|
        invariant hits == AsOf(all.value[..i], at)
        invariant VisibleRows(all.value[..i], at, hits, list)
      {
        var r := all.value[i];
        VisibleSnoc(all.value, at, hits, list, i);
        PrefixSnoc(all.value, i);
        if Sees(at, r.env) {
          hits := hits + [Hit(r.addr, r.row)];
          list := list + [i];
        }
      }
      WholePrefix(all.value);
    }

    // ---- INSERT ----

    /** `insert_validated_base`. */
    method InsertBase(row: Row)
      requires Valid() && Storable(schema, row) && Free(schema, Records(), row)
      modifies this, store
      ensures Valid() && schema == old(schema) && clock == old(clock) + 1
      ensures |Records()| == |old(Records())| + 1 && Records()[..|old(Records())|] == old(Records())
      ensures Last(Records()).row == row && Last(Records()).env == Envelope(clock, 0)
      ensures Evolves(old(Records()), Records(), old(clock))
    {
      ghost var before := Records();
      var tx := clock + 1;
      var a := store.Append(name, Version(Envelope(tx, 0), row), RecordLength(row));
      ghost var r := Record(a, Envelope(tx, 0), row);
      StoreDistinct(store.pages, store.tables, store.ids, store.model, name);
      InsertGood(schema, before, indexes, clock, r);
      indexes := Indexed(schema.columns, indexes, row, a);
      clock := tx;
    }

    /** The rows of a validated batch, one after the other. */
    method InsertAll(rows: seq<Row>)
      requires Valid() && BatchOk(schema, Records(), rows)
      modifies this, store
      ensures Valid() && schema == old(schema) && clock == old(clock) + |rows|
      ensures |Records()| == |old(Records())| + |rows| && Records()[..|old(Records())|] == old(Records())
      ensures NewVersions(Records()[|old(Records())|..], rows, old(clock) + 1)
      ensures Evolves(old(Records()), Records(), old(clock))
    {
      ghost var before := Records();
      for i := 0 to |rows|
        invariant Valid() && schema == old(schema) && clock == old(clock) + i
        invariant Batched(before, Records(), rows, i, old(clock))
      {
        ghost var rs := Records();
        BatchedFree(schema, before, rs, rows, i, old(clock));
        InsertBase(rows[i]);
        BatchedStep(before, rs, Records(), rows, i, old(clock));
      }
      assert rows[..|rows|] == rows;
    }

    /**
     `insert` and `InsertMany`: accepted exactly when every row is storable and the outcome keeps
     every unique column; a refused batch changes nothing.
     */
    method Insert(rows: seq<Row>) returns (r: Result<nat>)
      requires Valid()
      modifies this, store
      ensures Valid() && schema == old(schema)
      ensures r.Ok? <==> BatchOk(schema, old(Records()), rows)
      ensures r.Err? ==> r.error == Error.Schema && Records() == old(Records()) && clock == old(clock)
      ensures r.Ok? ==>
        r.value == |rows| && |Records()| == |old(Records())| + |rows| && Records()[..|old(Records())|] == old(Records())
      ensures r.Ok? ==> NewVersions(Records()[|old(Records())|..], rows, old(clock) + 1)
      ensures Evolves(old(Records()), Records(), old(clock)) && old(clock) <= clock
    {
      var all := store.Scan(name);
      var ok := ValidateBatch(schema, Table(schema.columns, all.value, indexes), clock, rows);
      if !ok { return Err(Error.Schema); }
      InsertAll(rows);
      r := Ok(|rows|);
    }

    // ---- DELETE ----

    /** A transaction number taken here or by another table's write. */
    method Tick()
      requires Valid()
      modifies this`clock
      ensures Valid() && clock == old(clock) + 1
    {
      LaterIsGood(schema, Records(), indexes, clock, clock + 1);
      clock := clock + 1;
    }

    /** The tombstones of one statement, all under one transaction, which then becomes the current one. */
    method MarkStored(hits: seq<Hit>, tx: nat)
      requires Valid() && tx == clock + 1 && PairsOk(Records(), Addrs(hits), Rows(hits))
      modifies this`clock, store
      ensures store.Valid() && name in store.tables && name in store.model
      ensures store.tables[name].width == |schema.columns| && clock == tx
      ensures store.model[name] == Marked(old(Records()), Addrs(hits), tx)
    {
      PairsAreLive(Records(), Addrs(hits), Rows(hits));
      TombstoneAll(store, name, Addrs(hits), tx);
      clock := tx;
    }

    /** `delete_where`: exactly the visible matching rows are tombstoned. */
    method DeleteWhere(pred: Predicate) returns (r: Result<nat>)
      requires Valid()
      modifies this, store
      ensures Valid() && schema == old(schema) && old(clock) <= clock
      ensures r.Ok? <==> Resolves(schema.columns, pred)
      ensures r.Err? ==> r.error == Error.Schema && Records() == old(Records()) && clock == old(clock)
      ensures r.Ok? ==> clock == old(clock) + 1 && |Records()| == |old(Records())|
      ensures r.Ok? ==>
        r.value == |ScanHits(old(Table(schema.columns, Records(), indexes)), pred, old(clock), old(Records()))|
      ensures r.Ok? ==> Deleted(old(Table(schema.columns, Records(), indexes)), pred, old(clock), Records())
      ensures Evolves(old(Records()), Records(), old(clock))
    {
      var all := store.Scan(name);
      var t := Table(schema.columns, all.value, indexes);
      var hits := CollectMatching(t, pred, clock);
      if hits.Err? { return Err(hits.error); }
      AsMany(hits.value, ScanHits(t, pred, clock, t.records));
      DeleteHits(t, pred, hits.value);
      r := Ok(|hits.value|);
    }

    method DeleteHits(ghost t: Table, pred: Predicate, hits: seq<Hit>)
      requires Valid() && t == Table(schema.columns, Records(), indexes) && Resolves(t.columns, pred)
      requires multiset(hits) == multiset(ScanHits(t, pred, clock, t.records))
      requires forall i, j :: 0 <= i < j < |hits| ==> hits[i].addr != hits[j].addr
      modifies this`clock, store
      ensures Valid() && clock == old(clock) + 1 && Deleted(t, pred, old(clock), Records())
      ensures Evolves(old(Records()), Records(), old(clock))
    {
      ghost var after := HitsAreDeleted(t, pred, clock, hits);
      MarkAs(hits, after);
    }

    // ---- UPDATE ----

    method MarkHits(hits: seq<Hit>)
      requires Valid() && PairsOk(Records(), Addrs(hits), Rows(hits))
      modifies this`clock, store
      ensures Valid() && clock == old(clock) + 1
      ensures Records() == Marked(old(Records()), Addrs(hits), clock)
    {
      ghost var before := store.model[name];
      MarkStored(hits, clock + 1);
      HitsMarked(schema, before, indexes, hits, old(clock));
    }

    method MarkAs(hits: seq<Hit>, ghost after: seq<Record>)
      requires Valid() && PairsOk(Records(), Addrs(hits), Rows(hits))
      requires after == Marked(Records(), Addrs(hits), clock + 1)
      modifies this`clock, store
      ensures Valid() && clock == old(clock) + 1 && Records() == after
    {
      MarkHits(hits);
    }

    /** The tombstones of an update; its replacements are then a batch that may be inserted. */
    method MarkReplaced(hits: seq<Hit>, at: nat, v: Value)
      requires Valid() && at < |schema.columns| && PairsOk(Records(), Addrs(hits), Rows(hits))
      requires RowsWide(Rows(hits), at) && UpdateOk(schema, Records(), clock, hits, at, v)
      modifies this`clock, store
      ensures Valid() && clock == old(clock) + 1
      ensures Records() == Marked(old(Records()), Addrs(hits), clock) && Evolves(old(Records()), Records(), old(clock))
      ensures BatchOk(schema, Records(), Replaced(Rows(hits), at, v))
    {
      MarkedEvolves(Records(), Addrs(hits), clock);
      MarkHits(hits);
    }

    /** Tombstones, then replacements. */
    method ApplyUpdate(hits: seq<Hit>, at: nat, v: Value)
      requires Valid() && at < |schema.columns| && PairsOk(Records(), Addrs(hits), Rows(hits))
        && SameWidth(Rows(hits), |schema.columns|)
      requires UpdateOk(schema, Records(), clock, hits, at, v)
      modifies this, store
      ensures Valid() && schema == old(schema) && old(clock) <= clock
      ensures Updated(old(Records()), Records(), hits, at, v, old(clock))
        && Evolves(old(Records()), Records(), old(clock))
    {
      MarkReplaced(hits, at, v);
      InsertReplacements(hits, at, v, old(Records()), old(clock));
    }

    method InsertReplacements(hits: seq<Hit>, at: nat, v: Value, ghost before: seq<Record>, ghost since: nat)
      requires Valid() && RowsWide(Rows(hits), at) && clock == since + 1
      requires Records() == Marked(before, Addrs(hits), clock) && Evolves(before, Records(), since)
      requires BatchOk(schema, Records(), Replaced(Rows(hits), at, v))
      modifies this, store
      ensures Valid() && schema == old(schema) && since <= clock
      ensures Updated(before, Records(), hits, at, v, since) && Evolves(before, Records(), since)
    {
      ghost var marked := Records();
      InsertAll(Replaced(Rows(hits), at, v));
      UpdateDone(before, marked, Records(), hits, at, v, since);
    }

    /**
     `update_where`: refused exactly when a reference does not resolve or the outcome would break
     a constraint; a refused update changes nothing. `hits` are the matching rows in the order found.
     */
    method UpdateWhere(column: string, v: Value, pred: Predicate) returns (r: Result<nat>, ghost hits: seq<Hit>)
      requires Valid()
      modifies this, store
      ensures Valid() && schema == old(schema) && old(clock) <= clock
      ensures Evolves(old(Records()), Records(), old(clock))
      ensures r.Err? ==> r.error == Error.Schema && Records() == old(Records()) && clock == old(clock)
      ensures column !in schema.columns || !Resolves(schema.columns, pred) ==> r.Err?
      ensures column in schema.columns && Resolves(schema.columns, pred) ==>
        && multiset(hits)
          == multiset(ScanHits(old(Table(schema.columns, Records(), indexes)), pred, old(clock), old(Records())))
        && RowsWide(Rows(hits), ColPos(schema.columns, column))
        && (r.Ok? <==> UpdateOk(schema, old(Records()), old(clock), hits, ColPos(schema.columns, column), v))
        && (r.Ok? ==>
          r.value == |hits| && Updated(old(Records()), Records(), hits, ColPos(schema.columns, column), v, old(clock)))
    {
      hits := [];
      if column !in schema.columns { return Err(Error.Schema), hits; }
      var at := ColPos(schema.columns, column);
      var all := store.Scan(name);
      var t := Table(schema.columns, all.value, indexes);
      var found := CollectMatching(t, pred, clock);
      if found.Err? { return Err(found.error), hits; }
      hits := found.value;
      HitsFromScan(t, pred, clock, found.value);
      var ok := ValidateUpdate(schema, t, clock, found.value, at, v);
      if !ok { return Err(Error.Schema), hits; }
      if |found.value| == 0 {
        NothingUpdated(Records(), at, v, clock);
        return Ok(0), hits;
      }
      ApplyUpdate(found.value, at, v);
      r := Ok(|found.value|);
    }

    // ---- CREATE INDEX and compaction ----

    /** `create_index`, and `CREATE UNIQUE INDEX` when no two visible rows are equal in the column. */
    method CreateIndex(column: string, unique: bool) returns (r: Result<()>)
      requires Valid()
      modifies this
      ensures Valid() && Records() == old(Records()) && clock == old(clock)
      ensures r.Ok? <==>
        column in schema.columns && (unique ==> Single(LiveBag(Records(), ColPos(schema.columns, column))))
      ensures r.Err? ==> r.error == Error.Schema
      ensures schema == if r.Ok? && unique then old(schema).(unique := old(schema).unique + {column}) else old(schema)
      ensures r.Ok? ==> column in indexes
    {
      if column !in schema.columns { return Err(Error.Schema); }
      var col := ColPos(schema.columns, column);
      var all := store.Scan(name);
      if unique {
        var single := ValidateUnique(all.value, col, clock);
        if !single { return Err(Error.Schema); }
      }
      var ix := BuildIndex(all.value, col);
      IndexAdded(schema, all.value, indexes, clock, column, ix, unique);
      indexes := indexes[column := ix];
      if unique { schema := schema.(unique := schema.unique + {column}); }
      r := Ok(());
    }

    /** A bounded compaction pass over all tables. */
    method Compact(max: nat) returns (visited: nat)
      requires Valid()
      modifies store
      ensures Valid() && Records() == old(Records())
    {
      var names := ListNames(store.tables.Keys);
      visited := CompactStep(store, names, max);
    }
  }

  /** Hits tombstoned under the next transaction; their replacements follow under the ones after it. */
  ghost predicate Updated(before: seq<Record>, after: seq<Record>, hits: seq<Hit>, at: nat, v: Value, clock: nat)
    requires RowsWide(Rows(hits), at)
  {
    && |after| == |before| + |hits|
    && after[..|before|] == Marked(before, Addrs(hits), clock + 1)
    && NewVersions(after[|before|..], Replaced(Rows(hits), at, v), clock + 2)
  }

  lemma NothingUpdated(rs: seq<Record>, at: nat, v: Value, clock: nat)
    ensures Updated(rs, rs, [], at, v, clock)
  {
    NoneMarked(rs, clock + 1);
  }

  lemma EmptyGood(s: Schema, indexes: map<string, Index>, clock: nat)
    requires SchemaOk(s) && indexes == map c | c in s.unique :: []
    ensures Good(s, [], indexes, clock)
  {
    forall c | c in indexes ensures Backed(s.columns, [], indexes[c], c) {
      var i := Pos(s, c);
      assert IndexOk([], Owner([], i));
    }
  }

  lemma MapTwice<K, V>(m: map<K, V>, k: K, a: V, b: V)
    ensures m[k := a][k := b] == m[k := b]
  {}

  /** `patch_delete_at` for each address of a statement. */
  method TombstoneAll(store: Store, n: string, addrs: seq<Addr>, tx: nat)
    requires store.Valid() && n in store.tables && n in store.model && LiveAddrs(store.model[n], addrs)
    modifies store
    ensures store.Valid() && n in store.tables && store.tables[n].width == old(store.tables[n].width)
    ensures store.model == old(store.model)[n := Marked(old(store.model[n]), addrs, tx)]
  {
    ghost var model := store.model;
    ghost var before := model[n];
    NoneMarked(before, tx);
    for i := 0 to |addrs|
      invariant store.Valid() && n in store.tables && store.tables[n].width == old(store.tables[n].width)
      invariant store.model == model[n := Marked(before, addrs[..i], tx)]
    {
      TombstoneNext(store, n, addrs, i, tx, before);
      MapTwice(model, n, Marked(before, addrs[..i], tx), Marked(before, addrs[..i + 1], tx));
    }
    assert addrs[..|addrs|] == addrs;
  }

  method TombstoneNext(store: Store, n: string, addrs: seq<Addr>, i: nat, tx: nat, ghost before: seq<Record>)
    requires store.Valid() && n in store.tables && n in store.model && i < |addrs| && LiveAddrs(before, addrs)
    requires store.model[n] == Marked(before, addrs[..i], tx)
    modifies store
    ensures store.Valid() && n in store.tables && store.tables[n].width == old(store.tables[n].width)
    ensures store.model == old(store.model)[n := Marked(before, addrs[..i + 1], tx)]
  {
    ghost var k := Remarked(before, addrs, i, tx);
    assert store.model[n][k].addr == addrs[i];
    var done := store.Tombstone(n, addrs[i], tx);
  }

  lemma Remarked(before: seq<Record>, addrs: seq<Addr>, i: nat, tx: nat) returns (k: nat)
    requires LiveAddrs(before, addrs) && i < |addrs|
    ensures k < |before| && Marked(before, addrs[..i], tx)[k].addr == addrs[i]
    ensures Tombstoned(Marked(before, addrs[..i], tx), addrs[i], tx) == Marked(before, addrs[..i + 1], tx)
  {
    assert LiveAt(before, addrs[i]);
    var l :| 0 <= l < |before| && before[l].addr == addrs[i] && Live(before[l]);
    k := l;
    MarkedSnoc(before, addrs[..i], addrs[i], tx);
    assert addrs[..i + 1] == addrs[..i] + [addrs[i]];
  }

  /** `table_names`, in some order. */
  method ListNames(names: set<string>) returns (r: seq<string>)
    ensures NoDup(r) && forall n :: n in r <==> n in names
  {
    r := [];
    var rest := names;
    while rest != {}
      invariant rest <= names && NoDup(r) && forall n :: n in r <==> n in names && n !in rest
      decreases |rest|
    {
      var n :| n in rest;
      NoDupConcat(r, [n]);
      r := r + [n];
      rest := rest - {n};
    }
  }

  // ---- whole runs ----

  datatype Op =
    | InsertOp(rows: seq<Row>)
    | DeleteOp(pred: Predicate)
    | UpdateOp(column: string, v: Value, pred: Predicate)
    | IndexOp(column: string, unique: bool)
    | CompactOp(max: nat)
    | OtherWrite

  /** One statement, whether it succeeds or is refused. */
  method Apply(t: LiveTable, op: Op)
    requires t.Valid()
    modifies t, t.store
    ensures t.Valid() && old(t.clock) <= t.clock
    ensures t.schema == old(t.schema).(unique := t.schema.unique) && old(t.schema).unique <= t.schema.unique
    ensures Evolves(old(t.Records()), t.Records(), old(t.clock))
  {
    match op
    case InsertOp(rows) => var _ := t.Insert(rows);
    case DeleteOp(pred) => var _ := t.DeleteWhere(pred);
    case UpdateOp(column, v, pred) => var _, _ := t.UpdateWhere(column, v, pred);
    case IndexOp(column, unique) => var _ := t.CreateIndex(column, unique);
    case CompactOp(max) => var _ := t.Compact(max);
    case OtherWrite => t.Tick();
  }

  /**
   Time travel over any run: once the clock has reached a moment, no run of writes, index creations
   or compaction passes changes what reading as of that moment returns, and the constraints and
   indexes hold after every statement.
   */
  method Run(t: LiveTable, ops: seq<Op>)
    requires t.Valid()
    modifies t, t.store
    ensures t.Valid() && Evolves(old(t.Records()), t.Records(), old(t.clock))
    ensures forall snapshot :: 0 <= snapshot <= old(t.clock) ==>
      AsOf(t.Records(), snapshot) == AsOf(old(t.Records()), snapshot)
  {
    ghost var before, t0 := t.Records(), t.clock;
    for i := 0 to |ops|
      invariant t.Valid() && t0 <= t.clock
      invariant Evolves(before, t.Records(), t0)
    {
      ghost var mid, now := t.Records(), t.clock;
      Apply(t, ops[i]);
      EvolvesTransitive(before, mid, t.Records(), t0, now);
    }
    forall snapshot | 0 <= snapshot <= t0 ensures AsOf(t.Records(), snapshot) == AsOf(before, snapshot) {
      TimeTravel(before, t.Records(), t0, snapshot);
    }
  }
}
