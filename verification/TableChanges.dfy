/** Writes to one table as values: what keeps its indexes complete and its constraints true. */
module TableChanges {
  import opened Core
  import opened Values
  import opened Predicates
  import opened IndexedQuery
  import opened SecondaryIndexes
  import opened PageUpdates
  import opened Versions
  import opened Uniqueness

  datatype Schema = Schema(columns: seq<string>, unique: set<string>, notNull: set<string>, checks: seq<Predicate>)

  /** `validate_schema_metadata`. */
  predicate SchemaOk(s: Schema) {
    && s.columns != [] && DistinctColumns(s.columns)
    && (forall c :: c in s.unique + s.notNull ==> c in s.columns)
    && (forall i :: 0 <= i < |s.checks| ==> Resolves(s.columns, s.checks[i]))
  }

  /** `col_pos`: the first column of that name. */
  function ColPos(columns: seq<string>, c: string): (i: nat)
    requires c in columns
    ensures i < |columns| && columns[i] == c
  {
    if columns[0] == c then 0 else 1 + ColPos(columns[1..], c)
  }

  function Pos(s: Schema, c: string): (i: nat)
    requires SchemaOk(s) && (c in s.unique || c in s.notNull)
    ensures i < |s.columns| && s.columns[i] == c
  {
    ColPos(s.columns, c)
  }

  /** NOT NULL holds and no CHECK is false (UNKNOWN passes). */
  predicate Allowed(s: Schema, row: Row)
    requires SchemaOk(s)
  {
    && |row| == |s.columns|
    && (forall c :: c in s.notNull ==> !row[Pos(s, c)].Null?)
    && (forall i :: 0 <= i < |s.checks| ==> Check(s.checks[i], s.columns, row) != Some(false))
  }

  predicate AllFit(rs: seq<Record>, width: nat) {
    forall i :: 0 <= i < |rs| ==> |rs[i].row| == width
  }

  /** No unique column holds a key twice among live rows. */
  ghost predicate UniqueOk(s: Schema, rs: seq<Record>)
    requires SchemaOk(s) && AllFit(rs, |s.columns|)
  {
    forall c :: c in s.unique ==> Single(LiveBag(rs, Pos(s, c)))
  }

  predicate AllAllowed(s: Schema, rs: seq<Record>)
    requires SchemaOk(s)
  {
    forall i {:trigger Allowed(s, rs[i].row)} :: 0 <= i < |rs| ==> Allowed(s, rs[i].row)
  }

  lemma AllowedSnoc(s: Schema, rs: seq<Record>, r: Record)
    requires SchemaOk(s) && AllAllowed(s, rs) && Allowed(s, r.row)
    ensures AllAllowed(s, rs + [r])
  {
    forall i | 0 <= i < |rs| + 1 ensures Allowed(s, (rs + [r])[i].row) {
      if i < |rs| { assert (rs + [r])[i] == rs[i] && Allowed(s, rs[i].row); }
    }
  }

  lemma AllowedStamped(s: Schema, rs: seq<Record>, a: Addr, tx: nat)
    requires SchemaOk(s) && AllAllowed(s, rs)
    ensures AllAllowed(s, Tombstoned(rs, a, tx))
  {
    forall i | 0 <= i < |rs| ensures Allowed(s, Tombstoned(rs, a, tx)[i].row) { assert Allowed(s, rs[i].row); }
  }

  /** Everything that holds of a table between statements. */
  ghost predicate Good(s: Schema, rs: seq<Record>, indexes: map<string, Index>, clock: nat) {
    && SchemaOk(s) && AllFit(rs, |s.columns|) && TableOk(Table(s.columns, rs, indexes)) && Timed(rs, clock)
    && AllAllowed(s, rs) && UniqueOk(s, rs)
  }

  /** The uniqueness a reader sees: no two visible rows are SQL-equal in a unique column. */
  lemma GoodIsUnique(s: Schema, rs: seq<Record>, indexes: map<string, Index>, clock: nat, c: string, i: nat, j: nat)
    requires Good(s, rs, indexes, clock) && c in s.unique && i < j < |rs|
    requires Sees(clock, rs[i].env) && Sees(clock, rs[j].env)
    ensures var v, w := rs[i].row[Pos(s, c)], rs[j].row[Pos(s, c)]; v.Null? || w.Null? || !ValuesEqual(v, w)
  {
    LiveIsVisible(rs, clock, i);
    LiveIsVisible(rs, clock, j);
    SingleIsNoClash(rs, Pos(s, c));
    assert !Clash(rs[i], rs[j], Pos(s, c));
  }

  lemma LaterIsGood(s: Schema, rs: seq<Record>, indexes: map<string, Index>, clock: nat, later: nat)
    requires Good(s, rs, indexes, clock) && clock <= later
    ensures Good(s, rs, indexes, later)
  {}

  // ---- appending a row ----

  /** The upkeep of `insert_validated_base`: every index takes the row's cell. */
  function Indexed(columns: seq<string>, indexes: map<string, Index>, row: Row, a: Addr): map<string, Index>
    requires |row| == |columns|
  {
    map c | c in indexes ::
      if ColumnPos(columns, c).Ok? then Insert(indexes[c], row[ColumnPos(columns, c).value], a) else indexes[c]
  }

  lemma OwnerSnoc(rs: seq<Record>, r: Record, col: nat)
    requires (forall x :: x in rs ==> col < |x.row|) && col < |r.row|
    ensures Owner(rs + [r], col) == Owner(rs, col)[r.addr := r.row[col]]
  {
    assert (rs + [r])[..|rs|] == rs;
  }

  lemma IndexGrows(columns: seq<string>, rs: seq<Record>, indexes: map<string, Index>, r: Record, c: string, i: nat)
    requires DistinctColumns(columns) && DistinctAddrs(rs + [r]) && |r.row| == |columns| && AllFit(rs, |columns|)
    requires c in indexes && i < |columns| && columns[i] == c && IndexOk(indexes[c], Owner(rs, i))
    ensures IndexOk(Indexed(columns, indexes, r.row, r.addr)[c], Owner(rs + [r], i))
  {
    ExactNameResolves(columns, i);
    var all := rs + [r];
    assert all[|rs|] == r;
    forall a, b | 0 <= a < b < |rs| ensures rs[a].addr != rs[b].addr { assert all[a] == rs[a] && all[b] == rs[b]; }
    OwnerExact(rs, i);
    forall k | 0 <= k < |rs| ensures rs[k].addr != r.addr { assert all[k] == rs[k]; }
    InsertKeepsIndex(indexes[c], Owner(rs, i), r.row[i], r.addr);
    OwnerSnoc(rs, r, i);
  }

  lemma BackedGrows(columns: seq<string>, rs: seq<Record>, indexes: map<string, Index>, r: Record, c: string)
    requires DistinctColumns(columns) && DistinctAddrs(rs + [r]) && |r.row| == |columns| && AllFit(rs, |columns|)
    requires c in indexes && (forall x :: x in rs ==> |x.row| == |columns|) && Backed(columns, rs, indexes[c], c)
    ensures Backed(columns, rs + [r], Indexed(columns, indexes, r.row, r.addr)[c], c)
  {
    var i :| 0 <= i < |columns| && columns[i] == c && IndexOk(indexes[c], Owner(rs, i));
    IndexGrows(columns, rs, indexes, r, c, i);
  }

  lemma TableGrows(columns: seq<string>, rs: seq<Record>, indexes: map<string, Index>, r: Record)
    requires TableOk(Table(columns, rs, indexes)) && DistinctAddrs(rs + [r]) && |r.row| == |columns|
      && AllFit(rs, |columns|)
    ensures TableOk(Table(columns, rs + [r], Indexed(columns, indexes, r.row, r.addr)))
  {
    forall c | c in indexes ensures Backed(columns, rs + [r], Indexed(columns, indexes, r.row, r.addr)[c], c) {
      BackedGrows(columns, rs, indexes, r, c);
    }
  }

  /** The row's keys are held by no live row. */
  ghost predicate Free(s: Schema, rs: seq<Record>, row: Row)
    requires SchemaOk(s) && AllFit(rs, |s.columns|) && |row| == |s.columns|
  {
    forall c :: c in s.unique && !row[Pos(s, c)].Null? ==> JoinKey(row[Pos(s, c)]) !in LiveBag(rs, Pos(s, c))
  }

  lemma UniqueGrows(s: Schema, rs: seq<Record>, r: Record)
    requires SchemaOk(s) && AllFit(rs, |s.columns|) && |r.row| == |s.columns| && UniqueOk(s, rs) && Free(s, rs, r.row)
    ensures UniqueOk(s, rs + [r])
  {
    forall c | c in s.unique ensures Single(LiveBag(rs + [r], Pos(s, c))) {
      var col := Pos(s, c);
      BagSnoc(rs, r, col);
      assert Single(LiveBag(rs, col));
      if Live(r) && !r.row[col].Null? {
        SingleAdd(LiveBag(rs, col), JoinKey(r.row[col]));
      } else {
        assert LiveBag(rs, col) + multiset{} == LiveBag(rs, col);
      }
    }
  }

  /** Inserting an allowed row with free keys under the next transaction keeps the table good. */
  lemma InsertGood(s: Schema, rs: seq<Record>, indexes: map<string, Index>, clock: nat, r: Record)
    requires Good(s, rs, indexes, clock) && r.env == Envelope(clock + 1, 0) && DistinctAddrs(rs + [r])
    requires Allowed(s, r.row) && Free(s, rs, r.row)
    ensures Good(s, rs + [r], Indexed(s.columns, indexes, r.row, r.addr), clock + 1)
    ensures Evolves(rs, rs + [r], clock)
  {
    TableGrows(s.columns, rs, indexes, r);
    UniqueGrows(s, rs, r);
    AllowedSnoc(s, rs, r);
    AppendEvolves(rs, r, clock);
  }

  // ---- tombstoning ----

  lemma {:induction false} OwnerStamped(rs: seq<Record>, a: Addr, tx: nat, col: nat)
    requires forall x :: x in rs ==> col < |x.row|
    requires forall x :: x in Tombstoned(rs, a, tx) ==> col < |x.row|
    ensures Owner(Tombstoned(rs, a, tx), col) == Owner(rs, col)
    decreases |rs|
  {
    if rs != [] {
      var n := |rs| - 1;
      var after := Tombstoned(rs, a, tx);
      assert after[..n] == Tombstoned(rs[..n], a, tx);
      OwnerStamped(rs[..n], a, tx, col);
    }
  }

  lemma TableStamped(columns: seq<string>, rs: seq<Record>, indexes: map<string, Index>, a: Addr, tx: nat)
    requires TableOk(Table(columns, rs, indexes))
    ensures TableOk(Table(columns, Tombstoned(rs, a, tx), indexes))
  {
    var after := Tombstoned(rs, a, tx);
    forall x | x in after ensures |x.row| == |columns| {
      var k :| 0 <= k < |after| && after[k] == x;
      assert rs[k] in rs;
    }
    forall c | c in indexes ensures Backed(columns, after, indexes[c], c) {
      assert Backed(columns, rs, indexes[c], c);
      var i :| 0 <= i < |columns| && columns[i] == c && IndexOk(indexes[c], Owner(rs, i));
      OwnerStamped(rs, a, tx, i);
    }
  }

  lemma UniqueStamped(s: Schema, rs: seq<Record>, k: nat, tx: nat)
    requires SchemaOk(s) && AllFit(rs, |s.columns|) && DistinctAddrs(rs) && k < |rs| && Live(rs[k]) && tx > 0
      && UniqueOk(s, rs)
    ensures AllFit(Tombstoned(rs, rs[k].addr, tx), |s.columns|) && UniqueOk(s, Tombstoned(rs, rs[k].addr, tx))
  {
    forall c | c in s.unique ensures Single(LiveBag(Tombstoned(rs, rs[k].addr, tx), Pos(s, c))) {
      var col := Pos(s, c);
      BagStamped(rs, k, tx, col);
      var less, cell := LiveBag(Tombstoned(rs, rs[k].addr, tx), col), CellBag(rs[k].row[col]);
      forall v ensures less[v] <= 1 { assert (less + cell)[v] >= less[v]; }
    }
  }

  /** Tombstoning one live row under a transaction after its own keeps the table good. */
  lemma DeleteGood(s: Schema, rs: seq<Record>, indexes: map<string, Index>, k: nat, tx: nat)
    requires Good(s, rs, indexes, tx) && k < |rs| && Live(rs[k]) && rs[k].env.inserted < tx
    ensures Good(s, Tombstoned(rs, rs[k].addr, tx), indexes, tx)
  {
    TableStamped(s.columns, rs, indexes, rs[k].addr, tx);
    UniqueStamped(s, rs, k, tx);
    AllowedStamped(s, rs, rs[k].addr, tx);
    forall i | 0 <= i < |rs|
      ensures Tombstoned(rs, rs[k].addr, tx)[i].row == rs[i].row && (rs[i].addr == rs[k].addr ==> i == k) {}
  }

  // ---- deleting every matching row ----

  function Mark(r: Record, addrs: seq<Addr>, tx: nat): Record {
    if r.addr in addrs then r.(env := r.env.(deleted := tx)) else r
  }

  /** Every record at one of the addresses tombstoned. */
  function Marked(rs: seq<Record>, addrs: seq<Addr>, tx: nat): (m: seq<Record>)
    ensures |m| == |rs| && forall k :: 0 <= k < |rs| ==> m[k] == Mark(rs[k], addrs, tx)
  {
    seq(|rs|, k requires 0 <= k < |rs| => Mark(rs[k], addrs, tx))
  }

  lemma MarkedSnoc(rs: seq<Record>, addrs: seq<Addr>, a: Addr, tx: nat)
    ensures Tombstoned(Marked(rs, addrs, tx), a, tx) == Marked(rs, addrs + [a], tx)
  {}

  /** The addresses are those of live rows. */
  ghost predicate LiveAddrs(rs: seq<Record>, addrs: seq<Addr>) {
    && NoDup(addrs)
    && forall i :: 0 <= i < |addrs| ==> LiveAt(rs, addrs[i])
  }

  ghost predicate LiveAt(rs: seq<Record>, a: Addr) {
    exists k :: 0 <= k < |rs| && rs[k].addr == a && Live(rs[k])
  }

  lemma MarkedEvolves(rs: seq<Record>, addrs: seq<Addr>, clock: nat)
    requires DistinctAddrs(rs) && LiveAddrs(rs, addrs)
    ensures Evolves(rs, Marked(rs, addrs, clock + 1), clock)
  {
    forall k | 0 <= k < |rs| ensures Aged(rs[k], Marked(rs, addrs, clock + 1)[k], clock) {
      if rs[k].addr in addrs {
        var i :| 0 <= i < |addrs| && addrs[i] == rs[k].addr;
        assert LiveAt(rs, addrs[i]);
        var l :| 0 <= l < |rs| && rs[l].addr == addrs[i] && Live(rs[l]);
        assert l == k;
      }
    }
  }

  /** One more of the addresses: it still names a live row of the partly marked table. */
  lemma NextMark(rs: seq<Record>, addrs: seq<Addr>, i: nat, tx: nat) returns (k: nat)
    requires DistinctAddrs(rs) && LiveAddrs(rs, addrs) && i < |addrs|
    ensures k < |rs| && rs[k].addr == addrs[i] && Live(rs[k]) && Marked(rs, addrs[..i], tx)[k] == rs[k]
  {
    assert LiveAt(rs, addrs[i]);
    var l :| 0 <= l < |rs| && rs[l].addr == addrs[i] && Live(rs[l]);
    k := l;
    assert addrs[i] !in addrs[..i];
  }

  /** The next tombstone of a statement finds its row and keeps the table good. */
  lemma MarkStep(s: Schema, before: seq<Record>, indexes: map<string, Index>, addrs: seq<Addr>, i: nat, clock: nat)
      returns (k: nat)
    requires DistinctAddrs(before) && Timed(before, clock) && LiveAddrs(before, addrs) && i < |addrs|
    requires Good(s, Marked(before, addrs[..i], clock + 1), indexes, clock + 1)
    ensures k < |before| && Marked(before, addrs[..i], clock + 1)[k].addr == addrs[i]
    ensures Tombstoned(Marked(before, addrs[..i], clock + 1), addrs[i], clock + 1)
      == Marked(before, addrs[..i + 1], clock + 1)
    ensures Good(s, Marked(before, addrs[..i + 1], clock + 1), indexes, clock + 1)
  {
    k := NextMark(before, addrs, i, clock + 1);
    DeleteGood(s, Marked(before, addrs[..i], clock + 1), indexes, k, clock + 1);
    MarkedSnoc(before, addrs[..i], addrs[i], clock + 1);
    assert addrs[..i + 1] == addrs[..i] + [addrs[i]];
  }

  lemma NothingMarked(rs: seq<Record>, addrs: seq<Addr>, tx: nat)
    ensures Marked(rs, addrs[..0], tx) == rs
  {
    NoneMarked(rs, tx);
    assert addrs[..0] == [];
  }

  /** All the tombstones of a statement keep the table good. */
  lemma {:induction false} MarkAllGood(s: Schema, before: seq<Record>, indexes: map<string, Index>, addrs: seq<Addr>,
      n: nat, clock: nat)
    requires Good(s, before, indexes, clock) && LiveAddrs(before, addrs) && n <= |addrs|
    ensures Good(s, Marked(before, addrs[..n], clock + 1), indexes, clock + 1)
    decreases n
  {
    if n == 0 {
      LaterIsGood(s, before, indexes, clock, clock + 1);
      NothingMarked(before, addrs, clock + 1);
    } else {
      MarkAllGood(s, before, indexes, addrs, n - 1, clock);
      var k := MarkStep(s, before, indexes, addrs, n - 1, clock);
    }
  }

  lemma MarkedGood(s: Schema, before: seq<Record>, indexes: map<string, Index>, addrs: seq<Addr>, clock: nat)
    requires Good(s, before, indexes, clock) && LiveAddrs(before, addrs)
    ensures Good(s, Marked(before, addrs, clock + 1), indexes, clock + 1)
  {
    MarkAllGood(s, before, indexes, addrs, |addrs|, clock);
    assert addrs[..|addrs|] == addrs;
  }

  // ---- several new rows at once ----

  predicate RowsWide(rows: seq<Row>, col: nat) {
    forall i :: 0 <= i < |rows| ==> col < |rows[i]|
  }

  /** The keys the rows hold in one column. */
  function RowBag(rows: seq<Row>, col: nat): multiset<Value>
    requires RowsWide(rows, col)
  {
    if rows == [] then multiset{} else RowBag(rows[..|rows| - 1], col) + CellBag(Last(rows)[col])
  }

  predicate SameWidth(rows: seq<Row>, width: nat) {
    forall i :: 0 <= i < |rows| ==> |rows[i]| == width
  }

  /** The rows can join the live ones without any unique column holding a key twice. */
  ghost predicate Compatible(s: Schema, rs: seq<Record>, rows: seq<Row>)
    requires SchemaOk(s) && AllFit(rs, |s.columns|) && SameWidth(rows, |s.columns|)
  {
    forall c :: c in s.unique ==> Single(LiveBag(rs, Pos(s, c)) + RowBag(rows, Pos(s, c)))
  }

  lemma RowBagSnoc(rows: seq<Row>, row: Row, col: nat)
    requires RowsWide(rows, col) && col < |row|
    ensures RowBag(rows + [row], col) == RowBag(rows, col) + CellBag(row[col])
  {
    assert (rows + [row])[..|rows|] == rows;
  }

  lemma {:induction false} RowBagPrefix(rows: seq<Row>, i: nat, col: nat, k: Value)
    requires RowsWide(rows, col) && i <= |rows|
    ensures RowBag(rows[..i], col)[k] <= RowBag(rows, col)[k]
    decreases |rows|
  {
    if i < |rows| {
      assert rows[..|rows| - 1][..i] == rows[..i];
      RowBagPrefix(rows[..|rows| - 1], i, col, k);
    } else {
      assert rows[..i] == rows;
    }
  }

  lemma SinglePart(bag: multiset<Value>, part: multiset<Value>)
    requires Single(bag) && forall k :: part[k] <= bag[k]
    ensures Single(part)
  {
    forall k ensures part[k] <= 1 { assert bag[k] <= 1; }
  }

  /** Fewer rows are compatible too. */
  lemma CompatiblePrefix(s: Schema, rs: seq<Record>, rows: seq<Row>, i: nat)
    requires SchemaOk(s) && AllFit(rs, |s.columns|) && SameWidth(rows, |s.columns|) && i <= |rows|
      && Compatible(s, rs, rows)
    ensures Compatible(s, rs, rows[..i])
  {
    forall c | c in s.unique ensures Single(LiveBag(rs, Pos(s, c)) + RowBag(rows[..i], Pos(s, c))) {
      var col := Pos(s, c);
      forall k ensures (LiveBag(rs, col) + RowBag(rows[..i], col))[k] <= (LiveBag(rs, col) + RowBag(rows, col))[k] {
        RowBagPrefix(rows, i, col, k);
      }
      SinglePart(LiveBag(rs, col) + RowBag(rows, col), LiveBag(rs, col) + RowBag(rows[..i], col));
    }
  }

  /** One more row is compatible exactly when its keys are new to table and batch. */
  ghost predicate Fresh(s: Schema, rs: seq<Record>, rows: seq<Row>, row: Row)
    requires SchemaOk(s) && AllFit(rs, |s.columns|) && SameWidth(rows, |s.columns|) && |row| == |s.columns|
  {
    forall c :: c in s.unique ==> FreshAt(rs, rows, row, Pos(s, c))
  }

  ghost predicate FreshAt(rs: seq<Record>, rows: seq<Row>, row: Row, col: nat)
    requires Wide(rs, col) && RowsWide(rows, col) && col < |row|
  {
    row[col].Null? || (JoinKey(row[col]) !in LiveBag(rs, col) && JoinKey(row[col]) !in RowBag(rows, col))
  }

  lemma OneMoreKey(bag: multiset<Value>, batch: multiset<Value>, v: Value)
    requires Single(bag + batch)
    ensures Single(bag + (batch + CellBag(v))) <==> v.Null? || (JoinKey(v) !in bag && JoinKey(v) !in batch)
  {
    assert bag + (batch + CellBag(v)) == bag + batch + CellBag(v);
    if v.Null? {
      assert bag + batch + CellBag(v) == bag + batch;
    } else {
      SingleAdd(bag + batch, JoinKey(v));
    }
  }

  lemma CompatibleSnoc(s: Schema, rs: seq<Record>, rows: seq<Row>, row: Row)
    requires SchemaOk(s) && AllFit(rs, |s.columns|) && SameWidth(rows, |s.columns|) && |row| == |s.columns|
      && Compatible(s, rs, rows)
    ensures Compatible(s, rs, rows + [row]) <==> Fresh(s, rs, rows, row)
  {
    forall c | c in s.unique
      ensures Single(LiveBag(rs, Pos(s, c)) + RowBag(rows + [row], Pos(s, c))) <==> FreshAt(rs, rows, row, Pos(s, c))
    {
      RowBagSnoc(rows, row, Pos(s, c));
      OneMoreKey(LiveBag(rs, Pos(s, c)), RowBag(rows, Pos(s, c)), row[Pos(s, c)]);
    }
  }

  /** The new versions of a batch, appended to the table. */
  predicate Holds(rs: seq<Record>, rows: seq<Row>) {
    |rs| == |rows| && forall i :: 0 <= i < |rs| ==> rs[i].row == rows[i] && Live(rs[i])
  }

  lemma {:induction false} BagOfBatch(rs: seq<Record>, news: seq<Record>, rows: seq<Row>, col: nat)
    requires Wide(rs, col) && Wide(news, col) && RowsWide(rows, col) && Holds(news, rows)
    ensures LiveBag(rs + news, col) == LiveBag(rs, col) + RowBag(rows, col)
    decreases |news|
  {
    if news == [] {
      NothingAdded(rs);
    } else {
      var n := |news| - 1;
      FrontAndLast(news);
      AddedInTurn(rs, news[..n], [news[n]]);
      BagOfBatch(rs, news[..n], rows[..n], col);
      BagSnoc(rs + news[..n], news[n], col);
      BagsInTurn(LiveBag(rs, col), RowBag(rows[..n], col), CellBag(rows[n][col]));
    }
  }

  lemma BagsInTurn(a: multiset<Value>, b: multiset<Value>, c: multiset<Value>)
    ensures (a + b) + c == a + (b + c)
  {}

  /** The next row of a compatible batch finds its keys free in the table so far. */
  lemma NextIsFree(s: Schema, rs: seq<Record>, news: seq<Record>, rows: seq<Row>)
    requires SchemaOk(s) && AllFit(rs, |s.columns|) && AllFit(news, |s.columns|) && SameWidth(rows, |s.columns|)
    requires Compatible(s, rs, rows) && |news| < |rows| && Holds(news, rows[..|news|])
    ensures AllFit(rs + news, |s.columns|) && Free(s, rs + news, rows[|news|])
  {
    var i := |news|;
    var row := rows[i];
    CompatiblePrefix(s, rs, rows, i);
    CompatiblePrefix(s, rs, rows, i + 1);
    assert rows[..i + 1] == rows[..i] + [row];
    CompatibleSnoc(s, rs, rows[..i], row);
    forall c | c in s.unique && !row[Pos(s, c)].Null?
      ensures JoinKey(row[Pos(s, c)]) !in LiveBag(rs + news, Pos(s, c)) {
      BagOfBatch(rs, news, rows[..i], Pos(s, c));
      assert FreshAt(rs, rows[..i], row, Pos(s, c));
    }
  }

  // ---- an update: tombstones, then replacements ----

  ghost predicate HitAt(rs: seq<Record>, h: Hit) {
    exists k :: 0 <= k < |rs| && rs[k].addr == h.addr && rs[k].row == h.row && Live(rs[k])
  }

  function Addrs(hits: seq<Hit>): (a: seq<Addr>)
    ensures |a| == |hits| && forall i :: 0 <= i < |a| ==> a[i] == hits[i].addr
  {
    seq(|hits|, i requires 0 <= i < |hits| => hits[i].addr)
  }

  function Rows(hits: seq<Hit>): (a: seq<Row>)
    ensures |a| == |hits| && forall i :: 0 <= i < |a| ==> a[i] == hits[i].row
  {
    seq(|hits|, i requires 0 <= i < |hits| => hits[i].row)
  }

  lemma BagArithmetic(all: multiset<Value>, less: multiset<Value>, least: multiset<Value>, rows: multiset<Value>,
      more: multiset<Value>, cell: multiset<Value>)
    requires less + rows == all && less == least + cell && more == rows + cell
    ensures least + more == all
  {}

  lemma BagMarkedMore(rs: seq<Record>, addrs: seq<Addr>, h: Hit, tx: nat, col: nat)
    requires Wide(rs, col) && DistinctAddrs(rs) && HitAt(rs, h) && h.addr !in addrs && col < |h.row| && tx > 0
    ensures LiveBag(Marked(rs, addrs, tx), col) == LiveBag(Marked(rs, addrs + [h.addr], tx), col) + CellBag(h.row[col])
  {
    var k :| 0 <= k < |rs| && rs[k].addr == h.addr && rs[k].row == h.row && Live(rs[k]);
    MarkedSnoc(rs, addrs, h.addr, tx);
    assert Marked(rs, addrs, tx)[k] == rs[k];
    BagStamped(Marked(rs, addrs, tx), k, tx, col);
  }

  lemma MarkedWide(rs: seq<Record>, addrs: seq<Addr>, tx: nat, col: nat)
    requires Wide(rs, col)
    ensures Wide(Marked(rs, addrs, tx), col)
  {}

  lemma RowsWideSnoc(rows: seq<Row>, row: Row, col: nat)
    requires RowsWide(rows, col) && col < |row|
    ensures RowsWide(rows + [row], col)
  {}

  lemma BagMarkedStep(rs: seq<Record>, addrs: seq<Addr>, rows: seq<Row>, last: Hit, tx: nat, col: nat)
    requires Wide(rs, col) && DistinctAddrs(rs) && HitAt(rs, last) && RowsWide(rows, col) && col < |last.row| && tx > 0
    requires last.addr !in addrs
    requires LiveBag(Marked(rs, addrs, tx), col) + RowBag(rows, col) == LiveBag(rs, col)
    ensures LiveBag(Marked(rs, addrs + [last.addr], tx), col) + RowBag(rows + [last.row], col) == LiveBag(rs, col)
  {
    MarkedWide(rs, addrs, tx, col);
    MarkedWide(rs, addrs + [last.addr], tx, col);
    RowsWideSnoc(rows, last.row, col);
    BagMarkedMore(rs, addrs, last, tx, col);
    RowBagSnoc(rows, last.row, col);
    BagArithmetic(LiveBag(rs, col), LiveBag(Marked(rs, addrs, tx), col),
      LiveBag(Marked(rs, addrs + [last.addr], tx), col), RowBag(rows, col), RowBag(rows + [last.row], col),
      CellBag(last.row[col]));
  }

  /** Distinct addresses, each naming a live record that holds the listed row. */
  ghost predicate PairsOk(rs: seq<Record>, addrs: seq<Addr>, rows: seq<Row>) {
    |addrs| == |rows| && NoDup(addrs) && forall i :: 0 <= i < |addrs| ==> HitAt(rs, Hit(addrs[i], rows[i]))
  }

  lemma NoneMarked(rs: seq<Record>, tx: nat)
    ensures Marked(rs, [], tx) == rs
  {}

  /** Tombstoning rows takes exactly their keys out of the bag. */
  lemma {:induction false} BagMarked(rs: seq<Record>, addrs: seq<Addr>, rows: seq<Row>, tx: nat, col: nat)
    requires Wide(rs, col) && DistinctAddrs(rs) && PairsOk(rs, addrs, rows) && RowsWide(rows, col) && tx > 0
    ensures LiveBag(Marked(rs, addrs, tx), col) + RowBag(rows, col) == LiveBag(rs, col)
    decreases |addrs|
  {
    if addrs == [] {
      NoneMarked(rs, tx);
      assert RowBag(rows, col) == multiset{};
    } else {
      var n := |addrs| - 1;
      var front, rest, last := addrs[..n], rows[..n], Hit(addrs[n], rows[n]);
      assert addrs == front + [last.addr] && rows == rest + [last.row];
      assert PairsOk(rs, front, rest) && last.addr !in front && HitAt(rs, last);
      BagMarked(rs, front, rest, tx, col);
      BagMarkedStep(rs, front, rest, last, tx, col);
    }
  }

  /** The rows with one cell replaced. */
  function Replaced(rows: seq<Row>, at: nat, v: Value): (out: seq<Row>)
    requires RowsWide(rows, at)
    ensures |out| == |rows| && forall i :: 0 <= i < |rows| ==> out[i] == rows[i][at := v]
  {
    seq(|rows|, i requires 0 <= i < |rows| => rows[i][at := v])
  }

  lemma ReplacedSnoc(front: seq<Row>, row: Row, at: nat, v: Value)
    requires RowsWide(front, at) && at < |row|
    ensures Replaced(front + [row], at, v) == Replaced(front, at, v) + [row[at := v]]
  {}

  lemma ReplacedElsewhereMore(front: seq<Row>, row: Row, at: nat, v: Value, col: nat)
    requires RowsWide(front, at) && RowsWide(front, col) && at < |row| && col < |row| && col != at
    requires RowsWide(Replaced(front, at, v), col) && RowBag(Replaced(front, at, v), col) == RowBag(front, col)
    ensures RowBag(Replaced(front, at, v) + [row[at := v]], col) == RowBag(front + [row], col)
    ensures Replaced(front + [row], at, v) == Replaced(front, at, v) + [row[at := v]]
  {
    ReplacedSnoc(front, row, at, v);
    RowBagSnoc(front, row, col);
    RowBagSnoc(Replaced(front, at, v), row[at := v], col);
  }

  lemma {:induction false} ReplacedElsewhere(rows: seq<Row>, at: nat, v: Value, col: nat)
    requires RowsWide(rows, at) && RowsWide(rows, col) && col != at
    ensures RowsWide(Replaced(rows, at, v), col) && RowBag(Replaced(rows, at, v), col) == RowBag(rows, col)
    decreases |rows|
  {
    if rows != [] {
      var n := |rows| - 1;
      var front := rows[..n];
      ReplacedElsewhere(front, at, v, col);
      assert rows == front + [rows[n]];
      ReplacedElsewhereMore(front, rows[n], at, v, col);
    }
  }

  lemma {:induction false} ReplacedHere(rows: seq<Row>, at: nat, v: Value)
    requires RowsWide(rows, at)
    ensures RowsWide(Replaced(rows, at, v), at)
    ensures v.Null? ==> RowBag(Replaced(rows, at, v), at) == multiset{}
    ensures !v.Null? ==> RowBag(Replaced(rows, at, v), at)[JoinKey(v)] == |rows| && forall k :: k != JoinKey(v) ==>
      RowBag(Replaced(rows, at, v), at)[k] == 0
    decreases |rows|
  {
    if rows != [] {
      var n := |rows| - 1;
      ReplacedHere(rows[..n], at, v);
      assert Replaced(rows, at, v)[..n] == Replaced(rows[..n], at, v);
    }
  }

  /** How many of the rows hold an equal value is its key's count among them. */
  function EqualCount(rows: seq<Row>, at: nat, v: Value): nat
    requires RowsWide(rows, at)
  {
    if rows == [] then 0
    else EqualCount(rows[..|rows| - 1], at, v) + if ValuesEqual(Last(rows)[at], v) then 1 else 0
  }

  lemma {:induction false} EqualCountIsBag(rows: seq<Row>, at: nat, v: Value)
    requires RowsWide(rows, at) && !v.Null?
    ensures EqualCount(rows, at, v) == RowBag(rows, at)[JoinKey(v)]
    decreases |rows|
  {
    if rows != [] {
      EqualCountIsBag(rows[..|rows| - 1], at, v);
      JoinKeyIsEquality(Last(rows)[at], v);
    }
  }

  /** The test of `update_where` on a unique column, as counts. */
  predicate UpdateClear(count: nat, existing: nat, already: nat) {
    count == 0 || !(count > 1 || existing > already)
  }

  lemma SingleWithRepeats(all: multiset<Value>, less: multiset<Value>, rows: multiset<Value>, news: multiset<Value>,
      k: Value, n: nat)
    requires Single(all) && less + rows == all && news[k] == n && (n == 0 ==> rows == multiset{}) && forall j ::
      j != k ==> news[j] == 0
    ensures Single(less + news) <==> UpdateClear(n, all[k], rows[k])
  {
    assert forall j :: (less + rows)[j] == less[j] + rows[j];
    assert forall j :: (less + news)[j] == less[j] + news[j];
    assert all[k] <= 1;
  }

  lemma UpdateColumn(s: Schema, rs: seq<Record>, addrs: seq<Addr>, rows: seq<Row>, at: nat, v: Value, tx: nat, col: nat)
    requires AllFit(rs, |s.columns|) && SameWidth(rows, |s.columns|) && at < |s.columns| && col < |s.columns| && tx > 0
    requires DistinctAddrs(rs) && PairsOk(rs, addrs, rows) && Single(LiveBag(rs, col))
    ensures Single(LiveBag(Marked(rs, addrs, tx), col) + RowBag(Replaced(rows, at, v), col)) <==>
      (col == at && !v.Null? ==> UpdateClear(|rows|, LiveBag(rs, at)[JoinKey(v)], RowBag(rows, at)[JoinKey(v)]))
  {
    BagMarked(rs, addrs, rows, tx, col);
    var all, less, gone := LiveBag(rs, col), LiveBag(Marked(rs, addrs, tx), col), RowBag(rows, col);
    if col != at {
      ReplacedElsewhere(rows, at, v, col);
    } else {
      ReplacedHere(rows, at, v);
      if v.Null? {
        assert less + multiset{} == less;
        SinglePart(all, less);
      } else {
        SingleWithRepeats(all, less, gone, RowBag(Replaced(rows, at, v), at), JoinKey(v), |rows|);
      }
    }
  }

  /** The update's own test is exactly whether its outcome keeps every unique column. */
  lemma UpdateCompatible(s: Schema, rs: seq<Record>, addrs: seq<Addr>, rows: seq<Row>, at: nat, v: Value, tx: nat)
    requires SchemaOk(s) && AllFit(rs, |s.columns|) && SameWidth(rows, |s.columns|) && at < |s.columns| && tx > 0
    requires DistinctAddrs(rs) && PairsOk(rs, addrs, rows) && UniqueOk(s, rs)
    ensures Compatible(s, Marked(rs, addrs, tx), Replaced(rows, at, v)) <==>
      (s.columns[at] in s.unique && !v.Null? ==>
        UpdateClear(|rows|, LiveBag(rs, at)[JoinKey(v)], RowBag(rows, at)[JoinKey(v)]))
  {
    forall c | c in s.unique
      ensures Single(LiveBag(Marked(rs, addrs, tx), Pos(s, c)) + RowBag(Replaced(rows, at, v), Pos(s, c))) <==>
        (Pos(s, c) == at && !v.Null? ==> UpdateClear(|rows|, LiveBag(rs, at)[JoinKey(v)], RowBag(rows, at)[JoinKey(v)]))
      ensures Pos(s, c) == at <==> c == s.columns[at]
    {
      UpdateColumn(s, rs, addrs, rows, at, v, tx, Pos(s, c));
    }
  }

  // ---- what a statement finds ----

  /** The hits of a search at the current clock are live rows, and all the selected ones. */
  lemma HitsFromScan(t: Table, pred: Predicate, clock: nat, hits: seq<Hit>)
    requires TableOk(t) && Resolves(t.columns, pred) && Timed(t.records, clock)
    requires multiset(hits) == multiset(ScanHits(t, pred, clock, t.records))
    requires forall i, j :: 0 <= i < j < |hits| ==> hits[i].addr != hits[j].addr
    ensures PairsOk(t.records, Addrs(hits), Rows(hits)) && SameWidth(Rows(hits), |t.columns|)
    ensures forall k :: 0 <= k < |t.records| ==>
      (t.records[k].addr in Addrs(hits) <==> Selected(t, pred, clock, t.records[k]))
  {
    var found := ScanHits(t, pred, clock, t.records);
    ScanHitsExact(t, pred, clock, t.records);
    forall i | 0 <= i < |hits|
      ensures HitAt(t.records, hits[i]) && |hits[i].row| == |t.columns|
        && Hit(Addrs(hits)[i], Rows(hits)[i]) == hits[i] {
      HitIsLive(t, pred, clock, hits, i);
    }
    forall k | 0 <= k < |t.records| ensures t.records[k].addr in Addrs(hits) <==>
      Selected(t, pred, clock, t.records[k]) {
      SelectedIsHit(t, pred, clock, hits, k);
    }
  }

  lemma SameMembers(a: seq<Hit>, b: seq<Hit>, h: Hit)
    requires multiset(a) == multiset(b)
    ensures h in a <==> h in b
  {
    assert h in a <==> h in multiset(a);
    assert h in b <==> h in multiset(b);
  }

  /** A hit is a selected record. */
  lemma HitIsSelected(t: Table, pred: Predicate, clock: nat, hits: seq<Hit>, i: nat) returns (k: nat)
    requires TableOk(t) && Resolves(t.columns, pred) && i < |hits|
    requires multiset(hits) == multiset(ScanHits(t, pred, clock, t.records))
    ensures k < |t.records| && |t.records[k].row| == |t.columns| && Selected(t, pred, clock, t.records[k])
    ensures hits[i] == Hit(t.records[k].addr, t.records[k].row)
  {
    ScanHitsExact(t, pred, clock, t.records);
    SameMembers(hits, ScanHits(t, pred, clock, t.records), hits[i]);
    assert hits[i] in ScanHits(t, pred, clock, t.records);
    var l :| 0 <= l < |t.records| && Selected(t, pred, clock, t.records[l])
      && hits[i] == Hit(t.records[l].addr, t.records[l].row);
    k := l;
    assert t.records[k] in t.records;
  }

  lemma HitIsLive(t: Table, pred: Predicate, clock: nat, hits: seq<Hit>, i: nat)
    requires TableOk(t) && Resolves(t.columns, pred) && Timed(t.records, clock) && i < |hits|
    requires multiset(hits) == multiset(ScanHits(t, pred, clock, t.records))
    ensures HitAt(t.records, hits[i]) && |hits[i].row| == |t.columns|
  {
    var k := HitIsSelected(t, pred, clock, hits, i);
    LiveIsVisible(t.records, clock, k);
  }

  lemma SelectedIsHit(t: Table, pred: Predicate, clock: nat, hits: seq<Hit>, k: nat)
    requires TableOk(t) && Resolves(t.columns, pred) && k < |t.records| && |t.records[k].row| == |t.columns|
    requires multiset(hits) == multiset(ScanHits(t, pred, clock, t.records))
    ensures t.records[k].addr in Addrs(hits) <==> Selected(t, pred, clock, t.records[k])
  {
    var r := t.records[k];
    if Selected(t, pred, clock, r) {
      ScanHitsExact(t, pred, clock, t.records);
      assert Hit(r.addr, r.row) in ScanHits(t, pred, clock, t.records);
      SameMembers(hits, ScanHits(t, pred, clock, t.records), Hit(r.addr, r.row));
      var i :| 0 <= i < |hits| && hits[i] == Hit(r.addr, r.row);
      assert Addrs(hits)[i] == r.addr;
    }
    if r.addr in Addrs(hits) {
      var i :| 0 <= i < |hits| && Addrs(hits)[i] == r.addr;
      var l := HitIsSelected(t, pred, clock, hits, i);
      assert t.records[l].addr == t.records[k].addr;
      assert l == k;
    }
  }

  lemma PairsAreLive(rs: seq<Record>, addrs: seq<Addr>, rows: seq<Row>)
    requires PairsOk(rs, addrs, rows)
    ensures LiveAddrs(rs, addrs)
  {
    forall i | 0 <= i < |addrs| ensures LiveAt(rs, addrs[i]) {
      assert HitAt(rs, Hit(addrs[i], rows[i]));
      var k :| 0 <= k < |rs| && rs[k].addr == addrs[i] && rs[k].row == rows[i] && Live(rs[k]);
    }
  }
}
