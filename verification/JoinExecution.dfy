/** `select_join` as it runs: pushed filter, keyed buckets, and an index probe where it pays. */
module JoinExecution {
  import opened Core
  import opened Bags
  import opened Values
  import opened Predicates
  import opened Pushdown
  import opened SecondaryIndexes
  import opened IndexedQuery
  import opened Joins
  import JoinMeaning

  type Buckets = map<Value, seq<Row>>

  function Bucket(m: Buckets, k: Value): seq<Row> {
    if k in m then m[k] else []
  }

  /** A row under its normalised key; a NULL key goes nowhere. */
  function KeyedRow(k: Value, row: Row, rk: nat): seq<Row> {
    if !Cell(row, rk).Null? && JoinKey(Cell(row, rk)) == k then [row] else []
  }

  function Keyed(k: Value, rows: seq<Row>, rk: nat): seq<Row> {
    Bind(rows, row => KeyedRow(k, row, rk))
  }

  /** The bucket of a left value's key holds exactly the rows that meet it. */
  lemma KeyedIsMeeting(v: Value, rights: seq<Row>, rk: nat)
    requires !v.Null?
    ensures Keyed(JoinKey(v), rights, rk) == Meeting(v, rights, rk)
  {
    var meeting := r => if KeysMeet(v, Cell(r, rk)) then [r] else [];
    forall r | r in rights ensures KeyedRow(JoinKey(v), r, rk) == meeting(r) {
      JoinKeyIsEquality(v, Cell(r, rk));
    }
    BindPointwise(rights, row => KeyedRow(JoinKey(v), row, rk), meeting);
  }

  // ---- reading a table ----

  lemma {:induction false} HitRows(t: Table, pred: Predicate, snapshot: nat, rs: seq<Record>)
    requires Resolves(t.columns, pred) && forall r :: r in rs ==> |r.row| == |t.columns|
    ensures Bind(ScanHits(t, pred, snapshot, rs), (h: Hit) => [h.row])
         == Filtered(pred, t.columns, Bind(rs, r => VisibleRow(r, snapshot)))
    decreases |rs|
  {
    if rs != [] {
      var front, last := rs[..|rs| - 1], Last(rs);
      var visible := r => VisibleRow(r, snapshot);
      var row := (h: Hit) => [h.row];
      HitRows(t, pred, snapshot, front);
      FrontAndLast(rs);
      BindSnoc(front, last, visible);
      FilteredConcat(pred, t.columns, Bind(front, visible), visible(last));
      var tail := if Selected(t, pred, snapshot, last) then [Hit(last.addr, last.row)] else [];
      BindConcat(ScanHits(t, pred, snapshot, front), tail, row);
      OneHit(t, pred, snapshot, last, tail, row);
    }
  }

  lemma OneHit(t: Table, pred: Predicate, snapshot: nat, r: Record, hits: seq<Hit>, row: Hit -> seq<Row>)
    requires Resolves(t.columns, pred) && |r.row| == |t.columns|
    requires hits == (if Selected(t, pred, snapshot, r) then [Hit(r.addr, r.row)] else [])
    requires forall h :: row(h) == [h.row]
    ensures Bind(hits, row) == Filtered(pred, t.columns, VisibleRow(r, snapshot))
  {
    BindSingle(r.row, x => Passing(pred, t.columns, x));
    BindSingle(Hit(r.addr, r.row), row);
  }

  /** `select_filtered_bounded`: the filtered scan's rows, whatever index served them. */
  method SelectFiltered(t: Table, filter: Option<Predicate>, snapshot: nat) returns (r: Result<seq<Row>>)
    requires TableOk(t)
    ensures if filter.None? || Resolves(t.columns, filter.value) then r.Ok? else r == Err(Schema)
    ensures r.Ok? && filter.None? ==> r.value == ScanRows(t, snapshot)
    ensures r.Ok? && filter.Some? ==>
      multiset(r.value) == multiset(Filtered(filter.value, t.columns, ScanRows(t, snapshot)))
  {
    if filter.None? { return Ok(ScanRows(t, snapshot)); }
    var hits := CollectMatching(t, filter.value, snapshot);
    if hits.Err? { return Err(hits.error); }
    var row := (h: Hit) => [h.row];
    BindPermutes(hits.value, ScanHits(t, filter.value, snapshot, t.records), row);
    HitRows(t, filter.value, snapshot, t.records);
    r := Ok(Bind(hits.value, row));
  }

  // ---- buckets by a build scan ----

  lemma KeyedSnoc(k: Value, rows: seq<Row>, row: Row, rk: nat)
    ensures Keyed(k, rows + [row], rk) == Keyed(k, rows, rk) + KeyedRow(k, row, rk)
  {
    BindSnoc(rows, row, x => KeyedRow(k, x, rk));
  }

  ghost predicate Filled(m: Buckets, rows: seq<Row>, rk: nat) {
    forall k {:trigger Bucket(m, k)} {:trigger Keyed(k, rows, rk)} :: Bucket(m, k) == Keyed(k, rows, rk)
  }

  lemma RowFiled(m: Buckets, after: Buckets, rows: seq<Row>, row: Row, rk: nat)
    requires Filled(m, rows, rk) && rk < |row|
    requires after == if row[rk] != Null then m[JoinKey(row[rk]) := Bucket(m, JoinKey(row[rk])) + [row]] else m
    ensures Filled(after, rows + [row], rk)
  {
    forall k ensures Bucket(after, k) == Keyed(k, rows + [row], rk) {
      KeyedSnoc(k, rows, row, rk);
      assert Bucket(m, k) == Keyed(k, rows, rk);
      assert Bucket(after, k) == Bucket(m, k) + KeyedRow(k, row, rk);
    }
  }

  method BuildBuckets(rows: seq<Row>, rk: nat) returns (m: Buckets)
    requires forall row :: row in rows ==> rk < |row|
    ensures Filled(m, rows, rk)
  {
    m := map[];
    for i := 0 to |rows|
      invariant Filled(m, rows[..i], rk)
    {
      ghost var before := m;
      if rows[i][rk] != Null {
        var key := JoinKey(rows[i][rk]);
        m := m[key := Bucket(m, key) + [rows[i]]];
      }
      PrefixSnoc(rows, i);
      RowFiled(before, m, rows[..i], rows[i], rk);
    }
    WholePrefix(rows);
  }

  // ---- buckets by index probes ----

  /** The row of a visible record under its key. */
  function Probed(k: Value, r: Record, rk: nat, snapshot: nat): seq<Row> {
    if Sees(snapshot, r.env) then KeyedRow(k, r.row, rk) else []
  }

  function EqualCell(k: Value, r: Record, rk: nat): seq<Record> {
    if ValuesEqual(Cell(r.row, rk), k) then [r] else []
  }

  lemma {:induction false} FilterNoDup(rs: seq<Record>, f: Record -> seq<Record>)
    requires NoDup(rs) && forall r :: f(r) == [r] || f(r) == []
    ensures NoDup(Bind(rs, f)) && forall r :: r in Bind(rs, f) <==> r in rs && f(r) == [r]
    decreases |rs|
  {
    if rs != [] {
      assert rs == [rs[0]] + rs[1..];
      FilterNoDup(rs[1..], f);
      NoDupConcat(f(rs[0]), Bind(rs[1..], f));
    }
  }

  /** Reading exactly the records with an equal cell, in any order, fills the bucket. */
  lemma ProbeFills(t: Table, k: Value, rk: nat, snapshot: nat, got: seq<Record>, probed: Record -> seq<Row>)
    requires NoDup(t.records) && NoDup(got) && JoinKey(k) == k
    requires forall r :: r in got <==> r in t.records && ValuesEqual(Cell(r.row, rk), k)
    requires forall r :: probed(r) == Probed(k, r, rk, snapshot)
    ensures multiset(Bind(got, probed)) == multiset(Keyed(k, ScanRows(t, snapshot), rk))
  {
    var equal := r => EqualCell(k, r, rk);
    FilterNoDup(t.records, equal);
    SameMembersSameMultiset(got, Bind(t.records, equal));
    BindPermutes(got, Bind(t.records, equal), probed);
    forall r | r in t.records ensures Bind(equal(r), probed) == probed(r) {
      BindSingle(r, probed);
      JoinKeyIsEquality(Cell(r.row, rk), k);
    }
    BindBind(t.records, equal, probed, probed);
    ScanKeyed(t, k, rk, snapshot, probed);
  }

  lemma ScanKeyed(t: Table, k: Value, rk: nat, snapshot: nat, probed: Record -> seq<Row>)
    requires forall r :: probed(r) == Probed(k, r, rk, snapshot)
    ensures Keyed(k, ScanRows(t, snapshot), rk) == Bind(t.records, probed)
  {
    var visible := r => VisibleRow(r, snapshot);
    var keyed := row => KeyedRow(k, row, rk);
    forall r | r in t.records ensures Bind(visible(r), keyed) == probed(r) {
      BindSingle(r.row, keyed);
    }
    BindBind(t.records, visible, keyed, probed);
  }

  /** The index is complete for column rk, whose cells `owner` gives by address. */
  ghost predicate Indexed(t: Table, ix: Index, owner: map<Addr, Value>, rk: nat) {
    && DistinctAddrs(t.records) && IndexOk(ix, owner)
    && (forall r :: r in t.records ==> rk < |r.row| && r.addr in owner && owner[r.addr] == r.row[rk])
    && forall a :: a in owner ==> exists i :: 0 <= i < |t.records| && t.records[i].addr == a
  }

  /** `index_equality_candidates`, sorted and without repetition. */
  method Candidates(t: Table, ix: Index, ghost owner: map<Addr, Value>, k: Value, rk: nat) returns (addrs: seq<nat>)
    requires Indexed(t, ix, owner, rk)
    ensures Ascending(addrs) && forall a :: a in addrs <==> a in owner && ValuesEqual(owner[a], k)
    ensures forall a :: a in addrs ==> exists i :: 0 <= i < |t.records| && t.records[i].addr == a
  {
    EqualityCandidatesExact(ix, owner, k);
    var candidates := EqualityCandidates(ix, k);
    var found := set a | a in candidates;
    addrs := SortedKeys(found);
  }

  /** Reading the addresses in turn, keeping the visible rows whose own key is k. */
  method ReadProbed(t: Table, addrs: seq<nat>, k: Value, rk: nat, snapshot: nat, ghost probed: Record -> seq<Row>)
    returns (rows: seq<Row>, ghost got: seq<Record>)
    requires forall r :: r in t.records ==> rk < |r.row|
    requires forall a :: a in addrs ==> exists i :: 0 <= i < |t.records| && t.records[i].addr == a
    requires forall r :: probed(r) == Probed(k, r, rk, snapshot)
    ensures |got| == |addrs| && forall j :: 0 <= j < |got| ==> got[j] in t.records && got[j].addr == addrs[j]
    ensures rows == Bind(got, probed)
  {
    rows := [];
    got := [];
    for i := 0 to |addrs|
      invariant |got| == i && forall j :: 0 <= j < i ==> got[j] in t.records && got[j].addr == addrs[j]
      invariant rows == Bind(got, probed)
    {
      assert addrs[i] in addrs;
      var j := ReadAt(t.records, addrs[i]);
      var r := t.records[j];
      BindSnoc(got, r, probed);
      got := got + [r];
      if Sees(snapshot, r.env) && r.row[rk] != Null && JoinKey(r.row[rk]) == k {
        rows := rows + [r.row];
      }
    }
  }

  /** One probe of `indexed_join_map`. */
  method Probe(t: Table, ix: Index, ghost owner: map<Addr, Value>, k: Value, rk: nat, snapshot: nat)
      returns (rows: seq<Row>)
    requires JoinKey(k) == k && Indexed(t, ix, owner, rk)
    ensures multiset(rows) == multiset(Keyed(k, ScanRows(t, snapshot), rk))
  {
    var addrs := Candidates(t, ix, owner, k, rk);
    ghost var probed := r => Probed(k, r, rk, snapshot);
    ghost var got;
    rows, got := ReadProbed(t, addrs, k, rk, snapshot, probed);
    ReadsAreExact(t, owner, k, rk, addrs, got);
    ProbeFills(t, k, rk, snapshot, got, probed);
  }

  lemma ReadsAreExact(t: Table, owner: map<Addr, Value>, k: Value, rk: nat, addrs: seq<nat>, got: seq<Record>)
    requires DistinctAddrs(t.records) && Ascending(addrs)
    requires forall r :: r in t.records ==> rk < |r.row| && r.addr in owner && owner[r.addr] == r.row[rk]
    requires forall a :: a in addrs <==> a in owner && ValuesEqual(owner[a], k)
    requires |got| == |addrs| && forall j :: 0 <= j < |got| ==> got[j] in t.records && got[j].addr == addrs[j]
    ensures NoDup(t.records) && NoDup(got)
    ensures forall r :: r in got <==> r in t.records && ValuesEqual(Cell(r.row, rk), k)
  {
    forall r | r in t.records && ValuesEqual(Cell(r.row, rk), k) ensures r in got {
      assert r.addr in addrs;
      var j :| 0 <= j < |addrs| && addrs[j] == r.addr;
      assert got[j] in t.records && got[j].addr == r.addr;
    }
    forall r | r in got ensures r in t.records && ValuesEqual(Cell(r.row, rk), k) {
      var j :| 0 <= j < |got| && got[j] == r;
      assert addrs[j] in addrs;
    }
  }

  /** The buckets of the given keys hold what a build scan would put there, up to order. */
  ghost predicate Serving(m: Buckets, keys: set<Value>, rights: seq<Row>, rk: nat) {
    forall k {:trigger Bucket(m, k)} :: k in keys ==> multiset(Bucket(m, k)) == multiset(Keyed(k, rights, rk))
  }

  lemma ServingMore(m: Buckets, after: Buckets, done: set<Value>, k: Value, rows: seq<Row>, rights: seq<Row>, rk: nat)
    requires Serving(m, done, rights, rk) && k !in m && multiset(rows) == multiset(Keyed(k, rights, rk))
    requires after == if rows != [] then m[k := rows] else m
    ensures Serving(after, done + {k}, rights, rk)
  {
    forall j | j in done + {k} ensures multiset(Bucket(after, j)) == multiset(Keyed(j, rights, rk)) {
      assert Bucket(after, j) == if j == k then rows else Bucket(m, j);
    }
  }

  method ProbeAll(t: Table, ix: Index, ghost owner: map<Addr, Value>, rk: nat, keys: set<Value>, snapshot: nat)
      returns (m: Buckets)
    requires Indexed(t, ix, owner, rk) && forall k :: k in keys ==> JoinKey(k) == k
    ensures Serving(m, keys, ScanRows(t, snapshot), rk)
  {
    m := map[];
    var rest := keys;
    ghost var done := {};
    while rest != {}
      invariant keys == done + rest && m.Keys <= done && done !! rest
      invariant Serving(m, done, ScanRows(t, snapshot), rk)
      decreases |rest|
    {
      var k :| k in rest;
      var rows := Probe(t, ix, owner, k, rk, snapshot);
      ServingMore(m, if rows != [] then m[k := rows] else m, done, k, rows, ScanRows(t, snapshot), rk);
      if rows != [] { m := m[k := rows]; }
      done := done + {k};
      rest := rest - {k};
    }
  }

  lemma OwnedIsIndexed(t: Table, ix: Index, owner: map<Addr, Value>, rk: nat)
    requires rk < |t.columns| && DistinctAddrs(t.records) && Fits(t) && IndexOk(ix, owner)
    requires forall i :: 0 <= i < |t.records| ==>
      t.records[i].addr in owner && owner[t.records[i].addr] == t.records[i].row[rk]
    requires forall a :: a in owner ==> exists i :: 0 <= i < |t.records| && t.records[i].addr == a
    ensures Indexed(t, ix, owner, rk)
  {}

  lemma TableIndexed(t: Table, rk: nat)
    requires TableOk(t) && rk < |t.columns| && t.columns[rk] in t.indexes
    ensures Indexed(t, t.indexes[t.columns[rk]], Owner(t.records, rk), rk)
  {
    ExactNameResolves(t.columns, rk);
    var col := IndexedColumn(t, t.columns[rk]);
    OwnedIsIndexed(t, t.indexes[t.columns[rk]], Owner(t.records, rk), rk);
  }

  /** `indexed_join_map`: None without an index or when a build scan is estimated cheaper. */
  method IndexedJoinMap(t: Table, rk: nat, keys: set<Value>, snapshot: nat, bounded: bool) returns (r: Option<Buckets>)
    requires TableOk(t) && rk < |t.columns| && forall k :: k in keys ==> JoinKey(k) == k
    ensures r.Some? ==> Serving(r.value, keys, ScanRows(t, snapshot), rk)
  {
    var column := t.columns[rk];
    var versions := if |t.records| > 0 then |t.records| else 1;
    if column !in t.indexes || (!bounded && |keys| * 4 > versions) { return None; }
    TableIndexed(t, rk);
    var m := ProbeAll(t, t.indexes[column], Owner(t.records, rk), rk, keys, snapshot);
    r := Some(m);
  }

  // ---- one join ----

  function Matches(m: Buckets, v: Value): seq<Row> {
    if v.Null? then [] else Bucket(m, JoinKey(v))
  }

  lemma BesideAlike(left: Row, a: seq<Row>, b: seq<Row>, outer: bool, width: nat)
    requires multiset(a) == multiset(b)
    ensures multiset(Beside(left, a, outer, width)) == multiset(Beside(left, b, outer, width))
  {
    assert |multiset(a)| == |a| && |multiset(b)| == |b|;
    BindPermutes(a, b, right => [left + right]);
  }

  function ProbeKeys(rows: seq<Row>, lk: nat): (r: set<Value>)
    ensures forall k :: k in r <==>
      exists i :: 0 <= i < |rows| && !Cell(rows[i], lk).Null? && JoinKey(Cell(rows[i], lk)) == k
  {
    set i | 0 <= i < |rows| && !Cell(rows[i], lk).Null? :: JoinKey(Cell(rows[i], lk))
  }

  lemma NullMeetsNothing(v: Value, rights: seq<Row>, rk: nat)
    requires v.Null?
    ensures Meeting(v, rights, rk) == []
  {
    BindEmpty(rights, r => if KeysMeet(v, Cell(r, rk)) then [r] else []);
  }

  lemma BucketsJoin(m: Buckets, rows: seq<Row>, rights: seq<Row>, lk: nat, rk: nat, outer: bool, width: nat,
      beside: Row -> seq<Row>)
    requires Serving(m, ProbeKeys(rows, lk), rights, rk)
    requires forall left :: beside(left) == Beside(left, Matches(m, Cell(left, lk)), outer, width)
    ensures multiset(Bind(rows, beside)) == multiset(NestedLoop(rows, rights, lk, rk, outer, width))
  {
    var nested := left => Beside(left, Meeting(Cell(left, lk), rights, rk), outer, width);
    forall left | left in rows ensures multiset(beside(left)) == multiset(nested(left)) {
      var v := Cell(left, lk);
      if v.Null? {
        NullMeetsNothing(v, rights, rk);
      } else {
        var i :| 0 <= i < |rows| && rows[i] == left;
        assert JoinKey(v) in ProbeKeys(rows, lk);
        assert multiset(Bucket(m, JoinKey(v))) == multiset(Keyed(JoinKey(v), rights, rk));
        KeyedIsMeeting(v, rights, rk);
      }
      BesideAlike(left, Matches(m, v), Meeting(v, rights, rk), outer, width);
    }
    BindAlike(rows, beside, nested);
  }

  /** The map of the right table by join key, from its index or from a build scan. */
  method RightBuckets(t: Table, rk: nat, keys: set<Value>, snapshot: nat, bounded: bool) returns (m: Buckets)
    requires TableOk(t) && rk < |t.columns| && forall k :: k in keys ==> JoinKey(k) == k
    ensures Serving(m, keys, ScanRows(t, snapshot), rk)
  {
    var indexed := IndexedJoinMap(t, rk, keys, snapshot, bounded);
    if indexed.Some? { return indexed.value; }
    var rights := SelectFiltered(t, None, snapshot);
    ScanRowsWidth(t, snapshot);
    m := BuildBuckets(rights.value, rk);
  }

  method JoinBuckets(rows: seq<Row>, m: Buckets, lk: nat, outer: bool, width: nat, ghost beside: Row -> seq<Row>)
      returns (out: seq<Row>)
    requires forall row :: row in rows ==> lk < |row|
    requires forall left :: beside(left) == Beside(left, Matches(m, Cell(left, lk)), outer, width)
    ensures out == Bind(rows, beside)
  {
    out := [];
    for i := 0 to |rows|
      invariant out == Bind(rows[..i], beside)
    {
      var left := rows[i];
      var matches := if left[lk] == Null then [] else Bucket(m, JoinKey(left[lk]));
      out := out + Beside(left, matches, outer, width);
      assert rows[..i + 1] == rows[..i] + [left];
      BindSnoc(rows[..i], left, beside);
    }
    assert rows[..|rows|] == rows;
  }

  /** The body of the join loop: the same rows as the nested loop, up to order. */
  method ExecuteJoin(rows: seq<Row>, t: Table, lk: nat, rk: nat, outer: bool, snapshot: nat, bounded: bool)
      returns (out: seq<Row>)
    requires TableOk(t) && rk < |t.columns| && forall row :: row in rows ==> lk < |row|
    ensures multiset(out) == multiset(NestedLoop(rows, ScanRows(t, snapshot), lk, rk, outer, |t.columns|))
  {
    var m := RightBuckets(t, rk, ProbeKeys(rows, lk), snapshot, bounded);
    ghost var beside := left => Beside(left, Matches(m, Cell(left, lk)), outer, |t.columns|);
    out := JoinBuckets(rows, m, lk, outer, |t.columns|, beside);
    BucketsJoin(m, rows, ScanRows(t, snapshot), lk, rk, outer, |t.columns|, beside);
  }

  // ---- the whole query ----

  ghost predicate TablesOk(db: Tables) {
    forall name :: name in db ==> TableOk(db[name])
  }

  lemma TablesFit(db: Tables)
    requires TablesOk(db)
    ensures AllFit(db)
  {
    forall name | name in db ensures Fits(db[name]) { assert TableOk(db[name]); }
  }

  /** Same columns, same rows up to order, every row as wide as the columns. */
  ghost predicate Agrees(a: Relation, b: Relation) {
    && a.columns == b.columns && multiset(a.rows) == multiset(b.rows)
    && forall row :: row in b.rows ==> |row| == |b.columns|
  }

  lemma SameMultisetMembers(a: seq<Row>, b: seq<Row>, row: Row)
    requires multiset(a) == multiset(b)
    ensures row in a <==> row in b
  {
    assert row in a <==> row in multiset(a);
    assert row in b <==> row in multiset(b);
  }

  lemma JoinOnceWidth(db: Tables, rel: Relation, j: Join, snapshot: nat)
    requires AllFit(db) && JoinOnce(db, rel, j, snapshot).Ok? && forall row :: row in rel.rows ==>
      |row| == |rel.columns|
    ensures var r := JoinOnce(db, rel, j, snapshot).value; forall row :: row in r.rows ==> |row| == |r.columns|
  {
    JoinOnceGrown(db, rel.columns, rel.rows, j, snapshot, []);
    assert rel == Relation(rel.columns, rel.rows);
  }

  /** One pass of the join loop, against one step of the reference. */
  method JoinPass(db: Tables, rel: Relation, j: Join, snapshot: nat, bounded: bool, ghost spec: Relation)
      returns (r: Result<Relation>)
    requires TablesOk(db) && AllFit(db) && Agrees(rel, spec)
    ensures r.Ok? <==> JoinOnce(db, spec, j, snapshot).Ok?
    ensures r.Err? ==> r == JoinOnce(db, spec, j, snapshot)
    ensures r.Ok? ==> Agrees(r.value, JoinOnce(db, spec, j, snapshot).value)
  {
    if j.table.name !in db { return Err(TableNotFound); }
    var t := db[j.table.name];
    var rights := Qualify(j.table.qualifier, t.columns);
    var keys := JoinKeys(rel.columns, rights, j.first, j.second);
    if keys.Err? { return Err(keys.error); }
    forall row | row in rel.rows ensures |row| == |rel.columns| { SameMultisetMembers(rel.rows, spec.rows, row); }
    var rows := ExecuteJoin(rel.rows, t, keys.value.0, keys.value.1, j.outer, snapshot, bounded);
    BindPermutes(rel.rows, spec.rows,
      left => Beside(left, Meeting(Cell(left, keys.value.0), ScanRows(t, snapshot), keys.value.1), j.outer,
        |t.columns|));
    JoinOnceWidth(db, spec, j, snapshot);
    r := Ok(Relation(rel.columns + rights, rows));
  }

  method JoinLoop(db: Tables, start: Relation, joins: seq<Join>, snapshot: nat, bounded: bool, ghost spec: Relation)
      returns (r: Result<Relation>)
    requires TablesOk(db) && AllFit(db) && Agrees(start, spec)
    ensures r.Ok? <==> JoinAll(db, spec, joins, snapshot).Ok?
    ensures r.Err? ==> r == JoinAll(db, spec, joins, snapshot)
    ensures r.Ok? ==> Agrees(r.value, JoinAll(db, spec, joins, snapshot).value)
  {
    var rel := start;
    ghost var at := spec;
    for k := 0 to |joins|
      invariant Agrees(rel, at) && JoinAll(db, at, joins[k..], snapshot) == JoinAll(db, spec, joins, snapshot)
    {
      assert joins[k..][0] == joins[k] && joins[k..][1..] == joins[k + 1..];
      var next := JoinPass(db, rel, joins[k], snapshot, bounded, at);
      if next.Err? { return next; }
      at := JoinOnce(db, at, joins[k], snapshot).value;
      rel := next.value;
    }
    r := Ok(rel);
  }

  /** No joined table has a column that reads as one of the driving relation. */
  predicate Unshadowed(db: Tables, q: string, joins: seq<Join>) {
    forall i :: 0 <= i < |joins| && joins[i].table.name in db ==>
      NoShadow(q, Qualify(joins[i].table.qualifier, db[joins[i].table.name].columns))
  }

  /** The parser's distinct qualifiers, when they hold no dot, rule shadowing out. */
  lemma DotFreeIsUnshadowed(db: Tables, q: string, joins: seq<Join>)
    requires '.' !in q && forall i :: 0 <= i < |joins| ==>
      joins[i].table.qualifier != q && '.' !in joins[i].table.qualifier
    ensures Unshadowed(db, q, joins)
  {
    forall i | 0 <= i < |joins| && joins[i].table.name in db
      ensures NoShadow(q, Qualify(joins[i].table.qualifier, db[joins[i].table.name].columns))
    {
      var other, columns := joins[i].table.qualifier, db[joins[i].table.name].columns;
      forall k | 0 <= k < |columns| ensures !StartsWith(Qualify(other, columns)[k], q + ".") {
        if StartsWith(other + "." + columns[k], q + ".") { ShadowNeedsDot(q, other, columns[k]); }
      }
    }
  }

  /** The columns a list of joins adds. */
  function JoinNames(db: Tables, joins: seq<Join>): seq<string> {
    if joins == [] then [] else
    var j := joins[0].table;
    (if j.name in db then Qualify(j.qualifier, db[j.name].columns) else []) + JoinNames(db, joins[1..])
  }

  lemma {:induction false} JoinedColumns(db: Tables, rel: Relation, joins: seq<Join>, snapshot: nat)
    requires JoinAll(db, rel, joins, snapshot).Ok?
    ensures JoinAll(db, rel, joins, snapshot).value.columns == rel.columns + JoinNames(db, joins)
    decreases |joins|
  {
    if joins == [] {
      NothingAdded(rel.columns);
    } else {
      var next, names := JoinOnce(db, rel, joins[0], snapshot).value, JoinNames(db, joins[1..]);
      var first := Qualify(joins[0].table.qualifier, db[joins[0].table.name].columns);
      JoinedColumns(db, next, joins[1..], snapshot);
      AddedInTurn(rel.columns, first, names);
    }
  }

  lemma NoShadowConcat(q: string, a: seq<string>, b: seq<string>)
    ensures NoShadow(q, a + b) <==> NoShadow(q, a) && NoShadow(q, b)
  {
    var all := a + b;
    assert forall i :: 0 <= i < |a| ==> all[i] == a[i];
    assert forall i :: 0 <= i < |b| ==> all[|a| + i] == b[i];
  }

  lemma {:induction false} UnshadowedNames(db: Tables, q: string, joins: seq<Join>)
    ensures Unshadowed(db, q, joins) <==> NoShadow(q, JoinNames(db, joins))
    decreases |joins|
  {
    if joins != [] {
      var j, rest := joins[0].table, joins[1..];
      var first := if j.name in db then Qualify(j.qualifier, db[j.name].columns) else [];
      UnshadowedNames(db, q, rest);
      NoShadowConcat(q, first, JoinNames(db, rest));
      UnshadowedCons(db, q, joins);
    }
  }

  lemma UnshadowedCons(db: Tables, q: string, joins: seq<Join>)
    requires joins != []
    ensures Unshadowed(db, q, joins) <==>
      && (joins[0].table.name in db ==>
            NoShadow(q, Qualify(joins[0].table.qualifier, db[joins[0].table.name].columns)))
      && Unshadowed(db, q, joins[1..])
  {
    assert forall i :: 0 <= i < |joins[1..]| ==> joins[1..][i] == joins[i + 1];
    assert forall i :: 1 <= i < |joins| ==> joins[i] == joins[1..][i - 1];
  }

  /** The driving rows: those the pushed filter keeps, or all. */
  function Driving(t: Table, pushed: Option<Predicate>, snapshot: nat): seq<Row>
    requires pushed.Some? ==> Resolves(t.columns, pushed.value)
  {
    if pushed.Some? then Filtered(pushed.value, t.columns, ScanRows(t, snapshot)) else ScanRows(t, snapshot)
  }

  lemma DrivingWidth(t: Table, pushed: Option<Predicate>, snapshot: nat)
    requires Fits(t) && (pushed.Some? ==> Resolves(t.columns, pushed.value))
    ensures forall row :: row in Driving(t, pushed, snapshot) ==> |row| == |t.columns|
  {
    ScanRowsWidth(t, snapshot);
    forall row | row in Driving(t, pushed, snapshot) ensures |row| == |t.columns| {
      if pushed.Some? { BindMembers(ScanRows(t, snapshot), x => Passing(pushed.value, t.columns, x), row); }
    }
  }

  function Pushed(filter: Option<Predicate>, q: string): Option<Predicate> {
    if filter.None? then None else SourcePredicate(filter.value, q)
  }

  /** What `select_join` computes: the pushed part on the driving relation, the joins, the whole filter. */
  function PushedPath(db: Tables, source: Source, joins: seq<Join>, filter: Option<Predicate>,
      snapshot: nat): Result<Relation> {
    if source.name !in db then Err(TableNotFound) else
    var t, p := db[source.name], Pushed(filter, source.qualifier);
    if p.Some? && !Resolves(t.columns, p.value) then Err(Schema) else
    var joined := JoinAll(db, Relation(Qualify(source.qualifier, t.columns), Driving(t, p, snapshot)), joins, snapshot);
    if joined.Err? then joined else FilterRelation(joined.value, filter)
  }

  /** The same columns and rows in the same order, or both refused. */
  ghost predicate Coincide(a: Result<Relation>, b: Result<Relation>) {
    a == b || (a.Err? && b.Err?)
  }

  /** Some column of the unfiltered join is misread by a pushed reference to it. */
  ghost predicate Misreads(db: Tables, source: Source, joins: seq<Join>, snapshot: nat) {
    source.name in db &&
    var t := db[source.name];
    var joined := JoinAll(db, Start(t, source.qualifier, snapshot), joins, snapshot);
    joined.Ok? && AnyMisread(source.qualifier, t.columns, joined.value)
  }

  ghost predicate AnyMisread(q: string, source: seq<string>, joined: Relation) {
    exists k: nat :: Misread(q, source, joined.columns, joined.rows, k)
  }

  lemma JoinedWide(db: Tables, t: Table, q: string, joins: seq<Join>, snapshot: nat)
    requires AllFit(db) && Fits(t) && JoinAll(db, Start(t, q, snapshot), joins, snapshot).Ok?
    ensures var r := JoinAll(db, Start(t, q, snapshot), joins, snapshot).value;
      && r.columns == Qualify(q, t.columns) + JoinNames(db, joins)
      && forall row :: row in r.rows ==> |row| == |r.columns|
  {
    ScanRowsWidth(t, snapshot);
    JoinRowsGrown(db, Qualify(q, t.columns), ScanRows(t, snapshot), joins, snapshot, []);
    JoinedColumns(db, Start(t, q, snapshot), joins, snapshot);
  }

  /** Without a misread column the pushed path is the reference, for every filter. */
  lemma UnmisreadAgrees(db: Tables, source: Source, joins: seq<Join>, filter: Option<Predicate>, snapshot: nat)
    requires AllFit(db) && !Misreads(db, source, joins, snapshot)
    ensures Coincide(PushedPath(db, source, joins, filter, snapshot), Reference(db, source, joins, filter, snapshot))
  {
    if source.name in db && Pushed(filter, source.qualifier).Some? {
      var t, q, p := db[source.name], source.qualifier, Pushed(filter, source.qualifier);
      var all := JoinAll(db, Start(t, q, snapshot), joins, snapshot);
      if all.Ok? && Resolves(all.value.columns, filter.value) {
        PushedRows(db, source, joins, filter.value, snapshot);
      }
      if Resolves(t.columns, p.value) {
        JoinAllColumns(db, Qualify(q, t.columns), ScanRows(t, snapshot), Driving(t, p, snapshot), joins, snapshot);
      }
    }
  }

  lemma PushedRows(db: Tables, source: Source, joins: seq<Join>, filter: Predicate, snapshot: nat)
    requires AllFit(db) && source.name in db && !Misreads(db, source, joins, snapshot)
    requires SourcePredicate(filter, source.qualifier).Some?
    requires JoinAll(db, Start(db[source.name], source.qualifier, snapshot), joins, snapshot).Ok?
    requires Resolves(JoinAll(db, Start(db[source.name], source.qualifier, snapshot), joins, snapshot).value.columns,
                      filter)
    ensures var t, q := db[source.name], source.qualifier;
      && Resolves(t.columns, SourcePredicate(filter, q).value)
      && var columns := JoinAll(db, Start(t, q, snapshot), joins, snapshot).value.columns;
         Filtered(filter, columns,
           JoinRows(db, Qualify(q, t.columns), Driving(t, SourcePredicate(filter, q), snapshot), joins, snapshot))
         == Filtered(filter, columns, JoinRows(db, Qualify(q, t.columns), ScanRows(t, snapshot), joins, snapshot))
  {
    var t, q := db[source.name], source.qualifier;
    var all := JoinAll(db, Start(t, q, snapshot), joins, snapshot).value;
    JoinedWide(db, t, q, joins, snapshot);
    NothingMisread(q, t.columns, JoinNames(db, joins), all.rows);
    PushedResolves(filter, q, t.columns, all.columns);
    JoinAllColumns(db, Qualify(q, t.columns), ScanRows(t, snapshot), [], joins, snapshot);
    ScanRowsWidth(t, snapshot);
    PushdownKeeps(db, t.columns, q, joins, filter, snapshot, all.columns, ScanRows(t, snapshot));
  }

  // ---- a misread column always shows ----

  /** Every joined row begins with one of the driving rows. */
  lemma {:induction false} JoinedFrom(db: Tables, columns: seq<string>, rows: seq<Row>, joins: seq<Join>,
      snapshot: nat, x: Row)
    requires AllFit(db) && (forall row :: row in rows ==> |row| == |columns|)
    requires JoinAll(db, Relation(columns, rows), joins, snapshot).Ok?
    requires x in JoinRows(db, columns, rows, joins, snapshot)
    ensures |columns| <= |x| && x[..|columns|] in rows
    decreases |rows|
  {
    if rows == [] {
      NoRowsJoinNothing(db, columns, joins, snapshot);
    } else {
      var first, rest := rows[0], rows[1..];
      FirstAndRest(rows);
      JoinRowsConcat(db, columns, [first], rest, joins, snapshot);
      JoinAllColumns(db, columns, rows, [first], joins, snapshot);
      JoinAllColumns(db, columns, rows, rest, joins, snapshot);
      if x in JoinRows(db, columns, [first], joins, snapshot) {
        JoinRowsGrown(db, columns, [first], joins, snapshot, first);
        assert StartsRow(x, first);
      } else {
        JoinedFrom(db, columns, rest, joins, snapshot, x);
      }
    }
  }

  lemma FilteredMembers(filter: Predicate, columns: seq<string>, rows: seq<Row>, row: Row)
    requires Resolves(columns, filter)
    ensures row in Filtered(filter, columns, rows) <==>
      row in rows && |row| == |columns| && RowMatches(filter, columns, row)
  {
    BindMembers(rows, x => Passing(filter, columns, x), row);
  }

  /** A pushed reference that finds no column has a valid query refused. */
  lemma MisreadRefuses(db: Tables, source: Source, joins: seq<Join>, snapshot: nat, k: nat)
      returns (filter: Predicate)
    requires AllFit(db) && source.name in db
    requires JoinAll(db, Start(db[source.name], source.qualifier, snapshot), joins, snapshot).Ok?
    requires var t, q := db[source.name], source.qualifier;
      var columns := JoinAll(db, Start(t, q, snapshot), joins, snapshot).value.columns;
      Shadows(q, t.columns, columns, k) && ColumnPos(t.columns, Strip(columns[k], q).value).Err?
    ensures Reference(db, source, joins, Some(filter), snapshot).Ok?
    ensures PushedPath(db, source, joins, Some(filter), snapshot) == Err(Schema)
  {
    var name := JoinAll(db, Start(db[source.name], source.qualifier, snapshot), joins, snapshot).value.columns[k];
    filter := Pinned(name, Null);
    PinnedPushed(source.qualifier, name, Null);
  }

  /** A joined row whose cell under a shadowing column is not the one the pushed reference reads. */
  ghost predicate DroppedCell(q: string, source: seq<string>, joined: Relation, k: nat, row: Row) {
    && Shadows(q, source, joined.columns, k) && row in joined.rows && |row| == |joined.columns|
    && var j := ColumnPos(source, Strip(joined.columns[k], q).value);
       j.Ok? && j.value < |row| && !ValuesEqual(row[j.value], row[k])
  }

  /** A pushed reference that finds another cell silently drops the row that should be found. */
  lemma MisreadDropsRow(db: Tables, source: Source, joins: seq<Join>, snapshot: nat, k: nat, row: Row)
      returns (filter: Predicate)
    requires AllFit(db) && source.name in db
    requires JoinAll(db, Start(db[source.name], source.qualifier, snapshot), joins, snapshot).Ok?
    requires DroppedCell(source.qualifier, db[source.name].columns,
                         JoinAll(db, Start(db[source.name], source.qualifier, snapshot), joins, snapshot).value, k, row)
    ensures var whole, pushed := Reference(db, source, joins, Some(filter), snapshot),
        PushedPath(db, source, joins, Some(filter), snapshot);
      whole.Ok? && row in whole.value.rows && pushed.Ok? && row !in pushed.value.rows
  {
    var t, q := db[source.name], source.qualifier;
    var joined := JoinAll(db, Start(t, q, snapshot), joins, snapshot).value;
    var name, v := joined.columns[k], row[k];
    var c := Strip(name, q).value;
    filter := Pinned(name, v);
    PinnedPushed(q, name, v);
    PinnedMatches(name, v, joined.columns, row);
    FilteredMembers(filter, joined.columns, joined.rows, row);
    var kept := Driving(t, Some(Pinned(c, v)), snapshot);
    JoinAllColumns(db, Qualify(q, t.columns), ScanRows(t, snapshot), kept, joins, snapshot);
    var rows := JoinRows(db, Qualify(q, t.columns), kept, joins, snapshot);
    FilteredMembers(filter, joined.columns, rows, row);
    DrivingWidth(t, Some(Pinned(c, v)), snapshot);
    if row in rows {
      JoinedFrom(db, Qualify(q, t.columns), kept, joins, snapshot, row);
      var r := row[..|t.columns|];
      FilteredMembers(Pinned(c, v), t.columns, ScanRows(t, snapshot), r);
      PinnedMatches(c, v, t.columns, r);
    }
  }

  /** A misread column has a filter that tells the two apart. */
  lemma MisreadShows(db: Tables, source: Source, joins: seq<Join>, snapshot: nat) returns (filter: Predicate)
    requires AllFit(db) && Misreads(db, source, joins, snapshot)
    ensures !Coincide(PushedPath(db, source, joins, Some(filter), snapshot),
                      Reference(db, source, joins, Some(filter), snapshot))
  {
    var t, q := db[source.name], source.qualifier;
    var joined := JoinAll(db, Start(t, q, snapshot), joins, snapshot).value;
    var k: nat :| Misread(q, t.columns, joined.columns, joined.rows, k);
    if ColumnPos(t.columns, Strip(joined.columns[k], q).value).Err? {
      filter := MisreadRefuses(db, source, joins, snapshot, k);
    } else {
      var row := MisreadRow(q, t.columns, joined, k);
      filter := MisreadDrops(db, source, joins, snapshot, k, row);
    }
  }

  lemma MisreadRow(q: string, source: seq<string>, joined: Relation, k: nat) returns (row: Row)
    requires Misread(q, source, joined.columns, joined.rows, k)
    requires ColumnPos(source, Strip(joined.columns[k], q).value).Ok?
    ensures DroppedCell(q, source, joined, k, row)
  {
    var j := ColumnPos(source, Strip(joined.columns[k], q).value).value;
    row :| row in joined.rows && |row| == |joined.columns| && !ValuesEqual(row[j], row[k]);
  }

  lemma MisreadDrops(db: Tables, source: Source, joins: seq<Join>, snapshot: nat, k: nat, row: Row)
      returns (filter: Predicate)
    requires AllFit(db) && source.name in db
    requires JoinAll(db, Start(db[source.name], source.qualifier, snapshot), joins, snapshot).Ok?
    requires DroppedCell(source.qualifier, db[source.name].columns,
                         JoinAll(db, Start(db[source.name], source.qualifier, snapshot), joins, snapshot).value, k, row)
    ensures !Coincide(PushedPath(db, source, joins, Some(filter), snapshot),
                   Reference(db, source, joins, Some(filter), snapshot))
  {
    filter := MisreadDropsRow(db, source, joins, snapshot, k, row);
  }

  /**
   The exact condition of pushdown, on any tables and any number of joins: it agrees with the reference for
   every filter if and only if the unfiltered join has no column that a pushed reference misreads.
   */
  lemma PushdownIsExact(db: Tables, source: Source, joins: seq<Join>, snapshot: nat)
    requires AllFit(db)
    ensures (forall filter {:trigger PushedPath(db, source, joins, filter, snapshot)} ::
        Coincide(PushedPath(db, source, joins, filter, snapshot), Reference(db, source, joins, filter, snapshot)))
      <==> !Misreads(db, source, joins, snapshot)
  {
    if Misreads(db, source, joins, snapshot) {
      var filter := MisreadShows(db, source, joins, snapshot);
    } else {
      forall filter ensures Coincide(PushedPath(db, source, joins, filter, snapshot),
                                  Reference(db, source, joins, filter, snapshot)) {
        UnmisreadAgrees(db, source, joins, filter, snapshot);
      }
    }
  }

  // ---- from the tables' columns alone ----

  /** Without shadowing columns nothing is misread, whatever the rows. */
  lemma UnshadowedIsUnmisread(db: Tables, source: Source, joins: seq<Join>, snapshot: nat)
    requires AllFit(db) && Unshadowed(db, source.qualifier, joins)
    ensures !Misreads(db, source, joins, snapshot)
  {
    if source.name in db {
      var t, q := db[source.name], source.qualifier;
      var joined := JoinAll(db, Start(t, q, snapshot), joins, snapshot);
      if joined.Ok? {
        JoinedColumns(db, Start(t, q, snapshot), joins, snapshot);
        UnshadowedNames(db, q, joins);
        NoneShadows(q, t.columns, JoinNames(db, joins), joined.value);
      }
    }
  }

  lemma NoneShadows(q: string, source: seq<string>, later: seq<string>, joined: Relation)
    requires NoShadow(q, later) && joined.columns == Qualify(q, source) + later
    ensures !AnyMisread(q, source, joined)
  {
    forall k: nat | |source| <= k < |joined.columns| ensures !StartsWith(joined.columns[k], q + ".") {
      assert joined.columns[k] == later[k - |source|];
    }
  }

  /**
   When the join resolves, its columns are distinct and the driving table's own names hold no dot, the condition
   is about names alone: pushdown agrees for every filter if and only if no joined table shadows the driving one.
   */
  lemma PushdownIsExactByName(db: Tables, source: Source, joins: seq<Join>, snapshot: nat)
    requires AllFit(db) && source.name in db
    requires JoinAll(db, Start(db[source.name], source.qualifier, snapshot), joins, snapshot).Ok?
    requires DistinctColumns(JoinAll(db, Start(db[source.name], source.qualifier, snapshot), joins, snapshot)
                             .value.columns)
    requires forall c :: c in db[source.name].columns ==> '.' !in c
    ensures (forall filter {:trigger PushedPath(db, source, joins, filter, snapshot)} ::
        Coincide(PushedPath(db, source, joins, filter, snapshot), Reference(db, source, joins, filter, snapshot)))
      <==> Unshadowed(db, source.qualifier, joins)
  {
    PushdownIsExact(db, source, joins, snapshot);
    if Unshadowed(db, source.qualifier, joins) {
      UnshadowedIsUnmisread(db, source, joins, snapshot);
    } else {
      ShadowIsMisread(db, source, joins, snapshot);
    }
  }

  lemma ShadowIsMisread(db: Tables, source: Source, joins: seq<Join>, snapshot: nat)
    requires AllFit(db) && source.name in db && !Unshadowed(db, source.qualifier, joins)
    requires JoinAll(db, Start(db[source.name], source.qualifier, snapshot), joins, snapshot).Ok?
    requires DistinctColumns(JoinAll(db, Start(db[source.name], source.qualifier, snapshot), joins, snapshot)
                             .value.columns)
    requires forall c :: c in db[source.name].columns ==> '.' !in c
    ensures Misreads(db, source, joins, snapshot)
  {
    var t, q := db[source.name], source.qualifier;
    var start := Start(t, q, snapshot);
    var joined := JoinAll(db, start, joins, snapshot).value;
    var names := JoinNames(db, joins);
    JoinedColumns(db, start, joins, snapshot);
    UnshadowedNames(db, q, joins);
    var i: nat :| i < |names| && StartsWith(names[i], q + ".");
    var k := |t.columns| + i;
    assert joined.columns[k] == names[i];
    ExactNameResolves(joined.columns, k);
    ShadowUnknownBefore(q, t.columns, names, k);
    assert Misread(q, t.columns, joined.columns, joined.rows, k);
  }

  // ---- a dotted source column: rows lost without an error ----

  const DRIVING: Table := Table(["x.c", "k"], [Record(0, Envelope(1, 0), [Int(1), Int(7)])], map[])
  const JOINED: Table := Table(["b.c", "k"], [Record(0, Envelope(1, 0), [Int(2), Int(7)])], map[])
  const QUOTED: Tables := map["s" := DRIVING, "j" := JOINED]
  const QUOTED_JOIN: Join := Join(Source("j", "a"), "a.b.k", "a.k", false)

  lemma QuotedColumns()
    ensures Qualify("a.b", DRIVING.columns) == ["a.b.x.c", "a.b.k"] && Qualify("a", JOINED.columns) == ["a.b.c", "a.k"]
    ensures JoinKeys(["a.b.x.c", "a.b.k"], ["a.b.c", "a.k"], "a.b.k", "a.k") == Ok((1, 1))
    ensures ColumnPos(["a.b.x.c", "a.b.k", "a.b.c", "a.k"], "a.b.c") == Ok(2) && ColumnPos(["x.c", "k"], "c") == Ok(0)
  {
    QuotedQualified();
    QuotedKeys();
    QuotedPosition();
    BareSuffix();
  }

  lemma QuotedQualified()
    ensures Qualify("a.b", ["x.c", "k"]) == ["a.b.x.c", "a.b.k"] && Qualify("a", ["b.c", "k"]) == ["a.b.c", "a.k"]
  {
    assert "a.b" + "." + "x.c" == "a.b.x.c" && "a.b" + "." + "k" == "a.b.k";
    assert "a" + "." + "b.c" == "a.b.c" && "a" + "." + "k" == "a.k";
  }

  lemma QuotedKeys()
    ensures JoinKeys(["a.b.x.c", "a.b.k"], ["a.b.c", "a.k"], "a.b.k", "a.k") == Ok((1, 1))
  {
    UniqueNameResolves(["a.b.x.c", "a.b.k"], "a.b.k", 1);
    UniqueNameResolves(["a.b.c", "a.k"], "a.k", 1);
    JoinKeysExact(["a.b.x.c", "a.b.k"], ["a.b.c", "a.k"], "a.b.k", "a.k");
  }

  lemma QuotedPosition()
    ensures ColumnPos(["a.b.x.c", "a.b.k", "a.b.c", "a.k"], "a.b.c") == Ok(2)
  {
    assert "a.b.k"[4] != "a.b.c"[4];
    UniqueNameResolves(["a.b.x.c", "a.b.k", "a.b.c", "a.k"], "a.b.c", 2);
  }

  lemma BareSuffix()
    ensures ColumnPos(["x.c", "k"], "c") == Ok(0)
  {
    var columns := ["x.c", "k"];
    assert "." + "c" == ".c" && "x.c"[1..] == ".c";
    assert "k"[0] != "c"[0];
    ColumnMatchesExact(columns, "c");
    assert Refers(columns, "c", 0) && !Refers(columns, "c", 1);
    OnlyMember(ColumnMatches(columns, "c"), 0);
  }

  lemma OneRowScanned(t: Table, r: Record, snapshot: nat)
    requires t.records == [r] && Sees(snapshot, r.env)
    ensures ScanRows(t, snapshot) == [r.row]
  {
    BindSingle(r, x => VisibleRow(x, snapshot));
  }

  lemma OneRowJoined(left: Row, right: Row, lk: nat, rk: nat, outer: bool, width: nat)
    requires KeysMeet(Cell(left, lk), Cell(right, rk))
    ensures NestedLoop([left], [right], lk, rk, outer, width) == [left + right]
  {
    var v, rights := Cell(left, lk), [right];
    BindSingle(right, r => if KeysMeet(v, Cell(r, rk)) then [r] else []);
    assert Meeting(v, rights, rk) == rights;
    BindSingle(right, r => [left + r]);
    BindSingle(left, l => Beside(l, Meeting(Cell(l, lk), rights, rk), outer, width));
  }

  lemma OneRowOnce(db: Tables, columns: seq<string>, left: Row, right: Row, j: Join, snapshot: nat, lk: nat, rk: nat)
    requires j.table.name in db && ScanRows(db[j.table.name], snapshot) == [right]
    requires JoinKeys(columns, Qualify(j.table.qualifier, db[j.table.name].columns), j.first, j.second) == Ok((lk, rk))
    requires KeysMeet(Cell(left, lk), Cell(right, rk))
    ensures JoinAll(db, Relation(columns, [left]), [j], snapshot)
      == Ok(Relation(columns + Qualify(j.table.qualifier, db[j.table.name].columns), [left + right]))
  {
    OneRowJoined(left, right, lk, rk, j.outer, |db[j.table.name].columns|);
    JoinedLast(db, Relation(columns, [left]), j, snapshot);
  }

  lemma QuotedRows()
    ensures JoinAll(QUOTED, Start(DRIVING, "a.b", 1), [QUOTED_JOIN], 1)
      == Ok(Relation(["a.b.x.c", "a.b.k", "a.b.c", "a.k"], [[Int(1), Int(7), Int(2), Int(7)]]))
  {
    QuotedColumns();
    var left, right := [Int(1), Int(7)], [Int(2), Int(7)];
    OneRowScanned(DRIVING, DRIVING.records[0], 1);
    OneRowScanned(JOINED, JOINED.records[0], 1);
    OneRowOnce(QUOTED, ["a.b.x.c", "a.b.k"], left, right, QUOTED_JOIN, 1, 1, 1);
    assert left + right == [Int(1), Int(7), Int(2), Int(7)];
    assert ["a.b.x.c", "a.b.k"] + ["a.b.c", "a.k"] == ["a.b.x.c", "a.b.k", "a.b.c", "a.k"];
  }

  lemma JoinedLast(db: Tables, rel: Relation, j: Join, snapshot: nat)
    ensures JoinAll(db, rel, [j], snapshot) == JoinOnce(db, rel, j, snapshot)
  {
    assert [j][1..] == [];
  }

  /**
   Driving column `x.c` under qualifier `a.b`, joined column `b.c` under `a`: a filter on `a.b.c` means the joined
   column, but its pushed form finds `x.c`, and the row that satisfies the query is lost.
   */
  lemma WrongColumnLosesRow() returns (filter: Predicate)
    ensures var source, joins := Source("s", "a.b"), [QUOTED_JOIN];
      var whole, pushed := Reference(QUOTED, source, joins, Some(filter), 1),
        PushedPath(QUOTED, source, joins, Some(filter), 1);
      && AllFit(QUOTED) && whole.Ok? && [Int(1), Int(7), Int(2), Int(7)] in whole.value.rows
      && pushed.Ok? && [Int(1), Int(7), Int(2), Int(7)] !in pushed.value.rows
  {
    QuotedFit();
    QuotedRows();
    QuotedShadow();
    filter := MisreadDropsRow(QUOTED, Source("s", "a.b"), [QUOTED_JOIN], 1, 2, [Int(1), Int(7), Int(2), Int(7)]);
  }

  lemma QuotedFit()
    ensures AllFit(QUOTED) && QUOTED["s"] == DRIVING
  {}

  lemma QuotedShadow()
    ensures var columns := ["a.b.x.c", "a.b.k", "a.b.c", "a.k"];
      DroppedCell("a.b", DRIVING.columns, Relation(columns, [[Int(1), Int(7), Int(2), Int(7)]]), 2,
                  [Int(1), Int(7), Int(2), Int(7)])
  {
    QuotedPosition();
    BareSuffix();
    QuotedName();
  }

  lemma QuotedName()
    ensures StartsWith("a.b.c", "a.b" + ".") && Strip("a.b.c", "a.b") == Some("c")
  {
    PrefixOf("a.b", "c");
    assert "a.b" + "." + "c" == "a.b.c";
  }

  /**
   `select_join` up to the final projection, for any number of joins: the columns and the multiset of rows of the
   pushed path, and so, unless a column is misread, of the unfiltered nested-loop join followed by the filter.
   */
  method SelectJoin(db: Tables, source: Source, joins: seq<Join>, filter: Option<Predicate>, snapshot: nat,
      bounded: bool)
    returns (r: Result<Relation>)
    requires TablesOk(db)
    ensures SameAnswer(r, PushedPath(db, source, joins, filter, snapshot))
    ensures r.Err? ==> r == PushedPath(db, source, joins, filter, snapshot) && Blames(db, source, joins, r.error)
    ensures !Misreads(db, source, joins, snapshot) ==> SameAnswer(r, Reference(db, source, joins, filter, snapshot))
    ensures !Misreads(db, source, joins, snapshot) ==>
      && (r.Ok? <==> JoinMeaning.Answerable(db, source, joins, filter))
      && (r.Ok? ==> forall row: Row ::
            multiset(r.value.rows)[row] == JoinMeaning.AnswerCount(db, source, joins, filter, snapshot, row))
  {
    TablesFit(db);
    PathBlames(db, source, joins, filter, snapshot);
    JoinMeaning.ReferenceCounts(db, source, joins, filter, snapshot);
    if !Misreads(db, source, joins, snapshot) { UnmisreadAgrees(db, source, joins, filter, snapshot); }
    if source.name !in db { return Err(TableNotFound); }
    var t := db[source.name];
    var pushed := Pushed(filter, source.qualifier);
    var rows := SelectFiltered(t, pushed, snapshot);
    if rows.Err? { return Err(rows.error); }
    DrivingWidth(t, pushed, snapshot);
    ghost var spec := Relation(Qualify(source.qualifier, t.columns), Driving(t, pushed, snapshot));
    var joined := JoinLoop(db, Relation(Qualify(source.qualifier, t.columns), rows.value), joins, snapshot,
      bounded, spec);
    if joined.Err? { return joined; }
    r := FilterRelation(joined.value, filter);
    FilterAlike(joined.value, JoinAll(db, spec, joins, snapshot).value, filter);
  }

  /** A missing table is named only when one is missing, and always when the driving one is. */
  predicate Blames(db: Tables, source: Source, joins: seq<Join>, e: Error) {
    match e
    case TableNotFound => source.name !in db || exists i :: 0 <= i < |joins| && joins[i].table.name !in db
    case Schema => source.name in db
    case _ => false
  }

  lemma {:induction false} JoinBlames(db: Tables, rel: Relation, joins: seq<Join>, snapshot: nat)
    requires JoinAll(db, rel, joins, snapshot).Err?
    ensures JoinAll(db, rel, joins, snapshot).error == Schema
      || (JoinAll(db, rel, joins, snapshot).error == TableNotFound
        && exists i :: 0 <= i < |joins| && joins[i].table.name !in db)
    decreases |joins|
  {
    var next := JoinOnce(db, rel, joins[0], snapshot);
    if next.Ok? {
      JoinBlames(db, next.value, joins[1..], snapshot);
      assert forall i :: 0 <= i < |joins| - 1 ==> joins[1..][i] == joins[i + 1];
    }
  }

  lemma PathBlames(db: Tables, source: Source, joins: seq<Join>, filter: Option<Predicate>, snapshot: nat)
    ensures PushedPath(db, source, joins, filter, snapshot).Err? ==>
      Blames(db, source, joins, PushedPath(db, source, joins, filter, snapshot).error)
  {
    if source.name in db {
      var t, p := db[source.name], Pushed(filter, source.qualifier);
      if !(p.Some? && !Resolves(t.columns, p.value)) {
        var rel := Relation(Qualify(source.qualifier, t.columns), Driving(t, p, snapshot));
        if JoinAll(db, rel, joins, snapshot).Err? { JoinBlames(db, rel, joins, snapshot); }
      }
    }
  }

  /** Both refused, or the same columns and the same rows up to order. */
  ghost predicate SameAnswer(a: Result<Relation>, b: Result<Relation>) {
    && (a.Ok? <==> b.Ok?)
    && (a.Ok? ==> a.value.columns == b.value.columns && multiset(a.value.rows) == multiset(b.value.rows))
  }

  lemma FilterAlike(a: Relation, b: Relation, filter: Option<Predicate>)
    requires a.columns == b.columns && multiset(a.rows) == multiset(b.rows)
    ensures FilterRelation(a, filter).Ok? <==> FilterRelation(b, filter).Ok?
    ensures FilterRelation(a, filter).Err? ==> FilterRelation(a, filter) == FilterRelation(b, filter)
    ensures FilterRelation(a, filter).Ok? ==>
      && FilterRelation(a, filter).value.columns == FilterRelation(b, filter).value.columns
      && multiset(FilterRelation(a, filter).value.rows) == multiset(FilterRelation(b, filter).value.rows)
  {
    if filter.Some? && Resolves(a.columns, filter.value) {
      BindPermutes(a.rows, b.rows, row => Passing(filter.value, a.columns, row));
    }
  }
}
