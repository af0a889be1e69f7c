/** Left-to-right equality joins: keyed buckets and index probes against the nested loop. */
module Joins {
  import opened Core
  import opened Bags
  import opened Values
  import opened Predicates
  import opened Pushdown
  import opened IndexedQuery

  datatype Source = Source(name: string, qualifier: string)

  datatype Join = Join(table: Source, first: string, second: string, outer: bool)

  datatype Relation = Relation(columns: seq<string>, rows: seq<Row>)

  type Tables = map<string, Table>

  // ---- the reference: unfiltered nested loops ----

  function VisibleRow(r: Record, snapshot: nat): seq<Row> {
    if Sees(snapshot, r.env) then [r.row] else []
  }

  /** `select`: the visible rows in scan order. */
  function ScanRows(t: Table, snapshot: nat): seq<Row> {
    Bind(t.records, r => VisibleRow(r, snapshot))
  }

  function Cell(row: Row, i: nat): Value {
    if i < |row| then row[i] else Null
  }

  /** SQL equality of the two key cells; NULL joins nothing. */
  predicate KeysMeet(a: Value, b: Value) {
    !a.Null? && !b.Null? && ValuesEqual(a, b)
  }

  function Meeting(v: Value, rights: seq<Row>, rk: nat): seq<Row> {
    Bind(rights, r => if KeysMeet(v, Cell(r, rk)) then [r] else [])
  }

  function Nulls(n: nat): Row { seq(n, _ => Null) }

  /** One left row beside each of its matches, or beside NULLs in an outer join without any. */
  function Beside(left: Row, matches: seq<Row>, outer: bool, width: nat): seq<Row> {
    if matches != [] then Bind(matches, right => [left + right])
    else if outer then [left + Nulls(width)]
    else []
  }

  function NestedLoop(lefts: seq<Row>, rights: seq<Row>, lk: nat, rk: nat, outer: bool, width: nat): seq<Row> {
    Bind(lefts, left => Beside(left, Meeting(Cell(left, lk), rights, rk), outer, width))
  }

  /** `resolve_join_keys`: either operand may name either side. */
  function JoinKeys(lefts: seq<string>, rights: seq<string>, first: string, second: string): (r: Result<(nat, nat)>)
    ensures r.Ok? ==> r.value.0 < |lefts| && r.value.1 < |rights|
  {
    var firstLeft, firstRight := ColumnMatches(lefts, first), ColumnMatches(rights, first);
    var secondLeft, secondRight := ColumnMatches(lefts, second), ColumnMatches(rights, second);
    if |firstLeft| == 1 && |secondRight| == 1 then
      assert firstLeft[0] in firstLeft && secondRight[0] in secondRight;
      Ok((firstLeft[0], secondRight[0]))
    else if |secondLeft| == 1 && |firstRight| == 1 then
      assert secondLeft[0] in secondLeft && firstRight[0] in firstRight;
      Ok((secondLeft[0], firstRight[0]))
    else Err(Schema)
  }

  /** Resolved exactly when one operand names one column of each side; the first reading that does is taken. */
  lemma JoinKeysExact(lefts: seq<string>, rights: seq<string>, first: string, second: string)
    ensures var r := JoinKeys(lefts, rights, first, second);
      var straight := ColumnPos(lefts, first).Ok? && ColumnPos(rights, second).Ok?;
      var crossed := ColumnPos(lefts, second).Ok? && ColumnPos(rights, first).Ok?;
      && (r.Ok? <==> straight || crossed)
      && (straight ==> ColumnPos(lefts, first) == Ok(r.value.0) && ColumnPos(rights, second) == Ok(r.value.1))
      && (!straight && crossed ==>
            ColumnPos(lefts, second) == Ok(r.value.0) && ColumnPos(rights, first) == Ok(r.value.1))
  {}

  /** Which side is written first matters exactly when both readings resolve, to different columns. */
  lemma OperandOrder(lefts: seq<string>, rights: seq<string>, a: string, b: string)
    ensures JoinKeys(lefts, rights, a, b) == JoinKeys(lefts, rights, b, a) <==>
      || ColumnPos(lefts, a).Err? || ColumnPos(rights, b).Err? || ColumnPos(lefts, b).Err? || ColumnPos(rights, a).Err?
      || (ColumnPos(lefts, a) == ColumnPos(lefts, b) && ColumnPos(rights, a) == ColumnPos(rights, b))
  {}

  function JoinOnce(db: Tables, rel: Relation, j: Join, snapshot: nat): Result<Relation> {
    if j.table.name !in db then Err(TableNotFound) else
    var t := db[j.table.name];
    var rights := Qualify(j.table.qualifier, t.columns);
    var keys := JoinKeys(rel.columns, rights, j.first, j.second);
    if keys.Err? then Err(keys.error)
    else Ok(Relation(rel.columns + rights,
                     NestedLoop(rel.rows, ScanRows(t, snapshot), keys.value.0, keys.value.1, j.outer, |t.columns|)))
  }

  function JoinAll(db: Tables, rel: Relation, joins: seq<Join>, snapshot: nat): Result<Relation>
    decreases |joins|
  {
    if joins == [] then Ok(rel) else
    var next := JoinOnce(db, rel, joins[0], snapshot);
    if next.Err? then next else JoinAll(db, next.value, joins[1..], snapshot)
  }

  function Passing(filter: Predicate, columns: seq<string>, row: Row): seq<Row>
    requires Resolves(columns, filter)
  {
    if |row| == |columns| && RowMatches(filter, columns, row) then [row] else []
  }

  function Filtered(filter: Predicate, columns: seq<string>, rows: seq<Row>): seq<Row>
    requires Resolves(columns, filter)
  {
    Bind(rows, row => Passing(filter, columns, row))
  }

  /** `check_predicate_columns`, then the filter over finished rows. */
  function FilterRelation(rel: Relation, filter: Option<Predicate>): Result<Relation> {
    if filter.None? then Ok(rel)
    else if !Resolves(rel.columns, filter.value) then Err(Schema)
    else Ok(rel.(rows := Filtered(filter.value, rel.columns, rel.rows)))
  }

  function Start(t: Table, q: string, snapshot: nat): Relation {
    Relation(Qualify(q, t.columns), ScanRows(t, snapshot))
  }

  function Reference(db: Tables, source: Source, joins: seq<Join>, filter: Option<Predicate>,
      snapshot: nat): Result<Relation> {
    if source.name !in db then Err(TableNotFound) else
    var joined := JoinAll(db, Start(db[source.name], source.qualifier, snapshot), joins, snapshot);
    if joined.Err? then joined else FilterRelation(joined.value, filter)
  }

  // ---- joining is done row by row ----

  /** The outcome and the columns do not depend on the rows. */
  lemma {:induction false} JoinAllColumns(db: Tables, columns: seq<string>, a: seq<Row>, b: seq<Row>, joins: seq<Join>,
      snapshot: nat)
    ensures JoinAll(db, Relation(columns, a), joins, snapshot).Ok? <==>
      JoinAll(db, Relation(columns, b), joins, snapshot).Ok?
    ensures JoinAll(db, Relation(columns, a), joins, snapshot).Ok? ==>
      JoinAll(db, Relation(columns, a), joins, snapshot).value.columns
        == JoinAll(db, Relation(columns, b), joins, snapshot).value.columns
    ensures JoinAll(db, Relation(columns, a), joins, snapshot).Err? ==>
      JoinAll(db, Relation(columns, a), joins, snapshot) == JoinAll(db, Relation(columns, b), joins, snapshot)
    decreases |joins|
  {
    if joins != [] {
      var x := JoinOnce(db, Relation(columns, a), joins[0], snapshot);
      var y := JoinOnce(db, Relation(columns, b), joins[0], snapshot);
      if x.Ok? {
        JoinAllColumns(db, x.value.columns, x.value.rows, y.value.rows, joins[1..], snapshot);
      }
    }
  }

  /** The joined rows of a list of rows, when the join is well formed. */
  function JoinRows(db: Tables, columns: seq<string>, rows: seq<Row>, joins: seq<Join>, snapshot: nat): seq<Row> {
    var r := JoinAll(db, Relation(columns, rows), joins, snapshot);
    if r.Ok? then r.value.rows else []
  }

  lemma NestedLoopConcat(a: seq<Row>, b: seq<Row>, rights: seq<Row>, lk: nat, rk: nat, outer: bool, width: nat)
    ensures NestedLoop(a + b, rights, lk, rk, outer, width)
         == NestedLoop(a, rights, lk, rk, outer, width) + NestedLoop(b, rights, lk, rk, outer, width)
  {
    BindConcat(a, b, left => Beside(left, Meeting(Cell(left, lk), rights, rk), outer, width));
  }

  lemma JoinOnceConcat(db: Tables, columns: seq<string>, a: seq<Row>, b: seq<Row>, j: Join, snapshot: nat)
    requires JoinOnce(db, Relation(columns, a + b), j, snapshot).Ok?
    ensures JoinOnce(db, Relation(columns, a), j, snapshot).Ok? && JoinOnce(db, Relation(columns, b), j, snapshot).Ok?
    ensures JoinOnce(db, Relation(columns, a + b), j, snapshot).value.rows
         == JoinOnce(db, Relation(columns, a), j, snapshot).value.rows
           + JoinOnce(db, Relation(columns, b), j, snapshot).value.rows
  {
    var t := db[j.table.name];
    var keys := JoinKeys(columns, Qualify(j.table.qualifier, t.columns), j.first, j.second).value;
    NestedLoopConcat(a, b, ScanRows(t, snapshot), keys.0, keys.1, j.outer, |t.columns|);
  }

  /** Joining a list of rows is joining its parts. */
  lemma {:induction false} JoinRowsConcat(db: Tables, columns: seq<string>, a: seq<Row>, b: seq<Row>, joins: seq<Join>,
      snapshot: nat)
    ensures JoinRows(db, columns, a + b, joins, snapshot)
      == JoinRows(db, columns, a, joins, snapshot) + JoinRows(db, columns, b, joins, snapshot)
    decreases |joins|
  {
    if joins != [] {
      var x := JoinOnce(db, Relation(columns, a), joins[0], snapshot);
      var y := JoinOnce(db, Relation(columns, b), joins[0], snapshot);
      var both := JoinOnce(db, Relation(columns, a + b), joins[0], snapshot);
      if both.Ok? {
        JoinOnceConcat(db, columns, a, b, joins[0], snapshot);
        JoinRowsConcat(db, both.value.columns, x.value.rows, y.value.rows, joins[1..], snapshot);
      }
    }
  }

  predicate Fits(t: Table) {
    forall r :: r in t.records ==> |r.row| == |t.columns|
  }

  predicate AllFit(db: Tables) {
    forall name :: name in db ==> Fits(db[name])
  }

  /** Rows as wide as the columns, all beginning with the same cells. */
  predicate Grown(rows: seq<Row>, width: nat, prefix: Row) {
    forall row :: row in rows ==> |row| == width && StartsRow(row, prefix)
  }

  predicate StartsRow(row: Row, prefix: Row) {
    |prefix| <= |row| && row[..|prefix|] == prefix
  }

  lemma ScanRowsWidth(t: Table, snapshot: nat)
    requires Fits(t)
    ensures forall row :: row in ScanRows(t, snapshot) ==> |row| == |t.columns|
  {
    forall row | row in ScanRows(t, snapshot) ensures |row| == |t.columns| {
      BindMembers(t.records, r => VisibleRow(r, snapshot), row);
    }
  }

  lemma MeetingMembers(v: Value, rights: seq<Row>, rk: nat, right: Row)
    ensures right in Meeting(v, rights, rk) <==> right in rights && KeysMeet(v, Cell(right, rk))
  {
    BindMembers(rights, r => if KeysMeet(v, Cell(r, rk)) then [r] else [], right);
  }

  lemma BesideGrown(left: Row, matches: seq<Row>, outer: bool, width: nat, prefix: Row)
    requires StartsRow(left, prefix) && forall right :: right in matches ==> |right| == width
    ensures Grown(Beside(left, matches, outer, width), |left| + width, prefix)
  {
    forall row | row in Beside(left, matches, outer, width)
      ensures |row| == |left| + width && StartsRow(row, prefix)
    {
      if matches != [] {
        BindMembers(matches, right => [left + right], row);
      }
      assert row[..|prefix|] == left[..|prefix|];
    }
  }

  lemma NestedLoopGrown(lefts: seq<Row>, rights: seq<Row>, lk: nat, rk: nat, outer: bool, width: nat, columns: nat,
      prefix: Row)
    requires Grown(lefts, columns, prefix) && forall right :: right in rights ==> |right| == width
    ensures Grown(NestedLoop(lefts, rights, lk, rk, outer, width), columns + width, prefix)
  {
    var image := left => Beside(left, Meeting(Cell(left, lk), rights, rk), outer, width);
    forall row | row in NestedLoop(lefts, rights, lk, rk, outer, width)
      ensures |row| == columns + width && StartsRow(row, prefix)
    {
      BindMembers(lefts, image, row);
      var left :| left in lefts && row in image(left);
      var matches := Meeting(Cell(left, lk), rights, rk);
      forall right | right in matches ensures |right| == width { MeetingMembers(Cell(left, lk), rights, rk, right); }
      BesideGrown(left, matches, outer, width, prefix);
    }
  }

  lemma JoinOnceGrown(db: Tables, columns: seq<string>, rows: seq<Row>, j: Join, snapshot: nat, prefix: Row)
    requires AllFit(db) && Grown(rows, |columns|, prefix) && JoinOnce(db, Relation(columns, rows), j, snapshot).Ok?
    ensures var r := JoinOnce(db, Relation(columns, rows), j, snapshot).value;
      Grown(r.rows, |r.columns|, prefix) && |columns| <= |r.columns| && r.columns[..|columns|] == columns
  {
    var t := db[j.table.name];
    var keys := JoinKeys(columns, Qualify(j.table.qualifier, t.columns), j.first, j.second).value;
    ScanRowsWidth(t, snapshot);
    NestedLoopGrown(rows, ScanRows(t, snapshot), keys.0, keys.1, j.outer, |t.columns|, |columns|, prefix);
  }

  /** Every joined row begins with the driving row it grew from. */
  lemma {:induction false} JoinRowsGrown(db: Tables, columns: seq<string>, rows: seq<Row>, joins: seq<Join>,
      snapshot: nat, prefix: Row)
    requires AllFit(db) && Grown(rows, |columns|, prefix) && JoinAll(db, Relation(columns, rows), joins, snapshot).Ok?
    ensures var r := JoinAll(db, Relation(columns, rows), joins, snapshot).value;
      Grown(r.rows, |r.columns|, prefix) && |columns| <= |r.columns| && r.columns[..|columns|] == columns
    decreases |joins|
  {
    if joins != [] {
      JoinOnceGrown(db, columns, rows, joins[0], snapshot, prefix);
      var next := JoinOnce(db, Relation(columns, rows), joins[0], snapshot).value;
      JoinRowsGrown(db, next.columns, next.rows, joins[1..], snapshot, prefix);
      var r := JoinAll(db, Relation(columns, rows), joins, snapshot).value;
      assert r.columns[..|columns|] == r.columns[..|next.columns|][..|columns|];
    }
  }

  // ---- pushing the filter down loses nothing ----

  /** Joined rows in which references to the driving relation read as they did before the join. */
  ghost predicate AllAlike(q: string, source: seq<string>, columns: seq<string>, rows: seq<Row>) {
    && |source| <= |columns|
    && forall row :: row in rows ==> |row| == |columns| && ReadsAlike(q, source, columns, row)
  }

  /** Rows grown from one the pushed filter rejects all fail the whole filter. */
  lemma NothingPasses(filter: Predicate, q: string, source: seq<string>, columns: seq<string>, rows: seq<Row>, row: Row)
    requires Resolves(columns, filter) && KnownBefore(q, source, columns) && AllAlike(q, source, columns, rows)
    requires |row| == |source| && Grown(rows, |columns|, row) && SourcePredicate(filter, q).Some?
    requires Resolves(source, SourcePredicate(filter, q).value)
      && !RowMatches(SourcePredicate(filter, q).value, source, row)
    ensures Filtered(filter, columns, rows) == []
  {
    forall x | x in rows ensures Passing(filter, columns, x) == [] {
      assert StartsRow(x, row);
      if RowMatches(filter, columns, x) { PushedIsImplied(filter, q, source, columns, x); }
    }
    BindEmpty(rows, x => Passing(filter, columns, x));
  }

  /** What the final filter may assume of a well-formed join. */
  ghost predicate WellJoined(db: Tables, source: seq<string>, q: string, joins: seq<Join>, filter: Predicate,
      snapshot: nat, columns: seq<string>) {
    && AllFit(db) && KnownBefore(q, source, columns) && Resolves(columns, filter)
    && JoinAll(db, Relation(Qualify(q, source), []), joins, snapshot).Ok?
    && JoinAll(db, Relation(Qualify(q, source), []), joins, snapshot).value.columns == columns
    && SourcePredicate(filter, q).Some? && Resolves(source, SourcePredicate(filter, q).value)
  }

  lemma PushdownOne(db: Tables, source: seq<string>, q: string, joins: seq<Join>, filter: Predicate, snapshot: nat,
      columns: seq<string>, row: Row)
    requires WellJoined(db, source, q, joins, filter, snapshot, columns) && |row| == |source|
    requires AllAlike(q, source, columns, JoinRows(db, Qualify(q, source), [row], joins, snapshot))
    ensures Filtered(filter, columns,
      JoinRows(db, Qualify(q, source), Passing(SourcePredicate(filter, q).value, source, row), joins, snapshot))
         == Filtered(filter, columns, JoinRows(db, Qualify(q, source), [row], joins, snapshot))
  {
    if !RowMatches(SourcePredicate(filter, q).value, source, row) {
      JoinAllColumns(db, Qualify(q, source), [], [row], joins, snapshot);
      JoinRowsGrown(db, Qualify(q, source), [row], joins, snapshot, row);
      NothingPasses(filter, q, source, columns, JoinRows(db, Qualify(q, source), [row], joins, snapshot), row);
      NoRowsJoinNothing(db, Qualify(q, source), joins, snapshot);
    }
  }

  /** Filtering the driving rows first changes nothing after the final filter. */
  lemma {:induction false} PushdownKeeps(db: Tables, source: seq<string>, q: string, joins: seq<Join>,
      filter: Predicate, snapshot: nat, columns: seq<string>, rows: seq<Row>)
    requires WellJoined(db, source, q, joins, filter, snapshot, columns)
    requires forall row :: row in rows ==> |row| == |source|
    requires AllAlike(q, source, columns, JoinRows(db, Qualify(q, source), rows, joins, snapshot))
    ensures Filtered(filter, columns,
      JoinRows(db, Qualify(q, source), Filtered(SourcePredicate(filter, q).value, source, rows), joins, snapshot))
         == Filtered(filter, columns, JoinRows(db, Qualify(q, source), rows, joins, snapshot))
    decreases |rows|
  {
    if rows != [] {
      var qualified, pushed := Qualify(q, source), SourcePredicate(filter, q).value;
      var kept, rest := Passing(pushed, source, rows[0]), rows[1..];
      var restKept := Filtered(pushed, source, rest);
      FirstAndRest(rows);
      JoinRowsConcat(db, qualified, [rows[0]], rest, joins, snapshot);
      PushdownOne(db, source, q, joins, filter, snapshot, columns, rows[0]);
      PushdownKeeps(db, source, q, joins, filter, snapshot, columns, rest);
      SplitJoin(db, qualified, columns, kept, restKept, joins, filter, snapshot);
      SplitJoin(db, qualified, columns, [rows[0]], rest, joins, filter, snapshot);
      assert Filtered(pushed, source, rows) == kept + restKept;
    }
  }

  lemma SplitJoin(db: Tables, source: seq<string>, columns: seq<string>, a: seq<Row>, b: seq<Row>, joins: seq<Join>,
      filter: Predicate, snapshot: nat)
    requires Resolves(columns, filter)
    ensures Filtered(filter, columns, JoinRows(db, source, a + b, joins, snapshot))
         == Filtered(filter, columns, JoinRows(db, source, a, joins, snapshot))
           + Filtered(filter, columns, JoinRows(db, source, b, joins, snapshot))
  {
    JoinRowsConcat(db, source, a, b, joins, snapshot);
    FilteredConcat(filter, columns, JoinRows(db, source, a, joins, snapshot), JoinRows(db, source, b, joins, snapshot));
  }

  lemma FilteredConcat(filter: Predicate, columns: seq<string>, a: seq<Row>, b: seq<Row>)
    requires Resolves(columns, filter)
    ensures Filtered(filter, columns, a + b) == Filtered(filter, columns, a) + Filtered(filter, columns, b)
  {
    BindConcat(a, b, row => Passing(filter, columns, row));
  }

  lemma NoRowsJoinNothing(db: Tables, columns: seq<string>, joins: seq<Join>, snapshot: nat)
    ensures JoinRows(db, columns, [], joins, snapshot) == []
  {
    var none: seq<Row> := [];
    JoinRowsConcat(db, columns, none, none, joins, snapshot);
    assert none + none == none;
    var all := JoinRows(db, columns, none, joins, snapshot);
    assert |all| == |all| + |all|;
  }
}
