/** How often a row is in the answer of a join, counted without any loop. */
module JoinMeaning {
  import opened Core
  import opened Bags
  import opened Values
  import opened Predicates
  import opened SqlMeaning
  import opened Pushdown
  import opened IndexedQuery
  import opened Joins
  import opened Versions

  /** Two key cells join: neither is NULL and they are SQL-equal. */
  predicate Meets(a: Value, b: Value) { !a.Null? && !b.Null? && SameValue(a, b) }

  function KeyCell(row: Row, i: nat): Value { if i < |row| then row[i] else Null }

  predicate AllNull(row: Row, width: nat) {
    |row| == width && forall i :: 0 <= i < width ==> row[i].Null?
  }

  /** No right row joins this left one. */
  predicate Alone(left: Row, rights: seq<Row>, lk: nat, rk: nat) {
    forall right :: right in rights ==> !Meets(KeyCell(left, lk), KeyCell(right, rk))
  }

  /**
   How often one left row is continued by `right`: as often as `right` is among the right rows, if their keys meet;
   once by NULLs in an outer join that finds no partner; and not otherwise.
   */
  ghost function Continued(left: Row, right: Row, rights: seq<Row>, lk: nat, rk: nat, outer: bool, width: nat): nat {
    if Meets(KeyCell(left, lk), KeyCell(right, rk)) then multiset(rights)[right]
    else if outer && Alone(left, rights, lk, rk) && AllNull(right, width) then 1
    else 0
  }

  function Times(a: nat, b: nat): (r: nat)
    ensures (a == 0 || b == 0) <==> r == 0
  {
    a * b
  }

  lemma TimesInTurn(a: nat, b: nat, c: nat)
    ensures Times(Times(a, b), c) == Times(a, Times(b, c))
  {}

  lemma KeysMeetMeans(a: Value, b: Value)
    ensures KeysMeet(a, b) <==> Meets(a, b)
  {
    EqualityMeans(a, b);
  }

  lemma {:induction false} MeetingCount(v: Value, rights: seq<Row>, rk: nat, right: Row)
    ensures multiset(Meeting(v, rights, rk))[right]
      == if Meets(v, KeyCell(right, rk)) then multiset(rights)[right] else 0
    decreases |rights|
  {
    if rights != [] {
      var n := |rights| - 1;
      var f := r => if KeysMeet(v, Joins.Cell(r, rk)) then [r] else [];
      FrontAndLast(rights);
      MeetingCount(v, rights[..n], rk, right);
      BindSnoc(rights[..n], rights[n], f);
      KeysMeetMeans(v, Joins.Cell(rights[n], rk));
      assert multiset(rights) == multiset(rights[..n]) + multiset{rights[n]};
      SnocCount(Meeting(v, rights[..n], rk), f(rights[n]), right);
    }
  }

  lemma SnocCount(a: seq<Row>, b: seq<Row>, row: Row)
    ensures multiset(a + b)[row] == multiset(a)[row] + multiset(b)[row]
  {}

  lemma SameContinuation(left: Row, a: Row, b: Row)
    ensures left + a == left + b <==> a == b
  {
    assert (left + a)[|left|..] == a && (left + b)[|left|..] == b;
  }

  lemma {:induction false} BesideMatches(left: Row, matches: seq<Row>, right: Row)
    ensures multiset(Bind(matches, r => [left + r]))[left + right] == multiset(matches)[right]
    decreases |matches|
  {
    if matches != [] {
      var n := |matches| - 1;
      var f := r => [left + r];
      FrontAndLast(matches);
      BesideMatches(left, matches[..n], right);
      BindSnoc(matches[..n], matches[n], f);
      SameContinuation(left, matches[n], right);
      assert multiset(matches) == multiset(matches[..n]) + multiset{matches[n]};
      SnocCount(Bind(matches[..n], f), f(matches[n]), left + right);
    }
  }

  lemma NoMatches(left: Row, rights: seq<Row>, lk: nat, rk: nat)
    ensures Meeting(Joins.Cell(left, lk), rights, rk) == [] <==> Alone(left, rights, lk, rk)
  {
    var matches := Meeting(Joins.Cell(left, lk), rights, rk);
    forall right ensures right in matches <==> right in rights && Meets(KeyCell(left, lk), KeyCell(right, rk)) {
      MeetingMembers(Joins.Cell(left, lk), rights, rk, right);
      KeysMeetMeans(Joins.Cell(left, lk), Joins.Cell(right, rk));
    }
    if matches != [] { assert matches[0] in matches; }
  }

  /** One left row beside its matches, or beside NULLs. */
  lemma BesideCount(left: Row, right: Row, rights: seq<Row>, lk: nat, rk: nat, outer: bool, width: nat)
    ensures var matches := Meeting(Joins.Cell(left, lk), rights, rk);
      multiset(Beside(left, matches, outer, width))[left + right]
      == Continued(left, right, rights, lk, rk, outer, width)
  {
    var matches := Meeting(Joins.Cell(left, lk), rights, rk);
    MeetingCount(Joins.Cell(left, lk), rights, rk, right);
    NoMatches(left, rights, lk, rk);
    BesideMatches(left, matches, right);
    SameContinuation(left, Nulls(width), right);
    assert AllNull(right, width) <==> right == Nulls(width);
  }

  lemma OtherLeft(left: Row, row: Row, matches: seq<Row>, outer: bool, width: nat)
    requires |left| <= |row| && row[..|left|] != left
    ensures multiset(Beside(left, matches, outer, width))[row] == 0
  {
    if row in Beside(left, matches, outer, width) { BesideStarts(left, row, matches, outer, width); }
  }

  lemma BesideStarts(left: Row, row: Row, matches: seq<Row>, outer: bool, width: nat)
    requires row in Beside(left, matches, outer, width)
    ensures |left| <= |row| && row[..|left|] == left
  {
    if matches != [] { BindMembers(matches, right => [left + right], row); }
  }

  lemma OneLeftCount(left: Row, row: Row, rights: seq<Row>, lk: nat, rk: nat, outer: bool, width: nat)
    requires |left| <= |row|
    ensures var matches := Meeting(Joins.Cell(left, lk), rights, rk);
      multiset(Beside(left, matches, outer, width))[row]
      == if row[..|left|] == left then Continued(left, row[|left|..], rights, lk, rk, outer, width) else 0
  {
    SplitAt(row, |left|);
    if row[..|left|] == left {
      BesideCount(left, row[|left|..], rights, lk, rk, outer, width);
    } else {
      OtherLeft(left, row, Meeting(Joins.Cell(left, lk), rights, rk), outer, width);
    }
  }

  /** The nested loop holds a row as often as its left part is on the left, times the ways to continue it. */
  lemma {:induction false} NestedLoopCount(lefts: seq<Row>, rights: seq<Row>, lk: nat, rk: nat, outer: bool,
      width: nat, n: nat, row: Row)
    requires n <= |row| && forall left :: left in lefts ==> |left| == n
    ensures multiset(NestedLoop(lefts, rights, lk, rk, outer, width))[row]
      == Times(multiset(lefts)[row[..n]], Continued(row[..n], row[n..], rights, lk, rk, outer, width))
    decreases |lefts|
  {
    if lefts != [] {
      var k := |lefts| - 1;
      var f := left => Beside(left, Meeting(Joins.Cell(left, lk), rights, rk), outer, width);
      var front, last := lefts[..k], lefts[k];
      FrontAndLast(lefts);
      NestedLoopCount(front, rights, lk, rk, outer, width, n, row);
      BindSnoc(front, last, f);
      OneLeftCount(last, row, rights, lk, rk, outer, width);
      SnocCount(NestedLoop(front, rights, lk, rk, outer, width), f(last), row);
      OneMore(front, last, row[..n], Continued(row[..n], row[n..], rights, lk, rk, outer, width));
    }
  }

  lemma OneMore(front: seq<Row>, last: Row, x: Row, ways: nat)
    ensures Times(multiset(front + [last])[x], ways) == Times(multiset(front)[x], ways) + if last == x then ways else 0
  {
    assert multiset(front + [last]) == multiset(front) + multiset{last};
  }

  /** Membership, said outright. */
  lemma NestedLoopMembers(lefts: seq<Row>, rights: seq<Row>, lk: nat, rk: nat, outer: bool, width: nat, n: nat,
      row: Row)
    requires n <= |row| && forall left :: left in lefts ==> |left| == n
    ensures row in NestedLoop(lefts, rights, lk, rk, outer, width) <==>
      && row[..n] in lefts
      && (|| (row[n..] in rights && Meets(KeyCell(row[..n], lk), KeyCell(row[n..], rk)))
          || (outer && Alone(row[..n], rights, lk, rk) && AllNull(row[n..], width)))
  {
    NestedLoopCount(lefts, rights, lk, rk, outer, width, n, row);
    ContinuedPositive(row[..n], row[n..], rights, lk, rk, outer, width);
  }

  lemma ContinuedPositive(left: Row, right: Row, rights: seq<Row>, lk: nat, rk: nat, outer: bool, width: nat)
    ensures Continued(left, right, rights, lk, rk, outer, width) != 0 <==>
      || (right in rights && Meets(KeyCell(left, lk), KeyCell(right, rk)))
      || (outer && Alone(left, rights, lk, rk) && AllNull(right, width))
  {
    if AllNull(right, width) { NullsMeetNothing(KeyCell(left, lk), right, width, rk); }
  }

  lemma NullsMeetNothing(v: Value, row: Row, width: nat, rk: nat)
    requires AllNull(row, width)
    ensures !Meets(v, KeyCell(row, rk))
  {}

  // ---- several joins ----

  /** The ways one join continues the first |columns| cells of a row by the next ones. */
  ghost function StepWays(db: Tables, columns: seq<string>, j: Join, snapshot: nat, row: Row): nat
    requires |columns| <= |row|
  {
    if j.table.name !in db then 0 else
    var t := db[j.table.name];
    var keys := JoinKeys(columns, Qualify(j.table.qualifier, t.columns), j.first, j.second);
    if keys.Err? then 0 else
    Continued(row[..|columns|], row[|columns|..], ScanRows(t, snapshot), keys.value.0, keys.value.1, j.outer,
      |t.columns|)
  }

  /** The columns after one more join. */
  function Widened(db: Tables, columns: seq<string>, j: Join): seq<string> {
    if j.table.name in db then columns + Qualify(j.table.qualifier, db[j.table.name].columns) else columns
  }

  lemma WidenedLonger(db: Tables, columns: seq<string>, j: Join)
    ensures |columns| <= |Widened(db, columns, j)|
  {}

  /** The ways to continue a row's leftmost part, join by join, to the whole of it. */
  ghost function Ways(db: Tables, columns: seq<string>, joins: seq<Join>, snapshot: nat, row: Row): nat
    requires |columns| <= |row|
    decreases |joins|
  {
    if joins == [] then (if |row| == |columns| then 1 else 0) else
    var more := Widened(db, columns, joins[0]);
    WidenedLonger(db, columns, joins[0]);
    if |row| < |more| then 0
    else Times(StepWays(db, columns, joins[0], snapshot, row[..|more|]), Ways(db, more, joins[1..], snapshot, row))
  }

  /** A joined row is as often in the join as its first part among the driving rows, times those ways. */
  lemma {:induction false} JoinCount(db: Tables, columns: seq<string>, rows: seq<Row>, joins: seq<Join>, snapshot: nat,
      row: Row)
    requires AllFit(db) && (forall r :: r in rows ==> |r| == |columns|) && |columns| <= |row|
    requires JoinAll(db, Relation(columns, rows), joins, snapshot).Ok?
    ensures multiset(JoinAll(db, Relation(columns, rows), joins, snapshot).value.rows)[row]
      == Times(multiset(rows)[row[..|columns|]], Ways(db, columns, joins, snapshot, row))
    decreases |joins|
  {
    if joins == [] {
      LastCount(columns, rows, row);
    } else {
      var more, next := Widened(db, columns, joins[0]), JoinOnce(db, Relation(columns, rows), joins[0], snapshot).value;
      JoinStepWide(db, columns, rows, joins[0], snapshot);
      if |more| <= |row| {
        var mid := row[..|more|];
        JoinCount(db, more, next.rows, joins[1..], snapshot, row);
        JoinStepCount(db, columns, rows, joins[0], snapshot, mid);
        assert mid[..|columns|] == row[..|columns|];
        TimesInTurn(multiset(rows)[row[..|columns|]], StepWays(db, columns, joins[0], snapshot, mid),
          Ways(db, more, joins[1..], snapshot, row));
      } else {
        TooShort(db, more, next.rows, joins[1..], snapshot, row);
      }
    }
  }

  lemma LastCount(columns: seq<string>, rows: seq<Row>, row: Row)
    requires (forall r :: r in rows ==> |r| == |columns|) && |columns| <= |row|
    ensures multiset(rows)[row] == Times(multiset(rows)[row[..|columns|]], if |row| == |columns| then 1 else 0)
  {
    if |row| == |columns| { WholePrefix(row); } else { assert row !in rows; }
  }

  lemma JoinStepWide(db: Tables, columns: seq<string>, rows: seq<Row>, j: Join, snapshot: nat)
    requires AllFit(db) && (forall r :: r in rows ==> |r| == |columns|)
    requires JoinOnce(db, Relation(columns, rows), j, snapshot).Ok?
    ensures var more, next := Widened(db, columns, j), JoinOnce(db, Relation(columns, rows), j, snapshot).value;
      |columns| <= |more| && next.columns == more && forall r :: r in next.rows ==> |r| == |more|
  {
    JoinOnceGrown(db, columns, rows, j, snapshot, []);
  }

  /** One join counts by the nested loop. */
  lemma JoinStepCount(db: Tables, columns: seq<string>, rows: seq<Row>, j: Join, snapshot: nat, mid: Row)
    requires (forall r :: r in rows ==> |r| == |columns|) && |columns| <= |mid|
    requires JoinOnce(db, Relation(columns, rows), j, snapshot).Ok?
    ensures multiset(JoinOnce(db, Relation(columns, rows), j, snapshot).value.rows)[mid]
      == Times(multiset(rows)[mid[..|columns|]], StepWays(db, columns, j, snapshot, mid))
  {
    var t := db[j.table.name];
    var keys := JoinKeys(columns, Qualify(j.table.qualifier, t.columns), j.first, j.second).value;
    NestedLoopCount(rows, ScanRows(t, snapshot), keys.0, keys.1, j.outer, |t.columns|, |columns|, mid);
  }

  lemma TooShort(db: Tables, columns: seq<string>, rows: seq<Row>, joins: seq<Join>, snapshot: nat, row: Row)
    requires AllFit(db) && (forall r :: r in rows ==> |r| == |columns|) && |row| < |columns|
    requires JoinAll(db, Relation(columns, rows), joins, snapshot).Ok?
    ensures multiset(JoinAll(db, Relation(columns, rows), joins, snapshot).value.rows)[row] == 0
  {
    JoinRowsGrown(db, columns, rows, joins, snapshot, []);
  }

  // ---- the rows of a table ----

  lemma {:induction false} ScanRowsSeen(rs: seq<Record>, at: nat)
    ensures |Bind(rs, r => VisibleRow(r, at))| == |AsOf(rs, at)|
    ensures forall k :: 0 <= k < |AsOf(rs, at)| ==> Bind(rs, r => VisibleRow(r, at))[k] == AsOf(rs, at)[k].row
    decreases |rs|
  {
    if rs != [] {
      var n := |rs| - 1;
      ScanRowsSeen(rs[..n], at);
      FrontAndLast(rs);
      BindSnoc(rs[..n], rs[n], r => VisibleRow(r, at));
    }
  }

  /** A scan gives the rows there at the moment, each once, in scan order; `list` has the index of each. */
  lemma ScanRowsExact(t: Table, at: nat) returns (list: seq<nat>)
    ensures Ascending(list) && |list| == |ScanRows(t, at)|
    ensures forall i: nat :: i in list <==>
      && i < |t.records| && t.records[i].env.inserted <= at
      && (t.records[i].env.deleted == 0 || at < t.records[i].env.deleted)
    ensures forall k :: 0 <= k < |list| ==> list[k] < |t.records| && ScanRows(t, at)[k] == t.records[list[k]].row
  {
    ScanRowsSeen(t.records, at);
    list := AsOfIsVisible(t.records, at);
  }

  // ---- the whole answer ----

  /** Every join finds its table and its two key columns. */
  predicate JoinsResolve(db: Tables, columns: seq<string>, joins: seq<Join>)
    decreases |joins|
  {
    joins == [] ||
    (&& joins[0].table.name in db
     && JoinKeys(columns, Qualify(joins[0].table.qualifier, db[joins[0].table.name].columns), joins[0].first,
                 joins[0].second).Ok?
     && JoinsResolve(db, Widened(db, columns, joins[0]), joins[1..]))
  }

  function JoinedNames(db: Tables, columns: seq<string>, joins: seq<Join>): seq<string>
    decreases |joins|
  {
    if joins == [] then columns else JoinedNames(db, Widened(db, columns, joins[0]), joins[1..])
  }

  lemma {:induction false} JoinAllResolves(db: Tables, columns: seq<string>, rows: seq<Row>, joins: seq<Join>,
      snapshot: nat)
    ensures JoinAll(db, Relation(columns, rows), joins, snapshot).Ok? <==> JoinsResolve(db, columns, joins)
    ensures JoinsResolve(db, columns, joins) ==>
      JoinAll(db, Relation(columns, rows), joins, snapshot).value.columns == JoinedNames(db, columns, joins)
    decreases |joins|
  {
    if joins != [] {
      var next := JoinOnce(db, Relation(columns, rows), joins[0], snapshot);
      if next.Ok? { JoinAllResolves(db, next.value.columns, next.value.rows, joins[1..], snapshot); }
    }
  }

  /** The filter is absent, or true of the row. */
  ghost predicate Kept(filter: Option<Predicate>, columns: seq<string>, row: Row) {
    filter.None? ||
    (|row| == |columns| && Resolves(columns, filter.value) && Meaning(filter.value, columns, row) == Yes)
  }

  /** A query is answered when its tables and columns resolve. */
  ghost predicate Answerable(db: Tables, source: Source, joins: seq<Join>, filter: Option<Predicate>) {
    source.name in db &&
    var columns := Qualify(source.qualifier, db[source.name].columns);
    && JoinsResolve(db, columns, joins)
    && (filter.Some? ==> Resolves(JoinedNames(db, columns, joins), filter.value))
  }

  /** How often a row is in the answer. */
  ghost function AnswerCount(db: Tables, source: Source, joins: seq<Join>, filter: Option<Predicate>, snapshot: nat,
      row: Row): nat
    requires source.name in db
  {
    var t := db[source.name];
    var columns := Qualify(source.qualifier, t.columns);
    if |row| < |columns| || !Kept(filter, JoinedNames(db, columns, joins), row) then 0
    else Times(multiset(ScanRows(t, snapshot))[row[..|columns|]], Ways(db, columns, joins, snapshot, row))
  }

  lemma {:induction false} FilteredCount(filter: Predicate, columns: seq<string>, rows: seq<Row>, row: Row)
    requires Resolves(columns, filter)
    ensures multiset(Filtered(filter, columns, rows))[row]
      == if |row| == |columns| && Meaning(filter, columns, row) == Yes then multiset(rows)[row] else 0
    decreases |rows|
  {
    if rows != [] {
      var n := |rows| - 1;
      FrontAndLast(rows);
      FilteredCount(filter, columns, rows[..n], row);
      BindSnoc(rows[..n], rows[n], x => Passing(filter, columns, x));
      if |rows[n]| == |columns| { CheckIsMeaning(filter, columns, rows[n]); }
      assert multiset(rows) == multiset(rows[..n]) + multiset{rows[n]};
      SnocCount(Filtered(filter, columns, rows[..n]), Passing(filter, columns, rows[n]), row);
    }
  }

  /** The reference answers exactly the answerable queries, with each row exactly as often as it should be. */
  lemma ReferenceCounts(db: Tables, source: Source, joins: seq<Join>, filter: Option<Predicate>, snapshot: nat)
    requires AllFit(db)
    ensures var r := Reference(db, source, joins, filter, snapshot);
      && (r.Ok? <==> Answerable(db, source, joins, filter))
      && (r.Ok? ==>
            && r.value.columns == JoinedNames(db, Qualify(source.qualifier, db[source.name].columns), joins)
            && forall row: Row :: multiset(r.value.rows)[row] == AnswerCount(db, source, joins, filter, snapshot, row))
  {
    if source.name in db {
      var t := db[source.name];
      var columns := Qualify(source.qualifier, t.columns);
      JoinAllResolves(db, columns, ScanRows(t, snapshot), joins, snapshot);
      if Answerable(db, source, joins, filter) {
        var joined := JoinAll(db, Relation(columns, ScanRows(t, snapshot)), joins, snapshot).value;
        ScanRowsWidth(t, snapshot);
        forall row: Row
          ensures multiset(Reference(db, source, joins, filter, snapshot).value.rows)[row]
            == AnswerCount(db, source, joins, filter, snapshot, row)
        {
          if |columns| <= |row| {
            JoinCount(db, columns, ScanRows(t, snapshot), joins, snapshot, row);
          } else {
            TooShort(db, columns, ScanRows(t, snapshot), joins, snapshot, row);
          }
          if filter.Some? { FilteredCount(filter.value, joined.columns, joined.rows, row); }
        }
      }
    }
  }
}
