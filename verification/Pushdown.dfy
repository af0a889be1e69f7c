/** Pushing a join's WHERE clause down to its driving relation (`source_predicate`). */
module Pushdown {
  import opened Core
  import opened Values
  import opened Predicates

  predicate StartsWith(s: string, prefix: string) {
    |prefix| <= |s| && s[..|prefix|] == prefix
  }

  lemma PrefixAndDot(name: string, q: string)
    ensures StartsWith(name, q + ".") <==> StartsWith(name, q) && StartsWith(name[|q|..], ".")
  {
    if |q| < |name| {
      assert name[..|q| + 1] == name[..|q|] + [name[|q|]];
      assert name[|q|..][..1] == [name[|q|]];
      assert (q + ".")[..|q|] == q && (q + ".")[|q|] == '.';
    }
  }

  /** The bare column of a reference qualified by `q`. */
  function Strip(name: string, q: string): (r: Option<string>)
    ensures r.Some? <==> StartsWith(name, q + ".")
    ensures r.Some? ==> name == q + "." + r.value
  {
    PrefixAndDot(name, q);
    if StartsWith(name, q) && StartsWith(name[|q|..], ".") then
      assert name == name[..|q| + 1] + name[|q| + 1..];
      Some(name[|q| + 1..])
    else None
  }

  function SourcePredicate(pred: Predicate, q: string): Option<Predicate> {
    match pred
    case And(a, b) => (
      match (SourcePredicate(a, q), SourcePredicate(b, q))
      case (Some(x), Some(y)) => Some(And(x, y))
      case (Some(x), None) => Some(x)
      case (None, Some(y)) => Some(y)
      case (None, None) => None)
    case Or(a, b) => (
      match (SourcePredicate(a, q), SourcePredicate(b, q))
      case (Some(x), Some(y)) => Some(Or(x, y))
      case _ => None)
    case Compare(name, op, value) =>
      var c := Strip(name, q);
      if c.None? then None else Some(Compare(c.value, op, value))
    case In(name, values, negated) =>
      var c := Strip(name, q);
      if c.None? then None else Some(In(c.value, values, negated))
    case Between(name, low, high, negated) =>
      var c := Strip(name, q);
      if c.None? then None else Some(Between(c.value, low, high, negated))
    case IsNull(name, negated) =>
      var c := Strip(name, q);
      if c.None? then None else Some(IsNull(c.value, negated))
  }

  /** Column names as a join exposes them. */
  function Qualify(q: string, columns: seq<string>): (r: seq<string>)
    ensures |r| == |columns| && forall i :: 0 <= i < |r| ==> r[i] == q + "." + columns[i]
  {
    seq(|columns|, i requires 0 <= i < |columns| => q + "." + columns[i])
  }

  /** No later column reads as a column of the driving relation. */
  predicate NoShadow(q: string, later: seq<string>) {
    forall i :: 0 <= i < |later| ==> !StartsWith(later[i], q + ".")
  }

  /** Only equal or dotted qualifiers can shadow one another. */
  lemma ShadowNeedsDot(q: string, other: string, column: string)
    requires StartsWith(other + "." + column, q + ".")
    ensures q == other || '.' in q || '.' in other
  {
    var name := other + "." + column;
    assert name[|q|] == '.' && name[|other|] == '.';
    if |q| < |other| {
      assert name[|q|] == other[|q|];
    } else if |other| < |q| {
      assert name[|other|] == (q + ".")[|other|] == q[|other|];
    } else {
      assert q == name[..|q|] == other;
    }
  }

  lemma SameColumn(q: string, a: string, b: string)
    ensures q + "." + a == q + "." + b <==> a == b
  {
    assert (q + "." + a)[|q| + 1..] == a && (q + "." + b)[|q| + 1..] == b;
  }

  /** A reference that finds its column in the driving relation meant that column all along. */
  lemma QualifiedPosition(q: string, source: seq<string>, later: seq<string>, c: string)
    requires ColumnPos(Qualify(q, source) + later, q + "." + c).Ok?
    ensures var columns := Qualify(q, source) + later;
      var p := ColumnPos(columns, q + "." + c).value;
      && columns[p] == q + "." + c
      && (p < |source| ==> ColumnPos(source, c) == Ok(p))
  {
    var columns, name := Qualify(q, source) + later, q + "." + c;
    assert name[|q|] == '.';
    DottedNameResolved(columns, name);
    var p := ColumnPos(columns, name).value;
    if p < |source| {
      assert columns[p] == q + "." + source[p];
      SameColumn(q, source[p], c);
      forall i | 0 <= i < |source| && source[i] == c ensures i == p { assert columns[i] == name; }
      UniqueNameResolves(source, c, p);
    }
  }

  // ---- what the pushed part may assume of a joined row ----

  /** Every reference to the driving relation that has a meaning after the join has one before it. */
  ghost predicate KnownBefore(q: string, source: seq<string>, columns: seq<string>) {
    forall c {:trigger ColumnPos(source, c)} ::
      ColumnPos(columns, q + "." + c).Ok? ==> ColumnPos(source, c).Ok?
  }

  /** And it reads an SQL-equal cell there. */
  ghost predicate ReadsAlike(q: string, source: seq<string>, columns: seq<string>, row: Row)
    requires |source| <= |columns| == |row|
  {
    forall c {:trigger ColumnPos(source, c)} ::
      ColumnPos(columns, q + "." + c).Ok? && ColumnPos(source, c).Ok? ==>
        ValuesEqual(row[ColumnPos(source, c).value], row[ColumnPos(columns, q + "." + c).value])
  }

  /** No comparison, membership, range or NULL test tells SQL-equal cells apart. */
  lemma EqualCellsCheckAlike(a: Value, b: Value)
    requires ValuesEqual(a, b)
    ensures forall op, v {:trigger CheckCompare(a, op, v)} :: CheckCompare(a, op, v) == CheckCompare(b, op, v)
    ensures forall vs, n {:trigger CheckIn(a, vs, n)} :: CheckIn(a, vs, n) == CheckIn(b, vs, n)
    ensures forall x, y, n {:trigger CheckBetween(a, x, y, n)} :: CheckBetween(a, x, y, n) == CheckBetween(b, x, y, n)
    ensures a.Null? <==> b.Null?
  {
    forall v ensures ValuesEqual(a, v) == ValuesEqual(b, v) && (!v.Null? ==> NumericCmp(a, v) == NumericCmp(b, v)) {}
  }

  lemma {:induction false} PushedResolves(pred: Predicate, q: string, source: seq<string>, columns: seq<string>)
    requires KnownBefore(q, source, columns) && Resolves(columns, pred) && SourcePredicate(pred, q).Some?
    ensures Resolves(source, SourcePredicate(pred, q).value)
  {
    match pred
    case And(a, b) =>
      if SourcePredicate(a, q).Some? { PushedResolves(a, q, source, columns); }
      if SourcePredicate(b, q).Some? { PushedResolves(b, q, source, columns); }
    case Or(a, b) =>
      PushedResolves(a, q, source, columns);
      PushedResolves(b, q, source, columns);
    case _ =>
      var c := Strip(pred.column, q).value;
      assert ColumnPos(columns, q + "." + c).Ok? ==> ColumnPos(source, c).Ok?;
  }

  /** Whatever row a source row grows into, the whole filter can only hold if the pushed one did. */
  lemma {:induction false} PushedIsImplied(pred: Predicate, q: string, source: seq<string>, columns: seq<string>,
      row: Row)
    requires |source| <= |columns| == |row| && KnownBefore(q, source, columns) && ReadsAlike(q, source, columns, row)
    requires Resolves(columns, pred) && SourcePredicate(pred, q).Some? && RowMatches(pred, columns, row)
    ensures Resolves(source, SourcePredicate(pred, q).value)
    ensures RowMatches(SourcePredicate(pred, q).value, source, row[..|source|])
  {
    match pred
    case And(a, b) =>
      if SourcePredicate(a, q).Some? { PushedIsImplied(a, q, source, columns, row); }
      if SourcePredicate(b, q).Some? { PushedIsImplied(b, q, source, columns, row); }
    case Or(a, b) =>
      PushedResolves(a, q, source, columns);
      PushedResolves(b, q, source, columns);
      if RowMatches(a, columns, row) { PushedIsImplied(a, q, source, columns, row); }
      if RowMatches(b, columns, row) { PushedIsImplied(b, q, source, columns, row); }
    case _ =>
      PushedLeaf(pred, q, source, columns, row);
  }

  lemma PushedLeaf(pred: Predicate, q: string, source: seq<string>, columns: seq<string>, row: Row)
    requires |source| <= |columns| == |row| && KnownBefore(q, source, columns) && ReadsAlike(q, source, columns, row)
    requires !pred.And? && !pred.Or? && Resolves(columns, pred) && SourcePredicate(pred, q).Some?
    ensures Resolves(source, SourcePredicate(pred, q).value)
    ensures Check(SourcePredicate(pred, q).value, source, row[..|source|]) == Check(pred, columns, row)
  {
    var c := Strip(pred.column, q).value;
    assert ColumnPos(columns, q + "." + c).Ok? ==> ColumnPos(source, c).Ok?;
    var j, p := ColumnPos(source, c).value, ColumnPos(columns, pred.column).value;
    assert row[..|source|][j] == row[j];
    EqualCellsCheckAlike(row[j], row[p]);
  }

  // ---- a later column that takes a reference away from the driving relation ----

  /** The bare name under which the driving relation is asked for a later column. */
  predicate Shadows(q: string, source: seq<string>, columns: seq<string>, k: nat) {
    |source| <= k < |columns| && StartsWith(columns[k], q + ".") && ColumnPos(columns, columns[k]) == Ok(k)
  }

  /** The pushed reference finds no column, or a cell that is not SQL-equal to the one meant. */
  predicate Misread(q: string, source: seq<string>, columns: seq<string>, rows: seq<Row>, k: nat) {
    Shadows(q, source, columns, k) &&
    var j := ColumnPos(source, Strip(columns[k], q).value);
    j.Err? || exists row :: row in rows && |row| == |columns| && !ValuesEqual(row[j.value], row[k])
  }

  /** Where no later column is misread, the pushed part may be trusted on every row. */
  lemma NothingMisread(q: string, source: seq<string>, later: seq<string>, rows: seq<Row>)
    requires forall row :: row in rows ==> |row| == |source| + |later|
    requires forall k: nat :: !Misread(q, source, Qualify(q, source) + later, rows, k)
    ensures var columns := Qualify(q, source) + later;
      KnownBefore(q, source, columns) && forall row :: row in rows ==> ReadsAlike(q, source, columns, row)
  {
    var columns := Qualify(q, source) + later;
    forall c | ColumnPos(columns, q + "." + c).Ok?
      ensures ColumnPos(source, c).Ok?
      ensures forall row :: row in rows ==>
        ValuesEqual(row[ColumnPos(source, c).value], row[ColumnPos(columns, q + "." + c).value])
    {
      QualifiedPosition(q, source, later, c);
      var p := ColumnPos(columns, q + "." + c).value;
      if p >= |source| {
        PrefixOf(q, c);
        assert !Misread(q, source, columns, rows, p);
      }
    }
  }

  lemma PrefixOf(q: string, c: string)
    ensures StartsWith(q + "." + c, q + ".") && Strip(q + "." + c, q) == Some(c)
  {
    assert (q + "." + c)[..|q + "."|] == q + ".";
    SameColumn(q, c, Strip(q + "." + c, q).value);
  }

  /** The test that holds of exactly the cells SQL-equal to the given one. */
  function Pinned(name: string, v: Value): Predicate {
    if v.Null? then IsNull(name, false) else Compare(name, Eq, v)
  }

  lemma PinnedMatches(name: string, v: Value, columns: seq<string>, row: Row)
    requires |row| == |columns| && ColumnPos(columns, name).Ok?
    ensures RowMatches(Pinned(name, v), columns, row) <==> ValuesEqual(row[ColumnPos(columns, name).value], v)
  {}

  lemma PinnedPushed(q: string, name: string, v: Value)
    requires StartsWith(name, q + ".")
    ensures SourcePredicate(Pinned(name, v), q) == Some(Pinned(Strip(name, q).value, v))
  {}

  /** A source column without a dot cannot stand in for a shadowing one. */
  lemma ShadowUnknownBefore(q: string, source: seq<string>, later: seq<string>, k: nat)
    requires Shadows(q, source, Qualify(q, source) + later, k)
    requires forall i :: 0 <= i < |source| ==> '.' !in source[i]
    ensures ColumnPos(source, Strip((Qualify(q, source) + later)[k], q).value).Err?
  {
    var columns := Qualify(q, source) + later;
    var c := Strip(columns[k], q).value;
    assert columns[k][|q|] == '.';
    DottedNameResolved(columns, columns[k]);
    forall i | 0 <= i < |source| ensures source[i] != c && !EndsWith(source[i], "." + c) {
      assert columns[i] == q + "." + source[i];
      if EndsWith(source[i], "." + c) { SuffixHasDot(source[i], c); }
    }
    NoExact(source, c, 0);
    NoSuffix(source, "." + c, 0);
  }

  lemma SuffixHasDot(s: string, c: string)
    requires EndsWith(s, "." + c)
    ensures '.' in s
  {
    assert s[|s| - |c| - 1] == s[|s| - |c| - 1..][0] == '.';
  }
}
