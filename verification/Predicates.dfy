/** WHERE and CHECK predicates: column resolution and SQL three-valued logic (`check_result`). */
module Predicates {
  import opened Core
  import opened Values

  datatype Predicate =
    | And(left: Predicate, right: Predicate)
    | Or(left: Predicate, right: Predicate)
    | Compare(column: string, op: CompareOp, value: Value)
    | In(column: string, values: seq<Value>, negated: bool)
    | Between(column: string, low: Value, high: Value, negated: bool)
    | IsNull(column: string, negated: bool)

  // ---- column references ----

  predicate EndsWith(s: string, suffix: string) {
    |suffix| <= |s| && s[|s| - |suffix|..] == suffix
  }

  function ExactFrom(columns: seq<string>, name: string, from: nat): (r: seq<nat>)
    requires from <= |columns|
    ensures forall i :: i in r <==> from <= i < |columns| && columns[i] == name
    decreases |columns| - from
  {
    if from == |columns| then []
    else (if columns[from] == name then [from] else []) + ExactFrom(columns, name, from + 1)
  }

  function SuffixFrom(columns: seq<string>, suffix: string, from: nat): (r: seq<nat>)
    requires from <= |columns|
    ensures forall i :: i in r <==> from <= i < |columns| && EndsWith(columns[i], suffix)
    decreases |columns| - from
  {
    if from == |columns| then []
    else (if EndsWith(columns[from], suffix) then [from] else []) + SuffixFrom(columns, suffix, from + 1)
  }

  lemma {:induction false} NoExact(columns: seq<string>, name: string, from: nat)
    requires from <= |columns| && forall i :: from <= i < |columns| ==> columns[i] != name
    ensures ExactFrom(columns, name, from) == []
    decreases |columns| - from
  {
    if from < |columns| { NoExact(columns, name, from + 1); }
  }

  lemma {:induction false} NoSuffix(columns: seq<string>, suffix: string, from: nat)
    requires from <= |columns| && forall i :: from <= i < |columns| ==> !EndsWith(columns[i], suffix)
    ensures SuffixFrom(columns, suffix, from) == []
    decreases |columns| - from
  {
    if from < |columns| { NoSuffix(columns, suffix, from + 1); }
  }

  /** Qualified references need an exact match; bare ones may match one qualified suffix. */
  function ColumnMatches(columns: seq<string>, name: string): (r: seq<nat>)
    ensures forall i :: i in r ==> i < |columns|
  {
    var exact := ExactFrom(columns, name, 0);
    if exact != [] || '.' in name then exact else SuffixFrom(columns, "." + name, 0)
  }

  lemma {:induction false} FoundInOrder(columns: seq<string>, name: string, from: nat)
    requires from <= |columns|
    ensures Ascending(ExactFrom(columns, name, from)) && Ascending(SuffixFrom(columns, name, from))
    decreases |columns| - from
  {
    if from < |columns| {
      FoundInOrder(columns, name, from + 1);
      AscendingCons(from, ExactFrom(columns, name, from + 1));
      AscendingCons(from, SuffixFrom(columns, name, from + 1));
    }
  }

  lemma AscendingCons(k: nat, s: seq<nat>)
    requires Ascending(s) && forall i :: i in s ==> k < i
    ensures Ascending([k] + s)
  {
    var all := [k] + s;
    forall i, j | 0 <= i < j < |all| ensures all[i] < all[j] { assert s[j - 1] in s; }
  }

  /** A name refers to columns of that very name; a bare name no column has, to any qualified form of it. */
  predicate Refers(columns: seq<string>, name: string, i: nat) {
    && i < |columns|
    && if name in columns || '.' in name then columns[i] == name else EndsWith(columns[i], "." + name)
  }

  /** The positions of an exact name, else of a bare name's qualified forms; each once, in order. */
  lemma ColumnMatchesExact(columns: seq<string>, name: string)
    ensures Ascending(ColumnMatches(columns, name))
    ensures forall i :: i in ColumnMatches(columns, name) <==> Refers(columns, name, i)
  {
    var exact := ExactFrom(columns, name, 0);
    assert exact != [] ==> exact[0] in exact;
    if name in columns {
      var i: nat :| i < |columns| && columns[i] == name;
      assert i in exact;
    }
    FoundInOrder(columns, name, 0);
    FoundInOrder(columns, "." + name, 0);
  }

  /** `projection_col_pos`. */
  function ColumnPos(columns: seq<string>, name: string): (r: Result<nat>)
    ensures r.Ok? ==> r.value < |columns|
    ensures r.Err? ==> r.error == Schema
  {
    var found := ColumnMatches(columns, name);
    if |found| == 1 then
      assert found[0] in found;
      Ok(found[0])
    else Err(Schema)
  }

  predicate DistinctColumns(columns: seq<string>) {
    forall i, j :: 0 <= i < j < |columns| ==> columns[i] != columns[j]
  }

  lemma {:induction false} ExactIsSingle(columns: seq<string>, i: nat, from: nat)
    requires DistinctColumns(columns) && from <= i < |columns|
    ensures ExactFrom(columns, columns[i], from) == [i]
    decreases i - from
  {
    if from < i {
      ExactIsSingle(columns, i, from + 1);
    } else {
      NoExact(columns, columns[i], from + 1);
    }
  }

  /** With distinct columns an exact name always resolves to its own position. */
  lemma ExactNameResolves(columns: seq<string>, i: nat)
    requires DistinctColumns(columns) && i < |columns|
    ensures ColumnPos(columns, columns[i]) == Ok(i)
  {
    ExactIsSingle(columns, i, 0);
  }

  lemma FirstTwoDiffer(s: seq<nat>)
    requires Ascending(s) && |s| > 1
    ensures s[0] in s && s[1] in s && s[0] != s[1]
  {}

  lemma OnlyMember(s: seq<nat>, p: nat)
    requires Ascending(s) && p in s && forall i :: i in s ==> i == p
    ensures s == [p]
  {
    if |s| > 1 { FirstTwoDiffer(s); }
    assert s[0] in s;
  }

  /** The only column of a name is what the name means. */
  lemma UniqueNameResolves(columns: seq<string>, name: string, p: nat)
    requires p < |columns| && columns[p] == name && forall i :: 0 <= i < |columns| && columns[i] == name ==> i == p
    ensures ColumnPos(columns, name) == Ok(p)
  {
    ColumnMatchesExact(columns, name);
    assert Refers(columns, name, p) && name in columns;
    OnlyMember(ColumnMatches(columns, name), p);
  }

  /** And a dotted name means no other. */
  lemma DottedNameResolved(columns: seq<string>, name: string)
    requires '.' in name && ColumnPos(columns, name).Ok?
    ensures var p := ColumnPos(columns, name).value;
      columns[p] == name && forall i :: 0 <= i < |columns| && columns[i] == name ==> i == p
  {
    ColumnMatchesExact(columns, name);
    var p := ColumnPos(columns, name).value;
    assert ColumnMatches(columns, name) == [p];
    assert p in ColumnMatches(columns, name);
    forall i: nat | i < |columns| && columns[i] == name ensures i == p { assert Refers(columns, name, i); }
  }

  /** `check_predicate_columns` succeeds. */
  predicate Resolves(columns: seq<string>, pred: Predicate) {
    match pred
    case And(a, b) => Resolves(columns, a) && Resolves(columns, b)
    case Or(a, b) => Resolves(columns, a) && Resolves(columns, b)
    case _ => ColumnPos(columns, pred.column).Ok?
  }

  // ---- three-valued evaluation ----

  /** None is UNKNOWN. */
  function And3(a: Option<bool>, b: Option<bool>): Option<bool> {
    if a == Some(false) || b == Some(false) then Some(false)
    else if a == Some(true) && b == Some(true) then Some(true) else None
  }

  function Or3(a: Option<bool>, b: Option<bool>): Option<bool> {
    if a == Some(true) || b == Some(true) then Some(true)
    else if a == Some(false) && b == Some(false) then Some(false) else None
  }

  function CheckIn(cell: Value, values: seq<Value>, negated: bool): Option<bool> {
    if cell.Null? then None
    else if exists i :: 0 <= i < |values| && !values[i].Null? && ValuesEqual(cell, values[i]) then Some(!negated)
    else if Null in values then None
    else Some(negated)
  }

  function CheckBetween(cell: Value, low: Value, high: Value, negated: bool): Option<bool> {
    if cell.Null? || low.Null? || high.Null? then None
    else Some((NumericCmp(cell, low) != Before && NumericCmp(cell, high) != After) != negated)
  }

  function CheckCompare(cell: Value, op: CompareOp, value: Value): Option<bool> {
    if cell.Null? || value.Null? then None else Some(EvalCompare(cell, op, value))
  }

  /** `check_result` on a resolved predicate. */
  function Check(pred: Predicate, columns: seq<string>, row: Row): Option<bool>
    requires |row| == |columns| && Resolves(columns, pred)
  {
    match pred
    case And(a, b) => And3(Check(a, columns, row), Check(b, columns, row))
    case Or(a, b) => Or3(Check(a, columns, row), Check(b, columns, row))
    case Compare(c, op, v) => CheckCompare(row[ColumnPos(columns, c).value], op, v)
    case In(c, vs, negated) => CheckIn(row[ColumnPos(columns, c).value], vs, negated)
    case Between(c, low, high, negated) => CheckBetween(row[ColumnPos(columns, c).value], low, high, negated)
    case IsNull(c, negated) => Some(row[ColumnPos(columns, c).value].Null? != negated)
  }

  /** `row_matches`: WHERE discards UNKNOWN. */
  predicate RowMatches(pred: Predicate, columns: seq<string>, row: Row)
    requires |row| == |columns| && Resolves(columns, pred)
  {
    Check(pred, columns, row) == Some(true)
  }
}
