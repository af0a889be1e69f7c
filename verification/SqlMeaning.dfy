/** What SQL says of comparisons and predicates, apart from the evaluator, and that the evaluator says the same. */
module SqlMeaning {
  import opened Core
  import opened Values
  import opened Predicates
  import LikeMatch

  // ---- values ----

  predicate IsNumber(v: Value) { v.Int? || v.Decimal? }

  /** A number in millionths. */
  function Millionths(v: Value): int
    requires IsNumber(v)
  {
    if v.Int? then v.i * 1_000_000 else v.m
  }

  /** Equal quantities, or identical values of another type. */
  predicate SameValue(a: Value, b: Value) {
    if IsNumber(a) && IsNumber(b) then Millionths(a) == Millionths(b) else a == b
  }

  /** Dictionary order: the first difference decides, and a proper prefix comes first. */
  ghost predicate Precedes(x: seq<int>, y: seq<int>) {
    exists k: nat :: Decides(x, y, k)
  }

  /** Equal up to k, where x ends or has the smaller element. */
  ghost predicate Decides(x: seq<int>, y: seq<int>, k: nat) {
    k <= |x| && k < |y| && x[..k] == y[..k] && (k == |x| || x[k] < y[k])
  }

  /** NULL, numbers, texts, blobs. */
  function TypeOrder(v: Value): nat {
    if v.Null? then 0 else if IsNumber(v) then 1 else if v.Text? then 2 else 3
  }

  ghost predicate Below(a: Value, b: Value) {
    if IsNumber(a) && IsNumber(b) then Millionths(a) < Millionths(b)
    else if a.Text? && b.Text? then Precedes(Codes(a.s), Codes(b.s))
    else if a.Blob? && b.Blob? then Precedes(a.b, b.b)
    else TypeOrder(a) < TypeOrder(b)
  }

  lemma {:induction false} SeqLessIsDictionaryOrder(x: seq<int>, y: seq<int>)
    ensures SeqLess(x, y) <==> Precedes(x, y)
    decreases |x|
  {
    if x == [] || y == [] {
      if y != [] { assert Decides(x, y, 0); }
    } else if x[0] != y[0] {
      FirstDiffers(x, y);
    } else {
      SeqLessIsDictionaryOrder(x[1..], y[1..]);
      PrecedesTail(x, y);
    }
  }

  lemma FirstDiffers(x: seq<int>, y: seq<int>)
    requires x != [] && y != [] && x[0] != y[0]
    ensures Precedes(x, y) <==> x[0] < y[0]
  {
    assert forall k :: 0 < k <= |x| && k <= |y| ==> x[..k][0] == x[0] && y[..k][0] == y[0];
    if x[0] < y[0] { assert Decides(x, y, 0); }
  }

  lemma PrecedesTail(x: seq<int>, y: seq<int>)
    requires x != [] && y != [] && x[0] == y[0]
    ensures Precedes(x, y) <==> Precedes(x[1..], y[1..])
  {
    forall k: nat ensures Decides(x, y, k + 1) <==> Decides(x[1..], y[1..], k) {
      if k + 1 <= |x| && k + 1 <= |y| {
        assert x[..k + 1] == [x[0]] + x[1..][..k] && y[..k + 1] == [y[0]] + y[1..][..k];
        assert x[..k + 1][1..] == x[1..][..k] && y[..k + 1][1..] == y[1..][..k];
      }
    }
    if Precedes(x, y) {
      var k: nat :| Decides(x, y, k);
      assert k != 0;
      assert Decides(x[1..], y[1..], k - 1);
    }
    if Precedes(x[1..], y[1..]) {
      var k: nat :| Decides(x[1..], y[1..], k);
      assert Decides(x, y, k + 1);
    }
  }

  lemma EqualityMeans(a: Value, b: Value)
    ensures ValuesEqual(a, b) <==> SameValue(a, b)
    ensures JoinKey(a) == JoinKey(b) <==> SameValue(a, b)
  {}

  /** The derived order: NULL, integers, decimals, texts, blobs, each in its own order. */
  lemma LessMeans(a: Value, b: Value)
    ensures a.Int? && b.Int? ==> (Less(a, b) <==> a.i < b.i)
    ensures a.Decimal? && b.Decimal? ==> (Less(a, b) <==> a.m < b.m)
    ensures a.Int? && b.Decimal? ==> Less(a, b) && !Less(b, a)
    ensures !(IsNumber(a) && IsNumber(b)) ==> (Less(a, b) <==> Below(a, b))
  {
    if a.Text? && b.Text? { SeqLessIsDictionaryOrder(Codes(a.s), Codes(b.s)); }
    if a.Blob? && b.Blob? { SeqLessIsDictionaryOrder(a.b, b.b); }
  }

  /** Comparing across types: numbers by quantity, everything else by the derived order. */
  lemma NumericCmpMeans(a: Value, b: Value)
    ensures NumericCmp(a, b) == (if Below(a, b) then Before else if SameValue(a, b) then Same else After)
    ensures Below(b, a) <==> !Below(a, b) && !SameValue(a, b)
  {
    LessMeans(a, b);
    LessMeans(b, a);
    LessTotal(a, b);
  }

  // ---- predicates ----

  datatype Truth = No | Unknown | Yes

  function Degree(t: Truth): nat { if t.No? then 0 else if t.Unknown? then 1 else 2 }

  function Told(o: Option<bool>): Truth {
    if o.None? then Unknown else if o.value then Yes else No
  }

  function Decided(b: bool): Truth { if b then Yes else No }

  function Not(t: Truth): Truth { if t.Yes? then No else if t.No? then Yes else Unknown }

  /** LIKE of texts; a text with a `%` of its own is read by the matcher's rule. */
  ghost predicate LikeHolds(t: string, p: string) {
    if '%' in t then LikeMatch.Matches(t, p, 0, 0, None, 0) else LikeMatch.Like(t, p)
  }

  ghost predicate CompareHolds(a: Value, op: CompareOp, b: Value) {
    match op
    case Eq => SameValue(a, b)
    case Ne => !SameValue(a, b)
    case Lt => Below(a, b)
    case Le => Below(a, b) || SameValue(a, b)
    case Gt => Below(b, a)
    case Ge => Below(b, a) || SameValue(a, b)
    case Like => a.Text? && b.Text? && LikeHolds(a.s, b.s)
    case NotLike => a.Text? && b.Text? && !LikeHolds(a.s, b.s)
  }

  ghost function CompareMeans(a: Value, op: CompareOp, b: Value): Truth {
    if a.Null? || b.Null? then Unknown else Decided(CompareHolds(a, op, b))
  }

  /** Equal to a member, or possibly so because a member is unknown. */
  ghost function MemberMeans(cell: Value, values: seq<Value>): Truth {
    if cell.Null? then Unknown
    else if exists v :: v in values && !v.Null? && SameValue(cell, v) then Yes
    else if exists v :: v in values && v.Null? then Unknown
    else No
  }

  /** Within both bounds, and unknown when either bound is. */
  ghost function WithinMeans(cell: Value, low: Value, high: Value): Truth {
    if cell.Null? || low.Null? || high.Null? then Unknown
    else Decided(!Below(cell, low) && !Below(high, cell))
  }

  function Cell(columns: seq<string>, row: Row, c: string): Value
    requires |row| == |columns| && ColumnPos(columns, c).Ok?
  {
    row[ColumnPos(columns, c).value]
  }

  /** AND is the lesser of No, Unknown, Yes; OR the greater; NOT turns them round. */
  ghost function Meaning(pred: Predicate, columns: seq<string>, row: Row): Truth
    requires |row| == |columns| && Resolves(columns, pred)
  {
    match pred
    case And(a, b) =>
      var x, y := Meaning(a, columns, row), Meaning(b, columns, row);
      if Degree(x) <= Degree(y) then x else y
    case Or(a, b) =>
      var x, y := Meaning(a, columns, row), Meaning(b, columns, row);
      if Degree(x) >= Degree(y) then x else y
    case Compare(c, op, v) => CompareMeans(Cell(columns, row, c), op, v)
    case In(c, vs, negated) =>
      var t := MemberMeans(Cell(columns, row, c), vs);
      if negated then Not(t) else t
    case Between(c, low, high, negated) =>
      var t := WithinMeans(Cell(columns, row, c), low, high);
      if negated then Not(t) else t
    case IsNull(c, negated) => Decided(if negated then !Cell(columns, row, c).Null? else Cell(columns, row, c).Null?)
  }

  lemma CompareIsMeant(a: Value, op: CompareOp, b: Value)
    ensures Told(CheckCompare(a, op, b)) == CompareMeans(a, op, b)
  {
    EqualityMeans(a, b);
    NumericCmpMeans(a, b);
    if a.Text? && b.Text? && '%' !in a.s { LikeMatch.MatcherIsLike(a.s, b.s); }
  }

  lemma MemberIsMeant(cell: Value, values: seq<Value>, negated: bool)
    ensures Told(CheckIn(cell, values, negated))
      == if negated then Not(MemberMeans(cell, values)) else MemberMeans(cell, values)
  {
    forall v ensures ValuesEqual(cell, v) <==> SameValue(cell, v) { EqualityMeans(cell, v); }
    if exists v :: v in values && !v.Null? && SameValue(cell, v) {
      var v :| v in values && !v.Null? && SameValue(cell, v);
      var i :| 0 <= i < |values| && values[i] == v;
      assert ValuesEqual(cell, values[i]);
    }
  }

  lemma WithinIsMeant(cell: Value, low: Value, high: Value, negated: bool)
    ensures Told(CheckBetween(cell, low, high, negated))
      == if negated then Not(WithinMeans(cell, low, high)) else WithinMeans(cell, low, high)
  {
    NumericCmpMeans(cell, low);
    NumericCmpMeans(cell, high);
    NumericCmpMeans(high, cell);
  }

  /** `check_result` gives every predicate its meaning, and `row_matches` keeps the rows of which it is true. */
  lemma {:induction false} CheckIsMeaning(pred: Predicate, columns: seq<string>, row: Row)
    requires |row| == |columns| && Resolves(columns, pred)
    ensures Told(Check(pred, columns, row)) == Meaning(pred, columns, row)
    ensures RowMatches(pred, columns, row) <==> Meaning(pred, columns, row) == Yes
  {
    match pred
    case And(a, b) =>
      CheckIsMeaning(a, columns, row);
      CheckIsMeaning(b, columns, row);
    case Or(a, b) =>
      CheckIsMeaning(a, columns, row);
      CheckIsMeaning(b, columns, row);
    case Compare(c, op, v) => CompareIsMeant(Cell(columns, row, c), op, v);
    case In(c, vs, negated) => MemberIsMeant(Cell(columns, row, c), vs, negated);
    case Between(c, low, high, negated) => WithinIsMeant(Cell(columns, row, c), low, high, negated);
    case IsNull(_, _) =>
  }

  /** LIKE and NOT LIKE on a text without `%`. */
  lemma LikeIsMeant(c: string, t: string, p: string, columns: seq<string>, row: Row)
    requires |row| == |columns| && ColumnPos(columns, c).Ok? && row[ColumnPos(columns, c).value] == Text(t) && '%' !in t
    ensures RowMatches(Compare(c, Like, Text(p)), columns, row) <==> LikeMatch.Like(t, p)
    ensures RowMatches(Compare(c, NotLike, Text(p)), columns, row) <==> !LikeMatch.Like(t, p)
  {
    CheckIsMeaning(Compare(c, Like, Text(p)), columns, row);
    CheckIsMeaning(Compare(c, NotLike, Text(p)), columns, row);
  }

  // ---- references ----

  /** The columns a predicate mentions. */
  function Mentions(pred: Predicate): set<string> {
    match pred
    case And(a, b) => Mentions(a) + Mentions(b)
    case Or(a, b) => Mentions(a) + Mentions(b)
    case _ => {pred.column}
  }

  /** `check_predicate_columns` accepts exactly when every mentioned column means one position. */
  lemma {:induction false} ResolvesMeans(pred: Predicate, columns: seq<string>)
    ensures Resolves(columns, pred) <==> forall c :: c in Mentions(pred) ==> ColumnPos(columns, c).Ok?
  {
    match pred
    case And(a, b) =>
      ResolvesMeans(a, columns);
      ResolvesMeans(b, columns);
    case Or(a, b) =>
      ResolvesMeans(a, columns);
      ResolvesMeans(b, columns);
    case _ =>
  }

  // ---- BETWEEN with an unknown bound ----

  /** SQL's own reading (section 8.3 of ISO/IEC 9075-2:2003): the conjunction of two comparisons. */
  ghost function BetweenByTwo(cell: Value, low: Value, high: Value): Truth {
    var x, y := CompareMeans(cell, Ge, low), CompareMeans(cell, Le, high);
    if Degree(x) <= Degree(y) then x else y
  }

  /**
   The evaluator agrees with it exactly unless one bound is NULL and the comparison with the other is false:
   then SQL says false, and true of NOT BETWEEN, where the evaluator says unknown.
   */
  lemma BetweenAgreesIff(cell: Value, low: Value, high: Value)
    ensures Told(CheckBetween(cell, low, high, false)) == BetweenByTwo(cell, low, high) <==>
      || cell.Null? || (!low.Null? && !high.Null?) || (low.Null? && high.Null?)
      || (low.Null? && !Below(high, cell)) || (high.Null? && !Below(cell, low))
  {
    WithinIsMeant(cell, low, high, false);
    NumericCmpMeans(cell, low);
    NumericCmpMeans(cell, high);
  }
}
