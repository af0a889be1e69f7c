/** Index ranges derived from comparisons (`intersect_range`, `comparison_ranges`). */
module IndexRanges {
  import opened Core
  import opened Values

  datatype Bound = Included(v: Value) | Excluded(v: Value) | Unbounded

  datatype Range = Range(lo: Bound, hi: Bound)

  predicate Above(x: Value, lo: Bound) {
    match lo
    case Unbounded => true
    case Included(v) => !Less(x, v)
    case Excluded(v) => Less(v, x)
  }

  predicate Below(x: Value, hi: Bound) {
    match hi
    case Unbounded => true
    case Included(v) => !Less(v, x)
    case Excluded(v) => Less(x, v)
  }

  predicate InRange(x: Value, r: Range) {
    Above(x, r.lo) && Below(x, r.hi)
  }

  /** What an ordered map accepts as a range without panicking. */
  predicate Proper(r: Range) {
    r.lo.Unbounded? || r.hi.Unbounded?
    || Less(r.lo.v, r.hi.v) || (r.lo.v == r.hi.v && r.lo.Included? && r.hi.Included?)
  }

  function Lower(a: Bound, b: Bound): Bound {
    if a.Unbounded? then b
    else if b.Unbounded? then a
    else if Less(b.v, a.v) then a
    else if Less(a.v, b.v) then b
    else if a.Excluded? then a else b
  }

  function Upper(a: Bound, b: Bound): Bound {
    if a.Unbounded? then b
    else if b.Unbounded? then a
    else if Less(a.v, b.v) then a
    else if Less(b.v, a.v) then b
    else if a.Excluded? then a else b
  }

  function IntersectRange(a: Range, b: Range): Option<Range> {
    var r := Range(Lower(a.lo, b.lo), Upper(a.hi, b.hi));
    if !r.lo.Unbounded? && !r.hi.Unbounded?
       && (Less(r.hi.v, r.lo.v) || (r.lo.v == r.hi.v && (r.lo.Excluded? || r.hi.Excluded?)))
    then None else Some(r)
  }

  lemma LowerExact(x: Value, a: Bound, b: Bound)
    ensures Above(x, Lower(a, b)) <==> Above(x, a) && Above(x, b)
  {
    if !a.Unbounded? && !b.Unbounded? {
      LessTotal(a.v, b.v);
      LessTotal(x, a.v);
      LessTotal(x, b.v);
      OrderOfThree(a.v, b.v, x);
      OrderOfThree(b.v, a.v, x);
    }
  }

  lemma UpperExact(x: Value, a: Bound, b: Bound)
    ensures Below(x, Upper(a, b)) <==> Below(x, a) && Below(x, b)
  {
    if !a.Unbounded? && !b.Unbounded? {
      LessTotal(a.v, b.v);
      LessTotal(x, a.v);
      LessTotal(x, b.v);
      OrderOfThree(x, a.v, b.v);
      OrderOfThree(x, b.v, a.v);
    }
  }

  lemma OrderOfThree(a: Value, b: Value, c: Value)
    ensures Less(a, b) && Less(b, c) ==> Less(a, c)
  {
    if Less(a, b) && Less(b, c) { LessTransitive(a, b, c); }
  }

  /** The intersection holds exactly the common values, and is None exactly when it must be. */
  lemma IntersectExact(a: Range, b: Range, x: Value)
    ensures InRange(x, a) && InRange(x, b)
      <==> IntersectRange(a, b).Some? && InRange(x, IntersectRange(a, b).value)
    ensures IntersectRange(a, b).Some? ==> Proper(IntersectRange(a, b).value)
  {
    LowerExact(x, a.lo, b.lo);
    UpperExact(x, a.hi, b.hi);
    var lo, hi := Lower(a.lo, b.lo), Upper(a.hi, b.hi);
    if !lo.Unbounded? && !hi.Unbounded? {
      LessTotal(lo.v, hi.v);
      LessTotal(x, lo.v);
      LessTotal(x, hi.v);
      OrderOfThree(lo.v, x, hi.v);
      OrderOfThree(x, hi.v, lo.v);
    }
  }

  // ---- ranges of a comparison ----

  function RawRange(op: CompareOp, v: Value): Option<Range> {
    match op
    case Eq => Some(Range(Included(v), Included(v)))
    case Lt => Some(Range(Unbounded, Excluded(v)))
    case Le => Some(Range(Unbounded, Included(v)))
    case Gt => Some(Range(Excluded(v), Unbounded))
    case Ge => Some(Range(Included(v), Unbounded))
    case _ => None
  }

  function ToSeq<T>(o: Option<T>): seq<T> {
    if o.None? then [] else [o.value]
  }

  function Min(a: int, b: int): int { if a < b then a else b }
  function Max(a: int, b: int): int { if a < b then b else a }

  /** The integers a numeric comparison selects, rounded outward from the mantissa n. */
  function IntegerRanges(op: CompareOp, n: i128): seq<Range> {
    var floor, rem := n / DECIMAL_DEN, n % DECIMAL_DEN;
    var ints := match op
      case Eq => if rem == 0 && I64_MIN <= floor <= I64_MAX then Some((floor, floor)) else None
      case Lt => Some((I64_MIN, if rem == 0 then floor - 1 else floor))
      case Le => Some((I64_MIN, floor))
      case Gt => Some((floor + 1, I64_MAX))
      case Ge => Some((if rem != 0 then floor + 1 else floor, I64_MAX))
      case _ => None;
    if ints.None? then [] else
    var lo, hi := Max(ints.value.0, I64_MIN), Min(ints.value.1, I64_MAX);
    if lo <= hi then [Range(Included(Int(lo)), Included(Int(hi)))] else []
  }

  function DecimalRanges(op: CompareOp, n: i128): seq<Range> {
    var raw := RawRange(op, Decimal(n));
    if raw.None? then [] else
    ToSeq(IntersectRange(raw.value, Range(Included(Decimal(I128_MIN)), Included(Decimal(I128_MAX)))))
  }

  function OtherRanges(op: CompareOp): seq<Range> {
    if op.Gt? || op.Ge? then [Range(Excluded(Decimal(I128_MAX)), Unbounded)] else []
  }

  function NumericRanges(op: CompareOp, n: i128): seq<Range> {
    IntegerRanges(op, n) + DecimalRanges(op, n) + OtherRanges(op)
  }

  /** `comparison_ranges`: None when the operator has no range form. */
  function ComparisonRanges(op: CompareOp, v: Value): Option<seq<Range>> {
    if RawRange(op, v).None? then None else
    match v
    case Null => Some([])
    case Int(i) => Some(NumericRanges(op, PromoteInt(i)))
    case Decimal(m) => Some(NumericRanges(op, m))
    case _ => Some(ToSeq(IntersectRange(RawRange(op, v).value, Range(Excluded(Null), Unbounded))))
  }

  ghost predicate Inside(x: Value, rs: seq<Range>) {
    exists i :: 0 <= i < |rs| && InRange(x, rs[i])
  }

  ghost predicate Disjoint(rs: seq<Range>) {
    forall x, i, j {:trigger InRange(x, rs[i]), InRange(x, rs[j])} ::
      0 <= i < j < |rs| ==> !(InRange(x, rs[i]) && InRange(x, rs[j]))
  }

  predicate AllProper(rs: seq<Range>) {
    forall i :: 0 <= i < |rs| ==> Proper(rs[i])
  }

  /** The value n stands for, compared with a cell as SQL compares them. */
  predicate Selects(op: CompareOp, n: i128, x: Value) {
    EvalCompare(x, op, Decimal(n))
  }

  lemma IntegerPart(op: CompareOp, n: i128, x: Value)
    requires RawRange(op, Null).Some?
    ensures |IntegerRanges(op, n)| <= 1 && AllProper(IntegerRanges(op, n))
    ensures Inside(x, IntegerRanges(op, n)) <==> x.Int? && Selects(op, n, x)
  {
    var rs := IntegerRanges(op, n);
    if rs != [] {
      assert Inside(x, rs) <==> InRange(x, rs[0]);
    }
  }

  lemma DecimalPart(op: CompareOp, n: i128, x: Value)
    requires RawRange(op, Null).Some?
    ensures |DecimalRanges(op, n)| <= 1 && AllProper(DecimalRanges(op, n))
    ensures Inside(x, DecimalRanges(op, n)) <==> x.Decimal? && Selects(op, n, x)
  {
    var raw, all := RawRange(op, Decimal(n)).value, Range(Included(Decimal(I128_MIN)), Included(Decimal(I128_MAX)));
    IntersectExact(raw, all, x);
    var rs := DecimalRanges(op, n);
    if rs != [] {
      assert Inside(x, rs) <==> InRange(x, rs[0]);
    }
  }

  lemma OtherPart(op: CompareOp, n: i128, x: Value)
    requires RawRange(op, Null).Some?
    ensures |OtherRanges(op)| <= 1 && AllProper(OtherRanges(op))
    ensures Inside(x, OtherRanges(op)) <==> (x.Text? || x.Blob?) && Selects(op, n, x)
  {
    var rs := OtherRanges(op);
    if rs != [] {
      assert Inside(x, rs) <==> InRange(x, rs[0]);
    }
  }

  lemma InsideConcat(x: Value, a: seq<Range>, b: seq<Range>)
    ensures Inside(x, a + b) <==> Inside(x, a) || Inside(x, b)
  {
    if Inside(x, a) {
      var i :| 0 <= i < |a| && InRange(x, a[i]);
      assert InRange(x, (a + b)[i]);
    }
    if Inside(x, b) {
      var i :| 0 <= i < |b| && InRange(x, b[i]);
      assert InRange(x, (a + b)[|a| + i]);
    }
  }

  lemma DisjointConcat(a: seq<Range>, b: seq<Range>)
    requires Disjoint(a) && Disjoint(b)
    requires forall x :: !(Inside(x, a) && Inside(x, b))
    ensures Disjoint(a + b)
  {
    var ab := a + b;
    forall x, i, j {:trigger InRange(x, ab[i]), InRange(x, ab[j])} | 0 <= i < j < |ab|
      ensures !(InRange(x, ab[i]) && InRange(x, ab[j]))
    {
      if j < |a| {
        assert ab[i] == a[i] && ab[j] == a[j];
      } else if i >= |a| {
        assert ab[i] == b[i - |a|] && ab[j] == b[j - |a|];
      } else {
        assert ab[i] == a[i] && ab[j] == b[j - |a|];
        assert !(Inside(x, a) && Inside(x, b));
      }
    }
  }

  lemma NumericExact(op: CompareOp, n: i128, x: Value)
    requires RawRange(op, Null).Some?
    ensures Inside(x, NumericRanges(op, n)) <==> Selects(op, n, x)
    ensures Disjoint(NumericRanges(op, n)) && AllProper(NumericRanges(op, n))
  {
    var a, b, c := IntegerRanges(op, n), DecimalRanges(op, n), OtherRanges(op);
    IntegerPart(op, n, x);
    DecimalPart(op, n, x);
    OtherPart(op, n, x);
    InsideConcat(x, a, b);
    InsideConcat(x, a + b, c);
    forall y ensures !(Inside(y, a) && Inside(y, b)) && !(Inside(y, a + b) && Inside(y, c)) {
      IntegerPart(op, n, y);
      DecimalPart(op, n, y);
      OtherPart(op, n, y);
      InsideConcat(y, a, b);
    }
    DisjointConcat(a, b);
    DisjointConcat(a + b, c);
  }

  /** An Int comparand selects what its promoted mantissa selects. */
  lemma PromotionSelects(op: CompareOp, i: i64, x: Value)
    requires RawRange(op, Null).Some?
    ensures EvalCompare(x, op, Int(i)) == Selects(op, PromoteInt(i), x)
  {}

  /**
   The derived ranges are exact: a cell lies in one of them, and then in only one, exactly when the
   comparison is true; and none of them would make the ordered map panic.
   */
  lemma ComparisonRangesExact(op: CompareOp, v: Value, x: Value)
    ensures ComparisonRanges(op, v).None? <==> op.Ne? || op.Like? || op.NotLike?
    ensures ComparisonRanges(op, v).Some? ==>
      var rs := ComparisonRanges(op, v).value;
      && (Inside(x, rs) <==> EvalCompare(x, op, v))
      && Disjoint(rs) && AllProper(rs)
  {
    if RawRange(op, v).Some? {
      match v
      case Null =>
      case Int(i) =>
        NumericExact(op, PromoteInt(i), x);
        PromotionSelects(op, i, x);
      case Decimal(m) =>
        NumericExact(op, m, x);
      case _ =>
        TextualExact(op, v, x);
    }
  }

  lemma TextualExact(op: CompareOp, v: Value, x: Value)
    requires (v.Text? || v.Blob?) && RawRange(op, v).Some?
    ensures var rs := ComparisonRanges(op, v).value;
      && (Inside(x, rs) <==> EvalCompare(x, op, v))
      && Disjoint(rs) && AllProper(rs)
  {
    var rs := ComparisonRanges(op, v).value;
    IntersectExact(RawRange(op, v).value, Range(Excluded(Null), Unbounded), x);
    LessTotal(x, v);
    LessTotal(x, Null);
    if rs != [] {
      assert Inside(x, rs) <==> InRange(x, rs[0]);
    }
  }

  // ---- intersecting two families ----

  /** Every pairwise intersection, row by row. */
  function IntersectAll(a: seq<Range>, b: seq<Range>): seq<Range> {
    if a == [] then [] else IntersectOne(a[0], b) + IntersectAll(a[1..], b)
  }

  function IntersectOne(r: Range, b: seq<Range>): seq<Range> {
    if b == [] then [] else ToSeq(IntersectRange(r, b[0])) + IntersectOne(r, b[1..])
  }

  lemma InsideCons(x: Value, rs: seq<Range>)
    requires rs != []
    ensures Inside(x, rs) <==> InRange(x, rs[0]) || Inside(x, rs[1..])
  {
    assert rs == [rs[0]] + rs[1..];
    InsideConcat(x, [rs[0]], rs[1..]);
    assert Inside(x, [rs[0]]) <==> InRange(x, [rs[0]][0]);
  }

  lemma DisjointTail(rs: seq<Range>)
    requires rs != [] && Disjoint(rs)
    ensures Disjoint(rs[1..]) && forall x :: !(InRange(x, rs[0]) && Inside(x, rs[1..]))
  {
    var tail := rs[1..];
    assert forall i :: 0 <= i < |tail| ==> tail[i] == rs[i + 1];
    forall x, i {:trigger InRange(x, tail[i])} | 0 <= i < |tail|
      ensures !(InRange(x, rs[0]) && InRange(x, tail[i]))
    {
      assert InRange(x, tail[i]) == InRange(x, rs[i + 1]);
    }
    forall x, i, j {:trigger InRange(x, tail[i]), InRange(x, tail[j])} | 0 <= i < j < |tail|
      ensures !(InRange(x, tail[i]) && InRange(x, tail[j]))
    {
      assert InRange(x, tail[i]) == InRange(x, rs[i + 1]);
      assert InRange(x, tail[j]) == InRange(x, rs[j + 1]);
    }
  }

  lemma {:induction false} IntersectOneExact(r: Range, b: seq<Range>, x: Value)
    ensures Inside(x, IntersectOne(r, b)) <==> InRange(x, r) && Inside(x, b)
    decreases |b|
  {
    if b != [] {
      InsideCons(x, b);
      IntersectExact(r, b[0], x);
      IntersectOneExact(r, b[1..], x);
      var first := ToSeq(IntersectRange(r, b[0]));
      InsideConcat(x, first, IntersectOne(r, b[1..]));
      if first != [] { assert Inside(x, first) <==> InRange(x, first[0]); }
    }
  }

  lemma {:induction false} IntersectOneDisjoint(r: Range, b: seq<Range>)
    requires Disjoint(b)
    ensures Disjoint(IntersectOne(r, b)) && AllProper(IntersectOne(r, b))
    decreases |b|
  {
    if b != [] {
      DisjointTail(b);
      IntersectOneDisjoint(r, b[1..]);
      var first := ToSeq(IntersectRange(r, b[0]));
      IntersectExact(r, b[0], Null);
      forall x ensures !(Inside(x, first) && Inside(x, IntersectOne(r, b[1..]))) {
        IntersectOneExact(r, b[1..], x);
        IntersectExact(r, b[0], x);
      }
      DisjointConcat(first, IntersectOne(r, b[1..]));
    }
  }

  lemma {:induction false} IntersectAllInside(a: seq<Range>, b: seq<Range>, x: Value)
    ensures Inside(x, IntersectAll(a, b)) <==> Inside(x, a) && Inside(x, b)
    decreases |a|
  {
    if a != [] {
      InsideCons(x, a);
      IntersectOneExact(a[0], b, x);
      IntersectAllInside(a[1..], b, x);
      InsideConcat(x, IntersectOne(a[0], b), IntersectAll(a[1..], b));
    }
  }

  /** Intersecting two disjoint families keeps exactness and disjointness. */
  lemma {:induction false} IntersectAllDisjoint(a: seq<Range>, b: seq<Range>)
    requires Disjoint(a) && Disjoint(b)
    ensures Disjoint(IntersectAll(a, b)) && AllProper(IntersectAll(a, b))
    decreases |a|
  {
    if a != [] {
      DisjointTail(a);
      IntersectOneDisjoint(a[0], b);
      IntersectAllDisjoint(a[1..], b);
      forall x ensures !(Inside(x, IntersectOne(a[0], b)) && Inside(x, IntersectAll(a[1..], b))) {
        IntersectOneExact(a[0], b, x);
        IntersectAllInside(a[1..], b, x);
      }
      DisjointConcat(IntersectOne(a[0], b), IntersectAll(a[1..], b));
    }
  }
}
