/** Cell values, their total order, and SQL comparison with Int/Decimal promotion. */
module Values {
  import opened Core
  import LikeMatch

  const DECIMAL_DEN: int := 1_000_000
  const I128_MIN: int := -0x8000_0000_0000_0000_0000_0000_0000_0000
  const I128_MAX: int := 0x7FFF_FFFF_FFFF_FFFF_FFFF_FFFF_FFFF_FFFF

  type i128 = x: int | I128_MIN <= x <= I128_MAX

  datatype Value = Null | Int(i: i64) | Decimal(m: i128) | Text(s: string) | Blob(b: bytes)

  type Row = seq<Value>

  // ---- the derived total order ----

  function Rank(v: Value): nat {
    match v
    case Null => 0
    case Int(_) => 1
    case Decimal(_) => 2
    case Text(_) => 3
    case Blob(_) => 4
  }

  predicate SeqLess(x: seq<int>, y: seq<int>) {
    y != [] && (x == [] || x[0] < y[0] || (x[0] == y[0] && SeqLess(x[1..], y[1..])))
  }

  function Codes(s: string): (r: seq<int>)
    ensures |r| == |s| && forall i :: 0 <= i < |s| ==> r[i] == s[i] as int
  {
    seq(|s|, i requires 0 <= i < |s| => s[i] as int)
  }

  /** Position within a type: one number or one string of numbers. */
  predicate Less(a: Value, b: Value) {
    if Rank(a) != Rank(b) then Rank(a) < Rank(b) else
    match a
    case Null => false
    case Int(x) => x < b.i
    case Decimal(x) => x < b.m
    case Text(x) => SeqLess(Codes(x), Codes(b.s))
    case Blob(x) => SeqLess(x, b.b)
  }

  lemma {:induction false} SeqLessTotal(x: seq<int>, y: seq<int>)
    ensures SeqLess(x, y) || x == y || SeqLess(y, x)
    ensures !(SeqLess(x, y) && SeqLess(y, x)) && !(x == y && SeqLess(x, y))
    decreases |x|
  {
    if x != [] && y != [] && x[0] == y[0] {
      SeqLessTotal(x[1..], y[1..]);
      assert x == [x[0]] + x[1..] && y == [y[0]] + y[1..];
    }
  }

  lemma {:induction false} SeqLessTransitive(x: seq<int>, y: seq<int>, z: seq<int>)
    requires SeqLess(x, y) && SeqLess(y, z)
    ensures SeqLess(x, z)
    decreases |x|
  {
    if x != [] && x[0] == y[0] && y[0] == z[0] { SeqLessTransitive(x[1..], y[1..], z[1..]); }
  }

  lemma CodesInjective(x: string, y: string)
    requires Codes(x) == Codes(y)
    ensures x == y
  {
    forall i | 0 <= i < |x| ensures x[i] == y[i] { assert Codes(x)[i] == Codes(y)[i]; }
  }

  /** Exactly one of a < b, a == b, b < a. */
  lemma LessTotal(a: Value, b: Value)
    ensures Less(a, b) || a == b || Less(b, a)
    ensures !(Less(a, b) && Less(b, a)) && !(a == b && Less(a, b))
  {
    if a.Text? && b.Text? {
      SeqLessTotal(Codes(a.s), Codes(b.s));
      if Codes(a.s) == Codes(b.s) { CodesInjective(a.s, b.s); }
    } else if a.Blob? && b.Blob? {
      SeqLessTotal(a.b, b.b);
    }
  }

  lemma LessTransitive(a: Value, b: Value, c: Value)
    requires Less(a, b) && Less(b, c)
    ensures Less(a, c)
  {
    if a.Text? && b.Text? && c.Text? {
      SeqLessTransitive(Codes(a.s), Codes(b.s), Codes(c.s));
    } else if a.Blob? && b.Blob? && c.Blob? {
      SeqLessTransitive(a.b, b.b, c.b);
    }
  }

  // ---- SQL comparison ----

  datatype Ordering = Before | Same | After

  function CmpValues(a: Value, b: Value): Ordering {
    if Less(a, b) then Before else if a == b then Same else After
  }

  function CmpInt(a: int, b: int): Ordering {
    if a < b then Before else if a == b then Same else After
  }

  /** `promote_int`; the saturating product never saturates on 64-bit input. */
  function PromoteInt(i: i64): (m: i128)
    ensures m == i * DECIMAL_DEN
  {
    i * DECIMAL_DEN
  }

  function NumericCmp(a: Value, b: Value): Ordering {
    match (a, b)
    case (Int(x), Decimal(y)) => CmpInt(PromoteInt(x), y)
    case (Decimal(x), Int(y)) => CmpInt(x, PromoteInt(y))
    case _ => CmpValues(a, b)
  }

  predicate ValuesEqual(a: Value, b: Value) {
    match (a, b)
    case (Int(_), Decimal(_)) => NumericCmp(a, b) == Same
    case (Decimal(_), Int(_)) => NumericCmp(a, b) == Same
    case _ => a == b
  }

  function JoinKey(v: Value): Value {
    match v
    case Int(i) => Decimal(PromoteInt(i))
    case _ => v
  }

  /** Equal join keys are exactly SQL-equal values, so hashing on the key loses no pair. */
  lemma JoinKeyIsEquality(a: Value, b: Value)
    ensures JoinKey(a) == JoinKey(b) <==> ValuesEqual(a, b)
  {}

  datatype CompareOp = Eq | Ne | Lt | Le | Gt | Ge | Like | NotLike

  predicate EvalCompare(lhs: Value, op: CompareOp, rhs: Value) {
    if lhs.Null? || rhs.Null? then false else
    match op
    case Eq => ValuesEqual(lhs, rhs)
    case Ne => !ValuesEqual(lhs, rhs)
    case Like => lhs.Text? && rhs.Text? && LikeMatch.Matches(lhs.s, rhs.s, 0, 0, None, 0)
    case NotLike => lhs.Text? && rhs.Text? && !LikeMatch.Matches(lhs.s, rhs.s, 0, 0, None, 0)
    case Lt => NumericCmp(lhs, rhs) == Before
    case Le => NumericCmp(lhs, rhs) != After
    case Gt => NumericCmp(lhs, rhs) == After
    case Ge => NumericCmp(lhs, rhs) != Before
  }
}
