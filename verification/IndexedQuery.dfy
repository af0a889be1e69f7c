/** Choosing index candidates and re-checking them, against a filtered full scan. */
module IndexedQuery {
  import opened Core
  import opened Values
  import opened IndexRanges
  import opened Predicates
  import opened SecondaryIndexes

  /** MVCC envelope; `deleted` 0 means live. */
  datatype Envelope = Envelope(inserted: nat, deleted: nat)

  /** `RecordEnvelope::is_visible`. */
  predicate Sees(snapshot: nat, env: Envelope) {
    env.inserted <= snapshot && (env.deleted == 0 || env.deleted > snapshot)
  }

  datatype Record = Record(addr: Addr, env: Envelope, row: Row)

  /** A table as a scan yields it, with its secondary indexes. */
  datatype Table = Table(columns: seq<string>, records: seq<Record>, indexes: map<string, Index>)

  predicate DistinctAddrs(rs: seq<Record>) {
    forall i, j :: 0 <= i < j < |rs| ==> rs[i].addr != rs[j].addr
  }

  /** The value each address carries in one column. */
  function Owner(rs: seq<Record>, col: nat): map<Addr, Value>
    requires forall r :: r in rs ==> col < |r.row|
  {
    if rs == [] then map[]
    else Owner(rs[..|rs| - 1], col)[Last(rs).addr := Last(rs).row[col]]
  }

  lemma {:induction false} OwnerExact(rs: seq<Record>, col: nat)
    requires DistinctAddrs(rs) && forall r :: r in rs ==> col < |r.row|
    ensures forall i :: 0 <= i < |rs| ==> rs[i].addr in Owner(rs, col) && Owner(rs, col)[rs[i].addr] == rs[i].row[col]
    ensures forall a :: a in Owner(rs, col) ==> exists i :: 0 <= i < |rs| && rs[i].addr == a
    decreases |rs|
  {
    if rs != [] {
      var front := rs[..|rs| - 1];
      OwnerExact(front, col);
      forall i | 0 <= i < |rs|
        ensures rs[i].addr in Owner(rs, col) && Owner(rs, col)[rs[i].addr] == rs[i].row[col]
      {
        if i < |front| { assert front[i] == rs[i]; }
      }
      forall a | a in Owner(rs, col) ensures exists i :: 0 <= i < |rs| && rs[i].addr == a {
        if a in Owner(front, col) {
          var i :| 0 <= i < |front| && front[i].addr == a;
          assert rs[i].addr == a;
        } else {
          assert rs[|rs| - 1].addr == a;
        }
      }
    }
  }

  /** The index is complete for the column of that name. */
  ghost predicate Backed(columns: seq<string>, rs: seq<Record>, ix: Index, c: string)
    requires forall r :: r in rs ==> |r.row| == |columns|
  {
    exists i :: 0 <= i < |columns| && columns[i] == c && IndexOk(ix, Owner(rs, i))
  }

  ghost predicate TableOk(t: Table) {
    && DistinctColumns(t.columns) && DistinctAddrs(t.records)
    && (forall r :: r in t.records ==> |r.row| == |t.columns|)
    && (forall c :: c in t.indexes ==> Backed(t.columns, t.records, t.indexes[c], c))
  }

  // ---- the reference: a filtered scan ----

  datatype Hit = Hit(addr: Addr, row: Row)

  predicate Selected(t: Table, pred: Predicate, snapshot: nat, r: Record)
    requires Resolves(t.columns, pred) && |r.row| == |t.columns|
  {
    Sees(snapshot, r.env) && RowMatches(pred, t.columns, r.row)
  }

  function ScanHits(t: Table, pred: Predicate, snapshot: nat, rs: seq<Record>): seq<Hit>
    requires Resolves(t.columns, pred) && forall r :: r in rs ==> |r.row| == |t.columns|
  {
    if rs == [] then []
    else ScanHits(t, pred, snapshot, rs[..|rs| - 1])
         + (if Selected(t, pred, snapshot, Last(rs)) then [Hit(Last(rs).addr, Last(rs).row)] else [])
  }

  lemma {:induction false} ScanHitsExact(t: Table, pred: Predicate, snapshot: nat, rs: seq<Record>)
    requires Resolves(t.columns, pred) && (forall r :: r in rs ==> |r.row| == |t.columns|)
    requires DistinctAddrs(rs)
    ensures forall h :: h in ScanHits(t, pred, snapshot, rs) <==>
      exists i :: 0 <= i < |rs| && Selected(t, pred, snapshot, rs[i]) && h == Hit(rs[i].addr, rs[i].row)
    ensures NoDup(ScanHits(t, pred, snapshot, rs))
    decreases |rs|
  {
    if rs != [] {
      var n := |rs| - 1;
      var front := rs[..n];
      ScanHitsExact(t, pred, snapshot, front);
      var before := ScanHits(t, pred, snapshot, front);
      var last := if Selected(t, pred, snapshot, rs[n]) then [Hit(rs[n].addr, rs[n].row)] else [];
      forall h ensures h in before + last <==>
        exists i :: 0 <= i < |rs| && Selected(t, pred, snapshot, rs[i]) && h == Hit(rs[i].addr, rs[i].row)
      {
        if h in before {
          var i :| 0 <= i < |front| && Selected(t, pred, snapshot, front[i]) && h == Hit(front[i].addr, front[i].row);
          assert rs[i] == front[i];
        }
        if i :| 0 <= i < n && Selected(t, pred, snapshot, rs[i]) && h == Hit(rs[i].addr, rs[i].row) {
          assert front[i] == rs[i];
        }
      }
      NoDupConcat(before, last);
    }
  }

  /** Two lists without repetition and with the same members hold the same multiset. */
  lemma {:induction false} SameMembersSameMultiset<T>(a: seq<T>, b: seq<T>)
    requires NoDup(a) && NoDup(b) && forall x :: x in a <==> x in b
    ensures multiset(a) == multiset(b)
  {
    forall x ensures multiset(a)[x] == multiset(b)[x] {
      CountIsOne(a, x);
      CountIsOne(b, x);
    }
  }

  lemma {:induction false} CountIsOne<T>(a: seq<T>, x: T)
    requires NoDup(a)
    ensures multiset(a)[x] == if x in a then 1 else 0
    decreases |a|
  {
    if a != [] {
      var n := |a| - 1;
      assert a == a[..n] + [a[n]];
      CountIsOne(a[..n], x);
    }
  }

  // ---- the conjuncts an index can serve ----

  datatype Conjunct = Conjunct(column: string, ranges: seq<Range>)

  /** `collect`: only AND is followed; other forms are left to the re-check. */
  function Conjuncts(pred: Predicate): seq<Conjunct> {
    match pred
    case And(a, b) => Conjuncts(a) + Conjuncts(b)
    case Compare(c, op, v) =>
      var rs := ComparisonRanges(op, v);
      if rs.None? then [] else [Conjunct(c, rs.value)]
    case Between(c, low, high, false) =>
      [Conjunct(c, IntersectAll(ComparisonRanges(Ge, low).value, ComparisonRanges(Le, high).value))]
    case _ => []
  }

  /** True only of cells inside some range of the family. */
  ghost predicate Serves(c: Conjunct, columns: seq<string>, row: Row)
    requires |row| == |columns|
  {
    ColumnPos(columns, c.column).Ok? ==> Inside(row[ColumnPos(columns, c.column).value], c.ranges)
  }

  lemma BetweenServes(c: string, low: Value, high: Value, columns: seq<string>, row: Row)
    requires |row| == |columns| && ColumnPos(columns, c).Ok?
    requires RowMatches(Between(c, low, high, false), columns, row)
    ensures Serves(Conjunct(c, IntersectAll(ComparisonRanges(Ge, low).value, ComparisonRanges(Le, high).value)),
      columns, row)
  {
    var x := row[ColumnPos(columns, c).value];
    ComparisonRangesExact(Ge, low, x);
    ComparisonRangesExact(Le, high, x);
    IntersectAllInside(ComparisonRanges(Ge, low).value, ComparisonRanges(Le, high).value, x);
  }

  /** A row that satisfies the predicate lies inside the ranges of every conjunct. */
  lemma {:induction false} ConjunctsServe(pred: Predicate, columns: seq<string>, row: Row)
    requires |row| == |columns| && Resolves(columns, pred) && RowMatches(pred, columns, row)
    ensures forall i :: 0 <= i < |Conjuncts(pred)| ==> Serves(Conjuncts(pred)[i], columns, row)
  {
    match pred
    case And(a, b) =>
      ConjunctsServe(a, columns, row);
      ConjunctsServe(b, columns, row);
    case Compare(c, op, v) =>
      ComparisonRangesExact(op, v, row[ColumnPos(columns, c).value]);
    case Between(c, low, high, false) =>
      BetweenServes(c, low, high, columns, row);
    case _ =>
  }

  lemma {:induction false} ConjunctsDisjoint(pred: Predicate)
    ensures forall i :: 0 <= i < |Conjuncts(pred)| ==> Disjoint(Conjuncts(pred)[i].ranges)
  {
    match pred
    case And(a, b) =>
      ConjunctsDisjoint(a);
      ConjunctsDisjoint(b);
    case Compare(c, op, v) =>
      ComparisonRangesExact(op, v, Null);
    case Between(c, low, high, false) =>
      ComparisonRangesExact(Ge, low, Null);
      ComparisonRangesExact(Le, high, Null);
      IntersectAllDisjoint(ComparisonRanges(Ge, low).value, ComparisonRanges(Le, high).value);
    case _ =>
  }

  // ---- candidates ----

  /** Candidates are distinct addresses of the table and miss no matching record. */
  ghost predicate Covers(t: Table, pred: Predicate, addrs: seq<Addr>)
    requires Resolves(t.columns, pred) && forall r :: r in t.records ==> |r.row| == |t.columns|
  {
    && NoDup(addrs)
    && (forall a :: a in addrs ==> exists i :: 0 <= i < |t.records| && t.records[i].addr == a)
    && (forall i :: 0 <= i < |t.records| && RowMatches(pred, t.columns, t.records[i].row) ==>
      t.records[i].addr in addrs)
  }

  /** The columns whose ranges are known to cover the predicate. */
  ghost predicate Plan(t: Table, pred: Predicate, byColumn: map<string, seq<Range>>)
    requires Resolves(t.columns, pred) && forall r :: r in t.records ==> |r.row| == |t.columns|
  {
    forall c :: c in byColumn ==>
      && c in t.indexes && Disjoint(byColumn[c])
      && forall r :: r in t.records && RowMatches(pred, t.columns, r.row) ==>
        Serves(Conjunct(c, byColumn[c]), t.columns, r.row)
  }

  /** An index names one column of the table and is complete for it. */
  lemma IndexedColumn(t: Table, c: string) returns (col: nat)
    requires TableOk(t) && c in t.indexes
    ensures col < |t.columns| && ColumnPos(t.columns, c) == Ok(col)
    ensures IndexOk(t.indexes[c], Owner(t.records, col))
    ensures forall i :: 0 <= i < |t.records| ==>
      t.records[i].addr in Owner(t.records, col) && Owner(t.records, col)[t.records[i].addr] == t.records[i].row[col]
    ensures forall a :: a in Owner(t.records, col) ==> exists i :: 0 <= i < |t.records| && t.records[i].addr == a
  {
    assert Backed(t.columns, t.records, t.indexes[c], c);
    var i :| 0 <= i < |t.columns| && t.columns[i] == c && IndexOk(t.indexes[c], Owner(t.records, i));
    col := i;
    ExactNameResolves(t.columns, col);
    OwnerExact(t.records, col);
  }

  lemma RangesCover(t: Table, pred: Predicate, ix: Index, owner: map<Addr, Value>, rs: seq<Range>, col: nat)
    requires Resolves(t.columns, pred) && col < |t.columns| && forall r :: r in t.records ==> |r.row| == |t.columns|
    requires IndexOk(ix, owner) && Disjoint(rs)
    requires forall i :: 0 <= i < |t.records| ==>
      t.records[i].addr in owner && owner[t.records[i].addr] == t.records[i].row[col]
    requires forall a :: a in owner ==> exists i :: 0 <= i < |t.records| && t.records[i].addr == a
    requires forall r :: r in t.records && RowMatches(pred, t.columns, r.row) ==> Inside(r.row[col], rs)
    ensures Covers(t, pred, ManyRanges(ix, rs))
  {
    ManyRangesExact(ix, owner, rs);
  }

  /** Any planned column gives covering candidates from its index. */
  lemma PlannedColumnCovers(t: Table, pred: Predicate, byColumn: map<string, seq<Range>>, c: string)
    requires TableOk(t) && Resolves(t.columns, pred) && Plan(t, pred, byColumn) && c in byColumn
    ensures Covers(t, pred, ManyRanges(t.indexes[c], byColumn[c]))
  {
    var rs := byColumn[c];
    var col := IndexedColumn(t, c);
    forall r | r in t.records && RowMatches(pred, t.columns, r.row) ensures Inside(r.row[col], rs) {
      assert Serves(Conjunct(c, rs), t.columns, r.row);
    }
    RangesCover(t, pred, t.indexes[c], Owner(t.records, col), rs, col);
  }

  /** `index_equality_candidates`: the exact key and its equal in the other numeric type. */
  function EqualityCandidates(ix: Index, v: Value): seq<Addr> {
    Lookup(ix, v) +
    match v
    case Int(i) => Lookup(ix, Decimal(PromoteInt(i)))
    case Decimal(m) =>
      if m % DECIMAL_DEN == 0 && I64_MIN <= m / DECIMAL_DEN <= I64_MAX then Lookup(ix, Int(m / DECIMAL_DEN)) else []
    case _ => []
  }

  lemma EqualityCandidatesExact(ix: Index, owner: map<Addr, Value>, v: Value)
    requires IndexOk(ix, owner)
    ensures NoDup(EqualityCandidates(ix, v))
    ensures forall a :: a in EqualityCandidates(ix, v) <==> a in owner && ValuesEqual(owner[a], v)
  {
    LookupExact(ix, owner, v);
    var other := match v
      case Int(i) => Decimal(PromoteInt(i))
      case Decimal(m) => if m % DECIMAL_DEN == 0 && I64_MIN <= m / DECIMAL_DEN <= I64_MAX
        then Int(m / DECIMAL_DEN) else v
      case _ => v;
    LookupExact(ix, owner, other);
    if other != v { NoDupConcat(Lookup(ix, v), Lookup(ix, other)); }
    assert EqualityCandidates(ix, v) == Lookup(ix, v) + if other == v then [] else Lookup(ix, other);
  }

  lemma EqualCellsCover(t: Table, c: string, v: Value, ix: Index, owner: map<Addr, Value>, col: nat)
    requires col < |t.columns| && ColumnPos(t.columns, c) == Ok(col) && forall r :: r in t.records ==>
      |r.row| == |t.columns|
    requires IndexOk(ix, owner)
    requires forall i :: 0 <= i < |t.records| ==>
      t.records[i].addr in owner && owner[t.records[i].addr] == t.records[i].row[col]
    requires forall a :: a in owner ==> exists i :: 0 <= i < |t.records| && t.records[i].addr == a
    ensures Covers(t, Compare(c, Eq, v), EqualityCandidates(ix, v))
  {
    EqualityCandidatesExact(ix, owner, v);
  }

  lemma EqualityCovers(t: Table, c: string, v: Value)
    requires TableOk(t) && c in t.indexes
    requires Resolves(t.columns, Compare(c, Eq, v))
    ensures Covers(t, Compare(c, Eq, v), EqualityCandidates(t.indexes[c], v))
  {
    var col := IndexedColumn(t, c);
    EqualCellsCover(t, c, v, t.indexes[c], Owner(t.records, col), col);
  }

  lemma PlanStep(t: Table, pred: Predicate, byColumn: map<string, seq<Range>>, next: Conjunct, merged: seq<Range>)
    requires Resolves(t.columns, pred) && forall r :: r in t.records ==> |r.row| == |t.columns|
    requires Plan(t, pred, byColumn) && next in Conjuncts(pred) && next.column in t.indexes
    requires merged == if next.column in byColumn then IntersectAll(byColumn[next.column], next.ranges) else next.ranges
    ensures Plan(t, pred, byColumn[next.column := merged])
  {
    var c := next.column;
    ConjunctsDisjoint(pred);
    if c in byColumn { IntersectAllDisjoint(byColumn[c], next.ranges); }
    forall r | r in t.records && RowMatches(pred, t.columns, r.row)
      ensures Serves(Conjunct(c, merged), t.columns, r.row)
    {
      ConjunctsServe(pred, t.columns, r.row);
      assert Serves(next, t.columns, r.row);
      if c in byColumn && ColumnPos(t.columns, c).Ok? {
        IntersectAllInside(byColumn[c], next.ranges, r.row[ColumnPos(t.columns, c).value]);
      }
    }
  }

  /** Groups the conjuncts by indexed column, intersecting what meets on one column. */
  method PlanColumns(t: Table, pred: Predicate) returns (byColumn: map<string, seq<Range>>)
    requires TableOk(t) && Resolves(t.columns, pred)
    ensures Plan(t, pred, byColumn)
  {
    var conjuncts := Conjuncts(pred);
    byColumn := map[];
    for i := 0 to |conjuncts|
      invariant Plan(t, pred, byColumn)
    {
      var c, ranges := conjuncts[i].column, conjuncts[i].ranges;
      if c in t.indexes {
        var merged := if c in byColumn then IntersectAll(byColumn[c], ranges) else ranges;
        PlanStep(t, pred, byColumn, conjuncts[i], merged);
        byColumn := byColumn[c := merged];
      }
    }
  }

  /** `index_candidates`: None asks for a full scan. */
  method IndexCandidates(t: Table, pred: Predicate) returns (r: Option<seq<Addr>>)
    requires TableOk(t) && Resolves(t.columns, pred)
    ensures r.Some? ==> Covers(t, pred, r.value)
  {
    if pred.Compare? && pred.op.Eq? && pred.column in t.indexes {
      EqualityCovers(t, pred.column, pred.value);
      return Some(EqualityCandidates(t.indexes[pred.column], pred.value));
    }
    var byColumn := PlanColumns(t, pred);
    var best: Option<string>, count := None, 0;
    var rest := byColumn.Keys;
    while rest != {}
      invariant rest <= byColumn.Keys && (best.Some? ==> best.value in byColumn)
      decreases |rest|
    {
      var c :| c in rest;
      rest := rest - {c};
      var n := |ManyRanges(t.indexes[c], byColumn[c])|;
      if best.None? || n < count { best, count := Some(c), n; }
    }
    if best.None? { return None; }
    PlannedColumnCovers(t, pred, byColumn, best.value);
    r := Some(ManyRanges(t.indexes[best.value], byColumn[best.value]));
  }

  /** Reading and re-checking covering candidates gives the scan's hits, each once. */
  method Recheck(t: Table, pred: Predicate, snapshot: nat, addrs: seq<Addr>) returns (hits: seq<Hit>)
    requires TableOk(t) && Resolves(t.columns, pred) && Covers(t, pred, addrs)
    ensures NoDup(hits)
    ensures forall h :: h in hits <==>
      exists i ::
        0 <= i < |t.records| && Selected(t, pred, snapshot, t.records[i])
          && h == Hit(t.records[i].addr, t.records[i].row)
  {
    hits := [];
    for k := 0 to |addrs|
      invariant NoDup(hits)
      invariant forall h :: h in hits <==>
        exists i :: 0 <= i < |t.records| && t.records[i].addr in addrs[..k]
          && Selected(t, pred, snapshot, t.records[i]) && h == Hit(t.records[i].addr, t.records[i].row)
    {
      assert addrs[k] in addrs;
      var j := ReadAt(t.records, addrs[k]);
      var r := t.records[j];
      assert addrs[..k + 1] == addrs[..k] + [addrs[k]];
      assert addrs[k] !in addrs[..k];
      if Selected(t, pred, snapshot, r) {
        NoDupConcat(hits, [Hit(r.addr, r.row)]);
        hits := hits + [Hit(r.addr, r.row)];
      }
    }
    assert addrs[..|addrs|] == addrs;
  }

  /** `read_record_at`. */
  method ReadAt(rs: seq<Record>, a: Addr) returns (j: nat)
    requires exists i :: 0 <= i < |rs| && rs[i].addr == a
    ensures j < |rs| && rs[j].addr == a
  {
    j := 0;
    while rs[j].addr != a
      invariant 0 <= j < |rs| && exists i :: j <= i < |rs| && rs[i].addr == a
      decreases |rs| - j
    {
      j := j + 1;
    }
  }

  /**
   `collect_matching`: whatever index is chosen, or none, the hits are those of the filtered scan,
   as a multiset, and no address is repeated.
   */
  method CollectMatching(t: Table, pred: Predicate, snapshot: nat) returns (r: Result<seq<Hit>>)
    requires TableOk(t)
    ensures if Resolves(t.columns, pred) then r.Ok? else r == Err(Schema)
    ensures r.Ok? ==> multiset(r.value) == multiset(ScanHits(t, pred, snapshot, t.records))
    ensures r.Ok? ==> forall i, j :: 0 <= i < j < |r.value| ==> r.value[i].addr != r.value[j].addr
  {
    if !Resolves(t.columns, pred) { return Err(Schema); }
    ScanHitsExact(t, pred, snapshot, t.records);
    var candidates := IndexCandidates(t, pred);
    var hits;
    if candidates.Some? {
      hits := Recheck(t, pred, snapshot, candidates.value);
      SameMembersSameMultiset(hits, ScanHits(t, pred, snapshot, t.records));
    } else {
      hits := ScanHits(t, pred, snapshot, t.records);
    }
    AddressesDistinct(t, pred, snapshot, hits);
    r := Ok(hits);
  }

  lemma AddressesDistinct(t: Table, pred: Predicate, snapshot: nat, hits: seq<Hit>)
    requires TableOk(t) && Resolves(t.columns, pred) && NoDup(hits)
    requires forall h :: h in hits ==>
      exists i ::
        0 <= i < |t.records| && Selected(t, pred, snapshot, t.records[i])
          && h == Hit(t.records[i].addr, t.records[i].row)
    ensures forall i, j :: 0 <= i < j < |hits| ==> hits[i].addr != hits[j].addr
  {
    forall i, j | 0 <= i < j < |hits| ensures hits[i].addr != hits[j].addr {
      assert hits[i] in hits && hits[j] in hits;
      var k :| 0 <= k < |t.records| && Selected(t, pred, snapshot, t.records[k])
        && hits[i] == Hit(t.records[k].addr, t.records[k].row);
      var l :| 0 <= l < |t.records| && Selected(t, pred, snapshot, t.records[l])
        && hits[j] == Hit(t.records[l].addr, t.records[l].row);
    }
  }
}
