/** Unique columns as a bag of the join keys that live rows hold. */
module Uniqueness {
  import opened Core
  import opened Values
  import opened Predicates
  import opened IndexedQuery
  import opened SecondaryIndexes
  import opened PageUpdates
  import opened Versions

  /** A cell's key; NULL has none. */
  function CellBag(v: Value): multiset<Value> {
    if v.Null? then multiset{} else multiset{JoinKey(v)}
  }

  predicate Wide(rs: seq<Record>, col: nat) {
    forall i :: 0 <= i < |rs| ==> col < |rs[i].row|
  }

  /** The keys of the live rows in one column. */
  function LiveBag(rs: seq<Record>, col: nat): multiset<Value>
    requires Wide(rs, col)
  {
    if rs == [] then multiset{}
    else LiveBag(rs[..|rs| - 1], col) + if Live(Last(rs)) then CellBag(Last(rs).row[col]) else multiset{}
  }

  /** No key twice. */
  ghost predicate Single(bag: multiset<Value>) {
    forall k :: bag[k] <= 1
  }

  /** What a unique column promises: no two live rows hold SQL-equal values. */
  predicate NoClash(rs: seq<Record>, col: nat)
    requires Wide(rs, col)
  {
    forall i, j :: 0 <= i < j < |rs| ==> !Clash(rs[i], rs[j], col)
  }

  lemma {:induction false} BagHas(rs: seq<Record>, col: nat, k: Value)
    requires Wide(rs, col)
    ensures k in LiveBag(rs, col) <==>
      exists i :: 0 <= i < |rs| && Live(rs[i]) && !rs[i].row[col].Null? && JoinKey(rs[i].row[col]) == k
    decreases |rs|
  {
    if rs != [] {
      var front := rs[..|rs| - 1];
      BagHas(front, col, k);
      if i :| 0 <= i < |rs| - 1 && Live(rs[i]) && !rs[i].row[col].Null? && JoinKey(rs[i].row[col]) == k {
        assert front[i] == rs[i];
      }
      if k in LiveBag(front, col) {
        var i :| 0 <= i < |front| && Live(front[i]) && !front[i].row[col].Null? && JoinKey(front[i].row[col]) == k;
        assert rs[i] == front[i];
      }
    }
  }

  predicate Clash(a: Record, b: Record, col: nat)
    requires col < |a.row| && col < |b.row|
  {
    Live(a) && Live(b) && !a.row[col].Null? && !b.row[col].Null? && ValuesEqual(a.row[col], b.row[col])
  }

  /** The last row clashes with an earlier one exactly when its key is already in the bag. */
  lemma LastClash(rs: seq<Record>, col: nat)
    requires Wide(rs, col) && rs != []
    ensures (exists i :: 0 <= i < |rs| - 1 && Clash(rs[i], Last(rs), col))
       <==> Live(Last(rs)) && !Last(rs).row[col].Null? && JoinKey(Last(rs).row[col]) in LiveBag(rs[..|rs| - 1], col)
  {
    var front, v := rs[..|rs| - 1], Last(rs).row[col];
    BagHas(front, col, JoinKey(v));
    forall i | 0 <= i < |rs| - 1
      ensures front[i] == rs[i] && (JoinKey(rs[i].row[col]) == JoinKey(v) <==> ValuesEqual(rs[i].row[col], v)) {
      JoinKeyIsEquality(rs[i].row[col], v);
    }
    if i :| 0 <= i < |front| && Live(front[i]) && !front[i].row[col].Null? && JoinKey(front[i].row[col]) == JoinKey(v) {
      assert Live(Last(rs)) && !v.Null? ==> Clash(rs[i], Last(rs), col);
    }
  }

  lemma NoClashSnoc(rs: seq<Record>, col: nat)
    requires Wide(rs, col) && rs != []
    ensures NoClash(rs, col) <==>
      NoClash(rs[..|rs| - 1], col) && !exists i :: 0 <= i < |rs| - 1 && Clash(rs[i], Last(rs), col)
  {
    var front := rs[..|rs| - 1];
    assert forall i :: 0 <= i < |front| ==> front[i] == rs[i];
    if NoClash(rs, col) {
      forall i | 0 <= i < |rs| - 1 ensures !Clash(rs[i], Last(rs), col) {}
      forall i, j | 0 <= i < j < |front| ensures !Clash(front[i], front[j], col) {}
    }
  }

  /** A bag without repetition is exactly a column without clashing rows. */
  lemma {:induction false} SingleIsNoClash(rs: seq<Record>, col: nat)
    requires Wide(rs, col)
    ensures Single(LiveBag(rs, col)) <==> NoClash(rs, col)
    decreases |rs|
  {
    if rs != [] {
      var front := rs[..|rs| - 1];
      SingleIsNoClash(front, col);
      LastClash(rs, col);
      NoClashSnoc(rs, col);
      if Live(Last(rs)) && !Last(rs).row[col].Null? {
        SingleAdd(LiveBag(front, col), JoinKey(Last(rs).row[col]));
      } else {
        assert LiveBag(rs, col) == LiveBag(front, col);
      }
    }
  }

  lemma SingleAdd(bag: multiset<Value>, k: Value)
    ensures Single(bag + multiset{k}) <==> Single(bag) && k !in bag
  {
    if Single(bag + multiset{k}) {
      forall j ensures bag[j] <= 1 { assert (bag + multiset{k})[j] >= bag[j]; }
      assert (bag + multiset{k})[k] == bag[k] + 1;
    }
  }

  // ---- how writes change the bag ----

  lemma BagSnoc(rs: seq<Record>, r: Record, col: nat)
    requires Wide(rs, col) && col < |r.row|
    ensures LiveBag(rs + [r], col) == LiveBag(rs, col) + if Live(r) then CellBag(r.row[col]) else multiset{}
  {
    assert (rs + [r])[..|rs|] == rs;
  }

  lemma BagUnstamped(rs: seq<Record>, a: Addr, tx: nat)
    requires forall i :: 0 <= i < |rs| ==> rs[i].addr != a
    ensures Tombstoned(rs, a, tx) == rs
  {}

  lemma BagSwap(a: multiset<Value>, b: multiset<Value>, c: multiset<Value>)
    ensures a + b + c == a + c + b
  {}

  function LiveCell(r: Record, col: nat): multiset<Value>
    requires col < |r.row|
  {
    if Live(r) then CellBag(r.row[col]) else multiset{}
  }

  lemma BagStampedLast(front: seq<Record>, last: Record, tx: nat, col: nat)
    requires Wide(front, col) && col < |last.row| && Live(last) && tx > 0 && forall i :: 0 <= i < |front| ==>
      front[i].addr != last.addr
    ensures LiveBag(front + [last], col)
      == LiveBag(Tombstoned(front + [last], last.addr, tx), col) + CellBag(last.row[col])
  {
    var a := last.addr;
    TombstonedConcat(front, [last], a, tx);
    BagUnstamped(front, a, tx);
    assert Tombstoned([last], a, tx) == [Stamp(last, a, tx)];
    BagSnoc(front, last, col);
    BagSnoc(front, Stamp(last, a, tx), col);
    assert LiveBag(front, col) + multiset{} == LiveBag(front, col);
  }

  lemma BagStampedEarlier(front: seq<Record>, last: Record, a: Addr, tx: nat, col: nat, cell: multiset<Value>)
    requires Wide(front, col) && col < |last.row| && last.addr != a
    requires LiveBag(front, col) == LiveBag(Tombstoned(front, a, tx), col) + cell
    ensures LiveBag(front + [last], col) == LiveBag(Tombstoned(front + [last], a, tx), col) + cell
  {
    TombstonedConcat(front, [last], a, tx);
    assert Tombstoned([last], a, tx) == [last];
    BagSnoc(front, last, col);
    BagSnoc(Tombstoned(front, a, tx), last, col);
    BagSwap(LiveBag(Tombstoned(front, a, tx), col), cell, LiveCell(last, col));
  }

  /** Tombstoning one live row takes its key out of the bag. */
  lemma {:induction false} BagStamped(rs: seq<Record>, k: nat, tx: nat, col: nat)
    requires Wide(rs, col) && DistinctAddrs(rs) && k < |rs| && Live(rs[k]) && tx > 0
    ensures LiveBag(rs, col) == LiveBag(Tombstoned(rs, rs[k].addr, tx), col) + CellBag(rs[k].row[col])
    decreases |rs|
  {
    var n := |rs| - 1;
    var front := rs[..n];
    assert rs == front + [rs[n]];
    if k < n {
      BagStamped(front, k, tx, col);
      BagStampedEarlier(front, rs[n], rs[k].addr, tx, col, CellBag(rs[k].row[col]));
    } else {
      BagStampedLast(front, rs[n], tx, col);
    }
  }

  /** The number of visible rows equal to a value is its key's count in the bag. */
  lemma {:induction false} HitsAreCounted(t: Table, c: string, col: nat, v: Value, clock: nat, rs: seq<Record>)
    requires ColumnPos(t.columns, c) == Ok(col) && (forall r :: r in rs ==> |r.row| == |t.columns|) && Wide(rs, col)
    requires Timed(rs, clock) && !v.Null?
    ensures |ScanHits(t, Compare(c, Eq, v), clock, rs)| == LiveBag(rs, col)[JoinKey(v)]
    decreases |rs|
  {
    if rs != [] {
      var front := rs[..|rs| - 1];
      HitsAreCounted(t, c, col, v, clock, front);
      LiveIsVisible(rs, clock, |rs| - 1);
      JoinKeyIsEquality(Last(rs).row[col], v);
    }
  }
}
