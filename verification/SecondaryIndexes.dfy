/** The ordered secondary index: column value to record addresses, in key order. */
module SecondaryIndexes {
  import opened Core
  import opened Values
  import opened IndexRanges

  type Addr = nat

  datatype Posting = Posting(key: Value, addrs: seq<Addr>)

  /** A BTreeMap as its entries in ascending key order. */
  type Index = seq<Posting>

  predicate Sorted(ix: Index) {
    forall i, j :: 0 <= i < j < |ix| ==> Less(ix[i].key, ix[j].key)
  }

  predicate NoDup<T(==)>(s: seq<T>) {
    forall i, j :: 0 <= i < j < |s| ==> s[i] != s[j]
  }

  ghost predicate Holds(ix: Index, a: Addr) {
    exists i :: 0 <= i < |ix| && a in ix[i].addrs
  }

  /** Each address the index holds stands once, under the value that address carries. */
  ghost predicate Partial(ix: Index, owner: map<Addr, Value>) {
    && Sorted(ix)
    && (forall i :: 0 <= i < |ix| ==> NoDup(ix[i].addrs))
    && (forall i, a {:trigger a in ix[i].addrs} :: 0 <= i < |ix| && a in ix[i].addrs ==>
      a in owner && owner[a] == ix[i].key)
  }

  /** And the index holds every address there is. */
  ghost predicate IndexOk(ix: Index, owner: map<Addr, Value>) {
    Partial(ix, owner) && forall a :: a in owner ==> Holds(ix, a)
  }

  function Insert(ix: Index, v: Value, a: Addr): Index {
    if ix == [] then [Posting(v, [a])]
    else if ix[0].key == v then [Posting(v, ix[0].addrs + [a])] + ix[1..]
    else if Less(v, ix[0].key) then [Posting(v, [a])] + ix
    else [ix[0]] + Insert(ix[1..], v, a)
  }

  function Lookup(ix: Index, v: Value): seq<Addr> {
    if ix == [] then [] else if ix[0].key == v then ix[0].addrs else Lookup(ix[1..], v)
  }

  /** Addresses whose key falls in the range, in ascending key order. */
  function RangeAddrs(ix: Index, r: Range): seq<Addr> {
    if ix == [] then []
    else (if InRange(ix[0].key, r) then ix[0].addrs else []) + RangeAddrs(ix[1..], r)
  }

  /** The addresses of several ranges, one range after the other. */
  function ManyRanges(ix: Index, rs: seq<Range>): seq<Addr> {
    if rs == [] then [] else RangeAddrs(ix, rs[0]) + ManyRanges(ix, rs[1..])
  }

  // ---- the tail of a good index is good for the addresses it holds ----

  lemma HoldsCons(ix: Index, a: Addr)
    requires ix != []
    ensures Holds(ix, a) <==> a in ix[0].addrs || Holds(ix[1..], a)
  {
    if Holds(ix[1..], a) {
      var i :| 0 <= i < |ix[1..]| && a in ix[1..][i].addrs;
      assert ix[1..][i] == ix[i + 1];
    }
    if i :| 1 <= i < |ix| && a in ix[i].addrs {
      assert ix[1..][i - 1] == ix[i];
    }
  }

  lemma PartialTail(ix: Index, owner: map<Addr, Value>)
    requires ix != [] && Partial(ix, owner)
    ensures Partial(ix[1..], owner)
    ensures forall a :: a in ix[0].addrs ==> !Holds(ix[1..], a)
  {
    var tail := ix[1..];
    forall a, i | a in ix[0].addrs && 0 <= i < |tail| ensures a !in tail[i].addrs {
      assert tail[i] == ix[i + 1] && Less(ix[0].key, ix[i + 1].key);
      LessTotal(ix[0].key, ix[i + 1].key);
    }
  }

  lemma NoDupConcat<T>(a: seq<T>, b: seq<T>)
    requires NoDup(a) && NoDup(b) && forall x :: x in a ==> x !in b
    ensures NoDup(a + b)
  {
    var ab := a + b;
    forall i, j | 0 <= i < j < |ab| ensures ab[i] != ab[j] {
      if i < |a| <= j { assert ab[i] in a && ab[j] in b; }
    }
  }

  /** A range lists each fitting address once and nothing else. */
  lemma {:induction false} RangeExact(ix: Index, owner: map<Addr, Value>, r: Range)
    requires Partial(ix, owner)
    ensures NoDup(RangeAddrs(ix, r))
    ensures forall a :: a in RangeAddrs(ix, r) <==> Holds(ix, a) && InRange(owner[a], r)
    decreases |ix|
  {
    if ix != [] {
      PartialTail(ix, owner);
      RangeExact(ix[1..], owner, r);
      forall a ensures a in RangeAddrs(ix, r) <==> Holds(ix, a) && a in owner && InRange(owner[a], r) {
        HoldsCons(ix, a);
      }
      NoDupConcat(if InRange(ix[0].key, r) then ix[0].addrs else [], RangeAddrs(ix[1..], r));
    }
  }

  /** Disjoint ranges together list each fitting address once. */
  lemma {:induction false} ManyRangesExact(ix: Index, owner: map<Addr, Value>, rs: seq<Range>)
    requires Partial(ix, owner) && Disjoint(rs)
    ensures NoDup(ManyRanges(ix, rs))
    ensures forall a :: a in ManyRanges(ix, rs) <==> Holds(ix, a) && a in owner && Inside(owner[a], rs)
    decreases |rs|
  {
    if rs != [] {
      DisjointTail(rs);
      RangeExact(ix, owner, rs[0]);
      ManyRangesExact(ix, owner, rs[1..]);
      forall a ensures a in ManyRanges(ix, rs) <==> Holds(ix, a) && a in owner && Inside(owner[a], rs) {
        if a in owner { InsideCons(owner[a], rs); }
      }
      NoDupConcat(RangeAddrs(ix, rs[0]), ManyRanges(ix, rs[1..]));
    }
  }

  lemma {:induction false} LookupExact(ix: Index, owner: map<Addr, Value>, v: Value)
    requires Partial(ix, owner)
    ensures NoDup(Lookup(ix, v))
    ensures forall a :: a in Lookup(ix, v) <==> Holds(ix, a) && a in owner && owner[a] == v
    decreases |ix|
  {
    if ix != [] {
      PartialTail(ix, owner);
      LookupExact(ix[1..], owner, v);
      forall a ensures a in Lookup(ix, v) <==> Holds(ix, a) && a in owner && owner[a] == v {
        HoldsCons(ix, a);
        if ix[0].key == v && Holds(ix[1..], a) {
          var i :| 0 <= i < |ix[1..]| && a in ix[1..][i].addrs;
          assert ix[1..][i] == ix[i + 1];
          LessTotal(ix[0].key, ix[i + 1].key);
        }
      }
    }
  }

  // ---- upkeep ----

  predicate KeysAbove(k: Value, ix: Index) {
    forall i :: 0 <= i < |ix| ==> Less(k, ix[i].key)
  }

  lemma SortedCons(p: Posting, ix: Index)
    ensures Sorted([p] + ix) <==> KeysAbove(p.key, ix) && Sorted(ix)
  {
    if KeysAbove(p.key, ix) && Sorted(ix) { SortedWith(p, ix); }
    if Sorted([p] + ix) { SortedWithout(p, ix); }
  }

  lemma SortedWith(p: Posting, ix: Index)
    requires KeysAbove(p.key, ix) && Sorted(ix)
    ensures Sorted([p] + ix)
  {
    var all := [p] + ix;
    forall i, j | 0 <= i < j < |all| ensures Less(all[i].key, all[j].key) {
      assert all[j] == ix[j - 1];
      if i > 0 { assert all[i] == ix[i - 1]; }
    }
  }

  lemma SortedWithout(p: Posting, ix: Index)
    requires Sorted([p] + ix)
    ensures KeysAbove(p.key, ix) && Sorted(ix)
  {
    var all := [p] + ix;
    forall i | 0 <= i < |ix| ensures Less(p.key, ix[i].key) { assert all[0] == p && all[i + 1] == ix[i]; }
    forall i, j | 0 <= i < j < |ix| ensures Less(ix[i].key, ix[j].key) {
      assert all[i + 1] == ix[i] && all[j + 1] == ix[j];
    }
  }

  lemma KeysAboveFirst(ix: Index, v: Value)
    requires ix != [] && Sorted(ix) && Less(v, ix[0].key)
    ensures KeysAbove(v, ix)
  {
    forall i | 0 <= i < |ix| ensures Less(v, ix[i].key) {
      if i > 0 { LessTransitive(v, ix[0].key, ix[i].key); }
    }
  }

  lemma KeysAboveCons(k: Value, p: Posting, ix: Index)
    ensures KeysAbove(k, [p] + ix) <==> Less(k, p.key) && KeysAbove(k, ix)
  {
    var all := [p] + ix;
    assert all[0] == p && forall i :: 0 <= i < |ix| ==> all[i + 1] == ix[i];
    if KeysAbove(k, all) {
      forall i | 0 <= i < |ix| ensures Less(k, ix[i].key) { assert Less(k, all[i + 1].key); }
    }
  }

  lemma {:induction false} InsertAbove(ix: Index, v: Value, a: Addr, k: Value)
    requires KeysAbove(k, ix) && Less(k, v)
    ensures KeysAbove(k, Insert(ix, v, a))
    decreases |ix|
  {
    if ix != [] {
      var first, rest := ix[0], ix[1..];
      assert ix == [first] + rest;
      KeysAboveCons(k, first, rest);
      if first.key == v {
        KeysAboveCons(k, Posting(v, first.addrs + [a]), rest);
      } else if Less(v, first.key) {
        KeysAboveCons(k, Posting(v, [a]), ix);
      } else {
        InsertAbove(rest, v, a, k);
        KeysAboveCons(k, first, Insert(rest, v, a));
      }
    }
  }

  lemma {:induction false} InsertSorted(ix: Index, v: Value, a: Addr)
    requires Sorted(ix)
    ensures Sorted(Insert(ix, v, a))
    decreases |ix|
  {
    if ix != [] {
      var first, rest := ix[0], ix[1..];
      assert ix == [first] + rest;
      SortedCons(first, rest);
      LessTotal(v, first.key);
      if first.key == v {
        SortedCons(Posting(v, first.addrs + [a]), rest);
      } else if Less(v, first.key) {
        KeysAboveFirst(ix, v);
        SortedCons(Posting(v, [a]), ix);
      } else {
        InsertSorted(rest, v, a);
        InsertAbove(rest, v, a, first.key);
        SortedCons(first, Insert(rest, v, a));
      }
    }
  }

  /** Every posting of the new index is an old one, or the one of v with the address appended. */
  lemma {:induction false} InsertPostings(ix: Index, v: Value, a: Addr, p: Posting)
    ensures p in Insert(ix, v, a) ==>
      p in ix || (p.key == v
        && (p.addrs == [a] || (p.addrs != [] && Posting(v, p.addrs[..|p.addrs| - 1]) in ix && Last(p.addrs) == a)))
    decreases |ix|
  {
    if ix != [] {
      if ix[0].key == v {
        var q := Posting(v, ix[0].addrs + [a]);
        assert q.addrs[..|q.addrs| - 1] == ix[0].addrs;
      } else if !Less(v, ix[0].key) {
        InsertPostings(ix[1..], v, a, p);
      }
    }
  }

  lemma {:induction false} InsertHolds(ix: Index, v: Value, a: Addr, b: Addr)
    ensures Holds(Insert(ix, v, a), b) <==> Holds(ix, b) || b == a
    decreases |ix|
  {
    var out := Insert(ix, v, a);
    HoldsCons(out, b);
    if ix == [] {
      assert out[1..] == [];
    } else {
      HoldsCons(ix, b);
      if ix[0].key == v {
        assert out[1..] == ix[1..];
      } else if Less(v, ix[0].key) {
        assert out[1..] == ix;
      } else {
        assert out[1..] == Insert(ix[1..], v, a);
        InsertHolds(ix[1..], v, a, b);
      }
    }
  }

  /** Inserting a new address keeps the index complete for the enlarged table. */
  lemma InsertKeepsIndex(ix: Index, owner: map<Addr, Value>, v: Value, a: Addr)
    requires IndexOk(ix, owner) && a !in owner
    ensures IndexOk(Insert(ix, v, a), owner[a := v])
  {
    var out, more := Insert(ix, v, a), owner[a := v];
    InsertSorted(ix, v, a);
    forall i | 0 <= i < |out|
      ensures NoDup(out[i].addrs)
      ensures forall b :: b in out[i].addrs ==> b in more && more[b] == out[i].key
    {
      InsertPostings(ix, v, a, out[i]);
      PostingOk(ix, owner, v, a, out[i]);
    }
    forall b | b in more ensures Holds(out, b) { InsertHolds(ix, v, a, b); }
  }

  lemma PostingOk(ix: Index, owner: map<Addr, Value>, v: Value, a: Addr, p: Posting)
    requires Partial(ix, owner) && a !in owner
    requires p in ix
      || (p.key == v
        && (p.addrs == [a] || (p.addrs != [] && Posting(v, p.addrs[..|p.addrs| - 1]) in ix && Last(p.addrs) == a)))
    ensures NoDup(p.addrs) && forall b :: b in p.addrs ==> b in owner[a := v] && owner[a := v][b] == p.key
  {
    if p in ix {
      var i :| 0 <= i < |ix| && ix[i] == p;
    } else if p.addrs != [a] {
      var prior := p.addrs[..|p.addrs| - 1];
      var i :| 0 <= i < |ix| && ix[i] == Posting(v, prior);
      assert p.addrs == prior + [a];
      NoDupConcat(prior, [a]);
    }
  }
}
