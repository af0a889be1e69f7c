/** Sums over maps, and integer keys in ascending order. */
module MapSums {
  import opened Core

  ghost function Total<K>(m: map<K, nat>): nat
    decreases |m|
  {
    if m == map[] then 0 else
    var k :| k in m;
    m[k] + Total(m - {k})
  }

  lemma {:induction false} TotalRemove<K>(m: map<K, nat>, k: K)
    requires k in m
    ensures Total(m) == m[k] + Total(m - {k})
    decreases |m|
  {
    var j :| j in m && Total(m) == m[j] + Total(m - {j});
    if j != k {
      TotalRemove(m - {j}, k);
      TotalRemove(m - {k}, j);
      assert m - {j} - {k} == m - {k} - {j};
    }
  }

  lemma TotalSet<K>(m: map<K, nat>, k: K, v: nat)
    ensures Total(m[k := v]) == Total(m - {k}) + v
  {
    TotalRemove(m[k := v], k);
    assert m[k := v] - {k} == m - {k};
  }

  lemma TotalDrop<K>(m: map<K, nat>, k: K)
    ensures Total(m - {k}) == if k in m then Total(m) - m[k] else Total(m)
  {
    if k in m { TotalRemove(m, k); } else { assert m - {k} == m; }
  }

  predicate Submap<K, V(==)>(a: map<K, V>, b: map<K, V>) {
    forall k :: k in a ==> k in b && a[k] == b[k]
  }

  lemma {:induction false} TotalSubmap<K>(a: map<K, nat>, b: map<K, nat>)
    requires Submap(a, b)
    ensures Total(a) <= Total(b)
    decreases |a|
  {
    if a != map[] {
      var k :| k in a;
      TotalRemove(a, k);
      TotalRemove(b, k);
      TotalSubmap(a - {k}, b - {k});
    }
  }

  // ---- ascending order ----

  predicate Ascends(s: seq<i64>) {
    forall i, j :: 0 <= i < j < |s| ==> s[i] < s[j]
  }

  ghost function Least(s: set<i64>): (k: i64)
    requires s != {}
    ensures k in s && forall j :: j in s ==> k <= j
  {
    assert exists k :: k in s && forall j :: j in s ==> k <= j by { var k := HasLeast(s, (k: i64) => k); }
    var k :| k in s && forall j :: j in s ==> k <= j;
    k
  }

  /** The order in which a BTreeMap or BTreeSet is walked. */
  ghost function InOrder(s: set<i64>): (r: seq<i64>)
    ensures forall k :: k in r <==> k in s
    ensures Ascends(r)
    decreases |s|
  {
    if s == {} then [] else
    var rest := InOrder(s - {Least(s)});
    [Least(s)] + rest
  }

  /** There is only one ascending list of a set. */
  lemma {:induction false} InOrderUnique(r: seq<i64>, s: set<i64>)
    requires Ascends(r) && forall k :: k in r <==> k in s
    ensures r == InOrder(s)
    decreases |r|
  {
    if r == [] {
      assert forall k :: k in s ==> k in r;
      assert s == {};
    } else {
      assert r[0] in s;
      assert Least(s) in r;
      var tail := r[1..];
      assert r == [r[0]] + tail;
      assert r[0] == Least(s);
      assert forall k :: k in tail ==> r[0] < k;
      InOrderUnique(tail, s - {r[0]});
    }
  }

  /** Walking a set in order. */
  method ListInOrder(s: set<i64>) returns (r: seq<i64>)
    ensures r == InOrder(s)
  {
    r := SortedBy(s, (k: i64) => k);
    InOrderUnique(r, s);
  }
}
