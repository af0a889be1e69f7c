/** Time travel: what later writes may do to stored versions, and what a past snapshot sees. */
module Versions {
  import opened Core
  import opened IndexedQuery
  import opened SecondaryIndexes
  import opened PageUpdates

  /** `select` as of a transaction: visible rows in scan order, with their addresses. */
  function AsOf(rs: seq<Record>, snapshot: nat): seq<Hit> {
    if rs == [] then []
    else AsOf(rs[..|rs| - 1], snapshot) + if Sees(snapshot, Last(rs).env)
      then [Hit(Last(rs).addr, Last(rs).row)] else []
  }

  /**
   The hits are the rows there at a moment: inserted by then and not deleted until after it. Each is there once,
   in scan order; `list` has the index of each.
   */
  ghost predicate VisibleRows(rs: seq<Record>, at: nat, hits: seq<Hit>, list: seq<nat>) {
    && Ascending(list) && |list| == |hits|
    && (forall i: nat :: i in list <==>
          i < |rs| && rs[i].env.inserted <= at && (rs[i].env.deleted == 0 || at < rs[i].env.deleted))
    && (forall k :: 0 <= k < |list| ==> list[k] < |rs| && hits[k] == Hit(rs[list[k]].addr, rs[list[k]].row))
  }

  /** One more record at the end of the scan. */
  lemma VisibleSnoc(rs: seq<Record>, at: nat, hits: seq<Hit>, list: seq<nat>, i: nat)
    requires i < |rs| && VisibleRows(rs[..i], at, hits, list)
    ensures Sees(at, rs[i].env) ==> VisibleRows(rs[..i + 1], at, hits + [Hit(rs[i].addr, rs[i].row)], list + [i])
    ensures !Sees(at, rs[i].env) ==> VisibleRows(rs[..i + 1], at, hits, list)
  {
    assert forall k :: 0 <= k < i ==> rs[..i + 1][k] == rs[..i][k] == rs[k];
    assert forall k :: 0 <= k < |list| ==> list[k] in list;
  }

  /** What a snapshot sees is exactly that. */
  lemma {:induction false} AsOfIsVisible(rs: seq<Record>, at: nat) returns (list: seq<nat>)
    ensures VisibleRows(rs, at, AsOf(rs, at), list)
    decreases |rs|
  {
    if rs == [] {
      list := [];
    } else {
      var n := |rs| - 1;
      list := AsOfIsVisible(rs[..n], at);
      VisibleSnoc(rs, at, AsOf(rs[..n], at), list, n);
      WholePrefix(rs);
      if Sees(at, rs[n].env) { list := list + [n]; } else { NothingAdded(AsOf(rs[..n], at)); }
    }
  }

  /** The same stored version, at most tombstoned since the clock stood at t, and then only once. */
  predicate Aged(a: Record, b: Record, t: nat) {
    && b.addr == a.addr && b.row == a.row && b.env.inserted == a.env.inserted
    && (b.env.deleted == a.env.deleted || (a.env.deleted == 0 && b.env.deleted > t))
  }

  /** b is a after writes that began once the clock stood at t. */
  predicate Evolves(a: seq<Record>, b: seq<Record>, t: nat) {
    && |a| <= |b|
    && (forall i :: 0 <= i < |a| ==> Aged(a[i], b[i], t))
    && (forall i :: |a| <= i < |b| ==> b[i].env.inserted > t)
  }

  lemma EvolvesTransitive(a: seq<Record>, b: seq<Record>, c: seq<Record>, t: nat, u: nat)
    requires Evolves(a, b, t) && Evolves(b, c, u) && t <= u
    ensures Evolves(a, c, t)
  {
    forall i | 0 <= i < |a| ensures Aged(a[i], c[i], t) { assert Aged(a[i], b[i], t) && Aged(b[i], c[i], u); }
    forall i | |a| <= i < |c| ensures c[i].env.inserted > t {
      if i < |b| { assert Aged(b[i], c[i], u); }
    }
  }

  /** Reading as of any moment up to t gives the identical row sequence before and after. */
  lemma {:induction false} TimeTravel(a: seq<Record>, b: seq<Record>, t: nat, snapshot: nat)
    requires Evolves(a, b, t) && snapshot <= t
    ensures AsOf(b, snapshot) == AsOf(a, snapshot)
    decreases |b|
  {
    if b != [] {
      var n := |b| - 1;
      if |a| == |b| {
        assert Aged(a[n], b[n], t);
        TimeTravel(a[..n], b[..n], t, snapshot);
      } else {
        TimeTravel(a, b[..n], t, snapshot);
      }
    }
  }

  /** Once tombstoned, a version keeps that stamp through every later write. */
  lemma TombstoneIsFinal(a: seq<Record>, b: seq<Record>, t: nat, i: nat)
    requires Evolves(a, b, t) && i < |a| && a[i].env.deleted != 0
    ensures b[i] == a[i]
  {
    assert Aged(a[i], b[i], t);
  }

  // ---- single writes ----

  predicate Live(r: Record) { r.env.deleted == 0 }

  /** Stamps never exceed the clock, and a version is deleted after it was inserted. */
  predicate Timed(rs: seq<Record>, clock: nat) {
    forall i :: 0 <= i < |rs| ==>
      rs[i].env.inserted <= clock && (rs[i].env.deleted == 0 || rs[i].env.inserted < rs[i].env.deleted <= clock)
  }

  lemma LiveIsVisible(rs: seq<Record>, clock: nat, i: nat)
    requires Timed(rs, clock) && i < |rs|
    ensures Sees(clock, rs[i].env) <==> Live(rs[i])
  {}

  lemma AppendEvolves(rs: seq<Record>, r: Record, clock: nat)
    requires Timed(rs, clock) && r.env == Envelope(clock + 1, 0)
    ensures Evolves(rs, rs + [r], clock) && Timed(rs + [r], clock + 1)
  {}

}
