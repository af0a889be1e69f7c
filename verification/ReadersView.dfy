/** What the next reader sees after a statement, in terms of what a reader saw before it. */
module ReadersView {
  import opened Core
  import opened Values
  import opened Predicates
  import opened IndexedQuery
  import opened SecondaryIndexes
  import opened PageUpdates
  import opened Versions
  import opened TableChanges
  import opened VersionedTable

  /** The hits to keep, in their order. */
  function Where(hits: seq<Hit>, keep: Hit -> bool): seq<Hit> {
    if hits == [] then []
    else Where(hits[..|hits| - 1], keep) + if keep(Last(hits)) then [Last(hits)] else []
  }

  function Elsewhere(addrs: seq<Addr>): Hit -> bool {
    (h: Hit) => h.addr !in addrs
  }

  function Unmatched(pred: Predicate, columns: seq<string>): Hit -> bool
    requires Resolves(columns, pred)
  {
    (h: Hit) => |h.row| == |columns| && !RowMatches(pred, columns, h.row)
  }

  function HitsOf(rs: seq<Record>): (hits: seq<Hit>)
    ensures |hits| == |rs| && forall i :: 0 <= i < |rs| ==> hits[i] == Hit(rs[i].addr, rs[i].row)
  {
    seq(|rs|, i requires 0 <= i < |rs| => Hit(rs[i].addr, rs[i].row))
  }

  lemma WhereSnoc(hits: seq<Hit>, h: Hit, keep: Hit -> bool)
    ensures Where(hits + [h], keep) == if keep(h) then Where(hits, keep) + [h] else Where(hits, keep)
  {
    assert (hits + [h])[..|hits|] == hits;
    NothingAdded(Where(hits, keep));
  }

  lemma AsOfStep(rs: seq<Record>, at: nat)
    requires rs != []
    ensures AsOf(rs, at) == if Sees(at, Last(rs).env) then AsOf(rs[..|rs| - 1], at) + [Hit(Last(rs).addr, Last(rs).row)]
      else AsOf(rs[..|rs| - 1], at)
  {
    NothingAdded(AsOf(rs[..|rs| - 1], at));
  }

  /** The same version, seen later exactly if it was seen before and is to be kept. */
  predicate SeenIfKept(a: Record, b: Record, keep: Hit -> bool, clock: nat, later: nat) {
    && b.addr == a.addr && b.row == a.row
    && (Sees(later, b.env) <==> Sees(clock, a.env) && keep(Hit(a.addr, a.row)))
  }

  lemma {:induction false} KeptIsRead(rs: seq<Record>, after: seq<Record>, keep: Hit -> bool, clock: nat, later: nat)
    requires |after| == |rs| && forall i :: 0 <= i < |rs| ==> SeenIfKept(rs[i], after[i], keep, clock, later)
    ensures AsOf(after, later) == Where(AsOf(rs, clock), keep)
    decreases |rs|
  {
    if rs != [] {
      var n := |rs| - 1;
      KeptIsRead(rs[..n], after[..n], keep, clock, later);
      AsOfStep(rs, clock);
      AsOfStep(after, later);
      assert SeenIfKept(rs[n], after[n], keep, clock, later);
      WhereSnoc(AsOf(rs[..n], clock), Hit(rs[n].addr, rs[n].row), keep);
    }
  }

  /** Tombstones hide exactly the records at their addresses. */
  lemma MarkedIsRead(rs: seq<Record>, addrs: seq<Addr>, clock: nat, later: nat)
    requires Timed(rs, clock) && clock < later
    ensures AsOf(Marked(rs, addrs, clock + 1), later) == Where(AsOf(rs, clock), Elsewhere(addrs))
  {
    var marked := Marked(rs, addrs, clock + 1);
    forall i | 0 <= i < |rs| ensures SeenIfKept(rs[i], marked[i], Elsewhere(addrs), clock, later) {
      assert marked[i] == Mark(rs[i], addrs, clock + 1);
    }
    KeptIsRead(rs, marked, Elsewhere(addrs), clock, later);
  }

  /** New versions are read after everything else, in their order. */
  lemma {:induction false} AppendedIsRead(rs: seq<Record>, news: seq<Record>, later: nat)
    requires forall i :: 0 <= i < |news| ==> Live(news[i]) && news[i].env.inserted <= later
    ensures AsOf(rs + news, later) == AsOf(rs, later) + HitsOf(news)
    decreases |news|
  {
    if news == [] {
      NothingAdded(rs);
      NothingAdded(AsOf(rs, later));
    } else {
      var front, r := news[..|news| - 1], Last(news);
      AppendedIsRead(rs, front, later);
      assert (rs + news)[..|rs| + |front|] == rs + front;
      assert HitsOf(news) == HitsOf(front) + [Hit(r.addr, r.row)];
      AddedInTurn(AsOf(rs, later), HitsOf(front), [Hit(r.addr, r.row)]);
    }
  }

  /** Time alone changes nothing. */
  lemma {:induction false} LaterIsSame(rs: seq<Record>, clock: nat, later: nat)
    requires Timed(rs, clock) && clock <= later
    ensures AsOf(rs, later) == AsOf(rs, clock)
    decreases |rs|
  {
    if rs != [] { LaterIsSame(rs[..|rs| - 1], clock, later); }
  }

  /** After an INSERT: everything read before it, then the new rows in their order. */
  lemma InsertShows(before: seq<Record>, after: seq<Record>, rows: seq<Row>, clock: nat)
    requires Timed(before, clock) && |after| == |before| + |rows| && after[..|before|] == before
    requires NewVersions(after[|before|..], rows, clock + 1)
    ensures AsOf(after, clock + |rows|) == AsOf(before, clock) + HitsOf(after[|before|..])
    ensures Rows(HitsOf(after[|before|..])) == rows
  {
    SplitAt(after, |before|);
    AppendedIsRead(before, after[|before|..], clock + |rows|);
    LaterIsSame(before, clock, clock + |rows|);
  }

  lemma OneDeleted(t: Table, pred: Predicate, clock: nat, r: Record)
    requires Resolves(t.columns, pred) && |r.row| == |t.columns| && r.env.inserted <= clock
    requires r.env.deleted == 0 || r.env.deleted <= clock
    ensures SeenIfKept(r, DeletedRecord(t, pred, clock, r), Unmatched(pred, t.columns), clock, clock + 1)
  {}

  /** After a DELETE: exactly the rows read before it of which the predicate is not true, in their order. */
  lemma DeleteShows(t: Table, pred: Predicate, clock: nat, after: seq<Record>)
    requires Resolves(t.columns, pred) && AllFit(t.records, |t.columns|) && Timed(t.records, clock)
    requires Deleted(t, pred, clock, after)
    ensures AsOf(after, clock + 1) == Where(AsOf(t.records, clock), Unmatched(pred, t.columns))
  {
    var keep := Unmatched(pred, t.columns);
    forall i | 0 <= i < |after| ensures SeenIfKept(t.records[i], after[i], keep, clock, clock + 1) {
      assert after[i] == DeletedRecord(t, pred, clock, t.records[i]);
      OneDeleted(t, pred, clock, t.records[i]);
    }
    KeptIsRead(t.records, after, keep, clock, clock + 1);
  }

  lemma ReplacementsAre(news: seq<Record>, hits: seq<Hit>, at: nat, v: Value, first: nat)
    requires RowsWide(Rows(hits), at) && NewVersions(news, Replaced(Rows(hits), at, v), first)
    ensures forall i :: 0 <= i < |news| ==> Live(news[i]) && news[i].env.inserted < first + |hits|
    ensures |news| == |hits| && forall i :: 0 <= i < |hits| ==> HitsOf(news)[i].row == hits[i].row[at := v]
  {}

  /** After an UPDATE: the rows it did not touch, in their order, then the replacements. */
  lemma UpdateShows(before: seq<Record>, after: seq<Record>, hits: seq<Hit>, at: nat, v: Value, clock: nat)
    requires Timed(before, clock) && RowsWide(Rows(hits), at) && Updated(before, after, hits, at, v, clock)
    ensures AsOf(after, clock + 1 + |hits|)
      == Where(AsOf(before, clock), Elsewhere(Addrs(hits))) + HitsOf(after[|before|..])
    ensures forall i :: 0 <= i < |hits| ==> HitsOf(after[|before|..])[i].row == hits[i].row[at := v]
  {
    var marked, news := after[..|before|], after[|before|..];
    ReplacementsAre(news, hits, at, v, clock + 2);
    AppendedAfter(before, marked, news, Addrs(hits), clock, clock + 1 + |hits|);
    SplitAt(after, |before|);
  }

  lemma AppendedAfter(before: seq<Record>, marked: seq<Record>, news: seq<Record>, addrs: seq<Addr>, clock: nat,
      later: nat)
    requires Timed(before, clock) && clock < later && marked == Marked(before, addrs, clock + 1)
    requires forall i :: 0 <= i < |news| ==> Live(news[i]) && news[i].env.inserted <= later
    ensures AsOf(marked + news, later) == Where(AsOf(before, clock), Elsewhere(addrs)) + HitsOf(news)
  {
    AppendedIsRead(marked, news, later);
    MarkedIsRead(before, addrs, clock, later);
  }
}
