/** From byte listings to indexes and back: the text codec is canonical. */
module TextListing {
  import opened Core
  import opened Values
  import opened MapSums
  import opened TextIndex
  import opened TextCodec

  // ---- one document's terms ----

  predicate TermsAscend(ts: seq<TermCount>) {
    forall i, j :: 0 <= i < j < |ts| ==> SeqLess(ts[i].term, ts[j].term)
  }

  function TermMap(ts: seq<TermCount>): map<Term, nat> {
    if ts == [] then map[] else TermMap(ts[..|ts| - 1])[Last(ts).term := Last(ts).count]
  }

  function SumCounts(ts: seq<TermCount>): nat {
    if ts == [] then 0 else SumCounts(ts[..|ts| - 1]) + Last(ts).count
  }

  predicate DistinctTerms(ts: seq<TermCount>) {
    forall i, j :: 0 <= i < j < |ts| ==> ts[i].term != ts[j].term
  }

  lemma AscendDistinct(ts: seq<TermCount>)
    requires TermsAscend(ts)
    ensures DistinctTerms(ts)
  {
    forall i, j | 0 <= i < j < |ts| ensures ts[i].term != ts[j].term { SeqLessTotal(ts[i].term, ts[j].term); }
  }

  /** A list holds exactly the map's terms with their counts. */
  ghost predicate Lists(ts: seq<TermCount>, m: map<Term, nat>) {
    && (forall i :: 0 <= i < |ts| ==> ts[i].term in m && m[ts[i].term] == ts[i].count)
    && (forall t :: t in m ==> Listed(ts, t))
  }

  ghost predicate Listed(ts: seq<TermCount>, t: Term) {
    exists i :: 0 <= i < |ts| && ts[i].term == t
  }

  lemma ListsSnoc(ts: seq<TermCount>, m: map<Term, nat>, x: TermCount)
    requires Lists(ts, m) && !Listed(ts, x.term)
    ensures x.term !in m && Lists(ts + [x], m[x.term := x.count])
  {
    var all, more := ts + [x], m[x.term := x.count];
    forall i | 0 <= i < |all| ensures all[i].term in more && more[all[i].term] == all[i].count {
      if i < |ts| { assert all[i] == ts[i] && ts[i].term != x.term; }
    }
    forall t | t in more ensures Listed(all, t) {
      if t == x.term {
        assert all[|ts|].term == t;
      } else {
        assert Listed(ts, t);
        var i :| 0 <= i < |ts| && ts[i].term == t;
        assert all[i].term == t;
      }
    }
  }

  lemma {:induction false} TermMapExact(ts: seq<TermCount>)
    requires DistinctTerms(ts)
    ensures Lists(ts, TermMap(ts)) && |TermMap(ts)| == |ts| && Total(TermMap(ts)) == SumCounts(ts)
    decreases |ts|
  {
    if ts != [] {
      var n := |ts| - 1;
      var front, m, x := ts[..n], TermMap(ts[..n]), ts[n];
      assert ts == front + [x];
      TermMapExact(front);
      assert forall i :: 0 <= i < n ==> front[i] == ts[i];
      ListsSnoc(front, m, x);
      TotalSet(m, x.term, x.count);
      DropNothing(m, x.term);
    }
  }

  lemma DropNothing(m: map<Term, nat>, t: Term)
    requires t !in m
    ensures m - {t} == m
  {}

  // ---- the terms of a map in order ----

  predicate LeastTerm(s: set<Term>, t: Term) {
    t in s && forall u :: u in s && u != t ==> SeqLess(t, u)
  }

  lemma {:induction false} HasLeastTerm(s: set<Term>) returns (t: Term)
    requires s != {}
    ensures LeastTerm(s, t)
    decreases |s|
  {
    t :| t in s;
    if s != {t} {
      var rest := s - {t};
      var u := HasLeastTerm(rest);
      SeqLessTotal(t, u);
      if SeqLess(t, u) {
        forall v | v in s && v != t ensures SeqLess(t, v) {
          assert v in rest;
          if v != u { SeqLessTransitive(t, u, v); }
        }
      } else {
        forall v | v in s && v != u ensures SeqLess(u, v) { assert v == t || v in rest; }
        t := u;
      }
    }
  }

  ghost function FirstTerm(s: set<Term>): (t: Term)
    requires s != {}
    ensures LeastTerm(s, t)
  {
    assert exists t :: LeastTerm(s, t) by { var t := HasLeastTerm(s); }
    var t :| LeastTerm(s, t);
    t
  }

  ghost function TermsOf(m: map<Term, nat>): (r: seq<TermCount>)
    decreases |m|
  {
    if m.Keys == {} then [] else
    var t := FirstTerm(m.Keys);
    [TermCount(t, m[t])] + TermsOf(m - {t})
  }

  lemma ListsCons(x: TermCount, ts: seq<TermCount>, m: map<Term, nat>)
    requires x.term in m && m[x.term] == x.count && Lists(ts, m - {x.term})
    ensures Lists([x] + ts, m)
  {
    var all := [x] + ts;
    forall i | 0 <= i < |all| ensures all[i].term in m && m[all[i].term] == all[i].count {
      if i > 0 { assert all[i] == ts[i - 1]; }
    }
    forall t | t in m ensures Listed(all, t) {
      if t == x.term {
        assert all[0].term == t;
      } else {
        assert t in m - {x.term} && Listed(ts, t);
        var i :| 0 <= i < |ts| && ts[i].term == t;
        assert all[i + 1].term == t;
      }
    }
  }

  lemma {:induction false} TermsOfExact(m: map<Term, nat>)
    ensures Lists(TermsOf(m), m) && TermsAscend(TermsOf(m))
    decreases |m|
  {
    if m.Keys != {} {
      var t := FirstTerm(m.Keys);
      var rest := TermsOf(m - {t});
      TermsOfExact(m - {t});
      ListsCons(TermCount(t, m[t]), rest, m);
      forall i | 0 <= i < |rest| ensures SeqLess(t, rest[i].term) { assert rest[i].term in m - {t}; }
      TermsAscendCons(TermCount(t, m[t]), rest);
    }
  }

  lemma TermsAscendCons(x: TermCount, ts: seq<TermCount>)
    requires TermsAscend(ts) && forall i :: 0 <= i < |ts| ==> SeqLess(x.term, ts[i].term)
    ensures TermsAscend([x] + ts)
  {
    var all := [x] + ts;
    forall i, j | 0 <= i < j < |all| ensures SeqLess(all[i].term, all[j].term) {
      assert all[j] == ts[j - 1];
      if i > 0 { assert all[i] == ts[i - 1]; }
    }
  }

  lemma ListsTail(ts: seq<TermCount>, m: map<Term, nat>)
    requires ts != [] && TermsAscend(ts) && Lists(ts, m)
    ensures Lists(ts[1..], m - {ts[0].term}) && TermsAscend(ts[1..])
  {
    AscendDistinct(ts);
    var t, tail := ts[0].term, ts[1..];
    var less := m - {t};
    forall i | 0 <= i < |tail| ensures tail[i].term in less && less[tail[i].term] == tail[i].count {
      assert tail[i] == ts[i + 1];
    }
    forall u | u in less ensures Listed(tail, u) {
      assert Listed(ts, u);
      var i :| 0 <= i < |ts| && ts[i].term == u;
      assert tail[i - 1].term == u;
    }
    forall i, j | 0 <= i < j < |tail| ensures SeqLess(tail[i].term, tail[j].term) {
      assert tail[i] == ts[i + 1] && tail[j] == ts[j + 1];
    }
  }

  /** There is one ascending list of a map's terms. */
  lemma {:induction false} TermsOfUnique(ts: seq<TermCount>, m: map<Term, nat>)
    requires TermsAscend(ts) && Lists(ts, m)
    ensures ts == TermsOf(m)
    decreases |ts|
  {
    if ts == [] {
      assert forall t :: t in m.Keys ==> Listed(ts, t);
      assert m.Keys == {};
    } else {
      ListsTail(ts, m);
      FirstIsLeast(ts, m);
      TermsOfUnique(ts[1..], m - {ts[0].term});
      assert ts == [ts[0]] + ts[1..];
    }
  }

  lemma FirstIsLeast(ts: seq<TermCount>, m: map<Term, nat>)
    requires ts != [] && TermsAscend(ts) && Lists(ts, m)
    ensures m.Keys != {} && FirstTerm(m.Keys) == ts[0].term && m[ts[0].term] == ts[0].count
  {
    assert ts[0].term in m.Keys;
    var first := FirstTerm(m.Keys);
    assert Listed(ts, first);
    var i :| 0 <= i < |ts| && ts[i].term == first;
    SeqLessTotal(ts[0].term, first);
  }

  lemma ListsSameMap(ts: seq<TermCount>, a: map<Term, nat>, b: map<Term, nat>)
    requires Lists(ts, a) && Lists(ts, b)
    ensures a == b
  {
    forall t ensures (t in a <==> t in b) && (t in a ==> a[t] == b[t]) {
      if t in a || t in b {
        assert Listed(ts, t);
        var i :| 0 <= i < |ts| && ts[i].term == t;
      }
    }
  }

  // ---- documents ----

  function DocFrom(e: DocEntry): Document { Document(TermMap(e.terms), e.length, e.size) }

  function DocsFrom(ds: seq<DocEntry>): Docs {
    if ds == [] then map[] else DocsFrom(ds[..|ds| - 1])[Last(ds).id := DocFrom(Last(ds))]
  }

  ghost function EntryOf(id: Id, d: Document): DocEntry { DocEntry(id, d.length, d.bytes, TermsOf(d.terms)) }

  predicate IdsAscend(ds: seq<DocEntry>) {
    forall i, j :: 0 <= i < j < |ds| ==> ds[i].id < ds[j].id
  }

  lemma EntryRoundTrip(id: Id, d: Document)
    ensures DocFrom(EntryOf(id, d)) == d && TermsAscend(EntryOf(id, d).terms) && |EntryOf(id, d).terms| == |d.terms|
    ensures SumCounts(EntryOf(id, d).terms) == Total(d.terms)
  {
    var ts := TermsOf(d.terms);
    TermsOfExact(d.terms);
    AscendDistinct(ts);
    TermMapExact(ts);
    ListsSameMap(ts, TermMap(ts), d.terms);
  }

  lemma EntryCanonical(e: DocEntry)
    requires TermsAscend(e.terms)
    ensures EntryOf(e.id, DocFrom(e)) == e
  {
    AscendDistinct(e.terms);
    TermMapExact(e.terms);
    TermsOfUnique(e.terms, TermMap(e.terms));
  }

  /** The list holds exactly the corpus, document by document. */
  ghost predicate Holds(ds: seq<DocEntry>, docs: Docs) {
    && (forall i :: 0 <= i < |ds| ==> ds[i].id in docs && docs[ds[i].id] == DocFrom(ds[i]))
    && (forall id :: id in docs ==> HasId(ds, id))
  }

  ghost predicate HasId(ds: seq<DocEntry>, id: Id) {
    exists i :: 0 <= i < |ds| && ds[i].id == id
  }

  lemma HoldsSnoc(ds: seq<DocEntry>, docs: Docs, e: DocEntry)
    requires Holds(ds, docs) && !HasId(ds, e.id)
    ensures e.id !in docs && Holds(ds + [e], docs[e.id := DocFrom(e)])
  {
    var all, more := ds + [e], docs[e.id := DocFrom(e)];
    forall i | 0 <= i < |all| ensures all[i].id in more && more[all[i].id] == DocFrom(all[i]) {
      if i < |ds| { assert all[i] == ds[i] && ds[i].id != e.id; }
    }
    forall id | id in more ensures HasId(all, id) {
      if id == e.id {
        assert all[|ds|].id == id;
      } else {
        assert HasId(ds, id);
        var i :| 0 <= i < |ds| && ds[i].id == id;
        assert all[i].id == id;
      }
    }
  }

  function SumLengths(ds: seq<DocEntry>): nat {
    if ds == [] then 0 else SumLengths(ds[..|ds| - 1]) + Last(ds).length
  }

  function SumSizes(ds: seq<DocEntry>): nat {
    if ds == [] then 0 else SumSizes(ds[..|ds| - 1]) + Last(ds).size
  }

  function SumTerms(ds: seq<DocEntry>): nat {
    if ds == [] then 0 else SumTerms(ds[..|ds| - 1]) + |Last(ds).terms|
  }

  lemma NewDocSums(docs: Docs, id: Id, d: Document)
    requires id !in docs
    ensures Total(Lengths(docs[id := d])) == Total(Lengths(docs)) + d.length
    ensures Total(Sizes(docs[id := d])) == Total(Sizes(docs)) + d.bytes
    ensures |docs[id := d]| == |docs| + 1
  {
    SumsOfMore(docs, id, d);
    SumsOfLess(docs, id);
    DropAbsent(docs, id);
    TotalSet(Lengths(docs), id, d.length);
    TotalSet(Sizes(docs), id, d.bytes);
    assert docs[id := d].Keys == docs.Keys + {id};
  }

  ghost predicate Summed(ds: seq<DocEntry>, docs: Docs) {
    && Holds(ds, docs) && |docs| == |ds|
    && Total(Lengths(docs)) == SumLengths(ds) && Total(Sizes(docs)) == SumSizes(ds)
  }

  lemma SumsSnoc(ds: seq<DocEntry>, e: DocEntry)
    ensures SumLengths(ds + [e]) == SumLengths(ds) + e.length && SumSizes(ds + [e]) == SumSizes(ds) + e.size
    ensures SumTerms(ds + [e]) == SumTerms(ds) + |e.terms| && DocsFrom(ds + [e]) == DocsFrom(ds)[e.id := DocFrom(e)]
  {
    assert (ds + [e])[..|ds|] == ds;
  }

  lemma SummedSnoc(ds: seq<DocEntry>, docs: Docs, e: DocEntry)
    requires Summed(ds, docs) && !HasId(ds, e.id)
    ensures Summed(ds + [e], docs[e.id := DocFrom(e)])
  {
    HoldsSnoc(ds, docs, e);
    NewDocSums(docs, e.id, DocFrom(e));
    SumsSnoc(ds, e);
  }

  lemma IdsFront(ds: seq<DocEntry>, e: DocEntry)
    requires IdsAscend(ds + [e])
    ensures IdsAscend(ds) && !HasId(ds, e.id)
  {
    var all := ds + [e];
    assert all[|ds|] == e && forall i :: 0 <= i < |ds| ==> all[i] == ds[i];
  }

  /** The running totals of a list are the corpus totals. */
  lemma {:induction false} DocsFromExact(ds: seq<DocEntry>)
    requires IdsAscend(ds)
    ensures Summed(ds, DocsFrom(ds))
    decreases |ds|
  {
    if ds == [] {
      assert Lengths(map[]) == map[] && Sizes(map[]) == map[];
    } else {
      var front, e := ds[..|ds| - 1], Last(ds);
      assert ds == front + [e];
      IdsFront(front, e);
      DocsFromExact(front);
      SummedSnoc(front, DocsFrom(front), e);
      SumsSnoc(front, e);
    }
  }

  lemma HoldsSame(ds: seq<DocEntry>, a: Docs, b: Docs)
    requires Holds(ds, a) && Holds(ds, b)
    ensures a == b
  {
    forall id ensures (id in a <==> id in b) && (id in a ==> a[id] == b[id]) {
      if id in a || id in b {
        assert HasId(ds, id);
        var i :| 0 <= i < |ds| && ds[i].id == id;
      }
    }
  }

  /** The documents in the order they are written. */
  ghost function EntriesOf(docs: Docs): (ds: seq<DocEntry>)
    ensures |ds| == |InOrder(docs.Keys)|
    ensures forall i :: 0 <= i < |ds| ==>
      InOrder(docs.Keys)[i] in docs && ds[i] == EntryOf(InOrder(docs.Keys)[i], docs[InOrder(docs.Keys)[i]])
  {
    var ids := InOrder(docs.Keys);
    seq(|ids|, i requires 0 <= i < |ids| => assert ids[i] in ids; EntryOf(ids[i], docs[ids[i]]))
  }

  lemma EntriesExact(docs: Docs)
    ensures IdsAscend(EntriesOf(docs)) && Holds(EntriesOf(docs), docs) && DocsFrom(EntriesOf(docs)) == docs
    ensures forall i :: 0 <= i < |EntriesOf(docs)| ==> TermsAscend(EntriesOf(docs)[i].terms)
  {
    var ids, ds := InOrder(docs.Keys), EntriesOf(docs);
    forall i | 0 <= i < |ds| ensures ds[i].id in docs && docs[ds[i].id] == DocFrom(ds[i]) && TermsAscend(ds[i].terms) {
      EntryRoundTrip(ids[i], docs[ids[i]]);
    }
    forall id | id in docs ensures HasId(ds, id) {
      assert id in ids;
      var i :| 0 <= i < |ids| && ids[i] == id;
      assert ds[i].id == id;
    }
    DocsFromExact(ds);
    HoldsSame(ds, docs, DocsFrom(ds));
  }

  function IdsOf(ds: seq<DocEntry>): (ids: seq<Id>)
    ensures |ids| == |ds| && forall i :: 0 <= i < |ds| ==> ids[i] == ds[i].id
  {
    seq(|ds|, i requires 0 <= i < |ds| => ds[i].id)
  }

  lemma IdsInOrder(ds: seq<DocEntry>, docs: Docs)
    requires IdsAscend(ds) && Holds(ds, docs)
    ensures InOrder(docs.Keys) == IdsOf(ds)
  {
    var ids := IdsOf(ds);
    forall id ensures id in ids <==> id in docs.Keys {
      if id in docs {
        assert HasId(ds, id);
        var i :| 0 <= i < |ds| && ds[i].id == id;
        assert ids[i] == id;
      }
      if id in ids { var i :| 0 <= i < |ids| && ids[i] == id; }
    }
    InOrderUnique(ids, docs.Keys);
  }

  /** A consistent list is the one its corpus is written as. */
  lemma EntriesCanonical(ds: seq<DocEntry>)
    requires IdsAscend(ds) && forall i :: 0 <= i < |ds| ==> TermsAscend(ds[i].terms)
    ensures EntriesOf(DocsFrom(ds)) == ds
  {
    DocsFromExact(ds);
    IdsInOrder(ds, DocsFrom(ds));
    forall i | 0 <= i < |ds| ensures EntriesOf(DocsFrom(ds))[i] == ds[i] { EntryCanonical(ds[i]); }
  }
}
