/** Ranked all-term search, over a whole index or over a selected part of it. */
module TextSearch {
  import opened Core
  import opened MapSums
  import opened TextIndex

  /** Floating-point scoring, left uninterpreted: only the order of its operations matters. */
  datatype Scorer<!F> = Scorer(zero: F, add: (F, F) -> F, weight: (nat, nat, nat, nat, nat) -> F, above: (F, F) -> bool)

  datatype Hit<F> = Hit(id: Id, score: F)

  /** A query's distinct terms in order, with its byte length. */
  datatype Query = Query(bytes: nat, terms: seq<Term>)

  datatype Listed = Listed(term: Term, df: nat)

  // ---- what both searches compute ----

  /** The selected documents that hold a term. */
  function Holders(postings: Postings, t: Term, ids: set<Id>): set<Id> {
    if t in postings then set id | id in postings[t].Keys && id in ids else {}
  }

  function ListsFor(postings: Postings, terms: seq<Term>, ids: set<Id>): seq<Listed> {
    seq(|terms|, i requires 0 <= i < |terms| => Listed(terms[i], |Holders(postings, terms[i], ids)|))
  }

  predicate AllFound(lists: seq<Listed>) {
    forall i :: 0 <= i < |lists| ==> lists[i].df > 0
  }

  /** A stable sort by document frequency. */
  function InsertByDf(s: seq<Listed>, x: Listed): (r: seq<Listed>)
    ensures |r| == |s| + 1
  {
    if s == [] || Last(s).df <= x.df then s + [x]
    else InsertByDf(s[..|s| - 1], x) + [Last(s)]
  }

  function SortByDf(s: seq<Listed>): (r: seq<Listed>)
    ensures |r| == |s|
  {
    if s == [] then [] else InsertByDf(SortByDf(s[..|s| - 1]), Last(s))
  }

  /** The corpus figures a score depends on. */
  datatype Corpus = Corpus(n: nat, tokens: nat)

  /** The sum of the first k weights, added in list order. */
  function ScoreOf<F>(sc: Scorer<F>, corpus: Corpus, postings: Postings, docs: Docs, lists: seq<Listed>, id: Id,
      k: nat): F
    requires id in docs && k <= |lists|
  {
    if k == 0 then sc.zero else
    var l := lists[k - 1];
    sc.add(ScoreOf(sc, corpus, postings, docs, lists, id, k - 1),
           sc.weight(corpus.n, l.df, PostFreq(postings, l.term, id), docs[id].length, corpus.tokens))
  }

  predicate Matches(postings: Postings, lists: seq<Listed>, id: Id) {
    forall i :: 0 <= i < |lists| ==> PostFreq(postings, lists[i].term, id) > 0
  }

  function HitsOf<F>(sc: Scorer<F>, corpus: Corpus, postings: Postings, docs: Docs, lists: seq<Listed>,
      ids: seq<Id>): seq<Hit<F>>
    requires forall id :: id in ids ==> id in docs
  {
    if ids == [] then [] else
    var id := Last(ids);
    HitsOf(sc, corpus, postings, docs, lists, ids[..|ids| - 1]) +
    if Matches(postings, lists, id) then [Hit(id, ScoreOf(sc, corpus, postings, docs, lists, id, |lists|))] else []
  }

  /** Higher scores first, equal ones by ascending id. */
  predicate Before<F>(sc: Scorer<F>, a: Hit<F>, b: Hit<F>) {
    sc.above(a.score, b.score) || (!sc.above(b.score, a.score) && a.id < b.id)
  }

  function InsertHit<F>(sc: Scorer<F>, s: seq<Hit<F>>, x: Hit<F>): seq<Hit<F>> {
    if |s| == 0 || !Before(sc, x, Last(s)) then s + [x]
    else InsertHit(sc, s[..|s| - 1], x) + [Last(s)]
  }

  function SortHits<F>(sc: Scorer<F>, s: seq<Hit<F>>): seq<Hit<F>> {
    if |s| == 0 then [] else InsertHit(sc, SortHits(sc, s[..|s| - 1]), Last(s))
  }

  function Take<T>(s: seq<T>, n: nat): seq<T> { if n < |s| then s[..n] else s }

  predicate QueryOk(q: Query, limit: nat) {
    q.bytes <= 1024 && limit <= 100 && |q.terms| <= 32
  }

  /** The answer over the documents in `ids`. */
  ghost function Answer<F>(sc: Scorer<F>, docs: Docs, postings: Postings, ids: set<Id>, tokens: nat, q: Query,
      limit: nat): Result<seq<Hit<F>>>
    requires forall id :: id in ids ==> id in docs
  {
    if !QueryOk(q, limit) then Err(ResourceLimit)
    else if q.terms == [] || limit == 0 || tokens == 0 then Ok([])
    else
      var lists := ListsFor(postings, q.terms, ids);
      if !AllFound(lists) then Ok([])
      else
        var sorted := SortByDf(lists);
        var candidates := InOrder(Holders(postings, sorted[0].term, ids));
        Ok(Take(SortHits(sc, HitsOf(sc, Corpus(|ids|, tokens), postings, docs, sorted, candidates)), limit))
  }

  // ---- restricting the corpus ----

  function Restrict(docs: Docs, ids: set<Id>): Docs {
    map id | id in docs && id in ids :: docs[id]
  }

  lemma HoldersRestricted(docs: Docs, postings: Postings, less: Postings, ids: set<Id>, t: Term)
    requires Transposed(docs, postings) && Transposed(Restrict(docs, ids), less)
    ensures Holders(postings, t, ids) == Holders(less, t, ids)
    ensures forall id :: id in ids ==> PostFreq(postings, t, id) == PostFreq(less, t, id)
  {
    forall id | id in ids ensures PostFreq(postings, t, id) == PostFreq(less, t, id) {
      assert DocFreq(docs, id, t) == DocFreq(Restrict(docs, ids), id, t);
    }
    forall id ensures id in Holders(postings, t, ids) <==> id in Holders(less, t, ids) {
      assert id in ids ==> PostFreq(postings, t, id) == PostFreq(less, t, id);
    }
  }

  lemma {:induction false} ScoreRestricted<F>(sc: Scorer<F>, corpus: Corpus, docs: Docs, postings: Postings,
      less: Postings, ids: set<Id>,
                                              lists: seq<Listed>, id: Id, k: nat)
    requires Transposed(docs, postings) && Transposed(Restrict(docs, ids), less) && id in ids && id in docs
      && k <= |lists|
    ensures ScoreOf(sc, corpus, postings, docs, lists, id, k)
      == ScoreOf(sc, corpus, less, Restrict(docs, ids), lists, id, k)
    decreases k
  {
    if k > 0 {
      ScoreRestricted(sc, corpus, docs, postings, less, ids, lists, id, k - 1);
      HoldersRestricted(docs, postings, less, ids, lists[k - 1].term);
    }
  }

  lemma MatchesRestricted(docs: Docs, postings: Postings, less: Postings, ids: set<Id>, lists: seq<Listed>, id: Id)
    requires Transposed(docs, postings) && Transposed(Restrict(docs, ids), less) && id in ids
    ensures Matches(postings, lists, id) <==> Matches(less, lists, id)
  {
    forall i | 0 <= i < |lists| ensures PostFreq(postings, lists[i].term, id) == PostFreq(less, lists[i].term, id) {
      HoldersRestricted(docs, postings, less, ids, lists[i].term);
    }
  }

  lemma {:induction false} HitsRestricted<F>(sc: Scorer<F>, corpus: Corpus, docs: Docs, postings: Postings,
      less: Postings, ids: set<Id>,
                                             lists: seq<Listed>, some: seq<Id>)
    requires Transposed(docs, postings) && Transposed(Restrict(docs, ids), less)
    requires forall id :: id in some ==> id in ids && id in docs
    ensures HitsOf(sc, corpus, postings, docs, lists, some)
      == HitsOf(sc, corpus, less, Restrict(docs, ids), lists, some)
    decreases |some|
  {
    if some != [] {
      HitsRestricted(sc, corpus, docs, postings, less, ids, lists, some[..|some| - 1]);
      MatchesRestricted(docs, postings, less, ids, lists, Last(some));
      ScoreRestricted(sc, corpus, docs, postings, less, ids, lists, Last(some), |lists|);
    }
  }

  /** Searching the selected documents is searching an index of those documents alone. */
  lemma AnswerRestricted<F>(sc: Scorer<F>, docs: Docs, postings: Postings, less: Postings, ids: set<Id>, tokens: nat,
      q: Query, limit: nat)
    requires Transposed(docs, postings) && Transposed(Restrict(docs, ids), less) && forall id :: id in ids ==>
      id in docs
    ensures Answer(sc, docs, postings, ids, tokens, q, limit)
      == Answer(sc, Restrict(docs, ids), less, ids, tokens, q, limit)
  {
    forall i | 0 <= i < |q.terms| ensures Holders(postings, q.terms[i], ids) == Holders(less, q.terms[i], ids) {
      HoldersRestricted(docs, postings, less, ids, q.terms[i]);
    }
    var lists := ListsFor(postings, q.terms, ids);
    assert lists == ListsFor(less, q.terms, ids);
    if q.terms != [] && AllFound(lists) {
      var sorted := SortByDf(lists);
      HoldersRestricted(docs, postings, less, ids, sorted[0].term);
      HitsRestricted(sc, Corpus(|ids|, tokens), docs, postings, less, ids, sorted,
        InOrder(Holders(postings, sorted[0].term, ids)));
    }
  }

  // ---- the searches as they run ----

  /** The terms' lists, or None when some term is in no selected document. */
  method CollectLists(postings: Postings, terms: seq<Term>, ids: set<Id>) returns (r: Option<seq<Listed>>)
    ensures r == if AllFound(ListsFor(postings, terms, ids)) then Some(ListsFor(postings, terms, ids)) else None
  {
    var lists: seq<Listed> := [];
    for i := 0 to |terms|
      invariant |lists| == i && forall k :: 0 <= k < i ==>
        lists[k] == ListsFor(postings, terms, ids)[k] && lists[k].df > 0
    {
      var df := |Holders(postings, terms[i], ids)|;
      if df == 0 {
        assert ListsFor(postings, terms, ids)[i].df == 0;
        return None;
      }
      lists := lists + [Listed(terms[i], df)];
    }
    assert lists == ListsFor(postings, terms, ids);
    r := Some(lists);
  }

  /** One candidate: None when a term is missing, else the sum in list order. */
  method ScoreOne<F>(sc: Scorer<F>, corpus: Corpus, postings: Postings, docs: Docs, lists: seq<Listed>, id: Id)
      returns (r: Option<F>)
    requires id in docs
    ensures r == if Matches(postings, lists, id) then Some(ScoreOf(sc, corpus, postings, docs, lists, id, |lists|))
      else None
  {
    var score := sc.zero;
    for k := 0 to |lists|
      invariant forall i :: 0 <= i < k ==> PostFreq(postings, lists[i].term, id) > 0
      invariant score == ScoreOf(sc, corpus, postings, docs, lists, id, k)
    {
      var tf := PostFreq(postings, lists[k].term, id);
      if tf == 0 { return None; }
      score := sc.add(score, sc.weight(corpus.n, lists[k].df, tf, docs[id].length, corpus.tokens));
    }
    r := Some(score);
  }

  method CollectHits<F>(sc: Scorer<F>, corpus: Corpus, postings: Postings, docs: Docs, lists: seq<Listed>, ids: seq<Id>)
      returns (hits: seq<Hit<F>>)
    requires forall id :: id in ids ==> id in docs
    ensures hits == HitsOf(sc, corpus, postings, docs, lists, ids)
  {
    hits := [];
    for i := 0 to |ids|
      invariant hits == HitsOf(sc, corpus, postings, docs, lists, ids[..i])
    {
      var score := ScoreOne(sc, corpus, postings, docs, lists, ids[i]);
      if score.Some? { hits := hits + [Hit(ids[i], score.value)]; }
      assert ids[..i + 1][..i] == ids[..i];
    }
    assert ids[..|ids|] == ids;
  }

  /** The filtered search, over the selected ids. */
  method Ranked<F>(sc: Scorer<F>, docs: Docs, postings: Postings, ids: set<Id>, tokens: nat, q: Query, limit: nat)
      returns (r: Result<seq<Hit<F>>>)
    requires forall id :: id in ids ==> id in docs
    ensures r == Answer(sc, docs, postings, ids, tokens, q, limit)
  {
    if q.bytes > 1024 || limit > 100 || |q.terms| > 32 { return Err(ResourceLimit); }
    if q.terms == [] || limit == 0 || tokens == 0 { return Ok([]); }
    var lists := CollectLists(postings, q.terms, ids);
    if lists.None? { return Ok([]); }
    var sorted := SortByDf(lists.value);
    var candidates := ListInOrder(Holders(postings, sorted[0].term, ids));
    var hits := CollectHits(sc, Corpus(|ids|, tokens), postings, docs, sorted, candidates);
    r := Ok(Take(SortHits(sc, hits), limit));
  }

  /** The answer over a corpus, whatever index holds it. */
  ghost function Find<F>(sc: Scorer<F>, docs: Docs, q: Query, limit: nat): Result<seq<Hit<F>>> {
    Answer(sc, docs, Transpose(docs), docs.Keys, Total(Lengths(docs)), q, limit)
  }

  /** Every posting is a document's, so unfiltered postings are the holders among all documents. */
  lemma HoldersOfAll(docs: Docs, postings: Postings, t: Term)
    requires Transposed(docs, postings)
    ensures Holders(postings, t, docs.Keys) == if t in postings then postings[t].Keys else {}
    ensures t in postings <==> |Holders(postings, t, docs.Keys)| > 0
  {
    if t in postings {
      forall id | id in postings[t] ensures id in docs {
        assert PostFreq(postings, t, id) == DocFreq(docs, id, t);
      }
      assert Holders(postings, t, docs.Keys) == postings[t].Keys;
      assert postings[t] != map[];
    }
  }

  lemma {:induction false} SortKeepsMembers(s: seq<Listed>)
    ensures forall x :: x in SortByDf(s) ==> x in s
    decreases |s|
  {
    if s != [] {
      SortKeepsMembers(s[..|s| - 1]);
      InsertMembers(SortByDf(s[..|s| - 1]), Last(s));
    }
  }

  lemma {:induction false} InsertMembers(s: seq<Listed>, x: Listed)
    ensures forall y :: y in InsertByDf(s, x) ==> y in s || y == x
    decreases |s|
  {
    if !(s == [] || Last(s).df <= x.df) { InsertMembers(s[..|s| - 1], x); }
  }

  /** The terms' whole posting lists, or None when some term has none. */
  method CollectPostings(postings: Postings, terms: seq<Term>, ghost docs: Docs) returns (r: Option<seq<Listed>>)
    requires Transposed(docs, postings)
    ensures var lists := ListsFor(postings, terms, docs.Keys); r == if AllFound(lists) then Some(lists) else None
    ensures r.Some? ==> forall i :: 0 <= i < |r.value| ==> r.value[i].term in postings
  {
    ghost var all := ListsFor(postings, terms, docs.Keys);
    var lists: seq<Listed> := [];
    for i := 0 to |terms|
      invariant |lists| == i && forall k :: 0 <= k < i ==> lists[k] == all[k] && lists[k].df > 0
      invariant forall k :: 0 <= k < i ==> lists[k].term in postings
    {
      HoldersOfAll(docs, postings, terms[i]);
      assert all[i] == Listed(terms[i], |Holders(postings, terms[i], docs.Keys)|);
      if terms[i] !in postings { return None; }
      lists := lists + [Listed(terms[i], |postings[terms[i]]|)];
    }
    assert lists == all;
    r := Some(lists);
  }

  /** `search`: whole posting lists, their lengths as frequencies and the shortest one's documents as candidates. */
  method Search<F(!new)>(ix: SearchIndex, sc: Scorer<F>, q: Query, limit: nat) returns (r: Result<seq<Hit<F>>>)
    requires ix.Valid()
    ensures r == Find(sc, ix.documents, q, limit)
    ensures StrictWeak(sc.above) ==> RankedAnswer(sc, ix.documents, q, limit, r)
  {
    PostingsAreTranspose(ix.documents, ix.postings);
    if StrictWeak(sc.above) { FindIsRanked(sc, ix.documents, q, limit); }
    if q.bytes > 1024 || limit > 100 || |q.terms| > 32 { return Err(ResourceLimit); }
    if q.terms == [] || limit == 0 || ix.totalTokens == 0 { return Ok([]); }
    var lists := CollectPostings(ix.postings, q.terms, ix.documents);
    if lists.None? { return Ok([]); }
    var sorted := SortByDf(lists.value);
    SortKeepsMembers(lists.value);
    assert sorted[0] in sorted;
    HoldersOfAll(ix.documents, ix.postings, sorted[0].term);
    var candidates := ListInOrder(ix.postings[sorted[0].term].Keys);
    var corpus := Corpus(|ix.documents|, ix.totalTokens);
    var hits := CollectHits(sc, corpus, ix.postings, ix.documents, sorted, candidates);
    r := Ok(Take(SortHits(sc, hits), limit));
  }

  /** The tokens of the selected documents, summed one by one. */
  method SumLengths(docs: Docs, ids: set<Id>) returns (n: nat)
    requires forall id :: id in ids ==> id in docs
    ensures n == Total(Lengths(Restrict(docs, ids)))
  {
    n := 0;
    var rest := ids;
    assert Lengths(Restrict(docs, {})) == map[];
    assert ids - rest == {};
    while rest != {}
      invariant rest <= ids && n == Total(Lengths(Restrict(docs, ids - rest)))
      decreases |rest|
    {
      var id :| id in rest;
      LengthsGrow(docs, ids - rest, id);
      assert ids - (rest - {id}) == (ids - rest) + {id};
      n := n + docs[id].length;
      rest := rest - {id};
    }
    assert ids - rest == ids;
  }

  lemma LengthsGrow(docs: Docs, some: set<Id>, id: Id)
    requires id in docs && id !in some
    ensures Total(Lengths(Restrict(docs, some + {id}))) == Total(Lengths(Restrict(docs, some))) + docs[id].length
  {
    var before, after := Lengths(Restrict(docs, some)), Lengths(Restrict(docs, some + {id}));
    assert after == before[id := docs[id].length] && before - {id} == before;
    TotalSet(before, id, docs[id].length);
  }

  lemma AllSelected(docs: Docs, ids: set<Id>)
    requires (forall id :: id in ids ==> id in docs) && |ids| == |docs|
    ensures ids == docs.Keys && Restrict(docs, ids) == docs
  {
    SubsetCard(ids, docs.Keys);
  }

  lemma RestrictOk(docs: Docs, ids: set<Id>)
    requires DocsOk(docs)
    ensures DocsOk(Restrict(docs, ids))
  {}

  lemma RestrictPositive(docs: Docs, ids: set<Id>)
    requires DocsPositive(docs)
    ensures DocsPositive(Restrict(docs, ids))
  {}

  /** `search_filtered`: the same hits, scores and order as searching an index of those documents alone. */
  method SearchFiltered<F(!new)>(ix: SearchIndex, sc: Scorer<F>, q: Query, limit: nat, ids: set<Id>)
      returns (r: Result<seq<Hit<F>>>)
    requires ix.Valid()
    ensures |ids| > MAX_DOCUMENTS || (exists id :: id in ids && id !in ix.documents) ==> r == Err(Error.Query)
    ensures |ids| <= MAX_DOCUMENTS && (forall id :: id in ids ==> id in ix.documents) ==>
      r == Find(sc, Restrict(ix.documents, ids), q, limit)
    ensures |ids| <= MAX_DOCUMENTS && (forall id :: id in ids ==> id in ix.documents) && StrictWeak(sc.above) ==>
      RankedAnswer(sc, Restrict(ix.documents, ids), q, limit, r)
  {
    if StrictWeak(sc.above) {
      RestrictPositive(ix.documents, ids);
      RestrictOk(ix.documents, ids);
      FindIsRanked(sc, Restrict(ix.documents, ids), q, limit);
    }
    if |ids| > MAX_DOCUMENTS || exists id :: id in ids && id !in ix.documents { return Err(Error.Query); }
    if |ids| == |ix.documents| {
      AllSelected(ix.documents, ids);
      r := Search(ix, sc, q, limit);
    } else {
      var tokens := SumLengths(ix.documents, ids);
      r := Ranked(sc, ix.documents, ix.postings, ids, tokens, q, limit);
      RestrictPositive(ix.documents, ids);
      TransposeOk(Restrict(ix.documents, ids));
      AnswerRestricted(sc, ix.documents, ix.postings, Transpose(Restrict(ix.documents, ids)), ids, tokens, q, limit);
      assert Restrict(ix.documents, ids).Keys == ids;
    }
  }

  // ---- the stable sort ----

  predicate ByDf(s: seq<Listed>) {
    forall i, j :: 0 <= i < j < |s| ==> s[i].df <= s[j].df
  }

  /** The entries of one frequency, in list order. */
  function OfDf(s: seq<Listed>, df: nat): seq<Listed> {
    if s == [] then [] else OfDf(s[..|s| - 1], df) + if Last(s).df == df then [Last(s)] else []
  }

  lemma OfDfSnoc(s: seq<Listed>, x: Listed, df: nat)
    ensures OfDf(s + [x], df) == OfDf(s, df) + if x.df == df then [x] else []
  {
    assert (s + [x])[..|s|] == s;
  }

  predicate AtMost(s: seq<Listed>, df: nat) {
    forall i :: 0 <= i < |s| ==> s[i].df <= df
  }

  lemma ByDfSnoc(s: seq<Listed>, x: Listed)
    ensures ByDf(s + [x]) <==> ByDf(s) && AtMost(s, x.df)
  {
    var all := s + [x];
    assert all[|s|] == x && forall i :: 0 <= i < |s| ==> all[i] == s[i];
  }

  lemma {:induction false} InsertSorted(s: seq<Listed>, x: Listed, top: nat)
    requires ByDf(s)
    ensures ByDf(InsertByDf(s, x)) && (AtMost(s, top) && x.df <= top ==> AtMost(InsertByDf(s, x), top))
    decreases |s|
  {
    if s == [] {
      assert s + [x] == [x];
    } else {
      var front := s[..|s| - 1];
      assert s == front + [Last(s)];
      ByDfSnoc(front, Last(s));
      if Last(s).df <= x.df {
        assert AtMost(s, x.df);
        ByDfSnoc(s, x);
      } else {
        InsertSorted(front, x, Last(s).df);
        InsertSorted(front, x, top);
        ByDfSnoc(InsertByDf(front, x), Last(s));
      }
    }
  }

  lemma {:induction false} InsertStable(s: seq<Listed>, x: Listed, df: nat)
    requires ByDf(s)
    ensures OfDf(InsertByDf(s, x), df) == OfDf(s, df) + if x.df == df then [x] else []
    decreases |s|
  {
    if s == [] || Last(s).df <= x.df {
      OfDfSnoc(s, x, df);
    } else {
      var front := s[..|s| - 1];
      InsertStable(front, x, df);
      OfDfSnoc(InsertByDf(front, x), Last(s), df);
    }
  }

  /** Sorted by frequency, and lists of equal frequency keep their order, so the sums add in one order. */
  lemma {:induction false} SortIsStable(s: seq<Listed>, df: nat)
    ensures ByDf(SortByDf(s)) && OfDf(SortByDf(s), df) == OfDf(s, df)
    decreases |s|
  {
    if s != [] {
      SortIsStable(s[..|s| - 1], df);
      InsertSorted(SortByDf(s[..|s| - 1]), Last(s), 0);
      InsertStable(SortByDf(s[..|s| - 1]), Last(s), df);
    }
  }

  // ---- what a ranked answer is ----

  /** Scores can be ranked: nothing is above itself, and what is above passes through equals. */
  ghost predicate StrictWeak<F(!new)>(above: (F, F) -> bool) {
    && (forall a :: !above(a, a))
    && (forall a, b, c :: above(a, b) && above(b, c) ==> above(a, c))
    && (forall a, b, c :: above(a, c) ==> above(a, b) || above(b, c))
  }

  /** The better score, and among equals the smaller id. */
  predicate Outranks<F>(sc: Scorer<F>, a: Hit<F>, b: Hit<F>) {
    sc.above(a.score, b.score) || (!sc.above(b.score, a.score) && a.id < b.id)
  }

  /** The document has every term of the query. */
  predicate HoldsAll(docs: Docs, terms: seq<Term>, id: Id) {
    id in docs && forall t :: t in terms ==> t in docs[id].terms
  }

  /** How many documents hold a term. */
  function DocumentFrequency(docs: Docs, t: Term): nat {
    |set id | id in docs && t in docs[id].terms|
  }

  /** The terms of one frequency, in order. */
  function OfFrequency(docs: Docs, terms: seq<Term>, df: nat): seq<Term> {
    if terms == [] then [] else
    OfFrequency(docs, terms[..|terms| - 1], df) +
    if DocumentFrequency(docs, Last(terms)) == df then [Last(terms)] else []
  }

  /** The query's terms, rarest first, those of equal frequency in their own order. */
  ghost predicate RarestFirst(docs: Docs, terms: seq<Term>, ts: seq<Term>) {
    && |ts| == |terms| && multiset(ts) == multiset(terms)
    && (forall i, j :: 0 <= i < j < |ts| ==> DocumentFrequency(docs, ts[i]) <= DocumentFrequency(docs, ts[j]))
    && (forall df :: OfFrequency(docs, ts, df) == OfFrequency(docs, terms, df))
  }

  /** The weights of the first k terms in one document, added in that order. */
  ghost function SumOf<F>(sc: Scorer<F>, docs: Docs, ts: seq<Term>, id: Id, k: nat): F
    requires k <= |ts| && HoldsAll(docs, ts, id)
  {
    if k == 0 then sc.zero else
    sc.add(SumOf(sc, docs, ts, id, k - 1),
           sc.weight(|docs|, DocumentFrequency(docs, ts[k - 1]), docs[id].terms[ts[k - 1]], docs[id].length,
                     Total(Lengths(docs))))
  }

  /** Exactly the documents with every term, each once, with its sum, best first. */
  ghost predicate Ranking<F>(sc: Scorer<F>, docs: Docs, terms: seq<Term>, ts: seq<Term>, all: seq<Hit<F>>) {
    && (forall i, j :: 0 <= i < j < |all| ==> Outranks(sc, all[i], all[j]) && all[i].id != all[j].id)
    && (forall i :: 0 <= i < |all| ==>
          HoldsAll(docs, ts, all[i].id) && all[i].score == SumOf(sc, docs, ts, all[i].id, |ts|))
    && (forall id :: HoldsAll(docs, terms, id) ==> exists i :: 0 <= i < |all| && all[i].id == id)
  }

  /** The best of the ranking. */
  ghost predicate Best<F>(sc: Scorer<F>, docs: Docs, terms: seq<Term>, limit: nat, hits: seq<Hit<F>>, ts: seq<Term>,
      all: seq<Hit<F>>) {
    && RarestFirst(docs, terms, ts) && Ranking(sc, docs, terms, ts, all)
    && hits == if limit < |all| then all[..limit] else all
  }

  /** The answer to a query over a corpus: refused past the limits, else the best of the ranking. */
  ghost predicate RankedAnswer<F(!new)>(sc: Scorer<F>, docs: Docs, q: Query, limit: nat, r: Result<seq<Hit<F>>>) {
    if q.bytes > 1024 || limit > 100 || |q.terms| > 32 then r == Err(ResourceLimit)
    else if q.terms == [] then r == Ok([])
    else r.Ok? && exists ts, all :: Best(sc, docs, q.terms, limit, r.value, ts, all)
  }

  // ---- sorting the hits ----

  ghost predicate DistinctHits<F>(s: seq<Hit<F>>) {
    forall i, j :: 0 <= i < j < |s| ==> s[i].id != s[j].id
  }

  ghost predicate InRank<F>(sc: Scorer<F>, s: seq<Hit<F>>) {
    forall i, j :: 0 <= i < j < |s| ==> Outranks(sc, s[i], s[j])
  }

  lemma OutranksTransitive<F(!new)>(sc: Scorer<F>, a: Hit<F>, b: Hit<F>, c: Hit<F>)
    requires StrictWeak(sc.above) && Outranks(sc, a, b) && Outranks(sc, b, c)
    ensures Outranks(sc, a, c)
  {}

  lemma OutranksTotal<F(!new)>(sc: Scorer<F>, a: Hit<F>, b: Hit<F>)
    requires StrictWeak(sc.above) && a.id != b.id
    ensures Outranks(sc, a, b) || Outranks(sc, b, a)
  {}

  lemma InRankSnoc<F>(sc: Scorer<F>, s: seq<Hit<F>>, x: Hit<F>)
    ensures InRank(sc, s + [x]) <==> InRank(sc, s) && forall i :: 0 <= i < |s| ==> Outranks(sc, s[i], x)
  {
    var all := s + [x];
    assert all[|s|] == x && forall i :: 0 <= i < |s| ==> all[i] == s[i];
  }

  /** Inserting keeps the rank order and every hit. */
  lemma {:induction false} InsertRanked<F(!new)>(sc: Scorer<F>, s: seq<Hit<F>>, x: Hit<F>)
    requires StrictWeak(sc.above) && InRank(sc, s) && forall i :: 0 <= i < |s| ==> s[i].id != x.id
    ensures InRank(sc, InsertHit(sc, s, x)) && multiset(InsertHit(sc, s, x)) == multiset(s) + multiset{x}
    ensures forall y :: y in InsertHit(sc, s, x) ==> y in s || y == x
    decreases |s|
  {
    if s == [] {
    } else {
      var front, last := s[..|s| - 1], Last(s);
      FrontAndLast(s);
      InRankSnoc(sc, front, last);
      OutranksTotal(sc, x, last);
      if Before(sc, x, last) {
        InsertRanked(sc, front, x);
        var more := InsertHit(sc, front, x);
        forall i | 0 <= i < |more| ensures Outranks(sc, more[i], last) { assert more[i] in more; }
        InRankSnoc(sc, more, last);
        assert multiset(s) == multiset(front) + multiset{last};
      } else {
        forall i | 0 <= i < |s| ensures Outranks(sc, s[i], x) {
          if i < |front| { OutranksTransitive(sc, s[i], last, x); }
        }
        InRankSnoc(sc, s, x);
      }
    }
  }

  lemma {:induction false} SortRanks<F(!new)>(sc: Scorer<F>, s: seq<Hit<F>>)
    requires StrictWeak(sc.above) && DistinctHits(s)
    ensures InRank(sc, SortHits(sc, s)) && multiset(SortHits(sc, s)) == multiset(s)
    decreases |s|
  {
    if s != [] {
      var front, last := s[..|s| - 1], Last(s);
      FrontAndLast(s);
      SortRanks(sc, front);
      var sorted := SortHits(sc, front);
      forall i | 0 <= i < |sorted| ensures sorted[i].id != last.id {
        assert sorted[i] in multiset(sorted) && sorted[i] in multiset(front);
        var k :| 0 <= k < |front| && front[k] == sorted[i];
        assert s[k] == front[k];
      }
      InsertRanked(sc, sorted, last);
      assert multiset(s) == multiset(front) + multiset{last};
    }
  }

  // ---- the terms, rarest first ----

  function TermsListed(s: seq<Listed>): (r: seq<Term>)
    ensures |r| == |s| && forall i :: 0 <= i < |s| ==> r[i] == s[i].term
  {
    seq(|s|, i requires 0 <= i < |s| => s[i].term)
  }

  ghost predicate TrueFrequencies(docs: Docs, s: seq<Listed>) {
    forall i :: 0 <= i < |s| ==> s[i].df == DocumentFrequency(docs, s[i].term)
  }

  lemma {:induction false} OfFrequencyListed(docs: Docs, s: seq<Listed>, df: nat)
    requires TrueFrequencies(docs, s)
    ensures OfFrequency(docs, TermsListed(s), df) == TermsListed(OfDf(s, df))
    decreases |s|
  {
    if s != [] {
      var n := |s| - 1;
      OfFrequencyListed(docs, s[..n], df);
      assert TermsListed(s)[..n] == TermsListed(s[..n]) && Last(TermsListed(s)) == s[n].term;
      ListedSnoc(OfDf(s[..n], df), s[n]);
    }
  }

  lemma ListedSnoc(s: seq<Listed>, x: Listed)
    ensures TermsListed(s + [x]) == TermsListed(s) + [x.term]
  {}

  lemma ListedFront(s: seq<Listed>)
    requires s != []
    ensures TermsListed(s) == TermsListed(s[..|s| - 1]) + [Last(s).term]
    ensures multiset(TermsListed(s)) == multiset(TermsListed(s[..|s| - 1])) + multiset{Last(s).term}
  {
    FrontAndLast(s);
    ListedSnoc(s[..|s| - 1], Last(s));
  }

  lemma {:induction false} InsertKeepsTerms(s: seq<Listed>, x: Listed)
    ensures multiset(TermsListed(InsertByDf(s, x))) == multiset(TermsListed(s)) + multiset{x.term}
    decreases |s|
  {
    if s == [] || Last(s).df <= x.df {
      ListedSnoc(s, x);
    } else {
      InsertKeepsTerms(s[..|s| - 1], x);
      ListedSnoc(InsertByDf(s[..|s| - 1], x), Last(s));
      ListedFront(s);
    }
  }

  lemma {:induction false} SortKeepsTerms(s: seq<Listed>)
    ensures multiset(TermsListed(SortByDf(s))) == multiset(TermsListed(s))
    decreases |s|
  {
    if s != [] {
      SortKeepsTerms(s[..|s| - 1]);
      InsertKeepsTerms(SortByDf(s[..|s| - 1]), Last(s));
      ListedFront(s);
    }
  }

  lemma TransposedFrequency(docs: Docs, postings: Postings, t: Term)
    requires Transposed(docs, postings)
    ensures |Holders(postings, t, docs.Keys)| == DocumentFrequency(docs, t)
  {
    var held := set id | id in docs && t in docs[id].terms;
    forall id ensures id in Holders(postings, t, docs.Keys) <==> id in held {
      assert PostFreq(postings, t, id) == DocFreq(docs, id, t);
    }
    assert Holders(postings, t, docs.Keys) == held;
  }

  lemma ListsTrue(docs: Docs, postings: Postings, terms: seq<Term>)
    requires Transposed(docs, postings)
    ensures var lists := ListsFor(postings, terms, docs.Keys);
      TrueFrequencies(docs, lists) && TermsListed(lists) == terms
  {
    var lists := ListsFor(postings, terms, docs.Keys);
    forall i | 0 <= i < |lists| ensures lists[i].df == DocumentFrequency(docs, lists[i].term) {
      TransposedFrequency(docs, postings, terms[i]);
    }
    assert TermsListed(lists) == terms;
  }

  lemma SortedTrue(docs: Docs, lists: seq<Listed>)
    requires TrueFrequencies(docs, lists)
    ensures TrueFrequencies(docs, SortByDf(lists))
  {
    var sorted := SortByDf(lists);
    SortKeepsMembers(lists);
    forall i | 0 <= i < |sorted| ensures sorted[i].df == DocumentFrequency(docs, sorted[i].term) {
      assert sorted[i] in sorted;
      var k :| 0 <= k < |lists| && lists[k] == sorted[i];
    }
  }

  /** Sorting true lists names their terms rarest first. */
  lemma SortedRarest(docs: Docs, lists: seq<Listed>)
    requires TrueFrequencies(docs, lists)
    ensures RarestFirst(docs, TermsListed(lists), TermsListed(SortByDf(lists)))
  {
    var sorted := SortByDf(lists);
    SortedTrue(docs, lists);
    SortKeepsTerms(lists);
    SortIsStable(lists, 0);
    forall df ensures OfFrequency(docs, TermsListed(sorted), df) == OfFrequency(docs, TermsListed(lists), df) {
      SortIsStable(lists, df);
      OfFrequencyListed(docs, sorted, df);
      OfFrequencyListed(docs, lists, df);
    }
  }

  /** The sorted lists name the terms rarest first. */
  lemma ListsRarestFirst(docs: Docs, postings: Postings, terms: seq<Term>)
    requires Transposed(docs, postings)
    ensures var sorted := SortByDf(ListsFor(postings, terms, docs.Keys));
      RarestFirst(docs, terms, TermsListed(sorted)) && TrueFrequencies(docs, sorted)
  {
    ListsTrue(docs, postings, terms);
    SortedTrue(docs, ListsFor(postings, terms, docs.Keys));
    SortedRarest(docs, ListsFor(postings, terms, docs.Keys));
  }

  // ---- the hits ----

  lemma {:induction false} ScoreIsSum<F>(sc: Scorer<F>, docs: Docs, postings: Postings, lists: seq<Listed>, id: Id,
      k: nat)
    requires Transposed(docs, postings) && TrueFrequencies(docs, lists) && k <= |lists|
    requires HoldsAll(docs, TermsListed(lists), id)
    ensures ScoreOf(sc, Corpus(|docs.Keys|, Total(Lengths(docs))), postings, docs, lists, id, k)
      == SumOf(sc, docs, TermsListed(lists), id, k)
    decreases k
  {
    if k > 0 {
      ScoreIsSum(sc, docs, postings, lists, id, k - 1);
      assert TermsListed(lists)[k - 1] in TermsListed(lists);
      assert PostFreq(postings, lists[k - 1].term, id) == DocFreq(docs, id, lists[k - 1].term);
      assert |docs.Keys| == |docs|;
    }
  }

  lemma MatchesHoldsAll(docs: Docs, postings: Postings, lists: seq<Listed>, id: Id)
    requires Transposed(docs, postings) && id in docs
    ensures Matches(postings, lists, id) <==> HoldsAll(docs, TermsListed(lists), id)
  {
    var ts := TermsListed(lists);
    forall i | 0 <= i < |lists| ensures PostFreq(postings, lists[i].term, id) > 0 <==> ts[i] in docs[id].terms {
      assert PostFreq(postings, lists[i].term, id) == DocFreq(docs, id, lists[i].term);
    }
    if HoldsAll(docs, ts, id) { assert forall i :: 0 <= i < |ts| ==> ts[i] in ts; }
  }

  /** The hits over some ids: those that match, each once, with their scores. */
  ghost predicate Scored<F>(sc: Scorer<F>, corpus: Corpus, postings: Postings, docs: Docs, lists: seq<Listed>,
      ids: seq<Id>, hits: seq<Hit<F>>) {
    && DistinctHits(hits)
    && (forall i :: 0 <= i < |hits| ==>
          && hits[i].id in ids && hits[i].id in docs && Matches(postings, lists, hits[i].id)
          && hits[i].score == ScoreOf(sc, corpus, postings, docs, lists, hits[i].id, |lists|))
    && (forall id :: id in ids && Matches(postings, lists, id) ==> exists i :: 0 <= i < |hits| && hits[i].id == id)
  }

  lemma {:induction false} HitsExact<F>(sc: Scorer<F>, corpus: Corpus, postings: Postings, docs: Docs,
      lists: seq<Listed>, ids: seq<Id>)
    requires (forall id :: id in ids ==> id in docs) && Ascends(ids)
    ensures Scored(sc, corpus, postings, docs, lists, ids, HitsOf(sc, corpus, postings, docs, lists, ids))
    decreases |ids|
  {
    if ids != [] {
      var front, last := ids[..|ids| - 1], Last(ids);
      FrontAndLast(ids);
      HitsExact(sc, corpus, postings, docs, lists, front);
      var less := HitsOf(sc, corpus, postings, docs, lists, front);
      var all := HitsOf(sc, corpus, postings, docs, lists, ids);
      assert forall i :: 0 <= i < |less| ==> all[i] == less[i];
      assert last !in front;
      forall id | id in ids && Matches(postings, lists, id) ensures exists i :: 0 <= i < |all| && all[i].id == id {
        if id in front {
          var i :| 0 <= i < |less| && less[i].id == id;
          assert all[i].id == id;
        } else {
          assert all[|less|].id == id;
        }
      }
    }
  }

  lemma SameTerms(docs: Docs, terms: seq<Term>, ts: seq<Term>, id: Id)
    requires multiset(ts) == multiset(terms)
    ensures HoldsAll(docs, ts, id) <==> HoldsAll(docs, terms, id)
  {
    forall t ensures t in ts <==> t in terms { assert t in ts <==> t in multiset(ts); }
  }

  /** The hits in rank order over the candidates of the rarest term. */
  ghost function AllRanked<F>(sc: Scorer<F>, docs: Docs, postings: Postings, sorted: seq<Listed>): seq<Hit<F>>
    requires sorted != []
  {
    SortHits(sc, HitsOf(sc, Corpus(|docs.Keys|, Total(Lengths(docs))), postings, docs, sorted,
                        InOrder(Holders(postings, sorted[0].term, docs.Keys))))
  }

  lemma AllRankedScored<F(!new)>(sc: Scorer<F>, docs: Docs, postings: Postings, sorted: seq<Listed>)
    requires Transposed(docs, postings) && sorted != [] && StrictWeak(sc.above)
    ensures var corpus := Corpus(|docs.Keys|, Total(Lengths(docs)));
      && InRank(sc, AllRanked(sc, docs, postings, sorted))
      && Scored(sc, corpus, postings, docs, sorted, InOrder(Holders(postings, sorted[0].term, docs.Keys)),
                AllRanked(sc, docs, postings, sorted))
  {
    var corpus, ids := Corpus(|docs.Keys|, Total(Lengths(docs))), InOrder(Holders(postings, sorted[0].term, docs.Keys));
    HitsExact(sc, corpus, postings, docs, sorted, ids);
    var hits := HitsOf(sc, corpus, postings, docs, sorted, ids);
    SortRanks(sc, hits);
    ScoredPermuted(sc, corpus, postings, docs, sorted, ids, hits, SortHits(sc, hits));
  }

  /** A list in rank order holds no hit twice. */
  lemma ScoredPermuted<F(!new)>(sc: Scorer<F>, corpus: Corpus, postings: Postings, docs: Docs, lists: seq<Listed>,
      ids: seq<Id>, a: seq<Hit<F>>, b: seq<Hit<F>>)
    requires Scored(sc, corpus, postings, docs, lists, ids, a) && multiset(a) == multiset(b)
    requires InRank(sc, b) && StrictWeak(sc.above)
    ensures Scored(sc, corpus, postings, docs, lists, ids, b)
  {
    forall i | 0 <= i < |b| ensures b[i] in a { assert b[i] in multiset(b) && b[i] in multiset(a); }
    forall i, j | 0 <= i < j < |b| ensures b[i].id != b[j].id {
      assert b[i] in a && b[j] in a && Outranks(sc, b[i], b[j]);
    }
    forall id | id in ids && Matches(postings, lists, id) ensures exists i :: 0 <= i < |b| && b[i].id == id {
      var k :| 0 <= k < |a| && a[k].id == id;
      assert a[k] in multiset(a) && a[k] in multiset(b);
      var i :| 0 <= i < |b| && b[i] == a[k];
      assert b[i].id == id;
    }
  }

  /** What the search lists is the ranking. */
  lemma AllRankedIsRanking<F(!new)>(sc: Scorer<F>, docs: Docs, postings: Postings, terms: seq<Term>)
    requires Transposed(docs, postings) && terms != [] && StrictWeak(sc.above)
    ensures var sorted := SortByDf(ListsFor(postings, terms, docs.Keys));
      sorted != [] && Ranking(sc, docs, terms, TermsListed(sorted), AllRanked(sc, docs, postings, sorted))
  {
    var sorted := SortByDf(ListsFor(postings, terms, docs.Keys));
    var ts, all := TermsListed(sorted), AllRanked(sc, docs, postings, sorted);
    ListsRarestFirst(docs, postings, terms);
    AllRankedScored(sc, docs, postings, sorted);
    forall i | 0 <= i < |all|
      ensures HoldsAll(docs, ts, all[i].id) && all[i].score == SumOf(sc, docs, ts, all[i].id, |ts|)
    {
      MatchesHoldsAll(docs, postings, sorted, all[i].id);
      ScoreIsSum(sc, docs, postings, sorted, all[i].id, |sorted|);
    }
    forall id | HoldsAll(docs, terms, id) ensures exists i :: 0 <= i < |all| && all[i].id == id {
      SameTerms(docs, terms, ts, id);
      MatchesHoldsAll(docs, postings, sorted, id);
      assert PostFreq(postings, sorted[0].term, id) > 0;
      assert id in Holders(postings, sorted[0].term, docs.Keys);
    }
  }

  /** A term no document holds leaves nothing to rank. */
  lemma NothingFound<F(!new)>(sc: Scorer<F>, docs: Docs, terms: seq<Term>, ts: seq<Term>, t: Term)
    requires t in terms && forall id :: id in docs ==> t !in docs[id].terms
    ensures Ranking(sc, docs, terms, ts, [])
  {}

  lemma NotFoundAnywhere(docs: Docs, postings: Postings, terms: seq<Term>) returns (t: Term)
    requires Transposed(docs, postings) && !AllFound(ListsFor(postings, terms, docs.Keys))
    ensures t in terms && forall id :: id in docs ==> t !in docs[id].terms
  {
    var lists := ListsFor(postings, terms, docs.Keys);
    var i :| 0 <= i < |lists| && lists[i].df == 0;
    t := terms[i];
    TransposedFrequency(docs, postings, t);
    var held := set id | id in docs && t in docs[id].terms;
    assert held == {};
    forall id | id in docs ensures t !in docs[id].terms { assert id !in held; }
  }

  /** Without tokens there are no terms. */
  lemma NoTokens(docs: Docs, id: Id, t: Term)
    requires DocsOk(docs) && Total(Lengths(docs)) == 0 && id in docs
    ensures t !in docs[id].terms
  {
    assert WellCounted(docs[id]);
    TotalRemove(Lengths(docs), id);
    if t in docs[id].terms { TotalRemove(docs[id].terms, t); }
  }

  /** The search over a corpus is the ranked answer. */
  lemma FindIsRanked<F(!new)>(sc: Scorer<F>, docs: Docs, q: Query, limit: nat)
    requires DocsOk(docs) && DocsPositive(docs) && StrictWeak(sc.above)
    ensures RankedAnswer(sc, docs, q, limit, Find(sc, docs, q, limit))
  {
    if q.bytes <= 1024 && limit <= 100 && |q.terms| <= 32 && q.terms != [] {
      var postings := Transpose(docs);
      TransposeOk(docs);
      var lists := ListsFor(postings, q.terms, docs.Keys);
      var sorted, r := SortByDf(lists), Find(sc, docs, q, limit);
      var ts := TermsListed(sorted);
      ListsRarestFirst(docs, postings, q.terms);
      AllRankedIsRanking(sc, docs, postings, q.terms);
      if limit == 0 {
        assert Best(sc, docs, q.terms, limit, r.value, ts, AllRanked(sc, docs, postings, sorted));
      } else if Total(Lengths(docs)) == 0 {
        forall id | id in docs ensures q.terms[0] !in docs[id].terms { NoTokens(docs, id, q.terms[0]); }
        NothingFound(sc, docs, q.terms, ts, q.terms[0]);
        assert Best(sc, docs, q.terms, limit, r.value, ts, []);
      } else if !AllFound(lists) {
        var t := NotFoundAnywhere(docs, postings, q.terms);
        NothingFound(sc, docs, q.terms, ts, t);
        assert Best(sc, docs, q.terms, limit, r.value, ts, []);
      } else {
        assert Best(sc, docs, q.terms, limit, r.value, ts, AllRanked(sc, docs, postings, sorted));
      }
    }
  }
}
