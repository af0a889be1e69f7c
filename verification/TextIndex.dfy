/** The in-memory full-text index: documents and their inverted form, kept in step. */
module TextIndex {
  import opened Core
  import opened MapSums
  import opened Utf8

  const MAX_DOCUMENTS: nat := 10_000
  const MAX_DOCUMENT_BYTES: nat := 65_536
  const MAX_TOTAL_BYTES: nat := 8 * 1024 * 1024
  const MAX_TERMS: nat := 65_536
  const MAX_DOCUMENT_TERMS: nat := 4096
  const MAX_TERM_BYTES: nat := 384

  type Id = i64
  type Term = bytes

  /** A text as its byte length and the lower-cased words it splits into. */
  datatype Text = Text(bytes: nat, words: seq<Term>)

  /** A term as `tokens` makes them: text of bounded length. */
  predicate IsWord(t: Term) {
    0 < |t| <= MAX_TERM_BYTES && IsUtf8(t)
  }

  predicate TextOk(t: Text) {
    |t.words| <= t.bytes && forall i {:trigger t.words[i]} :: 0 <= i < |t.words| ==> IsWord(t.words[i])
  }

  datatype Document = Document(terms: map<Term, nat>, length: nat, bytes: nat)

  type Docs = map<Id, Document>
  type Postings = map<Term, map<Id, nat>>

  function Frequency(m: map<Term, nat>, t: Term): nat {
    if t in m then m[t] else 0
  }

  function Frequencies(words: seq<Term>): map<Term, nat> {
    if words == [] then map[] else
    var front, w := Frequencies(words[..|words| - 1]), Last(words);
    front[w := Frequency(front, w) + 1]
  }

  function DocOf(t: Text): Document {
    Document(Frequencies(t.words), |t.words|, t.bytes)
  }

  /** Word counts are positive and add up to the document's length. */
  lemma {:induction false} FrequenciesAddUp(words: seq<Term>)
    ensures forall t :: t in Frequencies(words) ==> Frequencies(words)[t] > 0 && t in words
    ensures Total(Frequencies(words)) == |words|
    decreases |words|
  {
    if words != [] {
      var front, w := Frequencies(words[..|words| - 1]), Last(words);
      FrequenciesAddUp(words[..|words| - 1]);
      TotalSet(front, w, Frequency(front, w) + 1);
      TotalDrop(front, w);
    }
  }

  /** Each word's count is the number of its occurrences. */
  lemma {:induction false} FrequenciesCount(words: seq<Term>, t: Term)
    ensures Frequency(Frequencies(words), t) == multiset(words)[t]
    decreases |words|
  {
    if words != [] {
      FrequenciesCount(words[..|words| - 1], t);
      FrontAndLast(words);
      assert multiset(words) == multiset(words[..|words| - 1]) + multiset{Last(words)};
    }
  }

  // ---- the invariant ----

  predicate DocumentOk(d: Document) {
    && d.bytes <= MAX_DOCUMENT_BYTES && d.length <= d.bytes && |d.terms| <= MAX_DOCUMENT_TERMS
    && forall t {:trigger d.terms[t]} {:trigger t in d.terms} :: t in d.terms ==> d.terms[t] > 0 && IsWord(t)
  }

  lemma DocOfIsOk(t: Text)
    requires TextOk(t) && t.bytes <= MAX_DOCUMENT_BYTES && |Frequencies(t.words)| <= MAX_DOCUMENT_TERMS
    ensures WellCounted(DocOf(t))
  {
    FrequenciesAddUp(t.words);
  }

  /** How often a term stands in a document, by either map; zero when it does not. */
  function PostFreq(postings: Postings, t: Term, id: Id): nat {
    if t in postings && id in postings[t] then postings[t][id] else 0
  }

  function DocFreq(docs: Docs, id: Id, t: Term): nat {
    if id in docs && t in docs[id].terms then docs[id].terms[t] else 0
  }

  predicate Positive(postings: Postings) {
    forall t :: t in postings ==> postings[t] != map[] && forall id :: id in postings[t] ==> postings[t][id] > 0
  }

  predicate DocsPositive(docs: Docs) {
    forall id :: id in docs ==> forall t :: t in docs[id].terms ==> docs[id].terms[t] > 0
  }

  /** The postings are the documents read the other way round, without empty lists or zero counts. */
  ghost predicate Transposed(docs: Docs, postings: Postings) {
    && Positive(postings) && DocsPositive(docs)
    && forall t, id {:trigger PostFreq(postings, t, id)} {:trigger DocFreq(docs, id, t)} ::
      PostFreq(postings, t, id) == DocFreq(docs, id, t)
  }

  function Lengths(docs: Docs): map<Id, nat> { map id | id in docs :: docs[id].length }
  function Sizes(docs: Docs): map<Id, nat> { map id | id in docs :: docs[id].bytes }

  lemma PostedSame(a: Postings, b: Postings, t: Term, docs: Docs)
    requires Transposed(docs, a) && Transposed(docs, b) && t in a
    ensures t in b && a[t] == b[t]
  {
    var id :| id in a[t];
    assert PostFreq(a, t, id) == DocFreq(docs, id, t) == PostFreq(b, t, id);
    forall id ensures id in a[t] <==> id in b[t]
      ensures id in a[t] ==> a[t][id] == b[t][id]
    {
      assert PostFreq(a, t, id) == DocFreq(docs, id, t) == PostFreq(b, t, id);
    }
  }

  /** The documents determine the postings. */
  lemma TransposeUnique(docs: Docs, a: Postings, b: Postings)
    requires Transposed(docs, a) && Transposed(docs, b)
    ensures a == b
  {
    forall t ensures t in a <==> t in b {
      if t in a { PostedSame(a, b, t, docs); }
      if t in b { PostedSame(b, a, t, docs); }
    }
    forall t | t in a ensures a[t] == b[t] { PostedSame(a, b, t, docs); }
  }

  /** The postings of a corpus. */
  ghost function Transpose(docs: Docs): Postings {
    map t | t in Vocabulary(docs) :: map id | id in docs && t in docs[id].terms :: docs[id].terms[t]
  }

  lemma TransposeOk(docs: Docs)
    requires DocsPositive(docs)
    ensures Transposed(docs, Transpose(docs))
  {
    var p := Transpose(docs);
    forall t | t in p ensures p[t] != map[] {
      var id :| id in docs && t in docs[id].terms;
      assert id in p[t];
    }
    forall t, id ensures PostFreq(p, t, id) == DocFreq(docs, id, t) {
      if id in docs && t in docs[id].terms { assert t in Vocabulary(docs); }
    }
  }

  /** The index's postings are the transpose, whatever updates led there. */
  lemma PostingsAreTranspose(docs: Docs, postings: Postings)
    requires Transposed(docs, postings)
    ensures postings == Transpose(docs)
  {
    TransposeOk(docs);
    TransposeUnique(docs, postings, Transpose(docs));
  }

  // ---- changing one document ----

  /** One term of a removed document. */
  function Unpost(postings: Postings, t: Term, id: Id): (after: Postings)
    ensures Positive(postings) ==> Positive(after)
    ensures forall u, j {:trigger PostFreq(after, u, j)} :: PostFreq(after, u, j) == if u == t && j == id then 0
      else PostFreq(postings, u, j)
  {
    if t !in postings then postings else
    var less := postings[t] - {id};
    assert forall j :: j in postings[t] && j != id ==> j in less;
    if less == map[] then postings - {t} else postings[t := less]
  }

  /** One term of an added document. */
  function Post(postings: Postings, t: Term, id: Id, n: nat): (after: Postings)
    ensures Positive(postings) && n > 0 ==> Positive(after)
    ensures forall u, j {:trigger PostFreq(after, u, j)} :: PostFreq(after, u, j) == if u == t && j == id then n
      else PostFreq(postings, u, j)
  {
    var more := (if t in postings then postings[t] else map[])[id := n];
    assert id in more;
    postings[t := more]
  }

  lemma RemovedTransposed(docs: Docs, id: Id, postings: Postings)
    requires DocsPositive(docs) && Positive(postings)
    requires forall t, j {:trigger PostFreq(postings, t, j)} :: PostFreq(postings, t, j) == if j == id then 0
      else DocFreq(docs, j, t)
    ensures Transposed(docs - {id}, postings)
  {
    forall t, j ensures PostFreq(postings, t, j) == DocFreq(docs - {id}, j, t) {}
  }

  lemma AddedTransposed(docs: Docs, id: Id, d: Document, postings: Postings)
    requires DocsPositive(docs) && Positive(postings) && id !in docs && forall t :: t in d.terms ==> d.terms[t] > 0
    requires forall t, j {:trigger PostFreq(postings, t, j)} :: PostFreq(postings, t, j) == if j == id
      then Frequency(d.terms, t) else DocFreq(docs, j, t)
    ensures Transposed(docs[id := d], postings)
  {
    forall t, j ensures PostFreq(postings, t, j) == DocFreq(docs[id := d], j, t) {}
  }

  method RemovePostings(docs: Docs, postings: Postings, id: Id) returns (after: Postings)
    requires Transposed(docs, postings) && id in docs
    ensures Transposed(docs - {id}, after)
  {
    after := postings;
    var rest := docs[id].terms.Keys;
    while rest != {}
      invariant rest <= docs[id].terms.Keys && Positive(after)
      invariant forall t, j {:trigger PostFreq(after, t, j)} :: PostFreq(after, t, j) == if j == id && t !in rest then 0
        else DocFreq(docs, j, t)
      decreases |rest|
    {
      var t :| t in rest;
      after := Unpost(after, t, id);
      rest := rest - {t};
    }
    RemovedTransposed(docs, id, after);
  }

  method AddPostings(docs: Docs, postings: Postings, id: Id, d: Document) returns (after: Postings)
    requires Transposed(docs, postings) && id !in docs && forall t :: t in d.terms ==> d.terms[t] > 0
    ensures Transposed(docs[id := d], after)
  {
    after := postings;
    var rest := d.terms.Keys;
    while rest != {}
      invariant rest <= d.terms.Keys && Positive(after)
      invariant forall t, j {:trigger PostFreq(after, t, j)} ::
        PostFreq(after, t, j) == if j == id then (if t in rest then 0 else Frequency(d.terms, t))
          else DocFreq(docs, j, t)
      decreases |rest|
    {
      var t :| t in rest;
      after := Post(after, t, id, d.terms[t]);
      rest := rest - {t};
    }
    AddedTransposed(docs, id, d, after);
  }

  // ---- limits ----

  /** Every term of the corpus. */
  function Vocabulary(docs: Docs): set<Term> {
    set id, t | id in docs && t in docs[id].terms :: t
  }

  /** The postings' keys are the vocabulary. */
  lemma PostingsKeys(docs: Docs, postings: Postings)
    requires Transposed(docs, postings)
    ensures postings.Keys == Vocabulary(docs)
  {
    forall t | t in postings ensures t in Vocabulary(docs) {
      var id :| id in postings[t];
      assert PostFreq(postings, t, id) == DocFreq(docs, id, t);
    }
    forall t | t in Vocabulary(docs) ensures t in postings {
      var id :| id in docs && t in docs[id].terms;
      assert PostFreq(postings, t, id) == DocFreq(docs, id, t);
    }
  }

  /** A corpus an index may hold. */
  ghost predicate Within(docs: Docs) {
    && |docs| <= MAX_DOCUMENTS && Total(Sizes(docs)) <= MAX_TOTAL_BYTES && |Vocabulary(docs)| <= MAX_TERMS
    && DocsOk(docs)
  }

  ghost predicate DocsOk(docs: Docs) {
    forall id :: id in docs ==> WellCounted(docs[id])
  }

  ghost predicate WellCounted(d: Document) {
    DocumentOk(d) && Total(d.terms) == d.length
  }

  /** The index's fields agree with each other and stay within the limits. */
  ghost predicate IndexOk(docs: Docs, postings: Postings, tokens: nat, bytes: nat) {
    Within(docs) && Transposed(docs, postings) && tokens == Total(Lengths(docs)) && bytes == Total(Sizes(docs))
  }

  class SearchIndex {
    var documents: Docs
    var postings: Postings
    var totalTokens: nat
    var totalBytes: nat

    ghost predicate Valid()
      reads this
    {
      IndexOk(documents, postings, totalTokens, totalBytes)
    }

    constructor ()
      ensures Valid() && documents == map[]
    {
      documents, postings, totalTokens, totalBytes := map[], map[], 0, 0;
      EmptyOk();
    }

    /** `remove`. */
    method Remove(id: Id) returns (found: bool)
      requires Valid()
      modifies this
      ensures Valid() && found == (id in old(documents)) && documents == old(documents) - {id}
    {
      found := id in documents;
      documents, postings, totalTokens, totalBytes := RemoveDocument(documents, postings, totalTokens, totalBytes, id);
    }

    /** `upsert`: either the new document replaces the old one everywhere or nothing changes. */
    method Upsert(id: Id, t: Text) returns (ok: bool)
      requires Valid() && TextOk(t)
      modifies this
      ensures Valid() && documents == if ok then old(documents)[id := DocOf(t)] else old(documents)
      ensures ok <==> UpsertFits(old(documents), id, t)
    {
      ok, documents, postings, totalTokens, totalBytes :=
        UpsertDocument(documents, postings, totalTokens, totalBytes, id, t);
    }
  }

  /** The fields of an index, in one step. */
  method RemoveDocument(docs: Docs, postings: Postings, tokens: nat, bytes: nat, id: Id)
    returns (docsAfter: Docs, after: Postings, tokensAfter: nat, bytesAfter: nat)
    requires IndexOk(docs, postings, tokens, bytes)
    ensures IndexOk(docsAfter, after, tokensAfter, bytesAfter) && docsAfter == docs - {id}
  {
    if id !in docs {
      DropAbsent(docs, id);
      return docs, postings, tokens, bytes;
    }
    after := RemovePostings(docs, postings, id);
    RemoveKeeps(docs, postings, after, tokens, bytes, id);
    docsAfter, tokensAfter, bytesAfter := docs - {id}, tokens - docs[id].length, bytes - docs[id].bytes;
  }

  method AddDocument(docs: Docs, postings: Postings, tokens: nat, bytes: nat, id: Id, t: Text, ghost before: Docs)
    returns (docsAfter: Docs, after: Postings, tokensAfter: nat, bytesAfter: nat)
    requires IndexOk(docs, postings, tokens, bytes) && TextOk(t) && Within(before) && UpsertFits(before, id, t)
      && docs == before - {id}
    ensures IndexOk(docsAfter, after, tokensAfter, bytesAfter) && docsAfter == before[id := DocOf(t)]
  {
    DocOfIsOk(t);
    DropThenSet(before, id, DocOf(t));
    after := AddPostings(docs, postings, id, DocOf(t));
    AddKeeps(before, after, tokens, bytes, id, t);
    docsAfter, tokensAfter, bytesAfter := docs[id := DocOf(t)], tokens + |t.words|, bytes + t.bytes;
  }

  /** The old document goes first, then the new one is entered. */
  method ReplaceDocument(docs: Docs, postings: Postings, tokens: nat, bytes: nat, id: Id, t: Text)
    returns (docsAfter: Docs, after: Postings, tokensAfter: nat, bytesAfter: nat)
    requires IndexOk(docs, postings, tokens, bytes) && TextOk(t) && UpsertFits(docs, id, t)
    ensures IndexOk(docsAfter, after, tokensAfter, bytesAfter) && docsAfter == docs[id := DocOf(t)]
  {
    docsAfter, after, tokensAfter, bytesAfter := RemoveDocument(docs, postings, tokens, bytes, id);
    docsAfter, after, tokensAfter, bytesAfter := AddDocument(docsAfter, after, tokensAfter, bytesAfter, id, t, docs);
  }

  method UpsertDocument(docs: Docs, postings: Postings, tokens: nat, bytes: nat, id: Id, t: Text)
    returns (ok: bool, docsAfter: Docs, after: Postings, tokensAfter: nat, bytesAfter: nat)
    requires IndexOk(docs, postings, tokens, bytes) && TextOk(t)
    ensures IndexOk(docsAfter, after, tokensAfter, bytesAfter) && docsAfter == if ok then docs[id := DocOf(t)] else docs
    ensures ok <==> UpsertFits(docs, id, t)
  {
    ok := CheckUpsert(docs, postings, bytes, id, t);
    docsAfter, after, tokensAfter, bytesAfter := docs, postings, tokens, bytes;
    if ok {
      docsAfter, after, tokensAfter, bytesAfter := ReplaceDocument(docs, postings, tokens, bytes, id, t);
    }
  }

  lemma DropAbsent(docs: Docs, id: Id)
    requires id !in docs
    ensures docs - {id} == docs
  {}

  lemma RemoveKeeps(docs: Docs, postings: Postings, less: Postings, tokens: nat, bytes: nat, id: Id)
    requires IndexOk(docs, postings, tokens, bytes) && id in docs && Transposed(docs - {id}, less)
    ensures tokens >= docs[id].length && bytes >= docs[id].bytes
    ensures IndexOk(docs - {id}, less, tokens - docs[id].length, bytes - docs[id].bytes)
  {
    RemoveSums(docs, id);
    WithinLess(docs, id);
  }

  lemma AddKeeps(before: Docs, more: Postings, tokens: nat, bytes: nat, id: Id, t: Text)
    requires Within(before) && TextOk(t) && UpsertFits(before, id, t)
    requires tokens == Total(Lengths(before - {id})) && bytes == Total(Sizes(before - {id}))
      && Transposed(before[id := DocOf(t)], more)
    ensures IndexOk(before[id := DocOf(t)], more, tokens + |t.words|, bytes + t.bytes)
  {
    WithinMore(before, id, t);
    AddSums(before, id, t);
  }

  lemma DropThenSet(docs: Docs, id: Id, d: Document)
    ensures (docs - {id})[id := d] == docs[id := d]
  {}

  lemma EmptyOk()
    ensures IndexOk(map[], map[], 0, 0)
  {
    assert Sizes(map[]) == map[] && Lengths(map[]) == map[] && Vocabulary(map[]) == {};
  }

  /** The limit checks of `upsert`. */
  method CheckUpsert(docs: Docs, postings: Postings, totalBytes: nat, id: Id, t: Text) returns (ok: bool)
    requires Transposed(docs, postings) && totalBytes == Total(Sizes(docs))
    ensures ok <==> UpsertFits(docs, id, t)
  {
    var previous := if id in docs then docs[id].bytes else 0;
    var terms := Frequencies(t.words);
    TotalDrop(Sizes(docs), id);
    PostingsKeys(docs, postings);
    NewTerms(postings.Keys, terms.Keys);
    ok := t.bytes <= MAX_DOCUMENT_BYTES && totalBytes - previous + t.bytes <= MAX_TOTAL_BYTES
      && (id in docs || |docs| < MAX_DOCUMENTS)
      && |terms| <= MAX_DOCUMENT_TERMS && |postings.Keys| + |terms.Keys - postings.Keys| <= MAX_TERMS;
  }

  lemma NewTerms(have: set<Term>, more: set<Term>)
    ensures |have| + |more - have| == |have + more|
  {
    assert have + more == have + (more - have);
  }

  /** The limits of `upsert`; the replaced document's own terms still count. */
  ghost predicate UpsertFits(docs: Docs, id: Id, t: Text) {
    && t.bytes <= MAX_DOCUMENT_BYTES && Total(Sizes(docs) - {id}) + t.bytes <= MAX_TOTAL_BYTES
    && (id in docs || |docs| < MAX_DOCUMENTS)
    && |Frequencies(t.words)| <= MAX_DOCUMENT_TERMS
    && |Vocabulary(docs) + Frequencies(t.words).Keys| <= MAX_TERMS
  }

  lemma SumsOfLess(docs: Docs, id: Id)
    ensures Lengths(docs - {id}) == Lengths(docs) - {id} && Sizes(docs - {id}) == Sizes(docs) - {id}
  {}

  lemma SumsOfMore(docs: Docs, id: Id, d: Document)
    ensures Lengths(docs[id := d]) == Lengths(docs)[id := d.length]
      && Sizes(docs[id := d]) == Sizes(docs)[id := d.bytes]
  {}

  lemma RemoveSums(docs: Docs, id: Id)
    requires id in docs
    ensures Total(Lengths(docs)) == Total(Lengths(docs - {id})) + docs[id].length
    ensures Total(Sizes(docs)) == Total(Sizes(docs - {id})) + docs[id].bytes
  {
    SumsOfLess(docs, id);
    TotalRemove(Lengths(docs), id);
    TotalRemove(Sizes(docs), id);
  }

  lemma AddSums(docs: Docs, id: Id, t: Text)
    ensures Total(Lengths(docs[id := DocOf(t)])) == Total(Lengths(docs - {id})) + |t.words|
    ensures Total(Sizes(docs[id := DocOf(t)])) == Total(Sizes(docs - {id})) + t.bytes
  {
    SumsOfLess(docs, id);
    SumsOfMore(docs, id, DocOf(t));
    TotalSet(Lengths(docs), id, |t.words|);
    TotalSet(Sizes(docs), id, t.bytes);
  }

  lemma VocabularyLess(docs: Docs, id: Id)
    ensures Vocabulary(docs - {id}) <= Vocabulary(docs) && |docs - {id}| <= |docs|
  {
    SubsetCard((docs - {id}).Keys, docs.Keys);
  }

  lemma WithinLess(docs: Docs, id: Id)
    requires Within(docs) && id in docs
    ensures Within(docs - {id})
  {
    RemoveSums(docs, id);
    VocabularyLess(docs, id);
    SubsetCard(Vocabulary(docs - {id}), Vocabulary(docs));
  }

  lemma VocabularyMore(docs: Docs, id: Id, d: Document)
    ensures Vocabulary(docs[id := d]) <= Vocabulary(docs) + d.terms.Keys
    ensures |docs[id := d]| == if id in docs then |docs| else |docs| + 1
  {
    var more := docs[id := d];
    assert more.Keys == docs.Keys + {id};
    forall t | t in Vocabulary(more) ensures t in Vocabulary(docs) + d.terms.Keys {
      var j :| j in more && t in more[j].terms;
      if j != id { assert j in docs && t in docs[j].terms; }
    }
  }

  lemma DocsOkMore(docs: Docs, id: Id, d: Document)
    requires DocsOk(docs) && WellCounted(d)
    ensures DocsOk(docs[id := d])
  {}

  lemma WithinMore(docs: Docs, id: Id, t: Text)
    requires Within(docs) && TextOk(t) && UpsertFits(docs, id, t)
    ensures Within(docs[id := DocOf(t)])
  {
    DocOfIsOk(t);
    DocsOkMore(docs, id, DocOf(t));
    AddSums(docs, id, t);
    SumsOfLess(docs, id);
    VocabularyMore(docs, id, DocOf(t));
    SubsetCard(Vocabulary(docs[id := DocOf(t)]), Vocabulary(docs) + Frequencies(t.words).Keys);
  }
}
