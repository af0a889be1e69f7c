/** Saving and loading a full-text index: what is written loads back, and only what is written loads. */
module TextPersistence {
  import opened Core
  import opened MapSums
  import opened Utf8
  import opened TextIndex
  import opened TextCodec
  import opened TextListing

  predicate AllUtf8(ts: seq<TermCount>) {
    forall i {:trigger IsUtf8(ts[i].term)} :: 0 <= i < |ts| ==> IsUtf8(ts[i].term)
  }

  /** The checks `decode_persistent` makes on one document. */
  predicate EntryConsistent(e: DocEntry) {
    TermsAscend(e.terms) && AllUtf8(e.terms) && SumCounts(e.terms) == e.length && e.length <= e.size
  }

  predicate AllConsistent(ds: seq<DocEntry>) {
    forall i {:trigger EntryConsistent(ds[i])} :: 0 <= i < |ds| ==> EntryConsistent(ds[i])
  }

  /** And on the whole corpus. */
  predicate Consistent(l: Listing) {
    && IdsAscend(l.docs) && AllConsistent(l.docs) && SumTerms(l.docs) <= MAX_ENTRIES
    && l.tokens == SumLengths(l.docs) && l.size == SumSizes(l.docs)
    && l.vocabulary == |Vocabulary(DocsFrom(l.docs))|
  }

  /** `decode_persistent`. */
  function DecodeIndex(b: bytes): (r: Result<Docs>)
    ensures r.Err? ==> r.error == Corruption
  {
    if |b| > MAX_RETRIEVAL_INDEX_BYTES then Err(Corruption) else
    var l := ReadListing(b);
    if l.Got? && l.rest == [] && Consistent(l.value) then Ok(DocsFrom(l.value.docs)) else Err(Corruption)
  }

  ghost function ListingOf(docs: Docs): Listing {
    Listing(|Vocabulary(docs)|, Total(Lengths(docs)), Total(Sizes(docs)), EntriesOf(docs))
  }

  /** `encode_persistent`. */
  ghost function EncodeIndex(docs: Docs): Result<bytes> {
    if SumTerms(EntriesOf(docs)) > MAX_ENTRIES || |Written(ListingOf(docs))| > MAX_RETRIEVAL_INDEX_BYTES
      then Err(ResourceLimit)
    else Ok(Written(ListingOf(docs)))
  }

  // ---- what an index holds can be written ----

  lemma {:induction false} CountBelowSum(ts: seq<TermCount>, i: nat)
    requires i < |ts|
    ensures ts[i].count <= SumCounts(ts)
    decreases |ts|
  {
    if i < |ts| - 1 {
      CountBelowSum(ts[..|ts| - 1], i);
    }
  }

  lemma EntryFits(id: Id, d: Document)
    requires WellCounted(d)
    ensures DocFieldsOk(EntryOf(id, d)) && EntryConsistent(EntryOf(id, d))
  {
    var e := EntryOf(id, d);
    EntryRoundTrip(id, d);
    TermsOfExact(d.terms);
    forall i | 0 <= i < |e.terms| ensures TermOk(e.terms[i]) && IsUtf8(e.terms[i].term) {
      CountBelowSum(e.terms, i);
    }
  }

  lemma {:induction false} LengthsBelowSizes(docs: Docs)
    requires DocsOk(docs)
    ensures Total(Lengths(docs)) <= Total(Sizes(docs))
    decreases |docs|
  {
    if docs.Keys != {} {
      var id :| id in docs.Keys;
      RemoveSums(docs, id);
      assert WellCounted(docs[id]);
      LengthsBelowSizes(docs - {id});
    } else {
      assert Lengths(docs) == map[] && Sizes(docs) == map[];
    }
  }

  lemma WritableFields(docs: Docs)
    requires Within(docs)
    ensures FieldsOk(ListingOf(docs)) && AllConsistent(EntriesOf(docs))
  {
    var ids, ds := InOrder(docs.Keys), EntriesOf(docs);
    forall i | 0 <= i < |ds| ensures DocFieldsOk(ds[i]) && EntryConsistent(ds[i]) {
      assert WellCounted(docs[ids[i]]);
      EntryFits(ids[i], docs[ids[i]]);
    }
    EntriesExact(docs);
    DocsFromExact(ds);
    LengthsBelowSizes(docs);
  }

  /** Loading what was saved gives the same index. */
  lemma DecodeOfEncodeIndex(docs: Docs)
    requires Within(docs) && EncodeIndex(docs).Ok?
    ensures DecodeIndex(EncodeIndex(docs).value) == Ok(docs)
  {
    WritableFields(docs);
    ListingRead(ListingOf(docs));
    EntriesExact(docs);
    DocsFromExact(EntriesOf(docs));
  }

  // ---- only canonical bytes load ----

  lemma LoadedDocument(e: DocEntry)
    requires DocFieldsOk(e) && EntryConsistent(e)
    ensures WellCounted(DocFrom(e))
  {
    AscendDistinct(e.terms);
    TermMapExact(e.terms);
    forall t | t in TermMap(e.terms) ensures TermMap(e.terms)[t] > 0 && IsWord(t) {
      assert Listed(e.terms, t);
      var i :| 0 <= i < |e.terms| && e.terms[i].term == t;
      assert TermOk(e.terms[i]) && IsUtf8(e.terms[i].term);
    }
  }

  lemma LoadedDocs(l: Listing)
    requires FieldsOk(l) && Consistent(l)
    ensures DocsOk(DocsFrom(l.docs)) && ListingOf(DocsFrom(l.docs)) == l
  {
    var docs := DocsFrom(l.docs);
    DocsFromExact(l.docs);
    forall id | id in docs ensures WellCounted(docs[id]) {
      assert HasId(l.docs, id);
      var i :| 0 <= i < |l.docs| && l.docs[i].id == id;
      assert DocFieldsOk(l.docs[i]) && EntryConsistent(l.docs[i]);
      LoadedDocument(l.docs[i]);
    }
    forall i | 0 <= i < |l.docs| ensures TermsAscend(l.docs[i].terms) { assert EntryConsistent(l.docs[i]); }
    EntriesCanonical(l.docs);
  }

  /** Accepted bytes are a valid index and are exactly what saving that index writes. */
  lemma EncodeOfDecodeIndex(b: bytes)
    requires DecodeIndex(b).Ok?
    ensures var docs := DecodeIndex(b).value;
      && EncodeIndex(docs) == Ok(b)
      && IndexOk(docs, Transpose(docs), Total(Lengths(docs)), Total(Sizes(docs)))
  {
    var l := ReadListing(b).value;
    var docs := DocsFrom(l.docs);
    ListingWritten(b);
    LoadedDocs(l);
    DocsFromExact(l.docs);
    LoadedPositive(docs);
    TransposeOk(docs);
  }

  lemma LoadedPositive(docs: Docs)
    requires DocsOk(docs)
    ensures DocsPositive(docs)
  {
    forall id | id in docs ensures forall t :: t in docs[id].terms ==> docs[id].terms[t] > 0 {
      assert WellCounted(docs[id]);
    }
  }

  /** Two byte strings that load to the same index are equal. */
  lemma LoadingIsInjective(a: bytes, b: bytes)
    requires DecodeIndex(a).Ok? && DecodeIndex(a) == DecodeIndex(b)
    ensures a == b
  {
    EncodeOfDecodeIndex(a);
    EncodeOfDecodeIndex(b);
  }
}
