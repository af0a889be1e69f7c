/** Saving a full-text index through a growing, bounded buffer. */
module TextSaver {
  import opened Core
  import opened Values
  import opened ChangeCodec
  import opened MapSums
  import opened TextIndex
  import opened TextCodec
  import opened TextListing
  import opened TextPersistence

  // ---- walking a map in term order ----

  lemma LeastIsFirst(s: set<Term>, t: Term)
    requires LeastTerm(s, t)
    ensures s != {} && FirstTerm(s) == t
  {
    var u := FirstTerm(s);
    SeqLessTotal(t, u);
  }

  lemma NextListed(m: map<Term, nat>, t: Term)
    requires LeastTerm(m.Keys, t)
    ensures TermsOf(m) == [TermCount(t, m[t])] + TermsOf(m - {t})
  {
    LeastIsFirst(m.Keys, t);
  }

  method ListTerms(m: map<Term, nat>) returns (ts: seq<TermCount>)
    ensures ts == TermsOf(m)
  {
    ts := [];
    var rest := m;
    while rest.Keys != {}
      invariant ts + TermsOf(rest) == TermsOf(m)
      decreases |rest|
    {
      ghost var least := HasLeastTerm(rest.Keys);
      var t :| t in rest.Keys && LeastTerm(rest.Keys, t);
      NextListed(rest, t);
      ts := ts + [TermCount(t, rest[t])];
      rest := rest - {t};
    }
  }

  method ListEntries(docs: Docs) returns (ds: seq<DocEntry>)
    ensures ds == EntriesOf(docs)
  {
    var ids := ListInOrder(docs.Keys);
    ds := [];
    ghost var all := EntriesOf(docs);
    for i := 0 to |ids|
      invariant ds == all[..i]
    {
      assert ids[i] in ids;
      var e := ListEntry(ids[i], docs[ids[i]]);
      PrefixSnoc(all, i);
      ds := ds + [e];
    }
    WholePrefix(all);
  }

  method ListEntry(id: Id, d: Document) returns (e: DocEntry)
    ensures e == EntryOf(id, d)
  {
    var ts := ListTerms(d.terms);
    e := DocEntry(id, d.length, d.bytes, ts);
  }

  // ---- writing ----

  /** `Encoder::count`. */
  method WriteCount(out: LimitedBytes, n: nat, ghost rest: bytes) returns (ok: bool)
    requires |out.data| <= out.limit
    modifies out
    ensures ok ==> |out.data| <= out.limit
    ensures ok ==> out.data + rest == old(out.data) + Count(n, rest)
    ensures !ok ==> |old(out.data) + Count(n, rest)| > out.limit
  {
    Associates(out.data, LittleEndian(n, COUNT_BYTES), rest);
    ok := out.Write(LittleEndian(n, COUNT_BYTES));
  }

  method WriteTerm(out: LimitedBytes, t: TermCount, ghost rest: bytes) returns (ok: bool)
    requires |out.data| <= out.limit
    modifies out
    ensures ok ==> |out.data| <= out.limit
    ensures ok ==> out.data + rest == old(out.data) + TermBytes(t, rest)
    ensures !ok ==> |old(out.data) + TermBytes(t, rest)| > out.limit
  {
    ok := WriteCount(out, |t.term|, t.term + Count(t.count, rest));
    if !ok { return; }
    ok := WriteChunk(out, t.term, Count(t.count, rest));
    if !ok { return; }
    ok := WriteCount(out, t.count, rest);
  }

  method WriteTerms(out: LimitedBytes, ts: seq<TermCount>, ghost rest: bytes) returns (ok: bool)
    requires |out.data| <= out.limit
    modifies out
    ensures ok ==> |out.data| <= out.limit
    ensures ok ==> out.data + rest == old(out.data) + TermsBytes(ts, rest)
    ensures !ok ==> |old(out.data) + TermsBytes(ts, rest)| > out.limit
  {
    assert ts[0..] == ts;
    for i := 0 to |ts|
      invariant |out.data| <= out.limit
      invariant out.data + TermsBytes(ts[i..], rest) == old(out.data) + TermsBytes(ts, rest)
    {
      assert ts[i..] == [ts[i]] + ts[i + 1..];
      TermsBytesCons(ts[i], ts[i + 1..], rest);
      ok := WriteTerm(out, ts[i], TermsBytes(ts[i + 1..], rest));
      if !ok { return; }
    }
    ok := true;
  }

  method WriteHead(out: LimitedBytes, h: DocHead, ghost rest: bytes) returns (ok: bool)
    requires |out.data| <= out.limit
    modifies out
    ensures ok ==> |out.data| <= out.limit
    ensures ok ==> out.data + rest == old(out.data) + DocHeadBytes(h, rest)
    ensures !ok ==> |old(out.data) + DocHeadBytes(h, rest)| > out.limit
  {
    ok := WriteNumber(out, Unsigned(h.id), Count(h.length, Count(h.size, Count(h.terms, rest))));
    if !ok { return; }
    ok := WriteCount(out, h.length, Count(h.size, Count(h.terms, rest)));
    if !ok { return; }
    ok := WriteCount(out, h.size, Count(h.terms, rest));
    if !ok { return; }
    ok := WriteCount(out, h.terms, rest);
  }

  method WriteDoc(out: LimitedBytes, d: DocEntry, ghost rest: bytes) returns (ok: bool)
    requires |out.data| <= out.limit
    modifies out
    ensures ok ==> |out.data| <= out.limit
    ensures ok ==> out.data + rest == old(out.data) + DocBytes(d, rest)
    ensures !ok ==> |old(out.data) + DocBytes(d, rest)| > out.limit
  {
    ok := WriteHead(out, DocHead(d.id, d.length, d.size, |d.terms|), TermsBytes(d.terms, rest));
    if !ok { return; }
    ok := WriteTerms(out, d.terms, rest);
  }

  method WriteDocs(out: LimitedBytes, ds: seq<DocEntry>, ghost rest: bytes) returns (ok: bool)
    requires |out.data| <= out.limit
    modifies out
    ensures ok ==> |out.data| <= out.limit
    ensures ok ==> out.data + rest == old(out.data) + DocsBytes(ds, rest)
    ensures !ok ==> |old(out.data) + DocsBytes(ds, rest)| > out.limit
  {
    assert ds[0..] == ds;
    for i := 0 to |ds|
      invariant |out.data| <= out.limit
      invariant out.data + DocsBytes(ds[i..], rest) == old(out.data) + DocsBytes(ds, rest)
    {
      assert ds[i..] == [ds[i]] + ds[i + 1..];
      DocsBytesCons(ds[i], ds[i + 1..], rest);
      ok := WriteDoc(out, ds[i], DocsBytes(ds[i + 1..], rest));
      if !ok { return; }
    }
    ok := true;
  }

  method CountEntries(ds: seq<DocEntry>) returns (n: nat)
    ensures n == SumTerms(ds)
  {
    n := 0;
    for i := 0 to |ds|
      invariant n == SumTerms(ds[..i])
    {
      assert ds[..i + 1] == ds[..i] + [ds[i]];
      SumsSnoc(ds[..i], ds[i]);
      n := n + |ds[i].terms|;
    }
    assert ds[..|ds|] == ds;
  }

  /** `encode_persistent`: the canonical bytes, or a refusal when they or their entries exceed the limits. */
  method SaveIndex(ix: SearchIndex) returns (r: Result<bytes>)
    requires ix.Valid()
    ensures r == EncodeIndex(ix.documents)
  {
    var ds := ListEntries(ix.documents);
    var entries := CountEntries(ds);
    if entries > MAX_ENTRIES { return Err(ResourceLimit); }
    PostingsKeys(ix.documents, ix.postings);
    EntriesExact(ix.documents);
    DocsFromExact(ds);
    var out := new LimitedBytes(MAX_RETRIEVAL_INDEX_BYTES);
    var ok := WriteListing(out, Listing(|ix.postings|, ix.totalTokens, ix.totalBytes, ds));
    r := if ok then Ok(out.data) else Err(ResourceLimit);
  }

  method WriteListing(out: LimitedBytes, l: Listing) returns (ok: bool)
    requires out.data == []
    modifies out
    ensures ok <==> |Written(l)| <= out.limit
    ensures ok ==> out.data == Written(l)
  {
    ghost var r4 := DocsBytes(l.docs, []);
    assert [] + Written(l) == Written(l);
    ok := WriteCount(out, |l.docs|, Count(l.vocabulary, Count(l.tokens, Count(l.size, r4))));
    if !ok { return; }
    ok := WriteCount(out, l.vocabulary, Count(l.tokens, Count(l.size, r4)));
    if !ok { return; }
    ok := WriteCount(out, l.tokens, Count(l.size, r4));
    if !ok { return; }
    ok := WriteCount(out, l.size, r4);
    if !ok { return; }
    ok := WriteDocs(out, l.docs, []);
    assert out.data + [] == out.data;
  }
}
