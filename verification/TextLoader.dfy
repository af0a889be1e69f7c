/** Saving and loading as they run: a growing buffer and a moving cursor with running checks. */
module TextLoader {
  import opened Core
  import opened Values
  import opened ChangeCodec
  import opened Utf8
  import opened TextIndex
  import opened TextCodec
  import opened TextListing
  import opened TextPersistence

  // ---- the cursor ----

  /** `Decoder::count`. */
  method TakeCount(input: Input, max: nat) returns (r: Option<nat>)
    modifies input
    ensures match ReadCount(old(input.rest), max)
      case Fail => r == None
      case Got(n, tail) => r == Some(n) && input.rest == tail
  {
    var b := input.TakeBytes(COUNT_BYTES);
    if b.None? || FromLittleEndian(b.value) > max { return None; }
    r := Some(FromLittleEndian(b.value));
  }

  method TakeTerm(input: Input) returns (r: Option<TermCount>)
    modifies input
    ensures match ReadTerm(old(input.rest))
      case Fail => r == None
      case Got(t, tail) => r == Some(t) && input.rest == tail
  {
    var len := TakeCount(input, MAX_TERM_BYTES);
    if len.None? || len.value == 0 { return None; }
    var term := input.TakeBytes(len.value);
    if term.None? { return None; }
    var count := TakeCount(input, MAX_DOCUMENT_BYTES);
    if count.None? || count.value == 0 { return None; }
    r := Some(TermCount(term.value, count.value));
  }

  // ---- what a rejected prefix means for the whole ----

  lemma AscendPrefix(a: seq<TermCount>, b: seq<TermCount>)
    requires TermsAscend(a + b)
    ensures TermsAscend(a)
  {
    assert forall i :: 0 <= i < |a| ==> (a + b)[i] == a[i];
  }

  lemma Utf8Prefix(a: seq<TermCount>, b: seq<TermCount>)
    requires AllUtf8(a + b)
    ensures AllUtf8(a)
  {
    forall i | 0 <= i < |a| ensures IsUtf8(a[i].term) { assert (a + b)[i] == a[i] && IsUtf8((a + b)[i].term); }
  }

  lemma {:induction false} SumPrefix(a: seq<TermCount>, b: seq<TermCount>)
    ensures SumCounts(a) <= SumCounts(a + b)
    decreases |b|
  {
    if b == [] {
      assert a + b == a;
    } else {
      SumPrefix(a, b[..|b| - 1]);
      assert (a + b)[..|a + b| - 1] == a + b[..|b| - 1];
    }
  }

  lemma SumSnoc(ts: seq<TermCount>, t: TermCount)
    ensures SumCounts(ts + [t]) == SumCounts(ts) + t.count
  {
    assert (ts + [t])[..|ts|] == ts;
  }

  /** The running checks on one document's terms. */
  predicate TermsSoFar(ts: seq<TermCount>, length: nat) {
    TermsAscend(ts) && AllUtf8(ts) && SumCounts(ts) <= length
  }

  lemma TermsSoFarPrefix(a: seq<TermCount>, b: seq<TermCount>, length: nat)
    requires TermsSoFar(a + b, length)
    ensures TermsSoFar(a, length)
  {
    AscendPrefix(a, b);
    Utf8Prefix(a, b);
    SumPrefix(a, b);
  }

  /** One more term passes exactly when it is text, follows the last one and fits the declared length. */
  lemma TermsSoFarSnoc(ts: seq<TermCount>, t: TermCount, length: nat)
    requires TermsSoFar(ts, length)
    ensures TermsSoFar(ts + [t], length) <==>
      IsUtf8(t.term) && (ts == [] || SeqLess(Last(ts).term, t.term)) && SumCounts(ts) + t.count <= length
  {
    var all := ts + [t];
    SumSnoc(ts, t);
    assert all[|ts|] == t && forall i :: 0 <= i < |ts| ==> all[i] == ts[i];
    if TermsSoFar(all, length) {
      assert IsUtf8(all[|ts|].term);
      if ts != [] { assert SeqLess(all[|ts| - 1].term, all[|ts|].term); }
    }
    if IsUtf8(t.term) && (ts == [] || SeqLess(Last(ts).term, t.term)) && SumCounts(ts) + t.count <= length {
      forall i, j | 0 <= i < j < |all| ensures SeqLess(all[i].term, all[j].term) {
        if j == |ts| && i < |ts| - 1 { SeqLessTransitive(ts[i].term, Last(ts).term, t.term); }
      }
      forall i | 0 <= i < |all| ensures IsUtf8(all[i].term) { if i < |ts| { assert IsUtf8(ts[i].term); } }
    }
  }

  lemma NextTerm(done: seq<TermCount>, input: bytes, n: nat, t: TermCount, rest: bytes)
    requires n > 0 && ReadTerm(input) == Got(t, rest)
    ensures Prepend(done, ReadTerms(input, n)) == Prepend(done + [t], ReadTerms(rest, n - 1))
  {
    PrependOne(done, t, ReadTerms(rest, n - 1));
  }

  /** The checks on the next term. */
  predicate FollowsOn(done: seq<TermCount>, t: TermCount, total: nat, length: nat) {
    IsUtf8(t.term) && (done == [] || SeqLess(Last(done).term, t.term)) && total + t.count <= length
  }

  lemma TermStep(whole: Read<seq<TermCount>>, done: seq<TermCount>, input: bytes, n: nat, t: TermCount, rest: bytes,
      length: nat)
    requires n > 0 && whole == Prepend(done, ReadTerms(input, n)) && ReadTerm(input) == Got(t, rest)
      && TermsSoFar(done, length)
    ensures whole == Prepend(done + [t], ReadTerms(rest, n - 1)) && SumCounts(done + [t]) == SumCounts(done) + t.count
    ensures if FollowsOn(done, t, SumCounts(done), length) then TermsSoFar(done + [t], length)
            else !(whole.Got? && TermsSoFar(whole.value, length))
  {
    NextTerm(done, input, n, t, rest);
    TermsSoFarSnoc(done, t, length);
    SumSnoc(done, t);
    if !FollowsOn(done, t, SumCounts(done), length) {
      RejectedTerms(whole, done + [t], ReadTerms(rest, n - 1), length);
    }
  }

  /** The term loop of `decode_persistent`. */
  method TakeTerms(input: Input, n: nat, length: nat) returns (r: Option<seq<TermCount>>)
    modifies input
    ensures r.Some? <==> ReadTerms(old(input.rest), n).Got? && TermsSoFar(ReadTerms(old(input.rest), n).value, length)
    ensures r.Some? ==> ReadTerms(old(input.rest), n) == Got(r.value, input.rest)
  {
    var done: seq<TermCount> := [];
    var total := 0;
    ghost var whole := ReadTerms(input.rest, n);
    PrependNothing(whole);
    for i := 0 to n
      invariant TermsSoFar(done, length) && total == SumCounts(done)
      invariant whole == Prepend(done, ReadTerms(input.rest, n - i))
    {
      ghost var before := input.rest;
      var t := TakeTerm(input);
      if t.None? { return None; }
      TermStep(whole, done, before, n - i, t.value, input.rest, length);
      if !FollowsOn(done, t.value, total, length) { return None; }
      done, total := done + [t.value], total + t.value.count;
    }
    assert done + [] == done;
    r := Some(done);
  }

  lemma RejectedTerms(whole: Read<seq<TermCount>>, done: seq<TermCount>, rest: Read<seq<TermCount>>, length: nat)
    requires whole == Prepend(done, rest) && !TermsSoFar(done, length)
    ensures !(whole.Got? && TermsSoFar(whole.value, length))
  {
    if whole.Got? && TermsSoFar(whole.value, length) { TermsSoFarPrefix(done, rest.value, length); }
  }

  /** One document. */
  method TakeDoc(input: Input) returns (r: Option<DocEntry>)
    modifies input
    ensures r.Some? <==> ReadDoc(old(input.rest)).Got? && EntryConsistent(ReadDoc(old(input.rest)).value)
    ensures r.Some? ==> ReadDoc(old(input.rest)) == Got(r.value, input.rest)
  {
    var h := TakeHead(input);
    if h.None? || h.value.length > h.value.size { return None; }
    var terms := TakeTerms(input, h.value.terms, h.value.length);
    if terms.None? || SumCounts(terms.value) != h.value.length { return None; }
    r := Some(DocEntry(h.value.id, h.value.length, h.value.size, terms.value));
  }

  method TakeHead(input: Input) returns (r: Option<DocHead>)
    modifies input
    ensures match ReadDocHead(old(input.rest))
      case Fail => r == None
      case Got(h, tail) => r == Some(h) && input.rest == tail
  {
    ghost var start := input.rest;
    var n := input.TakeNumber();
    if n.None? { return None; }
    NumberWritten(start);
    var length := TakeCount(input, MAX_DOCUMENT_BYTES);
    if length.None? { return None; }
    var size := TakeCount(input, MAX_DOCUMENT_BYTES);
    if size.None? { return None; }
    var terms := TakeCount(input, MAX_DOCUMENT_TERMS);
    if terms.None? { return None; }
    r := Some(DocHead(Signed(n.value), length.value, size.value, terms.value));
  }

  // ---- the document loop ----

  /** The running checks on the documents. */
  predicate DocsSoFar(ds: seq<DocEntry>, tokens: nat, size: nat) {
    IdsAscend(ds) && AllConsistent(ds) && SumTerms(ds) <= MAX_ENTRIES && SumLengths(ds) <= tokens
      && SumSizes(ds) <= size
  }

  lemma {:induction false} DocSumsPrefix(a: seq<DocEntry>, b: seq<DocEntry>)
    ensures SumTerms(a) <= SumTerms(a + b) && SumLengths(a) <= SumLengths(a + b) && SumSizes(a) <= SumSizes(a + b)
    decreases |b|
  {
    if b == [] {
      assert a + b == a;
    } else {
      DocSumsPrefix(a, b[..|b| - 1]);
      assert (a + b)[..|a + b| - 1] == a + b[..|b| - 1];
    }
  }

  lemma DocsSoFarPrefix(a: seq<DocEntry>, b: seq<DocEntry>, tokens: nat, size: nat)
    requires DocsSoFar(a + b, tokens, size)
    ensures DocsSoFar(a, tokens, size)
  {
    DocSumsPrefix(a, b);
    assert forall i :: 0 <= i < |a| ==> (a + b)[i] == a[i];
    forall i | 0 <= i < |a| ensures EntryConsistent(a[i]) { assert EntryConsistent((a + b)[i]); }
  }

  lemma DocsSoFarSnoc(ds: seq<DocEntry>, d: DocEntry, tokens: nat, size: nat)
    requires DocsSoFar(ds, tokens, size)
    ensures DocsSoFar(ds + [d], tokens, size) <==>
      && EntryConsistent(d) && (ds == [] || Last(ds).id < d.id) && SumTerms(ds) + |d.terms| <= MAX_ENTRIES
      && SumLengths(ds) + d.length <= tokens && SumSizes(ds) + d.size <= size
  {
    SumsSnoc(ds, d);
    IdsAscendSnoc(ds, d);
    AllConsistentSnoc(ds, d);
  }

  lemma IdsAscendSnoc(ds: seq<DocEntry>, d: DocEntry)
    requires IdsAscend(ds)
    ensures IdsAscend(ds + [d]) <==> ds == [] || Last(ds).id < d.id
  {
    var all := ds + [d];
    assert all[|ds|] == d && forall i :: 0 <= i < |ds| ==> all[i] == ds[i];
    assert ds != [] ==> all[|ds| - 1] == Last(ds);
  }

  lemma AllConsistentSnoc(ds: seq<DocEntry>, d: DocEntry)
    requires AllConsistent(ds)
    ensures AllConsistent(ds + [d]) <==> EntryConsistent(d)
  {
    var all := ds + [d];
    assert all[|ds|] == d;
    if EntryConsistent(d) {
      forall i | 0 <= i < |all| ensures EntryConsistent(all[i]) { if i < |ds| { assert EntryConsistent(ds[i]); } }
    }
  }

  lemma NextDoc(done: seq<DocEntry>, input: bytes, n: nat, d: DocEntry, rest: bytes)
    requires n > 0 && ReadDoc(input) == Got(d, rest)
    ensures Prepend(done, ReadDocs(input, n)) == Prepend(done + [d], ReadDocs(rest, n - 1))
  {
    PrependOne(done, d, ReadDocs(rest, n - 1));
  }

  lemma RejectedDocs(whole: Read<seq<DocEntry>>, done: seq<DocEntry>, rest: Read<seq<DocEntry>>, tokens: nat, size: nat)
    requires whole == Prepend(done, rest) && !DocsSoFar(done, tokens, size)
    ensures !(whole.Got? && DocsSoFar(whole.value, tokens, size))
  {
    if whole.Got? && DocsSoFar(whole.value, tokens, size) { DocsSoFarPrefix(done, rest.value, tokens, size); }
  }

  lemma UnreadableDoc(done: seq<DocEntry>, input: bytes, n: nat, whole: Read<seq<DocEntry>>, tokens: nat, size: nat)
    requires n > 0 && whole == Prepend(done, ReadDocs(input, n)) && DocsSoFar(done, tokens, size)
    requires !(ReadDoc(input).Got? && EntryConsistent(ReadDoc(input).value))
    ensures !(whole.Got? && DocsSoFar(whole.value, tokens, size))
  {
    if ReadDoc(input).Got? {
      var d, rest := ReadDoc(input).value, ReadDoc(input).rest;
      NextDoc(done, input, n, d, rest);
      DocsSoFarSnoc(done, d, tokens, size);
      RejectedDocs(whole, done + [d], ReadDocs(rest, n - 1), tokens, size);
    }
  }

  /** The checks on the next document, against the running figures and the declared totals. */
  predicate DocFollowsOn(done: seq<DocEntry>, d: DocEntry, tokens: nat, size: nat) {
    && (done == [] || Last(done).id < d.id) && SumTerms(done) + |d.terms| <= MAX_ENTRIES
    && SumLengths(done) + d.length <= tokens && SumSizes(done) + d.size <= size
  }

  lemma DocStep(whole: Read<seq<DocEntry>>, done: seq<DocEntry>, input: bytes, n: nat, d: DocEntry, rest: bytes,
      tokens: nat, size: nat)
    requires n > 0 && whole == Prepend(done, ReadDocs(input, n)) && ReadDoc(input) == Got(d, rest)
    requires DocsSoFar(done, tokens, size) && EntryConsistent(d)
    ensures whole == Prepend(done + [d], ReadDocs(rest, n - 1))
    ensures if DocFollowsOn(done, d, tokens, size) then DocsSoFar(done + [d], tokens, size)
            else !(whole.Got? && DocsSoFar(whole.value, tokens, size))
  {
    NextDoc(done, input, n, d, rest);
    DocsSoFarSnoc(done, d, tokens, size);
    if !DocFollowsOn(done, d, tokens, size) { RejectedDocs(whole, done + [d], ReadDocs(rest, n - 1), tokens, size); }
  }

  /** The next document with all its checks; None means the whole list is unacceptable. */
  method TakeNextDoc(input: Input, done: seq<DocEntry>, n: nat, tokens: nat, size: nat,
      ghost whole: Read<seq<DocEntry>>) returns (r: Option<DocEntry>)
    requires n > 0 && DocsSoFar(done, tokens, size) && whole == Prepend(done, ReadDocs(input.rest, n))
    modifies input
    ensures r.None? ==> !(whole.Got? && DocsSoFar(whole.value, tokens, size))
    ensures r.Some? ==>
      DocsSoFar(done + [r.value], tokens, size) && whole == Prepend(done + [r.value], ReadDocs(input.rest, n - 1))
  {
    ghost var before := input.rest;
    r := TakeDoc(input);
    if r.None? {
      UnreadableDoc(done, before, n, whole, tokens, size);
      return;
    }
    DocStep(whole, done, before, n, r.value, input.rest, tokens, size);
    if !DocFollowsOn(done, r.value, tokens, size) { r := None; }
  }

  lemma NoDocsYet(input: bytes, n: nat, tokens: nat, size: nat)
    ensures DocsSoFar([], tokens, size) && ReadDocs(input, n) == Prepend([], ReadDocs(input, n))
  {
    PrependNothing(ReadDocs(input, n));
  }

  lemma AllDocsTaken(whole: Read<seq<DocEntry>>, done: seq<DocEntry>, rest: bytes)
    requires whole == Prepend(done, ReadDocs(rest, 0))
    ensures whole == Got(done, rest)
  {
    assert done + [] == done;
  }

  /** The document loop of `decode_persistent`. */
  method TakeDocs(input: Input, n: nat, tokens: nat, size: nat) returns (r: Option<seq<DocEntry>>)
    modifies input
    ensures r.Some? <==>
      ReadDocs(old(input.rest), n).Got? && DocsSoFar(ReadDocs(old(input.rest), n).value, tokens, size)
    ensures r.Some? ==> ReadDocs(old(input.rest), n) == Got(r.value, input.rest)
  {
    NoDocsYet(input.rest, n, tokens, size);
    r := TakeDocsLoop(input, n, tokens, size, ReadDocs(input.rest, n));
  }

  method TakeDocsLoop(input: Input, n: nat, tokens: nat, size: nat, ghost whole: Read<seq<DocEntry>>)
      returns (r: Option<seq<DocEntry>>)
    requires DocsSoFar([], tokens, size) && whole == Prepend([], ReadDocs(input.rest, n))
    modifies input
    ensures r.Some? <==> whole.Got? && DocsSoFar(whole.value, tokens, size)
    ensures r.Some? ==> whole == Got(r.value, input.rest)
  {
    var done: seq<DocEntry> := [];
    for i := 0 to n
      invariant DocsSoFar(done, tokens, size) && whole == Prepend(done, ReadDocs(input.rest, n - i))
    {
      var d := TakeNextDoc(input, done, n - i, tokens, size, whole);
      if d.None? { return None; }
      done := done + [d.value];
    }
    AllDocsTaken(whole, done, input.rest);
    r := Some(done);
  }

  /** `decode_persistent` with its running checks accepts exactly the canonical bytes. */
  method LoadIndex(b: bytes) returns (r: Result<Docs>)
    ensures r == DecodeIndex(b)
  {
    if |b| > MAX_RETRIEVAL_INDEX_BYTES { return Err(Corruption); }
    var input := new Input(b);
    var n := TakeCount(input, MAX_DOCUMENTS);
    if n.None? { return Err(Corruption); }
    var vocabulary := TakeCount(input, MAX_TERMS);
    if vocabulary.None? { return Err(Corruption); }
    var tokens := TakeCount(input, MAX_TOTAL_BYTES);
    if tokens.None? { return Err(Corruption); }
    var size := TakeCount(input, MAX_TOTAL_BYTES);
    if size.None? { return Err(Corruption); }
    var docs := TakeDocs(input, n.value, tokens.value, size.value);
    if docs.None? || input.rest != [] { return Err(Corruption); }
    var l := Listing(vocabulary.value, tokens.value, size.value, docs.value);
    var found := DocsFrom(docs.value);
    if |Vocabulary(found)| != l.vocabulary || SumLengths(l.docs) != l.tokens || SumSizes(l.docs) != l.size {
      return Err(Corruption);
    }
    r := Ok(found);
  }
}
