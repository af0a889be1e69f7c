/** The canonical byte form of a full-text index (`encode_persistent`, `decode_persistent`). */
module TextCodec {
  import opened Core
  import opened ChangeCodec
  import opened TextIndex

  const MAX_RETRIEVAL_INDEX_BYTES: nat := 32 * 1024 * 1024
  const COUNT_BYTES: nat := 4
  const MAX_ENTRIES: nat := 1_048_576

  datatype TermCount = TermCount(term: Term, count: nat)

  datatype DocEntry = DocEntry(id: Id, length: nat, size: nat, terms: seq<TermCount>)

  /** An index as it is written: corpus figures, then the documents in order of id. */
  datatype Listing = Listing(vocabulary: nat, tokens: nat, size: nat, docs: seq<DocEntry>)

  // ---- writing: each value in front of the bytes that follow ----

  function Count(n: nat, rest: bytes): (b: bytes)
    ensures |b| == 4 + |rest| && b[4..] == rest
  {
    LittleEndian(n, COUNT_BYTES) + rest
  }

  /** Two's complement. */
  function Unsigned(i: i64): (n: nat)
    ensures n < U64_END
  {
    if i < 0 then i + U64_END else i
  }

  function Signed(n: nat): (i: i64)
    requires n < U64_END
    ensures Unsigned(i) == n
  {
    if n > I64_MAX then n - U64_END else n
  }

  function TermBytes(t: TermCount, rest: bytes): bytes {
    Count(|t.term|, t.term + Count(t.count, rest))
  }

  function TermsBytes(ts: seq<TermCount>, rest: bytes): bytes {
    if ts == [] then rest else TermBytes(ts[0], TermsBytes(ts[1..], rest))
  }

  datatype DocHead = DocHead(id: Id, length: nat, size: nat, terms: nat)

  function DocHeadBytes(h: DocHead, rest: bytes): bytes {
    Number(Unsigned(h.id), Count(h.length, Count(h.size, Count(h.terms, rest))))
  }

  function DocBytes(d: DocEntry, rest: bytes): bytes {
    DocHeadBytes(DocHead(d.id, d.length, d.size, |d.terms|), TermsBytes(d.terms, rest))
  }

  function DocsBytes(ds: seq<DocEntry>, rest: bytes): bytes {
    if ds == [] then rest else DocBytes(ds[0], DocsBytes(ds[1..], rest))
  }

  function Written(l: Listing): bytes {
    Count(|l.docs|, Count(l.vocabulary, Count(l.tokens, Count(l.size, DocsBytes(l.docs, [])))))
  }

  // ---- reading ----

  /** `Decoder::count`. */
  function ReadCount(input: bytes, max: nat): Read<nat> {
    match Take(input, COUNT_BYTES)
    case Fail => Fail
    case Got(b, rest) => if FromLittleEndian(b) <= max then Got(FromLittleEndian(b), rest) else Fail
  }

  predicate TermOk(t: TermCount) {
    0 < |t.term| <= MAX_TERM_BYTES && 0 < t.count <= MAX_DOCUMENT_BYTES
  }

  function ReadTerm(input: bytes): Read<TermCount> {
    match ReadCount(input, MAX_TERM_BYTES)
    case Fail => Fail
    case Got(len, r1) =>
      match Take(r1, len)
      case Fail => Fail
      case Got(term, r2) =>
        match ReadCount(r2, MAX_DOCUMENT_BYTES)
        case Fail => Fail
        case Got(count, r3) => if TermOk(TermCount(term, count)) then Got(TermCount(term, count), r3) else Fail
  }

  function ReadTerms(input: bytes, n: nat): Read<seq<TermCount>>
    decreases n
  {
    if n == 0 then Got([], input) else
    match ReadTerm(input)
    case Fail => Fail
    case Got(t, rest) => Prepend([t], ReadTerms(rest, n - 1))
  }

  predicate AllTermsOk(ts: seq<TermCount>) {
    forall i :: 0 <= i < |ts| ==> TermOk(ts[i])
  }

  predicate AllDocsOk(ds: seq<DocEntry>) {
    forall i {:trigger DocFieldsOk(ds[i])} :: 0 <= i < |ds| ==> DocFieldsOk(ds[i])
  }

  lemma DocsTail(ds: seq<DocEntry>)
    requires ds != []
    ensures AllDocsOk(ds) <==> DocFieldsOk(ds[0]) && AllDocsOk(ds[1..])
  {
    if AllDocsOk(ds) {
      forall i | 0 <= i < |ds| - 1 ensures DocFieldsOk(ds[1..][i]) { assert DocFieldsOk(ds[i + 1]); }
      assert DocFieldsOk(ds[0]);
    }
    if DocFieldsOk(ds[0]) && AllDocsOk(ds[1..]) {
      forall i | 0 <= i < |ds| ensures DocFieldsOk(ds[i]) { if i > 0 { assert DocFieldsOk(ds[1..][i - 1]); } }
    }
  }

  predicate DocFieldsOk(d: DocEntry) {
    && d.length <= MAX_DOCUMENT_BYTES && d.size <= MAX_DOCUMENT_BYTES && |d.terms| <= MAX_DOCUMENT_TERMS
    && AllTermsOk(d.terms)
  }

  predicate HeadOk(h: DocHead) {
    h.length <= MAX_DOCUMENT_BYTES && h.size <= MAX_DOCUMENT_BYTES && h.terms <= MAX_DOCUMENT_TERMS
  }

  function ReadId(input: bytes): Read<Id> {
    match ReadNumber(input)
    case Fail => Fail
    case Got(n, rest) => if n < U64_END then Got(Signed(n), rest) else Fail
  }

  function ReadDocHead(input: bytes): Read<DocHead> {
    match ReadId(input)
    case Fail => Fail
    case Got(id, r1) =>
      match ReadCount(r1, MAX_DOCUMENT_BYTES)
      case Fail => Fail
      case Got(length, r2) =>
        match ReadCount(r2, MAX_DOCUMENT_BYTES)
        case Fail => Fail
        case Got(size, r3) =>
          match ReadCount(r3, MAX_DOCUMENT_TERMS)
          case Fail => Fail
          case Got(n, r4) => Got(DocHead(id, length, size, n), r4)
  }

  function ReadDoc(input: bytes): Read<DocEntry> {
    match ReadDocHead(input)
    case Fail => Fail
    case Got(h, rest) =>
      match ReadTerms(rest, h.terms)
      case Fail => Fail
      case Got(terms, rest) => Got(DocEntry(h.id, h.length, h.size, terms), rest)
  }

  function ReadDocs(input: bytes, n: nat): Read<seq<DocEntry>>
    decreases n
  {
    if n == 0 then Got([], input) else
    match ReadDoc(input)
    case Fail => Fail
    case Got(d, rest) => Prepend([d], ReadDocs(rest, n - 1))
  }

  predicate FieldsOk(l: Listing) {
    && |l.docs| <= MAX_DOCUMENTS && l.vocabulary <= MAX_TERMS && l.tokens <= MAX_TOTAL_BYTES
      && l.size <= MAX_TOTAL_BYTES
    && AllDocsOk(l.docs)
  }

  function ReadListing(input: bytes): Read<Listing> {
    match ReadCount(input, MAX_DOCUMENTS)
    case Fail => Fail
    case Got(n, r1) =>
      match ReadCount(r1, MAX_TERMS)
      case Fail => Fail
      case Got(vocabulary, r2) =>
        match ReadCount(r2, MAX_TOTAL_BYTES)
        case Fail => Fail
        case Got(tokens, r3) =>
          match ReadCount(r3, MAX_TOTAL_BYTES)
          case Fail => Fail
          case Got(size, r4) =>
            match ReadDocs(r4, n)
            case Fail => Fail
            case Got(docs, r5) => Got(Listing(vocabulary, tokens, size, docs), r5)
  }

  // ---- readers invert writers ----

  lemma CountRead(n: nat, rest: bytes, max: nat)
    requires n <= max < U32_END
    ensures ReadCount(Count(n, rest), max) == Got(n, rest)
  {
    RadixOfWidths();
    LittleEndianRoundTrip(n, COUNT_BYTES);
    assert Count(n, rest)[..4] == LittleEndian(n, COUNT_BYTES);
  }

  lemma CountWritten(input: bytes, max: nat)
    requires ReadCount(input, max).Got?
    ensures input == Count(ReadCount(input, max).value, ReadCount(input, max).rest)
      && ReadCount(input, max).value <= max
  {
    FromLittleEndianRoundTrip(input[..4]);
    assert input == input[..4] + input[4..];
  }

  lemma TermRead(t: TermCount, rest: bytes)
    requires TermOk(t)
    ensures ReadTerm(TermBytes(t, rest)) == Got(t, rest)
  {
    CountRead(|t.term|, t.term + Count(t.count, rest), MAX_TERM_BYTES);
    TakeRead(t.term, Count(t.count, rest));
    CountRead(t.count, rest, MAX_DOCUMENT_BYTES);
  }

  lemma TermWritten(input: bytes)
    requires ReadTerm(input).Got?
    ensures TermOk(ReadTerm(input).value) && input == TermBytes(ReadTerm(input).value, ReadTerm(input).rest)
  {
    CountWritten(input, MAX_TERM_BYTES);
    var r1 := ReadCount(input, MAX_TERM_BYTES);
    TakeWritten(r1.rest, r1.value);
    CountWritten(Take(r1.rest, r1.value).rest, MAX_DOCUMENT_BYTES);
  }

  lemma ReadTermsStep(input: bytes, n: nat, t: TermCount, rest: bytes, ts: seq<TermCount>, end: bytes)
    requires ReadTerm(input) == Got(t, rest) && ReadTerms(rest, n) == Got(ts, end)
    ensures ReadTerms(input, n + 1) == Got([t] + ts, end)
  {}

  lemma TermsBytesCons(t: TermCount, ts: seq<TermCount>, rest: bytes)
    ensures TermsBytes([t] + ts, rest) == TermBytes(t, TermsBytes(ts, rest))
  {
    assert ([t] + ts)[1..] == ts;
  }

  lemma TermsReadCons(t: TermCount, ts: seq<TermCount>, rest: bytes)
    requires TermOk(t) && ReadTerms(TermsBytes(ts, rest), |ts|) == Got(ts, rest)
    ensures ReadTerms(TermsBytes([t] + ts, rest), |ts| + 1) == Got([t] + ts, rest)
  {
    var more := TermsBytes(ts, rest);
    TermsBytesCons(t, ts, rest);
    TermRead(t, more);
    ReadTermsStep(TermBytes(t, more), |ts|, t, more, ts, rest);
  }

  lemma {:induction false} TermsRead(ts: seq<TermCount>, rest: bytes)
    requires AllTermsOk(ts)
    ensures ReadTerms(TermsBytes(ts, rest), |ts|) == Got(ts, rest)
    decreases |ts|
  {
    if ts != [] {
      var t, tail := ts[0], ts[1..];
      assert ts == [t] + tail;
      TermsRead(tail, rest);
      TermsReadCons(t, tail, rest);
    }
  }

  lemma ReadTermsParts(input: bytes, n: nat) returns (t: TermCount, more: bytes, ts: seq<TermCount>)
    requires n > 0 && ReadTerms(input, n).Got?
    ensures ReadTerm(input) == Got(t, more) && ReadTerms(more, n - 1) == Got(ts, ReadTerms(input, n).rest)
    ensures ReadTerms(input, n).value == [t] + ts
  {
    t, more := ReadTerm(input).value, ReadTerm(input).rest;
    ts := ReadTerms(more, n - 1).value;
  }

  lemma {:induction false} TermsWritten(input: bytes, n: nat)
    requires ReadTerms(input, n).Got?
    ensures |ReadTerms(input, n).value| == n && AllTermsOk(ReadTerms(input, n).value)
    ensures input == TermsBytes(ReadTerms(input, n).value, ReadTerms(input, n).rest)
    decreases n
  {
    if n > 0 {
      var t, more, ts := ReadTermsParts(input, n);
      TermsWritten(more, n - 1);
      TermWritten(input);
      TermsBytesCons(t, ts, ReadTerms(input, n).rest);
    }
  }

  lemma SignedUnsigned(i: i64)
    ensures Signed(Unsigned(i)) == i
  {}

  lemma IdRead(id: Id, rest: bytes)
    ensures ReadId(Number(Unsigned(id), rest)) == Got(id, rest)
  {
    NumberRead(Unsigned(id), rest);
    SignedUnsigned(id);
  }

  lemma IdWritten(input: bytes)
    requires ReadId(input).Got?
    ensures input == Number(Unsigned(ReadId(input).value), ReadId(input).rest)
  {
    NumberWritten(input);
  }

  lemma DocHeadRead(h: DocHead, rest: bytes)
    requires HeadOk(h)
    ensures ReadDocHead(DocHeadBytes(h, rest)) == Got(h, rest)
  {
    IdRead(h.id, Count(h.length, Count(h.size, Count(h.terms, rest))));
    CountRead(h.length, Count(h.size, Count(h.terms, rest)), MAX_DOCUMENT_BYTES);
    CountRead(h.size, Count(h.terms, rest), MAX_DOCUMENT_BYTES);
    CountRead(h.terms, rest, MAX_DOCUMENT_TERMS);
  }

  lemma DocHeadWritten(input: bytes)
    requires ReadDocHead(input).Got?
    ensures HeadOk(ReadDocHead(input).value) && input == DocHeadBytes(ReadDocHead(input).value, ReadDocHead(input).rest)
  {
    IdWritten(input);
    var r1 := ReadId(input);
    CountWritten(r1.rest, MAX_DOCUMENT_BYTES);
    var r2 := ReadCount(r1.rest, MAX_DOCUMENT_BYTES);
    CountWritten(r2.rest, MAX_DOCUMENT_BYTES);
    var r3 := ReadCount(r2.rest, MAX_DOCUMENT_BYTES);
    CountWritten(r3.rest, MAX_DOCUMENT_TERMS);
  }

  lemma DocRead(d: DocEntry, rest: bytes)
    requires DocFieldsOk(d)
    ensures ReadDoc(DocBytes(d, rest)) == Got(d, rest)
  {
    DocHeadRead(DocHead(d.id, d.length, d.size, |d.terms|), TermsBytes(d.terms, rest));
    TermsRead(d.terms, rest);
  }

  lemma DocWritten(input: bytes)
    requires ReadDoc(input).Got?
    ensures DocFieldsOk(ReadDoc(input).value) && input == DocBytes(ReadDoc(input).value, ReadDoc(input).rest)
  {
    DocHeadWritten(input);
    TermsWritten(ReadDocHead(input).rest, ReadDocHead(input).value.terms);
  }

  lemma ReadDocsStep(input: bytes, n: nat, d: DocEntry, rest: bytes, ds: seq<DocEntry>, end: bytes)
    requires ReadDoc(input) == Got(d, rest) && ReadDocs(rest, n) == Got(ds, end)
    ensures ReadDocs(input, n + 1) == Got([d] + ds, end)
  {}

  lemma DocsReadCons(d: DocEntry, ds: seq<DocEntry>, rest: bytes)
    requires DocFieldsOk(d) && ReadDocs(DocsBytes(ds, rest), |ds|) == Got(ds, rest)
    ensures ReadDocs(DocsBytes([d] + ds, rest), |ds| + 1) == Got([d] + ds, rest)
  {
    var more := DocsBytes(ds, rest);
    DocsBytesCons(d, ds, rest);
    DocRead(d, more);
    ReadDocsStep(DocBytes(d, more), |ds|, d, more, ds, rest);
  }

  lemma {:induction false} DocsRead(ds: seq<DocEntry>, rest: bytes)
    requires AllDocsOk(ds)
    ensures ReadDocs(DocsBytes(ds, rest), |ds|) == Got(ds, rest)
    decreases |ds|
  {
    if ds != [] {
      var d, tail := ds[0], ds[1..];
      DocsTail(ds);
      assert ds == [d] + tail;
      DocsRead(tail, rest);
      DocsReadCons(d, tail, rest);
    }
  }

  /** What a successful read of several documents consists of. */
  lemma ReadDocsParts(input: bytes, n: nat) returns (d: DocEntry, more: bytes, ds: seq<DocEntry>)
    requires n > 0 && ReadDocs(input, n).Got?
    ensures ReadDoc(input) == Got(d, more) && ReadDocs(more, n - 1) == Got(ds, ReadDocs(input, n).rest)
    ensures ReadDocs(input, n).value == [d] + ds
  {
    d, more := ReadDoc(input).value, ReadDoc(input).rest;
    ds := ReadDocs(more, n - 1).value;
  }

  lemma DocsBytesCons(d: DocEntry, ds: seq<DocEntry>, rest: bytes)
    ensures DocsBytes([d] + ds, rest) == DocBytes(d, DocsBytes(ds, rest))
  {
    assert ([d] + ds)[1..] == ds;
  }

  lemma DocsOkCons(d: DocEntry, ds: seq<DocEntry>)
    requires DocFieldsOk(d) && AllDocsOk(ds)
    ensures AllDocsOk([d] + ds)
  {
    var all := [d] + ds;
    assert all[0] == d && all[1..] == ds;
    DocsTail(all);
  }

  lemma {:induction false} DocsWritten(input: bytes, n: nat)
    requires ReadDocs(input, n).Got?
    ensures |ReadDocs(input, n).value| == n && AllDocsOk(ReadDocs(input, n).value)
    ensures input == DocsBytes(ReadDocs(input, n).value, ReadDocs(input, n).rest)
    decreases n
  {
    if n > 0 {
      var d, more, ds := ReadDocsParts(input, n);
      DocsWritten(more, n - 1);
      assert DocFieldsOk(d) && input == DocBytes(d, more) by { DocWritten(input); }
      DocsBytesCons(d, ds, ReadDocs(input, n).rest);
      DocsOkCons(d, ds);
    }
  }

  lemma ListingRead(l: Listing)
    requires FieldsOk(l)
    ensures ReadListing(Written(l)) == Got(l, [])
  {
    var r4 := DocsBytes(l.docs, []);
    CountRead(|l.docs|, Count(l.vocabulary, Count(l.tokens, Count(l.size, r4))), MAX_DOCUMENTS);
    CountRead(l.vocabulary, Count(l.tokens, Count(l.size, r4)), MAX_TERMS);
    CountRead(l.tokens, Count(l.size, r4), MAX_TOTAL_BYTES);
    CountRead(l.size, r4, MAX_TOTAL_BYTES);
    DocsRead(l.docs, []);
  }

  lemma ListingWritten(input: bytes)
    requires ReadListing(input).Got? && ReadListing(input).rest == []
    ensures FieldsOk(ReadListing(input).value) && input == Written(ReadListing(input).value)
  {
    CountWritten(input, MAX_DOCUMENTS);
    var r1 := ReadCount(input, MAX_DOCUMENTS);
    CountWritten(r1.rest, MAX_TERMS);
    var r2 := ReadCount(r1.rest, MAX_TERMS);
    CountWritten(r2.rest, MAX_TOTAL_BYTES);
    var r3 := ReadCount(r2.rest, MAX_TOTAL_BYTES);
    CountWritten(r3.rest, MAX_TOTAL_BYTES);
    var r4 := ReadCount(r3.rest, MAX_TOTAL_BYTES);
    DocsWritten(r4.rest, r1.value);
  }
}
