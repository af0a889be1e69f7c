/** The byte layouts, field by field, apart from the writers and readers that follow them. */
module Layouts {
  import opened Core
  import opened ChangeCodec
  import TextCodec
  import VectorIndexes
  import IndexEnvelope
  import SourceDigest

  // ---- numbers ----

  /** A number without its i lowest bytes. */
  function ShiftedRight(n: nat, i: nat): nat {
    if i == 0 then n else ShiftedRight(n / 256, i - 1)
  }

  /** Byte i of a little-endian number, counted from the lowest. */
  lemma {:induction false} LittleEndianByte(n: nat, k: nat, i: nat)
    requires i < k
    ensures LittleEndian(n, k)[i] == ShiftedRight(n, i) % 256
    decreases k
  {
    if i > 0 { LittleEndianByte(n / 256, k - 1, i - 1); }
  }

  /** A signed number as its 64-bit two's complement. */
  lemma TwosComplement(i: i64)
    ensures 0 <= TextCodec.Unsigned(i) < 0x1_0000_0000_0000_0000
    ensures TextCodec.Unsigned(i) == i || TextCodec.Unsigned(i) == i + 0x1_0000_0000_0000_0000
  {}

  function U64(n: nat): bytes { LittleEndian(n, 8) }

  function U32(n: nat): bytes { LittleEndian(n, 4) }

  // ---- fields in a row ----

  function Flat(fields: seq<bytes>): bytes {
    if fields == [] then [] else fields[0] + Flat(fields[1..])
  }

  lemma {:induction false} FlatConcat(a: seq<bytes>, b: seq<bytes>)
    ensures Flat(a + b) == Flat(a) + Flat(b)
    decreases |a|
  {
    if a == [] {
      NothingAdded(b);
      NothingAdded(Flat(b));
    } else {
      assert (a + b)[1..] == a[1..] + b;
      FlatConcat(a[1..], b);
      AddedInTurn(a[0], Flat(a[1..]), Flat(b));
    }
  }

  lemma FlatFirst(x: bytes, more: seq<bytes>, rest: bytes)
    ensures Flat([x] + more) == x + Flat(more) && Flat([x] + more) + rest == x + (Flat(more) + rest)
  {
    assert ([x] + more)[1..] == more;
    AddedInTurn(x, Flat(more), rest);
  }

  lemma Flat1(a: bytes, rest: bytes)
    ensures Flat([a]) + rest == a + rest
  {
    FlatFirst(a, [], rest);
    NothingAdded([a]);
    NothingAdded(rest);
  }

  lemma Flat2(a: bytes, b: bytes, rest: bytes)
    ensures Flat([a, b]) + rest == a + (b + rest)
  {
    FlatFirst(a, [b], rest);
    Flat1(b, rest);
    assert [a, b] == [a] + [b];
  }

  lemma Flat3(a: bytes, b: bytes, c: bytes, rest: bytes)
    ensures Flat([a, b, c]) + rest == a + (b + (c + rest))
  {
    FlatFirst(a, [b, c], rest);
    Flat2(b, c, rest);
    assert [a, b, c] == [a] + [b, c];
  }

  lemma Flat4(a: bytes, b: bytes, c: bytes, d: bytes, rest: bytes)
    ensures Flat([a, b, c, d]) + rest == a + (b + (c + (d + rest)))
  {
    FlatFirst(a, [b, c, d], rest);
    Flat3(b, c, d, rest);
    assert [a, b, c, d] == [a] + [b, c, d];
  }

  lemma Flat7(a: bytes, b: bytes, c: bytes, d: bytes, e: bytes, f: bytes, g: bytes, rest: bytes)
    ensures Flat([a, b, c, d, e, f, g]) + rest == a + (b + (c + (d + (e + (f + (g + rest))))))
  {
    Flat3(e, f, g, rest);
    Flat4(a, b, c, d, Flat([e, f, g]) + rest);
    FlatConcat([a, b, c, d], [e, f, g]);
    assert [a, b, c, d, e, f, g] == [a, b, c, d] + [e, f, g];
    AddedInTurn(Flat([a, b, c, d]), Flat([e, f, g]), rest);
  }

  /** The fields of a list of things, one after the other. */
  function Each<T>(s: seq<T>, f: T -> seq<bytes>): seq<bytes> {
    if s == [] then [] else f(s[0]) + Each(s[1..], f)
  }

  // ---- the change record ----

  function PageFields(p: PageChange): seq<bytes> { [U64(p.pageId), p.data] }

  function BlobFields(b: BlobChange): seq<bytes> { [b.hash, U64(|b.data|), b.data] }

  function HeadFields(c: ChangeCommit): seq<bytes> {
    [[0x50, 0x56, 0x43, 0x48, 0x47, 0x30, 0x30, 0x31],  // PVCHG001
     U64(c.sequence), U64(c.beforeTx), U64(c.afterTx), U64(|c.manifest|), c.manifest, U64(|c.pages|)]
  }

  function BodyFields(c: ChangeCommit): seq<bytes> {
    Each(c.pages, PageFields) + ([U64(|c.blobs|)] + Each(c.blobs, BlobFields))
  }

  function ChangeFields(c: ChangeCommit): seq<bytes> {
    HeadFields(c) + BodyFields(c)
  }

  lemma PageLaidOut(p: PageChange, rest: bytes)
    ensures PageBytes(p, rest) == Flat(PageFields(p)) + rest
  {
    Flat2(U64(p.pageId), p.data, rest);
  }

  lemma {:induction false} PagesLaidOut(ps: seq<PageChange>, rest: bytes)
    ensures PagesBytes(ps, rest) == Flat(Each(ps, PageFields)) + rest
    decreases |ps|
  {
    if ps != [] {
      PagesLaidOut(ps[1..], rest);
      PageLaidOut(ps[0], PagesBytes(ps[1..], rest));
      FlatConcat(PageFields(ps[0]), Each(ps[1..], PageFields));
      AddedInTurn(Flat(PageFields(ps[0])), Flat(Each(ps[1..], PageFields)), rest);
    }
  }

  lemma BlobLaidOut(b: BlobChange, rest: bytes)
    ensures BlobBytes(b, rest) == Flat(BlobFields(b)) + rest
  {
    Flat3(b.hash, U64(|b.data|), b.data, rest);
  }

  lemma {:induction false} BlobsLaidOut(bs: seq<BlobChange>, rest: bytes)
    ensures BlobsBytes(bs, rest) == Flat(Each(bs, BlobFields)) + rest
    decreases |bs|
  {
    if bs != [] {
      BlobsLaidOut(bs[1..], rest);
      BlobLaidOut(bs[0], BlobsBytes(bs[1..], rest));
      FlatConcat(BlobFields(bs[0]), Each(bs[1..], BlobFields));
      AddedInTurn(Flat(BlobFields(bs[0])), Flat(Each(bs[1..], BlobFields)), rest);
    }
  }

  /** A record is its fields in this order. */
  lemma ChangeLayout(c: ChangeCommit)
    ensures Encode(c) == Flat(ChangeFields(c))
  {
    BodyLayout(c);
    var body := BodyFields(c);
    FlatConcat(HeadFields(c), body);
    Flat7(MAGIC, U64(c.sequence), U64(c.beforeTx), U64(c.afterTx), U64(|c.manifest|), c.manifest, U64(|c.pages|),
      Flat(body));
  }

  lemma BodyLayout(c: ChangeCommit)
    ensures Flat(BodyFields(c)) == PagesBytes(c.pages, Number(|c.blobs|, BlobsBytes(c.blobs, [])))
  {
    var pages, blobs := Each(c.pages, PageFields), Each(c.blobs, BlobFields);
    BlobsLaidOut(c.blobs, []);
    NothingAdded(Flat(blobs));
    PagesLaidOut(c.pages, U64(|c.blobs|) + Flat(blobs));
    FlatFirst(U64(|c.blobs|), blobs, []);
    FlatConcat(pages, [U64(|c.blobs|)] + blobs);
  }

  /** The numbers at the front, by offset. */
  lemma ChangeOffsets(c: ChangeCommit)
    ensures var b, m := Encode(c), |c.manifest|;
      && |b| >= 48 + m && b[..8] == [0x50, 0x56, 0x43, 0x48, 0x47, 0x30, 0x30, 0x31]
      && b[8..16] == U64(c.sequence) && b[16..24] == U64(c.beforeTx) && b[24..32] == U64(c.afterTx)
      && b[32..40] == U64(m) && b[40..40 + m] == c.manifest && b[40 + m..48 + m] == U64(|c.pages|)
  {
    var body := BodyBytes(c.pages, c.blobs, []);
    FiveNumbers(MAGIC, U64(c.sequence), U64(c.beforeTx), U64(c.afterTx), U64(|c.manifest|), c.manifest + body);
    var b, m := Encode(c), |c.manifest|;
    assert b[40..] == c.manifest + body;
    assert b[40..40 + m] == b[40..][..m] && b[40 + m..48 + m] == b[40..][m..m + 8];
    assert body[..8] == U64(|c.pages|);
  }

  lemma FiveNumbers(a: bytes, b: bytes, c: bytes, d: bytes, e: bytes, rest: bytes)
    requires |a| == |b| == |c| == |d| == |e| == 8
    ensures var s := a + (b + (c + (d + (e + rest))));
      && |s| == 40 + |rest| && s[..8] == a && s[8..16] == b && s[16..24] == c && s[24..32] == d && s[32..40] == e
      && s[40..] == rest
  {}

  // ---- the text index ----

  function TermFields(t: TextCodec.TermCount): seq<bytes> { [U32(|t.term|), t.term, U32(t.count)] }

  function DocFields(d: TextCodec.DocEntry): seq<bytes> {
    [U64(TextCodec.Unsigned(d.id)), U32(d.length), U32(d.size), U32(|d.terms|)] + Each(d.terms, TermFields)
  }

  function TextFields(l: TextCodec.Listing): seq<bytes> {
    [U32(|l.docs|), U32(l.vocabulary), U32(l.tokens), U32(l.size)] + Each(l.docs, DocFields)
  }

  lemma {:induction false} TermsLaidOut(ts: seq<TextCodec.TermCount>, rest: bytes)
    ensures TextCodec.TermsBytes(ts, rest) == Flat(Each(ts, TermFields)) + rest
    decreases |ts|
  {
    if ts != [] {
      TermsLaidOut(ts[1..], rest);
      Flat3(U32(|ts[0].term|), ts[0].term, U32(ts[0].count), TextCodec.TermsBytes(ts[1..], rest));
      FlatConcat(TermFields(ts[0]), Each(ts[1..], TermFields));
      AddedInTurn(Flat(TermFields(ts[0])), Flat(Each(ts[1..], TermFields)), rest);
    }
  }

  lemma DocLaidOut(d: TextCodec.DocEntry, rest: bytes)
    ensures TextCodec.DocBytes(d, rest) == Flat(DocFields(d)) + rest
  {
    var head := [U64(TextCodec.Unsigned(d.id)), U32(d.length), U32(d.size), U32(|d.terms|)];
    TermsLaidOut(d.terms, rest);
    Flat4(head[0], head[1], head[2], head[3], TextCodec.TermsBytes(d.terms, rest));
    FlatConcat(head, Each(d.terms, TermFields));
    AddedInTurn(Flat(head), Flat(Each(d.terms, TermFields)), rest);
  }

  lemma {:induction false} DocsLaidOut(ds: seq<TextCodec.DocEntry>, rest: bytes)
    ensures TextCodec.DocsBytes(ds, rest) == Flat(Each(ds, DocFields)) + rest
    decreases |ds|
  {
    if ds != [] {
      DocsLaidOut(ds[1..], rest);
      DocLaidOut(ds[0], TextCodec.DocsBytes(ds[1..], rest));
      FlatConcat(DocFields(ds[0]), Each(ds[1..], DocFields));
      AddedInTurn(Flat(DocFields(ds[0])), Flat(Each(ds[1..], DocFields)), rest);
    }
  }

  /** A text index is its counts, then each document with its terms. */
  lemma TextLayout(l: TextCodec.Listing)
    ensures TextCodec.Written(l) == Flat(TextFields(l))
  {
    var head := [U32(|l.docs|), U32(l.vocabulary), U32(l.tokens), U32(l.size)];
    DocsLaidOut(l.docs, []);
    NothingAdded(Flat(Each(l.docs, DocFields)));
    Flat4(head[0], head[1], head[2], head[3], Flat(Each(l.docs, DocFields)));
    FlatConcat(head, Each(l.docs, DocFields));
  }

  // ---- the vector index ----

  function VectorFields(e: VectorIndexes.Entry): seq<bytes> {
    [U64(TextCodec.Unsigned(e.id))] + Each(e.values, (f: VectorIndexes.Float) => [U32(f)])
  }

  lemma {:induction false} ValuesLaidOut(v: seq<VectorIndexes.Float>, rest: bytes)
    ensures VectorIndexes.ValuesBytes(v, rest) == Flat(Each(v, (f: VectorIndexes.Float) => [U32(f)])) + rest
    decreases |v|
  {
    var one := (f: VectorIndexes.Float) => [U32(f)];
    if v != [] {
      ValuesLaidOut(v[1..], rest);
      FlatFirst(U32(v[0]), Each(v[1..], one), rest);
    }
  }

  lemma {:induction false} VectorsLaidOut(es: seq<VectorIndexes.Entry>, rest: bytes)
    ensures VectorIndexes.EntriesBytes(es, rest) == Flat(Each(es, VectorFields)) + rest
    decreases |es|
  {
    if es != [] {
      var more := VectorIndexes.EntriesBytes(es[1..], rest);
      VectorsLaidOut(es[1..], rest);
      ValuesLaidOut(es[0].values, more);
      FlatFirst(U64(TextCodec.Unsigned(es[0].id)), Each(es[0].values, (f: VectorIndexes.Float) => [U32(f)]), more);
      FlatConcat(VectorFields(es[0]), Each(es[1..], VectorFields));
      AddedInTurn(Flat(VectorFields(es[0])), Flat(Each(es[1..], VectorFields)), rest);
    }
  }

  /** A vector index is its dimensions, its count, the metric's tag in four bytes, then each vector. */
  lemma VectorLayout(dimensions: nat, metric: VectorIndexes.Metric, es: seq<VectorIndexes.Entry>)
    ensures VectorIndexes.Written(dimensions, metric, es)
      == Flat([U32(dimensions), U32(|es|), [if metric.Cosine? then 1 else 2, 0, 0, 0]] + Each(es, VectorFields))
  {
    var tag := [if metric.Cosine? then 1 else 2, 0, 0, 0];
    VectorsLaidOut(es, []);
    NothingAdded(Flat(Each(es, VectorFields)));
    Flat3(U32(dimensions), U32(|es|), tag, Flat(Each(es, VectorFields)));
    FlatConcat([U32(dimensions), U32(|es|), tag], Each(es, VectorFields));
  }

  // ---- the envelope ----

  /** A payload is the magic, version 1, the kind, the generation, the definition, the digest and the body. */
  lemma EnvelopeLayout(e: IndexEnvelope.Envelope)
    ensures IndexEnvelope.PayloadBytes(e) == Flat(
      [[0x50, 0x56, 0x52, 0x49, 0x44, 0x58, 0x00, 0x00], [1, 0, e.tag, 0], U64(e.generation)] +
      [U32(|e.definition|), e.definition, e.digest, U32(|e.body|)] + [e.body])
  {
    var a := [[0x50, 0x56, 0x52, 0x49, 0x44, 0x58, 0x00, 0x00], [1, 0, e.tag, 0], U64(e.generation)];
    var b := [U32(|e.definition|), e.definition, e.digest, U32(|e.body|)];
    NothingAdded(e.body);
    Flat1(e.body, []);
    NothingAdded(Flat([e.body]));
    Flat4(b[0], b[1], b[2], b[3], e.body);
    Flat3(a[0], a[1], a[2], Flat(b) + e.body);
    FlatConcat(a + b, [e.body]);
    FlatConcat(a, b);
    AddedInTurn(Flat(a), Flat(b), e.body);
  }

  /** What is hashed of the sources: each id, fingerprint and size. */
  lemma {:induction false} SourceLayout(es: seq<SourceDigest.Sourced>)
    ensures SourceDigest.ListBytes(es) == Flat(Each(es, (x: SourceDigest.Sourced) =>
      [U64(TextCodec.Unsigned(x.id)), x.document.fingerprint, U64(x.document.bytes)]))
    decreases |es|
  {
    var one := (x: SourceDigest.Sourced) =>
      [U64(TextCodec.Unsigned(x.id)), x.document.fingerprint, U64(x.document.bytes)];
    if es != [] {
      SourceLayout(es[1..]);
      Flat3(one(es[0])[0], one(es[0])[1], one(es[0])[2], Flat(Each(es[1..], one)));
      FlatConcat(one(es[0]), Each(es[1..], one));
    }
  }
}
