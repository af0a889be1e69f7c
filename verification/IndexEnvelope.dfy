/** The checksummed envelope around a saved index, and the comparison made when it is loaded. */
module IndexEnvelope {
  import opened Core
  import opened ChangeCodec
  import opened TextIndex
  import opened TextCodec
  import opened TextPersistence
  import opened TextCatalog
  import opened SourceDigest

  const MAX_DEFINITION_BYTES: nat := 8192
  const DIGEST_BYTES: nat := 32
  const MIN_ENVELOPE_BYTES: nat := 92

  /** b"PVRIDX\0\0" */
  const INDEX_MAGIC: bytes := [0x50, 0x56, 0x52, 0x49, 0x44, 0x58, 0x00, 0x00]

  datatype Envelope = Envelope(tag: byte, generation: nat, definition: bytes, digest: bytes, body: bytes)

  /** A 32-byte hash, the same under the prefix of source digests, and a canonical definition's kind tag. */
  datatype Rules = Rules(hash: bytes -> bytes, digest: bytes -> bytes, tagOf: bytes -> Option<byte>)

  ghost predicate RulesOk(r: Rules) {
    forall b :: |r.hash(b)| == DIGEST_BYTES && |r.digest(b)| == DIGEST_BYTES
  }

  predicate EnvelopeOk(e: Envelope, r: Rules) {
    && e.generation < U64_END && |e.definition| <= MAX_DEFINITION_BYTES && |e.digest| == DIGEST_BYTES
    && |e.body| <= MAX_RETRIEVAL_INDEX_BYTES && r.tagOf(e.definition) == Some(e.tag)
  }

  function HeaderBytes(tag: byte, rest: bytes): bytes {
    INDEX_MAGIC + ([1, 0, tag, 0] + rest)
  }

  function PayloadBytes(e: Envelope): bytes {
    HeaderBytes(e.tag, Number(e.generation, Count(|e.definition|, e.definition + (e.digest + Count(|e.body|, e.body)))))
  }

  /** `CatalogEntry::encode`: the payload and its hash. */
  function EncodeEnvelope(e: Envelope, r: Rules): Result<bytes> {
    var b := PayloadBytes(e) + r.hash(PayloadBytes(e));
    if |e.definition| > MAX_DEFINITION_BYTES then Err(Corruption)
    else if |b| > MAX_RETRIEVAL_INDEX_BYTES then Err(ResourceLimit)
    else Ok(b)
  }

  // ---- reading ----

  function ReadHeader(input: bytes): Read<byte> {
    match Take(input, 8)
    case Fail => Fail
    case Got(magic, r1) =>
      match Take(r1, 4)
      case Fail => Fail
      case Got(h, r2) => if magic == INDEX_MAGIC && h[0] == 1 && h[1] == 0 && h[3] == 0 then Got(h[2], r2) else Fail
  }

  function ReadDefinition(input: bytes): Read<bytes> {
    match ReadCount(input, MAX_DEFINITION_BYTES)
    case Fail => Fail
    case Got(n, rest) => Take(rest, n)
  }

  function ReadBody(input: bytes): Read<bytes> {
    match ReadCount(input, MAX_RETRIEVAL_INDEX_BYTES)
    case Fail => Fail
    case Got(n, rest) => Take(rest, n)
  }

  function ReadPayload(input: bytes): Read<Envelope> {
    match ReadHeader(input)
    case Fail => Fail
    case Got(tag, r1) =>
      match ReadNumber(r1)
      case Fail => Fail
      case Got(generation, r2) =>
        match ReadDefinition(r2)
        case Fail => Fail
        case Got(definition, r3) =>
          match Take(r3, DIGEST_BYTES)
          case Fail => Fail
          case Got(digest, r4) =>
            match ReadBody(r4)
            case Fail => Fail
            case Got(body, r5) => Got(Envelope(tag, generation, definition, digest, body), r5)
  }

  /** `decode_envelope`, up to the decoding of the body. */
  function DecodeEnvelope(b: bytes, r: Rules): (e: Result<Envelope>)
    ensures e.Err? ==> e.error == Corruption
  {
    if |b| < MIN_ENVELOPE_BYTES || |b| > MAX_RETRIEVAL_INDEX_BYTES then Err(Corruption) else
    var split := |b| - DIGEST_BYTES;
    if r.hash(b[..split]) != b[split..] then Err(Corruption) else
    var p := ReadPayload(b[..split]);
    if p.Got? && p.rest == [] && r.tagOf(p.value.definition) == Some(p.value.tag) then Ok(p.value) else Err(Corruption)
  }

  // ---- readers invert writers ----

  lemma HeaderRead(tag: byte, rest: bytes)
    ensures ReadHeader(HeaderBytes(tag, rest)) == Got(tag, rest)
  {
    var h: bytes := [1, 0, tag, 0];
    TakeRead(INDEX_MAGIC, h + rest);
    TakeRead(h, rest);
  }

  lemma HeaderWritten(input: bytes)
    requires ReadHeader(input).Got?
    ensures input == HeaderBytes(ReadHeader(input).value, ReadHeader(input).rest)
  {
    TakeWritten(input, 8);
    var r1 := Take(input, 8).rest;
    TakeWritten(r1, 4);
    var h := Take(r1, 4).value;
    assert h == [1, 0, h[2], 0];
  }

  lemma DefinitionRead(d: bytes, rest: bytes)
    requires |d| <= MAX_DEFINITION_BYTES
    ensures ReadDefinition(Count(|d|, d + rest)) == Got(d, rest)
  {
    CountRead(|d|, d + rest, MAX_DEFINITION_BYTES);
    TakeRead(d, rest);
  }

  lemma DefinitionWritten(input: bytes)
    requires ReadDefinition(input).Got?
    ensures var d := ReadDefinition(input);
      |d.value| <= MAX_DEFINITION_BYTES && input == Count(|d.value|, d.value + d.rest)
  {
    CountWritten(input, MAX_DEFINITION_BYTES);
    var n := ReadCount(input, MAX_DEFINITION_BYTES);
    TakeWritten(n.rest, n.value);
  }

  lemma BodyRead(body: bytes)
    requires |body| <= MAX_RETRIEVAL_INDEX_BYTES
    ensures ReadBody(Count(|body|, body)) == Got(body, [])
  {
    CountRead(|body|, body, MAX_RETRIEVAL_INDEX_BYTES);
    assert body + [] == body;
    TakeRead(body, []);
  }

  lemma BodyWritten(input: bytes)
    requires ReadBody(input).Got? && ReadBody(input).rest == []
    ensures |ReadBody(input).value| <= MAX_RETRIEVAL_INDEX_BYTES
      && input == Count(|ReadBody(input).value|, ReadBody(input).value)
  {
    CountWritten(input, MAX_RETRIEVAL_INDEX_BYTES);
    var n := ReadCount(input, MAX_RETRIEVAL_INDEX_BYTES);
    TakeWritten(n.rest, n.value);
    assert n.rest == ReadBody(input).value + [];
  }

  lemma PayloadRead(e: Envelope, r: Rules)
    requires EnvelopeOk(e, r)
    ensures ReadPayload(PayloadBytes(e)) == Got(e, [])
  {
    var r4 := Count(|e.body|, e.body);
    var r2 := Count(|e.definition|, e.definition + (e.digest + r4));
    HeaderRead(e.tag, Number(e.generation, r2));
    NumberRead(e.generation, r2);
    DefinitionRead(e.definition, e.digest + r4);
    TakeRead(e.digest, r4);
    BodyRead(e.body);
  }

  lemma PayloadWritten(input: bytes)
    requires ReadPayload(input).Got? && ReadPayload(input).rest == []
    ensures var e := ReadPayload(input).value;
      && input == PayloadBytes(e) && e.generation < U64_END && |e.definition| <= MAX_DEFINITION_BYTES
      && |e.digest| == DIGEST_BYTES && |e.body| <= MAX_RETRIEVAL_INDEX_BYTES
  {
    HeaderWritten(input);
    var r1 := ReadHeader(input).rest;
    NumberWritten(r1);
    var r2 := ReadNumber(r1).rest;
    DefinitionWritten(r2);
    var r3 := ReadDefinition(r2).rest;
    TakeWritten(r3, DIGEST_BYTES);
    BodyWritten(Take(r3, DIGEST_BYTES).rest);
  }

  lemma PayloadLength(e: Envelope)
    ensures |PayloadBytes(e)| == 28 + |e.definition| + |e.digest| + |e.body|
  {}

  /** An encoded envelope decodes to itself. */
  lemma DecodeOfEncodeEnvelope(e: Envelope, r: Rules)
    requires RulesOk(r) && EnvelopeOk(e, r) && EncodeEnvelope(e, r).Ok?
    ensures DecodeEnvelope(EncodeEnvelope(e, r).value, r) == Ok(e)
  {
    var p := PayloadBytes(e);
    var b := p + r.hash(p);
    PayloadLength(e);
    assert b[..|b| - DIGEST_BYTES] == p && b[|b| - DIGEST_BYTES..] == r.hash(p);
    PayloadRead(e, r);
  }

  /** Accepted bytes are exactly the encoding of what they decode to. */
  lemma EncodeOfDecodeEnvelope(b: bytes, r: Rules)
    requires RulesOk(r) && DecodeEnvelope(b, r).Ok?
    ensures EnvelopeOk(DecodeEnvelope(b, r).value, r) && EncodeEnvelope(DecodeEnvelope(b, r).value, r) == Ok(b)
  {
    var split := |b| - DIGEST_BYTES;
    PayloadWritten(b[..split]);
    SplitAt(b, split);
    Sealed(DecodeEnvelope(b, r).value, b[..split], b[split..], r);
  }

  /** A payload and the digest it hashes to are an encoding. */
  lemma Sealed(e: Envelope, payload: bytes, digest: bytes, r: Rules)
    requires payload == PayloadBytes(e) && digest == r.hash(payload)
    requires |payload + digest| <= MAX_RETRIEVAL_INDEX_BYTES && |e.definition| <= MAX_DEFINITION_BYTES
    ensures EncodeEnvelope(e, r) == Ok(payload + digest)
  {}

  // ---- loading against the table ----

  datatype Descriptor = Descriptor(generation: nat, documents: nat, encoded: nat)

  /** What the rebuilt entry knows: its definition, its sources and its documents. */
  datatype Rebuilt = Rebuilt(definition: bytes, sources: Sources, docs: Docs)

  /** `verify_loaded`: the documents to use, when every comparison holds. */
  ghost function VerifyLoaded(mine: Rebuilt, d: Descriptor, b: bytes, r: Rules): Result<Docs> {
    var e := DecodeEnvelope(b, r);
    if e.Err? then Err(Corruption) else
    var loaded := DecodeIndex(e.value.body);
    if loaded.Err? || e.value.definition != mine.definition || e.value.generation != d.generation
      || d.documents != |mine.docs| || |b| != d.encoded || e.value.digest != Digest(mine.sources, r.digest)
      || EncodeIndex(loaded.value).Err? || EncodeIndex(loaded.value) != EncodeIndex(mine.docs)
    then Err(Corruption)
    else Ok(loaded.value)
  }

  /** An entry with these sources and documents writes this envelope. */
  ghost predicate Encodable(e: Envelope, sources: Sources, docs: Docs, r: Rules) {
    && Within(docs) && EncodeIndex(docs) == Ok(e.body) && e.digest == Digest(sources, r.digest)
    && EnvelopeOk(e, r) && EncodeEnvelope(e, r).Ok?
  }

  /** What an entry wrote is accepted by a rebuild with the same definition, sources and documents, and loads them. */
  lemma LoadingAcceptsSaved(e: Envelope, sources: Sources, docs: Docs, r: Rules)
    requires RulesOk(r) && Encodable(e, sources, docs, r)
    ensures var b := EncodeEnvelope(e, r).value;
      VerifyLoaded(Rebuilt(e.definition, sources, docs), Descriptor(e.generation, |docs|, |b|), b, r) == Ok(docs)
  {
    DecodeOfEncodeEnvelope(e, r);
    DecodeOfEncodeIndex(docs);
  }

  /** And nothing else is: whatever is accepted carries exactly the rebuilt documents. */
  lemma LoadingIsSound(mine: Rebuilt, d: Descriptor, b: bytes, r: Rules)
    requires RulesOk(r) && VerifyLoaded(mine, d, b, r).Ok? && Within(mine.docs)
    ensures VerifyLoaded(mine, d, b, r) == Ok(mine.docs)
    ensures EncodeEnvelope(DecodeEnvelope(b, r).value, r) == Ok(b)
  {
    var e := DecodeEnvelope(b, r).value;
    EncodeOfDecodeEnvelope(b, r);
    EncodeOfDecodeIndex(e.body);
    DecodeOfEncodeIndex(mine.docs);
  }

  /**
   What an entry saved is accepted by a rebuilt one of the same definition if and only if sources and documents
   are the same, unless the hash collides on the two source lists.
   */
  lemma LoadingTellsSources(e: Envelope, sources: Sources, docs: Docs, mine: Rebuilt, r: Rules)
    requires RulesOk(r) && Encodable(e, sources, docs, r) && Within(mine.docs) && mine.definition == e.definition
    requires SourcesOk(sources) && SourcesOk(mine.sources) && ToldApart(sources, mine.sources, r.digest)
    ensures var b := EncodeEnvelope(e, r).value;
      VerifyLoaded(mine, Descriptor(e.generation, |mine.docs|, |b|), b, r).Ok?
      <==> mine.sources == sources && mine.docs == docs
  {
    var b := EncodeEnvelope(e, r).value;
    if VerifyLoaded(mine, Descriptor(e.generation, |mine.docs|, |b|), b, r).Ok? {
      LoadedSame(e, sources, docs, mine, Descriptor(e.generation, |mine.docs|, |b|), r);
    } else if mine.sources == sources && mine.docs == docs {
      assert mine == Rebuilt(e.definition, sources, docs);
      LoadingAcceptsSaved(e, sources, docs, r);
    }
  }

  lemma LoadedSame(e: Envelope, sources: Sources, docs: Docs, mine: Rebuilt, d: Descriptor, r: Rules)
    requires RulesOk(r) && Encodable(e, sources, docs, r) && Within(mine.docs)
    requires SourcesOk(sources) && SourcesOk(mine.sources) && ToldApart(sources, mine.sources, r.digest)
    requires VerifyLoaded(mine, d, EncodeEnvelope(e, r).value, r).Ok?
    ensures mine.sources == sources && mine.docs == docs
  {
    DecodeOfEncodeEnvelope(e, r);
    DecodeOfEncodeIndex(docs);
    LoadingIsSound(mine, d, EncodeEnvelope(e, r).value, r);
    DigestTellsSources(sources, mine.sources, r.digest);
  }
}
