/** The binary commit record of the change stream (`encode_change`, `decode_change`). */
module ChangeCodec {
  import opened Core

  const HASH_DIGITS: nat := 64
  const NUMBER_BYTES: nat := 8

  /** b"PVCHG001" */
  const MAGIC: bytes := [0x50, 0x56, 0x43, 0x48, 0x47, 0x30, 0x30, 0x31]

  datatype PageChange = PageChange(pageId: nat, data: bytes)
  datatype BlobChange = BlobChange(hash: bytes, data: bytes)

  /** `schema_version` is always 1 in the binary form and is not stored there. */
  datatype ChangeCommit = ChangeCommit(
    sequence: nat, beforeTx: nat, afterTx: nat,
    manifest: bytes, pages: seq<PageChange>, blobs: seq<BlobChange>)

  /** The header numbers and the manifest, in file order. */
  datatype Head = Head(sequence: nat, beforeTx: nat, afterTx: nat, manifest: bytes)

  predicate IsHexDigit(b: byte) {
    0x30 <= b <= 0x39 || 0x41 <= b <= 0x46 || 0x61 <= b <= 0x66
  }

  predicate IsHash(h: bytes) {
    |h| == HASH_DIGITS && forall i :: 0 <= i < |h| ==> IsHexDigit(h[i])
  }

  predicate PageOk(p: PageChange) {
    p.pageId < U64_END && |p.data| == PAGE_SIZE
  }

  predicate BlobOk(b: BlobChange) {
    IsHash(b.hash) && |b.data| < U64_END
  }

  /** What the journal's own records satisfy: u64 fields, whole pages, 64 hex digits. */
  predicate WellFormed(c: ChangeCommit) {
    && c.sequence < U64_END && c.beforeTx < U64_END && c.afterTx < U64_END
    && |c.manifest| < U64_END && |c.pages| < U64_END && |c.blobs| < U64_END
    && (forall i :: 0 <= i < |c.pages| ==> PageOk(c.pages[i]))
    && (forall i :: 0 <= i < |c.blobs| ==> BlobOk(c.blobs[i]))
  }

  // ---- the encoding: each writer puts its value in front of the bytes that follow ----

  function Number(n: nat, rest: bytes): (b: bytes)
    ensures |b| == 8 + |rest| && b[8..] == rest
  {
    LittleEndian(n, NUMBER_BYTES) + rest
  }

  function PageBytes(p: PageChange, rest: bytes): bytes {
    Number(p.pageId, p.data + rest)
  }

  function PagesBytes(ps: seq<PageChange>, rest: bytes): bytes {
    if ps == [] then rest else PageBytes(ps[0], PagesBytes(ps[1..], rest))
  }

  function BlobBytes(b: BlobChange, rest: bytes): bytes {
    b.hash + Number(|b.data|, b.data + rest)
  }

  function BlobsBytes(bs: seq<BlobChange>, rest: bytes): bytes {
    if bs == [] then rest else BlobBytes(bs[0], BlobsBytes(bs[1..], rest))
  }

  function HeadBytes(h: Head, rest: bytes): bytes {
    Number(h.sequence, Number(h.beforeTx, Number(h.afterTx, Number(|h.manifest|, h.manifest + rest))))
  }

  function BodyBytes(pages: seq<PageChange>, blobs: seq<BlobChange>, rest: bytes): bytes {
    Number(|pages|, PagesBytes(pages, Number(|blobs|, BlobsBytes(blobs, rest))))
  }

  function HeadOf(c: ChangeCommit): Head {
    Head(c.sequence, c.beforeTx, c.afterTx, c.manifest)
  }

  function EncodeBefore(c: ChangeCommit, rest: bytes): bytes {
    MAGIC + HeadBytes(HeadOf(c), BodyBytes(c.pages, c.blobs, rest))
  }

  function Encode(c: ChangeCommit): bytes {
    EncodeBefore(c, [])
  }

  // ---- reading a prefix of the remaining input ----

  datatype Read<T> = Fail | Got(value: T, rest: bytes)

  /** What a list reader returns once `done` has already been read off the front. */
  function Prepend<T>(done: seq<T>, r: Read<seq<T>>): Read<seq<T>> {
    match r
    case Fail => Fail
    case Got(more, rest) => Got(done + more, rest)
  }

  function Take(input: bytes, n: nat): Read<bytes> {
    if n <= |input| then Got(input[..n], input[n..]) else Fail
  }

  function ReadNumber(input: bytes): Read<nat> {
    match Take(input, NUMBER_BYTES)
    case Fail => Fail
    case Got(b, rest) => Got(FromLittleEndian(b), rest)
  }

  function ReadPage(input: bytes): Read<PageChange> {
    match ReadNumber(input)
    case Fail => Fail
    case Got(id, rest) =>
      match Take(rest, PAGE_SIZE)
      case Fail => Fail
      case Got(data, rest) => Got(PageChange(id, data), rest)
  }

  function ReadPages(input: bytes, count: nat): Read<seq<PageChange>>
    decreases count
  {
    if count == 0 then Got([], input) else
    match ReadPage(input)
    case Fail => Fail
    case Got(p, rest) =>
      Prepend([p], ReadPages(rest, count - 1))
  }

  function ReadBlob(input: bytes): Read<BlobChange> {
    match Take(input, HASH_DIGITS)
    case Fail => Fail
    case Got(hash, rest) =>
      if !IsHash(hash) then Fail else
      match ReadNumber(rest)
      case Fail => Fail
      case Got(len, rest) =>
        match Take(rest, len)
        case Fail => Fail
        case Got(data, rest) => Got(BlobChange(hash, data), rest)
  }

  function ReadBlobs(input: bytes, count: nat): Read<seq<BlobChange>>
    decreases count
  {
    if count == 0 then Got([], input) else
    match ReadBlob(input)
    case Fail => Fail
    case Got(b, rest) =>
      Prepend([b], ReadBlobs(rest, count - 1))
  }

  // ---- each reader inverts its writer, in both directions ----

  lemma NumberRead(n: nat, rest: bytes)
    requires n < U64_END
    ensures ReadNumber(Number(n, rest)) == Got(n, rest)
  {
    RadixOfWidths();
    LittleEndianRoundTrip(n, NUMBER_BYTES);
    assert Number(n, rest)[..8] == LittleEndian(n, NUMBER_BYTES);
  }

  lemma NumberWritten(input: bytes)
    requires ReadNumber(input).Got?
    ensures input == Number(ReadNumber(input).value, ReadNumber(input).rest)
    ensures ReadNumber(input).value < U64_END
  {
    RadixOfWidths();
    FromLittleEndianRoundTrip(input[..8]);
    assert input == input[..8] + input[8..];
  }

  lemma TakeRead(b: bytes, rest: bytes)
    ensures Take(b + rest, |b|) == Got(b, rest)
  {
    assert (b + rest)[..|b|] == b && (b + rest)[|b|..] == rest;
  }

  lemma TakeWritten(input: bytes, n: nat)
    requires Take(input, n).Got?
    ensures |Take(input, n).value| == n
    ensures input == Take(input, n).value + Take(input, n).rest
  {
    assert input == input[..n] + input[n..];
  }

  lemma PageRead(p: PageChange, rest: bytes)
    requires PageOk(p)
    ensures ReadPage(PageBytes(p, rest)) == Got(p, rest)
  {
    NumberRead(p.pageId, p.data + rest);
    TakeRead(p.data, rest);
  }

  lemma PageWritten(input: bytes)
    requires ReadPage(input).Got?
    ensures PageOk(ReadPage(input).value)
    ensures input == PageBytes(ReadPage(input).value, ReadPage(input).rest)
  {
    NumberWritten(input);
    TakeWritten(ReadNumber(input).rest, PAGE_SIZE);
  }

  lemma {:induction false} PagesRead(ps: seq<PageChange>, rest: bytes)
    requires forall i :: 0 <= i < |ps| ==> PageOk(ps[i])
    ensures ReadPages(PagesBytes(ps, rest), |ps|) == Got(ps, rest)
    decreases |ps|
  {
    if ps != [] {
      PageRead(ps[0], PagesBytes(ps[1..], rest));
      PagesRead(ps[1..], rest);
      assert [ps[0]] + ps[1..] == ps;
    }
  }

  lemma {:induction false} PagesWritten(input: bytes, count: nat)
    requires ReadPages(input, count).Got?
    ensures |ReadPages(input, count).value| == count
    ensures forall i :: 0 <= i < count ==> PageOk(ReadPages(input, count).value[i])
    ensures input == PagesBytes(ReadPages(input, count).value, ReadPages(input, count).rest)
    decreases count
  {
    if count > 0 {
      PageWritten(input);
      PagesWritten(ReadPage(input).rest, count - 1);
      var ps := ReadPages(input, count).value;
      assert ps[1..] == ReadPages(ReadPage(input).rest, count - 1).value;
    }
  }

  lemma BlobRead(b: BlobChange, rest: bytes)
    requires BlobOk(b)
    ensures ReadBlob(BlobBytes(b, rest)) == Got(b, rest)
  {
    TakeRead(b.hash, Number(|b.data|, b.data + rest));
    NumberRead(|b.data|, b.data + rest);
    TakeRead(b.data, rest);
  }

  lemma BlobWritten(input: bytes)
    requires ReadBlob(input).Got?
    ensures BlobOk(ReadBlob(input).value)
    ensures input == BlobBytes(ReadBlob(input).value, ReadBlob(input).rest)
  {
    TakeWritten(input, HASH_DIGITS);
    var afterHash := Take(input, HASH_DIGITS).rest;
    NumberWritten(afterHash);
    TakeWritten(ReadNumber(afterHash).rest, ReadNumber(afterHash).value);
  }

  lemma {:induction false} BlobsRead(bs: seq<BlobChange>, rest: bytes)
    requires forall i :: 0 <= i < |bs| ==> BlobOk(bs[i])
    ensures ReadBlobs(BlobsBytes(bs, rest), |bs|) == Got(bs, rest)
    decreases |bs|
  {
    if bs != [] {
      BlobRead(bs[0], BlobsBytes(bs[1..], rest));
      BlobsRead(bs[1..], rest);
      assert [bs[0]] + bs[1..] == bs;
    }
  }

  lemma {:induction false} BlobsWritten(input: bytes, count: nat)
    requires ReadBlobs(input, count).Got?
    ensures |ReadBlobs(input, count).value| == count
    ensures forall i :: 0 <= i < count ==> BlobOk(ReadBlobs(input, count).value[i])
    ensures input == BlobsBytes(ReadBlobs(input, count).value, ReadBlobs(input, count).rest)
    decreases count
  {
    if count > 0 {
      BlobWritten(input);
      BlobsWritten(ReadBlob(input).rest, count - 1);
      var bs := ReadBlobs(input, count).value;
      assert bs[1..] == ReadBlobs(ReadBlob(input).rest, count - 1).value;
    }
  }

  /** Every page costs 4104 bytes and every blob at least 72, whatever follows. */
  lemma {:induction false} PagesNeedRoom(input: bytes, count: nat)
    requires ReadPages(input, count).Got?
    ensures count * (PAGE_SIZE + 8) <= |input|
    decreases count
  {
    if count > 0 {
      PagesNeedRoom(ReadPage(input).rest, count - 1);
    }
  }

  lemma {:induction false} BlobsNeedRoom(input: bytes, count: nat)
    requires ReadBlobs(input, count).Got?
    ensures count * 72 <= |input|
    decreases count
  {
    if count > 0 {
      BlobsNeedRoom(ReadBlob(input).rest, count - 1);
    }
  }

  // ---- the whole record ----

  function ReadHead(input: bytes): Read<Head> {
    match ReadNumber(input)
    case Fail => Fail
    case Got(sequence, r1) =>
      match ReadNumber(r1)
      case Fail => Fail
      case Got(beforeTx, r2) =>
        match ReadNumber(r2)
        case Fail => Fail
        case Got(afterTx, r3) =>
          match ReadNumber(r3)
          case Fail => Fail
          case Got(len, r4) =>
            match Take(r4, len)
            case Fail => Fail
            case Got(manifest, r5) => Got(Head(sequence, beforeTx, afterTx, manifest), r5)
  }

  function ReadBody(input: bytes): Read<(seq<PageChange>, seq<BlobChange>)> {
    match ReadNumber(input)
    case Fail => Fail
    case Got(count, rest) =>
      match ReadPages(rest, count)
      case Fail => Fail
      case Got(pages, rest) =>
        match ReadNumber(rest)
        case Fail => Fail
        case Got(count, rest) =>
          match ReadBlobs(rest, count)
          case Fail => Fail
          case Got(blobs, rest) => Got((pages, blobs), rest)
  }

  /** The record an accepted byte string stands for; None when it is rejected. */
  function Decode(b: bytes): Option<ChangeCommit> {
    if !(MAGIC <= b) then None else
    match ReadHead(b[|MAGIC|..])
    case Fail => None
    case Got(h, rest) =>
      match ReadBody(rest)
      case Fail => None
      case Got(pb, rest) =>
        if rest != [] then None
        else Some(ChangeCommit(h.sequence, h.beforeTx, h.afterTx, h.manifest, pb.0, pb.1))
  }

  lemma HeadRead(h: Head, rest: bytes)
    requires h.sequence < U64_END && h.beforeTx < U64_END && h.afterTx < U64_END
    requires |h.manifest| < U64_END
    ensures ReadHead(HeadBytes(h, rest)) == Got(h, rest)
  {
    var r4 := h.manifest + rest;
    var r3 := Number(|h.manifest|, r4);
    var r2 := Number(h.afterTx, r3);
    var r1 := Number(h.beforeTx, r2);
    NumberRead(h.sequence, r1);
    NumberRead(h.beforeTx, r2);
    NumberRead(h.afterTx, r3);
    NumberRead(|h.manifest|, r4);
    TakeRead(h.manifest, rest);
  }

  lemma HeadWritten(input: bytes)
    requires ReadHead(input).Got?
    ensures var h := ReadHead(input).value;
      && h.sequence < U64_END && h.beforeTx < U64_END && h.afterTx < U64_END
      && |h.manifest| < U64_END && input == HeadBytes(h, ReadHead(input).rest)
  {
    NumberWritten(input);
    var r1 := ReadNumber(input).rest;
    NumberWritten(r1);
    var r2 := ReadNumber(r1).rest;
    NumberWritten(r2);
    var r3 := ReadNumber(r2).rest;
    NumberWritten(r3);
    TakeWritten(ReadNumber(r3).rest, ReadNumber(r3).value);
  }

  lemma BodyRead(pages: seq<PageChange>, blobs: seq<BlobChange>, rest: bytes)
    requires |pages| < U64_END && |blobs| < U64_END
    requires forall i :: 0 <= i < |pages| ==> PageOk(pages[i])
    requires forall i :: 0 <= i < |blobs| ==> BlobOk(blobs[i])
    ensures ReadBody(BodyBytes(pages, blobs, rest)) == Got((pages, blobs), rest)
  {
    var r3 := BlobsBytes(blobs, rest);
    var r2 := Number(|blobs|, r3);
    NumberRead(|pages|, PagesBytes(pages, r2));
    PagesRead(pages, r2);
    NumberRead(|blobs|, r3);
    BlobsRead(blobs, rest);
  }

  lemma BodyWritten(input: bytes)
    requires ReadBody(input).Got?
    ensures var (pages, blobs) := ReadBody(input).value;
      && |pages| < U64_END && |blobs| < U64_END
      && (forall i :: 0 <= i < |pages| ==> PageOk(pages[i]))
      && (forall i :: 0 <= i < |blobs| ==> BlobOk(blobs[i]))
      && input == BodyBytes(pages, blobs, ReadBody(input).rest)
  {
    NumberWritten(input);
    var count, r1 := ReadNumber(input).value, ReadNumber(input).rest;
    PagesWritten(r1, count);
    var r2 := ReadPages(r1, count).rest;
    NumberWritten(r2);
    BlobsWritten(ReadNumber(r2).rest, ReadNumber(r2).value);
  }

  /** Decoding inverts encoding on every well-formed record. */
  lemma DecodeOfEncode(c: ChangeCommit)
    requires WellFormed(c)
    ensures Decode(Encode(c)) == Some(c)
  {
    var body := BodyBytes(c.pages, c.blobs, []);
    assert Encode(c)[|MAGIC|..] == HeadBytes(HeadOf(c), body);
    HeadRead(HeadOf(c), body);
    BodyRead(c.pages, c.blobs, []);
  }

  /** Only encodings of well-formed records are accepted: the form is canonical. */
  lemma EncodeOfDecode(b: bytes)
    requires Decode(b).Some?
    ensures WellFormed(Decode(b).value) && Encode(Decode(b).value) == b
  {
    var input := b[|MAGIC|..];
    HeadWritten(input);
    BodyWritten(ReadHead(input).rest);
    assert b == MAGIC + input;
  }

  // ---- no encoding is a proper prefix of another ----

  lemma Associates(a: bytes, b: bytes, c: bytes)
    ensures (a + b) + c == a + (b + c)
  {}

  lemma NumberExtends(n: nat, rest: bytes, tail: bytes)
    ensures Number(n, rest) + tail == Number(n, rest + tail)
  {
    Associates(LittleEndian(n, NUMBER_BYTES), rest, tail);
  }

  lemma {:induction false} PagesExtend(ps: seq<PageChange>, rest: bytes, tail: bytes)
    ensures PagesBytes(ps, rest) + tail == PagesBytes(ps, rest + tail)
    decreases |ps|
  {
    if ps != [] {
      var more := PagesBytes(ps[1..], rest);
      NumberExtends(ps[0].pageId, ps[0].data + more, tail);
      Associates(ps[0].data, more, tail);
      PagesExtend(ps[1..], rest, tail);
    }
  }

  lemma {:induction false} BlobsExtend(bs: seq<BlobChange>, rest: bytes, tail: bytes)
    ensures BlobsBytes(bs, rest) + tail == BlobsBytes(bs, rest + tail)
    decreases |bs|
  {
    if bs != [] {
      var b, more := bs[0], BlobsBytes(bs[1..], rest);
      Associates(b.hash, Number(|b.data|, b.data + more), tail);
      NumberExtends(|b.data|, b.data + more, tail);
      Associates(b.data, more, tail);
      BlobsExtend(bs[1..], rest, tail);
    }
  }

  lemma BodyExtends(pages: seq<PageChange>, blobs: seq<BlobChange>, tail: bytes)
    ensures BodyBytes(pages, blobs, []) + tail == BodyBytes(pages, blobs, tail)
  {
    var r3 := BlobsBytes(blobs, []);
    NumberExtends(|pages|, PagesBytes(pages, Number(|blobs|, r3)), tail);
    PagesExtend(pages, Number(|blobs|, r3), tail);
    NumberExtends(|blobs|, r3, tail);
    BlobsExtend(blobs, [], tail);
    assert [] + tail == tail;
  }

  lemma HeadExtends(h: Head, rest: bytes, tail: bytes)
    ensures HeadBytes(h, rest) + tail == HeadBytes(h, rest + tail)
  {
    var r4 := h.manifest + rest;
    var r3 := Number(|h.manifest|, r4);
    var r2 := Number(h.afterTx, r3);
    NumberExtends(h.sequence, Number(h.beforeTx, r2), tail);
    NumberExtends(h.beforeTx, r2, tail);
    NumberExtends(h.afterTx, r3, tail);
    NumberExtends(|h.manifest|, r4, tail);
    Associates(h.manifest, rest, tail);
  }

  lemma EncodeExtends(c: ChangeCommit, tail: bytes)
    ensures Encode(c) + tail == EncodeBefore(c, tail)
  {
    var body := BodyBytes(c.pages, c.blobs, []);
    Associates(MAGIC, HeadBytes(HeadOf(c), body), tail);
    HeadExtends(HeadOf(c), body, tail);
    BodyExtends(c.pages, c.blobs, tail);
  }

  lemma HeadIsUnique(h: Head, k: Head, x: bytes, y: bytes)
    requires h.sequence < U64_END && h.beforeTx < U64_END && h.afterTx < U64_END && |h.manifest| < U64_END
    requires k.sequence < U64_END && k.beforeTx < U64_END && k.afterTx < U64_END && |k.manifest| < U64_END
    requires MAGIC + HeadBytes(h, x) == MAGIC + HeadBytes(k, y)
    ensures h == k && x == y
  {
    assert (MAGIC + HeadBytes(h, x))[|MAGIC|..] == HeadBytes(h, x);
    assert (MAGIC + HeadBytes(k, y))[|MAGIC|..] == HeadBytes(k, y);
    HeadRead(h, x);
    HeadRead(k, y);
  }

  lemma BodyIsUnique(c: ChangeCommit, d: ChangeCommit, x: bytes, y: bytes)
    requires WellFormed(c) && WellFormed(d)
    requires BodyBytes(c.pages, c.blobs, x) == BodyBytes(d.pages, d.blobs, y)
    ensures c.pages == d.pages && c.blobs == d.blobs && x == y
  {
    BodyRead(c.pages, c.blobs, x);
    BodyRead(d.pages, d.blobs, y);
  }

  lemma EncodeIsUnique(c: ChangeCommit, d: ChangeCommit, x: bytes, y: bytes)
    requires WellFormed(c) && WellFormed(d) && EncodeBefore(c, x) == EncodeBefore(d, y)
    ensures c == d && x == y
  {
    HeadIsUnique(HeadOf(c), HeadOf(d), BodyBytes(c.pages, c.blobs, x), BodyBytes(d.pages, d.blobs, y));
    BodyIsUnique(c, d, x, y);
  }

  lemma PrefixTail(a: bytes, b: bytes)
    requires a <= b
    ensures b == a + b[|a|..]
  {}

  /** Encodings form a prefix code, so two records never share bytes or nest. */
  lemma EncodingIsPrefixFree(c: ChangeCommit, d: ChangeCommit)
    requires WellFormed(c) && WellFormed(d)
    requires Encode(c) <= Encode(d)
    ensures c == d
  {
    var tail := Encode(d)[|Encode(c)|..];
    PrefixTail(Encode(c), Encode(d));
    EncodeExtends(c, tail);
    EncodeIsUnique(c, d, tail, []);
  }

  /** Every truncation at or past the magic, and every extension, is rejected. */
  lemma DamagedLengthIsRejected(c: ChangeCommit, end: nat, extra: bytes)
    requires WellFormed(c)
    requires |MAGIC| <= end < |Encode(c)| && extra != []
    ensures Decode(Encode(c)[..end]) == None
    ensures Decode(Encode(c) + extra) == None
  {
    var short, long := Encode(c)[..end], Encode(c) + extra;
    if Decode(short).Some? {
      EncodeOfDecode(short);
      EncodingIsPrefixFree(Decode(short).value, c);
    }
    if Decode(long).Some? {
      EncodeOfDecode(long);
      EncodingIsPrefixFree(c, Decode(long).value);
    }
  }

  // ---- the imperative forms ----

  /** The budgeted sink that `encode_change` streams into. */
  class LimitedBytes {
    var data: bytes
    const limit: nat

    constructor (limit: nat)
      ensures data == [] && this.limit == limit
    {
      this.data := [];
      this.limit := limit;
    }

    method Write(chunk: bytes) returns (ok: bool)
      modifies this
      ensures ok <==> |old(data)| + |chunk| <= limit
      ensures data == if ok then old(data) + chunk else old(data)
    {
      ok := |data| + |chunk| <= limit;
      if ok {
        data := data + chunk;
      }
    }
  }

  method WriteNumber(out: LimitedBytes, n: nat, ghost rest: bytes) returns (ok: bool)
    requires |out.data| <= out.limit
    modifies out
    ensures ok ==> |out.data| <= out.limit
    ensures ok ==> out.data + rest == old(out.data) + Number(n, rest)
    ensures !ok ==> |old(out.data) + Number(n, rest)| > out.limit
  {
    Associates(out.data, LittleEndian(n, NUMBER_BYTES), rest);
    ok := out.Write(LittleEndian(n, NUMBER_BYTES));
  }

  method WriteChunk(out: LimitedBytes, chunk: bytes, ghost rest: bytes) returns (ok: bool)
    requires |out.data| <= out.limit
    modifies out
    ensures ok ==> |out.data| <= out.limit
    ensures ok ==> out.data + rest == old(out.data) + (chunk + rest)
    ensures !ok ==> |old(out.data) + (chunk + rest)| > out.limit
  {
    Associates(out.data, chunk, rest);
    ok := out.Write(chunk);
  }

  method WritePages(out: LimitedBytes, pages: seq<PageChange>, ghost rest: bytes) returns (ok: bool)
    requires |out.data| <= out.limit
    modifies out
    ensures ok ==> |out.data| <= out.limit
    ensures ok ==> out.data + rest == old(out.data) + PagesBytes(pages, rest)
    ensures !ok ==> |old(out.data) + PagesBytes(pages, rest)| > out.limit
  {
    assert pages[0..] == pages;
    for i := 0 to |pages|
      invariant |out.data| <= out.limit
      invariant out.data + PagesBytes(pages[i..], rest) == old(out.data) + PagesBytes(pages, rest)
    {
      ghost var more := PagesBytes(pages[i + 1..], rest);
      assert pages[i..][0] == pages[i] && pages[i..][1..] == pages[i + 1..];
      ok := WriteNumber(out, pages[i].pageId, pages[i].data + more);
      if !ok { return; }
      ok := WriteChunk(out, pages[i].data, more);
      if !ok { return; }
    }
    ok := true;
  }

  method WriteBlobs(out: LimitedBytes, blobs: seq<BlobChange>, ghost rest: bytes) returns (ok: bool)
    requires |out.data| <= out.limit
    modifies out
    ensures ok ==> |out.data| <= out.limit
    ensures ok ==> out.data + rest == old(out.data) + BlobsBytes(blobs, rest)
    ensures !ok ==> |old(out.data) + BlobsBytes(blobs, rest)| > out.limit
  {
    assert blobs[0..] == blobs;
    for i := 0 to |blobs|
      invariant |out.data| <= out.limit
      invariant out.data + BlobsBytes(blobs[i..], rest) == old(out.data) + BlobsBytes(blobs, rest)
    {
      var b := blobs[i];
      ghost var more := BlobsBytes(blobs[i + 1..], rest);
      assert blobs[i..][0] == b && blobs[i..][1..] == blobs[i + 1..];
      ok := WriteChunk(out, b.hash, Number(|b.data|, b.data + more));
      if !ok { return; }
      ok := WriteNumber(out, |b.data|, b.data + more);
      if !ok { return; }
      ok := WriteChunk(out, b.data, more);
      if !ok { return; }
    }
    ok := true;
  }

  /** Streams the record; it succeeds exactly when the whole encoding fits the limit. */
  method EncodeChange(out: LimitedBytes, c: ChangeCommit) returns (ok: bool)
    requires out.data == []
    modifies out
    ensures ok <==> |Encode(c)| <= out.limit
    ensures ok ==> out.data == Encode(c)
  {
    ghost var blobs := BlobsBytes(c.blobs, []);
    ghost var body := BodyBytes(c.pages, c.blobs, []);
    ghost var r3 := Number(|c.manifest|, c.manifest + body);
    ghost var r2 := Number(c.afterTx, r3);
    assert [] + Encode(c) == Encode(c);
    ok := WriteChunk(out, MAGIC, HeadBytes(HeadOf(c), body));
    if !ok { return; }
    ok := WriteNumber(out, c.sequence, Number(c.beforeTx, r2));
    if !ok { return; }
    ok := WriteNumber(out, c.beforeTx, r2);
    if !ok { return; }
    ok := WriteNumber(out, c.afterTx, r3);
    if !ok { return; }
    ok := WriteNumber(out, |c.manifest|, c.manifest + body);
    if !ok { return; }
    ok := WriteChunk(out, c.manifest, body);
    if !ok { return; }
    ok := WriteNumber(out, |c.pages|, PagesBytes(c.pages, Number(|c.blobs|, blobs)));
    if !ok { return; }
    ok := WritePages(out, c.pages, Number(|c.blobs|, blobs));
    if !ok { return; }
    ok := WriteNumber(out, |c.blobs|, blobs);
    if !ok { return; }
    ok := WriteBlobs(out, c.blobs, []);
    assert out.data + [] == out.data;
  }

  /** The moving cursor of `decode_change`. */
  class Input {
    var rest: bytes

    constructor (rest: bytes)
      ensures this.rest == rest
    {
      this.rest := rest;
    }

    method TakeBytes(n: nat) returns (r: Option<bytes>)
      modifies this
      ensures match Take(old(rest), n)
        case Fail => r == None && rest == old(rest)
        case Got(b, tail) => r == Some(b) && rest == tail
    {
      if n > |rest| { return None; }
      r := Some(rest[..n]);
      rest := rest[n..];
    }

    method TakeNumber() returns (r: Option<nat>)
      modifies this
      ensures match ReadNumber(old(rest))
        case Fail => r == None && rest == old(rest)
        case Got(n, tail) => r == Some(n) && rest == tail
    {
      var b := TakeBytes(NUMBER_BYTES);
      r := if b.None? then None else Some(FromLittleEndian(b.value));
    }
  }

  lemma PrependNothing<T>(r: Read<seq<T>>)
    ensures Prepend([], r) == r
  {
    if r.Got? { assert [] + r.value == r.value; }
  }

  lemma PrependOne<T>(done: seq<T>, x: T, r: Read<seq<T>>)
    ensures Prepend(done, Prepend([x], r)) == Prepend(done + [x], r)
  {
    if r.Got? { assert done + ([x] + r.value) == (done + [x]) + r.value; }
  }

  method TakePage(input: Input) returns (r: Option<PageChange>)
    modifies input
    ensures match ReadPage(old(input.rest))
      case Fail => r == None
      case Got(p, tail) => r == Some(p) && input.rest == tail
  {
    var id := input.TakeNumber();
    if id.None? { return None; }
    var data := input.TakeBytes(PAGE_SIZE);
    r := if data.None? then None else Some(PageChange(id.value, data.value));
  }

  method TakeBlob(input: Input) returns (r: Option<BlobChange>)
    modifies input
    ensures match ReadBlob(old(input.rest))
      case Fail => r == None
      case Got(b, tail) => r == Some(b) && input.rest == tail
  {
    var hash := input.TakeBytes(HASH_DIGITS);
    if hash.None? || !IsHash(hash.value) { return None; }
    var len := input.TakeNumber();
    if len.None? { return None; }
    var data := input.TakeBytes(len.value);
    r := if data.None? then None else Some(BlobChange(hash.value, data.value));
  }

  method DecodePages(input: Input, count: nat) returns (r: Option<seq<PageChange>>)
    modifies input
    ensures match ReadPages(old(input.rest), count)
      case Fail => r == None
      case Got(ps, tail) => r == Some(ps) && input.rest == tail
  {
    if count > |input.rest| / (PAGE_SIZE + 8) {
      if ReadPages(input.rest, count).Got? { PagesNeedRoom(input.rest, count); }
      return None;
    }
    var pages: seq<PageChange> := [];
    PrependNothing(ReadPages(input.rest, count));
    for i := 0 to count
      invariant ReadPages(old(input.rest), count) == Prepend(pages, ReadPages(input.rest, count - i))
    {
      var page := TakePage(input);
      if page.None? { return None; }
      PrependOne(pages, page.value, ReadPages(input.rest, count - i - 1));
      pages := pages + [page.value];
    }
    assert pages + [] == pages;
    r := Some(pages);
  }

  method DecodeBlobs(input: Input, count: nat) returns (r: Option<seq<BlobChange>>)
    modifies input
    ensures match ReadBlobs(old(input.rest), count)
      case Fail => r == None
      case Got(bs, tail) => r == Some(bs) && input.rest == tail
  {
    if count > |input.rest| / 72 {
      if ReadBlobs(input.rest, count).Got? { BlobsNeedRoom(input.rest, count); }
      return None;
    }
    var blobs: seq<BlobChange> := [];
    PrependNothing(ReadBlobs(input.rest, count));
    for i := 0 to count
      invariant ReadBlobs(old(input.rest), count) == Prepend(blobs, ReadBlobs(input.rest, count - i))
    {
      var blob := TakeBlob(input);
      if blob.None? { return None; }
      PrependOne(blobs, blob.value, ReadBlobs(input.rest, count - i - 1));
      blobs := blobs + [blob.value];
    }
    assert blobs + [] == blobs;
    r := Some(blobs);
  }

  /**
   The cursor loop accepts exactly the encodings of well-formed records, and returns the record.
   A string without the magic belongs to the older JSON form and is not read here.
   */
  method DecodeChange(b: bytes) returns (r: Result<ChangeCommit>)
    ensures r.Ok? ==> WellFormed(r.value) && Encode(r.value) == b
    ensures r.Err? ==> r.error == Corruption && forall c :: WellFormed(c) ==> Encode(c) != b
  {
    ghost var expected := Decode(b);
    if expected.Some? { EncodeOfDecode(b); }
    forall c | WellFormed(c) && Encode(c) == b ensures expected == Some(c) { DecodeOfEncode(c); }
    if !(MAGIC <= b) { return Err(Corruption); }
    var input := new Input(b[|MAGIC|..]);
    var sequence := input.TakeNumber();
    if sequence.None? { return Err(Corruption); }
    var beforeTx := input.TakeNumber();
    if beforeTx.None? { return Err(Corruption); }
    var afterTx := input.TakeNumber();
    if afterTx.None? { return Err(Corruption); }
    var len := input.TakeNumber();
    if len.None? { return Err(Corruption); }
    var manifest := input.TakeBytes(len.value);
    if manifest.None? { return Err(Corruption); }
    var count := input.TakeNumber();
    if count.None? { return Err(Corruption); }
    var pages := DecodePages(input, count.value);
    if pages.None? { return Err(Corruption); }
    count := input.TakeNumber();
    if count.None? { return Err(Corruption); }
    var blobs := DecodeBlobs(input, count.value);
    if blobs.None? { return Err(Corruption); }
    if input.rest != [] { return Err(Corruption); }
    r := Ok(ChangeCommit(sequence.value, beforeTx.value, afterTx.value, manifest.value,
                         pages.value, blobs.value));
  }
}
