/** The bytes a log directory takes, as the retention limits charge them. */
module JournalBudget {
  import opened Core
  import opened MapSums
  import opened ChangeCodec
  import opened JournalProtocol

  datatype Options = Options(maxTransactionBytes: nat, maxRetainedBytes: nat, maxRetainedCommits: nat)

  predicate ValidOptions(o: Options) {
    && 0 < o.maxTransactionBytes <= HARD_MAX_RECORD
    && o.maxTransactionBytes <= o.maxRetainedBytes < U64_END
    && 0 < o.maxRetainedCommits <= MAX_COMMIT_DIRS
  }

  function Digits(n: nat): nat {
    if n < 10 then 1 else 1 + Digits(n / 10)
  }

  /** Length of {"sequence":_,"before_tx":_,"page_count":_}. */
  function HeaderLength(h: Header): nat {
    40 + Digits(h.sequence) + Digits(h.beforeTx) + Digits(h.pageCount)
  }

  /** Every file starts with a 32-byte checksum. */
  function BeforeSize(m: Option<Manifest>): nat {
    if m.Some? then 32 + |m.value.raw| else 0
  }

  function HeaderSize(h: Option<Header>): nat {
    if h.Some? then 32 + HeaderLength(h.value) else 0
  }

  function RecordSize(c: ChangeCommit): nat {
    32 + |Encode(c)|
  }

  function ChangeSize(c: Option<ChangeCommit>): nat {
    if c.Some? then RecordSize(c.value) else 0
  }

  function DirSize(t: TxDir): nat {
    BeforeSize(t.before) + HeaderSize(t.header) + UNDO_FILE * |t.undo| + ChangeSize(t.change)
  }

  function OptionSize(t: Option<TxDir>): nat {
    if t.None? then 0 else DirSize(t.value)
  }

  function DirSizes(m: map<nat, TxDir>): map<nat, nat> {
    map k | k in m :: DirSize(m[k])
  }

  /** `tree_size` of the log directory. */
  ghost function LogSize(l: LogDir): nat {
    (if l.checkpoint.Some? then 40 else 0)
    + Total(DirSizes(l.commits)) + OptionSize(l.active) + OptionSize(l.preparing) + OptionSize(l.discarded)
  }

  lemma SizesTake(m: map<nat, TxDir>, k: nat)
    requires k in m
    ensures Total(DirSizes(m)) == DirSize(m[k]) + Total(DirSizes(m - {k}))
  {
    TotalRemove(DirSizes(m), k);
    assert DirSizes(m) - {k} == DirSizes(m - {k});
  }

  lemma SizesAdd(m: map<nat, TxDir>, k: nat, t: TxDir)
    requires k !in m
    ensures Total(DirSizes(m[k := t])) == Total(DirSizes(m)) + DirSize(t)
  {
    SizesTake(m[k := t], k);
    assert m[k := t] - {k} == m;
  }

  lemma {:induction false} DigitsBound(n: nat, k: nat)
    requires n < Power10(k) && k > 0
    ensures Digits(n) <= k
    decreases k
  {
    if n >= 10 { DigitsBound(n / 10, k - 1); }
  }

  function Power10(k: nat): nat {
    if k == 0 then 1 else 10 * Power10(k - 1)
  }

  lemma U64HasTwentyDigits()
    ensures U64_END <= Power10(20)
  {
    assert Power10(5) == 100000;
    assert Power10(10) == 100000 * Power10(5) by { assert Power10(8) == 1000 * Power10(5); }
    assert Power10(15) == 100000 * Power10(10) by { assert Power10(13) == 1000 * Power10(10); }
    assert Power10(20) == 100000 * Power10(15) by { assert Power10(18) == 1000 * Power10(15); }
  }

  /** A number as it is written. */
  function Decimal(n: nat): string {
    (if n < 10 then [] else Decimal(n / 10)) + ["0123456789"[n % 10]]
  }

  lemma {:induction false} DigitsExact(n: nat)
    ensures |Decimal(n)| == Digits(n)
  {
    if n >= 10 { DigitsExact(n / 10); }
  }

  /** The staged header as it is stored. */
  function HeaderText(h: Header): string {
    "{\"sequence\":" + Decimal(h.sequence) + ",\"before_tx\":" + Decimal(h.beforeTx)
    + ",\"page_count\":" + Decimal(h.pageCount) + "}"
  }

  lemma HeaderLengthExact(h: Header)
    ensures |HeaderText(h)| == HeaderLength(h)
  {
    DigitsExact(h.sequence);
    DigitsExact(h.beforeTx);
    DigitsExact(h.pageCount);
  }

  function BeforeFile(m: Option<Manifest>): seq<nat> {
    if m.Some? then [32 + |m.value.raw|] else []
  }

  function HeaderFile(h: Option<Header>): seq<nat> {
    if h.Some? then [32 + |HeaderText(h.value)|] else []
  }

  function ChangeFile(c: Option<ChangeCommit>): seq<nat> {
    if c.Some? then [32 + |Encode(c.value)|] else []
  }

  function UndoFiles(n: nat): seq<nat> { seq(n, _ => 32 + 4096) }

  /** The lengths of a transaction directory's files, each behind its 32-byte checksum. */
  function FileLengths(t: TxDir): seq<nat> {
    BeforeFile(t.before) + HeaderFile(t.header) + ChangeFile(t.change) + UndoFiles(|t.undo|)
  }

  function Sum(s: seq<nat>): nat {
    if s == [] then 0 else s[0] + Sum(s[1..])
  }

  lemma {:induction false} SumConcat(a: seq<nat>, b: seq<nat>)
    ensures Sum(a + b) == Sum(a) + Sum(b)
    decreases |a|
  {
    if a == [] {
      NothingAdded(b);
    } else {
      assert (a + b)[1..] == a[1..] + b;
      SumConcat(a[1..], b);
    }
  }

  lemma SumOfFour(a: seq<nat>, b: seq<nat>, c: seq<nat>, d: seq<nat>)
    ensures Sum(a + b + c + d) == Sum(a) + Sum(b) + Sum(c) + Sum(d)
  {
    SumConcat(a + b + c, d);
    SumConcat(a + b, c);
    SumConcat(a, b);
  }

  lemma {:induction false} UndoSum(n: nat)
    ensures Sum(UndoFiles(n)) == n * UNDO_FILE
    decreases n
  {
    if n > 0 {
      assert UndoFiles(n)[1..] == UndoFiles(n - 1);
      UndoSum(n - 1);
    }
  }

  lemma HeaderSum(h: Option<Header>)
    ensures Sum(HeaderFile(h)) == HeaderSize(h)
  {
    if h.Some? { HeaderLengthExact(h.value); }
  }

  /** The size of a directory is that of its files together. */
  lemma DirSizeExact(t: TxDir)
    ensures DirSize(t) == Sum(FileLengths(t))
  {
    SumOfFour(BeforeFile(t.before), HeaderFile(t.header), ChangeFile(t.change), UndoFiles(|t.undo|));
    UndoSum(|t.undo|);
    HeaderSum(t.header);
  }

  /** The 1024 bytes reserved beside the before-image cover both checksums and the header. */
  lemma HeaderFits(h: Header)
    requires h.sequence < U64_END && h.beforeTx < U64_END && h.pageCount < U64_END
    ensures 64 + HeaderLength(h) <= 1024
  {
    U64HasTwentyDigits();
    DigitsBound(h.sequence, 20);
    DigitsBound(h.beforeTx, 20);
    DigitsBound(h.pageCount, 20);
  }

  method TreeSize(l: LogDir) returns (n: nat)
    ensures n == LogSize(l)
  {
    n := (if l.checkpoint.Some? then 40 else 0)
         + OptionSize(l.active) + OptionSize(l.preparing) + OptionSize(l.discarded);
    var rest := l.commits;
    while rest != map[]
      invariant n + Total(DirSizes(rest)) == LogSize(l)
      decreases |rest|
    {
      var k :| k in rest;
      SizesTake(rest, k);
      n := n + DirSize(rest[k]);
      rest := rest - {k};
    }
  }

  // ---- the length of an encoded record ----

  /** The page contents of a record, in bytes. */
  function PageData(ps: seq<PageChange>): nat {
    if ps == [] then 0 else |ps[0].data| + PageData(ps[1..])
  }

  /** The blob contents of a record, in bytes. */
  function BlobData(bs: seq<BlobChange>): nat {
    if bs == [] then 0 else |bs[0].data| + BlobData(bs[1..])
  }

  lemma {:induction false} BlobDataSnoc(bs: seq<BlobChange>, b: BlobChange)
    ensures BlobData(bs + [b]) == BlobData(bs) + |b.data|
    decreases |bs|
  {
    if bs != [] {
      assert (bs + [b])[1..] == bs[1..] + [b];
      BlobDataSnoc(bs[1..], b);
    }
  }

  lemma {:induction false} BlobDataHas(bs: seq<BlobChange>, i: nat)
    requires i < |bs|
    ensures |bs[i].data| <= BlobData(bs)
    decreases |bs|
  {
    if i > 0 { BlobDataHas(bs[1..], i - 1); }
  }

  lemma {:induction false} PageDataIs(ps: seq<PageChange>)
    requires forall i :: 0 <= i < |ps| ==> |ps[i].data| == PAGE_SIZE
    ensures PageData(ps) == PAGE_SIZE * |ps|
    decreases |ps|
  {
    if ps != [] { PageDataIs(ps[1..]); }
  }

  lemma {:induction false} PagesLength(ps: seq<PageChange>, rest: bytes)
    ensures |PagesBytes(ps, rest)| == 8 * |ps| + PageData(ps) + |rest|
    decreases |ps|
  {
    if ps != [] { PagesLength(ps[1..], rest); }
  }

  /** The hashes of a record's blobs, in bytes. */
  function HashData(bs: seq<BlobChange>): nat {
    if bs == [] then 0 else |bs[0].hash| + HashData(bs[1..])
  }

  lemma {:induction false} HashDataIs(bs: seq<BlobChange>)
    requires forall i :: 0 <= i < |bs| ==> IsHash(bs[i].hash)
    ensures HashData(bs) == 64 * |bs|
    decreases |bs|
  {
    if bs != [] { HashDataIs(bs[1..]); }
  }

  lemma {:induction false} BlobsLength(bs: seq<BlobChange>, rest: bytes)
    ensures |BlobsBytes(bs, rest)| == HashData(bs) + 8 * |bs| + BlobData(bs) + |rest|
    decreases |bs|
  {
    if bs != [] { BlobsLength(bs[1..], rest); }
  }

  /** Six numbers and the magic, and each part with the numbers before it. */
  lemma EncodedLength(c: ChangeCommit)
    ensures |Encode(c)| ==
      56 + |c.manifest| + 8 * |c.pages| + PageData(c.pages) + HashData(c.blobs) + 8 * |c.blobs| + BlobData(c.blobs)
  {
    BlobsLength(c.blobs, []);
    PagesLength(c.pages, Number(|c.blobs|, BlobsBytes(c.blobs, [])));
  }

  /** The length of a record with whole pages and full hashes, from its manifest, page count, blob count and payload. */
  lemma RecordLength(c: ChangeCommit)
    requires forall i :: 0 <= i < |c.pages| ==> |c.pages[i].data| == PAGE_SIZE
    requires forall i :: 0 <= i < |c.blobs| ==> IsHash(c.blobs[i].hash)
    ensures |Encode(c)| == 56 + |c.manifest| + (8 + PAGE_SIZE) * |c.pages| + 72 * |c.blobs| + BlobData(c.blobs)
    ensures forall i :: 0 <= i < |c.blobs| ==> |c.blobs[i].data| <= |Encode(c)|
  {
    EncodedLength(c);
    PageDataIs(c.pages);
    HashDataIs(c.blobs);
    forall i | 0 <= i < |c.blobs| ensures |c.blobs[i].data| <= BlobData(c.blobs) { BlobDataHas(c.blobs, i); }
  }
}
