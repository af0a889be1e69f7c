/** The exact vector index and its canonical byte form. */
module VectorIndexes {
  import opened Core
  import opened ChangeCodec
  import opened MapSums
  import opened TextCodec

  const MAX_DIMENSIONS: nat := 4096
  const MAX_VECTORS: nat := 10_000
  const MAX_SCALARS: nat := 4_194_304

  datatype Metric = Cosine | SquaredEuclidean

  type Id = i64

  /** An f32 as its bit pattern. */
  type Float = x: int | 0 <= x < U32_END

  /** The exponent is not all ones. */
  predicate Finite(f: Float) { f / 0x80_0000 % 256 != 255 }

  predicate Zero(f: Float) { f % 0x8000_0000 == 0 }

  /** From the infinity of either sign on, bit patterns are infinities and NaNs. */
  lemma FiniteMeans(f: Float)
    ensures Finite(f) <==> f < 0x7F80_0000 || 0x8000_0000 <= f < 0xFF80_0000
  {}

  lemma ZeroMeans(f: Float)
    ensures Zero(f) <==> f == 0 || f == 0x8000_0000
  {}

  type Vectors = map<Id, seq<Float>>

  /** `validate`. */
  predicate VectorOk(v: seq<Float>, dimensions: nat, metric: Metric) {
    && |v| == dimensions && (forall i :: 0 <= i < |v| ==> Finite(v[i]))
    && (metric.Cosine? ==> exists i :: 0 <= i < |v| && !Zero(v[i]))
  }

  /** The right number of finite components, and for the cosine not all of them zero. */
  lemma VectorOkMeans(v: seq<Float>, dimensions: nat, metric: Metric)
    ensures VectorOk(v, dimensions, metric) <==>
      && |v| == dimensions
      && (forall i :: 0 <= i < |v| ==> v[i] < 0x7F80_0000 || 0x8000_0000 <= v[i] < 0xFF80_0000)
      && (metric == Cosine ==> exists i :: 0 <= i < |v| && v[i] != 0 && v[i] != 0x8000_0000)
  {
    forall i | 0 <= i < |v|
      ensures Finite(v[i]) <==> v[i] < 0x7F80_0000 || 0x8000_0000 <= v[i] < 0xFF80_0000
      ensures Zero(v[i]) <==> v[i] == 0 || v[i] == 0x8000_0000
    {
      FiniteMeans(v[i]);
      ZeroMeans(v[i]);
    }
  }

  predicate Within(docs: Vectors, dimensions: nat, metric: Metric) {
    && 0 < dimensions <= MAX_DIMENSIONS && |docs| <= MAX_VECTORS && |docs| * dimensions <= MAX_SCALARS
    && forall id :: id in docs ==> VectorOk(docs[id], dimensions, metric)
  }

  class VectorIndex {
    const dimensions: nat
    const metric: Metric
    var documents: Vectors

    predicate Valid()
      reads this
    {
      Within(documents, dimensions, metric)
    }

    constructor (d: nat, m: Metric)
      requires 0 < d <= MAX_DIMENSIONS
      ensures Valid() && documents == map[] && dimensions == d && metric == m
    {
      dimensions, metric, documents := d, m, map[];
    }

    /** `upsert`: an invalid or surplus vector leaves the old one intact. */
    method Upsert(id: Id, v: seq<Float>) returns (ok: bool)
      requires Valid()
      modifies this
      ensures Valid() && documents == if ok then old(documents)[id := v] else old(documents)
      ensures ok <==> Within(old(documents)[id := v], dimensions, metric)
    {
      var more := documents[id := v];
      assert more.Keys == documents.Keys + {id};
      assert more[id] == v;
      var count := |documents| + if id in documents then 0 else 1;
      if !VectorOk(v, dimensions, metric) || count > MAX_VECTORS || count * dimensions > MAX_SCALARS { return false; }
      documents := more;
      ok := true;
    }

    method Remove(id: Id) returns (found: bool)
      requires Valid()
      modifies this
      ensures Valid() && found == (id in old(documents)) && documents == old(documents) - {id}
    {
      found := id in documents;
      var less := documents - {id};
      assert less.Keys == documents.Keys - {id};
      assert |less| <= |documents|;
      assert |less| * dimensions <= |documents| * dimensions;
      documents := less;
    }
  }

  // ---- the byte form ----

  datatype Entry = Entry(id: Id, values: seq<Float>)

  function Tag(m: Metric): byte { if m.Cosine? then 1 else 2 }

  function ValuesBytes(v: seq<Float>, rest: bytes): bytes {
    if v == [] then rest else Count(v[0], ValuesBytes(v[1..], rest))
  }

  function EntryBytes(e: Entry, rest: bytes): bytes {
    Number(Unsigned(e.id), ValuesBytes(e.values, rest))
  }

  function EntriesBytes(es: seq<Entry>, rest: bytes): bytes {
    if es == [] then rest else EntryBytes(es[0], EntriesBytes(es[1..], rest))
  }

  function Written(dimensions: nat, metric: Metric, es: seq<Entry>): bytes {
    Count(dimensions, Count(|es|, [Tag(metric), 0, 0, 0] + EntriesBytes(es, [])))
  }

  function ReadValues(input: bytes, n: nat): Read<seq<Float>>
    decreases n
  {
    if n == 0 then Got([], input) else
    match ReadCount(input, U32_END - 1)
    case Fail => Fail
    case Got(f, rest) => if f < U32_END then Prepend([f], ReadValues(rest, n - 1)) else Fail
  }

  function ReadEntry(input: bytes, dimensions: nat): Read<Entry> {
    match ReadId(input)
    case Fail => Fail
    case Got(id, rest) =>
      match ReadValues(rest, dimensions)
      case Fail => Fail
      case Got(v, rest) => Got(Entry(id, v), rest)
  }

  function ReadEntries(input: bytes, n: nat, dimensions: nat): Read<seq<Entry>>
    decreases n
  {
    if n == 0 then Got([], input) else
    match ReadEntry(input, dimensions)
    case Fail => Fail
    case Got(e, rest) => Prepend([e], ReadEntries(rest, n - 1, dimensions))
  }

  predicate AllWide(es: seq<Entry>, dimensions: nat) {
    forall i :: 0 <= i < |es| ==> |es[i].values| == dimensions
  }

  /** The bytes n vectors take. */
  function Extent(n: nat, dimensions: nat): nat { n * dimensions * 4 + n * 8 + 12 }

  // ---- readers invert writers ----

  lemma ValuesCons(f: Float, v: seq<Float>, rest: bytes)
    ensures ValuesBytes([f] + v, rest) == Count(f, ValuesBytes(v, rest))
  {
    assert ([f] + v)[1..] == v;
  }

  lemma ReadValuesStep(input: bytes, n: nat, f: Float, rest: bytes, v: seq<Float>, end: bytes)
    requires ReadCount(input, U32_END - 1) == Got(f, rest) && ReadValues(rest, n) == Got(v, end)
    ensures ReadValues(input, n + 1) == Got([f] + v, end)
  {}

  lemma {:induction false} ValuesRead(v: seq<Float>, rest: bytes)
    ensures ReadValues(ValuesBytes(v, rest), |v|) == Got(v, rest)
    ensures |ValuesBytes(v, rest)| == 4 * |v| + |rest|
    decreases |v|
  {
    if v != [] {
      var f, tail := v[0], v[1..];
      assert v == [f] + tail;
      ValuesRead(tail, rest);
      ValuesCons(f, tail, rest);
      CountRead(f, ValuesBytes(tail, rest), U32_END - 1);
      ReadValuesStep(Count(f, ValuesBytes(tail, rest)), |tail|, f, ValuesBytes(tail, rest), tail, rest);
    }
  }

  lemma {:induction false} ValuesWritten(input: bytes, n: nat)
    requires ReadValues(input, n).Got?
    ensures |ReadValues(input, n).value| == n
    ensures input == ValuesBytes(ReadValues(input, n).value, ReadValues(input, n).rest)
    decreases n
  {
    if n > 0 {
      CountWritten(input, U32_END - 1);
      var head := ReadCount(input, U32_END - 1);
      ValuesWritten(head.rest, n - 1);
      ValuesCons(head.value, ReadValues(head.rest, n - 1).value, ReadValues(input, n).rest);
    }
  }

  lemma EntriesCons(e: Entry, es: seq<Entry>, rest: bytes)
    ensures EntriesBytes([e] + es, rest) == EntryBytes(e, EntriesBytes(es, rest))
  {
    assert ([e] + es)[1..] == es;
  }

  lemma ReadEntriesStep(input: bytes, n: nat, dimensions: nat, e: Entry, rest: bytes, es: seq<Entry>, end: bytes)
    requires ReadEntry(input, dimensions) == Got(e, rest) && ReadEntries(rest, n, dimensions) == Got(es, end)
    ensures ReadEntries(input, n + 1, dimensions) == Got([e] + es, end)
  {}

  lemma EntryRead(e: Entry, rest: bytes)
    ensures ReadEntry(EntryBytes(e, rest), |e.values|) == Got(e, rest)
    ensures |EntryBytes(e, rest)| == 8 + 4 * |e.values| + |rest|
  {
    IdRead(e.id, ValuesBytes(e.values, rest));
    ValuesRead(e.values, rest);
  }

  lemma EntriesReadCons(e: Entry, es: seq<Entry>, dimensions: nat, rest: bytes)
    requires |e.values| == dimensions && ReadEntries(EntriesBytes(es, rest), |es|, dimensions) == Got(es, rest)
    ensures ReadEntries(EntriesBytes([e] + es, rest), |es| + 1, dimensions) == Got([e] + es, rest)
  {
    var more := EntriesBytes(es, rest);
    EntriesCons(e, es, rest);
    EntryRead(e, more);
    ReadEntriesStep(EntryBytes(e, more), |es|, dimensions, e, more, es, rest);
  }

  lemma {:induction false} EntriesRead(es: seq<Entry>, dimensions: nat, rest: bytes)
    requires AllWide(es, dimensions)
    ensures ReadEntries(EntriesBytes(es, rest), |es|, dimensions) == Got(es, rest)
    decreases |es|
  {
    if es != [] {
      var e, tail := es[0], es[1..];
      assert es == [e] + tail;
      EntriesRead(tail, dimensions, rest);
      EntriesReadCons(e, tail, dimensions, rest);
    }
  }

  lemma OneMore(n: nat, stride: nat, rest: nat)
    ensures n * stride + rest + stride == (n + 1) * stride + rest
  {}

  lemma EntryLength(e: Entry, rest: bytes)
    ensures |EntryBytes(e, rest)| == 8 + 4 * |e.values| + |rest|
  {
    EntryRead(e, rest);
  }

  /** Every vector takes the same number of bytes. */
  lemma {:induction false} EntriesLength(es: seq<Entry>, dimensions: nat, rest: bytes)
    requires AllWide(es, dimensions)
    ensures |EntriesBytes(es, rest)| == |es| * (8 + 4 * dimensions) + |rest|
    decreases |es|
  {
    if es != [] {
      var e, tail, stride := es[0], es[1..], 8 + 4 * dimensions;
      assert es == [e] + tail;
      EntriesLength(tail, dimensions, rest);
      EntriesCons(e, tail, rest);
      EntryLength(e, EntriesBytes(tail, rest));
      OneMore(|tail|, stride, |rest|);
    }
  }

  lemma EntryWritten(input: bytes, dimensions: nat)
    requires ReadEntry(input, dimensions).Got?
    ensures |ReadEntry(input, dimensions).value.values| == dimensions
    ensures input == EntryBytes(ReadEntry(input, dimensions).value, ReadEntry(input, dimensions).rest)
  {
    IdWritten(input);
    ValuesWritten(ReadId(input).rest, dimensions);
  }

  lemma ReadEntriesParts(input: bytes, n: nat, dimensions: nat) returns (e: Entry, more: bytes, es: seq<Entry>)
    requires n > 0 && ReadEntries(input, n, dimensions).Got?
    ensures ReadEntry(input, dimensions) == Got(e, more)
    ensures ReadEntries(more, n - 1, dimensions) == Got(es, ReadEntries(input, n, dimensions).rest)
    ensures ReadEntries(input, n, dimensions).value == [e] + es
  {
    e, more := ReadEntry(input, dimensions).value, ReadEntry(input, dimensions).rest;
    es := ReadEntries(more, n - 1, dimensions).value;
  }

  lemma {:induction false} EntriesWritten(input: bytes, n: nat, dimensions: nat)
    requires ReadEntries(input, n, dimensions).Got?
    ensures |ReadEntries(input, n, dimensions).value| == n
      && AllWide(ReadEntries(input, n, dimensions).value, dimensions)
    ensures input == EntriesBytes(ReadEntries(input, n, dimensions).value, ReadEntries(input, n, dimensions).rest)
    decreases n
  {
    if n > 0 {
      var e, more, es := ReadEntriesParts(input, n, dimensions);
      EntriesWritten(more, n - 1, dimensions);
      EntryWritten(input, dimensions);
      EntriesCons(e, es, ReadEntries(input, n, dimensions).rest);
    }
  }

  // ---- documents and their list ----

  predicate IdsAscend(es: seq<Entry>) {
    forall i, j :: 0 <= i < j < |es| ==> es[i].id < es[j].id
  }

  function DocsFrom(es: seq<Entry>): Vectors {
    if es == [] then map[] else DocsFrom(es[..|es| - 1])[Last(es).id := Last(es).values]
  }

  ghost predicate Holds(es: seq<Entry>, docs: Vectors) {
    && (forall i :: 0 <= i < |es| ==> es[i].id in docs && docs[es[i].id] == es[i].values)
    && (forall id :: id in docs ==> HasId(es, id))
  }

  ghost predicate HasId(es: seq<Entry>, id: Id) {
    exists i :: 0 <= i < |es| && es[i].id == id
  }

  lemma HoldsSnoc(es: seq<Entry>, docs: Vectors, e: Entry)
    requires Holds(es, docs) && !HasId(es, e.id)
    ensures e.id !in docs && Holds(es + [e], docs[e.id := e.values]) && |docs[e.id := e.values]| == |docs| + 1
  {
    var all, more := es + [e], docs[e.id := e.values];
    forall i | 0 <= i < |all| ensures all[i].id in more && more[all[i].id] == all[i].values {
      if i < |es| { assert all[i] == es[i] && es[i].id != e.id; }
    }
    forall id | id in more ensures HasId(all, id) {
      if id == e.id {
        assert all[|es|].id == id;
      } else {
        assert HasId(es, id);
        var i :| 0 <= i < |es| && es[i].id == id;
        assert all[i].id == id;
      }
    }
    assert more.Keys == docs.Keys + {e.id};
  }

  lemma IdsFront(es: seq<Entry>, e: Entry)
    requires IdsAscend(es + [e])
    ensures IdsAscend(es) && !HasId(es, e.id)
  {
    var all := es + [e];
    assert all[|es|] == e && forall i :: 0 <= i < |es| ==> all[i] == es[i];
  }

  lemma {:induction false} DocsFromExact(es: seq<Entry>)
    requires IdsAscend(es)
    ensures Holds(es, DocsFrom(es)) && |DocsFrom(es)| == |es|
    decreases |es|
  {
    if es != [] {
      var front, e := es[..|es| - 1], Last(es);
      assert es == front + [e];
      IdsFront(front, e);
      DocsFromExact(front);
      HoldsSnoc(front, DocsFrom(front), e);
    }
  }

  lemma HoldsSame(es: seq<Entry>, a: Vectors, b: Vectors)
    requires Holds(es, a) && Holds(es, b)
    ensures a == b
  {
    forall id ensures (id in a <==> id in b) && (id in a ==> a[id] == b[id]) {
      if id in a || id in b {
        assert HasId(es, id);
        var i :| 0 <= i < |es| && es[i].id == id;
      }
    }
  }

  ghost function EntriesOf(docs: Vectors): (es: seq<Entry>)
    ensures |es| == |InOrder(docs.Keys)|
    ensures forall i :: 0 <= i < |es| ==>
      InOrder(docs.Keys)[i] in docs && es[i] == Entry(InOrder(docs.Keys)[i], docs[InOrder(docs.Keys)[i]])
  {
    var ids := InOrder(docs.Keys);
    seq(|ids|, i requires 0 <= i < |ids| => assert ids[i] in ids; Entry(ids[i], docs[ids[i]]))
  }

  lemma EntriesHold(docs: Vectors)
    ensures IdsAscend(EntriesOf(docs)) && Holds(EntriesOf(docs), docs)
  {
    var ids, es := InOrder(docs.Keys), EntriesOf(docs);
    forall id | id in docs ensures HasId(es, id) {
      assert id in ids;
      var i :| 0 <= i < |ids| && ids[i] == id;
      assert es[i].id == id;
    }
  }

  lemma EntriesExact(docs: Vectors)
    ensures IdsAscend(EntriesOf(docs)) && DocsFrom(EntriesOf(docs)) == docs && |EntriesOf(docs)| == |docs|
  {
    EntriesHold(docs);
    DocsFromExact(EntriesOf(docs));
    HoldsSame(EntriesOf(docs), docs, DocsFrom(EntriesOf(docs)));
  }

  function IdsOf(es: seq<Entry>): (ids: seq<Id>)
    ensures |ids| == |es| && forall i :: 0 <= i < |es| ==> ids[i] == es[i].id
  {
    seq(|es|, i requires 0 <= i < |es| => es[i].id)
  }

  lemma EntriesCanonical(es: seq<Entry>)
    requires IdsAscend(es)
    ensures EntriesOf(DocsFrom(es)) == es
  {
    var docs, ids := DocsFrom(es), IdsOf(es);
    DocsFromExact(es);
    forall id ensures id in ids <==> id in docs.Keys {
      if id in docs {
        assert HasId(es, id);
        var i :| 0 <= i < |es| && es[i].id == id;
        assert ids[i] == id;
      }
      if id in ids { var i :| 0 <= i < |ids| && ids[i] == id; }
    }
    InOrderUnique(ids, docs.Keys);
    forall i | 0 <= i < |es| ensures EntriesOf(docs)[i] == es[i] {}
  }

  // ---- saving and loading ----

  /** `encode_persistent`. */
  ghost function EncodeVectors(docs: Vectors, dimensions: nat, metric: Metric): Result<bytes> {
    var b := Written(dimensions, metric, EntriesOf(docs));
    if |b| > MAX_RETRIEVAL_INDEX_BYTES then Err(ResourceLimit) else Ok(b)
  }

  predicate AllValid(es: seq<Entry>, dimensions: nat, metric: Metric) {
    forall i {:trigger VectorOk(es[i].values, dimensions, metric)} :: 0 <= i < |es| ==>
      VectorOk(es[i].values, dimensions, metric)
  }

  /** The header of `decode_persistent`: the vector count, and where the vectors begin. */
  function ReadHeader(b: bytes, dimensions: nat, metric: Metric): Read<nat> {
    match ReadCount(b, MAX_DIMENSIONS)
    case Fail => Fail
    case Got(d, r1) =>
      match ReadCount(r1, MAX_VECTORS)
      case Fail => Fail
      case Got(n, r2) =>
        match Take(r2, 4)
        case Fail => Fail
        case Got(tag, r3) => if d == 0 || d != dimensions || tag != [Tag(metric), 0, 0, 0] then Fail else Got(n, r3)
  }

  /** `decode_persistent`: the extent is checked before any vector is read. */
  function DecodeVectors(b: bytes, dimensions: nat, metric: Metric): (r: Result<Vectors>)
    ensures r.Err? ==> r.error == Corruption
  {
    if |b| > MAX_RETRIEVAL_INDEX_BYTES then Err(Corruption) else
    var h := ReadHeader(b, dimensions, metric);
    if h.Fail? || h.value * dimensions > MAX_SCALARS || Extent(h.value, dimensions) != |b| then Err(Corruption) else
    var es := ReadEntries(h.rest, h.value, dimensions);
    if es.Fail? || es.rest != [] || !IdsAscend(es.value) || !AllValid(es.value, dimensions, metric) then Err(Corruption)
    else Ok(DocsFrom(es.value))
  }

  lemma HeaderRead(dimensions: nat, metric: Metric, n: nat, rest: bytes)
    requires 0 < dimensions <= MAX_DIMENSIONS && n <= MAX_VECTORS
    ensures ReadHeader(Count(dimensions, Count(n, [Tag(metric), 0, 0, 0] + rest)), dimensions, metric) == Got(n, rest)
  {
    var tag: bytes := [Tag(metric), 0, 0, 0];
    CountRead(dimensions, Count(n, tag + rest), MAX_DIMENSIONS);
    CountRead(n, tag + rest, MAX_VECTORS);
    TakeRead(tag, rest);
  }

  lemma HeaderWritten(b: bytes, dimensions: nat, metric: Metric)
    requires ReadHeader(b, dimensions, metric).Got?
    ensures 0 < dimensions <= MAX_DIMENSIONS && ReadHeader(b, dimensions, metric).value <= MAX_VECTORS
    ensures b == Count(dimensions,
      Count(ReadHeader(b, dimensions, metric).value, [Tag(metric), 0, 0, 0] + ReadHeader(b, dimensions, metric).rest))
  {
    CountWritten(b, MAX_DIMENSIONS);
    var r1 := ReadCount(b, MAX_DIMENSIONS).rest;
    CountWritten(r1, MAX_VECTORS);
    TakeWritten(ReadCount(r1, MAX_VECTORS).rest, 4);
  }

  lemma Distribute(n: nat, d: nat)
    ensures n * (8 + 4 * d) == n * d * 4 + n * 8
  {}

  lemma WrittenLength(dimensions: nat, metric: Metric, es: seq<Entry>)
    requires AllWide(es, dimensions)
    ensures |Written(dimensions, metric, es)| == Extent(|es|, dimensions)
  {
    EntriesLength(es, dimensions, []);
    Distribute(|es|, dimensions);
  }

  lemma SavedEntries(docs: Vectors, dimensions: nat, metric: Metric)
    requires Within(docs, dimensions, metric)
    ensures AllValid(EntriesOf(docs), dimensions, metric) && AllWide(EntriesOf(docs), dimensions)
  {
    var ids, es := InOrder(docs.Keys), EntriesOf(docs);
    forall i | 0 <= i < |es| ensures VectorOk(es[i].values, dimensions, metric) {
      assert VectorOk(docs[ids[i]], dimensions, metric);
    }
  }

  /** Loading what was saved gives the same vectors; the extent arithmetic never refuses it. */
  lemma DecodeOfEncodeVectors(docs: Vectors, dimensions: nat, metric: Metric)
    requires Within(docs, dimensions, metric) && EncodeVectors(docs, dimensions, metric).Ok?
    ensures DecodeVectors(EncodeVectors(docs, dimensions, metric).value, dimensions, metric) == Ok(docs)
  {
    var es := EntriesOf(docs);
    EntriesExact(docs);
    SavedEntries(docs, dimensions, metric);
    WrittenLength(dimensions, metric, es);
    HeaderRead(dimensions, metric, |es|, EntriesBytes(es, []));
    EntriesRead(es, dimensions, []);
  }

  lemma LoadedWithin(es: seq<Entry>, dimensions: nat, metric: Metric)
    requires IdsAscend(es) && AllValid(es, dimensions, metric) && 0 < dimensions <= MAX_DIMENSIONS
    requires |es| <= MAX_VECTORS && |es| * dimensions <= MAX_SCALARS
    ensures Within(DocsFrom(es), dimensions, metric)
  {
    DocsFromExact(es);
    forall id | id in DocsFrom(es) ensures VectorOk(DocsFrom(es)[id], dimensions, metric) {
      assert HasId(es, id);
      var i :| 0 <= i < |es| && es[i].id == id;
      assert VectorOk(es[i].values, dimensions, metric);
    }
  }

  /** Accepted bytes are a valid index and are exactly what saving it writes. */
  lemma EncodeOfDecodeVectors(b: bytes, dimensions: nat, metric: Metric)
    requires DecodeVectors(b, dimensions, metric).Ok?
    ensures Within(DecodeVectors(b, dimensions, metric).value, dimensions, metric)
    ensures EncodeVectors(DecodeVectors(b, dimensions, metric).value, dimensions, metric) == Ok(b)
  {
    var h := ReadHeader(b, dimensions, metric);
    HeaderWritten(b, dimensions, metric);
    EntriesWritten(h.rest, h.value, dimensions);
    var es := ReadEntries(h.rest, h.value, dimensions).value;
    LoadedWithin(es, dimensions, metric);
    EntriesCanonical(es);
  }
}
