/** The digest of an entry's sources (`source_digest`): it tells different sources apart unless the hash collides. */
module SourceDigest {
  import opened Core
  import opened ChangeCodec
  import opened MapSums
  import opened TextIndex
  import opened TextCodec
  import opened TextCatalog

  const FINGERPRINT_BYTES: nat := 32

  type Sources = map<Id, SourceDocument>

  datatype Sourced = Sourced(id: Id, document: SourceDocument)

  /** Fingerprints are hashes and sizes are 64-bit numbers. */
  predicate SourcesOk(m: Sources) {
    forall id :: id in m ==> |m[id].fingerprint| == FINGERPRINT_BYTES && m[id].bytes < U64_END
  }

  predicate ListOk(es: seq<Sourced>) {
    forall i :: 0 <= i < |es| ==>
      |es[i].document.fingerprint| == FINGERPRINT_BYTES && es[i].document.bytes < U64_END
  }

  function OneSource(x: Sourced, rest: bytes): bytes {
    Number(Unsigned(x.id), x.document.fingerprint + Number(x.document.bytes, rest))
  }

  function ListBytes(es: seq<Sourced>): bytes {
    if es == [] then [] else OneSource(es[0], ListBytes(es[1..]))
  }

  lemma UnsignedInjective(i: i64, j: i64)
    requires Unsigned(i) == Unsigned(j)
    ensures i == j
  {}

  /** Fixed-width fields can be read back one by one. */
  lemma OneSourceInjective(x: Sourced, a: bytes, y: Sourced, b: bytes)
    requires ListOk([x]) && ListOk([y]) && OneSource(x, a) == OneSource(y, b)
    ensures x == y && a == b
  {
    assert [x][0] == x && [y][0] == y;
    var p, q := Number(x.document.bytes, a), Number(y.document.bytes, b);
    NumberRead(Unsigned(x.id), x.document.fingerprint + p);
    NumberRead(Unsigned(y.id), y.document.fingerprint + q);
    UnsignedInjective(x.id, y.id);
    TakeRead(x.document.fingerprint, p);
    TakeRead(y.document.fingerprint, q);
    NumberRead(x.document.bytes, a);
    NumberRead(y.document.bytes, b);
  }

  lemma {:induction false} ListBytesInjective(a: seq<Sourced>, b: seq<Sourced>)
    requires ListOk(a) && ListOk(b) && ListBytes(a) == ListBytes(b)
    ensures a == b
    decreases |a|
  {
    if a != [] && b != [] {
      assert ListOk([a[0]]) && ListOk([b[0]]);
      OneSourceInjective(a[0], ListBytes(a[1..]), b[0], ListBytes(b[1..]));
      ListBytesInjective(a[1..], b[1..]);
      assert a == [a[0]] + a[1..] && b == [b[0]] + b[1..];
    }
  }

  /** The sources in order of id. */
  ghost function ListOf(m: Sources): (es: seq<Sourced>)
    ensures |es| == |InOrder(m.Keys)|
    ensures forall i :: 0 <= i < |es| ==>
      InOrder(m.Keys)[i] in m && es[i] == Sourced(InOrder(m.Keys)[i], m[InOrder(m.Keys)[i]])
  {
    var ids := InOrder(m.Keys);
    seq(|ids|, i requires 0 <= i < |ids| => assert ids[i] in ids; Sourced(ids[i], m[ids[i]]))
  }

  lemma ListedOnce(a: Sources, b: Sources, id: Id)
    requires ListOf(a) == ListOf(b) && id in a
    ensures id in b && a[id] == b[id]
  {
    var ids := InOrder(a.Keys);
    assert id in ids;
    var i :| 0 <= i < |ids| && ids[i] == id;
    assert ListOf(a)[i] == ListOf(b)[i];
  }

  lemma ListOfInjective(a: Sources, b: Sources)
    requires ListOf(a) == ListOf(b)
    ensures a == b
  {
    forall id ensures (id in a <==> id in b) && (id in a ==> a[id] == b[id]) {
      if id in a { ListedOnce(a, b, id); }
      if id in b { ListedOnce(b, a, id); }
    }
  }

  ghost function SourceBytes(m: Sources): bytes { ListBytes(ListOf(m)) }

  /** What is hashed determines the sources. */
  lemma SourceBytesInjective(a: Sources, b: Sources)
    requires SourcesOk(a) && SourcesOk(b) && SourceBytes(a) == SourceBytes(b)
    ensures a == b
  {
    ListBytesInjective(ListOf(a), ListOf(b));
    ListOfInjective(a, b);
  }

  /** `source_digest`; the hash includes its own fixed prefix. */
  ghost function Digest(m: Sources, hash: bytes -> bytes): bytes { hash(SourceBytes(m)) }

  /** The hash does not collide on the two source lists. */
  ghost predicate ToldApart(a: Sources, b: Sources, hash: bytes -> bytes) {
    hash(SourceBytes(a)) == hash(SourceBytes(b)) ==> SourceBytes(a) == SourceBytes(b)
  }

  lemma DigestTellsSources(a: Sources, b: Sources, hash: bytes -> bytes)
    requires SourcesOk(a) && SourcesOk(b) && ToldApart(a, b, hash)
    ensures Digest(a, hash) == Digest(b, hash) <==> a == b
  {
    if Digest(a, hash) == Digest(b, hash) { SourceBytesInjective(a, b); }
  }
}
