/** Errors, results, byte strings and ascending lists shared by every module. */
module Core {

  /** The error classes of `PvError` that the modelled operations return. */
  datatype Error =
    | Corruption
    | ResourceLimit
    | Transaction
    | TransactionOutcomeUnknown
    | Schema
    | TableNotFound
    | Query
    | ReadOnly
    | Io

  datatype Option<+T> = None | Some(value: T)

  datatype Result<+T> = Ok(value: T) | Err(error: Error)

  const PAGE_SIZE: nat := 4096

  const U32_END: nat := 0x1_0000_0000
  const U64_END: nat := 0x1_0000_0000_0000_0000
  const I64_MIN: int := -0x8000_0000_0000_0000
  const I64_MAX: int := 0x7FFF_FFFF_FFFF_FFFF

  type byte = x: int | 0 <= x < 256
  type bytes = seq<byte>
  type i64 = x: int | I64_MIN <= x <= I64_MAX

  /** 256^k, the first number that does not fit in k bytes. */
  function Radix(k: nat): nat
    decreases k
  {
    if k == 0 then 1 else 256 * Radix(k - 1)
  }

  lemma RadixOfWidths()
    ensures Radix(4) == U32_END && Radix(8) == U64_END
  {
    assert Radix(2) == 65536;
    assert Radix(4) == U32_END;
    assert Radix(6) == 65536 * Radix(4);
    assert Radix(8) == 65536 * Radix(6);
  }

  /** The k-byte little-endian form of n (`to_le_bytes`). */
  function LittleEndian(n: nat, k: nat): (b: bytes)
    ensures |b| == k
    decreases k
  {
    if k == 0 then [] else [n % 256] + LittleEndian(n / 256, k - 1)
  }

  /** The number a little-endian byte string stands for (`from_le_bytes`). */
  function FromLittleEndian(b: bytes): nat
    decreases |b|
  {
    if b == [] then 0 else b[0] + 256 * FromLittleEndian(b[1..])
  }

  lemma {:induction false} LittleEndianRoundTrip(n: nat, k: nat)
    requires n < Radix(k)
    ensures FromLittleEndian(LittleEndian(n, k)) == n
    decreases k
  {
    if k > 0 {
      LittleEndianRoundTrip(n / 256, k - 1);
      assert LittleEndian(n, k)[1..] == LittleEndian(n / 256, k - 1);
    }
  }

  lemma {:induction false} FromLittleEndianRoundTrip(b: bytes)
    ensures FromLittleEndian(b) < Radix(|b|)
    ensures LittleEndian(FromLittleEndian(b), |b|) == b
    decreases |b|
  {
    if b != [] {
      FromLittleEndianRoundTrip(b[1..]);
    }
  }

  function Last<T>(s: seq<T>): T
    requires s != []
  {
    s[|s| - 1]
  }

  // ---- lists taken apart and put together ----

  lemma SplitAt<T>(s: seq<T>, n: nat)
    requires n <= |s|
    ensures s == s[..n] + s[n..]
  {}

  lemma FrontAndLast<T>(s: seq<T>)
    requires s != []
    ensures s == s[..|s| - 1] + [Last(s)]
  {}

  lemma FirstAndRest<T>(s: seq<T>)
    requires s != []
    ensures s == [s[0]] + s[1..]
  {}

  lemma PrefixSnoc<T>(s: seq<T>, i: nat)
    requires i < |s|
    ensures s[..i + 1] == s[..i] + [s[i]] && s[..i + 1][..i] == s[..i]
  {}

  lemma WholePrefix<T>(s: seq<T>)
    ensures s[..|s|] == s
  {}

  lemma NothingAdded<T>(a: seq<T>)
    ensures a + [] == a && [] + a == a
  {}

  lemma AddedInTurn<T>(a: seq<T>, b: seq<T>, c: seq<T>)
    ensures (a + b) + c == a + (b + c)
  {}

  // ---- ascending lists ----

  predicate Ascending(s: seq<nat>) {
    forall i, j :: 0 <= i < j < |s| ==> s[i] < s[j]
  }

  lemma SubsetCard<T>(a: set<T>, b: set<T>)
    requires a <= b
    ensures |a| <= |b| && (a != b ==> |a| < |b|)
  {
    assert b == a + (b - a);
  }

  /** A rank tells its keys apart. */
  ghost predicate Ranks<K(!new)>(rank: K -> int) {
    forall j, k :: rank(j) == rank(k) ==> j == k
  }

  lemma {:induction false} HasLeast<K>(s: set<K>, rank: K -> int) returns (k: K)
    requires s != {}
    ensures k in s && forall j :: j in s ==> rank(k) <= rank(j)
    decreases |s|
  {
    k :| k in s;
    if s != {k} {
      var j := HasLeast(s - {k}, rank);
      assert forall i :: i in s ==> i == k || i in s - {k};
      if rank(j) < rank(k) { k := j; }
    }
  }

  /** Collecting and sorting, as for a directory listing, a list of addresses or an ordered map. */
  method SortedBy<K(!new,==)>(keys: set<K>, rank: K -> int) returns (r: seq<K>)
    requires Ranks(rank)
    ensures forall i, j :: 0 <= i < j < |r| ==> rank(r[i]) < rank(r[j])
    ensures forall k :: k in r <==> k in keys
  {
    r := [];
    var rest := keys;
    while rest != {}
      invariant rest <= keys
      invariant forall i, j :: 0 <= i < j < |r| ==> rank(r[i]) < rank(r[j])
      invariant forall k :: k in r <==> k in keys && k !in rest
      invariant forall i, k :: 0 <= i < |r| && k in rest ==> rank(r[i]) < rank(k)
      decreases |rest|
    {
      ghost var least := HasLeast(rest, rank);
      var k :| k in rest && forall j :: j in rest ==> rank(k) <= rank(j);
      r := r + [k];
      rest := rest - {k};
    }
  }

  method SortedKeys(keys: set<nat>) returns (r: seq<nat>)
    ensures Ascending(r)
    ensures forall k :: k in r <==> k in keys
  {
    r := SortedBy(keys, (k: nat) => k);
  }
}
