/** A stored record: the envelope and the tagged fields of a row (`encode_record`, `decode_row`). */
module RowBytes {
  import opened Core
  import opened Values
  import opened ChangeCodec
  import opened TextCodec
  import opened Utf8
  import opened VersionedTable

  // ---- text as UTF-8 ----

  function CharBytes(c: char): (b: bytes)
    ensures |b| == CharLength(c as int)
  {
    var n := c as int;
    if n < 0x80 then [n]
    else if n < 0x800 then [0xC0 + n / 64, 0x80 + n % 64]
    else if n < 0x1_0000 then [0xE0 + n / 4096, 0x80 + n / 64 % 64, 0x80 + n % 64]
    else [0xF0 + n / 262144, 0x80 + n / 4096 % 64, 0x80 + n / 64 % 64, 0x80 + n % 64]
  }

  function TextBytes(s: string): bytes {
    if s == [] then [] else CharBytes(s[0]) + TextBytes(s[1..])
  }

  /** The first byte tells how many follow, and together they tell the character. */
  lemma CharInjective(c: char, d: char, x: bytes, y: bytes)
    requires CharBytes(c) + x == CharBytes(d) + y
    ensures c == d && x == y
  {
    var a, b := CharBytes(c), CharBytes(d);
    assert (a + x)[0] == a[0] && (b + y)[0] == b[0];
    assert |a| == |b|;
    assert a == (a + x)[..|a|] && b == (b + y)[..|b|];
    assert x == (a + x)[|a|..] && y == (b + y)[|b|..];
    SameChar(c, d);
  }

  lemma SameDigits(m: nat, n: nat)
    requires m / 64 == n / 64 && m % 64 == n % 64
    ensures m == n
  {}

  lemma SameDigits3(m: nat, n: nat)
    requires m / 4096 == n / 4096 && m / 64 % 64 == n / 64 % 64 && m % 64 == n % 64
    ensures m == n
  {
    assert m / 4096 == m / 64 / 64 && n / 4096 == n / 64 / 64;
    SameDigits(m / 64, n / 64);
    SameDigits(m, n);
  }

  lemma SameDigits4(m: nat, n: nat)
    requires m / 262144 == n / 262144 && m / 4096 % 64 == n / 4096 % 64
    requires m / 64 % 64 == n / 64 % 64 && m % 64 == n % 64
    ensures m == n
  {
    assert m / 262144 == m / 64 / 4096 && n / 262144 == n / 64 / 4096;
    assert m / 4096 % 64 == m / 64 / 64 % 64 && n / 4096 % 64 == n / 64 / 64 % 64;
    SameDigits3(m / 64, n / 64);
    SameDigits(m, n);
  }

  lemma SameChar(c: char, d: char)
    requires CharBytes(c) == CharBytes(d)
    ensures c == d
  {
    var a, b, m, n := CharBytes(c), CharBytes(d), c as int, d as int;
    assert |a| == |b| && forall i :: 0 <= i < |a| ==> a[i] == b[i];
    if |a| == 2 {
      assert a[0] == b[0] && a[1] == b[1];
      SameDigits(m, n);
    } else if |a| == 3 {
      assert a[0] == b[0] && a[1] == b[1] && a[2] == b[2];
      SameDigits3(m, n);
    } else if |a| == 4 {
      assert a[0] == b[0] && a[1] == b[1] && a[2] == b[2] && a[3] == b[3];
      SameDigits4(m, n);
    } else {
      assert a[0] == b[0];
    }
  }

  lemma {:induction false} TextInjective(s: string, t: string)
    requires TextBytes(s) == TextBytes(t)
    ensures s == t
    decreases |s|
  {
    if s != [] && t != [] {
      CharInjective(s[0], t[0], TextBytes(s[1..]), TextBytes(t[1..]));
      TextInjective(s[1..], t[1..]);
      FirstAndRest(s);
      FirstAndRest(t);
    }
  }

  lemma {:induction false} TextSnoc(s: string, c: char)
    ensures TextBytes(s + [c]) == TextBytes(s) + CharBytes(c)
    decreases |s|
  {
    if s == [] {
      assert [c][1..] == [] && [] + [c] == [c];
      NothingAdded(CharBytes(c));
    } else {
      assert (s + [c])[1..] == s[1..] + [c];
      TextSnoc(s[1..], c);
      AddedInTurn(CharBytes(s[0]), TextBytes(s[1..]), CharBytes(c));
    }
  }

  lemma {:induction false} TextLength(s: string)
    ensures |TextBytes(s)| == Utf8Length(s)
    decreases |s|
  {
    if s != [] {
      TextLength(s[..|s| - 1]);
      FrontAndLast(s);
      TextSnoc(s[..|s| - 1], Last(s));
    }
  }

  // ---- what the UTF-8 check accepts ----

  /** A character's bytes are in the ranges of table 3-7. */
  lemma CharRanges(c: char)
    ensures var b := CharBytes(c);
      && (|b| == 1 ==> b[0] <= 0x7F) && (|b| == 2 ==> 0xC2 <= b[0] <= 0xDF)
      && (|b| == 3 ==> 0xE0 <= b[0] <= 0xEF && (b[0] == 0xE0 ==> b[1] >= 0xA0) && (b[0] == 0xED ==> b[1] <= 0x9F))
      && (|b| == 4 ==> 0xF0 <= b[0] <= 0xF4 && (b[0] == 0xF0 ==> b[1] >= 0x90) && (b[0] == 0xF4 ==> b[1] <= 0x8F))
      && forall i :: 1 <= i < |b| ==> Continuation(b[i])
  {}

  lemma CharIsSequence(c: char, rest: bytes)
    ensures SequenceLength(CharBytes(c) + rest, 0) == |CharBytes(c)|
  {
    CharRanges(c);
    SequenceStarts(CharBytes(c), rest);
  }

  lemma SequenceStarts(b: bytes, rest: bytes)
    requires (|b| == 1 && b[0] <= 0x7F) || (|b| == 2 && 0xC2 <= b[0] <= 0xDF)
      || (|b| == 3 && 0xE0 <= b[0] <= 0xEF && (b[0] == 0xE0 ==> b[1] >= 0xA0) && (b[0] == 0xED ==> b[1] <= 0x9F))
      || (|b| == 4 && 0xF0 <= b[0] <= 0xF4 && (b[0] == 0xF0 ==> b[1] >= 0x90) && (b[0] == 0xF4 ==> b[1] <= 0x8F))
    requires forall i :: 1 <= i < |b| ==> Continuation(b[i])
    ensures SequenceLength(b + rest, 0) == |b|
  {
    assert forall i :: 0 <= i < |b| ==> (b + rest)[i] == b[i];
  }

  lemma TwoByteChar(x: byte, y: byte) returns (c: char)
    requires 0xC2 <= x <= 0xDF && Continuation(y)
    ensures CharBytes(c) == [x, y]
  {
    var n := (x - 0xC0) * 64 + (y - 0x80);
    assert n / 64 == x - 0xC0 && n % 64 == y - 0x80;
    c := n as char;
  }

  lemma ThreeByteChar(x: byte, y: byte, z: byte) returns (c: char)
    requires 0xE0 <= x <= 0xEF && Continuation(y) && Continuation(z)
    requires (x == 0xE0 ==> y >= 0xA0) && (x == 0xED ==> y <= 0x9F)
    ensures CharBytes(c) == [x, y, z]
  {
    var m := (x - 0xE0) * 64 + (y - 0x80);
    var n := m * 64 + (z - 0x80);
    assert n / 64 == m && n % 64 == z - 0x80;
    assert m / 64 == x - 0xE0 && m % 64 == y - 0x80;
    assert n / 4096 == m / 64;
    c := n as char;
  }

  lemma FourByteChar(w: byte, x: byte, y: byte, z: byte) returns (c: char)
    requires 0xF0 <= w <= 0xF4 && Continuation(x) && Continuation(y) && Continuation(z)
    requires (w == 0xF0 ==> x >= 0x90) && (w == 0xF4 ==> x <= 0x8F)
    ensures CharBytes(c) == [w, x, y, z]
  {
    var l := (w - 0xF0) * 64 + (x - 0x80);
    var m := l * 64 + (y - 0x80);
    var n := m * 64 + (z - 0x80);
    assert n / 64 == m && n % 64 == z - 0x80;
    assert m / 64 == l && m % 64 == y - 0x80;
    assert l / 64 == w - 0xF0 && l % 64 == x - 0x80;
    assert n / 4096 == m / 64 && n / 262144 == l / 64;
    c := n as char;
  }

  lemma SequenceIsChar(s: bytes) returns (c: char)
    requires s != [] && SequenceLength(s, 0) > 0
    ensures SequenceLength(s, 0) <= |s| && CharBytes(c) == s[..SequenceLength(s, 0)]
  {
    var n := SequenceLength(s, 0);
    if n == 1 {
      c := s[0] as char;
    } else if n == 2 {
      c := TwoByteChar(s[0], s[1]);
    } else if n == 3 {
      c := ThreeByteChar(s[0], s[1], s[2]);
    } else {
      c := FourByteChar(s[0], s[1], s[2], s[3]);
    }
  }

  lemma {:induction false} Utf8Shift(s: bytes, i: nat, j: nat)
    requires i + j <= |s|
    ensures Utf8From(s, i + j) <==> Utf8From(s[i..], j)
    decreases |s| - j
  {
    if i + j < |s| {
      var n := SequenceLength(s, i + j);
      assert s[i..][j] == s[i + j];
      if 0 < n <= |s| - i - j { Utf8Shift(s, i, j + n); }
    }
  }

  lemma {:induction false} TextIsUtf8(t: string)
    ensures IsUtf8(TextBytes(t))
    decreases |t|
  {
    if t != [] {
      var c, rest := CharBytes(t[0]), TextBytes(t[1..]);
      CharIsSequence(t[0], rest);
      TextIsUtf8(t[1..]);
      assert (c + rest)[|c|..] == rest;
      Utf8Shift(c + rest, |c|, 0);
    }
  }

  lemma {:induction false} Utf8IsText(b: bytes) returns (t: string)
    requires IsUtf8(b)
    ensures TextBytes(t) == b
    decreases |b|
  {
    if b == [] {
      t := [];
    } else {
      var c := SequenceIsChar(b);
      var n := SequenceLength(b, 0);
      Utf8Shift(b, n, 0);
      var rest := Utf8IsText(b[n..]);
      t := [c] + rest;
      assert t[0] == c && t[1..] == rest;
      SplitAt(b, n);
    }
  }

  /** The check accepts exactly the encodings of character sequences. */
  lemma Utf8Exact(b: bytes)
    ensures IsUtf8(b) <==> exists t :: TextBytes(t) == b
  {
    if IsUtf8(b) { var t := Utf8IsText(b); }
    if t :| TextBytes(t) == b { TextIsUtf8(t); }
  }

  // ---- fields ----

  /** Two's complement in sixteen bytes. */
  function Unsigned128(m: i128): nat {
    if m < 0 then m + 0x1_0000_0000_0000_0000_0000_0000_0000_0000 else m
  }

  /** A payload under its tag: in place up to sixteen bytes, else by the id it has in the blob store. */
  function PayloadBytes(b: bytes, inPlace: byte, byId: byte, id: bytes -> nat): bytes {
    if |b| > 16 then [byId] + LittleEndian(id(b), 8) else [inPlace] + (LittleEndian(|b|, 2) + b)
  }

  function FieldBytes(v: Value, id: bytes -> nat): bytes {
    match v
    case Null => [0x00]
    case Int(i) => [0x01] + LittleEndian(Unsigned(i), 8)
    case Decimal(m) => [0x06] + LittleEndian(Unsigned128(m), 16)
    case Text(s) => PayloadBytes(TextBytes(s), 0x02, 0x04, id)
    case Blob(b) => PayloadBytes(b, 0x03, 0x05, id)
  }

  function FieldsBytes(row: Row, id: bytes -> nat): bytes {
    if row == [] then [] else FieldBytes(row[0], id) + FieldsBytes(row[1..], id)
  }

  /** Inserting and deleting transaction and the previous version's address, then the field count and the fields. */
  function RecordBytes(inserted: nat, deleted: nat, previous: nat, row: Row, id: bytes -> nat): bytes {
    LittleEndian(inserted, 8) + LittleEndian(deleted, 8) + LittleEndian(previous, 8)
    + (LittleEndian(|row|, 2) + FieldsBytes(row, id))
  }

  lemma FieldLengthExact(v: Value, id: bytes -> nat)
    ensures |FieldBytes(v, id)| == FieldLength(v)
  {
    if v.Text? { TextLength(v.s); }
  }

  lemma {:induction false} FieldsSnoc(row: Row, v: Value, id: bytes -> nat)
    ensures FieldsBytes(row + [v], id) == FieldsBytes(row, id) + FieldBytes(v, id)
    decreases |row|
  {
    if row == [] {
      assert [v][1..] == [] && row + [v] == [v];
      NothingAdded(FieldBytes(v, id));
    } else {
      assert (row + [v])[1..] == row[1..] + [v];
      FieldsSnoc(row[1..], v, id);
      AddedInTurn(FieldBytes(row[0], id), FieldsBytes(row[1..], id), FieldBytes(v, id));
    }
  }

  lemma {:induction false} FieldsLengthExact(row: Row, id: bytes -> nat)
    ensures |FieldsBytes(row, id)| == FieldsLength(row)
    decreases |row|
  {
    if row != [] {
      FieldsLengthExact(row[..|row| - 1], id);
      FrontAndLast(row);
      FieldsSnoc(row[..|row| - 1], Last(row), id);
      FieldLengthExact(Last(row), id);
    }
  }

  /** The length the shape check computes beforehand is the length of the record written. */
  lemma RecordLengthExact(inserted: nat, deleted: nat, previous: nat, row: Row, id: bytes -> nat)
    ensures |RecordBytes(inserted, deleted, previous, row, id)| == RecordLength(row)
  {
    FieldsLengthExact(row, id);
  }

  // ---- reading a row back ----

  /** Reading a payload: in place, or from the blob store. */
  function ReadPayload(input: bytes, inPlace: bool, store: map<nat, bytes>): Read<bytes> {
    if inPlace then
      match Take(input, 2)
      case Fail => Fail
      case Got(n, rest) => Take(rest, FromLittleEndian(n))
    else
      match Take(input, 8)
      case Fail => Fail
      case Got(n, rest) => if FromLittleEndian(n) in store then Got(store[FromLittleEndian(n)], rest) else Fail
  }

  ghost function TextOf(b: bytes): Option<string> {
    if exists s :: TextBytes(s) == b then (var s :| TextBytes(s) == b; Some(s)) else None
  }

  ghost function AsText(r: Read<bytes>): Read<Value> {
    if r.Got? && TextOf(r.value).Some? then Got(Text(TextOf(r.value).value), r.rest) else Fail
  }

  function AsBlob(r: Read<bytes>): Read<Value> {
    if r.Got? then Got(Blob(r.value), r.rest) else Fail
  }

  function Signed128(n: nat): Option<i128> {
    if n <= I128_MAX then Some(n)
    else if n < 0x1_0000_0000_0000_0000_0000_0000_0000_0000 then Some(n - 0x1_0000_0000_0000_0000_0000_0000_0000_0000)
    else None
  }

  ghost function ReadField(input: bytes, store: map<nat, bytes>): Read<Value> {
    if input == [] then Fail else
    var tag, rest := input[0], input[1..];
    if tag == 0x00 then Got(Null, rest)
    else if tag == 0x01 then
      match Take(rest, 8)
      case Fail => Fail
      case Got(n, more) => if FromLittleEndian(n) < U64_END then Got(Int(Signed(FromLittleEndian(n))), more) else Fail
    else if tag == 0x06 then
      match Take(rest, 16)
      case Fail => Fail
      case Got(n, more) =>
        if Signed128(FromLittleEndian(n)).Some? then Got(Decimal(Signed128(FromLittleEndian(n)).value), more) else Fail
    else if tag == 0x02 || tag == 0x04 then AsText(ReadPayload(rest, tag == 0x02, store))
    else if tag == 0x03 || tag == 0x05 then AsBlob(ReadPayload(rest, tag == 0x03, store))
    else Fail
  }

  ghost function ReadFields(input: bytes, n: nat, store: map<nat, bytes>): Read<seq<Value>>
    decreases n
  {
    if n == 0 then Got([], input) else
    match ReadField(input, store)
    case Fail => Fail
    case Got(v, rest) => Prepend([v], ReadFields(rest, n - 1, store))
  }

  /** `decode_row`. */
  ghost function ReadRow(body: bytes, store: map<nat, bytes>): Option<Row> {
    match Take(body, 2)
    case Fail => None
    case Got(n, rest) =>
      match ReadFields(rest, FromLittleEndian(n), store)
      case Fail => None
      case Got(row, _) => Some(row)
  }

  /** The store has this payload under its id, if it went there. */
  predicate Stored(b: bytes, store: map<nat, bytes>, id: bytes -> nat) {
    |b| > 16 ==> id(b) < U64_END && id(b) in store && store[id(b)] == b
  }

  predicate Keeps(v: Value, store: map<nat, bytes>, id: bytes -> nat) {
    (v.Text? ==> Stored(TextBytes(v.s), store, id)) && (v.Blob? ==> Stored(v.b, store, id))
  }

  predicate KeepsAll(row: Row, store: map<nat, bytes>, id: bytes -> nat) {
    forall i :: 0 <= i < |row| ==> Keeps(row[i], store, id)
  }

  lemma Radixes()
    ensures Radix(2) == 65536 && Radix(8) == U64_END
    ensures Radix(16) == 0x1_0000_0000_0000_0000_0000_0000_0000_0000
  {
    RadixOfWidths();
    assert Radix(10) == 65536 * Radix(8);
    assert Radix(12) == 65536 * Radix(10);
    assert Radix(14) == 65536 * Radix(12);
    assert Radix(16) == 65536 * Radix(14);
  }

  lemma NumberBack(n: nat, k: nat, rest: bytes)
    requires n < Radix(k)
    ensures Take(LittleEndian(n, k) + rest, k) == Got(LittleEndian(n, k), rest)
    ensures FromLittleEndian(LittleEndian(n, k)) == n
  {
    TakeRead(LittleEndian(n, k), rest);
    LittleEndianRoundTrip(n, k);
  }

  lemma Tagged(tag: byte, body: bytes, rest: bytes)
    ensures ([tag] + body) + rest != [] && (([tag] + body) + rest)[0] == tag
    ensures (([tag] + body) + rest)[1..] == body + rest
  {
    AddedInTurn([tag], body, rest);
  }

  lemma PayloadBack(b: bytes, inPlace: byte, byId: byte, id: bytes -> nat, store: map<nat, bytes>, rest: bytes)
    requires Stored(b, store, id)
    ensures var p := PayloadBytes(b, inPlace, byId, id) + rest;
      && p != [] && p[0] == (if |b| > 16 then byId else inPlace)
      && ReadPayload(p[1..], |b| <= 16, store) == Got(b, rest)
  {
    Radixes();
    if |b| > 16 {
      Tagged(byId, LittleEndian(id(b), 8), rest);
      NumberBack(id(b), 8, rest);
    } else {
      Tagged(inPlace, LittleEndian(|b|, 2) + b, rest);
      AddedInTurn(LittleEndian(|b|, 2), b, rest);
      NumberBack(|b|, 2, b + rest);
      TakeRead(b, rest);
    }
  }

  lemma TextBack(s: string)
    ensures TextOf(TextBytes(s)) == Some(s)
  {
    var t := TextOf(TextBytes(s)).value;
    TextInjective(s, t);
  }

  lemma IntBack(i: i64, store: map<nat, bytes>, rest: bytes)
    ensures ReadField(([0x01] + LittleEndian(Unsigned(i), 8)) + rest, store) == Got(Int(i), rest)
  {
    Radixes();
    Tagged(0x01, LittleEndian(Unsigned(i), 8), rest);
    NumberBack(Unsigned(i), 8, rest);
    SignedUnsigned(i);
  }

  lemma DecimalBack(m: i128, store: map<nat, bytes>, rest: bytes)
    ensures ReadField(([0x06] + LittleEndian(Unsigned128(m), 16)) + rest, store) == Got(Decimal(m), rest)
  {
    Radixes();
    Tagged(0x06, LittleEndian(Unsigned128(m), 16), rest);
    NumberBack(Unsigned128(m), 16, rest);
  }

  lemma FieldBack(v: Value, id: bytes -> nat, store: map<nat, bytes>, rest: bytes)
    requires Keeps(v, store, id)
    ensures ReadField(FieldBytes(v, id) + rest, store) == Got(v, rest)
  {
    match v
    case Null =>
      assert ([0x00] + rest)[1..] == rest;
    case Int(i) => IntBack(i, store, rest);
    case Decimal(m) => DecimalBack(m, store, rest);
    case Text(s) =>
      PayloadBack(TextBytes(s), 0x02, 0x04, id, store, rest);
      TextBack(s);
    case Blob(b) =>
      PayloadBack(b, 0x03, 0x05, id, store, rest);
  }

  lemma {:induction false} FieldsBack(row: Row, id: bytes -> nat, store: map<nat, bytes>, rest: bytes)
    requires KeepsAll(row, store, id)
    ensures ReadFields(FieldsBytes(row, id) + rest, |row|, store) == Got(row, rest)
    decreases |row|
  {
    if row == [] {
      NothingAdded(rest);
    } else {
      FieldsBack(row[1..], id, store, rest);
      FieldBack(row[0], id, store, FieldsBytes(row[1..], id) + rest);
      AddedInTurn(FieldBytes(row[0], id), FieldsBytes(row[1..], id), rest);
      FirstAndRest(row);
    }
  }

  /** A row comes back from its stored form, whatever went to the blob store. */
  lemma RowRoundTrip(row: Row, id: bytes -> nat, store: map<nat, bytes>)
    requires |row| <= 65535 && KeepsAll(row, store, id)
    ensures ReadRow(LittleEndian(|row|, 2) + FieldsBytes(row, id), store) == Some(row)
  {
    Radixes();
    NumberBack(|row|, 2, FieldsBytes(row, id));
    FieldsBack(row, id, store, []);
    NothingAdded(FieldsBytes(row, id));
  }
}
