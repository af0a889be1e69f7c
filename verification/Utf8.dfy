/** Well-formed UTF-8. */
module Utf8 {
  import opened Core

  predicate Continuation(b: byte) { 0x80 <= b <= 0xBF }

  /** The length of a well-formed sequence at i, or 0; table 3-7 of the Unicode Standard. */
  function SequenceLength(s: bytes, i: nat): nat
    requires i < |s|
  {
    var left, b := |s| - i, s[i];
    if b <= 0x7F then 1
    else if left >= 2 && 0xC2 <= b <= 0xDF && Continuation(s[i + 1]) then 2
    else if left >= 3 && 0xE0 <= b <= 0xEF && Continuation(s[i + 1]) && Continuation(s[i + 2])
      && (b == 0xE0 ==> s[i + 1] >= 0xA0) && (b == 0xED ==> s[i + 1] <= 0x9F) then 3
    else if left >= 4 && 0xF0 <= b <= 0xF4
      && Continuation(s[i + 1]) && Continuation(s[i + 2]) && Continuation(s[i + 3])
      && (b == 0xF0 ==> s[i + 1] >= 0x90) && (b == 0xF4 ==> s[i + 1] <= 0x8F) then 4
    else 0
  }

  predicate Utf8From(s: bytes, i: nat)
    requires i <= |s|
    decreases |s| - i
  {
    i == |s| || (0 < SequenceLength(s, i) <= |s| - i && Utf8From(s, i + SequenceLength(s, i)))
  }

  predicate IsUtf8(s: bytes) { Utf8From(s, 0) }
}
