/**
 * Go's `utf8.Valid`: a byte sequence is valid when it splits into well-formed
 * UTF-8 encodings (no overlong forms, no surrogates, nothing above U+10FFFF).
 */
module Utf8 {
  import opened Binary

  predicate IsContinuation(b: byte)
  {
    0x80 <= b <= 0xBF
  }

  predicate Valid(s: seq<byte>)
    decreases |s|
  {
    if s == [] then true
    else
      var b := s[0];
      if b < 0x80 then Valid(s[1..])
      else if 0xC2 <= b <= 0xDF then
        |s| >= 2 && IsContinuation(s[1]) && Valid(s[2..])
      else if 0xE0 <= b <= 0xEF then
        && |s| >= 3
        && (if b == 0xE0 then 0xA0 <= s[1] <= 0xBF
            else if b == 0xED then 0x80 <= s[1] <= 0x9F
            else IsContinuation(s[1]))
        && IsContinuation(s[2])
        && Valid(s[3..])
      else if 0xF0 <= b <= 0xF4 then
        && |s| >= 4
        && (if b == 0xF0 then 0x90 <= s[1] <= 0xBF
            else if b == 0xF4 then 0x80 <= s[1] <= 0x8F
            else IsContinuation(s[1]))
        && IsContinuation(s[2])
        && IsContinuation(s[3])
        && Valid(s[4..])
      else false
  }

  /** Every ASCII sequence is valid UTF-8. */
  lemma {:induction false} AsciiIsValid(s: seq<byte>)
    requires forall i :: 0 <= i < |s| ==> s[i] < 0x80
    ensures Valid(s)
  {
    if s != [] {
      AsciiIsValid(s[1..]);
    }
  }
}
