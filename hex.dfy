/** Go's `encoding/hex` (EncodeToString, DecodeString) and the `%02X` verb, over bytes. */
module Hex {
  import opened Wrappers
  import opened Binary

  /** The alphabet of `hex.EncodeToString`: lowercase. */
  function LowerDigit(v: nat): byte
    requires v < 16
  {
    if v < 10 then 48 + v else 87 + v
  }

  /** The alphabet of `%X`: uppercase. */
  function UpperDigit(v: nat): byte
    requires v < 16
  {
    if v < 10 then 48 + v else 55 + v
  }

  /** The characters `hex.DecodeString` accepts, in either case. */
  predicate IsHexChar(c: byte)
  {
    48 <= c <= 57 || 65 <= c <= 70 || 97 <= c <= 102
  }

  /** The digits `%X` writes: `0-9` and `A-F`. */
  predicate IsUpperHexChar(c: byte)
  {
    48 <= c <= 57 || 65 <= c <= 70
  }

  function HexValue(c: byte): (v: nat)
    requires IsHexChar(c)
    ensures v < 16
  {
    if c <= 57 then c - 48 else if c <= 70 then c - 55 else c - 87
  }

  lemma DigitsAreHexChars(v: nat)
    requires v < 16
    ensures IsHexChar(LowerDigit(v)) && HexValue(LowerDigit(v)) == v
    ensures IsHexChar(UpperDigit(v)) && HexValue(UpperDigit(v)) == v
  {
  }

  /** `%02X` of a byte: two uppercase hex digits, high nibble first. */
  function UpperPair(b: byte): (r: seq<byte>)
    ensures |r| == 2
  {
    [UpperDigit(b / 16), UpperDigit(b % 16)]
  }

  /** `hex.EncodeToString`: two lowercase digits per byte, high nibble first. */
  function EncodeToString(b: seq<byte>): (r: seq<byte>)
    ensures |r| == 2 * |b|
  {
    if b == [] then [] else [LowerDigit(b[0] / 16), LowerDigit(b[0] % 16)] + EncodeToString(b[1..])
  }

  /**
   * `hex.DecodeString`: fails on odd length or on any character that is not a
   * hex digit, and otherwise turns each pair of digits into one byte.
   */
  function DecodeString(s: seq<byte>): (r: Option<seq<byte>>)
    ensures r.Some? <==> |s| % 2 == 0 && forall i :: 0 <= i < |s| ==> IsHexChar(s[i])
    ensures r.Some? ==> |r.value| == |s| / 2
  {
    if |s| == 0 then Some([])
    else if |s| == 1 || !IsHexChar(s[0]) || !IsHexChar(s[1]) then None
    else
      match DecodeString(s[2..])
      case None => None
      case Some(t) => Some([HexValue(s[0]) * 16 + HexValue(s[1])] + t)
  }

  /** Decoding what EncodeToString produced gives back the bytes. */
  lemma {:induction false} DecodeEncoded(b: seq<byte>)
    ensures DecodeString(EncodeToString(b)) == Some(b)
  {
    if b != [] {
      var e := EncodeToString(b);
      DigitsAreHexChars(b[0] / 16);
      DigitsAreHexChars(b[0] % 16);
      assert e[2..] == EncodeToString(b[1..]);
      DecodeEncoded(b[1..]);
      assert [b[0]] + b[1..] == b;
    }
  }

  /** EncodeToString is injective, so comparing hex strings compares the bytes. */
  lemma EncodeInjective(a: seq<byte>, b: seq<byte>)
    ensures EncodeToString(a) == EncodeToString(b) <==> a == b
  {
    DecodeEncoded(a);
    DecodeEncoded(b);
  }
}
