/**
 * `extension/magnet.go`: a magnet link (the "Magnet URI format" of BEP 9)
 * and `Magnet.Parse`, which assigns the tracker URL, the info hash and its
 * decoded bytes to the receiver in turn, returning early on each error.
 */
module Magnet {
  import opened Wrappers
  import opened Binary
  import opened Strings
  import Hex
  import UrlEncode

  const MAGNET_PREFIX: seq<byte> := Ascii("magnet:?xt=urn:btih:")
  const AMPERSAND: byte := 38
  const EQUALS: byte := 61

  /** What Parse returns: nil, an error, or a panic on a link with too few segments. */
  datatype ParseOutcome = Success | Failure(error: MagnetError) | Panic

  datatype MagnetError =
    | InvalidMagnetLink   // "invalid magnet link"
    | BadEscape           // the error of url.QueryUnescape
    | BadHex              // the error of hex.DecodeString

  /** The four fields of a Magnet. */
  datatype Fields = Fields(link: seq<byte>, url: seq<byte>, infoHash: seq<byte>, infoHashDecoded: seq<byte>)

  /**
   * Parse on a Magnet whose fields are `f`: cut the prefix, split the rest at
   * each `&`, take the text between the first and the second `=` of the third
   * segment as the escaped URL and the first segment as the info hash.  An
   * unescape error leaves every field as it was; a hex error comes after URL
   * and InfoHash have been assigned.
   */
  function ParseSpec(f: Fields): (r: (ParseOutcome, Fields))
    ensures r.1.link == f.link
    ensures r.0 != Success ==> r.1.infoHashDecoded == f.infoHashDecoded
  {
    var cut := CutPrefix(f.link, MAGNET_PREFIX);
    if !cut.1 then (Failure(InvalidMagnetLink), f)
    else
      var parts := Split(cut.0, AMPERSAND);
      if |parts| < 3 then (Panic, f)
      else
        var urls := Split(parts[2], EQUALS);
        if |urls| < 2 then (Panic, f)
        else
          var decodedUrl := UrlEncode.QueryUnescape(urls[1]);
          if decodedUrl.None? then (Failure(BadEscape), f)
          else
            var written := f.(url := decodedUrl.value, infoHash := parts[0]);
            var decoded := Hex.DecodeString(parts[0]);
            if decoded.None? then (Failure(BadHex), written)
            else (Success, written.(infoHashDecoded := decoded.value))
  }

  class Magnet {
    var link: seq<byte>
    var url: seq<byte>
    var infoHash: seq<byte>
    var infoHashDecoded: seq<byte>

    function State(): Fields
      reads this
    {
      Fields(link, url, infoHash, infoHashDecoded)
    }

    /** NewMagnet: only the link is set. */
    constructor (link: seq<byte>)
      ensures State() == Fields(link, [], [], [])
    {
      this.link := link;
      url := [];
      infoHash := [];
      infoHashDecoded := [];
    }

    method Parse() returns (r: ParseOutcome)
      modifies this
      ensures (r, State()) == ParseSpec(old(State()))
    {
      var cut := CutPrefix(link, MAGNET_PREFIX);
      if !cut.1 {
        return Failure(InvalidMagnetLink);
      }
      var parts := Split(cut.0, AMPERSAND);
      if |parts| < 3 {
        return Panic;
      }
      var urls := Split(parts[2], EQUALS);
      if |urls| < 2 {
        return Panic;
      }
      var decodedUrl := UrlEncode.QueryUnescape(urls[1]);
      if decodedUrl.None? {
        return Failure(BadEscape);
      }
      url := decodedUrl.value;
      infoHash := parts[0];
      var decoded := Hex.DecodeString(infoHash);
      if decoded.None? {
        return Failure(BadHex);
      }
      infoHashDecoded := decoded.value;
      return Success;
    }
  }

  /**
   * What Parse changes: never the link; nothing unless the prefix is there
   * and the URL unescapes; after a hex error the decoded hash is untouched;
   * on success the decoded hash is the hex decoding of the info hash.
   */
  lemma ParseEffects(f: Fields)
    ensures var r := ParseSpec(f);
      && r.1.link == f.link
      && (r.0 == Failure(InvalidMagnetLink) <==> !HasPrefix(f.link, MAGNET_PREFIX))
      && (r.0 in {Panic, Failure(InvalidMagnetLink), Failure(BadEscape)} ==> r.1 == f)
      && (r.0 == Failure(BadHex) ==> r.1.infoHashDecoded == f.infoHashDecoded && Hex.DecodeString(r.1.infoHash).None?)
      && (r.0 == Success ==> Hex.DecodeString(r.1.infoHash) == Some(r.1.infoHashDecoded))
  {
  }

  /**
   * Whenever InfoHash is assigned it is the text after the prefix up to the
   * first `&`.
   */
  lemma InfoHashIsFirstSegment(f: Fields)
    ensures var r := ParseSpec(f);
      r.0 in {Success, Failure(BadHex)} ==>
        AMPERSAND !in r.1.infoHash && HasPrefix(f.link, MAGNET_PREFIX + r.1.infoHash + [AMPERSAND])
  {
    var cut := CutPrefix(f.link, MAGNET_PREFIX);
    if cut.1 {
      var after := cut.0;
      var first := Split(after, AMPERSAND)[0];
      SplitFirst(after, AMPERSAND);
      if |Split(after, AMPERSAND)| > 1 {
        var head := MAGNET_PREFIX + first + [AMPERSAND];
        assert f.link[..|head|] == MAGNET_PREFIX + after[..|first| + 1];
      }
    }
  }

  /** A BEP 9 link: the hex info hash, a second segment, then `key=` and the percent-encoded tracker URL, then anything from a further `&` on. */
  function Link(info: seq<byte>, second: seq<byte>, key: seq<byte>, tracker: seq<byte>, tail: seq<byte>): seq<byte>
  {
    MAGNET_PREFIX + (Hex.EncodeToString(info) + [AMPERSAND] + (second + [AMPERSAND] + (key + [EQUALS] + UrlEncode.PercentEncode(tracker) + tail)))
  }

  /** Percent-encoding leaves no `&` and no `=`. */
  lemma {:induction false} EncodedAvoidsDelimiters(d: seq<byte>)
    ensures AMPERSAND !in UrlEncode.PercentEncode(d) && EQUALS !in UrlEncode.PercentEncode(d)
  {
    if d != [] {
      EncodedAvoidsDelimiters(d[1..]);
      var e := UrlEncode.Escape(d[0]);
      if !UrlEncode.IsUnreserved(d[0]) {
        Hex.DigitsAreHexChars(d[0] / 16);
        Hex.DigitsAreHexChars(d[0] % 16);
        assert e == [UrlEncode.PERCENT, Hex.UpperDigit(d[0] / 16), Hex.UpperDigit(d[0] % 16)];
      }
      assert AMPERSAND !in e && EQUALS !in e;
    }
  }

  /** Hex text holds no `&`. */
  lemma HexAvoidsAmpersand(info: seq<byte>)
    ensures AMPERSAND !in Hex.EncodeToString(info)
  {
    Hex.DecodeEncoded(info);
    var h := Hex.EncodeToString(info);
    assert forall i :: 0 <= i < |h| ==> Hex.IsHexChar(h[i]);
  }

  /**
   * Parsing a well-formed link sets the tracker URL, the hex info hash and
   * its bytes, whatever the second segment and the key of the third say: the
   * parse is by position.
   */
  lemma ParseLink(info: seq<byte>, second: seq<byte>, key: seq<byte>, tracker: seq<byte>, tail: seq<byte>, f: Fields)
    requires AMPERSAND !in second && AMPERSAND !in key && EQUALS !in key
    requires tail == [] || tail[0] == AMPERSAND
    requires f.link == Link(info, second, key, tracker, tail)
    ensures ParseSpec(f) == (Success, f.(url := tracker, infoHash := Hex.EncodeToString(info), infoHashDecoded := info))
  {
    var hash := Hex.EncodeToString(info);
    var encoded := UrlEncode.PercentEncode(tracker);
    var third := key + [EQUALS] + encoded;
    var after := hash + [AMPERSAND] + (second + [AMPERSAND] + (third + tail));
    assert CutPrefix(f.link, MAGNET_PREFIX) == (after, true);
    HexAvoidsAmpersand(info);
    EncodedAvoidsDelimiters(tracker);
    ThreeSegments(hash, second, third, tail);
    SplitAfterPiece(key, EQUALS, encoded);
    SplitWithoutSeparator(encoded, EQUALS);
    UrlEncode.UnescapePercentEncode(tracker);
    Hex.DecodeEncoded(info);
  }

  /** Splitting three `&`-free segments followed by an empty or `&`-led tail. */
  lemma ThreeSegments(a: seq<byte>, b: seq<byte>, c: seq<byte>, tail: seq<byte>)
    requires AMPERSAND !in a && AMPERSAND !in b && AMPERSAND !in c
    requires tail == [] || tail[0] == AMPERSAND
    ensures var parts := Split(a + [AMPERSAND] + (b + [AMPERSAND] + (c + tail)), AMPERSAND);
      |parts| >= 3 && parts[0] == a && parts[1] == b && parts[2] == c
  {
    var last := LastSegment(c, tail);
    SplitAfterPiece(b, AMPERSAND, c + tail);
    SplitAfterPiece(a, AMPERSAND, b + [AMPERSAND] + (c + tail));
  }

  /** The split of an `&`-free segment followed by an empty or `&`-led tail starts with that segment. */
  lemma LastSegment(c: seq<byte>, tail: seq<byte>) returns (last: seq<seq<byte>>)
    requires AMPERSAND !in c
    requires tail == [] || tail[0] == AMPERSAND
    ensures last == Split(c + tail, AMPERSAND) && |last| >= 1 && last[0] == c
  {
    if tail == [] {
      assert c + tail == c;
      SplitWithoutSeparator(c, AMPERSAND);
    } else {
      assert c + tail == c + [AMPERSAND] + tail[1..];
      SplitAfterPiece(c, AMPERSAND, tail[1..]);
    }
    last := Split(c + tail, AMPERSAND);
  }

  /** A link with the prefix but fewer than three segments makes Parse panic, with nothing assigned. */
  lemma MissingSegmentsPanic(info: seq<byte>, f: Fields)
    requires f.link == MAGNET_PREFIX + Hex.EncodeToString(info)
    ensures ParseSpec(f) == (Panic, f)
  {
    HexAvoidsAmpersand(info);
    assert CutPrefix(f.link, MAGNET_PREFIX) == (Hex.EncodeToString(info), true);
    SplitWithoutSeparator(Hex.EncodeToString(info), AMPERSAND);
  }
}
