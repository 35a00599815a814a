/**
 * The tracker-request helpers of `protocol/urlEncode.go` (and their copy in
 * `urlEncode.go`): percent-encoding of the hex info hash after sections 2.1
 * and 2.3 of RFC 3986, the compact peer list of BEP 23, and Go's
 * `url.QueryUnescape`, which undoes the percent-encoding.
 */
module UrlEncode {
  import opened Wrappers
  import opened Binary
  import opened Decimal
  import opened Strings
  import Hex

  const PERCENT: byte := 37
  const PLUS_SIGN: byte := 43
  const SPACE: byte := 32
  const DOT: byte := 46
  const PORT_COLON: byte := 58

  /**
   * The unreserved set of section 2.3 of RFC 3986, written over characters:
   * ALPHA, DIGIT, '-', '.', '_' and '~'.
   */
  predicate RfcUnreserved(c: char)
  {
    ('A' <= c <= 'Z') || ('a' <= c <= 'z') || ('0' <= c <= '9') || c in "-._~"
  }

  /** isUnreserved: the characters that percent-encoding leaves as they are. */
  predicate IsUnreserved(b: byte)
  {
    || (97 <= b <= 122)
    || (65 <= b <= 90)
    || (48 <= b <= 57)
    || b == 45 || b == 95
    || b == 46 || b == 126
  }

  /** isUnreserved holds exactly for the bytes of the unreserved set. */
  lemma UnreservedIsRfcSet(b: byte)
    ensures IsUnreserved(b) <==> RfcUnreserved(b as char)
  {
  }

  /** How one byte is written: itself when unreserved, otherwise `%` and two uppercase hex digits. */
  function Escape(b: byte): (r: seq<byte>)
    ensures IsUnreserved(b) ==> r == [b]
    ensures !IsUnreserved(b) ==>
      && |r| == 3 && r[0] == PERCENT
      && Hex.IsUpperHexChar(r[1]) && Hex.IsUpperHexChar(r[2])
      && Hex.IsHexChar(r[1]) && Hex.IsHexChar(r[2]) && Hex.HexValue(r[1]) * 16 + Hex.HexValue(r[2]) == b
  {
    if IsUnreserved(b) then [b]
    else
      Hex.DigitsAreHexChars(b / 16);
      Hex.DigitsAreHexChars(b % 16);
      [PERCENT] + Hex.UpperPair(b)
  }

  /** The percent-encoding of a byte string, byte by byte in order. */
  function PercentEncode(d: seq<byte>): (r: seq<byte>)
    ensures |d| <= |r| <= 3 * |d|
  {
    if d == [] then [] else Escape(d[0]) + PercentEncode(d[1..])
  }

  lemma {:induction false} PercentEncodeAppend(d: seq<byte>, b: byte)
    ensures PercentEncode(d + [b]) == PercentEncode(d) + Escape(b)
  {
    if d == [] {
      assert [] + [b] == [b];
      assert [b][1..] == [];
    } else {
      assert (d + [b])[1..] == d[1..] + [b];
      PercentEncodeAppend(d[1..], b);
    }
  }

  /** The number of unreserved bytes. */
  function CountUnreserved(d: seq<byte>): (n: nat)
    ensures n <= |d|
  {
    if d == [] then 0 else (if IsUnreserved(d[0]) then 1 else 0) + CountUnreserved(d[1..])
  }

  /** One output byte per unreserved byte, three per other byte. */
  lemma {:induction false} PercentEncodeLength(d: seq<byte>)
    ensures |PercentEncode(d)| == CountUnreserved(d) + 3 * (|d| - CountUnreserved(d))
  {
    if d != [] {
      PercentEncodeLength(d[1..]);
    }
  }

  /**
   * urlEncodeWithConversion: hex-decode the input, then percent-encode the
   * bytes; the empty string when the input is not hex.
   */
  function UrlEncodeSpec(input: seq<byte>): (r: seq<byte>)
    ensures |r| <= 3 * (|input| / 2)
  {
    match Hex.DecodeString(input)
    case None => []
    case Some(data) => PercentEncode(data)
  }

  method UrlEncodeWithConversion(input: seq<byte>) returns (r: seq<byte>)
    ensures r == UrlEncodeSpec(input)
    ensures Hex.DecodeString(input).None? ==> r == []
  {
    var decoded := Hex.DecodeString(input);
    if decoded.None? {
      return [];
    }
    var data := decoded.value;
    var result := [];
    for i := 0 to |data|
      invariant result == PercentEncode(data[..i])
    {
      assert data[..i + 1] == data[..i] + [data[i]];
      PercentEncodeAppend(data[..i], data[i]);
      if IsUnreserved(data[i]) {
        result := result + [data[i]];
      } else {
        result := result + [PERCENT] + Hex.UpperPair(data[i]);
      }
    }
    assert data[..|data|] == data;
    return result;
  }

  /**
   * Go's `url.QueryUnescape`: `%` and two hex digits (either case) become
   * that byte, `+` becomes a space, every other byte stays; a `%` not
   * followed by two hex digits is an error.
   */
  function QueryUnescape(s: seq<byte>): (r: Option<seq<byte>>)
    ensures r.Some? ==> |r.value| <= |s|
  {
    if s == [] then Some([])
    else if s[0] == PERCENT then
      if |s| < 3 || !Hex.IsHexChar(s[1]) || !Hex.IsHexChar(s[2]) then None
      else Prepend(Hex.HexValue(s[1]) * 16 + Hex.HexValue(s[2]), QueryUnescape(s[3..]))
    else if s[0] == PLUS_SIGN then Prepend(SPACE, QueryUnescape(s[1..]))
    else Prepend(s[0], QueryUnescape(s[1..]))
  }

  /** The byte at `i` is a `%` that is not followed by two hex digits. */
  predicate BadEscapeAt(s: seq<byte>, i: int)
    requires 0 <= i < |s|
  {
    s[i] == PERCENT && !(i + 2 < |s| && Hex.IsHexChar(s[i + 1]) && Hex.IsHexChar(s[i + 2]))
  }

  /**
   * QueryUnescape fails exactly when some `%` of its input lacks two hex
   * digits after it (no `%` can hide inside an escape, since `%` is no hex
   * digit).
   */
  lemma {:induction false} UnescapeFailsOnBadEscape(s: seq<byte>)
    ensures QueryUnescape(s).None? <==> exists i :: 0 <= i < |s| && BadEscapeAt(s, i)
    decreases |s|
  {
    if s != [] {
      var escape := s[0] == PERCENT && |s| >= 3 && Hex.IsHexChar(s[1]) && Hex.IsHexChar(s[2]);
      if s[0] == PERCENT && !escape {
        assert BadEscapeAt(s, 0);
      } else {
        var d := if escape then 3 else 1;
        var t := s[d..];
        UnescapeFailsOnBadEscape(t);
        assert forall i :: 0 <= i < d ==> !BadEscapeAt(s, i);
        if exists i :: 0 <= i < |s| && BadEscapeAt(s, i) {
          var i :| 0 <= i < |s| && BadEscapeAt(s, i);
          assert BadEscapeAt(t, i - d);
        }
        if exists j :: 0 <= j < |t| && BadEscapeAt(t, j) {
          var j :| 0 <= j < |t| && BadEscapeAt(t, j);
          assert BadEscapeAt(s, j + d);
        }
      }
    }
  }

  function Prepend(b: byte, r: Option<seq<byte>>): (r': Option<seq<byte>>)
    ensures r'.Some? <==> r.Some?
    ensures r.Some? ==> r'.value == [b] + r.value
  {
    match r
    case None => None
    case Some(t) => Some([b] + t)
  }

  /** Unescaping one escaped byte gives the byte back and continues after it. */
  lemma UnescapeEscape(b: byte, rest: seq<byte>)
    ensures QueryUnescape(Escape(b) + rest) == Prepend(b, QueryUnescape(rest))
  {
    var s := Escape(b) + rest;
    if IsUnreserved(b) {
      assert s[0] == b && s[1..] == rest;
    } else {
      Hex.DigitsAreHexChars(b / 16);
      Hex.DigitsAreHexChars(b % 16);
      assert s[1] == Hex.UpperDigit(b / 16) && s[2] == Hex.UpperDigit(b % 16);
      assert s[3..] == rest;
    }
  }

  /** Percent-decoding the output of the encoder gives back the bytes it encoded. */
  lemma {:induction false} UnescapePercentEncode(d: seq<byte>)
    ensures QueryUnescape(PercentEncode(d)) == Some(d)
  {
    if d != [] {
      UnescapePercentEncode(d[1..]);
      UnescapeEscape(d[0], PercentEncode(d[1..]));
      assert [d[0]] + d[1..] == d;
    }
  }

  /** The round trip of urlEncodeWithConversion: unescaping its output gives the hex-decoded input. */
  lemma UrlEncodeRoundTrip(input: seq<byte>)
    requires Hex.DecodeString(input).Some?
    ensures QueryUnescape(UrlEncodeSpec(input)) == Some(Hex.DecodeString(input).value)
  {
    UnescapePercentEncode(Hex.DecodeString(input).value);
  }

  // ----- compact peers (BEP 23) -----

  datatype PeerError = InvalidPeerLength | InvalidPeersLength

  /** `%d.%d.%d.%d:%d` of the four address bytes and the port. */
  function PeerText(peer: seq<byte>): seq<byte>
    requires |peer| == 6
  {
    NatText(peer[0]) + [DOT] + NatText(peer[1]) + [DOT] + NatText(peer[2]) + [DOT] + NatText(peer[3])
    + [PORT_COLON] + NatText(Port(peer))
  }

  /** The port: the last two bytes, big-endian. */
  function Port(peer: seq<byte>): (p: nat)
    requires |peer| == 6
    ensures p <= 65535
  {
    (peer[4] as int) * 256 + peer[5]
  }

  /** decodePeer: only a 6-byte entry is a peer. */
  function DecodePeer(peer: seq<byte>): (r: Result<seq<byte>, PeerError>)
    ensures r.Ok? <==> |peer| == 6
    ensures r.Err? ==> r.error == InvalidPeerLength
  {
    if |peer| != 6 then Err(InvalidPeerLength) else Ok(PeerText(peer))
  }

  /** A decimal below `bound`, read back. */
  function ParseBelow(text: seq<byte>, bound: nat): (r: Option<nat>)
    ensures r.Some? ==> r.value < bound
  {
    match Atoi(text)
    case Some(n) => if 0 <= n < bound then Some(n) else None
    case None => None
  }

  lemma ParseBelowNatText(n: nat, bound: nat)
    requires n < bound
    ensures ParseBelow(NatText(n), bound) == Some(n)
  {
    AtoiOfIntText(n);
  }

  /** Reading a rendered peer back: split at ':' and '.', then parse each decimal. */
  function ParsePeer(text: seq<byte>): Option<seq<byte>>
  {
    var hostPort := Split(text, PORT_COLON);
    if |hostPort| != 2 then None
    else
      var octets := Split(hostPort[0], DOT);
      if |octets| != 4 then None
      else
        var a, b, c, d := ParseBelow(octets[0], 256), ParseBelow(octets[1], 256), ParseBelow(octets[2], 256), ParseBelow(octets[3], 256);
        var p := ParseBelow(hostPort[1], 65536);
        if a.None? || b.None? || c.None? || d.None? || p.None? then None
        else Some([a.value, b.value, c.value, d.value, p.value / 256, p.value % 256])
  }

  lemma DigitsHoldNoSeparator(n: nat, sep: byte)
    requires !IsDigit(sep)
    ensures sep !in NatText(n)
  {
  }

  /** The address part of a rendered peer. */
  function HostText(peer: seq<byte>): seq<byte>
    requires |peer| == 6
  {
    NatText(peer[0]) + [DOT] + NatText(peer[1]) + [DOT] + NatText(peer[2]) + [DOT] + NatText(peer[3])
  }

  /** The rendering splits at ':' into the address and the port. */
  lemma SplitPeerText(peer: seq<byte>)
    requires |peer| == 6
    ensures Split(PeerText(peer), PORT_COLON) == [HostText(peer), NatText(Port(peer))]
  {
    var host, tp := HostText(peer), NatText(Port(peer));
    assert PeerText(peer) == host + [PORT_COLON] + tp;
    DigitsHoldNoSeparator(peer[0], PORT_COLON);
    DigitsHoldNoSeparator(peer[1], PORT_COLON);
    DigitsHoldNoSeparator(peer[2], PORT_COLON);
    DigitsHoldNoSeparator(peer[3], PORT_COLON);
    assert PORT_COLON !in host;
    DigitsHoldNoSeparator(Port(peer), PORT_COLON);
    SplitAfterPiece(host, PORT_COLON, tp);
    SplitWithoutSeparator(tp, PORT_COLON);
  }

  /** The address splits at '.' into the four decimals. */
  lemma SplitHostText(peer: seq<byte>)
    requires |peer| == 6
    ensures Split(HostText(peer), DOT) == [NatText(peer[0]), NatText(peer[1]), NatText(peer[2]), NatText(peer[3])]
  {
    var t0, t1, t2, t3 := NatText(peer[0]), NatText(peer[1]), NatText(peer[2]), NatText(peer[3]);
    DigitsHoldNoSeparator(peer[0], DOT);
    DigitsHoldNoSeparator(peer[1], DOT);
    DigitsHoldNoSeparator(peer[2], DOT);
    DigitsHoldNoSeparator(peer[3], DOT);
    var r2 := t2 + [DOT] + t3;
    var r1 := t1 + [DOT] + r2;
    assert HostText(peer) == t0 + [DOT] + r1;
    SplitWithoutSeparator(t3, DOT);
    SplitAfterPiece(t2, DOT, t3);
    SplitAfterPiece(t1, DOT, r2);
    SplitAfterPiece(t0, DOT, r1);
  }

  /** The rendering of a peer is read back to the same six bytes. */
  lemma ParsePeerText(peer: seq<byte>)
    requires |peer| == 6
    ensures ParsePeer(PeerText(peer)) == Some(peer)
  {
    SplitPeerText(peer);
    SplitHostText(peer);
    ParseBelowNatText(peer[0], 256);
    ParseBelowNatText(peer[1], 256);
    ParseBelowNatText(peer[2], 256);
    ParseBelowNatText(peer[3], 256);
    ParseBelowNatText(Port(peer), 65536);
    PortBytes(peer);
    var p := Port(peer);
    assert [peer[0], peer[1], peer[2], peer[3], p / 256, p % 256] == peer;
  }

  /** The port's high and low bytes are the last two bytes of the entry. */
  lemma PortBytes(peer: seq<byte>)
    requires |peer| == 6
    ensures Port(peer) / 256 == peer[4] && Port(peer) % 256 == peer[5]
  {
  }

  /** Distinct peers render differently. */
  lemma PeerTextInjective(a: seq<byte>, b: seq<byte>)
    requires |a| == 6 && |b| == 6
    ensures PeerText(a) == PeerText(b) <==> a == b
  {
    ParsePeerText(a);
    ParsePeerText(b);
  }

  /** decodePeers: a length that is a multiple of 6 gives one rendered peer per 6 bytes, in order. */
  function DecodePeersSpec(peers: seq<byte>): (r: Result<seq<seq<byte>>, PeerError>)
    ensures r.Ok? <==> |peers| % 6 == 0
    ensures r.Err? ==> r.error == InvalidPeersLength
    ensures r.Ok? ==> |r.value| == |peers| / 6
    ensures r.Ok? ==> forall k :: 0 <= k < |peers| / 6 ==> DecodePeer(peers[6 * k..6 * k + 6]) == Ok(r.value[k])
  {
    if |peers| % 6 != 0 then Err(InvalidPeersLength)
    else Ok(seq(|peers| / 6, k requires 0 <= k < |peers| / 6 => PeerText(peers[6 * k..6 * k + 6])))
  }

  method DecodePeers(peers: seq<byte>) returns (r: Result<seq<seq<byte>>, PeerError>)
    ensures r == DecodePeersSpec(peers)
  {
    if |peers| % 6 != 0 {
      return Err(InvalidPeersLength);
    }
    var peersList := [];
    var i := 0;
    while i < |peers|
      invariant 0 <= i <= |peers| && i % 6 == 0
      invariant |peersList| == i / 6
      invariant forall k :: 0 <= k < i / 6 ==> peersList[k] == PeerText(peers[6 * k..6 * k + 6])
    {
      var peer := DecodePeer(peers[i..i + 6]).value;
      peersList := peersList + [peer];
      i := i + 6;
    }
    assert peersList == DecodePeersSpec(peers).value;
    return Ok(peersList);
  }
}
