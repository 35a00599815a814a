/**
 * The peer-wire messages of `protocol/types.go` (and their copy in
 * `types.go`), after the peer protocol section of BEP 3: the 68-byte
 * handshake, the length-prefixed message header, and the 17-byte `request`
 * message that `binary.Write` makes of the whole PeerMessage struct.
 */
module Messages {
  import opened Wrappers
  import opened Binary

  /** The 8 reserved bytes of a handshake (a Go `[8]byte`). */
  type Reserved = r: seq<byte> | |r| == 8 witness Zeros(8)

  datatype Handshake = Handshake(length: byte, protocol: seq<byte>, resv: Reserved, info: seq<byte>, peerId: seq<byte>)

  /** Handshake.encode: the length byte, the protocol name, the reserved bytes, the info hash and the peer id, in that order. */
  function EncodeHandshake(h: Handshake): (r: seq<byte>)
    ensures |r| == 9 + |h.protocol| + |h.info| + |h.peerId|
  {
    [h.length] + h.protocol + h.resv + h.info + h.peerId
  }

  /**
   * DestructureHandshakeResponse on `response`, a slice whose backing array
   * goes on with the bytes `spare`: `response[0]` needs a byte within the
   * length, while the slices up to `[48:68]` are checked against the capacity
   * only, so they read on into `spare`.  None is the panic.  The reserved
   * field is always zero, whatever the peer sent.
   */
  function DestructureHandshakeResponse(response: seq<byte>, spare: seq<byte>): (r: Option<Handshake>)
    ensures r.Some? <==> |response| >= 1 && |response| + |spare| >= 68
    ensures r.Some? ==> r.value.resv == Zeros(8) && WellSized(r.value)
  {
    var backing := response + spare;
    if |response| == 0 || |backing| < 68 then None
    else Some(Handshake(backing[0], backing[1..20], Zeros(8), backing[28..48], backing[48..68]))
  }

  /** A handshake of the BEP 3 shape: a 19-byte protocol name and 20-byte info hash and peer id. */
  predicate WellSized(h: Handshake)
  {
    |h.protocol| == 19 && |h.info| == 20 && |h.peerId| == 20
  }

  /** A well-sized handshake encodes to 68 bytes. */
  lemma WellSizedIs68(h: Handshake)
    requires WellSized(h)
    ensures |EncodeHandshake(h)| == 68
  {
  }

  /** The encoding places each field at its fixed offset. */
  lemma HandshakeLayout(h: Handshake)
    requires WellSized(h)
    ensures var r := EncodeHandshake(h);
      && r[0] == h.length && r[1..20] == h.protocol && r[20..28] == h.resv
      && r[28..48] == h.info && r[48..68] == h.peerId
  {
    var r := EncodeHandshake(h);
    var head := [h.length] + h.protocol + h.resv + h.info;
    assert r == head + h.peerId && |head| == 48;
    assert r[1..20] == h.protocol;
    assert r[20..28] == h.resv;
    assert r[28..48] == h.info;
    assert r[48..68] == r[|head|..];
  }

  /**
   * Destructuring an encoded handshake recovers every field except the
   * reserved bytes, which come back as zeros, whatever follows the slice.
   */
  lemma DestructureEncoded(h: Handshake, spare: seq<byte>)
    requires WellSized(h)
    ensures DestructureHandshakeResponse(EncodeHandshake(h), spare) == Some(h.(resv := Zeros(8)))
  {
    HandshakeLayout(h);
    var r := EncodeHandshake(h);
    var b := r + spare;
    assert b[..68] == r;
    assert b[0] == r[0] && b[1..20] == r[1..20] && b[28..48] == r[28..48] && b[48..68] == r[48..68];
  }

  /** Once the response holds 68 bytes, neither what follows them nor the rest of the buffer matters. */
  lemma DestructureIgnoresTail(response: seq<byte>, more: seq<byte>, spare: seq<byte>, spare': seq<byte>)
    requires |response| >= 68
    ensures DestructureHandshakeResponse(response + more, spare) == DestructureHandshakeResponse(response, spare')
  {
    var r, r' := response + more + spare, response + spare';
    assert r[..68] == response[..68] == r'[..68];
    assert r[1..20] == r[..68][1..20] && r'[1..20] == r'[..68][1..20];
    assert r[28..48] == r[..68][28..48] && r'[28..48] == r'[..68][28..48];
    assert r[48..68] == r[..68][48..68] && r'[48..68] == r'[..68][48..68];
  }

  /**
   * A response read into a zeroed 68-byte buffer, as the handshake reads it:
   * only an empty response panics, and the fields the peer did not send come
   * back as zeros.
   */
  lemma ShortResponseZeroFilled(response: seq<byte>)
    requires |response| <= 68
    ensures var r := DestructureHandshakeResponse(response, Zeros(68 - |response|));
      && (r.None? <==> response == [])
      && (r.Some? && |response| <= 48 ==> r.value.peerId == Zeros(20))
      && (r.Some? && |response| <= 28 ==> r.value.info == Zeros(20))
  {
    var backing := response + Zeros(68 - |response|);
    if |response| <= 48 {
      assert backing[48..68] == Zeros(68 - |response|)[48 - |response| .. 68 - |response|];
    }
    if |response| <= 28 {
      assert backing[28..48] == Zeros(68 - |response|)[28 - |response| .. 48 - |response|];
    }
  }

  /** PeerMessage; its index, begin and block fields are only written by `binary.Write`. */
  datatype PeerMessage = PeerMessage(length: uint32, id: byte, index: uint32, begin: uint32, block: uint32)

  /**
   * PeerMessage.encode: the big-endian Length as given (not derived from what
   * follows) and the Id; the other three fields are never emitted.
   */
  function EncodeMessage(m: PeerMessage): (r: seq<byte>)
    ensures |r| == 5
    ensures Uint32Of(r[..4]) == m.length && r[4] == m.id
  {
    ReadBackBigEndian32(m.length);
    assert (BigEndian32(m.length) + [m.id])[..4] == BigEndian32(m.length);
    BigEndian32(m.length) + [m.id]
  }

  /** Reading a 5-byte header: the big-endian length and the id. */
  function ParseHeader(b: seq<byte>): (uint32, byte)
    requires |b| == 5
  {
    (Uint32Of(b[..4]), b[4])
  }

  /** Every 5-byte header is the encoding of the length and id it reads as. */
  lemma EncodeParsedHeader(b: seq<byte>)
    requires |b| == 5
    ensures EncodeMessage(PeerMessage(ParseHeader(b).0, ParseHeader(b).1, 0, 0, 0)) == b
  {
    BigEndian32OfBytes(b[..4]);
    assert b == b[..4] + [b[4]];
  }

  /** Two messages with the same Length and Id encode the same, whatever their other fields. */
  lemma EncodeIgnoresPayloadFields(m: PeerMessage, m': PeerMessage)
    ensures EncodeMessage(m) == EncodeMessage(m') <==> m.length == m'.length && m.id == m'.id
  {
  }

  const INTERESTED_MESSAGE: PeerMessage := PeerMessage(5, 2, 0, 0, 0)

  /** The interested message as the download sends it: Length 5, Id 2. */
  lemma InterestedBytes()
    ensures EncodeMessage(INTERESTED_MESSAGE) == [0, 0, 0, 5, 2]
  {
  }

  /**
   * `binary.Write(&buf, binary.BigEndian, peerMessage)`: all five fields in
   * declaration order, the four uint32s big-endian.
   */
  function Serialize(m: PeerMessage): (r: seq<byte>)
    ensures |r| == 17
  {
    BigEndian32(m.length) + [m.id] + BigEndian32(m.index) + BigEndian32(m.begin) + BigEndian32(m.block)
  }

  /** Each field of a serialized message reads back from its offset. */
  lemma SerializeReadsBack(m: PeerMessage)
    ensures var r := Serialize(m);
      && Uint32Of(r[0..4]) == m.length && r[4] == m.id
      && Uint32Of(r[5..9]) == m.index && Uint32Of(r[9..13]) == m.begin && Uint32Of(r[13..17]) == m.block
  {
    var r := Serialize(m);
    assert r[0..4] == BigEndian32(m.length);
    assert r[5..9] == BigEndian32(m.index);
    assert r[9..13] == BigEndian32(m.begin);
    assert r[13..17] == BigEndian32(m.block);
    ReadBackBigEndian32(m.length);
    ReadBackBigEndian32(m.index);
    ReadBackBigEndian32(m.begin);
    ReadBackBigEndian32(m.block);
  }

  /** The request for a block: Length 13 (id and three uint32s), Id 6, and the three fields converted with `uint32(...)`. */
  function RequestMessage(index: int, begin: int, block: int): (m: PeerMessage)
    ensures m.length == 13 && m.id == 6
  {
    PeerMessage(13, 6, ToUint32(index), ToUint32(begin), ToUint32(block))
  }

  /**
   * The 17 bytes of a request: Length 13, which counts exactly the bytes after
   * the 4-byte prefix, Id 6, then the index, begin and block length as Go's
   * `uint32(...)` conversions make them.
   */
  lemma RequestLengthCountsPayload(index: int, begin: int, block: int)
    ensures var r := Serialize(RequestMessage(index, begin, block));
      && Uint32Of(r[0..4]) == |r| - 4 && r[4] == 6
      && Uint32Of(r[5..9]) == ToUint32(index) && Uint32Of(r[9..13]) == ToUint32(begin) && Uint32Of(r[13..17]) == ToUint32(block)
  {
    SerializeReadsBack(RequestMessage(index, begin, block));
  }
}
