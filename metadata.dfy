/**
 * `decodeFile` of `main.go`: the torrent file's bytes are decoded as one
 * bencoded value, and the fields of the metadata are copied out of the
 * resulting dictionary one by one, each only when it has the expected kind.
 * Also the piece-index check of the `download_piece` command.
 */
module Metadata {
  import opened Wrappers
  import opened Binary
  import opened Bencode
  import opened BencodeEncoding
  import opened Torrent
  import Utf8
  import Protocol

  /** A text field: set only when the key holds a string that decoded as text. */
  function TextField(m: map<seq<byte>, Value>, key: seq<byte>): (r: seq<byte>)
    ensures r != [] ==> key in m && m[key] == Str(r)
  {
    if key in m && m[key].Str? then m[key].text else []
  }

  /** An integer field: set only when the key holds an integer. */
  function IntField(m: map<seq<byte>, Value>, key: seq<byte>): (r: int)
    ensures r != 0 ==> key in m && m[key] == Int(r)
  {
    if key in m && m[key].Int? then m[key].n else 0
  }

  /** A byte-string field: set only when the key holds a string that is not valid UTF-8. */
  function BytesField(m: map<seq<byte>, Value>, key: seq<byte>): (r: seq<byte>)
    ensures r != [] ==> key in m && m[key] == Bytes(r)
  {
    if key in m && m[key].Bytes? then m[key].raw else []
  }

  /** The info dictionary as decodeFile fills it from the decoded `info` map. */
  function InfoOf(m: map<seq<byte>, Value>): InfoDict
  {
    InfoDict(IntField(m, KEY_LENGTH), TextField(m, KEY_NAME), IntField(m, KEY_PIECE_LENGTH), BytesField(m, KEY_PIECES))
  }

  /** The metadata as decodeFile fills it from the top-level value; anything but a dictionary gives zero values. */
  function MetadataOf(v: Value): TorrentMetadata
  {
    if !v.Dict? then ZERO_METADATA
    else
      var m := v.entries;
      TorrentMetadata(TextField(m, KEY_ANNOUNCE),
        if KEY_INFO in m && m[KEY_INFO].Dict? then InfoOf(m[KEY_INFO].entries) else ZERO_INFO)
  }

  /**
   * decodeFile on the file's bytes: a decode error is returned; bytes left
   * after the top-level value give zero metadata and no error (the error
   * wrapped there is the nil one of the successful decode).
   */
  function DecodeFileSpec(content: seq<byte>): Result<TorrentMetadata, Error>
  {
    match Parsed(content)
    case Err(e) => Err(e)
    case Ok(d) => if d.rest != [] then Ok(ZERO_METADATA) else Ok(MetadataOf(d.value))
  }

  method DecodeFile(content: seq<byte>) returns (r: Result<TorrentMetadata, Error>)
    ensures r == DecodeFileSpec(content)
  {
    var decoded := DecodeBencode(content);
    if decoded.Err? {
      return Err(decoded.error);
    }
    if decoded.value.rest != [] {
      return Ok(ZERO_METADATA);
    }
    if !decoded.value.value.Dict? {
      return Ok(ZERO_METADATA);
    }
    var decodedMap := decoded.value.value.entries;
    var metadata := ZERO_METADATA;
    if KEY_ANNOUNCE in decodedMap && decodedMap[KEY_ANNOUNCE].Str? {
      metadata := metadata.(announce := decodedMap[KEY_ANNOUNCE].text);
    }
    if KEY_INFO in decodedMap && decodedMap[KEY_INFO].Dict? {
      var infoMap := decodedMap[KEY_INFO].entries;
      var infoDict := ZERO_INFO;
      if KEY_LENGTH in infoMap && infoMap[KEY_LENGTH].Int? {
        infoDict := infoDict.(length := infoMap[KEY_LENGTH].n);
      }
      if KEY_NAME in infoMap && infoMap[KEY_NAME].Str? {
        infoDict := infoDict.(name := infoMap[KEY_NAME].text);
      }
      if KEY_PIECE_LENGTH in infoMap && infoMap[KEY_PIECE_LENGTH].Int? {
        infoDict := infoDict.(pieceLength := infoMap[KEY_PIECE_LENGTH].n);
      }
      if KEY_PIECES in infoMap && infoMap[KEY_PIECES].Bytes? {
        infoDict := infoDict.(pieces := infoMap[KEY_PIECES].raw);
      }
      metadata := metadata.(info := infoDict);
    }
    return Ok(metadata);
  }

  /** decodeFile fails exactly when the decode of the file fails, with the same error. */
  lemma DecodeErrorsPassThrough(content: seq<byte>)
    ensures DecodeFileSpec(content).Err? <==> Parsed(content).Err?
    ensures DecodeFileSpec(content).Err? ==> DecodeFileSpec(content).error == Parsed(content).error
  {
  }

  /** A complete value followed by more bytes gives zero metadata and no error, whatever the value. */
  lemma TrailingBytesGiveZeroMetadata(t: Term, rest: seq<byte>)
    requires rest != []
    ensures DecodeFileSpec(Encode(t) + rest) == Ok(ZERO_METADATA)
  {
    ParsedEncode(t, rest);
  }

  /** A file holding one complete value that is not a dictionary gives zero metadata and no error. */
  lemma NonDictionaryGivesZeroMetadata(t: Term)
    requires !t.TDict?
    ensures DecodeFileSpec(Encode(t)) == Ok(ZERO_METADATA)
  {
    ParsedEncodeExactly(t);
  }

  /** Keys decodeFile does not look at (such as `created by`) make no difference. */
  lemma OtherKeysIgnored(m: map<seq<byte>, Value>, key: seq<byte>, v: Value)
    requires key != KEY_ANNOUNCE && key != KEY_INFO
    ensures MetadataOf(Dict(m[key := v])) == MetadataOf(Dict(m))
  {
  }

  /** Keys of the info dictionary other than the four fields make no difference. */
  lemma OtherInfoKeysIgnored(m: map<seq<byte>, Value>, key: seq<byte>, v: Value)
    requires key != KEY_LENGTH && key != KEY_NAME && key != KEY_PIECE_LENGTH && key != KEY_PIECES
    ensures InfoOf(m[key := v]) == InfoOf(m)
  {
  }

  /** A torrent file's top level as a bencoded term: the announce URL and the info dictionary. */
  function MetadataTerm(md: TorrentMetadata): Term
  {
    TDict([Entry(KEY_ANNOUNCE, TStr(md.announce)), Entry(KEY_INFO, InfoTerm(md.info))])
  }

  /**
   * What survives decodeFile of an encoded torrent: text fields only when
   * they are valid UTF-8, and the pieces only when they are not.
   */
  function Kept(md: TorrentMetadata): TorrentMetadata
  {
    TorrentMetadata(
      if Utf8.Valid(md.announce) then md.announce else [],
      InfoDict(md.info.length, if Utf8.Valid(md.info.name) then md.info.name else [],
        md.info.pieceLength, if Utf8.Valid(md.info.pieces) then [] else md.info.pieces))
  }

  /**
   * decodeFile of an encoded torrent file gives back its fields, except that
   * announce and name survive only as valid UTF-8 and the pieces only when
   * they are not valid UTF-8.
   */
  lemma DecodeFileOfEncoded(md: TorrentMetadata)
    ensures DecodeFileSpec(Encode(MetadataTerm(md))) == Ok(Kept(md))
  {
    ParsedEncodeExactly(MetadataTerm(md));
    ExpectedMetadataTerm(md);
    ExpectedInfoTerm(md.info);
    KeysDistinct();
  }

  /** What the decoder must give for the top-level term: the two-key map. */
  lemma ExpectedMetadataTerm(md: TorrentMetadata)
    ensures Expected(MetadataTerm(md)) == Dict(map[KEY_ANNOUNCE := StringValue(md.announce)] + map[KEY_INFO := Expected(InfoTerm(md.info))])
  {
    var es := MetadataTerm(md).entries;
    var last := es[1..];
    assert last[1..] == [] && last[0] == es[1];
    var m := map[KEY_INFO := Expected(InfoTerm(md.info))];
    assert ExpectedEntries(last) == m + ExpectedEntries([]);
    assert m + map[] == m;
    assert ExpectedEntries(es) == map[KEY_ANNOUNCE := Expected(TStr(md.announce))] + ExpectedEntries(last);
  }

  /** A torrent whose text fields are UTF-8 and whose pieces are not comes back whole. */
  lemma DecodeFileRoundTrip(md: TorrentMetadata)
    requires Utf8.Valid(md.announce) && Utf8.Valid(md.info.name) && !Utf8.Valid(md.info.pieces)
    ensures DecodeFileSpec(Encode(MetadataTerm(md))) == Ok(md)
  {
    DecodeFileOfEncoded(md);
  }

  /** Pieces that happen to be valid UTF-8 decode as text and are lost. */
  lemma TextPiecesAreDropped(md: TorrentMetadata)
    requires Utf8.Valid(md.info.pieces)
    ensures DecodeFileSpec(Encode(MetadataTerm(md))).Ok?
    ensures DecodeFileSpec(Encode(MetadataTerm(md))).value.info.pieces == []
  {
    DecodeFileOfEncoded(md);
  }

  // ---------------------------------------------------------------------------
  // The piece-index check of download_piece
  // ---------------------------------------------------------------------------

  /**
   * main's check before download_piece, on pieces whose backing array goes
   * on with `spare`: splitPiecesIntoHashes (None: it panicked), then the
   * index must name one of the hashes it cut out.
   */
  function PieceIndexCheck(pieces: seq<byte>, spare: seq<byte>, index: int): Option<bool>
  {
    match PieceHashes(pieces, spare)
    case None => None
    case Some(hashes) => Some(!(index >= |hashes| || index < 0))
  }

  /**
   * The check panics exactly when the capacity ends inside the last hash,
   * and otherwise accepts exactly the indices of the hashes started, a short
   * last one included; with whole hashes only, it never panics.
   */
  lemma PieceIndexAcceptedRange(pieces: seq<byte>, spare: seq<byte>, index: int)
    ensures PieceIndexCheck(pieces, spare, index).None? <==> |pieces| + |spare| < 20 * HashCount(|pieces|)
    ensures PieceIndexCheck(pieces, spare, index) == Some(true) <==>
      20 * HashCount(|pieces|) <= |pieces| + |spare| && 0 <= index < HashCount(|pieces|)
    ensures |pieces| % 20 == 0 ==> PieceIndexCheck(pieces, spare, index) == Some(0 <= index < |pieces| / 20)
  {
    if |pieces| % 20 == 0 {
      WholeHashesIgnoreSpare(pieces, spare, spare);
    }
  }

  /**
   * When the torrent lists one hash per piece, main's check is stricter than
   * the one inside DownloadPiece: whatever it accepts DownloadPiece accepts,
   * but when the length is a whole number of pieces it rejects (or panics on)
   * the index one past the last piece, which DownloadPiece lets through.
   */
  lemma MainCheckIsStricter(info: InfoDict, spare: seq<byte>, index: int)
    requires info.length >= 0 && info.pieceLength > 0
    requires HashCount(|info.pieces|) == Protocol.PieceCount(info)
    ensures PieceIndexCheck(info.pieces, spare, index) == Some(true) ==> Protocol.IndexAccepted(info, index)
    ensures info.length % info.pieceLength == 0 ==>
      PieceIndexCheck(info.pieces, spare, Protocol.PieceCount(info)) != Some(true) && Protocol.IndexAccepted(info, Protocol.PieceCount(info))
  {
    PieceIndexAcceptedRange(info.pieces, spare, index);
    PieceIndexAcceptedRange(info.pieces, spare, Protocol.PieceCount(info));
    if PieceIndexCheck(info.pieces, spare, index) == Some(true) {
      Protocol.GuardAcceptsEveryPiece(info, index);
    }
    if info.length % info.pieceLength == 0 {
      Protocol.GuardAcceptsIndexPastEnd(info);
    }
  }
}
