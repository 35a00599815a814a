/**
 * The metainfo types of `torrent/types.go` (and their copy in `types.go`):
 * the fixed-layout bencoding of the info dictionary and the info hash, the
 * SHA-1 digest of that bencoding (the `info_hash` of BEP 3).
 *
 * SHA-1 is not modelled: every operation that hashes takes the hash function
 * as a parameter `sha1`, about which nothing is assumed except that it returns
 * 20 bytes.
 */
module Torrent {
  import opened Wrappers
  import opened Binary
  import opened Decimal
  import opened Bencode
  import opened BencodeEncoding

  /** A SHA-1 digest: 20 bytes. */
  type Digest = d: seq<byte> | |d| == 20 witness Zeros(20)

  const KEY_ANNOUNCE: seq<byte> := Ascii("announce")
  const KEY_INFO: seq<byte> := Ascii("info")
  const KEY_LENGTH: seq<byte> := Ascii("length")
  const KEY_NAME: seq<byte> := Ascii("name")
  const KEY_PIECE_LENGTH: seq<byte> := Ascii("piece length")
  const KEY_PIECES: seq<byte> := Ascii("pieces")

  datatype InfoDict = InfoDict(length: int, name: seq<byte>, pieceLength: int, pieces: seq<byte>)

  datatype TorrentMetadata = TorrentMetadata(announce: seq<byte>, info: InfoDict)

  const ZERO_INFO: InfoDict := InfoDict(0, [], 0, [])
  const ZERO_METADATA: TorrentMetadata := TorrentMetadata([], ZERO_INFO)

  /**
   * EncodeInfoDict / encodeInfoDict: the format string
   * `d6:lengthi%de4:name%d:%s12:piece lengthi%de6:pieces%d:%se` filled with
   * the length, the byte length of the name, the name, the piece length, the
   * byte length of the pieces and the pieces.
   */
  function EncodeInfoDict(info: InfoDict): seq<byte>
  {
    Ascii("d6:lengthi") + IntText(info.length)
    + Ascii("e4:name") + IntText(|info.name|) + Ascii(":") + info.name
    + Ascii("12:piece lengthi") + IntText(info.pieceLength)
    + Ascii("e6:pieces") + IntText(|info.pieces|) + Ascii(":") + info.pieces
    + Ascii("e")
  }

  /** InfoDict.Hash / InfoDict.hash: SHA-1 of the encoded info dictionary. */
  function Hash(info: InfoDict, sha1: seq<byte> -> Digest): Digest
  {
    sha1(EncodeInfoDict(info))
  }

  /** The info dictionary as a bencoded term, keys in the order the encoder writes them. */
  function InfoTerm(info: InfoDict): Term
  {
    TDict([
      Entry(KEY_LENGTH, TInt(info.length)),
      Entry(KEY_NAME, TStr(info.name)),
      Entry(KEY_PIECE_LENGTH, TInt(info.pieceLength)),
      Entry(KEY_PIECES, TStr(info.pieces))])
  }

  /** What decoding the encoded info dictionary must give. */
  function InfoMap(info: InfoDict): map<seq<byte>, Value>
  {
    map[KEY_LENGTH := Int(info.length), KEY_NAME := StringValue(info.name),
        KEY_PIECE_LENGTH := Int(info.pieceLength), KEY_PIECES := StringValue(info.pieces)]
  }

  /** The fixed text of the format string, piece by piece, is bencoding of the keys and brackets. */
  lemma FormatLiterals()
    ensures Ascii("d6:lengthi") == [LETTER_D] + StringText(KEY_LENGTH) + [LETTER_I]
    ensures Ascii("e4:name") == [LETTER_E] + StringText(KEY_NAME)
    ensures Ascii("12:piece lengthi") == StringText(KEY_PIECE_LENGTH) + [LETTER_I]
    ensures Ascii("e6:pieces") == [LETTER_E] + StringText(KEY_PIECES)
    ensures Ascii(":") == [COLON] && Ascii("e") == [LETTER_E]
  {
    LengthLiteral();
    NameLiteral();
    PieceLengthLiteral();
    PiecesLiteral();
  }

  lemma LengthLiteral()
    ensures Ascii("d6:lengthi") == [LETTER_D] + StringText(KEY_LENGTH) + [LETTER_I]
  {
    assert NatText(6) == [54];
  }

  lemma NameLiteral()
    ensures Ascii("e4:name") == [LETTER_E] + StringText(KEY_NAME)
  {
    assert NatText(4) == [52];
  }

  lemma PieceLengthLiteral()
    ensures Ascii("12:piece lengthi") == StringText(KEY_PIECE_LENGTH) + [LETTER_I]
  {
    assert NatText(12) == [49, 50];
  }

  lemma PiecesLiteral()
    ensures Ascii("e6:pieces") == [LETTER_E] + StringText(KEY_PIECES)
  {
    assert NatText(6) == [54];
  }

  /** The canonical bencoding of a dictionary whose four entries are given. */
  lemma EncodeFourEntries(es: seq<Entry>)
    requires |es| == 4
    ensures EncodeEntries(es) == EntryText(es[0]) + (EntryText(es[1]) + (EntryText(es[2]) + (EntryText(es[3]) + [])))
  {
    var t3, t2, t1 := es[3..], es[2..], es[1..];
    assert t3[1..] == [] && t2[1..] == t3 && t1[1..] == t2;
    assert t3[0] == es[3] && t2[0] == es[2] && t1[0] == es[1];
    assert EncodeEntries(t3) == EntryText(es[3]) + EncodeEntries([]);
    assert EncodeEntries(t2) == EntryText(es[2]) + EncodeEntries(t3);
    assert EncodeEntries(t1) == EntryText(es[1]) + EncodeEntries(t2);
  }

  lemma ExpectFourEntries(es: seq<Entry>)
    requires |es| == 4
    ensures ExpectedEntries(es) == map[es[0].key := Expected(es[0].val)] + (map[es[1].key := Expected(es[1].val)]
      + (map[es[2].key := Expected(es[2].val)] + map[es[3].key := Expected(es[3].val)]))
  {
    var t3, t2, t1 := es[3..], es[2..], es[1..];
    assert t3[1..] == [] && t2[1..] == t3 && t1[1..] == t2;
    assert t3[0] == es[3] && t2[0] == es[2] && t1[0] == es[1];
    var m := map[es[3].key := Expected(es[3].val)];
    assert ExpectedEntries(t3) == m + ExpectedEntries([]);
    assert m + map[] == m;
    assert ExpectedEntries(t2) == map[es[2].key := Expected(es[2].val)] + ExpectedEntries(t3);
    assert ExpectedEntries(t1) == map[es[1].key := Expected(es[1].val)] + ExpectedEntries(t2);
  }

  /** Moving the brackets of the format's concatenation to where the entries begin and end. */
  lemma Regroup<T>(d: seq<T>, k1: seq<T>, i: seq<T>, il: seq<T>, e: seq<T>, k2: seq<T>, nl: seq<T>, c: seq<T>, n: seq<T>,
                   k3: seq<T>, ip: seq<T>, k4: seq<T>, pl: seq<T>, pc: seq<T>)
    ensures (d + k1 + i) + il + (e + k2) + nl + c + n + (k3 + i) + ip + (e + k4) + pl + c + pc + e
         == d + ((k1 + (i + il + e)) + ((k2 + (nl + c + n)) + ((k3 + (i + ip + e)) + ((k4 + (pl + c + pc)) + [])))) + e
  {
    var g1 := k1 + (i + il + e);
    var g2 := k2 + (nl + c + n);
    var g3 := k3 + (i + ip + e);
    var g4 := k4 + (pl + c + pc);
    assert g4 + [] == g4;
    assert (d + k1 + i) + il + (e + k2) == d + g1 + k2;
    assert d + g1 + k2 + nl + c + n == d + g1 + g2;
    assert d + g1 + g2 + (k3 + i) + ip + (e + k4) == d + g1 + g2 + g3 + k4;
    assert d + g1 + g2 + g3 + k4 + pl + c + pc == d + g1 + g2 + g3 + g4;
    assert d + g1 + g2 + g3 + g4 == d + (g1 + (g2 + (g3 + g4)));
  }

  /** The fixed layout is exactly the canonical bencoding of the four-entry dictionary. */
  lemma EncodeInfoDictIsCanonical(info: InfoDict)
    ensures EncodeInfoDict(info) == Encode(InfoTerm(info))
  {
    FormatLiterals();
    EncodeFourEntries(InfoTerm(info).entries);
    Regroup([LETTER_D], StringText(KEY_LENGTH), [LETTER_I], IntText(info.length), [LETTER_E],
      StringText(KEY_NAME), IntText(|info.name|), [COLON], info.name,
      StringText(KEY_PIECE_LENGTH), IntText(info.pieceLength), StringText(KEY_PIECES),
      IntText(|info.pieces|), info.pieces);
  }

  /** The four keys are distinct. */
  lemma KeysDistinct()
    ensures KEY_LENGTH != KEY_NAME && KEY_LENGTH != KEY_PIECE_LENGTH && KEY_LENGTH != KEY_PIECES
    ensures KEY_NAME != KEY_PIECE_LENGTH && KEY_NAME != KEY_PIECES && KEY_PIECE_LENGTH != KEY_PIECES
  {
    assert KEY_LENGTH[0] != KEY_PIECES[0];
  }

  /**
   * Decoding the encoded info dictionary gives back a dictionary with exactly
   * the keys length, name, piece length and pieces, holding the four fields,
   * and leaves nothing behind.
   */
  lemma DecodeEncodeInfoDict(info: InfoDict)
    ensures Parsed(EncodeInfoDict(info)) == Ok(Decoded(Dict(InfoMap(info)), []))
    ensures InfoMap(info).Keys == {KEY_LENGTH, KEY_NAME, KEY_PIECE_LENGTH, KEY_PIECES}
  {
    EncodeInfoDictIsCanonical(info);
    ParsedEncodeExactly(InfoTerm(info));
    ExpectedInfoTerm(info);
  }

  /** What the decoder must give for the info term is the four-key map. */
  lemma ExpectedInfoTerm(info: InfoDict)
    ensures Expected(InfoTerm(info)) == Dict(InfoMap(info))
  {
    var es := InfoTerm(info).entries;
    ExpectFourEntries(es);
    KeysDistinct();
    FourKeys(KEY_LENGTH, KEY_NAME, KEY_PIECE_LENGTH, KEY_PIECES,
      Int(info.length), StringValue(info.name), Int(info.pieceLength), StringValue(info.pieces));
  }

  /** With distinct keys, the union of four singleton maps is the four-key map. */
  lemma FourKeys<K, V>(k0: K, k1: K, k2: K, k3: K, v0: V, v1: V, v2: V, v3: V)
    requires k0 != k1 && k0 != k2 && k0 != k3 && k1 != k2 && k1 != k3 && k2 != k3
    ensures map[k0 := v0] + (map[k1 := v1] + (map[k2 := v2] + map[k3 := v3])) == map[k0 := v0, k1 := v1, k2 := v2, k3 := v3]
  {
    var m := map[k0 := v0] + (map[k1 := v1] + (map[k2 := v2] + map[k3 := v3]));
    assert m.Keys == {k0, k1, k2, k3};
  }

  /** The output length: 45 fixed bytes, the four decimal renderings, the name and the pieces. */
  lemma EncodeInfoDictLength(info: InfoDict)
    ensures |EncodeInfoDict(info)| == 45 + |IntText(info.length)| + |IntText(|info.name|)|
      + |IntText(info.pieceLength)| + |IntText(|info.pieces|)| + |info.name| + |info.pieces|
  {
  }

  /** Distinct info dictionaries have distinct encodings. */
  lemma EncodeInfoDictInjective(a: InfoDict, b: InfoDict)
    ensures EncodeInfoDict(a) == EncodeInfoDict(b) <==> a == b
  {
    if EncodeInfoDict(a) == EncodeInfoDict(b) {
      DecodeEncodeInfoDict(a);
      DecodeEncodeInfoDict(b);
      KeysDistinct();
      assert InfoMap(a)[KEY_LENGTH] == InfoMap(b)[KEY_LENGTH];
      assert InfoMap(a)[KEY_NAME] == InfoMap(b)[KEY_NAME];
      assert InfoMap(a)[KEY_PIECE_LENGTH] == InfoMap(b)[KEY_PIECE_LENGTH];
      assert InfoMap(a)[KEY_PIECES] == InfoMap(b)[KEY_PIECES];
    }
  }

  /**
   * The info hash is the digest of a byte string that decodes to exactly the
   * info dictionary's four fields.
   */
  lemma HashCoversInfo(info: InfoDict, sha1: seq<byte> -> Digest)
    ensures exists m :: Hash(info, sha1) == sha1(m) && Parsed(m) == Ok(Decoded(Dict(InfoMap(info)), []))
  {
    DecodeEncodeInfoDict(info);
    var m := EncodeInfoDict(info);
    assert Hash(info, sha1) == sha1(m);
  }
}
