# A verified model of a small BitTorrent client

This project models the core of a Go BitTorrent client written for the
"Build your own BitTorrent" challenge, and proves properties of that model.
The core has four parts:

- **The bencode decoder** of `bencode.go`, following the "bencoding" section
  of BEP 3, the BitTorrent protocol specification:
  - `decodeString` and `decodeInteger`;
  - `returnLastIndex`, the depth scan that finds a list's or a dictionary's
    closing `e`;
  - `decodeList`, `decodeDictionary` and the dispatcher `decodeBencode`;
  - `splitPiecesIntoHashes`.
- **The torrent metadata** of `torrent/types.go` and `main.go`:
  - the info dictionary and its canonical encoding `EncodeInfoDict`;
  - the info hash;
  - `decodeFile`, which copies the metadata out of a decoded `.torrent` file;
  - the piece-index check of the `download_piece` command.
- **The wire formats**:
  - the 68-byte handshake and the 5-byte message header of `types.go` and
    `protocol/types.go`;
  - the 17-byte `request` message that `binary.Write` makes of a PeerMessage;
  - the tracker URL encoding and the compact peer list of `urlEncode.go` and
    `protocol/urlEncode.go`.
- **The peer exchange** of `protocol/protocol.go` and its older copy
  `protocol.go`, run over an abstract connection:
  - `getMsgFromConn`, `downloadInit`, `requestPiece`, `DownloadPiece` and
    `Download`;
  - the handshake of `SendTCPHandshake`.
  - Also `Magnet.Parse` of `extension/magnet.go`.

The model follows the form of the Go code:
- Functions that only compute are Dafny functions with lemmas about them.
- Loops are Dafny methods with loop invariants. Each method is proved equal
  to a specification function, whose properties are then proved as lemmas.
  This covers `decodeString`'s colon scan, the scans of `returnLastIndex`,
  and the list, dictionary, piece-hash, peer-list and block loops.
- A TCP connection is a class, `Protocol.Connection`, whose fields are:
  - the bytes the peer has still to send;
  - the bytes written so far;
  - one flag per future write saying whether it fails.
- The methods that read from and write to a connection are proved equal to
  functions on the value `Protocol.Wire` of those three fields.
- The `Magnet` struct is a class, with `Parse` updating its fields in place.

Where the Go code would panic, the model returns an explicit outcome:
- `OutOfRange` in the decoder (a slice or index out of range, a 64-bit index that wrapped negative);
- `None` from `splitPiecesIntoHashes` and `DestructureHandshakeResponse`
  (a slice past the capacity, or `response[0]` of an empty response);
- `Panic` or `Crash` in the exchange (a nil connection, `buffer[0]` of an
  empty message, `content[8:]` of a short reply, a zero piece length);
- `Panic` in `Magnet.Parse` (a link with too few segments).

The modules:

| file | module | models |
|---|---|---|
| binary.dfy | Wrappers, Binary | Option and Result; bytes, uint32, big-endian 4-byte integers, Go's truncating 64-bit `/` and `%`, with the wrap of −2^63 / −1 |
| decimal.dfy | Decimal | `strconv.Atoi` and `%d` |
| hex.dfy, utf8.dfy | Hex, Utf8 | `encoding/hex` and `utf8.Valid` |
| strings.dfy | Strings | `strings.Split` and `strings.CutPrefix` |
| bencode.dfy | Bencode | the decoder and `splitPiecesIntoHashes` |
| bencode_encoding.dfy | BencodeEncoding | a reference bencoder, and the theorem that the decoder inverts it |
| torrent.dfy | Torrent | InfoDict, TorrentMetadata, `EncodeInfoDict`, `Hash` |
| metadata.dfy | Metadata | `decodeFile` and the piece-index check of `download_piece` |
| messages.dfy | Messages | handshake and peer-message encodings |
| url_encode.dfy | UrlEncode | `isUnreserved`, `urlEncodeWithConversion`, `decodePeer`, `decodePeers`, and `url.QueryUnescape` as `Magnet.Parse` calls it |
| protocol.dfy | Protocol | the connection, the download exchange, the handshake exchange |
| magnet.dfy | Magnet | `Magnet` and `Parse` |

Both copies of duplicated code are modelled. Where the two copies behave
alike, one definition serves both. Where they differ, both are modelled
and the difference is proved:
- `downloadInit` gives up on a failed interested write; the inline copy in
  `protocol.go` does not.
- `DownloadPiece` calls `requestPiece` on the nil connection and panics;
  the older copy returns nil.

## Model

| member | source | states |
|---|---|---|
| Bencode.ParsedString | cmd/mybittorrent/bencode.go:18-35 | On success:<br>• the input is the text before the first `:`, the colon, the value, then the rest;<br>• the text before the colon reads as the value's length.<br>A prefix that is not a number is an error. |
| Bencode.DecodeString | cmd/mybittorrent/bencode.go:18-35 | The colon-scanning loop computes exactly ParsedString. |
| Bencode.StringWithoutColonFails | cmd/mybittorrent/bencode.go:19-33 | With no `:` the prefix is empty, and decodeString fails. |
| Bencode.ParsedInteger | cmd/mybittorrent/bencode.go:38-54 | A successful decode leaves less input than it was given. |
| Bencode.DecodeInteger | cmd/mybittorrent/bencode.go:38-54 | The scan for the first `e` computes exactly ParsedInteger. |
| Bencode.MissingTerminatorDropsLastByte | cmd/mybittorrent/bencode.go:39-54 | With no `e`, the digits before the last byte are the value, the last byte is dropped, and nothing is left. |
| Bencode.UnterminatedIntegers | cmd/mybittorrent/bencode.go:38-54 | `i55` gives 5, and `i5` is an error. |
| Bencode.ReturnLastIndex | cmd/mybittorrent/bencode.go:57-106 | The nested scans compute exactly TerminatorIndex, Go's 64-bit index included: a length jump that takes the index to 2^63 or beyond wraps it negative, and the next read panics (OutOfRange). |
| Bencode.TerminatorIndex | cmd/mybittorrent/bencode.go:57-106 | The result is an index inside the input, and at least 1 when the input has two bytes or more. A wrapped index is a panic (WrappedJumpPanics). |
| Bencode.Scan | cmd/mybittorrent/bencode.go:65-104 | The scan returns an index before the end: the last index, or one at or after where it started. The index is Go's 64-bit `int`: a jump at or past 2^63 is a panic, not a result. |
| Bencode.RunStart | cmd/mybittorrent/bencode.go:68-77 | The backward digit run stops above the last payload, and everything from its start to the colon is digits. |
| Bencode.ColonWithoutLength | cmd/mybittorrent/bencode.go:66-83 | A `:` with no digits before it, back to the last payload, is an error. |
| Bencode.WrappedJumpPanics | cmd/mybittorrent/bencode.go:65-86 | When a length prefix takes `i` past 2^63 − 1, in an input shorter than 2^63, the scan panics (OutOfRange): `i += length; i++` wraps negative and the next index is out of range. |
| BencodeEncoding.WrappedLengthPanicsList | cmd/mybittorrent/bencode.go:65-86 | `li9223372036854775807:e`: the largest length Atoi accepts, 2^63 − 1, wraps the index, and decoding the list panics. |
| Bencode.ColonWithoutLengthFailsList | cmd/mybittorrent/bencode.go:109-114 | `l:e` is no list. |
| Bencode.UnclosedScan | cmd/mybittorrent/bencode.go:58-106 | In an input shorter than 2^63, if no `e` and no `:` follows, the depth never reaches 0 and the result is the last index, with no error. |
| BencodeEncoding.UnclosedList | cmd/mybittorrent/bencode.go:57-106 | A list of encoded elements with no closing `e`, shorter than 2^63 bytes, has the last index as its terminator, with no error. |
| BencodeEncoding.ScanOverString | cmd/mybittorrent/bencode.go:66-87 | A length-prefixed string is skipped whole, so no payload byte changes the depth. |
| BencodeEncoding.ScanOver | cmd/mybittorrent/bencode.go:65-104 | The scan steps over any encoded term at an unchanged depth. |
| BencodeEncoding.TerminatorOfList | cmd/mybittorrent/bencode.go:57-106 | The terminator of an encoded list is its closing `e`, whatever follows it. |
| BencodeEncoding.TerminatorOfDictionary | cmd/mybittorrent/bencode.go:57-106 | The terminator of an encoded dictionary is its closing `e`, whatever follows it. |
| BencodeEncoding.TerminatorAfterTerms | cmd/mybittorrent/bencode.go:57-106 | The opening byte is never looked at: after any opening byte, encoded terms and an `e`, the terminator is that `e`. |
| Bencode.Parsed | cmd/mybittorrent/bencode.go:168-183 | A successful decode leaves strictly less input. |
| Bencode.Dispatch | cmd/mybittorrent/bencode.go:168-183 | • Empty input is out of range.<br>• On success the first byte fixes the kind of value, in both directions: a digit gives a string (text or raw bytes), `i` an integer, `l` a list and `d` a dictionary.<br>• Any other first byte is invalid syntax. |
| Bencode.StringValue | cmd/mybittorrent/bencode.go:170-174 | A payload comes back as text exactly when it is valid UTF-8, and otherwise as raw bytes. |
| Bencode.DecodeBencode | cmd/mybittorrent/bencode.go:168-183 | The dispatcher method computes exactly Parsed. |
| Bencode.ParsedList | cmd/mybittorrent/bencode.go:109-131 | A success is a list value that leaves less input. A scan error is invalid list syntax, and a panic in the scan stays a panic. |
| Bencode.DecodeList | cmd/mybittorrent/bencode.go:109-131 | The element loop computes exactly ParsedList. |
| Bencode.ItemErrorFailsList | cmd/mybittorrent/bencode.go:120-125 | An element that fails to decode fails the whole list, with that element's error. |
| Bencode.ParsedDictionary | cmd/mybittorrent/bencode.go:134-165 | A success is a dictionary value that leaves less input. A scan error is invalid dictionary syntax, and a panic in the scan stays a panic. |
| Bencode.DecodeDictionary | cmd/mybittorrent/bencode.go:134-165 | The key/value loop computes exactly ParsedDictionary. |
| Bencode.NonStringKeyFails | cmd/mybittorrent/bencode.go:145-151 | A dictionary body that starts with anything but a digit or a sign fails. |
| BencodeEncoding.NonStringKeyFailsDictionary | cmd/mybittorrent/bencode.go:134-151 | A dictionary whose first key is an integer, a list or a dictionary fails. |
| BencodeEncoding.RepeatedKeyKeepsLater | cmd/mybittorrent/bencode.go:144-162 | A key given twice keeps the later value. |
| BencodeEncoding.EmptyContainers | cmd/mybittorrent/bencode.go:109-165 | `le` is the empty list and `de` the empty map; the rest is what follows. |
| BencodeEncoding.ParsedStringText | cmd/mybittorrent/bencode.go:18-35 | `<n>:<bytes>` decodes to the bytes and leaves what follows. |
| BencodeEncoding.ParsedIntText | cmd/mybittorrent/bencode.go:38-54 | `i<n>e` decodes to n, negative numbers included, and leaves what follows. |
| BencodeEncoding.ParsedEncode | cmd/mybittorrent/bencode.go:109-183 | Every term decodes back from its canonical encoding, followed by any bytes at all, and the decode leaves exactly those bytes. This covers nested containers, payloads holding digits, colons or `e`, and repeated keys. |
| BencodeEncoding.ParsedListEncode | cmd/mybittorrent/bencode.go:109-131 | An encoded list, followed by any bytes, decodes to the list of its elements' values and leaves exactly those bytes. |
| BencodeEncoding.ParsedDictionaryEncode | cmd/mybittorrent/bencode.go:134-165 | An encoded dictionary, followed by any bytes, decodes to the map of its entries, later keys overriding earlier ones, and leaves exactly those bytes. |
| BencodeEncoding.ParsedEncodeExactly | cmd/mybittorrent/bencode.go:168-183 | A complete encoding decodes with nothing left over. |
| Bencode.SplitPiecesIntoHashes | cmd/mybittorrent/bencode.go:202-208 | The loop computes exactly PieceHashes, the panic included. |
| Bencode.PieceHashes | cmd/mybittorrent/bencode.go:202-208 | There is one hash per started 20 bytes, ceil(\|pieces\|/20) of them. Go checks `pieces[i:i+20]` against the slice's capacity, not its length. So the split panics (None) exactly when the last 20-byte window runs past the spare bytes that follow the pieces in the backing array. Otherwise the k-th hash is the 40-character lowercase hex of bytes [20k, 20k+20) of the pieces followed by the spare bytes. |
| Bencode.WholeHashesIgnoreSpare | cmd/mybittorrent/bencode.go:202-208 | When \|pieces\| is a multiple of 20 the split never panics and the spare bytes make no difference: there are \|pieces\|/20 hashes, and the k-th is the hex of bytes [20k, 20k+20) of the pieces. |
| Bencode.ShortLastHash | cmd/mybittorrent/bencode.go:204-205 | A short last window is completed from the bytes after the slice: the last hash is the hex of the pieces' trailing bytes followed by the first spare bytes. |
| Torrent.EncodeInfoDict | cmd/mybittorrent/torrent/types.go:27-30 | The format string filled with the four fields and the byte lengths of the name and pieces. It carries no contract of its own: EncodeInfoDictIsCanonical, DecodeEncodeInfoDict, EncodeInfoDictLength and EncodeInfoDictInjective state what it means. |
| Torrent.Hash | cmd/mybittorrent/torrent/types.go:20-25 | `sha1` of EncodeInfoDict. It carries no contract of its own: HashCoversInfo states what the hashed string is. |
| Torrent.EncodeInfoDictIsCanonical | cmd/mybittorrent/torrent/types.go:27-30 | The format-string output is exactly the canonical bencoding of the four keys: length, name, piece length, pieces. The older `encodeInfoDict` in `bencode.go` uses the same format. |
| Torrent.DecodeEncodeInfoDict | cmd/mybittorrent/torrent/types.go:27-30 | Decoding the output gives back a dictionary with exactly the four keys, holding the four fields, with nothing left over. |
| Torrent.EncodeInfoDictLength | cmd/mybittorrent/torrent/types.go:28-29 | The output is 45 bytes, plus the four decimal renderings, plus \|Name\|, plus \|Pieces\|. |
| Torrent.EncodeInfoDictInjective | cmd/mybittorrent/torrent/types.go:27-30 | Two info dictionaries encode alike exactly when they are equal. |
| Torrent.HashCoversInfo | cmd/mybittorrent/torrent/types.go:20-25 | The hash is the SHA-1 of a byte string that decodes to exactly the info dictionary's four fields. The older `hash` in `types.go` does the same. |
| Metadata.DecodeFileSpec | cmd/mybittorrent/main.go:22-69 | decodeFile on the file's bytes. It carries no contract of its own: the Metadata lemmas below state its error, zero-metadata and field cases. |
| Metadata.DecodeFile | cmd/mybittorrent/main.go:22-69 | The method computes exactly DecodeFileSpec. |
| Metadata.DecodeErrorsPassThrough | cmd/mybittorrent/main.go:29-33 | decodeFile fails exactly when the decode fails, with the same error. |
| Metadata.TrailingBytesGiveZeroMetadata | cmd/mybittorrent/main.go:35-38 | A complete value followed by more bytes gives zero metadata, and no error. |
| Metadata.NonDictionaryGivesZeroMetadata | cmd/mybittorrent/main.go:40-45 | A top-level value that is not a dictionary gives zero metadata, and no error. |
| Metadata.TextField | cmd/mybittorrent/main.go:49-51 | A text field is set only when its key holds a string that decoded as text. |
| Metadata.IntField | cmd/mybittorrent/main.go:55-63 | An integer field is set only when its key holds an integer. |
| Metadata.BytesField | cmd/mybittorrent/main.go:64-66 | Pieces is set only when its key holds raw, non-UTF-8 bytes. |
| Metadata.OtherKeysIgnored | cmd/mybittorrent/main.go:47-68 | Top-level keys other than announce and info make no difference. |
| Metadata.OtherInfoKeysIgnored | cmd/mybittorrent/main.go:53-67 | Info keys other than the four fields make no difference. |
| Metadata.DecodeFileOfEncoded | cmd/mybittorrent/main.go:22-69 | An encoded torrent decodes to its fields, except that announce and name survive only as valid UTF-8 and pieces only when they are not valid UTF-8. |
| Metadata.DecodeFileRoundTrip | cmd/mybittorrent/main.go:22-69 | A torrent with UTF-8 text fields and non-UTF-8 pieces comes back whole. |
| Metadata.TextPiecesAreDropped | cmd/mybittorrent/main.go:64-66 | Pieces that happen to be valid UTF-8 are lost. |
| Metadata.PieceIndexCheck | cmd/mybittorrent/main.go:164-168 | splitPiecesIntoHashes, then the bounds test on the index. It carries no contract of its own: PieceIndexAcceptedRange states it. |
| Metadata.PieceIndexAcceptedRange | cmd/mybittorrent/main.go:164-168 | The check panics exactly when splitPiecesIntoHashes does. Otherwise it accepts exactly 0 <= index < ceil(\|pieces\|/20). When the pieces are whole hashes that bound is \|pieces\|/20, whatever the spare bytes. |
| Metadata.MainCheckIsStricter | cmd/mybittorrent/main.go:164-168 | When there is one hash per piece, whatever main's check accepts, DownloadPiece's check accepts too. When the length is also a whole number of pieces, main rejects the index one past the last piece, which DownloadPiece accepts. |
| Messages.EncodeHandshake | cmd/mybittorrent/protocol/types.go:16-23 | The encoding is 9 + \|protocol\| + \|info\| + \|PeerId\| bytes long. |
| Messages.HandshakeLayout | cmd/mybittorrent/protocol/types.go:16-23 | A well-sized handshake has each field at its fixed offset: byte 0 is the length, then the protocol, 8 reserved bytes, the info hash and the peer id. The older copy in `types.go` lays the fields out the same way. |
| Messages.WellSizedIs68 | cmd/mybittorrent/types.go:35-43 | A 19-byte protocol with a 20-byte info hash and peer id encodes to 68 bytes. |
| Messages.DestructureHandshakeResponse | cmd/mybittorrent/protocol/protocol.go:75-83 | `response[0]` needs a byte of the response. The other slices are checked only against the capacity, so they read on into the spare bytes of the buffer. The result is a panic (None) exactly when the response is empty, or when the response and the spare bytes together are fewer than 68. Otherwise the reserved field is zero, and the protocol, info and peer id are 19, 20 and 20 bytes. |
| Messages.DestructureEncoded | cmd/mybittorrent/protocol/protocol.go:75-83 | Destructuring an encoded handshake recovers every field, whatever bytes follow it, except that the reserved bytes come back as zeros. |
| Messages.DestructureIgnoresTail | cmd/mybittorrent/protocol.go:71-79 | Once the response holds 68 bytes, neither what follows them nor the spare bytes matter. |
| Messages.ShortResponseZeroFilled | cmd/mybittorrent/protocol/protocol.go:75-83 | A response of at most 68 bytes at the front of a zeroed 68-byte buffer panics only when it is empty. A peer id or info hash the peer did not send comes back as zeros. |
| Messages.EncodeMessage | cmd/mybittorrent/protocol/types.go:42-48 | The encoding is always 5 bytes: the first 4 read back as Length, and byte 4 is Id. |
| Messages.EncodeIgnoresPayloadFields | cmd/mybittorrent/protocol/types.go:42-48 | Two messages encode alike exactly when their Length and Id agree; index, begin and block are never emitted. |
| Messages.EncodeParsedHeader | cmd/mybittorrent/types.go:61-68 | Every 5-byte header is the encoding of the Length and Id it reads as. |
| Messages.InterestedBytes | cmd/mybittorrent/protocol/protocol.go:184-187 | The interested message is `[0,0,0,5,2]`: the Length is written as given, not derived from what follows. |
| Messages.SerializeReadsBack | cmd/mybittorrent/protocol/protocol.go:232-233 | The 17 bytes `binary.Write` produces hold all five fields, big-endian, in order, and each reads back from its offset. |
| Messages.RequestLengthCountsPayload | cmd/mybittorrent/protocol/protocol.go:223-233 | A request serializes to 17 bytes:<br>• a Length of 13, which counts exactly the bytes after the 4-byte prefix;<br>• Id 6;<br>• then the index, begin and block length, as Go's `uint32(...)` conversions make them. The older copy in `protocol.go` builds the same message. |
| UrlEncode.UnreservedIsRfcSet | cmd/mybittorrent/protocol/urlEncode.go:10-16 | isUnreserved holds exactly for the unreserved set of RFC 3986 section 2.3. The older copy in `urlEncode.go` has the same set. |
| UrlEncode.Escape | cmd/mybittorrent/protocol/urlEncode.go:27-35 | An unreserved byte stays itself. Any other byte becomes `%` and two uppercase hex digits whose value, high digit first, is the byte. |
| UrlEncode.PercentEncode | cmd/mybittorrent/protocol/urlEncode.go:26-37 | Each byte becomes one or three bytes, so the output is between \|d\| and 3·\|d\| long. |
| UrlEncode.UrlEncodeSpec | cmd/mybittorrent/protocol/urlEncode.go:18-38 | The output is at most three bytes per hex-decoded byte, and the empty string when the input is not hex. |
| UrlEncode.UrlEncodeWithConversion | cmd/mybittorrent/protocol/urlEncode.go:18-38 | The result is the percent-encoding of the hex-decoded input, and `""` when the input is not valid hex. |
| UrlEncode.PercentEncodeLength | cmd/mybittorrent/protocol/urlEncode.go:26-37 | The output length is the count of unreserved bytes plus 3 times the count of the others. The same holds for the older copy in `urlEncode.go`. |
| UrlEncode.UrlEncodeRoundTrip | cmd/mybittorrent/urlEncode.go:18-38 | Percent-decoding the output gives back the hex-decoded input. |
| UrlEncode.UnescapePercentEncode | cmd/mybittorrent/urlEncode.go:26-35 | Unescaping a percent-encoding gives back its bytes. |
| UrlEncode.QueryUnescape | cmd/mybittorrent/extension/magnet.go:32 | An unescape never makes its input longer. |
| UrlEncode.UnescapeFailsOnBadEscape | cmd/mybittorrent/extension/magnet.go:32-35 | The unescape fails exactly when some `%` is not followed by two hex digits. |
| UrlEncode.DecodePeer | cmd/mybittorrent/protocol/urlEncode.go:40-53 | It succeeds exactly when the slice is 6 bytes long, and fails with the peer-length error otherwise. |
| UrlEncode.Port | cmd/mybittorrent/protocol/urlEncode.go:50 | The port is at most 65535. |
| UrlEncode.PortBytes | cmd/mybittorrent/protocol/urlEncode.go:50 | The port's high byte is byte 4 and its low byte is byte 5. |
| UrlEncode.ParsePeerText | cmd/mybittorrent/protocol/urlEncode.go:45-52 | The rendering `a.b.c.d:port` parses back to the 6 bytes. |
| UrlEncode.PeerTextInjective | cmd/mybittorrent/protocol/urlEncode.go:45-52 | Two peers render alike exactly when they are equal. |
| UrlEncode.DecodePeersSpec | cmd/mybittorrent/protocol/urlEncode.go:55-71 | • It fails exactly when the length is not a multiple of 6.<br>• Otherwise there are len/6 entries, and entry k is decodePeer of bytes [6k, 6k+6).<br>• The empty input gives the empty list. |
| UrlEncode.DecodePeers | cmd/mybittorrent/protocol/urlEncode.go:55-71 | The loop computes exactly DecodePeersSpec. |
| Protocol.Take | cmd/mybittorrent/protocol/protocol.go:134-150 | The buffer holds the next n bytes, or at the end of the stream the remaining bytes followed by zeros; nothing is written. |
| Protocol.ReadAvailable | cmd/mybittorrent/protocol/protocol.go:119-129 | A single read delivers min(n, available) bytes, those the peer sent first. |
| Protocol.Put | cmd/mybittorrent/protocol/protocol.go:234-238 | A write succeeds exactly when its outcome says so, and only a successful write appends the message. |
| Protocol.Connection.constructor | cmd/mybittorrent/protocol/protocol.go:175 | A connection starts with nothing sent. |
| Protocol.Connection.ReadFull | cmd/mybittorrent/protocol/protocol.go:146 | The connection's new state and the buffer are those Take gives. |
| Protocol.Connection.Read | cmd/mybittorrent/protocol/protocol.go:121 | The connection's new state and the bytes read are those ReadAvailable gives. |
| Protocol.Connection.Write | cmd/mybittorrent/protocol/protocol.go:234 | The connection's new state and the result are those Put gives. |
| Protocol.NextMessage | cmd/mybittorrent/protocol/protocol.go:133-155 | Reading a message never writes anything, and never lengthens what is left to read. |
| Protocol.GetMsgFromConn | cmd/mybittorrent/protocol/protocol.go:133-155 | The method computes exactly NextMessage: a 4-byte big-endian length L, then L bytes, the first being the id. |
| Protocol.NextMessageOfFrame | cmd/mybittorrent/protocol.go:120-141 | A framed message is read back whole, and reading stops right after it. |
| Protocol.ClosedStreamPanics | cmd/mybittorrent/protocol/protocol.go:142-152 | On a closed stream the length is 0 and `buffer[0]` panics. |
| Protocol.InitSpec | cmd/mybittorrent/protocol/protocol.go:175-203 | At most the interested message is sent, and the input only shrinks. |
| Protocol.DownloadInit | cmd/mybittorrent/protocol/protocol.go:175-203 | The method gives the live connection, nil or a panic, exactly as InitSpec says, and leaves the connection in InitSpec's state. |
| Protocol.InitSequence | cmd/mybittorrent/protocol/protocol.go:175-203 | A bitfield then an unchoke, with the write going through, gives the live connection; exactly `[0,0,0,5,2]` has been sent, and both messages are consumed. |
| Protocol.InitLiveOnlyAfterBitfieldAndUnchoke | cmd/mybittorrent/protocol/protocol.go:177-202 | A live result means the first message was a bitfield and the next an unchoke, with the interested message sent in between. |
| Protocol.InitRejectsOtherFirstMessage | cmd/mybittorrent/protocol/protocol.go:177-181 | Any other first message gives nil, and nothing is written. |
| Protocol.WriteFailureAbortsOnlyPackageInit | cmd/mybittorrent/protocol.go:158-174 | A failed interested write gives nil in the package version, while the older copy goes on and goes live. |
| Protocol.PieceSizeOfIndex | cmd/mybittorrent/protocol/protocol.go:206-214 | Every piece but the last is a whole piece. The last piece holds what is left of the length. |
| Protocol.PieceSizesSum | cmd/mybittorrent/protocol.go:176-182 | The piece sizes add up to the torrent's length. |
| Protocol.BlocksCover | cmd/mybittorrent/protocol/protocol.go:217-221 | The block lengths add up to the piece size. |
| Protocol.BlockOfIndex | cmd/mybittorrent/protocol/protocol.go:217-221 | The k-th block starts at 16384·k, inside the piece, and is min(16384, size − begin) bytes long. |
| Protocol.BlockCount | cmd/mybittorrent/protocol.go:184-189 | A piece takes ceil(size/16384) requests. |
| Protocol.RequestBytes | cmd/mybittorrent/protocol/protocol.go:223-234 | Every request is 17 bytes. |
| Protocol.PieceSize | cmd/mybittorrent/protocol/protocol.go:205-214 | With a non-negative length and a positive piece length, the size asked for is positive and at most the piece length. |
| Protocol.Fetch | cmd/mybittorrent/protocol/protocol.go:216-251 | On nil nothing is read or written. The bytes collected so far stay a prefix of a Data result. Writes only append, and the input only shrinks. |
| Protocol.Receive | cmd/mybittorrent/protocol/protocol.go:240-249 | The bytes collected so far stay a prefix of a Data result. Writes only append, and the input only shrinks. |
| Protocol.RequestPieceSpec | cmd/mybittorrent/protocol/protocol.go:204-252 | On a nil connection nothing is read or written. Data needs a non-zero piece length. Writes only append, and the input only shrinks. |
| Protocol.RequestPiece | cmd/mybittorrent/protocol/protocol.go:205-252 | The method computes exactly RequestPieceSpec, on a live connection and on nil. A zero piece length panics on the division. |
| Protocol.FetchBlocks | cmd/mybittorrent/protocol/protocol.go:216-251 | The block loop computes exactly Fetch from offset 0. |
| Protocol.FetchBlock | cmd/mybittorrent/protocol/protocol.go:217-248 | One round either ends the loop with Fetch's result or moves on to the next block. |
| Protocol.FetchRound | cmd/mybittorrent/protocol/protocol.go:231-248 | A piece reply makes the loop send the block's request and go on with the reply's content after its first 8 bytes. |
| Protocol.FetchRefused | cmd/mybittorrent/protocol/protocol.go:241-245 | A reply whose id is not 7 gives nil. |
| Protocol.FetchAnswered | cmd/mybittorrent/protocol/protocol.go:216-251 | When every block is answered by a piece message, the result is the replies' content minus 8 bytes each, concatenated in order. Exactly the block requests have been sent, in order. |
| Protocol.FetchStopsAtOtherReply | cmd/mybittorrent/protocol/protocol.go:240-245 | If any reply before the last block is not a piece message, the result is nil. |
| Protocol.RequestOnNilConnection | cmd/mybittorrent/protocol/protocol.go:261-263 | requestPiece on a nil connection panics, unless the piece is empty. |
| Protocol.IndexAccepted | cmd/mybittorrent/protocol/protocol.go:256 | With a non-negative length and a positive piece length, the check accepts exactly 0 <= index <= length/pieceLength. The division is Go's 64-bit one. |
| Protocol.DownloadPieceSpec | cmd/mybittorrent/protocol/protocol.go:254-264 | Data comes only for a non-zero piece length and an index the check accepts. |
| Protocol.DownloadPieceLegacySpec | cmd/mybittorrent/protocol.go:144-220 | Data comes only for a non-zero piece length and an index the check accepts. |
| Protocol.DownloadPiece | cmd/mybittorrent/protocol/protocol.go:254-264 | The method computes exactly DownloadPieceSpec: the index check, downloadInit, then requestPiece. The check divides as Go's 64-bit `int` does, so −2^63 / −1 wraps to −2^63. |
| Protocol.DownloadPieceLegacy | cmd/mybittorrent/protocol.go:144-220 | The method computes exactly DownloadPieceLegacySpec, with the same 64-bit division in its check. |
| Protocol.RejectedIndexLeavesConnection | cmd/mybittorrent/protocol/protocol.go:255-259 | An index below 0 or above length/pieceLength gives nil before anything is read, in both copies. |
| Protocol.GuardAcceptsEveryPiece | cmd/mybittorrent/protocol.go:144-149 | Every existing piece index passes the check. |
| Protocol.WrappedQuotientRejectsEveryIndex | cmd/mybittorrent/protocol/protocol.go:256 | With length −2^63 and piece length −1 the quotient wraps to −2^63, so every index is rejected and both copies return nil before any exchange. |
| Protocol.GuardAcceptsIndexPastEnd | cmd/mybittorrent/protocol/protocol.go:256 | When the length is a whole number of pieces, the index one past the last piece also passes, and a whole piece is requested for it. |
| Protocol.DownloadPieceExchange | cmd/mybittorrent/protocol.go:151-219 | In both copies, the whole exchange is: bitfield, interested, unchoke, then one request and one reply per block. The result is the block data in order. |
| Protocol.NoBitfieldCrashesOnlyPackageDownload | cmd/mybittorrent/protocol/protocol.go:261-263 | If there is no bitfield, the package version panics on the nil connection, while the older copy returns nil. |
| Protocol.HashMatchesDigest | cmd/mybittorrent/protocol/protocol.go:274 | Comparing the hex of a piece's SHA-1 with the k-th recorded hash is comparing the digest with the 20 bytes that hash was cut from. |
| Protocol.DownloadLoop | cmd/mybittorrent/protocol/protocol.go:272-282 | The bytes collected so far stay a prefix of a Data result. |
| Protocol.DownloadSpec | cmd/mybittorrent/protocol/protocol.go:266-283 | Data comes only when splitPiecesIntoHashes did not panic. |
| Protocol.Download | cmd/mybittorrent/protocol/protocol.go:266-283 | The method computes exactly DownloadSpec: splitPiecesIntoHashes (which may panic), downloadInit, then the piece loop. |
| Protocol.DownloadPieces | cmd/mybittorrent/protocol/protocol.go:272-282 | The piece loop computes exactly DownloadLoop from piece 0, on a live connection and on nil. |
| Protocol.DownloadLoopStep | cmd/mybittorrent/protocol/protocol.go:272-280 | A successful round means the piece matched its hash, and the loop continues from the next piece. |
| Protocol.DownloadedPiecesMatch | cmd/mybittorrent/protocol/protocol.go:272-282 | A successful loop is a chain of requestPiece results. Each runs on the connection the previous one left, none panics, and each matches its recorded hash. The result is their bytes concatenated in order, and the connection is left where the last one left it. |
| Protocol.FailureStopsDownload | cmd/mybittorrent/protocol/protocol.go:272-277 | After a chain of matched pieces, a next piece whose fetch panics gives a panic, and one that does not match gives nil. The connection is left where that fetch left it. |
| Protocol.DownloadDeliversVerifiedPieces | cmd/mybittorrent/protocol/protocol.go:266-283 | A successful Download means:<br>• the split did not panic and downloadInit returned;<br>• requestPiece fetched pieces 0 to n−1, one after the other on the connection.<br>The result is their bytes concatenated, and the SHA-1 of each is the 20 bytes its hash was cut from. |
| Protocol.DownloadStopsAtFirstFailure | cmd/mybittorrent/protocol/protocol.go:266-283 | Conversely, once pieces 0 to n−1 have matched their digests, a piece n whose fetch panics gives a panic, and one whose SHA-1 differs gives nil. |
| Protocol.ZeroPieceLength | cmd/mybittorrent/protocol/protocol.go:254-283 | With a zero piece length:<br>• both copies of DownloadPiece panic on the division;<br>• Download of an empty pieces string never divides and delivers nothing;<br>• Download of any other pieces panics in requestPiece. |
| Protocol.OurHandshake | cmd/mybittorrent/protocol/protocol.go:105-111 | The handshake sent has a 19-byte protocol and a 20-byte info hash and peer id. |
| Protocol.OurHandshakeLayout | cmd/mybittorrent/protocol.go:91-97 | The handshake sent is 68 bytes: 19, "BitTorrent protocol", 8 zeros, the SHA-1 of the encoded info dictionary, then our peer id. |
| Protocol.HandshakeSpec | cmd/mybittorrent/protocol/protocol.go:119-130 | The response is at most 68 bytes. |
| Protocol.SendTCPHandshake | cmd/mybittorrent/protocol/protocol.go:104-131 | The method computes exactly HandshakeSpec: the write, then one read of up to 68 bytes. |
| Protocol.HandshakeExchange | cmd/mybittorrent/protocol/protocol.go:104-131 | Against a peer that answers with a whole handshake, the exchange sends ours if the write goes through and returns the peer's 68 bytes. Destructuring them gives back the peer's fields, with the reserved bytes zeroed. |
| Protocol.HandshakeResponseInBuffer | cmd/mybittorrent/protocol/protocol.go:119-129 | The response is `response[:n]` of a zeroed 68-byte buffer, and destructuring it panics exactly when the peer had sent nothing. |
| Magnet.Magnet.constructor | cmd/mybittorrent/extension/magnet.go:23-25 | NewMagnet sets only the link. |
| Magnet.ParseSpec | cmd/mybittorrent/extension/magnet.go:27-50 | The link never changes, and InfoHashDecoded changes only on success. |
| Magnet.Magnet.Parse | cmd/mybittorrent/extension/magnet.go:27-50 | The method's result and the new fields are exactly those ParseSpec gives. |
| Magnet.ParseEffects | cmd/mybittorrent/extension/magnet.go:27-49 | • The link never changes.<br>• "invalid magnet link" is returned exactly when the prefix is missing.<br>• A panic, a bad prefix or an unescape error changes no field.<br>• A hex error comes after URL and InfoHash are set.<br>• On success, InfoHashDecoded is the hex decoding of InfoHash. |
| Magnet.InfoHashIsFirstSegment | cmd/mybittorrent/extension/magnet.go:29-38 | Whenever InfoHash is set, it is the text after the prefix up to the first `&`. |
| Magnet.ParseLink | cmd/mybittorrent/extension/magnet.go:28-46 | A well-formed link sets URL to the tracker, and InfoHash and InfoHashDecoded to the hash. The parse is by position: the key names are ignored. |
| Magnet.MissingSegmentsPanic | cmd/mybittorrent/extension/magnet.go:29-31 | A link with the prefix but without three segments panics, and no field changes. |
| Decimal.Atoi | cmd/mybittorrent/bencode.go:30 | Atoi succeeds exactly on a non-empty run of digits with at most one leading sign. |
| Decimal.IntTextInjective | cmd/mybittorrent/torrent/types.go:28-29 | Two integers with the same `%d` rendering are equal. |
| Binary.GoDiv | cmd/mybittorrent/protocol/protocol.go:208 | For a non-negative dividend and a positive divisor, Go's `/` is the floor quotient. |
| Binary.GoMod | cmd/mybittorrent/protocol/protocol.go:208-210 | For a non-negative dividend and a positive divisor, Go's `%` is the ordinary remainder. |
| Binary.GoQuotientInRange | cmd/mybittorrent/protocol/protocol.go:256 | On 64-bit operands the quotient is again a 64-bit value. −2^63 / −1 wraps to −2^63 with remainder 0. |
| Binary.GoDivision | cmd/mybittorrent/protocol/protocol.go:208-210 | Outside the wrap, quotient times divisor plus remainder gives back the dividend. |
| Binary.GoRemainder | cmd/mybittorrent/protocol/protocol.go:208-210 | The remainder is smaller in magnitude than the divisor, and is 0 or has the dividend's sign. |
| Binary.ReadBackBigEndian32 | cmd/mybittorrent/protocol/protocol.go:139 | `binary.BigEndian.Uint32` reads back every 32-bit value from its 4-byte big-endian form. |
| Hex.DecodeString | cmd/mybittorrent/protocol/urlEncode.go:20 | Decoding succeeds exactly on an even number of hex digits, and gives half as many bytes. |
| Protocol.WholePiecesBelow | cmd/mybittorrent/protocol/protocol.go:209-214 | For k up to length/pieceLength, the first k pieces add up to k whole pieces. |
| Decimal.AtoiOfIntText | cmd/mybittorrent/bencode.go:49 | Atoi reads back every `%d` rendering. |
| Hex.DecodeEncoded | cmd/mybittorrent/bencode.go:205 | Decoding hex gives back the bytes. |
| Hex.EncodeInjective | cmd/mybittorrent/protocol/protocol.go:274 | Two byte strings have the same hex exactly when they are equal. |
| Strings.CutPrefix | cmd/mybittorrent/extension/magnet.go:28 | The cut succeeds exactly when the prefix is present; the rest is what follows the prefix, and the input is returned unchanged when the prefix is absent. |
| Strings.JoinSplit | cmd/mybittorrent/extension/magnet.go:29 | Joining the parts of a split gives back the input. |

## Left out

- The tracker requests of `GetPeers`, in both copies and for magnets: the HTTP GET, the tracker-response projection and the magnet's `GetPeers`. These are network I/O. Only `urlEncodeWithConversion` and `decodePeers`, the pure parts they call, are modelled.
- `EstablishTCPConnection` and `InitPeers`: they dial TCP connections. A connection is a parameter of the model instead.
- The worker dispatcher and downloader: they are goroutines, a semaphore and timers; there is no concurrency in the model.
- `main`'s command-line handling, JSON output and printing.
- The reading of the `.torrent` file: `DecodeFile` receives the file's bytes, and an `os.ReadFile` failure is not modelled.
- SHA-1 is a parameter `sha1` of the members that hash, not an implementation.
- Decimal.Atoi: Go's `strconv.Atoi` fails with a range error on a number outside 64 bits. The model's integers are unbounded, so there it succeeds.
- Bencode.ParsedString: for the same reason, a length prefix outside 64 bits fails as out of range (too long for the input) rather than as not a number.
- Bencode.ParsedInteger: an integer outside 64 bits, which Go rejects, decodes to its unbounded value.
- Bencode.Scan, Bencode.TerminatorIndex, Bencode.ReturnLastIndex: for the same reason, a length prefix of 2^63 or more, which Go's Atoi rejects so that returnLastIndex returns an error, is read as a jump past 2^63 and gives the wrapped index's panic instead. Lengths Atoi accepts wrap exactly as in Go.
- Protocol.Take: `io.ReadFull` at the end of the stream returns an error that the source only prints. The model returns what was left followed by zeros.
- Protocol.ReadAvailable, Protocol.NextMessage: a `conn.Read` can return fewer bytes than are available. The model delivers min(n, available) bytes. getMsgFromConn reads its 4-byte header with one `conn.Read` (protocol/protocol.go:135); NextMessage reads it with Take, as if the read were full.
- The capacity of a Go slice is a parameter, `spare`: the bytes that follow the slice in its backing array. `decodeString` slices its input without copying, so the pieces string's spare bytes are the rest of the `.torrent` file after it, followed by whatever extra capacity `os.ReadFile`'s buffer has. The handshake response's spare bytes are the rest of the 68-byte read buffer. Only for the handshake does the model derive them (`Messages.ShortResponseZeroFilled`, `Protocol.HandshakeResponseInBuffer`). For the pieces they stay a parameter of `Bencode.PieceHashes`, `Metadata.PieceIndexCheck` and `Protocol.Download`.
- Protocol.PieceSizeOfIndex, Protocol.PieceSizesSum, Protocol.WholePiecesBelow, Protocol.GuardAcceptsEveryPiece and Protocol.GuardAcceptsIndexPastEnd require a positive piece length and a non-negative length. The operations themselves panic (Crash) on a zero piece length, as `Protocol.ZeroPieceLength` states. The block lemmas (BlocksCover, BlockOfIndex, BlockCount) hold for any piece size.
- The dead branch of `returnLastIndex`, whose `i == j` test can never hold, has no counterpart in the model.
- Go's distinction between a nil slice and an empty one is not modelled: both are the empty sequence, and a nil piece counts as no bytes in `Download`.
