/**
 * The peer download exchange of `protocol/protocol.go` (and its older copy in
 * `protocol.go`), run over an abstract connection.
 *
 * A `Wire` is the state of one TCP connection: the bytes the peer has still
 * to deliver, the bytes written so far, and, one per future write, whether
 * that write fails.  `Connection` is the same state as a mutable object; its
 * methods are the `Read`, `io.ReadFull` and `Write` calls the source makes.
 *
 * The functions ending in `Spec` state what each operation of the source does
 * to a wire; the methods of the same name do it to a `Connection` step by
 * step and are proved to agree with them.
 */
module Protocol {
  import opened Wrappers
  import opened Binary
  import opened Messages
  import Hex
  import Bencode
  import Torrent

  const BLOCK_LENGTH: nat := 16384
  const MY_PEER_ID: seq<byte> := Ascii("00112233445566778899")
  const PROTOCOL_NAME: seq<byte> := Ascii("BitTorrent protocol")

  /** The message ids of BEP 3 that the exchange looks at. */
  const ID_UNCHOKE: byte := 1
  const ID_INTERESTED: byte := 2
  const ID_BITFIELD: byte := 5
  const ID_REQUEST: byte := 6
  const ID_PIECE: byte := 7

  datatype Wire = Wire(incoming: seq<byte>, sent: seq<byte>, writeFails: seq<bool>)

  /** A message as getMsgFromConn returns it: the id and the L-1 bytes after it. */
  datatype Message = Message(id: byte, content: seq<byte>)

  /** A result, or a Go run-time panic (an index out of range, a call on a nil connection). */
  datatype Outcome<T> = Value(value: T) | Panic

  /** What requestPiece and the download functions return: the bytes, `nil`, or a panic. */
  datatype PieceResult = Data(bytes: seq<byte>) | Nil | Crash

  // ---------------------------------------------------------------------------
  // The connection
  // ---------------------------------------------------------------------------

  /**
   * Reading into an `n`-byte buffer that is then used whole: the next `n`
   * bytes, or, at the end of the stream, what is left followed by the zeros
   * the fresh buffer still holds (the source ignores the read error).
   */
  function Take(w: Wire, n: nat): (r: (seq<byte>, Wire))
    ensures |r.0| == n
    ensures r.1.sent == w.sent && r.1.writeFails == w.writeFails
    ensures |w.incoming| >= n ==> w.incoming == r.0 + r.1.incoming
    ensures |w.incoming| < n ==> r.0[..|w.incoming|] == w.incoming && r.1.incoming == []
  {
    if |w.incoming| >= n then (w.incoming[..n], w.(incoming := w.incoming[n..]))
    else (w.incoming + Zeros(n - |w.incoming|), w.(incoming := []))
  }

  /** A single `conn.Read` into an `n`-byte buffer, cut to the count read: at most `n` bytes, those the peer sent first. */
  function ReadAvailable(w: Wire, n: nat): (r: (seq<byte>, Wire))
    ensures |r.0| <= n
    ensures w.incoming == r.0 + r.1.incoming
    ensures r.1.sent == w.sent && r.1.writeFails == w.writeFails
    ensures |r.0| == Min(n, |w.incoming|)
  {
    var count := Min(n, |w.incoming|);
    (w.incoming[..count], w.(incoming := w.incoming[count..]))
  }

  /** The tail of the write outcomes once one write has used the head. */
  function Later(fails: seq<bool>): seq<bool>
  {
    if fails == [] then [] else fails[1..]
  }

  /** Whether the next write succeeds: no outcome left means success. */
  predicate WriteSucceeds(w: Wire)
  {
    w.writeFails == [] || !w.writeFails[0]
  }

  /** `conn.Write(msg)`: a successful write appends `msg` to what was sent; a failed one sends nothing. */
  function Put(w: Wire, msg: seq<byte>): (r: (bool, Wire))
    ensures r.0 <==> WriteSucceeds(w)
    ensures r.1.sent == if r.0 then w.sent + msg else w.sent
    ensures r.1.incoming == w.incoming && r.1.writeFails == Later(w.writeFails)
  {
    if WriteSucceeds(w) then (true, Wire(w.incoming, w.sent + msg, Later(w.writeFails)))
    else (false, w.(writeFails := Later(w.writeFails)))
  }

  class Connection {
    var incoming: seq<byte>
    var sent: seq<byte>
    var writeFails: seq<bool>

    /** A connection on which the peer will send `incoming` and the writes fail as `writeFails` says. */
    constructor (incoming: seq<byte>, writeFails: seq<bool>)
      ensures State() == Wire(incoming, [], writeFails)
    {
      this.incoming := incoming;
      this.sent := [];
      this.writeFails := writeFails;
    }

    function State(): Wire
      reads this
    {
      Wire(incoming, sent, writeFails)
    }

    /** A read that fills an `n`-byte buffer, zero-padded at the end of the stream. */
    method ReadFull(n: nat) returns (buffer: seq<byte>)
      modifies this
      ensures (buffer, State()) == Take(old(State()), n)
    {
      if |incoming| >= n {
        buffer := incoming[..n];
        incoming := incoming[n..];
      } else {
        buffer := incoming + Zeros(n - |incoming|);
        incoming := [];
      }
    }

    /** A single read into an `n`-byte buffer, returning the bytes read. */
    method Read(n: nat) returns (buffer: seq<byte>)
      modifies this
      ensures (buffer, State()) == ReadAvailable(old(State()), n)
    {
      var count := Min(n, |incoming|);
      buffer := incoming[..count];
      incoming := incoming[count..];
    }

    method Write(msg: seq<byte>) returns (ok: bool)
      modifies this
      ensures (ok, State()) == Put(old(State()), msg)
    {
      ok := writeFails == [] || !writeFails[0];
      if ok {
        sent := sent + msg;
      }
      writeFails := if writeFails == [] then [] else writeFails[1..];
    }
  }

  // ---------------------------------------------------------------------------
  // getMsgFromConn
  // ---------------------------------------------------------------------------

  /** A message a peer can send: its length prefix `1 + |content|` fits in 32 bits. */
  predicate Framable(m: Message)
  {
    1 + |m.content| < TWO_32
  }

  /** The bytes of a message on the wire: the big-endian length, the id, the content. */
  function Frame(m: Message): (r: seq<byte>)
    requires Framable(m)
    ensures |r| == 5 + |m.content|
  {
    BigEndian32(1 + |m.content|) + [m.id] + m.content
  }

  /**
   * getMsgFromConn: a 4-byte big-endian length L, then L bytes; the first is
   * the id and the rest the content.  L = 0 makes `buffer[0]` panic.
   */
  function NextMessage(w: Wire): (r: (Outcome<Message>, Wire))
    ensures r.1.sent == w.sent && r.1.writeFails == w.writeFails
    ensures |r.1.incoming| <= |w.incoming|
  {
    var header := Take(w, 4);
    var length := Uint32Of(header.0);
    if length == 0 then (Panic, header.1)
    else
      var body := Take(header.1, length);
      (Value(Message(body.0[0], body.0[1..])), body.1)
  }

  method GetMsgFromConn(conn: Connection) returns (r: Outcome<Message>)
    modifies conn
    ensures (r, conn.State()) == NextMessage(old(conn.State()))
  {
    var header := conn.ReadFull(4);
    var length := Uint32Of(header);
    if length == 0 {
      return Panic;
    }
    var buffer := conn.ReadFull(length);
    return Value(Message(buffer[0], buffer[1..]));
  }

  /** A framed message is read back whole, and reading stops right after it. */
  lemma NextMessageOfFrame(w: Wire, m: Message, rest: seq<byte>)
    requires Framable(m)
    requires w.incoming == Frame(m) + rest
    ensures NextMessage(w) == (Value(m), w.(incoming := rest))
  {
    ReadBackBigEndian32(1 + |m.content|);
    assert w.incoming[..4] == BigEndian32(1 + |m.content|);
    assert w.incoming[4..] == [m.id] + m.content + rest;
    var body := w.incoming[4..][..1 + |m.content|];
    assert body == [m.id] + m.content;
  }

  /** A peer that has closed the connection yields a zero length, and the read panics. */
  lemma ClosedStreamPanics(w: Wire)
    requires w.incoming == []
    ensures NextMessage(w).0 == Panic
  {
    assert Take(w, 4).0 == Zeros(4);
  }

  // ---------------------------------------------------------------------------
  // downloadInit
  // ---------------------------------------------------------------------------

  /**
   * downloadInit: a bitfield (id 5) must come first; then the interested
   * message is written; then an unchoke (id 1) must follow.  `Value(true)` is
   * the live connection, `Value(false)` the nil one.  `abortOnWriteError`
   * tells the package version (a failed write returns nil) from the older
   * copy inside downloadPiece (a failed write is only reported).
   */
  function InitSpec(w: Wire, abortOnWriteError: bool): (r: (Outcome<bool>, Wire))
    ensures r.1.sent == w.sent || r.1.sent == w.sent + EncodeMessage(INTERESTED_MESSAGE)
    ensures |r.1.incoming| <= |w.incoming|
  {
    var first := NextMessage(w);
    match first.0
    case Panic => (Panic, first.1)
    case Value(m) =>
      if m.id != ID_BITFIELD then (Value(false), first.1)
      else
        var written := Put(first.1, EncodeMessage(INTERESTED_MESSAGE));
        if !written.0 && abortOnWriteError then (Value(false), written.1)
        else
          var second := NextMessage(written.1);
          match second.0
          case Panic => (Panic, second.1)
          case Value(m') => (Value(m'.id == ID_UNCHOKE), second.1)
  }

  /** The package downloadInit: the live connection, nil, or a panic. */
  method DownloadInit(conn: Connection) returns (r: Outcome<Connection?>)
    modifies conn
    ensures var spec := InitSpec(old(conn.State()), true);
      && conn.State() == spec.1
      && (spec.0 == Panic <==> r == Panic)
      && (spec.0 == Value(true) <==> r == Outcome<Connection?>.Value(conn))
      && (spec.0 == Value(false) <==> r == Outcome<Connection?>.Value(null))
  {
    var first := GetMsgFromConn(conn);
    if first.Panic? {
      return Panic;
    }
    if first.value.id != ID_BITFIELD {
      return Value(null);
    }
    var ok := conn.Write(EncodeMessage(INTERESTED_MESSAGE));
    if !ok {
      return Value(null);
    }
    var second := GetMsgFromConn(conn);
    if second.Panic? {
      return Panic;
    }
    if second.value.id != ID_UNCHOKE {
      return Value(null);
    }
    return Value(conn);
  }

  /**
   * A bitfield and then an unchoke from the peer, with the write going
   * through: the connection comes back live, exactly `[0,0,0,5,2]` has been
   * sent, and both messages have been consumed.
   */
  lemma InitSequence(w: Wire, abortOnWriteError: bool, bitfield: seq<byte>, unchoke: seq<byte>, rest: seq<byte>)
    requires Framable(Message(ID_BITFIELD, bitfield)) && Framable(Message(ID_UNCHOKE, unchoke))
    requires w.incoming == Frame(Message(ID_BITFIELD, bitfield)) + Frame(Message(ID_UNCHOKE, unchoke)) + rest
    requires WriteSucceeds(w)
    ensures InitSpec(w, abortOnWriteError) == (Value(true), Wire(rest, w.sent + [0, 0, 0, 5, 2], Later(w.writeFails)))
  {
    var second := Frame(Message(ID_UNCHOKE, unchoke));
    assert w.incoming == Frame(Message(ID_BITFIELD, bitfield)) + (second + rest);
    NextMessageOfFrame(w, Message(ID_BITFIELD, bitfield), second + rest);
    InterestedBytes();
    var after := Wire(second + rest, w.sent + [0, 0, 0, 5, 2], Later(w.writeFails));
    NextMessageOfFrame(after, Message(ID_UNCHOKE, unchoke), rest);
  }

  /**
   * The connection comes back live only if the first message was a bitfield
   * and the next one an unchoke; in the package version the interested
   * message has then been sent.
   */
  lemma InitLiveOnlyAfterBitfieldAndUnchoke(w: Wire, abortOnWriteError: bool)
    requires InitSpec(w, abortOnWriteError).0 == Value(true)
    ensures NextMessage(w).0.Value? && NextMessage(w).0.value.id == ID_BITFIELD
    ensures var written := Put(NextMessage(w).1, EncodeMessage(INTERESTED_MESSAGE));
      var second := NextMessage(written.1);
      && second.0.Value? && second.0.value.id == ID_UNCHOKE
      && InitSpec(w, abortOnWriteError).1 == second.1
    ensures abortOnWriteError ==> InitSpec(w, abortOnWriteError).1.sent == w.sent + [0, 0, 0, 5, 2]
  {
    InterestedBytes();
  }

  /** A first message other than a bitfield ends the exchange: nil, and nothing written. */
  lemma InitRejectsOtherFirstMessage(w: Wire, abortOnWriteError: bool)
    requires NextMessage(w).0.Value? && NextMessage(w).0.value.id != ID_BITFIELD
    ensures InitSpec(w, abortOnWriteError).0 == Value(false)
    ensures InitSpec(w, abortOnWriteError).1.sent == w.sent
  {
  }

  /**
   * The two copies part ways on a failed interested write: the package
   * version gives up at once, the older copy goes on and takes the unchoke.
   */
  lemma WriteFailureAbortsOnlyPackageInit(w: Wire, bitfield: seq<byte>, unchoke: seq<byte>, rest: seq<byte>)
    requires Framable(Message(ID_BITFIELD, bitfield)) && Framable(Message(ID_UNCHOKE, unchoke))
    requires w.incoming == Frame(Message(ID_BITFIELD, bitfield)) + Frame(Message(ID_UNCHOKE, unchoke)) + rest
    requires !WriteSucceeds(w)
    ensures InitSpec(w, true) == (Value(false), Wire(Frame(Message(ID_UNCHOKE, unchoke)) + rest, w.sent, Later(w.writeFails)))
    ensures InitSpec(w, false) == (Value(true), Wire(rest, w.sent, Later(w.writeFails)))
  {
    var second := Frame(Message(ID_UNCHOKE, unchoke));
    assert w.incoming == Frame(Message(ID_BITFIELD, bitfield)) + (second + rest);
    NextMessageOfFrame(w, Message(ID_BITFIELD, bitfield), second + rest);
    NextMessageOfFrame(Wire(second + rest, w.sent, Later(w.writeFails)), Message(ID_UNCHOKE, unchoke), rest);
  }

  // ---------------------------------------------------------------------------
  // Piece sizes and the block schedule of requestPiece
  // ---------------------------------------------------------------------------

  /** The size requestPiece asks for: the remainder for the last, short piece, the piece length otherwise. */
  function PieceSize(info: Torrent.InfoDict, index: int): (r: int)
    requires info.pieceLength != 0
    ensures info.length >= 0 && info.pieceLength > 0 ==> 0 < r <= info.pieceLength
  {
    var length := info.length;
    var pieceLength := info.pieceLength;
    if index == GoDiv(length, pieceLength) && GoMod(length, pieceLength) != 0 then GoMod(length, pieceLength)
    else pieceLength
  }

  /** The number of pieces of a torrent: the whole ones and a short last one, if any. */
  function PieceCount(info: Torrent.InfoDict): nat
    requires info.length >= 0 && info.pieceLength > 0
  {
    info.length / info.pieceLength + (if info.length % info.pieceLength == 0 then 0 else 1)
  }

  /** Every piece but the last is a whole piece; the last one holds what is left of the length. */
  lemma PieceSizeOfIndex(info: Torrent.InfoDict, index: int)
    requires info.length >= 0 && info.pieceLength > 0
    requires 0 <= index < PieceCount(info)
    ensures 0 < PieceSize(info, index) <= info.pieceLength
    ensures index < PieceCount(info) - 1 ==> PieceSize(info, index) == info.pieceLength
    ensures index == PieceCount(info) - 1 ==> PieceSize(info, index) == info.length - index * info.pieceLength
  {
    var q, m := info.length / info.pieceLength, info.length % info.pieceLength;
    assert info.length == q * info.pieceLength + m;
  }

  /** The sizes of pieces 0 to k-1 added up. */
  function SizesBelow(info: Torrent.InfoDict, k: nat): int
    requires info.pieceLength != 0
  {
    if k == 0 then 0 else SizesBelow(info, k - 1) + PieceSize(info, k - 1)
  }

  lemma {:induction false} WholePiecesBelow(info: Torrent.InfoDict, k: nat)
    requires info.length >= 0 && info.pieceLength > 0
    requires k <= info.length / info.pieceLength
    ensures SizesBelow(info, k) == k * info.pieceLength
  {
    if k > 0 {
      WholePiecesBelow(info, k - 1);
    }
  }

  /** The sizes of all the pieces add up to the torrent's length. */
  lemma PieceSizesSum(info: Torrent.InfoDict)
    requires info.length >= 0 && info.pieceLength > 0
    ensures SizesBelow(info, PieceCount(info)) == info.length
  {
    var q := info.length / info.pieceLength;
    WholePiecesBelow(info, q);
    assert info.length == q * info.pieceLength + info.length % info.pieceLength;
  }

  datatype Block = Block(begin: int, length: int)

  /** A block is BLOCK_LENGTH bytes, or what is left of the piece when that is less. */
  function BlockLength(size: int, begin: int): int
  {
    if begin + BLOCK_LENGTH > size then size - begin else BLOCK_LENGTH
  }

  /** The blocks requestPiece requests from offset `begin` of a piece of `size` bytes, in order. */
  function Blocks(size: int, begin: int): seq<Block>
    decreases size - begin
  {
    if begin >= size then [] else [Block(begin, BlockLength(size, begin))] + Blocks(size, begin + BLOCK_LENGTH)
  }

  function TotalLength(blocks: seq<Block>): int
  {
    if blocks == [] then 0 else blocks[0].length + TotalLength(blocks[1..])
  }

  /** The blocks cover the rest of the piece exactly. */
  lemma {:induction false} BlocksCover(size: int, begin: int)
    requires begin <= size
    ensures TotalLength(Blocks(size, begin)) == size - begin
    decreases size - begin
  {
    if begin < size {
      var blocks := Blocks(size, begin);
      assert blocks[1..] == Blocks(size, begin + BLOCK_LENGTH);
      if begin + BLOCK_LENGTH <= size {
        BlocksCover(size, begin + BLOCK_LENGTH);
      } else {
        assert Blocks(size, begin + BLOCK_LENGTH) == [];
      }
    }
  }

  /** The k-th block starts k block lengths in, inside the piece, and is min(16384, size - begin) long. */
  lemma {:induction false} BlockOfIndex(size: int, begin: int, k: nat)
    requires k < |Blocks(size, begin)|
    ensures Blocks(size, begin)[k] == Block(begin + k * BLOCK_LENGTH, Min(BLOCK_LENGTH, size - (begin + k * BLOCK_LENGTH)))
    ensures 0 < Blocks(size, begin)[k].length <= BLOCK_LENGTH && begin + k * BLOCK_LENGTH < size
    decreases size - begin
  {
    if k > 0 {
      BlockOfIndex(size, begin + BLOCK_LENGTH, k - 1);
    }
  }

  /** A piece of `size` bytes takes ceil(size / 16384) requests. */
  lemma {:induction false} BlockCount(size: int, begin: int)
    requires begin <= size
    ensures |Blocks(size, begin)| == (size - begin + BLOCK_LENGTH - 1) / BLOCK_LENGTH
    decreases size - begin
  {
    if begin < size {
      if begin + BLOCK_LENGTH <= size {
        BlockCount(size, begin + BLOCK_LENGTH);
      } else {
        assert Blocks(size, begin + BLOCK_LENGTH) == [];
      }
    }
  }

  // ---------------------------------------------------------------------------
  // requestPiece
  // ---------------------------------------------------------------------------

  /** The request for one block of piece `index`, as `binary.Write` lays it out. */
  function RequestBytes(index: int, block: Block): (r: seq<byte>)
    ensures |r| == 17
  {
    Serialize(RequestMessage(index, block.begin, block.length))
  }

  /**
   * The loop of requestPiece from offset `begin`, with `data` gathered so far
   * and `live` false for a nil connection, whose first write panics: each
   * round writes the request for the next block, and a failed write gives
   * nil; the reply is then read by Receive.
   */
  function Fetch(w: Wire, live: bool, index: int, size: int, begin: int, data: seq<byte>): (r: (PieceResult, Wire))
    ensures !live ==> r.1 == w
    ensures r.0.Data? ==> data <= r.0.bytes
    ensures w.sent <= r.1.sent && |r.1.incoming| <= |w.incoming|
    decreases size - begin, 1
  {
    if begin >= size then (Data(data), w)
    else if !live then (Crash, w)
    else
      var written := Put(w, RequestBytes(index, Block(begin, BlockLength(size, begin))));
      if !written.0 then (Nil, written.1)
      else Receive(written.1, index, size, begin, data)
  }

  /**
   * The second half of a round: read the reply to the request for the block
   * at `begin`; an id other than 7 gives nil, a content shorter than its
   * 8-byte index and begin panics, and otherwise the content after those 8
   * bytes is kept and the loop goes on with the next block.
   */
  function Receive(w: Wire, index: int, size: int, begin: int, data: seq<byte>): (r: (PieceResult, Wire))
    requires begin < size
    ensures r.0.Data? ==> data <= r.0.bytes
    ensures w.sent <= r.1.sent && |r.1.incoming| <= |w.incoming|
    decreases size - begin, 0
  {
    var reply := NextMessage(w);
    match reply.0
    case Panic => (Crash, reply.1)
    case Value(m) =>
      if m.id != ID_PIECE then (Nil, reply.1)
      else if |m.content| < 8 then (Crash, reply.1)
      else Fetch(reply.1, true, index, size, begin + BLOCK_LENGTH, data + m.content[8..])
  }

  /**
   * requestPiece on a connection (`live`) or on nil; a zero piece length
   * panics on the division that picks the piece's size, before any exchange.
   */
  function RequestPieceSpec(w: Wire, live: bool, info: Torrent.InfoDict, index: int): (r: (PieceResult, Wire))
    ensures !live ==> r.1 == w
    ensures r.0.Data? ==> info.pieceLength != 0
    ensures w.sent <= r.1.sent && |r.1.incoming| <= |w.incoming|
  {
    if info.pieceLength == 0 then (Crash, w)
    else Fetch(w, live, index, PieceSize(info, index), 0, [])
  }

  /**
   * requestPiece: the size of the piece, then the loop over its blocks; on a
   * nil connection the first write of the loop panics.
   */
  method RequestPiece(conn: Connection?, info: Torrent.InfoDict, index: int) returns (r: PieceResult)
    modifies conn
    ensures conn != null ==> (r, conn.State()) == RequestPieceSpec(old(conn.State()), true, info, index)
    ensures conn == null ==> forall w :: RequestPieceSpec(w, false, info, index) == (r, w)
  {
    if info.pieceLength == 0 {
      return Crash;
    }
    var size := PieceSize(info, index);
    if conn != null {
      r := FetchBlocks(conn, index, size);
    } else {
      if size > 0 {
        r := Crash;
      } else {
        r := Data([]);
      }
      forall w
        ensures RequestPieceSpec(w, false, info, index) == (r, w)
      {
        RequestOnNilConnection(w, info, index);
      }
    }
  }

  /** How one round of requestPiece's loop ends: with the block's data, or with the loop's result. */
  datatype Round = Next(payload: seq<byte>) | Stop(result: PieceResult)

  /** The loop of requestPiece over the blocks of a piece of `size` bytes. */
  method FetchBlocks(conn: Connection, index: int, size: int) returns (r: PieceResult)
    modifies conn
    ensures (r, conn.State()) == Fetch(old(conn.State()), true, index, size, 0, [])
  {
    var data: seq<byte> := [];
    var begin := 0;
    ghost var promised := Fetch(conn.State(), true, index, size, 0, []);
    while begin < size
      invariant promised == Fetch(conn.State(), true, index, size, begin, data)
      decreases size - begin
    {
      var round := FetchBlock(conn, index, size, begin, data);
      match round
      case Stop(result) =>
        return result;
      case Next(payload) =>
        data := data + payload;
        begin := begin + BLOCK_LENGTH;
    }
    return Data(data);
  }

  /**
   * The body of requestPiece's loop for the block at `begin`: the request,
   * then the reply; it ends the loop where one round of Fetch does, and
   * otherwise hands on the block's data.
   */
  method FetchBlock(conn: Connection, index: int, size: int, begin: int, ghost data: seq<byte>) returns (round: Round)
    requires begin < size
    modifies conn
    ensures round.Stop? ==> Fetch(old(conn.State()), true, index, size, begin, data) == (round.result, conn.State())
    ensures round.Next? ==> Fetch(old(conn.State()), true, index, size, begin, data)
                            == Fetch(conn.State(), true, index, size, begin + BLOCK_LENGTH, data + round.payload)
  {
    var block := BLOCK_LENGTH;
    if begin + BLOCK_LENGTH > size {
      block := size - begin;
    }
    assert block == BlockLength(size, begin);
    var ok := conn.Write(Serialize(RequestMessage(index, begin, block)));
    if !ok {
      return Stop(Nil);
    }
    var reply := GetMsgFromConn(conn);
    if reply.Panic? {
      return Stop(Crash);
    }
    if reply.value.id != ID_PIECE {
      return Stop(Nil);
    }
    if |reply.value.content| < 8 {
      return Stop(Crash);
    }
    return Next(reply.value.content[8..]);
  }

  function Frames(ms: seq<Message>): seq<byte>
    requires forall k :: 0 <= k < |ms| ==> Framable(ms[k])
  {
    if ms == [] then [] else Frame(ms[0]) + Frames(ms[1..])
  }

  /** The block data of the replies: each content after its 8-byte index and begin, in order. */
  function Payloads(ms: seq<Message>): seq<byte>
    requires forall k :: 0 <= k < |ms| ==> |ms[k].content| >= 8
  {
    if ms == [] then [] else ms[0].content[8..] + Payloads(ms[1..])
  }

  /** The request bytes for the blocks, in order. */
  function Requests(index: int, blocks: seq<Block>): seq<byte>
  {
    if blocks == [] then [] else RequestBytes(index, blocks[0]) + Requests(index, blocks[1..])
  }

  /** A round answered by a piece message moves the loop on one block, keeping that message's block data. */
  lemma FetchRound(w: Wire, index: int, size: int, begin: int, data: seq<byte>, m: Message, tail: seq<byte>)
    requires begin < size
    requires m.id == ID_PIECE && |m.content| >= 8 && Framable(m)
    requires w.incoming == Frame(m) + tail && w.writeFails == []
    ensures Fetch(w, true, index, size, begin, data)
         == Fetch(Wire(tail, w.sent + RequestBytes(index, Block(begin, BlockLength(size, begin))), []), true, index, size, begin + BLOCK_LENGTH, data + m.content[8..])
  {
    var written := Wire(w.incoming, w.sent + RequestBytes(index, Block(begin, BlockLength(size, begin))), []);
    NextMessageOfFrame(written, m, tail);
  }

  /** A round whose request goes through and is answered by a message of another id makes the piece nil. */
  lemma FetchRefused(w: Wire, index: int, size: int, begin: int, data: seq<byte>, m: Message, tail: seq<byte>)
    requires begin < size
    requires m.id != ID_PIECE && Framable(m)
    requires w.incoming == Frame(m) + tail && w.writeFails == []
    ensures Fetch(w, true, index, size, begin, data).0 == Nil
  {
    var written := Wire(w.incoming, w.sent + RequestBytes(index, Block(begin, BlockLength(size, begin))), []);
    NextMessageOfFrame(written, m, tail);
  }

  lemma Associative<T>(a: seq<T>, b: seq<T>, c: seq<T>)
    ensures a + b + c == a + (b + c)
  {
  }

  /** The first reply's frame, block data and request come first in the concatenations. */
  lemma FirstReply(index: int, size: int, begin: int, replies: seq<Message>, rest: seq<byte>)
    requires begin < size && |replies| == |Blocks(size, begin)|
    requires forall k :: 0 <= k < |replies| ==> replies[k].id == ID_PIECE && |replies[k].content| >= 8 && Framable(replies[k])
    ensures |replies[1..]| == |Blocks(size, begin + BLOCK_LENGTH)|
    ensures Frames(replies) + rest == Frame(replies[0]) + (Frames(replies[1..]) + rest)
    ensures Payloads(replies) == replies[0].content[8..] + Payloads(replies[1..])
    ensures Requests(index, Blocks(size, begin))
         == RequestBytes(index, Block(begin, BlockLength(size, begin))) + Requests(index, Blocks(size, begin + BLOCK_LENGTH))
  {
  }

  /**
   * One well-formed piece reply per block: the piece is the replies' block
   * data in request order, every block has been requested in order, and
   * exactly the replies have been consumed.
   */
  lemma {:induction false} FetchAnswered(w: Wire, index: int, size: int, begin: int, data: seq<byte>, replies: seq<Message>, rest: seq<byte>)
    requires forall k :: 0 <= k < |replies| ==> replies[k].id == ID_PIECE && |replies[k].content| >= 8 && Framable(replies[k])
    requires |replies| == |Blocks(size, begin)|
    requires w.incoming == Frames(replies) + rest
    requires w.writeFails == []
    ensures Fetch(w, true, index, size, begin, data)
         == (Data(data + Payloads(replies)), Wire(rest, w.sent + Requests(index, Blocks(size, begin)), []))
    decreases size - begin
  {
    if begin < size {
      FirstReply(index, size, begin, replies, rest);
      var m, later := replies[0], replies[1..];
      var request := RequestBytes(index, Block(begin, BlockLength(size, begin)));
      var tail := Frames(later) + rest;
      FetchRound(w, index, size, begin, data, m, tail);
      FetchAnswered(Wire(tail, w.sent + request, []), index, size, begin + BLOCK_LENGTH, data + m.content[8..], later, rest);
      Associative(data, m.content[8..], Payloads(later));
      Associative(w.sent, request, Requests(index, Blocks(size, begin + BLOCK_LENGTH)));
    } else {
      NothingLeftToFetch(w, index, size, begin, data, replies, rest);
    }
  }

  /** At the end of the piece no reply is read and nothing more is sent. */
  lemma NothingLeftToFetch(w: Wire, index: int, size: int, begin: int, data: seq<byte>, replies: seq<Message>, rest: seq<byte>)
    requires begin >= size
    requires forall k :: 0 <= k < |replies| ==> replies[k].id == ID_PIECE && |replies[k].content| >= 8 && Framable(replies[k])
    requires |replies| == |Blocks(size, begin)|
    requires w.incoming == Frames(replies) + rest
    requires w.writeFails == []
    ensures Fetch(w, true, index, size, begin, data)
         == (Data(data + Payloads(replies)), Wire(rest, w.sent + Requests(index, Blocks(size, begin)), []))
  {
    assert Blocks(size, begin) == [] && replies == [];
    assert w.incoming == rest && data + Payloads(replies) == data;
    assert w == Wire(rest, w.sent + Requests(index, Blocks(size, begin)), []);
  }

  /** After well-formed replies to the first blocks, a reply with another id makes the piece nil. */
  lemma {:induction false} FetchStopsAtOtherReply(w: Wire, index: int, size: int, begin: int, data: seq<byte>, replies: seq<Message>, other: Message, rest: seq<byte>)
    requires forall k :: 0 <= k < |replies| ==> replies[k].id == ID_PIECE && |replies[k].content| >= 8 && Framable(replies[k])
    requires Framable(other) && other.id != ID_PIECE
    requires |replies| < |Blocks(size, begin)|
    requires w.incoming == Frames(replies) + Frame(other) + rest
    requires w.writeFails == []
    ensures Fetch(w, true, index, size, begin, data).0 == Nil
    decreases size - begin
  {
    var block := Block(begin, BlockLength(size, begin));
    assert begin < size;
    if replies == [] {
      FetchRefused(w, index, size, begin, data, other, rest);
    } else {
      var m := replies[0];
      var tail := Frames(replies[1..]) + Frame(other) + rest;
      assert w.incoming == Frame(m) + tail;
      FetchRound(w, index, size, begin, data, m, tail);
      assert Blocks(size, begin)[1..] == Blocks(size, begin + BLOCK_LENGTH);
      var next := Wire(tail, w.sent + RequestBytes(index, block), []);
      FetchStopsAtOtherReply(next, index, size, begin + BLOCK_LENGTH, data + m.content[8..], replies[1..], other, rest);
    }
  }

  /** On a nil connection requestPiece panics at its first write; a piece of no bytes asks for nothing. */
  lemma RequestOnNilConnection(w: Wire, info: Torrent.InfoDict, index: int)
    requires info.pieceLength != 0
    ensures RequestPieceSpec(w, false, info, index) == (if PieceSize(info, index) > 0 then Crash else Data([]), w)
  {
  }

  // ---------------------------------------------------------------------------
  // DownloadPiece and the older downloadPiece
  // ---------------------------------------------------------------------------

  /** The index check both copies make before any exchange. */
  predicate IndexAccepted(info: Torrent.InfoDict, index: int)
    requires info.pieceLength != 0
    ensures info.length >= 0 && info.pieceLength > 0 ==>
      (IndexAccepted(info, index) <==> 0 <= index <= info.length / info.pieceLength)
  {
    !(index > GoDiv(info.length, info.pieceLength) || index < 0)
  }

  /** The package DownloadPiece: the check, downloadInit, then requestPiece on what it returned. */
  function DownloadPieceSpec(w: Wire, info: Torrent.InfoDict, index: int): (r: (PieceResult, Wire))
    ensures r.0.Data? ==> info.pieceLength != 0 && IndexAccepted(info, index)
  {
    if info.pieceLength == 0 then (Crash, w)
    else if !IndexAccepted(info, index) then (Nil, w)
    else
      var init := InitSpec(w, true);
      match init.0
      case Panic => (Crash, init.1)
      case Value(live) => RequestPieceSpec(init.1, live, info, index)
  }

  /** The older downloadPiece: the same exchange inline, stopping with nil where downloadInit would return nil. */
  function DownloadPieceLegacySpec(w: Wire, info: Torrent.InfoDict, index: int): (r: (PieceResult, Wire))
    ensures r.0.Data? ==> info.pieceLength != 0 && IndexAccepted(info, index)
  {
    if info.pieceLength == 0 then (Crash, w)
    else if !IndexAccepted(info, index) then (Nil, w)
    else
      var init := InitSpec(w, false);
      match init.0
      case Panic => (Crash, init.1)
      case Value(live) => if live then RequestPieceSpec(init.1, true, info, index) else (Nil, init.1)
  }

  method DownloadPiece(conn: Connection, info: Torrent.InfoDict, index: int) returns (r: PieceResult)
    modifies conn
    ensures (r, conn.State()) == DownloadPieceSpec(old(conn.State()), info, index)
  {
    if info.pieceLength == 0 {
      return Crash;
    }
    if index > GoDiv(info.length, info.pieceLength) || index < 0 {
      return Nil;
    }
    var init := DownloadInit(conn);
    if init.Panic? {
      return Crash;
    }
    r := RequestPiece(init.value, info, index);
  }

  method DownloadPieceLegacy(conn: Connection, info: Torrent.InfoDict, index: int) returns (r: PieceResult)
    modifies conn
    ensures (r, conn.State()) == DownloadPieceLegacySpec(old(conn.State()), info, index)
  {
    if info.pieceLength == 0 {
      return Crash;
    }
    if index > GoDiv(info.length, info.pieceLength) || index < 0 {
      return Nil;
    }
    var first := GetMsgFromConn(conn);
    if first.Panic? {
      return Crash;
    }
    if first.value.id != ID_BITFIELD {
      return Nil;
    }
    var _ := conn.Write(EncodeMessage(INTERESTED_MESSAGE));
    var second := GetMsgFromConn(conn);
    if second.Panic? {
      return Crash;
    }
    if second.value.id != ID_UNCHOKE {
      return Nil;
    }
    r := RequestPiece(conn, info, index);
  }

  /** A rejected index returns nil with the connection untouched, in both copies. */
  lemma RejectedIndexLeavesConnection(w: Wire, info: Torrent.InfoDict, index: int)
    requires info.pieceLength != 0
    requires index < 0 || index > GoDiv(info.length, info.pieceLength)
    ensures DownloadPieceSpec(w, info, index) == (Nil, w)
    ensures DownloadPieceLegacySpec(w, info, index) == (Nil, w)
  {
  }

  /**
   * 64-bit division in the check: the most negative length over a piece
   * length of -1 wraps to that length, so every index is rejected and both
   * copies return nil before any exchange.
   */
  lemma WrappedQuotientRejectsEveryIndex(w: Wire, info: Torrent.InfoDict, index: int)
    requires info.length == -INT64_BOUND && info.pieceLength == -1
    ensures !IndexAccepted(info, index)
    ensures DownloadPieceSpec(w, info, index) == (Nil, w) && DownloadPieceLegacySpec(w, info, index) == (Nil, w)
  {
    GoQuotientInRange(info.length, info.pieceLength);
  }

  /**
   * When the length is a whole number of pieces, the check still accepts the
   * index one past the last piece, and a whole piece is requested for it.
   */
  lemma GuardAcceptsIndexPastEnd(info: Torrent.InfoDict)
    requires info.length >= 0 && info.pieceLength > 0 && info.length % info.pieceLength == 0
    ensures IndexAccepted(info, PieceCount(info))
    ensures PieceSize(info, PieceCount(info)) == info.pieceLength
  {
  }

  /** Every index of an existing piece passes the check. */
  lemma GuardAcceptsEveryPiece(info: Torrent.InfoDict, index: int)
    requires info.length >= 0 && info.pieceLength > 0
    requires 0 <= index < PieceCount(info)
    ensures IndexAccepted(info, index)
  {
  }

  /**
   * The whole exchange for one piece, in both copies: bitfield, interested,
   * unchoke, then one request and one piece reply per block; the result is
   * the replies' block data in order.
   */
  lemma DownloadPieceExchange(w: Wire, info: Torrent.InfoDict, index: int, bitfield: seq<byte>, unchoke: seq<byte>, replies: seq<Message>, rest: seq<byte>)
    requires info.pieceLength != 0 && IndexAccepted(info, index)
    requires Framable(Message(ID_BITFIELD, bitfield)) && Framable(Message(ID_UNCHOKE, unchoke))
    requires forall k :: 0 <= k < |replies| ==> replies[k].id == ID_PIECE && |replies[k].content| >= 8 && Framable(replies[k])
    requires |replies| == |Blocks(PieceSize(info, index), 0)|
    requires w.incoming == Frame(Message(ID_BITFIELD, bitfield)) + Frame(Message(ID_UNCHOKE, unchoke)) + Frames(replies) + rest
    requires w.writeFails == []
    ensures var expected := (Data(Payloads(replies)),
      Wire(rest, w.sent + [0, 0, 0, 5, 2] + Requests(index, Blocks(PieceSize(info, index), 0)), []));
      DownloadPieceSpec(w, info, index) == expected && DownloadPieceLegacySpec(w, info, index) == expected
  {
    var initial := Frame(Message(ID_BITFIELD, bitfield)) + Frame(Message(ID_UNCHOKE, unchoke));
    var tail := Frames(replies) + rest;
    assert w.incoming == initial + tail;
    InitSequence(w, true, bitfield, unchoke, tail);
    InitSequence(w, false, bitfield, unchoke, tail);
    var after := Wire(tail, w.sent + [0, 0, 0, 5, 2], []);
    FetchAnswered(after, index, PieceSize(info, index), 0, [], replies, rest);
    assert [] + Payloads(replies) == Payloads(replies);
  }

  /**
   * The copies also part ways when downloadInit returns nil: the package
   * version calls requestPiece on the nil connection and panics, the older
   * copy returns nil.
   */
  lemma NoBitfieldCrashesOnlyPackageDownload(w: Wire, info: Torrent.InfoDict, index: int)
    requires info.pieceLength != 0 && IndexAccepted(info, index) && PieceSize(info, index) > 0
    requires NextMessage(w).0.Value? && NextMessage(w).0.value.id != ID_BITFIELD
    ensures DownloadPieceSpec(w, info, index).0 == Crash
    ensures DownloadPieceLegacySpec(w, info, index).0 == Nil
  {
  }

  // ---------------------------------------------------------------------------
  // Download
  // ---------------------------------------------------------------------------

  /** The comparison Download makes: the hex of the piece's SHA-1 against the recorded hex. */
  predicate HashMatches(piece: seq<byte>, hash: seq<byte>, sha1: seq<byte> -> Torrent.Digest)
  {
    Hex.EncodeToString(sha1(piece)) == hash
  }

  /** Comparing hex renderings is comparing the 20-byte digests themselves. */
  lemma HashMatchesDigest(piece: seq<byte>, pieces: seq<byte>, spare: seq<byte>, k: nat, sha1: seq<byte> -> Torrent.Digest)
    requires Bencode.PieceHashes(pieces, spare).Some? && k < Bencode.HashCount(|pieces|)
    ensures HashMatches(piece, Bencode.PieceHashes(pieces, spare).value[k], sha1) <==> sha1(piece) == (pieces + spare)[20 * k .. 20 * k + 20]
  {
    Hex.EncodeInjective(sha1(piece), (pieces + spare)[20 * k .. 20 * k + 20]);
  }

  /** The bytes of a fetched piece; a nil piece is an empty slice. */
  function PieceBytes(p: PieceResult): seq<byte>
  {
    if p.Data? then p.bytes else []
  }

  /**
   * The loop of Download from piece `i`: fetch the piece (a nil piece counts
   * as no bytes), compare its hash, and append it.
   */
  function DownloadLoop(w: Wire, live: bool, info: Torrent.InfoDict, hashes: seq<seq<byte>>, sha1: seq<byte> -> Torrent.Digest, i: nat, data: seq<byte>): (r: (PieceResult, Wire))
    requires i <= |hashes|
    ensures r.0.Data? ==> data <= r.0.bytes
    decreases |hashes| - i
  {
    if i == |hashes| then (Data(data), w)
    else
      var fetched := RequestPieceSpec(w, live, info, i);
      if fetched.0.Crash? then (Crash, fetched.1)
      else
        var piece := PieceBytes(fetched.0);
        if !HashMatches(piece, hashes[i], sha1) then (Nil, fetched.1)
        else DownloadLoop(fetched.1, live, info, hashes, sha1, i + 1, data + piece)
  }

  /**
   * Download on a torrent whose pieces string is followed by `spare` in its
   * backing array: splitPiecesIntoHashes (which may panic), downloadInit,
   * then every piece in order.
   */
  function DownloadSpec(w: Wire, info: Torrent.InfoDict, spare: seq<byte>, sha1: seq<byte> -> Torrent.Digest): (r: (PieceResult, Wire))
    ensures r.0.Data? ==> Bencode.PieceHashes(info.pieces, spare).Some?
  {
    match Bencode.PieceHashes(info.pieces, spare)
    case None => (Crash, w)
    case Some(hashes) =>
      var init := InitSpec(w, true);
      match init.0
      case Panic => (Crash, init.1)
      case Value(live) => DownloadLoop(init.1, live, info, hashes, sha1, 0, [])
  }

  method Download(conn: Connection, info: Torrent.InfoDict, spare: seq<byte>, sha1: seq<byte> -> Torrent.Digest) returns (r: PieceResult)
    modifies conn
    ensures (r, conn.State()) == DownloadSpec(old(conn.State()), info, spare, sha1)
  {
    var split := Bencode.SplitPiecesIntoHashes(info.pieces, spare);
    if split.None? {
      return Crash;
    }
    var init := DownloadInit(conn);
    if init.Panic? {
      return Crash;
    }
    r := DownloadPieces(init.value, conn.State(), info, split.value, sha1);
  }

  /** Download's loop over the pieces, on the connection downloadInit returned (or nil). */
  method DownloadPieces(live: Connection?, ghost nilState: Wire, info: Torrent.InfoDict, hashes: seq<seq<byte>>, sha1: seq<byte> -> Torrent.Digest) returns (r: PieceResult)
    modifies live
    ensures live != null ==> (r, live.State()) == DownloadLoop(old(live.State()), true, info, hashes, sha1, 0, [])
    ensures live == null ==> (r, nilState) == DownloadLoop(nilState, false, info, hashes, sha1, 0, [])
  {
    var data: seq<byte> := [];
    ghost var start := if live != null then live.State() else nilState;
    ghost var state := start;
    var i := 0;
    while i < |hashes|
      invariant i <= |hashes|
      invariant live != null ==> state == live.State()
      invariant live == null ==> state == nilState
      invariant DownloadLoop(start, live != null, info, hashes, sha1, 0, []) == DownloadLoop(state, live != null, info, hashes, sha1, i, data)
      decreases |hashes| - i
    {
      var fetched := RequestPiece(live, info, i);
      if live != null {
        state := live.State();
      }
      if fetched.Crash? {
        return Crash;
      }
      var piece := PieceBytes(fetched);
      if Hex.EncodeToString(sha1(piece)) != hashes[i] {
        return Nil;
      }
      data := data + piece;
      i := i + 1;
    }
    return Data(data);
  }

  /**
   * `wires[j]` is the connection before requestPiece of piece i + j, which
   * gives `got[j]` and leaves the connection `wires[j + 1]`.
   */
  predicate Fetches(wires: seq<Wire>, got: seq<PieceResult>, live: bool, info: Torrent.InfoDict, i: nat)
  {
    |wires| == |got| + 1 && forall j :: 0 <= j < |got| ==> RequestPieceSpec(wires[j], live, info, i + j) == (got[j], wires[j + 1])
  }

  /** The fetched pieces' bytes, concatenated in order. */
  function Delivered(got: seq<PieceResult>): seq<byte>
  {
    if got == [] then [] else PieceBytes(got[0]) + Delivered(got[1..])
  }

  /** A successful round of the loop: the piece matched its hash, and the loop went on from the next piece. */
  lemma DownloadLoopStep(w: Wire, live: bool, info: Torrent.InfoDict, hashes: seq<seq<byte>>, sha1: seq<byte> -> Torrent.Digest, i: nat, data: seq<byte>)
    requires i < |hashes|
    requires DownloadLoop(w, live, info, hashes, sha1, i, data).0.Data?
    ensures var fetched := RequestPieceSpec(w, live, info, i);
      && !fetched.0.Crash? && HashMatches(PieceBytes(fetched.0), hashes[i], sha1)
      && DownloadLoop(w, live, info, hashes, sha1, i, data) == DownloadLoop(fetched.1, live, info, hashes, sha1, i + 1, data + PieceBytes(fetched.0))
  {
  }

  /**
   * What a successful run of the loop delivers: requestPiece of pieces i,
   * i+1, ... one after the other on the connection, none panicking and each
   * matching its recorded hash; the result is their bytes concatenated in
   * order, and the connection is left where the last fetch left it.
   */
  lemma {:induction false} DownloadedPiecesMatch(w: Wire, live: bool, info: Torrent.InfoDict, hashes: seq<seq<byte>>, sha1: seq<byte> -> Torrent.Digest, i: nat, data: seq<byte>)
    returns (got: seq<PieceResult>, wires: seq<Wire>)
    requires i <= |hashes|
    requires DownloadLoop(w, live, info, hashes, sha1, i, data).0.Data?
    ensures |got| == |hashes| - i && Fetches(wires, got, live, info, i) && wires[0] == w
    ensures forall k :: 0 <= k < |got| ==> !got[k].Crash? && HashMatches(PieceBytes(got[k]), hashes[i + k], sha1)
    ensures DownloadLoop(w, live, info, hashes, sha1, i, data) == (Data(data + Delivered(got)), wires[|got|])
    decreases |hashes| - i
  {
    if i == |hashes| {
      got, wires := [], [w];
      assert data + Delivered(got) == data;
    } else {
      DownloadLoopStep(w, live, info, hashes, sha1, i, data);
      var fetched := RequestPieceSpec(w, live, info, i);
      var piece := PieceBytes(fetched.0);
      var later, laterWires := DownloadedPiecesMatch(fetched.1, live, info, hashes, sha1, i + 1, data + piece);
      got, wires := [fetched.0] + later, [w] + laterWires;
      FetchesCons(w, fetched.0, laterWires, later, live, info, i);
      MatchedCons(fetched.0, later, hashes, sha1, i);
      assert got[1..] == later;
      assert Delivered(got) == piece + Delivered(later);
      Associative(data, piece, Delivered(later));
    }
  }

  /** A matched piece followed by matched pieces from the next index on. */
  lemma MatchedCons(p: PieceResult, got: seq<PieceResult>, hashes: seq<seq<byte>>, sha1: seq<byte> -> Torrent.Digest, i: nat)
    requires i + 1 + |got| <= |hashes|
    requires !p.Crash? && HashMatches(PieceBytes(p), hashes[i], sha1)
    requires forall k :: 0 <= k < |got| ==> !got[k].Crash? && HashMatches(PieceBytes(got[k]), hashes[(i + 1) + k], sha1)
    ensures forall k :: 0 <= k < |got| + 1 ==> !([p] + got)[k].Crash? && HashMatches(PieceBytes(([p] + got)[k]), hashes[i + k], sha1)
  {
    forall k | 0 <= k < |got| + 1
      ensures !([p] + got)[k].Crash? && HashMatches(PieceBytes(([p] + got)[k]), hashes[i + k], sha1)
    {
      if k > 0 {
        assert ([p] + got)[k] == got[k - 1] && i + k == (i + 1) + (k - 1);
      }
    }
  }

  /** A fetch followed by a chain of fetches from the next piece on is a chain from this piece. */
  lemma FetchesCons(w: Wire, p: PieceResult, wires: seq<Wire>, got: seq<PieceResult>, live: bool, info: Torrent.InfoDict, i: nat)
    requires Fetches(wires, got, live, info, i + 1)
    requires RequestPieceSpec(w, live, info, i) == (p, wires[0])
    ensures Fetches([w] + wires, [p] + got, live, info, i)
  {
    var wires', got' := [w] + wires, [p] + got;
    forall j | 0 <= j < |got'|
      ensures RequestPieceSpec(wires'[j], live, info, i + j) == (got'[j], wires'[j + 1])
    {
      if j > 0 {
        assert got'[j] == got[j - 1] && wires'[j] == wires[j - 1] && wires'[j + 1] == wires[j];
        assert RequestPieceSpec(wires[j - 1], live, info, (i + 1) + (j - 1)) == (got[j - 1], wires[j]);
        assert i + j == (i + 1) + (j - 1);
      }
    }
  }

  /** A chain of fetches without its first one is the chain from the next piece on. */
  lemma FetchesTail(wires: seq<Wire>, got: seq<PieceResult>, live: bool, info: Torrent.InfoDict, i: nat)
    requires Fetches(wires, got, live, info, i) && got != []
    ensures RequestPieceSpec(wires[0], live, info, i) == (got[0], wires[1])
    ensures Fetches(wires[1..], got[1..], live, info, i + 1)
  {
    assert RequestPieceSpec(wires[0], live, info, i + 0) == (got[0], wires[1]);
    forall j | 0 <= j < |got| - 1
      ensures RequestPieceSpec(wires[1..][j], live, info, (i + 1) + j) == (got[1..][j], wires[1..][j + 1])
    {
      assert RequestPieceSpec(wires[j + 1], live, info, i + (j + 1)) == (got[j + 1], wires[j + 2]);
      assert i + (j + 1) == (i + 1) + j;
    }
  }

  /** A fetch that neither panics nor mismatches moves the loop on to the next piece. */
  lemma LoopContinues(w: Wire, live: bool, info: Torrent.InfoDict, hashes: seq<seq<byte>>, sha1: seq<byte> -> Torrent.Digest, i: nat, data: seq<byte>, p: PieceResult, w': Wire)
    requires i < |hashes| && RequestPieceSpec(w, live, info, i) == (p, w')
    requires !p.Crash? && HashMatches(PieceBytes(p), hashes[i], sha1)
    ensures DownloadLoop(w, live, info, hashes, sha1, i, data) == DownloadLoop(w', live, info, hashes, sha1, i + 1, data + PieceBytes(p))
  {
  }

  /** A fetch that panics or mismatches ends the loop, with a panic or with nil. */
  lemma LoopStops(w: Wire, live: bool, info: Torrent.InfoDict, hashes: seq<seq<byte>>, sha1: seq<byte> -> Torrent.Digest, i: nat, data: seq<byte>)
    requires i < |hashes|
    requires var next := RequestPieceSpec(w, live, info, i);
      next.0.Crash? || !HashMatches(PieceBytes(next.0), hashes[i], sha1)
    ensures var next := RequestPieceSpec(w, live, info, i);
      DownloadLoop(w, live, info, hashes, sha1, i, data) == (if next.0.Crash? then Crash else Nil, next.1)
  {
  }

  /** Pieces i, ..., i+n-1 that all matched, without the first one. */
  lemma MatchedTail(got: seq<PieceResult>, hashes: seq<seq<byte>>, sha1: seq<byte> -> Torrent.Digest, i: nat)
    requires got != [] && i + |got| <= |hashes|
    requires forall k :: 0 <= k < |got| ==> !got[k].Crash? && HashMatches(PieceBytes(got[k]), hashes[i + k], sha1)
    ensures !got[0].Crash? && HashMatches(PieceBytes(got[0]), hashes[i], sha1)
    ensures forall k :: 0 <= k < |got| - 1 ==> !got[1..][k].Crash? && HashMatches(PieceBytes(got[1..][k]), hashes[(i + 1) + k], sha1)
  {
    assert !got[0].Crash? && HashMatches(PieceBytes(got[0]), hashes[i + 0], sha1);
    forall k | 0 <= k < |got| - 1
      ensures !got[1..][k].Crash? && HashMatches(PieceBytes(got[1..][k]), hashes[(i + 1) + k], sha1)
    {
      assert got[1..][k] == got[k + 1] && (i + 1) + k == i + (k + 1);
    }
  }

  /**
   * The other way round: once pieces i, ..., i+n-1 have been fetched and
   * matched, a next piece that panics or does not match its hash ends the
   * loop, with a panic or with nil, where that fetch left the connection.
   */
  lemma {:induction false} FailureStopsDownload(w: Wire, live: bool, info: Torrent.InfoDict, hashes: seq<seq<byte>>, sha1: seq<byte> -> Torrent.Digest, i: nat, data: seq<byte>, got: seq<PieceResult>, wires: seq<Wire>)
    requires Fetches(wires, got, live, info, i) && wires[0] == w && i + |got| < |hashes|
    requires forall k :: 0 <= k < |got| ==> !got[k].Crash? && HashMatches(PieceBytes(got[k]), hashes[i + k], sha1)
    requires var next := RequestPieceSpec(wires[|got|], live, info, i + |got|);
      next.0.Crash? || !HashMatches(PieceBytes(next.0), hashes[i + |got|], sha1)
    ensures var next := RequestPieceSpec(wires[|got|], live, info, i + |got|);
      DownloadLoop(w, live, info, hashes, sha1, i, data) == (if next.0.Crash? then Crash else Nil, next.1)
    decreases |got|
  {
    if got == [] {
      LoopStops(w, live, info, hashes, sha1, i, data);
    } else {
      var later, laterWires := got[1..], wires[1..];
      FetchesTail(wires, got, live, info, i);
      LoopContinues(w, live, info, hashes, sha1, i, data, got[0], wires[1]);
      MatchedTail(got, hashes, sha1, i);
      assert wires[|got|] == laterWires[|later|] && i + |got| == (i + 1) + |later|;
      FailureStopsDownload(wires[1], live, info, hashes, sha1, i + 1, data + PieceBytes(got[0]), later, laterWires);
    }
  }

  /**
   * A successful Download: splitPiecesIntoHashes did not panic, downloadInit
   * returned, and then requestPiece of pieces 0 to n-1 ran one after the
   * other on the connection, none panicking; the result is their bytes in
   * order, and the SHA-1 of each is the 20 bytes its hash was cut from.
   */
  lemma DownloadDeliversVerifiedPieces(w: Wire, info: Torrent.InfoDict, spare: seq<byte>, sha1: seq<byte> -> Torrent.Digest)
    returns (got: seq<PieceResult>, wires: seq<Wire>)
    requires DownloadSpec(w, info, spare, sha1).0.Data?
    ensures Bencode.PieceHashes(info.pieces, spare).Some? && InitSpec(w, true).0.Value?
    ensures |got| == Bencode.HashCount(|info.pieces|)
    ensures Fetches(wires, got, InitSpec(w, true).0.value, info, 0) && wires[0] == InitSpec(w, true).1
    ensures DownloadSpec(w, info, spare, sha1) == (Data(Delivered(got)), wires[|got|])
    ensures forall k :: 0 <= k < |got| ==> !got[k].Crash? && sha1(PieceBytes(got[k])) == (info.pieces + spare)[20 * k .. 20 * k + 20]
  {
    var init := InitSpec(w, true);
    var hashes := Bencode.PieceHashes(info.pieces, spare).value;
    got, wires := DownloadedPiecesMatch(init.1, init.0.value, info, hashes, sha1, 0, []);
    assert [] + Delivered(got) == Delivered(got);
    forall k | 0 <= k < |got|
      ensures sha1(PieceBytes(got[k])) == (info.pieces + spare)[20 * k .. 20 * k + 20]
    {
      assert HashMatches(PieceBytes(got[k]), hashes[0 + k], sha1);
      HashMatchesDigest(PieceBytes(got[k]), info.pieces, spare, k, sha1);
    }
  }

  /**
   * Download stops at the first piece that fails: after pieces 0 to n-1 have
   * been fetched with their digests matching, a piece n whose fetch panics
   * gives a panic, and one whose SHA-1 differs from its 20 bytes gives nil.
   */
  lemma DownloadStopsAtFirstFailure(w: Wire, info: Torrent.InfoDict, spare: seq<byte>, sha1: seq<byte> -> Torrent.Digest, got: seq<PieceResult>, wires: seq<Wire>)
    requires Bencode.PieceHashes(info.pieces, spare).Some? && InitSpec(w, true).0.Value?
    requires Fetches(wires, got, InitSpec(w, true).0.value, info, 0) && wires[0] == InitSpec(w, true).1
    requires |got| < Bencode.HashCount(|info.pieces|)
    requires forall k :: 0 <= k < |got| ==> !got[k].Crash? && sha1(PieceBytes(got[k])) == (info.pieces + spare)[20 * k .. 20 * k + 20]
    requires var next := RequestPieceSpec(wires[|got|], InitSpec(w, true).0.value, info, |got|);
      next.0.Crash? || sha1(PieceBytes(next.0)) != (info.pieces + spare)[20 * |got| .. 20 * |got| + 20]
    ensures var next := RequestPieceSpec(wires[|got|], InitSpec(w, true).0.value, info, |got|);
      DownloadSpec(w, info, spare, sha1) == (if next.0.Crash? then Crash else Nil, next.1)
  {
    var init := InitSpec(w, true);
    var hashes := Bencode.PieceHashes(info.pieces, spare).value;
    forall k | 0 <= k < |got|
      ensures HashMatches(PieceBytes(got[k]), hashes[0 + k], sha1)
    {
      HashMatchesDigest(PieceBytes(got[k]), info.pieces, spare, k, sha1);
    }
    var next := RequestPieceSpec(wires[|got|], init.0.value, info, |got|);
    HashMatchesDigest(PieceBytes(next.0), info.pieces, spare, |got|, sha1);
    FailureStopsDownload(init.1, init.0.value, info, hashes, sha1, 0, [], got, wires);
  }

  /**
   * A zero piece length: DownloadPiece panics on the division of its index
   * check, while Download of a torrent with no pieces never divides and
   * delivers nothing.
   */
  lemma ZeroPieceLength(w: Wire, info: Torrent.InfoDict, spare: seq<byte>, sha1: seq<byte> -> Torrent.Digest, index: int)
    requires info.pieceLength == 0
    ensures DownloadPieceSpec(w, info, index) == (Crash, w) && DownloadPieceLegacySpec(w, info, index) == (Crash, w)
    ensures info.pieces == [] && InitSpec(w, true).0.Value? ==> DownloadSpec(w, info, spare, sha1) == (Data([]), InitSpec(w, true).1)
    ensures info.pieces != [] && Bencode.PieceHashes(info.pieces, spare).Some? && InitSpec(w, true).0.Value? ==>
      DownloadSpec(w, info, spare, sha1) == (Crash, InitSpec(w, true).1)
  {
  }

  // ---------------------------------------------------------------------------
  // The handshake
  // ---------------------------------------------------------------------------

  /** The handshake sendTCPHandshake sends: 19, the protocol name, zeros, the info hash, our peer id. */
  function OurHandshake(info: Torrent.InfoDict, sha1: seq<byte> -> Torrent.Digest): (h: Handshake)
    ensures WellSized(h)
  {
    Handshake(19, PROTOCOL_NAME, Zeros(8), Torrent.Hash(info, sha1), MY_PEER_ID)
  }

  /** sendTCPHandshake: write the handshake (a failure is only reported), then one read of up to 68 bytes. */
  function HandshakeSpec(w: Wire, info: Torrent.InfoDict, sha1: seq<byte> -> Torrent.Digest): (r: (seq<byte>, Wire))
    ensures |r.0| <= 68
  {
    var written := Put(w, EncodeHandshake(OurHandshake(info, sha1)));
    ReadAvailable(written.1, 68)
  }

  method SendTCPHandshake(conn: Connection, info: Torrent.InfoDict, sha1: seq<byte> -> Torrent.Digest) returns (response: seq<byte>)
    modifies conn
    ensures (response, conn.State()) == HandshakeSpec(old(conn.State()), info, sha1)
  {
    var message := EncodeHandshake(Handshake(19, PROTOCOL_NAME, Zeros(8), Torrent.Hash(info, sha1), MY_PEER_ID));
    var _ := conn.Write(message);
    response := conn.Read(68);
  }

  /**
   * The handshake sent is 68 bytes: 19, "BitTorrent protocol", 8 zeros, the
   * SHA-1 of the encoded info dictionary and our peer id.
   */
  lemma OurHandshakeLayout(info: Torrent.InfoDict, sha1: seq<byte> -> Torrent.Digest)
    ensures var bytes := EncodeHandshake(OurHandshake(info, sha1));
      && |bytes| == 68 && bytes[0] == 19 && bytes[1..20] == PROTOCOL_NAME && bytes[20..28] == Zeros(8)
      && bytes[28..48] == sha1(Torrent.EncodeInfoDict(info)) && bytes[48..68] == MY_PEER_ID
  {
    HandshakeLayout(OurHandshake(info, sha1));
  }

  /**
   * Against a peer that answers with a whole handshake, the exchange sends
   * ours (when the write goes through), returns the peer's 68 bytes, and the
   * destructured response carries the peer's info hash and id.
   */
  lemma HandshakeExchange(w: Wire, info: Torrent.InfoDict, sha1: seq<byte> -> Torrent.Digest, theirs: Handshake, rest: seq<byte>)
    requires WellSized(theirs) && w.incoming == EncodeHandshake(theirs) + rest
    ensures var r := HandshakeSpec(w, info, sha1);
      && r.0 == EncodeHandshake(theirs) && r.1.incoming == rest
      && r.1.sent == (if WriteSucceeds(w) then w.sent + EncodeHandshake(OurHandshake(info, sha1)) else w.sent)
      && |r.0| == 68 && DestructureHandshakeResponse(r.0, Zeros(68 - |r.0|)) == Some(theirs.(resv := Zeros(8)))
  {
    WellSizedIs68(theirs);
    assert w.incoming[..68] == EncodeHandshake(theirs);
    DestructureEncoded(theirs, []);
  }

  /**
   * The response the handshake returns is `response[:n]` of a zeroed 68-byte
   * buffer: destructuring it panics exactly when the peer sent nothing.
   */
  lemma HandshakeResponseInBuffer(w: Wire, info: Torrent.InfoDict, sha1: seq<byte> -> Torrent.Digest)
    ensures var r := HandshakeSpec(w, info, sha1).0;
      DestructureHandshakeResponse(r, Zeros(68 - |r|)).None? <==> Put(w, EncodeHandshake(OurHandshake(info, sha1))).1.incoming == []
  {
    ShortResponseZeroFilled(HandshakeSpec(w, info, sha1).0);
  }
}
