/**
 * The bencoding decoder of `bencode.go` (the "bencoding" section of BEP 3, the
 * BitTorrent protocol specification).
 *
 * Each decoding step is a specification function over an immutable byte
 * sequence (ParsedString, ParsedInteger, TerminatorIndex, ParsedList,
 * ParsedDictionary, Parsed) and a method that runs the source's index loops
 * and is proved to compute exactly that function.  Wherever the Go code would
 * panic (an index or slice bound out of range) the model returns the explicit
 * error OutOfRange instead.
 */
module Bencode {
  import opened Wrappers
  import opened Binary
  import opened Decimal
  import opened Strings
  import Utf8
  import Hex

  const COLON: byte := 58
  const LETTER_D: byte := 100
  const LETTER_E: byte := 101
  const LETTER_I: byte := 105
  const LETTER_L: byte := 108

  /**
   * What `decodeBencode` returns.  A string payload comes back as text (Go
   * `string`) when it is valid UTF-8 and as raw bytes (Go `[]byte`) otherwise;
   * later code tells the two apart.  Dictionary keys are raw byte strings.
   */
  datatype Value =
    | Str(text: seq<byte>)
    | Bytes(raw: seq<byte>)
    | Int(n: int)
    | List(items: seq<Value>)
    | Dict(entries: map<seq<byte>, Value>)

  datatype Error =
    | NotANumber          // strconv.Atoi rejected a length or an integer
    | InvalidList         // "invalid list syntax"
    | InvalidDictionary   // "invalid dictionary syntax"
    | InvalidSyntax       // "invalid syntax": no value starts with this byte
    | OutOfRange          // the source panics here (index or slice bounds out of range)

  /** A decoded value and the input left after it. */
  datatype Decoded<T> = Decoded(value: T, rest: seq<byte>)

  /** How a string payload is returned: as text when it is valid UTF-8, as raw bytes otherwise. */
  function StringValue(payload: seq<byte>): (v: Value)
    ensures v.Str? <==> Utf8.Valid(payload)
    ensures v == Str(payload) || v == Bytes(payload)
  {
    if Utf8.Valid(payload) then Str(payload) else Bytes(payload)
  }

  // ----- decodeString -----

  /** Where decodeString's scan stops: the first ':', or 0 when there is none. */
  function ColonIndex(s: seq<byte>): (c: nat)
    ensures c <= |s|
  {
    match IndexFrom(s, COLON, 0)
    case Some(i) => i
    case None => 0
  }

  /**
   * decodeString: the decimal before the first ':' is the length n; the value
   * is the n bytes after the colon and the rest is what follows them.
   */
  function ParsedString(s: seq<byte>): (r: Result<Decoded<seq<byte>>, Error>)
    ensures r.Ok? ==> |r.value.rest| < |s|
    ensures r.Ok? ==> s == s[..ColonIndex(s)] + [COLON] + r.value.value + r.value.rest
    ensures r.Ok? ==> Atoi(s[..ColonIndex(s)]) == Some(|r.value.value|)
    ensures Atoi(s[..ColonIndex(s)]).None? ==> r == Err(NotANumber)
  {
    var c := ColonIndex(s);
    match Atoi(s[..c])
    case None => Err(NotANumber)
    case Some(n) =>
      if n < 0 || c + 1 + n > |s| then Err(OutOfRange)
      else
        assert s == s[..c] + [COLON] + s[c + 1 .. c + 1 + n] + s[c + 1 + n ..];
        Ok(Decoded(s[c + 1 .. c + 1 + n], s[c + 1 + n ..]))
  }

  method DecodeString(s: seq<byte>) returns (r: Result<Decoded<seq<byte>>, Error>)
    ensures r == ParsedString(s)
  {
    var firstColonIndex := 0;
    var i := 0;
    while i < |s|
      invariant 0 <= i <= |s|
      invariant IndexFrom(s, COLON, i) == IndexFrom(s, COLON, 0)
      invariant firstColonIndex == 0
    {
      if s[i] == COLON {
        firstColonIndex := i;
        break;
      }
      i := i + 1;
    }
    var length := Atoi(s[..firstColonIndex]);
    if length.None? {
      return Err(NotANumber);
    }
    var n := length.value;
    if n < 0 || firstColonIndex + 1 + n > |s| {
      return Err(OutOfRange);
    }
    return Ok(Decoded(s[firstColonIndex + 1 .. firstColonIndex + 1 + n], s[firstColonIndex + 1 + n ..]));
  }

  // ----- decodeInteger -----

  /** Where decodeInteger's scan stops: the first 'e' after the 'i', or the last index when there is none. */
  function IntegerEnd(s: seq<byte>): (k: int)
    requires |s| >= 1
    ensures 0 <= k < |s|
  {
    match IndexFrom(s, LETTER_E, 1)
    case Some(i) => i
    case None => |s| - 1
  }

  /**
   * decodeInteger: the number between the leading byte and the first 'e' after
   * it; with no 'e' the last byte is dropped instead.
   */
  function ParsedInteger(s: seq<byte>): (r: Result<Decoded<int>, Error>)
    requires |s| >= 1
    ensures r.Ok? ==> |r.value.rest| < |s|
  {
    var k := IntegerEnd(s);
    if k < 1 then Err(OutOfRange)
    else
      match Atoi(s[1..k])
      case None => Err(NotANumber)
      case Some(n) => Ok(Decoded(n, s[k + 1..]))
  }

  method DecodeInteger(s: seq<byte>) returns (r: Result<Decoded<int>, Error>)
    requires |s| >= 1
    ensures r == ParsedInteger(s)
  {
    var lastIndex := |s| - 1;
    var i := 1;
    while i < |s|
      invariant 1 <= i <= |s|
      invariant IndexFrom(s, LETTER_E, i) == IndexFrom(s, LETTER_E, 1)
      invariant lastIndex == |s| - 1
    {
      if s[i] == LETTER_E {
        lastIndex := i;
        break;
      }
      i := i + 1;
    }
    if lastIndex < 1 {
      return Err(OutOfRange);
    }
    var number := Atoi(s[1..lastIndex]);
    if number.None? {
      return Err(NotANumber);
    }
    return Ok(Decoded(number.value, s[lastIndex + 1..]));
  }

  // ----- returnLastIndex -----

  /** How one byte outside a string payload changes the nesting depth. */
  function Delta(b: byte): int
  {
    if b == LETTER_E then -1
    else if b == LETTER_L || b == LETTER_I || b == LETTER_D then 1
    else 0
  }

  /**
   * The start of the run of digits that ends at index `j`, scanning backwards
   * but never down to `lsi` (the last byte of the previous string payload).
   */
  function RunStart(s: seq<byte>, j: int, lsi: nat): (k: int)
    requires lsi <= j < |s|
    ensures lsi + 1 <= k <= j + 1
    ensures AllDigits(s[k..j + 1])
    decreases j
  {
    if j > lsi && IsDigit(s[j]) then
      var k := RunStart(s, j - 1, lsi);
      assert s[k..j + 1] == s[k..j] + [s[j]];
      k
    else j + 1
  }

  /**
   * returnLastIndex's scan from index `i` at nesting depth `depth`.  A ':'
   * makes the scan read the digits before it (back to `lsi`) as a length and
   * jump over that many payload bytes; any other byte changes the depth by
   * Delta, and the index where the depth reaches 0 is the terminator.  When
   * the input runs out first, the result is the last index.
   *
   * Go's index is a 64-bit `int` and a slice holds fewer than 2^63 bytes, so
   * steps of one stop at the end; only the jump over a string can take the
   * index to 2^63 or beyond.  There Go's `i += length; i++` has wrapped to a
   * negative index, and the next `bencodedString[i]` panics.
   */
  function Scan(s: seq<byte>, i: int, depth: int, lsi: nat): (r: Result<int, Error>)
    requires 1 <= i && lsi < i
    ensures r.Ok? ==> r.value < |s| && (r.value == |s| - 1 || i <= r.value)
    decreases |s| - i
  {
    if i >= |s| then
      if i >= INT64_BOUND then Err(OutOfRange) else Ok(|s| - 1)
    else if s[i] == COLON then
      var k := RunStart(s, i - 1, lsi);
      if k == i then Err(NotANumber)
      else
        var n := DigitsValue(s[k..i]);
        Scan(s, i + n + 1, depth, i + n)
    else
      var d := depth + Delta(s[i]);
      if d == 0 then Ok(i) else Scan(s, i + 1, d, lsi)
  }

  /** returnLastIndex: the index of the 'e' closing the list or dictionary that starts at index 0. */
  function TerminatorIndex(s: seq<byte>): (r: Result<int, Error>)
    requires |s| >= 1
    ensures r.Ok? ==> 0 <= r.value < |s| && (|s| >= 2 ==> r.value >= 1)
  {
    Scan(s, 1, 1, 0)
  }

  /** One colon step of the scan, in the terms returnLastIndex computes it: the digit run ends before index `i`, Atoi reads it. */
  lemma ColonStep(s: seq<byte>, i: int, depth: int, lsi: nat, j: int)
    requires 1 <= i < |s| && lsi < i && s[i] == COLON
    requires lsi <= j <= i - 1 && j + 1 == RunStart(s, i - 1, lsi)
    ensures Atoi(s[j + 1..i]).None? ==> Scan(s, i, depth, lsi) == Err(NotANumber)
    ensures Atoi(s[j + 1..i]).Some? ==>
      var n := Atoi(s[j + 1..i]).value; Scan(s, i, depth, lsi) == Scan(s, i + n + 1, depth, i + n)
  {
    AtoiOfDigits(s[j + 1..i]);
  }

  /** One step of the scan over a byte that is not a colon: the depth moves by the byte's Delta. */
  lemma PlainStep(s: seq<byte>, i: int, depth: int, lsi: nat)
    requires 1 <= i < |s| && lsi < i && s[i] != COLON
    ensures depth + Delta(s[i]) == 0 ==> Scan(s, i, depth, lsi) == Ok(i)
    ensures depth + Delta(s[i]) != 0 ==> Scan(s, i, depth, lsi) == Scan(s, i + 1, depth + Delta(s[i]), lsi)
  {
  }

  method ReturnLastIndex(s: seq<byte>) returns (r: Result<int, Error>)
    requires |s| >= 1
    ensures r == TerminatorIndex(s)
  {
    var lastIndex := |s| - 1;
    var startPoint := 1;
    var lastStringIndex: nat := 0;
    var i := 1;
    while i < |s|
      invariant 1 <= i && lastStringIndex < i && lastIndex == |s| - 1
      invariant Scan(s, i, startPoint, lastStringIndex) == TerminatorIndex(s)
      decreases |s| - i
    {
      if s[i] == COLON {
        var j := i - 1;
        while j > lastStringIndex
          invariant lastStringIndex <= j <= i - 1
          invariant RunStart(s, j, lastStringIndex) == RunStart(s, i - 1, lastStringIndex)
        {
          if !IsDigit(s[j]) {
            break;
          }
          j := j - 1;
        }
        ColonStep(s, i, startPoint, lastStringIndex, j);
        var length := Atoi(s[j + 1 .. i]);
        if length.None? {
          return Err(NotANumber);
        }
        i := i + length.value;
        lastStringIndex := i;
        i := i + 1;
        continue;
      }
      PlainStep(s, i, startPoint, lastStringIndex);
      ghost var depth := startPoint + Delta(s[i]);
      var t := s[i];
      if t == LETTER_E {
        startPoint := startPoint - 1;
      } else if t == LETTER_L || t == LETTER_I || t == LETTER_D {
        startPoint := startPoint + 1;
      }
      assert startPoint == depth;
      if startPoint == 0 {
        lastIndex := i;
        return Ok(lastIndex);
      }
      i := i + 1;
    }
    // the index ran past the end; at 2^63 or beyond it has wrapped, and the next read panics
    if i >= INT64_BOUND {
      return Err(OutOfRange);
    }
    return Ok(lastIndex);
  }

  // ----- decodeBencode, decodeList, decodeDictionary -----

  /** decodeBencode: dispatch on the first byte. */
  function Parsed(s: seq<byte>): (r: Result<Decoded<Value>, Error>)
    ensures r.Ok? ==> |r.value.rest| < |s|
    decreases |s|, 2
  {
    if |s| == 0 then Err(OutOfRange)
    else if IsDigit(s[0]) then
      match ParsedString(s)
      case Err(e) => Err(e)
      case Ok(d) => Ok(Decoded(StringValue(d.value), d.rest))
    else if s[0] == LETTER_I then
      match ParsedInteger(s)
      case Err(e) => Err(e)
      case Ok(d) => Ok(Decoded(Int(d.value), d.rest))
    else if s[0] == LETTER_L then ParsedList(s)
    else if s[0] == LETTER_D then ParsedDictionary(s)
    else Err(InvalidSyntax)
  }

  /** decodeList: the elements between the 'l' and its terminator, in input order; a scan error is "invalid list syntax", a panic in the scan stays a panic. */
  function ParsedList(s: seq<byte>): (r: Result<Decoded<Value>, Error>)
    requires |s| >= 1
    ensures r.Ok? ==> |r.value.rest| < |s| && r.value.value.List?
    decreases |s|, 1
  {
    match TerminatorIndex(s)
    case Err(OutOfRange) => Err(OutOfRange)
    case Err(_) => Err(InvalidList)
    case Ok(k) =>
      if k < 1 then Err(OutOfRange)
      else
        match Items(s[1..k])
        case Err(e) => Err(e)
        case Ok(vs) => Ok(Decoded(List(vs), s[k + 1..]))
  }

  /** The values that make up a list body, decoded one after another until the body is used up. */
  function Items(body: seq<byte>): (r: Result<seq<Value>, Error>)
    decreases |body|, 3
  {
    if body == [] then Ok([])
    else
      match Parsed(body)
      case Err(e) => Err(e)
      case Ok(d) =>
        match Items(d.rest)
        case Err(e) => Err(e)
        case Ok(vs) => Ok([d.value] + vs)
  }

  /** decodeDictionary: the key/value pairs between the 'd' and its terminator; a scan error is "invalid dictionary syntax", a panic in the scan stays a panic. */
  function ParsedDictionary(s: seq<byte>): (r: Result<Decoded<Value>, Error>)
    requires |s| >= 1
    ensures r.Ok? ==> |r.value.rest| < |s| && r.value.value.Dict?
    decreases |s|, 1
  {
    match TerminatorIndex(s)
    case Err(OutOfRange) => Err(OutOfRange)
    case Err(_) => Err(InvalidDictionary)
    case Ok(k) =>
      if k < 1 then Err(OutOfRange)
      else
        match Entries(s[1..k])
        case Err(e) => Err(e)
        case Ok(m) => Ok(Decoded(Dict(m), s[k + 1..]))
  }

  /**
   * The entries of a dictionary body: each key is read with the string rule,
   * then its value with the general rule; a later key overrides an earlier one.
   */
  function Entries(body: seq<byte>): (r: Result<map<seq<byte>, Value>, Error>)
    decreases |body|, 3
  {
    if body == [] then Ok(map[])
    else
      match ParsedString(body)
      case Err(e) => Err(e)
      case Ok(key) =>
        match Parsed(key.rest)
        case Err(e) => Err(e)
        case Ok(d) =>
          match Entries(d.rest)
          case Err(e) => Err(e)
          case Ok(m) => Ok(map[key.value := d.value] + m)
  }

  /** The list decoded so far, followed by what the remaining body decodes to. */
  function Prepend(done: seq<Value>, r: Result<seq<Value>, Error>): Result<seq<Value>, Error>
  {
    match r
    case Err(e) => Err(e)
    case Ok(vs) => Ok(done + vs)
  }

  /** The dictionary built so far, overridden by what the remaining body decodes to. */
  function Overlay(done: map<seq<byte>, Value>, r: Result<map<seq<byte>, Value>, Error>): Result<map<seq<byte>, Value>, Error>
  {
    match r
    case Err(e) => Err(e)
    case Ok(m) => Ok(done + m)
  }

  method DecodeBencode(s: seq<byte>) returns (r: Result<Decoded<Value>, Error>)
    ensures r == Parsed(s)
    decreases |s|, 2
  {
    if |s| == 0 {
      return Err(OutOfRange);
    }
    if IsDigit(s[0]) {
      var str := DecodeString(s);
      if str.Err? {
        return Err(str.error);
      }
      if Utf8.Valid(str.value.value) {
        return Ok(Decoded(Str(str.value.value), str.value.rest));
      }
      return Ok(Decoded(Bytes(str.value.value), str.value.rest));
    } else if s[0] == LETTER_I {
      var n := DecodeInteger(s);
      if n.Err? {
        return Err(n.error);
      }
      return Ok(Decoded(Int(n.value.value), n.value.rest));
    } else if s[0] == LETTER_L {
      r := DecodeList(s);
    } else if s[0] == LETTER_D {
      r := DecodeDictionary(s);
    } else {
      r := Err(InvalidSyntax);
    }
  }

  method DecodeList(s: seq<byte>) returns (r: Result<Decoded<Value>, Error>)
    requires |s| >= 1
    ensures r == ParsedList(s)
    decreases |s|, 1
  {
    var lastIndex := ReturnLastIndex(s);
    if lastIndex == Err(OutOfRange) {
      return Err(OutOfRange);
    }
    if lastIndex.Err? {
      return Err(InvalidList);
    }
    var k := lastIndex.value;
    if k < 1 {
      return Err(OutOfRange);
    }
    var lists := s[1..k];
    var rest := s[k + 1..];
    var retLists: seq<Value> := [];
    assert Items(lists).Ok? ==> [] + Items(lists).value == Items(lists).value;
    while |lists| > 0
      invariant |lists| < |s|
      invariant Items(s[1..k]) == Prepend(retLists, Items(lists))
      decreases |lists|
    {
      var a := DecodeBencode(lists);
      if a.Err? {
        return Err(a.error);
      }
      PrependStep(retLists, [a.value.value], Items(a.value.rest));
      retLists := retLists + [a.value.value];
      lists := a.value.rest;
    }
    assert retLists + [] == retLists;
    return Ok(Decoded(List(retLists), rest));
  }

  method DecodeDictionary(s: seq<byte>) returns (r: Result<Decoded<Value>, Error>)
    requires |s| >= 1
    ensures r == ParsedDictionary(s)
    decreases |s|, 1
  {
    var lastIndex := ReturnLastIndex(s);
    if lastIndex == Err(OutOfRange) {
      return Err(OutOfRange);
    }
    if lastIndex.Err? {
      return Err(InvalidDictionary);
    }
    var k := lastIndex.value;
    if k < 1 {
      return Err(OutOfRange);
    }
    var dict := s[1..k];
    var rest := s[k + 1..];
    var retDict: map<seq<byte>, Value> := map[];
    assert forall m: map<seq<byte>, Value> :: map[] + m == m;
    while |dict| > 0
      invariant |dict| < |s|
      invariant Entries(s[1..k]) == Overlay(retDict, Entries(dict))
      decreases |dict|
    {
      var key := DecodeString(dict);
      if key.Err? {
        return Err(key.error);
      }
      var v := DecodeBencode(key.value.rest);
      if v.Err? {
        return Err(v.error);
      }
      OverlayStep(retDict, key.value.value, v.value.value, Entries(v.value.rest));
      retDict := retDict[key.value.value := v.value.value];
      dict := v.value.rest;
    }
    assert retDict + map[] == retDict;
    return Ok(Decoded(Dict(retDict), rest));
  }

  lemma PrependStep(done: seq<Value>, next: seq<Value>, later: Result<seq<Value>, Error>)
    ensures Prepend(done, Prepend(next, later)) == Prepend(done + next, later)
  {
    if later.Ok? {
      assert done + (next + later.value) == (done + next) + later.value;
    }
  }

  lemma OverlayStep(done: map<seq<byte>, Value>, k: seq<byte>, v: Value, later: Result<map<seq<byte>, Value>, Error>)
    ensures Overlay(done, Overlay(map[k := v], later)) == Overlay(done[k := v], later)
  {
    if later.Ok? {
      var m := later.value;
      assert done + (map[k := v] + m) == done[k := v] + m;
    }
  }

  // ----- splitPiecesIntoHashes -----

  /** How many hashes splitPiecesIntoHashes cuts out of `n` bytes: one per 20 bytes started. */
  function HashCount(n: nat): nat
  {
    (n + 19) / 20
  }

  /**
   * splitPiecesIntoHashes on `pieces`, a slice whose backing array goes on
   * with the bytes `spare`.  Go checks `pieces[i:i+20]` against the capacity,
   * not the length, so a short last hash reads on into `spare`; the call
   * panics (None) only when the capacity ends inside the last hash.
   */
  function PieceHashes(pieces: seq<byte>, spare: seq<byte>): (r: Option<seq<seq<byte>>>)
    ensures r.Some? <==> 20 * HashCount(|pieces|) <= |pieces| + |spare|
    ensures r.Some? ==> |r.value| == HashCount(|pieces|)
    ensures r.Some? ==> forall k :: 0 <= k < |r.value| ==>
      |r.value[k]| == 40 && r.value[k] == Hex.EncodeToString((pieces + spare)[20 * k .. 20 * k + 20])
  {
    var backing := pieces + spare;
    var n := HashCount(|pieces|);
    if 20 * n <= |backing| then Some(seq(n, k requires 0 <= k < n => Hex.EncodeToString(backing[20 * k .. 20 * k + 20])))
    else None
  }

  method SplitPiecesIntoHashes(pieces: seq<byte>, spare: seq<byte>) returns (r: Option<seq<seq<byte>>>)
    ensures r == PieceHashes(pieces, spare)
  {
    var backing := pieces + spare;
    var hashes := [];
    var i := 0;
    while i < |pieces|
      invariant 0 <= i <= |backing| && i % 20 == 0 && i <= 20 * HashCount(|pieces|)
      invariant |hashes| == i / 20
      invariant forall k :: 0 <= k < |hashes| ==> hashes[k] == Hex.EncodeToString(backing[20 * k .. 20 * k + 20])
    {
      if i + 20 > |backing| {
        return None;
      }
      hashes := hashes + [Hex.EncodeToString(backing[i .. i + 20])];
      i := i + 20;
    }
    assert i == 20 * HashCount(|pieces|);
    assert hashes == PieceHashes(pieces, spare).value;
    return Some(hashes);
  }

  /** With a whole number of hashes nothing past the length is read: the k-th hash is bytes [20k, 20k+20) of `pieces`. */
  lemma WholeHashesIgnoreSpare(pieces: seq<byte>, spare: seq<byte>, spare': seq<byte>)
    requires |pieces| % 20 == 0
    ensures PieceHashes(pieces, spare).Some? && PieceHashes(pieces, spare) == PieceHashes(pieces, spare')
    ensures |PieceHashes(pieces, spare).value| == |pieces| / 20
    ensures forall k :: 0 <= k < |pieces| / 20 ==> PieceHashes(pieces, spare).value[k] == Hex.EncodeToString(pieces[20 * k .. 20 * k + 20])
  {
    var r, r' := PieceHashes(pieces, spare).value, PieceHashes(pieces, spare').value;
    forall k | 0 <= k < |pieces| / 20
      ensures r[k] == r'[k] == Hex.EncodeToString(pieces[20 * k .. 20 * k + 20])
    {
      assert (pieces + spare)[20 * k .. 20 * k + 20] == pieces[20 * k .. 20 * k + 20];
      assert (pieces + spare')[20 * k .. 20 * k + 20] == pieces[20 * k .. 20 * k + 20];
    }
    assert r == r';
  }

  /**
   * A short last hash is completed from the bytes after the slice: the last
   * hash is the hex of the trailing bytes of `pieces` followed by the first
   * bytes of `spare`.
   */
  lemma ShortLastHash(pieces: seq<byte>, spare: seq<byte>)
    requires |pieces| % 20 != 0 && PieceHashes(pieces, spare).Some?
    ensures var n := HashCount(|pieces|);
      && n == |pieces| / 20 + 1
      && PieceHashes(pieces, spare).value[n - 1] == Hex.EncodeToString(pieces[20 * (n - 1)..] + spare[..20 * n - |pieces|])
  {
    var n, b := HashCount(|pieces|), pieces + spare;
    assert b[20 * (n - 1) .. 20 * n] == b[20 * (n - 1) .. |pieces|] + b[|pieces| .. 20 * n];
    assert b[20 * (n - 1) .. |pieces|] == pieces[20 * (n - 1)..];
    assert b[|pieces| .. 20 * n] == spare[..20 * n - |pieces|];
  }

  // ----- what the decoder does at its edges -----

  /** Without any ':' the length prefix is empty, and decodeString fails. */
  lemma StringWithoutColonFails(s: seq<byte>)
    requires COLON !in s
    ensures ParsedString(s) == Err(NotANumber)
  {
    assert ColonIndex(s) == 0;
  }

  /**
   * decodeInteger with no 'e' after the leading byte takes the digits up to
   * the last byte and drops that byte: `i55` gives 5 and nothing is left.
   */
  lemma MissingTerminatorDropsLastByte(digits: seq<byte>, last: byte)
    requires digits != [] && AllDigits(digits) && last != LETTER_E
    ensures ParsedInteger([LETTER_I] + digits + [last]) == Ok(Decoded(DigitsValue(digits) as int, []))
  {
    var s := [LETTER_I] + digits + [last];
    assert forall k :: 1 <= k < |s| ==> s[k] != LETTER_E;
    assert IndexFrom(s, LETTER_E, 1).None?;
    assert s[1..|s| - 1] == digits;
    AtoiOfDigits(digits);
  }

  /** `i55` decodes to 5; `i5` fails, since the digits before the dropped last byte are empty. */
  lemma UnterminatedIntegers()
    ensures Parsed(Ascii("i55")) == Ok(Decoded(Int(5), []))
    ensures Parsed(Ascii("i5")) == Err(NotANumber)
  {
    var five: byte := 53;
    assert Ascii("i55") == [LETTER_I] + [five] + [five];
    MissingTerminatorDropsLastByte([five], five);
    assert DigitsValue([five]) == 5 by {
      assert [five][..0] == [];
    }
    var s := Ascii("i5");
    assert s == [LETTER_I, five];
    assert IndexFrom(s, LETTER_E, 1).None?;
    assert s[1..1] == [];
  }

  /** A ':' with no digits before it (back to the last payload) is an error of the terminator scan. */
  lemma ColonWithoutLength(s: seq<byte>, i: int, depth: int, lsi: nat)
    requires 1 <= i < |s| && lsi < i && s[i] == COLON
    requires lsi == i - 1 || !IsDigit(s[i - 1])
    ensures Scan(s, i, depth, lsi) == Err(NotANumber)
  {
    assert RunStart(s, i - 1, lsi) == i;
  }

  /** Hence `l:e` is no list. */
  lemma ColonWithoutLengthFailsList()
    ensures Parsed([LETTER_L, COLON, LETTER_E]) == Err(InvalidList)
  {
    ColonWithoutLength([LETTER_L, COLON, LETTER_E], 1, 1, 0);
  }

  /**
   * When no 'e' and no ':' follows, the depth never returns to 0 and the scan
   * ends at the last index without an error.
   */
  lemma {:induction false} UnclosedScan(s: seq<byte>, i: int, depth: int, lsi: nat)
    requires 1 <= i && lsi < i && depth >= 1 && i <= |s| < INT64_BOUND
    requires forall j :: i <= j < |s| ==> s[j] != COLON && s[j] != LETTER_E
    ensures Scan(s, i, depth, lsi) == Ok(|s| - 1)
    decreases |s| - i
  {
    if i < |s| {
      UnclosedScan(s, i + 1, depth + Delta(s[i]), lsi);
    }
  }

  /**
   * A string length that takes the index to 2^63 or beyond: Go's index wraps
   * to a negative value, and the next read panics.
   */
  lemma WrappedJumpPanics(s: seq<byte>, i: int, depth: int, lsi: nat)
    requires 1 <= i < |s| < INT64_BOUND && lsi < i && s[i] == COLON
    requires var k := RunStart(s, i - 1, lsi); k < i && i + DigitsValue(s[k..i]) + 1 >= INT64_BOUND
    ensures Scan(s, i, depth, lsi) == Err(OutOfRange)
  {
  }

  /**
   * Each key goes through the string rule: a body that starts with something
   * other than a digit or a sign (an integer, list or dictionary) fails.
   */
  lemma NonStringKeyFails(body: seq<byte>)
    requires body != [] && !IsDigit(body[0]) && body[0] != PLUS && body[0] != MINUS
    ensures Entries(body) == Err(NotANumber)
  {
    var c := ColonIndex(body);
    if c > 0 {
      assert body[..c][0] == body[0];
      assert !AllDigits(body[..c]);
    }
    assert Atoi(body[..c]).None?;
  }

  /** An element that fails to decode fails the whole list body, with its error. */
  lemma ItemErrorFailsList(body: seq<byte>)
    requires body != [] && Parsed(body).Err?
    ensures Items(body) == Err(Parsed(body).error)
  {
  }

  /**
   * What kind of value decodeBencode gives is decided by the first byte: a
   * digit gives a string (text or raw bytes), 'i' an integer, 'l' a list and
   * 'd' a dictionary; any other first byte is invalid syntax, and the empty
   * input is out of range (Go indexes `bencodedString[0]`).
   */
  lemma Dispatch(s: seq<byte>)
    ensures s == [] ==> Parsed(s) == Err(OutOfRange)
    ensures Parsed(s).Ok? ==> s != [] && var v := Parsed(s).value.value;
      && (IsDigit(s[0]) <==> v.Str? || v.Bytes?)
      && (s[0] == LETTER_I <==> v.Int?)
      && (s[0] == LETTER_L <==> v.List?)
      && (s[0] == LETTER_D <==> v.Dict?)
    ensures s != [] && !IsDigit(s[0]) && s[0] != LETTER_I && s[0] != LETTER_L && s[0] != LETTER_D ==> Parsed(s) == Err(InvalidSyntax)
  {
  }
}
