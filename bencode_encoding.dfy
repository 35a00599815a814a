/**
 * A reference bencoder (BEP 3) and the round-trip theorem for the decoder of
 * module Bencode: decoding the canonical encoding of any term, followed by
 * any bytes at all, yields the term's value and leaves exactly those bytes.
 *
 * The theorem covers string payloads that contain digits, colons, 'e' or any
 * other byte, nested lists and dictionaries, negative integers and repeated
 * dictionary keys.  The delicate part is the terminator scan: it must step
 * over every string payload, and it tells a length prefix from the digits the
 * previous payload ended with only through its `lastStringIndex` bound
 * (ScanOverString).
 */
module BencodeEncoding {
  import opened Wrappers
  import opened Binary
  import opened Decimal
  import opened Strings
  import opened Bencode

  datatype Term =
    | TStr(bytes: seq<byte>)
    | TInt(n: int)
    | TList(items: seq<Term>)
    | TDict(entries: seq<Entry>)

  datatype Entry = Entry(key: seq<byte>, val: Term)

  /** `<length>:<bytes>` */
  function StringText(b: seq<byte>): (r: seq<byte>)
    ensures |r| == |NatText(|b|)| + 1 + |b|
  {
    NatText(|b|) + [COLON] + b
  }

  function Encode(t: Term): (r: seq<byte>)
    ensures |r| >= 2
    decreases t
  {
    match t
    case TStr(b) => StringText(b)
    case TInt(n) => [LETTER_I] + IntText(n) + [LETTER_E]
    case TList(ts) => [LETTER_L] + EncodeAll(ts) + [LETTER_E]
    case TDict(es) => [LETTER_D] + EncodeEntries(es) + [LETTER_E]
  }

  function EncodeAll(ts: seq<Term>): seq<byte>
    decreases ts
  {
    if ts == [] then [] else Encode(ts[0]) + EncodeAll(ts[1..])
  }

  function EncodeEntries(es: seq<Entry>): seq<byte>
    decreases es
  {
    if es == [] then [] else EntryText(es[0]) + EncodeEntries(es[1..])
  }

  /**
   * What the decoder should return for a term: strings by their UTF-8
   * validity, and for a dictionary the map in which a later entry overrides
   * an earlier one with the same key.
   */
  function Expected(t: Term): Value
    decreases t
  {
    match t
    case TStr(b) => StringValue(b)
    case TInt(n) => Int(n)
    case TList(ts) => List(ExpectedAll(ts))
    case TDict(es) => Dict(ExpectedEntries(es))
  }

  function ExpectedAll(ts: seq<Term>): seq<Value>
    decreases ts
  {
    if ts == [] then [] else [Expected(ts[0])] + ExpectedAll(ts[1..])
  }

  function ExpectedEntries(es: seq<Entry>): map<seq<byte>, Value>
    decreases es
  {
    if es == [] then map[] else map[es[0].key := Expected(es[0].val)] + ExpectedEntries(es[1..])
  }

  // ----- the terminator scan steps over encoded terms -----

  /**
   * `piece` occurs in `s` at index `q`.  Stated byte by byte, so that the
   * verifier looks into it only as far as a proof asks.
   */
  predicate At(s: seq<byte>, q: int, piece: seq<byte>)
    decreases |piece|
  {
    0 <= q && q + |piece| <= |s| && (piece == [] || (s[q] == piece[0] && At(s, q + 1, piece[1..])))
  }

  /**
   * Index `q` is where a new element may start for the scan: it is past
   * `lsi`, and the byte before it is either the end of the last string payload
   * or no digit at all.
   */
  predicate Boundary(s: seq<byte>, q: int, lsi: nat)
  {
    1 <= q <= |s| && lsi < q && (lsi == q - 1 || !IsDigit(s[q - 1]))
  }

  lemma {:induction false} AtIndex(s: seq<byte>, q: int, piece: seq<byte>, k: int)
    requires At(s, q, piece) && 0 <= k < |piece|
    ensures s[q + k] == piece[k]
    decreases k
  {
    if k > 0 {
      AtIndex(s, q + 1, piece[1..], k - 1);
    }
  }

  lemma AtSplit(s: seq<byte>, q: int, a: seq<byte>, b: seq<byte>)
    requires At(s, q, a + b)
    ensures At(s, q, a) && At(s, q + |a|, b)
  {
    AtLeft(s, q, a, b);
    AtRight(s, q, a, b);
  }

  lemma {:induction false} AtLeft(s: seq<byte>, q: int, a: seq<byte>, b: seq<byte>)
    requires At(s, q, a + b)
    ensures At(s, q, a)
    decreases |a|
  {
    if a != [] {
      var ab := a + b;
      assert ab[0] == a[0] && ab[1..] == a[1..] + b;
      AtLeft(s, q + 1, a[1..], b);
    }
  }

  lemma {:induction false} AtRight(s: seq<byte>, q: int, a: seq<byte>, b: seq<byte>)
    requires At(s, q, a + b)
    ensures At(s, q + |a|, b)
    decreases |a|
  {
    if a == [] {
      assert a + b == b;
    } else {
      var ab := a + b;
      assert ab[1..] == a[1..] + b;
      AtRight(s, q + 1, a[1..], b);
    }
  }

  lemma {:induction false} AtSlice(s: seq<byte>, q: int, piece: seq<byte>)
    requires At(s, q, piece)
    ensures s[q..q + |piece|] == piece
    decreases |piece|
  {
    if piece != [] {
      AtSlice(s, q + 1, piece[1..]);
      assert s[q..q + |piece|] == [s[q]] + s[q + 1..q + |piece|];
    }
  }

  /** A sequence occurs wherever it was put. */
  lemma {:induction false} AtConcat(pre: seq<byte>, x: seq<byte>, rest: seq<byte>)
    ensures At(pre + x + rest, |pre|, x)
    decreases |x|
  {
    if x != [] {
      assert pre + x + rest == (pre + [x[0]]) + x[1..] + rest;
      AtConcat(pre + [x[0]], x[1..], rest);
    }
  }

  /** Bytes that are neither ':' nor change the depth leave the scan's state alone. */
  lemma {:induction false} ScanPlain(s: seq<byte>, a: int, b: int, depth: int, lsi: nat)
    requires 1 <= a <= b <= |s| && lsi < a && depth != 0
    requires forall k :: a <= k < b ==> s[k] != COLON && Delta(s[k]) == 0
    ensures Scan(s, a, depth, lsi) == Scan(s, b, depth, lsi)
    decreases b - a
  {
    if a < b {
      ScanPlain(s, a + 1, b, depth, lsi);
    }
  }

  /** Walking back over the digits of a length prefix stops at the prefix's first digit. */
  lemma {:induction false} RunStartOver(s: seq<byte>, q: int, j: int, lsi: nat)
    requires lsi < q <= j + 1 && j < |s|
    requires forall k :: q <= k <= j ==> IsDigit(s[k])
    requires lsi == q - 1 || !IsDigit(s[q - 1])
    ensures RunStart(s, j, lsi) == q
    decreases j
  {
    if j >= q {
      RunStartOver(s, q, j - 1, lsi);
    }
  }

  /** At a ':' whose length prefix starts at `k`, the scan jumps over the payload. */
  lemma ScanColon(s: seq<byte>, i: int, depth: int, lsi: nat, k: int)
    requires 1 <= i < |s| && lsi < i && s[i] == COLON
    requires RunStart(s, i - 1, lsi) == k && k < i
    ensures Scan(s, i, depth, lsi) == Scan(s, i + DigitsValue(s[k..i]) + 1, depth, i + DigitsValue(s[k..i]))
  {
  }

  /** A length prefix of digits at [q, c), then ':' at c, then n payload bytes: the scan lands after the payload. */
  lemma ScanOverLengthPrefix(s: seq<byte>, q: int, c: int, n: nat, depth: int, lsi: nat, end: int)
    requires Boundary(s, q, lsi) && depth >= 1 && q < c && end == c + 1 + n <= |s|
    requires forall k :: q <= k < c ==> IsDigit(s[k])
    requires s[c] == COLON && DigitsValue(s[q..c]) == n
    ensures Boundary(s, end, c + n)
    ensures Scan(s, q, depth, lsi) == Scan(s, end, depth, c + n)
  {
    ScanPlain(s, q, c, depth, lsi);
    RunStartOver(s, q, c - 1, lsi);
    ScanColon(s, c, depth, lsi, q);
  }

  /** The index facts that `<length>:<bytes>` at q gives. */
  lemma StringTextAt(s: seq<byte>, q: int, b: seq<byte>)
    requires At(s, q, StringText(b))
    ensures var c := q + |NatText(|b|)|;
      && c + 1 + |b| <= |s| && s[c] == COLON && (forall k :: q <= k < c ==> IsDigit(s[k]))
      && s[q..c] == NatText(|b|) && DigitsValue(s[q..c]) == |b|
  {
    var digits := NatText(|b|);
    var c := q + |digits|;
    AtSplit(s, q, digits + [COLON], b);
    AtSplit(s, q, digits, [COLON]);
    AtIndex(s, c, [COLON], 0);
    forall k | q <= k < c
      ensures IsDigit(s[k])
    {
      AtIndex(s, q, digits, k - q);
    }
    AtSlice(s, q, digits);
    DigitsValueOfNatText(|b|);
  }

  lemma ScanOverString(s: seq<byte>, q: int, b: seq<byte>, depth: int, lsi: nat, end: int) returns (lsi': nat)
    requires At(s, q, StringText(b)) && Boundary(s, q, lsi) && depth >= 1 && end == q + |StringText(b)|
    ensures Boundary(s, end, lsi')
    ensures Scan(s, q, depth, lsi) == Scan(s, end, depth, lsi')
  {
    StringTextAt(s, q, b);
    var c := q + |NatText(|b|)|;
    ScanOverLengthPrefix(s, q, c, |b|, depth, lsi, end);
    lsi' := c + |b|;
  }

  /** The decimal text of an integer holds only '-' and digits. */
  lemma IntTextIsPlain(n: int, k: int)
    requires 0 <= k < |IntText(n)|
    ensures IntText(n)[k] == MINUS || IsDigit(IntText(n)[k])
  {
    if n < 0 && k > 0 {
      assert IntText(n)[k] == IntText(n)[1..][k - 1];
    }
  }

  /** The index facts that `i<n>e` at q gives. */
  lemma IntTextAt(s: seq<byte>, q: int, n: int)
    requires At(s, q, Encode(TInt(n)))
    ensures var e := q + 1 + |IntText(n)|;
      && e < |s| && s[q] == LETTER_I && s[e] == LETTER_E
      && forall k :: q + 1 <= k < e ==> s[k] != COLON && Delta(s[k]) == 0
  {
    var text := IntText(n);
    var e := q + 1 + |text|;
    AtSplit(s, q, [LETTER_I] + text, [LETTER_E]);
    AtSplit(s, q, [LETTER_I], text);
    AtIndex(s, q, [LETTER_I], 0);
    AtIndex(s, e, [LETTER_E], 0);
    forall k | q + 1 <= k < e
      ensures s[k] != COLON && Delta(s[k]) == 0
    {
      AtIndex(s, q + 1, text, k - q - 1);
      IntTextIsPlain(n, k - q - 1);
    }
  }

  lemma ScanOverInt(s: seq<byte>, q: int, n: int, depth: int, lsi: nat, end: int)
    requires At(s, q, Encode(TInt(n))) && Boundary(s, q, lsi) && depth >= 1 && end == q + |Encode(TInt(n))|
    ensures Boundary(s, end, lsi)
    ensures Scan(s, q, depth, lsi) == Scan(s, end, depth, lsi)
  {
    IntTextAt(s, q, n);
    var e := q + 1 + |IntText(n)|;
    assert |Encode(TInt(n))| == |IntText(n)| + 2;
    ScanOverPlainRun(s, q, e, depth, lsi, end);
  }

  /** An 'i', a run of plain bytes and an 'e': the scan steps over all of it at the same depth. */
  lemma ScanOverPlainRun(s: seq<byte>, q: int, e: int, depth: int, lsi: nat, end: int)
    requires Boundary(s, q, lsi) && depth >= 1 && q < e < |s| && end == e + 1
    requires s[q] == LETTER_I && s[e] == LETTER_E
    requires forall k :: q + 1 <= k < e ==> s[k] != COLON && Delta(s[k]) == 0
    ensures Boundary(s, end, lsi)
    ensures Scan(s, q, depth, lsi) == Scan(s, end, depth, lsi)
  {
    ScanStep(s, q, depth, lsi);
    ScanPlain(s, q + 1, e, depth + 1, lsi);
    ScanStep(s, e, depth + 1, lsi);
  }

  /** One step of the scan over a byte that is not ':' and does not close the outermost list. */
  lemma ScanStep(s: seq<byte>, i: int, depth: int, lsi: nat)
    requires 1 <= i < |s| && lsi < i && s[i] != COLON && depth + Delta(s[i]) != 0
    ensures Scan(s, i, depth, lsi) == Scan(s, i + 1, depth + Delta(s[i]), lsi)
  {
  }

  lemma {:induction false} ScanOver(s: seq<byte>, q: int, t: Term, depth: int, lsi: nat, end: int) returns (lsi': nat)
    requires At(s, q, Encode(t)) && Boundary(s, q, lsi) && depth >= 1 && end == q + |Encode(t)|
    ensures Boundary(s, end, lsi')
    ensures Scan(s, q, depth, lsi) == Scan(s, end, depth, lsi')
    decreases t, 1
  {
    match t
    case TStr(b) =>
      lsi' := ScanOverString(s, q, b, depth, lsi, end);
    case TInt(n) =>
      ScanOverInt(s, q, n, depth, lsi, end);
      lsi' := lsi;
    case TList(ts) =>
      lsi' := ScanOverList(s, q, ts, depth, lsi, end);
    case TDict(es) =>
      lsi' := ScanOverDictionary(s, q, es, depth, lsi, end);
  }

  /**
   * An opening 'l' or 'd' raises the depth and its closing 'e' lowers it
   * again, so stepping over the body at the raised depth steps over the
   * whole bracket.
   */
  lemma ScanBracket(s: seq<byte>, q: int, close: int, depth: int, lsi: nat, inner: nat, end: int)
    requires Boundary(s, q, lsi) && depth >= 1 && q < close && end == close + 1 <= |s|
    requires (s[q] == LETTER_L || s[q] == LETTER_D) && s[close] == LETTER_E
    requires Boundary(s, close, inner)
    requires Scan(s, q + 1, depth + 1, lsi) == Scan(s, close, depth + 1, inner)
    ensures Boundary(s, end, inner)
    ensures Scan(s, q, depth, lsi) == Scan(s, end, depth, inner)
  {
    ScanStep(s, q, depth, lsi);
    ScanStep(s, close, depth + 1, inner);
  }

  lemma {:induction false} ScanOverList(s: seq<byte>, q: int, ts: seq<Term>, depth: int, lsi: nat, end: int) returns (lsi': nat)
    requires At(s, q, Encode(TList(ts))) && Boundary(s, q, lsi) && depth >= 1 && end == q + |Encode(TList(ts))|
    ensures Boundary(s, end, lsi')
    ensures Scan(s, q, depth, lsi) == Scan(s, end, depth, lsi')
    decreases ts, 2
  {
    var body := EncodeAll(ts);
    var close := q + 1 + |body|;
    assert Encode(TList(ts)) == [LETTER_L] + body + [LETTER_E];
    AtSplit(s, q, [LETTER_L] + body, [LETTER_E]);
    AtSplit(s, q, [LETTER_L], body);
    AtIndex(s, q, [LETTER_L], 0);
    AtIndex(s, close, [LETTER_E], 0);
    lsi' := ScanOverAll(s, q + 1, ts, depth + 1, lsi, close);
    ScanBracket(s, q, close, depth, lsi, lsi', end);
  }

  lemma {:induction false} ScanOverDictionary(s: seq<byte>, q: int, es: seq<Entry>, depth: int, lsi: nat, end: int) returns (lsi': nat)
    requires At(s, q, Encode(TDict(es))) && Boundary(s, q, lsi) && depth >= 1 && end == q + |Encode(TDict(es))|
    ensures Boundary(s, end, lsi')
    ensures Scan(s, q, depth, lsi) == Scan(s, end, depth, lsi')
    decreases es, 2
  {
    var body := EncodeEntries(es);
    var close := q + 1 + |body|;
    assert Encode(TDict(es)) == [LETTER_D] + body + [LETTER_E];
    AtSplit(s, q, [LETTER_D] + body, [LETTER_E]);
    AtSplit(s, q, [LETTER_D], body);
    AtIndex(s, q, [LETTER_D], 0);
    AtIndex(s, close, [LETTER_E], 0);
    lsi' := ScanOverEntries(s, q + 1, es, depth + 1, lsi, close);
    ScanBracket(s, q, close, depth, lsi, lsi', end);
  }

  lemma {:induction false} ScanOverAll(s: seq<byte>, q: int, ts: seq<Term>, depth: int, lsi: nat, end: int) returns (lsi': nat)
    requires At(s, q, EncodeAll(ts)) && Boundary(s, q, lsi) && depth >= 1 && end == q + |EncodeAll(ts)|
    ensures Boundary(s, end, lsi')
    ensures Scan(s, q, depth, lsi) == Scan(s, end, depth, lsi')
    decreases ts, 0
  {
    if ts == [] {
      lsi' := lsi;
    } else {
      var head := Encode(ts[0]);
      var tail := EncodeAll(ts[1..]);
      AtSplit(s, q, head, tail);
      var mid := q + |head|;
      var m := ScanOver(s, q, ts[0], depth, lsi, mid);
      lsi' := ScanOverAll(s, mid, ts[1..], depth, m, end);
    }
  }

  /** An entry of a dictionary body is a string key followed by an encoded value. */
  function EntryText(e: Entry): seq<byte>
  {
    StringText(e.key) + Encode(e.val)
  }

  lemma {:induction false} ScanOverEntry(s: seq<byte>, q: int, e: Entry, depth: int, lsi: nat, end: int) returns (lsi': nat)
    requires At(s, q, EntryText(e)) && Boundary(s, q, lsi) && depth >= 1 && end == q + |EntryText(e)|
    ensures Boundary(s, end, lsi')
    ensures Scan(s, q, depth, lsi) == Scan(s, end, depth, lsi')
    decreases e, 0
  {
    var k := StringText(e.key);
    var v := Encode(e.val);
    AtSplit(s, q, k, v);
    var mid := q + |k|;
    var m := ScanOverString(s, q, e.key, depth, lsi, mid);
    lsi' := ScanOver(s, mid, e.val, depth, m, end);
  }

  lemma {:induction false} ScanOverEntries(s: seq<byte>, q: int, es: seq<Entry>, depth: int, lsi: nat, end: int) returns (lsi': nat)
    requires At(s, q, EncodeEntries(es)) && Boundary(s, q, lsi) && depth >= 1 && end == q + |EncodeEntries(es)|
    ensures Boundary(s, end, lsi')
    ensures Scan(s, q, depth, lsi) == Scan(s, end, depth, lsi')
    decreases es, 0
  {
    if es == [] {
      lsi' := lsi;
    } else {
      var head := EntryText(es[0]);
      var tail := EncodeEntries(es[1..]);
      AtSplit(s, q, head, tail);
      var mid := q + |head|;
      var m := ScanOverEntry(s, q, es[0], depth, lsi, mid);
      lsi' := ScanOverEntries(s, mid, es[1..], depth, m, end);
    }
  }

  /** The terminator of an encoded list is its closing 'e', whatever follows it. */
  lemma TerminatorOfList(ts: seq<Term>, rest: seq<byte>)
    ensures TerminatorIndex(Encode(TList(ts)) + rest) == Ok(|Encode(TList(ts))| - 1)
  {
    var s := Encode(TList(ts)) + rest;
    var body := EncodeAll(ts);
    AtConcat([], [LETTER_L] + body + [LETTER_E], rest);
    assert [] + ([LETTER_L] + body + [LETTER_E]) + rest == s;
    AtSplit(s, 0, [LETTER_L] + body, [LETTER_E]);
    AtSplit(s, 0, [LETTER_L], body);
    AtIndex(s, 1 + |body|, [LETTER_E], 0);
    var m := ScanOverAll(s, 1, ts, 1, 0, 1 + |body|);
  }

  /** The terminator of an encoded dictionary is its closing 'e', whatever follows it. */
  lemma TerminatorOfDictionary(es: seq<Entry>, rest: seq<byte>)
    ensures TerminatorIndex(Encode(TDict(es)) + rest) == Ok(|Encode(TDict(es))| - 1)
  {
    var s := Encode(TDict(es)) + rest;
    var body := EncodeEntries(es);
    AtConcat([], [LETTER_D] + body + [LETTER_E], rest);
    assert [] + ([LETTER_D] + body + [LETTER_E]) + rest == s;
    AtSplit(s, 0, [LETTER_D] + body, [LETTER_E]);
    AtSplit(s, 0, [LETTER_D], body);
    AtIndex(s, 1 + |body|, [LETTER_E], 0);
    var m := ScanOverEntries(s, 1, es, 1, 0, 1 + |body|);
  }

  // ----- the round trip -----

  /** decodeString reads back a `<length>:<bytes>` string and leaves what follows. */
  lemma ParsedStringText(b: seq<byte>, rest: seq<byte>)
    ensures ParsedString(StringText(b) + rest) == Ok(Decoded(b, rest))
  {
    var s := StringText(b) + rest;
    var digits := NatText(|b|);
    var c := |digits|;
    assert s == digits + ([COLON] + b + rest);
    assert s[c] == COLON;
    assert forall k :: 0 <= k < c ==> s[k] == digits[k];
    assert IndexFrom(s, COLON, 0) == Some(c);
    assert s[..c] == digits;
    AtoiOfIntText(|b|);
    assert s[c + 1..c + 1 + |b|] == b;
    assert s[c + 1 + |b|..] == rest;
  }

  /** decodeInteger reads back `i<n>e` and leaves what follows. */
  lemma ParsedIntText(n: int, rest: seq<byte>)
    ensures ParsedInteger(Encode(TInt(n)) + rest) == Ok(Decoded(n, rest))
  {
    var s := Encode(TInt(n)) + rest;
    var text := IntText(n);
    var e := 1 + |text|;
    assert s == [LETTER_I] + text + [LETTER_E] + rest;
    assert s[e] == LETTER_E;
    forall k | 1 <= k < e
      ensures s[k] != LETTER_E
    {
      assert s[k] == text[k - 1];
      if n < 0 && k > 1 {
        assert text[k - 1] == text[1..][k - 2];
      }
    }
    assert IndexFrom(s, LETTER_E, 1) == Some(e);
    assert s[1..e] == text;
    AtoiOfIntText(n);
    assert s[e + 1..] == rest;
  }

  /**
   * The round trip: decoding the encoding of a term, followed by any bytes,
   * yields the term's expected value and leaves exactly those bytes.
   */
  lemma {:induction false} ParsedEncode(t: Term, rest: seq<byte>)
    ensures Parsed(Encode(t) + rest) == Ok(Decoded(Expected(t), rest))
    decreases t, 1
  {
    var s := Encode(t) + rest;
    match t
    case TStr(b) =>
      assert s[0] == NatText(|b|)[0];
      ParsedStringText(b, rest);
    case TInt(n) =>
      ParsedIntText(n, rest);
    case TList(ts) =>
      ParsedListEncode(ts, rest);
    case TDict(es) =>
      ParsedDictionaryEncode(es, rest);
  }

  lemma {:induction false} ParsedListEncode(ts: seq<Term>, rest: seq<byte>)
    ensures Parsed(Encode(TList(ts)) + rest) == Ok(Decoded(List(ExpectedAll(ts)), rest))
    decreases ts, 2
  {
    var e := Encode(TList(ts));
    var s := e + rest;
    TerminatorOfList(ts, rest);
    var k := |e| - 1;
    assert s[0] == LETTER_L;
    assert Parsed(s) == ParsedList(s);
    assert s[1..k] == EncodeAll(ts);
    assert s[k + 1..] == rest;
    ItemsEncodeAll(ts);
  }

  lemma {:induction false} ParsedDictionaryEncode(es: seq<Entry>, rest: seq<byte>)
    ensures Parsed(Encode(TDict(es)) + rest) == Ok(Decoded(Dict(ExpectedEntries(es)), rest))
    decreases es, 2
  {
    var e := Encode(TDict(es));
    var s := e + rest;
    TerminatorOfDictionary(es, rest);
    var k := |e| - 1;
    assert s[0] == LETTER_D;
    assert Parsed(s) == ParsedDictionary(s);
    assert s[1..k] == EncodeEntries(es);
    assert s[k + 1..] == rest;
    EntriesEncodeEntries(es);
  }

  lemma {:induction false} ItemsEncodeAll(ts: seq<Term>)
    ensures Items(EncodeAll(ts)) == Ok(ExpectedAll(ts))
    decreases ts, 0
  {
    if ts != [] {
      ParsedEncode(ts[0], EncodeAll(ts[1..]));
      ItemsEncodeAll(ts[1..]);
    }
  }

  lemma {:induction false} EntriesEncodeEntries(es: seq<Entry>)
    ensures Entries(EncodeEntries(es)) == Ok(ExpectedEntries(es))
    decreases es, 0
  {
    if es != [] {
      var more := EncodeEntries(es[1..]);
      var v := Encode(es[0].val);
      assert EncodeEntries(es) == StringText(es[0].key) + (v + more);
      ParsedStringText(es[0].key, v + more);
      ParsedEncode(es[0].val, more);
      EntriesEncodeEntries(es[1..]);
    }
  }

  /** Parsing a complete encoding leaves nothing behind. */
  lemma ParsedEncodeExactly(t: Term)
    ensures Parsed(Encode(t)) == Ok(Decoded(Expected(t), []))
  {
    ParsedEncode(t, []);
    assert Encode(t) + [] == Encode(t);
  }

  // ----- lists and dictionaries at their edges -----

  /** `le` is the empty list and `de` the empty map, and the rest is what follows. */
  lemma EmptyContainers(rest: seq<byte>)
    ensures Parsed([LETTER_L, LETTER_E] + rest) == Ok(Decoded(List([]), rest))
    ensures Parsed([LETTER_D, LETTER_E] + rest) == Ok(Decoded(Dict(map[]), rest))
  {
    ParsedListEncode([], rest);
    ParsedDictionaryEncode([], rest);
    assert Encode(TList([])) == [LETTER_L, LETTER_E];
    assert Encode(TDict([])) == [LETTER_D, LETTER_E];
  }

  /** A key that appears twice keeps the later value. */
  lemma RepeatedKeyKeepsLater(key: seq<byte>, first: Term, second: Term, rest: seq<byte>)
    ensures Parsed(Encode(TDict([Entry(key, first), Entry(key, second)])) + rest)
      == Ok(Decoded(Dict(map[key := Expected(second)]), rest))
  {
    var es := [Entry(key, first), Entry(key, second)];
    ParsedDictionaryEncode(es, rest);
    assert es[1..][1..] == [];
    assert ExpectedEntries(es[1..]) == map[key := Expected(second)] + map[];
    assert ExpectedEntries(es) == map[key := Expected(first)] + ExpectedEntries(es[1..]);
    assert map[key := Expected(second)] + map[] == map[key := Expected(second)];
    assert map[key := Expected(first)] + map[key := Expected(second)] == map[key := Expected(second)];
  }

  /**
   * The terminator scan never looks at the opening byte: whatever it is, the
   * terminator of an opening byte, encoded terms and an 'e' is that 'e'.
   */
  lemma TerminatorAfterTerms(open: byte, ts: seq<Term>, rest: seq<byte>)
    ensures TerminatorIndex([open] + EncodeAll(ts) + [LETTER_E] + rest) == Ok(1 + |EncodeAll(ts)|)
  {
    var body := EncodeAll(ts);
    var s := [open] + body + [LETTER_E] + rest;
    AtConcat([], [open] + body + [LETTER_E], rest);
    assert [] + ([open] + body + [LETTER_E]) + rest == s;
    AtSplit(s, 0, [open] + body, [LETTER_E]);
    AtSplit(s, 0, [open], body);
    AtIndex(s, 1 + |body|, [LETTER_E], 0);
    var m := ScanOverAll(s, 1, ts, 1, 0, 1 + |body|);
  }

  /**
   * A dictionary whose first key is an integer, a list or a dictionary fails,
   * because the key goes through the string rule.
   */
  lemma NonStringKeyFailsDictionary(key: Term, ts: seq<Term>, rest: seq<byte>)
    requires !key.TStr?
    ensures Parsed([LETTER_D] + EncodeAll([key] + ts) + [LETTER_E] + rest) == Err(NotANumber)
  {
    var body := EncodeAll([key] + ts);
    var s := [LETTER_D] + body + [LETTER_E] + rest;
    TerminatorAfterTerms(LETTER_D, [key] + ts, rest);
    assert ([key] + ts)[0] == key && ([key] + ts)[1..] == ts;
    assert body == Encode(key) + EncodeAll(ts);
    assert s[1..1 + |body|] == body;
    assert body[0] == Encode(key)[0];
    NonStringKeyFails(body);
  }

  /**
   * A list with no closing 'e' after its elements: the scan runs off the end
   * and returns the last index, with no error.
   */
  lemma UnclosedList(ts: seq<Term>)
    requires 1 + |EncodeAll(ts)| < INT64_BOUND
    ensures TerminatorIndex([LETTER_L] + EncodeAll(ts)) == Ok(|EncodeAll(ts)|)
  {
    var body := EncodeAll(ts);
    var s := [LETTER_L] + body;
    AtConcat([LETTER_L], body, []);
    assert [LETTER_L] + body + [] == s;
    var m := ScanOverAll(s, 1, ts, 1, 0, 1 + |body|);
  }

  /** The decimal text of Go's largest int, 2^63 - 1. */
  const MAX_INT64_TEXT: seq<byte> := [57, 50, 50, 51, 51, 55, 50, 48, 51, 54, 56, 53, 52, 55, 55, 53, 56, 48, 55]

  lemma MaxInt64Text()
    ensures AllDigits(MAX_INT64_TEXT) && DigitsValue(MAX_INT64_TEXT) == INT64_BOUND - 1
  {
    // NatText unfolds on literals; in steps of five digits it stays cheap
    assert NatText(92233) == [57, 50, 50, 51, 51];
    assert NatText(9223372036) == [57, 50, 50, 51, 51, 55, 50, 48, 51, 54];
    assert NatText(922337203685477) == [57, 50, 50, 51, 51, 55, 50, 48, 51, 54, 56, 53, 52, 55, 55];
    assert MAX_INT64_TEXT == NatText(9223372036854775807);
    DigitsValueOfNatText(9223372036854775807);
  }

  /** `li9223372036854775807:e`: the largest length Atoi accepts wraps the index, and decoding the list panics. */
  lemma WrappedLengthPanicsList()
    ensures Parsed([LETTER_L, LETTER_I] + MAX_INT64_TEXT + [COLON, LETTER_E]) == Err(OutOfRange)
  {
    var s := [LETTER_L, LETTER_I] + MAX_INT64_TEXT + [COLON, LETTER_E];
    MaxInt64Text();
    assert s[2..21] == MAX_INT64_TEXT;
    RunStartOver(s, 2, 20, 0);
    ScanPlain(s, 2, 21, 2, 0);
    WrappedJumpPanics(s, 21, 2, 0);
    assert s[1] == LETTER_I && Scan(s, 1, 1, 0) == Scan(s, 2, 2, 0);
    assert TerminatorIndex(s) == Err(OutOfRange);
    assert s[0] == LETTER_L && ParsedList(s) == Err(OutOfRange);
  }
}
