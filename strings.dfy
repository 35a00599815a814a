/** The few functions of Go's `strings` package the core uses, over bytes, with a one-byte separator. */
module Strings {
  import opened Wrappers
  import opened Binary

  /** The first index at or after `from` holding `x`, if any. */
  function IndexFrom(s: seq<byte>, x: byte, from: nat): (r: Option<nat>)
    ensures r.Some? ==> from <= r.value < |s| && s[r.value] == x
    ensures r.Some? ==> forall k :: from <= k < r.value ==> s[k] != x
    ensures r.None? ==> forall k :: from <= k < |s| ==> s[k] != x
    decreases |s| - from
  {
    if from >= |s| then None
    else if s[from] == x then Some(from)
    else IndexFrom(s, x, from + 1)
  }

  /** `strings.Split(s, sep)`: the pieces between separators; always at least one piece. */
  function Split(s: seq<byte>, sep: byte): (r: seq<seq<byte>>)
    ensures |r| >= 1
    decreases |s|
  {
    match IndexFrom(s, sep, 0)
    case None => [s]
    case Some(i) => [s[..i]] + Split(s[i + 1..], sep)
  }

  /** `strings.Join(parts, sep)`. */
  function Join(parts: seq<seq<byte>>, sep: byte): seq<byte>
  {
    if |parts| <= 1 then (if parts == [] then [] else parts[0])
    else parts[0] + [sep] + Join(parts[1..], sep)
  }

  /** Joining the pieces of a split gives back the split string. */
  lemma {:induction false} JoinSplit(s: seq<byte>, sep: byte)
    ensures Join(Split(s, sep), sep) == s
    decreases |s|
  {
    match IndexFrom(s, sep, 0)
    case None =>
    case Some(i) =>
      JoinSplit(s[i + 1..], sep);
      var rest := Split(s[i + 1..], sep);
      assert Split(s, sep) == [s[..i]] + rest;
      assert ([s[..i]] + rest)[1..] == rest;
      assert s == s[..i] + [sep] + s[i + 1..];
  }

  /** No piece of a split contains the separator. */
  lemma {:induction false} SplitPiecesAvoidSeparator(s: seq<byte>, sep: byte)
    ensures forall k :: 0 <= k < |Split(s, sep)| ==> sep !in Split(s, sep)[k]
    decreases |s|
  {
    match IndexFrom(s, sep, 0)
    case None =>
    case Some(i) =>
      SplitPiecesAvoidSeparator(s[i + 1..], sep);
      var r := Split(s, sep);
      forall k | 0 <= k < |r| ensures sep !in r[k] {
        if k > 0 {
          assert r[k] == Split(s[i + 1..], sep)[k - 1];
        }
      }
  }

  lemma SplitWithoutSeparator(s: seq<byte>, sep: byte)
    requires sep !in s
    ensures Split(s, sep) == [s]
  {
  }

  /** Splitting `a + [sep] + b` when `a` holds no separator peels off `a`. */
  lemma SplitAfterPiece(a: seq<byte>, sep: byte, b: seq<byte>)
    requires sep !in a
    ensures Split(a + [sep] + b, sep) == [a] + Split(b, sep)
  {
    var s := a + [sep] + b;
    assert s[|a|] == sep;
    assert IndexFrom(s, sep, 0) == Some(|a|);
    assert s[..|a|] == a && s[|a| + 1..] == b;
  }

  /** The first piece of a split holds no separator, and when more pieces follow, it and a separator begin the string. */
  lemma SplitFirst(s: seq<byte>, sep: byte)
    ensures sep !in Split(s, sep)[0]
    ensures |Split(s, sep)| > 1 ==> |Split(s, sep)[0]| < |s| && s[..|Split(s, sep)[0]| + 1] == Split(s, sep)[0] + [sep]
  {
    match IndexFrom(s, sep, 0)
    case None =>
    case Some(i) =>
      assert Split(s, sep)[0] == s[..i];
      assert s[..i + 1] == s[..i] + [s[i]];
  }

  predicate HasPrefix(s: seq<byte>, prefix: seq<byte>)
  {
    |prefix| <= |s| && s[..|prefix|] == prefix
  }

  /** `strings.CutPrefix`: the text after the prefix, and whether it was there. */
  function CutPrefix(s: seq<byte>, prefix: seq<byte>): (r: (seq<byte>, bool))
    ensures r.1 <==> HasPrefix(s, prefix)
    ensures r.1 ==> s == prefix + r.0
    ensures !r.1 ==> r.0 == s
  {
    if HasPrefix(s, prefix) then (s[|prefix|..], true) else (s, false)
  }
}
