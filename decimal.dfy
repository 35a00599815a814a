/**
 * Decimal text: Go's `strconv.Atoi` (parsing) and `fmt`'s `%d` verb
 * (rendering), over bytes.  Integers are unbounded: Atoi's 64-bit range
 * check is not modelled.
 */
module Decimal {
  import opened Wrappers
  import opened Binary

  const PLUS: byte := 43
  const MINUS: byte := 45
  const ZERO: byte := 48

  /** `unicode.IsDigit` of a byte: only the ASCII digits are digits below U+0100. */
  predicate IsDigit(b: byte)
  {
    48 <= b <= 57
  }

  predicate AllDigits(s: seq<byte>)
  {
    forall i :: 0 <= i < |s| ==> IsDigit(s[i])
  }

  /** The number a run of ASCII digits denotes, most significant first. */
  function DigitsValue(s: seq<byte>): nat
    requires AllDigits(s)
  {
    if s == [] then 0 else DigitsValue(s[..|s| - 1]) * 10 + (s[|s| - 1] - ZERO)
  }

  /** `strconv.Atoi`: an optional sign followed by at least one decimal digit, nothing else. */
  function Atoi(s: seq<byte>): (r: Option<int>)
    ensures r.Some? <==> (|s| > 0 && AllDigits(s)) || (|s| > 1 && (s[0] == PLUS || s[0] == MINUS) && AllDigits(s[1..]))
  {
    if |s| > 0 && (s[0] == PLUS || s[0] == MINUS) then
      if |s| > 1 && AllDigits(s[1..]) then
        Some(if s[0] == MINUS then -(DigitsValue(s[1..]) as int) else DigitsValue(s[1..]))
      else None
    else if |s| > 0 && AllDigits(s) then Some(DigitsValue(s))
    else None
  }

  /** `%d` of a non-negative number: its shortest decimal rendering. */
  function NatText(n: nat): (r: seq<byte>)
    ensures |r| >= 1 && AllDigits(r)
  {
    if n < 10 then [ZERO + n] else NatText(n / 10) + [ZERO + n % 10]
  }

  /** `%d` of an `int`: a minus sign for negative numbers, then the digits. */
  function IntText(n: int): (r: seq<byte>)
    ensures |r| >= 1
    ensures n >= 0 ==> AllDigits(r)
    ensures n < 0 ==> r[0] == MINUS && AllDigits(r[1..])
  {
    if n < 0 then [MINUS] + NatText(-n) else NatText(n)
  }

  lemma {:induction false} DigitsValueOfNatText(n: nat)
    ensures DigitsValue(NatText(n)) == n
  {
    var r := NatText(n);
    if n >= 10 {
      DigitsValueOfNatText(n / 10);
      assert r[..|r| - 1] == NatText(n / 10);
    }
  }

  /** Atoi reads back every number that %d renders. */
  lemma AtoiOfIntText(n: int)
    ensures Atoi(IntText(n)) == Some(n)
  {
    var r := IntText(n);
    if n < 0 {
      DigitsValueOfNatText(-n);
      assert r[1..] == NatText(-n);
    } else {
      DigitsValueOfNatText(n);
      assert IsDigit(r[0]);
    }
  }

  /** Atoi of a digit run is the run's value, and fails on the empty run. */
  lemma AtoiOfDigits(s: seq<byte>)
    requires AllDigits(s)
    ensures Atoi(s) == if s == [] then None else Some(DigitsValue(s))
  {
  }

  /** IntText is injective: distinct numbers render differently. */
  lemma IntTextInjective(a: int, b: int)
    requires IntText(a) == IntText(b)
    ensures a == b
  {
    AtoiOfIntText(a);
    AtoiOfIntText(b);
  }
}
