/** Option and Result, the two failure-carrying types the model uses for Go's `(value, error)` returns. */
module Wrappers {
  datatype Option<+T> = None | Some(value: T)

  datatype Result<+T, +E> = Ok(value: T) | Err(error: E)
}

/**
 * Bytes, fixed-width unsigned integers and the big-endian layout that Go's
 * `encoding/binary` package gives them.  Go `string` and `[]byte` are both
 * sequences of bytes here.
 */
module Binary {
  type byte = x: int | 0 <= x < 256
  type uint32 = x: int | 0 <= x < 0x1_0000_0000

  const TWO_32: int := 0x1_0000_0000

  /** The bytes of an ASCII literal; used for the fixed strings of the source. */
  function Ascii(s: string): (r: seq<byte>)
    ensures |r| == |s|
    ensures forall i :: 0 <= i < |s| ==> r[i] == (s[i] as int) % 256
  {
    seq(|s|, i requires 0 <= i < |s| => (s[i] as int) % 256)
  }

  /** A freshly made Go buffer: `make([]byte, n)`. */
  function Zeros(n: nat): (z: seq<byte>)
    ensures |z| == n
    ensures forall i :: 0 <= i < n ==> z[i] == 0
  {
    seq(n, _ => 0)
  }

  /** Go's conversion `uint32(x)` of a (64-bit) `int`: the value modulo 2^32. */
  function ToUint32(x: int): uint32
  {
    x % TWO_32
  }

  /** `binary.BigEndian.PutUint32`: most significant byte first. */
  function BigEndian32(x: uint32): (r: seq<byte>)
    ensures |r| == 4
  {
    [x / 0x100_0000, (x / 0x1_0000) % 256, (x / 0x100) % 256, x % 256]
  }

  /** `binary.BigEndian.Uint32`: the value of four bytes, most significant first. */
  function Uint32Of(b: seq<byte>): uint32
    requires |b| == 4
  {
    (b[0] as int) * 0x100_0000 + (b[1] as int) * 0x1_0000 + (b[2] as int) * 0x100 + b[3]
  }

  /** Reading back what PutUint32 wrote gives the original number, for every uint32. */
  lemma ReadBackBigEndian32(x: uint32)
    ensures Uint32Of(BigEndian32(x)) == x
  {
    var b := BigEndian32(x);
    var q2 := x / 0x100;
    var q1 := x / 0x1_0000;
    assert x == q2 * 0x100 + x % 256;
    assert q2 == (x / 0x1_0000) * 0x100 + (x / 0x100) % 256;
    assert q1 == (x / 0x100_0000) * 0x100 + (x / 0x1_0000) % 256;
  }

  /** Four bytes are the PutUint32 layout of their own value. */
  lemma BigEndian32OfBytes(b: seq<byte>)
    requires |b| == 4
    ensures BigEndian32(Uint32Of(b)) == b
  {
    var x := Uint32Of(b);
    assert x / 0x100_0000 == b[0];
    assert x / 0x1_0000 == (b[0] as int) * 0x100 + b[1];
    assert x / 0x100 == (b[0] as int) * 0x1_0000 + (b[1] as int) * 0x100 + b[2];
  }

  function Min(a: int, b: int): int
  {
    if a <= b then a else b
  }

  /** 2^63: Go's 64-bit `int` holds -INT64_BOUND to INT64_BOUND - 1, and a slice holds fewer than INT64_BOUND bytes. */
  const INT64_BOUND: int := 0x8000_0000_0000_0000

  predicate IsInt64(x: int)
  {
    -INT64_BOUND <= x < INT64_BOUND
  }

  /** Division truncating toward zero, on unbounded integers (Dafny's `/` is Euclidean). */
  function TruncDiv(a: int, b: int): (q: int)
    requires b != 0
    ensures a >= 0 && b > 0 ==> q == a / b
  {
    if a >= 0 then (if b > 0 then a / b else -(a / -b))
    else (if b > 0 then -((-a) / b) else (-a) / (-b))
  }

  /**
   * Go's `/` on `int`: truncates toward zero, except that the one quotient
   * outside 64 bits, the most negative int divided by -1, wraps to the
   * dividend.
   */
  function GoDiv(a: int, b: int): (q: int)
    requires b != 0
    ensures a >= 0 && b > 0 ==> q == a / b
  {
    if a == -INT64_BOUND && b == -1 then a else TruncDiv(a, b)
  }

  /** Go's `%` on `int`: the remainder takes the sign of the dividend, and the most negative int modulo -1 is 0. */
  function GoMod(a: int, b: int): (m: int)
    requires b != 0
    ensures a >= 0 && b > 0 ==> m == a % b
  {
    a - b * TruncDiv(a, b)
  }

  /** A natural number times a positive one is at least the natural number. */
  lemma MulAtLeast(q: int, y: int)
    requires q >= 0 && y > 0
    ensures y * q >= q
  {
    assert q * (y - 1) >= 0;
  }

  /** Euclidean division of a natural number by a positive one. */
  lemma {:induction false} NatDivision(x: int, y: int)
    requires x >= 0 && y > 0
    ensures x == y * (x / y) + x % y && 0 <= x % y < y && 0 <= x / y <= x
  {
    MulAtLeast(x / y, y);
  }

  /** A quotient by at least 2 is at most half the dividend. */
  lemma {:induction false} HalfQuotient(x: int, y: int)
    requires x >= 0 && y >= 2
    ensures 2 * (x / y) <= x
  {
    NatDivision(x, y);
    MulAtLeast(x / y, y - 1);
    assert y * (x / y) == (y - 1) * (x / y) + x / y;
  }

  /** The remainder of a negative dividend is the negated remainder of its magnitude. */
  lemma {:induction false} NegativeDividend(a: int, b: int)
    requires a < 0 && b != 0
    ensures var y := if b > 0 then b else -b;
      GoMod(a, b) == -((-a) % y) && (b > 0 ==> TruncDiv(a, b) == -((-a) / y)) && (b < 0 ==> TruncDiv(a, b) == (-a) / y)
  {
    var y := if b > 0 then b else -b;
    var q := (-a) / y;
    NatDivision(-a, y);
    if b > 0 {
      assert b * TruncDiv(a, b) == -(y * q);
    } else {
      assert b * TruncDiv(a, b) == -(y * q);
    }
  }

  /** The remainder of a non-negative dividend is the remainder of the magnitudes. */
  lemma {:induction false} NonNegativeDividend(a: int, b: int)
    requires a >= 0 && b != 0
    ensures var y := if b > 0 then b else -b;
      GoMod(a, b) == a % y && (b > 0 ==> TruncDiv(a, b) == a / y) && (b < 0 ==> TruncDiv(a, b) == -(a / y))
  {
    var y := if b > 0 then b else -b;
    var q := a / y;
    NatDivision(a, y);
    assert b * TruncDiv(a, b) == y * q;
  }

  /** Go's quotient of two 64-bit ints is a 64-bit int; only the most negative int divided by -1 wraps, to itself. */
  lemma {:induction false} GoQuotientInRange(a: int, b: int)
    requires IsInt64(a) && IsInt64(b) && b != 0
    ensures IsInt64(GoDiv(a, b))
    ensures a == -INT64_BOUND && b == -1 ==> GoDiv(a, b) == a && GoMod(a, b) == 0
  {
    var x, y := if a >= 0 then a else -a, if b > 0 then b else -b;
    NatDivision(x, y);
    if a >= 0 {
      NonNegativeDividend(a, b);
    } else {
      NegativeDividend(a, b);
      if y >= 2 {
        HalfQuotient(x, y);
      }
    }
  }

  /** Apart from that wrapped case, Go's quotient and remainder recompose the dividend: `q * b + m == a`. */
  lemma {:induction false} GoDivision(a: int, b: int)
    requires b != 0 && !(a == -INT64_BOUND && b == -1)
    ensures GoDiv(a, b) * b + GoMod(a, b) == a
  {
    var x, y := if a >= 0 then a else -a, if b > 0 then b else -b;
    NatDivision(x, y);
    var q := x / y;
    if a >= 0 {
      NonNegativeDividend(a, b);
      assert GoDiv(a, b) * b == y * q;
    } else {
      NegativeDividend(a, b);
      assert GoDiv(a, b) * b == -(y * q);
    }
  }

  /** Go's remainder is smaller than the divisor in magnitude, and is zero or has the dividend's sign. */
  lemma {:induction false} GoRemainder(a: int, b: int)
    requires b != 0
    ensures -b < GoMod(a, b) < b || b < GoMod(a, b) < -b
    ensures a >= 0 ==> GoMod(a, b) >= 0
    ensures a <= 0 ==> GoMod(a, b) <= 0
  {
    var x, y := if a >= 0 then a else -a, if b > 0 then b else -b;
    NatDivision(x, y);
    if a >= 0 {
      NonNegativeDividend(a, b);
    } else {
      NegativeDividend(a, b);
    }
  }
}
