/** Bytes, fixed-width unsigned integers and little-endian arithmetic, the vocabulary of
    the MySQL client/server protocol.  Go's `byte`, `uint16`, `uint32` and `uint64` are
    subset types of `int`; a conversion that truncates in Go is written out with `%`. */
module Bytes {
  type Byte = b: int | 0 <= b < 0x100
  type U16 = x: int | 0 <= x < 0x1_0000
  type U32 = x: int | 0 <= x < 0x1_0000_0000
  type U64 = x: int | 0 <= x < 0x1_0000_0000_0000_0000

  const MinInt64: int := -0x8000_0000_0000_0000
  const MaxInt64: int := 0x7fff_ffff_ffff_ffff
  type I64 = x: int | MinInt64 <= x <= MaxInt64

  /** Go's int64 arithmetic: the result of +, - and * taken modulo 2^64 in two's complement. */
  function Wrap64(x: int): (r: I64)
    ensures MinInt64 <= x <= MaxInt64 ==> r == x
  {
    var m := x % 0x1_0000_0000_0000_0000;
    if m <= MaxInt64 then m else m - 0x1_0000_0000_0000_0000
  }

  /** Go's `uint64(x)` of a signed value: the two's complement bit pattern. */
  function ToU64(x: int): (r: U64)
    ensures 0 <= x < 0x1_0000_0000_0000_0000 ==> r == x
  {
    x % 0x1_0000_0000_0000_0000
  }

  /** Go's `int64(x)` of an unsigned 64-bit value. */
  function ToI64(x: U64): (r: I64)
    ensures x <= MaxInt64 ==> r == x
    ensures x > MaxInt64 ==> r == x - 0x1_0000_0000_0000_0000
  {
    Wrap64(x)
  }

  /** Go's integer division and remainder truncate toward zero. */
  function Quot(a: int, b: int): (q: int)
    requires b > 0
    ensures a >= 0 ==> q == a / b
  {
    if a >= 0 then a / b else -((-a) / b)
  }

  function Rem(a: int, b: int): (r: int)
    requires b > 0
    ensures a == Quot(a, b) * b + r
    ensures a >= 0 ==> r == a % b
    ensures -b < r < b
  {
    if a >= 0 then a % b else -((-a) % b)
  }

  function Pow256(n: nat): (r: nat)
    ensures r >= 1
  {
    if n == 0 then 1 else 256 * Pow256(n - 1)
  }

  lemma Pow256Values()
    ensures Pow256(1) == 0x100 && Pow256(2) == 0x1_0000 && Pow256(3) == 0x100_0000
    ensures Pow256(4) == 0x1_0000_0000 && Pow256(8) == 0x1_0000_0000_0000_0000
  {
    assert Pow256(4) == 0x1_0000_0000;
    assert Pow256(6) == 0x1_0000_0000_0000;
  }

  lemma {:induction false} Pow256Monotone(i: nat, j: nat)
    requires i <= j
    ensures Pow256(i) <= Pow256(j)
  {
    if i < j {
      Pow256Monotone(i, j - 1);
    }
  }

  /** The number a byte string spells, least significant byte first. */
  function LeValue(s: seq<Byte>): (v: nat)
    ensures v < Pow256(|s|)
  {
    if s == [] then 0 else s[0] + 256 * LeValue(s[1..])
  }

  /** The n low-order bytes of v, least significant first. */
  function LeBytes(v: nat, n: nat): (s: seq<Byte>)
    ensures |s| == n
  {
    if n == 0 then [] else [v % 256] + LeBytes(v / 256, n - 1)
  }

  lemma {:induction false} LeValueOfLeBytes(v: nat, n: nat)
    requires v < Pow256(n)
    ensures LeValue(LeBytes(v, n)) == v
  {
    if n > 0 {
      LeValueOfLeBytes(v / 256, n - 1);
      assert LeBytes(v, n)[1..] == LeBytes(v / 256, n - 1);
    }
  }

  lemma {:induction false} LeBytesOfLeValue(s: seq<Byte>)
    ensures LeBytes(LeValue(s), |s|) == s
  {
    if s != [] {
      LeBytesOfLeValue(s[1..]);
      assert (s[0] + 256 * LeValue(s[1..])) / 256 == LeValue(s[1..]);
    }
  }

  /** Appending a byte adds it at the next power of 256. */
  lemma {:induction false} LeValueSnoc(s: seq<Byte>, b: Byte)
    ensures LeValue(s + [b]) == LeValue(s) + b * Pow256(|s|)
  {
    if s != [] {
      assert (s + [b])[1..] == s[1..] + [b];
      LeValueSnoc(s[1..], b);
      var p, t := Pow256(|s| - 1), LeValue(s[1..]);
      assert Pow256(|s|) == 256 * p;
      assert LeValue(s + [b]) == s[0] + 256 * (t + b * p);
      Scale256(t, b, p);
    }
  }

  lemma Scale256(t: int, b: int, p: int)
    ensures 256 * (t + b * p) == 256 * t + b * (256 * p)
  {
    var bp := b * p;
    assert b * (256 * p) == 256 * bp;
  }

  lemma MulMonotone(d: nat, k: int)
    requires k >= 1
    ensures d * k >= d
  {
    assert d * k == d + d * (k - 1);
  }

  /** A quotient is determined by any decomposition with an in-range remainder. */
  lemma DivUnique(a: nat, d: nat, x: nat, y: nat)
    requires d > 0 && a == d * x + y && y < d
    ensures a / d == x
  {
    var q, r := a / d, a % d;
    assert d * (x - q) == r - y;
    if x - q >= 1 {
      MulMonotone(d, x - q);
    } else if q - x >= 1 {
      MulMonotone(d, q - x);
    }
  }

  lemma Distrib(b: nat, c: nat, q2: nat, r2: nat)
    ensures b * (c * q2 + r2) == (b * c) * q2 + b * r2
  {
  }

  lemma MulBelow(b: nat, r2: nat, c: nat)
    requires r2 < c
    ensures b * r2 + b <= b * c
  {
    if r2 + 1 < c {
      MulMonotone(b, c - 1 - r2);
      assert b * c == b * (r2 + 1) + b * (c - 1 - r2);
    } else {
      assert c == r2 + 1;
    }
  }

  lemma DivDiv(a: nat, b: nat, c: nat)
    requires b > 0 && c > 0
    ensures a / b / c == a / (b * c)
  {
    var q, r := a / b, a % b;
    var q2, r2 := q / c, q % c;
    assert a == b * q + r;
    assert a == b * (c * q2 + r2) + r;
    Distrib(b, c, q2, r2);
    MulBelow(b, r2, c);
    DivUnique(a, b * c, q2, b * r2 + r);
  }

  /** Byte i of LeBytes(v, n) is v shifted right by 8*i bits, truncated to a byte. */
  lemma {:induction false} LeBytesAt(v: nat, n: nat, i: nat)
    requires i < n
    ensures LeBytes(v, n)[i] == (v / Pow256(i)) % 256
  {
    if i > 0 {
      LeBytesAt(v / 256, n - 1, i - 1);
      DivDiv(v, 256, Pow256(i - 1));
    }
  }

  /** What a read of a value from a byte stream leaves: the value and the unread rest. */
  datatype Got<+T> = Got(value: T, rest: seq<Byte>)

  /** Concatenation regroups freely. */
  lemma Assoc<T>(a: seq<T>, b: seq<T>, c: seq<T>)
    ensures (a + b) + c == a + (b + c)
  {
  }
}
