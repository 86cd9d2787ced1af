/** The pieces of Go's `fmt`, `strconv` and `strings` packages that the client's text
    conversions rely on.  A Go string is a sequence of bytes; here each `char` stands for one
    byte, and only ASCII white space counts as space. */
module GoText {
  import opened Wrappers
  import opened Bytes

  predicate IsDigit(c: char) { '0' <= c <= '9' }

  predicate AllDigits(s: string) { forall i :: 0 <= i < |s| ==> IsDigit(s[i]) }

  function DigitChar(d: nat): (c: char)
    requires d < 10
    ensures IsDigit(c)
  {
    ('0' as int + d) as char
  }

  /** The decimal digits of n without leading zeros (Go's `%d` of a non-negative number). */
  function Digits(n: nat): (s: string)
    ensures 1 <= |s| && AllDigits(s)
    ensures n < 10 <==> |s| == 1
  {
    if n < 10 then [DigitChar(n)] else Digits(n / 10) + [DigitChar(n % 10)]
  }

  /** The number a string of decimal digits spells; leading zeros are allowed. */
  function DecimalValue(s: string): nat
    requires AllDigits(s)
  {
    if s == [] then 0 else 10 * DecimalValue(s[..|s| - 1]) + (s[|s| - 1] as int - '0' as int)
  }

  lemma {:induction false} DecimalValueOfDigits(n: nat)
    ensures DecimalValue(Digits(n)) == n
  {
    if n >= 10 {
      var s := Digits(n);
      assert s[..|s| - 1] == Digits(n / 10);
      DecimalValueOfDigits(n / 10);
    }
  }

  function Zeros(k: nat): (s: string)
    ensures |s| == k && AllDigits(s)
  {
    if k == 0 then "" else "0" + Zeros(k - 1)
  }

  lemma {:induction false} DecimalValueOfZerosThen(k: nat, s: string)
    requires AllDigits(s)
    ensures AllDigits(Zeros(k) + s) && DecimalValue(Zeros(k) + s) == DecimalValue(s)
  {
    if s == [] {
      assert Zeros(k) + s == Zeros(k);
      ZerosValue(k);
    } else {
      var t := Zeros(k) + s;
      assert t[..|t| - 1] == Zeros(k) + s[..|s| - 1];
      DecimalValueOfZerosThen(k, s[..|s| - 1]);
    }
  }

  lemma {:induction false} ZerosValue(k: nat)
    ensures DecimalValue(Zeros(k)) == 0
  {
    if k > 0 {
      assert Zeros(k)[..k - 1] == Zeros(k - 1) by {
        ZerosAreZero(k);
        ZerosAreZero(k - 1);
      }
      ZerosValue(k - 1);
      ZerosAreZero(k);
    }
  }

  lemma {:induction false} ZerosAreZero(k: nat)
    ensures forall i :: 0 <= i < k ==> Zeros(k)[i] == '0'
  {
    if k > 0 { ZerosAreZero(k - 1); }
  }

  /** Left-pads a digit string with zeros to width w. */
  function ZeroPad(s: string, w: nat): (r: string)
    ensures |r| == if |s| >= w then |s| else w
  {
    if |s| >= w then s else Zeros(w - |s|) + s
  }

  /** Go's `fmt` verb `%0wd`: the sign counts toward the width and the zeros go after it. */
  function FmtInt(n: int, w: nat): (s: string)
    ensures |s| >= 1
  {
    if n < 0 then "-" + ZeroPad(Digits(-n), if w == 0 then 0 else w - 1)
    else ZeroPad(Digits(n), w)
  }

  /** `%0wd` prints at least w characters. */
  lemma FmtIntWidth(n: int, w: nat)
    ensures |FmtInt(n, w)| >= w
  {
  }

  /** The error kinds of `strconv.NumError`. */
  datatype NumError = ErrSyntax | ErrRange

  /** The value strconv gives a character in bases up to 36: `0`-`9`, then `a`-`z` or
      `A`-`Z` for 10 to 35, and 36 for anything else, which no base accepts. */
  function DigitValue(c: char): (d: nat)
    ensures d <= 36
    ensures d < 10 <==> IsDigit(c)
    ensures IsDigit(c) ==> d == c as int - '0' as int
  {
    if '0' <= c <= '9' then c as int - '0' as int
    else if 'a' <= c <= 'z' then c as int - 'a' as int + 10
    else if 'A' <= c <= 'Z' then c as int - 'A' as int + 10
    else 36
  }

  predicate AllDigitsIn(s: string, base: nat)
  {
    forall i :: 0 <= i < |s| ==> DigitValue(s[i]) < base
  }

  /** n with the digit d appended in the given base. */
  function Shift(n: nat, base: nat, d: nat): (r: nat)
    ensures base >= 1 ==> r >= n
  {
    n * base + d
  }

  /** The number s spells in the given base; leading zeros are allowed. */
  function BaseValue(s: string, base: nat): nat
    requires AllDigitsIn(s, base)
  {
    if s == [] then 0 else Shift(BaseValue(s[..|s| - 1], base), base, DigitValue(s[|s| - 1]))
  }

  /** The digit loop of `strconv.ParseUint`: the digits are taken from the left, and the
      first character that is not a digit of the base is ErrSyntax and the first digit that
      takes the value past maxVal is ErrRange, whichever comes first. */
  function ScanUint(s: string, base: nat, maxVal: nat): (r: Result<nat, NumError>)
    ensures r.Ok? ==> r.value <= maxVal
    decreases |s|
  {
    if s == [] then Ok(0)
    else match ScanUint(s[..|s| - 1], base, maxVal)
      case Err(e) => Err(e)
      case Ok(n) =>
        var d := DigitValue(s[|s| - 1]);
        if d >= base then Err(ErrSyntax)
        else if Shift(n, base, d) > maxVal then Err(ErrRange)
        else Ok(Shift(n, base, d))
  }

  const MaxUint64: nat := 0xffff_ffff_ffff_ffff

  /** `strconv.ParseUint(s, 10, 64)`: at least one decimal digit, no sign, value at most
      2^64 - 1. */
  function ParseUint(s: string): (r: Result<int, NumError>)
    ensures r.Ok? ==> 0 <= r.value <= MaxUint64
    ensures r.Ok? ==> s != [] && AllDigits(s)
  {
    if s == [] then Err(ErrSyntax)
    else
      match ScanUint(s, 10, MaxUint64)
      case Ok(v) => ScanUintDigits(s, 10, MaxUint64); Ok(v)
      case Err(e) => Err(e)
  }

  /** `strconv.ParseUint(s, 0, bitSize)` with maxVal = 2^bitSize - 1: the base is read from
      the text, "0x" or "0X" for hexadecimal (which must be followed by a digit), any other
      leading "0" for octal, and decimal otherwise. */
  function ParseUintAuto(s: string, maxVal: nat): (r: Result<nat, NumError>)
    ensures r.Ok? ==> s != [] && r.value <= maxVal
  {
    if s == [] then Err(ErrSyntax)
    else if s[0] == '0' && |s| > 1 && (s[1] == 'x' || s[1] == 'X') then
      if |s| == 2 then Err(ErrSyntax) else ScanUint(s[2..], 16, maxVal)
    else if s[0] == '0' then ScanUint(s, 8, maxVal)
    else ScanUint(s, 10, maxVal)
  }

  /** `strconv.ParseInt(s, 10, 64)`: an optional sign, then `ParseUint` of the rest; a range
      error from the digits stays a range error, and the value must fit in int64. */
  function ParseInt(s: string): (r: Result<int, NumError>)
    ensures r.Ok? ==> MinInt64 <= r.value <= MaxInt64
  {
    if s == [] then Err(ErrSyntax)
    else
      var neg := s[0] == '-';
      var digits := if s[0] == '-' || s[0] == '+' then s[1..] else s;
      match ParseUint(digits)
      case Err(e) => Err(e)
      case Ok(u) =>
        if neg then (if u > -MinInt64 then Err(ErrRange) else Ok(-u))
        else if u > MaxInt64 then Err(ErrRange) else Ok(u)
  }

  /** Only digits of the base get through the loop. */
  lemma {:induction false} ScanUintDigits(s: string, base: nat, maxVal: nat)
    requires ScanUint(s, base, maxVal).Ok?
    ensures AllDigitsIn(s, base)
    ensures base == 10 ==> AllDigits(s)
    decreases |s|
  {
    if s != [] {
      ScanUintDigits(s[..|s| - 1], base, maxVal);
      assert forall i :: 0 <= i < |s| - 1 ==> s[i] == s[..|s| - 1][i];
    }
  }

  /** On a string of digits of the base the loop yields the value it spells, or ErrRange
      exactly when that value exceeds maxVal. */
  lemma {:induction false} ScanUintValue(s: string, base: nat, maxVal: nat)
    requires AllDigitsIn(s, base)
    ensures ScanUint(s, base, maxVal) ==
      if BaseValue(s, base) > maxVal then Err(ErrRange) else Ok(BaseValue(s, base))
    decreases |s|
  {
    if s != [] {
      var p := s[..|s| - 1];
      assert forall i :: 0 <= i < |p| ==> p[i] == s[i];
      ScanUintValue(p, base, maxVal);
      assert DigitValue(s[0]) < base;
    }
  }

  /** The loop stops at its first error: nothing after it is looked at. */
  lemma {:induction false} ScanUintStops(p: string, q: string, base: nat, maxVal: nat)
    requires ScanUint(p, base, maxVal).Err?
    ensures ScanUint(p + q, base, maxVal) == ScanUint(p, base, maxVal)
    decreases |q|
  {
    if q == [] {
      assert p + q == p;
    } else {
      var q' := q[..|q| - 1];
      assert (p + q)[..|p + q| - 1] == p + q';
      ScanUintStops(p, q', base, maxVal);
    }
  }

  /** A leading zero digit does not change the value. */
  lemma {:induction false} LeadingZeroValue(c: char, s: string, base: nat)
    requires DigitValue(c) == 0 < base && AllDigitsIn(s, base)
    ensures AllDigitsIn([c] + s, base) && BaseValue([c] + s, base) == BaseValue(s, base)
    decreases |s|
  {
    if s == [] {
      assert [c] + s == [c];
      assert [c][..0] == [];
    } else {
      var p := s[..|s| - 1];
      assert forall i :: 0 <= i < |p| ==> p[i] == s[i];
      assert ([c] + s)[..|s|] == [c] + p;
      LeadingZeroValue(c, p, base);
    }
  }

  /** Base 0: "0x" or "0X" and hexadecimal digits read as hexadecimal. */
  lemma ParseUintAutoHex(x: char, h: string, maxVal: nat)
    requires (x == 'x' || x == 'X') && h != [] && AllDigitsIn(h, 16)
    ensures ParseUintAuto(['0', x] + h, maxVal) ==
      if BaseValue(h, 16) > maxVal then Err(ErrRange) else Ok(BaseValue(h, 16))
  {
    assert (['0', x] + h)[2..] == h;
    ScanUintValue(h, 16, maxVal);
  }

  /** Base 0: a leading "0" followed by octal digits reads as octal. */
  lemma ParseUintAutoOctal(o: string, maxVal: nat)
    requires AllDigitsIn(o, 8)
    ensures ParseUintAuto("0" + o, maxVal) ==
      if BaseValue(o, 8) > maxVal then Err(ErrRange) else Ok(BaseValue(o, 8))
  {
    LeadingZeroValue('0', o, 8);
    assert o != [] ==> DigitValue(o[0]) < 8;
    ScanUintValue("0" + o, 8, maxVal);
  }

  /** Base 0: decimal digits that do not start with "0" read as decimal. */
  lemma ParseUintAutoDecimal(s: string, maxVal: nat)
    requires s != [] && s[0] != '0' && AllDigits(s)
    ensures ParseUintAuto(s, maxVal) ==
      if DecimalValue(s) > maxVal then Err(ErrRange) else Ok(DecimalValue(s))
  {
    DecimalIsBaseTen(s);
    ScanUintValue(s, 10, maxVal);
  }

  /** A digit the base does not have is ErrSyntax: "08" is not octal, and "0x" alone is not
      hexadecimal; the same digits after "0x" are. */
  lemma ParseUintAutoExamples()
    ensures ParseUintAuto("08", 0xffff_ffff) == Err(ErrSyntax)
    ensures ParseUintAuto("0x", 0xffff_ffff) == Err(ErrSyntax)
    ensures ParseUintAuto("010", 0xffff_ffff) == Ok(8)
    ensures ParseUintAuto("0x1f", 0xffff_ffff) == Ok(31)
  {
    assert "08"[..1] == "0" && "0"[..0] == [];
    assert ScanUint("0", 8, 0xffff_ffff) == Ok(0);
    assert "010"[..2] == "01" && "01"[..1] == "0";
    assert ScanUint("01", 8, 0xffff_ffff) == Ok(1);
    assert "0x1f"[2..] == "1f" && "1f"[..1] == "1" && "1"[..0] == [];
    assert ScanUint("1", 16, 0xffff_ffff) == Ok(1);
  }

  /** Decimal digits are the digits of base 10, and spell the same number. */
  lemma {:induction false} DecimalIsBaseTen(s: string)
    requires AllDigits(s)
    ensures AllDigitsIn(s, 10) && BaseValue(s, 10) == DecimalValue(s)
    decreases |s|
  {
    if s != [] {
      var p := s[..|s| - 1];
      assert forall i :: 0 <= i < |p| ==> p[i] == s[i];
      DecimalIsBaseTen(p);
    }
  }

  lemma ParseUintOfDigits(p: string)
    requires p != [] && AllDigits(p) && DecimalValue(p) <= MaxUint64
    ensures ParseUint(p) == Ok(DecimalValue(p))
  {
    DecimalIsBaseTen(p);
    ScanUintValue(p, 10, MaxUint64);
  }

  /** A decimal number past 2^64 - 1 is ErrRange, even when more digits follow. */
  lemma ParseUintTooLarge(p: string)
    requires AllDigits(p) && DecimalValue(p) > MaxUint64
    ensures ParseUint(p) == Err(ErrRange)
  {
    DecimalIsBaseTen(p);
    ScanUintValue(p, 10, MaxUint64);
  }

  /** A zero-padded digit string spells the number it pads. */
  lemma PaddedDigitsValue(m: nat, w: nat)
    ensures AllDigits(ZeroPad(Digits(m), w)) && DecimalValue(ZeroPad(Digits(m), w)) == m
  {
    DecimalValueOfDigits(m);
    if |Digits(m)| < w {
      DecimalValueOfZerosThen(w - |Digits(m)|, Digits(m));
    }
  }

  lemma ParseIntOfDigits(p: string)
    requires p != [] && AllDigits(p) && DecimalValue(p) <= MaxInt64
    ensures ParseInt(p) == Ok(DecimalValue(p))
  {
    assert IsDigit(p[0]);
    ParseUintOfDigits(p);
  }

  lemma ParseIntOfNegDigits(p: string)
    requires p != [] && AllDigits(p) && DecimalValue(p) <= -MinInt64
    ensures ParseInt("-" + p) == Ok(-(DecimalValue(p) as int))
  {
    assert ("-" + p)[1..] == p;
    ParseUintOfDigits(p);
  }

  /** Whatever `%0wd` prints, `ParseInt` reads back. */
  lemma FmtIntParses(n: int, w: nat)
    requires MinInt64 <= n <= MaxInt64
    ensures ParseInt(FmtInt(n, w)) == Ok(n)
  {
    if n < 0 {
      FmtNegParses(n, w);
    } else {
      var p := ZeroPad(Digits(n), w);
      PaddedDigitsValue(n, w);
      ParseIntOfDigits(p);
    }
  }

  lemma FmtNegParses(n: int, w: nat)
    requires MinInt64 <= n < 0
    ensures ParseInt(FmtInt(n, w)) == Ok(n)
  {
    var p := ZeroPad(Digits(-n), if w == 0 then 0 else w - 1);
    PaddedDigitsValue(-n, if w == 0 then 0 else w - 1);
    FmtNegForm(n, w);
    NegParse(FmtInt(n, w), p, -n);
  }

  /** `%0wd` of a negative number: the sign, then the digits padded to one less. */
  lemma FmtNegForm(n: int, w: nat)
    requires n < 0
    ensures FmtInt(n, w) == "-" + ZeroPad(Digits(-n), if w == 0 then 0 else w - 1)
  {
  }

  /** A text that is "-" and digits parses to the negated value. */
  lemma NegParse(s: string, p: string, m: int)
    requires s == "-" + p && p != [] && AllDigits(p) && DecimalValue(p) == m <= -MinInt64
    ensures ParseInt(s) == Ok(-m)
  {
    ParseIntOfNegDigits(p);
  }

  predicate IsSpace(c: char)
  {
    c == ' ' || c == '\t' || c == '\n' || c == '\r' || c == '\U{0b}' || c == '\U{0c}'
  }

  function TrimLeft(s: string): (r: string)
    ensures r == [] || !IsSpace(r[0])
  {
    if s != [] && IsSpace(s[0]) then TrimLeft(s[1..]) else s
  }

  function TrimRight(s: string): (r: string)
    ensures r == [] || !IsSpace(r[|r| - 1])
  {
    if s != [] && IsSpace(s[|s| - 1]) then TrimRight(s[..|s| - 1]) else s
  }

  /** `strings.TrimSpace`: drops leading and trailing white space. */
  function TrimSpace(s: string): (r: string)
    ensures r == [] || (!IsSpace(r[0]) && !IsSpace(r[|r| - 1]))
  {
    TrimRightPrefix(TrimLeft(s));
    TrimRight(TrimLeft(s))
  }

  lemma {:induction false} TrimRightPrefix(s: string)
    ensures |TrimRight(s)| <= |s| && TrimRight(s) == s[..|TrimRight(s)|]
  {
    if s != [] && IsSpace(s[|s| - 1]) {
      TrimRightPrefix(s[..|s| - 1]);
    }
  }

  lemma TrimSpaceOfTrimmed(s: string)
    requires s == [] || (!IsSpace(s[0]) && !IsSpace(s[|s| - 1]))
    ensures TrimSpace(s) == s
  {
  }

  /** `strings.IndexRune(s, c)` for an ASCII c: the first index of c, or -1. */
  function IndexChar(s: string, c: char): (r: int)
    ensures -1 <= r < |s|
    ensures r >= 0 ==> s[r] == c
  {
    if s == [] then -1
    else if s[0] == c then 0
    else var k := IndexChar(s[1..], c); if k < 0 then -1 else k + 1
  }

  lemma {:induction false} IndexCharAt(p: string, c: char, q: string)
    requires c !in p
    ensures IndexChar(p + [c] + q, c) == |p|
  {
    if p != [] {
      assert (p + [c] + q)[1..] == p[1..] + [c] + q;
      IndexCharAt(p[1..], c, q);
    }
  }
}
