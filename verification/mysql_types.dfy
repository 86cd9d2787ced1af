/** The MySQL temporal values of package mysql (mysql/types.go): DATE as a Year/Month/Day
    record, TIME as a signed count of nanoseconds, and their text forms. */
module MysqlTypes {
  import opened Wrappers
  import opened Bytes
  import opened GoText

  type I16 = x: int | -0x8000 <= x < 0x8000

  /** MySQL DATE. */
  datatype Date = Date(Year: I16, Month: Byte, Day: Byte)

  /** MySQL DATETIME / TIMESTAMP as the binary protocol carries it.  The record is declared in
      binding.go; native/codecs.go reads and writes a record with the same fields. */
  datatype Datetime = Datetime(Year: I16, Month: Byte, Day: Byte,
                               Hour: Byte, Minute: Byte, Second: Byte, Nanosec: U32)

  /** MySQL TIME: a time.Duration, that is int64 nanoseconds. */
  type Time = I64

  const NanosPerSecond := 1_000_000_000

  /** Failures of the text conversions: a strconv error, the "Invalid MySQL DATE string" and
      "invalid MySQL TIME string" errors (which carry the offending text), or the index panic
      of an empty TIME string. */
  datatype ParseError = NumErr(err: NumError) | InvalidDate(str: string) | InvalidTime(str: string)
                      | IndexPanic

  /** strconv.Atoi or strconv.ParseInt(s, 10, 64) of a field: the Atoi fields have at most
      four characters, so the width of int does not change the result. */
  function Num(s: string): (r: Result<int, ParseError>)
    ensures r.Ok? <==> ParseInt(s).Ok?
    ensures r.Ok? ==> r.value == ParseInt(s).value
  {
    match ParseInt(s)
    case Ok(v) => Ok(v)
    case Err(e) => Err(NumErr(e))
  }

  /** Date.String: `%04d-%02d-%02d`. */
  function DateString(dd: Date): (s: string)
  {
    FmtInt(dd.Year, 4) + "-" + FmtInt(dd.Month, 2) + "-" + FmtInt(dd.Day, 2)
  }

  /** A date prints as at least ten characters, and the zero date as 0000-00-00. */
  lemma DateStringForm(dd: Date)
    ensures |DateString(dd)| >= 10
    ensures DateIsZero(dd) ==> DateString(dd) == "0000-00-00"
  {
    FmtIntWidth(dd.Year, 4); FmtIntWidth(dd.Month, 2); FmtIntWidth(dd.Day, 2);
    assert Zeros(1) == "0" && Zeros(3) == "000";
  }

  /** Date.IsZero: the date 0000-00-00. */
  predicate DateIsZero(dd: Date)
    ensures DateIsZero(dd) <==> dd == Date(0, 0, 0)
  {
    dd.Day == 0 && dd.Month == 0 && dd.Year == 0
  }

  /** ParseDate: YYYY-MM-DD, surrounding white space ignored; month 1..12 and day 1..31. */
  function ParseDate(s: string): (r: Result<Date, ParseError>)
    ensures r.Ok? ==> 1 <= r.value.Month <= 12 && 1 <= r.value.Day <= 31
    ensures r.Ok? ==> |TrimSpace(s)| == 10
  {
    var str := TrimSpace(s);
    if |str| != 10 || str[4] != '-' || str[7] != '-' then Err(InvalidDate(str))
    else
      var y :- Num(str[0..4]);
      var m :- Num(str[5..7]);
      if m < 1 || m > 12 then Err(InvalidDate(str))
      else
        var d :- Num(str[8..10]);
        if d < 1 || d > 31 then Err(InvalidDate(str))
        else Ok(Date(Wrap16(y), m, d))
  }

  /** Go's int16(y). */
  function Wrap16(y: int): (r: I16)
    ensures -0x8000 <= y < 0x8000 ==> r == y
  {
    var m := y % 0x1_0000;
    if m < 0x8000 then m else m - 0x1_0000
  }

  /** DurationString: `H:MM:SS`, with `.NNNNNNNNN` when there are nanoseconds.  The sign
      handling is as written: the negation of d is a no-op, so for a negative d the hours come
      out positive and the minutes, seconds and nanoseconds negative. */
  function DurationString(d: Time): (s: string)
  {
    var sign := if d < 0 then -1 else 1;
    var secs := Quot(d, NanosPerSecond);
    var mins := Quot(secs, 60);
    DurationText(Quot(mins, 60) * sign, Rem(mins, 60), Rem(secs, 60), Rem(d, NanosPerSecond))
  }

  /** `%d:%02d:%02d`, then `.%09d` when there are nanoseconds. */
  function DurationText(hour: int, min: int, sec: int, ns: int): string
  {
    var hms := FmtInt(hour, 0) + ":" + FmtInt(min, 2) + ":" + FmtInt(sec, 2);
    if ns == 0 then hms else hms + "." + FmtInt(ns, 9)
  }

  /** ParseDuration: `[+-]H+:MM:SS[.NNNNNNNNN]`, surrounding white space ignored.  The
      arithmetic is Go's int64 arithmetic, so it wraps. */
  function ParseDuration(s: string): (r: Result<Time, ParseError>)
    ensures TrimSpace(s) == [] ==> r == Err(IndexPanic)
  {
    var orig := TrimSpace(s);
    if orig == [] then Err(IndexPanic)
    else
      var sign := if orig[0] == '-' then -1 else 1;
      var str := if orig[0] == '-' || orig[0] == '+' then orig[1..] else orig;
      var nn := IndexChar(str, ':');
      if nn == -1 then Err(InvalidTime(orig))
      else
        var h :- Num(str[..nn]);
        var d :- ParseClock(str[nn + 1..], h, orig);
        Ok(Wrap64(d * sign))
  }

  /** The `MM:SS[.NNNNNNNNN]` part of ParseDuration, after h hours were read: the duration in
      nanoseconds before the sign is applied. */
  function ParseClock(rest: string, h: int, orig: string): (r: Result<int, ParseError>)
    ensures r.Ok? ==> |rest| == 5 || |rest| == 15
  {
    if (|rest| != 5 && |rest| != 15) || rest[2] != ':' then Err(InvalidTime(orig))
    else
      var m :- Num(rest[0..2]);
      if m < 0 || m > 59 then Err(InvalidTime(orig))
      else
        var sec :- Num(rest[3..5]);
        if sec < 0 || sec > 59 then Err(InvalidTime(orig))
        else
          var d := ClockNanos(h, m, sec);
          if |rest| == 15 then
            if rest[5] != '.' then Err(InvalidTime(orig))
            else
              var ns :- Num(rest[6..15]);
              Ok(d + ns)
          else Ok(d)
  }

  /** h hours, m minutes and sec seconds in nanoseconds. */
  function ClockNanos(h: int, m: int, sec: int): int
  {
    (h * 3600 + m * 60 + sec) * NanosPerSecond
  }

  function Pow10(k: nat): (r: nat)
    ensures r >= 1
  {
    if k == 0 then 1 else 10 * Pow10(k - 1)
  }

  lemma {:induction false} DigitsLength(n: nat, k: nat)
    requires 1 <= k && n < Pow10(k)
    ensures |Digits(n)| <= k
  {
    if n >= 10 {
      DigitsLength(n / 10, k - 1);
    }
  }

  /** A two-digit field of a TIME or DATE string reads back as the number printed. */
  lemma {:induction false} Pad2Reads(n: nat)
    requires n < 100
    ensures |FmtInt(n, 2)| == 2 && AllDigits(FmtInt(n, 2)) && ParseInt(FmtInt(n, 2)) == Ok(n)
  {
    DigitsLength(n, 2);
    FmtIntParses(n, 2);
    PaddedDigitsValue(n, 2);
  }

  lemma ParseDateOf(str: string, y: int, m: int, d: int)
    requires TrimSpace(str) == str && |str| == 10 && str[4] == '-' && str[7] == '-'
    requires ParseInt(str[0..4]) == Ok(y) && ParseInt(str[5..7]) == Ok(m) && ParseInt(str[8..10]) == Ok(d)
    requires -0x8000 <= y < 0x8000 && 1 <= m <= 12 && 1 <= d <= 31
    ensures ParseDate(str) == Ok(Date(y, m, d))
  {
    assert Num(str[0..4]) == Ok(y);
    assert Num(str[5..7]) == Ok(m);
    assert Num(str[8..10]) == Ok(d);
  }

  lemma YearField(y: I16)
    requires -999 <= y <= 9999
    ensures |FmtInt(y, 4)| == 4 && (FmtInt(y, 4)[0] == '-' || IsDigit(FmtInt(y, 4)[0]))
    ensures ParseInt(FmtInt(y, 4)) == Ok(y as int)
  {
    if y < 0 {
      DigitsLength(-y, 3);
    } else {
      DigitsLength(y, 4);
      PaddedDigitsValue(y, 4);
    }
    FmtIntParses(y, 4);
  }

  /** Printing a date of years -999..9999 and parsing it back gives the same date. */
  lemma {:induction false} ParseDateString(dd: Date)
    requires -999 <= dd.Year <= 9999 && 1 <= dd.Month <= 12 && 1 <= dd.Day <= 31
    ensures ParseDate(DateString(dd)) == Ok(dd)
  {
    var y, mo, da := DatePieces(dd);
    var s := y + "-" + mo + "-" + da;
    DateTextFields(y, mo, da);
    assert TrimSpace(s) == s by {
      assert !IsSpace(s[0]) && IsDigit(da[1]) && !IsSpace(s[9]);
      TrimSpaceOfTrimmed(s);
    }
    ParseDateOf(s, dd.Year, dd.Month, dd.Day);
  }

  /** The three fields DateString prints, and what each parses to. */
  lemma DatePieces(dd: Date) returns (y: string, mo: string, da: string)
    requires -999 <= dd.Year <= 9999 && 1 <= dd.Month <= 12 && 1 <= dd.Day <= 31
    ensures DateString(dd) == y + "-" + mo + "-" + da
    ensures |y| == 4 && (y[0] == '-' || IsDigit(y[0])) && ParseInt(y) == Ok(dd.Year as int)
    ensures |mo| == 2 && ParseInt(mo) == Ok(dd.Month)
    ensures |da| == 2 && AllDigits(da) && ParseInt(da) == Ok(dd.Day)
  {
    y, mo, da := FmtInt(dd.Year, 4), FmtInt(dd.Month, 2), FmtInt(dd.Day, 2);
    YearField(dd.Year);
    Pad2Reads(dd.Month);
    Pad2Reads(dd.Day);
  }

  /** Where the fields of a YYYY-MM-DD text sit. */
  lemma DateTextFields(y: string, mo: string, da: string)
    requires |y| == 4 && |mo| == 2 && |da| == 2
    ensures var s := y + "-" + mo + "-" + da;
      |s| == 10 && s[0..4] == y && s[5..7] == mo && s[8..10] == da && s[4] == '-' && s[7] == '-'
      && s[0] == y[0] && s[9] == da[1]
  {
  }


  /** The fields DurationString prints, for a non-negative duration. */
  lemma DurationFields(d: nat)
    requires d <= MaxInt64
    ensures var secs := d / NanosPerSecond;
      d == (secs / 60 / 60 * 3600 + secs / 60 % 60 * 60 + secs % 60) * NanosPerSecond + d % NanosPerSecond
  {
    var secs := d / NanosPerSecond;
    var mins := secs / 60;
    assert secs == mins * 60 + secs % 60;
    assert mins == mins / 60 * 60 + mins % 60;
  }

  lemma ParseClockOf(rest: string, h: int, m: nat, sec: nat, ns: nat, orig: string, x: int)
    requires (|rest| == 5 && ns == 0) || (|rest| == 15 && rest[5] == '.' && ParseInt(rest[6..15]) == Ok(ns))
    requires rest[2] == ':' && ParseInt(rest[0..2]) == Ok(m) && m < 60
    requires ParseInt(rest[3..5]) == Ok(sec) && sec < 60
    requires x == ClockNanos(h, m, sec) + ns
    ensures ParseClock(rest, h, orig) == Ok(x)
  {
  }


  lemma ParseDurationOf(hs: string, rest: string, h: nat, x: int)
    requires hs != [] && AllDigits(hs) && ParseInt(hs) == Ok(h)
    requires rest != [] && !IsSpace(rest[|rest| - 1])
    requires ParseClock(rest, h, hs + ":" + rest) == Ok(x)
    ensures ParseDuration(hs + ":" + rest) == Ok(Wrap64(x))
  {
    var str := hs + ":" + rest;
    assert IsDigit(str[0]);
    assert str[|str| - 1] == rest[|rest| - 1];
    TrimSpaceOfTrimmed(str);
    assert ':' !in hs by {
      assert forall i :: 0 <= i < |hs| ==> IsDigit(hs[i]);
    }
    IndexCharAt(hs, ':', rest);
    assert str == hs + [':'] + rest;
    assert str[..|hs|] == hs && str[|hs| + 1..] == rest;
  }

  function ClockText(m: nat, sec: nat, ns: nat): string
  {
    FmtInt(m, 2) + ":" + FmtInt(sec, 2) + (if ns == 0 then "" else "." + FmtInt(ns, 9))
  }

  /** The clock part DurationString prints reads back as minutes, seconds and nanoseconds. */
  lemma ClockReads(m: nat, sec: nat, ns: nat, h: int, str: string, x: int)
    requires m < 60 && sec < 60 && ns < NanosPerSecond
    requires x == (h * 3600 + m * 60 + sec) * NanosPerSecond + ns
    ensures ParseClock(ClockText(m, sec, ns), h, str) == Ok(x)
  {
    Pad2Reads(m);
    Pad2Reads(sec);
    if ns != 0 {
      DigitsLength(ns, 9);
      FmtIntParses(ns, 9);
    }
    ClockTextSlices(m, sec, ns);
    ParseClockOf(ClockText(m, sec, ns), h, m, sec, ns, str, x);
  }



  /** Where ClockText puts the minutes, the seconds and the nanoseconds. */
  lemma ClockTextSlices(m: nat, sec: nat, ns: nat)
    requires |FmtInt(m, 2)| == 2 && |FmtInt(sec, 2)| == 2
    requires ns != 0 ==> |FmtInt(ns, 9)| == 9
    ensures var t := ClockText(m, sec, ns);
      && (if ns == 0 then |t| == 5 else |t| == 15 && t[5] == '.' && t[6..15] == FmtInt(ns, 9))
      && t[2] == ':' && t[0..2] == FmtInt(m, 2) && t[3..5] == FmtInt(sec, 2)
  {
    var a, b := FmtInt(m, 2), FmtInt(sec, 2);
    var tail := if ns == 0 then "" else "." + FmtInt(ns, 9);
    var hm := a + ":" + b;
    assert hm[0..2] == a && hm[3..5] == b;
    var t := hm + tail;
    assert t[0..5] == hm;
    assert t[5..] == tail;
  }

  lemma ClockTextEnd(m: nat, sec: nat, ns: nat)
    requires m < 60 && sec < 60 && ns < NanosPerSecond
    ensures var t := ClockText(m, sec, ns); |t| >= 1 && IsDigit(t[|t| - 1])
  {
    var last := if ns == 0 then FmtInt(sec, 2) else FmtInt(ns, 9);
    PaddedDigitsValue(if ns == 0 then sec else ns, if ns == 0 then 2 else 9);
    var t := ClockText(m, sec, ns);
    assert t[|t| - 1] == last[|last| - 1];
  }

  lemma DurationStringIs(d: Time)
    requires d >= 0
    ensures var ns, secs := d % NanosPerSecond, d / NanosPerSecond;
      DurationString(d) == FmtInt(secs / 60 / 60, 0) + ":" + ClockText(secs / 60 % 60, secs % 60, ns)
  {
    var secs := d / NanosPerSecond;
    var mins := secs / 60;
    assert Rem(d, NanosPerSecond) == d % NanosPerSecond && Quot(d, NanosPerSecond) == secs;
    assert Rem(secs, 60) == secs % 60 && Quot(secs, 60) == mins;
    assert Rem(mins, 60) == mins % 60 && Quot(mins, 60) * 1 == mins / 60;
    DurationTextIs(mins / 60, mins % 60, secs % 60, d % NanosPerSecond);
  }

  lemma DurationTextIs(h: int, m: nat, sec: nat, ns: nat)
    ensures DurationText(h, m, sec, ns) == FmtInt(h, 0) + ":" + ClockText(m, sec, ns)
  {
    var tail := if ns == 0 then "" else "." + FmtInt(ns, 9);
    var a, b, c := FmtInt(h, 0), FmtInt(m, 2), FmtInt(sec, 2);
    assert a + ":" + b + ":" + c + tail == a + ":" + (b + ":" + c + tail);
  }

  /** For a non-negative duration, ParseDuration reads back what DurationString prints. */
  lemma {:induction false} ParseDurationString(d: Time)
    requires d >= 0
    ensures ParseDuration(DurationString(d)) == Ok(d)
  {
    var hs, rest, hour := DurationPieces(d);
    ParseDurationOf(hs, rest, hour, d);
  }

  /** The hours and the clock part of DurationString(d), and what each parses to. */
  lemma DurationPieces(d: Time) returns (hs: string, rest: string, hour: int)
    requires d >= 0
    ensures DurationString(d) == hs + ":" + rest
    ensures hs != [] && AllDigits(hs) && ParseInt(hs) == Ok(hour)
    ensures rest != [] && !IsSpace(rest[|rest| - 1])
    ensures ParseClock(rest, hour, hs + ":" + rest) == Ok(d)
  {
    var ns, secs := d % NanosPerSecond, d / NanosPerSecond;
    var min, sec := secs / 60 % 60, secs % 60;
    hour := secs / 60 / 60;
    hs, rest := FmtInt(hour, 0), ClockText(min, sec, ns);
    assert DurationString(d) == hs + ":" + rest by {
      DurationStringIs(d);
    }
    assert (hour * 3600 + min * 60 + sec) * NanosPerSecond + ns == d by {
      DurationFields(d);
    }
    assert hs != [] && AllDigits(hs) && ParseInt(hs) == Ok(hour) by {
      assert hs == Digits(hour);
      DecimalValueOfDigits(hour);
      ParseIntOfDigits(hs);
    }
    ClockTextEnd(min, sec, ns);
    ClockReads(min, sec, ns, hour, hs + ":" + rest, d);
  }
}
