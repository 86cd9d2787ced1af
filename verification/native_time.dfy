/** The binary TIME, DATETIME and DATE values of package native (native/codecs.go).
    After a length byte, a TIME carries a sign byte, a day count, hour, minute, second and
    nanoseconds; a DATETIME carries year, month, day, hour, minute, second and nanoseconds.
    Trailing parts that are zero are left out, and the length byte says how many follow. */
module NativeTime {
  import opened Wrappers
  import opened Bytes
  import opened Errors
  import opened MysqlTypes
  import opened NativeCodecs
  import Common

  const SecondsPerDay := 86400

  /** Go's copy(buf[at:], src): the other elements keep their values. */
  method CopyInto(buf: array<Byte>, at: nat, src: seq<Byte>)
    requires at + |src| <= buf.Length
    modifies buf
    ensures buf[..] == old(buf[..at]) + src + old(buf[at + |src|..])
  {
    for i := 0 to |src|
      invariant buf[..] == old(buf[..at]) + src[..i] + old(buf[at + i..])
    {
      buf[at + i] := src[i];
    }
  }

  // ---------------------------------------------------------------- TIME

  /** readNtime: 251 is NULL, 0 is 00:00:00, 5, 8 and 12 are the lengths of a day count, of
      a day count and a clock time, and of all three with nanoseconds; any other length is
      WRONG_DATE_LEN_ERROR. */
  function ReadNtime(s: seq<Byte>): (r: Result<Got<Option<Time>>, Error>)
    ensures s != [] && s[0] == NullTag ==> r == Ok(Got(None, s[1..]))
    ensures s != [] && s[0] == 0 ==> r == Ok(Got(Some(0), s[1..]))
    ensures s != [] && s[0] !in {0, 5, 8, 12, 251} ==> r == Err(WrongDateLen)
  {
    var d :- ReadByte(s);
    var dlen := d.value;
    if dlen == NullTag then Ok(Got(None, d.rest))
    else if dlen == 0 then Ok(Got(Some(0), d.rest))
    else if dlen != 5 && dlen != 8 && dlen != 12 then Err(WrongDateLen)
    else
      var b :- ReadN(d.rest, dlen);
      Ok(Got(Some(TimeOfFields(b.value)), b.rest))
  }

  /** The duration that the bytes after the length byte spell.  Go adds and negates in int64,
      which wraps; as wrapping commutes with + and -, it is applied once at the end. */
  function TimeOfFields(buf: seq<Byte>): Time
    requires |buf| == 5 || |buf| == 8 || |buf| == 12
  {
    var ns := if |buf| == 12 then DecodeU32(buf[8..]) else 0;
    var hms := if |buf| >= 8 then (buf[5] as int * 3600 + buf[6] as int * 60 + buf[7]) * NanosPerSecond else 0;
    var tt := ns + hms + DecodeU32(buf[1..5]) * (SecondsPerDay * NanosPerSecond);
    Wrap64(if buf[0] != 0 then -tt else tt)
  }

  /** readNotNullTime: NULL is the UNEXP_NULL_DATE_ERROR panic. */
  function ReadNotNullTime(s: seq<Byte>): (r: Result<Got<Time>, Error>)
    ensures s != [] && s[0] == NullTag ==> r == Err(UnexpNullDate)
    ensures r.Ok? <==> ReadNtime(s).Ok? && ReadNtime(s).value.value.Some?
  {
    var t :- ReadNtime(s);
    match t.value
    case None => Err(UnexpNullDate)
    case Some(v) => Ok(Got(v, t.rest))
  }

  /** Hour, minute and second of a count of seconds in a day, as EncodeTime cuts them (Go's
      truncating / and %, then byte(...)). */
  function Clock(hms: int): (c: seq<Byte>)
  {
    [Quot(Quot(hms, 60), 60) % 0x100, Rem(Quot(hms, 60), 60) % 0x100, Rem(hms, 60) % 0x100]
  }

  /** The bytes EncodeTime produces, as written: the length byte counts the sign byte and
      the parts present.  The magnitude is Go's `ti = -ti`, which wraps for the most negative
      value; the nanoseconds and the day count are converted with uint32(...). */
  function TimeBytes(tt: Option<Time>): (r: seq<Byte>)
  {
    match tt
    case None => [NullTag]
    case Some(t) =>
      var ti := Magnitude(t);
      var secs := Quot(ti, NanosPerSecond);
      TimeLayout(if t < 0 then 1 else 0, Rem(ti, NanosPerSecond) % 0x1_0000_0000,
                 Rem(secs, SecondsPerDay), Quot(secs, SecondsPerDay) % 0x1_0000_0000)
  }

  /** Go's `if ti < 0 { ti = -ti }` in int64: the most negative value stays as it is. */
  function Magnitude(t: Time): (m: I64)
    ensures t != MinInt64 ==> m == if t < 0 then -(t as int) else t
  {
    if t < 0 then Wrap64(-(t as int)) else t
  }

  /** The bytes of a TIME from its sign byte, nanoseconds, seconds in the day and days: a part
      is present when it or a part after it is non-zero. */
  function TimeLayout(sign: Byte, ns: U32, hms: int, day: U32): (r: seq<Byte>)
  {
    if ns != 0 then [12, sign] + LeBytes(day, 4) + Clock(hms) + LeBytes(ns, 4)
    else if hms != 0 then [8, sign] + LeBytes(day, 4) + Clock(hms)
    else if day != 0 then [5, sign] + LeBytes(day, 4)
    else [1, sign]
  }

  /** EncodeTime fills a 13-byte buffer part by part and returns its first buf[0]+1 bytes. */
  method EncodeTime(tt: Option<Time>) returns (r: seq<Byte>)
    ensures r == TimeBytes(tt)
  {
    if tt.None? {
      return [NullTag];
    }
    var buf := new Byte[13](_ => 0);
    var ti: int := tt.value;
    if ti < 0 {
      buf[1] := 1;
      ti := Wrap64(-ti);
    }
    ghost var sign := buf[1];
    assert ti == Magnitude(tt.value);
    assert buf[..] == SignStage(sign);
    var ns := Rem(ti, NanosPerSecond) % 0x1_0000_0000;
    PutNanosPart(buf, ns, sign);
    ti := Quot(ti, NanosPerSecond);
    var hms := Rem(ti, SecondsPerDay);
    PutClockPart(buf, hms, sign, ns);
    var day := Quot(ti, SecondsPerDay) % 0x1_0000_0000;
    PutDayPart(buf, day, sign, ns, hms);
    DayStageLayout(sign, ns, hms, day);
    ghost var full: seq<Byte> := buf[..];
    buf[0] := buf[0] + 1;
    assert buf[..] == full[0 := full[0] + 1];
    r := buf[..buf[0] + 1];
  }

  /** The buffer of EncodeTime after each of its steps: the sign alone, then the nanosecond,
      clock and day parts, each written when it or an earlier-written part is non-zero, with
      buf[0] counting the bytes written. */
  ghost function SignStage(sign: Byte): seq<Byte>
  {
    [0, sign] + [0, 0, 0, 0] + [0, 0, 0] + [0, 0, 0, 0]
  }

  ghost function NanosStage(sign: Byte, ns: U32): seq<Byte>
  {
    [NanosLen(ns), sign] + [0, 0, 0, 0] + [0, 0, 0] + NanosBytes(ns)
  }

  ghost function ClockStage(sign: Byte, ns: U32, hms: int): seq<Byte>
  {
    [ClockLen(ns, hms), sign] + [0, 0, 0, 0] + ClockBytes(ns, hms) + NanosBytes(ns)
  }

  ghost function DayStage(sign: Byte, ns: U32, hms: int, day: U32): seq<Byte>
  {
    [DayLen(ns, hms, day), sign] + DayBytes(ns, hms, day) + ClockBytes(ns, hms) + NanosBytes(ns)
  }

  function NanosLen(ns: U32): Byte
  {
    if ns != 0 then 4 else 0
  }

  function ClockLen(ns: U32, hms: int): Byte
  {
    if NanosLen(ns) != 0 || hms != 0 then NanosLen(ns) + 3 else 0
  }

  function DayLen(ns: U32, hms: int, day: U32): Byte
  {
    if ClockLen(ns, hms) != 0 || day != 0 then ClockLen(ns, hms) + 4 else 0
  }

  ghost function NanosBytes(ns: U32): seq<Byte>
  {
    if ns != 0 then LeBytes(ns, 4) else [0, 0, 0, 0]
  }

  ghost function ClockBytes(ns: U32, hms: int): seq<Byte>
  {
    if ns != 0 || hms != 0 then Clock(hms) else [0, 0, 0]
  }

  ghost function DayBytes(ns: U32, hms: int, day: U32): seq<Byte>
  {
    if ns != 0 || hms != 0 || day != 0 then LeBytes(day, 4) else [0, 0, 0, 0]
  }

  /** `if ns != 0 { copy(buf[9:13], EncodeU32(ns)); buf[0] += 4 }` */
  method PutNanosPart(buf: array<Byte>, ns: U32, ghost sign: Byte)
    requires buf.Length == 13 && buf[..] == SignStage(sign)
    modifies buf
    ensures buf[..] == NanosStage(sign, ns)
  {
    if ns != 0 {
      var enc := EncodeU32(ns);
      CopyInto(buf, 9, enc);
      ghost var copied := buf[..];
      buf[0] := buf[0] + 4;
      assert buf[..] == copied[0 := 4];
      NanosStep(sign, ns, copied);
    }
  }

  lemma NanosStep(sign: Byte, ns: U32, copied: seq<Byte>)
    requires ns != 0
    requires copied == SignStage(sign)[..9] + LeBytes(ns, 4) + SignStage(sign)[13..]
    ensures copied[0 := 4] == NanosStage(sign, ns)
  {
  }

  /** `if hms := ...; buf[0] != 0 || hms != 0 { ...; buf[0] += 3 }` */
  method PutClockPart(buf: array<Byte>, hms: int, ghost sign: Byte, ghost ns: U32)
    requires buf.Length == 13 && buf[..] == NanosStage(sign, ns)
    modifies buf
    ensures buf[..] == ClockStage(sign, ns, hms)
  {
    ghost var before: seq<Byte> := buf[..];
    if buf[0] != 0 || hms != 0 {
      buf[8] := Rem(hms, 60) % 0x100;
      var m := Quot(hms, 60);
      buf[7] := Rem(m, 60) % 0x100;
      buf[6] := Quot(m, 60) % 0x100;
      buf[0] := buf[0] + 3;
      assert buf[..] == before[0 := before[0] + 3][6 := buf[6]][7 := buf[7]][8 := buf[8]];
      ClockStep(sign, ns, hms, [buf[6], buf[7], buf[8]]);
    }
  }

  lemma ClockStep(sign: Byte, ns: U32, hms: int, c: seq<Byte>)
    requires ns != 0 || hms != 0
    requires c == Clock(hms)
    ensures var before := NanosStage(sign, ns);
      before[0 := before[0] + 3][6 := c[0]][7 := c[1]][8 := c[2]] == ClockStage(sign, ns, hms)
  {
  }

  /** `if day := ...; buf[0] != 0 || day != 0 { copy(buf[2:6], EncodeU32(day)); buf[0] += 4 }` */
  method PutDayPart(buf: array<Byte>, day: U32, ghost sign: Byte, ghost ns: U32, ghost hms: int)
    requires buf.Length == 13 && buf[..] == ClockStage(sign, ns, hms)
    modifies buf
    ensures buf[..] == DayStage(sign, ns, hms, day)
  {
    ghost var before: seq<Byte> := buf[..];
    if buf[0] != 0 || day != 0 {
      var enc := EncodeU32(day);
      CopyInto(buf, 2, enc);
      ghost var copied := buf[..];
      buf[0] := buf[0] + 4;
      assert buf[..] == copied[0 := before[0] + 4];
      DayStep(sign, ns, hms, day, copied);
    }
  }

  lemma DayStep(sign: Byte, ns: U32, hms: int, day: U32, copied: seq<Byte>)
    requires ClockLen(ns, hms) != 0 || day != 0
    requires var before := ClockStage(sign, ns, hms); copied == before[..2] + LeBytes(day, 4) + before[6..]
    ensures copied[0 := ClockLen(ns, hms) + 4] == DayStage(sign, ns, hms, day)
  {
    var c, n := ClockBytes(ns, hms), NanosBytes(ns);
    Parts([ClockLen(ns, hms), sign], [0, 0, 0, 0], c, n);
    NewHead(ClockLen(ns, hms), ClockLen(ns, hms) + 4, sign, LeBytes(day, 4), c, n);
  }

  /** A buffer made of four parts, and the slices Go's copy writes. */
  lemma Parts(a: seq<Byte>, d: seq<Byte>, c: seq<Byte>, n: seq<Byte>)
    ensures var full, i, j, k := a + d + c + n, |a|, |a| + |d|, |a| + |d| + |c|;
      full[..i] == a && full[i..j] == d && full[j..k] == c && full[k..] == n
      && full[..k] == a + d + c && full[j..] == c + n && full[..j] == a + d
  {
  }

  /** Setting the length byte of the buffer. */
  lemma NewHead(y: Byte, x: Byte, sign: Byte, d: seq<Byte>, c: seq<Byte>, n: seq<Byte>)
    ensures ([y, sign] + d + c + n)[0 := x] == [x, sign] + d + c + n
  {
  }

  /** The last buffer, its length byte counting the sign byte too, cut after the bytes that
      byte counts, is the layout of the parts. */
  lemma DayStageLayout(sign: Byte, ns: U32, hms: int, day: U32)
    ensures var full := DayStage(sign, ns, hms, day);
      full[0 := full[0] + 1][..full[0] + 2] == TimeLayout(sign, ns, hms, day)
  {
    var d, c, n := DayBytes(ns, hms, day), ClockBytes(ns, hms), NanosBytes(ns);
    var full := DayStage(sign, ns, hms, day);
    assert full == [full[0], sign] + d + c + n;
    if ns != 0 {
      Cut(11, sign, d, c, n);
    } else if hms != 0 {
      Cut(7, sign, d, c, n);
    } else if day != 0 {
      Cut(4, sign, d, c, n);
    } else {
      Cut(0, sign, d, c, n);
    }
  }

  /** The buffer with its length byte raised by one, cut after the bytes it counts. */
  lemma Cut(y: Byte, sign: Byte, d: seq<Byte>, c: seq<Byte>, n: seq<Byte>)
    requires y < 255 && |d| == 4 && |c| == 3 && |n| == 4
    ensures var full := [y, sign] + d + c + n; var x := y + 1;
      && (y == 11 ==> full[0 := x][..y + 2] == [x, sign] + d + c + n)
      && (y == 7 ==> full[0 := x][..y + 2] == [x, sign] + d + c)
      && (y == 4 ==> full[0 := x][..y + 2] == [x, sign] + d)
      && (y == 0 ==> full[0 := x][..y + 2] == [x, sign])
  {
    var x := y + 1;
    NewHead(y, x, sign, d, c, n);
    Parts([x, sign], d, c, n);
  }

  /** lenNtime: 1 for nil and for zero, else 13, 9 or 6 as nanoseconds, a clock time or only
      days are present. */
  function LenNtime(tt: Option<Time>): (n: nat)
  {
    match tt
    case None => 1
    case Some(t) =>
      if t == 0 then 1
      else if Rem(t, NanosPerSecond) != 0 then 13
      else if Rem(Quot(t, NanosPerSecond), SecondsPerDay) != 0 then 9
      else 6
  }

  /** lenNtime gives 1, 6, 9 or 13, and 1 exactly for nil and the zero duration. */
  lemma LenNtimeSizes(tt: Option<Time>)
    ensures var n := LenNtime(tt); n == 1 || n == 6 || n == 9 || n == 13
    ensures LenNtime(tt) == 1 <==> tt.None? || tt.value == 0
  {
  }

  /** The parts EncodeTime cuts a non-negative duration into add up to it, and the day count
      of an int64 duration fits in 32 bits. */
  lemma TimeParts(ti: int)
    requires 0 <= ti <= MaxInt64
    ensures var secs := ti / NanosPerSecond;
      ti == ti % NanosPerSecond + (secs % SecondsPerDay) * NanosPerSecond
            + (secs / SecondsPerDay) * (SecondsPerDay * NanosPerSecond)
      && secs / SecondsPerDay < 0x1_0000_0000
  {
    var secs := ti / NanosPerSecond;
    var hms, day := secs % SecondsPerDay, secs / SecondsPerDay;
    assert ti == ti % NanosPerSecond + secs * NanosPerSecond;
    assert secs == hms + day * SecondsPerDay;
    assert secs * NanosPerSecond == hms * NanosPerSecond + day * (SecondsPerDay * NanosPerSecond);
  }

  /** Hour, minute and second of a second count within a day give that count back. */
  lemma ClockValue(hms: int)
    requires 0 <= hms < SecondsPerDay
    ensures var c := Clock(hms); c[0] as int * 3600 + c[1] as int * 60 + c[2] == hms
  {
    var m := hms / 60;
    var h := m / 60;
    assert hms == m * 60 + hms % 60;
    assert m == h * 60 + m % 60;
    assert m < 1440 && h < 24;
    assert Clock(hms) == [h, m % 60, hms % 60];
    assert m * 60 == h * 3600 + (m % 60) * 60;
  }

  /** readNtime of a length byte of 5, 8 or 12 and that many bytes. */
  lemma ReadNtimeOf(r: seq<Byte>, rest: seq<Byte>)
    requires r != [] && (r[0] == 5 || r[0] == 8 || r[0] == 12) && |r| == r[0] + 1
    ensures ReadNtime(r + rest) == Ok(Got(Some(TimeOfFields(r[1..])), rest))
  {
    assert (r + rest)[1..] == r[1..] + rest;
    assert (r[1..] + rest)[..r[0]] == r[1..];
    assert (r[1..] + rest)[r[0]..] == rest;
  }

  /** The bytes after the length byte of a TIME layout spell the duration it was cut from. */
  lemma TimeOfLayout(sign: Byte, ns: U32, hms: int, day: U32, ti: int)
    requires ns < NanosPerSecond && 0 <= hms < SecondsPerDay && (ns != 0 || hms != 0 || day != 0)
    requires ti == ns + hms * NanosPerSecond + day * (SecondsPerDay * NanosPerSecond)
    ensures var r := TimeLayout(sign, ns, hms, day);
      |r| == r[0] + 1 && (r[0] == 5 || r[0] == 8 || r[0] == 12)
      && TimeOfFields(r[1..]) == Wrap64(if sign != 0 then -ti else ti)
  {
    var r := TimeLayout(sign, ns, hms, day);
    var buf := r[1..];
    var dayBytes := LeBytes(day, 4);
    assert DecodeU32(dayBytes) == day by {
      assert dayBytes[..4] == dayBytes;
      Pow256Values();
      LeValueOfLeBytes(day, 4);
    }
    if ns != 0 {
      var nsBytes := LeBytes(ns, 4);
      assert buf == [sign] + dayBytes + Clock(hms) + nsBytes;
      assert buf[1..5] == dayBytes && buf[5..8] == Clock(hms) && buf[8..] == nsBytes;
      assert DecodeU32(nsBytes) == ns by {
        assert nsBytes[..4] == nsBytes;
        Pow256Values();
        LeValueOfLeBytes(ns, 4);
      }
      ClockValue(hms);
    } else if hms != 0 {
      assert buf == [sign] + dayBytes + Clock(hms);
      assert buf[1..5] == dayBytes && buf[5..8] == Clock(hms);
      ClockValue(hms);
    } else {
      assert buf == [sign] + dayBytes;
      assert buf[1..5] == dayBytes;
    }
    FieldsValue(buf, sign, ns, hms, day, ti);
  }

  /** TimeOfFields of a buffer whose fields decode to the given parts. */
  lemma FieldsValue(buf: seq<Byte>, sign: Byte, ns: int, hms: int, day: int, ti: int)
    requires |buf| == 5 || |buf| == 8 || |buf| == 12
    requires buf[0] == sign && DecodeU32(buf[1..5]) == day
    requires if |buf| >= 8 then buf[5] as int * 3600 + buf[6] as int * 60 + buf[7] == hms else hms == 0
    requires if |buf| == 12 then DecodeU32(buf[8..]) == ns else ns == 0
    requires ti == ns + hms * NanosPerSecond + day * (SecondsPerDay * NanosPerSecond)
    ensures TimeOfFields(buf) == Wrap64(if sign != 0 then -ti else ti)
  {
  }

  /** A non-zero TIME other than the most negative one is written in as many bytes as
      lenNtime counts (6, 9 or 13) and readNtime gives it back with its sign. */
  lemma TimeRoundTrip(t: Time, rest: seq<Byte>)
    requires t != 0 && t != MinInt64
    ensures LenNtime(Some(t)) == 6 || LenNtime(Some(t)) == 9 || LenNtime(Some(t)) == 13
    ensures |TimeBytes(Some(t))| == LenNtime(Some(t))
    ensures ReadNtime(TimeBytes(Some(t)) + rest) == Ok(Got(Some(t), rest))
  {
    var ti := Magnitude(t);
    var sign: Byte := if t < 0 then 1 else 0;
    var secs := ti / NanosPerSecond;
    var ns, hms, day := ti % NanosPerSecond, secs % SecondsPerDay, secs / SecondsPerDay;
    TimeParts(ti);
    TimeBytesOfParts(t);
    var r := TimeLayout(sign, ns, hms, day);
    assert LenNtime(Some(t)) == |r| by {
      TimeSigns(t, ti);
    }
    TimeOfLayout(sign, ns, hms, day, ti);
    assert Wrap64(if sign != 0 then -ti else ti) == t;
    ReadNtimeOf(r, rest);
  }

  /** For a value other than the most negative, the parts EncodeTime cuts are those of the
      absolute value under Euclidean division. */
  lemma TimeBytesOfParts(t: Time)
    requires t != MinInt64
    ensures var ti := Magnitude(t); var secs := ti / NanosPerSecond;
      TimeBytes(Some(t)) == TimeLayout(if t < 0 then 1 else 0, ti % NanosPerSecond,
                                       secs % SecondsPerDay, secs / SecondsPerDay)
  {
    var ti := Magnitude(t);
    var secs := ti / NanosPerSecond;
    var ns, hms, day := ti % NanosPerSecond, secs % SecondsPerDay, secs / SecondsPerDay;
    TimeParts(ti);
    assert Rem(ti, NanosPerSecond) == ns && ns % 0x1_0000_0000 == ns;
    assert Quot(ti, NanosPerSecond) == secs;
    assert Rem(secs, SecondsPerDay) == hms;
    assert Quot(secs, SecondsPerDay) == day && day % 0x1_0000_0000 == day;
  }

  /** lenNtime tests Go's truncating remainders of the signed value, which vanish exactly when
      those of its magnitude do. */
  lemma TimeSigns(t: Time, ti: int)
    requires t != 0 && ti == (if t < 0 then -(t as int) else t)
    ensures (Rem(t, NanosPerSecond) != 0) == (ti % NanosPerSecond != 0)
    ensures (Rem(Quot(t, NanosPerSecond), SecondsPerDay) != 0) == ((ti / NanosPerSecond) % SecondsPerDay != 0)
  {
    if t < 0 {
      var q := ti / NanosPerSecond;
      assert Quot(t, NanosPerSecond) == -q;
      assert Rem(-q, SecondsPerDay) == -(q % SecondsPerDay) || q == 0;
    }
  }

  /** The zero TIME is the exception: EncodeTime writes a length byte of 1 and the sign byte,
      lenNtime counts one byte, and readNtime refuses the length 1. */
  lemma ZeroTime(rest: seq<Byte>)
    ensures TimeBytes(Some(0)) == [1, 0]
    ensures LenNtime(Some(0)) == 1
    ensures ReadNtime(TimeBytes(Some(0)) + rest) == Err(WrongDateLen)
  {
  }

  /** NULL is the single byte 251 both ways. */
  lemma NullTime(rest: seq<Byte>)
    ensures TimeBytes(None) == [NullTag] && LenNtime(None) == 1
    ensures ReadNtime(TimeBytes(None) + rest) == Ok(Got(None, rest))
  {
    assert ([NullTag] + rest)[1..] == rest;
  }

  // ---------------------------------------------------------------- DATETIME

  /** readNdatetime: 251 is NULL, 0 is the zero datetime, 4, 7 and 11 are the lengths of a
      date, of a date and a clock time, and of both with nanoseconds; any other length is
      WRONG_DATE_LEN_ERROR. */
  function ReadNdatetime(s: seq<Byte>): (r: Result<Got<Option<Datetime>>, Error>)
    ensures s != [] && s[0] == NullTag ==> r == Ok(Got(None, s[1..]))
    ensures s != [] && s[0] == 0 ==> r == Ok(Got(Some(Datetime(0, 0, 0, 0, 0, 0, 0)), s[1..]))
    ensures s != [] && s[0] !in {0, 4, 7, 11, 251} ==> r == Err(WrongDateLen)
  {
    var d :- ReadByte(s);
    var dlen := d.value;
    if dlen == NullTag then Ok(Got(None, d.rest))
    else if dlen == 0 then Ok(Got(Some(Datetime(0, 0, 0, 0, 0, 0, 0)), d.rest))
    else if dlen != 4 && dlen != 7 && dlen != 11 then Err(WrongDateLen)
    else
      var b :- ReadN(d.rest, dlen);
      Ok(Got(Some(DatetimeOfFields(b.value)), b.rest))
  }

  /** The datetime that the bytes after the length byte spell; the year is int16(DecodeU16). */
  function DatetimeOfFields(buf: seq<Byte>): Datetime
    requires |buf| == 4 || |buf| == 7 || |buf| == 11
  {
    Datetime(Wrap16(DecodeU16(buf[0..2])), buf[2], buf[3],
             if |buf| >= 7 then buf[4] else 0, if |buf| >= 7 then buf[5] else 0,
             if |buf| >= 7 then buf[6] else 0, if |buf| == 11 then DecodeU32(buf[7..]) else 0)
  }

  /** readNotNullDatetime: NULL is the UNEXP_NULL_DATE_ERROR panic. */
  function ReadNotNullDatetime(s: seq<Byte>): (r: Result<Got<Datetime>, Error>)
    ensures s != [] && s[0] == NullTag ==> r == Err(UnexpNullDate)
    ensures r.Ok? <==> ReadNdatetime(s).Ok? && ReadNdatetime(s).value.value.Some?
  {
    var t :- ReadNdatetime(s);
    match t.value
    case None => Err(UnexpNullDate)
    case Some(v) => Ok(Got(v, t.rest))
  }

  predicate HasClock(d: Datetime)
  {
    d.Second != 0 || d.Minute != 0 || d.Hour != 0
  }

  predicate HasDate(d: Datetime)
  {
    d.Day != 0 || d.Month != 0 || d.Year != 0
  }

  /** Year (as uint16, little-endian), month and day, as EncodeDatetime writes them. */
  function DateField(d: Datetime): (r: seq<Byte>)
    ensures |r| == 4
  {
    LeBytes(d.Year % 0x1_0000, 2) + [d.Month, d.Day]
  }

  /** The bytes EncodeDatetime produces, as written.  With nanoseconds, the nanosecond bytes
      are copied to buf[7:11] and then buf[7] is overwritten by the second, so what follows the
      second is the upper three bytes of Nanosec and a zero. */
  function DatetimeBytes(dt: Option<Datetime>): (r: seq<Byte>)
  {
    match dt
    case None => [NullTag]
    case Some(d) =>
      if d.Nanosec != 0 then [11] + DateField(d) + [d.Hour, d.Minute, d.Second] + LeBytes(d.Nanosec, 4)[1..] + [0]
      else if HasClock(d) then [7] + DateField(d) + [d.Hour, d.Minute, d.Second]
      else if HasDate(d) then [4] + DateField(d)
      else [0]
  }

  /** EncodeDatetime: a 12-byte buffer filled by a switch whose cases fall through, from the
      nanoseconds down to the date, cut after its length byte's count. */
  method EncodeDatetime(dt: Option<Datetime>) returns (r: seq<Byte>)
    ensures r == DatetimeBytes(dt)
  {
    if dt.None? {
      return [NullTag];
    }
    var d := dt.value;
    var buf := new Byte[12](_ => 0);
    assert buf[..] == [0] + [0, 0, 0, 0] + [0, 0] + [0, 0, 0, 0] + [0];
    PutDtNanos(buf, d.Nanosec);
    PutDtClock(buf, d);
    PutDtDate(buf, d);
    r := buf[..buf[0] + 1];
    DtDateStageLayout(d);
  }

  /** The buffer of EncodeDatetime after each case of the switch. */
  ghost function DtNanosStage(ns: U32): seq<Byte>
  {
    [if ns != 0 then 4 else 0] + [0, 0, 0, 0] + [0, 0] + (if ns != 0 then LeBytes(ns, 4) else [0, 0, 0, 0]) + [0]
  }

  ghost function DtClockStage(d: Datetime): seq<Byte>
  {
    [DtClockLen(d)] + [0, 0, 0, 0] + DtClockPart(d) + DtNanosTail(d.Nanosec)
  }

  ghost function DtDateStage(d: Datetime): seq<Byte>
  {
    [DtDateLen(d)] + DtDatePart(d) + DtClockPart(d) + DtNanosTail(d.Nanosec)
  }

  function DtClockLen(d: Datetime): Byte
  {
    if d.Nanosec != 0 then 7 else if HasClock(d) then 3 else 0
  }

  function DtDateLen(d: Datetime): Byte
  {
    if d.Nanosec != 0 then 11 else if HasClock(d) then 7 else if HasDate(d) then 4 else 0
  }

  ghost function DtNanosTail(ns: U32): seq<Byte>
  {
    if ns != 0 then LeBytes(ns, 4)[1..] + [0] else [0, 0, 0, 0]
  }

  ghost function DtClockPart(d: Datetime): seq<Byte>
  {
    if d.Nanosec != 0 || HasClock(d) then [d.Hour, d.Minute, d.Second] else [0, 0, 0]
  }

  ghost function DtDatePart(d: Datetime): seq<Byte>
  {
    if d.Nanosec != 0 || HasClock(d) || HasDate(d) then DateField(d) else [0, 0, 0, 0]
  }

  /** `case dt.Nanosec != 0: copy(buf[7:12], EncodeU32(dt.Nanosec)); buf[0] += 4` */
  method PutDtNanos(buf: array<Byte>, ns: U32)
    requires buf.Length == 12 && buf[..] == [0] + [0, 0, 0, 0] + [0, 0] + [0, 0, 0, 0] + [0]
    modifies buf
    ensures buf[..] == DtNanosStage(ns)
  {
    if ns != 0 {
      var enc := EncodeU32(ns);
      CopyInto(buf, 7, enc);
      ghost var copied := buf[..];
      buf[0] := buf[0] + 4;
      assert buf[..] == copied[0 := 4];
    }
  }

  /** `case ... Hour != 0: buf[7] = dt.Second; buf[6] = dt.Minute; buf[5] = dt.Hour; buf[0] += 3` */
  method PutDtClock(buf: array<Byte>, d: Datetime)
    requires buf.Length == 12 && buf[..] == DtNanosStage(d.Nanosec)
    modifies buf
    ensures buf[..] == DtClockStage(d)
  {
    ghost var before: seq<Byte> := buf[..];
    if d.Nanosec != 0 || HasClock(d) {
      buf[7] := d.Second;
      buf[6] := d.Minute;
      buf[5] := d.Hour;
      buf[0] := buf[0] + 3;
      assert buf[..] == before[0 := buf[0]][5 := d.Hour][6 := d.Minute][7 := d.Second];
      DtClockStep(d);
    }
  }

  lemma DtClockStep(d: Datetime)
    requires d.Nanosec != 0 || HasClock(d)
    ensures var before := DtNanosStage(d.Nanosec);
      before[0 := DtClockLen(d)][5 := d.Hour][6 := d.Minute][7 := d.Second] == DtClockStage(d)
  {
  }

  /** `case ... Year != 0: buf[4] = dt.Day; buf[3] = dt.Month; copy(buf[1:3], EncodeU16(uint16(dt.Year))); buf[0] += 4` */
  method PutDtDate(buf: array<Byte>, d: Datetime)
    requires buf.Length == 12 && buf[..] == DtClockStage(d)
    modifies buf
    ensures buf[..] == DtDateStage(d)
  {
    ghost var before: seq<Byte> := buf[..];
    if d.Nanosec != 0 || HasClock(d) || HasDate(d) {
      buf[4] := d.Day;
      buf[3] := d.Month;
      var enc := EncodeU16(d.Year % 0x1_0000);
      CopyInto(buf, 1, enc);
      ghost var copied := buf[..];
      buf[0] := buf[0] + 4;
      assert buf[..] == copied[0 := buf[0]];
      DtDateStep(d, copied);
    }
  }

  lemma DtDateStep(d: Datetime, copied: seq<Byte>)
    requires d.Nanosec != 0 || HasClock(d) || HasDate(d)
    requires var before := DtClockStage(d);
      copied == before[..1] + LeBytes(d.Year % 0x1_0000, 2) + before[3..][0 := d.Month][1 := d.Day]
    ensures copied[0 := DtDateLen(d)] == DtDateStage(d)
  {
  }

  /** The last buffer cut after the bytes its length byte counts is DatetimeBytes. */
  lemma DtDateStageLayout(d: Datetime)
    ensures DtDateStage(d)[..DtDateLen(d) + 1] == DatetimeBytes(Some(d))
  {
    Parts([DtDateLen(d)], DtDatePart(d), DtClockPart(d), DtNanosTail(d.Nanosec));
  }

  /** lenNdatetime: 1 for nil, then 12, 8, 5 or 1 as the first non-zero part is the
      nanoseconds, the clock time, the date or none. */
  function LenNdatetime(dt: Option<Datetime>): (n: nat)
  {
    match dt
    case None => 1
    case Some(d) =>
      if d.Nanosec != 0 then 12
      else if HasClock(d) then 8
      else if HasDate(d) then 5
      else 1
  }

  /** lenNdatetime gives 1, 5, 8 or 12, and 1 exactly for nil and the zero datetime. */
  lemma LenNdatetimeSizes(dt: Option<Datetime>)
    ensures var n := LenNdatetime(dt); n == 1 || n == 5 || n == 8 || n == 12
    ensures LenNdatetime(dt) == 1 <==> dt.None? || Common.IsDatetimeZero(dt.value)
  {
  }

  /** EncodeDatetime writes as many bytes as lenNdatetime counts, for every value. */
  lemma DatetimeLength(dt: Option<Datetime>)
    ensures |DatetimeBytes(dt)| == LenNdatetime(dt)
  {
  }

  /** readNdatetime of a length byte of 4, 7 or 11 and that many bytes. */
  lemma ReadNdatetimeOf(r: seq<Byte>, rest: seq<Byte>)
    requires r != [] && (r[0] == 4 || r[0] == 7 || r[0] == 11) && |r| == r[0] + 1
    ensures ReadNdatetime(r + rest) == Ok(Got(Some(DatetimeOfFields(r[1..])), rest))
  {
    assert (r + rest)[1..] == r[1..] + rest;
    assert (r[1..] + rest)[..r[0]] == r[1..];
    assert (r[1..] + rest)[r[0]..] == rest;
  }

  /** The year goes out as uint16 and comes back as int16. */
  lemma YearRoundTrip(d: Datetime)
    ensures Wrap16(DecodeU16(DateField(d))) == d.Year
  {
    var b := LeBytes(d.Year % 0x1_0000, 2);
    assert DateField(d)[..2] == b;
    Pow256Values();
    LeValueOfLeBytes(d.Year % 0x1_0000, 2);
  }

  /** The nanosecond bytes that follow the second: the upper three bytes of Nanosec and a
      zero, which read back as Nanosec / 256. */
  lemma NanosTail(ns: U32)
    ensures LeValue(LeBytes(ns, 4)[1..] + [0]) == ns / 256
  {
    var t := LeBytes(ns, 4)[1..];
    assert t == LeBytes(ns / 256, 3);
    LeValueSnoc(t, 0);
    Pow256Values();
    LeValueOfLeBytes(ns / 256, 3);
  }

  /** readNdatetime reads back what EncodeDatetime writes, except that the nanoseconds come
      back divided by 256 (the low byte is lost under the second). */
  lemma DatetimeRead(d: Datetime, rest: seq<Byte>)
    ensures ReadNdatetime(DatetimeBytes(Some(d)) + rest) == Ok(Got(Some(d.(Nanosec := d.Nanosec / 256)), rest))
  {
    var r := DatetimeBytes(Some(d));
    if r[0] == 0 {
      assert r + rest == [0] + rest;
    } else {
      ReadNdatetimeOf(r, rest);
      YearRoundTrip(d);
      if d.Nanosec != 0 {
        DatetimeFieldsNanos(d);
      } else {
        assert r[1..][0..2] == DateField(d)[..2];
      }
    }
  }

  lemma DatetimeFieldsNanos(d: Datetime)
    requires d.Nanosec != 0
    ensures DatetimeOfFields(DatetimeBytes(Some(d))[1..]) == d.(Nanosec := d.Nanosec / 256)
  {
    var buf := DatetimeBytes(Some(d))[1..];
    var tail := LeBytes(d.Nanosec, 4)[1..] + [0];
    assert buf == DateField(d) + [d.Hour, d.Minute, d.Second] + tail;
    assert buf[0..2] == DateField(d)[..2];
    YearRoundTrip(d);
    assert buf[7..][..4] == tail;
    NanosTail(d.Nanosec);
  }

  /** Without nanoseconds, and for NULL, readNdatetime inverts EncodeDatetime. */
  lemma DatetimeRoundTrip(dt: Option<Datetime>, rest: seq<Byte>)
    requires dt.Some? ==> dt.value.Nanosec == 0
    ensures ReadNdatetime(DatetimeBytes(dt) + rest) == Ok(Got(dt, rest))
  {
    if dt.Some? {
      DatetimeRead(dt.value, rest);
      assert dt.value.(Nanosec := 0) == dt.value;
    } else {
      assert ([NullTag] + rest)[1..] == rest;
    }
  }

  // ---------------------------------------------------------------- DATE

  /** readNdate: a datetime read, reduced to its date. */
  function ReadNdate(s: seq<Byte>): (r: Result<Got<Option<Date>>, Error>)
    ensures r.Ok? <==> ReadNdatetime(s).Ok?
    ensures r.Ok? ==> r.value.rest == ReadNdatetime(s).value.rest
                      && (r.value.value.Some? <==> ReadNdatetime(s).value.value.Some?)
  {
    var t :- ReadNdatetime(s);
    match t.value
    case None => Ok(Got(None, t.rest))
    case Some(dt) => Ok(Got(Some(Date(dt.Year, dt.Month, dt.Day)), t.rest))
  }

  /** readNotNullDate: NULL is the UNEXP_NULL_DATE_ERROR panic. */
  function ReadNotNullDate(s: seq<Byte>): (r: Result<Got<Date>, Error>)
    ensures s != [] && s[0] == NullTag ==> r == Err(UnexpNullDate)
    ensures r.Ok? <==> ReadNdatetime(s).Ok? && ReadNdatetime(s).value.value.Some?
  {
    var t :- ReadNdate(s);
    match t.value
    case None => Err(UnexpNullDate)
    case Some(v) => Ok(Got(v, t.rest))
  }

  /** EncodeDate: the datetime of the date at midnight. */
  method EncodeDate(dd: Option<Date>) returns (r: seq<Byte>)
    ensures r == DatetimeBytes(Common.DateToDatetime(dd))
  {
    r := EncodeDatetime(Common.DateToDatetime(dd));
  }

  /** lenNdate: a date is a datetime at midnight, so 1 for nil or the zero date and 5
      otherwise. */
  function LenNdate(dd: Option<Date>): (n: nat)
  {
    LenNdatetime(Common.DateToDatetime(dd))
  }

  /** lenNdate gives 1 or 5, and 1 exactly for nil and the zero date. */
  lemma LenNdateSizes(dd: Option<Date>)
    ensures LenNdate(dd) == 1 || LenNdate(dd) == 5
    ensures LenNdate(dd) == 1 <==> dd.None? || Common.IsDateZero(dd.value)
  {
  }

  /** A date, or NULL, is written in as many bytes as lenNdate counts and read back unchanged. */
  lemma DateRoundTrip(dd: Option<Date>, rest: seq<Byte>)
    ensures |DatetimeBytes(Common.DateToDatetime(dd))| == LenNdate(dd)
    ensures ReadNdate(DatetimeBytes(Common.DateToDatetime(dd)) + rest) == Ok(Got(dd, rest))
  {
    DatetimeLength(Common.DateToDatetime(dd));
    DatetimeRoundTrip(Common.DateToDatetime(dd), rest);
  }
}
