/** The parameter binding of the original package (binding.go): the text form of its
    Datetime and Timestamp records, the type codes and sizes the Go integer and float kinds
    bind as, and the type mapping bindValue applies to a value's dynamic type. */
module Binding {
  import opened Wrappers
  import opened Bytes
  import opened Errors
  import opened Consts
  import opened GoText
  import opened MysqlTypes
  import Common
  import Unsafe

  // ---------------------------------------------------------------- Datetime.String

  /** YYYY-MM-DD of a datetime's date fields. */
  function DateText(d: Datetime): string
  {
    DateString(Date(d.Year, d.Month, d.Day))
  }

  /** HH:MM:SS of a datetime's time fields. */
  function ClockString(d: Datetime): string
  {
    FmtInt(d.Hour, 2) + ":" + FmtInt(d.Minute, 2) + ":" + FmtInt(d.Second, 2)
  }

  /** YYYY-MM-DD HH:MM:SS. */
  function SecondsText(d: Datetime): string
  {
    DateText(d) + " " + ClockString(d)
  }

  /** Datetime.String on a *Datetime (None is the nil pointer): the fraction when there is
      one, else the time when it is not midnight, else the date, else the zero date. */
  function DatetimeString(dt: Option<Datetime>): (s: string)
    ensures dt.None? ==> s == "NULL"
  {
    match dt
    case None => "NULL"
    case Some(d) =>
      if d.Nanosec != 0 then SecondsText(d) + "." + FmtInt(d.Nanosec, 9)
      else if d.Second != 0 || d.Minute != 0 || d.Hour != 0 then SecondsText(d)
      else if d.Day != 0 || d.Month != 0 || d.Year != 0 then DateText(d)
      else "0000-00-00"
  }

  /** Timestamp is declared as Datetime's underlying type; its String converts the pointer
      and renders the same fields. */
  function TimestampString(ts: Option<Datetime>): (s: string)
    ensures s == DatetimeString(ts)
  {
    DatetimeString(ts)
  }

  /** The fields print as they read back: years -999..9999 and two-digit month, day, hour,
      minute and second, as MySQL keeps them. */
  predicate Printable(d: Datetime)
  {
    -999 <= d.Year <= 9999 && d.Month < 100 && d.Day < 100 && d.Hour < 100 && d.Minute < 100
    && d.Second < 100
  }

  /** The first character of a number printed with `%0wd` is a sign or a digit. */
  lemma FmtIntStart(n: int, w: nat)
    ensures FmtInt(n, w)[0] == '-' || IsDigit(FmtInt(n, w)[0])
  {
    if n >= 0 {
      PaddedDigitsValue(n, w);
    }
  }

  /** Only the nil pointer renders as NULL. */
  lemma NullOnlyForNil(dt: Option<Datetime>)
    ensures DatetimeString(dt) == "NULL" <==> dt.None?
  {
    if dt.Some? {
      var d := dt.value;
      FmtIntStart(d.Year, 4);
      var s := DatetimeString(dt);
      assert s[0] == '0' || s[0] == FmtInt(d.Year, 4)[0];
      assert "NULL"[0] == 'N';
    }
  }

  /** The date part of a datetime reads back through StrToDate. */
  lemma {:induction false} DateTextReads(d: Datetime)
    requires Printable(d)
    ensures |DateText(d)| == 10 && !IsSpace(DateText(d)[0]) && IsDigit(DateText(d)[9])
    ensures Common.StrToDate(DateText(d)) == Some(Date(d.Year, d.Month, d.Day))
  {
    var y, mo, da := FmtInt(d.Year, 4), FmtInt(d.Month, 2), FmtInt(d.Day, 2);
    YearField(d.Year);
    Pad2Reads(d.Month);
    Pad2Reads(d.Day);
    DateOfFields(y, mo, da, d.Year, d.Month, d.Day);
  }

  /** A YYYY-MM-DD text whose fields parse reads back as the date of those fields. */
  lemma DateOfFields(y: string, mo: string, da: string, year: I16, month: Byte, day: Byte)
    requires |y| == 4 && (y[0] == '-' || IsDigit(y[0])) && ParseInt(y) == Ok(year as int)
    requires |mo| == 2 && ParseInt(mo) == Ok(month as int)
    requires |da| == 2 && AllDigits(da) && ParseInt(da) == Ok(day as int)
    ensures var s := y + "-" + mo + "-" + da;
      && |s| == 10 && !IsSpace(s[0]) && IsDigit(s[9])
      && Common.StrToDate(s) == Some(Date(year, month, day))
  {
    var s := y + "-" + mo + "-" + da;
    DateTextFields(y, mo, da);
    assert TrimSpace(s) == s by {
      assert !IsSpace(s[0]) && IsDigit(da[1]) && !IsSpace(s[9]);
      TrimSpaceOfTrimmed(s);
    }
    ByteMod(month);
    ByteMod(day);
    assert Common.Atoi(s[0..4]) == Some(year as int);
    assert Common.Atoi(s[5..7]) == Some(month as int);
    assert Common.Atoi(s[8..10]) == Some(day as int);
  }

  /** A byte is its own remainder modulo 256, as StrToDate and StrToDatetime truncate. */
  lemma ByteMod(b: Byte)
    ensures (b as int) % 0x100 == b
  {
  }

  /** HH:MM:SS whose fields are two characters each: where the fields sit. */
  lemma ClockOfFields(h: string, m: string, sec: string)
    requires |h| == 2 && |m| == 2 && |sec| == 2
    ensures var t := h + ":" + m + ":" + sec;
      && |t| == 8 && t[2] == ':' && t[5] == ':' && t[0] == h[0] && t[7] == sec[1]
      && t[0..2] == h && t[3..5] == m && t[6..8] == sec
  {
  }

  /** The clock text of a datetime and what its fields parse to. */
  lemma {:induction false} ClockReads(d: Datetime)
    requires Printable(d)
    ensures var t := ClockString(d);
      && |t| == 8 && t[2] == ':' && t[5] == ':' && IsDigit(t[0]) && IsDigit(t[7])
      && Common.Atoi(t[0..2]) == Some(d.Hour as int)
      && Common.Atoi(t[3..5]) == Some(d.Minute as int)
      && Common.Atoi(t[6..8]) == Some(d.Second as int)
  {
    Pad2Reads(d.Hour);
    Pad2Reads(d.Minute);
    Pad2Reads(d.Second);
    ClockOfFields(FmtInt(d.Hour, 2), FmtInt(d.Minute, 2), FmtInt(d.Second, 2));
  }

  /** strings.TrimSpace drops one leading space before a text that starts and ends with
      something other than white space. */
  lemma TrimLeadingSpace(t: string)
    requires |t| >= 1 && !IsSpace(t[0]) && !IsSpace(t[|t| - 1])
    ensures TrimSpace(" " + t) == t
  {
    assert (" " + t)[1..] == t;
    assert TrimLeft(" " + t) == TrimLeft(t) == t;
    TrimSpaceOfTrimmed(t);
  }

  /** StrToDatetime of a trimmed 19-character text made of a date that parses and a clock
      whose fields parse. */
  lemma StrToDatetimeOf(str: string, date: string, t: string, dd: Date, hour: Byte, minute: Byte,
                        second: Byte)
    requires TrimSpace(str) == str && |str| == 19 && str[0..10] == date && str[10..] == " " + t
    requires Common.StrToDate(date) == Some(dd)
    requires |t| == 8 && t[2] == ':' && t[5] == ':' && TrimSpace(" " + t) == t
    requires Common.Atoi(t[0..2]) == Some(hour as int)
    requires Common.Atoi(t[3..5]) == Some(minute as int)
    requires Common.Atoi(t[6..8]) == Some(second as int)
    ensures Common.StrToDatetime(str) == Some(Datetime(dd.Year, dd.Month, dd.Day, hour, minute, second, 0))
  {
    var dt := Common.DateToDatetime(Common.StrToDate(str[0..10]));
    assert dt == Some(Datetime(dd.Year, dd.Month, dd.Day, 0, 0, 0, 0));
    assert TrimSpace(str[10..]) == t;
    ByteMod(hour);
    ByteMod(minute);
    ByteMod(second);
    assert dt.value.(Hour := hour, Minute := minute, Second := second)
           == Datetime(dd.Year, dd.Month, dd.Day, hour, minute, second, 0);
  }

  /** YYYY-MM-DD HH:MM:SS reads back through StrToDatetime as the datetime at whole seconds. */
  lemma {:induction false} SecondsTextReads(d: Datetime)
    requires Printable(d)
    ensures |SecondsText(d)| == 19
    ensures Common.StrToDatetime(SecondsText(d)) == Some(d.(Nanosec := 0))
  {
    DateTextReads(d);
    ClockReads(d);
    SecondsOfParts(DateText(d), ClockString(d), Date(d.Year, d.Month, d.Day), d.Hour, d.Minute, d.Second);
  }

  /** A date text and a clock text, joined by a space, read back as one datetime. */
  lemma {:induction false} SecondsOfParts(date: string, t: string, dd: Date, hour: Byte, minute: Byte,
                                          second: Byte)
    requires |date| == 10 && !IsSpace(date[0]) && Common.StrToDate(date) == Some(dd)
    requires |t| == 8 && t[2] == ':' && t[5] == ':' && IsDigit(t[0]) && IsDigit(t[7])
    requires Common.Atoi(t[0..2]) == Some(hour as int)
    requires Common.Atoi(t[3..5]) == Some(minute as int)
    requires Common.Atoi(t[6..8]) == Some(second as int)
    ensures |date + " " + t| == 19
    ensures Common.StrToDatetime(date + " " + t) == Some(Datetime(dd.Year, dd.Month, dd.Day, hour, minute, second, 0))
  {
    TrimLeadingSpace(t);
    Joined(date, t);
    StrToDatetimeOf(date + " " + t, date, t, dd, hour, minute, second);
  }

  /** Where the date and the clock sit in the joined text, which has no white space to trim. */
  lemma Joined(date: string, t: string)
    requires |date| == 10 && !IsSpace(date[0]) && |t| == 8 && IsDigit(t[7])
    ensures var str := date + " " + t;
      && |str| == 19 && str[0..10] == date && str[10..] == " " + t && TrimSpace(str) == str
  {
    var str := date + " " + t;
    assert str[0..10] == date && str[10..] == " " + t;
    assert str[0] == date[0] && str[18] == t[7];
    TrimSpaceOfTrimmed(str);
  }

  /** The text of a datetime without a fraction reads back as that datetime: the seconds
      form, the date form of midnight and the zero date all parse to what was printed. */
  lemma {:induction false} DatetimeStringReads(d: Datetime)
    requires Printable(d) && d.Nanosec == 0
    ensures Common.StrToDatetime(DatetimeString(Some(d))) == Some(d)
  {
    if d.Second != 0 || d.Minute != 0 || d.Hour != 0 {
      SecondsTextReads(d);
      assert d.(Nanosec := 0) == d;
    } else {
      DateFormReads(d);
      if d.Day == 0 && d.Month == 0 && d.Year == 0 {
        ZeroDateText(d);
      }
    }
  }

  /** At midnight, the date text alone reads back as the datetime. */
  lemma {:induction false} DateFormReads(d: Datetime)
    requires Printable(d) && d.Nanosec == 0 && d.Hour == 0 && d.Minute == 0 && d.Second == 0
    ensures Common.StrToDatetime(DateText(d)) == Some(d)
  {
    DateTextReads(d);
    TrimSpaceOfTrimmed(DateText(d));
    Common.StrToDatetimeOfDate(DateText(d));
  }

  /** The zero datetime's date text is the literal the zero case prints. */
  lemma ZeroDateText(d: Datetime)
    requires d.Year == 0 && d.Month == 0 && d.Day == 0
    ensures DateText(d) == "0000-00-00"
  {
    assert Digits(0) == "0";
    assert Zeros(3) == "000" && Zeros(1) == "0";
    assert FmtInt(0, 4) == "0000" && FmtInt(0, 2) == "00";
  }

  /** A datetime with a fraction prints its seconds form, a point and nine digits of
      nanoseconds; the seconds form reads back and the digits spell the fraction. */
  lemma {:induction false} FractionText(d: Datetime)
    requires Printable(d) && 0 < d.Nanosec < NanosPerSecond
    ensures var s := DatetimeString(Some(d));
      && |s| == 29 && s[19] == '.'
      && Common.StrToDatetime(s[..19]) == Some(d.(Nanosec := 0))
      && ParseInt(s[20..]) == Ok(d.Nanosec as int)
  {
    var sec, f := SecondsText(d), FmtInt(d.Nanosec, 9);
    assert DatetimeString(Some(d)) == sec + "." + f;
    SecondsTextReads(d);
    NanosText(d.Nanosec);
    FractionJoined(sec, f);
  }

  /** Nine digits of nanoseconds spell the fraction. */
  lemma NanosText(n: nat)
    requires n < NanosPerSecond
    ensures |FmtInt(n, 9)| == 9 && ParseInt(FmtInt(n, 9)) == Ok(n)
  {
    DigitsLength(n, 9);
    FmtIntParses(n, 9);
  }

  /** Where the seconds text and the fraction sit around the point. */
  lemma FractionJoined(sec: string, f: string)
    requires |sec| == 19 && |f| == 9
    ensures var s := sec + "." + f;
      |s| == 29 && s[19] == '.' && s[..19] == sec && s[20..] == f
  {
    var s := sec + "." + f;
    assert s[..19] == sec && s[20..] == f;
  }

  // ---------------------------------------------------------------- kinds and type codes

  /** The reflect kinds of Go's numeric types. */
  datatype Kind = Int | Int8 | Int16 | Int32 | Int64
                | Uint | Uint8 | Uint16 | Uint32 | Uint64 | Uintptr
                | Float | Float32 | Float64

  /** The type code and size of Go's `int` and `float`, which depend on the platform. */
  datatype Platform = Platform(intType: U16, intSize: int, floatType: U16, floatSize: int)

  /** mysqlIntType: the type code and byte size of an integer kind; a signed kind and its
      unsigned partner bind alike, and any other kind panics. */
  function MysqlIntType(kind: Kind, plat: Platform): (r: Result<(U16, int), Error>)
    ensures r.Err? <==> kind.Uintptr? || kind.Float? || kind.Float32? || kind.Float64?
    ensures r.Err? ==> r.error == UnknownKind
  {
    match kind
    case Int | Uint => Ok((plat.intType, plat.intSize))
    case Int8 | Uint8 => Ok((TypeTiny, 1))
    case Int16 | Uint16 => Ok((TypeShort, 2))
    case Int32 | Uint32 => Ok((TypeLong, 4))
    case Int64 | Uint64 => Ok((TypeLonglong, 8))
    case _ => Err(UnknownKind)
  }

  /** mysqlFloatType: the type code and byte size of a float kind; any other kind panics. */
  function MysqlFloatType(kind: Kind, plat: Platform): (r: Result<(U16, int), Error>)
    ensures r.Ok? <==> kind.Float? || kind.Float32? || kind.Float64?
    ensures r.Err? ==> r.error == UnknownKind
  {
    match kind
    case Float => Ok((plat.floatType, plat.floatSize))
    case Float32 => Ok((TypeFloat, 4))
    case Float64 => Ok((TypeDouble, 8))
    case _ => Err(UnknownKind)
  }

  /** The unsigned kind of the same width. */
  function UnsignedOf(kind: Kind): Kind
  {
    match kind
    case Int => Uint
    case Int8 => Uint8
    case Int16 => Uint16
    case Int32 => Uint32
    case Int64 => Uint64
    case _ => kind
  }

  /** The width in bits of the sized kinds. */
  function Bits(kind: Kind): Option<nat>
  {
    match kind
    case Int8 | Uint8 => Some(8)
    case Int16 | Uint16 => Some(16)
    case Int32 | Uint32 | Float32 => Some(32)
    case Int64 | Uint64 | Float64 => Some(64)
    case _ => None
  }

  /** A signed kind and its unsigned partner get the same type code and size. */
  lemma SignlessIntType(kind: Kind, plat: Platform)
    ensures MysqlIntType(kind, plat) == MysqlIntType(UnsignedOf(kind), plat)
  {
  }

  /** A sized kind binds as many bytes as it has bits / 8, under the type code of that
      width; the platform decides only for `int` and `float`. */
  lemma SizedKinds(kind: Kind, plat: Platform)
    requires Bits(kind).Some?
    ensures var r := if kind.Float32? || kind.Float64? then MysqlFloatType(kind, plat)
                     else MysqlIntType(kind, plat);
      && r.Ok? && r.value.1 * 8 == Bits(kind).value
      && r.value.0 == (match Bits(kind).value
                       case 8 => TypeTiny
                       case 16 => TypeShort
                       case 32 => if kind.Float32? then TypeFloat else TypeLong
                       case _ => if kind.Float64? then TypeDouble else TypeLonglong)
  {
  }

  // ---------------------------------------------------------------- bindValue

  /** The dynamic type of a bound value, as bindValue's type switch sees it.  Blob, Datetime,
      Timestamp and Raw are the package's own types; Raw carries the type code its Typ field
      holds. */
  datatype GoType =
    | StringT
    | IntT(kind: Kind)
    | UintT(ukind: Kind)
    | FloatT(fkind: Kind)
    | SliceT(elem: GoType)
    | BlobT
    | DatetimeT
    | TimestampT
    | RawT(typ: U16)
    | PtrT(target: GoType)
    | OtherT

  /** The fields bindValue fills in besides the address. */
  datatype Param = Param(typ: U16, isPtr: bool, raw: bool, length: int)

  /** A type code with the unsigned bit set: `typ | MYSQL_UNSIGNED_MASK`. */
  function WithUnsigned(typ: U16): (t: U16)
    ensures t >= UnsignedMask && t % UnsignedMask == typ % UnsignedMask
  {
    if typ >= UnsignedMask then typ else typ + UnsignedMask
  }

  /** bindValue on a value of dynamic type `t` (None is the nil interface): one pointer is
      dereferenced, then the type switch picks the code; a pointer to Raw fails the type
      assertion on the struct value, and any other type panics with BIND_UNK_TYPE. */
  function BindValue(t: Option<GoType>, plat: Platform): (r: Result<Param, Error>)
    ensures t.None? ==> r == Ok(Param(TypeNull, false, false, 0))
    ensures r.Err? ==> r.error == BindUnkType || r.error == WrongArgType || r.error == UnknownKind
    ensures r.Ok? && t.Some? && !t.value.RawT? ==> r.value.isPtr == t.value.PtrT? && !r.value.raw
  {
    match t
    case None => Ok(Param(TypeNull, false, false, 0))
    case Some(t0) =>
      var isPtr := t0.PtrT?;
      var tt := if isPtr then t0.target else t0;
      match tt
      case StringT => Ok(Param(TypeString, isPtr, false, -1))
      case IntT(k) =>
        var (typ, n) :- MysqlIntType(k, plat);
        Ok(Param(typ, isPtr, false, n))
      case UintT(k) =>
        var (typ, n) :- MysqlIntType(k, plat);
        Ok(Param(WithUnsigned(typ), isPtr, false, n))
      case FloatT(k) =>
        var (typ, n) :- MysqlFloatType(k, plat);
        Ok(Param(typ, isPtr, false, n))
      case BlobT => Ok(Param(TypeBlob, isPtr, false, -1))
      case SliceT(e) =>
        if e == UintT(Uint8) then Ok(Param(TypeVarString, isPtr, false, -1))
        else Err(BindUnkType)
      case DatetimeT => Ok(Param(TypeDatetime, isPtr, false, -1))
      case TimestampT => Ok(Param(TypeTimestamp, isPtr, false, -1))
      case RawT(typ) => if isPtr then Err(WrongArgType) else Ok(Param(typ, true, true, -1))
      case _ => Err(BindUnkType)
  }

  /** The types whose length is only known from the value: strings, byte slices, Blob,
      Datetime, Timestamp and Raw. */
  predicate VariableLength(tt: GoType)
  {
    tt.StringT? || tt.BlobT? || tt == SliceT(UintT(Uint8)) || tt.DatetimeT? || tt.TimestampT?
    || tt.RawT?
  }

  /** A nil value binds as NULL; the variable-length types get length -1 and the numbers the
      fixed size of their kind; a type outside the switch panics with BIND_UNK_TYPE. */
  lemma BindOutcomes(t: GoType, plat: Platform)
    ensures BindValue(None, plat) == Ok(Param(TypeNull, false, false, 0))
    ensures var tt := if t.PtrT? then t.target else t;
      var r := BindValue(Some(t), plat);
      && (r.Ok? ==> r.value.isPtr == (t.PtrT? || tt.RawT?) && r.value.raw == tt.RawT?)
      && (VariableLength(tt) && !(t.PtrT? && tt.RawT?) ==> r.Ok? && r.value.length == -1)
      && (tt.IntT? && MysqlIntType(tt.kind, plat).Ok? ==> r.Ok? && r.value.length == MysqlIntType(tt.kind, plat).value.1)
      && (tt.UintT? && MysqlIntType(tt.ukind, plat).Ok? ==>
            r.Ok? && r.value.length == MysqlIntType(tt.ukind, plat).value.1 && r.value.typ >= UnsignedMask)
      && (!VariableLength(tt) && !tt.IntT? && !tt.UintT? && !tt.FloatT? ==> r == Err(BindUnkType))
  {
  }

  /** An unsigned integer binds as its signed partner with the unsigned bit set. */
  lemma UnsignedBinding(k: Kind, plat: Platform, ptr: bool)
    requires BindValue(Some(IntT(k)), plat).Ok?
    ensures var s := BindValue(Some(if ptr then PtrT(IntT(k)) else IntT(k)), plat).value;
      var u := BindValue(Some(if ptr then PtrT(UintT(UnsignedOf(k))) else UintT(UnsignedOf(k))), plat);
      && u.Ok? && u.value.typ == WithUnsigned(s.typ) && u.value.length == s.length && u.value.isPtr == ptr
  {
    SignlessIntType(k, plat);
  }

  /** Every type code bindValue gives a value other than nil is one writeValue knows how to
      write, when the platform's `int` and `float` are among the codes of the sized kinds. */
  lemma BoundTypesAreWritable(t: GoType, plat: Platform)
    requires plat.intType == TypeLong || plat.intType == TypeLonglong
    requires plat.floatType == TypeFloat || plat.floatType == TypeDouble
    requires BindValue(Some(t), plat).Ok?
    ensures var p := BindValue(Some(t), plat).value;
      Unsafe.WriteKind(p.typ, p.raw).Some?
  {
  }
}
