/** A result row of package mysql (mysql/row.go): one dynamically typed value per column,
    and the accessors that convert a column to a Go type.  Go's int and uint are 32 bits
    wide here: that is the only width at which the file builds, since it converts the
    largest int to uint32 and the largest uint to int64 as constants.  A []byte column is
    parsed by strconv: as decimal, except in UintErr, which lets the text choose its base.
    An index outside the row is a Go runtime panic, which the accessors leave to their
    callers. */
module MysqlRow {
  import opened Wrappers
  import opened Bytes
  import opened GoText
  import opened MysqlTypes

  type Int8 = x: int | -0x80 <= x < 0x80
  type Int32 = x: int | -0x8000_0000 <= x < 0x8000_0000

  /** The dynamic types a column of a text or binary row can hold. */
  datatype Cell =
    | CNil                       // NULL
    | CInt8(i8: Int8)
    | CInt16(i16: I16)
    | CInt32(i32: Int32)
    | CInt64(i64: I64)
    | CUint8(u8: Byte)
    | CUint16(u16: U16)
    | CUint32(u32: U32)
    | CUint64(u64: U64)
    | CBytes(bytes: seq<Byte>)   // []byte
    | CDate(date: Date)          // *Date
    | CDatetime(dt: Datetime)    // *Datetime
    | CTime(time: Time)          // Time
    | CFloat32(f32: U32)         // float32, by its bit pattern
    | CFloat64(f64: U64)         // float64, by its bit pattern
    | COther                     // any other dynamic type

  type Row = seq<Cell>

  const MaxInt: int := 0x7fff_ffff
  const MinInt: int := -0x8000_0000
  const MaxUint: int := 0xffff_ffff

  /** The Err field of the strconv.NumError an accessor returns. */
  datatype ConvError = Range | Invalid | Syntax

  /** What an *Err accessor returns: a value, and an error or none. */
  datatype Conv<T> = Conv(val: T, err: Option<ConvError>)

  predicate IsSigned(c: Cell)
  {
    c.CInt8? || c.CInt16? || c.CInt32? || c.CInt64?
  }

  predicate IsUnsigned(c: Cell)
  {
    c.CUint8? || c.CUint16? || c.CUint32? || c.CUint64?
  }

  /** reflect.Value.Int of a signed integer. */
  function SignedValue(c: Cell): (v: I64)
    requires IsSigned(c)
  {
    match c
    case CInt8(x) => x
    case CInt16(x) => x
    case CInt32(x) => x
    case CInt64(x) => x
  }

  /** reflect.Value.Uint of an unsigned integer. */
  function UnsignedValue(c: Cell): (v: U64)
    requires IsUnsigned(c)
  {
    match c
    case CUint8(x) => x
    case CUint16(x) => x
    case CUint32(x) => x
    case CUint64(x) => x
  }

  /** string(data): one character per byte. */
  function Text(b: seq<Byte>): (s: string)
    ensures |s| == |b| && forall i :: 0 <= i < |b| ==> s[i] as int == b[i]
  {
    seq(|b|, i requires 0 <= i < |b| => b[i] as char)
  }

  /** strconv.ParseInt(s, 10, b) for the b-bit range [-max - 1, max]; with b = 32 this is
      strconv.Atoi.  The digits are read as a uint64 first, so a malformed text is 0 with
      ErrSyntax, and any other number outside the range is the bound on its side with
      ERANGE. */
  function ParseSigned(s: string, max: int): (r: Conv<int>)
    requires 0 <= max <= MaxInt64
    ensures r.err.None? <==> ParseInt(s).Ok? && -max - 1 <= ParseInt(s).value <= max
    ensures r.err.None? ==> r.val == ParseInt(s).value
    ensures r.err == Some(Syntax) <==> ParseInt(s) == Err(ErrSyntax)
    ensures r.err == Some(Syntax) ==> r.val == 0
    ensures -max - 1 <= r.val <= max
  {
    match ParseInt(s)
    case Ok(v) =>
      if -max - 1 <= v <= max then Conv(v, None)
      else Conv(if v < 0 then -max - 1 else max, Some(Range))
    case Err(ErrRange) => Conv(if s[0] == '-' then -max - 1 else max, Some(Range))
    case Err(ErrSyntax) => Conv(0, Some(Syntax))
  }

  /** strconv.ParseUint(s, 10, 64): an out-of-range number gives the largest uint64 with
      ERANGE, a malformed one 0 with ErrSyntax. */
  function ParseUnsigned(s: string): (r: Conv<U64>)
    ensures r.err.None? <==> ParseUint(s).Ok?
    ensures r.err.None? ==> r.val == ParseUint(s).value
    ensures r.err == Some(Range) <==> ParseUint(s) == Err(ErrRange)
    ensures r.err == Some(Range) ==> r.val == MaxUint64
  {
    match ParseUint(s)
    case Ok(v) => Conv(v, None)
    case Err(ErrRange) => Conv(MaxUint64, Some(Range))
    case Err(ErrSyntax) => Conv(0, Some(Syntax))
  }

  /** uint(v) of strconv.ParseUint(s, 0, 0): base 0 lets a "0x" prefix choose hexadecimal
      and a leading "0" octal, and bit size 0 is the width of uint.  ERANGE comes with the
      largest uint64, which uint() cuts to the largest uint. */
  function ParseUnsignedAuto(s: string): (r: Conv<U32>)
    ensures r.err.None? <==> ParseUintAuto(s, MaxUint).Ok?
    ensures r.err.None? ==> r.val == ParseUintAuto(s, MaxUint).value
    ensures r.err == Some(Range) <==> ParseUintAuto(s, MaxUint) == Err(ErrRange)
    ensures r.err == Some(Range) ==> r.val == MaxUint
  {
    match ParseUintAuto(s, MaxUint)
    case Ok(v) => Conv(v, None)
    case Err(ErrRange) => Conv(MaxUint, Some(Range))
    case Err(ErrSyntax) => Conv(0, Some(Syntax))
  }

  // ---------------------------------------------------------------- Bin, Str

  /** Row.Bin: no bytes for NULL, the bytes themselves for a []byte column; any other value
      is printed by fmt, a function given here. */
  function Bin(row: Row, nn: int, fmtPrint: Cell -> seq<Byte>): (bin: seq<Byte>)
    requires 0 <= nn < |row|
    ensures row[nn].CNil? ==> bin == []
    ensures row[nn].CBytes? ==> bin == row[nn].bytes
  {
    match row[nn]
    case CNil => []
    case CBytes(data) => data
    case _ => fmtPrint(row[nn])
  }

  /** Row.Str: "" for NULL, the text of a []byte column, fmt.Sprint of anything else. */
  function Str(row: Row, nn: int, fmtPrint: Cell -> seq<Byte>): (str: string)
    requires 0 <= nn < |row|
    ensures str == Text(Bin(row, nn, fmtPrint))
  {
    match row[nn]
    case CNil => ""
    case CBytes(data) => Text(data)
    case _ => Text(fmtPrint(row[nn]))
  }

  // ---------------------------------------------------------------- int, uint

  /** Row.IntErr. */
  function IntErr(row: Row, nn: int): (r: Conv<int>)
    requires 0 <= nn < |row|
    ensures MinInt <= r.val <= MaxInt
  {
    match row[nn]
    case CNil => Conv(0, None)
    case CInt32(x) => Conv(x, None)
    case CInt16(x) => Conv(x, None)
    case CUint16(x) => Conv(x, None)
    case CInt8(x) => Conv(x, None)
    case CUint8(x) => Conv(x, None)
    case CBytes(data) => ParseSigned(Text(data), MaxInt)
    case CInt64(x) => if MinInt <= x <= MaxInt then Conv(x, None) else Conv(0, Some(Range))
    case CUint32(x) => if x <= MaxInt then Conv(x, None) else Conv(0, Some(Range))
    case CUint64(x) => if x <= MaxInt then Conv(x, None) else Conv(0, Some(Range))
    case _ => Conv(0, Some(Invalid))
  }

  /** Row.UintErr.  A uint64 and the signed kinds are checked against the largest uint
      (and 0); a []byte column is parsed in the base its text names. */
  function UintErr(row: Row, nn: int): (r: Conv<U32>)
    requires 0 <= nn < |row|
    ensures r.err == Some(Syntax) ==> row[nn].CBytes? && r.val == 0
    ensures r.err == Some(Invalid) <==>
      !(row[nn].CNil? || row[nn].CBytes? || IsSigned(row[nn]) || IsUnsigned(row[nn]))
  {
    var c := row[nn];
    if c.CNil? then Conv(0, None)
    else if IsUnsigned(c) then
      var u := UnsignedValue(c);
      if u <= MaxUint then Conv(u, None) else Conv(0, Some(Range))
    else if c.CBytes? then ParseUnsignedAuto(Text(c.bytes))
    else if IsSigned(c) then
      var v := SignedValue(c);
      if v >= 0 && v <= MaxUint then Conv(v, None) else Conv(0, Some(Range))
    else Conv(0, Some(Invalid))
  }

  // ---------------------------------------------------------------- bool, int64, uint64

  /** Row.BoolErr: an integer of any kind is true iff it is not 0; nothing else converts,
      not even a []byte. */
  function BoolErr(row: Row, nn: int): (r: Conv<bool>)
    requires 0 <= nn < |row|
  {
    var c := row[nn];
    if c.CNil? then Conv(false, None)
    else if IsSigned(c) then Conv(SignedValue(c) != 0, None)
    else if IsUnsigned(c) then Conv(UnsignedValue(c) != 0, None)
    else Conv(false, Some(Invalid))
  }

  /** Row.Int64Err: an unsigned value above MaxInt64 is ERANGE, and yet the value is the
      wrapped int64. */
  function Int64Err(row: Row, nn: int): (r: Conv<I64>)
    requires 0 <= nn < |row|
    ensures r.err == Some(Syntax) ==> row[nn].CBytes? && r.val == 0
    ensures r.err == Some(Range) ==> row[nn].CBytes? || (IsUnsigned(row[nn]) && UnsignedValue(row[nn]) > MaxInt64)
    ensures r.err == Some(Invalid) <==>
      !(row[nn].CNil? || row[nn].CBytes? || IsSigned(row[nn]) || IsUnsigned(row[nn]))
  {
    var c := row[nn];
    if c.CNil? then Conv(0, None)
    else if IsSigned(c) then Conv(SignedValue(c), None)
    else if IsUnsigned(c) then
      var u := UnsignedValue(c);
      Conv(ToI64(u), if u > MaxInt64 then Some(Range) else None)
    else if c.CBytes? then ParseSigned(Text(c.bytes), MaxInt64)
    else Conv(0, Some(Invalid))
  }

  /** Row.Uint64Err: a negative value is ERANGE, and yet the value is the wrapped uint64. */
  function Uint64Err(row: Row, nn: int): (r: Conv<U64>)
    requires 0 <= nn < |row|
    ensures r.err == Some(Syntax) ==> row[nn].CBytes? && r.val == 0
    ensures r.err == Some(Range) ==> row[nn].CBytes? || (IsSigned(row[nn]) && SignedValue(row[nn]) < 0)
    ensures r.err == Some(Invalid) <==>
      !(row[nn].CNil? || row[nn].CBytes? || IsSigned(row[nn]) || IsUnsigned(row[nn]))
  {
    var c := row[nn];
    if c.CNil? then Conv(0, None)
    else if IsUnsigned(c) then Conv(UnsignedValue(c), None)
    else if IsSigned(c) then
      var i := SignedValue(c);
      Conv(ToU64(i), if i < 0 then Some(Range) else None)
    else if c.CBytes? then ParseUnsigned(Text(c.bytes))
    else Conv(0, Some(Invalid))
  }

  // ---------------------------------------------------------------- plain and Must forms

  /** The plain accessors (Int, Uint, Bool, Int64, Uint64) keep the value and drop the
      error. */
  function Plain<T>(c: Conv<T>): (v: T)
    ensures v == c.val
  {
    c.val
  }

  /** The Must accessors panic with the error, if there is one; the plain accessors' value
      is what they return otherwise. */
  function Must<T>(c: Conv<T>): (r: Result<T, ConvError>)
    ensures r.Err? <==> c.err.Some?
    ensures r.Err? ==> r.error == c.err.value
    ensures r.Ok? ==> r.value == c.val
  {
    if c.err.Some? then Err(c.err.value) else Ok(c.val)
  }

  function Int(row: Row, nn: int): (v: int)
    requires 0 <= nn < |row|
    ensures v == IntErr(row, nn).val
    ensures MinInt <= v <= MaxInt
    ensures row[nn].CNil? ==> v == 0
  {
    Plain(IntErr(row, nn))
  }

  function MustInt(row: Row, nn: int): (r: Result<int, ConvError>)
    requires 0 <= nn < |row|
    ensures r.Ok? <==> IntErr(row, nn).err.None?
    ensures r.Ok? ==> r.value == Int(row, nn)
    ensures r.Err? ==> r.error == IntErr(row, nn).err.value
  {
    Must(IntErr(row, nn))
  }

  function Uint(row: Row, nn: int): (v: U32)
    requires 0 <= nn < |row|
    ensures v == UintErr(row, nn).val
    ensures row[nn].CNil? ==> v == 0
  {
    Plain(UintErr(row, nn))
  }

  function MustUint(row: Row, nn: int): (r: Result<U32, ConvError>)
    requires 0 <= nn < |row|
    ensures r.Ok? <==> UintErr(row, nn).err.None?
    ensures r.Ok? ==> r.value == Uint(row, nn)
    ensures r.Err? ==> r.error == UintErr(row, nn).err.value
  {
    Must(UintErr(row, nn))
  }

  function Bool(row: Row, nn: int): (v: bool)
    requires 0 <= nn < |row|
    ensures v == BoolErr(row, nn).val
    ensures row[nn].CNil? ==> v == false
  {
    Plain(BoolErr(row, nn))
  }

  function MustBool(row: Row, nn: int): (r: Result<bool, ConvError>)
    requires 0 <= nn < |row|
    ensures r.Ok? <==> BoolErr(row, nn).err.None?
    ensures r.Ok? ==> r.value == Bool(row, nn)
    ensures r.Err? ==> r.error == BoolErr(row, nn).err.value
  {
    Must(BoolErr(row, nn))
  }

  function Int64(row: Row, nn: int): (v: I64)
    requires 0 <= nn < |row|
    ensures v == Int64Err(row, nn).val
    ensures row[nn].CNil? ==> v == 0
  {
    Plain(Int64Err(row, nn))
  }

  function MustInt64(row: Row, nn: int): (r: Result<I64, ConvError>)
    requires 0 <= nn < |row|
    ensures r.Ok? <==> Int64Err(row, nn).err.None?
    ensures r.Ok? ==> r.value == Int64(row, nn)
    ensures r.Err? ==> r.error == Int64Err(row, nn).err.value
  {
    Must(Int64Err(row, nn))
  }

  function Uint64(row: Row, nn: int): (v: U64)
    requires 0 <= nn < |row|
    ensures v == Uint64Err(row, nn).val
    ensures row[nn].CNil? ==> v == 0
  {
    Plain(Uint64Err(row, nn))
  }

  function MustUint64(row: Row, nn: int): (r: Result<U64, ConvError>)
    requires 0 <= nn < |row|
    ensures r.Ok? <==> Uint64Err(row, nn).err.None?
    ensures r.Ok? ==> r.value == Uint64(row, nn)
    ensures r.Err? ==> r.error == Uint64Err(row, nn).err.value
  {
    Must(Uint64Err(row, nn))
  }

  // ---------------------------------------------------------------- properties

  /** NULL reads as 0 or false, without an error, in every *Err accessor. */
  lemma NullIsZero(row: Row, nn: int)
    requires 0 <= nn < |row| && row[nn].CNil?
    ensures IntErr(row, nn) == Conv(0, None) && UintErr(row, nn) == Conv(0, None)
    ensures BoolErr(row, nn) == Conv(false, None)
    ensures Int64Err(row, nn) == Conv(0, None) && Uint64Err(row, nn) == Conv(0, None)
  {
  }

  /** IntErr is exact on an integer within [MinInt, MaxInt]; outside it the value is 0
      with ERANGE, and only an int64, a uint32 or a uint64 can be outside. */
  lemma IntErrRange(row: Row, nn: int)
    requires 0 <= nn < |row|
    ensures (IsSigned(row[nn]) || IsUnsigned(row[nn])) ==>
      var v := if IsSigned(row[nn]) then SignedValue(row[nn]) as int else UnsignedValue(row[nn]) as int;
      (MinInt <= v <= MaxInt ==> IntErr(row, nn) == Conv(v, None))
      && (!(MinInt <= v <= MaxInt) ==>
            (row[nn].CInt64? || row[nn].CUint32? || row[nn].CUint64?) && IntErr(row, nn) == Conv(0, Some(Range)))
  {
  }

  /** UintErr is exact on an integer within [0, MaxUint]; outside it the value is 0 with
      ERANGE, and only a negative value, a uint64 or an int64 can be outside. */
  lemma UintErrRange(row: Row, nn: int)
    requires 0 <= nn < |row|
    ensures (IsSigned(row[nn]) || IsUnsigned(row[nn])) ==>
      var v := if IsSigned(row[nn]) then SignedValue(row[nn]) as int else UnsignedValue(row[nn]) as int;
      (0 <= v <= MaxUint ==> UintErr(row, nn) == Conv(v, None))
      && (!(0 <= v <= MaxUint) ==> UintErr(row, nn) == Conv(0, Some(Range)))
      && (v > MaxUint ==> row[nn].CInt64? || row[nn].CUint64?)
  {
  }

  /** BoolErr converts exactly the integers, each to "is not 0", and nothing else but
      NULL. */
  lemma BoolErrKinds(row: Row, nn: int)
    requires 0 <= nn < |row|
    ensures BoolErr(row, nn).err.None? <==> row[nn].CNil? || IsSigned(row[nn]) || IsUnsigned(row[nn])
    ensures IsSigned(row[nn]) ==> BoolErr(row, nn).val == (SignedValue(row[nn]) != 0)
    ensures IsUnsigned(row[nn]) ==> BoolErr(row, nn).val == (UnsignedValue(row[nn]) != 0)
    ensures row[nn].CBytes? ==> BoolErr(row, nn).err == Some(Invalid)
  {
  }

  /** Int64Err and Uint64Err report a value the other signedness cannot hold as ERANGE, yet
      return its two's complement reinterpretation. */
  lemma WrappedOnRange(row: Row, nn: int)
    requires 0 <= nn < |row|
    ensures IsUnsigned(row[nn]) && UnsignedValue(row[nn]) > MaxInt64 ==>
      Int64Err(row, nn) == Conv(UnsignedValue(row[nn]) - 0x1_0000_0000_0000_0000, Some(Range))
    ensures IsSigned(row[nn]) && SignedValue(row[nn]) < 0 ==>
      Uint64Err(row, nn) == Conv(SignedValue(row[nn]) + 0x1_0000_0000_0000_0000, Some(Range))
  {
  }

  /** An integer column that the 64-bit target type holds converts to its exact value with
      no error: every signed kind and an unsigned value up to MaxInt64 in Int64Err, every
      unsigned kind and a non-negative signed value in Uint64Err. */
  lemma ExactOnRange(row: Row, nn: int)
    requires 0 <= nn < |row|
    ensures IsSigned(row[nn]) ==> Int64Err(row, nn) == Conv(SignedValue(row[nn]), None)
    ensures IsUnsigned(row[nn]) && UnsignedValue(row[nn]) <= MaxInt64 ==>
      Int64Err(row, nn) == Conv(UnsignedValue(row[nn]), None)
    ensures IsUnsigned(row[nn]) ==> Uint64Err(row, nn) == Conv(UnsignedValue(row[nn]), None)
    ensures IsSigned(row[nn]) && SignedValue(row[nn]) >= 0 ==>
      Uint64Err(row, nn) == Conv(SignedValue(row[nn]), None)
  {
  }

  /** A value of a kind no accessor knows (a float, a date, a time or anything else) is
      EINVAL in every numeric *Err accessor. */
  lemma UnsupportedIsInvalid(row: Row, nn: int)
    requires 0 <= nn < |row|
    requires row[nn].CFloat32? || row[nn].CFloat64? || row[nn].CDate? || row[nn].CDatetime?
             || row[nn].CTime? || row[nn].COther?
    ensures IntErr(row, nn).err == Some(Invalid) && UintErr(row, nn).err == Some(Invalid)
    ensures BoolErr(row, nn).err == Some(Invalid)
    ensures Int64Err(row, nn).err == Some(Invalid) && Uint64Err(row, nn).err == Some(Invalid)
  {
  }

  /** A []byte column holding a decimal number converts to that number where the target
      type holds it, and to the largest value with ERANGE where it does not; UintErr reads
      it as decimal when it does not start with "0". */
  lemma DecimalColumn(row: Row, nn: int)
    requires 0 <= nn < |row| && row[nn].CBytes?
    requires var t := Text(row[nn].bytes); t != [] && AllDigits(t)
    ensures var t := Text(row[nn].bytes); var v := DecimalValue(t);
      && IntErr(row, nn) == (if v <= MaxInt then Conv(v, None) else Conv(MaxInt, Some(Range)))
      && Int64Err(row, nn) == (if v <= MaxInt64 then Conv(v, None) else Conv(MaxInt64, Some(Range)))
      && Uint64Err(row, nn) == (if v <= MaxUint64 then Conv(v, None) else Conv(MaxUint64, Some(Range)))
      && (t[0] != '0' ==>
            UintErr(row, nn) == (if v <= MaxUint then Conv(v, None) else Conv(MaxUint, Some(Range))))
  {
    var t := Text(row[nn].bytes);
    assert IsDigit(t[0]);
    if DecimalValue(t) <= MaxUint64 {
      ParseUintOfDigits(t);
    } else {
      ParseUintTooLarge(t);
    }
    if t[0] != '0' {
      ParseUintAutoDecimal(t, MaxUint);
    }
  }

  /** A []byte column holding "-" and a decimal number converts to the negative number
      where the type holds it, and to the least value with ERANGE where it does not. */
  lemma NegativeDecimalColumn(row: Row, nn: int)
    requires 0 <= nn < |row| && row[nn].CBytes?
    requires var t := Text(row[nn].bytes); |t| > 1 && t[0] == '-' && AllDigits(t[1..])
    ensures var v := -(DecimalValue(Text(row[nn].bytes)[1..]) as int);
      && IntErr(row, nn) == (if v >= MinInt then Conv(v, None) else Conv(MinInt, Some(Range)))
      && Int64Err(row, nn) == (if v >= MinInt64 then Conv(v, None) else Conv(MinInt64, Some(Range)))
      && UintErr(row, nn) == Conv(0, Some(Syntax)) && Uint64Err(row, nn) == Conv(0, Some(Syntax))
  {
    var t := Text(row[nn].bytes);
    var p := t[1..];
    if DecimalValue(p) <= MaxUint64 {
      ParseUintOfDigits(p);
    } else {
      ParseUintTooLarge(p);
    }
    assert t == "-" + p;
    assert "-"[..0] == [];
    ScanUintStops("-", p, 10, MaxUint);
    ScanUintStops("-", p, 10, MaxUint64);
  }

  /** UintErr reads a "0x" or "0X" prefix as hexadecimal and a leading "0" as octal. */
  lemma UintErrBases(row: Row, nn: int)
    requires 0 <= nn < |row| && row[nn].CBytes?
    ensures var t := Text(row[nn].bytes);
      && (|t| > 2 && t[..2] in {"0x", "0X"} && AllDigitsIn(t[2..], 16) ==>
            var v := BaseValue(t[2..], 16);
            UintErr(row, nn) == if v <= MaxUint then Conv(v, None) else Conv(MaxUint, Some(Range)))
      && (t != [] && t[0] == '0' && AllDigitsIn(t[1..], 8) ==>
            var v := BaseValue(t[1..], 8);
            UintErr(row, nn) == if v <= MaxUint then Conv(v, None) else Conv(MaxUint, Some(Range)))
  {
    var t := Text(row[nn].bytes);
    if |t| > 2 && t[..2] in {"0x", "0X"} && AllDigitsIn(t[2..], 16) {
      UintErrHex(row, nn, t);
    }
    if t != [] && t[0] == '0' && AllDigitsIn(t[1..], 8) {
      UintErrOctal(row, nn, t);
    }
  }

  lemma UintErrHex(row: Row, nn: int, t: string)
    requires 0 <= nn < |row| && row[nn].CBytes? && t == Text(row[nn].bytes)
    requires |t| > 2 && t[..2] in {"0x", "0X"} && AllDigitsIn(t[2..], 16)
    ensures var v := BaseValue(t[2..], 16);
      UintErr(row, nn) == if v <= MaxUint then Conv(v, None) else Conv(MaxUint, Some(Range))
  {
    assert t == ['0', t[1]] + t[2..];
    ParseUintAutoHex(t[1], t[2..], MaxUint);
  }

  lemma UintErrOctal(row: Row, nn: int, t: string)
    requires 0 <= nn < |row| && row[nn].CBytes? && t == Text(row[nn].bytes)
    requires t != [] && t[0] == '0' && AllDigitsIn(t[1..], 8)
    ensures var v := BaseValue(t[1..], 8);
      UintErr(row, nn) == if v <= MaxUint then Conv(v, None) else Conv(MaxUint, Some(Range))
  {
    assert t == "0" + t[1..];
    ParseUintAutoOctal(t[1..], MaxUint);
  }

  /** UintErr of the texts "010", "0x1f" and "08": 8, 31, and 0 with ErrSyntax, since 8 is
      not an octal digit. */
  lemma UintErrExamples()
    ensures UintErr([CBytes([0x30, 0x31, 0x30])], 0) == Conv(8, None)
    ensures UintErr([CBytes([0x30, 0x78, 0x31, 0x66])], 0) == Conv(31, None)
    ensures UintErr([CBytes([0x30, 0x38])], 0) == Conv(0, Some(Syntax))
  {
    assert Text([0x30, 0x31, 0x30]) == "010";
    assert Text([0x30, 0x78, 0x31, 0x66]) == "0x1f";
    assert Text([0x30, 0x38]) == "08";
    ParseUintAutoExamples();
  }
}
