/** The helpers of common.go: the DATE/DATETIME text parsers of the old `mymy` package, the
    Date to Datetime conversion, the zero tests and the string-or-bytes writer. */
module Common {
  import opened Wrappers
  import opened Bytes
  import opened Errors
  import opened GoText
  import opened GoValues
  import opened MysqlTypes

  /** strconv.Atoi of a field of at most four characters, whose value fits an int of any
      width. */
  function Atoi(s: string): (r: Option<int>)
    ensures r.Some? <==> ParseInt(s).Ok?
    ensures r.Some? ==> r.value == ParseInt(s).value
  {
    match ParseInt(s)
    case Ok(v) => Some(v)
    case Err(_) => None
  }

  /** StrToDate: YYYY-MM-DD, surrounding white space ignored, nil when the format is wrong.
      Month and day are not range-checked; the fields are truncated to int16 and uint8. */
  function StrToDate(s: string): (dd: Option<Date>)
    ensures dd.Some? ==> |TrimSpace(s)| == 10 && TrimSpace(s)[4] == '-' && TrimSpace(s)[7] == '-'
  {
    var str := TrimSpace(s);
    if |str| != 10 || str[4] != '-' || str[7] != '-' then None
    else
      match (Atoi(str[0..4]), Atoi(str[5..7]), Atoi(str[8..10]))
      case (Some(y), Some(m), Some(d)) => Some(Date(Wrap16(y), m % 0x100, d % 0x100))
      case _ => None
  }

  lemma ExampleFields()
    ensures ParseInt("1234") == Ok(1234) && ParseInt("56") == Ok(56) && ParseInt("78") == Ok(78)
  {
    assert Digits(1234) == "1234";
    DecimalValueOfDigits(1234);
    ParseIntOfDigits("1234");
    assert Digits(56) == "56";
    DecimalValueOfDigits(56);
    ParseIntOfDigits("56");
    assert Digits(78) == "78";
    DecimalValueOfDigits(78);
    ParseIntOfDigits("78");
  }

  /** The date examples of types_test.go: month and day are taken as they are, surrounding
      spaces are dropped, and a wrong separator or trailing text gives nil. */
  lemma StrToDateExamples()
    ensures StrToDate("1234-56-78") == Some(Date(1234, 56, 78))
    ensures StrToDate(" 1234-56-78  ") == Some(Date(1234, 56, 78))
    ensures StrToDate("1234:56:78") == None
    ensures StrToDate("1234-56-78 00:00:00") == None
  {
    StrToDatePlain();
    assert TrimSpace(" 1234-56-78  ") == TrimSpace("1234-56-78") by {
      SpacedExample();
    }
    StrToDateRejects();
  }

  lemma StrToDateRejects()
    ensures StrToDate("1234:56:78") == None
    ensures StrToDate("1234-56-78 00:00:00") == None
  {
    var s := "1234:56:78";
    assert !IsSpace(s[0]) && !IsSpace(s[9]);
    TrimSpaceOfTrimmed(s);
    assert TrimSpace(s)[4] != '-';
    var t := "1234-56-78 00:00:00";
    assert |t| == 19 && !IsSpace(t[0]) && !IsSpace(t[18]);
    TrimSpaceOfTrimmed(t);
  }

  lemma StrToDatePlain()
    ensures StrToDate("1234-56-78") == Some(Date(1234, 56, 78))
  {
    var y, m, d := "1234", "56", "78";
    assert "1234-56-78" == y + "-" + m + "-" + d;
    ExampleFields();
    StrToDateFields(y, m, d, 1234, 56, 78);
    assert Date(Wrap16(1234), 56 % 0x100, 78 % 0x100) == Date(1234, 56, 78);
  }

  /** A trimmed yyyy-mm-dd text whose three fields are numbers. */
  lemma StrToDateFields(y: string, m: string, d: string, yv: int, mv: int, dv: int)
    requires |y| == 4 && |m| == 2 && |d| == 2 && !IsSpace(y[0]) && !IsSpace(d[1])
    requires ParseInt(y) == Ok(yv) && ParseInt(m) == Ok(mv) && ParseInt(d) == Ok(dv)
    ensures StrToDate(y + "-" + m + "-" + d) == Some(Date(Wrap16(yv), mv % 0x100, dv % 0x100))
  {
    var s := y + "-" + m + "-" + d;
    DateFieldsAt(y, m, d);
    assert s[0] == y[0] && s[9] == d[1];
    TrimSpaceOfTrimmed(s);
  }

  /** Where the fields of a yyyy-mm-dd text sit. */
  lemma DateFieldsAt(y: string, m: string, d: string)
    requires |y| == 4 && |m| == 2 && |d| == 2
    ensures var s := y + "-" + m + "-" + d;
      |s| == 10 && s[4] == '-' && s[7] == '-' && s[0..4] == y && s[5..7] == m && s[8..10] == d
  {
    var s := y + "-" + m + "-" + d;
    assert s[0..4] == y && s[5..7] == m && s[8..10] == d;
  }

  lemma SpacedExample()
    ensures TrimSpace(" 1234-56-78  ") == TrimSpace("1234-56-78")
  {
    var s := "1234-56-78";
    TrimSpaceOfTrimmed(s);
    assert TrimLeft(" 1234-56-78  ") == s + "  ";
    assert TrimRight(s + " ") == s;
    assert (s + "  ")[..|s| + 1] == s + " ";
    assert TrimRight(s + "  ") == s;
  }

  /** DateToDatetime: the same date at 00:00:00; nil stays nil. */
  function DateToDatetime(dd: Option<Date>): (dt: Option<Datetime>)
    ensures dt.Some? <==> dd.Some?
    ensures dd.Some? ==> dt.value.Year == dd.value.Year && dt.value.Month == dd.value.Month
                         && dt.value.Day == dd.value.Day
    ensures dd.Some? ==> dt.value.Hour == 0 && dt.value.Minute == 0 && dt.value.Second == 0
                         && dt.value.Nanosec == 0
  {
    match dd
    case None => None
    case Some(d) => Some(Datetime(d.Year, d.Month, d.Day, 0, 0, 0, 0))
  }

  /** IsDateZero: 0000-00-00. */
  predicate IsDateZero(dd: Date)
    ensures IsDateZero(dd) <==> MysqlTypes.DateIsZero(dd)
  {
    dd.Day == 0 && dd.Month == 0 && dd.Year == 0
  }

  /** IsDatetimeZero: 0000-00-00 00:00:00 with no fraction. */
  predicate IsDatetimeZero(dt: Datetime)
    ensures IsDatetimeZero(dt) <==> dt == Datetime(0, 0, 0, 0, 0, 0, 0)
  {
    dt.Day == 0 && dt.Month == 0 && dt.Year == 0 && dt.Hour == 0 && dt.Minute == 0
    && dt.Second == 0 && dt.Nanosec == 0
  }

  /** A date is zero exactly when the datetime made of it is. */
  lemma DateToDatetimeZero(dd: Date)
    ensures IsDatetimeZero(DateToDatetime(Some(dd)).value) == IsDateZero(dd)
  {
  }

  /** StrToDatetime: a date, then optionally HH:MM:SS after white space; nil when the format
      is wrong.  The time fields are not range-checked. */
  function StrToDatetime(s: string): (dt: Option<Datetime>)
    ensures dt.Some? ==> |TrimSpace(s)| >= 10 && StrToDate(TrimSpace(s)[0..10]).Some?
  {
    var str := TrimSpace(s);
    var dt := if |str| >= 10 then DateToDatetime(StrToDate(str[0..10])) else None;
    if |str| == 10 || dt.None? then dt
    else
      var t := TrimSpace(str[10..]);
      if |t| != 8 || t[2] != ':' || t[5] != ':' then None
      else
        match (Atoi(t[0..2]), Atoi(t[3..5]), Atoi(t[6..8]))
        case (Some(h), Some(m), Some(sec)) =>
          Some(dt.value.(Hour := h % 0x100, Minute := m % 0x100, Second := sec % 0x100))
        case _ => None
  }

  /** A bare date converts to that date at midnight. */
  lemma StrToDatetimeOfDate(s: string)
    requires |TrimSpace(s)| == 10
    ensures StrToDatetime(s) == DateToDatetime(StrToDate(TrimSpace(s)))
  {
    assert TrimSpace(s)[0..10] == TrimSpace(s);
  }

  /** writeBS: a string or a []byte is written as it is; anything else panics. */
  function WriteBS(bs: Any): (r: Result<seq<Byte>, Error>)
    ensures r.Ok? <==> bs.Str? || bs.Bin?
    ensures bs.Str? ==> r == Ok(bs.str)
    ensures bs.Bin? ==> r == Ok(bs.bin)
  {
    match bs
    case Str(b) => Ok(b)
    case Bin(b) => Ok(b)
    case _ => Err(UnknownType)
  }

  function LenBS(bs: Any): (r: Result<nat, Error>)
    ensures r.Ok? <==> bs.Str? || bs.Bin?
  {
    match bs
    case Str(b) => Ok(|b|)
    case Bin(b) => Ok(|b|)
    case _ => Err(UnknownType)
  }

  /** lenBS is the number of bytes writeBS writes, and both refuse the same values. */
  lemma LenBSOfWriteBS(bs: Any)
    ensures LenBS(bs).Ok? <==> WriteBS(bs).Ok?
    ensures WriteBS(bs).Ok? ==> LenBS(bs).value == |WriteBS(bs).value|
  {
  }
}
