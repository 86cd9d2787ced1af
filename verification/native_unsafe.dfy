/** The bound parameters of a prepared statement in package native (native/unsafe.go): the
    length a parameter takes in a COM_STMT_EXECUTE packet and the bytes it is sent as.

    A binding holds the address of a pointer to the Go variable bound to the parameter.  The
    variable is read through unsafe pointers as the type its type code names; here it is one of
    the values in `Val`, and `Consistent` says that the code and the value agree, which is what
    the binding step guarantees. */
module NativeUnsafe {
  import opened Wrappers
  import opened Bytes
  import opened Errors
  import opened Consts
  import opened MysqlTypes
  import NativeCodecs
  import NativeTime
  import Common

  /** The bound Go variable.  A string and a []byte are both their bytes: the codecs read
      only the data pointer and the length, which the two headers share. */
  datatype Val =
    | VBin(b: seq<Byte>)          // []byte, Blob, string
    | VTiny(u8: Byte)             // int8, uint8
    | VShort(u16: U16)            // int16, uint16 (as its bits)
    | VLong(u32: U32)             // int32, uint32, float32 (as its bits)
    | VLonglong(u64: U64)         // int64, uint64, float64 (as its bits)
    | VDate(date: Date)
    | VDatetime(dt: Datetime)
    | VTime(time: Time)

  /** Where the binding leads: no address, an address holding a nil pointer, or a variable. */
  datatype Target = NilAddr | NilPtr | At(v: Val)

  /** paramValue: type code (with MYSQL_UNSIGNED_MASK for unsigned integers), target, whether
      it is a Raw value, and the fixed length (negative when the length depends on the value). */
  datatype ParamValue = ParamValue(typ: U16, target: Target, raw: bool, length: int)

  /** The type code with the unsigned bit cleared: `typ &^ MYSQL_UNSIGNED_MASK`. */
  function Masked(typ: U16): (t: U16)
    ensures t < UnsignedMask && t % UnsignedMask == typ % UnsignedMask
  {
    typ % UnsignedMask
  }

  /** The kinds of value the dispatches read: the constructor names of `Val`. */
  datatype Kind = KBin | KTiny | KShort | KLong | KLonglong | KDate | KDatetime | KTime

  function KindOf(v: Val): Kind
  {
    match v
    case VBin(_) => KBin
    case VTiny(_) => KTiny
    case VShort(_) => KShort
    case VLong(_) => KLong
    case VLonglong(_) => KLonglong
    case VDate(_) => KDate
    case VDatetime(_) => KDatetime
    case VTime(_) => KTime
  }

  /** What Len reads the variable as, when the length is not fixed. */
  function LenKind(typ: U16): Kind
  {
    if typ == TypeString then KBin
    else if typ == TypeDate then KDate
    else if typ == TypeTimestamp || typ == TypeDatetime then KDatetime
    else if typ == TypeTime then KTime
    else KBin
  }

  /** What writeValue reads the variable as; None when it reads nothing (NULL, or a type code
      it refuses). */
  function WriteKind(typ: U16, raw: bool): Option<Kind>
  {
    if raw || typ == TypeVarString || typ == TypeBlob then Some(KBin)
    else
      var t := Masked(typ);
      if t == TypeString then Some(KBin)
      else if t == TypeLong || t == TypeFloat then Some(KLong)
      else if t == TypeShort then Some(KShort)
      else if t == TypeTiny then Some(KTiny)
      else if t == TypeLonglong || t == TypeDouble then Some(KLonglong)
      else if t == TypeDate then Some(KDate)
      else if t == TypeTimestamp || t == TypeDatetime then Some(KDatetime)
      else if t == TypeTime then Some(KTime)
      else None
  }

  /** The type code names the type of the bound variable, for every read that happens. */
  predicate Consistent(pv: ParamValue)
  {
    pv.target.At? ==>
      (pv.length < 0 ==> LenKind(pv.typ) == KindOf(pv.target.v)) &&
      (WriteKind(pv.typ, pv.raw).Some? ==> WriteKind(pv.typ, pv.raw).value == KindOf(pv.target.v))
  }

  /** paramValue.Len: the bytes the value takes in the packet. */
  function Len(pv: ParamValue): (n: int)
    requires Consistent(pv)
    ensures !pv.target.At? ==> n == 0
    ensures pv.target.At? && pv.length >= 0 ==> n == pv.length
    ensures pv.target.At? && pv.length < 0 ==> n > 0
  {
    match pv.target
    case NilAddr => 0
    case NilPtr => 0
    case At(v) =>
      if pv.length >= 0 then pv.length
      else if pv.typ == TypeString then NativeCodecs.LenNbin(Some(v.b))
      else if pv.typ == TypeDate then NativeTime.LenNdate(Some(v.date))
      else if pv.typ == TypeTimestamp || pv.typ == TypeDatetime then NativeTime.LenNdatetime(Some(v.dt))
      else if pv.typ == TypeTime then NativeTime.LenNtime(Some(v.time))
      else NativeCodecs.LenNbin(Some(v.b))
  }

  /** writeValue: the bytes written for the value, or the BIND_UNK_TYPE panic.  Raw values,
      VAR_STRING and BLOB are length-coded binary; the rest dispatch on the masked type. */
  function WriteValue(pv: ParamValue): (r: Result<seq<Byte>, Error>)
    requires Consistent(pv)
    ensures r.Err? ==> r.error == BindUnkType
  {
    match pv.target
    case NilAddr => Ok([])
    case NilPtr => Ok([])
    case At(v) =>
      if pv.raw || pv.typ == TypeVarString || pv.typ == TypeBlob then Ok(NativeCodecs.WriteNbin(Some(v.b)))
      else
        var t := Masked(pv.typ);
        if t == TypeNull then Ok([])
        else if t == TypeString then Ok(NativeCodecs.WriteNbin(Some(v.b)))
        else if t == TypeLong || t == TypeFloat then Ok(NativeCodecs.EncodeU32(v.u32))
        else if t == TypeShort then Ok(NativeCodecs.EncodeU16(v.u16))
        else if t == TypeTiny then Ok([v.u8])
        else if t == TypeLonglong || t == TypeDouble then Ok(LeBytes(v.u64, 8))
        else if t == TypeDate then Ok(NativeTime.DatetimeBytes(Common.DateToDatetime(Some(v.date))))
        else if t == TypeTimestamp || t == TypeDatetime then Ok(NativeTime.DatetimeBytes(Some(v.dt)))
        else if t == TypeTime then Ok(NativeTime.TimeBytes(Some(v.time)))
        else Err(BindUnkType)
  }

  /** A binding without an address, or whose pointer is nil, has length 0 and writes nothing,
      whatever its type code. */
  lemma NilWritesNothing(pv: ParamValue)
    requires Consistent(pv) && !pv.target.At?
    ensures Len(pv) == 0 && WriteValue(pv) == Ok([])
  {
  }

  /** The fixed-width types write as many bytes as their width, the unsigned bit aside, and
      NULL writes nothing. */
  lemma FixedWidths(pv: ParamValue)
    requires Consistent(pv) && pv.target.At? && !pv.raw && pv.typ != TypeVarString && pv.typ != TypeBlob
    ensures Masked(pv.typ) == TypeNull ==> WriteValue(pv) == Ok([])
    ensures Masked(pv.typ) in {TypeLong, TypeFloat} ==> WriteValue(pv).Ok? && |WriteValue(pv).value| == 4
    ensures Masked(pv.typ) == TypeShort ==> WriteValue(pv).Ok? && |WriteValue(pv).value| == 2
    ensures Masked(pv.typ) == TypeTiny ==> WriteValue(pv).Ok? && |WriteValue(pv).value| == 1
    ensures Masked(pv.typ) in {TypeLonglong, TypeDouble} ==> WriteValue(pv).Ok? && |WriteValue(pv).value| == 8
  {
  }

  /** The type codes writeValue accepts, the unsigned bit aside. */
  predicate Known(t: U16)
  {
    t in {TypeNull, TypeString, TypeLong, TypeFloat, TypeShort, TypeTiny, TypeLonglong, TypeDouble,
          TypeDate, TypeTimestamp, TypeDatetime, TypeTime}
  }

  /** writeValue panics with BIND_UNK_TYPE exactly for a present value that is not raw, not
      VAR_STRING or BLOB, and whose masked type code it does not know. */
  lemma UnknownTypePanics(pv: ParamValue)
    requires Consistent(pv)
    ensures WriteValue(pv).Err? <==>
      pv.target.At? && !pv.raw && pv.typ != TypeVarString && pv.typ != TypeBlob && !Known(Masked(pv.typ))
  {
  }

  /** Raw values, VAR_STRING and BLOB go out as length-coded binary, which readNbin reads back. */
  lemma BinaryReadsBack(pv: ParamValue, rest: seq<Byte>)
    requires Consistent(pv) && pv.target.At?
    requires pv.raw || pv.typ == TypeVarString || pv.typ == TypeBlob
    requires |pv.target.v.b| < 0x1_0000_0000_0000_0000
    ensures WriteValue(pv).Ok?
    ensures NativeCodecs.ReadNbin(WriteValue(pv).value + rest) == Ok(Got(Some(pv.target.v.b), rest))
  {
    NativeCodecs.ReadWriteNbin(Some(pv.target.v.b), rest);
  }

  /** For a value whose length is not fixed, Len counts exactly the bytes writeValue emits, for
      strings, binary data, DATE, DATETIME and TIMESTAMP, and for TIME other than zero and the
      most negative duration. */
  lemma LenCountsWritten(pv: ParamValue)
    requires Consistent(pv) && pv.target.At? && pv.length < 0
    requires WriteValue(pv).Ok? && Masked(pv.typ) != TypeNull
    requires pv.target.v.VTime? ==> pv.target.v.time != 0 && pv.target.v.time != MinInt64
    ensures Len(pv) == |WriteValue(pv).value|
  {
    var v := pv.target.v;
    assert WriteKind(pv.typ, pv.raw) == Some(KindOf(v));
    match v
    case VBin(b) =>
      assert Len(pv) == NativeCodecs.LenNbin(Some(b));
      assert WriteValue(pv) == Ok(NativeCodecs.WriteNbin(Some(b)));
    case VDatetime(dt) =>
      assert Len(pv) == NativeTime.LenNdatetime(Some(dt));
      assert WriteValue(pv) == Ok(NativeTime.DatetimeBytes(Some(dt)));
      NativeTime.DatetimeLength(Some(dt));
    case VDate(d) =>
      assert pv.typ == TypeDate;
      NativeTime.DateRoundTrip(Some(d), []);
    case VTime(t) =>
      assert pv.typ == TypeTime;
      NativeTime.TimeRoundTrip(t, []);
    case _ =>
  }

  /** The exception: a zero TIME is counted as one byte but written as two. */
  lemma ZeroTimeMiscounted()
    ensures var pv := ParamValue(TypeTime, At(VTime(0)), false, -1);
      Consistent(pv) && Len(pv) == 1 && WriteValue(pv) == Ok([1, 0])
  {
    NativeTime.ZeroTime([]);
  }
}
