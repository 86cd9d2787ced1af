/** The bound parameters of package mymy (unsafe.go, with the binding record of binding.go).
    A binding holds the address of the bound variable; when `isPtr` is set, that variable is
    itself a pointer, which may be nil and is then a NULL value.  The package's own DATETIME
    codec is not part of this model: the binary DATETIME layout of package native stands in
    for it. */
module Unsafe {
  import opened Wrappers
  import opened Bytes
  import opened Errors
  import opened Consts
  import NativeCodecs
  import NativeTime
  import opened NativeUnsafe

  /** What the binding's address leads to.  NilAddr is the address 0 of the binding made for
      a nil value, which is only ever a NULL of length 0; NilPtr is a nil pointer variable. */
  datatype Value = Value(typ: U16, target: Target, isPtr: bool, raw: bool, length: int)

  /** Value.Len reads the variable as a string, a datetime or binary data. */
  function LenKind(typ: U16): Kind
  {
    if typ == TypeString then KBin
    else if typ == TypeTimestamp || typ == TypeDatetime then KDatetime
    else KBin
  }

  /** What writeValue reads the variable as; None when it reads nothing. */
  function WriteKind(typ: U16, raw: bool): Option<Kind>
  {
    if raw || typ == TypeVarString || typ == TypeBlob then Some(KBin)
    else
      var t := Masked(typ);
      if t == TypeString then Some(KBin)
      else if t == TypeLong || t == TypeFloat then Some(KLong)
      else if t == TypeShort then Some(KShort)
      else if t == TypeTiny then Some(KTiny)
      else if t == TypeLonglong || t == TypeDouble then Some(KLonglong)
      else if t == TypeTimestamp || t == TypeDatetime then Some(KDatetime)
      else None
  }

  /** The binding is one bindValue makes: a nil pointer only behind a pointer binding, the
      address 0 only for the NULL binding, and a type code naming the variable's type. */
  predicate Consistent(v: Value)
  {
    (v.target.NilPtr? ==> v.isPtr) &&
    (v.target.NilAddr? ==> v.typ == TypeNull && v.length == 0 && !v.raw && !v.isPtr) &&
    (v.target.At? ==>
      (v.length < 0 ==> LenKind(v.typ) == KindOf(v.target.v)) &&
      (WriteKind(v.typ, v.raw).Some? ==> WriteKind(v.typ, v.raw).value == KindOf(v.target.v)))
  }

  /** Value.Len: 0 for a nil pointer, the fixed length when there is one, else the length of
      the string, datetime or binary encoding. */
  function Len(v: Value): (n: int)
    requires Consistent(v)
    ensures v.target.NilPtr? ==> n == 0
    ensures !v.target.NilPtr? && v.length >= 0 ==> n == v.length
    ensures !v.target.NilPtr? && v.length < 0 ==> n > 0
  {
    if v.isPtr && v.target.NilPtr? then 0
    else if v.length >= 0 then v.length
    else
      var x := v.target.v;
      if v.typ == TypeString then NativeCodecs.LenNbin(Some(x.b))
      else if v.typ == TypeTimestamp || v.typ == TypeDatetime then NativeTime.LenNdatetime(Some(x.dt))
      else NativeCodecs.LenNbin(Some(x.b))
  }

  /** writeValue: every case writes nothing for a nil pointer, but the type dispatch comes
      first, so an unknown type code panics with BIND_UNK_TYPE even then. */
  function WriteValue(v: Value): (r: Result<seq<Byte>, Error>)
    requires Consistent(v)
    ensures r.Err? ==> r.error == BindUnkType
  {
    if v.raw || v.typ == TypeVarString || v.typ == TypeBlob then
      if v.target.At? then Ok(NativeCodecs.WriteNbin(Some(v.target.v.b))) else Ok([])
    else
      var t := Masked(v.typ);
      if t == TypeNull then Ok([])
      else if !(t in {TypeString, TypeLong, TypeFloat, TypeShort, TypeTiny, TypeLonglong, TypeDouble,
                      TypeTimestamp, TypeDatetime}) then Err(BindUnkType)
      else if !v.target.At? then Ok([])
      else
        var x := v.target.v;
        if t == TypeString then Ok(NativeCodecs.WriteNbin(Some(x.b)))
        else if t == TypeLong || t == TypeFloat then Ok(NativeCodecs.EncodeU32(x.u32))
        else if t == TypeShort then Ok(NativeCodecs.EncodeU16(x.u16))
        else if t == TypeTiny then Ok([x.u8])
        else if t == TypeLonglong || t == TypeDouble then Ok(LeBytes(x.u64, 8))
        else Ok(NativeTime.DatetimeBytes(Some(x.dt)))
  }

  /** A pointer binding whose pointer is nil has length 0 and writes nothing, unless its type
      code is unknown, which panics. */
  lemma NilPointer(v: Value)
    requires Consistent(v) && v.target.NilPtr?
    ensures Len(v) == 0
    ensures WriteValue(v) == Ok([]) || WriteValue(v) == Err(BindUnkType)
    ensures WriteValue(v).Err? <==>
      !v.raw && v.typ != TypeVarString && v.typ != TypeBlob && Masked(v.typ) != TypeNull && WriteKind(v.typ, v.raw).None?
  {
  }

  /** The NULL binding of a nil value has length 0 and writes nothing. */
  lemma NullBinding()
    ensures var v := Value(TypeNull, NilAddr, false, false, 0);
      Consistent(v) && Len(v) == 0 && WriteValue(v) == Ok([])
  {
  }

  /** The fixed-width types write as many bytes as their width, the unsigned bit aside. */
  lemma FixedWidths(v: Value)
    requires Consistent(v) && v.target.At? && !v.raw && v.typ != TypeVarString && v.typ != TypeBlob
    ensures Masked(v.typ) == TypeNull ==> WriteValue(v) == Ok([])
    ensures Masked(v.typ) in {TypeLong, TypeFloat} ==> WriteValue(v).Ok? && |WriteValue(v).value| == 4
    ensures Masked(v.typ) == TypeShort ==> WriteValue(v).Ok? && |WriteValue(v).value| == 2
    ensures Masked(v.typ) == TypeTiny ==> WriteValue(v).Ok? && |WriteValue(v).value| == 1
    ensures Masked(v.typ) in {TypeLonglong, TypeDouble} ==> WriteValue(v).Ok? && |WriteValue(v).value| == 8
  {
  }

  /** For a present value whose length is not fixed, Len counts exactly the bytes writeValue
      emits: strings, binary data and datetimes. */
  lemma LenCountsWritten(v: Value)
    requires Consistent(v) && v.target.At? && v.length < 0
    requires WriteValue(v).Ok? && Masked(v.typ) != TypeNull
    ensures Len(v) == |WriteValue(v).value|
  {
    if v.target.v.VDatetime? {
      NativeTime.DatetimeLength(Some(v.target.v.dt));
    }
  }
}
