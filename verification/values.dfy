/** The dynamic values the codecs accept through an `interface{}` parameter.  A Go `string`
    and a `[]byte` are both byte sequences here; what tells them apart is the constructor,
    which is all a type switch looks at. */
module GoValues {
  import opened Wrappers
  import opened Bytes

  datatype Any =
    | Bin(bin: seq<Byte>)                // []byte
    | Str(str: seq<Byte>)                // string
    | BinPtr(nbin: Option<seq<Byte>>)    // *[]byte, alias Nbin (None is a nil pointer)
    | StrPtr(nstr: Option<seq<Byte>>)    // *string, alias Nstr
    | Other                              // any other dynamic type, an untyped nil included
}
