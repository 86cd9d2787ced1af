/** The stream codecs of the older `mymy` package (codecs.go).  They read from an io.Reader
    and write to an io.Writer; here a Reader holds the bytes not yet read and a Writer the
    bytes written so far.  The wire format is the one of package native, so each operation is
    proved to read or write exactly what the pure definitions of NativeCodecs describe, and
    the round trips proved there carry over.  A read that runs out of bytes drains the
    stream and fails, as readFull's panic does. */
module Codecs {
  import opened Wrappers
  import opened Bytes
  import opened Errors
  import opened GoValues
  import NativeCodecs

  /** The bytes an io.Reader still has to deliver. */
  class Reader {
    var unread: seq<Byte>

    constructor (s: seq<Byte>)
      ensures unread == s
    {
      unread := s;
    }

    /** readFull on a buffer of n bytes: a short stream is drained and ends in
        io.ErrUnexpectedEOF. */
    method ReadFull(n: nat) returns (r: Result<seq<Byte>, Error>)
      modifies this
      ensures n <= |old(unread)| ==> r == Ok(old(unread)[..n]) && unread == old(unread)[n..]
      ensures |old(unread)| < n ==> r == Err(UnexpectedEof) && unread == []
    {
      if |unread| < n {
        unread := [];
        return Err(UnexpectedEof);
      }
      r := Ok(unread[..n]);
      unread := unread[n..];
    }

    /** One rd.Read of a single byte: at the end of the stream the error is os.EOF itself. */
    method ReadOne() returns (r: Result<Byte, Error>)
      modifies this
      ensures old(unread) != [] ==> r == Ok(old(unread)[0]) && unread == old(unread)[1..]
      ensures old(unread) == [] ==> r == Err(Eof) && unread == []
    {
      if unread == [] {
        return Err(Eof);
      }
      r := Ok(unread[0]);
      unread := unread[1..];
    }
  }

  /** The bytes written to an io.Writer. */
  class Writer {
    var written: seq<Byte>

    constructor ()
      ensures written == []
    {
      written := [];
    }

    method Write(b: seq<Byte>)
      modifies this
      ensures written == old(written) + b
    {
      written := written + b;
    }
  }

  /** The value a pure reader of NativeCodecs gives, without the rest of the stream. */
  function ValueOf<T>(g: Result<Got<T>, Error>): (r: Result<T, Error>)
    ensures r.Ok? <==> g.Ok?
  {
    match g
    case Ok(got) => Ok(got.value)
    case Err(e) => Err(e)
  }

  /** What a reader leaves unread: the rest, or nothing once a short read drained it. */
  function RestOf<T>(g: Result<Got<T>, Error>): seq<Byte>
  {
    match g
    case Ok(got) => got.rest
    case Err(_) => []
  }

  // ---------------------------------------------------------------- fixed-width integers

  /** readByte: one byte, io.ErrUnexpectedEOF at the end of the stream. */
  method ReadByte(rd: Reader) returns (r: Result<Byte, Error>)
    modifies rd
    ensures r == ValueOf(NativeCodecs.ReadByte(old(rd.unread)))
    ensures rd.unread == RestOf(NativeCodecs.ReadByte(old(rd.unread)))
  {
    var b := rd.ReadFull(1);
    if b.Err? {
      return Err(b.error);
    }
    r := Ok(b.value[0]);
  }

  method ReadU16(rd: Reader) returns (r: Result<U16, Error>)
    modifies rd
    ensures r == ValueOf(NativeCodecs.ReadU16(old(rd.unread)))
    ensures rd.unread == RestOf(NativeCodecs.ReadU16(old(rd.unread)))
  {
    var buf := rd.ReadFull(2);
    if buf.Err? {
      return Err(buf.error);
    }
    var b := buf.value;
    NativeCodecs.LeValuePrefix(b, 2);
    assert b[..2] == b;
    r := Ok(b[1] as int * 0x100 + b[0]);
  }

  method ReadU24(rd: Reader) returns (r: Result<U32, Error>)
    modifies rd
    ensures r == ValueOf(NativeCodecs.ReadU24(old(rd.unread)))
    ensures rd.unread == RestOf(NativeCodecs.ReadU24(old(rd.unread)))
  {
    var buf := rd.ReadFull(3);
    if buf.Err? {
      return Err(buf.error);
    }
    var b := buf.value;
    NativeCodecs.LeValuePrefix(b, 3);
    assert b[..3] == b;
    r := Ok((b[2] as int * 0x100 + b[1]) * 0x100 + b[0]);
  }

  method ReadU32(rd: Reader) returns (r: Result<U32, Error>)
    modifies rd
    ensures r == ValueOf(NativeCodecs.ReadU32(old(rd.unread)))
    ensures rd.unread == RestOf(NativeCodecs.ReadU32(old(rd.unread)))
  {
    var buf := rd.ReadFull(4);
    if buf.Err? {
      return Err(buf.error);
    }
    var b := buf.value;
    NativeCodecs.LeValuePrefix(b, 4);
    assert b[..4] == b;
    r := Ok(((b[3] as int * 0x100 + b[2]) * 0x100 + b[1]) * 0x100 + b[0]);
  }

  /** readU64 ORs byte ii in at bit 8*ii; the bytes occupy disjoint bits, so the OR is an
      addition. */
  method ReadU64(rd: Reader) returns (r: Result<U64, Error>)
    modifies rd
    ensures r == ValueOf(NativeCodecs.ReadU64(old(rd.unread)))
    ensures rd.unread == RestOf(NativeCodecs.ReadU64(old(rd.unread)))
  {
    ghost var s := rd.unread;
    var buf := rd.ReadFull(8);
    if buf.Err? {
      return Err(buf.error);
    }
    var b := buf.value;
    assert NativeCodecs.ReadU64(s) == Ok(Got(LeValue(b), rd.unread));
    Pow256Values();
    var rv: U64 := 0;
    for ii := 0 to 8
      invariant rv == LeValue(b[..ii])
      invariant rd.unread == s[8..]
    {
      LeValueSnoc(b[..ii], b[ii]);
      assert b[..ii + 1] == b[..ii] + [b[ii]];
      Pow256Monotone(ii + 1, 8);
      rv := rv + b[ii] as int * Pow256(ii);
    }
    assert b[..8] == b;
    r := Ok(rv);
  }

  method WriteU16(wr: Writer, val: U16)
    modifies wr
    ensures wr.written == old(wr.written) + LeBytes(val, 2)
  {
    wr.Write([val % 0x100, (val / 0x100) % 0x100]);
  }

  /** writeU24 keeps the three low-order bytes of a uint32. */
  method WriteU24(wr: Writer, val: U32)
    modifies wr
    ensures wr.written == old(wr.written) + LeBytes(val, 3)
  {
    NativeCodecs.LeBytesUnfold(val);
    wr.Write([val % 0x100, (val / 0x100) % 0x100, (val / 0x100 / 0x100) % 0x100]);
  }

  method WriteU32(wr: Writer, val: U32)
    modifies wr
    ensures wr.written == old(wr.written) + LeBytes(val, 4)
  {
    NativeCodecs.LeBytesUnfold(val);
    wr.Write([val % 0x100, (val / 0x100) % 0x100, (val / 0x100 / 0x100) % 0x100,
              (val / 0x100 / 0x100 / 0x100) % 0x100]);
  }

  /** writeU64 fills an 8-byte buffer with byte(val >> 8*ii) and writes it. */
  method WriteU64(wr: Writer, val: U64)
    modifies wr
    ensures wr.written == old(wr.written) + LeBytes(val, 8)
  {
    var buf := new Byte[8];
    for ii := 0 to 8
      invariant forall j :: 0 <= j < ii ==> buf[j] == LeBytes(val, 8)[j]
      invariant wr.written == old(wr.written)
    {
      LeBytesAt(val, 8, ii);
      buf[ii] := (val / Pow256(ii)) % 0x100;
    }
    assert buf[..] == LeBytes(val, 8);
    wr.Write(buf[..]);
  }

  // ---------------------------------------------------------------- length-coded binary

  /** readNu64: 251 is nil; 252, 253 and 254 announce a 2, 3 and 8 byte value; any other byte
      is the value itself. */
  method ReadNu64(rd: Reader) returns (r: Result<Option<U64>, Error>)
    modifies rd
    ensures r == ValueOf(NativeCodecs.ReadNu64(old(rd.unread)))
    ensures rd.unread == RestOf(NativeCodecs.ReadNu64(old(rd.unread)))
  {
    var bb := ReadByte(rd);
    if bb.Err? {
      return Err(bb.error);
    }
    var val: U64;
    match bb.value {
      case 251 =>
        return Ok(None);
      case 252 =>
        var x := ReadU16(rd);
        if x.Err? {
          return Err(x.error);
        }
        val := x.value;
      case 253 =>
        var x := ReadU24(rd);
        if x.Err? {
          return Err(x.error);
        }
        val := x.value;
      case 254 =>
        var x := ReadU64(rd);
        if x.Err? {
          return Err(x.error);
        }
        val := x.value;
      case _ =>
        val := bb.value;
    }
    r := Ok(Some(val));
  }

  /** readNotNullNu64: the 251 marker is consumed and ends in the UNEXP_NULL_LCB_ERROR panic. */
  method ReadNotNullNu64(rd: Reader) returns (r: Result<U64, Error>)
    modifies rd
    ensures r == ValueOf(NativeCodecs.ReadNotNullU64(old(rd.unread)))
    ensures rd.unread == RestOf(NativeCodecs.ReadNu64(old(rd.unread)))
  {
    var nu := ReadNu64(rd);
    if nu.Err? {
      return Err(nu.error);
    }
    if nu.value.None? {
      return Err(UnexpNullLcb);
    }
    r := Ok(nu.value.value);
  }

  /** writeLCB: lenLCB(val) bytes, the value itself up to 250, else a 252, 253 or 254 tag and
      2, 3 or 8 bytes. */
  method WriteLCB(wr: Writer, val: U64)
    modifies wr
    ensures wr.written == old(wr.written) + NativeCodecs.WriteLCB(val)
    ensures |wr.written| == |old(wr.written)| + NativeCodecs.LenLCB(val)
  {
    ghost var before := wr.written;
    if val <= 250 {
      wr.Write([val]);
    } else if val <= 0xffff {
      wr.Write([252]);
      WriteU16(wr, val);
      assert wr.written == before + ([252] + LeBytes(val, 2));
    } else if val <= 0xff_ffff {
      wr.Write([253]);
      WriteU24(wr, val);
      assert wr.written == before + ([253] + LeBytes(val, 3));
    } else {
      wr.Write([254]);
      WriteU64(wr, val);
      assert wr.written == before + ([254] + LeBytes(val, 8));
    }
  }

  method WriteNu64(wr: Writer, nu: Option<U64>)
    modifies wr
    ensures wr.written == old(wr.written) + NativeCodecs.WriteNu64(nu)
    ensures |wr.written| == |old(wr.written)| + NativeCodecs.LenNu64(nu)
  {
    if nu.None? {
      wr.Write([NativeCodecs.NullTag]);
    } else {
      WriteLCB(wr, nu.value);
    }
  }

  // ---------------------------------------------------------------- Nbin / Nstr

  /** readNbin: a length-coded length, then that many bytes; nil for the NULL marker.
      readNstr is readNbin with the bytes taken as a string. */
  method ReadNbin(rd: Reader) returns (r: Result<NativeCodecs.Nbin, Error>)
    modifies rd
    ensures r == ValueOf(NativeCodecs.ReadNbin(old(rd.unread)))
    ensures rd.unread == RestOf(NativeCodecs.ReadNbin(old(rd.unread)))
  {
    var nu := ReadNu64(rd);
    if nu.Err? {
      return Err(nu.error);
    }
    if nu.value.None? {
      return Ok(None);
    }
    var buf := rd.ReadFull(nu.value.value);
    if buf.Err? {
      return Err(buf.error);
    }
    r := Ok(Some(buf.value));
  }

  /** readNotNullNbin (and readNotNullNstr): NULL is the UNEXP_NULL_LCS_ERROR panic. */
  method ReadNotNullNbin(rd: Reader) returns (r: Result<seq<Byte>, Error>)
    modifies rd
    ensures r == ValueOf(NativeCodecs.ReadNotNullBin(old(rd.unread)))
    ensures rd.unread == RestOf(NativeCodecs.ReadNbin(old(rd.unread)))
  {
    var nb := ReadNbin(rd);
    if nb.Err? {
      return Err(nb.error);
    }
    if nb.value.None? {
      return Err(UnexpNullLcs);
    }
    r := Ok(nb.value.value);
  }

  /** writeNbin: 251 for nil, else the length as an LCB and the bytes. */
  method WriteNbin(wr: Writer, nbuf: NativeCodecs.Nbin)
    modifies wr
    ensures wr.written == old(wr.written) + NativeCodecs.WriteNbin(nbuf)
    ensures |wr.written| == |old(wr.written)| + NativeCodecs.LenNbin(nbuf)
  {
    if nbuf.None? {
      wr.Write([NativeCodecs.NullTag]);
      return;
    }
    WriteLCB(wr, ToU64(|nbuf.value|));
    wr.Write(nbuf.value);
  }

  /** writeNstr: the same layout, the length taken in bytes. */
  method WriteNstr(wr: Writer, nstr: Option<seq<Byte>>)
    modifies wr
    ensures wr.written == old(wr.written) + NativeCodecs.WriteNbin(nstr)
  {
    if nstr.None? {
      wr.Write([NativeCodecs.NullTag]);
      return;
    }
    WriteLCB(wr, ToU64(|nstr.value|));
    wr.Write(nstr.value);
  }

  /** writeLC: Nbin, []byte, Nstr and string are written as length-coded data; any other
      type panics and nothing is written. */
  method WriteLC(wr: Writer, v: Any) returns (err: Option<Error>)
    modifies wr
    ensures err.Some? <==> v.Other?
    ensures err.Some? ==> err.value == UnknownType && wr.written == old(wr.written)
    ensures err.None? ==> wr.written == old(wr.written) + NativeCodecs.WriteLC(v).value
  {
    match v {
      case BinPtr(nb) => WriteNbin(wr, nb);
      case Bin(b) => WriteNbin(wr, Some(b));
      case StrPtr(ns) => WriteNstr(wr, ns);
      case Str(s) => WriteNstr(wr, Some(s));
      case Other => return Some(UnknownType);
    }
    err := None;
  }

  // ---------------------------------------------------------------- NUL-terminated

  /** readNTB reads one byte at a time until a 0, which it consumes.  Its reads go straight to
      rd.Read, so a stream without a 0 ends in the os.EOF panic itself. */
  method ReadNTB(rd: Reader) returns (r: Result<seq<Byte>, Error>)
    modifies rd
    ensures r.Ok? ==> old(rd.unread) == r.value + [0] + rd.unread && NativeCodecs.NulFree(r.value)
    ensures r.Err? ==> r.error == Eof && rd.unread == [] && NativeCodecs.NulFree(old(rd.unread))
  {
    var bb: seq<Byte> := [];
    while true
      invariant old(rd.unread) == bb + rd.unread && NativeCodecs.NulFree(bb)
      decreases |rd.unread|
    {
      var ch := rd.ReadOne();
      if ch.Err? {
        assert bb == old(rd.unread);
        return Err(ch.error);
      }
      if ch.value == 0 {
        return Ok(bb);
      }
      bb := bb + [ch.value];
    }
  }

  /** readNTB gives back what writeNTB (or writeNTS) wrote, when that holds no 0. */
  lemma ReadWriteNTB(b: seq<Byte>, rest: seq<Byte>, got: seq<Byte>, left: seq<Byte>)
    requires NativeCodecs.NulFree(b) && NativeCodecs.NulFree(got)
    requires NativeCodecs.WriteNTB(b) + rest == got + [0] + left
    ensures got == b && left == rest
  {
    NativeCodecs.NulSplitUnique(b, rest, got, left);
  }

  /** writeNTB (and writeNTS): the bytes and one 0. */
  method WriteNTB(wr: Writer, buf: seq<Byte>)
    modifies wr
    ensures wr.written == old(wr.written) + NativeCodecs.WriteNTB(buf)
  {
    wr.Write(buf);
    wr.Write([0]);
  }

  /** writeNT: []byte and string only; anything else panics and nothing is written. */
  method WriteNT(wr: Writer, v: Any) returns (err: Option<Error>)
    modifies wr
    ensures err.Some? <==> !(v.Bin? || v.Str?)
    ensures err.Some? ==> err.value == UnknownType && wr.written == old(wr.written)
    ensures err.None? ==> wr.written == old(wr.written) + NativeCodecs.WriteNT(v).value
  {
    match v {
      case Bin(b) => WriteNTB(wr, b);
      case Str(s) => WriteNTB(wr, s);
      case _ => return Some(UnknownType);
    }
    err := None;
  }
}
