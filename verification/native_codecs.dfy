/** The wire codecs of package native (native/codecs.go): fixed-width little-endian
    integers, length-coded binaries (LCB), nullable length-coded strings and NUL-terminated
    strings.

    A reader is a function of the unread stream: it returns the value and the rest, or the
    error the Go code panics with (io.ErrUnexpectedEOF when the stream ends early).  A writer
    returns the bytes it appends to the stream.  A Go `string` is a byte sequence, so each
    Nstr operation is the Nbin operation of the same name. */
module NativeCodecs {
  import opened Wrappers
  import opened Bytes
  import opened Errors
  import opened GoValues

  /** NULL marker of a length-coded value. */
  const NullTag: Byte := 251

  type Nbin = Option<seq<Byte>>

  // ---------------------------------------------------------------- fixed-width integers

  function DecodeU16(buf: seq<Byte>): (v: U16)
    requires |buf| >= 2
    ensures v == LeValue(buf[..2])
  {
    LeValuePrefix(buf, 2);
    buf[1] as int * 0x100 + buf[0]
  }

  function DecodeU24(buf: seq<Byte>): (v: U32)
    requires |buf| >= 3
    ensures v == LeValue(buf[..3]) && v < 0x100_0000
  {
    LeValuePrefix(buf, 3);
    (buf[2] as int * 0x100 + buf[1]) * 0x100 + buf[0]
  }

  function DecodeU32(buf: seq<Byte>): (v: U32)
    requires |buf| >= 4
    ensures v == LeValue(buf[..4])
  {
    LeValuePrefix(buf, 4);
    ((buf[3] as int * 0x100 + buf[2]) * 0x100 + buf[1]) * 0x100 + buf[0]
  }

  /** The Go shift-and-OR expressions of the decoders, written in Horner form. */
  lemma LeValuePrefix(buf: seq<Byte>, n: nat)
    requires 2 <= n <= 4 && |buf| >= n
    ensures n == 2 ==> LeValue(buf[..2]) == buf[1] as int * 0x100 + buf[0] < 0x1_0000
    ensures n == 3 ==> LeValue(buf[..3]) == (buf[2] as int * 0x100 + buf[1]) * 0x100 + buf[0] < 0x100_0000
    ensures n == 4 ==> LeValue(buf[..4]) == ((buf[3] as int * 0x100 + buf[2]) * 0x100 + buf[1]) * 0x100 + buf[0]
                                         < 0x1_0000_0000
  {
    Pow256Values();
    var p := buf[..n];
    assert LeValue(buf[n - 1..n]) == buf[n - 1] by {
      assert buf[n - 1..n][1..] == [];
    }
    assert p[1..] == buf[1..n] && buf[1..n][1..] == buf[2..n];
    if n >= 3 {
      assert buf[2..n][1..] == buf[3..n];
    }
    if n == 4 {
      assert LeValue(buf[2..4]) == buf[2] + 0x100 * buf[3] as int by {
        assert buf[2..4][1..] == buf[3..4];
      }
    }
  }

  /** DecodeU64 ORs byte ii in at bit 8*ii; for ii >= 8 the shift leaves nothing, so only the
      first eight bytes count.  The bytes occupy disjoint bits, so the OR is an addition. */
  method DecodeU64(buf: seq<Byte>) returns (rv: U64)
    ensures rv == LeValue(buf[..if |buf| < 8 then |buf| else 8])
  {
    Pow256Values();
    rv := 0;
    var ii := 0;
    while ii < |buf|
      invariant 0 <= ii <= |buf|
      invariant rv == LeValue(buf[..if ii < 8 then ii else 8])
    {
      if ii < 8 {
        LeValueSnoc(buf[..ii], buf[ii]);
        assert buf[..ii + 1] == buf[..ii] + [buf[ii]];
        Pow256Monotone(ii + 1, 8);
        rv := rv + buf[ii] as int * Pow256(ii);
      }
      ii := ii + 1;
    }
  }

  /** EncodeU16: byte(val), byte(val >> 8). */
  function EncodeU16(val: U16): (r: seq<Byte>)
    ensures r == LeBytes(val, 2)
  {
    [val % 0x100, (val / 0x100) % 0x100]
  }

  /** EncodeU24 keeps the three low-order bytes of a uint32. */
  function EncodeU24(val: U32): (r: seq<Byte>)
    ensures r == LeBytes(val, 3)
  {
    LeBytesUnfold(val);
    [val % 0x100, (val / 0x100) % 0x100, (val / 0x100 / 0x100) % 0x100]
  }

  function EncodeU32(val: U32): (r: seq<Byte>)
    ensures r == LeBytes(val, 4)
  {
    LeBytesUnfold(val);
    [val % 0x100, (val / 0x100) % 0x100, (val / 0x100 / 0x100) % 0x100, (val / 0x100 / 0x100 / 0x100) % 0x100]
  }

  lemma LeBytesUnfold(v: nat)
    ensures LeBytes(v, 3) == [v % 0x100, (v / 0x100) % 0x100, (v / 0x100 / 0x100) % 0x100]
    ensures LeBytes(v, 4) == [v % 0x100, (v / 0x100) % 0x100, (v / 0x100 / 0x100) % 0x100,
                              (v / 0x100 / 0x100 / 0x100) % 0x100]
  {
    var w := v / 0x100 / 0x100;
    assert LeBytes(w, 2) == [w % 0x100, (w / 0x100) % 0x100];
    assert LeBytes(w, 1) == [w % 0x100];
  }

  /** EncodeU64 stores byte ii of val, that is val >> 8*ii truncated, at index ii. */
  method EncodeU64(val: U64) returns (r: seq<Byte>)
    ensures r == LeBytes(val, 8)
  {
    var buf := new Byte[8];
    for ii := 0 to 8
      invariant forall j :: 0 <= j < ii ==> buf[j] == LeBytes(val, 8)[j]
    {
      LeBytesAt(val, 8, ii);
      buf[ii] := (val / Pow256(ii)) % 0x100;
    }
    r := buf[..];
  }

  lemma DecodeEncodeU16(v: U16)
    ensures DecodeU16(EncodeU16(v)) == v
  {
    Pow256Values();
    LeValueOfLeBytes(v, 2);
  }

  /** Values below 2^24 survive a U24 round trip. */
  lemma DecodeEncodeU24(v: U32)
    requires v < 0x100_0000
    ensures DecodeU24(EncodeU24(v)) == v
  {
    Pow256Values();
    LeValueOfLeBytes(v, 3);
  }

  lemma DecodeEncodeU32(v: U32)
    ensures DecodeU32(EncodeU32(v)) == v
  {
    Pow256Values();
    LeValueOfLeBytes(v, 4);
  }

  /** Encoding what was decoded gives back the bytes. */
  lemma EncodeDecodeU32(buf: seq<Byte>)
    requires |buf| == 4
    ensures EncodeU32(DecodeU32(buf)) == buf
  {
    LeBytesOfLeValue(buf);
    assert buf[..4] == buf;
  }

  // ---------------------------------------------------------------- stream reads

  /** readFull on a buffer of n bytes. */
  function ReadN(s: seq<Byte>, n: nat): (r: Result<Got<seq<Byte>>, Error>)
    ensures r.Ok? <==> n <= |s|
    ensures r.Ok? ==> r.value.value == s[..n] && r.value.rest == s[n..]
    ensures r.Err? ==> r.error == UnexpectedEof
  {
    if |s| < n then Err(UnexpectedEof) else Ok(Got(s[..n], s[n..]))
  }

  function ReadByte(s: seq<Byte>): (r: Result<Got<Byte>, Error>)
    ensures r.Ok? <==> s != []
    ensures r.Ok? ==> r.value.value == s[0] && r.value.rest == s[1..]
    ensures r.Err? ==> r.error == UnexpectedEof
  {
    if s == [] then Err(UnexpectedEof) else Ok(Got(s[0], s[1..]))
  }

  function ReadU16(s: seq<Byte>): (r: Result<Got<U16>, Error>)
    ensures r.Ok? <==> |s| >= 2
    ensures r.Ok? ==> r.value == Got(LeValue(s[..2]), s[2..])
    ensures r.Err? ==> r.error == UnexpectedEof
  {
    var b :- ReadN(s, 2);
    assert b.value[..2] == s[..2];
    Ok(Got(DecodeU16(b.value), b.rest))
  }

  /** Reading |a| bytes of a + b gives a and leaves b. */
  lemma ReadNWritten(a: seq<Byte>, b: seq<Byte>)
    ensures ReadN(a + b, |a|) == Ok(Got(a, b))
  {
    assert (a + b)[..|a|] == a && (a + b)[|a|..] == b;
  }

  /** readU16 reads back what writeU16 wrote. */
  lemma ReadU16Written(v: U16, b: seq<Byte>)
    ensures ReadU16(EncodeU16(v) + b) == Ok(Got(v, b))
  {
    DecodeEncodeU16(v);
    ReadNWritten(EncodeU16(v), b);
  }

  function ReadU24(s: seq<Byte>): (r: Result<Got<U32>, Error>)
    ensures r.Ok? <==> |s| >= 3
    ensures r.Ok? ==> r.value == Got(LeValue(s[..3]), s[3..])
    ensures r.Err? ==> r.error == UnexpectedEof
  {
    var b :- ReadN(s, 3);
    assert b.value[..3] == s[..3];
    Ok(Got(DecodeU24(b.value), b.rest))
  }

  function ReadU32(s: seq<Byte>): (r: Result<Got<U32>, Error>)
    ensures r.Ok? <==> |s| >= 4
    ensures r.Ok? ==> r.value == Got(LeValue(s[..4]), s[4..])
    ensures r.Err? ==> r.error == UnexpectedEof
  {
    var b :- ReadN(s, 4);
    assert b.value[..4] == s[..4];
    Ok(Got(DecodeU32(b.value), b.rest))
  }

  /** readU64: eight bytes through DecodeU64, whose result is LeValue of the eight bytes. */
  function ReadU64(s: seq<Byte>): (r: Result<Got<U64>, Error>)
    ensures r.Ok? <==> |s| >= 8
    ensures r.Ok? ==> r.value == Got(LeValue(s[..8]), s[8..])
    ensures r.Err? ==> r.error == UnexpectedEof
  {
    var b :- ReadN(s, 8);
    Ok(Got(LeValue(b.value), b.rest))
  }

  // ---------------------------------------------------------------- length-coded binary

  /** readNu64: 251 is NULL; 252, 253 and 254 announce a 2, 3 and 8 byte value; any other
      byte, 255 included, is the value itself. */
  function ReadNu64(s: seq<Byte>): (r: Result<Got<Option<U64>>, Error>)
    ensures s != [] && s[0] == NullTag ==> r == Ok(Got(None, s[1..]))
    ensures s != [] && s[0] < 251 ==> r == Ok(Got(Some(s[0]), s[1..]))
    ensures r.Err? ==> r.error == UnexpectedEof
  {
    var b :- ReadByte(s);
    if b.value == NullTag then Ok(Got(None, b.rest))
    else if b.value == 252 then
      var x :- ReadU16(b.rest);
      Ok(Got(Some(x.value), x.rest))
    else if b.value == 253 then
      var x :- ReadU24(b.rest);
      Ok(Got(Some(x.value), x.rest))
    else if b.value == 254 then
      var x :- ReadU64(b.rest);
      Ok(Got(Some(x.value), x.rest))
    else Ok(Got(Some(b.value), b.rest))
  }

  /** readNotNullU64: a NULL is the UNEXP_NULL_LCB_ERROR panic. */
  function ReadNotNullU64(s: seq<Byte>): (r: Result<Got<U64>, Error>)
    ensures s != [] && s[0] == NullTag ==> r == Err(UnexpNullLcb)
    ensures r.Ok? <==> ReadNu64(s).Ok? && ReadNu64(s).value.value.Some?
    ensures r.Ok? ==> r.value == Got(ReadNu64(s).value.value.value, ReadNu64(s).value.rest)
    ensures r.Err? ==> r.error in {UnexpectedEof, UnexpNullLcb}
  {
    var nu :- ReadNu64(s);
    match nu.value
    case None => Err(UnexpNullLcb)
    case Some(v) => Ok(Got(v, nu.rest))
  }

  function LenLCB(val: U64): (n: nat)
  {
    if val <= 250 then 1
    else if val <= 0xffff then 3
    else if val <= 0xff_ffff then 4
    else 9
  }

  /** writeLCB: the value itself up to 250, else a 252, 253 or 254 tag and 2, 3 or 8 bytes.
      The eight bytes are what EncodeU64 is proved to produce. */
  function WriteLCB(val: U64): (r: seq<Byte>)
    ensures |r| == LenLCB(val)
  {
    if val <= 250 then [val]
    else if val <= 0xffff then [252] + EncodeU16(val)
    else if val <= 0xff_ffff then [253] + EncodeU24(val)
    else [254] + LeBytes(val, 8)
  }

  /** The bytes writeLCB chooses: the value itself up to 250, else a 252, 253 or 254 tag and
      the value in 2, 3 or 8 little-endian bytes. */
  lemma WriteLCBBytes(val: U64)
    ensures val <= 250 ==> WriteLCB(val) == [val]
    ensures 250 < val <= 0xffff ==> WriteLCB(val) == [252] + LeBytes(val, 2)
    ensures 0xffff < val <= 0xff_ffff ==> WriteLCB(val) == [253] + LeBytes(val, 3)
    ensures 0xff_ffff < val ==> WriteLCB(val) == [254] + LeBytes(val, 8)
  {
  }

  function WriteNu64(nu: Option<U64>): (r: seq<Byte>)
    ensures |r| == LenNu64(nu)
    ensures nu.None? <==> r == [NullTag]
  {
    match nu
    case None => [NullTag]
    case Some(v) => WriteLCB(v)
  }

  function LenNu64(nu: Option<U64>): (n: nat)
  {
    match nu
    case None => 1
    case Some(v) => LenLCB(v)
  }

  /** readNu64 reads back what writeNu64 wrote, NULL included, and leaves the rest. */
  lemma ReadWriteNu64(nu: Option<U64>, rest: seq<Byte>)
    ensures ReadNu64(WriteNu64(nu) + rest) == Ok(Got(nu, rest))
  {
    var w := WriteNu64(nu);
    var s := w + rest;
    if nu.Some? {
      var v := nu.value;
      if 250 < v <= 0xffff {
        assert s[1..] == LeBytes(v, 2) + rest;
        assert s[1..][..2] == LeBytes(v, 2);
        LeValueOfLeBytes(v, 2);
      } else if 0xffff < v <= 0xff_ffff {
        assert s[1..] == LeBytes(v, 3) + rest;
        assert s[1..][..3] == LeBytes(v, 3);
        LeValueOfLeBytes(v, 3);
      } else if 0xff_ffff < v {
        assert s[1..] == LeBytes(v, 8) + rest;
        assert s[1..][..8] == LeBytes(v, 8);
        LeValueOfLeBytes(v, 8);
      }
    }
  }

  // ---------------------------------------------------------------- Nbin / Nstr

  /** readNbin (and readNstr): a length-coded length, then that many bytes; NULL is nil. */
  function ReadNbin(s: seq<Byte>): (r: Result<Got<Nbin>, Error>)
    ensures s != [] && s[0] == NullTag ==> r == Ok(Got(None, s[1..]))
    ensures r.Err? ==> r.error == UnexpectedEof
  {
    var nu :- ReadNu64(s);
    match nu.value
    case None => Ok(Got(None, nu.rest))
    case Some(n) =>
      var data :- ReadN(nu.rest, n);
      Ok(Got(Some(data.value), data.rest))
  }

  /** readNotNullBin (and readNotNullStr): a NULL is the UNEXP_NULL_LCS_ERROR panic. */
  function ReadNotNullBin(s: seq<Byte>): (r: Result<Got<seq<Byte>>, Error>)
    ensures s != [] && s[0] == NullTag ==> r == Err(UnexpNullLcs)
    ensures r.Ok? <==> ReadNbin(s).Ok? && ReadNbin(s).value.value.Some?
    ensures r.Ok? ==> r.value == Got(ReadNbin(s).value.value.value, ReadNbin(s).value.rest)
    ensures r.Err? ==> r.error in {UnexpectedEof, UnexpNullLcs}
  {
    var nb :- ReadNbin(s);
    match nb.value
    case None => Err(UnexpNullLcs)
    case Some(b) => Ok(Got(b, nb.rest))
  }

  /** writeNbin (and writeNstr): 251 for nil, else the length as an LCB and the bytes.  Go
      converts the length with uint64(len(...)). */
  function WriteNbin(nb: Nbin): (r: seq<Byte>)
    ensures |r| == LenNbin(nb)
    ensures nb.None? ==> r == [NullTag]
    ensures nb.Some? ==> r == WriteLCB(ToU64(|nb.value|)) + nb.value
  {
    match nb
    case None => [NullTag]
    case Some(b) => WriteLCB(ToU64(|b|)) + b
  }

  function LenNbin(nb: Nbin): (n: nat)
  {
    match nb
    case None => 1
    case Some(b) => LenLCB(ToU64(|b|)) + |b|
  }

  /** writeLCB picks one byte up to 250 and otherwise a tag followed by 2, 3 or 8 bytes. */
  lemma LenLCBSizes(val: U64)
    ensures LenLCB(val) == 1 <==> val <= 250
    ensures LenLCB(val) > 1 ==> LenLCB(val) - 1 == 2 || LenLCB(val) - 1 == 3 || LenLCB(val) - 1 == 8
  {
  }

  /** writeNu64 writes one byte for NULL and for values up to 250, and at most nine. */
  lemma LenNu64Sizes(nu: Option<U64>)
    ensures 1 <= LenNu64(nu) <= 9
    ensures LenNu64(nu) == 1 <==> nu.None? || nu.value <= 250
  {
  }

  /** writeNbin adds between one and nine bytes of length to the data; NULL is one byte. */
  lemma LenNbinSizes(nb: Nbin)
    ensures nb.None? ==> LenNbin(nb) == 1
    ensures nb.Some? ==> |nb.value| < LenNbin(nb) <= |nb.value| + 9
  {
  }

  /** readNbin reads back what writeNbin wrote. */
  lemma ReadWriteNbin(nb: Nbin, rest: seq<Byte>)
    requires nb.Some? ==> |nb.value| < 0x1_0000_0000_0000_0000
    ensures ReadNbin(WriteNbin(nb) + rest) == Ok(Got(nb, rest))
  {
    if nb.Some? {
      var b := nb.value;
      ReadWriteNu64(Some(|b|), b + rest);
      assert WriteNbin(nb) + rest == WriteNu64(Some(|b|)) + (b + rest);
      assert (b + rest)[..|b|] == b && (b + rest)[|b|..] == rest;
    }
  }

  // ---------------------------------------------------------------- writeLC / lenLC

  /** writeLC: []byte and string as present values, *[]byte and *string as nullable ones; any
      other type panics. */
  function WriteLC(v: Any): (r: Result<seq<Byte>, Error>)
    ensures r.Err? <==> v.Other?
    ensures r.Err? ==> r.error == UnknownType
  {
    match v
    case Bin(b) => Ok(WriteNbin(Some(b)))
    case Str(b) => Ok(WriteNbin(Some(b)))
    case BinPtr(nb) => Ok(WriteNbin(nb))
    case StrPtr(nb) => Ok(WriteNbin(nb))
    case Other => Err(UnknownType)
  }

  function LenLC(v: Any): (r: Result<nat, Error>)
    ensures r.Err? <==> v.Other?
  {
    match v
    case Bin(b) => Ok(LenNbin(Some(b)))
    case Str(b) => Ok(LenNbin(Some(b)))
    case BinPtr(nb) => Ok(LenNbin(nb))
    case StrPtr(nb) => Ok(LenNbin(nb))
    case Other => Err(UnknownType)
  }

  /** lenLC is the number of bytes writeLC writes; a string and a []byte with the same bytes
      are written alike. */
  lemma LenLCOfWriteLC(v: Any)
    ensures LenLC(v).Ok? <==> WriteLC(v).Ok?
    ensures WriteLC(v).Ok? ==> LenLC(v).value == |WriteLC(v).value|
    ensures v.Bin? ==> WriteLC(v) == WriteLC(Str(v.bin))
    ensures v.BinPtr? ==> WriteLC(v) == WriteLC(StrPtr(v.nbin))
  {
  }

  // ---------------------------------------------------------------- NUL-terminated

  /** readNTB: the bytes before the first 0, which is consumed; a stream without a 0 ends in
      io.ErrUnexpectedEOF. */
  method ReadNTB(s: seq<Byte>) returns (r: Result<Got<seq<Byte>>, Error>)
    ensures r.Ok? ==> s == r.value.value + [0] + r.value.rest && NulFree(r.value.value)
    ensures r.Err? ==> r.error == UnexpectedEof && NulFree(s)
  {
    var bb: seq<Byte> := [];
    var ii := 0;
    while true
      invariant 0 <= ii <= |s| && bb == s[..ii] && NulFree(bb)
      decreases |s| - ii
    {
      if ii == |s| {
        return Err(UnexpectedEof);
      }
      var ch := s[ii];
      if ch == 0 {
        assert s == bb + [0] + s[ii + 1..];
        return Ok(Got(bb, s[ii + 1..]));
      }
      bb := bb + [ch];
      ii := ii + 1;
    }
  }

  predicate NulFree(b: seq<Byte>)
  {
    forall i :: 0 <= i < |b| ==> b[i] != 0
  }

  /** The split at the first NUL is unique, so readNTB of writeNTB(b) + rest gives b back
      whenever b holds no NUL. */
  lemma {:induction false} NulSplitUnique(b1: seq<Byte>, r1: seq<Byte>, b2: seq<Byte>, r2: seq<Byte>)
    requires b1 + [0] + r1 == b2 + [0] + r2
    requires NulFree(b1) && NulFree(b2)
    ensures b1 == b2 && r1 == r2
  {
    var s := b1 + [0] + r1;
    if |b1| < |b2| {
      ZeroAt(b1, r1);
      assert false;
    } else if |b2| < |b1| {
      ZeroAt(b2, r2);
      assert false;
    }
    assert b1 == s[..|b1|] == b2;
    assert r1 == s[|b1| + 1..] == r2;
  }

  lemma ZeroAt(b: seq<Byte>, r: seq<Byte>)
    ensures (b + [0] + r)[|b|] == 0
  {
  }

  /** writeNTB (and writeNTS): the bytes and one 0. */
  function WriteNTB(buf: seq<Byte>): (r: seq<Byte>)
    ensures |r| == |buf| + 1 && r[..|buf|] == buf && r[|buf|] == 0
  {
    buf + [0]
  }

  /** writeNT: []byte or string, anything else panics. */
  function WriteNT(v: Any): (r: Result<seq<Byte>, Error>)
    ensures r.Ok? <==> v.Bin? || v.Str?
    ensures v.Bin? ==> r == Ok(v.bin + [0])
    ensures v.Str? ==> r == Ok(v.str + [0])
  {
    match v
    case Bin(b) => Ok(WriteNTB(b))
    case Str(b) => Ok(WriteNTB(b))
    case _ => Err(UnknownType)
  }
}
