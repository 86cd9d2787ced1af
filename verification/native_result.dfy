/** The response side of the native engine (native/result.go): the Result of a command, the
    classifier getResult, which reads packets until it has an answer, and the decoder of each
    kind of packet.  The connection is the queue of packet payloads it has still to deliver,
    each payload one whole wire packet, and the status word of the last OK or EOF packet; the
    framing and sequence checks under it are those of NativePacket.  A panic of the Go code
    is an Err, and the packet that caused it counts as consumed. */
module NativeResult {
  import opened Wrappers
  import opened Bytes
  import opened Errors
  import opened Consts
  import opened NativeCodecs
  import opened NativeTime
  import opened MysqlTypes
  import opened MysqlRow

  /** mysql.Field, the column definition of a result set. */
  datatype Field = Field(catalog: seq<Byte>, db: seq<Byte>, table: seq<Byte>, orgTable: seq<Byte>,
                         name: seq<Byte>, orgName: seq<Byte>,
                         dispLen: U32, typ: Byte, flags: U16, scale: Byte)

  /** The value of a Result: its fields in the order of the Go struct. */
  datatype ResState = ResState(binary: bool, fieldCount: int, fields: seq<Option<Field>>,
                               fcMap: map<seq<Byte>, int>, message: seq<Byte>,
                               affectedRows: U64, insertId: U64, warningCount: int,
                               status: U16, fieldEof: bool, rowDataEof: bool)

  /** What getResult keeps true of a result: the first field_count fields are known, and
      the name map points at them. */
  predicate Valid(s: ResState)
  {
    && 0 <= s.fieldCount <= |s.fields|
    && (forall i :: 0 <= i < s.fieldCount ==> s.fields[i].Some?)
    && (forall n :: n in s.fcMap ==> 0 <= s.fcMap[n] < s.fieldCount)
  }

  class QueryResult {
    var binary: bool
    var fieldCount: int
    var fields: seq<Option<Field>>
    var fcMap: map<seq<Byte>, int>
    var message: seq<Byte>
    var affectedRows: U64
    var insertId: U64
    var warningCount: int
    var status: U16
    var fieldEof: bool
    var rowDataEof: bool

    constructor (s: ResState)
      ensures State() == s
    {
      binary, fieldCount, fields, fcMap, message := s.binary, s.fieldCount, s.fields, s.fcMap, s.message;
      affectedRows, insertId, warningCount, status := s.affectedRows, s.insertId, s.warningCount, s.status;
      fieldEof, rowDataEof := s.fieldEof, s.rowDataEof;
    }

    function State(): ResState
      reads this
    {
      ResState(binary, fieldCount, fields, fcMap, message, affectedRows, insertId, warningCount,
               status, fieldEof, rowDataEof)
    }

    /** Result.Map: the column number recorded for a name, or -1 for a name never seen. */
    function Map(fieldName: seq<Byte>): (fi: int)
      reads this
      ensures fieldName in fcMap ==> fi == fcMap[fieldName]
      ensures fieldName !in fcMap ==> fi == -1
      ensures Valid(State()) ==> -1 <= fi < fieldCount && (fi >= 0 <==> fieldName in fcMap)
    {
      if fieldName in fcMap then fcMap[fieldName] else -1
    }
  }

  /** The part of the connection getResult uses. */
  class Conn {
    var packets: seq<seq<Byte>>
    var status: U16

    constructor (ps: seq<seq<Byte>>, st: U16)
      ensures packets == ps && status == st
    {
      packets, status := ps, st;
    }
  }

  // ---------------------------------------------------------------- packet decoders

  /** checkEof: nothing may be left of the packet. */
  function CheckEof<T>(g: Got<T>): (r: Result<T, Error>)
    ensures r.Ok? <==> g.rest == []
    ensures r.Ok? ==> r.value == g.value
    ensures r.Err? ==> r.error == PktLong
  {
    if g.rest != [] then Err(PktLong) else Ok(g.value)
  }

  /** getErrorPacket, after the 255: the error code, a '#', the five characters of the SQL
      state and the message.  It always panics. */
  function ErrorPacket(p: seq<Byte>): (e: Error)
    requires p != []
    ensures e.ServerError? <==> |p| >= 9 && p[3] == '#' as int
    ensures e.ServerError? ==> e.code == LeValue(p[1..3]) && e.msg == p[9..]
    ensures e == PktError <==> |p| >= 4 && p[3] != '#' as int
    ensures e.ServerError? || e == PktError || e == UnexpectedEof
  {
    match ReadU16(p[1..])
    case Err(e) => e
    case Ok(code) =>
      match ReadByte(code.rest)
      case Err(e) => e
      case Ok(h) =>
        if h.value != '#' as int then PktError
        else
          match ReadN(h.rest, 5)
          case Err(e) => e
          case Ok(state) => ServerError(code.value, state.rest)
  }

  /** The fields of an OK packet. */
  datatype OkInfo = OkInfo(affectedRows: U64, insertId: U64, status: U16, warningCount: U16,
                           message: seq<Byte>)

  /** getOkPacket, after the 0, and the status it leaves on the connection: the status is
      stored as soon as it is read, so a packet cut short after it still changes it. */
  datatype OkOut = OkOut(r: Result<OkInfo, Error>, status: Option<U16>)

  function OkPacket(p: seq<Byte>): (o: OkOut)
    requires p != []
    ensures o.r.Ok? ==> o.status == Some(o.r.value.status)
    ensures o.r.Err? ==> o.r.error in {UnexpectedEof, UnexpNullLcb}
  {
    match ReadNotNullU64(p[1..])
    case Err(e) => OkOut(Err(e), None)
    case Ok(a) =>
      match ReadNotNullU64(a.rest)
      case Err(e) => OkOut(Err(e), None)
      case Ok(i) =>
        match ReadU16(i.rest)
        case Err(e) => OkOut(Err(e), None)
        case Ok(st) =>
          match ReadU16(st.rest)
          case Err(e) => OkOut(Err(e), Some(st.value))
          case Ok(w) => OkOut(Ok(OkInfo(a.value, i.value, st.value, w.value, w.rest)), Some(st.value))
  }

  /** getEofPacket, after the 254: the warning count and the status, then the packet's end. */
  function EofPacket(p: seq<Byte>): (r: Result<(U16, U16), Error>)
    requires p != []
    ensures r.Ok? <==> |p| == 5
    ensures r.Ok? ==> r.value == (LeValue(p[1..3]), LeValue(p[3..5]))
    ensures r.Err? ==> r.error in {UnexpectedEof, PktLong}
  {
    var w :- ReadU16(p[1..]);
    var s :- ReadU16(w.rest);
    assert s.rest == p[5..];
    assert p[1..][..2] == p[1..3] && p[3..][..2] == p[3..5];
    CheckEof(Got((w.value, s.value), s.rest))
  }

  /** getResSetHeadPacket, with the first byte put back: the field count, then the packet's
      end.  A first byte below 251 is the count itself. */
  function HeaderPacket(p: seq<Byte>): (r: Result<int, Error>)
    ensures r.Ok? ==> r.value >= 0
    ensures p != [] && 0 < p[0] < 251 ==> (r.Ok? <==> |p| == 1)
    ensures p != [] && 0 < p[0] < 251 && r.Ok? ==> r.value == p[0]
    ensures p != [] && 0 < p[0] < 251 && r.Err? ==> r.error == PktLong
  {
    var fc :- ReadNotNullU64(p);
    var n := ToI64(fc.value);
    if fc.rest != [] then Err(PktLong)
    else if n < 0 then Err(IndexOutOfRange)     // make() of a negative length
    else Ok(n)
  }

  /** n length-coded strings, none of them NULL (readNotNullStr n times). */
  function ReadStrs(s: seq<Byte>, n: nat): (r: Result<Got<seq<seq<Byte>>>, Error>)
    ensures r.Ok? ==> |r.value.value| == n
    ensures r.Err? ==> r.error in {UnexpectedEof, UnexpNullLcs}
    decreases n
  {
    if n == 0 then Ok(Got([], s))
    else
      var first :- ReadNotNullBin(s);
      var others :- ReadStrs(first.rest, n - 1);
      Ok(Got([first.value] + others.value, others.rest))
  }

  /** getFieldPacket, with the first byte put back: six length-coded strings (catalog,
      database, table, original table, name, original name), three bytes skipped (the
      character set and a filler), the display length, the type, the flags, the scale, two
      more bytes skipped, then the packet's end. */
  function FieldPacket(p: seq<Byte>): (r: Result<Field, Error>)
    ensures r.Err? ==> r.error in {UnexpectedEof, UnexpNullLcs, PktLong}
  {
    var names :- ReadStrs(p, 6);
    var charset :- ReadN(names.rest, 1 + 2);
    var dispLen :- ReadU32(charset.rest);
    var typ :- ReadByte(dispLen.rest);
    var flags :- ReadU16(typ.rest);
    var scale :- ReadByte(flags.rest);
    var filler :- ReadN(scale.rest, 2);
    var n := names.value;
    CheckEof(Got(Field(n[0], n[1], n[2], n[3], n[4], n[5], dispLen.value, typ.value, flags.value, scale.value),
                 filler.rest))
  }

  /** Strings written one after the other as length-coded strings. */
  function StrsBytes(ss: seq<seq<Byte>>): seq<Byte>
  {
    if ss == [] then [] else WriteNbin(Some(ss[0])) + StrsBytes(ss[1..])
  }

  /** A column definition packet as a server writes it. */
  function FieldBytes(f: Field, charset: seq<Byte>, filler: seq<Byte>): seq<Byte>
  {
    StrsBytes([f.catalog, f.db, f.table, f.orgTable, f.name, f.orgName])
    + (charset + LeBytes(f.dispLen, 4) + [f.typ] + LeBytes(f.flags, 2) + [f.scale] + filler)
  }

  /** Strings written as length-coded strings read back. */
  lemma {:induction false} ReadStrsOf(ss: seq<seq<Byte>>, rest: seq<Byte>)
    requires forall i :: 0 <= i < |ss| ==> |ss[i]| < 0x1_0000_0000_0000_0000
    ensures ReadStrs(StrsBytes(ss) + rest, |ss|) == Ok(Got(ss, rest))
    decreases |ss|
  {
    if ss == [] {
      assert StrsBytes(ss) + rest == rest;
    } else {
      ReadStrsOf(ss[1..], rest);
      ReadStrsOfStep(ss, rest);
    }
  }

  /** The induction step of ReadStrsOf: the first string, then the others. */
  lemma ReadStrsOfStep(ss: seq<seq<Byte>>, rest: seq<Byte>)
    requires ss != [] && |ss[0]| < 0x1_0000_0000_0000_0000
    requires ReadStrs(StrsBytes(ss[1..]) + rest, |ss[1..]|) == Ok(Got(ss[1..], rest))
    ensures ReadStrs(StrsBytes(ss) + rest, |ss|) == Ok(Got(ss, rest))
  {
    var tail := StrsBytes(ss[1..]) + rest;
    StrsBytesCons(ss, rest);
    ReadWriteNbin(Some(ss[0]), tail);
    ReadStrsCons(StrsBytes(ss) + rest, ss[0], tail, |ss|, ss[1..], rest);
  }

  lemma StrsBytesCons(ss: seq<seq<Byte>>, rest: seq<Byte>)
    requires ss != []
    ensures StrsBytes(ss) + rest == WriteNbin(Some(ss[0])) + (StrsBytes(ss[1..]) + rest)
    ensures [ss[0]] + ss[1..] == ss
  {
    var a, b := WriteNbin(Some(ss[0])), StrsBytes(ss[1..]);
    assert StrsBytes(ss) == a + b;
    Assoc(a, b, rest);
  }


  lemma ReadStrsCons(s: seq<Byte>, x: seq<Byte>, tail: seq<Byte>, n: nat, xs: seq<seq<Byte>>, rest: seq<Byte>)
    requires n > 0
    requires ReadNbin(s) == Ok(Got(Some(x), tail))
    requires ReadStrs(tail, n - 1) == Ok(Got(xs, rest))
    ensures ReadStrs(s, n) == Ok(Got([x] + xs, rest))
  {
    assert ReadNotNullBin(s) == Ok(Got(x, tail));
  }

  // ---------------------------------------------------------------- text rows

  function CellOf(nb: Nbin): Cell
  {
    if nb.None? then CNil else CBytes(nb.value)
  }

  /** The columns still to read of a text row, after those in acc: one readNbin each. */
  function TextCols(s: seq<Byte>, n: nat, acc: Row): (r: Result<Got<Row>, Error>)
    decreases n
  {
    if n == 0 then Ok(Got(acc, s))
    else
      match ReadNbin(s)
      case Err(e) => Err(e)
      case Ok(nb) => TextCols(nb.rest, n - 1, acc + [CellOf(nb.value)])
  }

  /** A text row: field_count length-coded strings, NULL as nil, then the packet's end. */
  function TextRowSpec(p: seq<Byte>, fieldCount: nat): Result<Row, Error>
  {
    var g :- TextCols(p, fieldCount, []);
    CheckEof(g)
  }

  /** getTextRowPacket, with the first byte put back: fills a row of field_count columns. */
  method TextRow(p: seq<Byte>, fieldCount: nat) returns (r: Result<Row, Error>)
    ensures r == TextRowSpec(p, fieldCount)
  {
    var row := new Cell[fieldCount];
    var s := p;
    ghost var left := fieldCount;
    ghost var cells: Row := [];
    ghost var whole := TextCols(p, fieldCount, []);
    for ii := 0 to fieldCount
      invariant left == fieldCount - ii && |cells| == ii
      invariant row[..ii] == cells
      invariant TextCols(s, left, cells) == whole
    {
      var nbin := TextCell(s, left, cells, whole);
      if nbin.Err? {
        return Err(nbin.error);
      }
      var cell := if nbin.value.value.None? then CNil else CBytes(nbin.value.value.value);
      row[ii] := cell;
      left, s, cells := left - 1, nbin.value.rest, cells + [cell];
    }
    assert row[..] == cells;
    r := CheckEof(Got(row[..], s));
  }

  /** One column of a text row (readNbin): the row fails with it, or the rest of the row is
      read from what it leaves. */
  method TextCell(s: seq<Byte>, ghost left: nat, ghost cells: Row, ghost whole: Result<Got<Row>, Error>)
    returns (r: Result<Got<Nbin>, Error>)
    requires left > 0 && TextCols(s, left, cells) == whole
    ensures r.Err? ==> whole == Err(r.error)
    ensures r.Ok? ==> TextCols(r.value.rest, left - 1, cells + [CellOf(r.value.value)]) == whole
  {
    r := ReadNbin(s);
  }

  /** A column that cannot be read fails the text row. */
  lemma TextColsFail(s: seq<Byte>, n: nat, acc: Row, e: Error)
    requires n > 0 && ReadNbin(s) == Err(e)
    ensures TextCols(s, n, acc) == Err(e)
  {
  }

  /** A column that is read adds its cell and leaves the rest of the row to read. */
  lemma TextColsStep(s: seq<Byte>, n: nat, acc: Row, x: Nbin, tail: seq<Byte>)
    requires n > 0 && ReadNbin(s) == Ok(Got(x, tail))
    ensures TextCols(s, n, acc) == TextCols(tail, n - 1, acc + [CellOf(x)])
  {
  }

  /** The bytes of a row of columns written as length-coded strings. */
  function NbinsBytes(vs: seq<Nbin>): seq<Byte>
  {
    if vs == [] then [] else WriteNbin(vs[0]) + NbinsBytes(vs[1..])
  }

  /** The cells a text row holds for the columns vs: nil for NULL, the bytes otherwise. */
  function CellsOf(vs: seq<Nbin>): (cs: Row)
    ensures |cs| == |vs|
  {
    if vs == [] then [] else [CellOf(vs[0])] + CellsOf(vs[1..])
  }

  /** Cell i of CellsOf(vs) is column i. */
  lemma {:induction false} CellsOfAt(vs: seq<Nbin>, i: nat)
    requires i < |vs|
    ensures CellsOf(vs)[i] == CellOf(vs[i])
    decreases |vs|
  {
    if i > 0 {
      CellsOfAt(vs[1..], i - 1);
    }
  }

  predicate Storable(vs: seq<Nbin>)
  {
    forall i :: 0 <= i < |vs| ==> vs[i].Some? ==> |vs[i].value| < 0x1_0000_0000_0000_0000
  }

  /** Reading n columns either fails or gives n more cells. */
  lemma {:induction false} TextColsLength(s: seq<Byte>, n: nat, acc: Row)
    ensures TextCols(s, n, acc).Ok? ==> |TextCols(s, n, acc).value.value| == |acc| + n
    decreases n
  {
    if n > 0 && ReadNbin(s).Ok? {
      TextColsLength(ReadNbin(s).value.rest, n - 1, acc + [CellOf(ReadNbin(s).value.value)]);
    }
  }

  /** A text row reads back the columns a server wrote, NULL as nil. */
  lemma {:induction false} TextColsOf(vs: seq<Nbin>, rest: seq<Byte>, acc: Row)
    requires Storable(vs)
    ensures TextCols(NbinsBytes(vs) + rest, |vs|, acc) == Ok(Got(acc + CellsOf(vs), rest))
    decreases |vs|
  {
    if vs == [] {
      assert NbinsBytes(vs) + rest == rest;
      assert acc + CellsOf(vs) == acc;
    } else {
      StorableTail(vs);
      TextColsOf(vs[1..], rest, acc + [CellOf(vs[0])]);
      TextColsOfStep(vs, rest, acc);
    }
  }

  /** The induction step of TextColsOf: the first column, then the others. */
  lemma TextColsOfStep(vs: seq<Nbin>, rest: seq<Byte>, acc: Row)
    requires vs != [] && Storable(vs)
    requires TextCols(NbinsBytes(vs[1..]) + rest, |vs[1..]|, acc + [CellOf(vs[0])])
          == Ok(Got(acc + [CellOf(vs[0])] + CellsOf(vs[1..]), rest))
    ensures TextCols(NbinsBytes(vs) + rest, |vs|, acc) == Ok(Got(acc + CellsOf(vs), rest))
  {
    NbinsHead(vs, rest);
    CellsCons(vs, acc);
    TextColsCons(NbinsBytes(vs) + rest, vs[0], NbinsBytes(vs[1..]) + rest, |vs|, acc,
                 acc + CellsOf(vs), rest);
  }

  /** The first column written is the first read back. */
  lemma NbinsHead(vs: seq<Nbin>, rest: seq<Byte>)
    requires vs != [] && Storable(vs)
    ensures ReadNbin(NbinsBytes(vs) + rest) == Ok(Got(vs[0], NbinsBytes(vs[1..]) + rest))
  {
    var w, t := WriteNbin(vs[0]), NbinsBytes(vs[1..]);
    assert NbinsBytes(vs) == w + t;
    Assoc(w, t, rest);
    ReadWriteNbin(vs[0], t + rest);
  }

  lemma StorableTail(vs: seq<Nbin>)
    requires vs != [] && Storable(vs)
    ensures Storable(vs[1..])
  {
    forall i | 0 <= i < |vs[1..]| ensures vs[1..][i] == vs[i + 1] { }
  }

  lemma CellsCons(vs: seq<Nbin>, acc: Row)
    requires vs != []
    ensures acc + [CellOf(vs[0])] + CellsOf(vs[1..]) == acc + CellsOf(vs)
  {
    Assoc(acc, [CellOf(vs[0])], CellsOf(vs[1..]));
  }

  lemma TextColsCons(s: seq<Byte>, x: Nbin, tail: seq<Byte>, n: nat, acc: Row, row: Row, rest: seq<Byte>)
    requires n > 0
    requires ReadNbin(s) == Ok(Got(x, tail))
    requires TextCols(tail, n - 1, acc + [CellOf(x)]) == Ok(Got(row, rest))
    ensures TextCols(s, n, acc) == Ok(Got(row, rest))
  {
  }

  /** A text row packet holds exactly its columns: the row has field_count cells, a NULL
      column is nil and a present one its bytes; a byte more is PKT_LONG. */
  lemma TextRowOf(vs: seq<Nbin>)
    requires Storable(vs)
    ensures TextRowSpec(NbinsBytes(vs), |vs|) == Ok(CellsOf(vs))
    ensures TextRowSpec(NbinsBytes(vs) + [0], |vs|) == Err(PktLong)
  {
    var b := NbinsBytes(vs);
    TextColsOf(vs, [], []);
    assert b + [] == b;
    assert [] + CellsOf(vs) == CellsOf(vs);
    assert TextCols(b, |vs|, []) == Ok(Got(CellsOf(vs), []));
    TextColsOf(vs, [0], []);
    assert TextCols(b + [0], |vs|, []) == Ok(Got(CellsOf(vs), [0]));
  }

  // ---------------------------------------------------------------- binary rows

  /** The NULL bitmap of a binary row: (field_count+7+2)>>3 bytes. */
  function BitmapLen(fieldCount: nat): (n: nat)
    ensures fieldCount > 0 ==> (fieldCount - 1 + 2) / 8 < n
  {
    (fieldCount + 7 + 2) / 8
  }

  /** Column ii is NULL iff bit ii+2 of the bitmap is set. */
  predicate IsNull(bitmap: seq<Byte>, ii: nat)
    requires (ii + 2) / 8 < |bitmap|
  {
    HasBit(bitmap[(ii + 2) / 8], (ii + 2) % 8)
  }

  function Signed8(b: Byte): Int8 { if b < 0x80 then b else b - 0x100 }
  function Signed16(v: U16): I16 { if v < 0x8000 then v else v - 0x1_0000 }
  function Signed32(v: U32): Int32 { if v < 0x8000_0000 then v else v - 0x1_0000_0000 }

  predicate IsBinaryString(typ: Byte)
  {
    typ in {TypeString, TypeVarString, TypeDecimal, TypeVarchar, TypeBit, TypeBlob,
            TypeTinyBlob, TypeMediumBlob, TypeLongBlob, TypeSet, TypeEnum}
  }

  /** One non-NULL column of a binary row, decoded by its type; int8(), int16(), int32() and
      int64() reinterpret the bits, and an INT24 is not sign-extended. */
  function BinValue(s: seq<Byte>, f: Field): (r: Result<Got<Cell>, Error>)
    ensures r.Ok? ==> !r.value.value.CNil?
    ensures r.Err? ==> r.error != UnkResultPkt
  {
    var unsigned := HasBit(f.flags, 5);
    if f.typ == TypeTiny then
      var b :- ReadByte(s);
      Ok(Got(if unsigned then CUint8(b.value) else CInt8(Signed8(b.value)), b.rest))
    else if f.typ == TypeShort then
      var v :- ReadU16(s);
      Ok(Got(if unsigned then CUint16(v.value) else CInt16(Signed16(v.value)), v.rest))
    else if f.typ == TypeLong then
      var v :- ReadU32(s);
      Ok(Got(if unsigned then CUint32(v.value) else CInt32(Signed32(v.value)), v.rest))
    else if f.typ == TypeLonglong then
      var v :- ReadU64(s);
      Ok(Got(if unsigned then CUint64(v.value) else CInt64(ToI64(v.value)), v.rest))
    else if f.typ == TypeInt24 then
      var v :- ReadU24(s);
      Ok(Got(if unsigned then CUint32(v.value) else CInt32(v.value), v.rest))
    else if f.typ == TypeFloat then
      var v :- ReadU32(s);
      Ok(Got(CFloat32(v.value), v.rest))
    else if f.typ == TypeDouble then
      var v :- ReadU64(s);
      Ok(Got(CFloat64(v.value), v.rest))
    else if IsBinaryString(f.typ) then
      var b :- ReadNotNullBin(s);
      Ok(Got(CBytes(b.value), b.rest))
    else if f.typ == TypeDate then
      var d :- ReadNotNullDate(s);
      Ok(Got(CDate(d.value), d.rest))
    else if f.typ == TypeDatetime || f.typ == TypeTimestamp then
      var d :- ReadNotNullDatetime(s);
      Ok(Got(CDatetime(d.value), d.rest))
    else if f.typ == TypeTime then
      var t :- ReadNotNullTime(s);
      Ok(Got(CTime(t.value), t.rest))
    else Err(UnkMysqlType)
  }

  predicate AllKnown(fields: seq<Option<Field>>)
  {
    forall i :: 0 <= i < |fields| ==> fields[i].Some?
  }

  /** The columns from ii on of a binary row, after those in acc. */
  function BinCols(s: seq<Byte>, fields: seq<Option<Field>>, bitmap: seq<Byte>, ii: nat, acc: Row)
    : (r: Result<Got<Row>, Error>)
    requires AllKnown(fields) && ii <= |fields| && |bitmap| == BitmapLen(|fields|)
    ensures r.Err? ==> r.error != UnkResultPkt
    decreases |fields| - ii
  {
    if ii == |fields| then Ok(Got(acc, s))
    else if IsNull(bitmap, ii) then BinCols(s, fields, bitmap, ii + 1, acc + [CNil])
    else
      match BinValue(s, fields[ii].value)
      case Err(e) => Err(e)
      case Ok(v) => BinCols(v.rest, fields, bitmap, ii + 1, acc + [v.value])
  }

  /** A binary row, after its first byte: the NULL bitmap, then every non-NULL column.  The
      packet's end is not checked. */
  function BinRowSpec(p: seq<Byte>, fields: seq<Option<Field>>): (r: Result<Row, Error>)
    requires p != [] && AllKnown(fields)
    ensures r.Err? ==> r.error != UnkResultPkt
  {
    var bm :- ReadN(p[1..], BitmapLen(|fields|));
    var g :- BinCols(bm.rest, fields, bm.value, 0, []);
    Ok(g.value)
  }

  /** getBinRowPacket: reads the bitmap, then fills a row column by column. */
  method BinRow(p: seq<Byte>, fields: seq<Option<Field>>) returns (r: Result<Row, Error>)
    requires p != [] && AllKnown(fields)
    ensures r == BinRowSpec(p, fields)
  {
    var bm := ReadN(p[1..], BitmapLen(|fields|));
    if bm.Err? {
      return Err(bm.error);
    }
    var bitmap := bm.value.value;
    var row := new Cell[|fields|];
    var s := bm.value.rest;
    for ii := 0 to |fields|
      invariant BinCols(s, fields, bitmap, ii, row[..ii]) == BinCols(bm.value.rest, fields, bitmap, 0, [])
    {
      if IsNull(bitmap, ii) {
        row[ii] := CNil;
      } else {
        var v := BinValue(s, fields[ii].value);
        if v.Err? {
          return Err(v.error);
        }
        row[ii] := v.value.value;
        s := v.value.rest;
      }
      assert row[..ii + 1] == row[..ii] + [row[ii]];
    }
    assert row[..|fields|] == row[..];
    r := Ok(row[..]);
  }

  /** Reading the columns from ii on keeps the cells before and adds one per column, nil
      exactly where the bitmap says NULL. */
  lemma {:induction false} BinColsNulls(s: seq<Byte>, fields: seq<Option<Field>>, bitmap: seq<Byte>, ii: nat, acc: Row)
    requires AllKnown(fields) && ii <= |fields| && |bitmap| == BitmapLen(|fields|) && |acc| == ii
    ensures var r := BinCols(s, fields, bitmap, ii, acc);
            r.Ok? ==> && |r.value.value| == |fields|
                      && r.value.value[..ii] == acc
                      && forall j :: ii <= j < |fields| ==> (r.value.value[j].CNil? <==> IsNull(bitmap, j))
    decreases |fields| - ii
  {
    if ii < |fields| {
      var next := if IsNull(bitmap, ii) then Ok(Got(CNil, s)) else BinValue(s, fields[ii].value);
      if next.Ok? {
        var c, rest := next.value.value, next.value.rest;
        BinColsStep(s, fields, bitmap, ii, acc, c, rest);
        BinColsNulls(rest, fields, bitmap, ii + 1, acc + [c]);
        NullsCons(BinCols(rest, fields, bitmap, ii + 1, acc + [c]), bitmap, |fields|, ii, acc, c);
      }
    }
  }

  /** The cells read after column ii, with the cell of column ii put in front. */
  lemma NullsCons(r: Result<Got<Row>, Error>, bitmap: seq<Byte>, n: nat, ii: nat, acc: Row, c: Cell)
    requires |bitmap| == BitmapLen(n) && ii < n && |acc| == ii && (c.CNil? <==> IsNull(bitmap, ii))
    requires r.Ok? ==> && |r.value.value| == n
                       && r.value.value[..ii + 1] == acc + [c]
                       && forall j :: ii + 1 <= j < n ==> (r.value.value[j].CNil? <==> IsNull(bitmap, j))
    ensures r.Ok? ==> && |r.value.value| == n
                      && r.value.value[..ii] == acc
                      && forall j :: ii <= j < n ==> (r.value.value[j].CNil? <==> IsNull(bitmap, j))
  {
    if r.Ok? {
      var w := r.value.value;
      assert w[..ii + 1][..ii] == w[..ii];
      assert w[ii] == (acc + [c])[ii];
    }
  }

  /** One column of a binary row: nil when its bit is set, else a non-nil decoded value;
      the rest of the row follows it. */
  lemma BinColsStep(s: seq<Byte>, fields: seq<Option<Field>>, bitmap: seq<Byte>, ii: nat, acc: Row,
                    c: Cell, rest: seq<Byte>)
    requires AllKnown(fields) && ii < |fields| && |bitmap| == BitmapLen(|fields|)
    requires (if IsNull(bitmap, ii) then Ok(Got(CNil, s)) else BinValue(s, fields[ii].value)) == Ok(Got(c, rest))
    ensures c.CNil? <==> IsNull(bitmap, ii)
    ensures BinCols(s, fields, bitmap, ii, acc) == BinCols(rest, fields, bitmap, ii + 1, acc + [c])
  {
  }

  /** A binary row has one cell per field, and column ii is nil iff bit ii+2 of the bitmap
      that follows the first byte is set. */
  lemma BinRowNulls(p: seq<Byte>, fields: seq<Option<Field>>)
    requires p != [] && AllKnown(fields)
    ensures var r := BinRowSpec(p, fields);
            r.Ok? ==> && |p| > BitmapLen(|fields|)
                      && |r.value| == |fields|
                      && forall ii :: 0 <= ii < |fields| ==>
                           (r.value[ii].CNil? <==> IsNull(p[1..1 + BitmapLen(|fields|)], ii))
  {
    var bm := ReadN(p[1..], BitmapLen(|fields|));
    if bm.Ok? {
      assert bm.value.value == p[1..1 + BitmapLen(|fields|)];
      BinColsNulls(bm.value.rest, fields, bm.value.value, 0, []);
    }
  }

  // ---------------------------------------------------------------- getResult

  /** What getResult answers: the current result, or a row of it. */
  datatype Reply = ResReply | RowReply(row: Row)

  /** The effect of one packet: read on (goto loop) with the result it leaves, or stop with
      an answer or a failure, the result and the connection status. */
  datatype StepOut = Next(next: ResState) | Stop(r: Result<Reply, Error>, res: Option<ResState>, status: U16)

  /** The result getResSetHeadPacket creates: field_count empty slots, nothing read yet. */
  function HeaderState(fieldCount: nat): (s: ResState)
    ensures Valid(s) && |s.fields| == fieldCount && s.fieldCount == 0
    ensures !s.fieldEof && !s.rowDataEof && !s.binary
  {
    ResState(false, 0, seq(fieldCount, _ => None), map[], [], 0, 0, 0, 0, false, false)
  }

  /** The result getOkPacket creates. */
  function OkState(info: OkInfo): (s: ResState)
    ensures Valid(s) && s.fields == [] && s.fieldCount == 0
    ensures s.affectedRows == info.affectedRows && s.insertId == info.insertId
    ensures s.status == info.status && s.warningCount == info.warningCount && s.message == info.message
  {
    ResState(false, 0, [], map[], info.message, info.affectedRows, info.insertId, info.warningCount,
             info.status, false, false)
  }

  /** An EOF packet: warning count and status stored; the first one ends the fields, the
      second the rows. */
  function AfterEof(s: ResState, warn: U16, status: U16): (s': ResState)
  {
    s.(warningCount := warn, status := status,
       fieldEof := true, rowDataEof := s.rowDataEof || s.fieldEof)
  }

  /** A field packet: stored in the next free slot, under its name, and counted. */
  function AddField(s: ResState, f: Field): (s': ResState)
    requires Valid(s) && s.fieldCount < |s.fields|
    ensures Valid(s')
  {
    s.(fields := s.fields[s.fieldCount := Some(f)], fcMap := s.fcMap[f.name := s.fieldCount],
       fieldCount := s.fieldCount + 1)
  }

  /** One turn of getResult's loop on the packet p, res being the current result. */
  function Step(p: seq<Byte>, res: Option<ResState>, status: U16): (o: StepOut)
    requires res.Some? ==> Valid(res.value)
    ensures o.Next? ==> Valid(o.next)
    ensures o.Stop? && o.res.Some? ==> Valid(o.res.value)
  {
    if p == [] then Stop(Err(Eof), res, status)
    else if p[0] == 255 then Stop(Err(ErrorPacket(p)), res, status)
    else if res.None? then
      if p[0] == 0 then
        var ok := OkPacket(p);
        var status' := if ok.status.Some? then ok.status.value else status;
        match ok.r
        case Err(e) => Stop(Err(e), None, status')
        case Ok(info) => Stop(Ok(ResReply), Some(OkState(info)), status')
      else if p[0] < 251 then
        match HeaderPacket(p)
        case Err(e) => Stop(Err(e), None, status)
        case Ok(n) => Next(HeaderState(n))
      else Stop(Err(UnkResultPkt), None, status)
    else
      var s := res.value;
      if p[0] == 254 then
        match EofPacket(p)
        case Err(e) => Stop(Err(e), res, status)
        case Ok(ws) => Stop(Ok(ResReply), Some(AfterEof(s, ws.0, ws.1)), ws.1)
      else if 0 < p[0] < 251 && s.fieldCount < |s.fields| then
        match FieldPacket(p)
        case Err(e) => Stop(Err(e), res, status)
        case Ok(f) => Next(AddField(s, f))
      else if p[0] < 254 && s.fieldCount == |s.fields| then
        var row := if s.binary then BinRowSpec(p, s.fields) else TextRowSpec(p, s.fieldCount);
        match row
        case Err(e) => Stop(Err(e), res, status)
        case Ok(cells) => Stop(Ok(RowReply(cells)), res, status)
      else Stop(Err(UnkResultPkt), res, status)
  }

  /** The outcome of getResult: its answer, the packets left, the current result and the
      connection status. */
  datatype Final = Final(r: Result<Reply, Error>, packets: seq<seq<Byte>>, res: Option<ResState>, status: U16)

  /** getResult's loop: one packet per turn until a packet stops it or none is left. */
  function Loop(packets: seq<seq<Byte>>, res: Option<ResState>, status: U16): (f: Final)
    requires res.Some? ==> Valid(res.value)
    ensures f.res.Some? ==> Valid(f.res.value)
    ensures |f.packets| <= |packets|
    decreases |packets|
  {
    if packets == [] then Final(Err(Eof), [], res, status)
    else
      match Step(packets[0], res, status)
      case Stop(r, res', status') => Final(r, packets[1..], res', status')
      case Next(res') => Loop(packets[1..], Some(res'), status)
  }

  /** getResult: a result whose rows have all been read is returned as it is; anything else
      runs the loop. */
  function GetResultSpec(packets: seq<seq<Byte>>, res: Option<ResState>, status: U16): (f: Final)
    requires res.Some? ==> Valid(res.value)
    ensures f.res.Some? ==> Valid(f.res.value)
  {
    if res.Some? && res.value.rowDataEof then Final(Ok(ResReply), packets, res, status)
    else Loop(packets, res, status)
  }

  /** One turn of getResult's loop while there is no result yet: an OK packet makes one and
      stops, a result set header makes an empty one and reads on. */
  method TurnNew(my: Conn, p: seq<Byte>) returns (stop: bool, r: Result<Reply, Error>, cur: QueryResult?)
    requires p != [] && p[0] != 255
    modifies my
    ensures my.packets == old(my.packets)
    ensures var o := Step(p, None, old(my.status));
            && (stop <==> o.Stop?)
            && (o.Next? ==> cur != null && fresh(cur) && cur.State() == o.next && my.status == old(my.status))
            && (o.Stop? ==> && r == o.r && my.status == o.status && (cur == null <==> o.res.None?)
                            && (cur != null ==> fresh(cur) && cur.State() == o.res.value))
  {
    if p[0] == 0 {
      var ok := OkPacket(p);
      if ok.status.Some? {
        my.status := ok.status.value;
      }
      if ok.r.Err? {
        return true, Err(ok.r.error), null;
      }
      cur := new QueryResult(OkState(ok.r.value));
      return true, Ok(ResReply), cur;
    } else if p[0] < 251 {
      var h := HeaderPacket(p);
      if h.Err? {
        return true, Err(h.error), null;
      }
      cur := new QueryResult(HeaderState(h.value));
      return false, Ok(ResReply), cur;
    } else {
      return true, Err(UnkResultPkt), null;
    }
  }

  /** One turn of getResult's loop on the current result cur: an EOF packet, a field packet
      while fields are missing, or a row once they are all read. */
  method TurnCur(my: Conn, cur: QueryResult, p: seq<Byte>) returns (stop: bool, r: Result<Reply, Error>)
    requires p != [] && p[0] != 255 && Valid(cur.State())
    modifies my, cur
    ensures my.packets == old(my.packets)
    ensures var o := Step(p, Some(old(cur.State())), old(my.status));
            && (stop <==> o.Stop?)
            && (o.Next? ==> cur.State() == o.next && my.status == old(my.status))
            && (o.Stop? ==> r == o.r && my.status == o.status && o.res == Some(cur.State()))
  {
    if p[0] == 254 {
      r := TurnEof(my, cur, p);
      return true, r;
    } else if 0 < p[0] < 251 && cur.fieldCount < |cur.fields| {
      stop, r := TurnField(cur, p, my.status);
    } else if p[0] < 254 && cur.fieldCount == |cur.fields| {
      r := TurnRow(cur, p, my.status);
      return true, r;
    } else {
      return true, Err(UnkResultPkt);
    }
  }

  /** An EOF packet on the current result: its warning count and status are stored, in the
      connection too, and the fields' or the rows' end is marked. */
  method TurnEof(my: Conn, cur: QueryResult, p: seq<Byte>) returns (r: Result<Reply, Error>)
    requires p != [] && p[0] == 254 && Valid(cur.State())
    modifies my, cur
    ensures my.packets == old(my.packets)
    ensures var o := Step(p, Some(old(cur.State())), old(my.status));
            o.Stop? && r == o.r && my.status == o.status && o.res == Some(cur.State())
  {
    var e := EofPacket(p);
    if e.Err? {
      return Err(e.error);
    }
    cur.warningCount, cur.status := e.value.0, e.value.1;
    my.status := cur.status;
    if cur.fieldEof {
      cur.rowDataEof := true;
    } else {
      cur.fieldEof := true;
    }
    return Ok(ResReply);
  }

  /** A field packet while fields are missing: stored in the next slot and under its name. */
  method TurnField(cur: QueryResult, p: seq<Byte>, ghost status: U16) returns (stop: bool, r: Result<Reply, Error>)
    requires p != [] && 0 < p[0] < 251 && Valid(cur.State()) && cur.fieldCount < |cur.fields|
    modifies cur
    ensures var o := Step(p, Some(old(cur.State())), status);
              && (stop <==> o.Stop?)
              && (o.Next? ==> cur.State() == o.next)
              && (o.Stop? ==> r == o.r && o.status == status && o.res == Some(cur.State()))
  {
    ghost var s := cur.State();
    var f := FieldPacket(p);
    if f.Err? {
      return true, Err(f.error);
    }
    cur.fields := cur.fields[cur.fieldCount := Some(f.value)];
    cur.fcMap := cur.fcMap[f.value.name := cur.fieldCount];
    cur.fieldCount := cur.fieldCount + 1;
    assert cur.State() == AddField(s, f.value);
    return false, Ok(ResReply);
  }

  /** A row once all fields are read, decoded by the protocol the result was made with. */
  method TurnRow(cur: QueryResult, p: seq<Byte>, ghost status: U16) returns (r: Result<Reply, Error>)
    requires p != [] && p[0] < 254 && Valid(cur.State()) && cur.fieldCount == |cur.fields|
    ensures var o := Step(p, Some(cur.State()), status);
              o.Stop? && r == o.r && o.status == status && o.res == Some(cur.State())
  {
    var row;
    if cur.binary {
      row := BinRow(p, cur.fields);
    } else {
      row := TextRow(p, cur.fieldCount);
    }
    if row.Err? {
      return Err(row.error);
    }
    return Ok(RowReply(row.value));
  }

  /** getResult.  The result it works on is res, or the one it creates; it is returned as
      cur, null when there is none. */
  method GetResult(my: Conn, res: QueryResult?) returns (r: Result<Reply, Error>, cur: QueryResult?)
    requires res != null ==> Valid(res.State())
    modifies my, res
    ensures var f := GetResultSpec(old(my.packets), if res == null then None else Some(old(res.State())),
                                   old(my.status));
            && r == f.r && my.packets == f.packets && my.status == f.status
            && (cur == null <==> f.res.None?)
            && (cur != null ==> cur.State() == f.res.value)
    ensures res != null ==> cur == res
    ensures res == null && cur != null ==> fresh(cur)
  {
    if res != null && res.rowDataEof {
      return Ok(ResReply), res;
    }
    cur := res;
    while true
      invariant cur != null ==> Valid(cur.State())
      invariant res != null ==> cur == res
      invariant res == null && cur != null ==> fresh(cur)
      invariant Loop(my.packets, if cur == null then None else Some(cur.State()), my.status)
             == GetResultSpec(old(my.packets), if res == null then None else Some(old(res.State())),
                              old(my.status))
      decreases |my.packets|
    {
      if my.packets == [] {
        return Err(Eof), cur;
      }
      var p := my.packets[0];
      my.packets := my.packets[1..];
      if p == [] {
        return Err(Eof), cur;
      }
      if p[0] == 255 {
        return Err(ErrorPacket(p)), cur;
      }
      var stop;
      if cur == null {
        stop, r, cur := TurnNew(my, p);
      } else {
        stop, r := TurnCur(my, cur, p);
      }
      if stop {
        return r, cur;
      }
    }
  }

  // ---------------------------------------------------------------- properties

  /** Once the rows' EOF has been seen, getResult reads nothing and changes nothing. */
  lemma RowDataEofReadsNothing(packets: seq<seq<Byte>>, s: ResState, status: U16)
    requires Valid(s) && s.rowDataEof
    ensures GetResultSpec(packets, Some(s), status) == Final(Ok(ResReply), packets, Some(s), status)
  {
  }

  /** Whatever the current result, a packet starting with 255 ends the call with the server's
      error, or PKT_ERROR when the '#' is missing, and changes nothing. */
  lemma ErrorPacketFails(p: seq<Byte>, res: Option<ResState>, status: U16)
    requires res.Some? ==> Valid(res.value)
    requires p != [] && p[0] == 255
    ensures var o := Step(p, res, status);
            && o.Stop? && o.r.Err? && o.res == res && o.status == status
            && (|p| >= 9 && p[3] == '#' as int ==> o.r.error == ServerError(LeValue(p[1..3]), p[9..]))
            && (|p| >= 4 && p[3] != '#' as int ==> o.r.error == PktError)
  {
  }

  /** An error packet as a server writes it reads back as its code and message. */
  lemma ErrorPacketOf(code: U16, state: seq<Byte>, msg: seq<Byte>)
    requires |state| == 5
    ensures ErrorPacket([255] + LeBytes(code, 2) + ['#' as int] + state + msg) == ServerError(code, msg)
  {
    var p := [255] + LeBytes(code, 2) + ['#' as int] + state + msg;
    assert p[1..3] == LeBytes(code, 2) && p[9..] == msg && p[3] == '#' as int;
    LeValueOfLeBytes(code, 2);
  }

  /** An OK packet as a server writes it reads back as its fields, and the status is the
      one it carries. */
  lemma OkPacketOf(info: OkInfo)
    ensures OkPacket([0] + WriteLCB(info.affectedRows) + WriteLCB(info.insertId)
                     + LeBytes(info.status, 2) + LeBytes(info.warningCount, 2) + info.message)
         == OkOut(Ok(info), Some(info.status))
  {
    var a, i := WriteLCB(info.affectedRows), WriteLCB(info.insertId);
    var l1, l2, msg := LeBytes(info.status, 2), LeBytes(info.warningCount, 2), info.message;
    var p := [0] + a + i + l1 + l2 + msg;
    var tail := l1 + l2 + msg;
    assert p[1..] == a + (i + tail) by {
      var x := [0] + a + i;
      Assoc(x + l1, l2, msg);
      Assoc(x, l1, l2 + msg);
      Assoc(l1, l2, msg);
      Assoc([0] + a, i, tail);
      Assoc([0], a, i + tail);
      assert p == [0] + (a + (i + tail));
    }
    assert WriteNu64(Some(info.affectedRows)) == a && WriteNu64(Some(info.insertId)) == i;
    ReadWriteNu64(Some(info.affectedRows), i + tail);
    ReadWriteNu64(Some(info.insertId), tail);
    U16Pair(info.status, info.warningCount, msg, tail);
  }

  /** Two 16-bit words and whatever follows read back. */
  lemma U16Pair(x: U16, y: U16, more: seq<Byte>, t: seq<Byte>)
    requires t == LeBytes(x, 2) + LeBytes(y, 2) + more
    ensures ReadU16(t) == Ok(Got(x, t[2..])) && ReadU16(t[2..]) == Ok(Got(y, more))
  {
    LeValueOfLeBytes(x, 2);
    LeValueOfLeBytes(y, 2);
    assert t[..2] == LeBytes(x, 2) && t[2..][..2] == LeBytes(y, 2) && t[2..][2..] == more;
  }

  /** With no current result, 0 is an OK packet, which answers with a new result and sets
      the connection status; 1 to 250 is a result set header, which creates a result of
      that many empty fields and reads on; anything else but 255 is UNK_RESULT_PKT. */
  lemma NoResultStep(p: seq<Byte>, status: U16)
    requires p != [] && p[0] != 255
    ensures var o := Step(p, None, status);
            && (p[0] == 0 && OkPacket(p).r.Ok? ==>
                  o == Stop(Ok(ResReply), Some(OkState(OkPacket(p).r.value)), OkPacket(p).r.value.status))
            && (0 < p[0] < 251 ==> (o.Next? <==> |p| == 1)
                                   && (o.Next? ==> o.next == HeaderState(p[0])))
            && (p[0] >= 251 ==> o == Stop(Err(UnkResultPkt), None, status))
  {
  }

  /** With a current result, 254 is an EOF packet: the first one sets field_eof, the next
      row_data_eof, and the packet's status goes to the result and to the connection. */
  lemma EofStep(p: seq<Byte>, s: ResState, status: U16)
    requires Valid(s) && p != [] && p[0] == 254 && |p| == 5
    ensures var o := Step(p, Some(s), status);
            && o.Stop? && o.r == Ok(ResReply) && o.res.Some?
            && o.status == LeValue(p[3..5]) == o.res.value.status
            && o.res.value.warningCount == LeValue(p[1..3])
            && o.res.value.fieldEof
            && o.res.value.rowDataEof == (s.fieldEof || s.rowDataEof)
            && o.res.value.fields == s.fields && o.res.value.fcMap == s.fcMap
  {
  }

  /** A field packet is taken only while field_count < len(fields): it fills slot
      field_count, maps its name there, counts one more field and reads on. */
  lemma FieldStep(p: seq<Byte>, s: ResState, status: U16, f: Field)
    requires Valid(s) && p != [] && 0 < p[0] < 251 && s.fieldCount < |s.fields|
    requires FieldPacket(p) == Ok(f)
    ensures var o := Step(p, Some(s), status);
            && o.Next?
            && o.next.fieldCount == s.fieldCount + 1
            && o.next.fields == s.fields[s.fieldCount := Some(f)]
            && o.next.fcMap[f.name] == s.fieldCount
            && (forall n :: n in s.fcMap && n != f.name ==> n in o.next.fcMap && o.next.fcMap[n] == s.fcMap[n])
            && o.next.fieldEof == s.fieldEof && o.next.rowDataEof == s.rowDataEof
  {
  }

  /** A column definition as a server writes it reads back as the field. */
  lemma FieldPacketOf(f: Field, charset: seq<Byte>, filler: seq<Byte>)
    requires |charset| == 3 && |filler| == 2
    requires |f.catalog| < 0x1_0000_0000_0000_0000 && |f.db| < 0x1_0000_0000_0000_0000
    requires |f.table| < 0x1_0000_0000_0000_0000 && |f.orgTable| < 0x1_0000_0000_0000_0000
    requires |f.name| < 0x1_0000_0000_0000_0000 && |f.orgName| < 0x1_0000_0000_0000_0000
    ensures FieldPacket(FieldBytes(f, charset, filler)) == Ok(f)
  {
    var ss := [f.catalog, f.db, f.table, f.orgTable, f.name, f.orgName];
    var fixed := charset + LeBytes(f.dispLen, 4) + [f.typ] + LeBytes(f.flags, 2) + [f.scale] + filler;
    ReadStrsOf(ss, fixed);
    FixedTail(f, charset, filler, fixed);
  }

  /** The fixed-width part of a column definition reads back. */
  lemma FixedTail(f: Field, charset: seq<Byte>, filler: seq<Byte>, fixed: seq<Byte>)
    requires |charset| == 3 && |filler| == 2
    requires fixed == charset + LeBytes(f.dispLen, 4) + [f.typ] + LeBytes(f.flags, 2) + [f.scale] + filler
    ensures ReadN(fixed, 3) == Ok(Got(charset, fixed[3..]))
    ensures ReadU32(fixed[3..]) == Ok(Got(f.dispLen, fixed[7..]))
    ensures ReadByte(fixed[7..]) == Ok(Got(f.typ, fixed[8..]))
    ensures ReadU16(fixed[8..]) == Ok(Got(f.flags, fixed[10..]))
    ensures ReadByte(fixed[10..]) == Ok(Got(f.scale, fixed[11..]))
    ensures ReadN(fixed[11..], 2) == Ok(Got(filler, []))
  {
    LeValueOfLeBytes(f.dispLen, 4);
    LeValueOfLeBytes(f.flags, 2);
    var r4 := [f.scale] + filler;
    var r3 := LeBytes(f.flags, 2) + r4;
    var r2 := [f.typ] + r3;
    var r1 := LeBytes(f.dispLen, 4) + r2;
    FixedNested(f, charset, filler, fixed);
    assert fixed[..3] == charset && fixed[3..] == r1;
    assert r1[..4] == LeBytes(f.dispLen, 4) && r1[4..] == r2 && fixed[7..] == r2;
    assert r2[1..] == r3 && fixed[8..] == r3;
    assert r3[..2] == LeBytes(f.flags, 2) && r3[2..] == r4 && fixed[10..] == r4;
    assert r4[1..] == filler && fixed[11..] == filler && filler[..2] == filler;
  }

  /** The fixed-width part nested to the right, as the reads consume it. */
  lemma FixedNested(f: Field, charset: seq<Byte>, filler: seq<Byte>, fixed: seq<Byte>)
    requires fixed == charset + LeBytes(f.dispLen, 4) + [f.typ] + LeBytes(f.flags, 2) + [f.scale] + filler
    ensures fixed == charset + (LeBytes(f.dispLen, 4) + ([f.typ] + (LeBytes(f.flags, 2) + ([f.scale] + filler))))
  {
  }

  /** Rows are taken only once every field is known (field_count == len(fields)), for any
      first byte below 254; a text row then holds field_count columns. */
  lemma RowStep(p: seq<Byte>, s: ResState, status: U16)
    requires Valid(s) && p != []
    ensures var o := Step(p, Some(s), status);
            o.Stop? && o.r.Ok? && o.r.value.RowReply? ==>
              && p[0] < 254 && s.fieldCount == |s.fields|
              && o.res == Some(s) && o.status == status
              && |o.r.value.row| == |s.fields|
  {
    var o := Step(p, Some(s), status);
    if o.Stop? && o.r.Ok? && o.r.value.RowReply? {
      if s.binary {
        BinRowNulls(p, s.fields);
      } else {
        TextColsLength(p, s.fieldCount, []);
      }
    }
  }

  /** Exactly the packets outside the accepted kinds fail with UNK_RESULT_PKT_ERROR. */
  predicate Unclassified(p: seq<Byte>, res: Option<ResState>)
    requires p != []
  {
    && p[0] != 255
    && (res.None? ==> p[0] >= 251)
    && (res.Some? ==> && p[0] != 254
                      && !(0 < p[0] < 251 && res.value.fieldCount < |res.value.fields|)
                      && !(p[0] < 254 && res.value.fieldCount == |res.value.fields|))
  }

  lemma UnknownPacket(p: seq<Byte>, res: Option<ResState>, status: U16)
    requires res.Some? ==> Valid(res.value)
    requires p != []
    ensures var o := Step(p, res, status);
            (o.Stop? && o.r == Err(UnkResultPkt)) <==> Unclassified(p, res)
  {
    var o := Step(p, res, status);
    if p[0] != 255 && res.Some? && p[0] == 254 {
      assert EofPacket(p).Err? ==> EofPacket(p).error != UnkResultPkt;
    }
    if p[0] != 255 && res.Some? && 0 < p[0] < 251 && res.value.fieldCount < |res.value.fields| {
    }
    if p[0] != 255 && res.Some? && !res.value.binary && p[0] < 254 && res.value.fieldCount == |res.value.fields| {
      TextColsErrors(p, res.value.fieldCount, []);
    }
  }

  lemma {:induction false} TextColsErrors(s: seq<Byte>, n: nat, acc: Row)
    ensures TextCols(s, n, acc).Err? ==> TextCols(s, n, acc).error != UnkResultPkt
    decreases n
  {
    if n > 0 && ReadNbin(s).Ok? {
      TextColsErrors(ReadNbin(s).value.rest, n - 1, acc + [CellOf(ReadNbin(s).value.value)]);
    }
  }
}
