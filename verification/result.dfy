/** The response side of the older `mymy` package (result.go): the Result of a command, the
    classifier getResult, which reads packets until it has an answer, and TextRow, the row
    it answers with.  As in NativeResult, the connection is the queue of packet payloads it
    has still to deliver, each one whole wire packet, and a panic of the Go code is an Err
    after which the packet that caused it counts as consumed.

    The OK, error, result set header and field packets are laid out as in package native,
    and getResult reads them with the same codecs in the same order, so their decoders are
    those of NativeResult.  What differs is the state machine: no connection status is
    kept, an EOF packet always ends the call and may leave a half-updated result, there is
    no binary protocol, and a text row is a slice of Nbin rather than of cells.  The
    package predates Go 1, when Go's int was 32 bits wide. */
module MymyResult {
  import opened Wrappers
  import opened Bytes
  import opened Errors
  import opened NativeCodecs
  import NativeResult
  import MysqlRow

  type Field = NativeResult.Field

  /** The value of a Result: its fields in the order of the Go struct. */
  datatype ResState = ResState(message: seq<Byte>, affectedRows: U64, insertId: U64,
                               warningCount: U16, status: U16,
                               fieldCount: int, fields: seq<Option<Field>>,
                               fieldMap: map<seq<Byte>, int>)

  /** What getResult keeps true of a result: the first FieldCount fields are known, and
      Map points at them. */
  predicate Valid(s: ResState)
  {
    && 0 <= s.fieldCount <= |s.fields|
    && (forall i :: 0 <= i < s.fieldCount ==> s.fields[i].Some?)
    && (forall n :: n in s.fieldMap ==> 0 <= s.fieldMap[n] < s.fieldCount)
  }

  class Res {
    var message: seq<Byte>
    var affectedRows: U64
    var insertId: U64
    var warningCount: U16
    var status: U16
    var fieldCount: int
    var fields: seq<Option<Field>>
    var fieldMap: map<seq<Byte>, int>

    constructor (s: ResState)
      ensures State() == s
    {
      message, affectedRows, insertId, warningCount, status := s.message, s.affectedRows, s.insertId, s.warningCount, s.status;
      fieldCount, fields, fieldMap := s.fieldCount, s.fields, s.fieldMap;
    }

    function State(): ResState
      reads this
    {
      ResState(message, affectedRows, insertId, warningCount, status, fieldCount, fields, fieldMap)
    }
  }

  /** The part of the connection getResult uses: the packets still to come. */
  class Conn {
    var packets: seq<seq<Byte>>

    constructor (ps: seq<seq<Byte>>)
      ensures packets == ps
    {
      packets := ps;
    }
  }

  // ---------------------------------------------------------------- TextRow

  /** TextRow.Data: one entry per column, nil for NULL. */
  type TextRow = seq<Nbin>

  /** TextRow.Str: "" for a NULL column, the column's bytes as a string otherwise.  An index
      outside the row is a Go runtime panic, left to the caller. */
  function Str(row: TextRow, nn: int): (s: string)
    requires 0 <= nn < |row|
    ensures row[nn].None? ==> s == ""
    ensures row[nn].Some? ==> s == MysqlRow.Text(row[nn].value)
  {
    if row[nn].None? then "" else MysqlRow.Text(row[nn].value)
  }

  /** TextRow.Str agrees with Row.Str of package mysql on the cells of the same row,
      whatever the latter prints for other types: those never occur in a text row. */
  lemma StrAgrees(row: TextRow, nn: int, fmtPrint: MysqlRow.Cell -> seq<Byte>)
    requires 0 <= nn < |row|
    ensures Str(row, nn) == MysqlRow.Str(NativeResult.CellsOf(row), nn, fmtPrint)
    ensures Str(row, nn) == "" <==> row[nn].None? || row[nn].value == []
  {
    NativeResult.CellsOfAt(row, nn);
  }

  /** The columns still to read of a text row, after those in acc: one readNbin each. */
  function NbinCols(s: seq<Byte>, n: nat, acc: TextRow): (r: Result<Got<TextRow>, Error>)
    decreases n
  {
    if n == 0 then Ok(Got(acc, s))
    else
      match ReadNbin(s)
      case Err(e) => Err(e)
      case Ok(nb) => NbinCols(nb.rest, n - 1, acc + [nb.value])
  }

  /** A row data packet, its first byte put back: FieldCount length-coded strings, NULL as
      nil, then the packet's end. */
  function RowSpec(p: seq<Byte>, fieldCount: nat): Result<TextRow, Error>
  {
    var g :- NbinCols(p, fieldCount, []);
    NativeResult.CheckEof(g)
  }

  /** The row data case of getResult: a loop of readNbin over a fresh TextRow.Data. */
  method ReadRow(p: seq<Byte>, fieldCount: nat) returns (r: Result<TextRow, Error>)
    ensures r == RowSpec(p, fieldCount)
  {
    var data := new Nbin[fieldCount];
    var s := p;
    ghost var left := fieldCount;
    ghost var cols: TextRow := [];
    ghost var whole := NbinCols(p, fieldCount, []);
    for ii := 0 to fieldCount
      invariant left == fieldCount - ii && |cols| == ii
      invariant data[..ii] == cols
      invariant NbinCols(s, left, cols) == whole
    {
      var c := ReadCol(s, left, cols, whole);
      if c.Err? {
        return Err(c.error);
      }
      data[ii] := c.value.value;
      left, s, cols := left - 1, c.value.rest, cols + [c.value.value];
    }
    assert data[..] == cols;
    r := NativeResult.CheckEof(Got(data[..], s));
  }

  /** One column of a row (readNbin): the row fails with it, or the rest of the row is read
      from what it leaves. */
  method ReadCol(s: seq<Byte>, ghost left: nat, ghost cols: TextRow, ghost whole: Result<Got<TextRow>, Error>)
    returns (r: Result<Got<Nbin>, Error>)
    requires left > 0 && NbinCols(s, left, cols) == whole
    ensures r.Err? ==> whole == Err(r.error)
    ensures r.Ok? ==> NbinCols(r.value.rest, left - 1, cols + [r.value.value]) == whole
  {
    r := ReadNbin(s);
  }

  /** Cells that hold, column for column, what the Nbin columns hold. */
  predicate CellsMatch(cells: MysqlRow.Row, vs: TextRow)
  {
    |cells| == |vs| && forall i :: 0 <= i < |vs| ==> cells[i] == NativeResult.CellOf(vs[i])
  }

  /** A read as cells t that fails as the Nbin read g fails, or succeeds where it succeeds
      with matching columns and the same rest. */
  predicate Matches(t: Result<Got<MysqlRow.Row>, Error>, g: Result<Got<TextRow>, Error>)
  {
    && (t.Ok? <==> g.Ok?)
    && (g.Err? ==> t.error == g.error)
    && (g.Ok? ==> t.value.rest == g.value.rest && CellsMatch(t.value.value, g.value.value))
  }

  /** Reading the columns as Nbin is reading them as cells, column by column. */
  lemma {:induction false} NbinColsCells(s: seq<Byte>, n: nat, acc: TextRow, cells: MysqlRow.Row)
    requires CellsMatch(cells, acc)
    ensures Matches(NativeResult.TextCols(s, n, cells), NbinCols(s, n, acc))
    decreases n, 2
  {
    if n > 0 {
      var r := ReadNbin(s);
      if r.Err? {
        NativeResult.TextColsFail(s, n, cells, r.error);
      } else {
        NbinColsCellsOk(s, n, acc, cells, r.value.value, r.value.rest);
      }
    }
  }

  /** NbinColsCells when the first column reads as x. */
  lemma {:induction false} NbinColsCellsOk(s: seq<Byte>, n: nat, acc: TextRow, cells: MysqlRow.Row, x: Nbin, tail: seq<Byte>)
    requires n > 0 && ReadNbin(s) == Ok(Got(x, tail)) && CellsMatch(cells, acc)
    ensures Matches(NativeResult.TextCols(s, n, cells), NbinCols(s, n, acc))
    decreases n, 1
  {
    NativeResult.TextColsStep(s, n, cells, x, tail);
    NbinColsStep(s, n, acc, x, tail);
    NbinColsCellsStep(NativeResult.TextCols(s, n, cells), NbinCols(s, n, acc), n - 1, acc, cells, x, tail);
  }

  /** The induction step of NbinColsCells: t and g, what the row reads as cells and as
      Nbin, are read on from tail after the column x. */
  lemma {:induction false} NbinColsCellsStep(t: Result<Got<MysqlRow.Row>, Error>, g: Result<Got<TextRow>, Error>,
                                             m: nat, acc: TextRow, cells: MysqlRow.Row, x: Nbin, tail: seq<Byte>)
    requires CellsMatch(cells, acc)
    requires t == NativeResult.TextCols(tail, m, cells + [NativeResult.CellOf(x)])
    requires g == NbinCols(tail, m, acc + [x])
    ensures Matches(t, g)
    decreases m + 1, 0
  {
    NbinColsCells(tail, m, acc + [x], cells + [NativeResult.CellOf(x)]);
  }

  lemma NbinColsStep(s: seq<Byte>, n: nat, acc: TextRow, x: Nbin, tail: seq<Byte>)
    requires n > 0 && ReadNbin(s) == Ok(Got(x, tail))
    ensures NbinCols(s, n, acc) == NbinCols(tail, n - 1, acc + [x])
  {
  }

  /** Matching cells are the cells of the columns. */
  lemma MatchIsCellsOf(cells: MysqlRow.Row, vs: TextRow)
    requires CellsMatch(cells, vs)
    ensures cells == NativeResult.CellsOf(vs)
  {
    forall i | 0 <= i < |vs|
      ensures cells[i] == NativeResult.CellsOf(vs)[i]
    {
      NativeResult.CellsOfAt(vs, i);
    }
  }

  /** Equal cells come from equal columns. */
  lemma CellsInjective(a: TextRow, b: TextRow)
    requires NativeResult.CellsOf(a) == NativeResult.CellsOf(b)
    ensures a == b
  {
    forall i | 0 <= i < |a|
      ensures a[i] == b[i]
    {
      NativeResult.CellsOfAt(a, i);
      NativeResult.CellsOfAt(b, i);
    }
  }

  /** A row of this package is the text row of package native, column for column. */
  lemma RowAgrees(p: seq<Byte>, n: nat)
    ensures RowSpec(p, n).Err? ==> NativeResult.TextRowSpec(p, n) == Err(RowSpec(p, n).error)
    ensures RowSpec(p, n).Ok? ==> NativeResult.TextRowSpec(p, n) == Ok(NativeResult.CellsOf(RowSpec(p, n).value))
  {
    NbinColsCells(p, n, [], []);
    var g := NbinCols(p, n, []);
    if g.Ok? {
      MatchIsCellsOf(NativeResult.TextCols(p, n, []).value.value, g.value.value);
    }
  }

  /** A row as a server writes it reads back column for column; one more byte is
      PKT_LONG_ERROR. */
  lemma RowOf(vs: TextRow)
    requires NativeResult.Storable(vs)
    ensures RowSpec(NativeResult.NbinsBytes(vs), |vs|) == Ok(vs)
    ensures RowSpec(NativeResult.NbinsBytes(vs) + [0], |vs|) == Err(PktLong)
  {
    NativeResult.TextRowOf(vs);
    RowAgrees(NativeResult.NbinsBytes(vs), |vs|);
    RowAgrees(NativeResult.NbinsBytes(vs) + [0], |vs|);
    CellsInjective(RowSpec(NativeResult.NbinsBytes(vs), |vs|).value, vs);
  }

  // ---------------------------------------------------------------- getResult

  /** What getResult answers: the result, or a row of it. */
  datatype Reply = ResReply | RowReply(row: TextRow)

  /** The effect of one packet: read on (goto loop) with the result it leaves, or stop with
      an answer or a failure and the result as it then is. */
  datatype StepOut = Next(next: ResState) | Stop(r: Result<Reply, Error>, res: Option<ResState>)

  /** Go's int(x) for a uint64 before Go 1: the low 32 bits, as a signed number. */
  function ToInt(x: U64): (i: int)
    ensures -0x8000_0000 <= i < 0x8000_0000
    ensures x < 0x8000_0000 ==> i == x
  {
    var m := x % 0x1_0000_0000;
    if m < 0x8000_0000 then m else m - 0x1_0000_0000
  }

  /** The result set header packet, its first byte put back: the field count, converted to
      int, then the packet's end; make() panics on a negative length. */
  function HeaderPacket(p: seq<Byte>): (r: Result<int, Error>)
    ensures r.Ok? ==> 0 <= r.value < 0x8000_0000
    ensures p != [] && 0 < p[0] < 251 ==> (r.Ok? <==> |p| == 1)
    ensures p != [] && 0 < p[0] < 251 && r.Ok? ==> r.value == p[0]
    ensures p != [] && 0 < p[0] < 251 && r.Err? ==> r.error == PktLong
  {
    var fc :- ReadNotNullU64(p);
    var n := ToInt(fc.value);
    if fc.rest != [] then Err(PktLong)
    else if n < 0 then Err(IndexOutOfRange)
    else Ok(n)
  }

  /** The result of an OK packet: its fields, no field table. */
  function OkState(info: NativeResult.OkInfo): (s: ResState)
    ensures Valid(s) && s.fields == [] && s.fieldCount == 0 && s.fieldMap == map[]
    ensures s.affectedRows == info.affectedRows && s.insertId == info.insertId
    ensures s.status == info.status && s.warningCount == info.warningCount && s.message == info.message
  {
    ResState(info.message, info.affectedRows, info.insertId, info.warningCount, info.status, 0, [], map[])
  }

  /** The result a result set header creates: fieldCount empty slots, none read yet. */
  function HeaderState(fieldCount: nat): (s: ResState)
    ensures Valid(s) && |s.fields| == fieldCount && s.fieldCount == 0 && s.fieldMap == map[]
    ensures s.message == [] && s.affectedRows == 0 && s.insertId == 0 && s.warningCount == 0 && s.status == 0
  {
    ResState([], 0, 0, 0, 0, 0, seq(fieldCount, _ => None), map[])
  }

  /** A field packet: stored in Fields[FieldCount], under its name in Map, and counted. */
  function AddField(s: ResState, f: Field): (s': ResState)
    requires Valid(s) && s.fieldCount < |s.fields|
    ensures Valid(s')
  {
    s.(fields := s.fields[s.fieldCount := Some(f)], fieldMap := s.fieldMap[f.name := s.fieldCount],
       fieldCount := s.fieldCount + 1)
  }

  /** An EOF packet on the result s: WarningCount is stored as soon as it is read and Status
      after it, so a packet cut short, or one too long, still changes the result. */
  function EofStep(p: seq<Byte>, s: ResState): (o: StepOut)
    requires p != []
    ensures o.Stop? && o.res.Some?
  {
    match ReadU16(p[1..])
    case Err(e) => Stop(Err(e), Some(s))
    case Ok(w) =>
      var s1 := s.(warningCount := w.value);
      match ReadU16(w.rest)
      case Err(e) => Stop(Err(e), Some(s1))
      case Ok(st) =>
        var s2 := s1.(status := st.value);
        if st.rest != [] then Stop(Err(PktLong), Some(s2)) else Stop(Ok(ResReply), Some(s2))
  }

  /** One turn of getResult's loop on the packet p, res being the current result.  The
      cases are tried in the order of the Go switch. */
  function Step(p: seq<Byte>, res: Option<ResState>): (o: StepOut)
    requires res.Some? ==> Valid(res.value)
    ensures o.Next? ==> Valid(o.next)
    ensures o.Stop? && o.res.Some? ==> Valid(o.res.value)
  {
    if p == [] then Stop(Err(UnexpectedEof), res)
    else if p[0] == 0 && res.None? then
      match NativeResult.OkPacket(p).r
      case Err(e) => Stop(Err(e), None)
      case Ok(info) => Stop(Ok(ResReply), Some(OkState(info)))
    else if p[0] == 254 && res.Some? then EofStep(p, res.value)
    else if p[0] == 255 then Stop(Err(NativeResult.ErrorPacket(p)), res)
    else if 0 < p[0] < 251 && res.None? then
      match HeaderPacket(p)
      case Err(e) => Stop(Err(e), None)
      case Ok(n) => Next(HeaderState(n))
    else if 0 < p[0] < 251 && res.Some? && res.value.fieldCount < |res.value.fields| then
      match NativeResult.FieldPacket(p)
      case Err(e) => Stop(Err(e), res)
      case Ok(f) => Next(AddField(res.value, f))
    else if p[0] < 254 && res.Some? && res.value.fieldCount == |res.value.fields| then
      match RowSpec(p, res.value.fieldCount)
      case Err(e) => Stop(Err(e), res)
      case Ok(data) => Stop(Ok(RowReply(data)), res)
    else Stop(Err(UnkResultPkt), res)
  }

  /** The outcome of getResult: its answer, the packets left and the result. */
  datatype Final = Final(r: Result<Reply, Error>, packets: seq<seq<Byte>>, res: Option<ResState>)

  /** getResult: one packet per turn until a packet stops it or none is left. */
  function Loop(packets: seq<seq<Byte>>, res: Option<ResState>): (f: Final)
    requires res.Some? ==> Valid(res.value)
    ensures f.res.Some? ==> Valid(f.res.value)
    ensures |f.packets| <= |packets|
    decreases |packets|
  {
    if packets == [] then Final(Err(Eof), [], res)
    else
      match Step(packets[0], res)
      case Stop(r, res') => Final(r, packets[1..], res')
      case Next(res') => Loop(packets[1..], Some(res'))
  }

  /** One turn with no result yet: an OK packet makes one and stops, a result set header
      makes an empty one and reads on. */
  method TurnNew(p: seq<Byte>) returns (stop: bool, r: Result<Reply, Error>, cur: Res?)
    requires p != [] && p[0] != 255
    ensures var o := Step(p, None);
            && (stop <==> o.Stop?)
            && (o.Next? ==> cur != null && fresh(cur) && cur.State() == o.next)
            && (o.Stop? ==> && r == o.r && (cur == null <==> o.res.None?)
                            && (cur != null ==> fresh(cur) && cur.State() == o.res.value))
  {
    if p[0] == 0 {
      var ok := NativeResult.OkPacket(p);
      if ok.r.Err? {
        return true, Err(ok.r.error), null;
      }
      cur := new Res(OkState(ok.r.value));
      return true, Ok(ResReply), cur;
    } else if p[0] < 251 {
      var h := HeaderPacket(p);
      if h.Err? {
        return true, Err(h.error), null;
      }
      cur := new Res(HeaderState(h.value));
      return false, Ok(ResReply), cur;
    } else {
      return true, Err(UnkResultPkt), null;
    }
  }

  /** One turn on the result cur: an EOF packet, a field packet while fields are missing, or
      a row once they are all read. */
  method TurnCur(cur: Res, p: seq<Byte>) returns (stop: bool, r: Result<Reply, Error>)
    requires p != [] && p[0] != 255 && Valid(cur.State())
    modifies cur
    ensures var o := Step(p, Some(old(cur.State())));
            && (stop <==> o.Stop?)
            && (o.Next? ==> cur.State() == o.next)
            && (o.Stop? ==> r == o.r && o.res == Some(cur.State()))
  {
    if p[0] == 254 {
      r := TurnEof(cur, p);
      return true, r;
    } else if 0 < p[0] < 251 && cur.fieldCount < |cur.fields| {
      stop, r := TurnField(cur, p);
    } else if p[0] < 254 && cur.fieldCount == |cur.fields| {
      var row := ReadRow(p, cur.fieldCount);
      if row.Err? {
        return true, Err(row.error);
      }
      return true, Ok(RowReply(row.value));
    } else {
      return true, Err(UnkResultPkt);
    }
  }

  /** An EOF packet: WarningCount, then Status, then the packet's end. */
  method TurnEof(cur: Res, p: seq<Byte>) returns (r: Result<Reply, Error>)
    requires p != [] && p[0] == 254 && Valid(cur.State())
    modifies cur
    ensures var o := Step(p, Some(old(cur.State())));
            o.Stop? && r == o.r && o.res == Some(cur.State())
  {
    var w := ReadU16(p[1..]);
    if w.Err? {
      return Err(w.error);
    }
    cur.warningCount := w.value.value;
    var st := ReadU16(w.value.rest);
    if st.Err? {
      return Err(st.error);
    }
    cur.status := st.value.value;
    if st.value.rest != [] {
      return Err(PktLong);
    }
    return Ok(ResReply);
  }

  /** A field packet while fields are missing: stored in the next slot and under its name. */
  method TurnField(cur: Res, p: seq<Byte>) returns (stop: bool, r: Result<Reply, Error>)
    requires p != [] && 0 < p[0] < 251 && Valid(cur.State()) && cur.fieldCount < |cur.fields|
    modifies cur
    ensures var o := Step(p, Some(old(cur.State())));
              && (stop <==> o.Stop?)
              && (o.Next? ==> cur.State() == o.next)
              && (o.Stop? ==> r == o.r && o.res == Some(cur.State()))
  {
    ghost var s := cur.State();
    var f := NativeResult.FieldPacket(p);
    if f.Err? {
      return true, Err(f.error);
    }
    cur.fields := cur.fields[cur.fieldCount := Some(f.value)];
    cur.fieldMap := cur.fieldMap[f.value.name := cur.fieldCount];
    cur.fieldCount := cur.fieldCount + 1;
    assert cur.State() == AddField(s, f.value);
    return false, Ok(ResReply);
  }

  /** getResult.  The result it works on is res, or the one it creates; it is returned as
      cur, null when there is none. */
  method GetResult(my: Conn, res: Res?) returns (r: Result<Reply, Error>, cur: Res?)
    requires res != null ==> Valid(res.State())
    modifies my, res
    ensures var f := Loop(old(my.packets), if res == null then None else Some(old(res.State())));
            && r == f.r && my.packets == f.packets
            && (cur == null <==> f.res.None?)
            && (cur != null ==> cur.State() == f.res.value)
    ensures res != null ==> cur == res
    ensures res == null && cur != null ==> fresh(cur)
  {
    cur := res;
    while true
      invariant cur != null ==> Valid(cur.State())
      invariant res != null ==> cur == res
      invariant res == null && cur != null ==> fresh(cur)
      invariant Loop(my.packets, if cur == null then None else Some(cur.State()))
             == Loop(old(my.packets), if res == null then None else Some(old(res.State())))
      decreases |my.packets|
    {
      if my.packets == [] {
        return Err(Eof), cur;
      }
      var p := my.packets[0];
      my.packets := my.packets[1..];
      if p == [] {
        return Err(UnexpectedEof), cur;
      }
      if p[0] == 255 {
        return Err(NativeResult.ErrorPacket(p)), cur;
      }
      var stop;
      if cur == null {
        stop, r, cur := TurnNew(p);
      } else {
        stop, r := TurnCur(cur, p);
      }
      if stop {
        return r, cur;
      }
    }
  }

  // ---------------------------------------------------------------- properties

  /** With no result, 0 is an OK packet, which answers with a new result holding its
      fields; 1 to 250 is a result set header, which creates a result of that many empty
      fields and reads on; anything else but 255 is UNK_RESULT_PKT. */
  lemma NoResultStep(p: seq<Byte>)
    requires p != [] && p[0] != 255
    ensures var o := Step(p, None);
            && (p[0] == 0 && NativeResult.OkPacket(p).r.Ok? ==>
                  o == Stop(Ok(ResReply), Some(OkState(NativeResult.OkPacket(p).r.value))))
            && (p[0] == 0 && NativeResult.OkPacket(p).r.Err? ==> o.Stop? && o.r.Err? && o.res.None?)
            && (0 < p[0] < 251 ==> (o.Next? <==> |p| == 1)
                                   && (o.Next? ==> o.next == HeaderState(p[0])))
            && (p[0] >= 251 ==> o == Stop(Err(UnkResultPkt), None))
  {
  }

  /** An OK packet as a server writes it gives a result holding exactly its fields. */
  lemma OkPacketOf(info: NativeResult.OkInfo)
    ensures Step([0] + WriteLCB(info.affectedRows) + WriteLCB(info.insertId)
                 + LeBytes(info.status, 2) + LeBytes(info.warningCount, 2) + info.message, None)
         == Stop(Ok(ResReply), Some(OkState(info)))
  {
    NativeResult.OkPacketOf(info);
  }

  /** With a result, 254 is an EOF packet and always ends the call: a well-formed one
      stores the warning count and the status and changes nothing else. */
  lemma EofStepOf(s: ResState, warn: U16, status: U16)
    requires Valid(s)
    ensures Step([254] + LeBytes(warn, 2) + LeBytes(status, 2), Some(s))
         == Stop(Ok(ResReply), Some(s.(warningCount := warn, status := status)))
  {
    var p := [254] + LeBytes(warn, 2) + LeBytes(status, 2);
    assert p[1..] == LeBytes(warn, 2) + LeBytes(status, 2) + [];
    NativeResult.U16Pair(warn, status, [], p[1..]);
  }

  /** An EOF packet never reads on, and whatever it reads it stops with the result, its
      fields and their map untouched. */
  lemma EofStops(p: seq<Byte>, s: ResState)
    requires Valid(s) && p != [] && p[0] == 254
    ensures var o := Step(p, Some(s));
            && o.Stop? && o.res.Some?
            && o.res.value.fields == s.fields && o.res.value.fieldMap == s.fieldMap
            && o.res.value.fieldCount == s.fieldCount && o.res.value.message == s.message
            && (o.r.Ok? <==> |p| == 5)
  {
  }

  /** Whatever the result, a packet starting with 255 ends the call with the server's
      error, or PKT_ERROR when the '#' is missing, and changes nothing. */
  lemma ErrorPacketFails(p: seq<Byte>, res: Option<ResState>)
    requires res.Some? ==> Valid(res.value)
    requires p != [] && p[0] == 255
    ensures var o := Step(p, res);
            && o.Stop? && o.r.Err? && o.res == res
            && (|p| >= 9 && p[3] == '#' as int ==> o.r.error == ServerError(LeValue(p[1..3]), p[9..]))
            && (|p| >= 4 && p[3] != '#' as int ==> o.r.error == PktError)
  {
  }

  /** A field packet is taken while fields are missing: a good one goes to Fields[FieldCount]
      and Map[name], and FieldCount grows by one; a bad one stops the call with the result
      unchanged. */
  lemma FieldStep(p: seq<Byte>, s: ResState)
    requires Valid(s) && p != [] && 0 < p[0] < 251 && s.fieldCount < |s.fields|
    ensures var o := Step(p, Some(s));
            && (o.Next? <==> NativeResult.FieldPacket(p).Ok?)
            && (o.Next? ==> && o.next.fieldCount == s.fieldCount + 1
                            && o.next.fields == s.fields[s.fieldCount := Some(NativeResult.FieldPacket(p).value)]
                            && o.next.fieldMap == s.fieldMap[NativeResult.FieldPacket(p).value.name := s.fieldCount]
                            && o.next.message == s.message && o.next.status == s.status)
            && (o.Stop? ==> o.r.Err? && o.res == Some(s))
  {
  }

  /** Once every field is read, a packet starting below 254 is a row of FieldCount columns;
      the result is left as it is. */
  lemma RowStep(p: seq<Byte>, s: ResState)
    requires Valid(s) && p != [] && p[0] < 254 && s.fieldCount == |s.fields|
    ensures var o := Step(p, Some(s));
            && o.Stop? && o.res == Some(s)
            && (o.r.Ok? <==> RowSpec(p, s.fieldCount).Ok?)
            && (o.r.Ok? ==> o.r.value == RowReply(RowSpec(p, s.fieldCount).value)
                            && |o.r.value.row| == s.fieldCount)
  {
    RowLength(p, s.fieldCount);
  }

  /** A row, when it is read, has as many columns as asked for. */
  lemma RowLength(p: seq<Byte>, n: nat)
    ensures RowSpec(p, n).Ok? ==> |RowSpec(p, n).value| == n
  {
    RowAgrees(p, n);
    NativeResult.TextColsLength(p, n, []);
  }

  /** With a result, a packet in none of the cases (0 while fields are missing, 251 to
      253 while fields are missing, or 1 to 253 with more fields read than announced) is
      UNK_RESULT_PKT, and the result is left as it is. */
  lemma UnknownPacket(p: seq<Byte>, s: ResState)
    requires Valid(s) && p != [] && p[0] < 254
    requires !(0 < p[0] < 251 && s.fieldCount < |s.fields|) && s.fieldCount != |s.fields|
    ensures Step(p, Some(s)) == Stop(Err(UnkResultPkt), Some(s))
  {
  }

  /** Field packets read one after the other while fields are missing: none of them stops
      the loop, and they leave the result Filled describes. */
  lemma {:induction false} FieldsFill(packets: seq<seq<Byte>>, fs: seq<Field>, s: ResState)
    requires Valid(s) && s.fieldCount + |fs| <= |s.fields| && |packets| == |fs|
    requires forall i :: 0 <= i < |packets| ==> packets[i] != [] && 0 < packets[i][0] < 251
                                                && NativeResult.FieldPacket(packets[i]) == Ok(fs[i])
    ensures Loop(packets, Some(s)) == Final(Err(Eof), [], Some(Filled(s, fs)))
    decreases |packets|
  {
    if packets != [] {
      assert Step(packets[0], Some(s)) == Next(AddField(s, fs[0]));
      FieldsFill(packets[1..], fs[1..], AddField(s, fs[0]));
    }
  }

  /** The result after the fields fs. */
  function Filled(s: ResState, fs: seq<Field>): (s': ResState)
    requires Valid(s) && s.fieldCount + |fs| <= |s.fields|
    ensures Valid(s') && s'.fieldCount == s.fieldCount + |fs| && |s'.fields| == |s.fields|
    decreases |fs|
  {
    if fs == [] then s else Filled(AddField(s, fs[0]), fs[1..])
  }

  /** Field packets leave the fields already read alone... */
  lemma {:induction false} FilledKeeps(s: ResState, fs: seq<Field>, j: int)
    requires Valid(s) && s.fieldCount + |fs| <= |s.fields|
    requires 0 <= j < s.fieldCount
    ensures Filled(s, fs).fields[j] == s.fields[j]
    decreases |fs|
  {
    if fs != [] {
      FilledKeeps(AddField(s, fs[0]), fs[1..], j);
    }
  }

  /** ... and fill the free slots in the order they arrive. */
  lemma {:induction false} FilledAt(s: ResState, fs: seq<Field>, i: int)
    requires Valid(s) && s.fieldCount + |fs| <= |s.fields|
    requires 0 <= i < |fs|
    ensures Filled(s, fs).fields[s.fieldCount + i] == Some(fs[i])
    decreases |fs|
  {
    var s1 := AddField(s, fs[0]);
    if i == 0 {
      FilledKeeps(s1, fs[1..], s.fieldCount);
    } else {
      FilledAt(s1, fs[1..], i - 1);
    }
  }
}
