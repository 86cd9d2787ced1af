/** The command packets of package native (native/command.go).  Each builder resets the
    sequence number, declares the payload length to a new pktWriter and writes the payload
    piece by piece; the pieces are proved to fill exactly the declared length, so the
    connection receives the payload framed from sequence number 0 and flushed. */
module NativeCommand {
  import opened Wrappers
  import opened Bytes
  import opened Errors
  import opened Consts
  import opened Wire
  import opened NativeCodecs
  import opened NativePacket

  // ---------------------------------------------------------------- payloads

  /** sendCmd: the command byte alone. */
  function CmdPayload(cmd: Byte): (p: seq<Byte>)
    ensures |p| == 1 && p[0] == cmd
  {
    [cmd]
  }

  /** sendCmdStr: the command byte, then the string's bytes. */
  function StrPayload(cmd: Byte, s: seq<Byte>): (p: seq<Byte>)
    ensures |p| == 1 + |s| && p[0] == cmd && p[1..] == s
  {
    [cmd] + s
  }

  /** sendCmdU32: the command byte and a little-endian uint32, which reads back. */
  function U32Payload(cmd: Byte, u: U32): (p: seq<Byte>)
    ensures |p| == 1 + 4 && p[0] == cmd
    ensures ReadU32(p[1..]) == Ok(Got(u, []))
  {
    DecodeEncodeU32(u);
    [cmd] + EncodeU32(u)
  }

  /** sendLongData: COM_STMT_SEND_LONG_DATA, the statement id, the parameter number and the
      data, each of which reads back in turn. */
  function LongDataPayload(stmtId: U32, pnum: U16, data: seq<Byte>): (p: seq<Byte>)
    ensures |p| == 1 + 4 + 2 + |data| && p[0] == ComStmtSendLongData
    ensures ReadU32(p[1..]) == Ok(Got(stmtId, p[5..]))
    ensures ReadU16(p[5..]) == Ok(Got(pnum, data))
  {
    DecodeEncodeU32(stmtId);
    DecodeEncodeU16(pnum);
    var p := [ComStmtSendLongData as Byte] + EncodeU32(stmtId) + EncodeU16(pnum) + data;
    assert p[1..][..4] == EncodeU32(stmtId) && p[1..][4..] == p[5..];
    assert p[5..][..2] == EncodeU16(pnum) && p[5..][2..] == data;
    p
  }

  // ---------------------------------------------------------------- writing

  /** What a finished command leaves on the connection: the payload framed from sequence
      number 0 after what was there before, all of it flushed, and the sequence number past
      the frame's packets. */
  ghost predicate Sent(c: Conn, before: seq<Byte>, p: seq<Byte>)
    reads c
    requires p != []
  {
    c.out == before + Frame(p, 0) && c.flushed == |c.out| && c.seqNum == Advance(0, FrameCount(p))
  }

  /** Two writes in a row are one write of both, as long as the first leaves room for the
      second within the declared length. */
  lemma WriteOn(st: WState, a: seq<Byte>, b: seq<Byte>)
    requires a != [] && |a| + |b| <= st.remain + st.toWrite
    ensures WriteSpec(st, a).r.Ok?
    ensures WriteSpec(WriteSpec(st, a).st, b) == WriteSpec(st, a + b)
  {
    FillCount(st, a);
    if b == [] {
      var o := WriteSpec(st, a);
      assert a + b == a && o.r.Ok? && o.r.value == ();
      assert WriteSpec(o.st, b) == WOutcome(Ok(()), o.st) == o;
    } else {
      WriteConcat(st, a, b);
    }
  }

  /** sendCmd (COM_QUIT, COM_STATISTICS, COM_PROCESS_INFO, COM_DEBUG, COM_PING). */
  method SendCmd(conn: Conn, cmd: Byte)
    modifies conn
    ensures Sent(conn, old(conn.out), CmdPayload(cmd))
    ensures conn.input == old(conn.input) && conn.lastByte == old(conn.lastByte)
  {
    conn.seqNum := 0;
    var pw := new PktWriter(conn, 1);
    ghost var st := pw.State();
    var _ := pw.WriteByte(cmd);
    WriteFrame(st, [cmd]);
  }

  /** sendCmdStr (COM_QUERY, COM_INIT_DB, COM_CREATE_DB, COM_DROP_DB, COM_STMT_PREPARE). */
  method SendCmdStr(conn: Conn, cmd: Byte, s: seq<Byte>)
    modifies conn
    ensures Sent(conn, old(conn.out), StrPayload(cmd, s))
    ensures conn.input == old(conn.input) && conn.lastByte == old(conn.lastByte)
  {
    conn.seqNum := 0;
    var pw := new PktWriter(conn, 1 + |s|);
    ghost var st := pw.State();
    var _ := pw.WriteByte(cmd);
    var _ := pw.Write(s);
    WriteOn(st, [cmd], s);
    WriteFrame(st, [cmd] + s);
  }

  /** sendCmdU32 (COM_PROCESS_KILL, COM_STMT_CLOSE, COM_STMT_RESET). */
  method SendCmdU32(conn: Conn, cmd: Byte, u: U32)
    modifies conn
    ensures Sent(conn, old(conn.out), U32Payload(cmd, u))
    ensures conn.input == old(conn.input) && conn.lastByte == old(conn.lastByte)
  {
    conn.seqNum := 0;
    var pw := new PktWriter(conn, 1 + 4);
    ghost var st := pw.State();
    var _ := pw.WriteByte(cmd);
    var _ := pw.Write(EncodeU32(u));
    WriteOn(st, [cmd], EncodeU32(u));
    WriteFrame(st, [cmd] + EncodeU32(u));
  }

  /** sendLongData: a piece of a parameter's value for a prepared statement. */
  method SendLongData(conn: Conn, stmtId: U32, pnum: U16, data: seq<Byte>)
    modifies conn
    ensures Sent(conn, old(conn.out), LongDataPayload(stmtId, pnum, data))
    ensures conn.input == old(conn.input) && conn.lastByte == old(conn.lastByte)
  {
    conn.seqNum := 0;
    var pw := new PktWriter(conn, 1 + 4 + 2 + |data|);
    ghost var st := pw.State();
    var a, b, c := [ComStmtSendLongData as Byte], EncodeU32(stmtId), EncodeU16(pnum);
    var _ := pw.WriteByte(ComStmtSendLongData);
    var _ := pw.Write(b);
    WriteOn(st, a, b);
    var _ := pw.Write(c);
    WriteOn(st, a + b, c);
    var _ := pw.Write(data);
    WriteOn(st, a + b + c, data);
    WriteFrame(st, a + b + c + data);
  }

  // ---------------------------------------------------------------- properties

  /** The server, reading the packets a command sent with a fresh packet reader at sequence
      number 0, gets the whole payload back; for COM_STMT_SEND_LONG_DATA that is the
      statement id, the parameter number and the data. */
  lemma LongDataReadsBack(stmtId: U32, pnum: U16, data: seq<Byte>, rest: seq<Byte>, lb: Option<Byte>)
    ensures var p := LongDataPayload(stmtId, pnum, data);
      var o := ReadFullSpec(RState(Frame(p, 0) + rest, lb, 0, false, 0), |p|, []);
      && o.r == Ok(p) && o.r.value[0] == ComStmtSendLongData
      && ReadU32(o.r.value[1..]) == Ok(Got(stmtId, o.r.value[5..]))
      && ReadU16(o.r.value[5..]) == Ok(Got(pnum, data))
  {
    var p := LongDataPayload(stmtId, pnum, data);
    ReadFrame(p, 0, rest, lb, []);
    assert [] + p == p;
  }
}
