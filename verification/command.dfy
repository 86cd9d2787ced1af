/** The command packets of the original package (command.go): sendCmd resets the sequence
    number, declares the payload length in a packet header, then writes the command byte and
    the command's arguments.  The arguments arrive as a variadic list of `interface{}`
    values; a missing argument, a failed type assertion and a value of a type the writers do
    not know are panics, modelled as errors.

    CmdSpec says, command by command, which packet a call produces or which panic it ends
    in; SendCmd is proved to write that packet after what the writer held. */
module Command {
  import opened Wrappers
  import opened Bytes
  import opened Errors
  import opened Consts
  import opened Wire
  import opened GoValues
  import opened Common
  import NativeCodecs
  import NativePacket
  import Codecs
  import Utils

  /** One argument of sendCmd.  The writers of strings and length-coded data see it through
      an `interface{}` (Val); the fixed-width arguments are asserted to be a Go byte, uint16
      or uint32. */
  datatype Arg = Val(v: Any) | ByteArg(b: Byte) | U16Arg(h: U16) | U32Arg(w: U32)

  /** A packet as sendCmd produces it: the length the header declares and the payload. */
  datatype Packet = Packet(declared: nat, body: seq<Byte>)

  // ---------------------------------------------------------------- arguments

  /** argv[i] as an `interface{}`: a fixed-width number is some type other than the string
      types, so the string and length-coded writers refuse it. */
  function At(argv: seq<Arg>, i: nat): (r: Result<Any, Error>)
    ensures r.Err? <==> i >= |argv|
    ensures r.Err? ==> r.error == IndexOutOfRange
    ensures r.Ok? && argv[i].Val? ==> r.value == argv[i].v
    ensures r.Ok? && !argv[i].Val? ==> r.value == Other
  {
    if i >= |argv| then Err(IndexOutOfRange)
    else if argv[i].Val? then Ok(argv[i].v)
    else Ok(Other)
  }

  /** argv[i].(byte) */
  function ByteAt(argv: seq<Arg>, i: nat): (r: Result<Byte, Error>)
    ensures r.Ok? <==> i < |argv| && argv[i].ByteArg?
    ensures r.Ok? ==> r.value == argv[i].b
    ensures r.Err? ==> r.error == (if i < |argv| then WrongArgType else IndexOutOfRange)
  {
    if i >= |argv| then Err(IndexOutOfRange)
    else if argv[i].ByteArg? then Ok(argv[i].b)
    else Err(WrongArgType)
  }

  /** argv[i].(uint16) */
  function U16At(argv: seq<Arg>, i: nat): (r: Result<U16, Error>)
    ensures r.Ok? <==> i < |argv| && argv[i].U16Arg?
    ensures r.Ok? ==> r.value == argv[i].h
    ensures r.Err? ==> r.error == (if i < |argv| then WrongArgType else IndexOutOfRange)
  {
    if i >= |argv| then Err(IndexOutOfRange)
    else if argv[i].U16Arg? then Ok(argv[i].h)
    else Err(WrongArgType)
  }

  /** argv[i].(uint32) */
  function U32At(argv: seq<Arg>, i: nat): (r: Result<U32, Error>)
    ensures r.Ok? <==> i < |argv| && argv[i].U32Arg?
    ensures r.Ok? ==> r.value == argv[i].w
    ensures r.Err? ==> r.error == (if i < |argv| then WrongArgType else IndexOutOfRange)
  {
    if i >= |argv| then Err(IndexOutOfRange)
    else if argv[i].U32Arg? then Ok(argv[i].w)
    else Err(WrongArgType)
  }

  // ---------------------------------------------------------------- command groups

  predicate IsTextCmd(cmd: Byte)
  {
    cmd == ComQuery || cmd == ComInitDb || cmd == ComCreateDb || cmd == ComDropDb
    || cmd == ComStmtPrepare
  }

  predicate IsBareCmd(cmd: Byte)
  {
    cmd == ComQuit || cmd == ComStatistics || cmd == ComProcessInfo || cmd == ComDebug
    || cmd == ComPing
  }

  predicate IsByteCmd(cmd: Byte)
  {
    cmd == ComRefresh || cmd == ComShutdown
  }

  predicate IsU32Cmd(cmd: Byte)
  {
    cmd == ComProcessKill || cmd == ComStmtClose || cmd == ComStmtReset
  }

  /** The command codes sendCmd knows. */
  predicate Known(cmd: Byte)
  {
    IsTextCmd(cmd) || IsBareCmd(cmd) || IsByteCmd(cmd) || IsU32Cmd(cmd)
    || cmd == ComStmtSendLongData || cmd == ComFieldList || cmd == ComTableDump
    || cmd == ComStmtFetch || cmd == ComSetOption || cmd == ComChangeUser
    || cmd == ComBinlogDump
  }

  // ---------------------------------------------------------------- packets, group by group
  // Within each group the errors come in the order the Go code meets them: the lengths the
  // header declares are computed first, and the type assertions fail while the payload is
  // being written.

  /** COM_QUERY, COM_INIT_DB, COM_CREATE_DB, COM_DROP_DB, COM_STMT_PREPARE. */
  function TextSpec(cmd: Byte, argv: seq<Arg>): Result<Packet, Error>
  {
    var s :- At(argv, 0);
    var n :- LenBS(s);
    Ok(Packet(1 + n, [cmd] + WriteBS(s).value))
  }

  /** COM_STMT_SEND_LONG_DATA: statement id, parameter number, data. */
  function LongDataSpec(cmd: Byte, argv: seq<Arg>): Result<Packet, Error>
  {
    var d :- At(argv, 2);
    var n :- LenBS(d);
    var id :- U32At(argv, 0);
    var pnum :- U16At(argv, 1);
    Ok(Packet(1 + 4 + 2 + n, [cmd] + LeBytes(id, 4) + LeBytes(pnum, 2) + WriteBS(d).value))
  }

  /** COM_FIELD_LIST: a NUL-terminated table name and an optional column wildcard. */
  function FieldListSpec(cmd: Byte, argv: seq<Arg>): Result<Packet, Error>
  {
    var t :- At(argv, 0);
    var n0 :- LenBS(t);
    var n1 :- if |argv| > 1 then LenBS(AnyOf(argv[1])) else Ok(0);
    var w := if |argv| > 1 then WriteBS(AnyOf(argv[1])).value else [];
    Ok(Packet(1 + n0 + 1 + n1, [cmd] + NativeCodecs.WriteNT(t).value + w))
  }

  /** COM_TABLE_DUMP: two length-coded names. */
  function TableDumpSpec(cmd: Byte, argv: seq<Arg>): Result<Packet, Error>
  {
    var a :- At(argv, 0);
    var n0 :- NativeCodecs.LenLC(a);
    var b :- At(argv, 1);
    var n1 :- NativeCodecs.LenLC(b);
    Ok(Packet(1 + n0 + n1, [cmd] + NativeCodecs.WriteLC(a).value + NativeCodecs.WriteLC(b).value))
  }

  /** COM_CHANGE_USER: user name, scrambled password, database name. */
  function ChangeUserSpec(cmd: Byte, argv: seq<Arg>): Result<Packet, Error>
  {
    var c :- ChangeUserArgs(argv);
    Ok(Packet(c.3, [cmd] + NativeCodecs.WriteNT(c.0).value + NativeCodecs.WriteLC(c.1).value
                   + NativeCodecs.WriteNT(c.2).value))
  }

  /** COM_CHANGE_USER's packet once its arguments are known. */
  lemma ChangeUserSpecOf(cmd: Byte, argv: seq<Arg>, u: Any, p: Any, d: Any, payLen: nat)
    requires ChangeUserArgs(argv) == Ok((u, p, d, payLen))
    ensures ChangeUserSpec(cmd, argv) == Ok(Packet(payLen, [cmd] + NativeCodecs.WriteNT(u).value
                                                      + NativeCodecs.WriteLC(p).value + NativeCodecs.WriteNT(d).value))
  {
  }

  /** The three arguments of COM_CHANGE_USER and the length the header declares for them. */
  function ChangeUserArgs(argv: seq<Arg>): (r: Result<(Any, Any, Any, nat), Error>)
    ensures r.Ok? ==> NativeCodecs.WriteNT(r.value.0).Ok? && NativeCodecs.WriteLC(r.value.1).Ok?
                      && NativeCodecs.WriteNT(r.value.2).Ok?
    ensures r.Ok? ==> r.value.3 == 1 + |NativeCodecs.WriteNT(r.value.0).value|
                      + |NativeCodecs.WriteLC(r.value.1).value| + |NativeCodecs.WriteNT(r.value.2).value|
  {
    var u :- At(argv, 0);
    var n0 :- LenBS(u);
    var p :- At(argv, 1);
    var n1 :- NativeCodecs.LenLC(p);
    var d :- At(argv, 2);
    var n2 :- LenBS(d);
    NativeCodecs.LenLCOfWriteLC(p);
    Ok((u, p, d, 1 + n0 + 1 + n1 + n2 + 1))
  }

  /** COM_BINLOG_DUMP: start position, flags, slave server id and an optional file name. */
  function BinlogDumpSpec(cmd: Byte, argv: seq<Arg>): Result<Packet, Error>
  {
    var n3 :- if |argv| > 3 then LenBS(AnyOf(argv[3])) else Ok(0);
    var pos :- U32At(argv, 0);
    var flags :- U16At(argv, 1);
    var sid :- U32At(argv, 2);
    var f := if |argv| > 3 then WriteBS(AnyOf(argv[3])).value else [];
    Ok(Packet(1 + 4 + 2 + 4 + n3, [cmd] + LeBytes(pos, 4) + LeBytes(flags, 2) + LeBytes(sid, 4) + f))
  }

  /** An argument as an `interface{}` when it is known to be there. */
  function AnyOf(a: Arg): (v: Any)
    ensures v.Bin? || v.Str? ==> a == Val(v)
  {
    if a.Val? then a.v else Other
  }

  /** The packet sendCmd(cmd, argv...) writes, or the panic it ends in. */
  function CmdSpec(cmd: Byte, argv: seq<Arg>): Result<Packet, Error>
  {
    if IsTextCmd(cmd) then TextSpec(cmd, argv)
    else if cmd == ComStmtSendLongData then LongDataSpec(cmd, argv)
    else if IsBareCmd(cmd) then Ok(Packet(1, [cmd]))
    else if cmd == ComFieldList then FieldListSpec(cmd, argv)
    else if cmd == ComTableDump then TableDumpSpec(cmd, argv)
    else if IsByteCmd(cmd) then
      var b :- ByteAt(argv, 0);
      Ok(Packet(1 + 1, [cmd, b]))
    else if cmd == ComStmtFetch then
      var id :- U32At(argv, 0);
      var rows :- U32At(argv, 1);
      Ok(Packet(1 + 4 + 4, [cmd] + LeBytes(id, 4) + LeBytes(rows, 4)))
    else if IsU32Cmd(cmd) then
      var id :- U32At(argv, 0);
      Ok(Packet(1 + 4, [cmd] + LeBytes(id, 4)))
    else if cmd == ComSetOption then
      var opt :- U16At(argv, 0);
      Ok(Packet(1 + 2, [cmd] + LeBytes(opt, 2)))
    else if cmd == ComChangeUser then ChangeUserSpec(cmd, argv)
    else if cmd == ComBinlogDump then BinlogDumpSpec(cmd, argv)
    else Err(UnknownCommand)
  }

  // ---------------------------------------------------------------- an independent account

  /** A value writeBS and lenBS accept. */
  predicate IsBS(a: Arg)
  {
    a.Val? && (a.v.Bin? || a.v.Str?)
  }

  /** A value writeLC and lenLC accept. */
  predicate IsLC(a: Arg)
  {
    a.Val? && !a.v.Other?
  }

  /** The argument lists each command accepts, read off its case: how many arguments it
      indexes and what each must be.  Arguments past those are ignored. */
  predicate WellTyped(cmd: Byte, argv: seq<Arg>)
  {
    if IsTextCmd(cmd) then |argv| >= 1 && IsBS(argv[0])
    else if cmd == ComStmtSendLongData then
      |argv| >= 3 && argv[0].U32Arg? && argv[1].U16Arg? && IsBS(argv[2])
    else if IsBareCmd(cmd) then true
    else if cmd == ComFieldList then
      |argv| >= 1 && IsBS(argv[0]) && (|argv| > 1 ==> IsBS(argv[1]))
    else if cmd == ComTableDump then |argv| >= 2 && IsLC(argv[0]) && IsLC(argv[1])
    else if IsByteCmd(cmd) then |argv| >= 1 && argv[0].ByteArg?
    else if cmd == ComStmtFetch then |argv| >= 2 && argv[0].U32Arg? && argv[1].U32Arg?
    else if IsU32Cmd(cmd) then |argv| >= 1 && argv[0].U32Arg?
    else if cmd == ComSetOption then |argv| >= 1 && argv[0].U16Arg?
    else if cmd == ComChangeUser then
      |argv| >= 3 && IsBS(argv[0]) && IsLC(argv[1]) && IsBS(argv[2])
    else if cmd == ComBinlogDump then
      |argv| >= 3 && argv[0].U32Arg? && argv[1].U16Arg? && argv[2].U32Arg?
      && (|argv| > 3 ==> IsBS(argv[3]))
    else false
  }

  /** The fixed payload length of the commands whose arguments are all numbers. */
  function FixedLength(cmd: Byte): Option<nat>
  {
    if IsBareCmd(cmd) then Some(1)
    else if IsByteCmd(cmd) then Some(2)
    else if cmd == ComSetOption then Some(3)
    else if IsU32Cmd(cmd) then Some(5)
    else if cmd == ComStmtFetch then Some(9)
    else None
  }

  // ---------------------------------------------------------------- properties

  /** sendCmd succeeds exactly on the argument lists its case expects. */
  lemma {:induction false} SucceedsIffWellTyped(cmd: Byte, argv: seq<Arg>)
    ensures CmdSpec(cmd, argv).Ok? <==> WellTyped(cmd, argv)
  {
    if IsTextCmd(cmd) || cmd == ComStmtSendLongData {
      if |argv| > 2 { LenBSOfWriteBS(AnyOf(argv[2])); }
      if |argv| > 0 { LenBSOfWriteBS(AnyOf(argv[0])); }
    } else if cmd == ComFieldList || cmd == ComChangeUser {
      if |argv| > 1 {
        LenBSOfWriteBS(AnyOf(argv[1]));
        NativeCodecs.LenLCOfWriteLC(AnyOf(argv[1]));
      }
    } else if cmd == ComTableDump {
      if |argv| > 1 {
        NativeCodecs.LenLCOfWriteLC(AnyOf(argv[0]));
        NativeCodecs.LenLCOfWriteLC(AnyOf(argv[1]));
      }
    } else if cmd == ComBinlogDump {
      if |argv| > 3 { LenBSOfWriteBS(AnyOf(argv[3])); }
    }
  }

  /** A command code sendCmd does not know panics, whatever the arguments; a known one can
      fail only on its arguments. */
  lemma UnknownCommandPanics(cmd: Byte, argv: seq<Arg>)
    ensures CmdSpec(cmd, argv) == Err(UnknownCommand) <==> !Known(cmd)
    ensures CmdSpec(cmd, argv).Err? && Known(cmd) ==>
      CmdSpec(cmd, argv).error in {IndexOutOfRange, WrongArgType, UnknownType}
  {
  }

  /** The length the header declares is the length of the payload written after it. */
  lemma {:induction false} DeclaredIsLength(cmd: Byte, argv: seq<Arg>)
    ensures CmdSpec(cmd, argv).Ok? ==> CmdSpec(cmd, argv).value.declared == |CmdSpec(cmd, argv).value.body|
  {
    if IsTextCmd(cmd) {
      TextDeclared(cmd, argv);
    } else if cmd == ComStmtSendLongData {
      LongDataDeclared(cmd, argv);
    } else if cmd == ComFieldList {
      FieldListDeclared(cmd, argv);
    } else if cmd == ComTableDump {
      TableDumpDeclared(cmd, argv);
    } else if cmd == ComChangeUser {
      ChangeUserDeclared(cmd, argv);
    } else if cmd == ComBinlogDump {
      BinlogDumpDeclared(cmd, argv);
    }
  }

  lemma TextDeclared(cmd: Byte, argv: seq<Arg>)
    ensures TextSpec(cmd, argv).Ok? ==> TextSpec(cmd, argv).value.declared == |TextSpec(cmd, argv).value.body|
  {
    if |argv| > 0 { LenBSOfWriteBS(AnyOf(argv[0])); }
  }

  lemma LongDataDeclared(cmd: Byte, argv: seq<Arg>)
    ensures LongDataSpec(cmd, argv).Ok? ==> LongDataSpec(cmd, argv).value.declared == |LongDataSpec(cmd, argv).value.body|
  {
    if |argv| > 2 { LenBSOfWriteBS(AnyOf(argv[2])); }
  }

  lemma FieldListDeclared(cmd: Byte, argv: seq<Arg>)
    ensures FieldListSpec(cmd, argv).Ok? ==> FieldListSpec(cmd, argv).value.declared == |FieldListSpec(cmd, argv).value.body|
  {
    if |argv| > 0 { LenBSOfWriteBS(AnyOf(argv[0])); }
    if |argv| > 1 { LenBSOfWriteBS(AnyOf(argv[1])); }
  }

  lemma TableDumpDeclared(cmd: Byte, argv: seq<Arg>)
    ensures TableDumpSpec(cmd, argv).Ok? ==> TableDumpSpec(cmd, argv).value.declared == |TableDumpSpec(cmd, argv).value.body|
  {
    if |argv| > 1 {
      NativeCodecs.LenLCOfWriteLC(AnyOf(argv[0]));
      NativeCodecs.LenLCOfWriteLC(AnyOf(argv[1]));
    }
  }

  lemma ChangeUserDeclared(cmd: Byte, argv: seq<Arg>)
    ensures ChangeUserSpec(cmd, argv).Ok? ==> ChangeUserSpec(cmd, argv).value.declared == |ChangeUserSpec(cmd, argv).value.body|
  {
  }

  lemma BinlogDumpDeclared(cmd: Byte, argv: seq<Arg>)
    ensures BinlogDumpSpec(cmd, argv).Ok? ==> BinlogDumpSpec(cmd, argv).value.declared == |BinlogDumpSpec(cmd, argv).value.body|
  {
    if |argv| > 3 { LenBSOfWriteBS(AnyOf(argv[3])); }
  }

  /** The commands with numeric arguments only have a fixed payload length. */
  lemma FixedLengths(cmd: Byte, argv: seq<Arg>)
    requires FixedLength(cmd).Some? && CmdSpec(cmd, argv).Ok?
    ensures CmdSpec(cmd, argv).value.declared == FixedLength(cmd).value
    ensures |CmdSpec(cmd, argv).value.body| == FixedLength(cmd).value
    ensures CmdSpec(cmd, argv).value.body[0] == cmd
  {
  }

  /** COM_QUERY and its group send the command byte and the text, whatever its Go type. */
  lemma TextPayload(cmd: Byte, argv: seq<Arg>, text: seq<Byte>)
    requires IsTextCmd(cmd) && |argv| >= 1 && (argv[0] == Val(Str(text)) || argv[0] == Val(Bin(text)))
    ensures CmdSpec(cmd, argv) == Ok(Packet(1 + |text|, [cmd] + text))
  {
  }

  /** A payload shorter than the largest packet goes out as one packet with sequence number
      0, and a peer reading a packet from sequence number 0 gets the payload back whole. */
  lemma {:induction false} CommandIsPacket(cmd: Byte, argv: seq<Arg>, p: Packet, rest: seq<Byte>, lb: Option<Byte>)
    requires CmdSpec(cmd, argv) == Ok(p) && |p.body| < MaxPayload
    ensures Header(p.declared % 0x1_0000_0000, 0) + p.body == Frame(p.body, 0)
    ensures NativePacket.ReadFullSpec(NativePacket.RState(Frame(p.body, 0) + rest, lb, 0, false, 0), |p.body|, []).r
            == Ok(p.body)
  {
    DeclaredIsLength(cmd, argv);
    BodyStartsWithCmd(cmd, argv);
    PacketReadsBack(p, rest, lb);
  }

  /** A packet whose header declares its length, sent from sequence number 0, reads back. */
  lemma PacketReadsBack(p: Packet, rest: seq<Byte>, lb: Option<Byte>)
    requires p.declared == |p.body| && 0 < |p.body| < MaxPayload
    ensures Header(p.declared % 0x1_0000_0000, 0) + p.body == Frame(p.body, 0)
    ensures NativePacket.ReadFullSpec(NativePacket.RState(Frame(p.body, 0) + rest, lb, 0, false, 0), |p.body|, []).r
            == Ok(p.body)
  {
    assert p.declared % 0x1_0000_0000 == |p.body|;
    NativePacket.ReadFrame(p.body, 0, rest, lb, []);
    assert [] + p.body == p.body;
  }

  /** Every payload begins with the command byte. */
  lemma BodyStartsWithCmd(cmd: Byte, argv: seq<Arg>)
    requires CmdSpec(cmd, argv).Ok?
    ensures |CmdSpec(cmd, argv).value.body| >= 1 && CmdSpec(cmd, argv).value.body[0] == cmd
  {
  }

  // ---------------------------------------------------------------- writing

  /** What a finished sendCmd leaves: on success, the header with sequence number 0 and the
      payload after what the writer held, and the sequence number at 1; a panic is the error
      its command meets. */
  ghost predicate Sent(my: Utils.Session, w0: seq<Byte>, c: Result<Packet, Error>, r: Result<(), Error>)
    reads my, my.wr
  {
    && (c.Err? ==> r == Err(c.error))
    && (c.Ok? ==>
          && r == Ok(())
          && my.seqNum == 1
          && my.wr.written == w0 + Header(c.value.declared % 0x1_0000_0000, 0) + c.value.body)
  }

  /** sendCmd: reset the sequence number and write the command's packet. */
  method SendCmd(my: Utils.Session, cmd: Byte, argv: seq<Arg>) returns (r: Result<(), Error>)
    modifies my`seqNum, my.wr
    ensures Sent(my, old(my.wr.written), CmdSpec(cmd, argv), r)
  {
    my.seqNum := 0;
    if IsTextCmd(cmd) {
      r := SendText(my, cmd, argv);
    } else if cmd == ComStmtSendLongData {
      r := SendLongData(my, cmd, argv);
    } else if IsBareCmd(cmd) {
      my.WriteHead(1);
      my.wr.Write([cmd]);
      r := Ok(());
    } else if cmd == ComFieldList {
      r := SendFieldList(my, cmd, argv);
    } else if cmd == ComTableDump {
      r := SendTableDump(my, cmd, argv);
    } else if IsByteCmd(cmd) || cmd == ComStmtFetch || IsU32Cmd(cmd) || cmd == ComSetOption {
      r := SendNumbers(my, cmd, argv);
    } else if cmd == ComChangeUser {
      r := SendChangeUser(my, cmd, argv);
    } else if cmd == ComBinlogDump {
      r := SendBinlogDump(my, cmd, argv);
    } else {
      r := Err(UnknownCommand);
    }
  }

  method SendText(my: Utils.Session, cmd: Byte, argv: seq<Arg>) returns (r: Result<(), Error>)
    requires my.seqNum == 0
    modifies my`seqNum, my.wr
    ensures Sent(my, old(my.wr.written), TextSpec(cmd, argv), r)
  {
    var s := At(argv, 0);
    if s.Err? { return Err(s.error); }
    var n := LenBS(s.value);
    if n.Err? { return Err(n.error); }
    var b := WriteBS(s.value).value;
    my.WriteHead(1 + n.value);
    my.wr.Write([cmd]);
    my.wr.Write(b);
    r := Ok(());
  }

  method SendLongData(my: Utils.Session, cmd: Byte, argv: seq<Arg>) returns (r: Result<(), Error>)
    requires my.seqNum == 0
    modifies my`seqNum, my.wr
    ensures Sent(my, old(my.wr.written), LongDataSpec(cmd, argv), r)
  {
    var d := At(argv, 2);
    if d.Err? { return Err(d.error); }
    var n := LenBS(d.value);
    if n.Err? { return Err(n.error); }
    my.WriteHead(1 + 4 + 2 + n.value);
    ghost var w1 := my.wr.written;
    my.wr.Write([cmd]);
    ghost var acc := [cmd];
    var id := U32At(argv, 0);
    if id.Err? { return Err(id.error); }
    Codecs.WriteU32(my.wr, id.value);
    acc := Utils.Append(w1, acc, LeBytes(id.value, 4), my.wr.written);
    var pnum := U16At(argv, 1);
    if pnum.Err? { return Err(pnum.error); }
    Codecs.WriteU16(my.wr, pnum.value);
    acc := Utils.Append(w1, acc, LeBytes(pnum.value, 2), my.wr.written);
    var b := WriteBS(d.value).value;
    my.wr.Write(b);
    acc := Utils.Append(w1, acc, b, my.wr.written);
    r := Ok(());
  }

  method SendFieldList(my: Utils.Session, cmd: Byte, argv: seq<Arg>) returns (r: Result<(), Error>)
    requires my.seqNum == 0
    modifies my`seqNum, my.wr
    ensures Sent(my, old(my.wr.written), FieldListSpec(cmd, argv), r)
  {
    var t := At(argv, 0);
    if t.Err? { return Err(t.error); }
    var n0 := LenBS(t.value);
    if n0.Err? { return Err(n0.error); }
    var payLen := 1 + n0.value + 1;
    if |argv| > 1 {
      var n1 := LenBS(AnyOf(argv[1]));
      if n1.Err? { return Err(n1.error); }
      payLen := payLen + n1.value;
    }
    my.WriteHead(payLen);
    ghost var w1 := my.wr.written;
    my.wr.Write([cmd]);
    ghost var acc := [cmd];
    var _ := Codecs.WriteNT(my.wr, t.value);
    acc := Utils.Append(w1, acc, NativeCodecs.WriteNT(t.value).value, my.wr.written);
    var w: seq<Byte> := [];
    if |argv| > 1 {
      w := WriteBS(AnyOf(argv[1])).value;
      my.wr.Write(w);
    }
    acc := Utils.Append(w1, acc, w, my.wr.written);
    r := Ok(());
  }

  method SendTableDump(my: Utils.Session, cmd: Byte, argv: seq<Arg>) returns (r: Result<(), Error>)
    requires my.seqNum == 0
    modifies my`seqNum, my.wr
    ensures Sent(my, old(my.wr.written), TableDumpSpec(cmd, argv), r)
  {
    var a := At(argv, 0);
    if a.Err? { assert TableDumpSpec(cmd, argv) == Err(a.error); return Err(a.error); }
    var n0 := NativeCodecs.LenLC(a.value);
    if n0.Err? { assert TableDumpSpec(cmd, argv) == Err(n0.error); return Err(n0.error); }
    var b := At(argv, 1);
    if b.Err? { assert TableDumpSpec(cmd, argv) == Err(b.error); return Err(b.error); }
    var n1 := NativeCodecs.LenLC(b.value);
    if n1.Err? { assert TableDumpSpec(cmd, argv) == Err(n1.error); return Err(n1.error); }
    assert TableDumpSpec(cmd, argv) == Ok(Packet(1 + n0.value + n1.value,
      [cmd] + NativeCodecs.WriteLC(a.value).value + NativeCodecs.WriteLC(b.value).value));
    my.WriteHead(1 + n0.value + n1.value);
    WriteTableDump(my.wr, cmd, a.value, b.value);
    r := Ok(());
  }

  /** The payload of COM_TABLE_DUMP after its header. */
  method WriteTableDump(wr: Codecs.Writer, cmd: Byte, a: Any, b: Any)
    requires NativeCodecs.WriteLC(a).Ok? && NativeCodecs.WriteLC(b).Ok?
    modifies wr
    ensures wr.written == old(wr.written) + ([cmd] + NativeCodecs.WriteLC(a).value + NativeCodecs.WriteLC(b).value)
  {
    ghost var w1 := wr.written;
    wr.Write([cmd]);
    ghost var acc := [cmd];
    var _ := Codecs.WriteLC(wr, a);
    acc := Utils.Append(w1, acc, NativeCodecs.WriteLC(a).value, wr.written);
    var _ := Codecs.WriteLC(wr, b);
    acc := Utils.Append(w1, acc, NativeCodecs.WriteLC(b).value, wr.written);
  }

  /** COM_REFRESH, COM_SHUTDOWN, COM_STMT_FETCH, COM_PROCESS_KILL, COM_STMT_CLOSE,
      COM_STMT_RESET and COM_SET_OPTION: a fixed length, then numbers asserted one by one. */
  method SendNumbers(my: Utils.Session, cmd: Byte, argv: seq<Arg>) returns (r: Result<(), Error>)
    requires my.seqNum == 0
    requires IsByteCmd(cmd) || cmd == ComStmtFetch || IsU32Cmd(cmd) || cmd == ComSetOption
    modifies my`seqNum, my.wr
    ensures Sent(my, old(my.wr.written), CmdSpec(cmd, argv), r)
  {
    my.WriteHead(FixedLength(cmd).value);
    ghost var w1 := my.wr.written;
    my.wr.Write([cmd]);
    ghost var acc := [cmd];
    if IsByteCmd(cmd) {
      var b := ByteAt(argv, 0);
      if b.Err? { return Err(b.error); }
      my.wr.Write([b.value]);
      acc := Utils.Append(w1, acc, [b.value], my.wr.written);
    } else if cmd == ComSetOption {
      var opt := U16At(argv, 0);
      if opt.Err? { return Err(opt.error); }
      Codecs.WriteU16(my.wr, opt.value);
      acc := Utils.Append(w1, acc, LeBytes(opt.value, 2), my.wr.written);
    } else {
      var id := U32At(argv, 0);
      if id.Err? { return Err(id.error); }
      Codecs.WriteU32(my.wr, id.value);
      acc := Utils.Append(w1, acc, LeBytes(id.value, 4), my.wr.written);
      if cmd == ComStmtFetch {
        var rows := U32At(argv, 1);
        if rows.Err? { return Err(rows.error); }
        Codecs.WriteU32(my.wr, rows.value);
        acc := Utils.Append(w1, acc, LeBytes(rows.value, 4), my.wr.written);
      }
    }
    r := Ok(());
  }

  method SendChangeUser(my: Utils.Session, cmd: Byte, argv: seq<Arg>) returns (r: Result<(), Error>)
    requires my.seqNum == 0
    modifies my`seqNum, my.wr
    ensures Sent(my, old(my.wr.written), ChangeUserSpec(cmd, argv), r)
  {
    var c := ChangeUserArgs(argv);
    if c.Err? {
      assert ChangeUserSpec(cmd, argv) == Err(c.error);
      return Err(c.error);
    }
    var (u, p, d, payLen) := c.value;
    ChangeUserSpecOf(cmd, argv, u, p, d, payLen);
    my.WriteHead(payLen);
    WriteChangeUser(my.wr, cmd, u, p, d);
    r := Ok(());
  }

  /** The payload of COM_CHANGE_USER after its header. */
  method WriteChangeUser(wr: Codecs.Writer, cmd: Byte, u: Any, p: Any, d: Any)
    requires NativeCodecs.WriteNT(u).Ok? && NativeCodecs.WriteLC(p).Ok? && NativeCodecs.WriteNT(d).Ok?
    modifies wr
    ensures wr.written == old(wr.written) + ([cmd] + NativeCodecs.WriteNT(u).value + NativeCodecs.WriteLC(p).value
                                             + NativeCodecs.WriteNT(d).value)
  {
    ghost var w1 := wr.written;
    wr.Write([cmd]);
    ghost var acc := [cmd];
    var _ := Codecs.WriteNT(wr, u);
    acc := Utils.Append(w1, acc, NativeCodecs.WriteNT(u).value, wr.written);
    var _ := Codecs.WriteLC(wr, p);
    acc := Utils.Append(w1, acc, NativeCodecs.WriteLC(p).value, wr.written);
    var _ := Codecs.WriteNT(wr, d);
    acc := Utils.Append(w1, acc, NativeCodecs.WriteNT(d).value, wr.written);
  }

  method SendBinlogDump(my: Utils.Session, cmd: Byte, argv: seq<Arg>) returns (r: Result<(), Error>)
    requires my.seqNum == 0
    modifies my`seqNum, my.wr
    ensures Sent(my, old(my.wr.written), BinlogDumpSpec(cmd, argv), r)
  {
    var payLen := 1 + 4 + 2 + 4;
    if |argv| > 3 {
      var n3 := LenBS(AnyOf(argv[3]));
      if n3.Err? { return Err(n3.error); }
      payLen := payLen + n3.value;
    }
    my.WriteHead(payLen);
    ghost var w1 := my.wr.written;
    my.wr.Write([cmd]);
    ghost var acc := [cmd];
    var pos := U32At(argv, 0);
    if pos.Err? { return Err(pos.error); }
    Codecs.WriteU32(my.wr, pos.value);
    acc := Utils.Append(w1, acc, LeBytes(pos.value, 4), my.wr.written);
    var flags := U16At(argv, 1);
    if flags.Err? { return Err(flags.error); }
    Codecs.WriteU16(my.wr, flags.value);
    acc := Utils.Append(w1, acc, LeBytes(flags.value, 2), my.wr.written);
    var sid := U32At(argv, 2);
    if sid.Err? { return Err(sid.error); }
    Codecs.WriteU32(my.wr, sid.value);
    acc := Utils.Append(w1, acc, LeBytes(sid.value, 4), my.wr.written);
    var f: seq<Byte> := [];
    if |argv| > 3 {
      f := WriteBS(AnyOf(argv[3])).value;
      my.wr.Write(f);
    }
    acc := Utils.Append(w1, acc, f, my.wr.written);
    r := Ok(());
  }
}
