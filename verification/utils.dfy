/** The connection helpers of the older `mymy` package (utils.go): the packet header writer,
    the handshake reader and the authentication packet.  The handshake is read from the
    payload of its packet (a Codecs.Reader over those bytes); what the packet reader does with
    headers and sequence numbers is the Packet module's.  The bufio writer is a Codecs.Writer,
    whose bytes are what reaches the server once it is flushed. */
module Utils {
  import opened Wrappers
  import opened Bytes
  import opened Errors
  import opened Wire
  import opened NativeCodecs
  import Codecs
  import NativeInit
  import NativePasswd

  /** What init stores in my.info. */
  datatype Info = Info(protVer: Byte, servVer: seq<Byte>, thrId: U32, scramble: seq<Byte>, caps: U16, lang: Byte)

  /** The old MySQL connection: the write buffer, the sequence number and my.info. */
  class Session {
    const wr: Codecs.Writer
    var seqNum: Byte
    var protVer: Byte
    var servVer: seq<Byte>
    var thrId: U32
    var scramble: seq<Byte>
    var caps: U16
    var lang: Byte
    const user: seq<Byte>
    const passwd: seq<Byte>
    const dbname: seq<Byte>

    constructor (w: Codecs.Writer, user: seq<Byte>, passwd: seq<Byte>, dbname: seq<Byte>)
      ensures wr == w && seqNum == 0 && scramble == []
      ensures this.user == user && this.passwd == passwd && this.dbname == dbname
    {
      wr := w;
      this.user, this.passwd, this.dbname := user, passwd, dbname;
      seqNum := 0;
      scramble := [];
    }

    /** writeHead: the low 24 bits of uint32(pay_len) and the sequence number, which then
        moves on by one, wrapping at 256. */
    method WriteHead(payLen: nat)
      modifies wr, this`seqNum
      ensures wr.written == old(wr.written) + Header(payLen % 0x1_0000_0000, old(seqNum))
      ensures seqNum == (old(seqNum) + 1) % 0x100
    {
      Codecs.WriteU24(wr, payLen % 0x1_0000_0000);
      wr.Write([seqNum]);
      seqNum := Next(seqNum);
    }

    /** init: a fresh 20-byte scramble, then the handshake fields in order, and nothing may
        be left in the packet. */
    method Init(rd: Codecs.Reader) returns (r: Result<(), Error>)
      modifies rd, this`protVer, this`servVer, this`thrId, this`scramble, this`caps, this`lang
      ensures var s := InitSpec(old(rd.unread));
        && (s.Err? ==> r == Err(s.error))
        && (s.Ok? ==> r == Ok(()) && protVer == s.value.protVer && servVer == s.value.servVer
                      && thrId == s.value.thrId && scramble == s.value.scramble
                      && caps == s.value.caps && lang == s.value.lang)
    {
      scramble := seq(20, _ => 0);
      r := ReadHead(rd);
      if r.Ok? {
        r := ReadTail(rd);
      }
    }

    /** init up to the first 8 scramble bytes. */
    method ReadHead(rd: Codecs.Reader) returns (r: Result<(), Error>)
      requires |scramble| == 20
      modifies rd, this`protVer, this`servVer, this`thrId, this`scramble
      ensures var h := HeadSpec(old(rd.unread));
        && (h.Err? ==> r == Err(h.error))
        && (h.Ok? ==> r == Ok(()) && rd.unread == h.value.rest && protVer == h.value.value.0
                      && servVer == h.value.value.1 && thrId == h.value.value.2
                      && scramble == h.value.value.3 + old(scramble)[8..])
    {
      var buf := scramble;
      var pv := Codecs.ReadByte(rd);
      if pv.Err? {
        return Err(pv.error);
      }
      protVer := pv.value;
      ghost var s1 := rd.unread;
      var sv := Codecs.ReadNTB(rd);
      NtsOfRead(s1, sv, rd.unread);
      if sv.Err? {
        return Err(sv.error);
      }
      servVer := sv.value;
      var id := Codecs.ReadU32(rd);
      if id.Err? {
        return Err(id.error);
      }
      thrId := id.value;
      var sc1 := rd.ReadFull(8);
      if sc1.Err? {
        return Err(sc1.error);
      }
      scramble := sc1.value + buf[8..];
      r := Ok(());
    }

    /** init from the filler byte after the first scramble part on. */
    method ReadTail(rd: Codecs.Reader) returns (r: Result<(), Error>)
      requires |scramble| == 20
      modifies rd, this`scramble, this`caps, this`lang
      ensures var t := TailSpec(old(rd.unread));
        && (t.Err? ==> r == Err(t.error))
        && (t.Ok? ==> r == Ok(()) && caps == t.value.0 && lang == t.value.1
                      && scramble == old(scramble)[..8] + t.value.2)
    {
      r := ReadFields(rd);
      if r.Ok? {
        r := ReadEnd(rd);
      }
    }

    /** The filler, the capabilities, the character set and the status, which is dropped. */
    method ReadFields(rd: Codecs.Reader) returns (r: Result<(), Error>)
      modifies rd, this`caps, this`lang
      ensures var t := FieldsSpec(old(rd.unread));
        && (t.Err? ==> r == Err(t.error))
        && (t.Ok? ==> r == Ok(()) && rd.unread == t.value.rest && caps == t.value.value.0 && lang == t.value.value.1)
    {
      var f := rd.ReadFull(1);
      if f.Err? {
        return Err(f.error);
      }
      var cp := Codecs.ReadU16(rd);
      if cp.Err? {
        return Err(cp.error);
      }
      caps := cp.value;
      var lg := Codecs.ReadByte(rd);
      if lg.Err? {
        return Err(lg.error);
      }
      lang := lg.value;
      var status := Codecs.ReadU16(rd);
      if status.Err? {
        return Err(status.error);
      }
      r := Ok(());
    }

    /** 13 filler bytes, the other 12 scramble bytes, one more byte and checkEof. */
    method ReadEnd(rd: Codecs.Reader) returns (r: Result<(), Error>)
      requires |scramble| == 20
      modifies rd, this`scramble
      ensures var t := EndSpec(old(rd.unread));
        && (t.Err? ==> r == Err(t.error))
        && (t.Ok? ==> r == Ok(()) && scramble == old(scramble)[..8] + t.value)
    {
      var buf := scramble;
      var f13 := rd.ReadFull(13);
      if f13.Err? {
        return Err(f13.error);
      }
      var sc2 := rd.ReadFull(12);
      if sc2.Err? {
        return Err(sc2.error);
      }
      scramble := buf[..8] + sc2.value;
      var f1 := rd.ReadFull(1);
      if f1.Err? {
        return Err(f1.error);
      }
      if rd.unread != [] {
        return Err(PktLong);
      }
      r := Ok(());
    }

    /** auth: the authentication packet.  The flags are those of OldFlags; the password is
        the token of encryptedPasswd; pay_len counts one length byte for it.  A token that
        cannot be computed panics before anything is written. */
    method Auth(sha1: seq<Byte> -> seq<Byte>) returns (r: Result<(), Error>)
      modifies wr, this`seqNum
      ensures var e := NativePasswd.TokenSpec(passwd, scramble, sha1);
        && (e.Err? ==> r == Err(e.error) && wr.written == old(wr.written) && seqNum == old(seqNum))
        && (e.Ok? ==>
              && r == Ok(()) && seqNum == (old(seqNum) + 1) % 0x100
              && wr.written == old(wr.written) + Header(OldDeclared(user, scramble, dbname) % 0x1_0000_0000, old(seqNum))
                               + OldAuthPayload(OldFlags(|dbname| > 0), lang, user, e.value, dbname))
    {
      var payLen := 4 + 4 + 1 + 23 + |user| + 1 + 1 + |scramble|;
      var flags: bv32 := OldAuthBase;
      if |dbname| > 0 {
        payLen := payLen + |dbname| + 1;
        flags := flags | ClientConnectWithDbFlag;
      }
      var encrPasswd := EncryptedPasswd(passwd, scramble, sha1);
      if encrPasswd.Err? {
        return Err(encrPasswd.error);
      }
      assert payLen == OldDeclared(user, scramble, dbname) && flags == OldFlags(|dbname| > 0);
      WriteHead(payLen);
      WriteAuthBody(wr, flags, lang, user, encrPasswd.value, dbname);
      r := Ok(());
    }
  }

  /** The fields of auth after the header. */
  method WriteAuthBody(wr: Codecs.Writer, flags: bv32, lang: Byte, user: seq<Byte>, scr: seq<Byte>, dbname: seq<Byte>)
    modifies wr
    ensures wr.written == old(wr.written) + OldAuthPayload(flags, lang, user, scr, dbname)
  {
    ghost var w0 := wr.written;
    Codecs.WriteU32(wr, flags as int);
    ghost var acc := EncodeU32(flags as int);
    Codecs.WriteU32(wr, 0x100_0000);
    acc := Append(w0, acc, EncodeU32(0x100_0000), wr.written);
    wr.Write([lang]);
    acc := Append(w0, acc, [lang], wr.written);
    wr.Write(Filler());
    acc := Append(w0, acc, Filler(), wr.written);
    Codecs.WriteNTB(wr, user);
    acc := Append(w0, acc, WriteNTB(user), wr.written);
    Codecs.WriteNbin(wr, Some(scr));
    acc := Append(w0, acc, WriteNbin(Some(scr)), wr.written);
    if |dbname| > 0 {
      Codecs.WriteNTB(wr, dbname);
    }
    acc := Append(w0, acc, if |dbname| > 0 then WriteNTB(dbname) else [], wr.written);
  }

  /** Bookkeeping for a run of writes: after `w0 + acc` the writer got `x`. */
  lemma Append(w0: seq<Byte>, acc: seq<Byte>, x: seq<Byte>, now: seq<Byte>) returns (acc': seq<Byte>)
    requires now == w0 + acc + x
    ensures acc' == acc + x && now == w0 + acc'
  {
    acc' := acc + x;
  }

  /** encryptedPasswd of codecs.go: the mysql_native_password token, with no special case
      for an empty password. */
  method EncryptedPasswd(passwd: seq<Byte>, scramble: seq<Byte>, sha1: seq<Byte> -> seq<Byte>) returns (r: Result<seq<Byte>, Error>)
    ensures r == NativePasswd.TokenSpec(passwd, scramble, sha1)
  {
    var stg1Hash := sha1(passwd);
    var stg2Hash := sha1(stg1Hash);
    var stg3Hash := sha1(scramble + stg2Hash);
    r := NativePasswd.XorLoop(stg3Hash, stg1Hash, |scramble|);
  }

  // ---------------------------------------------------------------- the handshake

  /** readNTS: the bytes before the first 0, which is consumed; a stream without a 0 ends in
      os.EOF itself, since the reads go straight to the packet reader. */
  function Nts(s: seq<Byte>): (r: Result<Got<seq<Byte>>, Error>)
    ensures r.Ok? ==> s == r.value.value + [0] + r.value.rest && NulFree(r.value.value)
    ensures r.Err? ==> r.error == Eof && NulFree(s)
  {
    match NativeInit.SplitNul(s)
    case Ok(g) => Ok(g)
    case Err(_) => Err(Eof)
  }

  /** What Codecs.ReadNTB gives is Nts's answer. */
  lemma NtsOfRead(s: seq<Byte>, r: Result<seq<Byte>, Error>, left: seq<Byte>)
    requires r.Ok? ==> s == r.value + [0] + left && NulFree(r.value)
    requires r.Err? ==> r.error == Eof && left == [] && NulFree(s)
    ensures r == Codecs.ValueOf(Nts(s)) && left == Codecs.RestOf(Nts(s))
  {
    if r.Ok? {
      NativeInit.SplitNulOfRead(s, Ok(Got(r.value, left)));
    } else {
      NativeInit.SplitNulOfRead(s, Err(UnexpectedEof));
    }
  }

  /** The handshake payload as init reads it: HeadSpec's fields, then TailSpec's; a payload
      that ends early fails, and one with bytes left over is PKT_LONG_ERROR. */
  function InitSpec(p: seq<Byte>): (r: Result<Info, Error>)
    ensures r.Ok? ==> |r.value.scramble| == 20 && NulFree(r.value.servVer)
    ensures r.Err? ==> r.error == UnexpectedEof || r.error == Eof || r.error == PktLong
  {
    var h :- HeadSpec(p);
    var t :- TailSpec(h.rest);
    Ok(Info(h.value.0, h.value.1, h.value.2, h.value.3 + t.2, t.0, t.1))
  }

  /** Protocol version, NUL-terminated server version, thread id and 8 scramble bytes. */
  function HeadSpec(p: seq<Byte>): (r: Result<Got<(Byte, seq<Byte>, U32, seq<Byte>)>, Error>)
    ensures r.Ok? ==> |r.value.value.3| == 8 && NulFree(r.value.value.1)
    ensures r.Err? ==> r.error == UnexpectedEof || r.error == Eof
  {
    var pv :- ReadByte(p);
    var sv :- Nts(pv.rest);
    var id :- ReadU32(sv.rest);
    var s1 :- ReadN(id.rest, 8);
    Ok(Got((pv.value, sv.value, id.value, s1.value), s1.rest))
  }

  /** Filler, capabilities, character set, status, 13 filler bytes, the other 12 scramble
      bytes and one more byte, then the end of the packet. */
  function TailSpec(s: seq<Byte>): (r: Result<(U16, Byte, seq<Byte>), Error>)
    ensures r.Ok? ==> |r.value.2| == 12
    ensures r.Err? ==> r.error == UnexpectedEof || r.error == PktLong
  {
    var a :- FieldsSpec(s);
    var b :- EndSpec(a.rest);
    Ok((a.value.0, a.value.1, b))
  }

  function FieldsSpec(s: seq<Byte>): (r: Result<Got<(U16, Byte)>, Error>)
    ensures r.Err? ==> r.error == UnexpectedEof
  {
    var f :- ReadN(s, 1);
    var cp :- ReadU16(f.rest);
    var lg :- ReadByte(cp.rest);
    var st :- ReadU16(lg.rest);
    Ok(Got((cp.value, lg.value), st.rest))
  }

  function EndSpec(s: seq<Byte>): (r: Result<seq<Byte>, Error>)
    ensures r.Ok? ==> |r.value| == 12
    ensures r.Err? ==> r.error == UnexpectedEof || r.error == PktLong
  {
    var f13 :- ReadN(s, 13);
    var s2 :- ReadN(f13.rest, 12);
    var f1 :- ReadN(s2.rest, 1);
    if f1.rest != [] then Err(PktLong) else Ok(s2.value)
  }

  /** A handshake payload the old client accepts, built from the fields it keeps and the
      bytes it skips: `fill`, the status, the 13 reserved bytes and the last byte. */
  function InitBytes(i: Info, fill: Byte, status: U16, reserved: seq<Byte>, last: Byte): seq<Byte>
    requires |i.scramble| == 20
  {
    [i.protVer] + WriteNTB(i.servVer) + EncodeU32(i.thrId) + i.scramble[..8]
    + ([fill] + EncodeU16(i.caps) + [i.lang] + EncodeU16(status) + reserved + i.scramble[8..] + [last])
  }

  /** init reads back every field of such a payload, and rejects it with PKT_LONG_ERROR when
      anything follows. */
  lemma InitReadsBack(i: Info, fill: Byte, status: U16, reserved: seq<Byte>, last: Byte, rest: seq<Byte>)
    requires |i.scramble| == 20 && NulFree(i.servVer) && |reserved| == 13
    ensures InitSpec(InitBytes(i, fill, status, reserved, last) + rest) == if rest == [] then Ok(i) else Err(PktLong)
  {
    var t := [fill] + EncodeU16(i.caps) + [i.lang] + EncodeU16(status) + reserved + i.scramble[8..] + [last];
    var r3 := i.scramble[..8] + (t + rest);
    var r2 := EncodeU32(i.thrId) + r3;
    var r1 := i.servVer + [0] + r2;
    assert InitBytes(i, fill, status, reserved, last) + rest == [i.protVer] + r1;
    NativeInit.SplitNulWritten(i.servVer, r2);
    DecodeEncodeU32(i.thrId);
    assert r2[..4] == EncodeU32(i.thrId) && r2[4..] == r3;
    assert r3[..8] == i.scramble[..8] && r3[8..] == t + rest;
    TailReadsBack(i.caps, i.lang, fill, status, reserved, i.scramble[8..], last, rest);
    assert i.scramble[..8] + i.scramble[8..] == i.scramble;
  }

  lemma TailReadsBack(caps: U16, lang: Byte, fill: Byte, status: U16, reserved: seq<Byte>, s2: seq<Byte>,
                      last: Byte, rest: seq<Byte>)
    requires |reserved| == 13 && |s2| == 12
    ensures TailSpec([fill] + EncodeU16(caps) + [lang] + EncodeU16(status) + reserved + s2 + [last] + rest)
            == if rest == [] then Ok((caps, lang, s2)) else Err(PktLong)
  {
    var r6 := [last] + rest;
    var r5 := s2 + r6;
    var r4 := reserved + r5;
    var r3 := EncodeU16(status) + r4;
    var r2 := [lang] + r3;
    var r1 := EncodeU16(caps) + r2;
    assert [fill] + EncodeU16(caps) + [lang] + EncodeU16(status) + reserved + s2 + [last] + rest == [fill] + r1;
    DecodeEncodeU16(caps);
    DecodeEncodeU16(status);
    assert r1[..2] == EncodeU16(caps) && r1[2..] == r2;
    assert r3[..2] == EncodeU16(status) && r3[2..] == r4;
    assert r4[..13] == reserved && r4[13..] == r5;
    assert r5[..12] == s2 && r5[12..] == r6;
  }

  // ---------------------------------------------------------------- authentication

  /** CLIENT_PROTOCOL_41 | CLIENT_LONG_PASSWORD | CLIENT_SECURE_CONN | CLIENT_TRANSACTIONS */
  const OldAuthBase: bv32 := 0xa201
  /** CLIENT_CONNECT_WITH_DB */
  const ClientConnectWithDbFlag: bv32 := 0x8

  /** auth's flags: always protocol 4.1, long password, secure connection and transactions,
      and CLIENT_CONNECT_WITH_DB exactly when a database is named. */
  function OldFlags(withDb: bool): (f: bv32)
    ensures f & 0x200 != 0 && f & 0x1 != 0 && f & 0x8000 != 0 && f & 0x2000 != 0
    ensures (f & ClientConnectWithDbFlag != 0) <==> withDb
    ensures f & !(0xa201 | ClientConnectWithDbFlag) == 0
  {
    if withDb then OldAuthBase | ClientConnectWithDbFlag else OldAuthBase
  }

  /** The 23 zero bytes after the character set. */
  function Filler(): (z: seq<Byte>)
    ensures |z| == 23 && forall i :: 0 <= i < 23 ==> z[i] == 0
  {
    seq(23, _ => 0)
  }

  /** The authentication payload: flags, the maximum packet size 1 << 24, the character set,
      23 zero bytes, the NUL-terminated user name, the length-coded password and the
      NUL-terminated database name when there is one. */
  function OldAuthPayload(flags: bv32, lang: Byte, user: seq<Byte>, scr: seq<Byte>, dbname: seq<Byte>): seq<Byte>
  {
    EncodeU32(flags as int) + EncodeU32(0x100_0000) + [lang] + Filler()
    + WriteNTB(user) + WriteNbin(Some(scr))
    + (if |dbname| > 0 then WriteNTB(dbname) else [])
  }

  /** pay_len as auth computes it: one length byte for a password of len(scramble) bytes. */
  function OldDeclared(user: seq<Byte>, scramble: seq<Byte>, dbname: seq<Byte>): nat
  {
    4 + 4 + 1 + 23 + |user| + 1 + 1 + |scramble| + (if |dbname| > 0 then |dbname| + 1 else 0)
  }

  /** pay_len counts exactly the bytes auth writes after the header whenever the password's
      length prefix is one byte, as it is for the 20-byte scramble init makes; a longer
      scramble makes the header understate the payload. */
  lemma {:induction false} OldAuthLength(flags: bv32, lang: Byte, user: seq<Byte>, scramble: seq<Byte>, scr: seq<Byte>,
                                         dbname: seq<Byte>)
    requires |scr| == |scramble| <= MaxInt64
    ensures |scramble| <= 250 <==> |OldAuthPayload(flags, lang, user, scr, dbname)| == OldDeclared(user, scramble, dbname)
  {
    assert |WriteNbin(Some(scr))| == LenLCB(ToU64(|scr|)) + |scr|;
  }

  /** With a payload that fits in one packet, the header and payload auth writes are the
      packet the native reader expects, and the server reads the payload back whole. */
  lemma AuthIsPacket(flags: bv32, lang: Byte, user: seq<Byte>, scramble: seq<Byte>, scr: seq<Byte>, dbname: seq<Byte>, s: Byte)
    requires |scr| == |scramble| <= 250
    requires |OldAuthPayload(flags, lang, user, scr, dbname)| < MaxPayload
    ensures var p := OldAuthPayload(flags, lang, user, scr, dbname);
      Header(OldDeclared(user, scramble, dbname) % 0x1_0000_0000, s) + p == Frame(p, s)
  {
    OldAuthLength(flags, lang, user, scramble, scr, dbname);
  }
}
