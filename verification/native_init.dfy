/** The connection phase of package native (native/init.go): the server's handshake, the
    client's authentication packet with its capability flags, the authentication plugin
    switch, and the two small password packets (section "Connection Phase Packets" of the
    MySQL Client/Server Protocol).

    The handshake is parsed from its payload, the bytes the packet reader delivers; the packet
    layer itself is the subject of NativePacket.  The pktReader and pktWriter helpers init.go
    calls (readNTB, readU16, readU32, skipN, skipAll, writeU32, writeZeros, writeNTB, writeBin)
    are not part of this model: each is taken to read or write the encoding of the same name in
    NativeCodecs, writeBin being writeNbin of a present value. */
module NativeInit {
  import opened Wrappers
  import opened Bytes
  import opened Errors
  import opened Consts
  import opened Wire
  import opened NativeCodecs
  import opened NativePacket
  import opened NativePasswd
  import NativeCommand

  /** A Go string constant as the bytes it holds. */
  function AsBytes(s: string): (b: seq<Byte>)
    ensures |b| == |s|
  {
    seq(|s|, i requires 0 <= i < |s| => (s[i] as int) % 0x100)
  }

  const CachingSha2Password: seq<Byte> := AsBytes("caching_sha2_password")
  const MysqlOldPassword: seq<Byte> := AsBytes("mysql_old_password")

  /** The connection's handshake information, credentials and settings.  The packet sequence
      number and the byte streams are those of `conn`. */
  class Session {
    const conn: Conn
    const scramble: array<Byte>
    var protVer: Byte
    var servVer: seq<Byte>
    var thrId: U32
    var caps: U16
    var lang: Byte
    var status: U16
    var plugin: seq<Byte>
    const user: seq<Byte>
    const passwd: seq<Byte>
    const dbname: seq<Byte>
    const maxPktSize: int

    /** The scramble is a [20]byte. */
    ghost predicate Valid()
      reads this
    {
      scramble.Length == 20
    }

    constructor (c: Conn, user: seq<Byte>, passwd: seq<Byte>, dbname: seq<Byte>, plugin: seq<Byte>, maxPktSize: int)
      ensures Valid() && fresh(scramble) && scramble[..] == seq(20, _ => 0)
      ensures conn == c && this.user == user && this.passwd == passwd && this.dbname == dbname
      ensures this.plugin == plugin && this.maxPktSize == maxPktSize
    {
      conn := c;
      scramble := new Byte[20](_ => 0);
      protVer, servVer, thrId, caps, lang, status := 0, [], 0, 0, 0, 0;
      this.user, this.passwd, this.dbname, this.plugin, this.maxPktSize := user, passwd, dbname, plugin, maxPktSize;
    }

    /** The handshake fields the session holds are those of `h`. */
    ghost predicate Holds(h: Hello)
      reads this, scramble
      requires Valid()
    {
      protVer == h.protVer && servVer == h.servVer && thrId == h.thrId && caps == h.caps
      && lang == h.lang && status == h.status && scramble[..8] == h.scramble1
    }

    /** init: resets the sequence number and reads the greeting through a new packet reader.
        Its first read takes the packet header from the connection (readHeader), which panics
        with the stream's error or with ErrSeq unless the header carries sequence number 0,
        and otherwise advances the sequence number to 1.  The handshake is then read in order
        from `p`, the greeting's payload: the last 12 bytes of the scramble only from a server
        speaking protocol 4.1, and a server that does not is refused with ErrOldProtocol after
        its handshake has been stored. */
    method Init(p: seq<Byte>) returns (r: Result<(), Error>)
      requires Valid()
      modifies this`protVer, this`servVer, this`thrId, this`caps, this`lang, this`status, scramble, conn
      ensures var hd := ReadHeaderSpec(RState(old(conn.input), old(conn.lastByte), 0, false, 0));
        && conn.input == hd.st.input && conn.lastByte == hd.st.lastByte && conn.seqNum == hd.st.seqNum
        && conn.out == old(conn.out) && conn.flushed == old(conn.flushed)
        && (hd.r.Err? ==> r == Err(hd.r.error))
        && (hd.r.Ok? <==> |old(conn.input)| >= 4 && old(conn.input)[3] == 0)
        && (hd.r.Ok? ==> conn.seqNum == 1)
      ensures var hd := ReadHeaderSpec(RState(old(conn.input), old(conn.lastByte), 0, false, 0));
        var h := ParseHello(p);
        hd.r.Ok? ==>
          && (h.Err? ==> r == Err(h.error))
          && (h.Ok? ==>
                && Holds(h.value)
                && scramble[8..] == (if h.value.scramble2.Some? then h.value.scramble2.value else old(scramble[8..]))
                && (r.Ok? <==> Has41(h.value.caps))
                && (r.Err? ==> r.error == OldProtocol))
    {
      conn.seqNum := 0;
      var pr := new PktReader(conn);
      var hd := pr.ReadHeader();
      if hd.Err? {
        return Err(hd.error);
      }
      var rest := ReadHead(p);
      if rest.Err? {
        r := Err(rest.error);
      } else {
        ghost var head := scramble[..8];
        var more := ReadTail(rest.value);
        if more.Err? {
          r := Err(more.error);
        } else if !Has41(caps) {
          r := Err(OldProtocol);
        } else {
          r := Ok(());
        }
      }
    }

    /** The first part of init: protocol version, server version, thread id and the first 8
        bytes of the scramble. */
    method ReadHead(p: seq<Byte>) returns (r: Result<seq<Byte>, Error>)
      requires Valid()
      modifies this`protVer, this`servVer, this`thrId, scramble
      ensures var g := HelloHead(p);
        && (g.Err? ==> r == Err(g.error))
        && (g.Ok? ==> r == Ok(g.value.rest) && protVer == g.value.value.0 && servVer == g.value.value.1
                      && thrId == g.value.value.2 && scramble[..8] == g.value.value.3
                      && scramble[8..] == old(scramble[8..]))
    {
      var pv := InPacket(ReadByte(p));
      if pv.Err? {
        return Err(pv.error);
      }
      protVer := pv.value.value;
      var ntb := NativeCodecs.ReadNTB(pv.value.rest);
      SplitNulOfRead(pv.value.rest, ntb);
      var sv := InPacket(ntb);
      if sv.Err? {
        return Err(sv.error);
      }
      servVer := sv.value.value;
      var id := InPacket(ReadU32(sv.value.rest));
      if id.Err? {
        return Err(id.error);
      }
      thrId := id.value.value;
      var s1 := InPacket(ReadN(id.value.rest, 8));
      if s1.Err? {
        return Err(s1.error);
      }
      Fill(scramble, 0, s1.value.value);
      r := Ok(s1.value.rest);
    }

    /** The rest of init: a filler byte, capabilities, character set, status, 13 filler bytes
        and, under protocol 4.1, the last 12 bytes of the scramble; what follows is skipped. */
    method ReadTail(s: seq<Byte>) returns (r: Result<(), Error>)
      requires Valid()
      modifies this`caps, this`lang, this`status, scramble
      ensures var g := HelloTail(s);
        && (g.Err? ==> r == Err(g.error))
        && (g.Ok? ==> r == Ok(()) && caps == g.value.0 && lang == g.value.1 && status == g.value.2
                      && scramble[..8] == old(scramble[..8])
                      && scramble[8..] == (if g.value.3.Some? then g.value.3.value else old(scramble[8..])))
    {
      var f1 := InPacket(ReadN(s, 1));
      if f1.Err? {
        return Err(f1.error);
      }
      var cp := InPacket(ReadU16(f1.value.rest));
      if cp.Err? {
        return Err(cp.error);
      }
      caps := cp.value.value;
      var lg := InPacket(ReadByte(cp.value.rest));
      if lg.Err? {
        return Err(lg.error);
      }
      lang := lg.value.value;
      var stt := InPacket(ReadU16(lg.value.rest));
      if stt.Err? {
        return Err(stt.error);
      }
      status := stt.value.value;
      var f13 := InPacket(ReadN(stt.value.rest, 13));
      if f13.Err? {
        return Err(f13.error);
      }
      if Has41(caps) {
        var s2 := InPacket(ReadN(f13.value.rest, 12));
        if s2.Err? {
          return Err(s2.error);
        }
        Fill(scramble, 8, s2.value.value);
      }
      r := Ok(());
    }

    /** auth: the authentication packet, and the scrambled password it carries.  The flags
        and the packet are those of AuthFlags and AuthPayload; the packet is declared with
        AuthDeclared bytes, which counts 21 bytes for the plugin name, so the packet is whole
        and flushed only when the name has 21 bytes.  The mysql_old_password plugin sends the
        old-password packet instead and gives nil. */
    method Auth(sha1: seq<Byte> -> seq<Byte>, sha256: (seq<Byte>, seq<Byte>) -> seq<Byte>) returns (r: Result<seq<Byte>, Error>)
      requires Valid()
      modifies conn
      ensures conn.input == old(conn.input) && conn.lastByte == old(conn.lastByte)
      ensures plugin == MysqlOldPassword ==>
        r == Ok([]) && PacketSent(conn, old(conn.out), old(conn.seqNum), EncryptedOldPassword(passwd, scramble[..]) + [0])
      ensures plugin != MysqlOldPassword ==>
        var s := AuthScramble(plugin, passwd, scramble[..], sha1, sha256);
        && (s.Err? ==> r == Err(s.error) && conn.out == old(conn.out) && conn.flushed == old(conn.flushed)
                       && conn.seqNum == old(conn.seqNum))
        && (s.Ok? ==>
              var n := AuthDeclared(user, s.value, dbname);
              AuthWrote(conn, WState(old(conn.out), old(conn.flushed), old(conn.seqNum), 0, n, false),
                        AuthPayload(AuthFlags(caps, plugin == CachingSha2Password, |WriteLCB(ToU64(|s.value|))| > 1, |dbname| > 0), maxPktSize, lang, user, s.value, dbname, plugin),
                        n, r, s.value))
    {
      if plugin == MysqlOldPassword {
        OldPasswd();
        return Ok([]);
      }
      var scrPasswd: Result<seq<Byte>, Error>;
      if plugin == CachingSha2Password {
        scrPasswd := Ok(sha256(passwd, scramble[..]));
      } else {
        scrPasswd := EncryptedPasswd(passwd, scramble[..], sha1);
      }
      assert scrPasswd == AuthScramble(plugin, passwd, scramble[..], sha1, sha256);
      if scrPasswd.Err? {
        return Err(scrPasswd.error);
      }
      ghost var scr := scramble[..];
      r := AuthSend(conn, caps, plugin == CachingSha2Password, maxPktSize, lang, user, scrPasswd.value, dbname, plugin);
      assert scramble[..] == scr;
    }

    /** oldPasswd: encryptedOldPassword's bytes and a 0, in a packet declared to hold them. */
    method OldPasswd()
      requires Valid()
      modifies conn
      ensures conn.input == old(conn.input) && conn.lastByte == old(conn.lastByte)
      ensures PacketSent(conn, old(conn.out), old(conn.seqNum), EncryptedOldPassword(passwd, scramble[..]) + [0])
    {
      var scrPasswd := EncryptedOldPassword(passwd, scramble[..]);
      var pw := new PktWriter(conn, |scrPasswd| + 1);
      ghost var w0 := pw.State();
      var e := WriteMore(pw, scrPasswd, w0, []);
      assert [] + scrPasswd == scrPasswd;
      e := WriteMore(pw, [0], w0, scrPasswd);
      WriteFrame(w0, scrPasswd + [0]);
    }


    /** authResponse, given the two results getAuthResult would read: a plugin switch sets
        the plugin and authenticates again (the result of that auth is dropped), and a second
        switch request ends the exchange.  Under caching_sha2_password a one-byte result 3
        means fast authentication succeeded and 4 asks for the full authentication, which
        sends the scrambled password authResponse was given, not the one the switch
        computed. */
    method AuthResponse(scrPasswd: seq<Byte>, first: AuthResult, second: AuthResult,
                        sha1: seq<Byte> -> seq<Byte>, sha256: (seq<Byte>, seq<Byte>) -> seq<Byte>)
      returns (r: Result<AuthStep, Error>)
      requires Valid() && |scrPasswd| <= MaxInt64
      modifies this`plugin, conn
      ensures plugin == (if first.newPlugin != [] then first.newPlugin else old(plugin))
      ensures conn.input == old(conn.input) && conn.lastByte == old(conn.lastByte)
      ensures r.Ok? ==> r.value == ResponsePlan(old(plugin), first, second)
      ensures first.newPlugin == [] ==>
        var next := ResponsePlan(old(plugin), first, second);
        && (next != FullAuth ==> r == Ok(next) && conn.out == old(conn.out) && conn.flushed == old(conn.flushed)
                                 && conn.seqNum == old(conn.seqNum))
        && (next == FullAuth && |scrPasswd| <= 250 ==>
              r == Ok(FullAuth) && PacketSent(conn, old(conn.out), old(conn.seqNum), WriteNbin(Some(scrPasswd))))
        && (next == FullAuth && |scrPasswd| > 250 ==> r == Err(TooManyData))
      ensures first.newPlugin != [] && r == Ok(FullAuth) ==> EndsWithPacket(conn, WriteNbin(Some(scrPasswd)))
    {
      ghost var next := ResponsePlan(plugin, first, second);
      var data := first.data;
      if first.newPlugin != [] {
        plugin := first.newPlugin;
        var a := Auth(sha1, sha256);
        if a.Err? {
          return Err(a.error);
        }
        data := second.data;
        if second.newPlugin != [] {
          assert next == Finished;
          return Ok(Finished);
        }
      }
      r := Ok(Finished);
      if plugin == CachingSha2Password && |data| == 1 {
        if data[0] == 3 {
          assert data == [3];
          r := Ok(FastAuth);
        } else if data[0] == 4 {
          assert data == [4] && next == FullAuth;
          ghost var s0, out0 := conn.seqNum, conn.out;
          var e := WriteAuthSwitchPacket(conn, scrPasswd);
          if e.Err? {
            r := Err(e.error);
          } else {
            r := Ok(FullAuth);
            EndsWithSent(conn, out0, s0, WriteNbin(Some(scrPasswd)));
          }
        }
      }
    }
  }

  /** What getAuthResult reads: the result's data and the plugin a switch request names
      (empty when there is none). */
  datatype AuthResult = AuthResult(data: seq<Byte>, newPlugin: seq<Byte>)

  /** How authResponse ends: nothing more to do, the OK packet of a fast authentication to
      read (getResult, which is not part of this model), or the full authentication sent. */
  datatype AuthStep = Finished | FastAuth | FullAuth

  /** authResponse's decision: the plugin and the result that count are the switched-to
      plugin and the second result after a switch request, else the session's plugin and the
      first result. */
  function ResponsePlan(plugin: seq<Byte>, first: AuthResult, second: AuthResult): (r: AuthStep)
    ensures first.newPlugin != [] && second.newPlugin != [] ==> r == Finished
    ensures var pl := if first.newPlugin != [] then first.newPlugin else plugin;
      var res := if first.newPlugin != [] then second else first;
      && (r == FastAuth <==> res.newPlugin == [] && pl == CachingSha2Password && res.data == [3])
      && (r == FullAuth <==> res.newPlugin == [] && pl == CachingSha2Password && res.data == [4])
  {
    var pl := if first.newPlugin != [] then first.newPlugin else plugin;
    var res := if first.newPlugin != [] then second else first;
    if first.newPlugin != [] && second.newPlugin != [] then Finished
    else if pl == CachingSha2Password && |res.data| == 1 && res.data[0] == 3 then FastAuth
    else if pl == CachingSha2Password && |res.data| == 1 && res.data[0] == 4 then FullAuth
    else Finished
  }

  /** The last bytes on the connection are a packet of payload p, all of it flushed. */
  ghost predicate EndsWithPacket(c: Conn, p: seq<Byte>)
    reads c
    requires p != []
  {
    c.flushed == |c.out| && exists s: Byte :: |Frame(p, s)| <= |c.out| && c.out[|c.out| - |Frame(p, s)|..] == Frame(p, s)
  }

  lemma EndsWithSent(c: Conn, out0: seq<Byte>, s0: Byte, p: seq<Byte>)
    requires p != [] && PacketSent(c, out0, s0, p)
    ensures EndsWithPacket(c, p)
  {
    assert c.out[|c.out| - |Frame(p, s0)|..] == Frame(p, s0);
  }

  /** The flags and the declared length of auth for a scrambled password, then its writes. */
  method AuthSend(conn: Conn, caps: U16, sha2: bool, maxPktSize: int, lang: Byte, user: seq<Byte>, scr: seq<Byte>,
                  dbname: seq<Byte>, plugin: seq<Byte>) returns (r: Result<seq<Byte>, Error>)
    modifies conn
    ensures conn.input == old(conn.input) && conn.lastByte == old(conn.lastByte)
    ensures var n := AuthDeclared(user, scr, dbname);
      AuthWrote(conn, WState(old(conn.out), old(conn.flushed), old(conn.seqNum), 0, n, false),
                AuthPayload(AuthFlags(caps, sha2, |WriteLCB(ToU64(|scr|))| > 1, |dbname| > 0), maxPktSize, lang, user, scr, dbname, plugin),
                n, r, scr)
  {
    var authRespLEI := WriteLCB(ToU64(|scr|));
    var payLen := 4 + 4 + 1 + 23 + |user| + 1 + |authRespLEI| + |scr| + 21 + 1;
    if |dbname| > 0 {
      payLen := payLen + |dbname| + 1;
    }
    var flags := ClientFlags(caps, sha2, |authRespLEI| > 1, |dbname| > 0);
    assert payLen == AuthDeclared(user, scr, dbname);
    r := WriteAuth(conn, flags, maxPktSize, lang, user, scr, dbname, plugin, payLen);
  }

  /** auth's flags: the base set restricted to the server's capabilities in the low 16 bits,
      then CLIENT_PLUGIN_AUTH for caching_sha2_password, CLIENT_PLUGIN_AUTH_LENENC_CLIENT_DATA
      for a password whose length prefix is longer than a byte, CLIENT_CONNECT_WITH_DB with a
      database name. */
  method ClientFlags(caps: U16, sha2: bool, lenenc: bool, withDb: bool) returns (flags: bv32)
    ensures flags == AuthFlags(caps, sha2, lenenc, withDb)
  {
    flags := AuthBaseFlags;
    flags := flags & ((caps as bv32) | 0xffff_0000);
    if sha2 {
      flags := flags | ClientPluginAuth;
    }
    if lenenc {
      flags := flags | ClientPluginAuthLenencClientData;
    }
    if withDb {
      flags := flags | ClientConnectWithDbFlag;
    }
  }

  /** writeAuthSwitchPacket: the password as length-coded binary in a packet declared one
      byte longer than the password, which holds it exactly when the length fits in one
      byte; a longer password is "too many data". */
  method WriteAuthSwitchPacket(conn: Conn, scrPasswd: seq<Byte>) returns (r: Result<(), Error>)
    requires |scrPasswd| <= MaxInt64
    modifies conn
    ensures conn.input == old(conn.input) && conn.lastByte == old(conn.lastByte)
    ensures |scrPasswd| <= 250 ==> r == Ok(()) && PacketSent(conn, old(conn.out), old(conn.seqNum), WriteNbin(Some(scrPasswd)))
    ensures |scrPasswd| > 250 ==> r == Err(TooManyData)
  {
    var pw := new PktWriter(conn, |scrPasswd| + 1);
    ghost var w0 := pw.State();
    var b := WriteNbin(Some(scrPasswd));
    assert |b| == LenLCB(|scrPasswd|) + |scrPasswd|;
    var e := WriteMore(pw, b, w0, []);
    assert [] + b == b;
    if e.Ok? {
      WriteFrame(w0, b);
      r := Ok(());
    } else {
      r := Err(e.error);
    }
  }

  /** The writes of auth, from newPktWriter(pay_len) on. */
  method WriteAuth(conn: Conn, flags: bv32, maxPktSize: int, lang: Byte, user: seq<Byte>, scr: seq<Byte>,
                   dbname: seq<Byte>, plugin: seq<Byte>, payLen: nat) returns (r: Result<seq<Byte>, Error>)
    modifies conn
    ensures conn.input == old(conn.input) && conn.lastByte == old(conn.lastByte)
    ensures AuthWrote(conn, WState(old(conn.out), old(conn.flushed), old(conn.seqNum), 0, payLen, false),
                      AuthPayload(flags, maxPktSize, lang, user, scr, dbname, plugin), payLen, r, scr)
  {
    ghost var w0 := WState(conn.out, conn.flushed, conn.seqNum, 0, payLen, false);
    var pw := new PktWriter(conn, payLen);
    assert pw.State() == w0;
    var a1, a2, a3, a4 := EncodeU32(flags as int), EncodeU32(maxPktSize % 0x1_0000_0000), [lang], seq(23, _ => 0);
    var a5, a6 := WriteNTB(user), WriteNbin(Some(scr));
    var a7 := if |dbname| > 0 then WriteNTB(dbname) else [];
    var a8 := if plugin != [] then WriteNTB(plugin) else [];
    ghost var p := AuthPayload(flags, maxPktSize, lang, user, scr, dbname, plugin);
    assert p == a1 + a2 + a3 + a4 + a5 + a6 + a7 + a8;
    var e := WriteFour(pw, a1, a2, a3, a4, w0, []);
    assert [] + (a1 + a2 + a3 + a4) == a1 + a2 + a3 + a4;
    if e.Err? {
      TooMany(conn, w0, p, scr);
      return Err(e.error);
    }
    e := WriteMore(pw, a5, w0, a1 + a2 + a3 + a4);
    if e.Err? {
      TooMany(conn, w0, p, scr);
      return Err(e.error);
    }
    e := WriteMore(pw, a6, w0, a1 + a2 + a3 + a4 + a5);
    if e.Err? {
      TooMany(conn, w0, p, scr);
      return Err(e.error);
    }
    ghost var done := a1 + a2 + a3 + a4 + a5 + a6;
    if |dbname| > 0 {
      e := WriteMore(pw, a7, w0, done);
      if e.Err? {
        TooMany(conn, w0, p, scr);
        return Err(e.error);
      }
      done := done + a7;
    } else {
      assert done + a7 == done;
    }
    assert done == a1 + a2 + a3 + a4 + a5 + a6 + a7;
    if plugin != [] {
      e := WriteMore(pw, a8, w0, done);
      if e.Err? {
        TooMany(conn, w0, p, scr);
        return Err(e.error);
      }
      done := done + a8;
    } else {
      assert done + a8 == done;
    }
    assert done == p;
    Fits(conn, w0, p, scr);
    r := Ok(scr);
  }

  /** readFull into a slice of an array: `src` copied to a[off..], the rest untouched. */
  method Fill(a: array<Byte>, off: nat, src: seq<Byte>)
    requires off + |src| <= a.Length
    modifies a
    ensures a[..] == old(a[..])[..off] + src + old(a[..])[off + |src|..]
  {
    forall i | 0 <= i < |src| {
      a[off + i] := src[i];
    }
  }

  // ---------------------------------------------------------------- the handshake

  /** What the handshake tells the client; `scramble2` is read only under protocol 4.1. */
  datatype Hello = Hello(protVer: Byte, servVer: seq<Byte>, thrId: U32, scramble1: seq<Byte>,
                         caps: U16, lang: Byte, status: U16, scramble2: Option<seq<Byte>>)

  /** `caps & CLIENT_PROTOCOL_41 != 0` */
  predicate Has41(caps: U16)
  {
    (caps / ClientProtocol41) % 2 == 1
  }

  /** readNTB as a function: the bytes before the first 0, which is consumed. */
  function SplitNul(s: seq<Byte>): (r: Result<Got<seq<Byte>>, Error>)
    ensures r.Ok? ==> s == r.value.value + [0] + r.value.rest && NulFree(r.value.value)
    ensures r.Err? ==> r.error == UnexpectedEof && NulFree(s)
  {
    if s == [] then Err(UnexpectedEof)
    else if s[0] == 0 then Ok(Got([], s[1..]))
    else
      var g :- SplitNul(s[1..]);
      assert s == [s[0]] + s[1..];
      Ok(Got([s[0]] + g.value, g.rest))
  }

  /** Whatever readNTB returns is SplitNul's answer: a split at a 0 with no 0 before it is the
      only one. */
  lemma SplitNulOfRead(s: seq<Byte>, r: Result<Got<seq<Byte>>, Error>)
    requires r.Ok? ==> s == r.value.value + [0] + r.value.rest && NulFree(r.value.value)
    requires r.Err? ==> r.error == UnexpectedEof && NulFree(s)
    ensures r == SplitNul(s)
  {
    var q := SplitNul(s);
    if r.Ok? && q.Ok? {
      NulSplitUnique(r.value.value, r.value.rest, q.value.value, q.value.rest);
    } else if r.Ok? {
      ZeroAt(r.value.value, r.value.rest);
      assert false;
    } else if q.Ok? {
      ZeroAt(q.value.value, q.value.rest);
      assert false;
    }
  }

  /** The packet reader's own reads (pr.readByte and pr.readFull, and the readNTB, readU16,
      readU32 and skipN built on them): when the bytes run out inside the last packet,
      readHeader panics with io.EOF (native/packet.go:24-27). */
  function InPacket<T>(r: Result<Got<T>, Error>): (q: Result<Got<T>, Error>)
    ensures q.Ok? <==> r.Ok?
    ensures q.Ok? ==> q == r
    ensures q.Err? ==> q.error == Eof
  {
    if r.Err? then Err(Eof) else r
  }

  /** The handshake payload: protocol version, NUL-terminated server version, thread id,
      8 scramble bytes, a filler byte, capabilities, character set, status, 13 filler bytes,
      then the other 12 scramble bytes when the capabilities have CLIENT_PROTOCOL_41.  What
      follows is skipped.  A payload that ends early is the io.EOF panic of readHeader. */
  function ParseHello(p: seq<Byte>): (r: Result<Hello, Error>)
    ensures r.Ok? ==> |r.value.scramble1| == 8 && NulFree(r.value.servVer)
    ensures r.Ok? ==> (r.value.scramble2.Some? <==> Has41(r.value.caps))
    ensures r.Ok? && r.value.scramble2.Some? ==> |r.value.scramble2.value| == 12
    ensures r.Err? ==> r.error == Eof
  {
    var hd :- HelloHead(p);
    var tl :- HelloTail(hd.rest);
    Ok(Hello(hd.value.0, hd.value.1, hd.value.2, hd.value.3, tl.0, tl.1, tl.2, tl.3))
  }

  /** The head of the handshake: protocol version, server version, thread id and the first
      half of the scramble. */
  function HelloHead(p: seq<Byte>): (r: Result<Got<(Byte, seq<Byte>, U32, seq<Byte>)>, Error>)
    ensures r.Ok? ==> |r.value.value.3| == 8 && NulFree(r.value.value.1)
    ensures r.Err? ==> r.error == Eof
  {
    var pv :- InPacket(ReadByte(p));
    var sv :- InPacket(SplitNul(pv.rest));
    var id :- InPacket(ReadU32(sv.rest));
    var s1 :- InPacket(ReadN(id.rest, 8));
    Ok(Got((pv.value, sv.value, id.value, s1.value), s1.rest))
  }

  /** The tail of the handshake: it needs 1 + 2 + 1 + 2 + 13 bytes, and 12 more under
      protocol 4.1, and fails with io.EOF exactly when they are not there. */
  function HelloTail(s: seq<Byte>): (r: Result<(U16, Byte, U16, Option<seq<Byte>>), Error>)
    ensures r.Ok? ==> (r.value.3.Some? <==> Has41(r.value.0))
    ensures r.Ok? && r.value.3.Some? ==> |r.value.3.value| == 12
    ensures r.Err? <==> |s| < 19 || (Has41(LeValue(s[1..3])) && |s| < 31)
    ensures r.Err? ==> r.error == Eof
  {
    var f1 :- InPacket(ReadN(s, 1));
    var cp :- InPacket(ReadU16(f1.rest));
    var lg :- InPacket(ReadByte(cp.rest));
    var st :- InPacket(ReadU16(lg.rest));
    var f13 :- InPacket(ReadN(st.rest, 13));
    if Has41(cp.value) then
      var s2 :- InPacket(ReadN(f13.rest, 12));
      Ok((cp.value, lg.value, st.value, Some(s2.value)))
    else
      Ok((cp.value, lg.value, st.value, None))
  }

  // ---------------------------------------------------------------- handshake round trip

  /** A handshake init can store: a server version without NUL, 8 + 12 scramble bytes, the
      last 12 present exactly under protocol 4.1. */
  predicate WellFormed(h: Hello)
  {
    NulFree(h.servVer) && |h.scramble1| == 8 && (h.scramble2.Some? <==> Has41(h.caps))
    && (h.scramble2.Some? ==> |h.scramble2.value| == 12)
  }

  /** The handshake as a server sends it, with `fill` as the filler byte and `reserved` as the
      13 bytes that follow the status. */
  function HelloBytes(h: Hello, fill: Byte, reserved: seq<Byte>): seq<Byte>
  {
    HeadBytes(h) + TailBytes(h, fill, reserved)
  }

  function HeadBytes(h: Hello): seq<Byte>
  {
    [h.protVer] + WriteNTB(h.servVer) + EncodeU32(h.thrId) + h.scramble1
  }

  function TailBytes(h: Hello, fill: Byte, reserved: seq<Byte>): seq<Byte>
  {
    [fill] + EncodeU16(h.caps) + [h.lang] + EncodeU16(h.status) + reserved
    + (if h.scramble2.Some? then h.scramble2.value else [])
  }

  /** init reads back every field of a well-formed handshake, whatever follows it. */
  lemma ParseHelloBytes(h: Hello, fill: Byte, reserved: seq<Byte>, rest: seq<Byte>)
    requires WellFormed(h) && |reserved| == 13
    ensures ParseHello(HelloBytes(h, fill, reserved) + rest) == Ok(h)
  {
    var t := TailBytes(h, fill, reserved) + rest;
    assert HelloBytes(h, fill, reserved) + rest == HeadBytes(h) + t;
    HeadReadsBack(h, t);
    TailReadsBack(h, fill, reserved, rest);
  }

  lemma HeadReadsBack(h: Hello, t: seq<Byte>)
    requires NulFree(h.servVer) && |h.scramble1| == 8
    ensures HelloHead(HeadBytes(h) + t) == Ok(Got((h.protVer, h.servVer, h.thrId, h.scramble1), t))
  {
    var r3 := h.scramble1 + t;
    var r2 := EncodeU32(h.thrId) + r3;
    var r1 := h.servVer + [0] + r2;
    assert HeadBytes(h) + t == [h.protVer] + r1;
    SplitNulWritten(h.servVer, r2);
    DecodeEncodeU32(h.thrId);
    assert r2[..4] == EncodeU32(h.thrId) && r2[4..] == r3;
    assert r3[..8] == h.scramble1 && r3[8..] == t;
  }

  lemma TailReadsBack(h: Hello, fill: Byte, reserved: seq<Byte>, rest: seq<Byte>)
    requires WellFormed(h) && |reserved| == 13
    ensures HelloTail(TailBytes(h, fill, reserved) + rest) == Ok((h.caps, h.lang, h.status, h.scramble2))
  {
    var scr2 := if h.scramble2.Some? then h.scramble2.value else [];
    var r5 := scr2 + rest;
    var r4 := reserved + r5;
    var r3 := EncodeU16(h.status) + r4;
    var r2 := [h.lang] + r3;
    var r1 := EncodeU16(h.caps) + r2;
    var s := [fill] + r1;
    TailBytesNested(h, fill, reserved, rest);
    ReadNWritten([fill], r1);
    ReadU16Written(h.caps, r2);
    ReadU16Written(h.status, r4);
    ReadNWritten(reserved, r5);
    ReadNWritten(scr2, rest);
    HelloTailReads(s, fill, h.caps, h.lang, h.status, reserved, h.scramble2, r1, r2, r3, r4, r5, rest);
  }

  /** TailBytes followed by more bytes, nested to the right as the reads consume it. */
  lemma TailBytesNested(h: Hello, fill: Byte, reserved: seq<Byte>, rest: seq<Byte>)
    ensures var scr2 := if h.scramble2.Some? then h.scramble2.value else [];
      TailBytes(h, fill, reserved) + rest
      == [fill] + (EncodeU16(h.caps) + ([h.lang] + (EncodeU16(h.status) + (reserved + (scr2 + rest)))))
  {
  }

  /** HelloTail, field by field: what each read returns decides the result. */
  lemma HelloTailReads(s: seq<Byte>, fill: Byte, caps: U16, lang: Byte, status: U16, reserved: seq<Byte>,
                       s2: Option<seq<Byte>>, r1: seq<Byte>, r2: seq<Byte>, r3: seq<Byte>, r4: seq<Byte>,
                       r5: seq<Byte>, rest: seq<Byte>)
    requires ReadN(s, 1) == Ok(Got([fill], r1)) && ReadU16(r1) == Ok(Got(caps, r2))
    requires ReadByte(r2) == Ok(Got(lang, r3)) && ReadU16(r3) == Ok(Got(status, r4))
    requires ReadN(r4, 13) == Ok(Got(reserved, r5))
    requires s2.Some? <==> Has41(caps)
    requires s2.Some? ==> ReadN(r5, 12) == Ok(Got(s2.value, rest))
    ensures HelloTail(s) == Ok((caps, lang, status, s2))
  {
  }

  /** readNTB of writeNTB(b) + rest, for b without NUL. */
  lemma SplitNulWritten(b: seq<Byte>, rest: seq<Byte>)
    requires NulFree(b)
    ensures SplitNul(b + [0] + rest) == Ok(Got(b, rest))
  {
    var q := SplitNul(b + [0] + rest);
    if q.Ok? {
      NulSplitUnique(b, rest, q.value.value, q.value.rest);
    } else {
      ZeroAt(b, rest);
      assert false;
    }
  }

  // ---------------------------------------------------------------- authentication

  /** CLIENT_CONNECT_WITH_DB, and CLIENT_PLUGIN_AUTH and CLIENT_PLUGIN_AUTH_LENENC_CLIENT_DATA
      as the protocol numbers them. */
  const ClientConnectWithDbFlag: bv32 := 0x8
  const ClientPluginAuth: bv32 := 0x8_0000
  const ClientPluginAuthLenencClientData: bv32 := 0x20_0000

  /** The capabilities auth starts from: PROTOCOL_41, LONG_PASSWORD, LONG_FLAG, TRANSACTIONS,
      SECURE_CONN, LOCAL_FILES, MULTI_STATEMENTS and MULTI_RESULTS. */
  const AuthBaseFlags: bv32 := 0x3_A285

  /** auth's flags: the base set with the low 16 bits cut down to the server's capabilities,
      then PLUGIN_AUTH for caching_sha2_password, PLUGIN_AUTH_LENENC_CLIENT_DATA when the
      password's length prefix takes more than one byte, and CONNECT_WITH_DB when a database
      is named.  The upper 16 bits but the two plugin flags are the base set's, and the lower
      16 bits but CONNECT_WITH_DB are the base flags the server advertises. */
  function AuthFlags(caps: U16, sha2: bool, lenenc: bool, withDb: bool): (f: bv32)
    ensures f & 0xfff7 == AuthBaseFlags & (caps as bv32) & 0xfff7
    ensures f & 0xffd7_0000 == AuthBaseFlags & 0xffd7_0000
    ensures (f & ClientConnectWithDbFlag != 0) <==> withDb
    ensures (f & ClientPluginAuth != 0) <==> sha2
    ensures (f & ClientPluginAuthLenencClientData != 0) <==> lenenc
  {
    var f0 := AuthBaseFlags & ((caps as bv32) | 0xffff_0000);
    var f1 := if sha2 then f0 | ClientPluginAuth else f0;
    var f2 := if lenenc then f1 | ClientPluginAuthLenencClientData else f1;
    if withDb then f2 | ClientConnectWithDbFlag else f2
  }

  /** The scrambled password: caching_sha2_password's scrambler, or encryptedPasswd. */
  function AuthScramble(plugin: seq<Byte>, passwd: seq<Byte>, scramble: seq<Byte>, sha1: seq<Byte> -> seq<Byte>,
                        sha256: (seq<Byte>, seq<Byte>) -> seq<Byte>): Result<seq<Byte>, Error>
  {
    if plugin == CachingSha2Password then Ok(sha256(passwd, scramble)) else EncryptedSpec(passwd, scramble, sha1)
  }

  /** The authentication packet's payload: flags, maximum packet size, character set, 23 zero
      bytes, the NUL-terminated user name, the length-coded password, the NUL-terminated
      database name when there is one, and the NUL-terminated plugin name when there is one. */
  function AuthPayload(flags: bv32, maxPktSize: int, lang: Byte, user: seq<Byte>, scr: seq<Byte>,
                       dbname: seq<Byte>, plugin: seq<Byte>): seq<Byte>
  {
    EncodeU32(flags as int) + EncodeU32(maxPktSize % 0x1_0000_0000) + [lang] + seq(23, _ => 0)
    + WriteNTB(user) + WriteNbin(Some(scr))
    + (if |dbname| > 0 then WriteNTB(dbname) else [])
    + (if plugin != [] then WriteNTB(plugin) else [])
  }

  /** pay_len as auth computes it. */
  function AuthDeclared(user: seq<Byte>, scr: seq<Byte>, dbname: seq<Byte>): nat
  {
    4 + 4 + 1 + 23 + |user| + 1 + |WriteLCB(ToU64(|scr|))| + |scr| + 21 + 1
    + (if |dbname| > 0 then |dbname| + 1 else 0)
  }

  /** The declared length counts every byte written but the plugin name's, for which it
      counts 21 bytes and the NUL: it is exact iff the plugin name has 21 bytes, as
      "caching_sha2_password" and "mysql_native_password" do. */
  lemma AuthLength(flags: bv32, maxPktSize: int, lang: Byte, user: seq<Byte>, scr: seq<Byte>,
                   dbname: seq<Byte>, plugin: seq<Byte>)
    ensures var p := AuthPayload(flags, maxPktSize, lang, user, scr, dbname, plugin);
      |p| + 22 == AuthDeclared(user, scr, dbname) + (if plugin != [] then |plugin| + 1 else 0)
      && (|p| == AuthDeclared(user, scr, dbname) <==> |plugin| == 21)
  {
  }

  /** A packet of one write sequence: the payload framed from the sequence number it started
      at, all of it flushed. */
  ghost predicate PacketSent(c: Conn, out0: seq<Byte>, seq0: Byte, p: seq<Byte>)
    reads c
    requires p != []
  {
    c.out == out0 + Frame(p, seq0) && c.flushed == |c.out| && c.seqNum == Advance(seq0, FrameCount(p))
  }

  /** What auth's writes leave: with no more bytes than declared, the writer's state after the
      whole payload and the scrambled password as the result, the packet itself when the
      count is exact, and "too many data" when there are more. */
  ghost predicate AuthWrote(c: Conn, w0: WState, p: seq<Byte>, declared: nat, r: Result<seq<Byte>, Error>, scr: seq<Byte>)
    reads c
  {
    && (|p| <= declared ==>
          var o := WriteSpec(w0, p).st;
          r == Ok(scr) && c.out == o.out && c.flushed == o.flushed && c.seqNum == o.seqNum)
    && (|p| > declared ==> r == Err(TooManyData))
    && (|p| == declared && p != [] ==> PacketSent(c, w0.out, w0.seqNum, p))
  }

  /** One more write after `done`: it succeeds iff everything still fits in what was declared,
      and then the writer is where one write of done + x would have left it. */
  method WriteMore(pw: PktWriter, x: seq<Byte>, ghost w0: WState, ghost done: seq<Byte>) returns (e: Result<(), Error>)
    requires pw.State() == WriteSpec(w0, done).st && WriteSpec(w0, done).r.Ok?
    requires |done| <= w0.remain + w0.toWrite
    modifies pw, pw.conn
    ensures pw.conn == old(pw.conn) && pw.conn.input == old(pw.conn.input) && pw.conn.lastByte == old(pw.conn.lastByte)
    ensures e.Ok? <==> |done| + |x| <= w0.remain + w0.toWrite
    ensures e.Err? ==> e.error == TooManyData
    ensures e.Ok? ==> pw.State() == WriteSpec(w0, done + x).st && WriteSpec(w0, done + x).r.Ok?
  {
    e := pw.Write(x);
    WriteNext(w0, done, x);
  }

  /** Four writes in a row, stopping at the first that fails. */
  method WriteFour(pw: PktWriter, x1: seq<Byte>, x2: seq<Byte>, x3: seq<Byte>, x4: seq<Byte>,
                   ghost w0: WState, ghost done: seq<Byte>) returns (e: Result<(), Error>)
    requires pw.State() == WriteSpec(w0, done).st && WriteSpec(w0, done).r.Ok?
    requires |done| <= w0.remain + w0.toWrite
    modifies pw, pw.conn
    ensures pw.conn == old(pw.conn) && pw.conn.input == old(pw.conn.input) && pw.conn.lastByte == old(pw.conn.lastByte)
    ensures e.Ok? <==> |done| + |x1| + |x2| + |x3| + |x4| <= w0.remain + w0.toWrite
    ensures e.Err? ==> e.error == TooManyData
    ensures e.Ok? ==> pw.State() == WriteSpec(w0, done + (x1 + x2 + x3 + x4)).st && WriteSpec(w0, done + (x1 + x2 + x3 + x4)).r.Ok?
  {
    e := WriteMore(pw, x1, w0, done);
    if e.Err? {
      return;
    }
    e := WriteMore(pw, x2, w0, done + x1);
    if e.Err? {
      return;
    }
    e := WriteMore(pw, x3, w0, done + x1 + x2);
    if e.Err? {
      return;
    }
    e := WriteMore(pw, x4, w0, done + x1 + x2 + x3);
    assert done + x1 + x2 + x3 + x4 == done + (x1 + x2 + x3 + x4);
  }

  /** Two writes in a row: the second succeeds iff both fit in what was declared, and then they
      are one write of both. */
  lemma WriteNext(st: WState, done: seq<Byte>, x: seq<Byte>)
    requires WriteSpec(st, done).r.Ok? && |done| <= st.remain + st.toWrite
    ensures var o := WriteSpec(WriteSpec(st, done).st, x);
      && (o.r.Ok? <==> |done| + |x| <= st.remain + st.toWrite)
      && (o.r.Err? ==> o.r.error == TooManyData)
      && (o.r.Ok? ==> o == WriteSpec(st, done + x))
  {
    var st1 := WriteSpec(st, done).st;
    if done == [] {
      assert st1 == st && done + x == x;
      FillCount(st, x);
    } else {
      FillCount(st, done);
      FillCount(st1, x);
      if |done| + |x| <= st.remain + st.toWrite {
        NativeCommand.WriteOn(st, done, x);
      }
    }
  }

  /** The writes overran what was declared. */
  lemma TooMany(c: Conn, w0: WState, p: seq<Byte>, scr: seq<Byte>)
    requires |p| > w0.remain + w0.toWrite
    ensures AuthWrote(c, w0, p, w0.remain + w0.toWrite, Err(TooManyData), scr)
  {
  }

  /** All writes went through: the connection is where one write of the payload leaves it. */
  lemma Fits(c: Conn, w0: WState, p: seq<Byte>, scr: seq<Byte>)
    requires w0.remain == 0 && !w0.last && |p| <= w0.toWrite
    requires var o := WriteSpec(w0, p).st; c.out == o.out && c.flushed == o.flushed && c.seqNum == o.seqNum
    ensures AuthWrote(c, w0, p, w0.toWrite, Ok(scr), scr)
  {
    if |p| == w0.toWrite && p != [] {
      WriteFrame(w0, p);
    }
  }
}
