/** The packet reader of the first generation of the library (packet.go): an io.Reader over
    the payloads of consecutive packets.  Read reports every failure as its error result,
    because the panics of readU24 and readByte are recovered into it; readAll reads through
    readFull of common.go, which lets a failure escape as a panic, an Err result here.

    The reader shares its state with the one of package native (NativePacket.RState), and
    ReadFull is proved to read the same bytes from the same stream as readFull of package
    native, and to fail where it fails: only the end of the stream is named differently. */
module Packet {
  import opened Wrappers
  import opened Bytes
  import opened Errors
  import opened Wire
  import NativeCodecs
  import opened NativePacket

  /** What one Read call returns, and the state after it. */
  datatype ReadOut = ReadOut(got: seq<Byte>, err: Option<Error>, st: RState)

  /** readFull and readByte of common.go report the end of the stream as
      io.ErrUnexpectedEOF. */
  function Unexpected(e: Error): (u: Error)
    ensures u != Eof && (e != Eof ==> u == e)
  {
    if e == Eof then UnexpectedEof else e
  }

  /** The header Read reads when the current packet is used up: a 3-byte length through
      readU24 and the sequence byte through readByte.  Both go through readFull and readByte
      of common.go, so they fail on the same input as readHeader of package native, with
      io.EOF renamed io.ErrUnexpectedEOF; only a read after the last packet is io.EOF. */
  function HeaderSpec(st: RState): (o: Outcome<()>)
    ensures o.st == ReadHeaderSpec(st).st && (o.r.Ok? <==> ReadHeaderSpec(st).r.Ok?)
    ensures o.r.Err? ==> (o.r.error == Eof <==> st.last)
  {
    var h := ReadHeaderSpec(st);
    if !st.last && h.r.Err? then Outcome(Err(Unexpected(h.r.error)), h.st) else h
  }

  /** pktReader.Read: a header first when the packet is used up, then at most `n` bytes of
      the packet, as many as the connection delivers; an empty packet gives nothing. */
  function ReadSpec(st: RState, n: nat): (o: ReadOut)
    ensures n == 0 ==> o == ReadOut([], None, st)
    ensures |o.got| <= n && |o.st.input| + |o.got| <= |st.input|
    ensures o.err.Some? ==> o.got == []
    ensures o.err.None? && n != 0 ==> |o.st.input| < |st.input|
  {
    if n == 0 then ReadOut([], None, st)
    else
      var h := if st.remain == 0 then HeaderSpec(st) else Outcome(Ok(()), st);
      if h.r.Err? then ReadOut([], Some(h.r.error), h.st)
      else if h.st.remain == 0 then ReadOut([], None, h.st)
      else
        var t := TakeSpec(h.st, n);
        if t.r.Err? then ReadOut([], Some(t.r.error), t.st) else ReadOut(t.r.value, None, t.st)
  }

  class PktReader {
    var conn: Conn
    var remain: int
    var last: bool

    /** newPktReader: no packet read yet. */
    constructor (c: Conn)
      ensures conn == c && remain == 0 && !last
    {
      conn, remain, last := c, 0, false;
    }

    ghost function State(): RState
      reads this, conn
    {
      RState(conn.input, conn.lastByte, remain, last, conn.seqNum)
    }

    /** The header part of Read: readU24, then readByte for the sequence number. */
    method ReadHeader() returns (r: Result<(), Error>)
      modifies this, conn
      ensures Outcome(r, State()) == HeaderSpec(old(State()))
      ensures conn == old(conn) && conn.out == old(conn.out) && conn.flushed == old(conn.flushed)
    {
      if last {
        return Err(Eof);
      }
      // readU24: readFull of three bytes, io.EOF becoming io.ErrUnexpectedEOF.
      var hd := conn.ReadFull(3);
      if hd.Err? {
        return Err(UnexpectedEof);
      }
      assert hd.value[..3] == hd.value;
      remain := NativeCodecs.DecodeU24(hd.value);
      var sq := conn.ReadByte();
      if sq.Err? {
        return Err(UnexpectedEof);
      }
      if conn.seqNum != sq.value {
        return Err(SeqError);
      }
      conn.seqNum := Next(conn.seqNum);
      last := remain != MaxPayload;
      r := Ok(());
    }

    method Read(n: nat) returns (got: seq<Byte>, err: Option<Error>)
      modifies this, conn
      ensures ReadOut(got, err, State()) == ReadSpec(old(State()), n)
      ensures conn == old(conn) && conn.out == old(conn.out) && conn.flushed == old(conn.flushed)
    {
      if n == 0 {
        return [], None;
      }
      if remain == 0 {
        var h := ReadHeader();
        if h.Err? {
          return [], Some(h.error);
        }
      }
      if remain < 0 {
        return [], Some(IndexOutOfRange);
      }
      got, err := conn.Read(Min(n, remain));
      remain := remain - |got|;
    }

    method UnreadByte() returns (r: Result<(), Error>)
      modifies this, conn
      ensures Outcome(r, State()) == UnreadByteSpec(old(State()))
      ensures conn == old(conn) && conn.out == old(conn.out) && conn.flushed == old(conn.flushed)
    {
      var err := conn.UnreadByte();
      if err.Some? {
        return Err(err.value);
      }
      remain := remain + 1;
      r := Ok(());
    }

    /** eof: the packet is used up and no packet follows it. */
    predicate AtEof()
      reads this
    {
      remain == 0 && last
    }

    /** checkEof: unread payload, or a packet still to come, is PKT_LONG_ERROR. */
    method CheckEof() returns (r: Result<(), Error>)
      ensures r.Ok? <==> AtEof()
      ensures r.Err? ==> r.error == PktLong
    {
      if !AtEof() {
        return Err(PktLong);
      }
      r := Ok(());
    }
  }

  /** readFull of common.go with the packet reader as its io.Reader: it reads what readFull
      of package native reads, and fails where that fails, io.EOF becoming
      io.ErrUnexpectedEOF. */
  method ReadFull(pr: PktReader, n: nat) returns (r: Result<seq<Byte>, Error>)
    modifies pr, pr.conn
    ensures Outcome(r, pr.State()) == Renamed(ReadFullSpec(old(pr.State()), n, []))
    ensures pr.conn == old(pr.conn) && pr.conn.out == old(pr.conn.out) && pr.conn.flushed == old(pr.conn.flushed)
  {
    var buf: seq<Byte> := [];
    var nn := 0;
    while nn < n
      invariant nn <= n && |buf| == nn
      invariant pr.conn == old(pr.conn) && pr.conn.out == old(pr.conn.out) && pr.conn.flushed == old(pr.conn.flushed)
      invariant ReadFullSpec(pr.State(), n - nn, buf) == ReadFullSpec(old(pr.State()), n, [])
      decreases |pr.conn.input|
    {
      ghost var pre := pr.State();
      var kk, err := pr.Read(n - nn);
      ReadStep(pre, n - nn, buf, kk, err, pr.State());
      if err.Some? {
        return Err(Unexpected(err.value));
      }
      ghost var left := n - nn - |kk|;
      buf := buf + kk;
      nn := nn + |kk|;
      assert n - nn == left;
    }
    r := Ok(buf);
  }

  /** readAll: the rest of the current packet.  When that packet is not the last one, the
      second turn reads nothing and changes no state; the third slices buf[2R:] of an R-byte
      buffer, a runtime panic when R > 0, and with R == 0 the loop runs forever, which is
      NoProgress here. */
  method ReadAll(pr: PktReader) returns (r: Result<seq<Byte>, Error>)
    modifies pr, pr.conn
    ensures pr.conn == old(pr.conn)
    ensures old(pr.remain) < 0 ==> r == Err(IndexOutOfRange)
    ensures old(pr.remain) >= 0 ==>
      var o := Renamed(ReadFullSpec(old(pr.State()), old(pr.remain), []));
      pr.State() == o.st
      && r == (if o.r.Err? || o.st.last then o.r
               else if old(pr.remain) > 0 then Err(IndexOutOfRange)
               else Err(NoProgress))
  {
    if pr.remain < 0 {
      return Err(IndexOutOfRange);
    }
    var len := pr.remain;
    var buf := ReadFull(pr, len);
    if buf.Err? || pr.last {
      return buf;
    }
    ghost var fixed := pr.State();
    var again := ReadFull(pr, 0);
    assert pr.State() == fixed && again == Ok([]) && !pr.last;
    if len > 0 {
      r := Err(IndexOutOfRange);
    } else {
      r := Err(NoProgress);
    }
  }

  // ---------------------------------------------------------------- properties

  /** After the last packet Read reports os.EOF and changes nothing. */
  lemma NothingAfterLast(st: RState, n: nat)
    requires st.last && st.remain == 0 && n != 0
    ensures ReadSpec(st, n) == ReadOut([], Some(Eof), st)
  {
  }

  /** A header whose sequence byte is not the expected one is SEQ_ERROR, and the counter
      stays; a good one advances it and sets last from the length. */
  lemma ReadSequence(st: RState, n: nat)
    requires st.remain == 0 && !st.last && |st.input| >= 4 && n != 0
    ensures var o := ReadSpec(st, n);
      (st.input[3] != st.seqNum ==> o.err == Some(SeqError) && o.st.seqNum == st.seqNum)
      && (st.input[3] == st.seqNum ==> o.st.seqNum == Next(st.seqNum)
                                       && o.st.last == (LeValue(st.input[..3]) != MaxPayload))
  {
  }

  /** Read never returns more than the packet still holds, and remain goes down by exactly
      what it returns. */
  lemma ReadWithinPacket(st: RState, n: nat)
    requires st.remain > 0
    ensures var o := ReadSpec(st, n);
      |o.got| <= st.remain && o.st.remain == st.remain - |o.got| && o.st.seqNum == st.seqNum
      && o.got == st.input[..|o.got|] && o.st.input == st.input[|o.got|..]
  {
  }

  /** A failure of readFull in package native, as the first generation names it. */
  function Renamed(o: Outcome<seq<Byte>>): (u: Outcome<seq<Byte>>)
    ensures u.st == o.st && (u.r.Ok? <==> o.r.Ok?) && (o.r.Ok? ==> u == o)
    ensures u.r.Err? ==> u.r.error != Eof && (o.r.error != Eof ==> u.r.error == o.r.error)
  {
    if o.r.Err? then Outcome(Err(Unexpected(o.r.error)), o.st) else o
  }

  /** One Read is one turn of readFull of package native: it fails as that fails, up to the
      name of io.EOF, or leaves it with the bytes it returned read. */
  lemma ReadStep(st: RState, n: nat, acc: seq<Byte>, got: seq<Byte>, err: Option<Error>, st2: RState)
    requires n != 0 && ReadSpec(st, n) == ReadOut(got, err, st2)
    ensures err.Some? ==> Renamed(ReadFullSpec(st, n, acc)) == Outcome(Err(Unexpected(err.value)), st2)
    ensures err.None? ==> |got| <= n && ReadFullSpec(st, n, acc) == ReadFullSpec(st2, n - |got|, acc + got)
  {
    if err.Some? {
      ReadFails(st, n, acc, err.value, st2);
    } else {
      ReadGoes(st, n, acc, got, st2);
    }
  }

  lemma ReadFails(st: RState, n: nat, acc: seq<Byte>, e: Error, st2: RState)
    requires n != 0 && ReadSpec(st, n) == ReadOut([], Some(e), st2)
    ensures Renamed(ReadFullSpec(st, n, acc)) == Outcome(Err(Unexpected(e)), st2)
  {
    if st.remain == 0 {
      var h := ReadHeaderSpec(st);
      if h.r.Err? {
        HeaderFails(st, n, acc, h);
      } else {
        HeaderGood(st, n, acc, h);
        PartStep(h.st, n, acc);
      }
    } else {
      PartStep(st, n, acc);
    }
  }

  lemma ReadGoes(st: RState, n: nat, acc: seq<Byte>, got: seq<Byte>, st2: RState)
    requires n != 0 && ReadSpec(st, n) == ReadOut(got, None, st2)
    ensures |got| <= n && ReadFullSpec(st, n, acc) == ReadFullSpec(st2, n - |got|, acc + got)
  {
    if st.remain == 0 {
      var h := ReadHeaderSpec(st);
      HeaderGood(st, n, acc, h);
      if h.st.remain != 0 {
        PartGoes(h.st, n, acc, got, st2);
      } else {
        assert got == [] && st2 == h.st;
        assert acc + got == acc;
      }
    } else {
      PartGoes(st, n, acc, got, st2);
    }
  }

  lemma PartGoes(st: RState, n: nat, acc: seq<Byte>, got: seq<Byte>, st2: RState)
    requires n != 0 && st.remain != 0 && ReadSpec(st, n) == ReadOut(got, None, st2)
    ensures |got| <= n && ReadFullSpec(st, n, acc) == ReadFullSpec(st2, n - |got|, acc + got)
  {
    PartStep(st, n, acc);
    var t := TakeSpec(st, n);
    assert t.r == Ok(got) && t.st == st2;
  }

  lemma HeaderFails(st: RState, n: nat, acc: seq<Byte>, h: Outcome<()>)
    requires n != 0 && st.remain == 0 && h == ReadHeaderSpec(st) && h.r.Err?
    ensures ReadSpec(st, n) == ReadOut([], Some(HeaderSpec(st).r.error), h.st)
    ensures ReadFullSpec(st, n, acc) == Outcome(Err(h.r.error), h.st)
  {
  }

  lemma HeaderGood(st: RState, n: nat, acc: seq<Byte>, h: Outcome<()>)
    requires n != 0 && st.remain == 0 && h == ReadHeaderSpec(st)
    ensures h.r.Err? ==> ReadSpec(st, n).err.Some?
    ensures h.r.Ok? ==> ReadFullSpec(st, n, acc) == ReadFullSpec(h.st, n, acc)
    ensures h.r.Ok? && h.st.remain == 0 ==> ReadSpec(st, n) == ReadOut([], None, h.st)
    ensures h.r.Ok? && h.st.remain != 0 ==> ReadSpec(st, n) == ReadSpec(h.st, n)
  {
  }

  lemma PartStep(st: RState, n: nat, acc: seq<Byte>)
    requires n != 0 && st.remain != 0
    ensures var t := TakeSpec(st, n);
      ReadSpec(st, n) == (if t.r.Err? then ReadOut([], Some(t.r.error), t.st) else ReadOut(t.r.value, None, t.st))
      && ReadFullSpec(st, n, acc) == (if t.r.Err? then Outcome(Err(t.r.error), t.st)
                                      else ReadFullSpec(t.st, n - |t.r.value|, acc + t.r.value))
  {
  }
}
