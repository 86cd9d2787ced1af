/** The packet layer of package native (native/packet.go).  A pktReader reads payload bytes
    out of the packets on the connection, reading a header whenever the current packet is
    used up; a pktWriter cuts a payload whose length it is told in advance into packets.
    Both share the connection's sequence number.  A panic of the Go code is an Err result
    here, and the state it leaves is stated too.

    Each method is proved to do what a pure step function of the whole state says; the
    properties are proved about those functions: the writer emits exactly the Frame of the
    payload, and readFull of a Frame gives the payload back. */
module NativePacket {
  import opened Wrappers
  import opened Bytes
  import opened Errors
  import opened Wire
  import NativeCodecs

  /** What a pktReader sees: the connection's unread bytes, the byte UnreadByte would put
      back and the sequence number, and its own remain and last. */
  datatype RState = RState(input: seq<Byte>, lastByte: Option<Byte>, remain: int, last: bool, seqNum: Byte)

  datatype Outcome<T> = Outcome(r: Result<T, Error>, st: RState)

  /** readHeader: no packet may follow the last one (io.EOF); a header is a 3-byte length
      and the sequence byte, which must be the expected one (mysql.ErrSeq).  Only a packet of
      0xffffff bytes has a successor. */
  function ReadHeaderSpec(st: RState): (o: Outcome<()>)
    ensures st.last ==> o == Outcome(Err(Eof), st)
    ensures o.r.Ok? <==> !st.last && |st.input| >= 4 && st.input[3] == st.seqNum
    ensures o.r.Ok? ==> o.st.input == st.input[4..] && o.st.seqNum == Next(st.seqNum)
                        && o.st.remain == LeValue(st.input[..3]) && o.st.last == (o.st.remain != MaxPayload)
  {
    if st.last then Outcome(Err(Eof), st)
    else if |st.input| < 3 then
      Outcome(Err(if st.input == [] then Eof else UnexpectedEof),
              st.(input := [], lastByte := if st.input == [] then st.lastByte else Some(st.input[|st.input| - 1])))
    else
      var len := NativeCodecs.DecodeU24(st.input);
      var st1 := st.(input := st.input[3..], lastByte := Some(st.input[2]), remain := len);
      if st1.input == [] then Outcome(Err(Eof), st1)
      else
        var b := st1.input[0];
        var st2 := st1.(input := st1.input[1..], lastByte := Some(b));
        if b != st.seqNum then Outcome(Err(SeqError), st2)
        else Outcome(Ok(()), st2.(seqNum := Next(st.seqNum), last := len != MaxPayload))
  }

  /** One turn of readFull's loop after the header check: up to `n` bytes of the current
      packet, as many as the connection delivers. */
  function TakeSpec(st: RState, n: nat): (o: Outcome<seq<Byte>>)
    requires n != 0 && st.remain != 0
    ensures o.r.Ok? ==> 0 < |o.r.value| <= n && |o.st.input| < |st.input|
  {
    if st.remain < 0 then Outcome(Err(IndexOutOfRange), st)
    else if st.input == [] then Outcome(Err(Eof), st)
    else
      var k := Min(Min(n, st.remain), |st.input|);
      var got := st.input[..k];
      Outcome(Ok(got), st.(input := st.input[k..], lastByte := Some(got[k - 1]), remain := st.remain - k))
  }

  /** readFull: `acc` holds what the earlier turns of the loop read. */
  function ReadFullSpec(st: RState, n: nat, acc: seq<Byte>): (o: Outcome<seq<Byte>>)
    decreases |st.input|, n
  {
    if n == 0 then Outcome(Ok(acc), st)
    else if st.remain == 0 then
      var h := ReadHeaderSpec(st);
      if h.r.Err? then Outcome(Err(h.r.error), h.st)
      else ReadFullSpec(h.st, n, acc)
    else
      var t := TakeSpec(st, n);
      if t.r.Err? then Outcome(Err(t.r.error), t.st)
      else ReadFullSpec(t.st, n - |t.r.value|, acc + t.r.value)
  }

  /** A successful readFull returns exactly `n` bytes after those of `acc`. */
  lemma {:induction false} ReadFullSpecLength(st: RState, n: nat, acc: seq<Byte>)
    ensures var o := ReadFullSpec(st, n, acc);
      o.r.Ok? ==> |o.r.value| == |acc| + n && o.r.value[..|acc|] == acc
    decreases |st.input|, n
  {
    if n == 0 {
    } else if st.remain == 0 {
      var h := ReadHeaderSpec(st);
      if h.r.Ok? {
        ReadFullHeader(st, n, acc, h);
        ReadFullSpecLength(h.st, n, acc);
      }
    } else {
      var t := TakeSpec(st, n);
      if t.r.Ok? {
        ReadFullTake(st, n, acc, t);
        ReadFullSpecLength(t.st, n - |t.r.value|, acc + t.r.value);
        PrefixOfPrefix(acc, t.r.value, ReadFullSpec(t.st, n - |t.r.value|, acc + t.r.value), n, n - |t.r.value|);
      }
    }
  }

  lemma PrefixOfPrefix(acc: seq<Byte>, v: seq<Byte>, o: Outcome<seq<Byte>>, n: nat, m: nat)
    requires n == |v| + m
    requires o.r.Ok? ==> |o.r.value| == |acc + v| + m && o.r.value[..|acc + v|] == acc + v
    ensures o.r.Ok? ==> |o.r.value| == |acc| + n && o.r.value[..|acc|] == acc
  {
    if o.r.Ok? {
      assert o.r.value[..|acc|] == o.r.value[..|acc + v|][..|acc|];
    }
  }

  /** readFull's loop after a header was read. */
  lemma ReadFullHeader(st: RState, n: nat, acc: seq<Byte>, h: Outcome<()>)
    requires n != 0 && st.remain == 0 && h == ReadHeaderSpec(st) && h.r.Ok?
    ensures ReadFullSpec(st, n, acc) == ReadFullSpec(h.st, n, acc)
  {
  }

  /** readFull's loop after a part of the open packet was read. */
  lemma ReadFullTake(st: RState, n: nat, acc: seq<Byte>, t: Outcome<seq<Byte>>)
    requires n != 0 && st.remain != 0 && t == TakeSpec(st, n) && t.r.Ok?
    ensures |t.r.value| <= n
    ensures ReadFullSpec(st, n, acc) == ReadFullSpec(t.st, n - |t.r.value|, acc + t.r.value)
  {
  }

  /** readByte: a header first when the packet is used up, then one byte. */
  function ReadByteSpec(st: RState): (o: Outcome<Byte>)
  {
    var h := if st.remain == 0 then ReadHeaderSpec(st) else Outcome(Ok(()), st);
    if h.r.Err? then Outcome(Err(h.r.error), h.st)
    else if h.st.input == [] then Outcome(Err(Eof), h.st)
    else
      var b := h.st.input[0];
      Outcome(Ok(b), h.st.(input := h.st.input[1..], lastByte := Some(b), remain := h.st.remain - 1))
  }

  /** unreadByte: the byte goes back to the connection and to the packet. */
  function UnreadByteSpec(st: RState): (o: Outcome<()>)
  {
    if st.lastByte.None? then Outcome(Err(InvalidUnread), st)
    else Outcome(Ok(()), st.(input := [st.lastByte.value] + st.input, lastByte := None, remain := st.remain + 1))
  }

  class PktReader {
    var conn: Conn
    var remain: int
    var last: bool

    /** newPktReader: no packet read yet. */
    constructor (c: Conn)
      ensures conn == c && remain == 0 && !last
    {
      conn, remain, last := c, 0, false;
    }

    ghost function State(): RState
      reads this, conn
    {
      RState(conn.input, conn.lastByte, remain, last, conn.seqNum)
    }

    method ReadHeader() returns (r: Result<(), Error>)
      modifies this, conn
      ensures Outcome(r, State()) == ReadHeaderSpec(old(State()))
      ensures conn == old(conn) && conn.out == old(conn.out) && conn.flushed == old(conn.flushed)
    {
      if last {
        return Err(Eof);
      }
      var buf := conn.ReadFull(3);
      if buf.Err? {
        return Err(buf.error);
      }
      assert buf.value[..3] == buf.value;
      remain := NativeCodecs.DecodeU24(buf.value);
      var sq := conn.ReadByte();
      if sq.Err? {
        return Err(sq.error);
      }
      if conn.seqNum != sq.value {
        return Err(SeqError);
      }
      conn.seqNum := Next(conn.seqNum);
      last := remain != MaxPayload;
      r := Ok(());
    }

    /** readFull: n bytes of payload, crossing into the next packet when the current one is
        used up. */
    method ReadFull(n: nat) returns (r: Result<seq<Byte>, Error>)
      modifies this, conn
      ensures Outcome(r, State()) == ReadFullSpec(old(State()), n, [])
      ensures conn == old(conn) && conn.out == old(conn.out) && conn.flushed == old(conn.flushed)
    {
      var got: seq<Byte> := [];
      var left: nat := n;
      while true
        invariant conn == old(conn) && conn.out == old(conn.out) && conn.flushed == old(conn.flushed)
        invariant ReadFullSpec(State(), left, got) == ReadFullSpec(old(State()), n, [])
        decreases |conn.input|, left
      {
        if left == 0 {
          return Ok(got);
        }
        if remain == 0 {
          ghost var st0 := State();
          var h := ReadHeader();
          if h.Err? {
            return Err(h.error);
          }
          ReadFullHeader(st0, left, got, Outcome(h, State()));
          if remain == 0 {
            // An empty packet: the zero-length read that would follow changes nothing.
            continue;
          }
        }
        ghost var st1 := State();
        var part := ReadPart(left);
        if part.Err? {
          return Err(part.error);
        }
        ReadFullTake(st1, left, got, Outcome(part, State()));
        got := got + part.value;
        left := left - |part.value|;
      }
    }

    /** The body of readFull's loop once a packet is open: the bytes the connection delivers
        of those the packet still holds, up to `n`. */
    method ReadPart(n: nat) returns (r: Result<seq<Byte>, Error>)
      requires n != 0 && remain != 0
      modifies this, conn
      ensures Outcome(r, State()) == TakeSpec(old(State()), n)
      ensures conn == old(conn) && conn.out == old(conn.out) && conn.flushed == old(conn.flushed)
    {
      if remain < 0 {
        return Err(IndexOutOfRange);
      }
      var data, err := conn.Read(Min(n, remain));
      remain := remain - |data|;
      if err.Some? {
        return Err(err.value);
      }
      r := Ok(data);
    }

    method ReadByte() returns (r: Result<Byte, Error>)
      modifies this, conn
      ensures Outcome(r, State()) == ReadByteSpec(old(State()))
      ensures conn == old(conn) && conn.out == old(conn.out) && conn.flushed == old(conn.flushed)
    {
      if remain == 0 {
        var h := ReadHeader();
        if h.Err? {
          return Err(h.error);
        }
      }
      r := conn.ReadByte();
      if r.Ok? {
        remain := remain - 1;
      }
    }

    method UnreadByte() returns (r: Result<(), Error>)
      modifies this, conn
      ensures Outcome(r, State()) == UnreadByteSpec(old(State()))
      ensures conn == old(conn) && conn.out == old(conn.out) && conn.flushed == old(conn.flushed)
    {
      var err := conn.UnreadByte();
      if err.Some? {
        return Err(err.value);
      }
      remain := remain + 1;
      r := Ok(());
    }

    /** eof: the packet is used up and no packet follows it. */
    predicate AtEof()
      reads this
    {
      remain == 0 && last
    }

    /** checkEof: unread payload, or a packet still to come, is mysql.ErrPktLong. */
    method CheckEof() returns (r: Result<(), Error>)
      ensures r.Ok? <==> AtEof()
      ensures r.Err? ==> r.error == PktLong
    {
      if !AtEof() {
        return Err(PktLong);
      }
      r := Ok(());
    }
  }

  // ---------------------------------------------------------------- reader properties

  /** Reading within the current packet takes the next n bytes and lowers remain by n. */
  lemma ReadWithinPacket(st: RState, n: nat)
    requires 0 < n <= st.remain && n <= |st.input|
    ensures ReadFullSpec(st, n, []) ==
            Outcome(Ok(st.input[..n]), st.(input := st.input[n..], lastByte := Some(st.input[n - 1]),
                                           remain := st.remain - n))
  {
    var t := TakeSpec(st, n);
    assert t.r == Ok(st.input[..n]);
    assert [] + st.input[..n] == st.input[..n];
    assert ReadFullSpec(st, n, []) == ReadFullSpec(t.st, 0, st.input[..n]);
  }

  /** A header whose sequence byte is not the expected one is mysql.ErrSeq, and the counter
      stays as it was; a good one advances it by one. */
  lemma HeaderSequence(st: RState)
    requires !st.last && |st.input| >= 4
    ensures ReadHeaderSpec(st).r == (if st.input[3] == st.seqNum then Ok(()) else Err(SeqError))
    ensures ReadHeaderSpec(st).st.seqNum == if st.input[3] == st.seqNum then Next(st.seqNum) else st.seqNum
  {
  }

  /** After the last packet, every read ends in io.EOF and changes nothing. */
  lemma NothingAfterLast(st: RState, n: nat)
    requires st.last && st.remain == 0 && n != 0
    ensures ReadFullSpec(st, n, []) == Outcome(Err(Eof), st)
    ensures ReadByteSpec(st) == Outcome(Err(Eof), st)
  {
  }

  /** unreadByte after a readByte puts the byte back in the packet: the stream and remain are
      those readByte found once the header, if any, was read. */
  lemma UnreadAfterRead(st: RState)
    requires ReadByteSpec(st).r.Ok?
    ensures var h := if st.remain == 0 then ReadHeaderSpec(st).st else st;
      var u := UnreadByteSpec(ReadByteSpec(st).st);
      u.r.Ok? && u.st.input == h.input && u.st.remain == h.remain && u.st.seqNum == h.seqNum
  {
    var h := if st.remain == 0 then ReadHeaderSpec(st).st else st;
    assert [h.input[0]] + h.input[1..] == h.input;
  }

  /** What reading a whole frame leaves: the payload, behind what was read before, and the
      stream positioned after its packets.  Only the packets the payload needs are read: when
      the last of them is full, the empty packet that closes the frame stays unread and
      `last` stays false. */
  ghost predicate ReadsFrame(p: seq<Byte>, s: Byte, rest: seq<Byte>, acc: seq<Byte>, o: Outcome<seq<Byte>>)
    requires p != []
  {
    var k := FrameCount(p);
    o.r == Ok(acc + p) && o.st.remain == 0 && o.st.last == (|p| % MaxPayload != 0)
    && o.st.lastByte == Some(p[|p| - 1])
    && (o.st.last ==> o.st.input == rest && o.st.seqNum == Advance(s, k))
    && (!o.st.last ==> o.st.input == Header(0, o.st.seqNum) + rest && Next(o.st.seqNum) == Advance(s, k))
  }

  /** readFull of a framed payload gives the payload back. */
  lemma {:induction false} ReadFrame(p: seq<Byte>, s: Byte, rest: seq<Byte>, lb: Option<Byte>, acc: seq<Byte>)
    requires p != []
    ensures ReadsFrame(p, s, rest, acc, ReadFullSpec(RState(Frame(p, s) + rest, lb, 0, false, s), |p|, acc))
    decreases |p|, 1
  {
    if |p| < MaxPayload {
      ReadShortFrame(p, s, rest, lb, acc);
    } else if |p| == MaxPayload {
      ReadFullFrame(p, s, rest, lb, acc);
    } else {
      ReadLongFrame(p, s, rest, lb, acc);
    }
  }

  /** A frame of one short packet. */
  lemma ReadShortFrame(p: seq<Byte>, s: Byte, rest: seq<Byte>, lb: Option<Byte>, acc: seq<Byte>)
    requires p != [] && |p| < MaxPayload
    ensures ReadsFrame(p, s, rest, acc, ReadFullSpec(RState(Frame(p, s) + rest, lb, 0, false, s), |p|, acc))
  {
    var st0 := RState(Frame(p, s) + rest, lb, 0, false, s);
    var st1 := OnePacket(st0, p, rest, acc, |p|, 0);
    assert ReadFullSpec(st0, |p|, acc) == Outcome(Ok(acc + p), st1);
    assert FrameCount(p) == 1;
    ModStep(|p|);
  }

  /** A frame of one full packet, closed by an empty one that readFull does not need. */
  lemma ReadFullFrame(p: seq<Byte>, s: Byte, rest: seq<Byte>, lb: Option<Byte>, acc: seq<Byte>)
    requires |p| == MaxPayload
    ensures ReadsFrame(p, s, rest, acc, ReadFullSpec(RState(Frame(p, s) + rest, lb, 0, false, s), |p|, acc))
  {
    var st0 := RState(Frame(p, s) + rest, lb, 0, false, s);
    assert p[..MaxPayload] == p && p[MaxPayload..] == [];
    assert Frame(p[MaxPayload..], Next(s)) == Header(0, Next(s)) + [];
    assert st0.input == Header(|p|, s) + p + (Header(0, Next(s)) + rest);
    var st1 := OnePacket(st0, p, Header(0, Next(s)) + rest, acc, |p|, 0);
    assert ReadFullSpec(st0, |p|, acc) == Outcome(Ok(acc + p), st1);
    assert FrameCount(p) == 2;
    ModStep(|p|);
  }

  /** A frame whose first packet is full: that packet, then the frame of the rest. */
  lemma {:induction false} ReadLongFrame(p: seq<Byte>, s: Byte, rest: seq<Byte>, lb: Option<Byte>, acc: seq<Byte>)
    requires |p| > MaxPayload
    ensures ReadsFrame(p, s, rest, acc, ReadFullSpec(RState(Frame(p, s) + rest, lb, 0, false, s), |p|, acc))
    decreases |p|, 0
  {
    var st0 := RState(Frame(p, s) + rest, lb, 0, false, s);
    var p1, p2 := p[..MaxPayload], p[MaxPayload..];
    var tail := Frame(p2, Next(s)) + rest;
    LongFrameInput(p, s, rest);
    var st1 := OnePacket(st0, p1, tail, acc, |p|, |p2|);
    assert st1 == RState(tail, Some(p1[|p1| - 1]), 0, false, Next(s));
    ghost var o := ReadFullSpec(st1, |p2|, acc + p1);
    ReadFrame(p2, Next(s), rest, Some(p1[|p1| - 1]), acc + p1);
    LiftFrame(p, s, rest, acc, o);
  }

  /** The input of a long frame: a full first packet, then the frame of the rest. */
  lemma LongFrameInput(p: seq<Byte>, s: Byte, rest: seq<Byte>)
    requires |p| > MaxPayload
    ensures Frame(p, s) + rest == Header(MaxPayload, s) + p[..MaxPayload] + (Frame(p[MaxPayload..], Next(s)) + rest)
  {
  }

  /** A frame whose first packet is full reads as that packet followed by the rest of it. */
  lemma LiftFrame(p: seq<Byte>, s: Byte, rest: seq<Byte>, acc: seq<Byte>, o: Outcome<seq<Byte>>)
    requires |p| > MaxPayload
    requires ReadsFrame(p[MaxPayload..], Next(s), rest, acc + p[..MaxPayload], o)
    ensures ReadsFrame(p, s, rest, acc, o)
  {
    var p1, p2 := p[..MaxPayload], p[MaxPayload..];
    assert acc + p1 + p2 == acc + p;
    assert p2[|p2| - 1] == p[|p| - 1];
    ModStep(|p|);
    assert FrameCount(p) == 1 + FrameCount(p2);
  }

  lemma ModStep(x: nat)
    ensures 0 < x < MaxPayload ==> x % MaxPayload != 0
    ensures x == MaxPayload ==> x % MaxPayload == 0
    ensures x >= MaxPayload ==> (x - MaxPayload) % MaxPayload == x % MaxPayload
  {
  }

  /** One whole packet of a frame: its header, then all its bytes. */
  lemma OnePacket(st: RState, p: seq<Byte>, tail: seq<Byte>, acc: seq<Byte>, n: nat, m: nat) returns (st1: RState)
    requires p != [] && |p| <= MaxPayload && n == |p| + m
    requires st.input == Header(|p|, st.seqNum) + p + tail && st.remain == 0 && !st.last
    ensures st1 == RState(tail, Some(p[|p| - 1]), 0, |p| != MaxPayload, Next(st.seqNum))
    ensures ReadFullSpec(st, n, acc) == ReadFullSpec(st1, m, acc + p)
  {
    assert st.input == Header(|p|, st.seqNum) + (p + tail);
    HeaderRead(|p|, st.seqNum, p + tail, st.lastByte);
    assert st == RState(Header(|p|, st.seqNum) + (p + tail), st.lastByte, 0, false, st.seqNum);
    var h := ReadHeaderSpec(st).st;
    var t := TakeSpec(h, n);
    assert (p + tail)[..|p|] == p && (p + tail)[|p|..] == tail;
    st1 := RState(tail, Some(p[|p| - 1]), 0, |p| != MaxPayload, Next(st.seqNum));
    assert t.r == Ok(p) && t.st == st1;
  }

  /** A header of `len` with the expected sequence number is read as such. */
  lemma HeaderRead(len: nat, s: Byte, rest: seq<Byte>, lb: Option<Byte>)
    requires len <= MaxPayload
    ensures var o := ReadHeaderSpec(RState(Header(len, s) + rest, lb, 0, false, s));
      o.r.Ok? && o.st.input == rest && o.st.remain == len && o.st.seqNum == Next(s)
      && o.st.last == (len != MaxPayload)
  {
    var st := RState(Header(len, s) + rest, lb, 0, false, s);
    assert st.input[..3] == LeBytes(len, 3);
    assert st.input[4..] == rest;
    Pow256Values();
    LeValueOfLeBytes(len, 3);
  }

  // ---------------------------------------------------------------- readAll, skipN

  /** readAll reads the rest of the current packet.  When that packet is not the last one,
      the first turn leaves remain at 0 and the buffer grows by nothing, while nn grows by the
      buffer's length R.  The second turn reads nothing and changes no state.  With R > 0 the
      third turn slices buf[2R:] of an R-byte buffer, a runtime panic; with R == 0 the loop
      runs forever, which is NoProgress here. */
  method ReadAll(pr: PktReader) returns (r: Result<seq<Byte>, Error>)
    modifies pr, pr.conn
    ensures pr.conn == old(pr.conn)
    ensures old(pr.remain) < 0 ==> r == Err(IndexOutOfRange)
    ensures old(pr.remain) >= 0 ==>
      var o := ReadFullSpec(old(pr.State()), old(pr.remain), []);
      (o.r.Err? ==> r == o.r && pr.State() == o.st)
      && (o.r.Ok? && o.st.last ==> r == o.r && pr.State() == o.st)
      && (o.r.Ok? && !o.st.last ==>
            r == (if old(pr.remain) > 0 then Err(IndexOutOfRange) else Err(NoProgress))
            && pr.State() == o.st)
  {
    if pr.remain < 0 {
      return Err(IndexOutOfRange);
    }
    var len := pr.remain;
    var buf := pr.ReadFull(len);
    if buf.Err? {
      return buf;
    }
    if pr.last {
      return buf;
    }
    // The second turn: nn == len, so buf[nn:] is empty and the state does not change.
    ghost var fixed := pr.State();
    assert pr.remain == 0;
    var again := pr.ReadFull(0);
    assert pr.State() == fixed && again == Ok([]) && !pr.last;
    // The third turn slices buf[2 * len:] of a buffer of len bytes.
    if len > 0 {
      r := Err(IndexOutOfRange);
    } else {
      r := Err(NoProgress);
    }
  }

  const SkipBufLen := 4069

  /** skipN as written: one read of min(n, 4069) bytes, after which `n -= n` ends the loop.
      A negative n is a slice bound out of range. */
  function SkipSpec(st: RState, n: int): (o: Outcome<()>)
    ensures n <= 0 ==> o.st == st
  {
    if n == 0 then Outcome(Ok(()), st)
    else if n < 0 then Outcome(Err(IndexOutOfRange), st)
    else
      var o := ReadFullSpec(st, Min(n, SkipBufLen), []);
      Outcome(if o.r.Ok? then Ok(()) else Err(o.r.error), o.st)
  }

  method SkipN(pr: PktReader, n: int) returns (r: Result<(), Error>)
    modifies pr, pr.conn
    ensures Outcome(r, pr.State()) == SkipSpec(old(pr.State()), n)
    ensures pr.conn == old(pr.conn)
  {
    ghost var start := pr.State();
    var left := n;
    r := Ok(());
    while left != 0
      invariant pr.conn == old(pr.conn)
      invariant left == n || left == 0
      invariant left == n ==> pr.State() == start && r == Ok(())
      invariant left == 0 ==> Outcome(r, pr.State()) == SkipSpec(start, n)
      decreases if left == n then 1 else 0
    {
      var m := Min(left, SkipBufLen);
      if m < 0 {
        return Err(IndexOutOfRange);
      }
      var got := pr.ReadFull(m);
      if got.Err? {
        return Err(got.error);
      }
      left := left - left;
    }
  }

  /** Within a packet that holds them, skipN(n) skips min(n, 4069) bytes: for n above 4069
      fewer than n, because the loop ends after its first turn. */
  lemma SkipWithinPacket(st: RState, n: int)
    requires 0 < n <= st.remain && n <= |st.input|
    ensures var k := Min(n, SkipBufLen);
      SkipSpec(st, n) == Outcome(Ok(()), st.(input := st.input[k..], lastByte := Some(st.input[k - 1]),
                                             remain := st.remain - k))
  {
    ReadWithinPacket(st, Min(n, SkipBufLen));
  }

  /** A read that the current packet can hold stays in it: on success remain goes down by
      exactly the bytes read, and no header is read. */
  lemma {:induction false} ReadInPacket(st: RState, n: nat, acc: seq<Byte>)
    requires 0 < n <= st.remain
    ensures var o := ReadFullSpec(st, n, acc);
      o.r.Ok? ==> o.st.remain == st.remain - n && o.st.last == st.last && o.st.seqNum == st.seqNum
    decreases |st.input|
  {
    var t := TakeSpec(st, n);
    if t.r.Ok? {
      var k := |t.r.value|;
      assert ReadFullSpec(st, n, acc) == ReadFullSpec(t.st, n - k, acc + t.r.value);
      if k < n {
        ReadInPacket(t.st, n - k, acc + t.r.value);
      }
    }
  }

  /** skipAll as written: reads of min(4069, remain) bytes while the packet is not the last
      one.  In the last packet it stops after the first read; in any other packet the reads
      use it up and then read nothing forever, which is NoProgress here. */
  function SkipAllSpec(st: RState): (o: Outcome<()>)
    decreases if st.remain < 0 then 0 else st.remain
  {
    if st.remain < 0 then Outcome(Err(IndexOutOfRange), st)
    else
      var n := Min(SkipBufLen, st.remain);
      var o := ReadFullSpec(st, n, []);
      if o.r.Err? then Outcome(Err(o.r.error), o.st)
      else if o.st.last then Outcome(Ok(()), o.st)
      else if n == 0 then Outcome(Err(NoProgress), o.st)
      else
        ReadInPacket(st, n, []);
        SkipAllSpec(o.st)
  }

  method SkipAll(pr: PktReader) returns (r: Result<(), Error>)
    modifies pr, pr.conn
    ensures Outcome(r, pr.State()) == SkipAllSpec(old(pr.State()))
    ensures pr.conn == old(pr.conn)
  {
    while true
      invariant pr.conn == old(pr.conn)
      invariant SkipAllSpec(pr.State()) == SkipAllSpec(old(pr.State()))
      decreases if pr.remain < 0 then 0 else pr.remain
    {
      var n := Min(SkipBufLen, pr.remain);
      if n < 0 {
        return Err(IndexOutOfRange);
      }
      ghost var pre := pr.State();
      var got := pr.ReadFull(n);
      if got.Err? {
        return Err(got.error);
      }
      if pr.last {
        return Ok(());
      }
      if n == 0 {
        // The next turns read nothing and the packet is not the last one.
        return Err(NoProgress);
      }
      ReadInPacket(pre, n, []);
    }
  }

  /** skipAll never ends well in a packet that is not the last one. */
  lemma {:induction false} SkipAllNotLast(st: RState)
    requires !st.last
    ensures SkipAllSpec(st).r.Err?
    decreases if st.remain < 0 then 0 else st.remain
  {
    if st.remain > 0 {
      var n := Min(SkipBufLen, st.remain);
      ReadInPacket(st, n, []);
      var o := ReadFullSpec(st, n, []);
      if o.r.Ok? {
        SkipAllNotLast(o.st);
      }
    }
  }

  /** In the last packet skipAll skips min(4069, remain) bytes, not all of them. */
  lemma SkipAllLast(st: RState)
    requires st.last && 0 <= st.remain <= |st.input|
    ensures var k := Min(SkipBufLen, st.remain);
      SkipAllSpec(st).r.Ok? && SkipAllSpec(st).st.input == st.input[k..]
      && SkipAllSpec(st).st.remain == st.remain - k
  {
    var k := Min(SkipBufLen, st.remain);
    if k > 0 {
      ReadWithinPacket(st, k);
      ReadInPacket(st, k, []);
    }
  }

  // ---------------------------------------------------------------- writer

  /** What a pktWriter sees: the bytes written to the connection, how many were flushed,
      the sequence number, and its own remain, to_write and last. */
  datatype WState = WState(out: seq<Byte>, flushed: nat, seqNum: Byte, remain: nat, toWrite: nat, last: bool)

  datatype WOutcome = WOutcome(r: Result<(), Error>, st: WState)

  /** writeHeader: the length as three little-endian bytes and the sequence number, which
      then advances. */
  function WriteHeaderSpec(st: WState, len: nat): WState
  {
    st.(out := st.out + Header(len, st.seqNum), seqNum := Next(st.seqNum))
  }

  /** The start of a packet: a full one while 0xffffff bytes or more are due, else the last
      one, holding all that is left; its header goes out at once. */
  function OpenPacket(st: WState): (o: WState)
    requires st.toWrite != 0
    ensures o.remain != 0 && o.remain + o.toWrite == st.toWrite && o.remain <= MaxPayload
    ensures o.last <==> st.last || st.toWrite < MaxPayload
    ensures o.out == st.out + Header(o.remain, st.seqNum) && o.seqNum == Next(st.seqNum) && o.flushed == st.flushed
  {
    var len := if st.toWrite >= MaxPayload then MaxPayload else st.toWrite;
    var st1 := st.(remain := len, toWrite := st.toWrite - len,
                   last := if st.toWrite >= MaxPayload then st.last else true);
    WriteHeaderSpec(st1, len)
  }

  /** The loop of write: a header before the first byte of each packet, a full packet while
      0xffffff bytes or more are still due, and "too many data" once everything declared has
      been written. */
  function FillSpec(st: WState, buf: seq<Byte>): (o: WOutcome)
    decreases |buf|, if st.remain == 0 then 1 else 0
  {
    if buf == [] then WOutcome(Ok(()), st)
    else if st.remain == 0 then
      if st.toWrite == 0 then WOutcome(Err(TooManyData), st)
      else FillSpec(OpenPacket(st), buf)
    else
      var nn := Min(|buf|, st.remain);
      FillSpec(st.(out := st.out + buf[..nn], remain := st.remain - nn), buf[nn..])
  }

  /** write: the loop, then, once all declared bytes are written, the empty packet that
      closes a frame whose last packet was full, and a flush. */
  function WriteSpec(st: WState, buf: seq<Byte>): WOutcome
  {
    if buf == [] then WOutcome(Ok(()), st)
    else
      var f := FillSpec(st, buf);
      if f.r.Err? then f
      else if f.st.remain + f.st.toWrite == 0 then
        var st1 := if !f.st.last then WriteHeaderSpec(f.st, 0) else f.st;
        WOutcome(Ok(()), st1.(flushed := |st1.out|))
      else f
  }

  class PktWriter {
    var conn: Conn
    var remain: nat
    var toWrite: nat
    var last: bool

    /** newPktWriter: the payload length is declared up front. */
    constructor (c: Conn, toWrite: nat)
      ensures conn == c && remain == 0 && this.toWrite == toWrite && !last
    {
      conn, remain, this.toWrite, last := c, 0, toWrite, false;
    }

    ghost function State(): WState
      reads this, conn
    {
      WState(conn.out, conn.flushed, conn.seqNum, remain, toWrite, last)
    }

    /** writeHeader; the call at native/packet.go:185 passes the buffer to EncodeU24, which
        takes only the value, so the header is taken to be EncodeU24's three bytes. */
    method WriteHeader(len: nat)
      requires len <= MaxPayload
      modifies conn
      ensures State() == WriteHeaderSpec(old(State()), len)
      ensures conn.input == old(conn.input) && conn.lastByte == old(conn.lastByte)
    {
      conn.Write(NativeCodecs.EncodeU24(len));
      conn.Write([conn.seqNum]);
      conn.seqNum := Next(conn.seqNum);
    }

    method Write(buf: seq<Byte>) returns (r: Result<(), Error>)
      modifies this, conn
      ensures WOutcome(r, State()) == WriteSpec(old(State()), buf)
      ensures conn == old(conn) && conn.input == old(conn.input) && conn.lastByte == old(conn.lastByte)
    {
      if buf == [] {
        return Ok(());
      }
      var rest := buf;
      while rest != []
        invariant conn == old(conn) && conn.input == old(conn.input) && conn.lastByte == old(conn.lastByte)
        invariant FillSpec(State(), rest) == FillSpec(old(State()), buf)
        decreases |rest|, if remain == 0 then 1 else 0
      {
        ghost var pre, rest0 := State(), rest;
        if remain == 0 {
          if toWrite == 0 {
            return Err(TooManyData);
          }
          if toWrite >= MaxPayload {
            remain := MaxPayload;
          } else {
            remain := toWrite;
            last := true;
          }
          toWrite := toWrite - remain;
          WriteHeader(remain);
          assert State() == OpenPacket(pre);
        }
        ghost var mid := State();
        var nn := Min(|rest|, remain);
        conn.Write(rest[..nn]);
        remain := remain - nn;
        assert State() == mid.(out := mid.out + rest[..nn], remain := mid.remain - nn);
        rest := rest[nn..];
        assert FillSpec(mid, rest0) == FillSpec(State(), rest);
        assert FillSpec(pre, rest0) == FillSpec(mid, rest0);
      }
      if remain + toWrite == 0 {
        if !last {
          WriteHeader(0);
        }
        conn.Flush();
      }
      r := Ok(());
    }

    method WriteByte(b: Byte) returns (r: Result<(), Error>)
      modifies this, conn
      ensures WOutcome(r, State()) == WriteSpec(old(State()), [b])
      ensures conn == old(conn) && conn.input == old(conn.input) && conn.lastByte == old(conn.lastByte)
    {
      r := Write([b]);
    }
  }

  // ---------------------------------------------------------------- writer properties

  /** Written in one go from a fresh writer, a payload comes out as its Frame, flushed, and
      the sequence number has advanced by the number of packets. */
  lemma WriteFrame(st: WState, p: seq<Byte>)
    requires p != [] && st.remain == 0 && st.toWrite == |p| && !st.last
    ensures var o := WriteSpec(st, p);
      o.r.Ok? && o.st.out == st.out + Frame(p, st.seqNum) && o.st.flushed == |o.st.out|
      && o.st.seqNum == Advance(st.seqNum, FrameCount(p)) && o.st.remain == 0 && o.st.toWrite == 0
  {
    FillFrame(st, p);
  }

  /** What the loop of write leaves after a whole payload: every packet of its Frame but, when
      the last packet was full, the empty one that closes it. */
  ghost predicate FillsFrame(st: WState, p: seq<Byte>, f: WOutcome)
  {
    f.r.Ok? && f.st.remain == 0 && f.st.toWrite == 0 && f.st.flushed == st.flushed
    && (f.st.last ==> f.st.out == st.out + Frame(p, st.seqNum)
                      && f.st.seqNum == Advance(st.seqNum, FrameCount(p)))
    && (!f.st.last ==> f.st.out + Header(0, f.st.seqNum) == st.out + Frame(p, st.seqNum)
                       && Next(f.st.seqNum) == Advance(st.seqNum, FrameCount(p)))
  }

  lemma {:induction false} FillFrame(st: WState, p: seq<Byte>)
    requires p != [] && st.remain == 0 && st.toWrite == |p| && !st.last
    ensures FillsFrame(st, p, FillSpec(st, p))
    decreases |p|
  {
    var n := if |p| < MaxPayload then |p| else MaxPayload;
    var st2 := FillPacket(st, p);
    var s := st.seqNum;
    if |p| < MaxPayload {
      assert p[n..] == [];
      assert FillSpec(st, p) == WOutcome(Ok(()), st2);
    } else if |p| == MaxPayload {
      assert p[n..] == [];
      assert FillSpec(st, p) == WOutcome(Ok(()), st2);
      assert Frame(p[n..], Next(s)) == Header(0, Next(s)) + [];
      assert FrameCount(p) == 2;
    } else {
      var p2 := p[n..];
      FillFrame(st2, p2);
      LiftFill(st, p, st2, FillSpec(st2, p2));
    }
  }

  /** The first packet of a payload: its header and as much of the payload as it holds. */
  lemma FillPacket(st: WState, p: seq<Byte>) returns (st2: WState)
    requires p != [] && st.remain == 0 && st.toWrite == |p| && !st.last
    ensures var n := if |p| < MaxPayload then |p| else MaxPayload;
      FillSpec(st, p) == FillSpec(st2, p[n..])
      && st2 == WState(st.out + Header(n, st.seqNum) + p[..n], st.flushed, Next(st.seqNum), 0, |p| - n, |p| < MaxPayload)
  {
    var o := OpenPacket(st);
    var n := o.remain;
    st2 := o.(out := o.out + p[..n], remain := 0);
    assert FillSpec(st, p) == FillSpec(o, p);
  }

  /** A payload whose first packet is full is written as that packet and the rest of it. */
  lemma LiftFill(st: WState, p: seq<Byte>, st2: WState, f: WOutcome)
    requires |p| > MaxPayload
    requires st2 == WState(st.out + Header(MaxPayload, st.seqNum) + p[..MaxPayload], st.flushed, Next(st.seqNum), 0,
                           |p| - MaxPayload, false)
    requires FillsFrame(st2, p[MaxPayload..], f)
    ensures FillsFrame(st, p, f)
  {
    var s := st.seqNum;
    var p2 := p[MaxPayload..];
    assert Frame(p, s) == Header(MaxPayload, s) + p[..MaxPayload] + Frame(p2, Next(s));
    assert FrameCount(p) == 1 + FrameCount(p2);
  }

  /** Writing a payload in two calls is writing it in one, as long as the first call does not
      complete it. */
  lemma {:induction false} FillConcat(st: WState, a: seq<Byte>, b: seq<Byte>)
    ensures FillSpec(st, a + b) == var f := FillSpec(st, a); if f.r.Err? then f else FillSpec(f.st, b)
    decreases |a|, if st.remain == 0 then 1 else 0
  {
    if a == [] {
      assert a + b == b;
    } else if st.remain == 0 {
      if st.toWrite != 0 {
        FillConcat(OpenPacket(st), a, b);
      }
    } else if |a| <= st.remain {
      CopyWithin(st, a, b);
      assert a[|a|..] == [] && a[..|a|] == a;
    } else {
      var nn := st.remain;
      assert (a + b)[..nn] == a[..nn] && (a + b)[nn..] == a[nn..] + b;
      FillConcat(st.(out := st.out + a[..nn], remain := 0), a[nn..], b);
    }
  }

  /** Bytes that fit in the open packet are copied whether they come in one call or two. */
  lemma CopyWithin(st: WState, a: seq<Byte>, b: seq<Byte>)
    requires a != [] && |a| <= st.remain
    ensures FillSpec(st, a + b) == FillSpec(st.(out := st.out + a, remain := st.remain - |a|), b)
  {
    var nn := Min(|a + b|, st.remain);
    assert (a + b)[..nn] == a + b[..nn - |a|];
    assert (a + b)[nn..] == b[nn - |a|..];
    assert st.out + (a + b)[..nn] == st.out + a + b[..nn - |a|];
  }

  lemma WriteConcat(st: WState, a: seq<Byte>, b: seq<Byte>)
    requires a != [] && b != []
    requires var f := FillSpec(st, a); f.r.Ok? && f.st.remain + f.st.toWrite != 0
    ensures WriteSpec(WriteSpec(st, a).st, b) == WriteSpec(st, a + b)
  {
    FillConcat(st, a, b);
  }

  /** The writer fails with "too many data" exactly when more bytes are written than remain
      declared; otherwise all of them go out. */
  lemma {:induction false} FillCount(st: WState, buf: seq<Byte>)
    ensures FillSpec(st, buf).r.Ok? <==> |buf| <= st.remain + st.toWrite
    ensures FillSpec(st, buf).r.Err? ==> FillSpec(st, buf).r.error == TooManyData
    ensures var f := FillSpec(st, buf);
      f.r.Ok? ==> f.st.remain + f.st.toWrite == st.remain + st.toWrite - |buf|
    decreases |buf|, if st.remain == 0 then 1 else 0
  {
    if buf != [] {
      if st.remain == 0 {
        if st.toWrite != 0 {
          FillCount(OpenPacket(st), buf);
        }
      } else {
        var nn := Min(|buf|, st.remain);
        FillCount(st.(out := st.out + buf[..nn], remain := st.remain - nn), buf[nn..]);
      }
    }
  }
}
