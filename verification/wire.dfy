/** The connection under the packet layer: the bytes its bufio.Reader has yet to deliver, the
    byte UnreadByte would put back, the packet sequence number both directions share, and
    the bytes handed to its bufio.Writer with how many of them a Flush has sent.  Also the
    MySQL packet framing itself: each packet is a 3-byte little-endian payload length and a
    sequence byte, and a payload of 0xffffff bytes or more is cut into full packets followed
    by one shorter packet, possibly empty (section "MySQL Packets" of the MySQL Client/Server
    Protocol). */
module Wire {
  import opened Wrappers
  import opened Bytes
  import opened Errors

  const MaxPayload := 0xff_ffff

  class Conn {
    var input: seq<Byte>
    var lastByte: Option<Byte>
    var seqNum: Byte
    var out: seq<Byte>
    var flushed: nat

    constructor (s: seq<Byte>)
      ensures input == s && lastByte == None && seqNum == 0 && out == [] && flushed == 0
    {
      input, lastByte, seqNum, out, flushed := s, None, 0, [], 0;
    }

    /** bufio.Reader.Read: as many of the n bytes as the stream still has (a short read is
        taken to deliver all it can), io.EOF when it has none; a zero-length read does
        nothing. */
    method Read(n: nat) returns (got: seq<Byte>, err: Option<Error>)
      modifies this
      ensures n == 0 ==> got == [] && err == None && input == old(input) && lastByte == old(lastByte)
      ensures n != 0 && old(input) == [] ==> got == [] && err == Some(Eof)
                                             && input == [] && lastByte == old(lastByte)
      ensures n != 0 && old(input) != [] ==>
        err == None && got == old(input)[..Min(n, |old(input)|)]
        && input == old(input)[Min(n, |old(input)|)..] && lastByte == Some(got[|got| - 1])
      ensures seqNum == old(seqNum) && out == old(out) && flushed == old(flushed)
    {
      if n == 0 {
        return [], None;
      }
      if input == [] {
        return [], Some(Eof);
      }
      var k := Min(n, |input|);
      got, err := input[..k], None;
      input, lastByte := input[k..], Some(got[k - 1]);
    }

    /** io.ReadFull over the bufio.Reader: io.EOF when nothing could be read, and
        io.ErrUnexpectedEOF when only part of the n bytes could. */
    method ReadFull(n: nat) returns (r: Result<seq<Byte>, Error>)
      modifies this
      ensures n <= |old(input)| ==> r == Ok(old(input)[..n]) && input == old(input)[n..]
                                    && lastByte == (if n == 0 then old(lastByte) else Some(old(input)[n - 1]))
      ensures |old(input)| < n ==> input == [] && (old(input) == [] ==> r == Err(Eof) && lastByte == old(lastByte))
                                   && (old(input) != [] ==> r == Err(UnexpectedEof)
                                                            && lastByte == Some(old(input)[|old(input)| - 1]))
      ensures seqNum == old(seqNum) && out == old(out) && flushed == old(flushed)
    {
      if n == 0 {
        return Ok([]);
      }
      if input == [] {
        return Err(Eof);
      }
      if |input| < n {
        lastByte := Some(input[|input| - 1]);
        input := [];
        return Err(UnexpectedEof);
      }
      r := Ok(input[..n]);
      input, lastByte := input[n..], Some(input[n - 1]);
    }

    /** bufio.Reader.ReadByte. */
    method ReadByte() returns (r: Result<Byte, Error>)
      modifies this
      ensures old(input) == [] ==> r == Err(Eof) && input == [] && lastByte == old(lastByte)
      ensures old(input) != [] ==> r == Ok(old(input)[0]) && input == old(input)[1..]
                                   && lastByte == Some(old(input)[0])
      ensures seqNum == old(seqNum) && out == old(out) && flushed == old(flushed)
    {
      if input == [] {
        return Err(Eof);
      }
      r := Ok(input[0]);
      input, lastByte := input[1..], Some(input[0]);
    }

    /** bufio.Reader.UnreadByte: puts back the last byte read, once. */
    method UnreadByte() returns (err: Option<Error>)
      modifies this
      ensures old(lastByte) == None ==> err == Some(InvalidUnread) && input == old(input) && lastByte == None
      ensures old(lastByte) != None ==> err == None && input == [old(lastByte).value] + old(input)
                                        && lastByte == None
      ensures seqNum == old(seqNum) && out == old(out) && flushed == old(flushed)
    {
      if lastByte == None {
        return Some(InvalidUnread);
      }
      input, lastByte := [lastByte.value] + input, None;
      err := None;
    }

    /** bufio.Writer.Write. */
    method Write(b: seq<Byte>)
      modifies this
      ensures out == old(out) + b
      ensures input == old(input) && lastByte == old(lastByte) && seqNum == old(seqNum) && flushed == old(flushed)
    {
      out := out + b;
    }

    /** bufio.Writer.Flush: everything written so far is sent. */
    method Flush()
      modifies this
      ensures flushed == |out|
      ensures input == old(input) && lastByte == old(lastByte) && seqNum == old(seqNum) && out == old(out)
    {
      flushed := |out|;
    }
  }

  function Min(a: int, b: int): (m: int)
    ensures m <= a && m <= b && (m == a || m == b)
  {
    if a <= b then a else b
  }

  /** The sequence number after `s`: a byte that wraps. */
  function Next(s: Byte): (n: Byte)
    ensures n == (s + 1) % 0x100
  {
    if s == 255 then 0 else s + 1
  }

  /** A packet header. */
  function Header(len: nat, s: Byte): (h: seq<Byte>)
    ensures |h| == 4 && h[3] == s
  {
    LeBytes(len, 3) + [s]
  }

  /** The packets that carry a payload, numbered from `s`. */
  function Frame(p: seq<Byte>, s: Byte): (f: seq<Byte>)
    ensures |f| >= 4
    decreases |p|
  {
    if |p| < MaxPayload then Header(|p|, s) + p
    else Header(MaxPayload, s) + p[..MaxPayload] + Frame(p[MaxPayload..], Next(s))
  }

  /** How many packets Frame(p, s) holds. */
  function FrameCount(p: seq<Byte>): (n: nat)
    ensures n >= 1
    decreases |p|
  {
    if |p| < MaxPayload then 1 else 1 + FrameCount(p[MaxPayload..])
  }

  /** The sequence number after `k` packets. */
  function Advance(s: Byte, k: nat): Byte
    decreases k
  {
    if k == 0 then s else Advance(Next(s), k - 1)
  }

  /** A frame holds one full packet per 0xffffff bytes of payload and one shorter packet. */
  lemma {:induction false} FrameSize(p: seq<Byte>, s: Byte)
    ensures |Frame(p, s)| == |p| + 4 * FrameCount(p)
    ensures FrameCount(p) == |p| / MaxPayload + 1
    decreases |p|
  {
    if |p| >= MaxPayload {
      FrameSize(p[MaxPayload..], Next(s));
    }
  }
}
