# mymysql core in Dafny

This project models the core of mymysql, a MySQL client library written in pure Go, in both
of its generations: the `native` engine and the older `mymy` package. What is modelled:

- **Wire codecs.**
  - Little-endian integers of 2, 3, 4 and 8 bytes.
  - Length-coded binary numbers and strings, and NULL-terminated strings.
  - Binary TIME and DATETIME values.
  - The two escaping functions.
  - The older stream codecs in `codecs.go`.
- **Packet layer.** It is a class over a byte stream that carries a sequence number (`Wire.Conn`), with its reader and writer:
  - headers and sequence checks;
  - splitting a payload into 0xffffff-byte packets;
  - `unreadByte`, `eof` and `checkEof`.
- **Command builders.** The per-command payload layouts and lengths of `sendCmd`, in both generations.
- **Handshake and authentication.**
  - Parsing the greeting and computing the client flags.
  - The authentication payload and its length.
  - The plugin-switch rule.
  - The password scramble, with SHA1 and SHA256 as parameters.
- **Result decoding.**
  - The `getResult` state machines.
  - Decoders for the OK, ERR, EOF, header, field, text-row and binary-row packets, including the binary row's NULL bitmap.
  - Prepared-statement responses, and the `COM_STMT_EXECUTE` payload with its NULL bitmap.
- **Parameter values.** Their lengths and writers (`Len` and `writeValue`), and the bind-time type mapping of `bindValue`.
- **Value parsing and formatting.**
  - Dates, datetimes and durations.
  - The `Row` accessors. Go's `int` and `uint` are 32 bits wide in this model, because mysql/row.go builds only at that width: it converts the largest `int` to `uint32` and the largest `uint` to `int64` as constants. `UintErr` parses a `[]byte` column with base 0, so a "0x" prefix means hexadecimal and a leading "0" octal. The other accessors parse decimal text.
  - strconv's digit loop, which reads from the left and stops at the first character that is not a digit of the base or the first digit that takes the value out of range.
  - The `addons.go` conversions between nullable byte slices (Nbin) and nullable strings (Nstr).
- **Result helpers.** `GetRow`, `GetRows`, `GetFirstRow`, `GetLastRow` and `End` over a result.
- **The `database/sql` driver's DSN parser.**
- **The documentation's table-of-contents generator.**

Streams are byte sequences. A read yields the value and the rest of the stream, or an error,
and a write yields the bytes appended. Functions whose Go code loops are methods whose
contracts tie them to a pure specification function. Objects whose fields the Go code updates
are classes: the packet reader and writer, the connection state, statements and result sets.
Failures, whether returned or raised by a panic, are values of `Errors.Error`. A Go runtime
panic, such as an index out of range or a nil dereference, is a constructor of that type too.
Loops that can never end are reported as `NoProgress`.

## Model

| member | source | states |
|---|---|---|
| NativeCodecs.DecodeU16 | native/codecs.go:10-12 | the value of the first two bytes read little-endian (LeValue) |
| NativeCodecs.DecodeU24 | native/codecs.go:19-21 | the little-endian value of the first three bytes, below 2^24 |
| NativeCodecs.DecodeU32 | native/codecs.go:28-31 | the little-endian value of the first four bytes |
| NativeCodecs.DecodeU64 | native/codecs.go:38-43 | the loop ORs byte ii in at bit 8·ii: the little-endian value of the first eight bytes (of all of them when fewer) |
| NativeCodecs.EncodeU16 | native/codecs.go:50-52 | the two low-order bytes, least significant first (LeBytes) |
| NativeCodecs.EncodeU24 | native/codecs.go:57-59 | the three low-order bytes, least significant first |
| NativeCodecs.EncodeU32 | native/codecs.go:64-66 | the four bytes, least significant first |
| NativeCodecs.EncodeU64 | native/codecs.go:71-77 | the loop stores byte ii at index ii: the eight bytes, least significant first |
| NativeCodecs.DecodeEncodeU16 | native/codecs.go:10-52 | DecodeU16 inverts EncodeU16 |
| NativeCodecs.DecodeEncodeU24 | native/codecs.go:19-59 | DecodeU24 inverts EncodeU24 for values below 2^24 |
| NativeCodecs.DecodeEncodeU32 | native/codecs.go:28-66 | DecodeU32 inverts EncodeU32 |
| NativeCodecs.EncodeDecodeU32 | native/codecs.go:28-66 | EncodeU32 inverts DecodeU32 on four bytes |
| NativeCodecs.ReadU16 | native/codecs.go:13-17 | succeeds iff two bytes are there; the little-endian value and the rest; else io.ErrUnexpectedEOF |
| NativeCodecs.ReadU24 | native/codecs.go:22-26 | the same for three bytes |
| NativeCodecs.ReadU32 | native/codecs.go:32-36 | the same for four bytes |
| NativeCodecs.ReadU64 | native/codecs.go:44-48 | succeeds iff eight bytes are there and consumes exactly them |
| NativeCodecs.ReadNu64 | native/codecs.go:82-102 | 251 is NULL, a byte below 251 is the value itself; a failure is only io.ErrUnexpectedEOF |
| NativeCodecs.ReadNotNullU64 | native/codecs.go:104-110 | readNu64's value when present; NULL fails with UNEXP_NULL_LCB_ERROR |
| NativeCodecs.WriteLCB | native/codecs.go:112-143 | the byte count of the encoding is lenLCB |
| NativeCodecs.WriteLCBBytes | native/codecs.go:112-129 | one byte up to 250, else tag 252/253/254 and 2/3/8 little-endian bytes |
| NativeCodecs.LenLCBSizes | native/codecs.go:131-143 | one byte exactly for values up to 250, otherwise a tag byte and 2, 3 or 8 bytes |
| NativeCodecs.WriteNu64 | native/codecs.go:145-158 | the byte count is lenNu64, and the output is the single 251 exactly for nil |
| NativeCodecs.LenNu64Sizes | native/codecs.go:153-158 | 1 to 9 bytes, and 1 exactly for nil or a value up to 250 |
| NativeCodecs.ReadWriteNu64 | native/codecs.go:82-151 | readNu64 reads back what writeNu64 wrote, nil included, and leaves what follows |
| NativeCodecs.ReadNbin | native/codecs.go:160-199 | readNbin/readNstr: 251 is nil; a failure is only io.ErrUnexpectedEOF |
| NativeCodecs.ReadNotNullBin | native/codecs.go:169-205 | readNbin's bytes when present; nil fails with UNEXP_NULL_LCS_ERROR |
| NativeCodecs.WriteNbin | native/codecs.go:177-221 | 251 for nil, else the LCB length and the bytes; the byte count is lenNbin/lenNstr |
| NativeCodecs.LenNbinSizes | native/codecs.go:186-191 | 1 for nil; otherwise the bytes plus a length prefix of 1 to 9 bytes |
| NativeCodecs.ReadWriteNbin | native/codecs.go:160-184 | readNbin reads back what writeNbin wrote, nil included, and leaves what follows |
| NativeCodecs.WriteLC | native/codecs.go:223-236 | fails with the "Unknown data type" panic exactly for types other than []byte, string and their pointers |
| NativeCodecs.LenLC | native/codecs.go:238-250 | fails exactly for the same types |
| NativeCodecs.LenLCOfWriteLC | native/codecs.go:223-250 | lenLC is the byte count of writeLC, and a string is written like the []byte with its bytes |
| NativeCodecs.ReadNTB | native/codecs.go:252-262 | the loop returns the NUL-free bytes before the first 0 and the rest after it; a stream without a 0 is io.ErrUnexpectedEOF |
| NativeCodecs.NulSplitUnique | native/codecs.go:252-267 | the split at the first 0 is unique, so readNTB gives back what writeNTB wrote when it holds no 0 |
| NativeCodecs.WriteNTB | native/codecs.go:264-277 | writeNTB/writeNTS: the bytes and exactly one 0 after them |
| NativeCodecs.WriteNT | native/codecs.go:279-288 | []byte and string get one 0 appended; any other type fails |
| Codecs.ReadU16 | codecs.go:9-13 | consumes two bytes and returns their little-endian value; a short stream fails with io.ErrUnexpectedEOF |
| Codecs.ReadU24 | codecs.go:15-19 | the same for three bytes |
| Codecs.ReadU32 | codecs.go:21-26 | the same for four bytes |
| Codecs.ReadU64 | codecs.go:28-35 | the same for eight bytes |
| Codecs.WriteU16 | codecs.go:37-39 | appends the two bytes least significant first |
| Codecs.WriteU24 | codecs.go:41-43 | appends the three low-order bytes least significant first |
| Codecs.WriteU32 | codecs.go:45-49 | appends the four bytes least significant first |
| Codecs.WriteU64 | codecs.go:51-57 | the loop appends the eight bytes least significant first |
| Codecs.ReadNu64 | codecs.go:61-81 | reads what the length-coded decoder reads: 251 is nil, 252/253/254 a 2/3/8-byte value |
| Codecs.ReadNotNullNu64 | codecs.go:83-89 | readNu64's value; nil is the UNEXP_NULL_LCB_ERROR panic |
| Codecs.WriteLCB | codecs.go:91-122 | appends the length-coded encoding, whose byte count is lenLCB |
| Codecs.WriteNu64 | codecs.go:124-137 | appends 251 for nil, else the LCB; the byte count is lenNu64 |
| Codecs.ReadNbin | codecs.go:141-182 | readNbin/readNstr: 251 is nil, else the LCB length and that many bytes |
| Codecs.ReadNotNullNbin | codecs.go:150-188 | readNbin's bytes; nil is the UNEXP_NULL_LCS_ERROR panic |
| Codecs.WriteNbin | codecs.go:158-172 | appends 251 for nil, else the LCB length and the bytes; the byte count is lenNbin |
| Codecs.WriteNstr | codecs.go:190-204 | writes a string exactly as writeNbin writes its bytes |
| Codecs.WriteLC | codecs.go:206-224 | panics "Unknown data type", writing nothing, exactly for types other than Nbin, []byte, Nstr and string; otherwise appends writeNbin's bytes |
| Codecs.ReadNTB | codecs.go:226-240 | the loop returns the NUL-free bytes before the first 0 and consumes the 0; a stream without one ends in io.EOF |
| Codecs.ReadWriteNTB | codecs.go:226-245 | what readNTB returns after writeNTB(b) is b and the rest, whenever b holds no 0 |
| Codecs.WriteNTB | codecs.go:242-255 | writeNTB/writeNTS append the bytes and exactly one 0 |
| Codecs.WriteNT | codecs.go:257-263 | []byte and string get one 0 appended; any other type panics and writes nothing |
| NativeTime.ReadNtime | native/codecs.go:290-325 | 251 is nil, 0 the zero duration; any length byte other than 0, 5, 8, 12 and 251 is WRONG_DATE_LEN_ERROR |
| NativeTime.ReadNotNullTime | native/codecs.go:327-333 | readNtime's value when present; nil is UNEXP_NULL_DATE_ERROR |
| NativeTime.Magnitude | native/codecs.go:341-344 | the negation of a negative duration (int64 wrap-around only at the minimum) |
| NativeTime.EncodeTime | native/codecs.go:335-364 | the 13-byte buffer filled part by part and cut at its length byte is the layout TimeBytes describes |
| NativeTime.PutNanosPart | native/codecs.go:345-348 | a non-zero nanosecond count goes to bytes 9-12 and adds 4 to the length |
| NativeTime.PutClockPart | native/codecs.go:350-356 | hour, minute and second go to bytes 6-8 and add 3 once anything was written or the clock is non-zero |
| NativeTime.PutDayPart | native/codecs.go:357-360 | the day count goes to bytes 2-5 and adds 4 once anything was written or it is non-zero |
| NativeTime.TimeRoundTrip | native/codecs.go:290-383 | for a non-zero duration, lenNtime is 6, 9 or 13, equals the bytes EncodeTime writes, and readNtime gives the duration back with its sign |
| NativeTime.TimeOfLayout | native/codecs.go:300-325 | the fields of the layout decode to sign·(nanoseconds + seconds·10^9 + days·86400·10^9) |
| NativeTime.ZeroTime | native/codecs.go:361-383 | the zero duration is written as [1, 0], lenNtime counts 1 byte, and readNtime rejects it with WRONG_DATE_LEN_ERROR |
| NativeTime.NullTime | native/codecs.go:335-383 | nil is written as the single byte 251, counted as 1, and read back as nil |
| NativeTime.LenNtimeSizes | native/codecs.go:370-383 | 1, 6, 9 or 13 bytes, and 1 exactly for nil or the zero duration |
| NativeTime.ReadNdatetime | native/codecs.go:385-421 | 251 is nil, 0 the zero datetime; any length byte other than 0, 4, 7, 11 and 251 is WRONG_DATE_LEN_ERROR |
| NativeTime.ReadNotNullDatetime | native/codecs.go:423-429 | readNdatetime's value when present; nil is UNEXP_NULL_DATE_ERROR |
| NativeTime.EncodeDatetime | native/codecs.go:431-457 | the 12-byte buffer filled through the fallthrough cases and cut at its length byte is the layout DatetimeBytes describes |
| NativeTime.PutDtNanos | native/codecs.go:437-440 | non-zero nanoseconds go to bytes 7-11 and add 4 to the length |
| NativeTime.PutDtClock | native/codecs.go:442-447 | second, minute and hour go to bytes 7, 6, 5 (the second overwriting the nanoseconds' low byte) and add 3 |
| NativeTime.PutDtDate | native/codecs.go:449-454 | day, month and the 16-bit year go to bytes 4, 3 and 1-2 and add 4 |
| NativeTime.DatetimeLength | native/codecs.go:431-475 | lenNdatetime is the number of bytes EncodeDatetime writes, for every value including nil and the zero datetime |
| NativeTime.LenNdatetimeSizes | native/codecs.go:463-475 | 1, 5, 8 or 12 bytes, and 1 exactly for nil or the zero datetime |
| NativeTime.DatetimeRoundTrip | native/codecs.go:385-475 | readNdatetime gives back what EncodeDatetime wrote, nil included, when the nanoseconds are zero |
| NativeTime.DatetimeRead | native/codecs.go:438-443 | with non-zero nanoseconds the value read back has Nanosec/256: the second overwrites the nanoseconds' low byte |
| NativeTime.YearRoundTrip | native/codecs.go:453 | the 16-bit year written is read back as the year |
| NativeTime.ReadNdate | native/codecs.go:477-483 | readNdate succeeds, consumes and finds nil exactly as readNdatetime does |
| NativeTime.ReadNotNullDate | native/codecs.go:485-491 | the date when present; nil is UNEXP_NULL_DATE_ERROR |
| NativeTime.EncodeDate | native/codecs.go:493-495 | the datetime encoding of the date at midnight |
| NativeTime.DateRoundTrip | native/codecs.go:477-503 | lenNdate is the byte count of EncodeDate, and readNdate gives the date back, nil included |
| NativeTime.LenNdateSizes | native/codecs.go:501-503 | 1 or 5 bytes, 1 exactly for nil or the zero date |
| NativeEscape.EscapeOf | native/codecs.go:538-555 | a special byte (NUL, \n, \r, \\, ', ", \032) has a two-byte replacement starting with a backslash |
| NativeEscape.EscapeString | native/codecs.go:533-564 | the loop with its `last` index produces every byte replaced by its escape (Escaped) |
| NativeEscape.UnescapeEscaped | native/codecs.go:533-564 | dropping the backslashes and decoding the escapes gives the text back: escaping loses nothing |
| NativeEscape.EscapedLength | native/codecs.go:533-564 | the escaped text is longer by exactly one byte per special byte |
| NativeEscape.EscapedUnchanged | native/codecs.go:533-564 | escaping leaves the text unchanged exactly when it holds no special byte |
| NativeEscape.EscapeQuotes | native/codecs.go:566-578 | the loop produces the text with every ' doubled (QuotesDoubled) |
| NativeEscape.UndoubleDoubled | native/codecs.go:566-578 | undoubling gives the text back |
| NativeEscape.QuotesDoubledUnchanged | native/codecs.go:566-578 | the text is unchanged exactly when it holds no ' |
| NativeEscape.QuotesDoubledLength | native/codecs.go:566-578 | doubling never shortens the text |
| NativePacket.ReadHeaderSpec | native/packet.go:23-46 | after the last packet io.EOF and nothing changes; otherwise a header is read iff four bytes are there and the sequence byte is the expected one, giving remain = the 3-byte length, seq + 1 mod 256 and last iff the length is not 0xffffff |
| NativePacket.HeaderSequence | native/packet.go:34-40 | a wrong sequence byte fails with mysql.ErrSeq and leaves the sequence number; a right one advances it |
| NativePacket.PktReader.ReadHeader | native/packet.go:23-46 | the reader's state after readHeader is ReadHeaderSpec's, and the output side is untouched |
| NativePacket.ReadFullSpecLength | native/packet.go:67-90 | a successful readFull returns exactly the requested number of bytes after those already taken |
| NativePacket.PktReader.ReadFull | native/packet.go:67-90 | the loop, reading a header only when remain is 0, does what ReadFullSpec says |
| NativePacket.PktReader.ReadPart | native/packet.go:78-88 | one step of the loop takes at least one byte from the current packet and shortens the input |
| NativePacket.ReadInPacket | native/packet.go:67-90 | a read within the current packet lowers remain by exactly the bytes taken and keeps last and seq |
| NativePacket.ReadWithinPacket | native/packet.go:67-90 | a read that fits in the current packet returns the next n bytes and lowers remain by n |
| NativePacket.NothingAfterLast | native/packet.go:23-27 | after the last packet is used up, readFull and readByte fail with io.EOF and change nothing |
| NativePacket.PktReader.ReadByte | native/packet.go:92-102 | readByte does what ReadByteSpec says: one byte, reading a header first when remain is 0 |
| NativePacket.PktReader.UnreadByte | native/packet.go:147-152 | unreadByte does what UnreadByteSpec says |
| NativePacket.UnreadAfterRead | native/packet.go:92-152 | unreadByte after readByte restores the input and remain, leaving the header's effect on seq |
| NativePacket.PktReader.CheckEof | native/packet.go:154-162 | succeeds iff remain is 0 and the packet was the last; otherwise mysql.ErrPktLong |
| NativePacket.ReadFrame | native/packet.go:67-90 | readFull of |p| bytes from the packets the writer makes of p (Frame) gives back p, whatever its length |
| NativePacket.HeaderRead | native/packet.go:23-46 | the header Wire writes is read back with its length and sequence number |
| NativePacket.ReadAll | native/packet.go:104-119 | for a last packet readAll returns the packet and an error of readFull is passed on; when more packets follow, a non-empty rest makes the third turn slice past the buffer (a runtime panic) and an empty one loops forever (NoProgress) |
| NativePacket.SkipN | native/packet.go:136-145 | skipN does what SkipSpec says, with the `n -= n` of the source: at most one buffer of 4069 bytes is skipped |
| NativePacket.SkipWithinPacket | native/packet.go:136-145 | within a packet skipN(n) skips min(n, 4069) bytes |
| NativePacket.SkipAll | native/packet.go:123-134 | skipAll does what SkipAllSpec says |
| NativePacket.SkipAllNotLast | native/packet.go:123-134 | skipAll of a packet that is not the last ends in an error: once remain is 0 the loop reads nothing and never ends |
| NativePacket.SkipAllLast | native/packet.go:123-134 | skipAll of the last packet succeeds after skipping min(4069, remain) bytes |
| NativePacket.OpenPacket | native/packet.go:200-224 | a new packet gets the next min(to_write, 0xffffff) bytes, its header and the next seq; last iff it is shorter than 0xffffff |
| NativePacket.PktWriter.WriteHeader | native/packet.go:183-194 | the 3-byte length and the sequence byte are appended and seq advances |
| NativePacket.PktWriter.Write | native/packet.go:196-238 | write does what WriteSpec says: packets cut from the declared total and a flush when all was written |
| NativePacket.PktWriter.WriteByte | native/packet.go:240-243 | writeByte is write of one byte |
| NativePacket.FillCount | native/packet.go:196-238 | writing succeeds iff the bytes fit in what is still declared; more fails with "too many data for write as packet", and remain + to_write drops by the bytes written |
| NativePacket.WriteFrame | native/packet.go:196-238 | writing a payload of the declared length emits exactly Frame(payload, seq) (0xffffff-byte packets, a shorter final one, an empty one after a full last packet), flushes, and advances seq by the packet count |
| NativePacket.FillConcat | native/packet.go:196-238 | writing a + b fills like writing a and then b |
| NativePacket.WriteConcat | native/packet.go:196-238 | two writes that leave something declared emit what one write of both emits |
| Packet.HeaderSpec | packet.go:25-41 | the header step changes the state as native's readHeader does and fails exactly when it does; the failure is os.EOF exactly after the last packet |
| Packet.PktReader.ReadHeader | packet.go:25-41 | the reader's state after the header step is HeaderSpec's |
| Packet.ReadSpec | packet.go:19-50 | an empty buffer returns 0 bytes, no error and no change; never more bytes than asked; an error comes with no bytes; a successful non-empty read consumes input |
| Packet.PktReader.Read | packet.go:19-50 | Read does what ReadSpec says |
| Packet.NothingAfterLast | packet.go:25-30 | when remain is 0 after the last packet, Read returns os.EOF and changes nothing |
| Packet.ReadSequence | packet.go:31-40 | a wrong sequence byte gives SEQ_ERROR and keeps seq; a right one advances seq and sets last iff the length is not 0xffffff |
| Packet.ReadWithinPacket | packet.go:42-48 | within a packet Read returns at most remain bytes, the next ones of the stream, and lowers remain by their count |
| Packet.PktReader.UnreadByte | packet.go:69-74 | unreadByte puts the byte back and increments remain by 1 |
| Packet.PktReader.CheckEof | packet.go:76-84 | succeeds iff remain is 0 and the packet was the last; otherwise the PKT_LONG_ERROR panic |
| Packet.ReadFull | packet.go:19-50 | reading until the buffer is full through Read takes the same bytes from the same stream as native's readFull and fails where it fails, the end of the stream being io.ErrUnexpectedEOF |
| Packet.ReadStep | packet.go:19-50 | one Read call is one step of native's readFull |
| Packet.ReadAll | packet.go:52-67 | for a last packet readAll returns it; when more packets follow, a non-empty rest makes the third turn slice past the buffer (a runtime panic) and an empty one loops forever (NoProgress) |
| NativeResult.QueryResult.Map | native/result.go:42-47 | the recorded index of a field name, -1 for an unknown one; on a valid result an index below field_count |
| NativeResult.CheckEof | native/packet.go:154-162 | a decoder succeeds iff it used the whole packet; otherwise mysql.ErrPktLong |
| NativeResult.ErrorPacket | native/result.go:154-171 | an ERR packet with the '#' marker gives mysql.Error with its 2-byte code and the message after the 5-byte state; without the marker PKT_ERROR |
| NativeResult.ErrorPacketOf | native/result.go:154-171 | the error the server writes is read back with its code and message |
| NativeResult.OkPacket | native/result.go:130-152 | the status it returns is the one stored on the connection; a failure is a short packet or a NULL length |
| NativeResult.OkPacketOf | native/result.go:130-152 | an OK packet built from affected rows, insert id, status, warnings and message is read back as those values |
| NativeResult.EofPacket | native/result.go:173-185 | succeeds iff the packet has 5 bytes and gives the warning count and the status |
| NativeResult.HeaderPacket | native/result.go:187-208 | a first byte in 1..250 is the field count, and the packet must end right after it |
| NativeResult.ReadStrs | native/result.go:210-236 | reads exactly n length-coded strings or fails with a short packet or a NULL |
| NativeResult.FieldPacket | native/result.go:210-236 | a field packet fails only by a short packet, a NULL string or unread bytes |
| NativeResult.FieldPacketOf | native/result.go:210-236 | the six strings and the fixed part a server writes are read back as the same Field |
| NativeResult.ReadStrsOf | native/result.go:210-236 | reading n strings from their encodings gives them back and leaves the rest |
| NativeResult.TextColsOf | native/result.go:238-256 | the columns a server wrote, NULL included, are read back as nil or their bytes, and the rest of the packet is left |
| NativeResult.TextRow | native/result.go:238-256 | the loop over field_count columns computes TextRowSpec |
| NativeResult.TextRowOf | native/result.go:238-256 | a text row of encoded columns decodes to exactly those columns, NULL as nil; a byte too many is mysql.ErrPktLong |
| NativeResult.TextColsLength | native/result.go:238-256 | a decoded text row has field_count entries |
| NativeResult.BitmapLen | native/result.go:263-264 | the NULL bitmap has (field_count + 9) / 8 bytes, enough for bit ii + 2 of every column |
| NativeResult.BinValue | native/result.go:281-330 | a column read by its type is never nil and fails only with a read error or an unknown type |
| NativeResult.BinRow | native/result.go:258-343 | the loop over the fields computes BinRowSpec |
| NativeResult.BinRowNulls | native/result.go:258-275 | a decoded binary row has one entry per field, and column ii is nil exactly when bit ii + 2 of the bitmap is set |
| NativeResult.HeaderState | native/result.go:187-208 | a result-set header makes a valid result with field_count empty slots and no field read yet |
| NativeResult.OkState | native/result.go:130-152 | an OK packet makes a result holding its affected rows, insert id, status, warnings and message |
| NativeResult.AddField | native/result.go:108-116 | storing a field keeps the result valid |
| NativeResult.Step | native/result.go:65-127 | one turn of the loop keeps the result valid |
| NativeResult.Loop | native/result.go:65-127 | the loop consumes packets and keeps the result valid |
| NativeResult.GetResultSpec | native/result.go:65-127 | getResult keeps the result valid |
| NativeResult.GetResult | native/result.go:65-128 | the goto loop does what GetResultSpec says: the same answer, packets left, result and connection status |
| NativeResult.TurnNew | native/result.go:83-94 | one turn with no current result does what Step says |
| NativeResult.TurnCur | native/result.go:96-127 | one turn with a current result does what Step says |
| NativeResult.TurnEof | native/result.go:97-106 | an EOF turn does what Step says |
| NativeResult.TurnField | native/result.go:108-116 | a field turn does what Step says |
| NativeResult.TurnRow | native/result.go:118-125 | a row turn does what Step says |
| NativeResult.RowDataEofReadsNothing | native/result.go:70-72 | once row_data_eof is set, getResult returns the result and reads nothing |
| NativeResult.ErrorPacketFails | native/result.go:78-81 | a first byte 255 always ends the call in an error, mysql.Error with code and message or PKT_ERROR, whatever the state |
| NativeResult.NoResultStep | native/result.go:83-94 | with no result, 0 gives the OK result and its status; 1..250 a header result with that many empty fields, reading on; 251 and up UNK_RESULT_PKT_ERROR |
| NativeResult.EofStep | native/result.go:97-106 | an EOF packet stores warnings and status in the result and the connection, sets field_eof the first time and row_data_eof the second |
| NativeResult.FieldStep | native/result.go:108-116 | a field packet goes to fields[field_count], fc_map maps its name to field_count, other names keep their index, and field_count grows by 1 |
| NativeResult.RowStep | native/result.go:118-125 | a row is returned only when all fields were read and a first byte is below 254, and it has one entry per field |
| NativeResult.UnknownPacket | native/result.go:127 | UNK_RESULT_PKT_ERROR is returned exactly for the packets no case accepts |
| MymyResult.Str | result.go:40-45 | "" for a NULL column, else the column's bytes as text |
| MymyResult.StrAgrees | result.go:40-45 | TextRow.Str agrees with mysql.Row.Str on the same columns, and is "" exactly for NULL or empty columns |
| MymyResult.ReadRow | result.go:178-193 | the loop reading FieldCount Nbin columns computes RowSpec |
| MymyResult.RowAgrees | result.go:178-193 | the old row decoder reads the same bytes as native's text row decoder and fails where it fails, NULL becoming nil |
| MymyResult.RowOf | result.go:178-193 | a row of encoded columns decodes to exactly those columns; a byte too many is PKT_LONG_ERROR |
| MymyResult.RowLength | result.go:178-193 | a decoded row has FieldCount entries |
| MymyResult.CellsInjective | result.go:178-193 | two Nbin rows with the same cells are the same row |
| MymyResult.ToInt | result.go:130 | int() of a uint64 wraps into 32 bits, keeping values below 2^31 |
| MymyResult.HeaderPacket | result.go:126-131 | a first byte in 1..250 is the field count, and the packet must end right after it |
| MymyResult.OkState | result.go:73-91 | an OK packet makes a result holding its affected rows, insert id, status, warnings and message and no fields |
| MymyResult.HeaderState | result.go:126-143 | a header makes a valid result with len(Fields) empty slots, FieldCount 0 and an empty Map |
| MymyResult.AddField | result.go:145-176 | storing a field keeps the result valid |
| MymyResult.EofStep | result.go:93-105 | an EOF packet always ends the call with the result |
| MymyResult.Step | result.go:67-196 | one turn keeps the result valid |
| MymyResult.Loop | result.go:67-196 | the loop consumes packets and keeps the result valid |
| MymyResult.GetResult | result.go:67-197 | the goto loop does what Loop says: the same answer, packets left and result |
| MymyResult.TurnNew | result.go:73-143 | one turn with no result does what Step says |
| MymyResult.TurnCur | result.go:93-196 | one turn with a result does what Step says |
| MymyResult.TurnEof | result.go:93-105 | an EOF turn does what Step says |
| MymyResult.TurnField | result.go:145-176 | a field turn does what Step says |
| MymyResult.NoResultStep | result.go:73-143 | with no result, 0 gives the OK result; 1..250 a header result with that many empty fields, reading on; 251 and up UNK_RESULT_PKT_ERROR |
| MymyResult.OkPacketOf | result.go:73-91 | an OK packet built from its values is read back as those values |
| MymyResult.EofStepOf | result.go:93-105 | a well-formed EOF packet stores its warning count and status in the result |
| MymyResult.EofStops | result.go:93-105 | an EOF packet keeps fields, Map, FieldCount and message and succeeds iff it has 5 bytes |
| MymyResult.ErrorPacketFails | result.go:107-124 | a first byte 255 always fails: Error with code and message, or PKT_ERROR without the '#' |
| MymyResult.FieldStep | result.go:145-176 | a field packet fills Fields[FieldCount], maps its name to FieldCount and increments FieldCount; a bad one fails and leaves the result |
| MymyResult.RowStep | result.go:178-193 | when all fields are known a first byte below 254 is a row of FieldCount Nbin entries, and the result is unchanged |
| MymyResult.UnknownPacket | result.go:196 | any other packet fails with UNK_RESULT_PKT_ERROR |
| MymyResult.FieldsFill | result.go:145-176 | a run of field packets fills the next slots in order |
| MymyResult.Filled | result.go:145-176 | filling fields keeps the result valid and the number of slots |
| MymyResult.FilledKeeps | result.go:145-176 | filling leaves the fields already read |
| MymyResult.FilledAt | result.go:145-176 | the i-th packet's field lands at slot FieldCount + i |
| Prepared.BitmapLen | prepared.go:26 | the NULL bitmap has (ParamCount + 7) >> 3 bytes, the fewest that hold one bit per parameter |
| Prepared.NullBitmapBits | prepared.go:28-36 | bit q of bitmap byte j is set exactly when parameter 8j+q was scanned and has length 0 |
| Prepared.NullByteSnoc | prepared.go:31-35 | scanning one more parameter ORs its mask into byte ii >> 3 and changes no other byte |
| Prepared.NullBitsSnoc | prepared.go:31-35 | the same, bit by bit: only the bit of the new parameter can change, and only when its length is 0 |
| Prepared.Scan | prepared.go:28-36 | the first loop stops at a nil parameter (nil dereference) or a parameter of length 0 past the bitmap (index out of range), and otherwise lists one length per parameter |
| Prepared.ScanLens | prepared.go:28-36 | a scan that gets through saw only bound parameters, and its i-th length is parameter i's Len |
| Prepared.ScanFails | prepared.go:28-36 | once the scan fails, scanning more parameters fails the same way |
| Prepared.ScanParams | prepared.go:26-36 | the loop computes what Scan says: the same failure, or pkt_len = 11 + bitmap bytes + the sum of the lengths together with the bitmap bytes |
| Prepared.ScanStops | prepared.go:28-35 | a nil parameter, or one of length 0 past the bitmap, fails the scan of all parameters |
| Prepared.MarkNull | prepared.go:31-35 | setting the mask keeps every bitmap byte equal to NullByte of the lengths scanned so far |
| Prepared.SumSnoc | prepared.go:30 | adding a length to pkt_len adds it to the sum |
| Prepared.Values | prepared.go:59-61 | the values are written in parameter order; an unknown type fails with BIND_UNK_TYPE |
| Prepared.ValuesFail | prepared.go:59-61 | once a value cannot be written, the later ones are not written |
| Prepared.WriteTypes | prepared.go:52-54 | the loop writes each parameter's type as two little-endian bytes, in order |
| Prepared.WriteValues | prepared.go:59-61 | the loop writes what Values says |
| Prepared.ExecSpec | prepared.go:24-69 | the packet fails only with a nil dereference, an index out of range or BIND_UNK_TYPE; the sequence number is reset exactly when the first loop gets through; success means every parameter is bound |
| Prepared.WritePayload | prepared.go:44-61 | the writes produce what Payload says |
| Prepared.SendCmdExec | prepared.go:24-69 | sends what ExecSpec says, resets the sequence number when the first loop gets through, and clears rebind only when the packet is written |
| Prepared.ExecPayload | prepared.go:24-69 | a packet that is written is the head (code, id, flags, iteration count, bitmap, flag and types) followed by the values |
| Prepared.HeadParts | prepared.go:44-57 | the head is COM_STMT_EXECUTE, the id, 0 and 1 in four bytes, the bitmap, then 1 and the types or 0 |
| Prepared.ExecBitmapByte | prepared.go:48 | byte 10 + j of the packet is byte j of the bitmap |
| Prepared.ExecNullBit | prepared.go:28-48 | in the packet, bit q of bitmap byte j is set exactly when parameter 8j+q has length 0 |
| Prepared.ExecLayout | prepared.go:44-57 | the packet starts with COM_STMT_EXECUTE, the statement id, a zero flag byte and an iteration count of 1, and the byte after the bitmap is 1 exactly when the types are sent again |
| Prepared.HeadLayout | prepared.go:44-57 | the same, for the head followed by any bytes |
| Prepared.FixedLayout | prepared.go:44-48 | the ten fixed bytes read back as the code, id, 0 and 1 |
| Prepared.ExecTypes | prepared.go:49-54 | when rebind is set, two bytes per parameter after the flag byte read back as that parameter's type |
| Prepared.HeadTypes | prepared.go:49-54 | the same, for the head followed by any bytes |
| Prepared.TypesLayout | prepared.go:49-54 | the type codes after a flag byte 1 read back in parameter order |
| Prepared.TypeBytesCodes | prepared.go:52-54 | the written types hold each parameter's code at 2i |
| Prepared.CodesRead | prepared.go:52-54 | codes embedded in a packet read back as the parameters' types |
| Prepared.TypeBytesAt | prepared.go:52-54 | the types are two bytes per parameter, parameter i at 2i |
| Prepared.TypeBytesLength | prepared.go:52-54 | the types take two bytes per parameter |
| Prepared.LeValueOfU32 | prepared.go:45-47 | writeU32 reads back as the value |
| Prepared.LeValueOfU16 | prepared.go:53 | writeU16 reads back as the value |
| Prepared.ScanStep | prepared.go:28-36 | a scan that gets past parameter n got past n - 1 and adds Len(n - 1) |
| Prepared.ValuesStep | prepared.go:59-61 | writing one more value appends its bytes |
| Prepared.ValuesLength | prepared.go:27-61 | when every parameter's Len agrees with what writeValue writes, the values take exactly the sum of the lengths |
| Prepared.LengthStep | prepared.go:27-61 | the agreement of lengths and written values survives one more parameter |
| Prepared.ExecLength | prepared.go:24-69 | with ParamCount bound parameters whose Len agrees with writeValue, the packet is written and pkt_len is its exact length |
| Prepared.ScanSucceeds | prepared.go:26-36 | the first loop never fails when every parameter is bound and the bitmap has a bit for each |
| Prepared.PrepareOk | prepared.go:120-145 | a prepare OK packet must have exactly 12 bytes: the id, the field and parameter counts (as that many empty slots), a filler byte and the warning count; Map exists exactly when there are fields |
| Prepared.PrepareOkOf | prepared.go:120-145 | an OK packet built from its values reads back as those values |
| Prepared.Take | prepared.go:97-112 | one definition keeps the statement valid |
| Prepared.Step | prepared.go:71-118 | a turn keeps the statement valid, and reads on only when there is a statement |
| Prepared.PrepLoop | prepared.go:71-118 | the loop consumes a packet each turn, keeps the statement valid, and answers with the statement it updated |
| Prepared.GetPrepareResult | prepared.go:71-118 | the goto loop does what PrepLoop says: the same answer, packets left, statement and connection status; a new statement is fresh |
| Prepared.TurnNew | prepared.go:83-87 | a turn without a statement does what Step says |
| Prepared.TurnStmt | prepared.go:88-115 | a turn with a statement does what Step says, and the EOF packet copies its status into the connection |
| Prepared.TurnField | prepared.go:97-112 | a definition packet does what Take says |
| Prepared.NoStatementStep | prepared.go:78-117 | without a statement, 0 is the OK packet, 255 an error, and anything else UNK_RESULT_PKT_ERROR |
| Prepared.EofStepOf | prepared.go:91-95 | an EOF packet ends the loop with the statement, storing its warning count and status |
| Prepared.ParamsFirst | prepared.go:97-112 | a definition counts as a parameter while one is unread, and is stored in the next column slot and under its name only after all of them |
| Prepared.StatementFails | prepared.go:78-117 | any other packet with a statement fails, with UNK_RESULT_PKT_ERROR unless it is an error packet |
| Prepared.Awaited | prepared.go:89-98 | the definitions still awaited; none exactly when every parameter and field has been read |
| Prepared.Absorb | prepared.go:97-112 | absorbing definitions keeps the statement valid and leaves everything but the counts, fields and Map |
| Prepared.DefinitionsAbsorb | prepared.go:97-114 | a run of definition packets is read through and absorbed in order |
| Prepared.DefinitionReadsOn | prepared.go:97-114 | a definition packet reads on with Take |
| Prepared.LoopReadsOn | prepared.go:113-114 | reading on continues the loop with the next packet |
| Prepared.AbsorbCounts | prepared.go:100-111 | the first definitions, up to the number of parameters, count as parameters and the rest as fields |
| Prepared.AbsorbKeeps | prepared.go:106-111 | fields already read stay |
| Prepared.AbsorbAt | prepared.go:106-111 | the i-th definition past the parameters lands in field slot FieldCount + i - unread parameters |
| Prepared.PrepareAnswer | prepared.go:71-118 | the definitions then an EOF end the loop with every parameter and field read, the EOF's warning count and status stored |
| NativeUnsafe.Masked | native/unsafe.go:71 | clearing MYSQL_UNSIGNED_MASK leaves a type below the mask with the same low bits |
| NativeUnsafe.Len | native/unsafe.go:20-51 | 0 for a nil address or nil pointer, the fixed length when it is known, and otherwise a positive length that depends on the value |
| NativeUnsafe.WriteValue | native/unsafe.go:53-103 | the only failure is the BIND_UNK_TYPE panic |
| NativeUnsafe.NilWritesNothing | native/unsafe.go:20-63 | a nil address or nil pointer has length 0 and writes nothing |
| NativeUnsafe.FixedWidths | native/unsafe.go:71-88 | NULL writes nothing; LONG and FLOAT write 4 bytes, SHORT 2, TINY 1, LONGLONG and DOUBLE 8 |
| NativeUnsafe.UnknownTypePanics | native/unsafe.go:65-101 | writeValue panics exactly for a bound value that is neither raw, VAR_STRING nor BLOB and whose masked type has no case |
| NativeUnsafe.BinaryReadsBack | native/unsafe.go:65-68 | a raw, VAR_STRING or BLOB value is written as a length-coded string that readNbin reads back |
| NativeUnsafe.LenCountsWritten | native/unsafe.go:20-103 | for a value of unknown length, Len is the number of bytes writeValue writes |
| NativeUnsafe.ZeroTimeMiscounted | native/unsafe.go:46-97 | a zero TIME of unknown length counts 1 byte but is written as 2 |
| Unsafe.Len | unsafe.go:8-36 | 0 for a nil pointer variable, the fixed length when it is known, and otherwise a positive length that depends on the value |
| Unsafe.WriteValue | unsafe.go:38-114 | the only failure is the BIND_UNK_TYPE panic |
| Unsafe.NilPointer | unsafe.go:8-13 | a nil pointer variable has length 0 and writes nothing, except that a type without a case still panics |
| Unsafe.NullBinding | unsafe.go:8-54 | the binding made for nil, a NULL of length 0, has length 0 and writes nothing |
| Unsafe.FixedWidths | unsafe.go:52-99 | NULL writes nothing; LONG and FLOAT write 4 bytes, SHORT 2, TINY 1, LONGLONG and DOUBLE 8 |
| Unsafe.LenCountsWritten | unsafe.go:8-114 | for a value of unknown length, Len is the number of bytes writeValue writes |
| NativeCommand.CmdPayload | native/command.go:6-10 | the payload of a bare command is the one command byte |
| NativeCommand.StrPayload | native/command.go:13-18 | the payload is the command byte followed by the string, with length 1 + len(s) |
| NativeCommand.U32Payload | native/command.go:21-26 | the payload is the command byte followed by a 4-byte number that reads back as u |
| NativeCommand.LongDataPayload | native/command.go:28-35 | the payload is COM_STMT_SEND_LONG_DATA, the statement id, the parameter number and the data, each reading back in turn |
| NativeCommand.WriteOn | native/command.go:8-34 | consecutive writes into one packet writer act as a single write of their concatenation |
| NativeCommand.SendCmd | native/command.go:6-10 | the sequence number is reset and exactly one framed, flushed packet holding the command byte is appended to the output |
| NativeCommand.SendCmdStr | native/command.go:13-18 | the sequence number is reset and one framed packet holding the command and the string is appended |
| NativeCommand.SendCmdU32 | native/command.go:21-26 | the sequence number is reset and one framed packet holding the command and the number is appended |
| NativeCommand.SendLongData | native/command.go:28-35 | the sequence number is reset and one framed packet holding the long-data payload is appended, however many frames it needs |
| NativeCommand.LongDataReadsBack | native/command.go:28-35 | a server that reads the packet back gets the command, the statement id, the parameter number and the data |
| Command.At | command.go:11-89 | indexing an argument past the end panics with an index error |
| Command.ByteAt | command.go:51 | the byte type assertion succeeds exactly on a byte argument and otherwise panics |
| Command.U16At | command.go:22-86 | the uint16 type assertion succeeds exactly on a uint16 argument |
| Command.U32At | command.go:21-87 | the uint32 type assertion succeeds exactly on a uint32 argument |
| Command.ChangeUserArgs | command.go:69-75 | a user name, a password and a database accepted for COM_CHANGE_USER can be written, and the user name's NUL-terminated length is counted |
| Command.SucceedsIffWellTyped | command.go:5-96 | building the packet succeeds if and only if the command is known and its arguments have the types its case asserts |
| Command.UnknownCommandPanics | command.go:94-95 | an unknown command panics with "Unknown code for MySQL command", and a known one fails only on a missing argument or one of the wrong type |
| Command.DeclaredIsLength | command.go:5-96 | for every command, the length written into the header is the length of the payload |
| Command.TextDeclared | command.go:10-14 | the declared length of a text command is its payload length |
| Command.LongDataDeclared | command.go:18-23 | the declared length of COM_STMT_SEND_LONG_DATA is its payload length |
| Command.FieldListDeclared | command.go:29-40 | the declared length of COM_FIELD_LIST is its payload length, with or without the wildcard |
| Command.TableDumpDeclared | command.go:42-46 | the declared length of COM_TABLE_DUMP is its payload length |
| Command.ChangeUserDeclared | command.go:69-75 | the declared length of COM_CHANGE_USER is its payload length |
| Command.BinlogDumpDeclared | command.go:77-90 | the declared length of COM_BINLOG_DUMP is its payload length, with or without the file name |
| Command.FixedLengths | command.go:25-67 | the numeric commands have payloads of 1, 2, 3, 5 or 9 bytes, starting with the command byte |
| Command.TextPayload | command.go:10-14 | a text command's payload is the command byte followed by the text |
| Command.CommandIsPacket | command.go:5-98 | every packet built is one well-formed frame that reads back as its own payload |
| Command.PacketReadsBack | command.go:5-98 | a payload whose declared length is right reads back whole from its frame |
| Command.BodyStartsWithCmd | command.go:12-84 | every packet starts with its command byte |
| Command.SendCmd | command.go:5-98 | on success the sequence number is 1 and the header and payload are appended to the writer; on failure the panic of the failing case (unknown command, missing argument, wrong type) is returned |
| Command.SendText | command.go:10-14 | writes the text command's header and payload, or fails as its specification does |
| Command.SendLongData | command.go:18-23 | writes the long-data command's header and payload, or fails as its specification does |
| Command.SendFieldList | command.go:29-40 | writes COM_FIELD_LIST with its optional wildcard, or fails as its specification does |
| Command.SendTableDump | command.go:42-46 | writes COM_TABLE_DUMP, or fails as its specification does |
| Command.SendNumbers | command.go:25-67 | writes the numeric commands, or fails as their specification does |
| Command.SendChangeUser | command.go:69-75 | writes COM_CHANGE_USER, or fails as its specification does |
| Command.SendBinlogDump | command.go:77-90 | writes COM_BINLOG_DUMP with its optional file name, or fails as its specification does |
| NativeInit.AsBytes | native/init.go:87-97 | converting a Go string to bytes keeps its length |
| NativeInit.Session.constructor | native/init.go:8-156 | a session starts with the given connection, credentials, plugin and maximum packet size and a zeroed 20-byte scramble |
| NativeInit.Session.Init | native/init.go:8-36 | resets the sequence number to 0 and reads the greeting's header through a new packet reader (native/packet.go:23-46): a missing header gives the stream's io.EOF or io.ErrUnexpectedEOF, a sequence byte other than 0 gives ErrSeq, and a good header leaves the sequence number at 1; then every field the parser reads is stored, the second scramble half only when the server sent one, and the result is ErrOldProtocol exactly when the server lacks PROTOCOL_41 |
| NativeInit.Session.ReadHead | native/init.go:15-18 | stores the protocol version, server version, thread id and first scramble half, leaving the second half alone |
| NativeInit.Session.ReadTail | native/init.go:19-27 | stores the capabilities, language and status, and the second scramble half exactly when PROTOCOL_41 is set |
| NativeInit.Session.Auth | native/init.go:39-100 | mysql_old_password sends the old-password packet and returns nothing; any other plugin writes the authentication packet with the filtered flags, the maximum packet size, the charset, the user, the scrambled password, the database and the plugin name, and returns the scrambled password |
| NativeInit.Session.OldPasswd | native/init.go:148-156 | sends one packet holding the old-style scrambled password followed by a zero byte |
| NativeInit.Session.AuthResponse | native/init.go:102-139 | switches to the plugin the server names, and for caching_sha2_password sends the plain scrambled password exactly when the server asks for full authentication; otherwise writes nothing more |
| NativeInit.ResponsePlan | native/init.go:102-139 | a second plugin switch ends the exchange; otherwise fast authentication is data [3] and full authentication data [4], both only under caching_sha2_password |
| NativeInit.EndsWithSent | native/init.go:142-146 | a sent packet is the last packet on the connection |
| NativeInit.AuthSend | native/init.go:76-99 | the authentication packet is written with the declared length of line 76, and fails with "too many data" when the payload exceeds it |
| NativeInit.ClientFlags | native/init.go:43-81 | the flags computed step by step are the flags of the specification |
| NativeInit.WriteAuthSwitchPacket | native/init.go:142-146 | up to 250 bytes of password are sent as one length-prefixed packet; a longer one overruns the declared length and fails |
| NativeInit.WriteAuth | native/init.go:82-98 | writes the payload into a packet writer of the declared length |
| NativeInit.Fill | native/init.go:18-25 | copying into a slice of the scramble changes only that slice |
| NativeInit.SplitNul | native/init.go:16 | the NUL-terminated server version is everything before the first zero byte; with no zero byte the read fails at end of packet |
| NativeInit.SplitNulOfRead | native/init.go:16 | any reading that splits at the first zero byte is SplitNul |
| NativeInit.ParseHello | native/init.go:8-27 | a parsed handshake has an 8-byte first scramble half, a NUL-free version, and a 12-byte second half exactly when PROTOCOL_41 is set; a payload that ends early is the io.EOF panic of readHeader |
| NativeInit.InPacket | native/packet.go:23-27 | a read inside the greeting succeeds as the codec does, and running past the last packet is io.EOF |
| NativeInit.HelloHead | native/init.go:15-18 | the head of the handshake has an 8-byte scramble half and a NUL-free version; a payload that ends early is the io.EOF panic of pr.readByte/pr.readFull |
| NativeInit.HelloTail | native/init.go:19-27 | the tail carries the second scramble half exactly when PROTOCOL_41 is set; it fails, with the io.EOF panic of the packet reader, exactly when fewer than 19 bytes (31 under PROTOCOL_41) are there |
| NativeInit.ParseHelloBytes | native/init.go:8-27 | a handshake written by a server parses back to the same handshake, whatever the filler, reserved bytes and trailing data |
| NativeInit.HeadReadsBack | native/init.go:15-18 | the head of a handshake reads back |
| NativeInit.TailReadsBack | native/init.go:19-27 | the tail of a handshake reads back |
| NativeInit.SplitNulWritten | native/init.go:16 | a NUL-terminated string reads back as itself |
| NativeInit.AuthFlags | native/init.go:43-81 | the base flags are filtered by the server's low 16 capability bits only, and PLUGIN_AUTH, PLUGIN_AUTH_LENENC_CLIENT_DATA and CONNECT_WITH_DB are set exactly when their conditions hold |
| NativeInit.AuthLength | native/init.go:76-98 | the declared length counts 22 bytes for the plugin name whatever its length, so it matches the payload exactly when the plugin name is 21 bytes long |
| NativeInit.WriteMore | native/init.go:83-98 | one more write into the packet writer succeeds exactly when it stays within the declared length |
| NativeInit.WriteFour | native/init.go:83-88 | four writes succeed exactly when together they stay within the declared length |
| NativeInit.WriteNext | native/init.go:83-98 | writing in two steps is writing the concatenation, and fails exactly when the declared length is exceeded |
| NativeInit.TooMany | native/init.go:82-98 | a payload longer than the declared length fails with "too many data" |
| NativeInit.Fits | native/init.go:82-98 | a payload within the declared length is written |
| Utils.Session.constructor | utils.go:30-32 | a session starts with sequence number 0 and an empty scramble |
| Utils.Session.WriteHead | utils.go:16-22 | writes the 3-byte length and the sequence number and advances the sequence number modulo 256 |
| Utils.Session.Init | utils.go:30-53 | reads the handshake into the session exactly as its specification parses it, failing with the reader's error |
| Utils.Session.ReadHead | utils.go:34-37 | stores the protocol version, server version, thread id and the first 8 scramble bytes |
| Utils.Session.ReadTail | utils.go:38-45 | stores the capabilities and language and the last 12 scramble bytes |
| Utils.Session.ReadFields | utils.go:38-40 | reads the capabilities and the language |
| Utils.Session.ReadEnd | utils.go:41-45 | reads the last 12 scramble bytes and requires the packet to end after one more byte |
| Utils.Session.Auth | utils.go:55-85 | writes the header with the declared length and the old-style authentication payload, or fails with the password error and writes nothing |
| Utils.WriteAuthBody | utils.go:70-78 | the body written is the authentication payload |
| Utils.EncryptedPasswd | utils.go:67 | the scrambled password is the token of the password and the scramble |
| Utils.Nts | utils.go:35 | the NUL-terminated string is everything before the first zero byte |
| Utils.NtsOfRead | utils.go:35 | any reading that splits at the first zero byte is Nts |
| Utils.InitSpec | utils.go:30-45 | a parsed handshake has a 20-byte scramble and a NUL-free version; a short packet or trailing bytes fail |
| Utils.HeadSpec | utils.go:34-37 | the head has an 8-byte scramble half and a NUL-free version |
| Utils.TailSpec | utils.go:38-45 | the tail has a 12-byte scramble half |
| Utils.FieldsSpec | utils.go:38-40 | reading the capabilities and language fails only at the end of the packet |
| Utils.EndSpec | utils.go:41-45 | the end holds a 12-byte scramble half |
| Utils.InitReadsBack | utils.go:30-45 | a handshake written by a server reads back, and any trailing byte fails with ErrPktLong |
| Utils.TailReadsBack | utils.go:38-45 | the tail of a handshake reads back |
| Utils.OldFlags | utils.go:57-66 | the flags are PROTOCOL_41, LONG_PASSWORD, SECURE_CONN and TRANSACTIONS, plus CONNECT_WITH_DB exactly when a database is named |
| Utils.Filler | utils.go:73 | the filler is 23 zero bytes |
| Utils.OldAuthLength | utils.go:56-78 | the declared length matches the payload exactly when the scramble is at most 250 bytes |
| Utils.AuthIsPacket | utils.go:69-78 | header plus payload is one frame |
| NativePasswd.XorBits | native/passwd.go:31 | the bitwise exclusive or of two k-bit numbers is a k-bit number |
| NativePasswd.XorTwice | native/passwd.go:31 | exclusive or with the same value twice gives back the original |
| NativePasswd.XorCommutes | native/passwd.go:31 | exclusive or is commutative |
| NativePasswd.XorInverse | native/passwd.go:31 | on bytes, exclusive or with b is its own inverse and commutes |
| NativePasswd.XorBytes | native/passwd.go:29-32 | byte i of the token is byte i of the stage-3 hash xor byte i of the stage-1 hash |
| NativePasswd.TokenSpec | native/passwd.go:13-33 | the token has the scramble's length; a scramble longer than either hash panics with an index error |
| NativePasswd.EncryptedSpec | native/passwd.go:9-33 | an empty password gives an empty token, any other the scrambled token |
| NativePasswd.EncryptedPasswd | native/passwd.go:9-34 | the loop computes the specified token |
| NativePasswd.XorLoop | native/passwd.go:29-32 | the loop xors the two hashes byte by byte over the scramble's length, and panics when a hash is shorter |
| NativePasswd.ServerRecovers | native/passwd.go:8-33 | a server that knows SHA1(SHA1(password)) and the 20-byte scramble recovers SHA1(password) from the token and checks it against the stored hash |
| NativePasswd.HashResult | native/passwd.go:52-53 | both halves of the result have the sign bit cleared, and a half already below 2^31 is kept |
| NativePasswd.HashPassword | native/passwd.go:37-55 | the loop computes the fold of the hash step over the password |
| NativePasswd.Unblanked | native/passwd.go:42-44 | removing spaces and tabs leaves no space or tab |
| NativePasswd.HashIgnoresBlanks | native/passwd.go:41-50 | spaces and tabs in the password do not change the hash |
| NativePasswd.BlankPassword | native/passwd.go:39-53 | a password of only spaces and tabs hashes to the starting constants |
| NativePasswd.NoneLeft | native/passwd.go:42-44 | removing spaces and tabs from a password of only those leaves nothing |
| NativePasswd.EncryptedOldPassword | native/passwd.go:57-62 | the old-style password is always empty |
| MysqlTypes.Num | mysql/types.go:54 | a number field parses exactly when strconv parses it, to the same value |
| MysqlTypes.DateStringForm | mysql/types.go:18-20 | a date prints in at least ten characters, and the zero date as 0000-00-00 |
| MysqlTypes.DateIsZero | mysql/types.go:22-25 | a date is zero exactly when it equals 0000-00-00 |
| MysqlTypes.ParseDate | mysql/types.go:46-77 | a parsed date has month 1..12 and day 1..31 and came from a trimmed string of 10 characters |
| MysqlTypes.Wrap16 | mysql/types.go:69 | int16(y) keeps every year that fits in 16 bits |
| MysqlTypes.ParseDuration | mysql/types.go:100-111 | an empty or all-blank string panics on str[0] |
| MysqlTypes.ParseClock | mysql/types.go:123-149 | the minutes and seconds part is accepted only with 5 or 15 characters |
| MysqlTypes.Pow10 | mysql/types.go:95 | powers of ten are positive |
| MysqlTypes.DigitsLength | mysql/types.go:19-95 | a number below 10^k prints in at most k digits |
| MysqlTypes.Pad2Reads | mysql/types.go:19-93 | a two-digit field prints as two digits that parse back to the number |
| MysqlTypes.ParseDateOf | mysql/types.go:46-72 | a trimmed YYYY-MM-DD string with fields in range parses to that date |
| MysqlTypes.YearField | mysql/types.go:19-54 | a year in -999..9999 prints as four characters that parse back to the year |
| MysqlTypes.ParseDateString | mysql/types.go:18-77 | printing a date with year -999..9999, month 1..12 and day 1..31 and parsing it back gives the same date |
| MysqlTypes.DatePieces | mysql/types.go:18-20 | the date string is the year, month and day fields joined by dashes, each parsing back to its value |
| MysqlTypes.DateTextFields | mysql/types.go:51-63 | the fields of a joined date sit at the offsets ParseDate reads |
| MysqlTypes.DurationFields | mysql/types.go:86-91 | hours, minutes, seconds and nanoseconds recombine to the duration |
| MysqlTypes.ParseClockOf | mysql/types.go:123-149 | a well-formed MM:SS[.NNNNNNNNN] part parses to the nanoseconds it denotes |
| MysqlTypes.ParseDurationOf | mysql/types.go:100-151 | an hours field, a colon and a well-formed clock part parse to the wrapped duration |
| MysqlTypes.ClockReads | mysql/types.go:93-149 | the clock part DurationString prints parses back |
| MysqlTypes.ClockTextEnd | mysql/types.go:93-95 | the printed clock part ends in a digit, so trimming leaves it alone |
| MysqlTypes.DurationStringIs | mysql/types.go:80-96 | for a non-negative duration the string is the hours, a colon and the clock part |
| MysqlTypes.ParseDurationString | mysql/types.go:80-157 | ParseDuration reads back every non-negative duration DurationString prints |
| MysqlTypes.DurationPieces | mysql/types.go:80-96 | the printed duration splits at its first colon into hours and a clock part that parse back |
| Common.Atoi | common.go:139-169 | strconv.Atoi succeeds exactly when the number parses, with its value |
| Common.StrToDate | common.go:128-145 | a date is returned only for a trimmed string of 10 characters with dashes at 4 and 7 |
| Common.ExampleFields | common.go:139-141 | the fields of "1234-56-78" parse as 1234, 56 and 78 |
| Common.StrToDateExamples | common.go:128-145 | "1234-56-78" and " 1234-56-78  " give 1234-56-78, with no range check on month or day; "1234:56:78" and a string with a time give nil |
| Common.StrToDateRejects | common.go:130-132 | a date with colons or with a time part is rejected |
| Common.StrToDatePlain | common.go:128-145 | "1234-56-78" is accepted as written, month 56 and day 78 included |
| Common.StrToDateFields | common.go:128-145 | a trimmed yyyy-mm-dd string whose three fields parse gives the date of those values, the year wrapped to 16 bits and month and day to 8 |
| Common.SpacedExample | common.go:130 | surrounding blanks are trimmed |
| Common.DateToDatetime | common.go:110-119 | nil maps to nil; otherwise the date fields are kept and the time fields are zero |
| Common.DateToDatetimeZero | common.go:89-124 | a converted date is the zero datetime exactly when the date is zero |
| Common.IsDateZero | common.go:121-125 | the old package's zero test agrees with Date.IsZero |
| Common.IsDatetimeZero | common.go:88-92 | a datetime is zero exactly when every field is 0 |
| Common.StrToDatetime | common.go:149-172 | a datetime is returned only when the trimmed string starts with a valid date |
| Common.StrToDatetimeOfDate | common.go:149-157 | a 10-character string converts as its date with a zero time |
| Common.WriteBS | common.go:57-66 | a string or a byte slice is written as its bytes; any other type panics |
| Common.LenBS | common.go:68-76 | the length is defined exactly for a string or a byte slice |
| Common.LenBSOfWriteBS | common.go:57-76 | lenBS is the number of bytes writeBS writes, and both fail on the same types |
| Binding.DatetimeString | binding.go:21-39 | nil prints as "NULL" |
| Binding.TimestampString | binding.go:42-44 | a Timestamp prints as the Datetime with the same fields |
| Binding.FmtIntStart | binding.go:27-35 | a formatted number starts with a minus sign or a digit |
| Binding.NullOnlyForNil | binding.go:21-39 | "NULL" is printed exactly for nil |
| Binding.DateTextReads | binding.go:35 | the date part printed for a printable datetime parses back to its date |
| Binding.DateOfFields | binding.go:35 | printed year, month and day fields joined with dashes parse back as the date |
| Binding.ByteMod | binding.go:18 | a byte is its own value modulo 256 |
| Binding.ClockOfFields | binding.go:31 | the hour, minute and second fields sit at offsets 0, 3 and 6 |
| Binding.ClockReads | binding.go:31 | the clock part printed for a printable datetime reads back as its hour, minute and second |
| Binding.TrimLeadingSpace | common.go:158 | trimming a blank-led time gives the time |
| Binding.StrToDatetimeOf | common.go:149-172 | a trimmed 19-character date and time whose fields parse gives that datetime |
| Binding.SecondsTextReads | binding.go:30-33 | the seconds form reads back as the datetime with the nanoseconds dropped |
| Binding.SecondsOfParts | binding.go:30-33 | a date, a blank and a time that parse give the datetime |
| Binding.Joined | binding.go:31 | a date and time joined by a blank are already trimmed and split at offset 10 |
| Binding.DatetimeStringReads | binding.go:21-39 | StrToDatetime reads back every printable datetime without nanoseconds that String prints |
| Binding.DateFormReads | binding.go:34-35 | a datetime at midnight is printed as its date only, and that reads back |
| Binding.ZeroDateText | binding.go:38 | the zero date prints as 0000-00-00 |
| Binding.FractionText | binding.go:25-29 | with nanoseconds the string is 29 characters: the seconds form, a dot and nine digits that parse back to the nanoseconds |
| Binding.NanosText | binding.go:27 | nanoseconds print as nine digits that parse back |
| Binding.FractionJoined | binding.go:27 | the dot sits at offset 19 |
| Binding.MysqlIntType | binding.go:128-146 | an integer kind maps to a MySQL type, and a non-integer kind panics with "unknown int kind" |
| Binding.MysqlFloatType | binding.go:148-160 | exactly the float kinds map to a MySQL type; any other kind panics |
| Binding.SignlessIntType | binding.go:128-146 | a signed kind and its unsigned partner map to the same type and size |
| Binding.SizedKinds | binding.go:128-160 | an 8, 16, 32 or 64-bit kind maps to TINY, SHORT, LONG or FLOAT, LONGLONG or DOUBLE with its size in bytes |
| Binding.WithUnsigned | binding.go:95 | setting the unsigned flag keeps the type in the low bits |
| Binding.BindValue | binding.go:60-126 | nil binds as NULL with length 0; a failure is BIND_UNK_TYPE, the failed Raw assertion or an unknown int kind; a non-Raw value is marked as a pointer exactly when it is one, and is not raw |
| Binding.BindOutcomes | binding.go:60-126 | nil binds as NULL; strings, slices, blobs, datetimes and raw values bind with unknown length; integers bind with their kind's size, unsigned ones with the unsigned flag; pointers bind through to their target; any other type panics with BIND_UNK_TYPE |
| Binding.UnsignedBinding | binding.go:85-99 | an unsigned integer binds as its signed partner with the unsigned flag set, directly or through a pointer |
| Binding.BoundTypesAreWritable | binding.go:60-126 | every type bindValue accepts is one writeValue can write |
| MysqlRow.Text | mysql/row.go:40 | string(bytes) keeps every byte as a character |
| MysqlRow.ParseSigned | mysql/row.go:71 | strconv.Atoi (and ParseInt(s, 10, 64) at mysql/row.go:343) is exact within the range, gives the bound on the number's side with ERANGE outside it, and 0 with ErrSyntax exactly when the text is malformed |
| MysqlRow.ParseUnsigned | mysql/row.go:383 | strconv.ParseUint(s, 10, 64) succeeds exactly when the decimal text parses, with its value, and gives the largest uint64 exactly on ERANGE |
| MysqlRow.ParseUnsignedAuto | mysql/row.go:128-131 | uint(v) of strconv.ParseUint(s, 0, 0) succeeds exactly when the text parses in the base its prefix names and fits a 32-bit uint, and gives the largest uint exactly on ERANGE |
| MysqlRow.Bin | mysql/row.go:23-35 | NULL gives an empty slice and a []byte column its own bytes |
| MysqlRow.Str | mysql/row.go:38-48 | the string is the bytes Bin gives |
| MysqlRow.IntErr | mysql/row.go:55-94 | the value is always within the 32-bit int range |
| MysqlRow.Int | mysql/row.go:106-111 | the value IntErr gives, error dropped, within the int range and 0 for NULL |
| MysqlRow.MustInt | mysql/row.go:96-104 | fails exactly when IntErr errs, with that error, and otherwise gives what Int gives |
| MysqlRow.UintErr | mysql/row.go:115-149 | ErrSyntax arises only from a []byte column, with the value 0, and EINVAL exactly for a kind that is not NULL, an integer or a []byte |
| MysqlRow.Uint | mysql/row.go:161-166 | the value UintErr gives, error dropped, 0 for NULL |
| MysqlRow.MustUint | mysql/row.go:151-159 | fails exactly when UintErr errs, with that error, and otherwise gives what Uint gives |
| MysqlRow.Bool | mysql/row.go:320-325 | the value BoolErr gives, error dropped, false for NULL |
| MysqlRow.MustBool | mysql/row.go:311-318 | fails exactly when BoolErr errs, with that error, and otherwise gives what Bool gives |
| MysqlRow.Int64 | mysql/row.go:360-365 | the value Int64Err gives, error dropped, 0 for NULL |
| MysqlRow.Int64Err | mysql/row.go:327-347 | ErrSyntax arises only from a []byte column, with the value 0; ERANGE only from a []byte column or an unsigned value above MaxInt64; EINVAL exactly for a kind that is not NULL, an integer or a []byte |
| MysqlRow.Uint64Err | mysql/row.go:367-387 | ErrSyntax arises only from a []byte column, with the value 0; ERANGE only from a []byte column or a negative signed value; EINVAL exactly for a kind that is not NULL, an integer or a []byte |
| MysqlRow.ExactOnRange | mysql/row.go:334-341 | an integer column the target holds converts exactly with no error: every signed kind and an unsigned value up to MaxInt64 in Int64Err, every unsigned kind and a non-negative signed value in Uint64Err (:374-381) |
| MysqlRow.MustInt64 | mysql/row.go:350-358 | fails exactly when Int64Err errs, with that error, and otherwise gives what Int64 gives |
| MysqlRow.Uint64 | mysql/row.go:400-405 | the value Uint64Err gives, error dropped, 0 for NULL |
| MysqlRow.MustUint64 | mysql/row.go:390-398 | fails exactly when Uint64Err errs, with that error, and otherwise gives what Uint64 gives |
| MysqlRow.Plain | mysql/row.go:108-111 | the plain accessor returns the value of the *Err accessor and drops its error |
| MysqlRow.Must | mysql/row.go:98-104 | the Must accessor panics exactly when the *Err accessor errs, with that error |
| MysqlRow.NullIsZero | mysql/row.go:58-59 | NULL converts to 0 or false with no error in every *Err accessor |
| MysqlRow.IntErrRange | mysql/row.go:50-90 | an integer within [-2^31, 2^31-1] converts exactly; outside it the value is 0 with ERANGE, and only an int64, a uint32 or a uint64 can be outside |
| MysqlRow.UintErrRange | mysql/row.go:113-144 | an integer within [0, 2^32-1] converts exactly; outside it the value is 0 with ERANGE, and only a negative value, a uint64 or an int64 can be outside |
| MysqlRow.BoolErrKinds | mysql/row.go:285-310 | every integer kind converts to value ≠ 0, NULL to false, and anything else, []byte included, gives EINVAL |
| MysqlRow.WrappedOnRange | mysql/row.go:336-381 | an unsigned value above MaxInt64 gives ERANGE yet the wrapped value, and likewise a negative value for Uint64Err |
| MysqlRow.UnsupportedIsInvalid | mysql/row.go:90-91 | floats, dates, datetimes, times and other types give EINVAL in every *Err accessor |
| MysqlRow.DecimalColumn | mysql/row.go:70-71 | a []byte column of decimal digits converts to its value where the type holds it and to the type's largest value with ERANGE where it does not, in IntErr (2^31-1), Int64Err (:342-343), Uint64Err (:382-383) and, without a leading "0", UintErr (:129-131) |
| MysqlRow.NegativeDecimalColumn | mysql/row.go:70-71 | "-" and decimal digits give the negative number in IntErr and Int64Err (:343), or the least value with ERANGE, and ErrSyntax with 0 in UintErr and Uint64Err |
| MysqlRow.UintErrBases | mysql/row.go:129-131 | UintErr reads a "0x"/"0X" prefix as hexadecimal and a leading "0" as octal, with ERANGE and the largest uint past 2^32-1 |
| MysqlRow.UintErrExamples | mysql/row.go:129-131 | "010" gives 8, "0x1f" gives 31 and "08" gives 0 with ErrSyntax |
| Addons.NbinToNstr | addons.go:25-31 | nil maps to nil and a byte slice to the string with the same bytes |
| Addons.NstrToNbin | addons.go:33-39 | nil maps to nil and a string to the byte slice with the same bytes |
| Addons.RoundTrips | addons.go:25-39 | the two conversions are inverse to each other |
| MysqlUtils.NotEof | mysql/utils.go:74-78 | io.EOF becomes no error and every other error is kept |
| MysqlUtils.Blank | mysql/utils.go:72-98 | MakeRow gives a row of the result's width with every cell NULL |
| MysqlUtils.FetchOutcomes | mysql/utils.go:71-81 | GetRow returns the next row with no error while rows remain, and then a nil row with the end error, io.EOF turned into nil |
| MysqlUtils.CollectAll | mysql/utils.go:84-94 | GetRows returns every remaining row in order, with the end error and io.EOF turned into nil |
| MysqlUtils.ScanToEndLast | mysql/utils.go:99-102 | scanning until an error leaves the last row in the buffer, or the buffer unchanged when no row was left |
| MysqlUtils.LastRowIsLast | mysql/utils.go:97-107 | GetLastRow returns the last row, a blank row when there was none, and on an error other than io.EOF a nil row with that error |
| MysqlUtils.EndAgreesWithGetRows | mysql/utils.go:84-117 | End reports the same error GetRows does |
| MysqlUtils.FirstRowAsWrittenKeepsRest | mysql/utils.go:120-126 | as written, GetFirstRow is GetRow: the condition err != nil && row != nil never holds, so the rows after the first are never discarded |
| MysqlUtils.FirstRowAsWrittenOnTwoRows | mysql/utils.go:120-126 | on a result of two rows, the second is still unread after GetFirstRow |
| MysqlUtils.FirstRowDiscardsRest | mysql/utils.go:119-126 | with the corrected condition, GetFirstRow returns the first row (nil when there is none) and leaves no rows unread, and its error is the end error with io.EOF turned into nil |
| MysqlUtils.ResultSet.constructor | mysql/interface.go:62-82 | a result starts with the given rows, end error and width |
| MysqlUtils.ResultSet.MakeRow | mysql/interface.go:77 | the new row is blank and as wide as the result |
| MysqlUtils.ResultSet.ScanRow | mysql/interface.go:64 | ScanRow consumes one row and fills the buffer, or reports the end error |
| MysqlUtils.GetRow | mysql/utils.go:71-81 | returns what the specification Fetch returns, consuming one row |
| MysqlUtils.GetRows | mysql/utils.go:84-94 | returns what the specification Collect returns, leaving no row unread |
| MysqlUtils.GetLastRow | mysql/utils.go:97-107 | returns what the specification LastRow returns, leaving no row unread |
| MysqlUtils.End | mysql/utils.go:114-117 | returns GetLastRow's error, leaving no row unread |
| MysqlUtils.GetFirstRowAsWritten | mysql/utils.go:120-126 | behaves as FirstRowAsWritten: the first row is read and the rest stay unread |
| MysqlUtils.GetFirstRow | mysql/utils.go:119-126 | behaves as the corrected FirstRow: the first row is read and the rest discarded |
| MysqlUtils.Query | mysql/utils.go:9-16 | a Start error is returned with no rows and the result untouched; otherwise all rows are read |
| MysqlUtils.QueryFirst | mysql/utils.go:19-26 | a Start error is returned untouched; otherwise the first row is returned as GetFirstRow does as written, and the rows after it stay unread |
| MysqlUtils.QueryLast | mysql/utils.go:29-36 | a Start error is returned untouched; otherwise the last row is returned as GetLastRow does |
| MysqlUtils.Exec | mysql/utils.go:40-47 | a Run error is returned with no rows; otherwise all rows are read |
| MysqlUtils.ExecFirst | mysql/utils.go:50-57 | a Run error is returned untouched; otherwise the first row is returned as GetFirstRow does as written, and the rows after it stay unread |
| MysqlUtils.ExecLast | mysql/utils.go:60-67 | a Run error is returned untouched; otherwise the last row is returned as GetLastRow does |
| MysqlResUtils.DrainAll | resutils.go:12-21 | End reads every remaining row and returns the end error, with io.EOF turned into nil |
| MysqlResUtils.EndsAgree | resutils.go:12-34 | ResUtils.End reports the same error as GetRows and GetLastRow |
| MysqlResUtils.NoRows | resutils.go:24-34 | with no rows left GetRows returns no rows and the end error, and nil on io.EOF |
| MysqlResUtils.ResUtils.constructor | resutils.go:3-5 | wraps the given result |
| MysqlResUtils.ResUtils.End | resutils.go:12-21 | returns the drained end error, leaving no row unread |
| MysqlResUtils.ResUtils.GetRows | resutils.go:24-34 | returns every remaining row and the end error, leaving no row unread |
| GoDriver.ParseParams | godrv/driver.go:314-325 | the loop builds the same map as folding ParamOf over the items split at "&" |
| GoDriver.ParamOfSplits | godrv/driver.go:318-322 | an item key=value with no "=" in the key sets that key to that value |
| GoDriver.ParamOfSkips | godrv/driver.go:318-321 | an item without "=" is skipped |
| GoDriver.LastSetter | godrv/driver.go:317-323 | the index found is the last item that sets the key, or -1 when none does |
| GoDriver.LastItemWins | godrv/driver.go:314-325 | a key is in the map exactly when some item sets it, and then its value is the one the last such item gives |
| GoDriver.Star | godrv/driver.go:209-212 | a password escaped as documented has no slash left, and a question mark survives |
| GoDriver.StarToSlashes | godrv/driver.go:209-212 | the first replacement, "*" to "/", turns an escaped password into the password with each slash doubled and each star as a pair of slashes |
| GoDriver.SlashesToPlain | godrv/driver.go:293-305 | the second replacement, "//" to "*", gives back the password when no '/' in it is followed by '/' or '*' |
| GoDriver.UnstarStar | godrv/driver.go:209-212 | unescaping an escaped password in which no '/' is followed by '/' or '*' gives the password back |
| GoDriver.StarIsAmbiguous | godrv/driver.go:209-212 | the passwords "/*" and "*/" escape to the same "***", which unescapes to "*/" |
| GoDriver.ParseDSN | godrv/driver.go:258-312 | every URI parses: SplitN with limit 4 gives one to four parts, so ErrDSN is never returned |
| GoDriver.WithPortAppends | godrv/driver.go:282-301 | an address without a colon gets ":3306" appended |
| GoDriver.SplitQuery | godrv/driver.go:261-266 | the URI splits at the first "?" into the DSN and the parameters |
| GoDriver.ParamsIffQuery | godrv/driver.go:261-266 | parameters are present exactly when the URI has a "?", and they are parsed from what follows the first one |
| GoDriver.ProtoPrefix | godrv/driver.go:267-272 | a URI proto://rest is split into the protocol and the rest |
| GoDriver.FourParts | godrv/driver.go:273 | a path of four slash-separated parts, the last possibly holding slashes, splits into exactly those parts |
| GoDriver.ThreeParts | godrv/driver.go:273 | three slash-free parts split into those three parts |
| GoDriver.TwoParts | godrv/driver.go:273 | two slash-free parts split into those two parts |
| GoDriver.FullForm | godrv/driver.go:296-305 | proto://ADDR/DBNAME/USER/PASSWD gives that protocol, the address with a default port, the database, the user and the unescaped password |
| GoDriver.ProtoWithoutPassword | godrv/driver.go:280-288 | proto://ADDR/DBNAME/USER gives an empty password |
| GoDriver.NoProto | godrv/driver.go:267-272 | a URI without "://" keeps the default protocol tcp |
| GoDriver.LocalForm | godrv/driver.go:289-294 | DBNAME/USER/PASSWD connects to 127.0.0.1:3306 over tcp with the unescaped password |
| GoDriver.ShortForms | godrv/driver.go:275-279 | DBNAME alone, or DBNAME/USER, keep the default protocol and address and an empty user or password |
| MakeToc.Reach | doc/make_toc.py:11-14 | the match cannot cross a newline: the reach is the length of the first line |
| MakeToc.Search | doc/make_toc.py:11-14 | a split point found for a stage fits that stage |
| MakeToc.Groups | doc/make_toc.py:11-16 | a match yields one group per capture of the stage |
| MakeToc.EntriesStep | doc/make_toc.py:27-35 | each line adds its own entry after the entries of the lines before it |
| MakeToc.MakeToc | doc/make_toc.py:5-36 | with other than one argument, or with -h, only the usage line is printed and the exit status is 1; otherwise the output is the table of contents of the lines |
| MakeToc.EntriesConcat | doc/make_toc.py:27-35 | the entries of two runs of lines are the entries of each, in order |
| MakeToc.OneLine | doc/make_toc.py:28-35 | a line gives one entry if it matches and none otherwise |
| MakeToc.TocShape | doc/make_toc.py:26-36 | the output opens with <dl>, closes with </dl>, and holds the entries of the lines in order |
| MakeToc.EntryHoldsFields | doc/make_toc.py:32-35 | the entry links to the id and shows the name, as a <dd> line exactly when the id has a dot and as a <dt> line otherwise |
| MakeToc.SearchIsLargest | doc/make_toc.py:11 | the greedy search finds the last split point that fits, and none means no split point fits |
| MakeToc.StopMatches | doc/make_toc.py:11-14 | the expression matches exactly when the search from the end of the first line succeeds |
| MakeToc.Matches | doc/make_toc.py:11-14 | the expression matches exactly when some split point within the first line fits |
| MakeToc.ReachPast | doc/make_toc.py:11 | a text without newline lies inside the first line |
| MakeToc.StopAfter | doc/make_toc.py:11-14 | a fitting split point at the end of a newline-free prefix gives a match |
| MakeToc.NoNewline | doc/make_toc.py:11-16 | no captured group holds a newline |
| MakeToc.Lit | doc/make_toc.py:11 | a literal placed after a prefix is found right there |
| MakeToc.HeadingListed | doc/make_toc.py:11-28 | every godoc heading line with an h2 or h3 level and an anchor is listed |
| MakeToc.ListedHasHeading | doc/make_toc.py:11-17 | a listed line has an h2 or h3 heading tag with an id attribute on its first line |
| MakeToc.EntryIsOneLine | doc/make_toc.py:32-35 | every entry is one line |
| NativeResult.FixedTail | native/result.go:222-229 | the fixed-width part of a column definition (charset, display length, type, flags, scale, filler) reads back field by field |
| NativeResult.BinRowSpec | native/result.go:258-343 | decoding a binary row never fails with UNK_RESULT_PKT_ERROR |
| NativeResult.TextColsErrors | native/result.go:238-256 | decoding a text row never fails with UNK_RESULT_PKT_ERROR |
| NativeTime.CopyInto | native/codecs.go:347-358 | copy into a slice of the buffer changes that slice only |
| NativeTime.TimeParts | native/codecs.go:341-360 | nanoseconds, seconds of the day and days add up to the duration, and the day count fits in 32 bits |
| NativeTime.ClockValue | native/codecs.go:353-355 | the hour, minute and second written give the seconds of the day back |
| NativeTime.ReadNtimeOf | native/codecs.go:290-325 | a length byte of 5, 8 or 12 and that many bytes read as the duration of those fields |
| NativeTime.FieldsValue | native/codecs.go:300-325 | the fields read give sign times nanoseconds plus seconds plus days, wrapped to int64 |
| NativeTime.TimeBytesOfParts | native/codecs.go:335-364 | the layout written holds the sign and the parts of the magnitude |
| NativeTime.TimeSigns | native/codecs.go:366-383 | the length test on Go's truncating remainders of a signed duration agrees with the same test on its magnitude |
| NativeTime.ReadNdatetimeOf | native/codecs.go:385-421 | a length byte of 4, 7 or 11 and that many bytes read as the datetime of those fields |
| NativeTime.NanosTail | native/codecs.go:406-443 | the nanosecond bytes left after the second overwrites byte 7 read back as Nanosec / 256 |
| NativeTime.DatetimeFieldsNanos | native/codecs.go:406-457 | a datetime with nanoseconds written and read back has Nanosec / 256 |
| Bytes.Wrap64 | mysql/types.go:150 | int64 arithmetic keeps every result that fits in 64 bits |
| Bytes.ToU64 | mysql/row.go:381 | uint64 of a non-negative value below 2^64 is that value |
| Bytes.ToI64 | mysql/row.go:341 | int64 of a uint64 is the value when it fits and the value minus 2^64 otherwise |
| Bytes.Quot | mysql/types.go:86-91 | Go's division agrees with Euclidean division on non-negative operands |
| Bytes.Rem | mysql/types.go:86-91 | Go's remainder recombines with the quotient, is smaller than the divisor in magnitude, and agrees with Euclidean remainder on non-negative operands |
| Bytes.LeValueOfLeBytes | native/codecs.go:10-77 | encoding a value below 256^n in n little-endian bytes and decoding it gives the value back |
| Bytes.LeBytesOfLeValue | native/codecs.go:10-77 | decoding n bytes and encoding the value in n bytes gives the bytes back |
| NativeCodecs.ReadN | native/codecs.go:13-17 | the readFull the stream readers start with: n bytes succeed exactly when n bytes are there, and fail with io.ErrUnexpectedEOF otherwise |
| NativeCodecs.ReadByte | native/codecs.go:82-83 | the readByte readNu64 starts with: the next byte when there is one, io.ErrUnexpectedEOF otherwise |
| Codecs.Reader.ReadFull | common.go:13-24 | n bytes are consumed when there; a short stream is drained and fails with io.ErrUnexpectedEOF |
| Codecs.Reader.ReadOne | common.go:33-34 | one byte is consumed when there; an empty stream reports io.EOF to the caller, who renames it |
| Codecs.Writer.Write | common.go:43-51 | the bytes are appended to the output |
| Codecs.ReadByte | common.go:32-41 | readByte returns the next byte or fails with io.ErrUnexpectedEOF |
| Packet.Unexpected | common.go:17-37 | the end of the stream is renamed io.ErrUnexpectedEOF and every other error is kept |
| Packet.Renamed | common.go:17-20 | renaming keeps the state, success and value, and only turns io.EOF into io.ErrUnexpectedEOF |
| Wire.Conn.constructor | native/packet.go:10-21 | a connection starts with the server's bytes to read, no byte to unread, sequence number 0 and nothing written |
| Wire.Conn.Read | native/packet.go:79-83 | a read returns up to n bytes, io.EOF only when nothing is left and n > 0, and remembers the last byte for UnreadByte |
| Wire.Conn.ReadFull | native/packet.go:29-33 | io.ReadFull returns n bytes, io.EOF when nothing was there, io.ErrUnexpectedEOF when some but not enough were |
| Wire.Conn.ReadByte | native/packet.go:35-99 | bufio.ReadByte returns the next byte or io.EOF |
| Wire.Conn.UnreadByte | native/packet.go:147-152 | bufio.UnreadByte puts the last byte read back, and fails with ErrInvalidUnreadByte when there is none |
| Wire.Conn.Write | native/packet.go:186-220 | written bytes are appended to the output |
| Wire.Conn.Flush | native/packet.go:232-234 | a flush hands everything written to the network |
| Wire.Next | native/packet.go:43 | the sequence number advances by one modulo 256 |
| Wire.Header | native/packet.go:183-191 | a header has four bytes, the last being the sequence number |
| Wire.FrameSize | native/packet.go:196-238 | a payload is sent in |p| / (2^24 - 1) + 1 frames, each with a 4-byte header |
| GoStrings.Index | godrv/driver.go:261-318 | strings.Index finds the first occurrence of the separator, or -1 when there is none |
| GoStrings.SplitN | godrv/driver.go:261-318 | strings.SplitN gives at most n parts that join back to the string, every part but the last free of the separator, and the last too when fewer than n parts came out |
| GoStrings.Split | godrv/driver.go:316 | strings.Split gives parts that join back to the string, none holding the separator |
| GoStrings.Replace | godrv/driver.go:292-305 | strings.Replace leaves a string without the pattern unchanged |
| GoStrings.IndexAfter | godrv/driver.go:261-273 | the first separator is found right after a prefix that cannot start it |
| GoStrings.SplitNAfter | godrv/driver.go:273 | SplitN cuts at the first separator and splits the rest into one part fewer |
| GoText.Digits | mysql/types.go:19-95 | %d of a non-negative number prints decimal digits, one digit exactly below 10 |
| GoText.FmtInt | mysql/types.go:19-95 | %0wd prints at least one character and at least w |
| GoText.ParseInt | mysql/row.go:343 | strconv.ParseInt(s, 10, 64) succeeds only within the int64 range |
| GoText.ParseUint | mysql/row.go:383 | strconv.ParseUint(s, 10, 64) succeeds only on a non-empty string of decimal digits, with a value below 2^64 |
| GoText.DigitValue | mysql/row.go:130 | strconv gives a digit its decimal value, and a letter or other character a value of 10 or more |
| GoText.ScanUint | mysql/row.go:130 | the digit loop never yields a value above its limit |
| GoText.ParseUintAuto | mysql/row.go:130 | base 0 fails on the empty string and otherwise yields a value within the limit |
| GoText.ScanUintDigits | mysql/row.go:130 | only digits of the base get through the loop |
| GoText.ScanUintValue | mysql/row.go:130 | on digits of the base the loop yields the number they spell, and ERANGE exactly when it exceeds the limit |
| GoText.ScanUintStops | mysql/row.go:130 | the loop stops at its first error, whatever follows |
| GoText.LeadingZeroValue | mysql/row.go:130 | a leading zero digit does not change the value |
| GoText.ParseUintAutoHex | mysql/row.go:130 | "0x" or "0X" and hexadecimal digits read as hexadecimal |
| GoText.ParseUintAutoOctal | mysql/row.go:130 | "0" and octal digits read as octal |
| GoText.ParseUintAutoDecimal | mysql/row.go:130 | decimal digits not starting with "0" read as decimal |
| GoText.ParseUintAutoExamples | mysql/row.go:130 | "08" and "0x" are ErrSyntax; "010" is 8 and "0x1f" is 31 |
| GoText.DecimalIsBaseTen | mysql/row.go:383 | decimal digits are the base-10 digits and spell the same number |
| GoText.ParseUintOfDigits | mysql/row.go:383 | a decimal number below 2^64 parses to its value |
| GoText.ParseUintTooLarge | mysql/row.go:383 | a decimal number past 2^64-1 is ERANGE |
| GoText.ParseIntOfDigits | mysql/types.go:54 | a digit string within the int64 range parses to its value |
| GoText.ParseIntOfNegDigits | mysql/types.go:106-115 | a minus sign and digits parse to the negative value |
| GoText.FmtIntParses | mysql/types.go:19-54 | whatever %0wd prints, strconv parses back |
| GoText.FmtNegParses | mysql/types.go:19-54 | whatever %0wd prints for a negative number, strconv parses back |
| GoText.TrimSpace | mysql/types.go:50-101 | strings.TrimSpace leaves no white space at either end |
| GoText.TrimSpaceOfTrimmed | mysql/types.go:50-101 | a string without white space at its ends is unchanged by TrimSpace |
| GoText.IndexChar | mysql/types.go:114 | strings.IndexRune gives -1 or an index holding the character |
| GoText.IndexCharAt | mysql/types.go:114 | the first occurrence after a prefix without the character is found right after it |

## Left out

- Sockets, `net.Conn`, `bufio` buffering and flushing, and connection set-up and teardown. Streams are byte sequences, and a flush is not modelled.
- Concurrency: the mutexes of `thrsafe` and `lock`/`unlock`/`unlockIfError` in utils.go. Reconnect and retry loops with sleeps are also left out.
- SHA1 and SHA256 are function parameters of the password scramble. Their bodies are not modelled.
- Floating-point values are carried as raw bit patterns. The `math.Float*frombits` conversions are not modelled.
- The `fmt.Sprint` fallbacks of `Row.Bin`/`Row.Str` are not modelled. `Startv`/`Startf`/`Queryv`/`Queryf` format with `fmt` and are left out as well.
- Reflection in `bindValue`: the Go type is passed as a descriptor (`GoType`) rather than discovered. The platform-dependent constants for `int`/`uint`/`float` are a parameter.
- Debug logging is not modelled. It does not affect results.
- `Result.GetRow` and `ScanRow` are a class holding the pending rows and the final error. The row decoding behind them is modelled separately in the result decoders.
- Starting a query and running a statement (`Start`, `Run`, `Exec`) are the rows they produce. This applies to the Query*/Exec* compositions of mysql/utils.go.
- `Date.Datetime`, `Date.Localtime` and `TimeToDatetime` depend on time zones and are not modelled.
- `DateErr`, `DatetimeErr` and `TimeErr` of mysql/row.go call `StrToDate`/`StrToTime` from a package that is not part of this model, so they are left out.
- The text parsers treat characters as bytes. `TrimSpace` trims ASCII white space only, and printable text is limited to the ranges the round-trip lemmas name.
- The driver's `Open`, the charset and keep-alive options, and the `database/sql` glue (`conn`, `stmt`, `tx`, `rowsRes`, `errFilter`) are not modelled.
- The make_toc script's file reading and writing is not modelled: the script is a function from input lines to output lines. Its regular expression is modelled as the greedy search it performs.
- NativeUnsafe.LenCountsWritten: does not cover the zero TIME value. For that value `Len` counts 1 byte while `writeValue` writes 2, which `NativeUnsafe.ZeroTimeMiscounted` states as written.
- NativeUnsafe.LenCountsWritten: also leaves out the most negative TIME (-2^63 ns), whose negation wraps in Go's int64 arithmetic; the lengths for that one value are not stated.
- NativeTime.DatetimeFieldsNanos: the nanoseconds are copied at offset 7 instead of 8, so a written DATETIME reads back with its nanoseconds divided by 256. This is stated as written, not as the intended round trip.
- NativePacket.ReadAll and Packet.ReadAll: when the current packet is empty and not the last one, the Go loop never ends. The model returns `NoProgress` there instead of running forever.
- NativePacket.SkipN: modelled as written (`n -= n`). It makes one read of at most 4069 bytes, so it skips n bytes only when n is at most 4069.
- MysqlTypes.DurationStringIs: stated for non-negative durations only. The Go code never negates `d`, so a negative duration prints a mix of signs.
- MysqlTypes.ParseDurationString: the round trip is stated for non-negative durations only, for the same reason.
- Prepared.GetPrepareResult: the nil map that `fieldMap` would be written to is excluded by the result's invariant (a map exists exactly when there are fields).
- After a fast authentication, `authResponse` reads an OK packet with `getResult`. That read is not modelled: the model stops at the `FastAuth` step.
- The old engine's `readByte` returns a zeroed byte on a zero-length read. The model reports `UnexpectedEof` instead.
- Command: a write error after the header is not modelled; writes to the buffer always succeed.
- Unsafe (package mymy) measures and writes DATETIME with package native's codec. The old package's own DATETIME codec is not part of this model.
- NativeInit.Session.Init: reads the greeting's header from the connection, but takes the greeting's payload as a parameter. It does not tie the payload to the header's length or consume it from the connection.

- NativeCodecs.ReadU16, ReadU24, ReadU32, ReadU64, ReadNu64, ReadNbin, ReadNTB, ReadN and ReadByte: their io.ErrUnexpectedEOF on a short stream is the error of native/common.go's readFull and readByte, which are not part of this model; the model assumes that error.
- NativeCodecs.ReadNbin and Codecs.ReadNbin: a declared length far beyond the stream makes Go's `make([]byte, l)` panic or run out of memory before any read; the model reports io.ErrUnexpectedEOF instead, as for any other short stream.
- MysqlRow: a conversion error keeps only the kind of its strconv.NumError (ERANGE, EINVAL, ErrSyntax). The Func and Num fields are dropped, among them the name "Int64Err" that Uint64Err reports (mysql/row.go:370).

## Findings

| source | as written | input that shows it | evidently intended | confidence | as-written member | corrected member |
|---|---|---|---|---|---|---|
| mysql/utils.go:120-126 | `End` is called only when `err != nil && row != nil`. `GetRow` returns a nil row whenever the error is set, so `End` is never called and the rest of the result stays unread | a result with two rows `[a, b]`: after `GetFirstRow`, row `b` is still pending on the connection | call `End` when `err == nil && row != nil`, which discards the remaining rows as the function's doc comment says | not executed | MysqlUtils.FirstRowAsWrittenOnTwoRows | MysqlUtils.FirstRowDiscardsRest |
