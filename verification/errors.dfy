/** The failures the client reports, by error value or by panic.  Both generations of the
    library are covered; each constructor names the Go values it stands for. */
module Errors {
  import opened Bytes

  datatype Error =
    | Eof                              // io.EOF / os.EOF: no more packets
    | UnexpectedEof                    // io.ErrUnexpectedEOF: the stream ended inside a value
    | SeqError                         // mysql.ErrSeq / SEQ_ERROR: wrong packet sequence number
    | PktLong                          // mysql.ErrPktLong / PKT_LONG_ERROR: unread bytes left in a packet
    | PktError                         // PKT_ERROR: malformed error packet
    | UnexpNullLcb                     // UNEXP_NULL_LCB_ERROR: NULL where a number was required
    | UnexpNullLcs                     // UNEXP_NULL_LCS_ERROR: NULL where a string was required
    | UnexpNullDate                    // UNEXP_NULL_DATE_ERROR: NULL where a date was required
    | WrongDateLen                     // WRONG_DATE_LEN_ERROR: a TIME/DATETIME of unknown length
    | UnkResultPkt                     // UNK_RESULT_PKT_ERROR: packet not allowed in this state
    | UnkMysqlType                     // UNK_MYSQL_TYPE_ERROR: column type without a binary decoder
    | BindUnkType                      // BIND_UNK_TYPE: parameter type that cannot be sent
    | OldProtocol                      // mysql.ErrOldProtocol: server without PROTOCOL_41
    | TooManyData                      // "too many data for write as packet"
    | UnknownType                      // panic "Unknown data type" of writeLC/lenLC/writeNT/lenBS/writeBS
    | UnknownCommand                   // panic "Unknown code for MySQL command"
    | WrongArgType                     // a failed type assertion
    | UnknownKind                      // panic "unknown int kind" / "unknown float kind"
    | IndexOutOfRange                  // a Go runtime panic on a slice or array index
    | NilDeref                         // a Go runtime panic on a nil pointer
    | InvalidUnread                    // bufio.ErrInvalidUnreadByte
    | NoProgress                       // a loop of the Go code that can make no more progress and never ends
    | BadDSN                           // godrv.ErrDSN: a data source name of the wrong shape
    | ServerError(code: U16, msg: seq<Byte>) // mysql.Error / Error: an ERR packet from the server
}
