/** The row-reading helpers of package mysql (mysql/utils.go).  An open result is modelled
    by the rows its ScanRow has still to deliver and by the error ScanRow returns once they
    are gone: io.EOF at the normal end of a result, or whatever error broke it off.  The
    result's own GetRow and End methods are taken to behave as the package functions GetRow
    and End below. */
module MysqlUtils {
  import opened Wrappers
  import opened Errors
  import opened MysqlRow

  /** The error a helper reports for the error ScanRow ended with: none for io.EOF. */
  function NotEof(e: Error): (r: Option<Error>)
    ensures r == None <==> e == Eof
    ensures r.Some? ==> r.value == e
  {
    if e == Eof then None else Some(e)
  }

  /** A fresh row of the given width, every column NULL. */
  function Blank(width: nat): (row: Row)
    ensures |row| == width && forall i :: 0 <= i < width ==> row[i] == CNil
  {
    seq(width, _ => CNil)
  }

  /** The rows left once the first one, if any, has been read. */
  function Rest(pending: seq<Row>): seq<Row>
  {
    if pending == [] then [] else pending[1..]
  }

  // ---------------------------------------------------------------- specification

  /** What one ScanRow into the buffer `buf` does: it fills the buffer with the next row, or,
      when there is none, returns the final error and leaves the buffer as it was. */
  datatype Scanned = Scanned(buf: Row, err: Option<Error>)

  function Scan(buf: Row, pending: seq<Row>, tail: Error): Scanned
  {
    if pending == [] then Scanned(buf, Some(tail)) else Scanned(pending[0], None)
  }

  /** What GetRow returns: a row or nil, and an error or nil. */
  datatype Fetched = Fetched(row: Option<Row>, err: Option<Error>)

  /** GetRow: MakeRow, then ScanRow into it; io.EOF becomes a nil row and a nil error, and
      any other error a nil row with that error. */
  function Fetch(pending: seq<Row>, tail: Error, width: nat): (f: Fetched)
  {
    var s := Scan(Blank(width), pending, tail);
    if s.err.Some? then
      if s.err.value == Eof then Fetched(None, None) else Fetched(None, s.err)
    else Fetched(Some(s.buf), None)
  }

  /** GetRow never returns a row together with an error: it returns the next row while
      there is one, and otherwise no row and the final error unless that is io.EOF. */
  lemma FetchOutcomes(pending: seq<Row>, tail: Error, width: nat)
    ensures var f := Fetch(pending, tail, width);
      && (f.row.Some? <==> pending != [])
      && (f.row.Some? ==> f.row.value == pending[0] && f.err == None)
      && (f.row.None? ==> f.err == NotEof(tail))
  {
  }

  /** The loop of GetRows: GetRow until an error or a nil row, collecting the rows. */
  function Collect(pending: seq<Row>, tail: Error, width: nat): (seq<Row>, Option<Error>)
    decreases |pending|
  {
    var f := Fetch(pending, tail, width);
    if f.err.Some? || f.row.None? then ([], f.err)
    else
      FetchOutcomes(pending, tail, width);
      var (rows, err) := Collect(pending[1..], tail, width);
      ([f.row.value] + rows, err)
  }

  /** The loop of GetLastRow: ScanRow into one buffer for as long as it succeeds. */
  function ScanToEnd(buf: Row, pending: seq<Row>, tail: Error): Scanned
    decreases |pending|
  {
    var s := Scan(buf, pending, tail);
    if s.err.None? then ScanToEnd(s.buf, pending[1..], tail) else s
  }

  /** GetLastRow: the buffer on io.EOF, otherwise no row and the error. */
  function LastRow(pending: seq<Row>, tail: Error, width: nat): Fetched
  {
    var s := ScanToEnd(Blank(width), pending, tail);
    if s.err == Some(Eof) then Fetched(Some(s.buf), None) else Fetched(None, s.err)
  }

  /** GetFirstRow as written: End is called only when GetRow returned both a row and an
      error.  The result and the rows left unread. */
  function FirstRowAsWritten(pending: seq<Row>, tail: Error, width: nat): (Fetched, seq<Row>)
  {
    var f := Fetch(pending, tail, width);
    if f.err.Some? && f.row.Some? then (Fetched(f.row, LastRow(Rest(pending), tail, width).err), [])
    else (f, Rest(pending))
  }

  /** GetFirstRow as its comment describes it: after a row, End discards the others. */
  function FirstRow(pending: seq<Row>, tail: Error, width: nat): (Fetched, seq<Row>)
  {
    var f := Fetch(pending, tail, width);
    if f.err.None? && f.row.Some? then (Fetched(f.row, LastRow(Rest(pending), tail, width).err), [])
    else (f, Rest(pending))
  }

  // ---------------------------------------------------------------- properties

  /** GetRows returns every row the result still had, in order, and the final error
      unless it is io.EOF; a result with no rows gives no rows and, at io.EOF, no error. */
  lemma {:induction false} CollectAll(pending: seq<Row>, tail: Error, width: nat)
    ensures Collect(pending, tail, width) == (pending, NotEof(tail))
    decreases |pending|
  {
    FetchOutcomes(pending, tail, width);
    if pending != [] {
      CollectAll(pending[1..], tail, width);
      assert [pending[0]] + pending[1..] == pending;
    }
  }

  /** Scanning to the end leaves the last row in the buffer, or the buffer untouched when
      there was none, and ends with the final error. */
  lemma {:induction false} ScanToEndLast(buf: Row, pending: seq<Row>, tail: Error)
    ensures ScanToEnd(buf, pending, tail) ==
      Scanned(if pending == [] then buf else pending[|pending| - 1], Some(tail))
    decreases |pending|
  {
    if pending != [] {
      ScanToEndLast(pending[0], pending[1..], tail);
      if |pending| > 1 {
        assert pending[1..][|pending[1..]| - 1] == pending[|pending| - 1];
      }
    }
  }

  /** GetLastRow returns the last row (a fresh row of NULLs when there were none) at io.EOF,
      and no row and the error otherwise. */
  lemma LastRowIsLast(pending: seq<Row>, tail: Error, width: nat)
    ensures LastRow(pending, tail, width) ==
      if tail == Eof then Fetched(Some(if pending == [] then Blank(width) else pending[|pending| - 1]), None)
      else Fetched(None, Some(tail))
  {
    ScanToEndLast(Blank(width), pending, tail);
  }

  /** End reports exactly the error GetRows reports on the same rows. */
  lemma EndAgreesWithGetRows(pending: seq<Row>, tail: Error, width: nat)
    ensures LastRow(pending, tail, width).err == Collect(pending, tail, width).1
  {
    LastRowIsLast(pending, tail, width);
    CollectAll(pending, tail, width);
  }

  /** As written, GetFirstRow never calls End: it returns the first row and leaves every
      other row unread. */
  lemma FirstRowAsWrittenKeepsRest(pending: seq<Row>, tail: Error, width: nat)
    ensures FirstRowAsWritten(pending, tail, width) == (Fetch(pending, tail, width), Rest(pending))
  {
    FetchOutcomes(pending, tail, width);
  }

  /** The input that shows it: on a result of two rows, the second one is still unread. */
  lemma FirstRowAsWrittenOnTwoRows(a: Row, b: Row, width: nat)
    ensures FirstRowAsWritten([a, b], Eof, width) == (Fetched(Some(a), None), [b])
  {
    FirstRowAsWrittenKeepsRest([a, b], Eof, width);
    FetchOutcomes([a, b], Eof, width);
  }

  /** GetFirstRow with End after a row: the first row, no row left unread, and the final
      error unless it is io.EOF, whether or not there was a row. */
  lemma FirstRowDiscardsRest(pending: seq<Row>, tail: Error, width: nat)
    ensures FirstRow(pending, tail, width) ==
      (Fetched(if pending == [] then None else Some(pending[0]), NotEof(tail)), [])
  {
    FetchOutcomes(pending, tail, width);
    if pending != [] {
      LastRowIsLast(pending[1..], tail, width);
    }
  }

  // ---------------------------------------------------------------- the result

  /** An open result: the rows ScanRow has still to deliver, the error it returns after
      them, and the number of columns MakeRow allocates. */
  class ResultSet {
    var pending: seq<Row>
    const tail: Error
    const width: nat

    constructor(rows: seq<Row>, tail: Error, width: nat)
      ensures pending == rows && this.tail == tail && this.width == width
    {
      pending := rows;
      this.tail := tail;
      this.width := width;
    }

    /** MakeRow: a row with one NULL column per field. */
    method MakeRow() returns (row: Row)
      ensures row == Blank(width)
    {
      row := Blank(width);
    }

    /** ScanRow: the next row into the buffer, or the final error with the buffer untouched.
        The buffer is passed by value: the filled buffer is returned. */
    method ScanRow(row: Row) returns (filled: Row, err: Option<Error>)
      modifies this
      ensures Scanned(filled, err) == Scan(row, old(pending), tail)
      ensures pending == Rest(old(pending))
    {
      if pending == [] {
        filled, err := row, Some(tail);
      } else {
        filled, err := pending[0], None;
        pending := pending[1..];
      }
    }
  }

  // ---------------------------------------------------------------- the helpers

  /** GetRow. */
  method GetRow(r: ResultSet) returns (row: Option<Row>, err: Option<Error>)
    modifies r
    ensures Fetched(row, err) == Fetch(old(r.pending), r.tail, r.width)
    ensures r.pending == Rest(old(r.pending))
  {
    var buf := r.MakeRow();
    var filled, e := r.ScanRow(buf);
    if e.Some? {
      if e.value == Eof {
        return None, None;
      }
      return None, e;
    }
    return Some(filled), None;
  }

  /** GetRows. */
  method GetRows(r: ResultSet) returns (rows: seq<Row>, err: Option<Error>)
    modifies r
    ensures (rows, err) == Collect(old(r.pending), r.tail, r.width)
    ensures r.pending == []
  {
    rows := [];
    while true
      invariant rows + r.pending == old(r.pending)
      decreases |r.pending|
    {
      ghost var before := r.pending;
      var row;
      row, err := GetRow(r);
      FetchOutcomes(before, r.tail, r.width);
      if err.Some? || row.None? {
        assert before == [] && r.pending == [] && err == NotEof(r.tail);
        break;
      }
      rows := rows + [row.value];
      assert rows + r.pending == old(r.pending) by {
        assert [before[0]] + before[1..] == before;
      }
    }
    assert rows == old(r.pending);
    CollectAll(old(r.pending), r.tail, r.width);
  }

  /** GetLastRow. */
  method GetLastRow(r: ResultSet) returns (row: Option<Row>, err: Option<Error>)
    modifies r
    ensures Fetched(row, err) == LastRow(old(r.pending), r.tail, r.width)
    ensures r.pending == []
  {
    var buf := r.MakeRow();
    var e;
    buf, e := r.ScanRow(buf);
    while e.None?
      invariant ScanToEnd(Blank(r.width), old(r.pending), r.tail) ==
        if e.None? then ScanToEnd(buf, r.pending, r.tail) else Scanned(buf, e)
      invariant e.Some? ==> r.pending == []
      decreases |r.pending|, if e.None? then 1 else 0
    {
      buf, e := r.ScanRow(buf);
    }
    if e == Some(Eof) {
      return Some(buf), None;
    }
    return None, e;
  }

  /** End: GetLastRow's error. */
  method End(r: ResultSet) returns (err: Option<Error>)
    modifies r
    ensures err == LastRow(old(r.pending), r.tail, r.width).err
    ensures r.pending == []
  {
    var _, e := GetLastRow(r);
    err := e;
  }

  /** GetFirstRow as written. */
  method GetFirstRowAsWritten(r: ResultSet) returns (row: Option<Row>, err: Option<Error>)
    modifies r
    ensures (Fetched(row, err), r.pending) == FirstRowAsWritten(old(r.pending), r.tail, r.width)
  {
    row, err := GetRow(r);
    if err.Some? && row.Some? {
      err := End(r);
    }
  }

  /** GetFirstRow, discarding the rows after the first. */
  method GetFirstRow(r: ResultSet) returns (row: Option<Row>, err: Option<Error>)
    modifies r
    ensures (Fetched(row, err), r.pending) == FirstRow(old(r.pending), r.tail, r.width)
  {
    row, err := GetRow(r);
    if err.None? && row.Some? {
      err := End(r);
    }
  }

  // ---------------------------------------------------------------- Query and Exec

  /** Query: Conn.Start has returned `res` and `startErr`; on an error no row is read,
      otherwise every row of the result is read. */
  method Query(res: ResultSet?, startErr: Option<Error>) returns (rows: seq<Row>, err: Option<Error>)
    requires startErr.None? ==> res != null
    modifies res
    ensures startErr.Some? ==> rows == [] && err == startErr && (res != null ==> res.pending == old(res.pending))
    ensures startErr.None? ==> (rows, err) == Collect(old(res.pending), res.tail, res.width) && res.pending == []
  {
    if startErr.Some? {
      return [], startErr;
    }
    rows, err := GetRows(res);
  }

  /** QueryFirst: Conn.Start, then GetFirstRow as written, which leaves the rows after the
      first unread. */
  method QueryFirst(res: ResultSet?, startErr: Option<Error>) returns (row: Option<Row>, err: Option<Error>)
    requires startErr.None? ==> res != null
    modifies res
    ensures startErr.Some? ==> row == None && err == startErr && (res != null ==> res.pending == old(res.pending))
    ensures startErr.None? ==> (Fetched(row, err), res.pending) == FirstRowAsWritten(old(res.pending), res.tail, res.width)
  {
    if startErr.Some? {
      return None, startErr;
    }
    row, err := GetFirstRowAsWritten(res);
  }

  /** QueryLast: Conn.Start, then GetLastRow. */
  method QueryLast(res: ResultSet?, startErr: Option<Error>) returns (row: Option<Row>, err: Option<Error>)
    requires startErr.None? ==> res != null
    modifies res
    ensures startErr.Some? ==> row == None && err == startErr && (res != null ==> res.pending == old(res.pending))
    ensures startErr.None? ==> Fetched(row, err) == LastRow(old(res.pending), res.tail, res.width) && res.pending == []
  {
    if startErr.Some? {
      return None, startErr;
    }
    row, err := GetLastRow(res);
  }

  /** Exec: Stmt.Run has returned `res` and `runErr`; then as Query. */
  method Exec(res: ResultSet?, runErr: Option<Error>) returns (rows: seq<Row>, err: Option<Error>)
    requires runErr.None? ==> res != null
    modifies res
    ensures runErr.Some? ==> rows == [] && err == runErr && (res != null ==> res.pending == old(res.pending))
    ensures runErr.None? ==> (rows, err) == Collect(old(res.pending), res.tail, res.width) && res.pending == []
  {
    if runErr.Some? {
      return [], runErr;
    }
    rows, err := GetRows(res);
  }

  /** ExecFirst: Stmt.Run, then GetFirstRow as written, which leaves the rows after the
      first unread. */
  method ExecFirst(res: ResultSet?, runErr: Option<Error>) returns (row: Option<Row>, err: Option<Error>)
    requires runErr.None? ==> res != null
    modifies res
    ensures runErr.Some? ==> row == None && err == runErr && (res != null ==> res.pending == old(res.pending))
    ensures runErr.None? ==> (Fetched(row, err), res.pending) == FirstRowAsWritten(old(res.pending), res.tail, res.width)
  {
    if runErr.Some? {
      return None, runErr;
    }
    row, err := GetFirstRowAsWritten(res);
  }

  /** ExecLast: Stmt.Run, then GetLastRow. */
  method ExecLast(res: ResultSet?, runErr: Option<Error>) returns (row: Option<Row>, err: Option<Error>)
    requires runErr.None? ==> res != null
    modifies res
    ensures runErr.Some? ==> row == None && err == runErr && (res != null ==> res.pending == old(res.pending))
    ensures runErr.None? ==> Fetched(row, err) == LastRow(old(res.pending), res.tail, res.width) && res.pending == []
  {
    if runErr.Some? {
      return None, runErr;
    }
    row, err := GetLastRow(res);
  }
}
