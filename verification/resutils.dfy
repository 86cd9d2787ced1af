/** ResUtils of package mysql (mysql/resutils.go): End and GetRows written as loops over
    the result's GetRow, for implementations of Result to embed. */
module MysqlResUtils {
  import opened Wrappers
  import opened Errors
  import opened MysqlRow
  import opened MysqlUtils

  /** The loop of ResUtils.End: GetRow until an error or a nil row, keeping only the error. */
  function Drain(pending: seq<Row>, tail: Error, width: nat): Option<Error>
    decreases |pending|
  {
    var f := Fetch(pending, tail, width);
    if f.err.Some? || f.row.None? then f.err
    else
      FetchOutcomes(pending, tail, width);
      Drain(pending[1..], tail, width)
  }

  /** ResUtils.End reports the final error unless it is io.EOF, after every row. */
  lemma {:induction false} DrainAll(pending: seq<Row>, tail: Error, width: nat)
    ensures Drain(pending, tail, width) == NotEof(tail)
    decreases |pending|
  {
    FetchOutcomes(pending, tail, width);
    if pending != [] {
      DrainAll(pending[1..], tail, width);
    }
  }

  /** On the same rows, ResUtils.End, ResUtils.GetRows and the package's End all report the
      same error. */
  lemma EndsAgree(pending: seq<Row>, tail: Error, width: nat)
    ensures Drain(pending, tail, width) == Collect(pending, tail, width).1
    ensures Drain(pending, tail, width) == LastRow(pending, tail, width).err
  {
    DrainAll(pending, tail, width);
    CollectAll(pending, tail, width);
    EndAgreesWithGetRows(pending, tail, width);
  }

  /** A result with no rows left gives no rows and, at io.EOF, no error. */
  lemma NoRows(tail: Error, width: nat)
    ensures Collect([], tail, width) == ([], NotEof(tail))
    ensures Collect([], Eof, width) == ([], None)
  {
    CollectAll([], tail, width);
    CollectAll([], Eof, width);
  }

  /** The struct: the result whose rows it reads. */
  class ResUtils {
    const res: ResultSet

    constructor(res: ResultSet)
      ensures this.res == res
    {
      this.res := res;
    }

    /** End: reads and discards the remaining rows. */
    method End() returns (err: Option<Error>)
      modifies res
      ensures err == Drain(old(res.pending), res.tail, res.width)
      ensures res.pending == []
    {
      while true
        invariant Drain(res.pending, res.tail, res.width) == Drain(old(res.pending), res.tail, res.width)
        decreases |res.pending|
      {
        ghost var before := res.pending;
        var row;
        row, err := GetRow(res);
        FetchOutcomes(before, res.tail, res.width);
        if err.Some? || row.None? {
          break;
        }
      }
    }

    /** GetRows: every remaining row, in order. */
    method GetRows() returns (rows: seq<Row>, err: Option<Error>)
      modifies res
      ensures (rows, err) == Collect(old(res.pending), res.tail, res.width)
      ensures res.pending == []
    {
      rows := [];
      while true
        invariant rows + res.pending == old(res.pending)
        decreases |res.pending|
      {
        ghost var before := res.pending;
        var row;
        row, err := GetRow(res);
        FetchOutcomes(before, res.tail, res.width);
        if err.Some? || row.None? {
          assert before == [] && res.pending == [] && err == NotEof(res.tail);
          break;
        }
        rows := rows + [row.value];
        assert rows + res.pending == old(res.pending) by {
          assert [before[0]] + before[1..] == before;
        }
      }
      assert rows == old(res.pending);
      CollectAll(old(res.pending), res.tail, res.width);
    }
  }
}
