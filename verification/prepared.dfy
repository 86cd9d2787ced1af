/** Prepared statements of package mymysql (prepared.go): the COM_STMT_EXECUTE packet that
    runs a statement with its bound parameters, and the classifier of the answer to
    COM_STMT_PREPARE.

    The package's own parameter binding, packet reader and writer and packet decoders are not
    part of this model.  A parameter is the binding of package native (NativeUnsafe), the
    error, EOF and field packets are decoded as in NativeResult, and the COM_STMT_EXECUTE
    packet is the payload handed to the packet writer together with the length declared to it. */
module Prepared {
  import opened Wrappers
  import opened Bytes
  import opened Errors
  import opened Consts
  import opened NativeCodecs
  import NativeResult
  import NativeUnsafe

  type Field = NativeResult.Field
  type ParamValue = NativeUnsafe.ParamValue

  /** The value of a Statement.  params holds one binding per parameter, None where none is
      bound yet; fieldMap is None while Map is a nil map. */
  datatype StmtState = StmtState(id: U32, params: seq<Option<ParamValue>>, rebind: bool,
                                 fields: seq<Option<Field>>, fieldMap: Option<map<seq<Byte>, int>>,
                                 fieldCount: nat, paramCount: nat, warningCount: int, status: U16)

  /** What getPrepareResult keeps true of a statement: the first FieldCount fields are known,
      Map exists whenever there are fields and points at known ones, and at most as many
      parameter packets as parameters have been read. */
  predicate Valid(s: StmtState)
  {
    && s.fieldCount <= |s.fields|
    && s.paramCount <= |s.params|
    && (forall i :: 0 <= i < s.fieldCount ==> s.fields[i].Some?)
    && (|s.fields| > 0 ==> s.fieldMap.Some?)
    && (s.fieldMap.Some? ==> forall n :: n in s.fieldMap.value ==> 0 <= s.fieldMap.value[n] < s.fieldCount)
  }

  /** Every bound parameter is a binding its type code describes. */
  predicate Bound(params: seq<Option<ParamValue>>)
  {
    forall i {:trigger NativeUnsafe.Consistent(params[i].value)} ::
      0 <= i < |params| && params[i].Some? ==> NativeUnsafe.Consistent(params[i].value)
  }

  class Statement {
    var id: U32
    var params: seq<Option<ParamValue>>
    var rebind: bool
    var fields: seq<Option<Field>>
    var fieldMap: Option<map<seq<Byte>, int>>
    var fieldCount: nat
    var paramCount: nat
    var warningCount: int
    var status: U16

    constructor (s: StmtState)
      ensures State() == s
    {
      id, params, rebind, fields, fieldMap := s.id, s.params, s.rebind, s.fields, s.fieldMap;
      fieldCount, paramCount, warningCount, status := s.fieldCount, s.paramCount, s.warningCount, s.status;
    }

    function State(): StmtState
      reads this
    {
      StmtState(id, params, rebind, fields, fieldMap, fieldCount, paramCount, warningCount, status)
    }
  }

  /** The part of the connection the statement code uses: the sequence number of the next
      packet, the server status, and the packets still to come. */
  class Db {
    var seqNum: Byte
    var status: U16
    var packets: seq<seq<Byte>>

    constructor (ps: seq<seq<Byte>>)
      ensures seqNum == 0 && status == 0 && packets == ps
    {
      seqNum, status, packets := 0, 0, ps;
    }
  }

  // ---------------------------------------------------------------- the NULL bitmap

  /** The bytes of the NULL bitmap for ParamCount parameters: `(ParamCount + 7) >> 3`. */
  function BitmapLen(paramCount: nat): (n: nat)
    ensures 8 * n >= paramCount && 8 * n < paramCount + 8
  {
    (paramCount + 7) / 8
  }

  /** Bit k of byte j, set when parameter 8*j+k is one of those scanned and has length 0. */
  function NullBit(lens: seq<int>, j: nat, k: nat): (b: bv8)
    requires k < 8
  {
    if 8 * j + k < |lens| && lens[8 * j + k] == 0 then (1 as bv8) << k else 0
  }

  /** Bit k of a byte is set. */
  predicate BitSet(b: bv8, k: nat)
    requires k < 8
  {
    (b >> k) & 1 == 1
  }

  /** Byte j of the bitmap after the parameters whose lengths are lens. */
  function NullByte(lens: seq<int>, j: nat): bv8
  {
    NullBit(lens, j, 0) | NullBit(lens, j, 1) | NullBit(lens, j, 2) | NullBit(lens, j, 3) |
    NullBit(lens, j, 4) | NullBit(lens, j, 5) | NullBit(lens, j, 6) | NullBit(lens, j, 7)
  }

  /** The bitmap as bytes. */
  function BitmapBytes(lens: seq<int>, n: nat): (r: seq<Byte>)
    ensures |r| == n
  {
    seq(n, j requires 0 <= j < n => NullByte(lens, j) as int)
  }

  /** Bit q of byte j is set exactly for the scanned parameter 8j+q of length 0. */
  lemma NullBitmapBits(lens: seq<int>, j: nat, q: nat)
    requires q < 8
    ensures BitSet(NullByte(lens, j), q) <==> 8 * j + q < |lens| && lens[8 * j + q] == 0
  {
    if q == 0 { assert NullByte(lens, j) & 1 == NullBit(lens, j, 0); }
    else if q == 1 { assert (NullByte(lens, j) >> 1) & 1 == (NullBit(lens, j, 1) >> 1) & 1; }
    else if q == 2 { assert (NullByte(lens, j) >> 2) & 1 == (NullBit(lens, j, 2) >> 2) & 1; }
    else if q == 3 { assert (NullByte(lens, j) >> 3) & 1 == (NullBit(lens, j, 3) >> 3) & 1; }
    else if q == 4 { assert (NullByte(lens, j) >> 4) & 1 == (NullBit(lens, j, 4) >> 4) & 1; }
    else if q == 5 { assert (NullByte(lens, j) >> 5) & 1 == (NullBit(lens, j, 5) >> 5) & 1; }
    else if q == 6 { assert (NullByte(lens, j) >> 6) & 1 == (NullBit(lens, j, 6) >> 6) & 1; }
    else { assert (NullByte(lens, j) >> 7) & 1 == (NullBit(lens, j, 7) >> 7) & 1; }
  }

  /** Scanning one more parameter changes only its own byte, by OR-ing in its bit when its
      length is 0. */
  lemma NullByteSnoc(lens: seq<int>, l: int, j: nat)
    ensures NullByte(lens + [l], j) ==
      NullByte(lens, j) | (if j == |lens| / 8 && l == 0 then (1 as bv8) << (|lens| % 8) else 0)
  {
    var i := |lens|;
    if j == i / 8 && l == 0 {
      var q := i % 8;
      assert i == 8 * j + q;
      NullBitsSnoc(lens, l, j, q);
    } else {
      NullBitsSnoc(lens, l, j, 8);
    }
  }

  /** Each bit of byte j stays as it was, except bit q when parameter 8*j+q is the new one and
      has length 0 (q == 8 when it is not). */
  lemma NullBitsSnoc(lens: seq<int>, l: int, j: nat, q: nat)
    requires q <= 8
    requires q < 8 ==> 8 * j + q == |lens| && l == 0
    requires q == 8 ==> !(8 * j <= |lens| < 8 * j + 8 && l == 0)
    ensures NullByte(lens + [l], j) == NullByte(lens, j) | (if q < 8 then (1 as bv8) << q else 0)
  {
    var ls := lens + [l];
    NullBitSnoc(lens, l, j, 0, q);
    NullBitSnoc(lens, l, j, 1, q);
    NullBitSnoc(lens, l, j, 2, q);
    NullBitSnoc(lens, l, j, 3, q);
    NullBitSnoc(lens, l, j, 4, q);
    NullBitSnoc(lens, l, j, 5, q);
    NullBitSnoc(lens, l, j, 6, q);
    NullBitSnoc(lens, l, j, 7, q);
    var a0, a1, a2, a3 := NullBit(lens, j, 0), NullBit(lens, j, 1), NullBit(lens, j, 2), NullBit(lens, j, 3);
    var a4, a5, a6, a7 := NullBit(lens, j, 4), NullBit(lens, j, 5), NullBit(lens, j, 6), NullBit(lens, j, 7);
    var b0, b1, b2, b3 := NullBit(ls, j, 0), NullBit(ls, j, 1), NullBit(ls, j, 2), NullBit(ls, j, 3);
    var b4, b5, b6, b7 := NullBit(ls, j, 4), NullBit(ls, j, 5), NullBit(ls, j, 6), NullBit(ls, j, 7);
    OrReplace([a0, a1, a2, a3, a4, a5, a6, a7], [b0, b1, b2, b3, b4, b5, b6, b7],
              if q < 8 then (1 as bv8) << q else 0, q);
  }

  /** Replacing a zero term of an OR of eight by m ORs in m. */
  lemma OrReplace(a: seq<bv8>, b: seq<bv8>, m: bv8, q: nat)
    requires |a| == 8 && |b| == 8 && q <= 8 && (q == 8 ==> m == 0)
    requires forall k :: 0 <= k < 8 ==> b[k] == (if k == q then m else a[k])
    requires q < 8 ==> a[q] == 0
    ensures b[0] | b[1] | b[2] | b[3] | b[4] | b[5] | b[6] | b[7]
         == (a[0] | a[1] | a[2] | a[3] | a[4] | a[5] | a[6] | a[7]) | m
  {
    assert b[0] == (if q == 0 then m else a[0]) && b[1] == (if q == 1 then m else a[1]);
    assert b[2] == (if q == 2 then m else a[2]) && b[3] == (if q == 3 then m else a[3]);
    assert b[4] == (if q == 4 then m else a[4]) && b[5] == (if q == 5 then m else a[5]);
    assert b[6] == (if q == 6 then m else a[6]) && b[7] == (if q == 7 then m else a[7]);
  }

  lemma NullBitSnoc(lens: seq<int>, l: int, j: nat, k: nat, q: nat)
    requires k < 8 && q <= 8
    requires q < 8 ==> 8 * j + q == |lens| && l == 0
    requires q == 8 ==> !(8 * j <= |lens| < 8 * j + 8 && l == 0)
    ensures k != q ==> NullBit(lens + [l], j, k) == NullBit(lens, j, k)
    ensures k == q ==> NullBit(lens + [l], j, k) == (1 as bv8) << k && NullBit(lens, j, k) == 0
  {
    if 8 * j + k < |lens| {
      assert (lens + [l])[8 * j + k] == lens[8 * j + k];
    }
  }

  // ---------------------------------------------------------------- sendCmdExec

  /** The first loop of sendCmdExec over the first n parameters: their lengths, or the panic
      that stops it, a nil parameter or a NULL one whose bit lies beyond the bitmap. */
  function Scan(ps: seq<Option<ParamValue>>, nb: nat, n: nat): (r: Result<seq<int>, Error>)
    requires Bound(ps) && n <= |ps|
    ensures r.Ok? ==> |r.value| == n
    ensures r.Err? ==> r.error == NilDeref || r.error == IndexOutOfRange
  {
    if n == 0 then Ok([])
    else
      var lens :- Scan(ps, nb, n - 1);
      if ps[n - 1].None? then Err(NilDeref)
      else
        var l := NativeUnsafe.Len(ps[n - 1].value);
        if l == 0 && (n - 1) / 8 >= nb then Err(IndexOutOfRange) else Ok(lens + [l])
  }

  /** A scan that succeeds saw only bound parameters and lists their lengths. */
  lemma {:induction false} ScanLens(ps: seq<Option<ParamValue>>, nb: nat, n: nat)
    requires Bound(ps) && n <= |ps| && Scan(ps, nb, n).Ok?
    ensures forall i :: 0 <= i < n ==> ps[i].Some?
    ensures forall i :: 0 <= i < n ==> Scan(ps, nb, n).value[i] == NativeUnsafe.Len(ps[i].value)
  {
    if n > 0 {
      ScanLens(ps, nb, n - 1);
    }
  }

  /** A scan that fails on a prefix fails the same way on the whole. */
  lemma {:induction false} ScanFails(ps: seq<Option<ParamValue>>, nb: nat, m: nat, n: nat)
    requires Bound(ps) && m <= n <= |ps| && Scan(ps, nb, m).Err?
    ensures Scan(ps, nb, n) == Scan(ps, nb, m)
    decreases n - m
  {
    if m < n {
      ScanFails(ps, nb, m + 1, n);
    }
  }

  /** The sum of the lengths, added up in order. */
  function Sum(lens: seq<int>): int
  {
    if lens == [] then 0 else Sum(lens[..|lens| - 1]) + lens[|lens| - 1]
  }

  /** One more value of l bytes after values as long as the lengths before it add up to. */
  lemma SumStep(lens: seq<int>, l: int, pre: seq<Byte>, w: seq<Byte>)
    requires |pre| == Sum(lens) && |w| == l
    ensures |pre + w| == Sum(lens + [l])
  {
    SumSnoc(lens, l);
  }

  lemma SumSnoc(lens: seq<int>, l: int)
    ensures Sum(lens + [l]) == Sum(lens) + l
  {
    assert (lens + [l])[..|lens|] == lens;
  }

  /** The type codes of the first n parameters, two bytes each. */
  function TypeBytes(ps: seq<Option<ParamValue>>, n: nat): (r: seq<Byte>)
    requires n <= |ps| && forall i :: 0 <= i < n ==> ps[i].Some?
  {
    if n == 0 then [] else TypeBytes(ps, n - 1) + EncodeU16(ps[n - 1].value.typ)
  }

  /** The values of the first n parameters, or the panic of the first that cannot be sent. */
  function Values(ps: seq<Option<ParamValue>>, n: nat): (r: Result<seq<Byte>, Error>)
    requires Bound(ps) && n <= |ps| && forall i :: 0 <= i < n ==> ps[i].Some?
    ensures r.Err? ==> r.error == BindUnkType
  {
    if n == 0 then Ok([])
    else
      var pre :- Values(ps, n - 1);
      var v :- NativeUnsafe.WriteValue(ps[n - 1].value);
      Ok(pre + v)
  }

  /** What sendCmdExec declares and hands to the packet writer. */
  datatype Exec = Exec(pktLen: int, payload: seq<Byte>)

  /** Its outcome, and whether it got as far as resetting the sequence number. */
  datatype ExecOut = ExecOut(r: Result<Exec, Error>, reset: bool)

  /** The packet before the values: command, statement id, flags 0 (no cursor), iteration
      count 1, NULL bitmap, then the flag byte 1 and the type codes when the types are to be
      sent again, and the flag byte 0 otherwise. */
  function ExecHead(s: StmtState, lens: seq<int>): (h: seq<Byte>)
    requires forall i :: 0 <= i < |s.params| ==> s.params[i].Some?
  {
    [ComStmtExecute as Byte] + EncodeU32(s.id) + [0] + EncodeU32(1) + BitmapBytes(lens, BitmapLen(s.paramCount))
    + (if s.rebind then [1] + TypeBytes(s.params, |s.params|) else [0])
  }

  /** The declared length: 11 fixed bytes, the bitmap, every parameter's Len, and two bytes
      per parameter for the types when they are sent. */
  function PktLen(s: StmtState, lens: seq<int>): int
  {
    11 + BitmapLen(s.paramCount) + Sum(lens) + (if s.rebind then s.paramCount * 2 else 0)
  }

  /** The packet, once the lengths are known: the head and the values. */
  function Payload(s: StmtState, lens: seq<int>): (r: Result<seq<Byte>, Error>)
    requires Bound(s.params) && forall i :: 0 <= i < |s.params| ==> s.params[i].Some?
    ensures r.Err? ==> r.error == BindUnkType
  {
    var v :- Values(s.params, |s.params|);
    Ok(ExecHead(s, lens) + v)
  }

  /** sendCmdExec on the statement s. */
  function ExecSpec(s: StmtState): (e: ExecOut)
    requires Bound(s.params)
    ensures e.r.Err? ==> e.r.error in {NilDeref, IndexOutOfRange, BindUnkType}
    ensures e.r.Err? ==> (e.reset <==> e.r.error == BindUnkType)
    ensures e.r.Ok? ==> forall i :: 0 <= i < |s.params| ==> s.params[i].Some?
  {
    match Scan(s.params, BitmapLen(s.paramCount), |s.params|)
    case Err(e) => ExecOut(Err(e), false)
    case Ok(lens) =>
      ScanLens(s.params, BitmapLen(s.paramCount), |s.params|);
      match Payload(s, lens)
      case Err(e) => ExecOut(Err(e), true)
      case Ok(p) => ExecOut(Ok(Exec(PktLen(s, lens), p)), true)
  }

  /** The first loop of sendCmdExec: add up the lengths and set the bit of every parameter
      of length 0 in a bitmap of nb bytes. */
  method ScanParams(ps: seq<Option<ParamValue>>, nb: nat) returns (r: Result<int, Error>, bitmap: seq<Byte>)
    requires Bound(ps)
    ensures var sc := Scan(ps, nb, |ps|);
            && (r.Ok? <==> sc.Ok?)
            && (r.Err? ==> r.error == sc.error)
            && (r.Ok? ==> r.value == 11 + nb + Sum(sc.value) && bitmap == BitmapBytes(sc.value, nb))
  {
    var nullBitmap := new bv8[nb](_ => 0);
    var pktLen := 1 + 4 + 1 + 4 + 1 + nb;
    ghost var lens: seq<int> := [];
    for ii := 0 to |ps|
      invariant Scan(ps, nb, ii) == Ok(lens)
      invariant pktLen == 11 + nb + Sum(lens)
      invariant forall j :: 0 <= j < nb ==> nullBitmap[j] == NullByte(lens, j)
    {
      if ps[ii].None? {
        ScanStops(ps, nb, ii, lens, NilDeref);
        return Err(NilDeref), [];
      }
      var parLen := NativeUnsafe.Len(ps[ii].value);
      pktLen := pktLen + parLen;
      if parLen == 0 {
        var nullByte := ii / 8;
        if nullByte >= nb {
          ScanStops(ps, nb, ii, lens, IndexOutOfRange);
          return Err(IndexOutOfRange), [];
        }
      }
      MarkNull(nullBitmap, lens, ii, parLen);
      SumSnoc(lens, parLen);
      lens := lens + [parLen];
    }
    bitmap := BitmapOf(nullBitmap, lens);
    r := Ok(pktLen);
  }

  /** A parameter that is nil, or of length 0 past the end of the bitmap, ends the scan of
      all of them with that failure. */
  lemma ScanStops(ps: seq<Option<ParamValue>>, nb: nat, ii: nat, lens: seq<int>, e: Error)
    requires Bound(ps) && ii < |ps| && Scan(ps, nb, ii) == Ok(lens)
    requires || (ps[ii].None? && e == NilDeref)
             || (ps[ii].Some? && NativeUnsafe.Len(ps[ii].value) == 0 && ii / 8 >= nb && e == IndexOutOfRange)
    ensures Scan(ps, nb, |ps|) == Err(e)
  {
    ScanFails(ps, nb, ii + 1, |ps|);
  }

  /** The bitmap's bytes, read out of the array. */
  method BitmapOf(nullBitmap: array<bv8>, ghost lens: seq<int>) returns (bitmap: seq<Byte>)
    requires forall j :: 0 <= j < nullBitmap.Length ==> nullBitmap[j] == NullByte(lens, j)
    ensures bitmap == BitmapBytes(lens, nullBitmap.Length)
  {
    bitmap := seq(nullBitmap.Length, j requires 0 <= j < nullBitmap.Length reads nullBitmap => nullBitmap[j] as Byte);
  }

  /** The body of the first loop on the bitmap: the bit of parameter |lens| is set when its
      length l is 0. */
  method MarkNull(nullBitmap: array<bv8>, ghost lens: seq<int>, ii: nat, l: int)
    requires ii == |lens|
    requires forall j :: 0 <= j < nullBitmap.Length ==> nullBitmap[j] == NullByte(lens, j)
    requires l == 0 ==> |lens| / 8 < nullBitmap.Length
    modifies nullBitmap
    ensures forall j :: 0 <= j < nullBitmap.Length ==> nullBitmap[j] == NullByte(lens + [l], j)
  {
    if l == 0 {
      var nullByte := ii / 8;
      nullBitmap[nullByte] := nullBitmap[nullByte] | ((1 as bv8) << (ii - nullByte * 8));
    }
    forall j | 0 <= j < nullBitmap.Length
      ensures nullBitmap[j] == NullByte(lens + [l], j)
    {
      NullByteSnoc(lens, l, j);
    }
  }

  /** The loop writing the type codes of bound parameters. */
  method WriteTypes(ps: seq<Option<ParamValue>>) returns (out: seq<Byte>)
    requires forall i :: 0 <= i < |ps| ==> ps[i].Some?
    ensures out == TypeBytes(ps, |ps|)
  {
    out := [];
    for ii := 0 to |ps|
      invariant out == TypeBytes(ps, ii)
    {
      out := out + EncodeU16(ps[ii].value.typ);
    }
  }

  /** The loop writing the values of bound parameters, stopped by a panic. */
  method WriteValues(ps: seq<Option<ParamValue>>) returns (r: Result<seq<Byte>, Error>)
    requires Bound(ps) && forall i :: 0 <= i < |ps| ==> ps[i].Some?
    ensures r == Values(ps, |ps|)
  {
    var out := [];
    for ii := 0 to |ps|
      invariant Values(ps, ii) == Ok(out)
    {
      var w := NativeUnsafe.WriteValue(ps[ii].value);
      if w.Err? {
        ValuesFail(ps, ii + 1, |ps|);
        return Err(w.error);
      }
      out := out + w.value;
    }
    return Ok(out);
  }

  lemma {:induction false} ValuesFail(ps: seq<Option<ParamValue>>, m: nat, n: nat)
    requires Bound(ps) && m <= n <= |ps| && forall i :: 0 <= i < |ps| ==> ps[i].Some?
    requires Values(ps, m).Err?
    ensures Values(ps, n) == Values(ps, m)
    decreases n - m
  {
    if m < n {
      ValuesFail(ps, m + 1, n);
    }
  }

  /** The writes of sendCmdExec after the sequence number is reset. */
  method WritePayload(id: U32, rebind: bool, ps: seq<Option<ParamValue>>, nullBitmap: seq<Byte>,
                      ghost s: StmtState, ghost lens: seq<int>) returns (r: Result<seq<Byte>, Error>)
    requires s.id == id && s.rebind == rebind && s.params == ps
    requires Bound(ps) && forall i :: 0 <= i < |ps| ==> ps[i].Some?
    requires nullBitmap == BitmapBytes(lens, BitmapLen(s.paramCount))
    ensures r == Payload(s, lens)
  {
    var out: seq<Byte> := [ComStmtExecute as Byte] + EncodeU32(id) + [0] + EncodeU32(1);
    out := out + nullBitmap;
    if rebind {
      out := out + [1];
      var types := WriteTypes(ps);
      out := out + types;
    } else {
      out := out + [0];
    }
    assert out == ExecHead(s, lens);
    var vals := WriteValues(ps);
    if vals.Err? {
      return Err(vals.error);
    }
    return Ok(out + vals.value);
  }

  /** sendCmdExec: the bitmap and length, the sequence number reset, the packet, and the
      types marked as sent. */
  method SendCmdExec(stmt: Statement, db: Db) returns (r: Result<Exec, Error>)
    requires Bound(stmt.params)
    modifies stmt, db
    ensures var e := ExecSpec(old(stmt.State()));
            && r == e.r
            && db.seqNum == (if e.reset then 0 else old(db.seqNum))
            && stmt.State() == old(stmt.State()).(rebind := if r.Ok? then false else old(stmt.rebind))
    ensures db.status == old(db.status) && db.packets == old(db.packets)
  {
    ghost var s := stmt.State();
    var nb := (stmt.paramCount + 7) / 8;
    var pktLen, nullBitmap := ScanParams(stmt.params, nb);
    if pktLen.Err? {
      assert ExecSpec(s) == ExecOut(Err(pktLen.error), false);
      return Err(pktLen.error);
    }
    ghost var lens := Scan(s.params, nb, |s.params|).value;
    ExecSpecScanned(s, lens);
    var n := pktLen.value;
    if stmt.rebind {
      n := n + stmt.paramCount * 2;
    }
    assert n == PktLen(s, lens);
    db.seqNum := 0;
    var payload := WritePayload(stmt.id, stmt.rebind, stmt.params, nullBitmap, s, lens);
    if payload.Err? {
      return Err(payload.error);
    }
    stmt.rebind := false;
    assert stmt.State() == s.(rebind := false);
    return Ok(Exec(n, payload.value));
  }

  /** Once the first loop succeeded, sendCmdExec's outcome is that of writing the packet. */
  lemma ExecSpecScanned(s: StmtState, lens: seq<int>)
    requires Bound(s.params) && Scan(s.params, BitmapLen(s.paramCount), |s.params|) == Ok(lens)
    ensures forall i :: 0 <= i < |s.params| ==> s.params[i].Some?
    ensures var p := Payload(s, lens);
      ExecSpec(s) == if p.Err? then ExecOut(Err(p.error), true) else ExecOut(Ok(Exec(PktLen(s, lens), p.value)), true)
  {
    ScanLens(s.params, BitmapLen(s.paramCount), |s.params|);
  }

  // ---------------------------------------------------------------- properties of sendCmdExec

  /** The packet of a successful sendCmdExec is its head and the values. */
  lemma ExecPayload(s: StmtState) returns (lens: seq<int>, v: seq<Byte>)
    requires Bound(s.params) && ExecSpec(s).r.Ok?
    ensures Scan(s.params, BitmapLen(s.paramCount), |s.params|) == Ok(lens)
    ensures Values(s.params, |s.params|) == Ok(v)
    ensures ExecSpec(s).r.value == Exec(PktLen(s, lens), ExecHead(s, lens) + v)
  {
    lens := Scan(s.params, BitmapLen(s.paramCount), |s.params|).value;
    v := Values(s.params, |s.params|).value;
  }

  /** The pieces of the head: ten fixed bytes, the bitmap, then the flag and the types. */
  lemma HeadParts(s: StmtState, lens: seq<int>)
    requires forall i :: 0 <= i < |s.params| ==> s.params[i].Some?
    ensures var h := ExecHead(s, lens); var nb := BitmapLen(s.paramCount);
            && |h| > 10 + nb
            && h[..10] == [ComStmtExecute as Byte] + EncodeU32(s.id) + [0] + EncodeU32(1)
            && h[10..10 + nb] == BitmapBytes(lens, nb)
            && h[10 + nb..] == (if s.rebind then [1] + TypeBytes(s.params, |s.params|) else [0])
  {
    var nb := BitmapLen(s.paramCount);
    var a := [ComStmtExecute as Byte] + EncodeU32(s.id) + [0] + EncodeU32(1);
    var b := BitmapBytes(lens, nb);
    var c := if s.rebind then [1] + TypeBytes(s.params, |s.params|) else [0];
    assert ExecHead(s, lens) == a + b + c;
    assert |a| == 10;
    assert (a + b + c)[..10] == a;
    assert (a + b + c)[10..10 + nb] == b;
    assert (a + b + c)[10 + nb..] == c;
  }

  /** Byte j after the ten leading bytes is byte j of the NULL bitmap. */
  lemma ExecBitmapByte(s: StmtState, j: nat) returns (lens: seq<int>)
    requires Bound(s.params) && ExecSpec(s).r.Ok? && j < BitmapLen(s.paramCount)
    ensures Scan(s.params, BitmapLen(s.paramCount), |s.params|) == Ok(lens)
    ensures var p := ExecSpec(s).r.value.payload;
            10 + j < |p| && p[10 + j] == NullByte(lens, j) as int
  {
    var nb := BitmapLen(s.paramCount);
    var v;
    lens, v := ExecPayload(s);
    HeadParts(s, lens);
    var h := ExecHead(s, lens);
    assert (h + v)[10 + j] == h[10..10 + nb][j];
  }

  /** A byte taken as a bit-vector and back is the same. */
  lemma ByteBits(b: Byte, x: bv8)
    requires b == x as int
    ensures b as bv8 == x
  {
  }

  /** Parameter 8j+q has a NULL bit in the bitmap of the COM_STMT_EXECUTE packet: bit q of
      byte j after the ten leading bytes, set exactly when its Len is 0. */
  lemma ExecNullBit(s: StmtState, j: nat, q: nat)
    requires Bound(s.params) && ExecSpec(s).r.Ok? && j < BitmapLen(s.paramCount) && q < 8
    ensures var p := ExecSpec(s).r.value.payload;
            10 + j < |p| &&
            (BitSet(p[10 + j] as bv8, q) <==>
              8 * j + q < |s.params| && NativeUnsafe.Len(s.params[8 * j + q].value) == 0)
  {
    var lens := ExecBitmapByte(s, j);
    ScanLens(s.params, BitmapLen(s.paramCount), |s.params|);
    var p := ExecSpec(s).r.value.payload;
    ByteBits(p[10 + j], NullByte(lens, j));
    NullBitmapBits(lens, j, q);
  }

  /** A slice of a slice is a slice of the whole. */
  lemma SubSlice(p: seq<Byte>, off: nat, t: seq<Byte>, a: nat, b: nat)
    requires off + |t| <= |p| && p[off..off + |t|] == t && a <= b <= |t|
    ensures p[off + a..off + b] == t[a..b]
  {
    assert forall k :: off + a <= k < off + b ==> p[k] == p[off..off + |t|][k - off];
  }

  /** The packet starts with COM_STMT_EXECUTE, the statement id, a zero flag byte, an
      iteration count of 1 and the bitmap; the byte after the bitmap is 1 when the types are
      sent again and 0 otherwise. */
  lemma ExecLayout(s: StmtState)
    requires Bound(s.params) && ExecSpec(s).r.Ok?
    ensures var p := ExecSpec(s).r.value.payload; var nb := BitmapLen(s.paramCount);
            && |p| > 10 + nb
            && p[0] == ComStmtExecute && LeValue(p[1..5]) == s.id && p[5] == 0 && LeValue(p[6..10]) == 1
            && p[10 + nb] == (if s.rebind then 1 else 0)
  {
    var lens, v := ExecPayload(s);
    HeadLayout(s, lens, v);
  }

  /** The same, for the head and any values after it. */
  lemma HeadLayout(s: StmtState, lens: seq<int>, v: seq<Byte>)
    requires forall i :: 0 <= i < |s.params| ==> s.params[i].Some?
    ensures var p := ExecHead(s, lens) + v; var nb := BitmapLen(s.paramCount);
            && |p| > 10 + nb
            && p[0] == ComStmtExecute && LeValue(p[1..5]) == s.id && p[5] == 0 && LeValue(p[6..10]) == 1
            && p[10 + nb] == (if s.rebind then 1 else 0)
  {
    var nb := BitmapLen(s.paramCount);
    HeadParts(s, lens);
    var c := if s.rebind then [1] + TypeBytes(s.params, |s.params|) else [0];
    FixedLayout(ExecHead(s, lens), v, s.id, nb, c);
  }

  /** The ten fixed bytes of a head and the flag byte after the bitmap, read back from the
      packet. */
  lemma FixedLayout(h: seq<Byte>, v: seq<Byte>, id: U32, nb: nat, c: seq<Byte>)
    requires |h| > 10 + nb && h[..10] == [ComStmtExecute as Byte] + EncodeU32(id) + [0] + EncodeU32(1)
    requires h[10 + nb..] == c && c != []
    ensures var p := h + v;
            && |p| > 10 + nb
            && p[0] == ComStmtExecute && LeValue(p[1..5]) == id && p[5] == 0 && LeValue(p[6..10]) == 1
            && p[10 + nb] == c[0]
  {
    var a := h[..10];
    var p := h + v;
    var e1, e2 := EncodeU32(id), EncodeU32(1);
    Head10(ComStmtExecute as Byte, e1, 0, e2);
    SubSlice(p, 0, a, 1, 5);
    SubSlice(p, 0, a, 6, 10);
    assert p[0] == a[0] && p[5] == a[5];
    LeValueOfU32(id);
    LeValueOfU32(1);
    assert p[10 + nb] == h[10 + nb..][0];
  }

  /** The ten leading bytes: a code byte, four bytes, a byte, four bytes. */
  lemma Head10(x: Byte, e1: seq<Byte>, y: Byte, e2: seq<Byte>)
    requires |e1| == 4 && |e2| == 4
    ensures var a := [x] + e1 + [y] + e2;
            |a| == 10 && a[0] == x && a[1..5] == e1 && a[5] == y && a[6..10] == e2
  {
  }

  /** When the types are sent again, the two-byte type codes follow the flag byte, in
      parameter order. */
  lemma ExecTypes(s: StmtState)
    requires Bound(s.params) && ExecSpec(s).r.Ok? && s.rebind
    ensures var p := ExecSpec(s).r.value.payload; var nb := BitmapLen(s.paramCount);
            var off := 11 + nb;
            && |p| >= off + 2 * |s.params|
            && forall i :: 0 <= i < |s.params| ==> LeValue(p[off + 2 * i..off + 2 * i + 2]) == s.params[i].value.typ
  {
    var lens, v := ExecPayload(s);
    HeadTypes(s, lens, v);
  }

  /** The same, for the head and any values after it. */
  lemma HeadTypes(s: StmtState, lens: seq<int>, v: seq<Byte>)
    requires (forall i :: 0 <= i < |s.params| ==> s.params[i].Some?) && s.rebind
    ensures var p := ExecHead(s, lens) + v; var nb := BitmapLen(s.paramCount);
            var off := 11 + nb;
            && |p| >= off + 2 * |s.params|
            && forall i :: 0 <= i < |s.params| ==> LeValue(p[off + 2 * i..off + 2 * i + 2]) == s.params[i].value.typ
  {
    assert 10 + BitmapLen(s.paramCount) <= |ExecHead(s, lens)|
           && ExecHead(s, lens)[10 + BitmapLen(s.paramCount)..] == [1] + TypeBytes(s.params, |s.params|) by {
      HeadParts(s, lens);
    }
    assert CodesAre(TypeBytes(s.params, |s.params|), s.params) by {
      TypeBytesCodes(s.params);
    }
    TypesLayout(ExecHead(s, lens), v, BitmapLen(s.paramCount), TypeBytes(s.params, |s.params|), s.params);
  }

  /** The type codes after the flag byte of a head, read back from the packet. */
  lemma TypesLayout(h: seq<Byte>, v: seq<Byte>, nb: nat, t: seq<Byte>, ps: seq<Option<ParamValue>>)
    requires forall j :: 0 <= j < |ps| ==> ps[j].Some?
    requires 10 + nb <= |h| && h[10 + nb..] == [1] + t && CodesAre(t, ps)
    ensures var p := h + v; var off := 11 + nb;
            && |p| >= off + 2 * |ps|
            && forall i :: 0 <= i < |ps| ==> LeValue(p[off + 2 * i..off + 2 * i + 2]) == ps[i].value.typ
  {
    FlagThenCodes(h, v, 10 + nb, t);
    CodesRead(h + v, 11 + nb, t, ps);
  }

  /** What follows the flag byte at k in the head h lies at k + 1 in h + v. */
  lemma FlagThenCodes(h: seq<Byte>, v: seq<Byte>, k: nat, t: seq<Byte>)
    requires k <= |h| && h[k..] == [1] + t
    ensures k + 1 + |t| <= |h + v| && (h + v)[k + 1..k + 1 + |t|] == t
  {
    assert forall j :: k + 1 <= j < k + 1 + |t| ==> (h + v)[j] == h[k..][j - k];
  }

  /** t holds the two-byte type codes of ps, in order. */
  predicate CodesAre(t: seq<Byte>, ps: seq<Option<ParamValue>>)
    requires forall j :: 0 <= j < |ps| ==> ps[j].Some?
  {
    |t| == 2 * |ps| && forall i :: 0 <= i < |ps| ==> t[2 * i..2 * i + 2] == EncodeU16(ps[i].value.typ)
  }

  lemma TypeBytesCodes(ps: seq<Option<ParamValue>>)
    requires forall j :: 0 <= j < |ps| ==> ps[j].Some?
    ensures CodesAre(TypeBytes(ps, |ps|), ps)
  {
    TypeBytesLength(ps, |ps|);
    forall i | 0 <= i < |ps|
      ensures TypeBytes(ps, |ps|)[2 * i..2 * i + 2] == EncodeU16(ps[i].value.typ)
    {
      TypeBytesAt(ps, |ps|, i);
    }
  }

  /** The type codes read back from where they lie in p. */
  lemma CodesRead(p: seq<Byte>, off: nat, t: seq<Byte>, ps: seq<Option<ParamValue>>)
    requires forall j :: 0 <= j < |ps| ==> ps[j].Some?
    requires CodesAre(t, ps) && off + |t| <= |p| && p[off..off + |t|] == t
    ensures forall i :: 0 <= i < |ps| ==> LeValue(p[off + 2 * i..off + 2 * i + 2]) == ps[i].value.typ
  {
    forall i | 0 <= i < |ps|
      ensures LeValue(p[off + 2 * i..off + 2 * i + 2]) == ps[i].value.typ
    {
      CodeAt(p, off, t, i, ps[i].value.typ);
    }
  }

  /** Code i of the two-byte codes t, read back from where t lies in p. */
  lemma CodeAt(p: seq<Byte>, off: nat, t: seq<Byte>, i: nat, v: U16)
    requires off + |t| <= |p| && p[off..off + |t|] == t
    requires 2 * i + 2 <= |t| && t[2 * i..2 * i + 2] == EncodeU16(v)
    ensures off + 2 * i + 2 <= |p| && LeValue(p[off + 2 * i..off + 2 * i + 2]) == v
  {
    SubSlice(p, off, t, 2 * i, 2 * i + 2);
    LeValueOfU16(v);
  }

  /** A four-byte number reads back as itself. */
  lemma LeValueOfU32(v: U32)
    ensures LeValue(EncodeU32(v)) == v
  {
    Pow256Values();
    LeValueOfLeBytes(v, 4);
  }

  /** A two-byte code reads back as itself. */
  lemma LeValueOfU16(v: U16)
    ensures LeValue(EncodeU16(v)) == v
  {
    Pow256Values();
    LeValueOfLeBytes(v, 2);
  }

  /** Each type code takes two bytes, in parameter order. */
  lemma {:induction false} TypeBytesAt(ps: seq<Option<ParamValue>>, n: nat, i: nat)
    requires n <= |ps| && (forall j :: 0 <= j < n ==> ps[j].Some?) && i < n
    ensures |TypeBytes(ps, n)| == 2 * n
    ensures TypeBytes(ps, n)[2 * i..2 * i + 2] == EncodeU16(ps[i].value.typ)
  {
    TypeBytesLength(ps, n - 1);
    if i < n - 1 {
      TypeBytesAt(ps, n - 1, i);
      assert TypeBytes(ps, n)[2 * i..2 * i + 2] == TypeBytes(ps, n - 1)[2 * i..2 * i + 2];
    }
  }

  lemma {:induction false} TypeBytesLength(ps: seq<Option<ParamValue>>, n: nat)
    requires n <= |ps| && forall j :: 0 <= j < n ==> ps[j].Some?
    ensures |TypeBytes(ps, n)| == 2 * n
  {
    if n > 0 {
      TypeBytesLength(ps, n - 1);
    }
  }

  /** A binding whose Len counts exactly the bytes writeValue sends for it. */
  predicate Agrees(pv: ParamValue)
  {
    NativeUnsafe.Consistent(pv) && NativeUnsafe.WriteValue(pv).Ok? &&
    NativeUnsafe.Len(pv) == |NativeUnsafe.WriteValue(pv).value|
  }

  /** The first loop gets past parameter n-1 when it gets past parameter n, and adds its
      length. */
  lemma ScanStep(ps: seq<Option<ParamValue>>, nb: nat, n: nat)
    requires Bound(ps) && 0 < n <= |ps| && Scan(ps, nb, n).Ok?
    ensures Scan(ps, nb, n - 1).Ok? && ps[n - 1].Some?
    ensures Scan(ps, nb, n).value == Scan(ps, nb, n - 1).value + [NativeUnsafe.Len(ps[n - 1].value)]
  {
  }

  /** The first loop gets past parameter n-1 when it gets past parameter n. */
  lemma ScanPrefix(ps: seq<Option<ParamValue>>, nb: nat, n: nat)
    requires Bound(ps) && 0 < n <= |ps| && Scan(ps, nb, n).Ok?
    ensures Scan(ps, nb, n - 1).Ok?
  {
    ScanStep(ps, nb, n);
  }

  /** The second loop, one parameter further, when it can send it. */
  lemma ValuesStep(ps: seq<Option<ParamValue>>, n: nat)
    requires Bound(ps) && 0 < n <= |ps| && (forall i :: 0 <= i < n ==> ps[i].Some?)
    requires Values(ps, n - 1).Ok? && NativeUnsafe.WriteValue(ps[n - 1].value).Ok?
    ensures Values(ps, n) == Ok(Values(ps, n - 1).value + NativeUnsafe.WriteValue(ps[n - 1].value).value)
  {
  }

  /** Every parameter is bound, and by a binding whose Len agrees with what it sends. */
  predicate AllAgree(ps: seq<Option<ParamValue>>)
  {
    && (forall i :: 0 <= i < |ps| ==> ps[i].Some?)
    && (forall i {:trigger Agrees(ps[i].value)} :: 0 <= i < |ps| && ps[i].Some? ==> Agrees(ps[i].value))
  }

  /** The values take as many bytes as the lengths scanned for them add up to. */
  lemma {:induction false} ValuesLength(ps: seq<Option<ParamValue>>, nb: nat, n: nat)
    requires Bound(ps) && n <= |ps| && AllAgree(ps)
    requires Scan(ps, nb, n).Ok?
    ensures Values(ps, n).Ok? && |Values(ps, n).value| == Sum(Scan(ps, nb, n).value)
  {
    if n > 0 {
      ScanStep(ps, nb, n);
      ValuesLength(ps, nb, n - 1);
      LengthStep(ps, nb, n);
    }
  }

  /** The step of ValuesLength: parameter n-1 adds as many bytes as its length. */
  lemma LengthStep(ps: seq<Option<ParamValue>>, nb: nat, n: nat)
    requires Bound(ps) && 0 < n <= |ps| && AllAgree(ps) && Scan(ps, nb, n).Ok? && Scan(ps, nb, n - 1).Ok?
    requires Values(ps, n - 1).Ok? && |Values(ps, n - 1).value| == Sum(Scan(ps, nb, n - 1).value)
    ensures Values(ps, n).Ok? && |Values(ps, n).value| == Sum(Scan(ps, nb, n).value)
  {
    ScanStep(ps, nb, n);
    var pv := ps[n - 1].value;
    assert Agrees(pv);
    ValuesStep(ps, n);
    SumStep(Scan(ps, nb, n - 1).value, NativeUnsafe.Len(pv), Values(ps, n - 1).value,
            NativeUnsafe.WriteValue(pv).value);
  }

  /** When every parameter is bound, ParamCount counts them and each Len agrees with what
      writeValue sends, the declared pkt_len is exactly the length of the packet. */
  lemma ExecLength(s: StmtState)
    requires |s.params| == s.paramCount
    requires AllAgree(s.params)
    ensures Bound(s.params) && ExecSpec(s).r.Ok?
    ensures ExecSpec(s).r.value.pktLen == |ExecSpec(s).r.value.payload|
  {
    assert Bound(s.params) by {
      forall i | 0 <= i < |s.params| && s.params[i].Some?
        ensures NativeUnsafe.Consistent(s.params[i].value)
      {
        assert Agrees(s.params[i].value);
      }
    }
    var nb := BitmapLen(s.paramCount);
    ScanSucceeds(s.params, nb, |s.params|);
    ValuesLength(s.params, nb, |s.params|);
    if s.rebind {
      TypeBytesLength(s.params, |s.params|);
    }
  }

  /** The first loop does not panic when every parameter is bound and has a bit in the bitmap. */
  lemma {:induction false} ScanSucceeds(ps: seq<Option<ParamValue>>, nb: nat, n: nat)
    requires n <= |ps| <= 8 * nb
    requires forall i :: 0 <= i < |ps| ==> ps[i].Some? && NativeUnsafe.Consistent(ps[i].value)
    ensures Bound(ps) && Scan(ps, nb, n).Ok?
  {
    if n > 0 {
      ScanSucceeds(ps, nb, n - 1);
    }
  }

  // ---------------------------------------------------------------- the answer to COM_STMT_PREPARE

  /** getPrepareOkPacket, after the 0: the statement id, the column count, the parameter
      count, one filler byte and the warning count, then the packet's end.  Fields and params
      get one empty slot per column and per parameter, and Map is made only when there are
      columns. */
  function PrepareOk(p: seq<Byte>): (r: Result<StmtState, Error>)
    requires p != []
    ensures r.Ok? <==> |p| == 12
    ensures r.Err? ==> r.error in {UnexpectedEof, PktLong}
    ensures r.Ok? ==> && Valid(r.value)
                      && r.value.id == LeValue(p[1..5]) && r.value.warningCount == LeValue(p[10..12])
                      && r.value.fields == seq(LeValue(p[5..7]), _ => None)
                      && r.value.params == seq(LeValue(p[7..9]), _ => None)
                      && r.value.fieldMap == (if LeValue(p[5..7]) > 0 then Some(map[]) else None)
                      && r.value.fieldCount == 0 && r.value.paramCount == 0
                      && !r.value.rebind && r.value.status == 0
  {
    var id :- ReadU32(p[1..]);
    var nf :- ReadU16(id.rest);
    var np :- ReadU16(nf.rest);
    var filler :- ReadN(np.rest, 1);
    var warn :- ReadU16(filler.rest);
    assert p[1..][..4] == p[1..5] && p[5..][..2] == p[5..7] && p[7..][..2] == p[7..9];
    assert p[10..][..2] == p[10..12];
    var st := StmtState(id.value, seq(np.value, _ => None), false, seq(nf.value, _ => None),
                        if nf.value > 0 then Some(map[]) else None, 0, 0, warn.value, 0);
    NativeResult.CheckEof(Got(st, warn.rest))
  }

  /** A field packet of the answer: a parameter definition while some are unread, which is
      only counted, and a column definition after that, stored in Fields[FieldCount] and
      under its name in Map. */
  function Take(s: StmtState, f: Field): (s': StmtState)
    requires Valid(s) && (s.fieldCount < |s.fields| || s.paramCount < |s.params|)
    ensures Valid(s')
  {
    if s.paramCount < |s.params| then s.(paramCount := s.paramCount + 1)
    else s.(fields := s.fields[s.fieldCount := Some(f)],
            fieldMap := Some(s.fieldMap.value[f.name := s.fieldCount]),
            fieldCount := s.fieldCount + 1)
  }

  /** The effect of one packet: read on (goto loop) with the statement it leaves, or stop with
      the statement or the failure.  A failure leaves the statement as it was. */
  datatype PrepStep = ReadOn(next: StmtState) | Done(r: Result<StmtState, Error>)

  /** One turn of getPrepareResult's loop on the packet p, stmt being the statement.  The
      cases are tried in the order of the Go code. */
  function Step(p: seq<Byte>, stmt: Option<StmtState>): (o: PrepStep)
    requires stmt.Some? ==> Valid(stmt.value)
    ensures o.ReadOn? ==> stmt.Some? && Valid(o.next)
    ensures o.Done? && o.r.Ok? ==> Valid(o.r.value)
  {
    if p == [] then Done(Err(UnexpectedEof))
    else if p[0] == 255 then Done(Err(NativeResult.ErrorPacket(p)))
    else if stmt.None? then
      if p[0] == 0 then Done(PrepareOk(p)) else Done(Err(UnkResultPkt))
    else
      var s := stmt.value;
      if p[0] == 254 then
        match NativeResult.EofPacket(p)
        case Err(e) => Done(Err(e))
        case Ok(ws) => Done(Ok(s.(warningCount := ws.0, status := ws.1)))
      else if 0 < p[0] < 251 && (s.fieldCount < |s.fields| || s.paramCount < |s.params|) then
        match NativeResult.FieldPacket(p)
        case Err(e) => Done(Err(e))
        case Ok(f) => ReadOn(Take(s, f))
      else Done(Err(UnkResultPkt))
  }

  /** The outcome of getPrepareResult: its answer, the packets left, and the statement it was
      given as it is left (None when it was given none). */
  datatype PrepFinal = PrepFinal(r: Result<StmtState, Error>, packets: seq<seq<Byte>>, stmt: Option<StmtState>)

  /** getPrepareResult: one packet per turn until a packet stops it or none is left. */
  function PrepLoop(packets: seq<seq<Byte>>, stmt: Option<StmtState>): (f: PrepFinal)
    requires stmt.Some? ==> Valid(stmt.value)
    ensures f.r.Ok? ==> Valid(f.r.value)
    ensures f.stmt.Some? <==> stmt.Some?
    ensures f.stmt.Some? ==> Valid(f.stmt.value)
    ensures f.stmt.Some? && f.r.Ok? ==> f.stmt == Some(f.r.value)
    ensures |f.packets| < |packets| || (packets == [] && f == PrepFinal(Err(Eof), [], stmt))
    decreases |packets|
  {
    if packets == [] then PrepFinal(Err(Eof), [], stmt)
    else
      match Step(packets[0], stmt)
      case Done(r) => PrepFinal(r, packets[1..], if stmt.Some? && r.Ok? then Some(r.value) else stmt)
      case ReadOn(s') => PrepLoop(packets[1..], Some(s'))
  }

  /** getPrepareResult.  With no statement it answers with the statement an OK packet
      describes; with one it reads parameter and column definitions into it until the EOF
      packet, whose status also becomes the connection's. */
  method GetPrepareResult(db: Db, stmt: Statement?) returns (r: Result<Statement, Error>)
    requires stmt != null ==> Valid(stmt.State())
    modifies db, stmt
    ensures var f := PrepLoop(old(db.packets), if stmt == null then None else Some(old(stmt.State())));
            && db.packets == f.packets
            && (r.Ok? <==> f.r.Ok?)
            && (r.Err? ==> r.error == f.r.error)
            && (r.Ok? ==> r.value.State() == f.r.value)
            && (stmt != null ==> stmt.State() == f.stmt.value)
            && db.status == (if stmt != null && f.r.Ok? then f.r.value.status else old(db.status))
    ensures r.Ok? && stmt != null ==> r.value == stmt
    ensures r.Ok? && stmt == null ==> fresh(r.value)
    ensures db.seqNum == old(db.seqNum)
  {
    while true
      invariant stmt != null ==> Valid(stmt.State())
      invariant db.seqNum == old(db.seqNum) && db.status == old(db.status)
      invariant PrepLoop(db.packets, if stmt == null then None else Some(stmt.State()))
             == PrepLoop(old(db.packets), if stmt == null then None else Some(old(stmt.State())))
      decreases |db.packets|
    {
      if db.packets == [] {
        return Err(Eof);
      }
      var p := db.packets[0];
      db.packets := db.packets[1..];
      if p == [] {
        return Err(UnexpectedEof);
      }
      if p[0] == 255 {
        return Err(NativeResult.ErrorPacket(p));
      }
      if stmt == null {
        r := TurnNew(p);
        return;
      }
      var stop;
      stop, r := TurnStmt(db, stmt, p);
      if stop {
        return;
      }
    }
  }

  /** One turn with no statement: only an OK packet makes one. */
  method TurnNew(p: seq<Byte>) returns (r: Result<Statement, Error>)
    requires p != [] && p[0] != 255
    ensures var o := Step(p, None);
            && o.Done? && (r.Ok? <==> o.r.Ok?)
            && (r.Err? ==> r.error == o.r.error)
            && (r.Ok? ==> fresh(r.value) && r.value.State() == o.r.value)
  {
    if p[0] != 0 {
      return Err(UnkResultPkt);
    }
    var ok := PrepareOk(p);
    if ok.Err? {
      return Err(ok.error);
    }
    var st := new Statement(ok.value);
    return Ok(st);
  }

  /** One turn on the statement: the EOF packet, which also sets the connection's status,
      or an awaited definition. */
  method TurnStmt(db: Db, stmt: Statement, p: seq<Byte>) returns (stop: bool, r: Result<Statement, Error>)
    requires p != [] && p[0] != 255 && Valid(stmt.State())
    modifies db, stmt
    ensures var o := Step(p, Some(old(stmt.State())));
            && (stop <==> o.Done?)
            && (o.ReadOn? ==> stmt.State() == o.next && db.status == old(db.status))
            && (o.Done? ==> && (r.Ok? <==> o.r.Ok?)
                            && (r.Err? ==> r.error == o.r.error && stmt.State() == old(stmt.State())
                                           && db.status == old(db.status))
                            && (r.Ok? ==> r.value == stmt && stmt.State() == o.r.value && db.status == stmt.status))
    ensures db.packets == old(db.packets) && db.seqNum == old(db.seqNum)
  {
    var unreadParams := stmt.paramCount < |stmt.params|;
    if p[0] == 254 {
      var e := NativeResult.EofPacket(p);
      if e.Err? {
        return true, Err(e.error);
      }
      stmt.warningCount, stmt.status := e.value.0, e.value.1;
      db.status := stmt.status;
      return true, Ok(stmt);
    } else if 0 < p[0] < 251 && (stmt.fieldCount < |stmt.fields| || unreadParams) {
      var f := NativeResult.FieldPacket(p);
      if f.Err? {
        return true, Err(f.error);
      }
      TurnField(stmt, f.value);
      return false, Err(Eof);
    } else {
      return true, Err(UnkResultPkt);
    }
  }

  /** A decoded definition: a parameter is only counted, a column is stored in the next
      slot and under its name. */
  method TurnField(stmt: Statement, f: Field)
    requires Valid(stmt.State()) && (stmt.fieldCount < |stmt.fields| || stmt.paramCount < |stmt.params|)
    modifies stmt
    ensures stmt.State() == Take(old(stmt.State()), f)
  {
    if stmt.paramCount < |stmt.params| {
      stmt.paramCount := stmt.paramCount + 1;
    } else {
      stmt.fields := stmt.fields[stmt.fieldCount := Some(f)];
      stmt.fieldMap := Some(stmt.fieldMap.value[f.name := stmt.fieldCount]);
      stmt.fieldCount := stmt.fieldCount + 1;
    }
  }

  // ---------------------------------------------------------------- properties of the answer

  /** The OK packet of COM_STMT_PREPARE as a server writes it gives a statement with that id
      and warning count, one empty slot per column and per parameter, nothing read yet, and a
      map exactly when there are columns. */
  lemma PrepareOkOf(id: U32, nf: U16, np: U16, filler: Byte, warn: U16)
    ensures PrepareOk([0] + LeBytes(id, 4) + LeBytes(nf, 2) + LeBytes(np, 2) + [filler] + LeBytes(warn, 2))
         == Ok(StmtState(id, seq(np, _ => None), false, seq(nf, _ => None),
                         if nf > 0 then Some(map[]) else None, 0, 0, warn, 0))
  {
    OkParts(LeBytes(id, 4), LeBytes(nf, 2), LeBytes(np, 2), filler, LeBytes(warn, 2));
    Pow256Values();
    LeValueOfLeBytes(id, 4);
    LeValueOfLeBytes(nf, 2);
    LeValueOfLeBytes(np, 2);
    LeValueOfLeBytes(warn, 2);
  }

  /** Where the fields of the OK packet lie. */
  lemma OkParts(a: seq<Byte>, b: seq<Byte>, c: seq<Byte>, x: Byte, e: seq<Byte>)
    requires |a| == 4 && |b| == 2 && |c| == 2 && |e| == 2
    ensures var p := [0] + a + b + c + [x] + e;
            |p| == 12 && p[1..5] == a && p[5..7] == b && p[7..9] == c && p[10..12] == e
  {
  }

  /** With no statement, only an OK packet is an answer; an error packet fails with the
      server's error, and any other packet with UNK_RESULT_PKT. */
  lemma NoStatementStep(p: seq<Byte>)
    requires p != []
    ensures var o := Step(p, None);
            && o.Done?
            && (p[0] == 0 ==> o.r == PrepareOk(p))
            && (p[0] == 255 ==> o.r == Err(NativeResult.ErrorPacket(p)))
            && (0 < p[0] < 255 ==> o.r == Err(UnkResultPkt))
  {
  }

  /** With a statement, a well-formed EOF packet ends the answer: it stores the warning count
      and the status and changes nothing else. */
  lemma EofStepOf(s: StmtState, warn: U16, status: U16)
    requires Valid(s)
    ensures Step([254] + LeBytes(warn, 2) + LeBytes(status, 2), Some(s))
         == Done(Ok(s.(warningCount := warn, status := status)))
  {
    var p := [254] + LeBytes(warn, 2) + LeBytes(status, 2);
    assert p[1..] == LeBytes(warn, 2) + LeBytes(status, 2) + [];
    NativeResult.U16Pair(warn, status, [], p[1..]);
  }

  /** Parameter definitions come first: while one is unread, a field packet is only counted;
      once all are read, it is stored in the next column slot and under its name. */
  lemma ParamsFirst(p: seq<Byte>, s: StmtState)
    requires Valid(s) && p != [] && 0 < p[0] < 251 && NativeResult.FieldPacket(p).Ok?
    requires s.fieldCount < |s.fields| || s.paramCount < |s.params|
    ensures var o := Step(p, Some(s)); var f := NativeResult.FieldPacket(p).value;
            && o.ReadOn?
            && (s.paramCount < |s.params| ==> o.next == s.(paramCount := s.paramCount + 1))
            && (s.paramCount == |s.params| ==>
                  o.next == s.(fields := s.fields[s.fieldCount := Some(f)],
                               fieldMap := Some(s.fieldMap.value[f.name := s.fieldCount]),
                               fieldCount := s.fieldCount + 1))
  {
    var f := NativeResult.FieldPacket(p).value;
    assert Step(p, Some(s)) == ReadOn(Take(s, f));
  }

  /** With a statement, a packet that is neither EOF nor an awaited definition, an empty
      packet and a field packet that does not decode all stop the answer with a failure. */
  lemma StatementFails(p: seq<Byte>, s: StmtState)
    requires Valid(s) && p != [] && p[0] != 254
    requires !(0 < p[0] < 251 && (s.fieldCount < |s.fields| || s.paramCount < |s.params|))
             || NativeResult.FieldPacket(p).Err?
    ensures var o := Step(p, Some(s));
            && o.Done? && o.r.Err?
            && ((p[0] != 255 && !(0 < p[0] < 251 && (s.fieldCount < |s.fields| || s.paramCount < |s.params|)))
                ==> o.r.error == UnkResultPkt)
  {
  }

  /** How many definitions the statement still awaits. */
  function Awaited(s: StmtState): (n: int)
    requires Valid(s)
    ensures n >= 0 && (n == 0 <==> s.paramCount == |s.params| && s.fieldCount == |s.fields|)
  {
    (|s.params| - s.paramCount) + (|s.fields| - s.fieldCount)
  }

  /** The statement after the definitions fs, in the order they arrive. */
  function Absorb(s: StmtState, fs: seq<Field>): (s': StmtState)
    requires Valid(s) && |fs| <= Awaited(s)
    ensures Valid(s') && Awaited(s') == Awaited(s) - |fs|
    ensures s'.params == s.params && s'.id == s.id && s'.rebind == s.rebind
    ensures s'.warningCount == s.warningCount && s'.status == s.status && |s'.fields| == |s.fields|
    decreases |fs|
  {
    if fs == [] then s else Absorb(Take(s, fs[0]), fs[1..])
  }

  /** Definitions read one after the other: none of them stops the loop, and they leave the
      statement Absorb describes for the packets after them. */
  lemma {:induction false} DefinitionsAbsorb(packets: seq<seq<Byte>>, fs: seq<Field>, s: StmtState, rest: seq<seq<Byte>>)
    requires Valid(s) && |fs| <= Awaited(s) && |packets| == |fs|
    requires forall i :: 0 <= i < |packets| ==> packets[i] != [] && 0 < packets[i][0] < 251
                                                && NativeResult.FieldPacket(packets[i]) == Ok(fs[i])
    ensures PrepLoop(packets + rest, Some(s)) == PrepLoop(rest, Some(Absorb(s, fs)))
    decreases |packets|
  {
    if packets != [] {
      var all := packets + rest;
      var s1 := Take(s, fs[0]);
      assert all[0] == packets[0];
      DefinitionReadsOn(all[0], s, fs[0]);
      LoopReadsOn(all, s, s1);
      assert all[1..] == packets[1..] + rest;
      assert Absorb(s, fs) == Absorb(s1, fs[1..]);
      DefinitionsAbsorb(packets[1..], fs[1..], s1, rest);
    } else {
      assert packets + rest == rest;
      assert Absorb(s, fs) == s;
    }
  }

  /** An awaited definition reads on with the statement Take leaves. */
  lemma DefinitionReadsOn(p: seq<Byte>, s: StmtState, f: Field)
    requires Valid(s) && p != [] && 0 < p[0] < 251 && NativeResult.FieldPacket(p) == Ok(f)
    requires s.fieldCount < |s.fields| || s.paramCount < |s.params|
    ensures Step(p, Some(s)) == ReadOn(Take(s, f))
  {
  }

  /** A packet that does not stop the loop leaves the rest to the next turn. */
  lemma LoopReadsOn(packets: seq<seq<Byte>>, s: StmtState, s1: StmtState)
    requires Valid(s) && packets != [] && Step(packets[0], Some(s)) == ReadOn(s1)
    ensures PrepLoop(packets, Some(s)) == PrepLoop(packets[1..], Some(s1))
  {
  }

  /** The first |params| - ParamCount definitions are counted as parameters, the rest fill
      column slots. */
  lemma {:induction false} AbsorbCounts(s: StmtState, fs: seq<Field>)
    requires Valid(s) && |fs| <= Awaited(s)
    ensures var u := |s.params| - s.paramCount; var t := Absorb(s, fs);
            && t.paramCount == s.paramCount + (if |fs| < u then |fs| else u)
            && t.fieldCount == s.fieldCount + (if |fs| < u then 0 else |fs| - u)
    decreases |fs|
  {
    if fs != [] {
      AbsorbCounts(Take(s, fs[0]), fs[1..]);
    }
  }

  /** Definitions leave the columns already read alone... */
  lemma {:induction false} AbsorbKeeps(s: StmtState, fs: seq<Field>, j: int)
    requires Valid(s) && |fs| <= Awaited(s) && 0 <= j < s.fieldCount
    ensures Absorb(s, fs).fields[j] == s.fields[j]
    decreases |fs|
  {
    if fs != [] {
      AbsorbKeeps(Take(s, fs[0]), fs[1..], j);
    }
  }

  /** ... and each column definition after the parameters goes to the next free column slot. */
  lemma {:induction false} AbsorbAt(s: StmtState, fs: seq<Field>, i: int)
    requires Valid(s) && |fs| <= Awaited(s)
    requires |s.params| - s.paramCount <= i < |fs|
    ensures Absorb(s, fs).fields[s.fieldCount + i - (|s.params| - s.paramCount)] == Some(fs[i])
    decreases |fs|
  {
    var s1 := Take(s, fs[0]);
    assert Absorb(s, fs) == Absorb(s1, fs[1..]);
    ghost var k := s.fieldCount + i - (|s.params| - s.paramCount);
    if s.paramCount < |s.params| {
      assert s1.paramCount == s.paramCount + 1 && s1.fieldCount == s.fieldCount;
      AbsorbAt(s1, fs[1..], i - 1);
      assert s1.fieldCount + (i - 1) - (|s1.params| - s1.paramCount) == k;
      assert fs[1..][i - 1] == fs[i];
    } else if i == 0 {
      AbsorbKeeps(s1, fs[1..], s.fieldCount);
    } else {
      assert s1.paramCount == s.paramCount && s1.fieldCount == s.fieldCount + 1;
      AbsorbAt(s1, fs[1..], i - 1);
      assert s1.fieldCount + (i - 1) - (|s1.params| - s1.paramCount) == k;
      assert fs[1..][i - 1] == fs[i];
    }
  }

  /** The whole answer after the OK packet: every awaited definition, then a well-formed EOF
      packet, give back the statement with every parameter counted, every column stored in
      the order it came, and the warning count and status of the EOF packet. */
  lemma PrepareAnswer(s: StmtState, packets: seq<seq<Byte>>, fs: seq<Field>, warn: U16, status: U16)
    requires Valid(s) && |fs| == Awaited(s) && |packets| == |fs|
    requires forall i :: 0 <= i < |packets| ==> packets[i] != [] && 0 < packets[i][0] < 251
                                                && NativeResult.FieldPacket(packets[i]) == Ok(fs[i])
    ensures var t := Absorb(s, fs).(warningCount := warn, status := status);
            && PrepLoop(packets + [[254] + LeBytes(warn, 2) + LeBytes(status, 2)], Some(s))
               == PrepFinal(Ok(t), [], Some(t))
            && t.paramCount == |t.params| && t.fieldCount == |t.fields|
  {
    var e := [254] + LeBytes(warn, 2) + LeBytes(status, 2);
    DefinitionsAbsorb(packets, fs, s, [e]);
    EofStepOf(Absorb(s, fs), warn, status);
    var tail: seq<seq<Byte>> := [e];
    assert tail[1..] == [];
  }
}
