/**
 Columnar morsels: rows decoded into typed columns, from values or straight from encoded
 bytes. Float bits and UTF-8 are a parameter.
 */
module Columns {
  import opened Bytes
  import opened Sql
  import Le

  const TWO_64: nat := 0x1_0000_0000_0000_0000
  const TWO_32: nat := 0x1_0000_0000

  type Row = seq<Datum>

  datatype Codec = Codec(bits: real -> nat, float: nat -> real, utf8: string -> seq<Byte>, text: seq<Byte> -> Option<string>)

  /** Every text is read back from its UTF-8 bytes. */
  ghost predicate CodecOk(c: Codec) { forall s :: c.text(c.utf8(s)) == Some(s) }

  // ---------------------------------------------------------------------
  // Encoded rows
  // ---------------------------------------------------------------------

  /** Two's complement. */
  function ToWord(v: Int64): nat { if v < 0 then v + TWO_64 else v }

  function OfWord(w: nat): Int64 { if w < TWO_64 / 2 then w else if w < TWO_64 then w - TWO_64 else 0 }

  function EncodeDatum(c: Codec, d: Datum): (bs: seq<Byte>)
    ensures bs != []
  {
    match d
    case Null => [0]
    case Int(v) => [1] + Le.Encode(ToWord(v), 8)
    case Float(v) => [2] + Le.Encode(c.bits(v), 8)
    case Text(s) => [3] + Le.Encode(|c.utf8(s)| % TWO_32, 4) + c.utf8(s)
    case Bool(v) => [4, Bit(v)]
    case DateTime(v) => [5] + Le.Encode(ToWord(v), 8)
  }

  function EncodeRow(c: Codec, row: Row): seq<Byte> {
    if row == [] then [] else EncodeDatum(c, row[0]) + EncodeRow(c, row[1..])
  }

  /** Text lengths fit their 32-bit prefix, and a float is the number its 64 bits stand for. */
  ghost predicate Fits(c: Codec, d: Datum) {
    && (d.Text? ==> |c.utf8(d.s)| < TWO_32)
    && (d.Float? ==> c.bits(d.f) < TWO_64 && c.float(c.bits(d.f)) == d.f)
  }

  // ---------------------------------------------------------------------
  // Columns
  // ---------------------------------------------------------------------

  datatype Col =
    | I64(ints: seq<Int64>, nulls: seq<bool>)
    | F64(floats: seq<real>, nulls: seq<bool>)
    | Bools(bools: seq<bool>, nulls: seq<bool>)
    | Str(data: seq<Byte>, off: seq<nat>, nulls: seq<bool>)
    | Times(times: seq<Int64>, nulls: seq<bool>)

  function Started(off: seq<nat>): seq<nat> { if off == [] then [0] else off }

  /** Appends a cell; `None` when the value is not of the column's kind. */
  function PushCell(c: Codec, col: Col, d: Datum): Option<Col> {
    match (col, d)
    case (I64(vals, nulls), Int(v)) => Some(I64(vals + [v], nulls + [false]))
    case (F64(vals, nulls), Float(v)) => Some(F64(vals + [v], nulls + [false]))
    case (Bools(vals, nulls), Bool(v)) => Some(Bools(vals + [v], nulls + [false]))
    case (Str(data, off, nulls), Text(s)) =>
      Some(Str(data + c.utf8(s), Started(off) + [|data + c.utf8(s)|], nulls + [false]))
    case (Times(vals, nulls), DateTime(v)) => Some(Times(vals + [v], nulls + [false]))
    case (I64(vals, nulls), Null) => Some(I64(vals + [0], nulls + [true]))
    case (F64(vals, nulls), Null) => Some(F64(vals + [0.0], nulls + [true]))
    case (Bools(vals, nulls), Null) => Some(Bools(vals + [false], nulls + [true]))
    case (Str(data, off, nulls), Null) => Some(Str(data, Started(off) + [|data|], nulls + [true]))
    case (Times(vals, nulls), Null) => Some(Times(vals + [0], nulls + [true]))
    case (_, _) => None
  }

  ghost predicate Wf(col: Col, n: nat) {
    |col.nulls| == n &&
    match col
    case I64(vals, _) => |vals| == n
    case F64(vals, _) => |vals| == n
    case Bools(vals, _) => |vals| == n
    case Times(vals, _) => |vals| == n
    case Str(data, off, _) =>
      && (off == [] ==> n == 0 && data == [])
      && |Started(off)| == n + 1 && Started(off)[n] == |data|
      && (forall i, j :: 0 <= i <= j <= n ==> Started(off)[i] <= Started(off)[j])
  }

  function CellAt(c: Codec, col: Col, i: nat): Datum
    requires Wf(col, |col.nulls|) && i < |col.nulls|
  {
    if col.nulls[i] then Null
    else
      match col
      case I64(vals, _) => Int(vals[i])
      case F64(vals, _) => Float(vals[i])
      case Bools(vals, _) => Bool(vals[i])
      case Times(vals, _) => DateTime(vals[i])
      case Str(data, off, _) =>
        var s := c.text(data[Started(off)[i]..Started(off)[i + 1]]);
        Text(if s.Some? then s.value else "")
  }

  /** The column holds exactly these values. */
  ghost predicate Holds(c: Codec, col: Col, vals: Row) {
    Wf(col, |vals|) && forall i :: 0 <= i < |vals| ==> CellAt(c, col, i) == vals[i]
  }

  lemma StrPush(c: Codec, data: seq<Byte>, off: seq<nat>, nulls: seq<bool>, bytes: seq<Byte>, isNull: bool)
    requires Wf(Str(data, off, nulls), |nulls|)
    ensures var col := Str(data + bytes, Started(off) + [|data + bytes|], nulls + [isNull]);
            && Wf(col, |nulls| + 1)
            && (forall i :: 0 <= i < |nulls| ==> CellAt(c, col, i) == CellAt(c, Str(data, off, nulls), i))
            && (!isNull && c.text(bytes).Some? ==> CellAt(c, col, |nulls|) == Text(c.text(bytes).value))
  {
    var n := |nulls|;
    var col := Str(data + bytes, Started(off) + [|data + bytes|], nulls + [isNull]);
    forall i | 0 <= i < n
      ensures CellAt(c, col, i) == CellAt(c, Str(data, off, nulls), i)
    {
      var a, b := Started(off)[i], Started(off)[i + 1];
      assert b <= Started(off)[n] == |data|;
      assert (data + bytes)[a..b] == data[a..b];
    }
    assert (data + bytes)[|data|..|data + bytes|] == bytes;
  }

  /** Pushing a cell appends exactly that value. */
  lemma PushHolds(c: Codec, col: Col, vals: Row, d: Datum)
    requires CodecOk(c) && Holds(c, col, vals) && PushCell(c, col, d).Some?
    ensures Holds(c, PushCell(c, col, d).value, vals + [d])
  {
    var col' := PushCell(c, col, d).value;
    if col.Str? {
      if d.Text? {
        StrPush(c, col.data, col.off, col.nulls, c.utf8(d.s), false);
      } else {
        StrPush(c, col.data, col.off, col.nulls, [], true);
        assert col.data + [] == col.data;
      }
    }
    assert Wf(col', |vals| + 1);
    forall i | 0 <= i < |vals| + 1 ensures CellAt(c, col', i) == (vals + [d])[i] {
      if i < |vals| {
        assert CellAt(c, col', i) == CellAt(c, col, i);
      }
    }
  }

  // ---------------------------------------------------------------------
  // Decoding one cell from bytes
  // ---------------------------------------------------------------------

  lemma LeAt(v: nat, k: nat, rest: seq<Byte>)
    requires v < Le.Pow256(k)
    ensures Le.Decode((Le.Encode(v, k) + rest)[..k]) == v
  {
    Le.RoundTrip(v, k);
    assert (Le.Encode(v, k) + rest)[..k] == Le.Encode(v, k);
  }

  /** The result of pushing the cell encoded at the front of `buf`: the column, and how many
      bytes the cell takes. A cell that is not needed is skipped by its length. */
  function PushRawCell(c: Codec, col: Col, buf: seq<Byte>, needed: bool): Option<(Col, nat)> {
    if buf == [] then None
    else
      var body := buf[1..];
      match buf[0]
      case 0 => if needed then Grown(PushCell(c, col, Null), 1) else Some((col, 1))
      case 1 =>
        if |body| < 8 then None
        else if needed then Grown(PushCell(c, col, Int(OfWord(Le.Decode(body[..8])))), 9) else Some((col, 9))
      case 2 =>
        if |body| < 8 then None
        else if needed then Grown(PushCell(c, col, Float(c.float(Le.Decode(body[..8])))), 9) else Some((col, 9))
      case 3 =>
        if |body| < 4 then None
        else
          var len := Le.Decode(body[..4]);
          if |body| - 4 < len then None
          else if needed then Grown(PushBytes(col, body[4..4 + len]), 5 + len)
          else Some((col, 5 + len))
      case 4 =>
        if |body| < 1 then None
        else if needed then Grown(PushCell(c, col, Bool(body[0] != 0)), 2) else Some((col, 2))
      case 5 =>
        if |body| < 8 then None
        else if needed then Grown(PushCell(c, col, DateTime(OfWord(Le.Decode(body[..8])))), 9) else Some((col, 9))
      case _ => None
  }

  function Grown(col: Option<Col>, n: nat): Option<(Col, nat)> { if col.Some? then Some((col.value, n)) else None }

  /** Text bytes go into the column as they are. */
  function PushBytes(col: Col, bytes: seq<Byte>): Option<Col> {
    match col
    case Str(data, off, nulls) => Some(Str(data + bytes, Started(off) + [|data + bytes|], nulls + [false]))
    case _ => None
  }

  /** On an encoded value the raw path does what the value path does. */
  lemma RawCell(c: Codec, col: Col, d: Datum, rest: seq<Byte>, needed: bool)
    requires CodecOk(c) && Fits(c, d)
    ensures PushRawCell(c, col, EncodeDatum(c, d) + rest, needed) ==
            if needed then Grown(PushCell(c, col, d), |EncodeDatum(c, d)|) else Some((col, |EncodeDatum(c, d)|))
  {
    var buf := EncodeDatum(c, d) + rest;
    Le.Powers();
    hide Le.Encode, Le.Decode, Le.Pow256, Started;
    match d
    case Null =>
    case Int(v) =>
      assert buf[1..] == Le.Encode(ToWord(v), 8) + rest;
      LeAt(ToWord(v), 8, rest);
    case Float(v) =>
      assert buf[1..] == Le.Encode(c.bits(v), 8) + rest;
      LeAt(c.bits(v), 8, rest);
    case DateTime(v) =>
      assert buf[1..] == Le.Encode(ToWord(v), 8) + rest;
      LeAt(ToWord(v), 8, rest);
    case Bool(v) =>
      assert buf[1..] == [Bit(v)] + rest;
    case Text(s) =>
      var bytes := c.utf8(s);
      assert buf[1..] == Le.Encode(|bytes|, 4) + (bytes + rest);
      LeAt(|bytes|, 4, bytes + rest);
      assert buf[1..][4..4 + |bytes|] == bytes;
  }

  // ---------------------------------------------------------------------
  // The batch
  // ---------------------------------------------------------------------

  predicate Needed(need: seq<bool>, ci: nat) { ci < |need| && need[ci] }

  /** Every needed column takes its value of the row. */
  ghost predicate RowFits(c: Codec, cols: seq<Col>, row: Row, need: seq<bool>, n: nat) {
    forall ci :: 0 <= ci < n && ci < |cols| && Needed(need, ci) ==> ci < |row| && PushCell(c, cols[ci], row[ci]).Some?
  }

  /** The first `n` columns with the row appended where needed, the others as they were. */
  ghost predicate RowPushed(c: Codec, cols: seq<Col>, cols': seq<Col>, row: Row, need: seq<bool>, n: nat) {
    && |cols'| == |cols| && RowFits(c, cols, row, need, n)
    && forall ci :: 0 <= ci < |cols| ==>
         cols'[ci] == if ci < n && Needed(need, ci) then PushCell(c, cols[ci], row[ci]).value else cols[ci]
  }

  class ColumnBatch {
    var cols: seq<Col>

    constructor (shape: seq<Col>)
      ensures cols == shape
    {
      cols := shape;
    }

    /** Appends one row of values; on success every needed column took its value. */
    method PushDatumRow(c: Codec, row: Row, need: seq<bool>) returns (ok: bool)
      modifies this
      ensures |cols| == old(|cols|)
      ensures ok <==> RowFits(c, old(cols), row, need, old(|cols|))
      ensures ok ==> RowPushed(c, old(cols), cols, row, need, |cols|)
    {
      hide PushCell;
      for ci := 0 to |cols|
        invariant |cols| == old(|cols|) && RowPushed(c, old(cols), cols, row, need, ci)
      {
        if !Needed(need, ci) {
          continue;
        }
        if ci >= |row| {
          return false;
        }
        var col := PushCell(c, cols[ci], row[ci]);
        if col.None? {
          return false;
        }
        cols := cols[ci := col.value];
      }
      return true;
    }

    /** Appends one encoded row without building values. On the encoding of a row it
        succeeds exactly when the row has one value per column and each needed column takes
        its value, and then leaves what `PushDatumRow` leaves. */
    method PushRawRow(c: Codec, buf: seq<Byte>, need: seq<bool>, ghost row: Row) returns (ok: bool)
      requires CodecOk(c)
      modifies this
      ensures |cols| == old(|cols|)
      ensures buf == EncodeRow(c, row) && (forall i :: 0 <= i < |row| ==> Fits(c, row[i])) ==>
                && (ok <==> |row| == |cols| && RowFits(c, old(cols), row, need, |cols|))
                && (ok ==> RowPushed(c, old(cols), cols, row, need, |cols|))
    {
      hide PushCell, EncodeDatum, PushRawCell, EncodeRow;
      var off: nat := 0;
      ghost var encoded := buf == EncodeRow(c, row) && forall i :: 0 <= i < |row| ==> Fits(c, row[i]);
      for ci := 0 to |cols|
        invariant |cols| == old(|cols|) && off <= |buf|
        invariant encoded ==> ci <= |row| && buf[off..] == EncodeRow(c, row[ci..]) && RowPushed(c, old(cols), cols, row, need, ci)
      {
        if encoded {
          RawNext(c, row, ci, cols[ci], buf[off..], Needed(need, ci));
        }
        var r := PushRawCell(c, cols[ci], buf[off..], Needed(need, ci));
        if r.None? {
          return false;
        }
        RawLength(c, cols[ci], buf[off..], Needed(need, ci));
        cols := cols[ci := r.value.0];
        off := off + r.value.1;
      }
      if encoded {
        RawEnd(c, row[|cols|..]);
        assert buf[off..] == [] <==> off == |buf|;
      }
      return off == |buf|;
    }
  }

  lemma RawEnd(c: Codec, row: Row)
    ensures EncodeRow(c, row) == [] <==> row == []
  {
  }

  lemma RawLength(c: Codec, col: Col, buf: seq<Byte>, needed: bool)
    requires PushRawCell(c, col, buf, needed).Some?
    ensures PushRawCell(c, col, buf, needed).value.1 <= |buf|
  {
  }

  lemma RawNext(c: Codec, row: Row, ci: nat, col: Col, buf: seq<Byte>, needed: bool)
    requires CodecOk(c) && ci <= |row| && buf == EncodeRow(c, row[ci..]) && forall i :: 0 <= i < |row| ==> Fits(c, row[i])
    ensures ci == |row| ==> PushRawCell(c, col, buf, needed).None?
    ensures ci < |row| ==>
              && var n := |EncodeDatum(c, row[ci])|;
                 n <= |buf| && buf[n..] == EncodeRow(c, row[ci + 1..])
                 && PushRawCell(c, col, buf, needed) == (if needed then Grown(PushCell(c, col, row[ci]), n) else Some((col, n)))
  {
    if ci < |row| {
      assert row[ci..][0] == row[ci] && row[ci..][1..] == row[ci + 1..];
      RawCell(c, col, row[ci], EncodeRow(c, row[ci + 1..]), needed);
    }
  }

  function KindOf(col: Col): nat {
    match col
    case I64(_, _) => 0
    case F64(_, _) => 1
    case Bools(_, _) => 2
    case Str(_, _, _) => 3
    case Times(_, _) => 4
  }

  /** What a column takes depends on its kind alone, which pushing keeps. */
  lemma KindDecides(c: Codec, a: Col, b: Col, d: Datum)
    requires KindOf(a) == KindOf(b)
    ensures PushCell(c, a, d).Some? <==> PushCell(c, b, d).Some?
    ensures PushCell(c, a, d).Some? ==> KindOf(PushCell(c, a, d).value) == KindOf(b)
  {
  }

  ghost predicate SameKinds(a: seq<Col>, b: seq<Col>) { |a| == |b| && forall ci :: 0 <= ci < |a| ==> KindOf(a[ci]) == KindOf(b[ci]) }

  lemma FitsByKind(c: Codec, a: seq<Col>, b: seq<Col>, row: Row, need: seq<bool>)
    requires SameKinds(a, b)
    ensures RowFits(c, a, row, need, |a|) <==> RowFits(c, b, row, need, |b|)
  {
    hide PushCell, KindOf;
    forall ci | 0 <= ci < |a| && ci < |row| ensures PushCell(c, a[ci], row[ci]).Some? <==> PushCell(c, b[ci], row[ci]).Some? {
      KindDecides(c, a[ci], b[ci], row[ci]);
    }
  }

  lemma KindsKept(c: Codec, start: seq<Col>, cols: seq<Col>, cols': seq<Col>, row: Row, need: seq<bool>)
    requires SameKinds(start, cols) && RowPushed(c, cols, cols', row, need, |cols|)
    ensures SameKinds(start, cols')
  {
    hide PushCell, KindOf;
    forall ci | 0 <= ci < |cols| ensures KindOf(start[ci]) == KindOf(cols'[ci]) {
      if Needed(need, ci) {
        KindDecides(c, cols[ci], start[ci], row[ci]);
      }
    }
  }

  const MORSEL: nat := 1024

  /** A morsel of values, at most `MORSEL` rows: it succeeds exactly when every needed column
      takes the values of those rows, and then holds exactly these, in order. */
  method DecodeMorsel(c: Codec, batch: ColumnBatch, rows: seq<Row>, need: seq<bool>) returns (ok: bool, n: nat)
    requires CodecOk(c) && forall ci :: 0 <= ci < |batch.cols| ==> Holds(c, batch.cols[ci], [])
    modifies batch
    ensures |batch.cols| == old(|batch.cols|) && n == (if |rows| < MORSEL then |rows| else MORSEL)
    ensures ok <==> forall i :: 0 <= i < n ==> RowFits(c, old(batch.cols), rows[i], need, |batch.cols|)
    ensures ok ==> forall ci :: 0 <= ci < |batch.cols| && Needed(need, ci) ==> Holds(c, batch.cols[ci], Values(rows[..n], ci))
  {
    hide Wf, CellAt, PushCell, RowFits, SameKinds;
    n := if |rows| < MORSEL then |rows| else MORSEL;
    ghost var start := batch.cols;
    KindsStart(start);
    for i := 0 to n
      invariant |batch.cols| == |start| && SameKinds(start, batch.cols)
      invariant forall k :: 0 <= k < i ==> RowFits(c, start, rows[k], need, |start|)
      invariant forall ci :: 0 <= ci < |batch.cols| && Needed(need, ci) ==> Holds(c, batch.cols[ci], Values(rows[..i], ci))
    {
      ghost var before := batch.cols;
      FitsByKind(c, start, before, rows[i], need);
      ok := batch.PushDatumRow(c, rows[i], need);
      if !ok {
        return;
      }
      KindsKept(c, start, before, batch.cols, rows[i], need);
      RowAppended(c, before, batch.cols, rows, i, need);
    }
    return true, n;
  }

  lemma KindsStart(cols: seq<Col>)
    ensures SameKinds(cols, cols)
  {
  }

  lemma RowAppended(c: Codec, cols: seq<Col>, cols': seq<Col>, rows: seq<Row>, i: nat, need: seq<bool>)
    requires CodecOk(c) && i < |rows| && RowPushed(c, cols, cols', rows[i], need, |cols|)
    requires forall ci :: 0 <= ci < |cols| && Needed(need, ci) ==> Holds(c, cols[ci], Values(rows[..i], ci))
    ensures forall ci :: 0 <= ci < |cols| && Needed(need, ci) ==> Holds(c, cols'[ci], Values(rows[..i + 1], ci))
  {
    hide Holds, PushCell;
    forall ci | 0 <= ci < |cols| && Needed(need, ci)
      ensures Holds(c, cols'[ci], Values(rows[..i + 1], ci))
    {
      PushHolds(c, cols[ci], Values(rows[..i], ci), rows[i][ci]);
      assert Values(rows[..i + 1], ci) == Values(rows[..i], ci) + [rows[i][ci]];
    }
  }

  function Values(rows: seq<Row>, ci: nat): Row { seq(|rows|, i requires 0 <= i < |rows| => if ci < |rows[i]| then rows[i][ci] else Null) }
}
