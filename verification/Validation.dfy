/**
 What a table does to a candidate row before it is stored: defaults, NOT NULL, and the
 coercions of the column types.
 */
module Validation {
  import opened Bytes
  import opened Sql
  import opened JoinExec
  import opened WalCodec

  /** 64-bit multiplication wraps around. */
  function Wrapped(x: int): Int64 {
    (x + 0x8000_0000_0000_0000) % 0x1_0000_0000_0000_0000 - 0x8000_0000_0000_0000
  }

  predicate Temporal(t: ColumnType) { t.TDateTime? || t.TTimestamp? }

  function Coerced(lib: Library, t: ColumnType, d: Datum): Datum {
    if Temporal(t) then
      match d
      case Text(s) => if lib.parse(s).Some? then DateTime(lib.parse(s).value) else d
      case Int(seconds) => DateTime(Wrapped(seconds * 1_000_000))
      case _ => d
    else if t.TBool? && d.Int? then Bool(d.i != 0)
    else if (t.TInt? || t.TBigInt?) && d.Bool? then Int(Bit(d.b))
    else d
  }

  predicate Accepts(t: ColumnType, d: Datum) {
    d.Null? ||
    match t
    case TInt => d.Int? || d.Bool?
    case TBigInt => d.Int? || d.Bool?
    case TFloat => d.Int? || d.Float? || d.Bool?
    case TDouble => d.Int? || d.Float? || d.Bool?
    case TText => d.Text?
    case TVarChar => d.Text?
    case TBool => d.Bool? || d.Int?
    case TDateTime => d.DateTime? || d.Text? || d.Int?
    case TTimestamp => d.DateTime? || d.Text? || d.Int?
  }

  /** The value a column stores for `d`: NULL becomes the default where there is one. */
  function StoredAs(lib: Library, col: ColumnDef, d: Datum): Option<Datum> {
    if d.Null? && col.default.None? then (if col.nullable then Some(Null) else None)
    else
      var x := Coerced(lib, col.ctype, if d.Null? then col.default.value else d);
      if Accepts(col.ctype, x) then Some(x) else None
  }

  function DefaultOf(col: ColumnDef): Datum { if col.default.Some? then col.default.value else Null }

  /** A short row is completed with defaults. */
  function Completed(cols: seq<ColumnDef>, row: Row): Row {
    row + seq(if |row| < |cols| then |cols| - |row| else 0, i requires 0 <= i && |row| + i < |cols| => DefaultOf(cols[|row| + i]))
  }

  function StoredCells(lib: Library, cols: seq<ColumnDef>, row: Row): Option<Row>
    requires |row| == |cols|
  {
    if row == [] then Some([])
    else
      var n := |row| - 1;
      var init, last := StoredCells(lib, cols[..n], row[..n]), StoredAs(lib, cols[n], row[n]);
      if init.Some? && last.Some? then Some(init.value + [last.value]) else None
  }

  /** The row as it is stored, or `None` when it is refused. */
  function ValidateRow(lib: Library, cols: seq<ColumnDef>, row: Row): Option<Row> {
    var full := Completed(cols, row);
    if |full| != |cols| then None else StoredCells(lib, cols, full)
  }

  /** Column by column, stopping at the first that refuses its value. */
  method Validate(lib: Library, cols: seq<ColumnDef>, row: Row) returns (r: Option<Row>)
    ensures r == ValidateRow(lib, cols, row)
  {
    hide StoredCells, StoredAs;
    var full := row;
    while |full| < |cols|
      invariant |row| <= |full| && (|full| <= |cols| || full == row)
      invariant full[..|row|] == row && forall i :: |row| <= i < |full| ==> full[i] == DefaultOf(cols[i])
    {
      full := full + [DefaultOf(cols[|full|])];
    }
    CompletedIs(cols, row, full);
    hide Completed;
    if |full| != |cols| {
      return None;
    }
    var norm: Row := [];
    NothingStored(lib);
    for i := 0 to |cols|
      invariant StoredCells(lib, cols[..i], full[..i]) == Some(norm)
    {
      StoredNext(lib, cols, full, i);
      var cell := StoredAs(lib, cols[i], full[i]);
      if cell.None? {
        CellRefused(lib, cols, full, i + 1);
        return None;
      }
      norm := norm + [cell.value];
    }
    assert cols[..|cols|] == cols && full[..|cols|] == full;
    return Some(norm);
  }

  lemma CompletedIs(cols: seq<ColumnDef>, row: Row, full: Row)
    requires |row| <= |full| && full[..|row|] == row && (|full| == |cols| || (|full| > |cols| && full == row))
    requires forall i :: |row| <= i < |full| && i < |cols| ==> full[i] == DefaultOf(cols[i])
    ensures full == Completed(cols, row)
  {
  }

  lemma NothingStored(lib: Library)
    ensures StoredCells(lib, [], []) == Some([])
  {
  }

  lemma StoredNext(lib: Library, cols: seq<ColumnDef>, row: Row, i: nat)
    requires i < |cols| == |row|
    ensures var init, last := StoredCells(lib, cols[..i], row[..i]), StoredAs(lib, cols[i], row[i]);
            StoredCells(lib, cols[..i + 1], row[..i + 1]) == if init.Some? && last.Some? then Some(init.value + [last.value]) else None
  {
    assert cols[..i + 1][..i] == cols[..i] && row[..i + 1][..i] == row[..i];
  }

  lemma {:induction false} CellRefused(lib: Library, cols: seq<ColumnDef>, row: Row, n: nat)
    requires |row| == |cols| && n <= |cols| && StoredCells(lib, cols[..n], row[..n]).None?
    ensures StoredCells(lib, cols, row).None?
    decreases |cols|
  {
    if n == |cols| {
      assert cols[..n] == cols && row[..n] == row;
    } else {
      var m := |cols| - 1;
      assert cols[..m][..n] == cols[..n] && row[..m][..n] == row[..n];
      CellRefused(lib, cols[..m], row[..m], n);
    }
  }

  /** A row is stored exactly when every column stores its cell. */
  lemma {:induction false} CellsStored(lib: Library, cols: seq<ColumnDef>, row: Row)
    requires |row| == |cols|
    ensures StoredCells(lib, cols, row).Some? <==> forall i :: 0 <= i < |row| ==> StoredAs(lib, cols[i], row[i]).Some?
    ensures StoredCells(lib, cols, row).Some? ==>
              && |StoredCells(lib, cols, row).value| == |row|
              && forall i :: 0 <= i < |row| ==> StoredAs(lib, cols[i], row[i]) == Some(StoredCells(lib, cols, row).value[i])
  {
    if row != [] {
      var n := |row| - 1;
      CellsStored(lib, cols[..n], row[..n]);
      hide StoredAs;
      assert forall i :: 0 <= i < n ==> cols[..n][i] == cols[i] && row[..n][i] == row[i];
    }
  }

  lemma StoredAgain(lib: Library, col: ColumnDef, d: Datum)
    requires StoredAs(lib, col, d).Some?
    ensures StoredAs(lib, col, StoredAs(lib, col, d).value) == StoredAs(lib, col, d)
  {
  }

  /** Storing a stored row changes nothing: what a table holds passes validation as it is. */
  lemma ValidateAgain(lib: Library, cols: seq<ColumnDef>, row: Row)
    requires ValidateRow(lib, cols, row).Some?
    ensures ValidateRow(lib, cols, ValidateRow(lib, cols, row).value) == ValidateRow(lib, cols, row)
  {
    hide StoredAs;
    var full := Completed(cols, row);
    var r := ValidateRow(lib, cols, row).value;
    CellsStored(lib, cols, full);
    assert Completed(cols, r) == r;
    forall i | 0 <= i < |r| ensures StoredAs(lib, cols[i], r[i]) == Some(r[i]) { StoredAgain(lib, cols[i], full[i]); }
    CellsStored(lib, cols, r);
    assert StoredCells(lib, cols, r).value == r;
  }

  /** Setting one column of a stored row to NULL stores the default there, if it has one, and
      changes nothing else. */
  lemma NullStored(lib: Library, cols: seq<ColumnDef>, row: Row, c: nat)
    requires ValidateRow(lib, cols, row) == Some(row) && c < |row|
    ensures |row| == |cols|
    ensures ValidateRow(lib, cols, row[c := Null]) ==
              if StoredAs(lib, cols[c], Null).Some? then Some(row[c := StoredAs(lib, cols[c], Null).value]) else None
  {
    hide StoredAs;
    var row' := row[c := Null];
    CellsStored(lib, cols, Completed(cols, row));
    assert |row| == |cols|;
    assert Completed(cols, row) == row && Completed(cols, row') == row';
    CellsStored(lib, cols, row');
    assert forall i :: 0 <= i < |row| && i != c ==> StoredAs(lib, cols[i], row'[i]) == Some(row[i]);
    if StoredAs(lib, cols[c], Null).Some? {
      assert StoredCells(lib, cols, row').value == row[c := StoredAs(lib, cols[c], Null).value];
    } else {
      assert StoredAs(lib, cols[c], row'[c]).None?;
    }
  }

  /** What is stored for a value that is not NULL: a BOOL in an INT column is the INT it equals;
      an INT in a BOOL column is FALSE when it is zero and else TRUE; a text that reads as a
      date, in a DATETIME column, is that date, and a number of seconds the moment it counts to;
      anything else is stored as it is. */
  lemma StoredIs(lib: Library, col: ColumnDef, d: Datum)
    requires !d.Null? && StoredAs(lib, col, d).Some?
    ensures var x := StoredAs(lib, col, d).value;
            if (col.ctype.TInt? || col.ctype.TBigInt?) && d.Bool? then x.Int? && Same(lib, x, d)
            else if col.ctype.TBool? && d.Int? then x.Bool? && (Same(lib, x, Int(0)) <==> d.i == 0)
            else if Temporal(col.ctype) && d.Text? && lib.parse(d.s).Some? then x.DateTime? && Same(lib, x, d)
            else if Temporal(col.ctype) && d.Int? && -9_000_000_000_000 <= d.i <= 9_000_000_000_000
            then x.DateTime? && x.micros / 1_000_000 == d.i && x.micros % 1_000_000 == 0
            else if Temporal(col.ctype) && d.Int? then x.DateTime?
            else x == d
  {
  }
}
