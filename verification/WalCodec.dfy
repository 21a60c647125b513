/**
 The log's record codec: payloads, length-and-checksum frames, and the decoder that stops
 cleanly at a torn tail. UTF-8 and float bits are a parameter.
 */
module WalCodec {
  import opened Bytes
  import opened Sql
  import Le
  import opened Columns
  import Crc

  const MAX_RECORD: nat := 0x4000_0000
  const MAX_ITEMS: nat := 10_000

  datatype ColumnType = TInt | TBigInt | TFloat | TDouble | TText | TVarChar | TBool | TDateTime | TTimestamp

  datatype ColumnDef = ColumnDef(name: string, ctype: ColumnType, nullable: bool, auto: bool, default: Option<Datum>)
  datatype IndexDef = IndexDef(name: string, column: string)
  datatype FkAction = Restrict | Cascade | SetNull
  datatype FkDef = FkDef(name: string, column: string, refTable: string, refColumn: string, action: FkAction)
  datatype TableDef = TableDef(name: string, pk: nat, columns: seq<ColumnDef>, indexes: seq<IndexDef>, fks: seq<FkDef>)

  datatype Record =
    | Put(txn: nat, table: string, key: seq<Byte>, row: seq<Byte>)
    | Delete(txn: nat, table: string, key: seq<Byte>)
    | Commit(txn: nat, ts: Option<nat>)
    | CreateTable(txn: nat, def: TableDef)
    | DropTable(txn: nat, name: string)
    | CreateIndex(txn: nat, table: string, name: string, column: string)
    | DropIndex(txn: nat, table: string, name: string)
    | CreateDatabase(txn: nat, name: string)
    | DropDatabase(txn: nat, name: string)

  /** A decoded value and the bytes after it; `None` for corrupt input. */
  type Parsed<T> = Option<(T, seq<Byte>)>

  // ---------------------------------------------------------------------
  // Fields
  // ---------------------------------------------------------------------

  function PutBytes(b: seq<Byte>): seq<Byte> { Le.Encode(|b| % TWO_32, 4) + b }

  function PutStr(c: Codec, s: string): seq<Byte> { PutBytes(c.utf8(s)) }

  function Flag(b: bool): seq<Byte> { [if b then 1 else 0] }

  function TakeNum(k: nat, buf: seq<Byte>): Parsed<nat> {
    if |buf| < k then None else Some((Le.Decode(buf[..k]), buf[k..]))
  }

  function TakeBytes(buf: seq<Byte>): Parsed<seq<Byte>> {
    var n := TakeNum(4, buf);
    if n.None? || |n.value.1| < n.value.0 then None else Some((n.value.1[..n.value.0], n.value.1[n.value.0..]))
  }

  function TakeStr(c: Codec, buf: seq<Byte>): Parsed<string> {
    var b := TakeBytes(buf);
    if b.None? || c.text(b.value.0).None? then None else Some((c.text(b.value.0).value, b.value.1))
  }

  function TakeByte(buf: seq<Byte>): Parsed<Byte> { if buf == [] then None else Some((buf[0], buf[1..])) }

  ghost predicate Short(c: Codec, s: string) { |c.utf8(s)| < TWO_32 }

  lemma NumBack(v: nat, k: nat, rest: seq<Byte>)
    requires v < Le.Pow256(k)
    ensures TakeNum(k, Le.Encode(v, k) + rest) == Some((v, rest))
  {
    Le.RoundTrip(v, k);
    assert (Le.Encode(v, k) + rest)[..k] == Le.Encode(v, k);
  }

  lemma BytesBack(b: seq<Byte>, rest: seq<Byte>)
    requires |b| < TWO_32
    ensures TakeBytes(PutBytes(b) + rest) == Some((b, rest))
  {
    Le.Powers();
    hide Le.Encode, Le.Pow256;
    NumBack(|b|, 4, b + rest);
    assert PutBytes(b) + rest == Le.Encode(|b|, 4) + (b + rest);
  }

  lemma StrBack(c: Codec, s: string, rest: seq<Byte>)
    requires CodecOk(c) && Short(c, s)
    ensures TakeStr(c, PutStr(c, s) + rest) == Some((s, rest))
  {
    BytesBack(c.utf8(s), rest);
  }

  // ---------------------------------------------------------------------
  // Values
  // ---------------------------------------------------------------------

  function DecodeDatum(c: Codec, buf: seq<Byte>): Parsed<Datum> {
    var tag := TakeByte(buf);
    if tag.None? then None
    else
      var (t, body) := tag.value;
      if t == 0 then Some((Null, body))
      else if t == 1 || t == 2 || t == 5 then
        var n := TakeNum(8, body);
        if n.None? then None
        else Some((if t == 1 then Int(OfWord(n.value.0)) else if t == 2 then Float(c.float(n.value.0)) else DateTime(OfWord(n.value.0)), n.value.1))
      else if t == 3 then
        var s := TakeStr(c, body);
        if s.None? then None else Some((Text(s.value.0), s.value.1))
      else if t == 4 then
        var b := TakeByte(body);
        if b.None? then None else Some((Bool(b.value.0 != 0), b.value.1))
      else None
  }

  lemma DatumBack(c: Codec, d: Datum, rest: seq<Byte>)
    requires CodecOk(c) && Fits(c, d)
    ensures DecodeDatum(c, EncodeDatum(c, d) + rest) == Some((d, rest))
  {
    var buf := EncodeDatum(c, d) + rest;
    Le.Powers();
    hide Le.Encode, Le.Decode, Le.Pow256, TakeNum, TakeBytes;
    match d
    case Null => assert buf[1..] == rest;
    case Int(v) =>
      assert buf[1..] == Le.Encode(ToWord(v), 8) + rest;
      NumBack(ToWord(v), 8, rest);
    case Float(v) =>
      assert buf[1..] == Le.Encode(c.bits(v), 8) + rest;
      NumBack(c.bits(v), 8, rest);
    case DateTime(v) =>
      assert buf[1..] == Le.Encode(ToWord(v), 8) + rest;
      NumBack(ToWord(v), 8, rest);
    case Bool(v) =>
      assert buf[1..] == [Bit(v)] + rest;
      assert buf[1..][1..] == rest;
    case Text(s) =>
      assert buf[1..] == PutStr(c, s) + rest;
      StrBack(c, s, rest);
  }

  // ---------------------------------------------------------------------
  // Table definitions
  // ---------------------------------------------------------------------

  /** The type byte is the first letter of the type's name. */
  function TypeByte(t: ColumnType): Byte {
    match t
    case TInt => 73
    case TBigInt => 66
    case TFloat => 70
    case TDouble => 68
    case TText => 84
    case TVarChar => 86
    case TBool => 66
    case TDateTime => 68
    case TTimestamp => 84
  }

  function TypeOf(b: Byte): Option<ColumnType> {
    match b
    case 73 => Some(TInt)
    case 66 => Some(TBigInt)
    case 70 => Some(TFloat)
    case 68 => Some(TDouble)
    case 84 => Some(TText)
    case 86 => Some(TVarChar)
    case 76 => Some(TBool)
    case 69 => Some(TDateTime)
    case 77 => Some(TDateTime)
    case 80 => Some(TTimestamp)
    case 83 => Some(TTimestamp)
    case _ => None
  }

  /** What a type comes back as: three names share their first letter with another type. */
  function Reread(t: ColumnType): ColumnType {
    match t
    case TBool => TBigInt
    case TDateTime => TDouble
    case TTimestamp => TText
    case _ => t
  }

  lemma TypeBack(t: ColumnType)
    ensures TypeOf(TypeByte(t)) == Some(Reread(t))
  {
  }

  function EncodeDefault(c: Codec, d: Option<Datum>): seq<Byte> {
    match d case Some(v) => [1] + EncodeDatum(c, v) case None => [0]
  }

  function EncodeColumn(c: Codec, col: ColumnDef): seq<Byte> {
    PutStr(c, col.name) + ([TypeByte(col.ctype)] + (Flag(col.nullable) + (Flag(col.auto) + EncodeDefault(c, col.default))))
  }

  function TakeFlag(buf: seq<Byte>): Parsed<bool> { if buf == [] then None else Some((buf[0] != 0, buf[1..])) }

  /** The default section is optional in older images. */
  function DecodeDefault(c: Codec, buf: seq<Byte>): Parsed<Option<Datum>> {
    if buf == [] then Some((None, buf))
    else if buf[0] == 0 then Some((None, buf[1..]))
    else
      var d := DecodeDatum(c, buf[1..]);
      if d.None? then None else Some((Some(d.value.0), d.value.1))
  }

  function DecodeColumn(c: Codec, buf: seq<Byte>): Parsed<ColumnDef> {
    var name := TakeStr(c, buf);
    if name.None? then None
    else
      var t := TakeByte(name.value.1);
      if t.None? then None
      else
        var nullable := TakeFlag(t.value.1);
        if nullable.None? then None
        else
          var auto := TakeFlag(nullable.value.1);
          if auto.None? || TypeOf(t.value.0).None? then None
          else
            var d := DecodeDefault(c, auto.value.1);
            if d.None? then None
            else Some((ColumnDef(name.value.0, TypeOf(t.value.0).value, nullable.value.0, auto.value.0, d.value.0), d.value.1))
  }

  function RereadColumn(col: ColumnDef): ColumnDef { col.(ctype := Reread(col.ctype)) }

  ghost predicate ColumnFits(c: Codec, col: ColumnDef) { Short(c, col.name) && (col.default.Some? ==> Fits(c, col.default.value)) }

  lemma DefaultBack(c: Codec, d: Option<Datum>, rest: seq<Byte>)
    requires CodecOk(c) && (d.Some? ==> Fits(c, d.value))
    ensures DecodeDefault(c, EncodeDefault(c, d) + rest) == Some((d, rest))
  {
    var buf := EncodeDefault(c, d) + rest;
    if d.Some? {
      assert buf[1..] == EncodeDatum(c, d.value) + rest;
      DatumBack(c, d.value, rest);
    } else {
      assert buf[1..] == rest;
    }
  }

  lemma ColumnBack(c: Codec, col: ColumnDef, rest: seq<Byte>)
    requires CodecOk(c) && ColumnFits(c, col)
    ensures DecodeColumn(c, EncodeColumn(c, col) + rest) == Some((RereadColumn(col), rest))
  {
    hide TakeStr, PutStr, DecodeDefault, EncodeDefault;
    var r4 := EncodeDefault(c, col.default) + rest;
    var r3 := Flag(col.auto) + r4;
    var r2 := Flag(col.nullable) + r3;
    var r1 := [TypeByte(col.ctype)] + r2;
    assert EncodeColumn(c, col) + rest == PutStr(c, col.name) + r1;
    StrBack(c, col.name, r1);
    assert r1[1..] == r2 && r2[1..] == r3 && r3[1..] == r4;
    TypeBack(col.ctype);
    DefaultBack(c, col.default, rest);
  }

  function EncodeColumns(c: Codec, cols: seq<ColumnDef>): seq<Byte> {
    if cols == [] then [] else EncodeColumn(c, cols[0]) + EncodeColumns(c, cols[1..])
  }

  function DecodeColumns(c: Codec, n: nat, buf: seq<Byte>): Parsed<seq<ColumnDef>> {
    if n == 0 then Some(([], buf))
    else
      var col := DecodeColumn(c, buf);
      if col.None? then None
      else
        var more := DecodeColumns(c, n - 1, col.value.1);
        if more.None? then None else Some(([col.value.0] + more.value.0, more.value.1))
  }

  function RereadColumns(cols: seq<ColumnDef>): (r: seq<ColumnDef>)
    ensures |r| == |cols| && forall i :: 0 <= i < |cols| ==> r[i] == RereadColumn(cols[i])
  {
    seq(|cols|, i requires 0 <= i < |cols| => RereadColumn(cols[i]))
  }

  lemma {:induction false} ColumnsBack(c: Codec, cols: seq<ColumnDef>, rest: seq<Byte>)
    requires CodecOk(c) && forall i :: 0 <= i < |cols| ==> ColumnFits(c, cols[i])
    ensures DecodeColumns(c, |cols|, EncodeColumns(c, cols) + rest) == Some((RereadColumns(cols), rest))
    decreases |cols|
  {
    hide EncodeColumn, DecodeColumn, RereadColumn, ColumnFits;
    if cols == [] {
      assert [] + rest == rest;
    } else {
      var tail := cols[1..];
      ColumnsBack(c, tail, rest);
      var more := EncodeColumns(c, tail) + rest;
      assert EncodeColumns(c, cols) + rest == EncodeColumn(c, cols[0]) + more;
      ColumnBack(c, cols[0], more);
      assert [RereadColumn(cols[0])] + RereadColumns(tail) == RereadColumns(cols);
    }
  }

  function EncodeIndexes(c: Codec, xs: seq<IndexDef>): seq<Byte> {
    if xs == [] then [] else PutStr(c, xs[0].name) + (PutStr(c, xs[0].column) + EncodeIndexes(c, xs[1..]))
  }

  function DecodeIndexes(c: Codec, n: nat, buf: seq<Byte>): Parsed<seq<IndexDef>> {
    if n == 0 then Some(([], buf))
    else
      var name := TakeStr(c, buf);
      if name.None? then None
      else
        var column := TakeStr(c, name.value.1);
        if column.None? then None
        else
          var more := DecodeIndexes(c, n - 1, column.value.1);
          if more.None? then None else Some(([IndexDef(name.value.0, column.value.0)] + more.value.0, more.value.1))
  }

  lemma {:induction false} IndexesBack(c: Codec, xs: seq<IndexDef>, rest: seq<Byte>)
    requires CodecOk(c) && forall i :: 0 <= i < |xs| ==> Short(c, xs[i].name) && Short(c, xs[i].column)
    ensures DecodeIndexes(c, |xs|, EncodeIndexes(c, xs) + rest) == Some((xs, rest))
    decreases |xs|
  {
    hide TakeStr, PutStr, Short;
    if xs == [] {
      assert [] + rest == rest;
    } else {
      IndexesBack(c, xs[1..], rest);
      var r2 := EncodeIndexes(c, xs[1..]) + rest;
      var r1 := PutStr(c, xs[0].column) + r2;
      assert EncodeIndexes(c, xs) + rest == PutStr(c, xs[0].name) + r1;
      StrBack(c, xs[0].name, r1);
      StrBack(c, xs[0].column, r2);
      assert [xs[0]] + xs[1..] == xs;
    }
  }

  function ActionByte(a: FkAction): Byte { match a case Restrict => 0 case Cascade => 1 case SetNull => 2 }

  function TakeAction(buf: seq<Byte>): Parsed<FkAction> {
    if buf == [] then None
    else if buf[0] == 0 then Some((Restrict, buf[1..]))
    else if buf[0] == 1 then Some((Cascade, buf[1..]))
    else if buf[0] == 2 then Some((SetNull, buf[1..]))
    else None
  }

  function EncodeFk(c: Codec, x: FkDef): seq<Byte> {
    PutStr(c, x.name) + (PutStr(c, x.column) + (PutStr(c, x.refTable) + (PutStr(c, x.refColumn) + [ActionByte(x.action)])))
  }

  function DecodeFk(c: Codec, buf: seq<Byte>): Parsed<FkDef> {
    var name := TakeStr(c, buf);
    if name.None? then None
    else
      var column := TakeStr(c, name.value.1);
      if column.None? then None
      else
        var refTable := TakeStr(c, column.value.1);
        if refTable.None? then None
        else
          var refColumn := TakeStr(c, refTable.value.1);
          if refColumn.None? then None
          else
            var action := TakeAction(refColumn.value.1);
            if action.None? then None
            else Some((FkDef(name.value.0, column.value.0, refTable.value.0, refColumn.value.0, action.value.0), action.value.1))
  }

  ghost predicate FkFits(c: Codec, x: FkDef) { Short(c, x.name) && Short(c, x.column) && Short(c, x.refTable) && Short(c, x.refColumn) }

  lemma FkBack(c: Codec, x: FkDef, rest: seq<Byte>)
    requires CodecOk(c) && FkFits(c, x)
    ensures DecodeFk(c, EncodeFk(c, x) + rest) == Some((x, rest))
  {
    hide TakeStr, PutStr, Short;
    var r4 := [ActionByte(x.action)] + rest;
    var r3 := PutStr(c, x.refColumn) + r4;
    var r2 := PutStr(c, x.refTable) + r3;
    var r1 := PutStr(c, x.column) + r2;
    assert EncodeFk(c, x) + rest == PutStr(c, x.name) + r1;
    StrBack(c, x.name, r1);
    StrBack(c, x.column, r2);
    StrBack(c, x.refTable, r3);
    StrBack(c, x.refColumn, r4);
    assert r4[1..] == rest;
  }

  function EncodeFks(c: Codec, xs: seq<FkDef>): seq<Byte> {
    if xs == [] then [] else EncodeFk(c, xs[0]) + EncodeFks(c, xs[1..])
  }

  function DecodeFks(c: Codec, n: nat, buf: seq<Byte>): Parsed<seq<FkDef>> {
    if n == 0 then Some(([], buf))
    else
      var x := DecodeFk(c, buf);
      if x.None? then None
      else
        var more := DecodeFks(c, n - 1, x.value.1);
        if more.None? then None else Some(([x.value.0] + more.value.0, more.value.1))
  }

  lemma {:induction false} FksBack(c: Codec, xs: seq<FkDef>, rest: seq<Byte>)
    requires CodecOk(c) && forall i :: 0 <= i < |xs| ==> FkFits(c, xs[i])
    ensures DecodeFks(c, |xs|, EncodeFks(c, xs) + rest) == Some((xs, rest))
    decreases |xs|
  {
    hide EncodeFk, DecodeFk, FkFits;
    if xs == [] {
      assert [] + rest == rest;
    } else {
      FksBack(c, xs[1..], rest);
      var more := EncodeFks(c, xs[1..]) + rest;
      assert EncodeFks(c, xs) + rest == EncodeFk(c, xs[0]) + more;
      FkBack(c, xs[0], more);
      assert [xs[0]] + xs[1..] == xs;
    }
  }

  function EncodeDef(c: Codec, d: TableDef): seq<Byte> {
    PutStr(c, d.name) + (Le.Encode(|d.columns| % TWO_32, 4) + (Le.Encode(d.pk % TWO_32, 4) + (EncodeColumns(c, d.columns)
    + (Le.Encode(|d.indexes| % TWO_32, 4) + (EncodeIndexes(c, d.indexes)
    + (Le.Encode(|d.fks| % TWO_32, 4) + (EncodeFks(c, d.fks) + [0])))))))
  }

  /** Counted sections; a section that is missing altogether is empty. */
  function DecodeIndexSection(c: Codec, buf: seq<Byte>): Parsed<seq<IndexDef>> {
    if buf == [] then Some(([], buf))
    else
      var n := TakeNum(4, buf);
      if n.None? || n.value.0 > MAX_ITEMS then None else DecodeIndexes(c, n.value.0, n.value.1)
  }

  function DecodeFkSection(c: Codec, buf: seq<Byte>): Parsed<seq<FkDef>> {
    if buf == [] then Some(([], buf))
    else
      var n := TakeNum(4, buf);
      if n.None? || n.value.0 > MAX_ITEMS then None else DecodeFks(c, n.value.0, n.value.1)
  }

  /** Definitions without statistics. */
  function DecodeDef(c: Codec, buf: seq<Byte>): Parsed<TableDef> {
    var name := TakeStr(c, buf);
    if name.None? then None
    else
      var n := TakeNum(4, name.value.1);
      if n.None? || n.value.0 > MAX_ITEMS then None
      else
        var pk := TakeNum(4, n.value.1);
        if pk.None? then None
        else
          var cols := DecodeColumns(c, n.value.0, pk.value.1);
          if cols.None? then None
          else
            var xs := DecodeIndexSection(c, cols.value.1);
            if xs.None? then None
            else
              var fks := DecodeFkSection(c, xs.value.1);
              if fks.None? then None
              else
                var rest := fks.value.1;
                if rest != [] && rest[0] != 0 then None
                else Some((TableDef(name.value.0, pk.value.0, cols.value.0, xs.value.0, fks.value.0), if rest == [] then rest else rest[1..]))
  }

  ghost predicate DefFits(c: Codec, d: TableDef) {
    && Short(c, d.name) && d.pk < TWO_32 && |d.columns| <= MAX_ITEMS && |d.indexes| <= MAX_ITEMS && |d.fks| <= MAX_ITEMS
    && (forall i :: 0 <= i < |d.columns| ==> ColumnFits(c, d.columns[i]))
    && (forall i :: 0 <= i < |d.indexes| ==> Short(c, d.indexes[i].name) && Short(c, d.indexes[i].column))
    && (forall i :: 0 <= i < |d.fks| ==> FkFits(c, d.fks[i]))
  }

  function RereadDef(d: TableDef): TableDef { d.(columns := RereadColumns(d.columns)) }

  predicate Ambiguous(t: ColumnType) { t.TBool? || t.TDateTime? || t.TTimestamp? }

  lemma Count(n: nat)
    requires n < TWO_32
    ensures n < Le.Pow256(4) && n % TWO_32 == n
  {
    Le.Powers();
  }

  lemma IndexSectionBack(c: Codec, xs: seq<IndexDef>, rest: seq<Byte>)
    requires CodecOk(c) && |xs| <= MAX_ITEMS && forall i :: 0 <= i < |xs| ==> Short(c, xs[i].name) && Short(c, xs[i].column)
    ensures DecodeIndexSection(c, Le.Encode(|xs| % TWO_32, 4) + (EncodeIndexes(c, xs) + rest)) == Some((xs, rest))
  {
    hide TakeNum, DecodeIndexes, EncodeIndexes, Le.Pow256, Le.Encode, Short, CodecOk;
    Count(|xs|);
    NumBack(|xs|, 4, EncodeIndexes(c, xs) + rest);
    IndexesBack(c, xs, rest);
  }

  lemma FkSectionBack(c: Codec, xs: seq<FkDef>, rest: seq<Byte>)
    requires CodecOk(c) && |xs| <= MAX_ITEMS && forall i :: 0 <= i < |xs| ==> FkFits(c, xs[i])
    ensures DecodeFkSection(c, Le.Encode(|xs| % TWO_32, 4) + (EncodeFks(c, xs) + rest)) == Some((xs, rest))
  {
    hide TakeNum, DecodeFks, EncodeFks, Le.Pow256, Le.Encode, FkFits, CodecOk;
    Count(|xs|);
    NumBack(|xs|, 4, EncodeFks(c, xs) + rest);
    FksBack(c, xs, rest);
  }

  /** A definition comes back with every column's type as its first letter reads. */
  lemma DefBack(c: Codec, d: TableDef, rest: seq<Byte>)
    requires CodecOk(c) && DefFits(c, d)
    ensures DecodeDef(c, EncodeDef(c, d) + rest) == Some((RereadDef(d), rest))
  {
    hide EncodeDef, EncodeFks, EncodeIndexes, EncodeColumns, DecodeColumns, DecodeIndexSection, DecodeFkSection, TakeStr;
    hide PutStr, TakeNum, Le.Encode, Le.Pow256, CodecOk, Short, ColumnFits, FkFits;
    var r7 := [0] + rest;
    var r6 := EncodeFks(c, d.fks) + r7;
    var r5 := Le.Encode(|d.fks| % TWO_32, 4) + r6;
    var r4 := Le.Encode(|d.indexes| % TWO_32, 4) + (EncodeIndexes(c, d.indexes) + r5);
    var r3 := EncodeColumns(c, d.columns) + r4;
    var r2 := Le.Encode(d.pk % TWO_32, 4) + r3;
    var r1 := Le.Encode(|d.columns| % TWO_32, 4) + r2;
    DefLayout(c, d, rest);
    Count(|d.columns|);
    Count(d.pk);
    StrBack(c, d.name, r1);
    NumBack(|d.columns|, 4, r2);
    NumBack(d.pk, 4, r3);
    ColumnsBack(c, d.columns, r4);
    IndexSectionBack(c, d.indexes, r5);
    FkSectionBack(c, d.fks, r7);
    assert r7[1..] == rest;
  }

  lemma DefLayout(c: Codec, d: TableDef, rest: seq<Byte>)
    ensures EncodeDef(c, d) + rest == PutStr(c, d.name) + (Le.Encode(|d.columns| % TWO_32, 4) + (Le.Encode(d.pk % TWO_32, 4) + (EncodeColumns(c, d.columns)
              + (Le.Encode(|d.indexes| % TWO_32, 4) + (EncodeIndexes(c, d.indexes)
              + (Le.Encode(|d.fks| % TWO_32, 4) + (EncodeFks(c, d.fks) + ([0] + rest))))))))
  {
    hide EncodeFks, EncodeIndexes, EncodeColumns, PutStr, Le.Encode;
    var e7: seq<Byte> := [0];
    var e6 := EncodeFks(c, d.fks);
    var e5 := Le.Encode(|d.fks| % TWO_32, 4);
    var e4 := EncodeIndexes(c, d.indexes);
    var e3 := Le.Encode(|d.indexes| % TWO_32, 4);
    var e2 := EncodeColumns(c, d.columns);
    var e1 := Le.Encode(d.pk % TWO_32, 4);
    var e0 := Le.Encode(|d.columns| % TWO_32, 4);
    Assoc(e6, e7, rest);
    Assoc(e5, e6 + e7, rest);
    Assoc(e4, e5 + (e6 + e7), rest);
    Assoc(e3, e4 + (e5 + (e6 + e7)), rest);
    Assoc(e2, e3 + (e4 + (e5 + (e6 + e7))), rest);
    Assoc(e1, e2 + (e3 + (e4 + (e5 + (e6 + e7)))), rest);
    Assoc(e0, e1 + (e2 + (e3 + (e4 + (e5 + (e6 + e7))))), rest);
    Assoc(PutStr(c, d.name), e0 + (e1 + (e2 + (e3 + (e4 + (e5 + (e6 + e7)))))), rest);
  }

  lemma Assoc(a: seq<Byte>, b: seq<Byte>, x: seq<Byte>)
    ensures (a + b) + x == a + (b + x)
  {
  }

  lemma RereadSame(col: ColumnDef)
    ensures RereadColumn(col) == col <==> !Ambiguous(col.ctype)
  {
  }

  /** Definitions round-trip exactly when no column is BOOL, DATETIME or TIMESTAMP. */
  lemma DefRoundTrip(c: Codec, d: TableDef)
    requires CodecOk(c) && DefFits(c, d)
    ensures DecodeDef(c, EncodeDef(c, d)) == Some((d, [])) <==> forall i :: 0 <= i < |d.columns| ==> !Ambiguous(d.columns[i].ctype)
  {
    DefBack(c, d, []);
    assert EncodeDef(c, d) + [] == EncodeDef(c, d);
    hide DecodeDef, EncodeDef, RereadColumn, Ambiguous, DefFits;
    forall i | 0 <= i < |d.columns| ensures RereadColumn(d.columns[i]) == d.columns[i] <==> !Ambiguous(d.columns[i].ctype) {
      RereadSame(d.columns[i]);
    }
    if forall i :: 0 <= i < |d.columns| ==> !Ambiguous(d.columns[i].ctype) {
      assert RereadColumns(d.columns) == d.columns;
    } else {
      var i :| 0 <= i < |d.columns| && Ambiguous(d.columns[i].ctype);
      assert RereadColumns(d.columns)[i] != d.columns[i];
    }
  }

  /** A table with a column of each type that shares its first letter. */
  function LettersDef(): TableDef {
    TableDef("t", 0,
             [ColumnDef("k", TInt, false, false, None), ColumnDef("b", TBool, true, false, None),
              ColumnDef("d", TDateTime, true, false, None), ColumnDef("s", TTimestamp, true, false, None)], [], [])
  }

  function LettersReread(): TableDef {
    LettersDef().(columns :=
      [ColumnDef("k", TInt, false, false, None), ColumnDef("b", TBigInt, true, false, None),
       ColumnDef("d", TDouble, true, false, None), ColumnDef("s", TText, true, false, None)])
  }

  /** BOOL, DATETIME and TIMESTAMP come back as BIGINT, DOUBLE and TEXT. */
  lemma LettersExample(c: Codec)
    requires CodecOk(c) && DefFits(c, LettersDef())
    ensures DecodeDef(c, EncodeDef(c, LettersDef())) == Some((LettersReread(), [])) && LettersReread() != LettersDef()
  {
    LettersReadBack();
    hide EncodeDef, DecodeDef, DefFits, LettersDef, LettersReread, RereadDef;
    DefBack(c, LettersDef(), []);
    assert EncodeDef(c, LettersDef()) + [] == EncodeDef(c, LettersDef());
  }

  lemma LettersReadBack()
    ensures RereadDef(LettersDef()) == LettersReread() && LettersReread() != LettersDef()
  {
    var cols := LettersDef().columns;
    assert RereadColumns(cols) ==
           [RereadColumn(cols[0]), RereadColumn(cols[1]), RereadColumn(cols[2]), RereadColumn(cols[3])];
    assert LettersReread().columns[1] != cols[1];
  }

  // ---------------------------------------------------------------------
  // Records
  // ---------------------------------------------------------------------

  function Kind(r: Record): Byte {
    match r
    case Put(_, _, _, _) => 1
    case Delete(_, _, _) => 2
    case Commit(_, _) => 3
    case CreateTable(_, _) => 4
    case DropTable(_, _) => 5
    case CreateIndex(_, _, _, _) => 6
    case DropIndex(_, _, _) => 7
    case CreateDatabase(_, _) => 8
    case DropDatabase(_, _) => 9
  }

  function EncodeBody(c: Codec, r: Record): seq<Byte> {
    match r
    case Put(_, table, key, row) => PutStr(c, table) + (PutBytes(key) + PutBytes(row))
    case Delete(_, table, key) => PutStr(c, table) + PutBytes(key)
    case Commit(_, ts) => if ts.Some? then Le.Encode(ts.value, 8) else []
    case CreateTable(_, def) => EncodeDef(c, def)
    case DropTable(_, name) => PutStr(c, name)
    case CreateIndex(_, table, name, column) => PutStr(c, table) + (PutStr(c, name) + PutStr(c, column))
    case DropIndex(_, table, name) => PutStr(c, table) + PutStr(c, name)
    case CreateDatabase(_, name) => PutStr(c, name)
    case DropDatabase(_, name) => PutStr(c, name)
  }

  function EncodePayload(c: Codec, r: Record): seq<Byte> { [Kind(r)] + (Le.Encode(r.txn, 8) + EncodeBody(c, r)) }

  function DecodePut(c: Codec, txn: nat, buf: seq<Byte>): Option<Record> {
    var table := TakeStr(c, buf);
    if table.None? then None
    else
      var key := TakeBytes(table.value.1);
      if key.None? then None
      else
        var row := TakeBytes(key.value.1);
        if row.None? then None else Some(Put(txn, table.value.0, key.value.0, row.value.0))
  }

  function DecodeDelete(c: Codec, txn: nat, buf: seq<Byte>): Option<Record> {
    var table := TakeStr(c, buf);
    if table.None? then None
    else
      var key := TakeBytes(table.value.1);
      if key.None? then None else Some(Delete(txn, table.value.0, key.value.0))
  }

  /** A commit carries a timestamp when eight bytes are left. */
  function DecodeCommit(txn: nat, buf: seq<Byte>): Option<Record> {
    if |buf| >= 8 then Some(Commit(txn, Some(Le.Decode(buf[..8])))) else Some(Commit(txn, None))
  }

  function DecodeIndex(c: Codec, txn: nat, buf: seq<Byte>, drop: bool): Option<Record> {
    var table := TakeStr(c, buf);
    if table.None? then None
    else
      var name := TakeStr(c, table.value.1);
      if name.None? then None
      else if drop then Some(DropIndex(txn, table.value.0, name.value.0))
      else
        var column := TakeStr(c, name.value.1);
        if column.None? then None else Some(CreateIndex(txn, table.value.0, name.value.0, column.value.0))
  }

  function DecodeName(c: Codec, txn: nat, buf: seq<Byte>, kind: Byte): Option<Record> {
    var name := TakeStr(c, buf);
    if name.None? then None
    else if kind == 5 then Some(DropTable(txn, name.value.0))
    else if kind == 8 then Some(CreateDatabase(txn, name.value.0))
    else Some(DropDatabase(txn, name.value.0))
  }

  function DecodeBody(c: Codec, kind: Byte, t: nat, body: seq<Byte>): Option<Record> {
    if kind == 1 then DecodePut(c, t, body)
    else if kind == 2 then DecodeDelete(c, t, body)
    else if kind == 3 then DecodeCommit(t, body)
    else if kind == 4 then DecodeCreate(c, t, body)
    else if kind == 6 then DecodeIndex(c, t, body, false)
    else if kind == 7 then DecodeIndex(c, t, body, true)
    else if kind == 5 || kind == 8 || kind == 9 then DecodeName(c, t, body, kind)
    else None
  }

  function DecodeCreate(c: Codec, t: nat, body: seq<Byte>): Option<Record> {
    var def := DecodeDef(c, body);
    if def.None? then None else Some(CreateTable(t, def.value.0))
  }

  function DecodeRecord(c: Codec, buf: seq<Byte>): Option<Record> {
    var kind := TakeByte(buf);
    if kind.None? then None
    else
      var txn := TakeNum(8, kind.value.1);
      if txn.None? then None else DecodeBody(c, kind.value.0, txn.value.0, txn.value.1)
  }

  ghost predicate RecordFits(c: Codec, r: Record) {
    r.txn < TWO_64 &&
    match r
    case Put(_, table, key, row) => Short(c, table) && |key| < TWO_32 && |row| < TWO_32
    case Delete(_, table, key) => Short(c, table) && |key| < TWO_32
    case Commit(_, ts) => ts.Some? ==> ts.value < TWO_64
    case CreateTable(_, def) => DefFits(c, def)
    case DropTable(_, name) => Short(c, name)
    case CreateIndex(_, table, name, column) => Short(c, table) && Short(c, name) && Short(c, column)
    case DropIndex(_, table, name) => Short(c, table) && Short(c, name)
    case CreateDatabase(_, name) => Short(c, name)
    case DropDatabase(_, name) => Short(c, name)
  }

  /** What a record comes back as. */
  function RereadRecord(r: Record): Record { if r.CreateTable? then r.(def := RereadDef(r.def)) else r }

  lemma Alone(a: seq<Byte>)
    ensures a + [] == a
  {
  }

  lemma PutBack(c: Codec, r: Record)
    requires CodecOk(c) && RecordFits(c, r) && (r.Put? || r.Delete?)
    ensures r.Put? ==> DecodePut(c, r.txn, EncodeBody(c, r)) == Some(r)
    ensures r.Delete? ==> DecodeDelete(c, r.txn, EncodeBody(c, r)) == Some(r)
  {
    hide PutStr, TakeStr, PutBytes, TakeBytes, Short;
    if r.Put? {
      StrBack(c, r.table, PutBytes(r.key) + PutBytes(r.row));
      BytesBack(r.key, PutBytes(r.row));
      Alone(PutBytes(r.row));
      BytesBack(r.row, []);
    } else {
      StrBack(c, r.table, PutBytes(r.key));
      Alone(PutBytes(r.key));
      BytesBack(r.key, []);
    }
  }

  lemma NamesBack(c: Codec, r: Record)
    requires CodecOk(c) && RecordFits(c, r)
    ensures r.CreateIndex? ==> DecodeIndex(c, r.txn, EncodeBody(c, r), false) == Some(r)
    ensures r.DropIndex? ==> DecodeIndex(c, r.txn, EncodeBody(c, r), true) == Some(r)
    ensures r.DropTable? || r.CreateDatabase? || r.DropDatabase? ==> DecodeName(c, r.txn, EncodeBody(c, r), Kind(r)) == Some(r)
  {
    hide PutStr, TakeStr, Short, EncodeDef;
    match r
    case CreateIndex(_, table, name, column) =>
      StrBack(c, table, PutStr(c, name) + PutStr(c, column));
      StrBack(c, name, PutStr(c, column));
      Alone(PutStr(c, column));
      StrBack(c, column, []);
    case DropIndex(_, table, name) =>
      StrBack(c, table, PutStr(c, name));
      Alone(PutStr(c, name));
      StrBack(c, name, []);
    case DropTable(_, name) =>
      Alone(PutStr(c, name));
      StrBack(c, name, []);
    case CreateDatabase(_, name) =>
      Alone(PutStr(c, name));
      StrBack(c, name, []);
    case DropDatabase(_, name) =>
      Alone(PutStr(c, name));
      StrBack(c, name, []);
    case _ =>
  }

  lemma CommitBack(c: Codec, r: Record)
    requires r.Commit? && (r.ts.Some? ==> r.ts.value < TWO_64)
    ensures DecodeCommit(r.txn, EncodeBody(c, r)) == Some(r)
  {
    if r.ts.Some? {
      Le.Powers();
      Le.RoundTrip(r.ts.value, 8);
      assert Le.Encode(r.ts.value, 8)[..8] == Le.Encode(r.ts.value, 8);
    }
  }

  lemma BodyBack(c: Codec, r: Record)
    requires CodecOk(c) && RecordFits(c, r)
    ensures DecodeBody(c, Kind(r), r.txn, EncodeBody(c, r)) == Some(RereadRecord(r))
  {
    hide CodecOk, Short, DefFits, RereadDef, DecodePut, DecodeDelete, DecodeIndex, DecodeName, DecodeCommit, DecodeCreate;
    if r.CreateTable? {
      CreateBack(c, r);
    } else if r.Commit? {
      CommitBack(c, r);
    } else if r.Put? || r.Delete? {
      PutBack(c, r);
    } else {
      NamesBack(c, r);
    }
  }

  lemma CreateBack(c: Codec, r: Record)
    requires CodecOk(c) && r.CreateTable? && DefFits(c, r.def)
    ensures DecodeCreate(c, r.txn, EncodeBody(c, r)) == Some(RereadRecord(r))
  {
    hide CodecOk, DefFits, DecodeDef, EncodeDef, RereadDef;
    DefBack(c, r.def, []);
    Alone(EncodeDef(c, r.def));
  }

  lemma RecordBack(c: Codec, r: Record)
    requires CodecOk(c) && RecordFits(c, r)
    ensures DecodeRecord(c, EncodePayload(c, r)) == Some(RereadRecord(r))
  {
    BodyBack(c, r);
    hide Le.Encode, Le.Pow256, TakeNum, EncodeBody, DecodeBody, RereadRecord, CodecOk;
    var buf, body := EncodePayload(c, r), EncodeBody(c, r);
    assert buf[1..] == Le.Encode(r.txn, 8) + body;
    Wide(r.txn);
    NumBack(r.txn, 8, body);
  }

  lemma Wide(n: nat)
    requires n < TWO_64
    ensures n < Le.Pow256(8)
  {
    Le.Powers();
  }

  // ---------------------------------------------------------------------
  // Frames
  // ---------------------------------------------------------------------

  function CrcOf(payload: seq<Byte>): nat { Crc.Number(Crc.Checksum(payload)) }

  function Frame(payload: seq<Byte>): (f: seq<Byte>)
    ensures |f| == 8 + |payload|
  {
    Le.Encode(|payload| % TWO_32, 4) + (Le.Encode(CrcOf(payload), 4) + payload)
  }

  function FrameOf(c: Codec, r: Record): seq<Byte> { Frame(EncodePayload(c, r)) }

  function EncodeRecords(c: Codec, rs: seq<Record>): seq<Byte> {
    if rs == [] then [] else FrameOf(c, rs[0]) + EncodeRecords(c, rs[1..])
  }

  datatype Decoded = Ok(records: seq<Record>, used: nat) | Corrupt

  /** The frame at the front of a byte range. */
  datatype Front = Torn | Bad | Whole(record: Record, size: nat)

  function FrontOf(c: Codec, data: seq<Byte>): (f: Front)
    ensures f.Whole? ==> 8 <= f.size <= |data|
  {
    if |data| < 8 then Torn
    else
      var len := Le.Decode(data[..4]);
      if len > MAX_RECORD then Bad
      else if |data| - 8 < len then Torn
      else if CrcOf(data[8..8 + len]) != Le.Decode(data[4..8]) then Bad
      else
        var r := DecodeRecord(c, data[8..8 + len]);
        if r.None? then Bad else Whole(r.value, 8 + len)
  }

  /** All whole frames from the front, and the bytes they occupy. */
  function Range(c: Codec, data: seq<Byte>): (d: Decoded)
    ensures d.Ok? ==> d.used <= |data|
    decreases |data|
  {
    match FrontOf(c, data)
    case Torn => Ok([], 0)
    case Bad => Corrupt
    case Whole(r, n) => Then(r, n, Range(c, data[n..]))
  }

  function Then(r: Record, n: nat, d: Decoded): Decoded {
    if d.Corrupt? then d else Ok([r] + d.records, n + d.used)
  }

  /** The decoder: moves an offset over the range until it is torn or used up. */
  method DecodeWalRange(c: Codec, data: seq<Byte>) returns (d: Decoded)
    ensures d == Range(c, data)
  {
    hide FrontOf, Range;
    var out: seq<Record>, off := [], 0;
    assert data[0..] == data;
    Nothing(Range(c, data));
    while off < |data|
      invariant 0 <= off <= |data| && Range(c, data) == After(out, off, Range(c, data[off..]))
      decreases |data| - off
    {
      RangeStep(c, data[off..]);
      var f := FrontOf(c, data[off..]);
      match f {
        case Torn => break;
        case Bad => return Corrupt;
        case Whole(r, n) =>
          assert data[off..][n..] == data[off + n..];
          AfterOne(out, off, r, n, Range(c, data[off + n..]));
          out, off := out + [r], off + n;
      }
    }
    if off == |data| {
      RangeStep(c, []);
      FrontShort(c, []);
      assert data[off..] == [];
    }
    assert out + [] == out;
    return Ok(out, off);
  }

  function After(out: seq<Record>, off: nat, d: Decoded): Decoded {
    if d.Corrupt? then d else Ok(out + d.records, off + d.used)
  }

  lemma Nothing(d: Decoded)
    ensures After([], 0, d) == d
  {
  }

  lemma AfterOne(out: seq<Record>, off: nat, r: Record, n: nat, d: Decoded)
    ensures After(out, off, Then(r, n, d)) == After(out + [r], off + n, d)
  {
    if d.Ok? {
      assert out + ([r] + d.records) == out + [r] + d.records;
    }
  }

  lemma RangeStep(c: Codec, data: seq<Byte>)
    ensures FrontOf(c, data).Torn? ==> Range(c, data) == Ok([], 0)
    ensures FrontOf(c, data).Bad? ==> Range(c, data) == Corrupt
    ensures FrontOf(c, data).Whole? ==>
              Range(c, data) == Then(FrontOf(c, data).record, FrontOf(c, data).size, Range(c, data[FrontOf(c, data).size..]))
  {
  }

  lemma FrontShort(c: Codec, data: seq<Byte>)
    requires |data| < 8
    ensures FrontOf(c, data).Torn?
  {
  }

  /** A front frame is the same whatever follows it. */
  lemma FrontStays(c: Codec, data: seq<Byte>, n: nat)
    requires n <= |data|
    ensures FrontOf(c, data[..n]).Whole? ==> FrontOf(c, data) == FrontOf(c, data[..n])
    ensures FrontOf(c, data[..n]).Bad? ==> FrontOf(c, data).Bad?
  {
    if n >= 8 {
      assert data[..n][..4] == data[..4] && data[..n][4..8] == data[4..8];
      var len := Le.Decode(data[..4]);
      if len <= n - 8 {
        assert data[..n][8..8 + len] == data[8..8 + len];
      }
    }
  }

  /** Decoding in chunks equals decoding at once: what a prefix yields, followed by decoding
      the rest from where it stopped, for every byte string and every cut. */
  lemma {:induction false} Resume(c: Codec, data: seq<Byte>, n: nat)
    requires n <= |data|
    ensures Range(c, data[..n]).Ok? ==>
              Range(c, data) == After(Range(c, data[..n]).records, Range(c, data[..n]).used, Range(c, data[Range(c, data[..n]).used..]))
    ensures Range(c, data[..n]).Corrupt? ==> Range(c, data).Corrupt?
    decreases n
  {
    hide FrontOf, Range;
    var part := data[..n];
    var f := FrontOf(c, part);
    RangeStep(c, part);
    RangeStep(c, data);
    FrontStays(c, data, n);
    if f.Torn? {
      Nothing(Range(c, data));
      assert data[0..] == data;
    } else if f.Whole? {
      var rest := data[f.size..];
      assert part[f.size..] == rest[..n - f.size];
      Resume(c, rest, n - f.size);
      var d := Range(c, rest[..n - f.size]);
      if d.Ok? {
        assert rest[d.used..] == data[f.size + d.used..];
        ThenAfter(f.record, f.size, d, Range(c, rest[d.used..]));
      }
    }
  }

  lemma ThenAfter(r: Record, n: nat, d: Decoded, e: Decoded)
    requires d.Ok?
    ensures Then(r, n, After(d.records, d.used, e)) == After(Then(r, n, d).records, Then(r, n, d).used, e)
  {
    if e.Ok? {
      assert [r] + (d.records + e.records) == [r] + d.records + e.records;
    }
  }

  // ---------------------------------------------------------------------
  // Every cut of every encoding
  // ---------------------------------------------------------------------

  ghost predicate Loggable(c: Codec, r: Record) { RecordFits(c, r) && |EncodePayload(c, r)| <= MAX_RECORD }

  lemma FrameFront(c: Codec, r: Record, rest: seq<Byte>)
    requires CodecOk(c) && Loggable(c, r)
    ensures FrontOf(c, FrameOf(c, r) + rest) == Whole(RereadRecord(r), |FrameOf(c, r)|)
  {
    hide Frame, EncodePayload, DecodeRecord, RereadRecord, Le.Decode, CrcOf, RecordFits, CodecOk;
    var p := EncodePayload(c, r);
    RecordBack(c, r);
    FrameParts(p, rest);
    assert |Frame(p)| == 8 + |p|;
  }

  lemma HeadNumbers(p: seq<Byte>)
    requires |p| <= MAX_RECORD
    ensures Le.Decode(Le.Encode(|p| % TWO_32, 4)) == |p| && Le.Decode(Le.Encode(CrcOf(p), 4)) == CrcOf(p)
  {
    hide Crc.Checksum;
    Count(|p|);
    Crc.NumberInjective(Crc.Checksum(p), Crc.Checksum(p));
    hide Crc.Number;
    Count(CrcOf(p));
    hide Le.Encode, Le.Decode, Le.Pow256;
    Le.RoundTrip(|p|, 4);
    Le.RoundTrip(CrcOf(p), 4);
  }

  lemma FrameParts(p: seq<Byte>, rest: seq<Byte>)
    requires |p| <= MAX_RECORD
    ensures var data := Frame(p) + rest;
            Le.Decode(data[..4]) == |p| && Le.Decode(data[4..8]) == CrcOf(p) && data[8..8 + |p|] == p
  {
    HeadNumbers(p);
    hide Le.Encode, Le.Decode, Le.Pow256, CrcOf;
    var data := Frame(p) + rest;
    assert data[..4] == Le.Encode(|p| % TWO_32, 4) && data[4..8] == Le.Encode(CrcOf(p), 4);
  }

  /** A proper prefix of a frame is torn. */
  lemma FrameTorn(c: Codec, r: Record, rest: seq<Byte>, n: nat)
    requires CodecOk(c) && Loggable(c, r) && n < |FrameOf(c, r)|
    ensures FrontOf(c, (FrameOf(c, r) + rest)[..n]).Torn?
  {
    var p := EncodePayload(c, r);
    var data := Frame(p) + rest;
    FrameParts(p, rest);
    hide Frame, Le.Decode, CrcOf, DecodeRecord;
    if n >= 8 {
      assert data[..n][..4] == data[..4];
    }
  }

  /** How many records lie wholly in the first `n` bytes. */
  function Complete(c: Codec, rs: seq<Record>, n: nat): (k: nat)
    ensures k <= |rs|
  {
    if rs == [] || |FrameOf(c, rs[0])| > n then 0
    else 1 + Complete(c, rs[1..], n - |FrameOf(c, rs[0])|)
  }

  function RereadRecords(rs: seq<Record>): (r: seq<Record>)
    ensures |r| == |rs| && forall i :: 0 <= i < |rs| ==> r[i] == RereadRecord(rs[i])
  {
    seq(|rs|, i requires 0 <= i < |rs| => RereadRecord(rs[i]))
  }

  /** For every list of records and every cut of its encoding, the decoder returns exactly the
      records whose frames are complete and the bytes they occupy. */
  lemma {:induction false} CutDecodes(c: Codec, rs: seq<Record>, n: nat)
    requires CodecOk(c) && (forall i :: 0 <= i < |rs| ==> Loggable(c, rs[i])) && n <= |EncodeRecords(c, rs)|
    ensures var k := Complete(c, rs, n);
            Range(c, EncodeRecords(c, rs)[..n]) == Ok(RereadRecords(rs[..k]), |EncodeRecords(c, rs[..k])|)
    decreases |rs|
  {
    hide FrameOf, Range, FrontOf, Loggable, RereadRecord;
    if rs == [] {
      RangeStep(c, []);
      FrontShort(c, []);
    } else if |FrameOf(c, rs[0])| > n {
      CutTorn(c, rs, n);
    } else {
      var f, tail := FrameOf(c, rs[0]), EncodeRecords(c, rs[1..]);
      var m := n - |f|;
      CutDecodes(c, rs[1..], m);
      CutWhole(c, rs[0], tail, m, rs[1..], Complete(c, rs[1..], m));
      CompleteNext(c, rs, n);
      FirstRecords(c, rs, Complete(c, rs[1..], m));
      assert EncodeRecords(c, rs)[..n] == f + tail[..m];
    }
  }

  lemma CutTorn(c: Codec, rs: seq<Record>, n: nat)
    requires CodecOk(c) && rs != [] && Loggable(c, rs[0]) && n < |FrameOf(c, rs[0])| && n <= |EncodeRecords(c, rs)|
    ensures Complete(c, rs, n) == 0 && rs[..0] == []
    ensures Range(c, EncodeRecords(c, rs)[..n]) == Ok([], 0) && RereadRecords([]) == [] && EncodeRecords(c, []) == []
  {
    hide FrontOf, Range, Loggable, FrameOf;
    FrameTorn(c, rs[0], EncodeRecords(c, rs[1..]), n);
    RangeStep(c, EncodeRecords(c, rs)[..n]);
  }

  lemma CutWhole(c: Codec, r: Record, tail: seq<Byte>, m: nat, rs: seq<Record>, k: nat)
    requires CodecOk(c) && Loggable(c, r) && m <= |tail| && k <= |rs|
    requires Range(c, tail[..m]) == Ok(RereadRecords(rs[..k]), |EncodeRecords(c, rs[..k])|)
    ensures Range(c, FrameOf(c, r) + tail[..m]) ==
            Ok([RereadRecord(r)] + RereadRecords(rs[..k]), |FrameOf(c, r)| + |EncodeRecords(c, rs[..k])|)
  {
    hide *;
    FrontThen(c, r, tail[..m]);
    ThenOk(RereadRecord(r), |FrameOf(c, r)|, RereadRecords(rs[..k]), |EncodeRecords(c, rs[..k])|);
  }

  lemma CompleteNext(c: Codec, rs: seq<Record>, n: nat)
    requires rs != [] && |FrameOf(c, rs[0])| <= n
    ensures Complete(c, rs, n) == Complete(c, rs[1..], n - |FrameOf(c, rs[0])|) + 1
  {
    hide FrameOf;
  }

  lemma ThenOk(r: Record, n: nat, rs: seq<Record>, used: nat)
    ensures Then(r, n, Ok(rs, used)) == Ok([r] + rs, n + used)
  {
  }

  lemma FirstRecords(c: Codec, rs: seq<Record>, k: nat)
    requires rs != [] && k < |rs|
    ensures RereadRecords(rs[..k + 1]) == [RereadRecord(rs[0])] + RereadRecords(rs[1..][..k])
    ensures |EncodeRecords(c, rs[..k + 1])| == |FrameOf(c, rs[0])| + |EncodeRecords(c, rs[1..][..k])|
  {
    hide RereadRecord, FrameOf;
    assert rs[..k + 1][1..] == rs[1..][..k] && rs[..k + 1][0] == rs[0];
  }

  /** Decoding a frame and what follows it. */
  lemma FrontThen(c: Codec, r: Record, rest: seq<Byte>)
    requires CodecOk(c) && Loggable(c, r)
    ensures Range(c, FrameOf(c, r) + rest) == Then(RereadRecord(r), |FrameOf(c, r)|, Range(c, rest))
  {
    hide FrontOf, Range, Loggable, RereadRecord, FrameOf, CodecOk;
    var f := FrameOf(c, r);
    FrameFront(c, r, rest);
    RangeStep(c, f + rest);
    assert (f + rest)[|f|..] == rest;
  }
}
