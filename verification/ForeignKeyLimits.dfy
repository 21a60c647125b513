/**
 Where the promise of referential actions ends, exactly: column defaults, index lookups that
 miss a reference, rows an open transaction wrote, and two keys on two columns of one child.
 Each limit is shown by a DELETE that succeeds.
 */
module ForeignKeyLimits {
  import opened Bytes
  import opened Sql
  import opened JoinExec
  import opened WalCodec
  import opened Validation
  import opened ForeignKeys

  // ---------------------------------------------------------------------
  // Where the promise ends, exactly
  // ---------------------------------------------------------------------

  /** The conditions are met by ordinary schemas and data: no SET NULL key, no write of the open
      transaction, and columns that hold values of the kind of the key they reference. */
  lemma PlainIsLawful(db: Db, tables: set<nat>, t: nat, v: Datum)
    requires forall f :: 0 <= f < |db.fks| ==> !db.fks[f].action.SetNull?
    requires db.base == db.committed
    requires forall f, id :: 0 <= f < |db.fks| && db.fks[f].parent == t && id in db.base ==> SameSort(Cell(db.base[id], db.fks[f].col), v)
    ensures Lawful(db, tables, t, v)
  {
    forall g, id | 0 <= g < |db.fks| && db.fks[g].parent == t && id in db.base
      ensures !Overlooked(db, db.fks[g], v, id)
    {
      assert SameSort(Cell(db.base[id], db.fks[g].col), v);
      assert LookupKeys(db, v)[0] == v;
    }
  }

  predicate SameSort(a: Datum, b: Datum) {
    || a.Null? || (a.Int? && b.Int?) || (a.Float? && b.Float?) || (a.Text? && b.Text?) || (a.Bool? && b.Bool?)
    || (a.DateTime? && b.DateTime?)
  }

  /** The exact condition on defaults: a row found to refer to a deleted key through SET NULL
      still refers to it after the statement if and only if the column's DEFAULT does. */
  lemma DanglesIffDefault(db: Db, direct: map<RowId, Datum>, tables: set<nat>, m: Moment, f: nat, p: RowId, id: RowId)
    requires Validated(db) && Outcome(db, direct, direct.Keys, m) && Gone(direct, m.pending, p)
    requires f < |db.fks| && db.fks[f].action.SetNull? && !Blocking(db, db.fks[f]) && db.fks[f].parent == p.0
    requires Closed(db, direct, tables) && OneColumn(db, tables, p.0)
    requires forall g :: 0 <= g < |db.fks| && db.fks[g].child == id.0 ==> !db.fks[g].action.Cascade?
    requires id in Ids(db) && RefersNow(db, map[], db.fks[f], KeyOfDeleted(db, direct, p), id)
    requires !Overlooked(db, db.fks[f], KeyOfDeleted(db, direct, p), id)
    ensures RefersNow(db, m.pending, db.fks[f], KeyOfDeleted(db, direct, p), id) <==>
            Same(db.lib, Refill(db, db.fks[f]), KeyOfDeleted(db, direct, p))
  {
    hide *;
    var v := KeyOfDeleted(db, direct, p);
    DealtWith(db, direct, m, f, p, id);
    var i := Cause(db, direct, direct.Keys, m, id);
    var n := m.trail[i].fk;
    OutcomeJustified(db, direct, direct.Keys, m);
    CausedWithin(db, direct, tables, m.trail, i);
    NullColumnOf(db, direct, tables, m.trail[i], m.pending[id], f);
    NulledCells(db, n, id, m.pending[id].value, n.col);
    SameRefill(db, n, db.fks[f]);
    NowRefers(db, m.pending, db.fks[f], v, id);
  }

  lemma NowRefers(db: Db, pending: Writes, fk: ForeignKey, v: Datum, id: RowId)
    requires id in pending && pending[id].Some? && id.0 == fk.child
    ensures RefersNow(db, pending, fk, v, id) <==> Same(db.lib, Cell(pending[id].value, fk.col), v)
  {
  }

  /** A row that referred to a deleted key and is not overlooked has been acted on. */
  lemma DealtWith(db: Db, direct: map<RowId, Datum>, m: Moment, f: nat, p: RowId, id: RowId)
    requires Outcome(db, direct, direct.Keys, m) && Gone(direct, m.pending, p) && f < |db.fks| && db.fks[f].parent == p.0
    requires id in Ids(db) && RefersNow(db, map[], db.fks[f], KeyOfDeleted(db, direct, p), id)
    requires !Overlooked(db, db.fks[f], KeyOfDeleted(db, direct, p), id)
    ensures id in m.pending && id.0 == db.fks[f].child
  {
    hide Overlooked, KeyOfDeleted, Refers, Actions, Justified, Traced;
    GoneEarlier(db, direct, m, p) by { assert Traced(db, m.pending, m.trail); }
    assert ClearOf(db, m.pending, db.fks[f], KeyOfDeleted(db, direct, p));
    assert Dealt(db, m.pending, db.fks[f], KeyOfDeleted(db, direct, p), id);
  }

  lemma OutcomeJustified(db: Db, direct: map<RowId, Datum>, done: set<RowId>, m: Moment)
    requires Outcome(db, direct, done, m)
    ensures Justified(db, direct, done, m.trail)
  {
  }

  /** The reason for an action. */
  lemma Cause(db: Db, direct: map<RowId, Datum>, done: set<RowId>, m: Moment, id: RowId) returns (i: nat)
    requires Outcome(db, direct, done, m) && id in m.pending
    ensures i < |m.trail| && m.trail[i].row == id && Follows(db, direct, m.trail[i]) && Does(db, m.trail[i], m.pending[id])
  {
    hide Follows, Does, Actions, Clear;
    i :| 0 <= i < |m.trail| && m.trail[i].row == id;
  }

  /** With one column and no CASCADE key, an action through `n` sets the column of `f`. */
  lemma NullColumnOf(db: Db, direct: map<RowId, Datum>, tables: set<nat>, b: Because, w: Option<Row>, f: nat)
    requires Follows(db, direct, b) && Does(db, b, w) && b.parent.0 in tables
    requires f < |db.fks| && db.fks[f].child == b.row.0 && !Blocking(db, db.fks[f]) && OneColumn(db, tables, db.fks[f].parent)
    requires forall g :: 0 <= g < |db.fks| && db.fks[g].child == b.row.0 ==> !db.fks[g].action.Cascade?
    ensures w.Some? && NulledBy(db, b.fk, b.row, w.value) && b.fk.col == db.fks[f].col && b.fk.child == b.row.0
  {
    hide Blocking, Nulled, Refers;
    var k :| 0 <= k < |db.fks| && db.fks[k] == b.fk;
  }

  lemma SameRefill(db: Db, a: ForeignKey, b: ForeignKey)
    requires a.child == b.child && a.col == b.col
    ensures Refill(db, a) == Refill(db, b)
  {
  }

  function IntColumn(nullable: bool, default: Option<Datum>): ColumnDef { ColumnDef("", TInt, nullable, false, default) }

  /** Table 0 has key column 0; table 1 has key column 0 and `p_id INT DEFAULT 1` that
      references table 0 ON DELETE SET NULL. Row (10, 1) refers to key 1, which is deleted. */
  function DefaultDb(lib: Library, format: Int64 -> string): Db {
    Db(lib, format, [ForeignKey(1, 1, 0, 0, SetNull, true)], map[0 := 0, 1 := 0],
       map[0 := [IntColumn(false, None)], 1 := [IntColumn(false, None), IntColumn(true, Some(Int(1)))]],
       map[(0, [1]) := [Int(1)], (1, [10]) := [Int(10), Int(1)]],
       map[(0, [1]) := [Int(1)], (1, [10]) := [Int(10), Int(1)]], map[(0, [1]) := None])
  }

  lemma DefaultDbValid(lib: Library, format: Int64 -> string)
    ensures var db := DefaultDb(lib, format);
            && Validated(db) && !Blocking(db, db.fks[0]) && Refill(db, db.fks[0]) == Int(1)
            && Nulled(db, db.fks[0], [Int(10), Int(1)]).Some?
  {
    var db := DefaultDb(lib, format);
    var row: Row := [Int(10), Int(1)];
    var cols := ColumnsOf(db, 1);
    assert Completed(cols, row) == row;
    CellsStored(lib, cols, row);
    assert StoredCells(lib, cols, row).value == row;
    NullStored(lib, cols, row, 1);
  }

  /** The DELETE succeeds and the surviving row refers to the deleted key. */
  method DefaultExample(lib: Library, format: Int64 -> string) returns (ok: bool, pending: Writes)
    ensures var db := DefaultDb(lib, format);
            ok && (1, [10]) in Ids(db) && RefersNow(db, pending, db.fks[0], Int(1), (1, [10]))
  {
    var db := DefaultDb(lib, format);
    DefaultDbValid(lib, format);
    ghost var trail, log;
    var p, id: RowId := (0, [1]), (1, [10]);
    var direct := map[p := Int(1)];
    assert Done([p], 1) == {p} by { assert [p][0] == p; }
    ok, pending, trail, log := CheckDeleted(db, direct, [p]);
    DefaultDangles(lib, format, direct, Moment(pending, trail), ok);
  }

  lemma DefaultDangles(lib: Library, format: Int64 -> string, direct: map<RowId, Datum>, m: Moment, ok: bool)
    requires direct == map[(0, [1]) := Int(1)]
    requires ok ==> Outcome(DefaultDb(lib, format), direct, direct.Keys, m)
    requires !ok ==> Refused(DefaultDb(lib, format), direct, direct.Keys, m.pending, m.trail)
    ensures ok && RefersNow(DefaultDb(lib, format), m.pending, DefaultDb(lib, format).fks[0], Int(1), (1, [10]))
  {
    var db, p, id := DefaultDb(lib, format), (0, [1]), (1, [10]);
    DefaultDbValid(lib, format);
    hide Validated, Nulled, Refill, Outcome;
    DefaultPasses(lib, format, direct, m);
    DanglesIffDefault(db, direct, {0}, m, 0, p, id);
  }

  lemma DefaultPasses(lib: Library, format: Int64 -> string, direct: map<RowId, Datum>, m: Moment)
    ensures !Refused(DefaultDb(lib, format), direct, direct.Keys, m.pending, m.trail)
  {
    DefaultDbValid(lib, format);
    hide Validated, Nulled, Refill, Refers, Overlooked, Earlier, KeyOfDeleted;
  }

  /** Table 0 has a DATETIME key; column 1 of table 1 is an indexed TEXT that references it.
      Row (10, `s`) refers to key `m`, which is deleted. */
  function MissedDb(lib: Library, format: Int64 -> string, s: string, m: Int64): Db {
    Db(lib, format, [ForeignKey(1, 1, 0, 0, Restrict, true)], map[0 := 0, 1 := 0],
       map[0 := [ColumnDef("", TDateTime, false, false, None)], 1 := [IntColumn(false, None), ColumnDef("", TText, true, false, None)]],
       map[(0, [1]) := [DateTime(m)], (1, [10]) := [Int(10), Text(s)]],
       map[(0, [1]) := [DateTime(m)], (1, [10]) := [Int(10), Text(s)]], map[(0, [1]) := None])
  }

  lemma MissedDbValid(lib: Library, format: Int64 -> string, s: string, m: Int64)
    requires lib.parse(s) == Some(m) && s != format(m)
    ensures var db := MissedDb(lib, format, s, m);
            && Validated(db) && Overlooked(db, db.fks[0], DateTime(m), (1, [10]))
            && RefersNow(db, map[], db.fks[0], DateTime(m), (1, [10]))
  {
    var db := MissedDb(lib, format, s, m);
    var row: Row := [Int(10), Text(s)];
    MissedRowValid(lib, db.columns[1], s);
    hide ValidateRow;
    assert forall id :: Original(db, id).Some? ==> id == (1, [10]);
    assert Original(db, (1, [10])) == Some(row) && Cell(row, 1) == Text(s);
  }

  lemma MissedRowValid(lib: Library, cols: seq<ColumnDef>, s: string)
    requires cols == [IntColumn(false, None), ColumnDef("", TText, true, false, None)]
    ensures ValidateRow(lib, cols, [Int(10), Text(s)]) == Some([Int(10), Text(s)])
  {
    var row: Row := [Int(10), Text(s)];
    assert Completed(cols, row) == row;
    CellsStored(lib, cols, row);
    assert StoredCells(lib, cols, row).value == row;
  }

  /** Any text that parses to a date without being its canonical form is accepted as a
      reference, for the check on INSERT looks the date up, but is missed on DELETE: a
      RESTRICT key lets the parent go. */
  method MissedExample(lib: Library, format: Int64 -> string, s: string, m: Int64) returns (ok: bool, refs: map<RowId, Row>, pending: Writes)
    requires lib.parse(s) == Some(m) && s != format(m)
    ensures var db := MissedDb(lib, format, s, m);
            && DateTime(m) in LookupKeys(db, Text(s)) && refs == map[]
            && ok && RefersNow(db, pending, db.fks[0], DateTime(m), (1, [10]))
  {
    var db := MissedDb(lib, format, s, m);
    MissedDbValid(lib, format, s, m);
    assert LookupKeys(db, Text(s))[1] == DateTime(m);
    hide Validated, Overlooked, LookupKeys;
    ok, refs, pending := DeleteOverlooked(db, DateTime(m));
  }

  /** Two tables with one key between them, of any action, and one row that does not hold the
      key, or is overlooked: the lookup finds nothing and the DELETE of key `v` succeeds without an action. */
  method DeleteOverlooked(db: Db, v: Datum) returns (ok: bool, refs: map<RowId, Row>, pending: Writes)
    requires |db.fks| == 1 && db.fks[0].child == 1 && Validated(db)
    requires db.base.Keys == {(0, [1]), (1, [10])} && db.staged == map[(0, [1]) := None]
    requires RefersNow(db, map[], db.fks[0], v, (1, [10])) ==> Overlooked(db, db.fks[0], v, (1, [10]))
    ensures refs == map[] && ok && pending == map[]
  {
    hide Validated, Overlooked, Refers, Justified, Traced, Refused, Logged, Lawful, Unreferenced, Closed, KeyOfDeleted;
    refs := FindChildRefs(db, map[], db.fks[0], v);
    assert refs.Keys == {};
    ghost var trail, log;
    var p: RowId := (0, [1]);
    var direct := map[p := v];
    assert Done([p], 1) == {p} by { assert [p][0] == p; }
    ok, pending, trail, log := CheckDeleted(db, direct, [p]);
    MissedDangles(db, direct, Moment(pending, trail), ok);
  }

  /** With one key, whatever its action, and one row, which the lookup does not find, a DELETE
      passes and does nothing to the row. */
  lemma MissedDangles(db: Db, direct: map<RowId, Datum>, m: Moment, ok: bool)
    requires |db.fks| == 1 && direct.Keys == {(0, [1])} && db.fks[0].child == 1
    requires db.base.Keys == {(0, [1]), (1, [10])} && db.staged.Keys == {(0, [1])}
    requires RefersNow(db, map[], db.fks[0], direct[(0, [1])], (1, [10])) ==> Overlooked(db, db.fks[0], direct[(0, [1])], (1, [10]))
    requires Justified(db, direct, direct.Keys, m.trail) && Traced(db, m.pending, m.trail)
    requires !ok ==> Refused(db, direct, direct.Keys, m.pending, m.trail)
    ensures ok && m.pending == map[]
  {
    hide Overlooked, Refers, Blocking;
    assert |m.trail| > 0 ==> Follows(db, direct, m.trail[0]);
    assert m.pending.Keys == {};
    if !ok {
      assert false;
    }
  }

  const NewYear: Int64 := 1_704_067_200_000_000

  /** The text '2024-01-01' against the DATETIME key 2024-01-01 00:00:00. */
  method MissedDateExample() returns (db: Db, ok: bool, pending: Writes)
    ensures db.base == map[(0, [1]) := [DateTime(NewYear)], (1, [10]) := [Int(10), Text("2024-01-01")]]
    ensures ok && db.staged == map[(0, [1]) := None] && |db.fks| == 1 && RefersNow(db, pending, db.fks[0], DateTime(NewYear), (1, [10]))
  {
    var canonical := "2024-01-01 00:00:00";
    var short := "2024-01-01";
    assert |canonical| != |short|;
    var lib := Library(s => if s == canonical || s == short then Some(NewYear) else None, (s, t) => false, d => "", (i: Int64) => i as real);
    db := MissedDb(lib, _ => canonical, short, NewYear);
    var refs;
    ok, refs, pending := MissedExample(lib, _ => canonical, short, NewYear);
  }

  // ---------------------------------------------------------------------
  // What the index holds is not what the session sees
  // ---------------------------------------------------------------------

  /** Before any action the row refers through `fk` to the key of the deleted row `p`. */
  predicate RefersTo(db: Db, direct: map<RowId, Datum>, fk: ForeignKey, p: RowId, id: RowId) {
    fk in db.fks && fk.parent == p.0 && RefersNow(db, map[], fk, KeyOfDeleted(db, direct, p), id)
  }

  /** A statement that succeeds leaves a row as it was exactly when every reference of the row
      to a deleted key is overlooked, and then the references stay. */
  lemma UntouchedIff(db: Db, direct: map<RowId, Datum>, m: Moment, id: RowId)
    requires Outcome(db, direct, direct.Keys, m) && id in Ids(db)
    ensures id !in m.pending <==>
            forall fk, p :: Gone(direct, m.pending, p) && RefersTo(db, direct, fk, p, id) ==> Overlooked(db, fk, KeyOfDeleted(db, direct, p), id)
    ensures id !in m.pending ==>
            forall fk, p :: RefersTo(db, direct, fk, p, id) ==> RefersNow(db, m.pending, fk, KeyOfDeleted(db, direct, p), id)
  {
    hide Outcome, Overlooked, KeyOfDeleted, Refers, Gone;
    if id in m.pending {
      var i := Cause(db, direct, direct.Keys, m, id);
      OutcomeJustified(db, direct, direct.Keys, m);
      ParentGone(db, direct, m, i);
      var b := m.trail[i];
      assert RefersTo(db, direct, b.fk, b.parent, id);
    } else {
      forall fk, p | Gone(direct, m.pending, p) && RefersTo(db, direct, fk, p, id)
        ensures Overlooked(db, fk, KeyOfDeleted(db, direct, p), id)
      {
        var f :| 0 <= f < |db.fks| && db.fks[f] == fk;
        if !Overlooked(db, fk, KeyOfDeleted(db, direct, p), id) {
          DealtWith(db, direct, m, f, p, id);
        }
      }
    }
  }

  lemma ParentGone(db: Db, direct: map<RowId, Datum>, m: Moment, i: nat)
    requires Outcome(db, direct, direct.Keys, m) && i < |m.trail|
    ensures Gone(direct, m.pending, m.trail[i].parent)
  {
    hide Clear, Actions, Follows, NulledBy;
    var p := m.trail[i].parent;
    assert Earlier(direct.Keys, m.trail, i, p);
    if p !in direct {
      var j :| 0 <= j < i && m.trail[j].row == p && m.trail[j].fk.action.Cascade?;
      CascadeDeletes(db, m.pending, m.trail[j]);
    }
  }

  /** What an action does to a row, in terms of its cells: the row is deleted for a CASCADE key,
      or, for a SET NULL key on a nullable column, keeps every cell but that of the column, which
      becomes NULL, or what the column stores of its DEFAULT. The row referred through that key
      to a deleted one. A RESTRICT key takes no action. */
  lemma ActionIs(db: Db, direct: map<RowId, Datum>, m: Moment, id: RowId) returns (fk: ForeignKey, p: RowId)
    requires Validated(db) && Outcome(db, direct, direct.Keys, m) && id in m.pending
    ensures fk in db.fks && fk.child == id.0 && Gone(direct, m.pending, p) && RefersTo(db, direct, fk, p, id)
    ensures m.pending[id].None? ==> fk.action == Cascade
    ensures m.pending[id].Some? ==>
              fk.action == SetNull && Original(db, id).Some? && SetsNull(db, fk, Original(db, id).value, m.pending[id].value)
  {
    hide Outcome, Overlooked, KeyOfDeleted, Refers, Gone, NulledBy, Validated, SetsNull, Blocking;
    var i := Cause(db, direct, direct.Keys, m, id);
    ParentGone(db, direct, m, i);
    fk, p := m.trail[i].fk, m.trail[i].parent;
    if m.pending[id].Some? {
      NulledIs(db, fk, id, m.pending[id].value);
    }
  }

  /** The column of `fk`, which is nullable, becomes NULL or what it stores of its DEFAULT; no
      other cell changes. */
  ghost predicate SetsNull(db: Db, fk: ForeignKey, before: Row, after: Row) {
    && fk.col < |ColumnsOf(db, fk.child)| == |before| == |after| && ColumnsOf(db, fk.child)[fk.col].nullable
    && (forall c: nat :: c < |before| && c != fk.col ==> after[c] == before[c])
    && match ColumnsOf(db, fk.child)[fk.col].default
       case None => after[fk.col] == Null
       case Some(d) => if d.Null? then after[fk.col] == Null else Some(after[fk.col]) == StoredAs(db.lib, ColumnsOf(db, fk.child)[fk.col], d)
  }

  lemma NulledIs(db: Db, fk: ForeignKey, id: RowId, row: Row)
    requires Validated(db) && NulledBy(db, fk, id, row)
    ensures fk.action == SetNull && Original(db, id).Some? && SetsNull(db, fk, Original(db, id).value, row)
  {
    NullStored(db.lib, ColumnsOf(db, id.0), Original(db, id).value, fk.col);
    hide ValidateRow, Coerced, Accepts, Validated;
  }

  /** A DELETE that succeeds has found no row that refers to a deleted key only through keys
      that restrict. */
  lemma RestrictHolds(db: Db, direct: map<RowId, Datum>, m: Moment, id: RowId)
    requires Validated(db) && Outcome(db, direct, direct.Keys, m) && id in Ids(db)
    requires forall fk, p :: Gone(direct, m.pending, p) && RefersTo(db, direct, fk, p, id) ==> fk.action == Restrict
    ensures forall fk, p :: Gone(direct, m.pending, p) && RefersTo(db, direct, fk, p, id) ==> Overlooked(db, fk, KeyOfDeleted(db, direct, p), id)
  {
    hide *;
    if id in m.pending {
      var fk, p := ActionIs(db, direct, m, id);
      assert false;
    }
    UntouchedIff(db, direct, m, id);
  }

  /** Table 0 has key column 0; column 1 of table 1 references it and is indexed. The session
      sees row (10, 1), which its open transaction wrote; the table holds no such row, or one
      that still has `before` in that column. Key 1 is deleted. */
  function OpenDb(lib: Library, format: Int64 -> string, action: FkAction, before: Option<Datum>): Db {
    Db(lib, format, [ForeignKey(1, 1, 0, 0, action, true)], map[0 := 0, 1 := 0],
       map[0 := [IntColumn(false, None)], 1 := [IntColumn(false, None), IntColumn(true, None)]],
       if before.None? then map[(0, [1]) := [Int(1)]] else map[(0, [1]) := [Int(1)], (1, [10]) := [Int(10), before.value]],
       map[(0, [1]) := [Int(1)], (1, [10]) := [Int(10), Int(1)]], map[(0, [1]) := None])
  }

  lemma OpenDbValid(lib: Library, format: Int64 -> string, action: FkAction, before: Option<Datum>)
    requires before.Some? ==> before.value != Int(1) && before.value != Float(lib.toFloat(1))
    ensures var db := OpenDb(lib, format, action, before);
            && Validated(db) && Overlooked(db, db.fks[0], Int(1), (1, [10])) && !Missed(db, Int(1), Int(1))
            && RefersNow(db, map[], db.fks[0], Int(1), (1, [10]))
  {
    var db := OpenDb(lib, format, action, before);
    var row: Row := [Int(10), Int(1)];
    OpenRowValid(lib, db.columns[1]);
    hide ValidateRow;
    assert Original(db, (1, [10])) == Some(row) && forall id :: Original(db, id).Some? ==> id == (1, [10]);
    assert Cell(row, 1) == Int(1);
    OpenNotListed(lib, format, action, before);
    hide Listed, LookupKeys;
  }

  lemma OpenRowValid(lib: Library, cols: seq<ColumnDef>)
    requires cols == [IntColumn(false, None), IntColumn(true, None)]
    ensures ValidateRow(lib, cols, [Int(10), Int(1)]) == Some([Int(10), Int(1)])
  {
    var row: Row := [Int(10), Int(1)];
    assert Completed(cols, row) == row;
    CellsStored(lib, cols, row);
    assert StoredCells(lib, cols, row).value == row;
  }

  lemma OpenNotListed(lib: Library, format: Int64 -> string, action: FkAction, before: Option<Datum>)
    requires before.Some? ==> before.value != Int(1) && before.value != Float(lib.toFloat(1))
    ensures var db := OpenDb(lib, format, action, before); !Listed(db, db.fks[0], Int(1), (1, [10]))
  {
  }

  /** An INSERT or UPDATE earlier in the transaction made the reference: the lookup finds
      nothing, and whatever the action of the key the DELETE succeeds and the row dangles. */
  method OpenTransactionExample(lib: Library, format: Int64 -> string, action: FkAction, before: Option<Datum>)
      returns (ok: bool, refs: map<RowId, Row>, pending: Writes)
    requires before.Some? ==> before.value != Int(1) && before.value != Float(lib.toFloat(1))
    ensures var db := OpenDb(lib, format, action, before);
            && refs == map[] && ok && pending == map[] && RefersNow(db, pending, db.fks[0], Int(1), (1, [10]))
  {
    var db := OpenDb(lib, format, action, before);
    OpenDbValid(lib, format, action, before);
    hide Validated, Overlooked;
    ok, refs, pending := DeleteOverlooked(db, Int(1));
  }

  // ---------------------------------------------------------------------
  // A key that references another column
  // ---------------------------------------------------------------------

  /** Column 1 of table 1 references column 1 of table 0, whose key is column 0. Row
      (`key`, `code`) of table 0 is deleted; row (10, `code`) refers to it. */
  function CodeDb(lib: Library, format: Int64 -> string, action: FkAction, key: Int64, code: Int64): Db {
    var rows := map[(0, [1]) := [Int(key), Int(code)], (1, [10]) := [Int(10), Int(code)]];
    Db(lib, format, [ForeignKey(1, 1, 0, 1, action, true)], map[0 := 0, 1 := 0],
       map[0 := [IntColumn(false, None), IntColumn(true, None)], 1 := [IntColumn(false, None), IntColumn(true, None)]],
       rows, rows, map[(0, [1]) := None])
  }

  lemma CodeRowValid(lib: Library, cols: seq<ColumnDef>, code: Int64)
    requires cols == [IntColumn(false, None), IntColumn(true, None)]
    ensures ValidateRow(lib, cols, [Int(10), Int(code)]) == Some([Int(10), Int(code)])
  {
    var row: Row := [Int(10), Int(code)];
    assert Completed(cols, row) == row;
    CellsStored(lib, cols, row);
    assert StoredCells(lib, cols, row).value == row;
  }

  /** Whenever the referenced value is not the key, the DELETE succeeds without an action and
      the row refers to a value that is gone. */
  method OtherColumnExample(lib: Library, format: Int64 -> string, action: FkAction, key: Int64, code: Int64)
      returns (ok: bool, pending: Writes)
    requires key != code
    ensures var db := CodeDb(lib, format, action, key, code);
            && ok && pending == map[] && Referenced(db, db.fks[0], (0, [1])) == Int(code)
            && RefersNow(db, pending, db.fks[0], Referenced(db, db.fks[0], (0, [1])), (1, [10]))
  {
    var db := CodeDb(lib, format, action, key, code);
    CodeRowValid(lib, db.columns[1], code);
    hide ValidateRow;
    assert forall id :: Original(db, id).Some? ==> id == (1, [10]);
    assert Original(db, (1, [10])) == Some([Int(10), Int(code)]);
    assert Validated(db);
    hide Validated, Overlooked;
    var refs;
    ok, refs, pending := DeleteOverlooked(db, Int(key));
  }

  // ---------------------------------------------------------------------
  // Two keys on two columns
  // ---------------------------------------------------------------------

  function PkIn(pks: map<nat, nat>, t: nat): nat { if t in pks then pks[t] else 0 }

  predicate Parallel(a: ForeignKey, b: ForeignKey) { a.child == b.child && a.col == b.col && a.parent == b.parent }

  /** The schema breaks `OneColumn`: `f` sets a column to NULL and `g` acts on a row through
      another. Neither can be the reference of a key column to itself, and no key over the
      same reference refuses, or acts on a row before `f` sets it to NULL. */
  ghost predicate TwoColumns(fks: seq<ForeignKey>, pks: map<nat, nat>, f: ForeignKey, g: ForeignKey) {
    && f in fks && g in fks && f.child == g.child && f.col != g.col && f.col != PkIn(pks, f.child)
    && !(g.child == g.parent && g.col == PkIn(pks, g.child))
    && (forall h :: h in fks && Parallel(h, f) ==> h.action.SetNull?)
    && (forall h :: h in fks && Parallel(h, g) ==> !h.action.Restrict? && (h.action.SetNull? ==> g.col != PkIn(pks, g.child)))
  }

  function Widest(fks: seq<ForeignKey>): nat { if fks == [] then 0 else Widest(fks[1..]) + fks[0].col + 1 }

  lemma {:induction false} WidestBound(fks: seq<ForeignKey>, f: ForeignKey)
    requires f in fks
    ensures f.col < Widest(fks)
  {
    if f != fks[0] {
      WidestBound(fks[1..], f);
    }
  }

  function Width2(fks: seq<ForeignKey>, pks: map<nat, nat>, t: nat): nat { Widest(fks) + PkIn(pks, t) + 1 }

  /** INT columns, nullable but for the key, without defaults. */
  function IntColumns(fks: seq<ForeignKey>, pks: map<nat, nat>, t: nat): seq<ColumnDef> {
    seq(Width2(fks, pks, t), c => IntColumn(c != PkIn(pks, t), None))
  }

  function ChildRow(fks: seq<ForeignKey>, pks: map<nat, nat>, f: ForeignKey, g: ForeignKey): Row {
    seq(Width2(fks, pks, f.child), c =>
      if c == f.col then Int(1) else if c == g.col then Int(2) else if c == PkIn(pks, f.child) then Int(3) else Null)
  }

  function ParentRow(fks: seq<ForeignKey>, pks: map<nat, nat>, t: nat, key: Datum): Row {
    seq(Width2(fks, pks, t), c => if c == PkIn(pks, t) then key else Null)
  }

  /** Key 1 of one parent and key 2 of the other, and a row that refers to both. */
  function TwoKeyDb(lib: Library, format: Int64 -> string, fks: seq<ForeignKey>, pks: map<nat, nat>, f: ForeignKey, g: ForeignKey): Db {
    var rows := map[(f.parent, [1]) := ParentRow(fks, pks, f.parent, Int(1)), (g.parent, [2]) := ParentRow(fks, pks, g.parent, Int(2)),
                    (f.child, [3]) := ChildRow(fks, pks, f, g)];
    Db(lib, format, fks, pks,
       map t | t in (set h | h in fks :: h.child) + (set h | h in fks :: h.parent) :: IntColumns(fks, pks, t),
       rows, rows, map[(f.parent, [1]) := None, (g.parent, [2]) := None])
  }

  lemma TwoKeyCells(lib: Library, format: Int64 -> string, fks: seq<ForeignKey>, pks: map<nat, nat>, f: ForeignKey, g: ForeignKey, c: nat)
    requires TwoColumns(fks, pks, f, g)
    ensures var db, row := TwoKeyDb(lib, format, fks, pks, f, g), ChildRow(fks, pks, f, g);
            && Original(db, (f.child, [3])) == Some(row)
            && (forall x :: Original(db, x).Some? ==> x == (f.child, [3]))
            && f.col < |row| && g.col < |row|
            && Cell(row, c) == if c == f.col then Int(1) else if c == g.col then Int(2) else if c == PkIn(pks, f.child) then Int(3) else Null
  {
    WidestBound(fks, f);
    WidestBound(fks, g);
    hide Widest;
    assert [1] != [2] && [1] != [3] && [2] != [3] by { assert [1][0] == 1 && [2][0] == 2 && [3][0] == 3; }
  }

  lemma TwoKeyValid(lib: Library, format: Int64 -> string, fks: seq<ForeignKey>, pks: map<nat, nat>, f: ForeignKey, g: ForeignKey)
    requires TwoColumns(fks, pks, f, g)
    ensures Validated(TwoKeyDb(lib, format, fks, pks, f, g))
    ensures ColumnsOf(TwoKeyDb(lib, format, fks, pks, f, g), f.child) == IntColumns(fks, pks, f.child)
  {
    var db, row := TwoKeyDb(lib, format, fks, pks, f, g), ChildRow(fks, pks, f, g);
    var cols := IntColumns(fks, pks, f.child);
    TwoKeyCells(lib, format, fks, pks, f, g, 0);
    assert Completed(cols, row) == row;
    forall i | 0 <= i < |row| ensures StoredAs(lib, cols[i], row[i]) == Some(row[i]) {
      TwoKeyCells(lib, format, fks, pks, f, g, i);
      assert cols[i] == IntColumn(i != PkIn(pks, f.child), None);
      assert Cell(row, i) == row[i];
    }
    CellsStored(lib, cols, row);
    assert StoredCells(lib, cols, row).value == row;
  }

  /** Setting a column other than the key to NULL just does that. */
  lemma TwoKeyNull(lib: Library, format: Int64 -> string, fks: seq<ForeignKey>, pks: map<nat, nat>, f: ForeignKey, g: ForeignKey, h: ForeignKey)
    requires TwoColumns(fks, pks, f, g) && h in fks && h.child == f.child && h.col != PkIn(pks, f.child)
    ensures var db := TwoKeyDb(lib, format, fks, pks, f, g);
            && h.col < |ChildRow(fks, pks, f, g)| && Nullable(db, h) && Nulled(db, h, ChildRow(fks, pks, f, g)).Some?
  {
    var db, row := TwoKeyDb(lib, format, fks, pks, f, g), ChildRow(fks, pks, f, g);
    TwoKeyValid(lib, format, fks, pks, f, g);
    TwoKeyCells(lib, format, fks, pks, f, g, 0);
    WidestBound(fks, h);
    assert Original(db, (f.child, [3])) == Some(row);
    assert IntColumns(fks, pks, f.child)[h.col] == IntColumn(true, None);
    NullStored(lib, IntColumns(fks, pks, f.child), row, h.col);
  }

  /** The row refers through a key to 1 or 2 only by the two columns. */
  lemma TwoKeyRefers(lib: Library, format: Int64 -> string, fks: seq<ForeignKey>, pks: map<nat, nat>, f: ForeignKey, g: ForeignKey, h: ForeignKey)
    requires TwoColumns(fks, pks, f, g)
    ensures var db, row := TwoKeyDb(lib, format, fks, pks, f, g), ChildRow(fks, pks, f, g);
            && (Refers(db, h, row, Int(1)) <==> h.col == f.col) && (Refers(db, h, row, Int(2)) <==> h.col == g.col)
  {
    TwoKeyCells(lib, format, fks, pks, f, g, h.col);
    hide ChildRow, TwoKeyDb, Cell;
  }

  /** What the deletes of key 1 and then key 2 come to: they succeed, and the row, set to NULL
      for key 1 and not visited again, refers to key 2. */
  lemma TwoKeyDangles(lib: Library, format: Int64 -> string, fks: seq<ForeignKey>, pks: map<nat, nat>, f: ForeignKey, g: ForeignKey,
                      direct: map<RowId, Datum>, first: Moment, pending: Writes)
    requires TwoColumns(fks, pks, f, g) && direct == map[(f.parent, [1]) := Int(1), (g.parent, [2]) := Int(2)]
    requires var db := TwoKeyDb(lib, format, fks, pks, f, g);
             Outcome(db, direct, {(f.parent, [1])}, first) && Extends(first.pending, pending)
    ensures RefersNow(TwoKeyDb(lib, format, fks, pks, f, g), pending, g, Int(2), (f.child, [3]))
  {
    var db, row := TwoKeyDb(lib, format, fks, pks, f, g), ChildRow(fks, pks, f, g);
    var p, id := (f.parent, [1]), (f.child, [3]);
    hide Outcome, TwoKeyDb, ChildRow, TwoColumns, Validated, Refers, Nulled;
    TwoKeyActed(lib, format, fks, pks, f, g, direct, first);
    var n := first.trail[0].fk;
    TwoKeyValid(lib, format, fks, pks, f, g);
    TwoKeyCells(lib, format, fks, pks, f, g, g.col);
    NulledCells(db, n, id, first.pending[id].value, g.col);
    assert pending[id] == first.pending[id];
    SameCell(db, g, first.pending[id].value, row, Int(2));
    TwoKeyRefers(lib, format, fks, pks, f, g, g);
  }

  lemma SameCell(db: Db, g: ForeignKey, a: Row, b: Row, v: Datum)
    requires Cell(a, g.col) == Cell(b, g.col)
    ensures Refers(db, g, a, v) <==> Refers(db, g, b, v)
  {
  }

  /** The delete of key 1 sets the row to NULL through the column of `f`. */
  lemma TwoKeyActed(lib: Library, format: Int64 -> string, fks: seq<ForeignKey>, pks: map<nat, nat>, f: ForeignKey, g: ForeignKey,
                    direct: map<RowId, Datum>, first: Moment)
    requires TwoColumns(fks, pks, f, g) && direct == map[(f.parent, [1]) := Int(1), (g.parent, [2]) := Int(2)]
    requires Outcome(TwoKeyDb(lib, format, fks, pks, f, g), direct, {(f.parent, [1])}, first)
    ensures var id := (f.child, [3]);
            && id in first.pending && first.pending[id].Some? && |first.trail| > 0 && first.trail[0].fk.col == f.col
            && NulledBy(TwoKeyDb(lib, format, fks, pks, f, g), first.trail[0].fk, id, first.pending[id].value)
  {
    var db, row := TwoKeyDb(lib, format, fks, pks, f, g), ChildRow(fks, pks, f, g);
    var p, id := (f.parent, [1]), (f.child, [3]);
    TwoKeyCells(lib, format, fks, pks, f, g, 0);
    assert db.fks == fks && id in Ids(db);
    hide TwoKeyDb, ChildRow, Refers, Nulled, NulledBy, Overlooked, Blocking;
    var k :| 0 <= k < |fks| && fks[k] == f;
    TwoKeySeen(lib, format, fks, pks, f, g, f);
    TwoKeyRefers(lib, format, fks, pks, f, g, f);
    OutcomeDeals(db, direct, {p}, first, k, p, id, Int(1));
    var b := first.trail[0];
    FirstCause(db, direct, p, first, id);
    TwoKeyRefers(lib, format, fks, pks, f, g, b.fk);
    assert Parallel(b.fk, f);
  }

  lemma TwoKeySeen(lib: Library, format: Int64 -> string, fks: seq<ForeignKey>, pks: map<nat, nat>, f: ForeignKey, g: ForeignKey, h: ForeignKey)
    requires TwoColumns(fks, pks, f, g)
    ensures !Overlooked(TwoKeyDb(lib, format, fks, pks, f, g), h, Int(1), (f.child, [3]))
  {
    TwoKeyCells(lib, format, fks, pks, f, g, h.col);
  }

  lemma OutcomeDeals(db: Db, direct: map<RowId, Datum>, done: set<RowId>, m: Moment, f: nat, p: RowId, id: RowId, v: Datum)
    requires Outcome(db, direct, done, m) && p in done && f < |db.fks| && db.fks[f].parent == p.0 && v == KeyOfDeleted(db, direct, p)
    requires id in Ids(db) && RefersNow(db, map[], db.fks[f], v, id) && !Overlooked(db, db.fks[f], v, id)
    ensures id in m.pending
  {
    hide Overlooked, KeyOfDeleted, Refers, Actions, Justified, Traced;
    assert Earlier(done, m.trail, |m.trail|, p);
    assert ClearOf(db, m.pending, db.fks[f], v);
    assert Dealt(db, m.pending, db.fks[f], v, id);
  }

  /** With one row that is not deleted and one delete done, the first action is on that row
      because of that delete. */
  lemma FirstCause(db: Db, direct: map<RowId, Datum>, p: RowId, m: Moment, id: RowId)
    requires Outcome(db, direct, {p}, m) && id in m.pending && forall x :: Original(db, x).Some? ==> x == id
    ensures |m.trail| > 0 && m.trail[0].row == id && m.trail[0].parent == p
    ensures Follows(db, direct, m.trail[0]) && Does(db, m.trail[0], m.pending[id])
  {
    hide Does, Actions, Clear, Refers, Blocking;
    assert exists i :: 0 <= i < |m.trail| && m.trail[i].row == id;
    assert Follows(db, direct, m.trail[0]) && Earlier({p}, m.trail, 0, m.trail[0].parent);
  }

  lemma TwoKeyRefused(lib: Library, format: Int64 -> string, fks: seq<ForeignKey>, pks: map<nat, nat>, f: ForeignKey, g: ForeignKey,
                      direct: map<RowId, Datum>, m: Moment)
    requires TwoColumns(fks, pks, f, g) && direct == map[(f.parent, [1]) := Int(1), (g.parent, [2]) := Int(2)]
    requires var db := TwoKeyDb(lib, format, fks, pks, f, g);
             Justified(db, direct, direct.Keys, m.trail) && Traced(db, m.pending, m.trail)
    ensures !Refused(TwoKeyDb(lib, format, fks, pks, f, g), direct, direct.Keys, m.pending, m.trail)
  {
    var db := TwoKeyDb(lib, format, fks, pks, f, g);
    forall fk, parent, x | Earlier(direct.Keys, m.trail, |m.trail|, parent) ensures !Stopped(db, direct, m.pending, fk, parent, x) {
      hide Refused, TwoKeyDb, TwoColumns;
      TwoKeyNotStopped(lib, format, fks, pks, f, g, direct, m, fk, parent, x);
    }
  }

  lemma TwoKeyNotStopped(lib: Library, format: Int64 -> string, fks: seq<ForeignKey>, pks: map<nat, nat>, f: ForeignKey, g: ForeignKey,
                         direct: map<RowId, Datum>, m: Moment, h: ForeignKey, parent: RowId, x: RowId)
    requires TwoColumns(fks, pks, f, g) && direct == map[(f.parent, [1]) := Int(1), (g.parent, [2]) := Int(2)]
    requires var db := TwoKeyDb(lib, format, fks, pks, f, g);
             && Justified(db, direct, direct.Keys, m.trail) && Traced(db, m.pending, m.trail)
             && Earlier(direct.Keys, m.trail, |m.trail|, parent)
    ensures !Stopped(TwoKeyDb(lib, format, fks, pks, f, g), direct, m.pending, h, parent, x)
  {
    var db, id := TwoKeyDb(lib, format, fks, pks, f, g), (f.child, [3]);
    TwoKeyCells(lib, format, fks, pks, f, g, 0);
    assert db.fks == fks;
    hide TwoKeyDb, Nulled, Blocking, Refers, Overlooked, Refuses, TwoColumns, Justified, Traced, Earlier;
    OneSurvivor(db, direct, m, x, id, parent);
    if Stopped(db, direct, m.pending, h, parent, x) {
      TwoKeyStill(lib, format, fks, pks, f, g, m, h, KeyOfDeleted(db, direct, parent));
      TwoKeyPasses(lib, format, fks, pks, f, g, direct, m.pending, h, parent);
    }
  }

  /** With one row that is not deleted, a current row is that row, and it was not a cascade
      that deleted what it refers to. */
  lemma OneSurvivor(db: Db, direct: map<RowId, Datum>, m: Moment, x: RowId, id: RowId, parent: RowId)
    requires Justified(db, direct, direct.Keys, m.trail) && Traced(db, m.pending, m.trail)
    requires (forall y :: Original(db, y).Some? ==> y == id) && Earlier(direct.Keys, m.trail, |m.trail|, parent)
    ensures Current(db, m.pending, x).Some? ==> x == id && parent in direct
  {
    hide NulledBy, Refers, Blocking, KeyOfDeleted;
    if x in m.pending {
      var i :| 0 <= i < |m.trail| && m.trail[i].row == x;
      assert Follows(db, direct, m.trail[i]);
    } else {
      assert Current(db, m.pending, x) == Original(db, x);
    }
    if parent !in direct {
      var j :| 0 <= j < |m.trail| && m.trail[j].row == parent && m.trail[j].fk.action.Cascade?;
      assert Follows(db, direct, m.trail[j]);
      CascadeDeletes(db, m.pending, m.trail[j]);
    }
  }

  /** What the row refers to now it referred to before: the columns have no defaults. */
  lemma TwoKeyStill(lib: Library, format: Int64 -> string, fks: seq<ForeignKey>, pks: map<nat, nat>, f: ForeignKey, g: ForeignKey,
                    m: Moment, h: ForeignKey, v: Datum)
    requires TwoColumns(fks, pks, f, g)
    requires var db := TwoKeyDb(lib, format, fks, pks, f, g);
             Traced(db, m.pending, m.trail) && RefersNow(db, m.pending, h, v, (f.child, [3]))
    ensures Refers(TwoKeyDb(lib, format, fks, pks, f, g), h, ChildRow(fks, pks, f, g), v)
  {
    var db, id, row := TwoKeyDb(lib, format, fks, pks, f, g), (f.child, [3]), ChildRow(fks, pks, f, g);
    TwoKeyCells(lib, format, fks, pks, f, g, 0);
    TwoKeyValid(lib, format, fks, pks, f, g);
    hide Validated, Nulled, ChildRow, Blocking, TwoColumns, Refill;
    if id in m.pending {
      var i :| 0 <= i < |m.trail| && m.trail[i].row == id;
      var n := m.trail[i].fk;
      assert Does(db, m.trail[i], m.pending[id]);
      TwoKeyRefill(lib, format, fks, pks, f, g, n);
      hide TwoKeyDb;
      NulledCells(db, n, id, m.pending[id].value, h.col);
    }
  }

  lemma TwoKeyRefill(lib: Library, format: Int64 -> string, fks: seq<ForeignKey>, pks: map<nat, nat>, f: ForeignKey, g: ForeignKey, n: ForeignKey)
    requires TwoColumns(fks, pks, f, g) && n.child == f.child
    ensures Refill(TwoKeyDb(lib, format, fks, pks, f, g), n) == Null
  {
    TwoKeyValid(lib, format, fks, pks, f, g);
    hide TwoKeyDb, Validated, TwoColumns;
    var cols := IntColumns(fks, pks, f.child);
    assert n.col < |cols| ==> cols[n.col] == IntColumn(n.col != PkIn(pks, f.child), None);
  }

  /** No key refuses the row for its references to the two keys. */
  lemma TwoKeyPasses(lib: Library, format: Int64 -> string, fks: seq<ForeignKey>, pks: map<nat, nat>, f: ForeignKey, g: ForeignKey,
                     direct: map<RowId, Datum>, pending: Writes, h: ForeignKey, parent: RowId)
    requires TwoColumns(fks, pks, f, g) && direct == map[(f.parent, [1]) := Int(1), (g.parent, [2]) := Int(2)]
    requires h in fks && h.child == f.child && h.parent == parent.0 && parent in direct
    requires Refers(TwoKeyDb(lib, format, fks, pks, f, g), h, ChildRow(fks, pks, f, g), direct[parent])
    ensures !Refuses(TwoKeyDb(lib, format, fks, pks, f, g), pending, h, (f.child, [3]))
  {
    var db := TwoKeyDb(lib, format, fks, pks, f, g);
    TwoKeyRefers(lib, format, fks, pks, f, g, h);
    TwoKeyCells(lib, format, fks, pks, f, g, 0);
    hide TwoKeyDb, ChildRow, Refers, Nulled;
    assert Parallel(h, f) || Parallel(h, g);
    if h.action.SetNull? {
      TwoKeyNull(lib, format, fks, pks, f, g, h);
    }
  }

  /** The condition on columns is needed: for every schema that breaks it there are tables, a
      row and two deletes after which the row still refers to a deleted key, although the
      statement succeeds. When both keys reference one table the deletes are of that table. */
  method SecondKeyDangles(lib: Library, format: Int64 -> string, fks: seq<ForeignKey>, pks: map<nat, nat>, f: ForeignKey, g: ForeignKey)
      returns (db: Db, direct: map<RowId, Datum>, ok: bool, pending: Writes)
    requires TwoColumns(fks, pks, f, g)
    ensures db.fks == fks && db.pks == pks && DirectOk(db, direct) && Validated(db)
    ensures direct == map[(f.parent, [1]) := Int(1), (g.parent, [2]) := Int(2)] && !OneColumn(db, {f.parent, g.parent}, g.parent)
    ensures forall id :: id in direct ==> id in db.base && Cell(db.base[id], PkColumn(db, id.0)) == direct[id]
    ensures ok && (f.child, [3]) !in direct && RefersNow(db, pending, g, Int(2), (f.child, [3]))
  {
    hide *;
    db := TwoKeyDb(lib, format, fks, pks, f, g);
    var p, q: RowId := (f.parent, [1]), (g.parent, [2]);
    direct := map[p := Int(1), q := Int(2)];
    TwoKeyStart(lib, format, fks, pks, f, g, direct);
    ghost var trail, log;
    ok, pending, trail, log := CheckDeleted(db, direct, [p, q]);
    TwoKeyRefused(lib, format, fks, pks, f, g, direct, Moment(pending, trail));
    FirstMoment(db, direct, [p, q], log, pending);
    TwoKeyDangles(lib, format, fks, pks, f, g, direct, log[1], pending);
  }

  lemma FirstMoment(db: Db, direct: map<RowId, Datum>, order: seq<RowId>, log: seq<Moment>, pending: Writes)
    requires Logged(db, direct, order, log, pending) && |log| > 1
    ensures |order| > 0 && Outcome(db, direct, {order[0]}, log[1]) && Extends(log[1].pending, pending)
  {
    hide Outcome, Extends;
    assert Done(order, 1) == {order[0]};
  }

  lemma TwoKeyStart(lib: Library, format: Int64 -> string, fks: seq<ForeignKey>, pks: map<nat, nat>, f: ForeignKey, g: ForeignKey,
                    direct: map<RowId, Datum>)
    requires TwoColumns(fks, pks, f, g) && direct == map[(f.parent, [1]) := Int(1), (g.parent, [2]) := Int(2)]
    ensures var db := TwoKeyDb(lib, format, fks, pks, f, g);
            && db.fks == fks && db.pks == pks && DirectOk(db, direct) && Validated(db) && !OneColumn(db, {f.parent, g.parent}, g.parent)
            && (forall id :: id in direct ==> id in db.base && Cell(db.base[id], PkColumn(db, id.0)) == direct[id])
    ensures (f.child, [3]) !in direct
    ensures Done([(f.parent, [1]), (g.parent, [2])], 2) == direct.Keys
  {
    hide *;
    TwoKeyValid(lib, format, fks, pks, f, g);
    TwoKeyParents(lib, format, fks, pks, f, g, direct);
    TwoKeyBreaks(lib, format, fks, pks, f, g);
    TwoDone((f.parent, [1]), (g.parent, [2]));
  }

  lemma TwoDone(p: RowId, q: RowId)
    ensures Done([p, q], 2) == {p, q}
  {
    assert [p, q][0] == p && [p, q][1] == q;
  }

  lemma TwoKeyParents(lib: Library, format: Int64 -> string, fks: seq<ForeignKey>, pks: map<nat, nat>, f: ForeignKey, g: ForeignKey,
                      direct: map<RowId, Datum>)
    requires direct == map[(f.parent, [1]) := Int(1), (g.parent, [2]) := Int(2)]
    ensures var db := TwoKeyDb(lib, format, fks, pks, f, g);
            && db.fks == fks && db.pks == pks && DirectOk(db, direct)
            && (forall id :: id in direct ==> id in db.base && Cell(db.base[id], PkColumn(db, id.0)) == direct[id])
    ensures (f.child, [3]) !in direct
  {
    hide Widest;
    assert [1][0] == 1 && [2][0] == 2 && [3][0] == 3;
  }

  lemma TwoKeyBreaks(lib: Library, format: Int64 -> string, fks: seq<ForeignKey>, pks: map<nat, nat>, f: ForeignKey, g: ForeignKey)
    requires TwoColumns(fks, pks, f, g)
    ensures !OneColumn(TwoKeyDb(lib, format, fks, pks, f, g), {f.parent, g.parent}, g.parent)
  {
    var db := TwoKeyDb(lib, format, fks, pks, f, g);
    TwoKeyNull(lib, format, fks, pks, f, g, f);
    assert Parallel(f, f) && Parallel(g, g) && db.fks == fks;
    if g.action.SetNull? {
      TwoKeyNull(lib, format, fks, pks, f, g, g);
    }
    hide TwoKeyDb, Nulled;
    var i :| 0 <= i < |fks| && fks[i] == f;
    var j :| 0 <= j < |fks| && fks[j] == g;
    assert !Blocking(db, fks[i]) && !Blocking(db, fks[j]);
  }
}
