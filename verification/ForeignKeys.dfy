/**
 Referential actions of a DELETE: RESTRICT, CASCADE and SET NULL over schemas that may be
 cyclic. A row set to NULL is validated again before it is staged, so a column DEFAULT can
 fill it.
 */
module ForeignKeys {
  import opened Bytes
  import opened Sql
  import opened JoinExec
  import opened WalCodec
  import opened Validation

  type RowId = (nat, Key)   // table, encoded primary key

  /** Column `col` of `child` references column `refCol` of `parent`. A DELETE looks for the
      primary key of the deleted row, whatever column is referenced. */
  datatype ForeignKey = ForeignKey(child: nat, col: nat, parent: nat, refCol: nat, action: FkAction, indexed: bool)

  /** Statement writes: a row to put, or `None` for a delete. */
  type Writes = map<RowId, Option<Row>>

  datatype Db = Db(
    lib: Library,
    format: Int64 -> string,              // how a DATETIME prints
    fks: seq<ForeignKey>,
    pks: map<nat, nat>,                   // primary key column of each table
    columns: map<nat, seq<ColumnDef>>,
    committed: map<RowId, Row>,           // what the tables and their indexes hold
    base: map<RowId, Row>,                // what the session sees: its snapshot, and what its transaction wrote before
    staged: Writes                        // what the statement itself writes
  )

  function PkColumn(db: Db, t: nat): nat { if t in db.pks then db.pks[t] else 0 }

  function ColumnsOf(db: Db, t: nat): seq<ColumnDef> { if t in db.columns then db.columns[t] else [] }

  predicate Nullable(db: Db, fk: ForeignKey) {
    fk.col < |ColumnsOf(db, fk.child)| && ColumnsOf(db, fk.child)[fk.col].nullable
  }

  /** A key whose action is to refuse. */
  predicate Blocking(db: Db, fk: ForeignKey) { fk.action.Restrict? || (fk.action.SetNull? && !Nullable(db, fk)) }

  /** The row as the checker sees it: cascade actions over staged writes over what is visible. */
  function Current(db: Db, pending: Writes, id: RowId): Option<Row> {
    if id in pending then pending[id]
    else if id in db.staged then db.staged[id]
    else if id in db.base then Some(db.base[id])
    else None
  }

  /** The row before any referential action. */
  function Original(db: Db, id: RowId): Option<Row> { Current(db, map[], id) }

  function Ids(db: Db): set<RowId> { db.base.Keys + db.staged.Keys }

  /** `row` holds the key `v` in the column of `fk`. */
  predicate Refers(db: Db, fk: ForeignKey, row: Row, v: Datum) { Same(db.lib, Cell(row, fk.col), v) }

  /** Row `id` is a current row of the child that refers to `v`. */
  predicate RefersNow(db: Db, pending: Writes, fk: ForeignKey, v: Datum, id: RowId) {
    id.0 == fk.child && Current(db, pending, id).Some? && Refers(db, fk, Current(db, pending, id).value, v)
  }

  /** No row refers to the primary key `v` of table `t`. */
  ghost predicate Unreferenced(db: Db, pending: Writes, t: nat, v: Datum) {
    forall f, id :: 0 <= f < |db.fks| && db.fks[f].parent == t && id in Ids(db) ==> !RefersNow(db, pending, db.fks[f], v, id)
  }

  /** Rows in the database are as their table stores them. */
  ghost predicate Validated(db: Db) {
    forall id :: Original(db, id).Some? ==>
      ValidateRow(db.lib, ColumnsOf(db, id.0), Original(db, id).value) == Original(db, id)
  }

  // ---------------------------------------------------------------------
  // Lookup candidates
  // ---------------------------------------------------------------------

  /** The value and its coerced mirrors. */
  function LookupKeys(db: Db, v: Datum): seq<Datum> {
    [v] +
    match v
    case Int(i) => [Float(db.lib.toFloat(i))]
    case Float(f) => if Integral(f) && -TWO_63 as real <= f <= TWO_63 as real then [Int(Saturate(f.Floor))] else []
    case DateTime(m) => [Text(db.format(m))]
    case Text(s) => if db.lib.parse(s).Some? then [DateTime(db.lib.parse(s).value)] else []
    case _ => []
  }

  /** A value the evaluator calls equal that no lookup key equals: a BOOL against a number,
      an INT against the FLOAT it rounds to, or a date text that is not the canonical one. */
  predicate Missed(db: Db, x: Datum, v: Datum) {
    || (x.Bool? && Numeric(v)) || (Numeric(x) && v.Bool?)
    || (x.Int? && v.Float? && Apart(x.i, v.f))
    || (v.DateTime? && x.Text? && x.s != db.format(v.micros))
  }

  /** Index lookups find every equal value exactly when it is not one of those. */
  lemma LookupComplete(db: Db, x: Datum, v: Datum)
    requires Same(db.lib, x, v)
    ensures x in LookupKeys(db, v) <==> !Missed(db, x, v)
  {
    if x.Int? && v.Float? {
      FloatKey(x.i, v.f);
    }
  }

  /** The index on the column of `fk` lists the row under one of the lookup keys. */
  predicate Listed(db: Db, fk: ForeignKey, v: Datum, id: RowId) {
    id in db.committed && Cell(db.committed[id], fk.col) in LookupKeys(db, v)
  }

  /** A row the session sees and the statement does not write refers to `v`, and the index
      lookup of `fk` cannot find it. */
  predicate Overlooked(db: Db, fk: ForeignKey, v: Datum, id: RowId) {
    && fk.indexed && id in db.base && id !in db.staged && id.0 == fk.child
    && Refers(db, fk, db.base[id], v) && !Listed(db, fk, v, id)
  }

  /** When the session sees the committed row, only a missed value is overlooked. */
  lemma OverlookedCommitted(db: Db, fk: ForeignKey, v: Datum, id: RowId)
    requires fk.indexed && id in db.base && id !in db.staged && id.0 == fk.child && Refers(db, fk, db.base[id], v)
    requires id in db.committed && Cell(db.committed[id], fk.col) == Cell(db.base[id], fk.col)
    ensures Overlooked(db, fk, v, id) <==> Missed(db, Cell(db.base[id], fk.col), v)
  {
    LookupComplete(db, Cell(db.base[id], fk.col), v);
  }

  // ---------------------------------------------------------------------
  // Finding the children of one key
  // ---------------------------------------------------------------------

  /** Overlay entries for the child that put a matching row. */
  method OverlayRefs(db: Db, pending: Writes, fk: ForeignKey, v: Datum) returns (refs: map<RowId, Row>)
    ensures forall id :: id in refs <==> id in pending.Keys + db.staged.Keys && RefersNow(db, pending, fk, v, id)
    ensures forall id :: id in refs ==> Current(db, pending, id) == Some(refs[id])
  {
    refs := map[];
    var todo := pending.Keys + db.staged.Keys;
    while todo != {}
      invariant todo <= pending.Keys + db.staged.Keys
      invariant forall id :: id in refs <==> id in pending.Keys + db.staged.Keys && id !in todo && RefersNow(db, pending, fk, v, id)
      invariant forall id :: id in refs ==> Current(db, pending, id) == Some(refs[id])
      decreases |todo|
    {
      var id :| id in todo;
      todo := todo - {id};
      if RefersNow(db, pending, fk, v, id) {
        refs := refs[id := Current(db, pending, id).value];
      }
    }
  }

  predicate StoredRef(db: Db, pending: Writes, fk: ForeignKey, v: Datum, id: RowId) {
    id in db.base && id !in pending && id !in db.staged && id.0 == fk.child && Refers(db, fk, db.base[id], v)
  }

  /** Rows the session sees and no write overlays: the index lists candidates for each lookup
      key from the committed rows, and each is read again as the session sees it; without an
      index, by a scan. */
  method TableRefs(db: Db, pending: Writes, fk: ForeignKey, v: Datum) returns (refs: map<RowId, Row>)
    ensures forall id :: id in refs <==> StoredRef(db, pending, fk, v, id) && !Overlooked(db, fk, v, id)
    ensures forall id :: id in refs ==> id in db.base && refs[id] == db.base[id]
  {
    refs := map[];
    if !fk.indexed {
      refs := map id | id in db.base && StoredRef(db, pending, fk, v, id) :: db.base[id];
      return;
    }
    var keys := LookupKeys(db, v);
    hide Refers, LookupKeys, Cell;
    for k := 0 to |keys|
      invariant forall id :: id in refs <==>
                  StoredRef(db, pending, fk, v, id) && id in db.committed && Cell(db.committed[id], fk.col) in keys[..k]
      invariant forall id :: id in refs ==> id in db.base && refs[id] == db.base[id]
    {
      var listed := set id | id in db.committed && Cell(db.committed[id], fk.col) == keys[k];
      refs := refs + map id | id in listed && StoredRef(db, pending, fk, v, id) :: db.base[id];
      assert keys[..k + 1] == keys[..k] + [keys[k]];
    }
    assert keys[..|keys|] == keys;
  }

  /** The lookup sees the row: it is written by the statement or an action, or the scan or
      index finds it. */
  predicate Seen(db: Db, pending: Writes, fk: ForeignKey, v: Datum, id: RowId) {
    id in pending || !Overlooked(db, fk, v, id)
  }

  /** The current rows of the child that refer to `v`: exactly those the lookup sees. */
  method FindChildRefs(db: Db, pending: Writes, fk: ForeignKey, v: Datum) returns (refs: map<RowId, Row>)
    requires pending.Keys <= Ids(db)
    ensures forall id :: id in refs <==> id in Ids(db) && RefersNow(db, pending, fk, v, id) && Seen(db, pending, fk, v, id)
    ensures forall id :: id in refs ==> Current(db, pending, id) == Some(refs[id])
  {
    hide Refers, Missed;
    var overlaid := OverlayRefs(db, pending, fk, v);
    var stored := TableRefs(db, pending, fk, v);
    refs := overlaid + stored;
  }

  /** The lookup finds every current reference exactly when it overlooks none. */
  lemma FindsAllIff(db: Db, pending: Writes, fk: ForeignKey, v: Datum, refs: set<RowId>)
    requires forall id :: id in refs <==> id in Ids(db) && RefersNow(db, pending, fk, v, id) && Seen(db, pending, fk, v, id)
    ensures (forall id :: id in Ids(db) && RefersNow(db, pending, fk, v, id) ==> id in refs) <==>
            (forall id :: Overlooked(db, fk, v, id) ==> id in pending)
  {
    hide Refers, Listed;
    assert forall id :: Overlooked(db, fk, v, id) && id !in pending ==> id in Ids(db) && RefersNow(db, pending, fk, v, id);
  }

  // ---------------------------------------------------------------------
  // What an action does to a row
  // ---------------------------------------------------------------------

  /** The row `fk` stages for SET NULL: the column set to NULL, then validated. */
  function Nulled(db: Db, fk: ForeignKey, row: Row): Option<Row>
    requires fk.col < |row|
  {
    ValidateRow(db.lib, ColumnsOf(db, fk.child), row[fk.col := Null])
  }

  predicate NulledBy(db: Db, fk: ForeignKey, id: RowId, row: Row) {
    && fk in db.fks && fk.action.SetNull? && !Blocking(db, fk) && fk.child == id.0 && Original(db, id).Some?
    && fk.col < |Original(db, id).value| && Nulled(db, fk, Original(db, id).value) == Some(row)
  }

  /** What the column of `fk` holds once set to NULL: its DEFAULT when it has one. */
  function Refill(db: Db, fk: ForeignKey): Datum {
    if fk.col < |ColumnsOf(db, fk.child)| then
      var x := StoredAs(db.lib, ColumnsOf(db, fk.child)[fk.col], Null);
      if x.Some? then x.value else Null
    else Null
  }

  lemma NulledCells(db: Db, fk: ForeignKey, id: RowId, row: Row, c: nat)
    requires Validated(db) && NulledBy(db, fk, id, row)
    ensures Cell(row, c) == if c == fk.col then Refill(db, fk) else Cell(Original(db, id).value, c)
  {
    NullStored(db.lib, ColumnsOf(db, id.0), Original(db, id).value, fk.col);
    hide StoredAs, ValidateRow;
  }

  /** An action on a row: deleted, or set to NULL through one of its keys. */
  ghost predicate Acted(db: Db, id: RowId, w: Option<Row>) { w.Some? ==> exists fk :: NulledBy(db, fk, id, w.value) }

  ghost predicate Actions(db: Db, pending: Writes) {
    forall id :: id in pending ==> id in Ids(db) && Acted(db, id, pending[id])
  }

  ghost predicate Extends(p: Writes, q: Writes) { forall id :: id in p ==> id in q && q[id] == p[id] }

  // ---------------------------------------------------------------------
  // What is left of the references to a key
  // ---------------------------------------------------------------------

  /** The row survives because an action set it to NULL: through the same column, which then
      holds its DEFAULT, or, when `fk` does not refuse, through another column. */
  ghost predicate Excused(db: Db, pending: Writes, fk: ForeignKey, id: RowId) {
    && id in pending && pending[id].Some?
    && exists n :: NulledBy(db, n, id, pending[id].value) && (n.col == fk.col || !Blocking(db, fk))
  }

  /** Row `id` has been dealt with for key `v`: an action was taken if the lookup sees it, and
      it refers to `v` no longer unless overlooked or excused. */
  ghost predicate Dealt(db: Db, pending: Writes, fk: ForeignKey, v: Datum, id: RowId) {
    && (RefersNow(db, map[], fk, v, id) && !Overlooked(db, fk, v, id) ==> id in pending)
    && (RefersNow(db, pending, fk, v, id) ==> Overlooked(db, fk, v, id) || Excused(db, pending, fk, id))
  }

  ghost predicate ClearOf(db: Db, pending: Writes, fk: ForeignKey, v: Datum) {
    forall id :: id in Ids(db) ==> Dealt(db, pending, fk, v, id)
  }

  /** Every row has been dealt with for the primary key `v` of table `t`. */
  ghost predicate Clear(db: Db, pending: Writes, t: nat, v: Datum) {
    forall f :: 0 <= f < |db.fks| && db.fks[f].parent == t ==> ClearOf(db, pending, db.fks[f], v)
  }

  /** Later actions leave a row dealt with. */
  lemma StaysDealt(db: Db, p: Writes, q: Writes, fk: ForeignKey, v: Datum, id: RowId)
    requires Validated(db) && Extends(p, q) && Actions(db, q) && id in Ids(db) && Dealt(db, p, fk, v, id)
    ensures Dealt(db, q, fk, v, id)
  {
    hide Overlooked, NulledBy, Blocking, Validated;
    if id in q && id !in p && q[id].Some? && RefersNow(db, q, fk, v, id) {
      assert Acted(db, id, q[id]);
      var n :| NulledBy(db, n, id, q[id].value);
      if n.col != fk.col && Blocking(db, fk) {
        NulledCells(db, n, id, q[id].value, fk.col);
        OriginalOf(db, n, id, q[id].value);
        assert RefersNow(db, p, fk, v, id);
      }
    }
  }

  lemma OriginalOf(db: Db, fk: ForeignKey, id: RowId, row: Row)
    requires NulledBy(db, fk, id, row)
    ensures Original(db, id).Some?
  {
  }

  lemma StaysClearOf(db: Db, p: Writes, q: Writes, fk: ForeignKey, v: Datum)
    requires Validated(db) && Extends(p, q) && Actions(db, q) && ClearOf(db, p, fk, v)
    ensures ClearOf(db, q, fk, v)
  {
    hide Dealt, Validated, Extends, Actions;
    forall id | id in Ids(db) ensures Dealt(db, q, fk, v, id) { StaysDealt(db, p, q, fk, v, id); }
  }

  lemma StaysClear(db: Db, p: Writes, q: Writes, t: nat, v: Datum)
    requires Validated(db) && Extends(p, q) && Actions(db, q) && Clear(db, p, t, v)
    ensures Clear(db, q, t, v)
  {
    hide ClearOf, Validated, Extends, Actions;
    forall f | 0 <= f < |db.fks| && db.fks[f].parent == t ensures ClearOf(db, q, db.fks[f], v) {
      StaysClearOf(db, p, q, db.fks[f], v);
    }
  }

  /** A key that refuses and found nothing has nothing left. */
  lemma NothingFound(db: Db, pending: Writes, fk: ForeignKey, v: Datum)
    requires forall id :: !(id in Ids(db) && RefersNow(db, pending, fk, v, id) && Seen(db, pending, fk, v, id))
    ensures ClearOf(db, pending, fk, v)
  {
    hide Overlooked, Refers;
    forall id | id in Ids(db) ensures Dealt(db, pending, fk, v, id) {
      assert id !in pending ==> Current(db, pending, id) == Original(db, id);
    }
  }

  /** When every row found has been acted on, every row is dealt with. */
  lemma NoneLeft(db: Db, before: Writes, pending: Writes, fk: ForeignKey, v: Datum, refs: set<RowId>)
    requires !Blocking(db, fk) && Actions(db, pending) && Extends(before, pending) && refs <= pending.Keys
    requires forall id :: id in refs <==> id in Ids(db) && RefersNow(db, before, fk, v, id) && Seen(db, before, fk, v, id)
    ensures ClearOf(db, pending, fk, v)
  {
    hide Overlooked, Refers, NulledBy, Blocking;
    forall id | id in Ids(db) ensures Dealt(db, pending, fk, v, id) {
      assert id !in before ==> Current(db, before, id) == Original(db, id);
      if id in pending {
        assert Acted(db, id, pending[id]);
      } else {
        assert id !in before && Current(db, pending, id) == Original(db, id);
      }
    }
  }

  // ---------------------------------------------------------------------
  // Why each action was taken
  // ---------------------------------------------------------------------

  /** Why an action was taken on a row: it referred through `fk` to a row deleted before. */
  datatype Because = Because(row: RowId, fk: ForeignKey, parent: RowId)

  function PkOf(db: Db, id: RowId): Datum {
    if Original(db, id).Some? then Cell(Original(db, id).value, PkColumn(db, id.0)) else Null
  }

  /** The key a deleted row had: given for a directly deleted row, its own for a cascaded one. */
  function KeyOfDeleted(db: Db, direct: map<RowId, Datum>, id: RowId): Datum {
    if id in direct then direct[id] else PkOf(db, id)
  }

  /** `id` was deleted by the statement (`done`) or by one of the first `n` actions. */
  ghost predicate Earlier(done: set<RowId>, trail: seq<Because>, n: nat, id: RowId)
    requires n <= |trail|
  {
    id in done || exists j :: 0 <= j < n && trail[j].row == id && trail[j].fk.action.Cascade?
  }

  /** The entry is right: the row, as it was before any action, referred to the key, and the
      lookup finds it. */
  predicate Follows(db: Db, direct: map<RowId, Datum>, b: Because) {
    && b.fk in db.fks && !Blocking(db, b.fk) && b.fk.child == b.row.0 && b.fk.parent == b.parent.0
    && b.row !in direct && Original(db, b.row).Some?
    && Refers(db, b.fk, Original(db, b.row).value, KeyOfDeleted(db, direct, b.parent))
    && !Overlooked(db, b.fk, KeyOfDeleted(db, direct, b.parent), b.row)
  }

  /** Every action is there because of a row deleted earlier: so each is reached from a
      directly deleted one. */
  ghost predicate Justified(db: Db, direct: map<RowId, Datum>, done: set<RowId>, trail: seq<Because>) {
    forall i :: 0 <= i < |trail| ==> Follows(db, direct, trail[i]) && Earlier(done, trail, i, trail[i].parent)
  }

  /** The action is the one the key asks for. */
  predicate Does(db: Db, b: Because, w: Option<Row>) {
    if w.None? then b.fk.action.Cascade? else NulledBy(db, b.fk, b.row, w.value)
  }

  /** The trail explains every action and nothing else. */
  ghost predicate Traced(db: Db, pending: Writes, trail: seq<Because>) {
    && (forall i :: 0 <= i < |trail| ==> trail[i].row in pending && Does(db, trail[i], pending[trail[i].row]))
    && (forall id :: id in pending ==> exists i :: 0 <= i < |trail| && trail[i].row == id)
  }

  lemma JustifiedPush(db: Db, direct: map<RowId, Datum>, done: set<RowId>, trail: seq<Because>, b: Because)
    requires Justified(db, direct, done, trail) && Earlier(done, trail, |trail|, b.parent) && Follows(db, direct, b)
    ensures Justified(db, direct, done, trail + [b])
  {
    hide Follows, Earlier;
    var more := trail + [b];
    forall i | 0 <= i < |more|
      ensures Follows(db, direct, more[i]) && Earlier(done, more, i, more[i].parent)
    {
      EarlierGrows(done, trail, b, i, more[i].parent);
    }
  }

  lemma EarlierGrows(done: set<RowId>, trail: seq<Because>, b: Because, n: nat, id: RowId)
    requires n <= |trail| && Earlier(done, trail, n, id)
    ensures Earlier(done, trail + [b], n, id)
  {
    if id !in done {
      var j :| 0 <= j < n && trail[j].row == id && trail[j].fk.action.Cascade?;
      assert (trail + [b])[j] == trail[j];
    }
  }

  lemma EarlierLater(done: set<RowId>, trail: seq<Because>, more: seq<Because>, id: RowId)
    requires trail <= more && Earlier(done, trail, |trail|, id)
    ensures Earlier(done, more, |more|, id)
  {
    if id !in done {
      var j :| 0 <= j < |trail| && trail[j].row == id && trail[j].fk.action.Cascade?;
      assert more[j] == trail[j];
    }
  }

  lemma JustifiedMore(db: Db, direct: map<RowId, Datum>, done: set<RowId>, more: set<RowId>, trail: seq<Because>)
    requires Justified(db, direct, done, trail) && done <= more
    ensures Justified(db, direct, more, trail)
  {
    hide Follows;
  }

  lemma TracedPush(db: Db, pending: Writes, trail: seq<Because>, b: Because, w: Option<Row>)
    requires Traced(db, pending, trail) && b.row !in pending && Does(db, b, w)
    ensures Traced(db, pending[b.row := w], trail + [b])
  {
    hide Does;
    var more := trail + [b];
    assert forall i :: 0 <= i < |trail| ==> more[i] == trail[i];
    assert more[|trail|] == b;
  }

  /** Every row a cascade deleted between two moments has been dealt with. */
  ghost predicate NewClear(db: Db, direct: map<RowId, Datum>, before: Writes, pending: Writes) {
    forall id :: id in pending && id !in before && pending[id].None? ==> Clear(db, pending, id.0, KeyOfDeleted(db, direct, id))
  }

  lemma ExtendsTrans(a: Writes, b: Writes, c: Writes)
    requires Extends(a, b) && Extends(b, c)
    ensures Extends(a, c)
  {
  }

  lemma NewClearTrans(db: Db, direct: map<RowId, Datum>, a: Writes, b: Writes, c: Writes)
    requires Validated(db) && Extends(a, b) && Extends(b, c) && Actions(db, c) && NewClear(db, direct, a, b) && NewClear(db, direct, b, c)
    ensures NewClear(db, direct, a, c)
  {
    hide Clear, Actions, Validated, KeyOfDeleted;
    forall id | id in c && id !in a && c[id].None?
      ensures Clear(db, c, id.0, KeyOfDeleted(db, direct, id))
    {
      if id in b {
        StaysClear(db, b, c, id.0, KeyOfDeleted(db, direct, id));
      }
    }
  }

  lemma StartsClear(db: Db, direct: map<RowId, Datum>, p: Writes)
    ensures NewClear(db, direct, p, p) && Extends(p, p)
  {
  }

  lemma IsClear(db: Db, p: Writes, t: nat, v: Datum)
    requires forall g :: 0 <= g < |db.fks| && db.fks[g].parent == t ==> ClearOf(db, p, db.fks[g], v)
    ensures Clear(db, p, t, v)
  {
  }

  lemma FewerLeft(u: set<RowId>, a: set<RowId>, b: set<RowId>)
    requires a <= b
    ensures |u - b| <= |u - a|
  {
    assert u - a == (u - b) + ((u - a) - (u - b));
  }

  lemma FewerStrict(u: set<RowId>, a: set<RowId>, b: set<RowId>, id: RowId)
    requires a <= b && id in b && id !in a && id in u
    ensures |u - b| < |u - a|
  {
    assert id in u - a;
    FewerLeft(u - {id}, a, b);
    assert u - b == (u - {id}) - b && u - a == ((u - {id}) - a) + {id};
  }

  /** The statement's own deletes. */
  ghost predicate DirectOk(db: Db, direct: map<RowId, Datum>) {
    forall id :: id in direct ==> id in db.staged && db.staged[id].None?
  }

  /** A row found before and not acted on since is still the original row. */
  lemma UntouchedRow(db: Db, direct: map<RowId, Datum>, before: Writes, pending: Writes, fk: ForeignKey, v: Datum, id: RowId)
    requires Extends(before, pending) && id !in pending && DirectOk(db, direct)
    requires RefersNow(db, before, fk, v, id) && Seen(db, before, fk, v, id)
    ensures Original(db, id) == Current(db, before, id) && Original(db, id).Some? && id.0 == fk.child && id !in direct
    ensures Refers(db, fk, Original(db, id).value, v) && fk.col < |Original(db, id).value| && Seen(db, pending, fk, v, id)
  {
  }

  lemma StillRefers(db: Db, pending: Writes, fk: ForeignKey, v: Datum, id: RowId, row: Row)
    requires id !in pending && Original(db, id) == Some(row) && id.0 == fk.child && Refers(db, fk, row, v)
    ensures RefersNow(db, pending, fk, v, id)
  {
  }

  lemma DeleteActs(db: Db, p: Writes, id: RowId)
    requires Actions(db, p) && id in Ids(db)
    ensures Actions(db, p[id := None])
  {
  }

  lemma NullActs(db: Db, p: Writes, fk: ForeignKey, id: RowId, row: Row)
    requires Actions(db, p) && id in Ids(db) && NulledBy(db, fk, id, row)
    ensures Actions(db, p[id := Some(row)])
  {
    assert Acted(db, id, Some(row));
  }

  lemma DeletedKey(db: Db, direct: map<RowId, Datum>, done: set<RowId>, trail: seq<Because>, b: Because)
    requires b.row !in direct && b.fk.action.Cascade?
    ensures KeyOfDeleted(db, direct, b.row) == PkOf(db, b.row)
    ensures Earlier(done, trail + [b], |trail + [b]|, b.row)
  {
    assert (trail + [b])[|trail|] == b;
  }

  lemma ExtendsPut(p: Writes, id: RowId, w: Option<Row>)
    requires id !in p
    ensures Extends(p, p[id := w])
  {
  }

  lemma OneDeleted(db: Db, direct: map<RowId, Datum>, p: Writes, q: Writes, id: RowId)
    requires id !in p && Extends(p[id := None], q) && NewClear(db, direct, p[id := None], q)
    requires Clear(db, q, id.0, KeyOfDeleted(db, direct, id))
    ensures NewClear(db, direct, p, q)
  {
  }

  lemma OneNulled(db: Db, direct: map<RowId, Datum>, p: Writes, id: RowId, row: Row)
    requires id !in p
    ensures NewClear(db, direct, p, p[id := Some(row)])
  {
  }

  lemma IsFollow(db: Db, direct: map<RowId, Datum>, pending: Writes, b: Because, row: Row, v: Datum)
    requires b.fk in db.fks && !Blocking(db, b.fk) && b.fk.child == b.row.0 && b.fk.parent == b.parent.0 && b.row !in direct
    requires Original(db, b.row) == Some(row) && v == KeyOfDeleted(db, direct, b.parent) && Refers(db, b.fk, row, v)
    requires b.row !in pending && Seen(db, pending, b.fk, v, b.row)
    ensures Follows(db, direct, b)
  {
  }

  lemma PkFromRow(db: Db, id: RowId, row: Row)
    requires Original(db, id) == Some(row)
    ensures PkOf(db, id) == Cell(row, PkColumn(db, id.0))
  {
  }

  lemma PendingIds(db: Db, pending: Writes)
    requires Actions(db, pending)
    ensures pending.Keys <= Ids(db)
  {
  }

  // ---------------------------------------------------------------------
  // The cascade
  // ---------------------------------------------------------------------

  /** The key `fk` refuses row `id`: it is RESTRICT, or SET NULL on a NOT NULL column, or the
      row with its column set to NULL does not validate. */
  predicate Refuses(db: Db, pending: Writes, fk: ForeignKey, id: RowId) {
    || Blocking(db, fk)
    || (&& fk.action.SetNull? && id !in pending && Original(db, id).Some?
        && fk.col < |Original(db, id).value| && Nulled(db, fk, Original(db, id).value).None?)
  }

  /** Why a statement fails: a row found to refer to a deleted key is refused. */
  predicate Stopped(db: Db, direct: map<RowId, Datum>, pending: Writes, fk: ForeignKey, parent: RowId, id: RowId) {
    && fk in db.fks && fk.parent == parent.0 && id in Ids(db) && Refuses(db, pending, fk, id)
    && RefersNow(db, pending, fk, KeyOfDeleted(db, direct, parent), id) && Seen(db, pending, fk, KeyOfDeleted(db, direct, parent), id)
  }

  ghost predicate Refused(db: Db, direct: map<RowId, Datum>, done: set<RowId>, pending: Writes, trail: seq<Because>) {
    exists fk, parent, id :: Earlier(done, trail, |trail|, parent) && Stopped(db, direct, pending, fk, parent, id)
  }

  lemma IsRefused(db: Db, direct: map<RowId, Datum>, done: set<RowId>, pending: Writes, trail: seq<Because>,
                  fk: ForeignKey, v: Datum, parent: RowId, id: RowId)
    requires Earlier(done, trail, |trail|, parent) && v == KeyOfDeleted(db, direct, parent)
    requires fk in db.fks && fk.parent == parent.0 && id in Ids(db) && Refuses(db, pending, fk, id)
    requires RefersNow(db, pending, fk, v, id) && Seen(db, pending, fk, v, id)
    ensures Refused(db, direct, done, pending, trail)
  {
    assert Stopped(db, direct, pending, fk, parent, id);
  }

  class Cascader {
    const db: Db
    ghost const direct: map<RowId, Datum>
    var pending: Writes
    var visited: set<RowId>
    ghost var done: set<RowId>
    ghost var trail: seq<Because>

    ghost predicate Valid()
      reads this
    {
      && pending.Keys == visited && Actions(db, pending) && DirectOk(db, direct) && Validated(db)
      && Justified(db, direct, done, trail) && Traced(db, pending, trail)
    }

    lemma Facts()
      requires Valid()
      ensures Actions(db, pending) && pending.Keys == visited && Validated(db) && DirectOk(db, direct)
      ensures Justified(db, direct, done, trail) && Traced(db, pending, trail)
    {
    }

    constructor (database: Db, ghost deleted: map<RowId, Datum>)
      requires DirectOk(database, deleted) && Validated(database)
      ensures db == database && direct == deleted && pending == map[] && trail == [] && done == {} && Valid()
    {
      db, direct, pending, visited, trail, done := database, deleted, map[], {}, [], {};
    }

    /** The statement's next delete. */
    ghost method Begin(id: RowId)
      requires Valid()
      modifies this`done
      ensures Valid() && done == old(done) + {id}
    {
      hide Justified, Traced, Actions, DirectOk, Validated;
      JustifiedMore(db, direct, done, done + {id}, trail);
      done := done + {id};
    }

    /** The action for one deleted key: terminates whatever the schema; on success every row
        has been dealt with for the key and for any key a cascade deleted on the way, and on
        failure some row found is refused. */
    method OnParentDelete(ghost parent: RowId, t: nat, v: Datum) returns (ok: bool)
      requires Valid() && t == parent.0 && v == KeyOfDeleted(db, direct, parent) && Earlier(done, trail, |trail|, parent)
      modifies this
      decreases |Ids(db) - visited|, 4
      ensures Valid() && old(visited) <= visited && old(trail) <= trail && done == old(done) && Extends(old(pending), pending)
      ensures ok ==> Clear(db, pending, t, v) && NewClear(db, direct, old(pending), pending)
      ensures !ok ==> Refused(db, direct, done, pending, trail)
    {
      hide *;
      StartsClear(db, direct, pending);
      ghost var before := pending;
      for f := 0 to |db.fks|
        invariant Valid() && old(visited) <= visited && old(trail) <= trail && done == old(done)
        invariant Extends(before, pending) && NewClear(db, direct, before, pending)
        invariant forall g :: 0 <= g < f && db.fks[g].parent == t ==> ClearOf(db, pending, db.fks[g], v)
      {
        if db.fks[f].parent != t {
          continue;
        }
        ghost var p := pending;
        EarlierLater(done, old(trail), trail, parent);
        FewerLeft(Ids(db), old(visited), visited);
        ok := ActOnChild(parent, f, v);
        ExtendsTrans(before, p, pending);
        if !ok {
          return;
        }
        Facts();
        NewClearTrans(db, direct, before, p, pending);
        forall g | 0 <= g < f + 1 && db.fks[g].parent == t ensures ClearOf(db, pending, db.fks[g], v) {
          if g < f {
            StaysClearOf(db, p, pending, db.fks[g], v);
          }
        }
      }
      IsClear(db, pending, t, v);
      return true;
    }

    /** One foreign key of one child table. */
    method ActOnChild(ghost parent: RowId, f: nat, v: Datum) returns (ok: bool)
      requires Valid() && f < |db.fks| && db.fks[f].parent == parent.0
      requires v == KeyOfDeleted(db, direct, parent) && Earlier(done, trail, |trail|, parent)
      modifies this
      decreases |Ids(db) - visited|, 3
      ensures Valid() && old(visited) <= visited && old(trail) <= trail && done == old(done) && Extends(old(pending), pending)
      ensures ok ==> ClearOf(db, pending, db.fks[f], v) && NewClear(db, direct, old(pending), pending)
      ensures !ok ==> Refused(db, direct, done, pending, trail)
    {
      hide *;
      var fk := db.fks[f];
      Facts();
      StartsClear(db, direct, pending);
      PendingIds(db, pending);
      var refs := FindChildRefs(db, pending, fk, v);
      ghost var before := pending;
      if refs.Keys == {} {
        NothingFound(db, pending, fk, v);
        return true;
      }
      if Blocking(db, fk) {
        ghost var id :| id in refs.Keys;
        AlwaysRefuses(db, pending, fk, id);
        IsRefused(db, direct, done, pending, trail, fk, v, parent, id);
        return false;
      }
      ok := ActOnRows(parent, fk, v, refs);
      if ok {
        Facts();
        NoneLeft(db, before, pending, fk, v, refs.Keys);
      }
    }

    /** The rows found, in any order, skipping those already acted on. */
    method ActOnRows(ghost parent: RowId, fk: ForeignKey, v: Datum, refs: map<RowId, Row>) returns (ok: bool)
      requires Valid() && v == KeyOfDeleted(db, direct, parent) && Earlier(done, trail, |trail|, parent)
      requires fk in db.fks && !Blocking(db, fk) && fk.parent == parent.0
      requires forall id :: id in refs ==> id in Ids(db) && RefersNow(db, pending, fk, v, id) && Seen(db, pending, fk, v, id)
      requires forall id :: id in refs ==> Current(db, pending, id) == Some(refs[id])
      modifies this
      decreases |Ids(db) - visited|, 2
      ensures Valid() && old(visited) <= visited && old(trail) <= trail && done == old(done) && Extends(old(pending), pending)
      ensures ok ==> refs.Keys <= pending.Keys && NewClear(db, direct, old(pending), pending)
      ensures !ok ==> Refused(db, direct, done, pending, trail)
    {
      hide *;
      Facts();
      StartsClear(db, direct, pending);
      ghost var before := pending;
      var todo := refs.Keys;
      while todo != {}
        invariant todo <= refs.Keys && Valid() && old(visited) <= visited && old(trail) <= trail && done == old(done)
        invariant Extends(before, pending) && NewClear(db, direct, before, pending)
        invariant refs.Keys - todo <= visited
        decreases |todo|
      {
        var id :| id in todo;
        todo := todo - {id};
        if id in visited {
          continue;
        }
        ghost var p := pending;
        Facts();
        UntouchedRow(db, direct, before, pending, fk, v, id);
        FewerLeft(Ids(db), old(visited), visited);
        EarlierLater(done, old(trail), trail, parent);
        ok := ActOnRow(parent, fk, v, id, refs[id]);
        ExtendsTrans(before, p, pending);
        if !ok {
          return;
        }
        Facts();
        NewClearTrans(db, direct, before, p, pending);
      }
      Facts();
      return true;
    }

    /** A row found is deleted or set to NULL, as the key asks. */
    method ActOnRow(ghost parent: RowId, fk: ForeignKey, v: Datum, id: RowId, row: Row) returns (ok: bool)
      requires Valid() && id !in visited && id in Ids(db) && id !in direct
      requires v == KeyOfDeleted(db, direct, parent) && Earlier(done, trail, |trail|, parent)
      requires fk in db.fks && !Blocking(db, fk) && fk.child == id.0 && fk.parent == parent.0 && fk.col < |row|
      requires Original(db, id) == Some(row) && Refers(db, fk, row, v) && Seen(db, pending, fk, v, id)
      modifies this
      decreases |Ids(db) - visited|, 1
      ensures Valid() && old(visited) <= visited && old(trail) <= trail && done == old(done) && Extends(old(pending), pending)
      ensures ok ==> id in visited && NewClear(db, direct, old(pending), pending)
      ensures !ok ==> Refused(db, direct, done, pending, trail)
    {
      hide *;
      ghost var b := Because(id, fk, parent);
      Facts();
      IsFollow(db, direct, pending, b, row, v);
      if fk.action.Cascade? {
        ok := CascadeRow(b, id, row);
        return;
      }
      NotBlocking(db, fk);
      var staged := Validate(db.lib, ColumnsOf(db, fk.child), row[fk.col := Null]);
      if staged.None? {
        StartsClear(db, direct, pending);
        StillRefers(db, pending, fk, v, id, row);
        NullRefuses(db, pending, fk, id, row);
        IsRefused(db, direct, done, pending, trail, fk, v, parent, id);
        return false;
      }
      IsNulled(db, fk, id, row, staged.value);
      NullRow(b, id, staged.value);
      return true;
    }

    /** A referring row is deleted, and with it whatever its own key obliges. */
    method CascadeRow(ghost b: Because, id: RowId, row: Row) returns (ok: bool)
      requires Valid() && id !in visited && id in Ids(db) && id !in direct && b.row == id && Original(db, id) == Some(row)
      requires Follows(db, direct, b) && b.fk.action.Cascade? && Earlier(done, trail, |trail|, b.parent)
      modifies this
      decreases |Ids(db) - visited|, 0
      ensures Valid() && old(visited) + {id} <= visited && old(trail) <= trail && done == old(done) && Extends(old(pending), pending)
      ensures ok ==> NewClear(db, direct, old(pending), pending)
      ensures !ok ==> Refused(db, direct, done, pending, trail)
    {
      hide *;
      ghost var p := pending;
      Facts();
      DeletedKey(db, direct, done, trail, b);
      FewerStrict(Ids(db), visited, visited + {id}, id);
      ExtendsPut(p, id, None);
      PkFromRow(db, id, row);
      var pk := Cell(row, PkColumn(db, id.0));
      MarkDeleted(b, id);
      ghost var q := pending;
      ok := OnParentDelete(id, id.0, pk);
      ExtendsTrans(p, q, pending);
      if ok {
        OneDeleted(db, direct, p, pending, id);
      }
    }

    method MarkDeleted(ghost b: Because, id: RowId)
      requires Valid() && id !in visited && id in Ids(db) && b.row == id && b.fk.action.Cascade?
      requires Follows(db, direct, b) && Earlier(done, trail, |trail|, b.parent)
      modifies this
      ensures Valid() && visited == old(visited) + {id} && trail == old(trail) + [b] && done == old(done)
      ensures pending == old(pending)[id := None]
    {
      hide Justified, Traced, Follows, Earlier, Actions, DirectOk, Ids, Validated;
      JustifiedPush(db, direct, done, trail, b);
      TracedPush(db, pending, trail, b, None);
      DeleteActs(db, pending, id);
      visited := visited + {id};
      pending := pending[id := None];
      trail := trail + [b];
    }

    /** A referring row is replaced by the row with its column set to NULL, as validated. */
    method NullRow(ghost b: Because, id: RowId, row: Row)
      requires Valid() && id !in visited && id in Ids(db) && b.row == id && NulledBy(db, b.fk, id, row)
      requires Follows(db, direct, b) && Earlier(done, trail, |trail|, b.parent)
      modifies this
      ensures Valid() && visited == old(visited) + {id} && trail == old(trail) + [b] && done == old(done)
      ensures pending == old(pending)[id := Some(row)]
      ensures Extends(old(pending), pending) && NewClear(db, direct, old(pending), pending)
    {
      hide NewClear, Justified, Traced, Extends, Actions, DirectOk, Ids, Validated, Follows, Earlier, NulledBy;
      JustifiedPush(db, direct, done, trail, b);
      TracedPush(db, pending, trail, b, Some(row));
      NullActs(db, pending, b.fk, id, row);
      ExtendsPut(pending, id, Some(row));
      OneNulled(db, direct, pending, id, row);
      visited := visited + {id};
      pending := pending[id := Some(row)];
      trail := trail + [b];
    }
  }

  lemma AlwaysRefuses(db: Db, pending: Writes, fk: ForeignKey, id: RowId)
    requires Blocking(db, fk)
    ensures Refuses(db, pending, fk, id)
  {
  }

  lemma NotBlocking(db: Db, fk: ForeignKey)
    requires !Blocking(db, fk) && !fk.action.Cascade?
    ensures fk.action.SetNull?
  {
  }

  lemma NullRefuses(db: Db, pending: Writes, fk: ForeignKey, id: RowId, row: Row)
    requires fk.action.SetNull? && id !in pending && Original(db, id) == Some(row) && fk.col < |row|
    requires ValidateRow(db.lib, ColumnsOf(db, fk.child), row[fk.col := Null]).None?
    ensures Refuses(db, pending, fk, id)
  {
    hide ValidateRow;
  }

  lemma IsNulled(db: Db, fk: ForeignKey, id: RowId, row: Row, row': Row)
    requires fk in db.fks && fk.action.SetNull? && !Blocking(db, fk) && fk.child == id.0 && Original(db, id) == Some(row)
    requires fk.col < |row| && ValidateRow(db.lib, ColumnsOf(db, fk.child), row[fk.col := Null]) == Some(row')
    ensures NulledBy(db, fk, id, row')
  {
    hide ValidateRow;
  }

  // ---------------------------------------------------------------------
  // A whole statement
  // ---------------------------------------------------------------------

  /** Where a statement stands: the actions so far and why each was taken. */
  datatype Moment = Moment(pending: Writes, trail: seq<Because>)

  function Done(order: seq<RowId>, k: nat): set<RowId>
    requires k <= |order|
  {
    set i | 0 <= i < k :: order[i]
  }

  /** Every action is explained, and every row has been dealt with for every key deleted,
      directly (`done`) or by a cascade. */
  ghost predicate Outcome(db: Db, direct: map<RowId, Datum>, done: set<RowId>, m: Moment) {
    && Actions(db, m.pending) && Justified(db, direct, done, m.trail) && Traced(db, m.pending, m.trail)
    && forall p :: Earlier(done, m.trail, |m.trail|, p) ==> Clear(db, m.pending, p.0, KeyOfDeleted(db, direct, p))
  }

  /** What each prefix of the deletes achieved; later actions only add to it. */
  ghost predicate Logged(db: Db, direct: map<RowId, Datum>, order: seq<RowId>, log: seq<Moment>, pending: Writes) {
    && |log| <= |order| + 1
    && forall k :: 0 <= k < |log| ==> Outcome(db, direct, Done(order, k), log[k]) && Extends(log[k].pending, pending)
  }

  predicate Gone(direct: map<RowId, Datum>, pending: Writes, id: RowId) { id in direct || (id in pending && pending[id].None?) }

  /** The tables a statement can delete from: its own, closed under CASCADE. */
  ghost predicate Closed(db: Db, direct: map<RowId, Datum>, tables: set<nat>) {
    && (forall id :: id in direct ==> id.0 in tables)
    && (forall h :: 0 <= h < |db.fks| && db.fks[h].action.Cascade? && db.fks[h].parent in tables ==> db.fks[h].child in tables)
  }

  /** A key that sets to NULL for one of `tables` and a key that references `t` and does not
      refuse, on one child, share their column. */
  ghost predicate OneColumn(db: Db, tables: set<nat>, t: nat) {
    forall f, g :: 0 <= f < |db.fks| && 0 <= g < |db.fks| && db.fks[f].child == db.fks[g].child && db.fks[g].parent == t
                   && db.fks[f].parent in tables && db.fks[f].action.SetNull? && !Blocking(db, db.fks[f]) && !Blocking(db, db.fks[g]) ==>
      db.fks[f].col == db.fks[g].col
  }

  /** No reference to the key is overlooked by an index lookup. */
  ghost predicate Findable(db: Db, t: nat, v: Datum) {
    forall g, id :: 0 <= g < |db.fks| && db.fks[g].parent == t && id in db.base ==> !Overlooked(db, db.fks[g], v, id)
  }

  /** No column set to NULL has a DEFAULT that refers to the key. */
  ghost predicate DefaultsAvoid(db: Db, t: nat, v: Datum) {
    forall f, g :: 0 <= f < |db.fks| && 0 <= g < |db.fks| && db.fks[f].child == db.fks[g].child && db.fks[g].parent == t
                   && db.fks[f].action.SetNull? && !Blocking(db, db.fks[f]) && db.fks[f].col == db.fks[g].col ==>
      !Same(db.lib, Refill(db, db.fks[f]), v)
  }

  /** What has to hold before the statement for key `v` of table `t` to leave nothing dangling. */
  ghost predicate Lawful(db: Db, tables: set<nat>, t: nat, v: Datum) {
    OneColumn(db, tables, t) && Findable(db, t, v) && DefaultsAvoid(db, t, v)
  }

  /** Every action is because of a row of one of the tables. */
  lemma {:induction false} CausedWithin(db: Db, direct: map<RowId, Datum>, tables: set<nat>, trail: seq<Because>, i: nat)
    requires Justified(db, direct, direct.Keys, trail) && Closed(db, direct, tables) && i < |trail|
    ensures trail[i].parent.0 in tables
  {
    hide Refers, Blocking, KeyOfDeleted;
    assert Earlier(direct.Keys, trail, i, trail[i].parent);
    if trail[i].parent !in direct {
      var j :| 0 <= j < i && trail[j].row == trail[i].parent && trail[j].fk.action.Cascade?;
      CausedWithin(db, direct, tables, trail, j);
      assert Follows(db, direct, trail[j]);
      var h :| 0 <= h < |db.fks| && db.fks[h] == trail[j].fk;
    }
  }

  /** Under those conditions a key every row has been dealt with for is unreferenced. */
  lemma LawfulUnreferenced(db: Db, direct: map<RowId, Datum>, tables: set<nat>, m: Moment, t: nat, v: Datum)
    requires Validated(db) && Justified(db, direct, direct.Keys, m.trail) && Traced(db, m.pending, m.trail)
    requires Closed(db, direct, tables) && Clear(db, m.pending, t, v) && Lawful(db, tables, t, v)
    ensures Unreferenced(db, m.pending, t, v)
  {
    hide Validated, Refers, Overlooked, Blocking, Justified, Traced, Closed, Lawful, NulledBy;
    forall g, id | 0 <= g < |db.fks| && db.fks[g].parent == t && id in Ids(db)
      ensures !RefersNow(db, m.pending, db.fks[g], v, id)
    {
      assert ClearOf(db, m.pending, db.fks[g], v);
      if RefersNow(db, m.pending, db.fks[g], v, id) {
        NotOverlooked(db, tables, t, v, g, id);
        var n :| NulledBy(db, n, id, m.pending[id].value) && (n.col == db.fks[g].col || !Blocking(db, db.fks[g]));
        var b := NulledFor(db, direct, tables, m, id);
        LawfulNulled(db, tables, id, m.pending[id].value, if n.col == db.fks[g].col then n else b, g, v);
      }
    }
  }

  /** The key a row was set to NULL through, for a row of one of the tables. */
  lemma NulledFor(db: Db, direct: map<RowId, Datum>, tables: set<nat>, m: Moment, id: RowId) returns (n: ForeignKey)
    requires Justified(db, direct, direct.Keys, m.trail) && Traced(db, m.pending, m.trail) && Closed(db, direct, tables)
    requires id in m.pending && m.pending[id].Some?
    ensures NulledBy(db, n, id, m.pending[id].value) && n.parent in tables
  {
    hide NulledBy, Closed, Refers, Blocking, KeyOfDeleted;
    var i :| 0 <= i < |m.trail| && m.trail[i].row == id;
    CausedWithin(db, direct, tables, m.trail, i);
    assert Follows(db, direct, m.trail[i]) && Does(db, m.trail[i], m.pending[id]);
    n := m.trail[i].fk;
  }

  lemma NotOverlooked(db: Db, tables: set<nat>, t: nat, v: Datum, g: nat, id: RowId)
    requires Lawful(db, tables, t, v) && g < |db.fks| && db.fks[g].parent == t
    ensures !Overlooked(db, db.fks[g], v, id)
  {
  }

  lemma LawfulNulled(db: Db, tables: set<nat>, id: RowId, row: Row, n: ForeignKey, g: nat, v: Datum)
    requires Validated(db) && NulledBy(db, n, id, row) && g < |db.fks| && db.fks[g].child == id.0
    requires n.col == db.fks[g].col || (!Blocking(db, db.fks[g]) && n.parent in tables)
    requires Lawful(db, tables, db.fks[g].parent, v)
    ensures !Refers(db, db.fks[g], row, v)
  {
    var f :| 0 <= f < |db.fks| && db.fks[f] == n;
    NulledCells(db, n, id, row, db.fks[g].col);
    hide Validated, Refill, Nulled, Blocking, Same;
  }

  /** The statement's deletes in any order, each with the key its row had. On success every
      action is explained, every prefix of the deletes has been dealt with, and no surviving
      row refers to a deleted key for which the conditions held; on failure some row found to
      refer to a deleted key is refused. */
  method CheckDeleted(db: Db, direct: map<RowId, Datum>, order: seq<RowId>)
      returns (ok: bool, pending: Writes, ghost trail: seq<Because>, ghost log: seq<Moment>)
    requires DirectOk(db, direct) && Validated(db) && Done(order, |order|) == direct.Keys
    ensures ok ==> forall tables, id :: Closed(db, direct, tables) && Gone(direct, pending, id)
                                        && Lawful(db, tables, id.0, KeyOfDeleted(db, direct, id)) ==>
                     Unreferenced(db, pending, id.0, KeyOfDeleted(db, direct, id))
    ensures ok ==> |log| == |order| + 1 && log[|order|] == Moment(pending, trail)
    ensures Logged(db, direct, order, log, pending)
    ensures Justified(db, direct, direct.Keys, trail) && Traced(db, pending, trail)
    ensures !ok ==> Refused(db, direct, direct.Keys, pending, trail)
  {
    var c := new Cascader(db, direct);
    hide *;
    c.Facts();
    log := [Moment(c.pending, c.trail)];
    NothingDone(db, direct, c.trail, order);
    for k := 0 to |order|
      invariant c.db == db && c.direct == direct && c.Valid() && c.done == Done(order, k)
      invariant |log| == k + 1 && log[k] == Moment(c.pending, c.trail) && Logged(db, direct, order, log, c.pending)
    {
      var id := order[k];
      ghost var p, was := c.pending, c.trail;
      DoneNext(direct, order, k);
      c.Begin(id);
      DirectKey(db, direct, c.done, c.trail, id);
      ok := c.OnParentDelete(id, id.0, direct[id]);
      LoggedLater(db, direct, order, log, p, c.pending);
      c.Facts();
      JustifiedMore(db, direct, c.done, direct.Keys, c.trail);
      if !ok {
        RefusedMore(db, direct, c.done, direct.Keys, c.pending, c.trail);
        pending, trail := c.pending, c.trail;
        return;
      }
      NextOutcome(db, direct, order, k, log, Moment(p, was), Moment(c.pending, c.trail));
      log := log + [Moment(c.pending, c.trail)];
    }
    ok, pending, trail := true, c.pending, c.trail;
    c.Facts();
    JustifiedMore(db, direct, c.done, direct.Keys, c.trail);
    AllUnreferenced(db, direct, order, log, Moment(pending, trail));
  }

  lemma NothingDone(db: Db, direct: map<RowId, Datum>, trail: seq<Because>, order: seq<RowId>)
    requires trail == []
    ensures Done(order, 0) == {} && Logged(db, direct, order, [Moment(map[], trail)], map[])
  {
  }

  lemma DoneNext(direct: map<RowId, Datum>, order: seq<RowId>, k: nat)
    requires k < |order| && Done(order, |order|) == direct.Keys
    ensures Done(order, k + 1) == Done(order, k) + {order[k]} && order[k] in direct && Done(order, k + 1) <= direct.Keys
  {
    assert order[k] in Done(order, |order|);
    assert forall i :: 0 <= i < k + 1 ==> order[i] in Done(order, |order|);
  }

  lemma LoggedLater(db: Db, direct: map<RowId, Datum>, order: seq<RowId>, log: seq<Moment>, p: Writes, q: Writes)
    requires Logged(db, direct, order, log, p) && Extends(p, q)
    ensures Logged(db, direct, order, log, q)
  {
    hide Extends, Outcome;
    forall i | 0 <= i < |log| ensures Extends(log[i].pending, q) { ExtendsTrans(log[i].pending, p, q); }
  }

  lemma RefusedMore(db: Db, direct: map<RowId, Datum>, done: set<RowId>, more: set<RowId>, pending: Writes, trail: seq<Because>)
    requires Refused(db, direct, done, pending, trail) && done <= more
    ensures Refused(db, direct, more, pending, trail)
  {
    hide Stopped;
    var fk, parent, id :| Earlier(done, trail, |trail|, parent) && Stopped(db, direct, pending, fk, parent, id);
    assert Earlier(more, trail, |trail|, parent);
  }

  lemma DirectKey(db: Db, direct: map<RowId, Datum>, done: set<RowId>, trail: seq<Because>, id: RowId)
    requires id in direct && id in done
    ensures direct[id] == KeyOfDeleted(db, direct, id) && Earlier(done, trail, |trail|, id)
  {
  }

  /** One more delete: what was dealt with stays so, and the new keys are dealt with. */
  lemma NextOutcome(db: Db, direct: map<RowId, Datum>, order: seq<RowId>, k: nat, log: seq<Moment>, m: Moment, n: Moment)
    requires k < |order| && |log| == k + 1 && log[k] == m && Logged(db, direct, order, log, n.pending)
    requires Done(order, k + 1) == Done(order, k) + {order[k]}
    requires Validated(db) && Extends(m.pending, n.pending) && NewClear(db, direct, m.pending, n.pending)
    requires Actions(db, n.pending) && Justified(db, direct, Done(order, k + 1), n.trail) && Traced(db, n.pending, n.trail)
    requires Clear(db, n.pending, order[k].0, KeyOfDeleted(db, direct, order[k]))
    ensures Logged(db, direct, order, log + [n], n.pending)
  {
    hide Outcome, Extends, NewClear, Clear, Actions, Justified, Traced, Validated, KeyOfDeleted, Done;
    OutcomeNext(db, direct, Done(order, k), order[k], m, n);
    StartsClear(db, direct, n.pending);
  }

  lemma OutcomeNext(db: Db, direct: map<RowId, Datum>, done: set<RowId>, id: RowId, m: Moment, n: Moment)
    requires Validated(db) && Outcome(db, direct, done, m) && Extends(m.pending, n.pending) && NewClear(db, direct, m.pending, n.pending)
    requires Actions(db, n.pending) && Justified(db, direct, done + {id}, n.trail) && Traced(db, n.pending, n.trail)
    requires Clear(db, n.pending, id.0, KeyOfDeleted(db, direct, id))
    ensures Outcome(db, direct, done + {id}, n)
  {
    hide Clear, NewClear, Actions, Validated, Justified, KeyOfDeleted, Traced, Earlier;
    forall p | Earlier(done + {id}, n.trail, |n.trail|, p)
      ensures Clear(db, n.pending, p.0, KeyOfDeleted(db, direct, p))
    {
      WasOrIs(db, direct, done, id, m, n, p);
      if Earlier(done, m.trail, |m.trail|, p) {
        StaysClear(db, m.pending, n.pending, p.0, KeyOfDeleted(db, direct, p));
      }
    }
  }

  lemma WasOrIs(db: Db, direct: map<RowId, Datum>, done: set<RowId>, id: RowId, m: Moment, n: Moment, p: RowId)
    requires Earlier(done + {id}, n.trail, |n.trail|, p) && Traced(db, m.pending, m.trail) && Traced(db, n.pending, n.trail)
    requires Extends(m.pending, n.pending) && NewClear(db, direct, m.pending, n.pending)
    ensures p == id || Earlier(done, m.trail, |m.trail|, p) || Clear(db, n.pending, p.0, KeyOfDeleted(db, direct, p))
  {
    hide Clear, KeyOfDeleted, NulledBy;
    if p !in done && p != id {
      var j :| 0 <= j < |n.trail| && n.trail[j].row == p && n.trail[j].fk.action.Cascade?;
      CascadeDeletes(db, n.pending, n.trail[j]);
      if p in m.pending {
        var i :| 0 <= i < |m.trail| && m.trail[i].row == p;
        assert Does(db, m.trail[i], m.pending[p]);
        assert m.trail[i].fk.action.Cascade?;
      }
    }
  }

  lemma CascadeDeletes(db: Db, pending: Writes, b: Because)
    requires b.row in pending && Does(db, b, pending[b.row]) && b.fk.action.Cascade?
    ensures pending[b.row].None?
  {
  }

  lemma AllUnreferenced(db: Db, direct: map<RowId, Datum>, order: seq<RowId>, log: seq<Moment>, m: Moment)
    requires Validated(db) && |log| == |order| + 1 && Logged(db, direct, order, log, m.pending) && log[|order|] == m
    requires Done(order, |order|) == direct.Keys
    ensures forall tables, id :: Closed(db, direct, tables) && Gone(direct, m.pending, id)
                                 && Lawful(db, tables, id.0, KeyOfDeleted(db, direct, id)) ==>
              Unreferenced(db, m.pending, id.0, KeyOfDeleted(db, direct, id))
  {
    hide Validated, Actions, Justified, Clear, KeyOfDeleted, Lawful, Unreferenced, NulledBy, Gone, Earlier, Closed;
    assert Outcome(db, direct, direct.Keys, m);
    forall tables, id | Closed(db, direct, tables) && Gone(direct, m.pending, id) && Lawful(db, tables, id.0, KeyOfDeleted(db, direct, id))
      ensures Unreferenced(db, m.pending, id.0, KeyOfDeleted(db, direct, id))
    {
      GoneEarlier(db, direct, m, id);
      LawfulUnreferenced(db, direct, tables, m, id.0, KeyOfDeleted(db, direct, id));
    }
  }

  lemma GoneEarlier(db: Db, direct: map<RowId, Datum>, m: Moment, id: RowId)
    requires Traced(db, m.pending, m.trail) && Gone(direct, m.pending, id)
    ensures Earlier(direct.Keys, m.trail, |m.trail|, id)
  {
    if id !in direct {
      var i :| 0 <= i < |m.trail| && m.trail[i].row == id;
      assert Does(db, m.trail[i], m.pending[id]);
    }
  }

  // ---------------------------------------------------------------------
  // What the deleted row was referenced by
  // ---------------------------------------------------------------------

  /** The row the session saw before it was deleted. */
  function Deleted(db: Db, p: RowId): Option<Row> {
    if p in db.staged && db.staged[p].Some? then db.staged[p] else if p in db.base then Some(db.base[p]) else None
  }

  /** The value children of the deleted row hold: that of the referenced column. */
  function Referenced(db: Db, fk: ForeignKey, p: RowId): Datum {
    if Deleted(db, p).Some? then Cell(Deleted(db, p).value, fk.refCol) else Null
  }

  /** Direct deletes come with the keys of rows the session sees. */
  ghost predicate KeysGiven(db: Db, direct: map<RowId, Datum>) {
    forall p :: p in direct ==> p in db.base && direct[p] == Cell(db.base[p], PkColumn(db, p.0))
  }

  /** No surviving row refers to a row deleted by a statement, when the deleted row held its
      own key in the referenced column and the conditions for that key held. */
  lemma NothingDangles(db: Db, direct: map<RowId, Datum>, tables: set<nat>, m: Moment, fk: ForeignKey, p: RowId, id: RowId)
    requires Validated(db) && DirectOk(db, direct) && KeysGiven(db, direct) && Outcome(db, direct, direct.Keys, m)
    requires fk in db.fks && fk.parent == p.0 && Gone(direct, m.pending, p) && id in Ids(db)
    requires Closed(db, direct, tables) && Lawful(db, tables, p.0, KeyOfDeleted(db, direct, p))
    requires Deleted(db, p).Some? ==> Referenced(db, fk, p) == Cell(Deleted(db, p).value, PkColumn(db, p.0))
    ensures !RefersNow(db, m.pending, fk, Referenced(db, fk, p), id)
  {
    hide Validated, Lawful, Closed, Refers, Actions, Justified, Clear, NulledBy;
    var v := KeyOfDeleted(db, direct, p);
    GoneEarlier(db, direct, m, p);
    LawfulUnreferenced(db, direct, tables, m, p.0, v);
    var f :| 0 <= f < |db.fks| && db.fks[f] == fk;
    assert !RefersNow(db, m.pending, db.fks[f], v, id);
    ReferencedIsKey(db, direct, m, fk, p);
  }

  lemma ReferencedIsKey(db: Db, direct: map<RowId, Datum>, m: Moment, fk: ForeignKey, p: RowId)
    requires DirectOk(db, direct) && KeysGiven(db, direct) && Gone(direct, m.pending, p)
    requires Justified(db, direct, direct.Keys, m.trail) && Traced(db, m.pending, m.trail)
    requires Deleted(db, p).Some? ==> Referenced(db, fk, p) == Cell(Deleted(db, p).value, PkColumn(db, p.0))
    ensures Referenced(db, fk, p) == KeyOfDeleted(db, direct, p)
  {
    hide Justified, Traced;
    if p !in direct {
      ActedWasThere(db, direct, m, p);
    }
  }

  lemma ActedWasThere(db: Db, direct: map<RowId, Datum>, m: Moment, p: RowId)
    requires Justified(db, direct, direct.Keys, m.trail) && Traced(db, m.pending, m.trail) && p in m.pending
    ensures Original(db, p).Some?
  {
    hide Does, Refers, Blocking, Overlooked, KeyOfDeleted, Earlier, Original;
    var i :| 0 <= i < |m.trail| && m.trail[i].row == p;
    assert Follows(db, direct, m.trail[i]);
  }
}
