/**
 The joined SELECT end to end, proved equal to the answer of the query as written.
 */
module JoinQuery {
  import opened Bytes
  import opened Sql
  import opened JoinOrder
  import opened JoinExec
  import opened Bags
  import opened JoinMeaning
  import opened JoinRows
  import JoinAnswer
  import opened JoinPlan

  function TrueRow(lib: Library, e: Expr, widths: seq<nat>, order: seq<nat>): Row -> bool {
    row => Eval(lib, e, ScopeOf(widths, order, row)) == Is(true)
  }

  /** Every column of `e` is found among the tables of `order`. */
  predicate InScope(e: Expr, widths: seq<nat>, order: seq<nat>) {
    forall c :: c in Columns(e) ==> Locate(widths, order, c).Some?
  }

  lemma NoneKept(f: Row -> bool)
    ensures Filter(f, []) == []
  {
  }

  /** Keep the rows where `e` is true; fail on the first row the evaluator rejects. */
  method FilterRows(lib: Library, e: Expr, widths: seq<nat>, order: seq<nat>, rows: seq<Row>) returns (out: Result<seq<Row>>)
    ensures out.Ok? ==> out.value == Filter(TrueRow(lib, e, widths, order), rows)
    ensures out.Ok? <==> forall r :: r in rows ==> Eval(lib, e, ScopeOf(widths, order, r)).Is?
  {
    hide Eval, Filter, ScopeOf;
    var kept: seq<Row> := [];
    assert Filter(TrueRow(lib, e, widths, order), rows[..0]) == [] by { NoneKept(TrueRow(lib, e, widths, order)); }
    for i := 0 to |rows|
      invariant kept == Filter(TrueRow(lib, e, widths, order), rows[..i])
      invariant forall j :: 0 <= j < i ==> Eval(lib, e, ScopeOf(widths, order, rows[j])).Is?
    {
      var holds := Eval(lib, e, ScopeOf(widths, order, rows[i]));
      if !holds.Is? {
        assert rows[i] in rows;
        return Err;
      }
      assert rows[..i + 1] == rows[..i] + [rows[i]];
      FilterSnoc(TrueRow(lib, e, widths, order), rows[..i], rows[i]);
      if holds.holds {
        kept := kept + [rows[i]];
      }
    }
    assert rows[..|rows|] == rows;
    return Ok(kept);
  }

  // ---------------------------------------------------------------------
  // Pre-filtered inputs
  // ---------------------------------------------------------------------

  /** Row numbers below `n` whose row is kept. */
  function Survivors(keep: Row -> bool, rows: seq<Row>, n: nat): seq<nat>
    requires n <= |rows|
  {
    if n == 0 then [] else Survivors(keep, rows, n - 1) + if keep(rows[n - 1]) then [n - 1] else []
  }

  lemma {:induction false} SurvivorsOk(keep: Row -> bool, rows: seq<Row>, n: nat)
    requires n <= |rows|
    ensures Unique(Survivors(keep, rows, n)) && InRange(Survivors(keep, rows, n), n)
    ensures forall i: nat :: i in Survivors(keep, rows, n) <==> i < n && keep(rows[i])
  {
    if n > 0 {
      SurvivorsOk(keep, rows, n - 1);
      var few := Survivors(keep, rows, n - 1);
      if n - 1 !in few {
        UniqueConcat(few, [n - 1]);
      }
    }
  }

  /** Fetching the survivors is filtering the rows. */
  lemma {:induction false} SurvivorsFetch(keep: Row -> bool, rows: seq<Row>, n: nat)
    requires n <= |rows| && InRange(Survivors(keep, rows, n), |rows|)
    ensures Fetch(rows, Survivors(keep, rows, n)) == Filter(keep, rows[..n])
  {
    if n > 0 {
      var few := Survivors(keep, rows, n - 1);
      SurvivorsOk(keep, rows, n - 1);
      SurvivorsFetch(keep, rows, n - 1);
      assert rows[..n] == rows[..n - 1] + [rows[n - 1]];
      FilterSnoc(keep, rows[..n - 1], rows[n - 1]);
      hide Filter, Unique;
      if keep(rows[n - 1]) {
        FetchPush(rows, few, n - 1);
      } else {
        assert few + [] == few;
      }
    }
  }

  /** The conjuncts pushed into table `t`: none for a table a LEFT join brings in. */
  function LocalFor(q: Query, t: nat): Option<Expr> {
    if Eligible(q, t) then LocalOf(q.where, t, q.Widths()) else None
  }

  function CandidatesFor(q: Query, t: nat): seq<nat>
    requires t < |q.tables|
  {
    match LocalFor(q, t)
    case None => AllOf(|q.tables[t].rows|)
    case Some(e) => Survivors(TrueRow(q.lib, e, q.Widths(), [t]), q.tables[t].rows, |q.tables[t].rows|)
  }

  function PlanCandidates(q: Query): (cands: Candidates)
    ensures |cands| == |q.tables| && forall t :: 0 <= t < |cands| ==> cands[t] == CandidatesFor(q, t)
  {
    seq(|q.tables|, t requires 0 <= t < |q.tables| => CandidatesFor(q, t))
  }

  lemma PlanCandidatesOk(q: Query)
    ensures CandidatesOf(q, PlanCandidates(q))
  {
    forall t | 0 <= t < |q.tables|
      ensures Unique(CandidatesFor(q, t)) && InRange(CandidatesFor(q, t), |q.tables[t].rows|)
    {
      if LocalFor(q, t).Some? {
        SurvivorsOk(TrueRow(q.lib, LocalFor(q, t).value, q.Widths(), [t]), q.tables[t].rows, |q.tables[t].rows|);
      }
    }
  }

  /** A row where a pushed conjunct is not true is in no row that passes WHERE. */
  lemma PlanDropsDoomed(q: Query)
    requires q.Valid()
    ensures DropsDoomed(q, PlanCandidates(q))
  {
    forall t: nat, i: nat | t < |q.tables| && i < |q.tables[t].rows| && i !in CandidatesFor(q, t)
      ensures Doomed(q, t, i)
    {
      assert AllOf(|q.tables[t].rows|)[i] == i;
      if LocalFor(q, t).Some? {
        var e := LocalFor(q, t).value;
        SurvivorsOk(TrueRow(q.lib, e, q.Widths(), [t]), q.tables[t].rows, |q.tables[t].rows|);
        forall p: Pick | t in p && p[t] == Some(i)
          ensures !WherePick(q)(p)
        {
          LocalImplied(q.lib, q.where.value, t, q.Widths(), PickScope(q, p));
          LocalScopes(q, e, t, i, p);
        }
      }
    }
  }

  lemma LocalScopes(q: Query, e: Expr, t: nat, i: nat, p: Pick)
    requires t < |q.tables| && i < |q.tables[t].rows| && t in p && p[t] == Some(i)
    requires forall c :: c in Columns(e) ==> c.table == t && Resolves(c, q.Widths())
    ensures Eval(q.lib, e, ScopeOf(q.Widths(), [t], q.tables[t].rows[i])) == Eval(q.lib, e, PickScope(q, p))
  {
    var s, s' := ScopeOf(q.Widths(), [t], q.tables[t].rows[i]), PickScope(q, p);
    forall c | c in Columns(e)
      ensures s(c) == s'(c)
    {
      assert [t][..0] == [];
      assert Locate(q.Widths(), [t], c) == Some(0 + c.pos);
    }
    EvalLocal(q.lib, e, s, s');
  }

  /** One input of the plan, pre-filtered. */
  method Input(q: Query, t: nat) returns (out: Result<seq<Row>>)
    requires q.Valid() && t < |q.tables|
    ensures out.Ok? ==> CandidatesOf(q, PlanCandidates(q)) && out.value == RowsOf(q, PlanCandidates(q), t)
    ensures (q.where.Some? ==> Supported(q.where.value)) ==> out.Ok?
  {
    PlanCandidatesOk(q);
    hide CandidatesOf;
    var rows := q.tables[t].rows;
    var local := None;
    if t == 0 || q.joins[t - 1].kind.Inner? {
      local := LocalPredicate(q.where, t, q.Widths());
    }
    assert local == LocalFor(q, t);
    if local.None? {
      assert Fetch(rows, AllOf(|rows|)) == rows;
      return Ok(rows);
    }
    InputScope(q, t);
    if !InScope(local.value, q.Widths(), [t]) {
      return Err;
    }
    out := FilterRows(q.lib, local.value, q.Widths(), [t], rows);
    SurvivorsOk(TrueRow(q.lib, local.value, q.Widths(), [t]), rows, |rows|);
    SurvivorsFetch(TrueRow(q.lib, local.value, q.Widths(), [t]), rows, |rows|);
    assert rows[..|rows|] == rows;
    if Supported(q.where.value) {
      LocalSupported(q.where.value, t, q.Widths());
      forall r: Row ensures Eval(q.lib, local.value, ScopeOf(q.Widths(), [t], r)).Is? {
        SupportedIs(q.lib, local.value, ScopeOf(q.Widths(), [t], r));
      }
    }
  }

  lemma InputScope(q: Query, t: nat)
    requires LocalFor(q, t).Some?
    ensures InScope(LocalFor(q, t).value, q.Widths(), [t])
  {
    LocalImplied(q.lib, q.where.value, t, q.Widths(), PickScope(q, map[]));
    assert [t][..0] == [];
  }

  // ---------------------------------------------------------------------
  // Hash keys over the query's tables
  // ---------------------------------------------------------------------

  /** The first equality of the AND spine between a column of table `t` and one of another
      table; the column of the other table first. */
  function EquiColumns(on: Expr, t: nat): Option<(Column, Column)> {
    match on
    case And(a, b) =>
      var first := EquiColumns(a, t);
      if first.Some? then first else EquiColumns(b, t)
    case Cmp(Col(x), Eq, Col(y)) =>
      if x.table != t && y.table == t then Some((x, y))
      else if x.table == t && y.table != t then Some((y, x))
      else None
    case _ => None
  }

  /** No equi-join of the query compares a BOOL value with a number, or an INT with
      the FLOAT it rounds to. */
  ghost predicate NoMixing(q: Query) {
    forall t :: 0 < t <= |q.joins| && EquiColumns(On(q.joins, t), t).Some? ==>
      NoMixAt(q, EquiColumns(On(q.joins, t), t).value.0, EquiColumns(On(q.joins, t), t).value.1)
  }

  ghost predicate NoMixAt(q: Query, x: Column, y: Column) {
    forall i: nat, j: nat :: !Mixed(q.lib, Cell(q.RowOf(x.table, i), x.pos), Cell(q.RowOf(y.table, j), y.pos))
  }

  /** Kinds of values; NULL goes with every kind. */
  predicate OfOneKind(a: Datum, b: Datum) {
    || a.Null? || b.Null? || (a.Int? && b.Int?) || (a.Float? && b.Float?) || (a.Text? && b.Text?) || (a.Bool? && b.Bool?)
    || (a.DateTime? && b.DateTime?)
  }

  ghost predicate OneKindAt(q: Query, x: Column, y: Column) {
    forall i: nat, j: nat :: OfOneKind(Cell(q.RowOf(x.table, i), x.pos), Cell(q.RowOf(y.table, j), y.pos))
  }

  /** When the two columns of each equi-join hold values of one kind, nothing is mixed. */
  lemma OneKindDoesNotMix(q: Query)
    requires forall t :: 0 < t <= |q.joins| && EquiColumns(On(q.joins, t), t).Some? ==>
               OneKindAt(q, EquiColumns(On(q.joins, t), t).value.0, EquiColumns(On(q.joins, t), t).value.1)
    ensures NoMixing(q)
  {
    hide EquiColumns;
    forall t | 0 < t <= |q.joins| && EquiColumns(On(q.joins, t), t).Some?
      ensures NoMixAt(q, EquiColumns(On(q.joins, t), t).value.0, EquiColumns(On(q.joins, t), t).value.1)
    {
      var (x, y) := EquiColumns(On(q.joins, t), t).value;
      assert OneKindAt(q, x, y);
      forall i: nat, j: nat ensures !Mixed(q.lib, Cell(q.RowOf(x.table, i), x.pos), Cell(q.RowOf(y.table, j), y.pos)) {
        assert OfOneKind(Cell(q.RowOf(x.table, i), x.pos), Cell(q.RowOf(y.table, j), y.pos));
      }
    }
  }

  lemma LocateSide(widths: seq<nat>, order: seq<nat>, c: Column)
    requires order != [] && Locate(widths, order, c).Some?
    ensures var init, t := order[..|order| - 1], order[|order| - 1];
            && (c.table == t ==> Locate(widths, order, c) == Some(Width(widths, init) + c.pos))
            && (c.table != t ==> Locate(widths, order, c) == Locate(widths, init, c) && Locate(widths, init, c).value < Width(widths, init))
  {
  }

  /** The executor's key positions are those of the first equi pair of columns. */
  lemma {:induction false} EquiLocated(on: Expr, widths: seq<nat>, order: seq<nat>)
    requires order != [] && InScope(on, widths, order)
    ensures var init, t := order[..|order| - 1], order[|order| - 1];
            match EquiJoin(on, Width(widths, init), widths, order)
            case None => true
            case Some((i, k)) =>
              && EquiColumns(on, t).Some?
              && var (x, y) := EquiColumns(on, t).value;
                 y.table == t && Locate(widths, init, x) == Some(i) && k == Width(widths, init) + y.pos
    ensures EquiColumns(on, order[|order| - 1]).Some? ==>
              EquiJoin(on, Width(widths, order[..|order| - 1]), widths, order).Some?
  {
    match on
    case And(a, b) =>
      EquiLocated(a, widths, order);
      EquiLocated(b, widths, order);
    case Cmp(Col(x), Eq, Col(y)) =>
      assert x in Columns(on) && y in Columns(on);
      LocateSide(widths, order, x);
      LocateSide(widths, order, y);
    case _ =>
  }

  /** Without mixing, no pair of an executed row and a new row is a mixed hit. */
  lemma NoMixedHit(q: Query, p: Pick, order: seq<nat>, r: Row)
    requires q.Valid() && NoMixing(q) && Prefix(order, |q.tables|) && |order| > 1
    requires 0 < order[|order| - 1] <= |q.joins|
    requires InScope(On(q.joins, order[|order| - 1]), q.Widths(), order)
    requires InTables(q, p) && p.Keys == Elems(order[..|order| - 1]) && r in q.tables[order[|order| - 1]].rows
    ensures var st := StepFor(q, order);
            KeysFor(st).Some? ==> !MixedHit(st, KeysFor(st).value, FlatRow(q, p, order[..|order| - 1]), r)
  {
    var init, t := order[..|order| - 1], order[|order| - 1];
    var st, l := StepFor(q, order), FlatRow(q, p, init);
    EquiLocated(st.on, q.Widths(), order);
    if KeysFor(st).Some? {
      var keys := KeysFor(st).value;
      var (x, y) := EquiColumns(st.on, t).value;
      assert keys.right == y.pos && Locate(q.Widths(), init, x) == Some(keys.left);
      hide EquiJoin, EquiColumns, FlatRow, Joins, Mixed;
      ElemsIn(init);
      FlatCell(q, p, init, x);
      var j :| 0 <= j < |q.tables[t].rows| && q.tables[t].rows[j] == r;
      assert NoMixAt(q, x, y);
      if p[x.table].Some? {
        assert q.RowOf(t, j) == r;
        assert !Mixed(q.lib, Cell(q.RowOf(x.table, p[x.table].value), x.pos), Cell(q.RowOf(y.table, j), y.pos));
      } else {
        assert Cell(l, keys.left) == Null;
        NullNotMixed(q.lib, Cell(r, keys.right));
      }
    }
  }

  lemma NullNotMixed(lib: Library, d: Datum)
    ensures !Mixed(lib, Null, d)
  {
  }

  // ---------------------------------------------------------------------
  // The whole SELECT
  // ---------------------------------------------------------------------

  /** Every ON clause and WHERE is of a shape the evaluator accepts and resolves. */
  ghost predicate Sound(q: Query) {
    && ValidOns(q.joins, q.Widths())
    && (forall t :: 0 < t <= |q.joins| ==> Supported(On(q.joins, t)))
    && (q.where.Some? ==> Supported(q.where.value) && forall c :: c in Columns(q.where.value) ==> Resolves(c, q.Widths()))
  }

  function RowExpander(st: Step, right: seq<Row>): Row -> seq<Row>
    requires st.Valid()
  {
    l => Expand(st, None, l, right)
  }

  lemma {:induction false} NestedIsFlatMap(st: Step, left: seq<Row>, right: seq<Row>)
    requires st.Valid()
    ensures Nested(st, None, left, right) == FlatMap(RowExpander(st, right), left)
  {
    if left != [] {
      NestedIsFlatMap(st, left[..|left| - 1], right);
    }
  }

  lemma NestedPermutes(st: Step, left: seq<Row>, left': seq<Row>, right: seq<Row>)
    requires st.Valid() && multiset(left) == multiset(left')
    ensures multiset(Nested(st, None, left, right)) == multiset(Nested(st, None, left', right))
  {
    NestedIsFlatMap(st, left, right);
    NestedIsFlatMap(st, left', right);
    FlatMapPermutes(RowExpander(st, right), left, left');
  }

  lemma {:induction false} LocatedIn(widths: seq<nat>, order: seq<nat>, c: Column)
    ensures Locate(widths, order, c).Some? ==> c.table in order
    ensures c.table in order && Distinct(order) && c.pos < WidthOf(widths, c.table) ==> Locate(widths, order, c).Some?
  {
    if order != [] {
      var init := order[..|order| - 1];
      LocatedIn(widths, init, c);
      assert order == init + [order[|order| - 1]];
    }
  }

  lemma InScopeIn(e: Expr, widths: seq<nat>, order: seq<nat>)
    requires Distinct(order)
    ensures InScope(e, widths, order) ==> Tables(e) <= Elems(order)
    ensures Tables(e) <= Elems(order) && (forall c :: c in Columns(e) ==> Resolves(c, widths)) ==> InScope(e, widths, order)
  {
    ElemsIn(order);
    forall c | c in Columns(e)
      ensures Locate(widths, order, c).Some? ==> c.table in order
      ensures c.table in order && Resolves(c, widths) ==> Locate(widths, order, c).Some?
    {
      LocatedIn(widths, order, c);
    }
    if Tables(e) <= Elems(order) {
      assert forall c :: c in Columns(e) ==> c.table in Tables(e);
    }
  }

  lemma PrefixTake(order: seq<nat>, n: nat, k: nat)
    requires Prefix(order, n) && 0 < k <= |order|
    ensures Prefix(order[..k], n)
  {
  }

  lemma RunHasPick(q: Query, cands: Candidates, order: seq<nat>, l: Row) returns (p: Pick)
    requires q.Valid() && CandidatesOf(q, cands) && Prefix(order, |q.tables|) && l in NestedRun(q, cands, order)
    ensures InTables(q, p) && p.Keys == Elems(order) && l == FlatRow(q, p, order)
  {
    RunFlat(q, cands, order);
    RunKeys(q, cands, order);
    RunInTables(q, cands, order);
    hide NestedRun, PickRun, InTables, Elems, FlatRow, Prefix, CandidatesOf;
    var picks := PickRun(q, cands, order);
    var i :| 0 <= i < |picks| && Map(Flat(q, order), picks)[i] == l;
    p := picks[i];
    assert p in picks;
  }

  /** A permuted left side and a step that computes the join keep the run, permuted. */
  lemma StepKeepsRun(q: Query, cands: Candidates, order: seq<nat>, left: seq<Row>, out: seq<Row>)
    requires q.Valid() && CandidatesOf(q, cands) && Prefix(order, |q.tables|) && |order| > 1
    requires Prefix(order[..|order| - 1], |q.tables|) && 0 < order[|order| - 1] < |q.tables|
    requires multiset(left) == multiset(NestedRun(q, cands, order[..|order| - 1]))
    requires multiset(out) == multiset(Nested(StepFor(q, order), None, left, RowsOf(q, cands, order[|order| - 1])))
    ensures multiset(out) == multiset(NestedRun(q, cands, order))
  {
    NestedPermutes(StepFor(q, order), left, NestedRun(q, cands, order[..|order| - 1]), RowsOf(q, cands, order[|order| - 1]));
  }

  lemma StepNoMix(q: Query, cands: Candidates, order: seq<nat>, left: seq<Row>)
    requires q.Valid() && NoMixing(q) && CandidatesOf(q, cands) && Prefix(order, |q.tables|) && |order| > 1
    requires Prefix(order[..|order| - 1], |q.tables|) && 0 < order[|order| - 1] < |q.tables|
    requires InScope(On(q.joins, order[|order| - 1]), q.Widths(), order)
    requires multiset(left) == multiset(NestedRun(q, cands, order[..|order| - 1]))
    ensures var st := StepFor(q, order);
            KeysFor(st).Some? ==>
              forall l, r :: l in left && r in RowsOf(q, cands, order[|order| - 1]) ==> !MixedHit(st, KeysFor(st).value, l, r)
  {
    var st, init, t := StepFor(q, order), order[..|order| - 1], order[|order| - 1];
    var run := NestedRun(q, cands, init);
    hide NestedRun, MixedHit, KeysFor, NoMixing, InScope, Elems;
    if KeysFor(st).Some? {
      forall l, r | l in left && r in RowsOf(q, cands, t)
        ensures !MixedHit(st, KeysFor(st).value, l, r)
      {
        assert l in multiset(left);
        var p := RunHasPick(q, cands, init, l);
        NoMixedHit(q, p, order, r);
      }
    }
  }

  /** A supported ON clause in scope is accepted on every pair. */
  lemma StepClean(q: Query, order: seq<nat>, l: Row, r: Row)
    requires |order| > 1 && 0 < order[|order| - 1] <= |q.joins|
    requires Supported(On(q.joins, order[|order| - 1])) && InScope(On(q.joins, order[|order| - 1]), q.Widths(), order)
    ensures Clean(StepFor(q, order), KeysFor(StepFor(q, order)), l, r)
  {
    SupportedIs(q.lib, On(q.joins, order[|order| - 1]), ScopeOf(q.Widths(), order, l + r));
  }

  lemma OnsInPrefixPush(joins: seq<JoinClause>, order: seq<nat>, k: nat)
    requires 0 < k < |order| && 0 < order[k] <= |joins| && OnsInPrefix(joins, order[..k])
    requires Tables(On(joins, order[k])) <= Elems(order[..k + 1])
    ensures OnsInPrefix(joins, order[..k + 1])
  {
    hide Tables, Elems, On;
    var a, b := order[..k], order[..k + 1];
    forall i | 0 < i < |b| && 0 < b[i] <= |joins|
      ensures Tables(On(joins, b[i])) <= Elems(b[..i + 1])
    {
      if i < k {
        assert a[i] == b[i] && a[..i + 1] == b[..i + 1];
      } else {
        assert b[..i + 1] == b;
      }
    }
  }

  lemma ValidOnPrefix(joins: seq<JoinClause>, widths: seq<nat>)
    requires ValidOns(joins, widths) && |widths| == |joins| + 1
    ensures OnsInPrefix(joins, Written(|widths|))
  {
    var order := Written(|widths|);
    forall i | 0 < i < |order| && 0 < order[i] <= |joins|
      ensures Tables(On(joins, order[i])) <= Elems(order[..i + 1])
    {
      forall t | t in Tables(On(joins, order[i])) ensures t in Elems(order[..i + 1]) {
        assert order[..i + 1][t] == t;
      }
    }
  }

  /** Inputs of all tables. */
  method Inputs(q: Query) returns (out: Result<seq<seq<Row>>>)
    requires q.Valid()
    ensures CandidatesOf(q, PlanCandidates(q))
    ensures out.Ok? ==> |out.value| == |q.tables|
    ensures out.Ok? ==> forall t :: 0 <= t < |q.tables| ==> out.value[t] == RowsOf(q, PlanCandidates(q), t)
    ensures (q.where.Some? ==> Supported(q.where.value)) ==> out.Ok?
  {
    PlanCandidatesOk(q);
    hide RowsOf, Supported;
    var inputs: seq<seq<Row>> := [];
    for t := 0 to |q.tables|
      invariant |inputs| == t
      invariant forall u :: 0 <= u < t ==> inputs[u] == RowsOf(q, PlanCandidates(q), u)
    {
      var input := Input(q, t);
      if input.Err? {
        return Err;
      }
      inputs := inputs + [input.value];
    }
    return Ok(inputs);
  }

  lemma RowsOfWidth(q: Query, cands: Candidates, t: nat)
    requires q.Valid() && CandidatesOf(q, cands) && t < |q.tables|
    ensures Rows(RowsOf(q, cands, t), WidthOf(q.Widths(), t))
  {
  }

  /** Left-deep joins in the planned order; each ON clause is validated against its prefix. */
  method LeftDeep(q: Query, order: seq<nat>, inputs: seq<seq<Row>>, ghost cands: Candidates) returns (out: Result<seq<Row>>)
    requires q.Valid() && CandidatesOf(q, cands) && IsOrder(order, |q.tables|) && |inputs| == |q.tables|
    requires forall t :: 0 <= t < |q.tables| ==> inputs[t] == RowsOf(q, cands, t)
    ensures out.Ok? ==> OnsInPrefix(q.joins, order)
    ensures out.Ok? && NoMixing(q) ==> Prefix(order, |q.tables|) && multiset(out.value) == multiset(NestedRun(q, cands, order))
    ensures Sound(q) && OnsInPrefix(q.joins, order) ==> out.Ok?
  {
    PrefixOfOrder(order, |q.tables|);
    var rows := inputs[0];
    ghost var n := |q.tables|;
    LeftDeepStart(q, cands, order);
    hide NestedRun, OnsInPrefix, NoMixing, CandidatesOf, Prefix, Elems, Tables, RowsOf, Width, InScope, Rows, IsOrder, Sound;
    var k := 1;
    while k < |order|
      invariant 1 <= k <= |order| && Prefix(order[..k], n)
      invariant Rows(rows, Width(q.Widths(), order[..k])) && OnsInPrefix(q.joins, order[..k])
      invariant NoMixing(q) ==> multiset(rows) == multiset(NestedRun(q, cands, order[..k]))
    {
      var next := DeepStep(q, order, k, rows, inputs[order[k]], cands);
      if next.Err? {
        return Err;
      }
      rows := next.value;
      k := k + 1;
    }
    assert order[..|order|] == order;
    return Ok(rows);
  }

  /** One table joined to the prefix before it. */
  method DeepStep(q: Query, order: seq<nat>, k: nat, rows: seq<Row>, input: seq<Row>, ghost cands: Candidates) returns (out: Result<seq<Row>>)
    requires q.Valid() && CandidatesOf(q, cands) && IsOrder(order, |q.tables|) && 0 < k < |order|
    requires order[k] < |q.tables| && input == RowsOf(q, cands, order[k]) && Prefix(order[..k], |q.tables|)
    requires Rows(rows, Width(q.Widths(), order[..k])) && OnsInPrefix(q.joins, order[..k])
    requires NoMixing(q) ==> multiset(rows) == multiset(NestedRun(q, cands, order[..k]))
    ensures out.Ok? ==> Prefix(order[..k + 1], |q.tables|) && OnsInPrefix(q.joins, order[..k + 1])
    ensures out.Ok? ==> Rows(out.value, Width(q.Widths(), order[..k + 1]))
    ensures out.Ok? && NoMixing(q) ==> multiset(out.value) == multiset(NestedRun(q, cands, order[..k + 1]))
    ensures Sound(q) && OnsInPrefix(q.joins, order) ==> out.Ok?
  {
    hide NestedRun, OnsInPrefix, NoMixing, CandidatesOf, Prefix, Elems, Tables, RowsOf, Width, InScope, Rows, IsOrder, Sound;
    LeftDeepOrder(q, cands, order, k);
    var t := order[k];
    if !InScope(On(q.joins, t), q.Widths(), order[..k + 1]) {
      return Err;
    }
    OnsInPrefixPush(q.joins, order, k);
    RowsOfWidth(q, cands, t);
    out := JoinStep(StepFor(q, order[..k + 1]), rows, input);
    if Sound(q) {
      SoundStep(q, order[..k + 1], rows, input);
    }
    if out.Ok? && NoMixing(q) {
      StepNoMix(q, cands, order[..k + 1], rows);
      StepKeepsRun(q, cands, order[..k + 1], rows, out.value);
    }
  }

  lemma LeftDeepStart(q: Query, cands: Candidates, order: seq<nat>)
    requires q.Valid() && CandidatesOf(q, cands) && Prefix(order, |q.tables|)
    ensures Prefix(order[..1], |q.tables|) && OnsInPrefix(q.joins, order[..1])
    ensures NestedRun(q, cands, order[..1]) == RowsOf(q, cands, 0)
    ensures Rows(RowsOf(q, cands, 0), Width(q.Widths(), order[..1]))
  {
    PrefixTake(order, |q.tables|, 1);
    RowsOfWidth(q, cands, 0);
    assert order[..1][..0] == [] && order[..1] == [0];
  }

  /** Facts about the prefix one step longer. */
  lemma LeftDeepOrder(q: Query, cands: Candidates, order: seq<nat>, k: nat)
    requires q.Valid() && CandidatesOf(q, cands) && IsOrder(order, |q.tables|) && 0 < k < |order|
    ensures |cands| == |q.tables| && Prefix(order[..k + 1], |q.tables|)
    ensures order[..k + 1][..k] == order[..k] && order[..k + 1][k] == order[k] && 0 < order[k] < |q.tables|
    ensures InScope(On(q.joins, order[k]), q.Widths(), order[..k + 1]) ==>
              Tables(On(q.joins, order[k])) <= Elems(order[..k + 1])
    ensures Sound(q) && OnsInPrefix(q.joins, order) ==> InScope(On(q.joins, order[k]), q.Widths(), order[..k + 1])
  {
    assert order[0] != order[k];
    PrefixTake(order, |q.tables|, k + 1);
    InScopeIn(On(q.joins, order[k]), q.Widths(), order[..k + 1]);
  }

  lemma SoundStep(q: Query, order: seq<nat>, left: seq<Row>, right: seq<Row>)
    requires Sound(q) && |order| > 1 && 0 < order[|order| - 1] <= |q.joins|
    requires InScope(On(q.joins, order[|order| - 1]), q.Widths(), order)
    ensures forall l, r :: l in left && r in right ==> Clean(StepFor(q, order), KeysFor(StepFor(q, order)), l, r)
  {
    forall l, r | l in left && r in right
      ensures Clean(StepFor(q, order), KeysFor(StepFor(q, order)), l, r)
    {
      StepClean(q, order, l, r);
    }
  }

  /** The executor: with valid ON clauses and no mixed pair of values in an equi-join,
      whatever the size estimates, a run that succeeds returns the rows of the query as
      written, up to row and column order; a sound query always succeeds. */
  method SelectJoined(q: Query, sizes: seq<nat>) returns (out: Result<(seq<Row>, seq<nat>)>)
    requires q.Valid()
    ensures out.Ok? ==> IsOrder(out.value.1, |q.tables|)
    ensures out.Ok? && ValidOns(q.joins, q.Widths()) && NoMixing(q) ==>
              && multiset(Map(ToWritten(q, out.value.1), out.value.0)) == multiset(Answer(q))
              && forall row :: row in out.value.0 ==> IsAnswer(q, ToWritten(q, out.value.1)(row))
    ensures Sound(q) ==> out.Ok?
  {
    hide NestedRun, OnsInPrefix, NoMixing, Prefix, Elems, Tables, RowsOf, InScope, IsOrder, Star, Greedy, KeepsBarriers, Answer;
    var order := OrderJoins(q.joins, q.Widths(), sizes);
    var inputs := Inputs(q);
    if inputs.Err? {
      return Err;
    }
    ghost var cands := PlanCandidates(q);
    var joined := LeftDeep(q, order, inputs.value, cands);
    if joined.Err? {
      return Err;
    }
    var rows := joined.value;
    if q.where.Some? {
      SoundWhere(q, order, rows);
      if !InScope(q.where.value, q.Widths(), order) {
        return Err;
      }
      var kept := FilterRows(q.lib, q.where.value, q.Widths(), order, rows);
      if kept.Err? {
        return Err;
      }
      rows := kept.value;
    }
    if ValidOns(q.joins, q.Widths()) && NoMixing(q) {
      WhereSame(q, order, joined.value);
      SelectMeaning(q, order, joined.value, rows);
      RowsCombine(q, order, rows);
    }
    return Ok((rows, order));
  }

  lemma SoundWhere(q: Query, order: seq<nat>, rows: seq<Row>)
    requires q.Valid() && IsOrder(order, |q.tables|) && q.where.Some?
    ensures Sound(q) ==> InScope(q.where.value, q.Widths(), order)
    ensures Sound(q) ==> forall r :: r in rows ==> Eval(q.lib, q.where.value, ScopeOf(q.Widths(), order, r)).Is?
  {
    if Sound(q) {
      OrderElems(order, |q.tables|);
      InScopeIn(q.where.value, q.Widths(), order);
      forall r | r in rows ensures Eval(q.lib, q.where.value, ScopeOf(q.Widths(), order, r)).Is? {
        SupportedIs(q.lib, q.where.value, ScopeOf(q.Widths(), order, r));
      }
    }
  }

  lemma {:induction false} FilterSame<T>(f: T -> bool, g: T -> bool, s: seq<T>)
    requires forall x :: f(x) == g(x)
    ensures Filter(f, s) == Filter(g, s)
  {
    if s != [] {
      FilterSame(f, g, s[..|s| - 1]);
    }
  }

  lemma {:induction false} FilterAll<T>(f: T -> bool, s: seq<T>)
    requires forall x :: f(x)
    ensures Filter(f, s) == s
  {
    if s != [] {
      FilterAll(f, s[..|s| - 1]);
    }
  }

  lemma WhereSame(q: Query, order: seq<nat>, rows: seq<Row>)
    ensures q.where.None? ==> Filter(WhereRow(q, order), rows) == rows
    ensures q.where.Some? ==>
              Filter(WhereRow(q, order), rows) == Filter(TrueRow(q.lib, q.where.value, q.Widths(), order), rows)
  {
    if q.where.None? {
      FilterAll(WhereRow(q, order), rows);
    } else {
      FilterSame(WhereRow(q, order), TrueRow(q.lib, q.where.value, q.Widths(), order), rows);
    }
  }

  lemma SelectMeaning(q: Query, order: seq<nat>, joined: seq<Row>, rows: seq<Row>)
    requires q.Valid() && ValidOns(q.joins, q.Widths()) && IsOrder(order, |q.tables|) && OnsInPrefix(q.joins, order)
    requires CandidatesOf(q, PlanCandidates(q)) && Prefix(order, |q.tables|)
    requires multiset(joined) == multiset(NestedRun(q, PlanCandidates(q), order))
    requires rows == Filter(WhereRow(q, order), joined)
    ensures multiset(Map(ToWritten(q, order), rows)) == multiset(Answer(q))
  {
    hide NestedRun, OnsInPrefix, Prefix, CandidatesOf, IsOrder, Star, Answer, WhereRow, ValidOns, DropsDoomed;
    var cands := PlanCandidates(q);
    PlanDropsDoomed(q);
    ValidOnPrefix(q.joins, q.Widths());
    PlanKeepsAnswer(q, cands, order);
    FilterPermutes(WhereRow(q, order), joined, NestedRun(q, cands, order));
    MapPermutes(ToWritten(q, order), rows, Filter(WhereRow(q, order), NestedRun(q, cands, order)));
  }

  /** The row is made of rows of the tables, or NULLs under LEFT, that satisfy every clause. */
  ghost predicate IsAnswer(q: Query, row: Row)
    requires q.Valid()
  {
    exists c :: JoinAnswer.Combines(q, c, row)
  }

  lemma RowsCombine(q: Query, order: seq<nat>, rows: seq<Row>)
    requires q.Valid() && ValidOns(q.joins, q.Widths())
    requires multiset(Map(ToWritten(q, order), rows)) == multiset(Answer(q))
    ensures forall row :: row in rows ==> IsAnswer(q, ToWritten(q, order)(row))
  {
    hide Star, Answer, OnsInPrefix, ValidOns, JoinAnswer.Combines;
    ValidOnPrefix(q.joins, q.Widths());
    var cs := JoinAnswer.AnswerIs(q);
    forall row | row in rows ensures IsAnswer(q, ToWritten(q, order)(row)) {
      var i :| 0 <= i < |rows| && rows[i] == row;
      var all := Map(ToWritten(q, order), rows);
      assert all[i] in multiset(all);
      assert all[i] in Answer(q);
      var j :| 0 <= j < |Answer(q)| && Answer(q)[j] == all[i];
    }
  }
}
