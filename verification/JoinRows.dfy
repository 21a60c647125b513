/**
 Concatenated rows against picks: the executor's rows are the flattened picks, so planning
 never changes the filtered answer.
 */
module JoinRows {
  import opened Bytes
  import opened Sql
  import opened JoinOrder
  import opened JoinExec
  import opened Bags
  import opened JoinMeaning

  function FlatRow(q: Query, p: Pick, order: seq<nat>): Row {
    if order == [] then [] else FlatRow(q, p, order[..|order| - 1]) + Piece(q, p, order[|order| - 1])
  }

  function Flat(q: Query, order: seq<nat>): Pick -> Row { p => FlatRow(q, p, order) }

  ghost predicate InTables(q: Query, p: Pick) {
    forall t :: t in p ==> t < |q.tables| && (p[t].Some? ==> p[t].value < |q.tables[t].rows|)
  }

  lemma PieceWidth(q: Query, p: Pick, t: nat)
    requires q.Valid() && InTables(q, p) && t in p
    ensures |Piece(q, p, t)| == WidthOf(q.Widths(), t)
  {
  }

  lemma {:induction false} FlatWidth(q: Query, p: Pick, order: seq<nat>)
    requires q.Valid() && InTables(q, p) && forall t :: t in order ==> t in p
    ensures |FlatRow(q, p, order)| == Width(q.Widths(), order)
  {
    if order != [] {
      FlatWidth(q, p, order[..|order| - 1]);
      PieceWidth(q, p, order[|order| - 1]);
    }
  }

  /** A located column of a flattened pick is that column of the row picked for its table. */
  lemma {:induction false} FlatCell(q: Query, p: Pick, order: seq<nat>, c: Column)
    requires q.Valid() && InTables(q, p) && forall t :: t in order ==> t in p
    ensures match Locate(q.Widths(), order, c)
            case None => !(c.table in order && c.pos < WidthOf(q.Widths(), c.table)) || !Distinct(order)
            case Some(i) =>
              && c.table in order && c.pos < WidthOf(q.Widths(), c.table)
              && Cell(FlatRow(q, p, order), i) == Cell(Piece(q, p, c.table), c.pos)
  {
    if order != [] {
      var init, last := order[..|order| - 1], order[|order| - 1];
      FlatCell(q, p, init, c);
      FlatWidth(q, p, init);
      PieceWidth(q, p, last);
      assert order == init + [last];
    }
  }

  /** The evaluator sees the same values in a flattened pick as in the pick. */
  lemma EvalFlat(q: Query, e: Expr, p: Pick, order: seq<nat>)
    requires q.Valid() && InTables(q, p) && Distinct(order) && p.Keys == Elems(order)
    ensures Eval(q.lib, e, ScopeOf(q.Widths(), order, FlatRow(q, p, order))) == Eval(q.lib, e, PickScope(q, p))
  {
    ElemsIn(order);
    var s, t := ScopeOf(q.Widths(), order, FlatRow(q, p, order)), PickScope(q, p);
    forall c: Column ensures s(c) == t(c) {
      hide FlatRow, Eval;
      FlatCell(q, p, order, c);
    }
    EvalLocal(q.lib, e, s, t);
  }

  lemma {:induction false} FlatLocal(q: Query, p: Pick, x: Pick, order: seq<nat>)
    requires AgreeOn(p, x, Elems(order))
    ensures FlatRow(q, p, order) == FlatRow(q, x, order)
  {
    ElemsIn(order);
    if order != [] {
      var init := order[..|order| - 1];
      ElemsIn(init);
      FlatLocal(q, p, x, init);
      assert order[|order| - 1] in order;
    }
  }

  // ---------------------------------------------------------------------
  // One join step
  // ---------------------------------------------------------------------

  function StepFor(q: Query, order: seq<nat>): Step
    requires |order| > 1 && 0 < order[|order| - 1] <= |q.joins|
  {
    var t := order[|order| - 1];
    Step(q.lib, On(q.joins, t), q.joins[t - 1].kind, q.Widths(), order)
  }

  lemma TakeRow(q: Query, p: Pick, order: seq<nat>, choice: Option<nat>)
    requires Prefix(order, |q.tables|) && |order| > 1 && q.Valid() && InTables(q, p)
    requires p.Keys == Elems(order[..|order| - 1])
    requires var t := order[|order| - 1]; t < |q.tables| && (choice.Some? ==> choice.value < |q.tables[t].rows|)
    ensures var t := order[|order| - 1];
            var x := p[t := choice];
            && InTables(q, x) && x.Keys == Elems(order)
            && FlatRow(q, x, order) == FlatRow(q, p, order[..|order| - 1]) +
                 match choice { case Some(i) => q.tables[t].rows[i] case None => Nulls(q.tables[t].width) }
  {
    PrefixInit(order, |q.tables|);
    var init, t := order[..|order| - 1], order[|order| - 1];
    hide Elems;
    FlatLocal(q, p, p[t := choice], init);
  }

  /** Joining a flattened pick with rows of the next table flattens its hits. */
  lemma {:induction false} HitsFlat(q: Query, p: Pick, order: seq<nat>, rows: seq<nat>)
    requires q.Valid() && Prefix(order, |q.tables|) && |order| > 1 && InTables(q, p)
    requires p.Keys == Elems(order[..|order| - 1])
    requires 0 < order[|order| - 1] <= |q.joins| && InRange(rows, |q.tables[order[|order| - 1]].rows|)
    ensures var t := order[|order| - 1];
            Hits(StepFor(q, order), None, FlatRow(q, p, order[..|order| - 1]), Fetch(q.tables[t].rows, rows)) ==
            Map(Flat(q, order), PickHits(q, p, t, rows))
  {
    var t := order[|order| - 1];
    if rows != [] {
      var short, i := rows[..|rows| - 1], rows[|rows| - 1];
      HitsFlat(q, p, order, short);
      var st, l, all := StepFor(q, order), FlatRow(q, p, order[..|order| - 1]), q.tables[t].rows;
      assert Fetch(all, rows) == Fetch(all, short) + [all[i]];
      HitsSnoc(st, None, l, Fetch(all, short), all[i]);
      PairFlat(q, p, order, i);
      hide Hits, OnTrue, Joins, FlatRow, Elems, Prefix, InTables;
      MapSnoc(Flat(q, order), PickHits(q, p, t, short), p[t := Some(i)]);
      assert Flat(q, order)(p[t := Some(i)]) == l + all[i];
    }
  }

  lemma PairFlat(q: Query, p: Pick, order: seq<nat>, i: nat)
    requires q.Valid() && Prefix(order, |q.tables|) && |order| > 1 && InTables(q, p)
    requires p.Keys == Elems(order[..|order| - 1])
    requires 0 < order[|order| - 1] <= |q.joins| && i < |q.tables[order[|order| - 1]].rows|
    ensures var t := order[|order| - 1];
            var l, r := FlatRow(q, p, order[..|order| - 1]), q.tables[t].rows[i];
            && FlatRow(q, p[t := Some(i)], order) == l + r
            && (Joins(StepFor(q, order), None, l, r) <==> OnTrue(q, p[t := Some(i)], t))
  {
    var t := order[|order| - 1];
    TakeRow(q, p, order, Some(i));
    hide FlatRow, Elems, Eval;
    EvalFlat(q, On(q.joins, t), p[t := Some(i)], order);
  }

  lemma MapConcat<T, U>(f: T -> U, s: seq<T>, t: seq<T>)
    ensures Map(f, s + t) == Map(f, s) + Map(f, t)
  {
  }

  lemma ExpandFlat(q: Query, cands: Candidates, p: Pick, order: seq<nat>)
    requires q.Valid() && CandidatesOf(q, cands) && Prefix(order, |q.tables|) && |order| > 1 && InTables(q, p)
    requires p.Keys == Elems(order[..|order| - 1]) && 0 < order[|order| - 1] <= |q.joins|
    ensures var t := order[|order| - 1];
            Expand(StepFor(q, order), None, FlatRow(q, p, order[..|order| - 1]), Fetch(q.tables[t].rows, cands[t])) ==
            Map(Flat(q, order), PickExpand(q, cands, p, t))
  {
    var t := order[|order| - 1];
    HitsFlat(q, p, order, cands[t]);
    TakeRow(q, p, order, None);
    hide Hits, PickHits, FlatRow, Elems;
    assert q.Widths()[t] == q.tables[t].width;
    MapSnoc(Flat(q, order), [], p[t := None]);
    assert [] + [p[t := None]] == [p[t := None]];
    assert Flat(q, order)(p[t := None]) == FlatRow(q, p, order[..|order| - 1]) + Nulls(q.tables[t].width);
  }

  /** One step over flattened picks flattens one step over picks. */
  lemma {:induction false} NestedFlat(q: Query, cands: Candidates, order: seq<nat>, ps: seq<Pick>)
    requires q.Valid() && CandidatesOf(q, cands) && Prefix(order, |q.tables|) && |order| > 1
    requires 0 < order[|order| - 1] <= |q.joins|
    requires forall p :: p in ps ==> p.Keys == Elems(order[..|order| - 1]) && InTables(q, p)
    ensures var init, t := order[..|order| - 1], order[|order| - 1];
            Nested(StepFor(q, order), None, Map(Flat(q, init), ps), Fetch(q.tables[t].rows, cands[t])) ==
            Map(Flat(q, order), FlatMap(Expander(q, cands, t), ps))
  {
    var init, t := order[..|order| - 1], order[|order| - 1];
    if ps != [] {
      var few, p := ps[..|ps| - 1], ps[|ps| - 1];
      assert p in ps && ps == few + [p];
      assert forall x :: x in few ==> x in ps;
      NestedFlat(q, cands, order, few);
      ExpandFlat(q, cands, p, order);
      hide Expand, PickExpand, FlatRow, Elems, Prefix, CandidatesOf, InTables;
      MapSnoc(Flat(q, init), few, p);
      NestedLast(StepFor(q, order), Map(Flat(q, init), few), Flat(q, init)(p), Fetch(q.tables[t].rows, cands[t]));
      hide Nested;
      MapConcat(Flat(q, order), FlatMap(Expander(q, cands, t), few), PickExpand(q, cands, p, t));
    }
  }

  lemma NestedLast(st: Step, left: seq<Row>, l: Row, right: seq<Row>)
    requires st.Valid()
    ensures Nested(st, None, left + [l], right) == Nested(st, None, left, right) + Expand(st, None, l, right)
  {
    assert (left + [l])[..|left|] == left;
  }

  // ---------------------------------------------------------------------
  // Whole runs
  // ---------------------------------------------------------------------

  function RowsOf(q: Query, cands: Candidates, t: nat): seq<Row>
    requires t < |cands| == |q.tables| && InRange(cands[t], |q.tables[t].rows|)
  {
    Fetch(q.tables[t].rows, cands[t])
  }

  /** The joins of `order` one after another, each by its definition. */
  ghost function NestedRun(q: Query, cands: Candidates, order: seq<nat>): seq<Row>
    requires q.Valid() && CandidatesOf(q, cands) && Prefix(order, |q.tables|)
    decreases |order|
  {
    if |order| == 1 then RowsOf(q, cands, 0)
    else
      PrefixInit(order, |q.tables|);
      Nested(StepFor(q, order), None, NestedRun(q, cands, order[..|order| - 1]), RowsOf(q, cands, order[|order| - 1]))
  }

  lemma FitsInTables(q: Query, cands: Candidates, x: Pick, t: nat)
    requires q.Valid() && CandidatesOf(q, cands) && t < |cands| && Fits(q, cands, x, t) && InTables(q, x - {t})
    ensures InTables(q, x)
  {
    hide OnTrue;
    forall u | u in x
      ensures u < |q.tables| && (x[u].Some? ==> x[u].value < |q.tables[u].rows|)
    {
      if u != t {
        assert u in x - {t};
      }
    }
  }

  lemma {:induction false} RunInTables(q: Query, cands: Candidates, order: seq<nat>)
    requires q.Valid() && CandidatesOf(q, cands) && Prefix(order, |q.tables|)
    ensures forall p :: p in PickRun(q, cands, order) ==> InTables(q, p)
    decreases |order|
  {
    if |order| > 1 {
      var init, t := order[..|order| - 1], order[|order| - 1];
      PrefixInit(order, |q.tables|);
      RunInTables(q, cands, init);
      hide PickRun, Elems, Distinct, InTables, Fits;
      forall x | x in PickRun(q, cands, order)
        ensures InTables(q, x)
      {
        RunStep(q, cands, order, x);
        FitsInTables(q, cands, x, t);
      }
    }
  }

  lemma SeedFlat(q: Query, i: nat)
    requires |q.tables| > 0 && i < |q.tables[0].rows|
    ensures FlatRow(q, map[0 := Some(i)], [0]) == q.tables[0].rows[i]
  {
    var p: Pick := map[0 := Some(i)];
    assert [0][..0] == [] && FlatRow(q, p, []) == [];
    assert Piece(q, p, 0) == q.tables[0].rows[i];
  }

  /** The rows of a run are its picks, flattened. */
  lemma {:induction false} RunFlat(q: Query, cands: Candidates, order: seq<nat>)
    requires q.Valid() && CandidatesOf(q, cands) && Prefix(order, |q.tables|)
    ensures NestedRun(q, cands, order) == Map(Flat(q, order), PickRun(q, cands, order))
    decreases |order|
  {
    if |order| == 1 {
      var seeds := Seeds(cands[0]);
      assert order == [0];
      forall i | 0 <= i < |seeds|
        ensures Flat(q, order)(seeds[i]) == q.tables[0].rows[cands[0][i]]
      {
        SeedFlat(q, cands[0][i]);
      }
      assert NestedRun(q, cands, order) == Map(Flat(q, order), seeds);
    } else {
      var init, t := order[..|order| - 1], order[|order| - 1];
      PrefixInit(order, |q.tables|);
      RunFlat(q, cands, init);
      RunKeys(q, cands, init);
      RunInTables(q, cands, init);
      NestedFlat(q, cands, order, PickRun(q, cands, init));
      hide Nested, FlatRow, Elems, InTables;
      assert NestedRun(q, cands, order) == Nested(StepFor(q, order), None, NestedRun(q, cands, init), RowsOf(q, cands, t));
    }
  }

  // ---------------------------------------------------------------------
  // WHERE, and rows in written order
  // ---------------------------------------------------------------------

  function WherePick(q: Query): Pick -> bool { p => q.where.Some? ==> PickTrue(q, q.where.value, p) }

  function WhereRow(q: Query, order: seq<nat>): Row -> bool {
    row => q.where.Some? ==> Eval(q.lib, q.where.value, ScopeOf(q.Widths(), order, row)) == Is(true)
  }

  lemma WhereFlat(q: Query, order: seq<nat>, ps: seq<Pick>)
    requires q.Valid() && Distinct(order) && forall p :: p in ps ==> p.Keys == Elems(order) && InTables(q, p)
    ensures Filter(WhereRow(q, order), Map(Flat(q, order), ps)) == Map(Flat(q, order), Filter(WherePick(q), ps))
  {
    hide FlatRow, Elems, Distinct, InTables, WhereRow, WherePick;
    forall i | 0 <= i < |ps| ensures WhereRow(q, order)(Flat(q, order)(ps[i])) == WherePick(q)(ps[i]) {
      assert ps[i] in ps;
      WhereAgrees(q, order, ps[i]);
    }
    FilterMap(Flat(q, order), WhereRow(q, order), WherePick(q), ps);
  }

  lemma WhereAgrees(q: Query, order: seq<nat>, p: Pick)
    requires q.Valid() && Distinct(order) && p.Keys == Elems(order) && InTables(q, p)
    ensures WhereRow(q, order)(FlatRow(q, p, order)) == WherePick(q)(p)
  {
    if q.where.Some? {
      EvalFlat(q, q.where.value, p, order);
    }
  }

  function Written(n: nat): (order: seq<nat>)
    ensures |order| == n && forall i :: 0 <= i < n ==> order[i] == i
  {
    if n == 0 then [] else Written(n - 1) + [n - 1]
  }

  /** The columns of the first `n` tables in written order, looked up in an executed row. */
  function Star(q: Query, order: seq<nat>, row: Row, n: nat): Row {
    if n == 0 then []
    else Star(q, order, row, n - 1) + StarOf(q, order, row, n - 1)
  }

  function StarOf(q: Query, order: seq<nat>, row: Row, t: nat): Row {
    seq(WidthOf(q.Widths(), t), pos requires 0 <= pos => Lookup(q, order, row, Column(t, pos)))
  }

  function Lookup(q: Query, order: seq<nat>, row: Row, c: Column): Datum {
    match Locate(q.Widths(), order, c) case Some(i) => Cell(row, i) case None => Null
  }

  function ToWritten(q: Query, order: seq<nat>): Row -> Row { row => Star(q, order, row, |q.tables|) }

  /** Reading an executed row in written order gives the row of the written order. */
  lemma {:induction false} StarFlat(q: Query, p: Pick, order: seq<nat>, n: nat)
    requires q.Valid() && InTables(q, p) && IsOrder(order, |q.tables|) && p.Keys == Elems(order) && n <= |q.tables|
    ensures Star(q, order, FlatRow(q, p, order), n) == FlatRow(q, p, Written(n))
  {
    if n > 0 {
      StarFlat(q, p, order, n - 1);
      StarPiece(q, p, order, n - 1);
      assert Written(n)[..n - 1] == Written(n - 1);
    }
  }

  lemma StarPiece(q: Query, p: Pick, order: seq<nat>, t: nat)
    requires q.Valid() && InTables(q, p) && IsOrder(order, |q.tables|) && p.Keys == Elems(order) && t < |q.tables|
    ensures StarOf(q, order, FlatRow(q, p, order), t) == Piece(q, p, t)
  {
    var row := FlatRow(q, p, order);
    OrderElems(order, |q.tables|);
    ElemsIn(order);
    hide Elems, FlatRow, Locate;
    PieceWidth(q, p, t);
    forall pos | 0 <= pos < WidthOf(q.Widths(), t)
      ensures Lookup(q, order, row, Column(t, pos)) == Piece(q, p, t)[pos]
    {
      FlatCell(q, p, order, Column(t, pos));
    }
  }

  /** A permutation of the tables has all of them. */
  lemma OrderElems(order: seq<nat>, n: nat)
    requires IsOrder(order, n)
    ensures Elems(order) == Elems(Written(n)) && forall t :: 0 <= t < n ==> t in Elems(order)
  {
    var all := Written(n);
    forall t | 0 <= t < n ensures t in Elems(all) { assert all[t] in Elems(all); }
    CountDistinct(all);
    CountDistinct(order);
    if Elems(order) != Elems(all) {
      Strict(Elems(order), Elems(all));
    }
  }

  lemma Strict<T>(a: set<T>, b: set<T>)
    requires a < b
    ensures |a| < |b|
  {
    assert b == a + (b - a);
    assert b - a != {};
  }

  lemma {:induction false} CountDistinct(s: seq<nat>)
    requires Distinct(s)
    ensures |Elems(s)| == |s|
  {
    ElemsIn(s);
    if s != [] {
      var init, last := s[..|s| - 1], s[|s| - 1];
      CountDistinct(init);
      ElemsIn(init);
      assert Elems(s) == Elems(init) + {last};
      assert last !in Elems(init);
    }
  }

  // ---------------------------------------------------------------------
  // Planning keeps the answer
  // ---------------------------------------------------------------------

  function AllOf(n: nat): seq<nat> { Written(n) }

  /** Every row of every table. */
  function AllRows(q: Query): (cands: Candidates)
    ensures |cands| == |q.tables| && forall t :: 0 <= t < |cands| ==> cands[t] == AllOf(|q.tables[t].rows|)
  {
    seq(|q.tables|, t requires 0 <= t < |q.tables| => AllOf(|q.tables[t].rows|))
  }

  lemma AllRowsOk(q: Query)
    ensures CandidatesOf(q, AllRows(q)) && forall t :: 0 <= t < |AllRows(q)| ==> Unique(AllRows(q)[t])
  {
  }

  lemma CandidateCount(q: Query, cands: Candidates)
    requires CandidatesOf(q, cands)
    ensures |cands| == |q.tables|
  {
  }

  lemma WrittenPrefix(n: nat)
    requires n > 0
    ensures Prefix(Written(n), n)
  {
  }

  /** A table whose rows may be dropped before the join: FROM, or introduced by INNER. */
  predicate Eligible(q: Query, t: nat) { t == 0 || (t <= |q.joins| && q.joins[t - 1].kind.Inner?) }

  /** Row `i` of an eligible table that is in no row that passes WHERE. */
  ghost predicate Doomed(q: Query, t: nat, i: nat) {
    Eligible(q, t) && forall p: Pick :: t in p && p[t] == Some(i) ==> !WherePick(q)(p)
  }

  ghost predicate DropsDoomed(q: Query, cands: Candidates)
    requires |cands| == |q.tables|
  {
    forall t: nat, i: nat :: t < |cands| && i < |q.tables[t].rows| && i !in cands[t] ==> Doomed(q, t, i)
  }

  lemma FitsMore(q: Query, cands: Candidates, p: Pick, t: nat)
    requires q.Valid() && CandidatesOf(q, cands) && DropsDoomed(q, cands) && t < |cands| && WherePick(q)(p)
    ensures Fits(q, cands, p, t) <==> Fits(q, AllRows(q), p, t)
  {
    var all, n := AllRows(q), |q.tables[t].rows|;
    forall i: nat ensures i in all[t] <==> i < n {
      if i < n { assert all[t][i] == i; }
    }
    assert forall i :: i in cands[t] ==> i < n;
    hide OnTrue, WherePick, AllRows;
    forall i: nat | i < n && (!Eligible(q, t) || (t in p && p[t] == Some(i)))
      ensures i in cands[t]
    {
      assert i !in cands[t] ==> Doomed(q, t, i);
    }
  }

  lemma SatisfiesMore(q: Query, cands: Candidates, p: Pick, tables: set<nat>)
    requires q.Valid() && CandidatesOf(q, cands) && DropsDoomed(q, cands) && WherePick(q)(p)
    requires forall t :: t in tables ==> t < |cands|
    ensures Satisfies(q, cands, p, tables) <==> Satisfies(q, AllRows(q), p, tables)
  {
    assert |cands| == |q.tables|;
    hide Fits, WherePick, DropsDoomed, CandidatesOf;
    forall t | t in tables ensures Fits(q, cands, p, t) <==> Fits(q, AllRows(q), p, t) {
      FitsMore(q, cands, p, t);
    }
  }

  /** Pre-filtering the inputs keeps every pick that passes WHERE and adds none. */
  lemma PushdownKeeps(q: Query, cands: Candidates, order: seq<nat>)
    requires q.Valid() && CandidatesOf(q, cands) && DropsDoomed(q, cands)
    requires Prefix(order, |q.tables|) && OnsInPrefix(q.joins, order)
    ensures multiset(Filter(WherePick(q), PickRun(q, cands, order))) ==
            multiset(Filter(WherePick(q), PickRun(q, AllRows(q), order)))
  {
    AllRowsOk(q);
    var all, w := AllRows(q), WherePick(q);
    var a, b := PickRun(q, cands, order), PickRun(q, all, order);
    RunIsUnique(q, cands, order);
    RunIsUnique(q, all, order);
    hide PickRun, Unique, Satisfies, DropsDoomed, WherePick, Elems;
    UniqueFilter(w, a);
    UniqueFilter(w, b);
    hide Filter;
    forall x: Pick
      ensures x in Filter(w, a) <==> x in Filter(w, b)
    {
      RunIsSatisfying(q, cands, order, x);
      RunIsSatisfying(q, all, order, x);
      FilterMember(w, a, x);
      FilterMember(w, b, x);
      if w(x) {
        SatisfiesMore(q, cands, x, Elems(order));
      }
    }
    UniqueSame(Filter(w, a), Filter(w, b));
  }

  lemma PrefixOfOrder(order: seq<nat>, n: nat)
    requires IsOrder(order, n)
    ensures Prefix(order, n)
  {
  }

  /** The query's answer by definition: written order, every row, nested loops, then WHERE. */
  ghost function Answer(q: Query): seq<Row>
    requires q.Valid()
  {
    AllRowsOk(q);
    Filter(WhereRow(q, Written(|q.tables|)), NestedRun(q, AllRows(q), Written(|q.tables|)))
  }

  /** Answer, as flattened picks. */
  lemma FilteredFlat(q: Query, cands: Candidates, order: seq<nat>)
    requires q.Valid() && CandidatesOf(q, cands) && Prefix(order, |q.tables|)
    ensures Filter(WhereRow(q, order), NestedRun(q, cands, order)) ==
            Map(Flat(q, order), Filter(WherePick(q), PickRun(q, cands, order)))
  {
    RunFlat(q, cands, order);
    RunKeys(q, cands, order);
    RunInTables(q, cands, order);
    hide NestedRun, PickRun, InTables, FlatRow;
    WhereFlat(q, order, PickRun(q, cands, order));
  }

  lemma StarMap(q: Query, order: seq<nat>, ps: seq<Pick>)
    requires q.Valid() && IsOrder(order, |q.tables|)
    requires forall p :: p in ps ==> p.Keys == Elems(order) && InTables(q, p)
    ensures Map(ToWritten(q, order), Map(Flat(q, order), ps)) == Map(Flat(q, Written(|q.tables|)), ps)
  {
    hide FlatRow, Star, InTables, IsOrder, Elems;
    forall i | 0 <= i < |ps|
      ensures ToWritten(q, order)(Flat(q, order)(ps[i])) == Flat(q, Written(|q.tables|))(ps[i])
    {
      assert ps[i] in ps;
      StarFlat(q, ps[i], order, |q.tables|);
    }
  }

  /** The central law of planning: running the joins over pre-filtered inputs, in any order
      whose ON clauses see only joined tables, and filtering by WHERE gives the answer of the
      query as written, up to row and column order. */
  lemma PlanKeepsAnswer(q: Query, cands: Candidates, order: seq<nat>)
    requires q.Valid() && CandidatesOf(q, cands) && DropsDoomed(q, cands)
    requires IsOrder(order, |q.tables|) && OnsInPrefix(q.joins, order)
    requires OnsInPrefix(q.joins, Written(|q.tables|))
    ensures Prefix(order, |q.tables|)
    ensures multiset(Map(ToWritten(q, order), Filter(WhereRow(q, order), NestedRun(q, cands, order)))) ==
            multiset(Answer(q))
  {
    var written, w := Written(|q.tables|), WherePick(q);
    CandidateCount(q, cands);
    hide PickRun, Elems, FlatRow, Star, InTables, NestedRun, DropsDoomed, CandidatesOf, OnsInPrefix, IsOrder, Prefix, Filter;
    hide WherePick, WhereRow, Unique;
    WrittenPrefix(|q.tables|);
    PrefixOfOrder(order, |q.tables|);
    OrderElems(order, |q.tables|);
    AllRowsOk(q);
    var kept := Filter(w, PickRun(q, cands, order));
    SamePicks(q, cands, order);
    FilteredFlat(q, cands, order);
    FilteredFlat(q, AllRows(q), written);
    KeptPicks(q, cands, order);
    StarMap(q, order, kept);
    MapPermutes(Flat(q, written), kept, Filter(w, PickRun(q, AllRows(q), written)));
  }

  lemma KeptPicks(q: Query, cands: Candidates, order: seq<nat>)
    requires q.Valid() && CandidatesOf(q, cands) && Prefix(order, |q.tables|)
    ensures forall p :: p in Filter(WherePick(q), PickRun(q, cands, order)) ==> p.Keys == Elems(order) && InTables(q, p)
  {
    RunKeys(q, cands, order);
    RunInTables(q, cands, order);
    var w, ps := WherePick(q), PickRun(q, cands, order);
    hide PickRun, InTables, Elems, WherePick, Filter;
    forall p | p in Filter(w, ps) ensures p.Keys == Elems(order) && InTables(q, p) {
      FilterMember(w, ps, p);
    }
  }

  lemma SamePicks(q: Query, cands: Candidates, order: seq<nat>)
    requires q.Valid() && CandidatesOf(q, cands) && DropsDoomed(q, cands)
    requires IsOrder(order, |q.tables|) && OnsInPrefix(q.joins, order)
    requires OnsInPrefix(q.joins, Written(|q.tables|))
    ensures Prefix(order, |q.tables|)
    ensures multiset(Filter(WherePick(q), PickRun(q, cands, order))) ==
            multiset(Filter(WherePick(q), PickRun(q, AllRows(q), Written(|q.tables|))))
  {
    CandidateCount(q, cands);
    hide PickRun, Filter, DropsDoomed, Elems, OnsInPrefix, CandidatesOf, IsOrder, WherePick, Unique, Prefix;
    PrefixOfOrder(order, |q.tables|);
    WrittenPrefix(|q.tables|);
    OrderElems(order, |q.tables|);
    AllRowsOk(q);
    PushdownKeeps(q, cands, order);
    OrderIrrelevant(q, AllRows(q), order, Written(|q.tables|));
    FilterPermutes(WherePick(q), PickRun(q, AllRows(q), order), PickRun(q, AllRows(q), Written(|q.tables|)));
  }
}
