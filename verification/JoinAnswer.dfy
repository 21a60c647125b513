/**
 The answer of a join query in terms of its rows alone: which rows of the tables stand side
 by side, what pads a row without a partner, and which clauses the result satisfies.
 */
module JoinAnswer {
  import opened Bytes
  import opened Sql
  import opened JoinOrder
  import opened JoinExec
  import opened Bags
  import opened JoinMeaning
  import opened JoinRows

  /** The row each table contributes, by number; `None` for none. */
  type Choice = seq<Option<nat>>

  /** Where the columns of table `t` begin in a row of the answer. */
  function Offset(q: Query, t: nat): nat
    requires t <= |q.tables|
  {
    if t == 0 then 0 else Offset(q, t - 1) + q.tables[t - 1].width
  }

  /** The columns of a row of the answer, tables side by side as written. */
  function RowScope(q: Query, row: Row): Scope {
    (c: Column) =>
      if c.table < |q.tables| && c.pos < q.tables[c.table].width && Offset(q, c.table) + c.pos < |row|
      then Some(row[Offset(q, c.table) + c.pos]) else None
  }

  predicate Holds(q: Query, e: Expr, row: Row) { Eval(q.lib, e, RowScope(q, row)) == Is(true) }

  /** What table `t` contributes in a column: the cell of its chosen row, or NULL. */
  function Contributed(q: Query, choice: Option<nat>, t: nat, pos: nat): Datum
    requires t < |q.tables|
  {
    if choice.Some? && choice.value < |q.tables[t].rows| && pos < |q.tables[t].rows[choice.value]|
    then q.tables[t].rows[choice.value][pos] else Null
  }

  ghost predicate Shows(q: Query, c: Choice, row: Row, t: nat)
    requires t < |q.tables| && |c| == |q.tables|
  {
    && (c[t].Some? ==> c[t].value < |q.tables[t].rows|)
    && Offset(q, t) + q.tables[t].width <= |row|
    && forall pos: nat :: pos < q.tables[t].width ==> row[Offset(q, t) + pos] == Contributed(q, c[t], t, pos)
  }

  ghost predicate Renders(q: Query, c: Choice, row: Row) {
    |c| == |q.tables| && |row| == Offset(q, |q.tables|) && forall t :: 0 <= t < |q.tables| ==> Shows(q, c, row, t)
  }

  /** `other` is the row with row `i` of table `t` instead. */
  ghost predicate Instead(q: Query, c: Choice, t: nat, i: nat, other: Row)
    requires t < |q.tables| == |c|
  {
    i < |q.tables[t].rows| && Renders(q, c[t := Some(i)], other)
  }

  /** Table `t` stands where its join clause puts it: a row for which ON holds or, under LEFT
      and only when ON holds for none of its rows, no row. */
  ghost predicate Joined(q: Query, c: Choice, row: Row, t: nat)
    requires t < |q.tables| == |c| && |q.joins| + 1 == |q.tables|
  {
    if t == 0 then c[0].Some?
    else if c[t].Some? then Holds(q, q.joins[t - 1].on, row)
    else
      && q.joins[t - 1].kind.LeftOuter?
      && forall i, other :: Instead(q, c, t, i, other) ==> !Holds(q, q.joins[t - 1].on, other)
  }

  /** A row of the answer and the rows it is made of. */
  ghost predicate Combines(q: Query, c: Choice, row: Row)
    requires |q.joins| + 1 == |q.tables|
  {
    && Renders(q, c, row)
    && (forall t :: 0 <= t < |q.tables| ==> Joined(q, c, row, t))
    && (q.where.Some? ==> Holds(q, q.where.value, row))
  }

  // ---------------------------------------------------------------------
  // Choices and picks
  // ---------------------------------------------------------------------

  function PickOf(c: Choice): Pick { map t: nat | 0 <= t < |c| :: c[t] }

  function ChoiceOf(q: Query, p: Pick): Choice { seq(|q.tables|, t requires 0 <= t => if t in p then p[t] else None) }

  /** A pick for every table, of rows that exist. */
  ghost predicate Full(q: Query, p: Pick) { InTables(q, p) && p.Keys == Elems(Written(|q.tables|)) }

  lemma FullKeys(q: Query, p: Pick)
    requires Full(q, p)
    ensures forall t :: t in p <==> 0 <= t < |q.tables|
  {
    ElemsIn(Written(|q.tables|));
    var order := Written(|q.tables|);
    forall t | 0 <= t < |q.tables| ensures t in order {
      assert order[t] == t;
    }
  }

  lemma {:induction false} LocateWritten(q: Query, n: nat, c: Column)
    requires n <= |q.tables|
    ensures Width(q.Widths(), Written(n)) == Offset(q, n)
    ensures Locate(q.Widths(), Written(n), c) ==
            if c.table < n && c.pos < q.tables[c.table].width then Some(Offset(q, c.table) + c.pos) else None
  {
    if n > 0 {
      LocateWritten(q, n - 1, c);
      assert Written(n)[..n - 1] == Written(n - 1);
    }
  }

  lemma {:induction false} OffsetGrows(q: Query, t: nat, n: nat)
    requires t < n <= |q.tables|
    ensures Offset(q, t) + q.tables[t].width <= Offset(q, n)
  {
    if t < n - 1 {
      OffsetGrows(q, t, n - 1);
    }
  }

  lemma ScopeSame(q: Query, row: Row, e: Expr)
    requires |row| == Offset(q, |q.tables|)
    ensures Eval(q.lib, e, RowScope(q, row)) == Eval(q.lib, e, ScopeOf(q.Widths(), Written(|q.tables|), row))
  {
    var s, t := RowScope(q, row), ScopeOf(q.Widths(), Written(|q.tables|), row);
    forall c: Column ensures s(c) == t(c) {
      LocateWritten(q, |q.tables|, c);
      if c.table < |q.tables| && c.pos < q.tables[c.table].width {
        OffsetGrows(q, c.table, |q.tables|);
      }
    }
    EvalLocal(q.lib, e, s, t);
  }

  /** A flattened pick shows the chosen rows. */
  lemma FlatRenders(q: Query, p: Pick)
    requires q.Valid() && Full(q, p)
    ensures Renders(q, ChoiceOf(q, p), FlatRow(q, p, Written(|q.tables|)))
  {
    var n := |q.tables|;
    FlatLength(q, p);
    hide FlatRow, Elems, Shows, Full, ChoiceOf;
    assert |ChoiceOf(q, p)| == n by { ChoiceLength(q, p); }
    forall t | 0 <= t < n ensures Shows(q, ChoiceOf(q, p), FlatRow(q, p, Written(n)), t) {
      TableShows(q, p, t);
    }
  }

  lemma ChoiceLength(q: Query, p: Pick)
    ensures |ChoiceOf(q, p)| == |q.tables|
  {
  }

  lemma FlatLength(q: Query, p: Pick)
    requires q.Valid() && Full(q, p)
    ensures |FlatRow(q, p, Written(|q.tables|))| == Offset(q, |q.tables|)
  {
    FullKeys(q, p);
    ElemsIn(Written(|q.tables|));
    FlatWidth(q, p, Written(|q.tables|));
    LocateWritten(q, |q.tables|, Column(0, 0));
  }

  lemma TableShows(q: Query, p: Pick, t: nat)
    requires q.Valid() && Full(q, p) && t < |q.tables|
    ensures Shows(q, ChoiceOf(q, p), FlatRow(q, p, Written(|q.tables|)), t)
  {
    var c, row := ChoiceOf(q, p), FlatRow(q, p, Written(|q.tables|));
    FullKeys(q, p);
    FlatLength(q, p);
    OffsetGrows(q, t, |q.tables|);
    hide FlatRow, Elems, Contributed, Offset;
    forall pos: nat | pos < q.tables[t].width ensures row[Offset(q, t) + pos] == Contributed(q, c[t], t, pos) {
      FlatShows(q, p, t, pos);
    }
  }

  lemma FlatShows(q: Query, p: Pick, t: nat, pos: nat)
    requires q.Valid() && Full(q, p) && t < |q.tables| && pos < q.tables[t].width
    ensures Cell(FlatRow(q, p, Written(|q.tables|)), Offset(q, t) + pos) == Contributed(q, ChoiceOf(q, p)[t], t, pos)
  {
    FullKeys(q, p);
    ElemsIn(Written(|q.tables|));
    hide FlatRow, Elems;
    LocateWritten(q, |q.tables|, Column(t, pos));
    FlatCell(q, p, Written(|q.tables|), Column(t, pos));
  }

  lemma {:induction false} CellTable(q: Query, n: nat, x: nat) returns (t: nat)
    requires n <= |q.tables| && x < Offset(q, n)
    ensures t < n && Offset(q, t) <= x < Offset(q, t) + q.tables[t].width
  {
    if x < Offset(q, n - 1) {
      t := CellTable(q, n - 1, x);
    } else {
      t := n - 1;
    }
  }

  /** A choice has one row. */
  lemma RendersOnce(q: Query, c: Choice, a: Row, b: Row)
    requires Renders(q, c, a) && Renders(q, c, b)
    ensures a == b
  {
    forall x | 0 <= x < |a| ensures a[x] == b[x] {
      var t := CellTable(q, |q.tables|, x);
      assert Shows(q, c, a, t) && Shows(q, c, b, t);
      var pos: nat := x - Offset(q, t);
      assert a[Offset(q, t) + pos] == Contributed(q, c[t], t, pos) == b[Offset(q, t) + pos];
    }
  }

  lemma ChoicePick(q: Query, c: Choice)
    requires |c| == |q.tables| && forall t :: 0 <= t < |c| && c[t].Some? ==> c[t].value < |q.tables[t].rows|
    ensures Full(q, PickOf(c)) && ChoiceOf(q, PickOf(c)) == c
  {
    var order := Written(|c|);
    ElemsIn(order);
    forall t: nat | t < |c| ensures t in order {
      assert order[t] == t;
    }
    assert PickOf(c).Keys == Elems(order);
  }

  lemma PickChoice(q: Query, p: Pick)
    requires Full(q, p)
    ensures PickOf(ChoiceOf(q, p)) == p
  {
    FullKeys(q, p);
  }

  lemma HoldsFlat(q: Query, e: Expr, p: Pick)
    requires q.Valid() && Full(q, p)
    ensures Holds(q, e, FlatRow(q, p, Written(|q.tables|))) <==> PickTrue(q, e, p)
  {
    FlatRenders(q, p);
    ScopeSame(q, FlatRow(q, p, Written(|q.tables|)), e);
    EvalFlat(q, e, p, Written(|q.tables|));
  }

  lemma OtherRow(q: Query, p: Pick, t: nat, i: nat)
    requires q.Valid() && Full(q, p) && t < |q.tables| && i < |q.tables[t].rows|
    ensures Full(q, p[t := Some(i)]) && ChoiceOf(q, p[t := Some(i)]) == ChoiceOf(q, p)[t := Some(i)]
  {
    FullKeys(q, p);
    assert p[t := Some(i)].Keys == p.Keys;
  }

  lemma AllRowsMembers(q: Query, t: nat, i: nat)
    requires t < |q.tables|
    ensures i in AllRows(q)[t] <==> i < |q.tables[t].rows|
  {
    if i < |q.tables[t].rows| {
      assert AllRows(q)[t][i] == i;
    }
  }

  /** Standing where the join clause puts it is fitting the pick. */
  lemma JoinedFits(q: Query, p: Pick, t: nat)
    requires q.Valid() && Full(q, p) && t < |q.tables|
    ensures Joined(q, ChoiceOf(q, p), FlatRow(q, p, Written(|q.tables|)), t) <==> Fits(q, AllRows(q), p, t)
  {
    hide FlatRow, Elems, PickTrue, Holds, Renders, AllRows;
    var c, row := ChoiceOf(q, p), FlatRow(q, p, Written(|q.tables|));
    FullKeys(q, p);
    if p[t].Some? {
      AllRowsMembers(q, t, p[t].value);
    }
    if t > 0 {
      HoldsFlat(q, q.joins[t - 1].on, p);
      forall i: nat ensures i in AllRows(q)[t] <==> i < |q.tables[t].rows| { AllRowsMembers(q, t, i); }
      forall i: nat | i < |q.tables[t].rows|
        ensures PickTrue(q, q.joins[t - 1].on, p[t := Some(i)]) <==>
                exists other :: Instead(q, c, t, i, other) && Holds(q, q.joins[t - 1].on, other)
      {
        OtherHolds(q, p, t, i);
      }
    }
  }

  lemma OtherHolds(q: Query, p: Pick, t: nat, i: nat)
    requires q.Valid() && Full(q, p) && 0 < t < |q.tables| && i < |q.tables[t].rows|
    ensures PickTrue(q, q.joins[t - 1].on, p[t := Some(i)]) <==>
            exists other :: Instead(q, ChoiceOf(q, p), t, i, other) && Holds(q, q.joins[t - 1].on, other)
  {
    hide FlatRow, Full, PickTrue, Holds, Renders;
    var x := p[t := Some(i)];
    OtherRow(q, p, t, i);
    FlatRenders(q, x);
    HoldsFlat(q, q.joins[t - 1].on, x);
    var flat := FlatRow(q, x, Written(|q.tables|));
    assert Instead(q, ChoiceOf(q, p), t, i, flat);
    if other :| Instead(q, ChoiceOf(q, p), t, i, other) && Holds(q, q.joins[t - 1].on, other) {
      RendersOnce(q, ChoiceOf(q, x), flat, other);
    }
  }

  // ---------------------------------------------------------------------
  // The answer
  // ---------------------------------------------------------------------

  /** A full pick is one of the answer exactly when its flattened row combines. */
  lemma PickCombines(q: Query, p: Pick)
    requires q.Valid() && Full(q, p)
    ensures Combines(q, ChoiceOf(q, p), FlatRow(q, p, Written(|q.tables|))) <==>
            Satisfies(q, AllRows(q), p, Elems(Written(|q.tables|))) && WherePick(q)(p)
  {
    var c, row, all := ChoiceOf(q, p), FlatRow(q, p, Written(|q.tables|)), Elems(Written(|q.tables|));
    FlatRenders(q, p);
    FullKeys(q, p);
    if q.where.Some? {
      HoldsFlat(q, q.where.value, p);
    }
    hide FlatRow, Elems, PickTrue, Holds, Renders, AllRows, Fits, Joined, ChoiceOf;
    forall t | 0 <= t < |q.tables| ensures Joined(q, c, row, t) <==> Fits(q, AllRows(q), p, t) {
      JoinedFits(q, p, t);
    }
  }

  /** What a join query means: its answer lists, once for each way to combine rows of the
      tables that satisfies every clause, the combined row. */
  lemma AnswerIs(q: Query) returns (cs: seq<Choice>)
    requires q.Valid() && OnsInPrefix(q.joins, Written(|q.tables|))
    ensures |cs| == |Answer(q)| && Unique(cs)
    ensures forall i :: 0 <= i < |cs| ==> Combines(q, cs[i], Answer(q)[i])
    ensures forall c, row :: Combines(q, c, row) ==> c in cs
  {
    var n := |q.tables|;
    var order, all := Written(n), AllRows(q);
    WrittenPrefix(n);
    AllRowsOk(q);
    var run := PickRun(q, all, order);
    var picks := Filter(WherePick(q), run);
    FilteredFlat(q, all, order);
    RunIsUnique(q, all, order);
    UniqueFilter(WherePick(q), run);
    KeptPicks(q, all, order);
    hide PickRun, NestedRun, FlatRow, Elems, WherePick, WhereRow, Prefix, InTables, OnsInPrefix, CandidatesOf, AllRows, Combines, ChoiceOf, Filter;
    cs := seq(|picks|, i requires 0 <= i < |picks| => ChoiceOf(q, picks[i]));
    forall i | 0 <= i < |cs| ensures Combines(q, cs[i], Answer(q)[i]) && PickOf(cs[i]) == picks[i] {
      assert picks[i] in picks;
      assert Full(q, picks[i]);
      FilterMember(WherePick(q), run, picks[i]);
      RunIsSatisfying(q, all, order, picks[i]);
      PickCombines(q, picks[i]);
      PickChoice(q, picks[i]);
    }
    forall c, row | Combines(q, c, row) ensures c in cs {
      var p := PickOf(c);
      CombinesPick(q, c, row);
      FilterMember(WherePick(q), run, p);
      RunIsSatisfying(q, all, order, p);
      var i :| 0 <= i < |picks| && picks[i] == p;
      assert cs[i] == c;
    }
  }

  lemma CombinesPick(q: Query, c: Choice, row: Row)
    requires q.Valid() && Combines(q, c, row)
    ensures ChoiceOf(q, PickOf(c)) == c && WherePick(q)(PickOf(c))
    ensures Satisfies(q, AllRows(q), PickOf(c), Elems(Written(|q.tables|)))
  {
    var p := PickOf(c);
    forall t | 0 <= t < |c| && c[t].Some? ensures c[t].value < |q.tables[t].rows| {
      assert Shows(q, c, row, t);
    }
    ChoicePick(q, c);
    hide FlatRow, Elems, Joined, PickOf, ChoiceOf, Satisfies, WherePick, Full, Shows, Holds;
    FlatRenders(q, p);
    RendersOnce(q, c, row, FlatRow(q, p, Written(|q.tables|)));
    PickCombines(q, p);
  }
}
