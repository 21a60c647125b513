/**
 The meaning of a join query: which rows of the tables combine. A pick names, for every
 table joined so far, the row it contributes (or none: NULL padding). Running the joins in
 any order whose ON clauses see only joined tables produces each satisfying pick once.
 */
module JoinMeaning {
  import opened Bytes
  import opened Sql
  import opened JoinOrder
  import opened JoinExec
  import opened Bags

  datatype Table = Table(width: nat, rows: seq<Row>)

  datatype Query = Query(lib: Library, tables: seq<Table>, joins: seq<JoinClause>, where: Option<Expr>) {
    ghost predicate Valid() {
      && |tables| == |joins| + 1
      && forall t :: 0 <= t < |tables| ==> Rows(tables[t].rows, tables[t].width)
    }
    function Widths(): (ws: seq<nat>)
      ensures |ws| == |tables|
    {
      seq(|tables|, t requires 0 <= t < |tables| => tables[t].width)
    }
    function RowOf(t: nat, i: nat): Row {
      if t < |tables| && i < |tables[t].rows| then tables[t].rows[i] else []
    }
  }

  type Pick = map<nat, Option<nat>>

  /** Row numbers each table contributes to the join. */
  type Candidates = seq<seq<nat>>

  ghost predicate CandidatesOf(q: Query, cands: Candidates) {
    && |cands| == |q.tables|
    && forall t :: 0 <= t < |cands| ==> Unique(cands[t]) && InRange(cands[t], |q.tables[t].rows|)
  }

  function Piece(q: Query, p: Pick, t: nat): Row {
    if t in p && p[t].Some? then q.RowOf(t, p[t].value) else Nulls(WidthOf(q.Widths(), t))
  }

  function PickScope(q: Query, p: Pick): Scope {
    (c: Column) => if c.table in p && c.pos < WidthOf(q.Widths(), c.table) then Some(Cell(Piece(q, p, c.table), c.pos)) else None
  }

  predicate PickTrue(q: Query, e: Expr, p: Pick) { Eval(q.lib, e, PickScope(q, p)) == Is(true) }

  predicate OnTrue(q: Query, p: Pick, t: nat) { 0 < t <= |q.joins| && PickTrue(q, On(q.joins, t), p) }

  // ---------------------------------------------------------------------
  // Satisfying picks
  // ---------------------------------------------------------------------

  /** The pick's choice for table `t` is what its join clause allows: a candidate that
      satisfies ON, or for a LEFT join no row when no candidate does. */
  ghost predicate Fits(q: Query, cands: Candidates, p: Pick, t: nat)
    requires t < |cands|
  {
    t in p &&
    match p[t]
    case Some(i) => i in cands[t] && (t == 0 || OnTrue(q, p, t))
    case None =>
      && 0 < t <= |q.joins| && q.joins[t - 1].kind.LeftOuter?
      && forall i :: i in cands[t] ==> !OnTrue(q, p[t := Some(i)], t)
  }

  ghost predicate Satisfies(q: Query, cands: Candidates, p: Pick, tables: set<nat>)
    requires forall t :: t in tables ==> t < |cands|
  {
    p.Keys == tables && forall t :: t in tables ==> Fits(q, cands, p, t)
  }

  // ---------------------------------------------------------------------
  // Running the joins on picks
  // ---------------------------------------------------------------------

  function PickHits(q: Query, p: Pick, t: nat, rows: seq<nat>): seq<Pick> {
    if rows == [] then []
    else
      var init, i := rows[..|rows| - 1], rows[|rows| - 1];
      PickHits(q, p, t, init) + if OnTrue(q, p[t := Some(i)], t) then [p[t := Some(i)]] else []
  }

  function PickExpand(q: Query, cands: Candidates, p: Pick, t: nat): seq<Pick>
    requires 0 < t < |cands| && t <= |q.joins|
  {
    var hits := PickHits(q, p, t, cands[t]);
    if hits == [] && q.joins[t - 1].kind.LeftOuter? then [p[t := None]] else hits
  }

  function Expander(q: Query, cands: Candidates, t: nat): Pick -> seq<Pick>
    requires 0 < t < |cands| && t <= |q.joins|
  {
    p => PickExpand(q, cands, p, t)
  }

  function Seeds(rows: seq<nat>): seq<Pick> { seq(|rows|, i requires 0 <= i < |rows| => map[0 := Some(rows[i])]) }

  /** A nonempty list of distinct tables that starts with the FROM table. */
  ghost predicate Prefix(order: seq<nat>, n: nat) {
    |order| > 0 && order[0] == 0 && Distinct(order) && forall i :: 0 <= i < |order| ==> order[i] < n
  }

  lemma PrefixInit(order: seq<nat>, n: nat)
    requires Prefix(order, n) && |order| > 1
    ensures Prefix(order[..|order| - 1], n) && 0 < order[|order| - 1] < n
    ensures order[|order| - 1] !in Elems(order[..|order| - 1])
    ensures Elems(order) == Elems(order[..|order| - 1]) + {order[|order| - 1]}
  {
    var init := order[..|order| - 1];
    ElemsIn(order);
    ElemsIn(init);
    assert order[0] != order[|order| - 1];
    assert order == init + [order[|order| - 1]];
  }

  function PickRun(q: Query, cands: Candidates, order: seq<nat>): seq<Pick>
    requires |cands| == |q.joins| + 1 && Prefix(order, |cands|)
    decreases |order|
  {
    if |order| == 1 then Seeds(cands[0])
    else
      PrefixInit(order, |cands|);
      FlatMap(Expander(q, cands, order[|order| - 1]), PickRun(q, cands, order[..|order| - 1]))
  }

  lemma {:induction false} PickHitsMembers(q: Query, p: Pick, t: nat, rows: seq<nat>, x: Pick)
    ensures x in PickHits(q, p, t, rows) <==>
            exists i :: 0 <= i < |rows| && x == p[t := Some(rows[i])] && OnTrue(q, x, t)
  {
    hide OnTrue;
    if rows != [] {
      var init := rows[..|rows| - 1];
      PickHitsMembers(q, p, t, init, x);
      assert forall i :: 0 <= i < |init| ==> init[i] == rows[i];
    }
  }

  lemma PickHitsRow(q: Query, p: Pick, t: nat, rows: seq<nat>, i: nat)
    requires i in rows && OnTrue(q, p[t := Some(i)], t)
    ensures PickHits(q, p, t, rows) != []
  {
    var j :| 0 <= j < |rows| && rows[j] == i;
    PickHitsMembers(q, p, t, rows, p[t := Some(i)]);
    hide PickHits, OnTrue;
    assert p[t := Some(rows[j])] == p[t := Some(i)];
  }

  /** Which picks one step makes of one pick: its choice for `t` fits, the rest is kept. */
  lemma ExpandMembers(q: Query, cands: Candidates, p: Pick, t: nat, x: Pick)
    requires 0 < t < |cands| && t <= |q.joins| && t !in p
    ensures x in PickExpand(q, cands, p, t) <==> x.Keys == p.Keys + {t} && x - {t} == p && Fits(q, cands, x, t)
  {
    PickHitsMembers(q, p, t, cands[t], x);
    hide PickHits, OnTrue;
    var hits := PickHits(q, p, t, cands[t]);
    if t in x && x - {t} == p {
      assert x == p[t := x[t]];
      if x[t].None? {
        if x in PickExpand(q, cands, p, t) {
          forall i | i in cands[t]
            ensures !OnTrue(q, x[t := Some(i)], t)
          {
            assert x[t := Some(i)] == p[t := Some(i)];
            if OnTrue(q, p[t := Some(i)], t) {
              PickHitsRow(q, p, t, cands[t], i);
            }
          }
        } else if Fits(q, cands, x, t) {
          NoHit(q, cands, p, t, x);
        }
      }
    }
  }

  lemma NoHit(q: Query, cands: Candidates, p: Pick, t: nat, x: Pick)
    requires 0 < t < |cands| && t <= |q.joins| && x == p[t := None]
    requires Fits(q, cands, x, t)
    ensures PickHits(q, p, t, cands[t]) == []
  {
    var hits := PickHits(q, p, t, cands[t]);
    forall y ensures y !in hits {
      PickHitsMembers(q, p, t, cands[t], y);
      hide PickHits, OnTrue;
      forall i | 0 <= i < |cands[t]|
        ensures !OnTrue(q, p[t := Some(cands[t][i])], t)
      {
        assert x[t := Some(cands[t][i])] == p[t := Some(cands[t][i])];
      }
    }
    NoMembers(hits);
  }

  lemma {:induction false} UniqueHits(q: Query, p: Pick, t: nat, rows: seq<nat>)
    requires Unique(rows)
    ensures Unique(PickHits(q, p, t, rows))
  {
    if rows != [] {
      var init, i := rows[..|rows| - 1], rows[|rows| - 1];
      UniqueHits(q, p, t, init);
      var x := p[t := Some(i)];
      PickHitsMembers(q, p, t, init, x);
      assert forall j :: 0 <= j < |init| ==> init[j] != i && (p[t := Some(init[j])])[t] != x[t];
      UniqueConcat(PickHits(q, p, t, init), [x]);
    }
  }

  // ---------------------------------------------------------------------
  // A pick decides an ON clause by the tables it mentions
  // ---------------------------------------------------------------------

  ghost predicate AgreeOn(p: Pick, x: Pick, tables: set<nat>) {
    forall t :: t in tables ==> (t in p <==> t in x) && (t in p ==> p[t] == x[t])
  }

  lemma PickTrueLocal(q: Query, e: Expr, p: Pick, x: Pick)
    requires AgreeOn(p, x, Tables(e))
    ensures Eval(q.lib, e, PickScope(q, p)) == Eval(q.lib, e, PickScope(q, x))
  {
    var s, t := PickScope(q, p), PickScope(q, x);
    forall c | c in Columns(e)
      ensures s(c) == t(c)
    {
      assert c.table in Tables(e);
    }
    EvalLocal(q.lib, e, s, t);
  }

  lemma FitsLocal(q: Query, cands: Candidates, p: Pick, x: Pick, t: nat)
    requires t < |cands| == |q.joins| + 1
    requires AgreeOn(p, x, {t}) && (t > 0 ==> AgreeOn(p, x, Tables(On(q.joins, t))))
    ensures Fits(q, cands, p, t) <==> Fits(q, cands, x, t)
  {
    assert t in {t};
    if t > 0 {
      var on := On(q.joins, t);
      hide Tables;
      PickTrueLocal(q, on, p, x);
      forall i: nat
        ensures OnTrue(q, p[t := Some(i)], t) == OnTrue(q, x[t := Some(i)], t)
      {
        PickTrueLocal(q, on, p[t := Some(i)], x[t := Some(i)]);
      }
    }
  }

  // ---------------------------------------------------------------------
  // Every run makes exactly the satisfying picks, each once
  // ---------------------------------------------------------------------

  lemma SeedsMembers(q: Query, cands: Candidates, x: Pick)
    requires |cands| > 0
    ensures x in Seeds(cands[0]) <==> Satisfies(q, cands, x, {0})
    ensures Unique(cands[0]) ==> Unique(Seeds(cands[0]))
  {
    var seeds := Seeds(cands[0]);
    assert forall i :: 0 <= i < |seeds| ==> 0 in seeds[i] && seeds[i][0] == Some(cands[0][i]);
    if Satisfies(q, cands, x, {0}) {
      assert Fits(q, cands, x, 0);
      var i :| 0 <= i < |cands[0]| && cands[0][i] == x[0].value;
      assert seeds[i] == x;
    }
    if x in seeds {
      var i :| 0 <= i < |seeds| && seeds[i] == x;
    }
  }

  /** Restricting a pick does not change how it fits tables whose ON clause is inside. */
  lemma SatisfiesInit(q: Query, cands: Candidates, order: seq<nat>, x: Pick)
    requires |cands| == |q.joins| + 1 && Prefix(order, |cands|) && |order| > 1 && OnsInPrefix(q.joins, order)
    ensures var t, init := order[|order| - 1], Elems(order[..|order| - 1]);
            && (forall u :: u in init ==> u < |cands|) && (forall u :: u in Elems(order) ==> u < |cands|)
            && (Satisfies(q, cands, x, Elems(order)) <==>
                x.Keys == init + {t} && Satisfies(q, cands, x - {t}, init) && Fits(q, cands, x, t))
  {
    PrefixInit(order, |cands|);
    var t, init := order[|order| - 1], Elems(order[..|order| - 1]);
    if x.Keys == init + {t} {
      forall u | u in init
        ensures Fits(q, cands, x, u) <==> Fits(q, cands, x - {t}, u)
      {
        OnInside(q.joins, order, u);
        hide Fits, Tables, Elems;
        FitsLocal(q, cands, x, x - {t}, u);
      }
    }
  }

  lemma OnInside(joins: seq<JoinClause>, order: seq<nat>, u: nat)
    requires Prefix(order, |joins| + 1) && |order| > 1 && OnsInPrefix(joins, order)
    requires u in Elems(order[..|order| - 1])
    ensures u > 0 ==> u <= |joins| && Tables(On(joins, u)) <= Elems(order[..|order| - 1])
  {
    hide Tables, On;
    var init := order[..|order| - 1];
    var i :| 0 <= i < |init| && init[i] == u;
    if u > 0 {
      assert order[i] == u && i != 0;
      assert order[..i + 1] == init[..i + 1];
      assert Elems(init[..i + 1]) <= Elems(init);
    }
  }

  lemma OnsInPrefixInit(joins: seq<JoinClause>, order: seq<nat>)
    requires |order| > 0 && OnsInPrefix(joins, order)
    ensures OnsInPrefix(joins, order[..|order| - 1])
  {
    hide Tables, Elems, On;
    var init := order[..|order| - 1];
    assert forall i :: 0 <= i < |init| ==> init[..i + 1] == order[..i + 1] && init[i] == order[i];
  }

  /** A run in any order whose ON clauses lie in their prefixes makes every satisfying pick
      and nothing else. */
  lemma {:induction false} RunIsSatisfying(q: Query, cands: Candidates, order: seq<nat>, x: Pick)
    requires |cands| == |q.joins| + 1 && Prefix(order, |cands|) && OnsInPrefix(q.joins, order)
    ensures forall u :: u in Elems(order) ==> u < |cands|
    ensures x in PickRun(q, cands, order) <==> Satisfies(q, cands, x, Elems(order))
    decreases |order|
  {
    if |order| == 1 {
      SeedsMembers(q, cands, x);
      assert Elems(order) == {0};
    } else {
      var init, t := order[..|order| - 1], order[|order| - 1];
      PrefixInit(order, |cands|);
      OnsInPrefixInit(q.joins, order);
      SatisfiesInit(q, cands, order, x);
      RunIsSatisfying(q, cands, init, x - {t});
      RunStep(q, cands, order, x);
    }
  }

  lemma {:induction false} RunKeys(q: Query, cands: Candidates, order: seq<nat>)
    requires |cands| == |q.joins| + 1 && Prefix(order, |cands|)
    ensures forall p :: p in PickRun(q, cands, order) ==> p.Keys == Elems(order)
    decreases |order|
  {
    if |order| == 1 {
      assert Elems(order) == {0};
    } else {
      var init, t := order[..|order| - 1], order[|order| - 1];
      PrefixInit(order, |cands|);
      RunKeys(q, cands, init);
      forall x | x in PickRun(q, cands, order)
        ensures x.Keys == Elems(order)
      {
        var f, picks := Expander(q, cands, t), PickRun(q, cands, init);
        hide PickRun, Elems, Fits;
        FlatMapMembers(f, picks, x);
        var i :| 0 <= i < |picks| && x in f(picks[i]);
        ExpandMembers(q, cands, picks[i], t, x);
      }
    }
  }

  lemma RunStep(q: Query, cands: Candidates, order: seq<nat>, x: Pick)
    requires |cands| == |q.joins| + 1 && Prefix(order, |cands|) && |order| > 1
    ensures Prefix(order[..|order| - 1], |cands|) && order[|order| - 1] < |cands|
    ensures var init, t := order[..|order| - 1], order[|order| - 1];
            x in PickRun(q, cands, order) <==>
            x.Keys == Elems(init) + {t} && x - {t} in PickRun(q, cands, init) && Fits(q, cands, x, t)
  {
    var init, t := order[..|order| - 1], order[|order| - 1];
    PrefixInit(order, |cands|);
    RunKeys(q, cands, init);
    var f, picks := Expander(q, cands, t), PickRun(q, cands, init);
    assert PickRun(q, cands, order) == FlatMap(f, picks);
    hide PickRun, Elems, Fits, FlatMap, PickExpand;
    FlatMapMembers(f, picks, x);
    forall i | 0 <= i < |picks|
      ensures x in f(picks[i]) <==> x.Keys == Elems(init) + {t} && x - {t} == picks[i] && Fits(q, cands, x, t)
    {
      assert picks[i] in picks;
      ExpandMembers(q, cands, picks[i], t, x);
    }
  }

  lemma {:induction false} RunIsUnique(q: Query, cands: Candidates, order: seq<nat>)
    requires |cands| == |q.joins| + 1 && Prefix(order, |cands|)
    requires forall t :: 0 <= t < |cands| ==> Unique(cands[t])
    ensures Unique(PickRun(q, cands, order))
    decreases |order|
  {
    if |order| == 1 {
      SeedsMembers(q, cands, map[]);
    } else {
      var init, t := order[..|order| - 1], order[|order| - 1];
      PrefixInit(order, |cands|);
      RunIsUnique(q, cands, init);
      RunKeys(q, cands, init);
      var f, picks := Expander(q, cands, t), PickRun(q, cands, init);
      assert PickRun(q, cands, order) == FlatMap(f, picks);
      hide PickRun, Elems, Fits, FlatMap, Unique;
      forall p | p in picks
        ensures Unique(f(p))
      {
        UniqueHits(q, p, t, cands[t]);
        UniqueOne(p[t := None]);
      }
      hide PickExpand;
      forall p, y, x | p in picks && y in picks && x in f(p) && x in f(y)
        ensures p == y
      {
        ExpandMembers(q, cands, p, t, x);
        ExpandMembers(q, cands, y, t, x);
      }
      UniqueFlatMap(f, picks);
    }
  }

  lemma UniqueOne<T>(x: T)
    ensures Unique([x])
  {
  }

  /** Join order never changes the answer: two orders of the same tables, both with every ON
      clause inside its prefix, make the same picks the same number of times. */
  lemma OrderIrrelevant(q: Query, cands: Candidates, a: seq<nat>, b: seq<nat>)
    requires |cands| == |q.joins| + 1 && forall t :: 0 <= t < |cands| ==> Unique(cands[t])
    requires Prefix(a, |cands|) && Prefix(b, |cands|) && Elems(a) == Elems(b)
    requires OnsInPrefix(q.joins, a) && OnsInPrefix(q.joins, b)
    ensures multiset(PickRun(q, cands, a)) == multiset(PickRun(q, cands, b))
  {
    RunIsUnique(q, cands, a);
    RunIsUnique(q, cands, b);
    hide PickRun, Unique, Satisfies;
    forall x ensures x in PickRun(q, cands, a) <==> x in PickRun(q, cands, b) {
      RunIsSatisfying(q, cands, a, x);
      RunIsSatisfying(q, cands, b, x);
    }
    UniqueSame(PickRun(q, cands, a), PickRun(q, cands, b));
  }
}
