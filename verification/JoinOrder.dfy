/**
 Greedy left-deep join ordering around LEFT barriers.
 */
module JoinOrder {
  import opened Bytes
  import opened Sql

  datatype JoinKind = Inner | LeftOuter

  /** `joins[t - 1]` brings in table `t`; table 0 is the FROM table. */
  datatype JoinClause = JoinClause(kind: JoinKind, on: Expr)

  const USIZE_MAX: nat := 0xFFFF_FFFF_FFFF_FFFF

  function SizeOf(sizes: seq<nat>, t: nat): nat { if t < |sizes| then sizes[t] else USIZE_MAX }

  function Tables(e: Expr): set<nat> { set c | c in Columns(e) :: c.table }

  /** The ON clause that brings in table `t`. */
  function On(joins: seq<JoinClause>, t: nat): Expr
    requires 0 < t <= |joins|
  {
    joins[t - 1].on
  }

  /** Tables an ON clause touches; `None` when a column does not resolve among tables of
      these widths. */
  function OnTables(on: Expr, widths: seq<nat>): Option<set<nat>> {
    if forall c :: c in Columns(on) ==> Resolves(c, widths) then Some(Tables(on)) else None
  }

  predicate Resolves(c: Column, widths: seq<nat>) { c.table < |widths| && c.pos < widths[c.table] }

  /** Every ON clause mentions only columns of tables written before it and its own. */
  ghost predicate ValidOns(joins: seq<JoinClause>, widths: seq<nat>) {
    forall t :: 0 < t <= |joins| ==>
      forall c :: c in Columns(On(joins, t)) ==> c.table <= t && Resolves(c, widths)
  }

  ghost function Elems(s: seq<nat>): set<nat> { set i | 0 <= i < |s| :: s[i] }

  ghost predicate Distinct(s: seq<nat>) { forall i, j :: 0 <= i < j < |s| ==> s[i] != s[j] }

  ghost predicate Ascending(s: seq<nat>) { forall i, j :: 0 <= i < j < |s| ==> s[i] < s[j] }

  /** A permutation of the tables that starts with table 0. */
  ghost predicate IsOrder(order: seq<nat>, n: nat) {
    |order| == n > 0 && order[0] == 0 && Distinct(order) && forall i :: 0 <= i < n ==> order[i] < n
  }

  /** The ON clause of every join sees only tables already placed. */
  ghost predicate OnsInPrefix(joins: seq<JoinClause>, order: seq<nat>) {
    forall i :: 0 < i < |order| && 0 < order[i] <= |joins| ==>
      Tables(On(joins, order[i])) <= Elems(order[..i + 1])
  }

  /** Every table written before a LEFT join is placed before it. */
  ghost predicate KeepsBarriers(joins: seq<JoinClause>, order: seq<nat>) {
    forall i, t :: 0 < i < |order| && 0 < order[i] <= |joins| && joins[order[i] - 1].kind.LeftOuter? && t < order[i] ==>
      t in Elems(order[..i])
  }

  ghost predicate Ready(joins: seq<JoinClause>, widths: seq<nat>, placed: set<nat>, t: nat)
    requires 0 < t <= |joins|
  {
    joins[t - 1].kind.Inner? && OnTables(On(joins, t), widths).Some? && Tables(On(joins, t)) <= placed + {t}
  }

  /** `t` is the choice of the greedy rule once `placed` is placed: the first unplaced table
      when that is a LEFT join, else the smallest ready INNER join, the earliest on ties. */
  ghost predicate GreedyChoice(joins: seq<JoinClause>, widths: seq<nat>, sizes: seq<nat>, placed: set<nat>, t: nat)
    requires 0 < t <= |joins|
  {
    if exists f :: FirstLeft(joins, placed, f) then FirstLeft(joins, placed, t)
    else t !in placed && Ready(joins, widths, placed, t) && Smallest(joins, widths, sizes, placed, t)
  }

  /** `f` is the first unplaced table and a LEFT join. */
  ghost predicate FirstLeft(joins: seq<JoinClause>, placed: set<nat>, f: nat) {
    0 < f <= |joins| && f !in placed && joins[f - 1].kind.LeftOuter? && forall u :: 0 < u < f ==> u in placed
  }

  predicate Ahead(sizes: seq<nat>, t: nat, u: nat) {
    SizeOf(sizes, t) < SizeOf(sizes, u) || (SizeOf(sizes, t) == SizeOf(sizes, u) && t <= u)
  }

  ghost predicate Smallest(joins: seq<JoinClause>, widths: seq<nat>, sizes: seq<nat>, placed: set<nat>, t: nat) {
    forall u :: 0 < u <= |joins| && u !in placed && Ready(joins, widths, placed, u) ==> Ahead(sizes, t, u)
  }

  ghost predicate Greedy(joins: seq<JoinClause>, widths: seq<nat>, sizes: seq<nat>, order: seq<nat>) {
    forall i :: 0 < i < |order| && 0 < order[i] <= |joins| ==> GreedyChoice(joins, widths, sizes, Elems(order[..i]), order[i])
  }

  // ---------------------------------------------------------------------
  // The loop
  // ---------------------------------------------------------------------

  /** `order` holds the placed tables, `remaining` the others in written order. */
  ghost predicate Split(order: seq<nat>, remaining: seq<nat>, n: nat) {
    && |order| + |remaining| == n && |order| > 0 && order[0] == 0
    && Distinct(order) && (forall i :: 0 <= i < |order| ==> order[i] < n)
    && (forall i :: 0 <= i < |remaining| ==> 0 < remaining[i] < n && remaining[i] !in order)
    && Ascending(remaining)
    && (forall t :: 0 <= t < n ==> t in order || t in remaining)
  }

  lemma ElemsIn(s: seq<nat>)
    ensures forall t :: t in Elems(s) <==> t in s
  {
  }

  /** Taking one element out of an ascending sequence leaves exactly the others. */
  lemma TakenOut(s: seq<nat>, pos: nat)
    requires pos < |s| && Ascending(s)
    ensures var rest := s[..pos] + s[pos + 1..];
            && |rest| == |s| - 1 && Ascending(rest)
            && (forall u :: u in rest <==> u in s && u != s[pos])
  {
    var rest := s[..pos] + s[pos + 1..];
    forall u | u in s && u != s[pos] ensures u in rest {
      var i :| 0 <= i < |s| && s[i] == u;
      assert u == if i < pos then rest[i] else rest[i - 1];
    }
    forall i | 0 <= i < |rest| ensures rest[i] in s && rest[i] != s[pos] {
      assert rest[i] == if i < pos then s[i] else s[i + 1];
    }
  }

  lemma DistinctPush(s: seq<nat>, t: nat)
    requires Distinct(s) && t !in s
    ensures Distinct(s + [t])
  {
  }

  lemma SplitMove(order: seq<nat>, remaining: seq<nat>, n: nat, pos: nat)
    requires Split(order, remaining, n) && pos < |remaining|
    ensures Split(order + [remaining[pos]], remaining[..pos] + remaining[pos + 1..], n)
  {
    hide Distinct, Ascending;
    var t := remaining[pos];
    var order', rest := order + [t], remaining[..pos] + remaining[pos + 1..];
    TakenOut(remaining, pos);
    DistinctPush(order, t);
    assert forall u :: u in order' <==> u in order || u == t;
    forall i | 0 <= i < |rest|
      ensures 0 < rest[i] < n && rest[i] !in order'
    {
      assert rest[i] in rest;
    }
  }

  /** Everything written before the first remaining table is placed. */
  lemma FirstRemaining(order: seq<nat>, remaining: seq<nat>, n: nat)
    requires Split(order, remaining, n) && remaining != []
    ensures forall t :: 0 <= t < remaining[0] ==> t in order
  {
  }

  /** What every shorter prefix of an extended order is. */
  lemma Prefixes(order: seq<nat>, t: nat)
    ensures forall i :: 0 <= i <= |order| ==> (order + [t])[..i] == order[..i]
    ensures (order + [t])[..|order| + 1] == order + [t] && order[..|order|] == order
    ensures Elems(order + [t]) == Elems(order) + {t}
  {
    ElemsIn(order + [t]);
    ElemsIn(order);
  }

  lemma PushOn(joins: seq<JoinClause>, order: seq<nat>, t: nat)
    requires 0 < t <= |joins| && |order| > 0
    requires OnsInPrefix(joins, order) && Tables(On(joins, t)) <= Elems(order) + {t}
    ensures OnsInPrefix(joins, order + [t])
  {
    hide Tables, Elems, On;
    Prefixes(order, t);
  }

  lemma PushBarrier(joins: seq<JoinClause>, order: seq<nat>, t: nat)
    requires 0 < t <= |joins| && |order| > 0
    requires KeepsBarriers(joins, order)
    requires joins[t - 1].kind.LeftOuter? ==> forall u :: 0 <= u < t ==> u in order
    ensures KeepsBarriers(joins, order + [t])
  {
    Prefixes(order, t);
    ElemsIn(order);
    hide Elems;
  }

  lemma PushGreedy(joins: seq<JoinClause>, widths: seq<nat>, sizes: seq<nat>, order: seq<nat>, t: nat)
    requires 0 < t <= |joins| && |order| > 0
    requires Greedy(joins, widths, sizes, order) && GreedyChoice(joins, widths, sizes, Elems(order), t)
    ensures Greedy(joins, widths, sizes, order + [t])
  {
    hide GreedyChoice, Elems;
    Prefixes(order, t);
  }

  /** The inner scan: the smallest ready INNER join of `remaining`, the first on ties. */
  method PickReady(joins: seq<JoinClause>, widths: seq<nat>, sizes: seq<nat>, placed: seq<bool>, remaining: seq<nat>, ghost order: seq<nat>)
      returns (best: Option<nat>)
    requires |placed| == |joins| + 1 == |widths| && Split(order, remaining, |joins| + 1)
    requires forall t :: 0 <= t < |placed| ==> (placed[t] <==> t in order)
    ensures best.Some? ==>
              && best.value < |remaining| && Ready(joins, widths, Elems(order), remaining[best.value])
              && forall j :: 0 <= j < |remaining| && Ready(joins, widths, Elems(order), remaining[j]) ==>
                   Ahead(sizes, remaining[best.value], remaining[j])
    ensures best.None? ==> forall j :: 0 <= j < |remaining| ==> !Ready(joins, widths, Elems(order), remaining[j])
  {
    best := None;
    ElemsIn(order);
    for pos := 0 to |remaining|
      invariant best.Some? ==> best.value < pos && Ready(joins, widths, Elems(order), remaining[best.value])
      invariant best.Some? ==> forall j :: 0 <= j < pos && Ready(joins, widths, Elems(order), remaining[j]) ==>
                  Ahead(sizes, remaining[best.value], remaining[j])
      invariant best.None? ==> forall j :: 0 <= j < pos ==> !Ready(joins, widths, Elems(order), remaining[j])
    {
      var t := remaining[pos];
      if joins[t - 1].kind.LeftOuter? {
        continue;
      }
      var deps := OnTables(On(joins, t), widths);
      if deps.None? {
        continue;
      }
      if exists d :: d in deps.value && !placed[d] && d != t {
        continue;
      }
      if best.None? || SizeOf(sizes, t) < SizeOf(sizes, remaining[best.value]) {
        best := Some(pos);
      }
    }
  }

  lemma Start(joins: seq<JoinClause>, widths: seq<nat>, sizes: seq<nat>, remaining: seq<nat>)
    requires |remaining| == |joins| && forall i :: 0 <= i < |remaining| ==> remaining[i] == i + 1
    ensures KeepsBarriers(joins, [0]) && OnsInPrefix(joins, [0]) && Greedy(joins, widths, sizes, [0])
    ensures Split([0], remaining, |joins| + 1)
  {
    forall t: nat | 0 < t < |joins| + 1 ensures t in remaining { assert remaining[t - 1] == t; }
  }

  lemma SplitRange(order: seq<nat>, remaining: seq<nat>, n: nat)
    requires Split(order, remaining, n)
    ensures forall i :: 0 <= i < |remaining| ==> 0 < remaining[i] < n
    ensures remaining == [] ==> IsOrder(order, n)
  {
  }

  /** The planner's order: a permutation from table 0 that keeps every LEFT barrier; for
      valid ON clauses it is exactly the greedy order, every ON clause lies inside its
      prefix, and the "nothing ready" fallback is not taken. */
  method OrderJoins(joins: seq<JoinClause>, widths: seq<nat>, sizes: seq<nat>) returns (order: seq<nat>)
    requires |widths| == |joins| + 1
    ensures IsOrder(order, |joins| + 1) && KeepsBarriers(joins, order)
    ensures ValidOns(joins, widths) ==> OnsInPrefix(joins, order) && Greedy(joins, widths, sizes, order)
  {
    hide Greedy, GreedyChoice, Ready, KeepsBarriers, OnsInPrefix, ValidOns, Tables, Elems, Ahead, On, Split, IsOrder;
    var n := |joins| + 1;
    order := [0];
    var placed := seq(n, t => t == 0);
    var remaining: seq<nat> := seq(|joins|, i => i + 1);
    Start(joins, widths, sizes, remaining);
    SplitRange(order, remaining, n);
    while remaining != []
      invariant Split(order, remaining, n) && |placed| == n
      invariant forall i :: 0 <= i < |remaining| ==> 0 < remaining[i] < n
      invariant remaining == [] ==> IsOrder(order, n)
      invariant forall t :: 0 <= t < n ==> (placed[t] <==> t in order)
      invariant KeepsBarriers(joins, order)
      invariant ValidOns(joins, widths) ==> OnsInPrefix(joins, order) && Greedy(joins, widths, sizes, order)
      decreases |remaining|
    {
      if joins[remaining[0] - 1].kind.LeftOuter? {
        var t := remaining[0];
        LeftChoice(joins, widths, sizes, order, remaining);
        Place(joins, widths, sizes, order, remaining, 0);
        assert remaining[..0] + remaining[0 + 1..] == remaining[1..];
        order, placed, remaining := order + [t], placed[t := true], remaining[1..];
        SplitRange(order, remaining, n);
      } else {
        var best := PickReady(joins, widths, sizes, placed, remaining, order);
        match best {
          case Some(pos) =>
            var t := remaining[pos];
            InnerChoice(joins, widths, sizes, order, remaining, pos);
            Place(joins, widths, sizes, order, remaining, pos);
            order, placed, remaining := order + [t], placed[t := true], remaining[..pos] + remaining[pos + 1..];
            SplitRange(order, remaining, n);
          case None =>
            NothingReady(joins, widths, order, remaining);
            FallbackOrder(joins, order, remaining, n);
            order := order + remaining;
            break;
        }
      }
    }
  }

  /** Placing the greedy choice keeps all that the loop maintains. */
  lemma Place(joins: seq<JoinClause>, widths: seq<nat>, sizes: seq<nat>, order: seq<nat>, remaining: seq<nat>, pos: nat)
    requires Split(order, remaining, |joins| + 1) && pos < |remaining| && KeepsBarriers(joins, order)
    requires joins[remaining[pos] - 1].kind.LeftOuter? ==> pos == 0
    requires GreedyChoice(joins, widths, sizes, Elems(order), remaining[pos])
    requires ValidOns(joins, widths) ==>
               && OnsInPrefix(joins, order) && Greedy(joins, widths, sizes, order)
               && Tables(On(joins, remaining[pos])) <= Elems(order) + {remaining[pos]}
    ensures var order' := order + [remaining[pos]];
            && Split(order', remaining[..pos] + remaining[pos + 1..], |joins| + 1) && KeepsBarriers(joins, order')
            && (ValidOns(joins, widths) ==> OnsInPrefix(joins, order') && Greedy(joins, widths, sizes, order'))
  {
    FirstRemaining(order, remaining, |joins| + 1);
    hide Greedy, GreedyChoice, KeepsBarriers, OnsInPrefix, ValidOns, Tables, Elems, On;
    SplitMove(order, remaining, |joins| + 1, pos);
    PushBarrier(joins, order, remaining[pos]);
    if ValidOns(joins, widths) {
      PushOn(joins, order, remaining[pos]);
      PushGreedy(joins, widths, sizes, order, remaining[pos]);
    }
  }

  lemma LeftChoice(joins: seq<JoinClause>, widths: seq<nat>, sizes: seq<nat>, order: seq<nat>, remaining: seq<nat>)
    requires Split(order, remaining, |joins| + 1) && remaining != [] && joins[remaining[0] - 1].kind.LeftOuter?
    ensures GreedyChoice(joins, widths, sizes, Elems(order), remaining[0])
    ensures ValidOns(joins, widths) ==> Tables(On(joins, remaining[0])) <= Elems(order) + {remaining[0]}
  {
    FirstRemaining(order, remaining, |joins| + 1);
    ElemsIn(order);
    assert FirstLeft(joins, Elems(order), remaining[0]);
  }

  lemma InnerChoice(joins: seq<JoinClause>, widths: seq<nat>, sizes: seq<nat>, order: seq<nat>, remaining: seq<nat>, pos: nat)
    requires Split(order, remaining, |joins| + 1) && remaining != [] && joins[remaining[0] - 1].kind.Inner?
    requires pos < |remaining| && Ready(joins, widths, Elems(order), remaining[pos])
    requires forall j :: 0 <= j < |remaining| && Ready(joins, widths, Elems(order), remaining[j]) ==>
               Ahead(sizes, remaining[pos], remaining[j])
    ensures GreedyChoice(joins, widths, sizes, Elems(order), remaining[pos])
    ensures Tables(On(joins, remaining[pos])) <= Elems(order) + {remaining[pos]}
  {
    FirstRemaining(order, remaining, |joins| + 1);
    ElemsIn(order);
    assert Tables(On(joins, remaining[pos])) <= Elems(order) + {remaining[pos]};
    hide Ready, Tables, OnTables, On, Elems, Ahead;
    var placed, t := Elems(order), remaining[pos];
    forall f | 0 < f <= |joins| && f !in placed
      ensures remaining[0] <= f
    {
      var j :| 0 <= j < |remaining| && remaining[j] == f;
    }
    assert remaining[0] !in placed;
    forall u | 0 < u <= |joins| && u !in placed && Ready(joins, widths, placed, u)
      ensures Ahead(sizes, t, u)
    {
      var j :| 0 <= j < |remaining| && remaining[j] == u;
    }
  }

  /** With valid ON clauses the first remaining INNER join is always ready. */
  lemma NothingReady(joins: seq<JoinClause>, widths: seq<nat>, order: seq<nat>, remaining: seq<nat>)
    requires Split(order, remaining, |joins| + 1) && remaining != [] && joins[remaining[0] - 1].kind.Inner?
    requires !Ready(joins, widths, Elems(order), remaining[0])
    ensures !ValidOns(joins, widths)
  {
    FirstRemaining(order, remaining, |joins| + 1);
    ElemsIn(order);
  }

  /** The fallback appends the rest in written order, which keeps the barriers. */
  lemma FallbackOrder(joins: seq<JoinClause>, order: seq<nat>, remaining: seq<nat>, n: nat)
    requires Split(order, remaining, n) && n == |joins| + 1 && KeepsBarriers(joins, order)
    ensures IsOrder(order + remaining, n) && KeepsBarriers(joins, order + remaining)
  {
    var o := order + remaining;
    forall i, j | 0 <= i < j < |o|
      ensures o[i] != o[j]
    {
      if i < |order| <= j {
        assert o[j] == remaining[j - |order|] && o[i] in order;
      }
    }
    forall i, t | 0 < i < |o| && joins[o[i] - 1].kind.LeftOuter? && 0 <= t < o[i]
      ensures t in Elems(o[..i])
    {
      ElemsIn(o[..i]);
      if i < |order| {
        ElemsIn(order[..i]);
        assert o[..i] == order[..i] && o[i] == order[i];
        assert t in Elems(order[..i]);
      } else {
        var p := i - |order|;
        assert o[i] == remaining[p];
        if t in order {
          var q :| 0 <= q < |order| && order[q] == t;
          assert o[..i][q] == t;
        } else {
          var q :| 0 <= q < |remaining| && remaining[q] == t;
          assert q < p;
          assert o[..i][|order| + q] == t;
        }
      }
    }
  }
}
