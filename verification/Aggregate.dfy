/**
 Aggregates folded morsel by morsel over a column's active rows.
 */
module Aggregate {
  import opened Bytes
  import opened Sql

  datatype Func = Sum | Avg | Min | Max

  datatype Fold =
    | FSum(ints: int, floats: real, anyFloat: bool, n: nat)
    | FAvg(sum: real, n: nat)
    | FMin(best: Option<Datum>)
    | FMax(best: Option<Datum>)

  datatype Outcome<T> = Ok(value: T) | TypeMismatch

  function Start(f: Func): Fold {
    match f
    case Sum => FSum(0, 0.0, false, 0)
    case Avg => FAvg(0.0, 0)
    case Min => FMin(None)
    case Max => FMax(None)
  }

  function Take(lib: Library, d: Datum, best: Option<Datum>, smaller: bool): Option<Datum> {
    if best.None? then Some(d)
    else if smaller then (if Compare(lib, d, best.value).Less? then Some(d) else best)
    else if Compare(lib, d, best.value).Greater? then Some(d) else best
  }

  /** One cell; NULL is skipped and SUM and AVG reject what is not a number. */
  function AddCell(lib: Library, f: Fold, d: Datum): Outcome<Fold> {
    if d.Null? then Ok(f)
    else
      match f
      case FSum(ints, floats, anyFloat, n) =>
        if d.Int? then Ok(FSum(ints + d.i, floats, anyFloat, n + 1))
        else if d.Float? then Ok(FSum(ints, floats + d.f, true, n + 1))
        else TypeMismatch
      case FAvg(sum, n) =>
        if d.Int? then Ok(FAvg(sum + d.i as real, n + 1))
        else if d.Float? then Ok(FAvg(sum + d.f, n + 1))
        else TypeMismatch
      case FMin(best) => Ok(FMin(Take(lib, d, best, true)))
      case FMax(best) => Ok(FMax(Take(lib, d, best, false)))
  }

  /** Cells in order; the first mismatch ends the fold. */
  function AddAll(lib: Library, f: Fold, cells: seq<Datum>): Outcome<Fold> {
    if cells == [] then Ok(f)
    else
      var before := AddAll(lib, f, cells[..|cells| - 1]);
      if before.Ok? then AddCell(lib, before.value, cells[|cells| - 1]) else before
  }

  function Finish(f: Fold): Datum {
    match f
    case FSum(ints, floats, anyFloat, n) =>
      if n == 0 then Null
      else if anyFloat then Float(floats + ints as real)
      else if -0x8000_0000_0000_0000 <= ints <= 0x7FFF_FFFF_FFFF_FFFF then Int(ints)
      else Float(ints as real)
    case FAvg(sum, n) => if n == 0 then Null else Float(sum / n as real)
    case FMin(best) => if best.Some? then best.value else Null
    case FMax(best) => if best.Some? then best.value else Null
  }

  /** The active rows of one morsel, folded in place. */
  method FoldColumn(lib: Library, cells: seq<Datum>, sel: seq<nat>, fold: Fold) returns (r: Outcome<Fold>)
    requires forall i :: 0 <= i < |sel| ==> sel[i] < |cells|
    ensures r == AddAll(lib, fold, Active(cells, sel))
  {
    var f := fold;
    var active := Active(cells, sel);
    for i := 0 to |sel|
      invariant AddAll(lib, fold, active[..i]) == Ok(f)
    {
      assert active[..i + 1][..i] == active[..i];
      var next := AddCell(lib, f, cells[sel[i]]);
      if next.TypeMismatch? {
        assert active == active[..i + 1] + active[i + 1..];
        Stops(lib, fold, active[..i + 1], active[i + 1..]);
        return TypeMismatch;
      }
      f := next.value;
    }
    assert active[..|sel|] == active;
    return Ok(f);
  }

  function Active(cells: seq<Datum>, sel: seq<nat>): (r: seq<Datum>)
    requires forall i :: 0 <= i < |sel| ==> sel[i] < |cells|
    ensures |r| == |sel| && forall i :: 0 <= i < |sel| ==> r[i] == cells[sel[i]]
  {
    seq(|sel|, i requires 0 <= i < |sel| => cells[sel[i]])
  }

  /** Folding morsel after morsel is folding all rows at once. */
  lemma {:induction false} MorselsCompose(lib: Library, f: Fold, a: seq<Datum>, b: seq<Datum>)
    ensures AddAll(lib, f, a + b) == if AddAll(lib, f, a).Ok? then AddAll(lib, AddAll(lib, f, a).value, b) else TypeMismatch
    decreases |b|
  {
    if b == [] {
      assert a + b == a;
    } else {
      var init := b[..|b| - 1];
      MorselsCompose(lib, f, a, init);
      assert (a + b)[..|a + b| - 1] == a + init;
    }
  }

  lemma Stops(lib: Library, f: Fold, a: seq<Datum>, b: seq<Datum>)
    requires AddAll(lib, f, a).TypeMismatch?
    ensures AddAll(lib, f, a + b).TypeMismatch?
  {
    MorselsCompose(lib, f, a, b);
  }

  // ---------------------------------------------------------------------
  // What the folds compute
  // ---------------------------------------------------------------------

  function SumInts(cells: seq<Datum>): int {
    if cells == [] then 0 else SumInts(cells[..|cells| - 1]) + if cells[|cells| - 1].Int? then cells[|cells| - 1].i else 0
  }

  function SumFloats(cells: seq<Datum>): real {
    if cells == [] then 0.0 else SumFloats(cells[..|cells| - 1]) + if cells[|cells| - 1].Float? then cells[|cells| - 1].f else 0.0
  }

  function Present(cells: seq<Datum>): nat {
    if cells == [] then 0 else Present(cells[..|cells| - 1]) + if cells[|cells| - 1].Null? then 0 else 1
  }

  predicate Numbers(cells: seq<Datum>) { forall i :: 0 <= i < |cells| ==> cells[i].Null? || cells[i].Int? || cells[i].Float? }

  predicate AnyFloat(cells: seq<Datum>) { exists i :: 0 <= i < |cells| && cells[i].Float? }

  lemma {:induction false} SumMeaning(lib: Library, cells: seq<Datum>)
    ensures AddAll(lib, Start(Sum), cells) ==
            if Numbers(cells) then Ok(FSum(SumInts(cells), SumFloats(cells), AnyFloat(cells), Present(cells))) else TypeMismatch
    ensures AddAll(lib, Start(Avg), cells) ==
            if Numbers(cells) then Ok(FAvg(SumInts(cells) as real + SumFloats(cells), Present(cells))) else TypeMismatch
  {
    if cells != [] {
      var init, last := cells[..|cells| - 1], cells[|cells| - 1];
      SumMeaning(lib, init);
      assert cells == init + [last];
      assert Numbers(cells) <==> Numbers(init) && (last.Null? || last.Int? || last.Float?);
      assert AnyFloat(cells) <==> AnyFloat(init) || last.Float? by {
        if AnyFloat(init) {
          var i :| 0 <= i < |init| && init[i].Float?;
          assert cells[i].Float?;
        }
        if last.Float? {
          assert cells[|init|].Float?;
        }
      }
    }
  }

  function Amount(d: Datum): real {
    match d
    case Int(v) => v as real
    case Float(v) => v
    case _ => 0.0
  }

  function Total(cells: seq<Datum>): real { SumInts(cells) as real + SumFloats(cells) }

  /** What SUM and AVG report of numbers: NULL exactly when none is present, else a value equal
      to the exact total, an INT exactly when every number is one and the total fits; the
      average times the count is the total. */
  lemma ResultMeaning(lib: Library, cells: seq<Datum>)
    requires Numbers(cells)
    ensures var sum := AddAll(lib, Start(Sum), cells);
            && sum.Ok? && (Finish(sum.value).Null? <==> Present(cells) == 0)
            && (Present(cells) > 0 ==> Amount(Finish(sum.value)) == Total(cells))
            && (Finish(sum.value).Int? <==> Present(cells) > 0 && !AnyFloat(cells) && -0x8000_0000_0000_0000 <= SumInts(cells) <= 0x7FFF_FFFF_FFFF_FFFF)
    ensures var avg := AddAll(lib, Start(Avg), cells);
            && avg.Ok? && (Finish(avg.value).Null? <==> Present(cells) == 0)
            && (Present(cells) > 0 ==> Amount(Finish(avg.value)) * Present(cells) as real == Total(cells))
  {
    SumMeaning(lib, cells);
    NoFloats(cells);
    hide AddAll, SumInts, SumFloats, AnyFloat, Numbers, Present;
    if Present(cells) > 0 {
      Quotient(Total(cells), Present(cells) as real);
    }
  }

  lemma Quotient(x: real, n: real)
    requires n > 0.0
    ensures x / n * n == x
  {
  }

  lemma {:induction false} NoFloats(cells: seq<Datum>)
    ensures !AnyFloat(cells) ==> SumFloats(cells) == 0.0
  {
    if cells != [] && !AnyFloat(cells) {
      var init := cells[..|cells| - 1];
      forall i | 0 <= i < |init| ensures !init[i].Float? { assert !cells[i].Float?; }
      NoFloats(init);
    }
  }

  lemma {:induction false} TextOrder(a: string, b: string, c: string)
    ensures CompareText(a, b).Less? <==> CompareText(b, a).Greater?
    ensures !CompareText(a, b).Greater? && !CompareText(b, c).Greater? ==> !CompareText(a, c).Greater?
  {
    if a != [] && b != [] && c != [] {
      TextOrder(a[1..], b[1..], c[1..]);
    } else if a != [] && b != [] {
      TextOrder(a[1..], b[1..], []);
    }
  }

  /** Rounding an integer to a float keeps the order. */
  ghost predicate Monotone(lib: Library) { forall i, j :: i <= j ==> lib.toFloat(i) <= lib.toFloat(j) }

  /** The order of values has no cycles with a strict step; being neither less nor greater is
      not transitive between integers and the floats they round to. */
  lemma DatumOrder(lib: Library, a: Datum, b: Datum, c: Datum)
    requires Monotone(lib)
    ensures Compare(lib, a, b).Less? <==> Compare(lib, b, a).Greater?
    ensures Compare(lib, a, b).Less? && !Compare(lib, b, c).Greater? ==> !Compare(lib, a, c).Greater?
    ensures !Compare(lib, a, b).Greater? && Compare(lib, b, c).Less? ==> !Compare(lib, a, c).Greater?
  {
    if a.Text? && b.Text? {
      TextOrder(a.s, b.s, if c.Text? then c.s else "");
    }
    if a.Int? && c.Int? {
      assert c.i < a.i ==> lib.toFloat(c.i) <= lib.toFloat(a.i);
    }
    if a.Int? && b.Int? {
      assert a.i <= b.i ==> lib.toFloat(a.i) <= lib.toFloat(b.i);
    }
    if b.Int? && c.Int? {
      assert b.i <= c.i ==> lib.toFloat(b.i) <= lib.toFloat(c.i);
    }
  }

  ghost predicate IsLeast(lib: Library, m: Option<Datum>, cells: seq<Datum>) {
    match m
    case None => forall i :: 0 <= i < |cells| ==> cells[i].Null?
    case Some(d) => !d.Null? && d in cells && forall i :: 0 <= i < |cells| && !cells[i].Null? ==> !Compare(lib, d, cells[i]).Greater?
  }

  ghost predicate IsGreatest(lib: Library, m: Option<Datum>, cells: seq<Datum>) {
    match m
    case None => forall i :: 0 <= i < |cells| ==> cells[i].Null?
    case Some(d) => !d.Null? && d in cells && forall i :: 0 <= i < |cells| && !cells[i].Null? ==> !Compare(lib, cells[i], d).Greater?
  }

  /** MIN and MAX are an extremum of the values present, NULL when there is none. */
  lemma {:induction false} ExtremaMeaning(lib: Library, cells: seq<Datum>)
    requires Monotone(lib)
    ensures var r := AddAll(lib, Start(Min), cells); r.Ok? && r.value.FMin? && IsLeast(lib, r.value.best, cells)
    ensures var r := AddAll(lib, Start(Max), cells); r.Ok? && r.value.FMax? && IsGreatest(lib, r.value.best, cells)
  {
    if cells != [] {
      var init, last := cells[..|cells| - 1], cells[|cells| - 1];
      ExtremaMeaning(lib, init);
      assert cells == init + [last];
      var lo, hi := AddAll(lib, Start(Min), init).value.best, AddAll(lib, Start(Max), init).value.best;
      if !last.Null? {
        LeastNext(lib, init, lo, last);
        GreatestNext(lib, init, hi, last);
      }
    }
  }

  lemma LeastNext(lib: Library, init: seq<Datum>, best: Option<Datum>, last: Datum)
    requires Monotone(lib) && IsLeast(lib, best, init) && !last.Null?
    ensures IsLeast(lib, Take(lib, last, best, true), init + [last])
  {
    var cells := init + [last];
    DatumOrder(lib, last, last, last);
    if best.Some? {
      DatumOrder(lib, last, best.value, best.value);
      forall i | 0 <= i < |init| && !init[i].Null?
        ensures Compare(lib, last, best.value).Less? ==> !Compare(lib, last, init[i]).Greater?
      {
        DatumOrder(lib, last, best.value, init[i]);
      }
      hide Compare;
      assert best.value in cells;
    }
  }

  lemma GreatestNext(lib: Library, init: seq<Datum>, best: Option<Datum>, last: Datum)
    requires Monotone(lib) && IsGreatest(lib, best, init) && !last.Null?
    ensures IsGreatest(lib, Take(lib, last, best, false), init + [last])
  {
    var cells := init + [last];
    DatumOrder(lib, last, last, last);
    if best.Some? {
      DatumOrder(lib, best.value, last, last);
      DatumOrder(lib, last, best.value, best.value);
      forall i | 0 <= i < |init| && !init[i].Null?
        ensures Compare(lib, last, best.value).Greater? ==> !Compare(lib, init[i], last).Greater?
      {
        DatumOrder(lib, init[i], best.value, last);
      }
      hide Compare;
      assert best.value in cells;
    }
  }

  /** What MIN and MAX report: NULL exactly when no value is present, else one of the values
      with none smaller, or none greater. */
  lemma ExtremaResult(lib: Library, cells: seq<Datum>)
    requires Monotone(lib)
    ensures var min := AddAll(lib, Start(Min), cells);
            && min.Ok? && (Finish(min.value).Null? <==> Present(cells) == 0)
            && (Present(cells) > 0 ==>
                  && Finish(min.value) in cells
                  && forall d :: d in cells && !d.Null? ==> !Compare(lib, d, Finish(min.value)).Less?)
    ensures var max := AddAll(lib, Start(Max), cells);
            && max.Ok? && (Finish(max.value).Null? <==> Present(cells) == 0)
            && (Present(cells) > 0 ==>
                  && Finish(max.value) in cells
                  && forall d :: d in cells && !d.Null? ==> !Compare(lib, d, Finish(max.value)).Greater?)
  {
    ExtremaMeaning(lib, cells);
    SomePresent(cells);
    hide AddAll, Present, Compare;
    var lo, hi := AddAll(lib, Start(Min), cells).value.best, AddAll(lib, Start(Max), cells).value.best;
    forall d | d in cells && !d.Null?
      ensures lo.Some? && !Compare(lib, d, lo.value).Less? && hi.Some? && !Compare(lib, d, hi.value).Greater?
    {
      var i :| 0 <= i < |cells| && cells[i] == d;
      assert lo.Some? && hi.Some?;
      DatumOrder(lib, d, lo.value, lo.value);
    }
  }

  lemma {:induction false} SomePresent(cells: seq<Datum>)
    ensures Present(cells) > 0 <==> exists i :: 0 <= i < |cells| && !cells[i].Null?
  {
    if cells != [] {
      var init := cells[..|cells| - 1];
      SomePresent(init);
      assert forall i :: 0 <= i < |init| ==> init[i] == cells[i];
    }
  }
}
