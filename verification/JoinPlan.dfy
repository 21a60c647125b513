/**
 The joined SELECT as executed: push local conjuncts into the inputs, order the joins, run
 them left-deep, then filter by WHERE.
 */
module JoinPlan {
  import opened Bytes
  import opened Sql
  import opened JoinOrder
  import opened JoinExec
  import opened Bags
  import opened JoinMeaning
  import opened JoinRows

  // ---------------------------------------------------------------------
  // Local conjuncts
  // ---------------------------------------------------------------------

  /** The conjuncts of the AND spine, last written first. */
  function Spine(e: Expr): seq<Expr> {
    match e case And(a, b) => Spine(b) + Spine(a) case _ => [e]
  }

  function StackSpine(stack: seq<Expr>): seq<Expr> {
    if stack == [] then [] else Spine(stack[|stack| - 1]) + StackSpine(stack[..|stack| - 1])
  }

  /** Every column of `e`, and there is one, belongs to table `t`. */
  predicate LocalTo(e: Expr, t: nat, widths: seq<nat>) {
    Columns(e) != {} && forall c :: c in Columns(e) ==> c.table == t && Resolves(c, widths)
  }

  function IsLocal(t: nat, widths: seq<nat>): Expr -> bool { e => LocalTo(e, t, widths) }

  /** A right-nested conjunction. */
  function Conjoin(es: seq<Expr>): Expr
    requires es != []
  {
    if |es| == 1 then es[0] else And(es[0], Conjoin(es[1..]))
  }

  function LocalOf(selection: Option<Expr>, t: nat, widths: seq<nat>): Option<Expr> {
    if selection.None? then None
    else
      var kept := Filter(IsLocal(t, widths), Spine(selection.value));
      if kept == [] then None else Some(Conjoin(kept))
  }

  function Size(e: Expr): nat { match e case And(a, b) => Size(a) + Size(b) + 1 case _ => 1 }

  function StackSize(stack: seq<Expr>): nat {
    if stack == [] then 0 else Size(stack[|stack| - 1]) + StackSize(stack[..|stack| - 1])
  }

  lemma StackPush(stack: seq<Expr>, e: Expr)
    ensures StackSpine(stack + [e]) == Spine(e) + StackSpine(stack) && StackSize(stack + [e]) == Size(e) + StackSize(stack)
  {
    assert (stack + [e])[..|stack|] == stack;
  }

  lemma StackPop(rest: seq<Expr>, top: Expr)
    ensures top.And? ==>
              && StackSpine(rest + [top.a] + [top.b]) == StackSpine(rest + [top])
              && StackSize(rest + [top.a] + [top.b]) < StackSize(rest + [top])
    ensures !top.And? ==>
              StackSpine(rest + [top]) == [top] + StackSpine(rest) && StackSize(rest) < StackSize(rest + [top])
  {
    StackPush(rest, top);
    hide StackSpine, StackSize;
    if top.And? {
      StackPush(rest, top.a);
      StackPush(rest + [top.a], top.b);
    }
  }

  lemma NoStack(e: Expr)
    ensures StackSpine([]) == [] && StackSpine([e]) == Spine(e)
  {
    assert [e][..0] == [];
  }

  /** The AND spine by an explicit stack. */
  method Flatten(e: Expr) returns (conjuncts: seq<Expr>)
    ensures conjuncts == Spine(e)
  {
    hide StackSpine, StackSize, Spine;
    NoStack(e);
    var stack := [e];
    conjuncts := [];
    while stack != []
      invariant conjuncts + StackSpine(stack) == Spine(e)
      decreases StackSize(stack)
    {
      var top, rest := stack[|stack| - 1], stack[..|stack| - 1];
      StackPop(rest, top);
      assert stack == rest + [top];
      match top {
        case And(a, b) =>
          stack := rest + [a] + [b];
        case _ =>
          conjuncts := conjuncts + [top];
          stack := rest;
      }
    }
  }

  /** Extraction of the local conjuncts, rebuilt from the end. */
  method LocalPredicate(selection: Option<Expr>, t: nat, widths: seq<nat>) returns (local: Option<Expr>)
    ensures local == LocalOf(selection, t, widths)
  {
    if selection.None? {
      return None;
    }
    var conjuncts := Flatten(selection.value);
    var kept := Filter(IsLocal(t, widths), conjuncts);
    if kept == [] {
      return None;
    }
    hide Filter, Spine;
    ghost var all := kept;
    var out := kept[|kept| - 1];
    kept := kept[..|kept| - 1];
    while kept != []
      invariant kept == all[..|kept|] && |kept| < |all| && out == Conjoin(all[|kept|..])
      decreases |kept|
    {
      out := And(kept[|kept| - 1], out);
      assert all[|kept| - 1..][1..] == all[|kept|..];
      kept := kept[..|kept| - 1];
    }
    assert all[0..] == all;
    return Some(out);
  }

  predicate TrueIn(lib: Library, e: Expr, at: Scope) { Eval(lib, e, at) == Is(true) }

  lemma {:induction false} SpineTrue(lib: Library, e: Expr, at: Scope, c: Expr)
    requires TrueIn(lib, e, at) && c in Spine(e)
    ensures TrueIn(lib, c, at)
  {
    if e.And? {
      if c in Spine(e.a) { SpineTrue(lib, e.a, at, c); } else { SpineTrue(lib, e.b, at, c); }
    }
  }

  lemma {:induction false} ConjoinTrue(lib: Library, es: seq<Expr>, at: Scope)
    requires es != []
    ensures TrueIn(lib, Conjoin(es), at) <==> forall i :: 0 <= i < |es| ==> TrueIn(lib, es[i], at)
  {
    if |es| > 1 {
      var tail := es[1..];
      ConjoinTrue(lib, tail, at);
      assert forall i :: 0 <= i < |tail| ==> tail[i] == es[i + 1];
      assert es == [es[0]] + tail;
    }
  }

  lemma {:induction false} ConjoinColumn(es: seq<Expr>, c: Column) returns (i: nat)
    requires es != [] && c in Columns(Conjoin(es))
    ensures i < |es| && c in Columns(es[i])
  {
    if c in Columns(es[0]) {
      i := 0;
    } else {
      i := ConjoinColumn(es[1..], c);
      i := i + 1;
    }
  }

  /** The pushed predicate mentions only its table, and WHERE implies it. */
  lemma LocalImplied(lib: Library, where: Expr, t: nat, widths: seq<nat>, at: Scope)
    requires LocalOf(Some(where), t, widths).Some?
    ensures forall c :: c in Columns(LocalOf(Some(where), t, widths).value) ==> c.table == t && Resolves(c, widths)
    ensures TrueIn(lib, where, at) ==> TrueIn(lib, LocalOf(Some(where), t, widths).value, at)
  {
    var f, spine := IsLocal(t, widths), Spine(where);
    var kept := Filter(f, spine);
    forall i | 0 <= i < |kept|
      ensures LocalTo(kept[i], t, widths)
      ensures TrueIn(lib, where, at) ==> TrueIn(lib, kept[i], at)
    {
      FilterMember(f, spine, kept[i]);
      if TrueIn(lib, where, at) {
        SpineTrue(lib, where, at, kept[i]);
      }
    }
    forall c | c in Columns(Conjoin(kept))
      ensures c.table == t && Resolves(c, widths)
    {
      var i := ConjoinColumn(kept, c);
      assert LocalTo(kept[i], t, widths);
    }
    ConjoinTrue(lib, kept, at);
  }

  // ---------------------------------------------------------------------
  // Shapes the evaluator accepts
  // ---------------------------------------------------------------------

  lemma OperandVal(e: Expr, at: Scope)
    requires Scalar(e) && forall c :: c in Columns(e) ==> at(c).Some?
    ensures Operand(e, at).Val?
  {
    if e.Col? {
      assert e.column in Columns(e);
    }
  }

  lemma {:induction false} SupportedIs(lib: Library, e: Expr, at: Scope)
    requires Supported(e) && forall c :: c in Columns(e) ==> at(c).Some?
    ensures Eval(lib, e, at).Is?
  {
    match e
    case And(a, b) => SupportedIs(lib, a, at); SupportedIs(lib, b, at);
    case Or(a, b) => SupportedIs(lib, a, at); SupportedIs(lib, b, at);
    case Not(x) => SupportedIs(lib, x, at);
    case Cmp(l, _, r) => OperandVal(l, at); OperandVal(r, at);
    case In(x, _, _) => OperandVal(x, at);
    case Between(x, _, _, _) => OperandVal(x, at);
    case Like(x, _, _) => OperandVal(x, at);
    case Col(c) => assert c in Columns(e);
    case Lit(_) =>
  }

  lemma {:induction false} SpineSupported(e: Expr, c: Expr)
    requires Supported(e) && c in Spine(e)
    ensures Supported(c)
  {
    if e.And? {
      if c in Spine(e.a) { SpineSupported(e.a, c); } else { SpineSupported(e.b, c); }
    }
  }

  lemma {:induction false} ConjoinSupported(es: seq<Expr>)
    requires es != [] && forall i :: 0 <= i < |es| ==> Supported(es[i])
    ensures Supported(Conjoin(es))
  {
    if |es| > 1 {
      ConjoinSupported(es[1..]);
    }
  }

  lemma LocalSupported(where: Expr, t: nat, widths: seq<nat>)
    requires Supported(where) && LocalOf(Some(where), t, widths).Some?
    ensures Supported(LocalOf(Some(where), t, widths).value)
  {
    var f, spine := IsLocal(t, widths), Spine(where);
    var kept := Filter(f, spine);
    forall i | 0 <= i < |kept| ensures Supported(kept[i]) {
      FilterMember(f, spine, kept[i]);
      SpineSupported(where, kept[i]);
    }
    ConjoinSupported(kept);
  }
}
