/**
 What evaluation means: the order of values each comparison asks about, NULL, the connectives,
 IN and BETWEEN, and their agreement with the bounds of an index scan.
 */
module Comparisons {
  import opened Bytes
  import opened Sql
  import Tables
  import JoinExec

  // ---------------------------------------------------------------------
  // The order of values of one kind
  // ---------------------------------------------------------------------

  /** Two values of one kind, neither NULL. */
  predicate Alike(a: Datum, b: Datum) {
    || (a.Int? && b.Int?) || (a.Float? && b.Float?) || (a.Text? && b.Text?) || (a.Bool? && b.Bool?)
    || (a.DateTime? && b.DateTime?)
  }

  /** The texts agree before place `n`, where `a` has ended or has the smaller code point. */
  ghost predicate BeforeAt(a: string, b: string, n: nat) {
    n <= |a| && n < |b| && (forall k :: 0 <= k < n ==> a[k] == b[k]) && (n == |a| || a[n] < b[n])
  }

  ghost predicate TextBefore(a: string, b: string) { exists n: nat :: BeforeAt(a, b, n) }

  /** `a` is the smaller value. */
  ghost predicate Smaller(a: Datum, b: Datum)
    requires Alike(a, b)
  {
    match a
    case Int(v) => v < b.i
    case Float(v) => v < b.f
    case Text(s) => TextBefore(s, b.s)
    case Bool(v) => !v && b.b
    case DateTime(v) => v < b.micros
  }

  lemma BeforeNext(a: string, b: string, n: nat)
    requires a != [] && b != [] && a[0] == b[0]
    ensures BeforeAt(a, b, n + 1) <==> BeforeAt(a[1..], b[1..], n)
  {
    var x, y := a[1..], b[1..];
    assert forall k: nat :: k < |x| ==> x[k] == a[k + 1];
    assert forall k: nat :: k < |y| ==> y[k] == b[k + 1];
    if BeforeAt(x, y, n) {
      forall k: nat | 0 < k < n + 1 ensures a[k] == b[k] {
        assert x[k - 1] == y[k - 1];
      }
    }
  }

  lemma TextBeforeStep(a: string, b: string)
    requires a != [] && b != [] && a[0] == b[0]
    ensures TextBefore(a, b) <==> TextBefore(a[1..], b[1..])
  {
    if n: nat :| BeforeAt(a, b, n) {
      assert n > 0;
      BeforeNext(a, b, n - 1);
    }
    if n: nat :| BeforeAt(a[1..], b[1..], n) {
      BeforeNext(a, b, n);
      assert BeforeAt(a, b, n + 1);
    }
  }

  lemma TextBeforeFirst(a: string, b: string)
    requires a == [] || b == [] || a[0] != b[0]
    ensures TextBefore(a, b) <==> b != [] && (a == [] || a[0] < b[0])
  {
    if b != [] && (a == [] || a[0] < b[0]) {
      assert BeforeAt(a, b, 0);
    }
  }

  lemma {:induction false} TextOrder(a: string, b: string)
    ensures CompareText(a, b).Less? <==> TextBefore(a, b)
    ensures CompareText(a, b).Greater? <==> TextBefore(b, a)
    ensures CompareText(a, b).Equal? <==> a == b
  {
    if a != [] && b != [] && a[0] == b[0] {
      TextOrder(a[1..], b[1..]);
      TextBeforeStep(a, b);
      TextBeforeStep(b, a);
      assert a == [a[0]] + a[1..] && b == [b[0]] + b[1..];
    } else {
      TextBeforeFirst(a, b);
      TextBeforeFirst(b, a);
    }
  }

  /** The comparison of values of one kind finds the smaller one. */
  lemma CompareIs(lib: Library, a: Datum, b: Datum)
    requires Alike(a, b)
    ensures Compare(lib, a, b).Less? <==> Smaller(a, b)
    ensures Compare(lib, a, b).Greater? <==> Smaller(b, a)
    ensures Compare(lib, a, b).Equal? <==> a == b
  {
    if a.Text? {
      TextOrder(a.s, b.s);
    }
    hide TextBefore, CompareText;
  }

  /** Of two values of one kind exactly one is the smaller, or they are equal. */
  lemma Trichotomy(a: Datum, b: Datum)
    requires Alike(a, b)
    ensures Smaller(a, b) || a == b || Smaller(b, a)
    ensures !(Smaller(a, b) && a == b) && !(Smaller(a, b) && Smaller(b, a))
  {
    if a.Text? {
      TextOrder(a.s, b.s);
    }
    hide TextBefore, CompareText;
  }

  // ---------------------------------------------------------------------
  // Comparisons
  // ---------------------------------------------------------------------

  function Test(lib: Library, a: Datum, op: CmpOp, b: Datum): Truth { Eval(lib, Cmp(Lit(a), op, Lit(b)), _ => None) }

  /** A comparison of a column with a literal, or of two columns, is the comparison of their
      values. */
  lemma ColumnsCompare(lib: Library, c: Column, d: Column, op: CmpOp, v: Datum, at: Scope)
    requires at(c).Some? && at(d).Some?
    ensures Eval(lib, Cmp(Col(c), op, Lit(v)), at) == Test(lib, at(c).value, op, v)
    ensures Eval(lib, Cmp(Lit(v), op, Col(c)), at) == Test(lib, v, op, at(c).value)
    ensures Eval(lib, Cmp(Col(c), op, Col(d)), at) == Test(lib, at(c).value, op, at(d).value)
  {
  }

  /** What each comparison of two values of one kind says. */
  lemma TestIs(lib: Library, a: Datum, b: Datum)
    requires Alike(a, b)
    ensures Test(lib, a, Eq, b) == Is(a == b) && Test(lib, a, Ne, b) == Is(a != b)
    ensures Test(lib, a, Lt, b) == Is(Smaller(a, b)) && Test(lib, a, Gt, b) == Is(Smaller(b, a))
    ensures Test(lib, a, Le, b) == Is(Smaller(a, b) || a == b) && Test(lib, a, Ge, b) == Is(Smaller(b, a) || a == b)
  {
    CompareIs(lib, a, b);
    Trichotomy(a, b);
    hide Smaller, Compare;
  }

  /** A number against a number of the other kind: the integer is rounded. */
  lemma NumbersCompare(lib: Library, i: Int64, f: real)
    ensures Test(lib, Int(i), Eq, Float(f)) == Is(lib.toFloat(i) == f) && Test(lib, Float(f), Eq, Int(i)) == Is(lib.toFloat(i) == f)
    ensures Test(lib, Int(i), Lt, Float(f)) == Is(lib.toFloat(i) < f) && Test(lib, Float(f), Gt, Int(i)) == Is(lib.toFloat(i) < f)
    ensures Test(lib, Int(i), Gt, Float(f)) == Is(lib.toFloat(i) > f) && Test(lib, Float(f), Lt, Int(i)) == Is(lib.toFloat(i) > f)
  {
  }

  /** A BOOL against an integer is 0 or 1, and a text that reads as a date is that date. */
  lemma CoercedCompare(lib: Library, b: bool, i: Int64, s: string, m: Int64, op: CmpOp)
    ensures Test(lib, Bool(b), op, Int(i)) == Test(lib, Int(if b then 1 else 0), op, Int(i))
    ensures Test(lib, Int(i), op, Bool(b)) == Test(lib, Int(i), op, Int(if b then 1 else 0))
    ensures lib.parse(s).Some? ==> Test(lib, Text(s), op, DateTime(m)) == Test(lib, DateTime(lib.parse(s).value), op, DateTime(m))
    ensures lib.parse(s).Some? ==> Test(lib, DateTime(m), op, Text(s)) == Test(lib, DateTime(m), op, DateTime(lib.parse(s).value))
  {
  }

  /** No comparison with NULL holds, nor IN, BETWEEN or LIKE of it, negated or not. */
  lemma NullIsFalse(lib: Library, x: Expr, op: CmpOp, v: Datum, vs: seq<Datum>, pattern: string, negated: bool, at: Scope)
    requires Operand(x, at) == Val(Null)
    ensures Eval(lib, Cmp(x, op, Lit(v)), at) == Is(false) && Eval(lib, Cmp(Lit(v), op, x), at) == Is(false)
    ensures Eval(lib, In(x, vs, negated), at) == Is(false) && Eval(lib, Between(x, v, v, negated), at) == Is(false)
    ensures Eval(lib, Like(x, pattern, negated), at) == Is(false)
  {
  }

  // ---------------------------------------------------------------------
  // Connectives, IN, BETWEEN
  // ---------------------------------------------------------------------

  /** On operands with truth values the connectives are those of logic. */
  lemma Connectives(lib: Library, a: Expr, b: Expr, at: Scope)
    requires Eval(lib, a, at).Is? && Eval(lib, b, at).Is?
    ensures Eval(lib, And(a, b), at) == Is(Eval(lib, a, at).holds && Eval(lib, b, at).holds)
    ensures Eval(lib, Or(a, b), at) == Is(Eval(lib, a, at).holds || Eval(lib, b, at).holds)
    ensures Eval(lib, Not(a), at) == Is(!Eval(lib, a, at).holds)
  {
  }

  /** An operand without a truth value decides unless the left operand already has. */
  lemma Failures(lib: Library, a: Expr, b: Expr, at: Scope)
    requires !Eval(lib, b, at).Is?
    ensures Eval(lib, Not(b), at) == Eval(lib, b, at) == Eval(lib, And(b, a), at) == Eval(lib, Or(b, a), at)
    ensures Eval(lib, a, at) == Is(true) ==> Eval(lib, And(a, b), at) == Eval(lib, b, at) && Eval(lib, Or(a, b), at) == Is(true)
    ensures Eval(lib, a, at) == Is(false) ==> Eval(lib, And(a, b), at) == Is(false) && Eval(lib, Or(a, b), at) == Eval(lib, b, at)
  {
  }

  /** IN is equality with some listed value, NOT IN the opposite. */
  lemma InIs(lib: Library, a: Datum, vs: seq<Datum>, at: Scope)
    requires !a.Null?
    ensures Eval(lib, In(Lit(a), vs, false), at) == Is(exists i :: 0 <= i < |vs| && Test(lib, a, Eq, vs[i]) == Is(true))
    ensures Eval(lib, In(Lit(a), vs, true), at) == Is(forall i :: 0 <= i < |vs| ==> Test(lib, a, Eq, vs[i]) != Is(true))
  {
    assert forall i :: 0 <= i < |vs| ==> (InMatch(lib, a, vs[i]) <==> Test(lib, a, Eq, vs[i]) == Is(true));
  }

  /** A bare value is true when it is TRUE or a number other than zero. */
  lemma BareIs(lib: Library, b: bool, i: Int64, f: real, s: string, at: Scope)
    ensures Eval(lib, Lit(Bool(b)), at) == Is(b)
    ensures Eval(lib, Lit(Int(i)), at) == Is(i != 0) && Eval(lib, Lit(Float(f)), at) == Is(f != 0.0)
    ensures Eval(lib, Lit(Text(s)), at) == Is(false) == Eval(lib, Lit(DateTime(i)), at) && Eval(lib, Lit(Null), at) == Is(false)
  {
  }

  lemma LikeIs(lib: Library, s: string, d: Datum, pattern: string, at: Scope)
    requires !d.Null? && !d.Text?
    ensures Eval(lib, Like(Lit(Text(s)), pattern, false), at) == Is(lib.like(s, pattern))
    ensures Eval(lib, Like(Lit(Text(s)), pattern, true), at) == Is(!lib.like(s, pattern))
    ensures Eval(lib, Like(Lit(d), pattern, false), at) == Is(lib.like(lib.show(d), pattern))
  {
  }

  /** BETWEEN, over values of one kind, is not below the one bound nor above the other. */
  lemma BetweenIs(lib: Library, a: Datum, lo: Datum, hi: Datum, at: Scope)
    requires Alike(a, lo) && Alike(a, hi)
    ensures Eval(lib, Between(Lit(a), lo, hi, false), at) == Is(!Smaller(a, lo) && !Smaller(hi, a))
    ensures Eval(lib, Between(Lit(a), lo, hi, true), at) == Is(Smaller(a, lo) || Smaller(hi, a))
  {
    CompareIs(lib, a, lo);
    CompareIs(lib, a, hi);
    hide Smaller, Compare;
  }

  // ---------------------------------------------------------------------
  // Index scans
  // ---------------------------------------------------------------------

  /** A value is inside an index bound exactly when the comparison with it holds. */
  lemma BoundsAreComparisons(lib: Library, d: Datum, v: Datum)
    requires Alike(d, v)
    ensures Tables.Below(lib, d, Some((v, false))) <==> Test(lib, d, Lt, v) == Is(true)
    ensures Tables.Below(lib, d, Some((v, true))) <==> Test(lib, d, Le, v) == Is(true)
    ensures Tables.Above(lib, d, Some((v, false))) <==> Test(lib, d, Gt, v) == Is(true)
    ensures Tables.Above(lib, d, Some((v, true))) <==> Test(lib, d, Ge, v) == Is(true)
    ensures Tables.Below(lib, d, None) && Tables.Above(lib, d, None)
  {
    TestIs(lib, d, v);
    CompareIs(lib, d, v);
    hide Smaller, Compare, Test;
  }

  // ---------------------------------------------------------------------
  // Joins and foreign keys
  // ---------------------------------------------------------------------

  /** Values meet in an equi-join, and match in a foreign key, exactly when `=` holds. */
  lemma SameIsEquality(lib: Library, a: Datum, b: Datum)
    ensures JoinExec.Same(lib, a, b) <==> Test(lib, a, Eq, b) == Is(true)
  {
  }
}
