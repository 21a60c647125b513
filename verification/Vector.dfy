/**
 The vectorised filter: a predicate over a selection of rows, as the rows that pass and
 the rows that fail on an unknown column, against short-circuit scalar evaluation.
 */
module Vector {
  import opened Bytes
  import opened Sql
  import opened Bags

  /** Selection vectors: row numbers, ascending. */
  type Sel = seq<nat>

  ghost predicate Ascending(s: Sel) { forall i, j :: 0 <= i < j < |s| ==> s[i] < s[j] }

  // ---------------------------------------------------------------------
  // Sorted sets
  // ---------------------------------------------------------------------

  lemma {:induction false} AscendingUnique(a: Sel, b: Sel)
    requires Ascending(a) && Ascending(b) && forall x :: x in a <==> x in b
    ensures a == b
  {
    if a == [] {
      NoMembers(b);
    } else {
      assert a[0] in b;
      assert b[0] in a;
      var i :| 0 <= i < |a| && a[i] == b[0];
      var j :| 0 <= j < |b| && b[j] == a[0];
      assert a[0] == b[0];
      var a', b' := a[1..], b[1..];
      forall x ensures x in a' <==> x in b' {
        if x in a' {
          var k :| 0 <= k < |a'| && a'[k] == x;
          assert x == a[k + 1] && x in b;
        }
        if x in b' {
          var k :| 0 <= k < |b'| && b'[k] == x;
          assert x == b[k + 1] && x in a;
        }
      }
      AscendingUnique(a', b');
    }
  }

  method SubtractSorted(a: Sel, b: Sel) returns (out: Sel)
    requires Ascending(a) && Ascending(b)
    ensures Ascending(out) && forall x :: x in out <==> x in a && x !in b
  {
    out := [];
    var i, j := 0, 0;
    while i < |a|
      invariant i <= |a| && j <= |b| && Ascending(out)
      invariant forall x :: x in out <==> x in a[..i] && x !in b
      invariant forall k :: 0 <= k < |out| && i < |a| ==> out[k] < a[i]
      invariant forall k :: 0 <= k < j && i < |a| ==> b[k] < a[i]
      decreases |a| - i + |b| - j
    {
      if j < |b| && b[j] < a[i] {
        j := j + 1;
      } else if j < |b| && b[j] == a[i] {
        assert a[..i + 1] == a[..i] + [a[i]];
        i, j := i + 1, j + 1;
      } else {
        assert a[..i + 1] == a[..i] + [a[i]];
        assert forall k :: j <= k < |b| ==> b[k] > a[i];
        assert a[i] !in b;
        out := out + [a[i]];
        i := i + 1;
      }
    }
    assert a[..i] == a;
  }

  method UnionSorted(a: Sel, b: Sel) returns (out: Sel)
    requires Ascending(a) && Ascending(b)
    ensures Ascending(out) && forall x :: x in out <==> x in a || x in b
  {
    out := [];
    var i, j := 0, 0;
    while i < |a| && j < |b|
      invariant i <= |a| && j <= |b| && Ascending(out)
      invariant forall x :: x in out <==> x in a[..i] || x in b[..j]
      invariant forall k :: 0 <= k < |out| ==> (i < |a| ==> out[k] < a[i]) && (j < |b| ==> out[k] < b[j])
      decreases |a| - i + |b| - j
    {
      assert a[..i + 1] == a[..i] + [a[i]] && b[..j + 1] == b[..j] + [b[j]];
      if a[i] < b[j] {
        out := out + [a[i]];
        i := i + 1;
      } else if b[j] < a[i] {
        out := out + [b[j]];
        j := j + 1;
      } else {
        out := out + [a[i]];
        i, j := i + 1, j + 1;
      }
    }
    assert a == a[..i] + a[i..] && b == b[..j] + b[j..];
    out := out + a[i..] + b[j..];
  }

  // ---------------------------------------------------------------------
  // Leaf tests
  // ---------------------------------------------------------------------

  /** Comparison with the coercions built in; NULL compares by rank. */
  function CompareVals(lib: Library, l: Datum, r: Datum): Ordering {
    match (l, r)
    case (Int(a), Int(b)) => CompareInt(a, b)
    case (Float(a), Float(b)) => CompareReal(a, b)
    case (Int(a), Float(b)) => CompareReal(lib.toFloat(a), b)
    case (Float(a), Int(b)) => CompareReal(a, lib.toFloat(b))
    case (Bool(a), Bool(b)) => CompareInt(Bit(a), Bit(b))
    case (Bool(a), Int(b)) => CompareInt(Bit(a), b)
    case (Int(a), Bool(b)) => CompareInt(a, Bit(b))
    case (Bool(a), Float(b)) => CompareReal(Bit(a) as real, b)
    case (Float(a), Bool(b)) => CompareReal(a, Bit(b) as real)
    case (DateTime(a), DateTime(b)) => CompareInt(a, b)
    case (Text(a), Text(b)) => CompareText(a, b)
    case (DateTime(a), Text(b)) => if lib.parse(b).Some? then CompareInt(a, lib.parse(b).value) else CompareInt(3, 4)
    case (Text(a), DateTime(b)) => if lib.parse(a).Some? then CompareInt(lib.parse(a).value, b) else CompareInt(4, 3)
    case (_, _) => CompareInt(Sql.Rank(l), Sql.Rank(r))
  }

  function ApplyCmp(op: CmpOp, o: Ordering): bool {
    match op
    case Eq => o.Equal?
    case Ne => !o.Equal?
    case Lt => o.Less?
    case Le => !o.Greater?
    case Gt => o.Greater?
    case Ge => !o.Less?
  }

  function InHitOne(lib: Library, t: Datum, v: Datum): bool {
    match (t, v)
    case (Int(a), Int(b)) => a == b
    case (Float(a), Float(b)) => a == b
    case (Int(a), Float(b)) => lib.toFloat(a) == b
    case (Float(a), Int(b)) => a == lib.toFloat(b)
    case (Bool(a), Bool(b)) => a == b
    case (Bool(a), Int(b)) => Bit(a) == b
    case (Int(a), Bool(b)) => a == Bit(b)
    case (Bool(a), Float(b)) => Bit(a) as real == b
    case (Float(a), Bool(b)) => a == Bit(b) as real
    case (DateTime(a), DateTime(b)) => a == b
    case (Text(a), Text(b)) => a == b
    case (DateTime(a), Text(b)) => lib.parse(b) == Some(a)
    case (Text(a), DateTime(b)) => lib.parse(a) == Some(b)
    case (_, _) => false
  }

  /** Membership in an IN list; NULL entries are skipped. */
  method InMatchList(lib: Library, t: Datum, values: seq<Datum>) returns (hit: bool)
    requires !t.Null?
    ensures hit == InHit(lib, t, values)
  {
    for i := 0 to |values|
      invariant forall k :: 0 <= k < i ==> !InMatch(lib, t, values[k])
    {
      if values[i].Null? {
        continue;
      }
      InMirrors(lib, t, values[i]);
      if InHitOne(lib, t, values[i]) {
        return true;
      }
    }
    return false;
  }

  lemma InMirrors(lib: Library, t: Datum, v: Datum)
    requires !t.Null? && !v.Null?
    ensures InHitOne(lib, t, v) == InMatch(lib, t, v)
  {
  }

  lemma {:induction false} TextEqual(a: string, b: string)
    ensures CompareText(a, b).Equal? <==> a == b
  {
    if a != [] && b != [] && a[0] == b[0] {
      TextEqual(a[1..], b[1..]);
      assert a == [a[0]] + a[1..] && b == [b[0]] + b[1..];
    }
  }

  /** The built-in comparison agrees with coercing and comparing, for every operator. */
  lemma CompareMirrors(lib: Library, op: CmpOp, l: Datum, r: Datum)
    requires !l.Null? && !r.Null?
    ensures var (p, q) := CoercePair(lib, l, r); ApplyCmp(op, CompareVals(lib, l, r)) == OpHolds(lib, op, p, q)
  {
    if l.Text? && r.Text? {
      TextEqual(l.s, r.s);
    }
  }

  /** BETWEEN as vectorised: coerced against each bound, then compared with the coercions of
      `CompareVals` once more. */
  predicate InsideVec(lib: Library, t: Datum, lo: Datum, hi: Datum) {
    var (t1, l) := CoercePair(lib, t, lo);
    var (t2, h) := CoercePair(lib, t1, hi);
    !CompareVals(lib, t2, l).Less? && !CompareVals(lib, t2, h).Greater?
  }

  /** The bounds on which coercing once more changes the answer: FALSE against BETWEEN TRUE
      and a number, and a date text against a date text below and a DATETIME above. */
  predicate Recoerced(lib: Library, t: Datum, lo: Datum, hi: Datum) {
    || (t == Bool(false) && lo == Bool(true) && ((hi.Int? && hi.i >= 0) || (hi.Float? && hi.f >= 0.0)))
    || (t.Text? && lo.Text? && hi.DateTime? && lib.parse(t.s).Some? && lib.parse(lo.s).Some?
        && lib.parse(lo.s).value <= lib.parse(t.s).value <= hi.micros)
  }

  /** The vectorised BETWEEN agrees with the scalar one exactly when its bounds are not those. */
  lemma BetweenMirrors(lib: Library, t: Datum, lo: Datum, hi: Datum)
    requires !t.Null?
    ensures InsideVec(lib, t, lo, hi) == Inside(lib, t, lo, hi) <==> !Recoerced(lib, t, lo, hi)
  {
    var (t1, l) := CoercePair(lib, t, lo);
    var (t2, h) := CoercePair(lib, t1, hi);
    if t2.Text? && l.Text? {
      TextEqual(t2.s, l.s);
    }
  }

  // ---------------------------------------------------------------------
  // What the vectorised filter computes, row by row
  // ---------------------------------------------------------------------

  function EvalVec(lib: Library, e: Expr, at: Scope): Truth {
    match e
    case And(a, b) =>
      var x := EvalVec(lib, a, at);
      if x == Is(true) then EvalVec(lib, b, at) else x
    case Or(a, b) =>
      var x := EvalVec(lib, a, at);
      if x == Is(false) then EvalVec(lib, b, at) else x
    case Not(x) => (match EvalVec(lib, x, at) case Is(h) => Is(!h) case t => t)
    case Between(x, lo, hi, negated) =>
      var t := Operand(x, at);
      if !t.Val? then Fail(t) else if t.d.Null? then Is(false) else Is(InsideVec(lib, t.d, lo, hi) != negated)
    case _ => Eval(lib, e, at)
  }

  /** No BETWEEN of the predicate meets bounds it coerces once more. */
  predicate Plain(lib: Library, e: Expr, at: Scope) {
    match e
    case And(a, b) => Plain(lib, a, at) && Plain(lib, b, at)
    case Or(a, b) => Plain(lib, a, at) && Plain(lib, b, at)
    case Not(x) => Plain(lib, x, at)
    case Between(x, lo, hi, _) => Operand(x, at).Val? && !Operand(x, at).d.Null? ==> !Recoerced(lib, Operand(x, at).d, lo, hi)
    case _ => true
  }

  lemma {:induction false} VecIsScalar(lib: Library, e: Expr, at: Scope)
    requires Plain(lib, e, at)
    ensures EvalVec(lib, e, at) == Eval(lib, e, at)
  {
    match e
    case And(a, b) => VecIsScalar(lib, a, at); VecIsScalar(lib, b, at);
    case Or(a, b) => VecIsScalar(lib, a, at); VecIsScalar(lib, b, at);
    case Not(x) => VecIsScalar(lib, x, at);
    case Between(x, lo, hi, _) =>
      var t := Operand(x, at);
      if t.Val? && !t.d.Null? {
        BetweenMirrors(lib, t.d, lo, hi);
      }
    case _ =>
  }

  /** The bound that is coerced once more: `FALSE BETWEEN TRUE AND 5`. */
  lemma BetweenExample(lib: Library)
    ensures Inside(lib, Bool(false), Bool(true), Int(5)) && !InsideVec(lib, Bool(false), Bool(true), Int(5))
  {
  }

  /** Cells of a batch: a value for every known column of every row. */
  type Cells = (nat, nat) -> Datum

  /** Column resolution and cells of one row. */
  function RowScope(width: nat, cells: Cells, row: nat): Scope {
    (c: Column) => if c.table == 0 && c.pos < width then Some(cells(c.pos, row)) else None
  }

  datatype Batch = Batch(lib: Library, width: nat, cells: Cells)

  function At(b: Batch, row: nat): Scope { RowScope(b.width, b.cells, row) }

  /** The rows of a selection on which the predicate comes out as `v`, in order. */
  ghost function Rows(b: Batch, e: Expr, v: Truth, input: Sel): Sel {
    if input == [] then []
    else
      var init, last := input[..|input| - 1], input[|input| - 1];
      Rows(b, e, v, init) + if EvalVec(b.lib, e, At(b, last)) == v then [last] else []
  }

  lemma {:induction false} RowsMember(b: Batch, e: Expr, v: Truth, input: Sel, x: nat)
    ensures x in Rows(b, e, v, input) <==> x in input && EvalVec(b.lib, e, At(b, x)) == v
  {
    hide EvalVec, At;
    if input != [] {
      var init, last := input[..|input| - 1], input[|input| - 1];
      RowsMember(b, e, v, init, x);
      assert input == init + [last];
    }
  }

  lemma {:induction false} RowsAscending(b: Batch, e: Expr, v: Truth, input: Sel)
    requires Ascending(input)
    ensures Ascending(Rows(b, e, v, input))
  {
    hide EvalVec, At;
    if input != [] {
      var init, last := input[..|input| - 1], input[|input| - 1];
      RowsAscending(b, e, v, init);
      var few := Rows(b, e, v, init);
      forall k | 0 <= k < |few| ensures few[k] < last {
        RowsMember(b, e, v, init, few[k]);
        var j :| 0 <= j < |init| && init[j] == few[k];
        assert input[j] == init[j];
      }
      AscendingPush(few, last);
    }
  }

  lemma AscendingPush(s: Sel, x: nat)
    requires Ascending(s) && forall k :: 0 <= k < |s| ==> s[k] < x
    ensures Ascending(s + [x])
  {
  }

  lemma RowsMembers(b: Batch, e: Expr, v: Truth, input: Sel)
    ensures forall x :: x in Rows(b, e, v, input) <==> x in input && EvalVec(b.lib, e, At(b, x)) == v
    ensures Ascending(input) ==> Ascending(Rows(b, e, v, input))
  {
    hide EvalVec, At, Rows;
    forall x: nat ensures x in Rows(b, e, v, input) <==> x in input && EvalVec(b.lib, e, At(b, x)) == v {
      RowsMember(b, e, v, input, x);
    }
    if Ascending(input) {
      RowsAscending(b, e, v, input);
    }
  }

  lemma RowsNext(b: Batch, e: Expr, v: Truth, input: Sel, i: nat)
    requires i < |input|
    ensures Rows(b, e, v, input[..i + 1]) == Rows(b, e, v, input[..i]) + if EvalVec(b.lib, e, At(b, input[i])) == v then [input[i]] else []
  {
    assert input[..i + 1][..i] == input[..i];
  }

  datatype Tri = Tri(t: Sel, e: Sel)

  ghost predicate Accepted(b: Batch, e: Expr, input: Sel) {
    forall x :: x in input ==> EvalVec(b.lib, e, At(b, x)) != Unsupported
  }

  ghost predicate Exact(b: Batch, e: Expr, input: Sel, r: Tri) {
    r.t == Rows(b, e, Is(true), input) && r.e == Rows(b, e, Unknown, input) && Accepted(b, e, input)
  }

  lemma IsRows(b: Batch, e: Expr, v: Truth, input: Sel, s: Sel)
    requires Ascending(input) && Ascending(s)
    requires forall x :: x in s <==> x in input && EvalVec(b.lib, e, At(b, x)) == v
    ensures s == Rows(b, e, v, input)
  {
    hide EvalVec;
    RowsMembers(b, e, v, input);
    AscendingUnique(s, Rows(b, e, v, input));
  }

  // ---------------------------------------------------------------------
  // The filter
  // ---------------------------------------------------------------------

  /** One leaf over the selection; `None` for a shape the batch path does not take. */
  method EvalLeaf(b: Batch, e: Expr, input: Sel) returns (r: Option<Tri>)
    requires !e.And? && !e.Or? && !e.Not? && !e.Lit?
    ensures r.Some? ==> Exact(b, e, input, r.value)
    ensures Supported(e) ==> r.Some?
  {
    hide Eval, At;
    var t: Sel, bad: Sel := [], [];
    assert input[..0] == [];
    for i := 0 to |input|
      invariant t == Rows(b, e, Is(true), input[..i]) && bad == Rows(b, e, Unknown, input[..i])
      invariant forall k :: 0 <= k < i ==> EvalVec(b.lib, e, At(b, input[k])) != Unsupported
    {
      var at := At(b, input[i]);
      RowsNext(b, e, Is(true), input, i);
      RowsNext(b, e, Unknown, input, i);
      var truth := LeafTruth(b.lib, e, at);
      if truth.Unsupported? {
        return None;
      }
      hide Rows, EvalVec, Eval;
      if truth == Unknown {
        bad := bad + [input[i]];
      } else if truth.holds {
        t := t + [input[i]];
      }
    }
    assert input[..|input|] == input;
    return Some(Tri(t, bad));
  }

  /** One row of a leaf, with the batch's own comparison, list and range tests. */
  method LeafTruth(lib: Library, e: Expr, at: Scope) returns (truth: Truth)
    requires !e.And? && !e.Or? && !e.Not? && !e.Lit?
    ensures !truth.Unsupported? ==> truth == EvalVec(lib, e, at)
    ensures Supported(e) ==> !truth.Unsupported?
  {
    match e
    case Cmp(l, op, r) =>
      var x, y := Operand(l, at), Operand(r, at);
      if x.NotScalar? || y.NotScalar? {
        return Unsupported;
      }
      if x.UnknownColumn? || y.UnknownColumn? {
        return Unknown;
      }
      if x.d.Null? || y.d.Null? {
        return Is(false);
      }
      CompareMirrors(lib, op, x.d, y.d);
      return Is(ApplyCmp(op, CompareVals(lib, x.d, y.d)));
    case In(x, values, negated) =>
      var v := Operand(x, at);
      if v.NotScalar? {
        return Unsupported;
      }
      if v.UnknownColumn? {
        return Unknown;
      }
      if v.d.Null? {
        return Is(false);
      }
      var hit := InMatchList(lib, v.d, values);
      return Is(hit != negated);
    case Between(x, lo, hi, negated) =>
      var v := Operand(x, at);
      if v.NotScalar? {
        return Unsupported;
      }
      if v.UnknownColumn? {
        return Unknown;
      }
      if v.d.Null? {
        return Is(false);
      }
      var (t1, l) := CoercePair(lib, v.d, lo);
      var (t2, h) := CoercePair(lib, t1, hi);
      var inside := ApplyCmp(Ge, CompareVals(lib, t2, l)) && ApplyCmp(Le, CompareVals(lib, t2, h));
      return Is(inside != negated);
    case Like(x, pattern, negated) =>
      var v := Operand(x, at);
      if v.NotScalar? {
        return Unsupported;
      }
      if v.UnknownColumn? {
        return Unknown;
      }
      if v.d.Null? {
        return Is(false);
      }
      return Is(lib.like(Display(lib, v.d), pattern) != negated);
    case Col(c) =>
      var v := Operand(e, at);
      if v.UnknownColumn? {
        return Unknown;
      }
      return Is(Truthy(v.d));
  }

  /** The filter: for every predicate tree and ascending selection, exactly the rows where
      short-circuit evaluation is true, and exactly those where it fails on an unknown column. */
  method EvalNode(b: Batch, e: Expr, input: Sel) returns (r: Option<Tri>)
    requires Ascending(input)
    ensures r.Some? ==> Exact(b, e, input, r.value)
    ensures Supported(e) ==> r.Some?
    decreases e
  {
    hide EvalVec, Rows;
    match e
    case And(x, y) =>
      var ra := EvalNode(b, x, input);
      if ra.None? {
        return None;
      }
      RowsMembers(b, x, Is(true), input);
      RowsMembers(b, x, Unknown, input);
      var rb := EvalNode(b, y, ra.value.t);
      if rb.None? {
        return None;
      }
      RowsMembers(b, y, Is(true), ra.value.t);
      RowsMembers(b, y, Unknown, ra.value.t);
      var bad := UnionSorted(ra.value.e, rb.value.e);
      AndExact(b, x, y, input, ra.value, rb.value, bad);
      return Some(Tri(rb.value.t, bad));
    case Or(x, y) =>
      var ra := EvalNode(b, x, input);
      if ra.None? {
        return None;
      }
      RowsMembers(b, x, Is(true), input);
      RowsMembers(b, x, Unknown, input);
      var rest := SubtractSorted(input, ra.value.t);
      rest := SubtractSorted(rest, ra.value.e);
      var rb := EvalNode(b, y, rest);
      if rb.None? {
        return None;
      }
      RowsMembers(b, y, Is(true), rest);
      RowsMembers(b, y, Unknown, rest);
      var t := UnionSorted(ra.value.t, rb.value.t);
      var bad := UnionSorted(ra.value.e, rb.value.e);
      OrExact(b, x, y, input, ra.value, rest, rb.value, Tri(t, bad));
      return Some(Tri(t, bad));
    case Not(x) =>
      var rx := EvalNode(b, x, input);
      if rx.None? {
        return None;
      }
      RowsMembers(b, x, Is(true), input);
      RowsMembers(b, x, Unknown, input);
      var t := SubtractSorted(input, rx.value.t);
      t := SubtractSorted(t, rx.value.e);
      NotExact(b, x, input, rx.value, t);
      return Some(Tri(t, rx.value.e));
    case Lit(d) =>
      LitExact(b, d, input);
      return Some(Tri(if Truthy(d) then input else [], []));
    case _ =>
      r := EvalLeaf(b, e, input);
  }

  lemma AndExact(b: Batch, x: Expr, y: Expr, input: Sel, ra: Tri, rb: Tri, bad: Sel)
    requires Ascending(input) && Exact(b, x, input, ra) && Exact(b, y, ra.t, rb)
    requires Ascending(ra.t) && Ascending(rb.t) && Ascending(bad) && forall i :: i in bad <==> i in ra.e || i in rb.e
    ensures Exact(b, And(x, y), input, Tri(rb.t, bad))
  {
    RowsMembers(b, x, Is(true), input);
    RowsMembers(b, x, Unknown, input);
    RowsMembers(b, y, Is(true), ra.t);
    RowsMembers(b, y, Unknown, ra.t);
    hide Rows;
    forall i: nat ensures EvalVec(b.lib, And(x, y), At(b, i)) == if EvalVec(b.lib, x, At(b, i)) == Is(true) then EvalVec(b.lib, y, At(b, i)) else EvalVec(b.lib, x, At(b, i)) {}
    hide EvalVec, At;
    IsRows(b, And(x, y), Is(true), input, rb.t);
    IsRows(b, And(x, y), Unknown, input, bad);
  }

  lemma OrExact(b: Batch, x: Expr, y: Expr, input: Sel, ra: Tri, rest: Sel, rb: Tri, r: Tri)
    requires Ascending(input) && Exact(b, x, input, ra) && Exact(b, y, rest, rb) && Ascending(r.t) && Ascending(r.e)
    requires forall i :: i in rest <==> i in input && i !in ra.t && i !in ra.e
    requires forall i :: i in r.t <==> i in ra.t || i in rb.t
    requires forall i :: i in r.e <==> i in ra.e || i in rb.e
    ensures Exact(b, Or(x, y), input, r)
  {
    RowsMembers(b, x, Is(true), input);
    RowsMembers(b, x, Unknown, input);
    RowsMembers(b, y, Is(true), rest);
    RowsMembers(b, y, Unknown, rest);
    hide Rows;
    forall i: nat ensures EvalVec(b.lib, Or(x, y), At(b, i)) == if EvalVec(b.lib, x, At(b, i)) == Is(false) then EvalVec(b.lib, y, At(b, i)) else EvalVec(b.lib, x, At(b, i)) {}
    hide EvalVec, At;
    IsRows(b, Or(x, y), Is(true), input, r.t);
    IsRows(b, Or(x, y), Unknown, input, r.e);
  }

  lemma NotExact(b: Batch, x: Expr, input: Sel, rx: Tri, t: Sel)
    requires Ascending(input) && Exact(b, x, input, rx) && Ascending(t)
    requires forall i :: i in t <==> i in input && i !in rx.t && i !in rx.e
    ensures Exact(b, Not(x), input, Tri(t, rx.e))
  {
    RowsMembers(b, x, Is(true), input);
    RowsMembers(b, x, Unknown, input);
    hide Rows;
    forall i: nat ensures EvalVec(b.lib, Not(x), At(b, i)) == match EvalVec(b.lib, x, At(b, i)) { case Is(h) => Is(!h) case v => v } {}
    hide EvalVec, At;
    IsRows(b, Not(x), Is(true), input, t);
    IsRows(b, Not(x), Unknown, input, rx.e);
  }

  lemma LitExact(b: Batch, d: Datum, input: Sel)
    requires Ascending(input)
    ensures Exact(b, Lit(d), input, Tri(if Truthy(d) then input else [], []))
  {
    IsRows(b, Lit(d), Is(true), input, if Truthy(d) then input else []);
    IsRows(b, Lit(d), Unknown, input, []);
  }

  /** On plain predicates the filter keeps exactly the rows the scalar evaluator accepts. */
  lemma FilterIsScalar(b: Batch, e: Expr, input: Sel, r: Tri)
    requires Ascending(input) && Exact(b, e, input, r) && forall x :: x in input ==> Plain(b.lib, e, At(b, x))
    ensures Ascending(r.t) && Ascending(r.e) && (forall x :: x in r.t ==> x !in r.e)
    ensures forall x :: x in r.t <==> x in input && Eval(b.lib, e, At(b, x)) == Is(true)
    ensures forall x :: x in r.e <==> x in input && Eval(b.lib, e, At(b, x)) == Unknown
  {
    RowsMembers(b, e, Is(true), input);
    RowsMembers(b, e, Unknown, input);
    hide Rows;
    forall x | x in input ensures EvalVec(b.lib, e, At(b, x)) == Eval(b.lib, e, At(b, x)) {
      VecIsScalar(b.lib, e, At(b, x));
    }
  }
}
