/**
 Values and predicates: the scalar evaluator every access path must agree with.
 Floats are real numbers; date parsing, LIKE matching, display text and rounding are
 parameters.
 */
module Sql {
  import opened Bytes

  /** Signed 64-bit integers. */
  type Int64 = x: int | -0x8000_0000_0000_0000 <= x <= 0x7FFF_FFFF_FFFF_FFFF

  datatype Datum =
    | Null
    | Int(i: Int64)
    | Float(f: real)
    | Text(s: string)
    | Bool(b: bool)
    | DateTime(micros: Int64)

  /** Library functions the evaluator calls; `toFloat` rounds an integer to a float. */
  datatype Library = Library(parse: string -> Option<Int64>, like: (string, string) -> bool, show: Datum -> string, toFloat: Int64 -> real)

  datatype CmpOp = Eq | Ne | Lt | Le | Gt | Ge

  /** A column, resolved to its table and its position in that table. */
  datatype Column = Column(table: nat, pos: nat)

  datatype Expr =
    | Col(column: Column)
    | Lit(d: Datum)
    | Cmp(left: Expr, op: CmpOp, right: Expr)
    | And(a: Expr, b: Expr)
    | Or(a: Expr, b: Expr)
    | Not(e: Expr)
    | In(e: Expr, values: seq<Datum>, negated: bool)
    | Between(e: Expr, lo: Datum, hi: Datum, negated: bool)
    | Like(e: Expr, pattern: string, negated: bool)

  // ---------------------------------------------------------------------
  // Order and coercion of values
  // ---------------------------------------------------------------------

  function Rank(d: Datum): nat {
    match d
    case Null => 0
    case Bool(_) => 1
    case Int(_) => 2
    case Float(_) => 2
    case DateTime(_) => 3
    case Text(_) => 4
  }

  datatype Ordering = Less | Equal | Greater

  function CompareInt(a: int, b: int): Ordering { if a < b then Less else if a == b then Equal else Greater }

  function CompareReal(a: real, b: real): Ordering { if a < b then Less else if a == b then Equal else Greater }

  /** Text compares code point by code point, a proper prefix first. */
  function CompareText(a: string, b: string): Ordering {
    if a == [] then (if b == [] then Equal else Less)
    else if b == [] then Greater
    else if a[0] < b[0] then Less
    else if a[0] > b[0] then Greater
    else CompareText(a[1..], b[1..])
  }

  function AsFloat(lib: Library, d: Datum): real {
    match d
    case Int(v) => lib.toFloat(v)
    case Float(v) => v
    case _ => 0.0
  }

  function Compare(lib: Library, a: Datum, b: Datum): Ordering {
    if Rank(a) != Rank(b) then CompareInt(Rank(a), Rank(b))
    else
      match (a, b)
      case (Bool(x), Bool(y)) => CompareInt(if x then 1 else 0, if y then 1 else 0)
      case (Int(x), Int(y)) => CompareInt(x, y)
      case (DateTime(x), DateTime(y)) => CompareInt(x, y)
      case (Text(x), Text(y)) => CompareText(x, y)
      case (Null, _) => Equal
      case (_, _) => CompareReal(AsFloat(lib, a), AsFloat(lib, b))
  }

  function OpHolds(lib: Library, op: CmpOp, a: Datum, b: Datum): bool {
    match op
    case Eq => a == b
    case Ne => a != b
    case Lt => Compare(lib, a, b).Less?
    case Le => !Compare(lib, a, b).Greater?
    case Gt => Compare(lib, a, b).Greater?
    case Ge => !Compare(lib, a, b).Less?
  }

  function Bit(b: bool): Int64 { if b then 1 else 0 }

  function CoercePair(lib: Library, l: Datum, r: Datum): (Datum, Datum) {
    match (l, r)
    case (Bool(x), Int(y)) => (Int(Bit(x)), Int(y))
    case (Int(x), Bool(y)) => (Int(x), Int(Bit(y)))
    case (Bool(x), Float(y)) => (Float(Bit(x) as real), Float(y))
    case (Float(x), Bool(y)) => (Float(x), Float(Bit(y) as real))
    case (Int(x), Float(y)) => (Float(lib.toFloat(x)), Float(y))
    case (Float(x), Int(y)) => (Float(x), Float(lib.toFloat(y)))
    case (DateTime(x), Text(y)) => if lib.parse(y).Some? then (DateTime(x), DateTime(lib.parse(y).value)) else (l, r)
    case (Text(x), DateTime(y)) => if lib.parse(x).Some? then (DateTime(lib.parse(x).value), DateTime(y)) else (l, r)
    case (_, _) => (l, r)
  }

  // ---------------------------------------------------------------------
  // The scalar evaluator
  // ---------------------------------------------------------------------

  /** A truth value, an unknown column, or a shape the evaluator does not accept. */
  datatype Truth = Is(holds: bool) | Unknown | Unsupported

  datatype Value = Val(d: Datum) | UnknownColumn | NotScalar

  /** Where column values come from; `None` means there is no such column. */
  type Scope = Column -> Option<Datum>

  function Operand(e: Expr, at: Scope): Value {
    match e
    case Lit(d) => Val(d)
    case Col(c) => (match at(c) case Some(d) => Val(d) case None => UnknownColumn)
    case _ => NotScalar
  }

  function Fail(v: Value): Truth { if v.UnknownColumn? then Unknown else Unsupported }

  predicate InHit(lib: Library, t: Datum, values: seq<Datum>) {
    exists i :: 0 <= i < |values| && InMatch(lib, t, values[i])
  }

  predicate InMatch(lib: Library, t: Datum, v: Datum) {
    !v.Null? && CoercePair(lib, t, v).0 == CoercePair(lib, t, v).1
  }

  predicate Inside(lib: Library, t: Datum, lo: Datum, hi: Datum) {
    var (t1, l) := CoercePair(lib, t, lo);
    var (t2, h) := CoercePair(lib, t1, hi);
    !Compare(lib, t2, l).Less? && !Compare(lib, t2, h).Greater?
  }

  predicate Truthy(d: Datum) {
    match d
    case Bool(b) => b
    case Int(i) => i != 0
    case Float(f) => f != 0.0
    case _ => false
  }

  /** The text LIKE matches: text itself, other values as printed. */
  function Display(lib: Library, d: Datum): string { if d.Text? then d.s else lib.show(d) }

  /** Short-circuit evaluation; NULL operands make a test false. */
  function Eval(lib: Library, e: Expr, at: Scope): Truth {
    match e
    case And(a, b) =>
      var x := Eval(lib, a, at);
      if x == Is(true) then Eval(lib, b, at) else x
    case Or(a, b) =>
      var x := Eval(lib, a, at);
      if x == Is(false) then Eval(lib, b, at) else x
    case Not(x) => (match Eval(lib, x, at) case Is(h) => Is(!h) case t => t)
    case Cmp(l, op, r) =>
      var x := Operand(l, at);
      var y := Operand(r, at);
      if !x.Val? then Fail(x)
      else if !y.Val? then Fail(y)
      else if x.d.Null? || y.d.Null? then Is(false)
      else var (p, q) := CoercePair(lib, x.d, y.d); Is(OpHolds(lib, op, p, q))
    case In(x, values, negated) =>
      var t := Operand(x, at);
      if !t.Val? then Fail(t) else if t.d.Null? then Is(false) else Is(InHit(lib, t.d, values) != negated)
    case Between(x, lo, hi, negated) =>
      var t := Operand(x, at);
      if !t.Val? then Fail(t) else if t.d.Null? then Is(false) else Is(Inside(lib, t.d, lo, hi) != negated)
    case Like(x, pattern, negated) =>
      var t := Operand(x, at);
      if !t.Val? then Fail(t) else if t.d.Null? then Is(false) else Is(lib.like(Display(lib, t.d), pattern) != negated)
    case Col(c) => (match at(c) case Some(d) => Is(Truthy(d)) case None => Unknown)
    case Lit(d) => Is(Truthy(d))
  }

  /** Columns an expression mentions. */
  function Columns(e: Expr): set<Column> {
    match e
    case Col(c) => {c}
    case Lit(_) => {}
    case Cmp(l, _, r) => Columns(l) + Columns(r)
    case And(a, b) => Columns(a) + Columns(b)
    case Or(a, b) => Columns(a) + Columns(b)
    case Not(x) => Columns(x)
    case In(x, _, _) => Columns(x)
    case Between(x, _, _, _) => Columns(x)
    case Like(x, _, _) => Columns(x)
  }

  lemma OperandLocal(e: Expr, s: Scope, t: Scope)
    requires forall c :: c in Columns(e) ==> s(c) == t(c)
    ensures Operand(e, s) == Operand(e, t)
  {
    if e.Col? {
      assert e.column in Columns(e);
    }
  }

  /** Evaluation depends only on the columns mentioned. */
  lemma {:induction false} EvalLocal(lib: Library, e: Expr, s: Scope, t: Scope)
    requires forall c :: c in Columns(e) ==> s(c) == t(c)
    ensures Eval(lib, e, s) == Eval(lib, e, t)
  {
    match e
    case And(a, b) => EvalLocal(lib, a, s, t); EvalLocal(lib, b, s, t);
    case Or(a, b) => EvalLocal(lib, a, s, t); EvalLocal(lib, b, s, t);
    case Not(x) => EvalLocal(lib, x, s, t);
    case Cmp(l, _, r) => OperandLocal(l, s, t); OperandLocal(r, s, t);
    case In(x, _, _) => OperandLocal(x, s, t);
    case Between(x, _, _, _) => OperandLocal(x, s, t);
    case Like(x, _, _) => OperandLocal(x, s, t);
    case Col(c) => assert c in Columns(e);
    case Lit(_) =>
  }

  predicate Scalar(e: Expr) { e.Col? || e.Lit? }

  /** Shapes the evaluator accepts: columns and literals under comparisons, under AND, OR, NOT. */
  predicate Supported(e: Expr) {
    match e
    case And(a, b) => Supported(a) && Supported(b)
    case Or(a, b) => Supported(a) && Supported(b)
    case Not(x) => Supported(x)
    case Cmp(l, _, r) => Scalar(l) && Scalar(r)
    case In(x, _, _) => Scalar(x)
    case Between(x, _, _, _) => Scalar(x)
    case Like(x, _, _) => Scalar(x)
    case _ => true
  }
}
