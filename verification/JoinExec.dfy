/**
 One left-deep join step: nested loop, and in-memory hash join on the first equi pair.
 */
module JoinExec {
  import opened Bytes
  import opened Sql
  import opened JoinOrder

  type Row = seq<Datum>

  datatype Result<T> = Ok(value: T) | Err

  // ---------------------------------------------------------------------
  // Hash keys
  // ---------------------------------------------------------------------

  datatype JoinKey = KInt(i: Int64) | KFloat(f: real) | KText(s: string) | KBool(b: bool) | KDateTime(m: Int64)

  const TWO_63: int := 0x8000_0000_0000_0000

  predicate Integral(v: real) { v.Floor as real == v }

  /** A cast to a 64-bit integer saturates. */
  function Saturate(v: int): Int64 { if v >= TWO_63 then TWO_63 - 1 else if v < -TWO_63 then -TWO_63 else v }

  function KeyOf(lib: Library, d: Datum): Option<JoinKey> {
    match d
    case Null => None
    case Int(v) => Some(KInt(v))
    case Float(v) =>
      if Integral(v) && -TWO_63 as real <= v <= TWO_63 as real then Some(KInt(Saturate(v.Floor))) else Some(KFloat(v))
    case Text(s) => if lib.parse(s).Some? then Some(KDateTime(lib.parse(s).value)) else Some(KText(s))
    case Bool(b) => Some(KBool(b))
    case DateTime(m) => Some(KDateTime(m))
  }

  predicate KeysMeet(lib: Library, a: Datum, b: Datum) { KeyOf(lib, a).Some? && KeyOf(lib, a) == KeyOf(lib, b) }

  /** What the evaluator's `=` makes true. */
  predicate Same(lib: Library, a: Datum, b: Datum) {
    !a.Null? && !b.Null? && CoercePair(lib, a, b).0 == CoercePair(lib, a, b).1
  }

  predicate Numeric(d: Datum) { d.Int? || d.Float? }

  /** An INT and a FLOAT of different values, other than the largest INT and the FLOAT that
      saturates to it. */
  predicate Apart(i: Int64, f: real) { i as real != f && !(i == TWO_63 - 1 && f == TWO_63 as real) }

  /** The INT becomes the FLOAT by rounding. */
  predicate Rounds(lib: Library, a: Datum, b: Datum) { a.Int? && b.Float? && lib.toFloat(a.i) == b.f && Apart(a.i, b.f) }

  /** A BOOL met with a number, or an INT with the FLOAT it rounds to. */
  predicate Mixed(lib: Library, a: Datum, b: Datum) {
    (a.Bool? && Numeric(b)) || (Numeric(a) && b.Bool?) || Rounds(lib, a, b) || Rounds(lib, b, a)
  }

  /** A FLOAT has the key of an INT exactly when they are not apart. */
  lemma FloatKey(i: Int64, f: real)
    ensures Integral(f) && -TWO_63 as real <= f <= TWO_63 as real && Saturate(f.Floor) == i <==> !Apart(i, f)
  {
    assert (i as real).Floor == i;
    if Integral(f) && f <= TWO_63 as real && Saturate(f.Floor) == i {
      assert f.Floor as real == f;
    }
  }

  /** Values the evaluator calls equal share a hash key exactly when no BOOL meets a number
      and no INT a FLOAT it rounds to. */
  lemma SameKeys(lib: Library, a: Datum, b: Datum)
    requires Same(lib, a, b)
    ensures KeysMeet(lib, a, b) <==> !Mixed(lib, a, b)
  {
    if a.Int? && b.Float? {
      FloatKey(a.i, b.f);
    } else if a.Float? && b.Int? {
      FloatKey(b.i, a.f);
    }
  }

  // ---------------------------------------------------------------------
  // Concatenated rows
  // ---------------------------------------------------------------------

  function WidthOf(widths: seq<nat>, t: nat): nat { if t < |widths| then widths[t] else 0 }

  function Width(widths: seq<nat>, order: seq<nat>): nat {
    if order == [] then 0 else Width(widths, order[..|order| - 1]) + WidthOf(widths, order[|order| - 1])
  }

  /** Position of a column in a row that concatenates the tables of `order`. */
  function Locate(widths: seq<nat>, order: seq<nat>, c: Column): (i: Option<nat>)
    ensures i.Some? ==> i.value < Width(widths, order)
  {
    if order == [] then None
    else
      var init, last := order[..|order| - 1], order[|order| - 1];
      if c.table != last then Locate(widths, init, c)
      else if c.pos < WidthOf(widths, last) then Some(Width(widths, init) + c.pos)
      else None
  }

  function Cell(row: Row, i: nat): Datum { if i < |row| then row[i] else Null }

  function ScopeOf(widths: seq<nat>, order: seq<nat>, row: Row): Scope {
    c => match Locate(widths, order, c) case None => None case Some(i) => Some(Cell(row, i))
  }

  function Nulls(n: nat): Row { seq(n, _ => Null) }

  ghost predicate Rows(rows: seq<Row>, width: nat) { forall i :: 0 <= i < |rows| ==> |rows[i]| == width }

  // ---------------------------------------------------------------------
  // What a step computes
  // ---------------------------------------------------------------------

  /** A step joins the last table of `order` to the tables before it. */
  datatype Step = Step(lib: Library, on: Expr, kind: JoinKind, widths: seq<nat>, order: seq<nat>) {
    ghost predicate Valid() { |order| > 1 }
    function LeftWidth(): nat
      requires |order| > 0
    {
      Width(widths, order[..|order| - 1])
    }
    function RightWidth(): nat
      requires |order| > 0
    {
      WidthOf(widths, order[|order| - 1])
    }
    function Test(row: Row): Truth { Eval(lib, on, ScopeOf(widths, order, row)) }
  }

  /** Key columns of a hash join: a position in the left rows and one in the right rows. */
  datatype Keys = Keys(left: nat, right: nat)

  predicate Admits(st: Step, keys: Option<Keys>, l: Row, r: Row) {
    keys.Some? ==> KeysMeet(st.lib, Cell(l, keys.value.left), Cell(r, keys.value.right))
  }

  /** The pair is joined: ON is true and, in a hash join, the keys meet. */
  predicate Joins(st: Step, keys: Option<Keys>, l: Row, r: Row) {
    Admits(st, keys, l, r) && st.Test(l + r) == Is(true)
  }

  /** The evaluator accepts ON on the pair, if the step evaluates it at all. */
  predicate Clean(st: Step, keys: Option<Keys>, l: Row, r: Row) {
    Admits(st, keys, l, r) ==> st.Test(l + r).Is?
  }

  function Hits(st: Step, keys: Option<Keys>, l: Row, right: seq<Row>): seq<Row> {
    if right == [] then []
    else
      var init, r := right[..|right| - 1], right[|right| - 1];
      Hits(st, keys, l, init) + if Joins(st, keys, l, r) then [l + r] else []
  }

  /** The hits of one left row, or its padding under LEFT when there is none. */
  function Expand(st: Step, keys: Option<Keys>, l: Row, right: seq<Row>): seq<Row>
    requires st.Valid()
  {
    var hits := Hits(st, keys, l, right);
    if hits == [] && st.kind.LeftOuter? then [l + Nulls(st.RightWidth())] else hits
  }

  /** The join by its definition: every left row in order, against every right row in order. */
  function Nested(st: Step, keys: Option<Keys>, left: seq<Row>, right: seq<Row>): seq<Row>
    requires st.Valid()
  {
    if left == [] then []
    else Nested(st, keys, left[..|left| - 1], right) + Expand(st, keys, left[|left| - 1], right)
  }

  /** Hits of one right row over the left rows. */
  function Gather(st: Step, keys: Option<Keys>, left: seq<Row>, r: Row): seq<Row> {
    if left == [] then []
    else
      var init, l := left[..|left| - 1], left[|left| - 1];
      Gather(st, keys, init, r) + if Joins(st, keys, l, r) then [l + r] else []
  }

  /** The same join with the right rows outermost. */
  function Swapped(st: Step, keys: Option<Keys>, left: seq<Row>, right: seq<Row>): seq<Row> {
    if right == [] then []
    else Swapped(st, keys, left, right[..|right| - 1]) + Gather(st, keys, left, right[|right| - 1])
  }

  lemma HitsSnoc(st: Step, keys: Option<Keys>, l: Row, right: seq<Row>, r: Row)
    ensures Hits(st, keys, l, right + [r]) == Hits(st, keys, l, right) + if Joins(st, keys, l, r) then [l + r] else []
  {
    assert (right + [r])[..|right|] == right;
  }

  lemma GatherSnoc(st: Step, keys: Option<Keys>, left: seq<Row>, l: Row, r: Row)
    ensures Gather(st, keys, left + [l], r) == Gather(st, keys, left, r) + if Joins(st, keys, l, r) then [l + r] else []
  {
    assert (left + [l])[..|left|] == left;
  }

  lemma {:induction false} NestedSnoc(st: Step, keys: Option<Keys>, left: seq<Row>, right: seq<Row>, r: Row)
    requires st.Valid() && st.kind.Inner?
    ensures multiset(Nested(st, keys, left, right + [r])) ==
            multiset(Nested(st, keys, left, right)) + multiset(Gather(st, keys, left, r))
  {
    if left != [] {
      var init, l, more := left[..|left| - 1], left[|left| - 1], right + [r];
      var hit: seq<Row> := if Joins(st, keys, l, r) then [l + r] else [];
      NestedSnoc(st, keys, init, right, r);
      ExpandInner(st, keys, l, right, r);
      NestedLast(st, keys, left, right);
      NestedLast(st, keys, left, more);
      GatherLast(st, keys, left, r);
      hide *;
      Shuffle(Nested(st, keys, init, more), Nested(st, keys, init, right), Gather(st, keys, init, r), Hits(st, keys, l, right), hit);
    }
  }

  lemma ExpandInner(st: Step, keys: Option<Keys>, l: Row, right: seq<Row>, r: Row)
    requires st.Valid() && st.kind.Inner?
    ensures Expand(st, keys, l, right) == Hits(st, keys, l, right)
    ensures Expand(st, keys, l, right + [r]) == Hits(st, keys, l, right) + if Joins(st, keys, l, r) then [l + r] else []
  {
    assert (right + [r])[..|right|] == right;
    hide Joins;
  }

  lemma NestedLast(st: Step, keys: Option<Keys>, left: seq<Row>, right: seq<Row>)
    requires st.Valid() && left != []
    ensures Nested(st, keys, left, right) == Nested(st, keys, left[..|left| - 1], right) + Expand(st, keys, left[|left| - 1], right)
  {
  }

  lemma GatherLast(st: Step, keys: Option<Keys>, left: seq<Row>, r: Row)
    requires left != []
    ensures var l := left[|left| - 1];
            Gather(st, keys, left, r) == Gather(st, keys, left[..|left| - 1], r) + if Joins(st, keys, l, r) then [l + r] else []
  {
  }

  lemma Shuffle(a: seq<Row>, b: seq<Row>, c: seq<Row>, d: seq<Row>, e: seq<Row>)
    requires multiset(a) == multiset(b) + multiset(c)
    ensures multiset(a + (d + e)) == multiset(b + d) + multiset(c + e)
  {
  }

  lemma {:induction false} NestedNone(st: Step, keys: Option<Keys>, left: seq<Row>)
    requires st.Valid() && st.kind.Inner?
    ensures Nested(st, keys, left, []) == []
  {
    if left != [] {
      NestedNone(st, keys, left[..|left| - 1]);
    }
  }

  /** An INNER join may run over either side: the output is a permutation. */
  lemma {:induction false} SwappedIsNested(st: Step, keys: Option<Keys>, left: seq<Row>, right: seq<Row>)
    requires st.Valid() && st.kind.Inner?
    ensures multiset(Swapped(st, keys, left, right)) == multiset(Nested(st, keys, left, right))
  {
    if right == [] {
      NestedNone(st, keys, left);
    } else {
      var init, r := right[..|right| - 1], right[|right| - 1];
      SwappedIsNested(st, keys, left, init);
      NestedSnoc(st, keys, left, init, r);
      assert init + [r] == right;
    }
  }

  // ---------------------------------------------------------------------
  // Nested loop
  // ---------------------------------------------------------------------

  /** One left row of the nested loop: its hits, in right order. */
  method ScanRight(st: Step, l: Row, right: seq<Row>) returns (out: Result<seq<Row>>)
    ensures out.Ok? ==> out.value == Hits(st, None, l, right)
    ensures out.Ok? <==> forall r :: r in right ==> Clean(st, None, l, r)
  {
    hide Hits, Eval;
    var hits: seq<Row> := [];
    assert Hits(st, None, l, right[..0]) == [] by { NoHits(st, None, l); }
    for j := 0 to |right|
      invariant hits == Hits(st, None, l, right[..j])
      invariant forall q :: 0 <= q < j ==> Clean(st, None, l, right[q])
    {
      var combined := l + right[j];
      assert right[..j + 1] == right[..j] + [right[j]];
      HitsSnoc(st, None, l, right[..j], right[j]);
      var holds := st.Test(combined);
      if !holds.Is? {
        assert right[j] in right;
        return Err;
      }
      if holds.holds {
        hits := hits + [combined];
      }
    }
    assert right[..|right|] == right;
    return Ok(hits);
  }

  lemma NoHits(st: Step, keys: Option<Keys>, l: Row)
    ensures Hits(st, keys, l, []) == []
  {
  }

  /** The nested loop computes the join; it fails exactly when ON is not accepted on a pair. */
  method NestedLoopStep(st: Step, left: seq<Row>, right: seq<Row>) returns (out: Result<seq<Row>>)
    requires st.Valid()
    ensures out.Ok? ==> out.value == Nested(st, None, left, right)
    ensures out.Ok? <==> forall l, r :: l in left && r in right ==> Clean(st, None, l, r)
  {
    hide Clean, Hits;
    var next: seq<Row> := [];
    for i := 0 to |left|
      invariant next == Nested(st, None, left[..i], right)
      invariant forall p, r :: 0 <= p < i && r in right ==> Clean(st, None, left[p], r)
    {
      var hits := ScanRight(st, left[i], right);
      if hits.Err? {
        assert left[i] in left;
        return Err;
      }
      next := next + hits.value;
      if hits.value == [] && st.kind.LeftOuter? {
        next := next + [left[i] + Nulls(st.RightWidth())];
      }
      assert left[..i + 1][..i] == left[..i];
    }
    assert left[..|left|] == left;
    return Ok(next);
  }

  // ---------------------------------------------------------------------
  // Hash join
  // ---------------------------------------------------------------------

  /** The rows whose key column has this hash key, in order. */
  function Keyed(lib: Library, rows: seq<Row>, col: nat, key: JoinKey): seq<Row> {
    if rows == [] then []
    else
      var init, r := rows[..|rows| - 1], rows[|rows| - 1];
      Keyed(lib, init, col, key) + if KeyOf(lib, Cell(r, col)) == Some(key) then [r] else []
  }

  /** The rows a bucket of row numbers stands for. */
  function Fetch(rows: seq<Row>, bucket: seq<nat>): seq<Row>
    requires forall i :: 0 <= i < |bucket| ==> bucket[i] < |rows|
  {
    seq(|bucket|, i requires 0 <= i < |bucket| => rows[bucket[i]])
  }

  predicate InRange(bucket: seq<nat>, n: nat) { forall i :: 0 <= i < |bucket| ==> bucket[i] < n }

  function BucketOf(table: map<JoinKey, seq<nat>>, key: JoinKey): seq<nat> {
    if key in table then table[key] else []
  }

  /** The hash table indexes `rows` by the key of column `col`. */
  ghost predicate Indexes(lib: Library, table: map<JoinKey, seq<nat>>, rows: seq<Row>, seen: nat, col: nat)
    requires seen <= |rows|
  {
    forall key :: InRange(BucketOf(table, key), |rows|)
                  && Fetch(rows, BucketOf(table, key)) == Keyed(lib, rows[..seen], col, key)
  }

  lemma FetchPush(rows: seq<Row>, bucket: seq<nat>, i: nat)
    requires InRange(bucket, |rows|) && i < |rows|
    ensures InRange(bucket + [i], |rows|) && Fetch(rows, bucket + [i]) == Fetch(rows, bucket) + [rows[i]]
  {
  }

  lemma IndexNext(lib: Library, table: map<JoinKey, seq<nat>>, rows: seq<Row>, i: nat, col: nat)
    requires i < |rows| && Indexes(lib, table, rows, i, col)
    ensures match KeyOf(lib, Cell(rows[i], col))
            case None => Indexes(lib, table, rows, i + 1, col)
            case Some(k) => Indexes(lib, table[k := BucketOf(table, k) + [i]], rows, i + 1, col)
  {
    assert rows[..i + 1][..i] == rows[..i];
    var key := KeyOf(lib, Cell(rows[i], col));
    hide KeyOf;
    var table' := match key case None => table case Some(k) => table[k := BucketOf(table, k) + [i]];
    forall k
      ensures InRange(BucketOf(table', k), |rows|)
      ensures Fetch(rows, BucketOf(table', k)) == Keyed(lib, rows[..i + 1], col, k)
    {
      assert Keyed(lib, rows[..i + 1], col, k) == Keyed(lib, rows[..i], col, k) + if key == Some(k) then [rows[i]] else [];
      assert InRange(BucketOf(table, k), |rows|) && Fetch(rows, BucketOf(table, k)) == Keyed(lib, rows[..i], col, k);
      if key == Some(k) {
        FetchPush(rows, BucketOf(table, k), i);
        assert BucketOf(table', k) == BucketOf(table, k) + [i];
      } else {
        assert BucketOf(table', k) == BucketOf(table, k);
      }
    }
  }

  method BuildTable(lib: Library, rows: seq<Row>, col: nat) returns (table: map<JoinKey, seq<nat>>)
    ensures Indexes(lib, table, rows, |rows|, col)
  {
    table := map[];
    for i := 0 to |rows|
      invariant Indexes(lib, table, rows, i, col)
    {
      var key := KeyOf(lib, Cell(rows[i], col));
      IndexNext(lib, table, rows, i, col);
      if key.Some? {
        table := table[key.value := BucketOf(table, key.value) + [i]];
      }
    }
  }

  lemma {:induction false} HitsKeyed(st: Step, keys: Keys, l: Row, right: seq<Row>)
    ensures match KeyOf(st.lib, Cell(l, keys.left))
            case None => Hits(st, Some(keys), l, right) == []
            case Some(k) => Hits(st, Some(keys), l, right) == Hits(st, None, l, Keyed(st.lib, right, keys.right, k))
  {
    if right != [] {
      var init, r := right[..|right| - 1], right[|right| - 1];
      HitsKeyed(st, keys, l, init);
      var key := KeyOf(st.lib, Cell(l, keys.left));
      if key.Some? {
        var shorter := Keyed(st.lib, init, keys.right, key.value);
        HitsSnoc(st, None, l, shorter, r);
        assert Keyed(st.lib, right, keys.right, key.value) ==
               if KeyOf(st.lib, Cell(r, keys.right)) == key then shorter + [r] else shorter;
      }
    }
  }

  lemma {:induction false} GatherKeyed(st: Step, keys: Keys, left: seq<Row>, r: Row)
    ensures match KeyOf(st.lib, Cell(r, keys.right))
            case None => Gather(st, Some(keys), left, r) == []
            case Some(k) => Gather(st, Some(keys), left, r) == Gather(st, None, Keyed(st.lib, left, keys.left, k), r)
  {
    if left != [] {
      var init, l := left[..|left| - 1], left[|left| - 1];
      GatherKeyed(st, keys, init, r);
      var key := KeyOf(st.lib, Cell(r, keys.right));
      if key.Some? {
        var shorter := Keyed(st.lib, init, keys.left, key.value);
        GatherSnoc(st, None, shorter, l, r);
        assert Keyed(st.lib, left, keys.left, key.value) ==
               if KeyOf(st.lib, Cell(l, keys.left)) == key then shorter + [l] else shorter;
      }
    }
  }

  lemma {:induction false} KeyedMembers(lib: Library, rows: seq<Row>, col: nat, key: JoinKey)
    ensures forall r :: r in Keyed(lib, rows, col, key) <==> r in rows && KeyOf(lib, Cell(r, col)) == Some(key)
  {
    if rows != [] {
      KeyedMembers(lib, rows[..|rows| - 1], col, key);
    }
  }

  /** One left row against its bucket of right rows. */
  method ProbeRight(st: Step, l: Row, right: seq<Row>, bucket: seq<nat>) returns (out: Result<seq<Row>>)
    requires InRange(bucket, |right|)
    ensures out.Ok? ==> out.value == Hits(st, None, l, Fetch(right, bucket))
    ensures out.Ok? <==> forall r :: r in Fetch(right, bucket) ==> Clean(st, None, l, r)
  {
    hide Hits, Eval;
    var hits: seq<Row> := [];
    ghost var cands := Fetch(right, bucket);
    assert Hits(st, None, l, cands[..0]) == [] by { NoHits(st, None, l); }
    for j := 0 to |bucket|
      invariant hits == Hits(st, None, l, cands[..j])
      invariant forall q :: 0 <= q < j ==> Clean(st, None, l, cands[q])
    {
      var combined := l + right[bucket[j]];
      assert cands[j] == right[bucket[j]] && cands[..j + 1] == cands[..j] + [cands[j]];
      HitsSnoc(st, None, l, cands[..j], cands[j]);
      var holds := st.Test(combined);
      if !holds.Is? {
        assert cands[j] in cands;
        return Err;
      }
      if holds.holds {
        hits := hits + [combined];
      }
    }
    assert cands[..|bucket|] == cands;
    return Ok(hits);
  }

  lemma NoGather(st: Step, keys: Option<Keys>, r: Row)
    ensures Gather(st, keys, [], r) == []
  {
  }

  /** One right row against its bucket of left rows. */
  method ProbeLeft(st: Step, r: Row, left: seq<Row>, bucket: seq<nat>) returns (out: Result<seq<Row>>)
    requires InRange(bucket, |left|)
    ensures out.Ok? ==> out.value == Gather(st, None, Fetch(left, bucket), r)
    ensures out.Ok? <==> forall l :: l in Fetch(left, bucket) ==> Clean(st, None, l, r)
  {
    hide Gather, Eval;
    var hits: seq<Row> := [];
    ghost var cands := Fetch(left, bucket);
    assert Gather(st, None, cands[..0], r) == [] by { NoGather(st, None, r); }
    for j := 0 to |bucket|
      invariant hits == Gather(st, None, cands[..j], r)
      invariant forall q :: 0 <= q < j ==> Clean(st, None, cands[q], r)
    {
      var combined := left[bucket[j]] + r;
      assert cands[j] == left[bucket[j]] && cands[..j + 1] == cands[..j] + [cands[j]];
      GatherSnoc(st, None, cands[..j], cands[j], r);
      var holds := st.Test(combined);
      if !holds.Is? {
        assert cands[j] in cands;
        return Err;
      }
      if holds.holds {
        hits := hits + [combined];
      }
    }
    assert cands[..|bucket|] == cands;
    return Ok(hits);
  }

  /** Probing a whole row: no key, no candidate. */
  method ProbeRow(st: Step, keys: Keys, l: Row, right: seq<Row>, table: map<JoinKey, seq<nat>>) returns (out: Result<seq<Row>>)
    requires Indexes(st.lib, table, right, |right|, keys.right)
    ensures out.Ok? ==> out.value == Hits(st, Some(keys), l, right)
    ensures out.Ok? <==> forall r :: r in right ==> Clean(st, Some(keys), l, r)
  {
    assert right[..|right|] == right;
    HitsKeyed(st, keys, l, right);
    var key := KeyOf(st.lib, Cell(l, keys.left));
    if key.None? {
      return Ok([]);
    }
    KeyedMembers(st.lib, right, keys.right, key.value);
    assert Fetch(right, BucketOf(table, key.value)) == Keyed(st.lib, right, keys.right, key.value);
    out := ProbeRight(st, l, right, BucketOf(table, key.value));
  }

  method ProbeColumn(st: Step, keys: Keys, r: Row, left: seq<Row>, table: map<JoinKey, seq<nat>>) returns (out: Result<seq<Row>>)
    requires Indexes(st.lib, table, left, |left|, keys.left)
    ensures out.Ok? ==> out.value == Gather(st, Some(keys), left, r)
    ensures out.Ok? <==> forall l :: l in left ==> Clean(st, Some(keys), l, r)
  {
    assert left[..|left|] == left;
    GatherKeyed(st, keys, left, r);
    var key := KeyOf(st.lib, Cell(r, keys.right));
    if key.None? {
      return Ok([]);
    }
    KeyedMembers(st.lib, left, keys.left, key.value);
    assert Fetch(left, BucketOf(table, key.value)) == Keyed(st.lib, left, keys.left, key.value);
    out := ProbeLeft(st, r, left, BucketOf(table, key.value));
  }

  /** INNER builds the smaller side; LEFT always builds right. */
  predicate BuildsLeft(st: Step, left: seq<Row>, right: seq<Row>) { st.kind.Inner? && |left| < |right| }

  /** The hash join computes the join restricted to pairs whose keys meet: in the nested
      loop's order when it builds the right side, permuted when it builds the left. It fails
      exactly when ON is not accepted on a pair whose keys meet. */
  method HashJoinStep(st: Step, keys: Keys, left: seq<Row>, right: seq<Row>) returns (out: Result<seq<Row>>)
    requires st.Valid()
    ensures out.Ok? && !BuildsLeft(st, left, right) ==> out.value == Nested(st, Some(keys), left, right)
    ensures out.Ok? ==> multiset(out.value) == multiset(Nested(st, Some(keys), left, right))
    ensures out.Ok? <==> forall l, r :: l in left && r in right ==> Clean(st, Some(keys), l, r)
  {
    hide Clean, Hits, Gather, Indexes;
    var rows: seq<Row> := [];
    if BuildsLeft(st, left, right) {
      var table := BuildTable(st.lib, left, keys.left);
      for j := 0 to |right|
        invariant rows == Swapped(st, Some(keys), left, right[..j])
        invariant forall l, q :: l in left && 0 <= q < j ==> Clean(st, Some(keys), l, right[q])
      {
        var hits := ProbeColumn(st, keys, right[j], left, table);
        if hits.Err? {
          assert right[j] in right;
          return Err;
        }
        rows := rows + hits.value;
        assert right[..j + 1][..j] == right[..j];
      }
      assert right[..|right|] == right;
      SwappedIsNested(st, Some(keys), left, right);
      return Ok(rows);
    }
    var table := BuildTable(st.lib, right, keys.right);
    for i := 0 to |left|
      invariant rows == Nested(st, Some(keys), left[..i], right)
      invariant forall p, r :: 0 <= p < i && r in right ==> Clean(st, Some(keys), left[p], r)
    {
      var hits := ProbeRow(st, keys, left[i], right, table);
      if hits.Err? {
        assert left[i] in left;
        return Err;
      }
      rows := rows + hits.value;
      if hits.value == [] && st.kind.LeftOuter? {
        rows := rows + [left[i] + Nulls(st.RightWidth())];
      }
      assert left[..i + 1][..i] == left[..i];
    }
    assert left[..|left|] == left;
    return Ok(rows);
  }

  // ---------------------------------------------------------------------
  // Choosing the hash join
  // ---------------------------------------------------------------------

  /** The first `column = column` of the AND spine with one side in the left rows and the
      other in the new table; positions in the concatenated row. */
  function EquiJoin(on: Expr, leftWidth: nat, widths: seq<nat>, order: seq<nat>): Option<(nat, nat)> {
    match on
    case And(a, b) =>
      var first := EquiJoin(a, leftWidth, widths, order);
      if first.Some? then first else EquiJoin(b, leftWidth, widths, order)
    case Cmp(Col(x), Eq, Col(y)) =>
      var i, k := Locate(widths, order, x), Locate(widths, order, y);
      if i.None? || k.None? then None
      else if i.value < leftWidth && k.value >= leftWidth then Some((i.value, k.value))
      else if i.value >= leftWidth && k.value < leftWidth then Some((k.value, i.value))
      else None
    case _ => None
  }

  function KeysFor(st: Step): Option<Keys>
    requires st.Valid()
  {
    match EquiJoin(st.on, st.LeftWidth(), st.widths, st.order)
    case None => None
    case Some((i, k)) => if i < st.LeftWidth() <= k then Some(Keys(i, k - st.LeftWidth())) else None
  }

  lemma SameCommutes(lib: Library, a: Datum, b: Datum)
    ensures Same(lib, a, b) <==> Same(lib, b, a)
  {
  }

  /** A true ON clause makes the pair found by `EquiJoin` equal. */
  lemma {:induction false} EquiForces(lib: Library, on: Expr, leftWidth: nat, widths: seq<nat>, order: seq<nat>, row: Row)
    ensures match EquiJoin(on, leftWidth, widths, order)
            case None => true
            case Some((i, k)) =>
              && i < leftWidth <= k < Width(widths, order)
              && (Eval(lib, on, ScopeOf(widths, order, row)) == Is(true) ==> Same(lib, Cell(row, i), Cell(row, k)))
  {
    match on
    case And(a, b) =>
      EquiForces(lib, a, leftWidth, widths, order, row);
      EquiForces(lib, b, leftWidth, widths, order, row);
    case Cmp(Col(x), Eq, Col(y)) =>
      var i, k := Locate(widths, order, x), Locate(widths, order, y);
      if i.Some? && k.Some? {
        SameCommutes(lib, Cell(row, i.value), Cell(row, k.value));
      }
    case _ =>
  }

  /** The pair joins, and its key columns hold a mixed pair. */
  predicate MixedHit(st: Step, keys: Keys, l: Row, r: Row) {
    Joins(st, None, l, r) && Mixed(st.lib, Cell(l, keys.left), Cell(r, keys.right))
  }

  /** On a pair ON accepts, the key test passes exactly when the key kinds are not mixed. */
  lemma PairKeys(st: Step, keys: Keys, l: Row, r: Row)
    requires st.Valid() && KeysFor(st) == Some(keys) && |l| == st.LeftWidth()
    ensures Joins(st, Some(keys), l, r) <==> Joins(st, None, l, r) && !MixedHit(st, keys, l, r)
    ensures Joins(st, None, l, r) ==> !Cell(r, keys.right).Null?
  {
    EquiForces(st.lib, st.on, st.LeftWidth(), st.widths, st.order, l + r);
    var a, b := Cell(l, keys.left), Cell(r, keys.right);
    assert Cell(l + r, keys.left) == a && Cell(l + r, keys.right + st.LeftWidth()) == b;
    if Joins(st, None, l, r) {
      SameKeys(st.lib, a, b);
    }
  }

  lemma {:induction false} HitsMembers(st: Step, keys: Option<Keys>, l: Row, right: seq<Row>, x: Row)
    ensures x in Hits(st, keys, l, right) <==> exists j :: 0 <= j < |right| && Joins(st, keys, l, right[j]) && x == l + right[j]
  {
    hide Joins;
    if right != [] {
      var init := right[..|right| - 1];
      HitsMembers(st, keys, l, init, x);
      assert forall j :: 0 <= j < |init| ==> init[j] == right[j];
    }
  }

  /** Membership in a join, LEFT padding included: a left row is padded exactly when it has no hit. */
  lemma {:induction false} NestedMembers(st: Step, keys: Option<Keys>, left: seq<Row>, right: seq<Row>, x: Row)
    requires st.Valid()
    ensures x in Nested(st, keys, left, right) <==> exists i :: 0 <= i < |left| && x in Expand(st, keys, left[i], right)
  {
    hide Expand;
    if left != [] {
      var init := left[..|left| - 1];
      NestedMembers(st, keys, init, right, x);
      assert forall i :: 0 <= i < |init| ==> init[i] == left[i];
    }
  }

  lemma {:induction false} HitsAgree(st: Step, keys: Keys, l: Row, right: seq<Row>)
    requires st.Valid() && KeysFor(st) == Some(keys) && |l| == st.LeftWidth()
    requires forall r :: r in right ==> !MixedHit(st, keys, l, r)
    ensures Hits(st, Some(keys), l, right) == Hits(st, None, l, right)
  {
    if right != [] {
      HitsAgree(st, keys, l, right[..|right| - 1]);
      assert right[|right| - 1] in right;
      PairKeys(st, keys, l, right[|right| - 1]);
    }
  }

  lemma {:induction false} NestedAgree(st: Step, keys: Keys, left: seq<Row>, right: seq<Row>)
    requires st.Valid() && KeysFor(st) == Some(keys) && Rows(left, st.LeftWidth())
    requires forall l, r :: l in left && r in right ==> !MixedHit(st, keys, l, r)
    ensures Nested(st, Some(keys), left, right) == Nested(st, None, left, right)
  {
    hide MixedHit, Hits, KeysFor;
    if left != [] {
      NestedAgree(st, keys, left[..|left| - 1], right);
      assert left[|left| - 1] in left;
      HitsAgree(st, keys, left[|left| - 1], right);
    }
  }

  /** A mixed hit is in the join and not in the hash join's output. */
  lemma MixedIsLost(st: Step, keys: Keys, left: seq<Row>, right: seq<Row>, l: Row, r: Row)
    requires st.Valid() && KeysFor(st) == Some(keys) && Rows(left, st.LeftWidth()) && Rows(right, st.RightWidth())
    requires l in left && r in right && MixedHit(st, keys, l, r)
    ensures l + r in Nested(st, None, left, right) && l + r !in Nested(st, Some(keys), left, right)
  {
    var i :| 0 <= i < |left| && left[i] == l;
    var j :| 0 <= j < |right| && right[j] == r;
    HitsMembers(st, None, l, right, l + r);
    NestedMembers(st, None, left, right, l + r);
    assert l + r in Expand(st, None, left[i], right);
    NestedMembers(st, Some(keys), left, right, l + r);
    forall p | 0 <= p < |left|
      ensures l + r !in Expand(st, Some(keys), left[p], right)
    {
      LostFrom(st, keys, left[p], right, l, r);
    }
  }

  lemma SplitRow(a: Row, b: Row, c: Row, d: Row)
    requires a + b == c + d && |a| == |c|
    ensures a == c && b == d
  {
    assert (a + b)[..|a|] == a && (c + d)[..|a|] == c;
    assert (a + b)[|a|..] == b && (c + d)[|a|..] == d;
  }

  lemma LostFrom(st: Step, keys: Keys, l': Row, right: seq<Row>, l: Row, r: Row)
    requires st.Valid() && KeysFor(st) == Some(keys) && Rows(right, st.RightWidth())
    requires |l'| == |l| == st.LeftWidth() && MixedHit(st, keys, l, r)
    ensures l + r !in Expand(st, Some(keys), l', right)
  {
    PairKeys(st, keys, l, r);
    HitsMembers(st, Some(keys), l', right, l + r);
    hide Hits, KeysFor, Joins, MixedHit;
    forall j | 0 <= j < |right| && Joins(st, Some(keys), l', right[j])
      ensures l + r != l' + right[j]
    {
      if l + r == l' + right[j] {
        SplitRow(l, r, l', right[j]);
      }
    }
    if l + r == l' + Nulls(st.RightWidth()) {
      SplitRow(l, r, l', Nulls(st.RightWidth()));
    }
  }

  /** The hash join computes the nested-loop join exactly when no pair the ON clause joins
      has a mixed pair in its key columns. */
  lemma HashIsNested(st: Step, keys: Keys, left: seq<Row>, right: seq<Row>)
    requires st.Valid() && KeysFor(st) == Some(keys) && Rows(left, st.LeftWidth()) && Rows(right, st.RightWidth())
    ensures multiset(Nested(st, Some(keys), left, right)) == multiset(Nested(st, None, left, right)) <==>
            forall l, r :: l in left && r in right ==> !MixedHit(st, keys, l, r)
    ensures (forall l, r :: l in left && r in right ==> !MixedHit(st, keys, l, r)) ==>
            Nested(st, Some(keys), left, right) == Nested(st, None, left, right)
  {
    hide MixedHit, Nested, KeysFor;
    if l, r :| l in left && r in right && MixedHit(st, keys, l, r) {
      MixedIsLost(st, keys, left, right, l, r);
      assert l + r in multiset(Nested(st, None, left, right));
      assert l + r !in multiset(Nested(st, Some(keys), left, right));
    } else {
      NestedAgree(st, keys, left, right);
    }
  }

  lemma NestedWidth(st: Step, keys: Option<Keys>, left: seq<Row>, right: seq<Row>)
    requires st.Valid() && Rows(left, st.LeftWidth()) && Rows(right, st.RightWidth())
    ensures Rows(Nested(st, keys, left, right), Width(st.widths, st.order))
    ensures forall x :: x in Nested(st, keys, left, right) ==> |x| == Width(st.widths, st.order)
  {
    var rows := Nested(st, keys, left, right);
    forall i | 0 <= i < |rows| ensures |rows[i]| == Width(st.widths, st.order) {
      NestedMembers(st, keys, left, right, rows[i]);
      hide Nested, Hits;
      var p :| 0 <= p < |left| && rows[i] in Expand(st, keys, left[p], right);
      HitsMembers(st, keys, left[p], right, rows[i]);
    }
  }

  /** One step of the executor: a hash join on the first equi pair, else a nested loop. */
  method JoinStep(st: Step, left: seq<Row>, right: seq<Row>) returns (out: Result<seq<Row>>)
    requires st.Valid() && Rows(left, st.LeftWidth()) && Rows(right, st.RightWidth())
    ensures out.Ok? && (KeysFor(st).Some? ==> forall l, r :: l in left && r in right ==> !MixedHit(st, KeysFor(st).value, l, r)) ==>
              && multiset(out.value) == multiset(Nested(st, None, left, right))
              && (KeysFor(st).None? || !BuildsLeft(st, left, right) ==> out.value == Nested(st, None, left, right))
    ensures out.Ok? ==> Rows(out.value, Width(st.widths, st.order))
    ensures out.Ok? <==> forall l, r :: l in left && r in right ==> Clean(st, KeysFor(st), l, r)
  {
    NestedWidth(st, KeysFor(st), left, right);
    hide MixedHit, Nested, KeysFor, Clean, BuildsLeft, Width;
    var keys := KeysFor(st);
    if keys.Some? {
      out := HashJoinStep(st, keys.value, left, right);
      if out.Ok? {
        HashIsNested(st, keys.value, left, right);
        ghost var rows := Nested(st, keys, left, right);
        assert forall i :: 0 <= i < |out.value| ==> out.value[i] in multiset(out.value);
        assert forall x :: x in multiset(out.value) ==> x in rows;
      }
    } else {
      out := NestedLoopStep(st, left, right);
    }
  }

  /** `a.x = b.y` over two one-column tables. */
  function PairStep(lib: Library): Step {
    Step(lib, Cmp(Col(Column(0, 0)), Eq, Col(Column(1, 0))), Inner, [1, 1], [0, 1])
  }

  lemma PairStepKeys(lib: Library)
    ensures PairStep(lib).Valid() && PairStep(lib).LeftWidth() == 1 && PairStep(lib).RightWidth() == 1
    ensures KeysFor(PairStep(lib)) == Some(Keys(0, 0))
    ensures Locate([1, 1], [0, 1], Column(0, 0)) == Some(0) && Locate([1, 1], [0, 1], Column(1, 0)) == Some(1)
  {
    var st := PairStep(lib);
    assert st.order[..1] == [0] && [0][..0] == [];
    assert Width([1, 1], [0]) == 1;
  }

  /** Any two values that are equal to the evaluator and mixed: the nested loop joins them,
      the hash join does not. */
  lemma MixedPair(lib: Library, a: Datum, b: Datum)
    requires Same(lib, a, b) && Mixed(lib, a, b)
    ensures PairStep(lib).Valid()
    ensures multiset(Nested(PairStep(lib), Some(Keys(0, 0)), [[a]], [[b]])) != multiset(Nested(PairStep(lib), None, [[a]], [[b]]))
  {
    var st := PairStep(lib);
    PairStepKeys(lib);
    var l: Row, r: Row := [a], [b];
    assert Cell(l + r, 0) == a && Cell(l + r, 1) == b;
    assert st.Test(l + r) == Is(true);
    assert MixedHit(st, Keys(0, 0), l, r);
    hide Nested, KeysFor, MixedHit;
    assert l in [l] && r in [r];
    HashIsNested(st, Keys(0, 0), [l], [r]);
  }

  /** BOOL `true` against INT 1, and the INT 2^53 + 1 against the FLOAT 2^53 it rounds to. */
  lemma MixedKeysExample(lib: Library)
    requires lib.toFloat(0x20_0000_0000_0001) == 9007199254740992.0
    ensures PairStep(lib).Valid()
    ensures multiset(Nested(PairStep(lib), Some(Keys(0, 0)), [[Bool(true)]], [[Int(1)]])) !=
            multiset(Nested(PairStep(lib), None, [[Bool(true)]], [[Int(1)]]))
    ensures multiset(Nested(PairStep(lib), Some(Keys(0, 0)), [[Int(0x20_0000_0000_0001)]], [[Float(9007199254740992.0)]])) !=
            multiset(Nested(PairStep(lib), None, [[Int(0x20_0000_0000_0001)]], [[Float(9007199254740992.0)]]))
  {
    hide Nested;
    MixedPair(lib, Bool(true), Int(1));
    MixedPair(lib, Int(0x20_0000_0000_0001), Float(9007199254740992.0));
  }
}
