/**
 The B+ tree as a mathematical value: what a well-formed tree is, which entries
 and which leaf chain it stands for, and what a change confined to a run of
 neighbouring children does to both.
 */
module BTreeShape {
  import opened Bytes

  const MAX_KEYS: nat := 128
  const MIN_KEYS: nat := 64

  type NodeId = nat

  /** A leaf (`Tip`) or an internal node (`Branch`); `id` names its heap cell. */
  datatype Tree =
    | Tip(id: NodeId, keys: seq<Key>, vals: seq<Key>, next: Option<NodeId>)
    | Branch(id: NodeId, keys: seq<Key>, children: seq<Tree>)

  // ---------------------------------------------------------------------
  // Well-formedness: separators bound subtrees, all leaves on one level
  // ---------------------------------------------------------------------

  // Bounds are optional keys: `lo` is exclusive, `hi` inclusive.
  ghost predicate Above(lo: Option<Key>, k: Key) { lo.Some? ==> Less(lo.value, k) }
  ghost predicate Below(k: Key, hi: Option<Key>) { hi.Some? ==> Less(k, hi.value) }
  ghost predicate AtMost(k: Key, hi: Option<Key>) { hi.Some? ==> !Less(hi.value, k) }

  ghost function Lo(lo: Option<Key>, keys: seq<Key>, i: nat): Option<Key>
    requires i <= |keys|
  {
    if i == 0 then lo else Some(keys[i - 1])
  }

  ghost function Hi(keys: seq<Key>, hi: Option<Key>, i: nat): Option<Key>
    requires i <= |keys|
  {
    if i == |keys| then hi else Some(keys[i])
  }

  ghost predicate Separators(keys: seq<Key>, lo: Option<Key>, hi: Option<Key>) {
    && Sorted(keys)
    && forall i :: 0 <= i < |keys| ==> Above(lo, keys[i]) && Below(keys[i], hi)
  }

  // The keys of a leaf.
  ghost predicate KeysIn(keys: seq<Key>, lo: Option<Key>, hi: Option<Key>) {
    && Sorted(keys)
    && forall i :: 0 <= i < |keys| ==> Above(lo, keys[i]) && AtMost(keys[i], hi)
  }

  lemma KeysCut(keys: seq<Key>, m: nat, lo: Option<Key>, hi: Option<Key>)
    requires KeysIn(keys, lo, hi) && 0 < m < |keys|
    ensures KeysIn(keys[..m], lo, Some(keys[m - 1])) && KeysIn(keys[m..], Some(keys[m - 1]), hi)
    ensures Above(lo, keys[m - 1]) && Below(keys[m - 1], hi)
  {
    OrderLaws();
    hide Less, Rank;
    assert Less(keys[m - 1], keys[m]);
  }

  lemma KeysJoin(a: seq<Key>, sep: Key, b: seq<Key>, lo: Option<Key>, hi: Option<Key>)
    requires KeysIn(a, lo, Some(sep)) && KeysIn(b, Some(sep), hi)
    requires Above(lo, sep) && Below(sep, hi)
    ensures KeysIn(a + b, lo, hi)
  {
    OrderLaws();
    hide Less, Rank;
  }

  /** `t` has all its leaves `d` levels down, at most `MAX_KEYS` keys per node, and
      every key in (`lo`, `hi`]. Child `i` lies in (`keys[i-1]`, `keys[i]`]. */
  ghost predicate Wf(t: Tree, d: nat, lo: Option<Key>, hi: Option<Key>)
    decreases t, 1
  {
    && |t.keys| <= MAX_KEYS
    && match t
       case Tip(_, keys, vals, _) =>
         && d == 0
         && |vals| == |keys|
         && KeysIn(keys, lo, hi)
       case Branch(_, keys, children) =>
         d > 0 && Forest(keys, children, d - 1, lo, hi)
  }

  /** A run of sibling subtrees and the separators between them. */
  ghost predicate Forest(keys: seq<Key>, ts: seq<Tree>, d: nat, lo: Option<Key>, hi: Option<Key>)
    decreases ts, 0
  {
    && |ts| == |keys| + 1
    && Separators(keys, lo, hi)
    && forall i :: 0 <= i < |ts| ==> Wf(ts[i], d, Lo(lo, keys, i), Hi(keys, hi, i))
  }

  /** Children `i..j` of a forest may be exchanged for any forest with the same bounds. */
  lemma ForestSplice(keys: seq<Key>, ts: seq<Tree>, d: nat, lo: Option<Key>, hi: Option<Key>,
                     i: nat, j: nat, ks: seq<Key>, cs: seq<Tree>)
    requires Forest(keys, ts, d, lo, hi)
    requires i < j <= |ts|
    requires Forest(ks, cs, d, Lo(lo, keys, i), Hi(keys, hi, j - 1))
    ensures Forest(keys[..i] + ks + keys[j - 1..], ts[..i] + cs + ts[j..], d, lo, hi)
  {
    OrderLaws();
    hide Less, Rank;
    var K, T := keys[..i] + ks + keys[j - 1..], ts[..i] + cs + ts[j..];
    assert Separators(K, lo, hi);
    forall q | 0 <= q < |T|
      ensures Wf(T[q], d, Lo(lo, K, q), Hi(K, hi, q))
    {
      if q < i {
        assert T[q] == ts[q] && Lo(lo, K, q) == Lo(lo, keys, q) && Hi(K, hi, q) == Hi(keys, hi, q);
      } else if q < i + |cs| {
        assert T[q] == cs[q - i];
        assert Lo(lo, K, q) == Lo(Lo(lo, keys, i), ks, q - i);
        assert Hi(K, hi, q) == Hi(ks, Hi(keys, hi, j - 1), q - i);
      } else {
        var p := q - i - |cs| + j;
        assert T[q] == ts[p] && Lo(lo, K, q) == Lo(lo, keys, p) && Hi(K, hi, q) == Hi(keys, hi, p);
      }
    }
  }

  /** A run of neighbouring children is itself a forest. */
  lemma ForestSlice(keys: seq<Key>, ts: seq<Tree>, d: nat, lo: Option<Key>, hi: Option<Key>, i: nat, j: nat)
    requires Forest(keys, ts, d, lo, hi)
    requires i < j <= |ts|
    ensures Forest(keys[i..j - 1], ts[i..j], d, Lo(lo, keys, i), Hi(keys, hi, j - 1))
  {
    OrderLaws();
    hide Less, Rank;
    var K, T, l, h := keys[i..j - 1], ts[i..j], Lo(lo, keys, i), Hi(keys, hi, j - 1);
    assert Separators(K, l, h);
    forall q | 0 <= q < |T|
      ensures Wf(T[q], d, Lo(l, K, q), Hi(K, h, q))
    {
      assert T[q] == ts[i + q] && Lo(l, K, q) == Lo(lo, keys, i + q) && Hi(K, h, q) == Hi(keys, hi, i + q);
    }
  }

  /** Two forests meeting at a separator make one. */
  lemma ForestJoin(ka: seq<Key>, ta: seq<Tree>, sep: Key, kb: seq<Key>, tb: seq<Tree>,
                   d: nat, lo: Option<Key>, hi: Option<Key>)
    requires Above(lo, sep) && Below(sep, hi)
    requires Forest(ka, ta, d, lo, Some(sep)) && Forest(kb, tb, d, Some(sep), hi)
    ensures Forest(ka + [sep] + kb, ta + tb, d, lo, hi)
  {
    OrderLaws();
    hide Less, Rank;
    var K, T := ka + [sep] + kb, ta + tb;
    assert Separators(K, lo, hi);
    forall q | 0 <= q < |T|
      ensures Wf(T[q], d, Lo(lo, K, q), Hi(K, hi, q))
    {
      if q < |ta| {
        assert T[q] == ta[q] && Lo(lo, K, q) == Lo(lo, ka, q) && Hi(K, hi, q) == Hi(ka, Some(sep), q);
      } else {
        var p := q - |ta|;
        assert T[q] == tb[p] && Lo(lo, K, q) == Lo(Some(sep), kb, p) && Hi(K, hi, q) == Hi(kb, hi, p);
      }
    }
  }

  /** The fields of a node agree in length. */
  ghost predicate Even(t: Tree) {
    if t.Tip? then |t.vals| == |t.keys| else |t.children| == |t.keys| + 1
  }

  lemma WfShape(t: Tree, d: nat, lo: Option<Key>, hi: Option<Key>)
    requires Wf(t, d, lo, hi)
    ensures Even(t) && |t.keys| <= MAX_KEYS && (t.Tip? <==> d == 0)
  {
  }

  lemma ForestOne(t: Tree, d: nat, lo: Option<Key>, hi: Option<Key>)
    ensures Forest([], [t], d, lo, hi) <==> Wf(t, d, lo, hi)
  {
    assert Lo(lo, [], 0) == lo && Hi([], hi, 0) == hi && [t][0] == t;
  }

  lemma ForestTwo(a: Tree, sep: Key, b: Tree, d: nat, lo: Option<Key>, hi: Option<Key>)
    ensures Forest([sep], [a, b], d, lo, hi) <==>
            && Above(lo, sep) && Below(sep, hi)
            && Wf(a, d, lo, Some(sep)) && Wf(b, d, Some(sep), hi)
  {
    hide Less;
    assert [a, b][0] == a && [a, b][1] == b;
    assert Lo(lo, [sep], 0) == lo && Hi([sep], hi, 0) == Some(sep);
    assert Lo(lo, [sep], 1) == Some(sep) && Hi([sep], hi, 1) == hi;
  }

  // ---------------------------------------------------------------------
  // Leaves, the leaf chain, entries
  // ---------------------------------------------------------------------

  ghost function Leaves(t: Tree): seq<Tree>
    decreases t, 1
  {
    if t.Tip? then [t] else LeavesOf(t.children)
  }

  ghost function LeavesOf(ts: seq<Tree>): seq<Tree>
    decreases ts, 0
  {
    if ts == [] then [] else Leaves(ts[0]) + LeavesOf(ts[1..])
  }

  lemma Regroup<T>(a: seq<T>, b: seq<T>, c: seq<T>, d: seq<T>, e: seq<T>)
    ensures a + (b + c + d) + e == (a + b) + c + (d + e)
  {
  }

  lemma {:induction false} LeavesConcat(a: seq<Tree>, b: seq<Tree>)
    ensures LeavesOf(a + b) == LeavesOf(a) + LeavesOf(b)
  {
    if a == [] {
      assert a + b == b;
    } else {
      assert (a + b)[0] == a[0] && (a + b)[1..] == a[1..] + b;
      LeavesConcat(a[1..], b);
    }
  }

  lemma LeavesSplice(a: seq<Tree>, x: seq<Tree>, b: seq<Tree>)
    ensures LeavesOf(a + x + b) == LeavesOf(a) + LeavesOf(x) + LeavesOf(b)
  {
    LeavesConcat(a + x, b);
    LeavesConcat(a, x);
  }

  lemma LeavesOne(t: Tree)
    ensures LeavesOf([t]) == Leaves(t)
  {
    assert [t][1..] == [];
  }

  lemma LeavesTwo(s: Tree, t: Tree)
    ensures LeavesOf([s, t]) == Leaves(s) + Leaves(t)
  {
    assert [s, t][1..] == [t];
    LeavesOne(t);
  }

  /** The leaves of a run with one member exchanged. */
  lemma LeavesUpdate(ts: seq<Tree>, i: nat, c: Tree)
    requires i < |ts|
    ensures LeavesOf(ts[i := c]) == LeavesOf(ts[..i]) + Leaves(c) + LeavesOf(ts[i + 1..])
  {
    assert ts[i := c] == ts[..i] + [c] + ts[i + 1..];
    LeavesSplice(ts[..i], [c], ts[i + 1..]);
    LeavesOne(c);
  }

  type Entry = (Key, Key)

  ghost function Entries(t: Tree): (es: seq<Entry>)
    ensures t.Tip? && |t.vals| == |t.keys| ==> |es| == |t.keys|
    ensures t.Tip? && |t.vals| == |t.keys| ==> forall i :: 0 <= i < |es| ==> es[i] == (t.keys[i], t.vals[i])
  {
    if t.Tip? && |t.vals| == |t.keys| then seq(|t.keys|, i requires 0 <= i < |t.keys| => (t.keys[i], t.vals[i])) else []
  }

  ghost function Flat(ls: seq<Tree>): seq<Entry> {
    if ls == [] then [] else Entries(ls[0]) + Flat(ls[1..])
  }

  lemma {:induction false} FlatConcat(a: seq<Tree>, b: seq<Tree>)
    ensures Flat(a + b) == Flat(a) + Flat(b)
  {
    if a == [] {
      assert a + b == b;
    } else {
      assert (a + b)[0] == a[0] && (a + b)[1..] == a[1..] + b;
      FlatConcat(a[1..], b);
    }
  }

  lemma FlatSplice(a: seq<Tree>, x: seq<Tree>, b: seq<Tree>)
    ensures Flat(a + x + b) == Flat(a) + Flat(x) + Flat(b)
  {
    FlatConcat(a + x, b);
    FlatConcat(a, x);
  }

  ghost function Exit(t: Tree): Option<NodeId> {
    if t.Tip? then t.next else None
  }

  /** Every leaf points to the next one. */
  ghost predicate Linked(ls: seq<Tree>) {
    forall i :: 0 <= i < |ls| - 1 ==> Exit(ls[i]) == Some(ls[i + 1].id)
  }

  /** A whole chain: linked, and the last leaf points nowhere. */
  ghost predicate Chained(ls: seq<Tree>) {
    Linked(ls) && (|ls| > 0 ==> Exit(ls[|ls| - 1]) == None)
  }

  /** `ys` can stand where `xs` stood in a chain: entered and left at the same places. */
  ghost predicate Relinks(xs: seq<Tree>, ys: seq<Tree>) {
    && |xs| > 0 && |ys| > 0
    && ys[0].id == xs[0].id
    && Exit(ys[|ys| - 1]) == Exit(xs[|xs| - 1])
    && (Linked(xs) ==> Linked(ys))
  }

  lemma RelinkInContext(a: seq<Tree>, x: seq<Tree>, y: seq<Tree>, b: seq<Tree>)
    requires Relinks(x, y)
    ensures Relinks(a + x + b, a + y + b)
  {
    var X, Y := a + x + b, a + y + b;
    if Linked(X) {
      forall i | 0 <= i < |x| - 1
        ensures Exit(x[i]) == Some(x[i + 1].id)
      {
        assert x[i] == X[|a| + i] && x[i + 1] == X[|a| + i + 1];
      }
      forall i | 0 <= i < |Y| - 1
        ensures Exit(Y[i]) == Some(Y[i + 1].id)
      {
        if i < |a| {
          assert Y[i] == X[i] && X[i + 1].id == Y[i + 1].id;
        } else if i < |a| + |y| - 1 {
          assert Y[i] == y[i - |a|] && Y[i + 1] == y[i - |a| + 1];
        } else {
          var p := i - |y| + |x|;
          assert Exit(X[p]) == Exit(Y[i]) && X[p + 1] == Y[i + 1];
        }
      }
    }
  }

  // ---------------------------------------------------------------------
  // Node identities
  // ---------------------------------------------------------------------

  ghost function Ids(t: Tree): set<NodeId>
    decreases t, 1
  {
    {t.id} + if t.Tip? then {} else IdsOf(t.children)
  }

  ghost function IdsOf(ts: seq<Tree>): set<NodeId>
    decreases ts, 0
  {
    if ts == [] then {} else Ids(ts[0]) + IdsOf(ts[1..])
  }

  /** No heap cell is used twice. */
  ghost predicate Distinct(t: Tree)
    decreases t, 1
  {
    t.Branch? ==> t.id !in IdsOf(t.children) && DistinctOf(t.children)
  }

  ghost predicate DistinctOf(ts: seq<Tree>)
    decreases ts, 0
  {
    ts != [] ==> Distinct(ts[0]) && Ids(ts[0]) !! IdsOf(ts[1..]) && DistinctOf(ts[1..])
  }

  lemma {:induction false} IdsConcat(a: seq<Tree>, b: seq<Tree>)
    ensures IdsOf(a + b) == IdsOf(a) + IdsOf(b)
    ensures DistinctOf(a + b) <==> DistinctOf(a) && DistinctOf(b) && IdsOf(a) !! IdsOf(b)
  {
    if a == [] {
      assert a + b == b;
    } else {
      assert (a + b)[0] == a[0] && (a + b)[1..] == a[1..] + b;
      IdsConcat(a[1..], b);
    }
  }

  lemma IdsSplice(a: seq<Tree>, x: seq<Tree>, b: seq<Tree>)
    ensures IdsOf(a + x + b) == IdsOf(a) + IdsOf(x) + IdsOf(b)
    ensures DistinctOf(a + x + b) <==>
            && DistinctOf(a) && DistinctOf(x) && DistinctOf(b)
            && IdsOf(a) !! IdsOf(x) && IdsOf(a) !! IdsOf(b) && IdsOf(x) !! IdsOf(b)
  {
    IdsConcat(a + x, b);
    IdsConcat(a, x);
  }

  lemma IdsOne(t: Tree)
    ensures IdsOf([t]) == Ids(t)
    ensures DistinctOf([t]) <==> Distinct(t)
  {
    assert [t][1..] == [];
  }

  lemma IdsTwo(s: Tree, t: Tree)
    ensures IdsOf([s, t]) == Ids(s) + Ids(t)
    ensures DistinctOf([s, t]) <==> Distinct(s) && Distinct(t) && Ids(s) !! Ids(t)
  {
    assert [s, t][1..] == [t];
    IdsOne(t);
  }

  /** The cells of a run with one member exchanged. */
  lemma IdsUpdate(ts: seq<Tree>, i: nat, c: Tree)
    requires i < |ts|
    ensures IdsOf(ts[i := c]) == IdsOf(ts[..i]) + Ids(c) + IdsOf(ts[i + 1..])
    ensures DistinctOf(ts[i := c]) <==>
            && DistinctOf(ts[..i]) && Distinct(c) && DistinctOf(ts[i + 1..])
            && IdsOf(ts[..i]) !! Ids(c) && IdsOf(ts[..i]) !! IdsOf(ts[i + 1..]) && Ids(c) !! IdsOf(ts[i + 1..])
  {
    assert ts[i := c] == ts[..i] + [c] + ts[i + 1..];
    IdsSplice(ts[..i], [c], ts[i + 1..]);
    IdsOne(c);
  }

  lemma {:induction false} IdsMember(ts: seq<Tree>, i: nat)
    requires i < |ts|
    ensures Ids(ts[i]) <= IdsOf(ts)
    ensures DistinctOf(ts) ==> Distinct(ts[i])
  {
    if i > 0 {
      IdsMember(ts[1..], i - 1);
    }
  }

  // ---------------------------------------------------------------------
  // Fill: every node but the root is at least half full
  // ---------------------------------------------------------------------

  ghost function Count(t: Tree): nat {
    if t.Tip? then |t.keys| else |t.children|
  }

  ghost predicate Filled(t: Tree)
    decreases t, 1
  {
    t.Branch? ==> FilledOf(t.children)
  }

  ghost predicate FilledOf(ts: seq<Tree>)
    decreases ts, 0
  {
    forall i :: 0 <= i < |ts| ==> Count(ts[i]) >= MIN_KEYS && Filled(ts[i])
  }

  lemma FilledConcat(a: seq<Tree>, b: seq<Tree>)
    ensures FilledOf(a + b) <==> FilledOf(a) && FilledOf(b)
  {
    if FilledOf(a + b) {
      assert forall i :: 0 <= i < |a| ==> a[i] == (a + b)[i];
      assert forall i :: 0 <= i < |b| ==> b[i] == (a + b)[|a| + i];
    }
  }
}
