/**
 The three structural moves of the B+ tree on neighbouring siblings: splitting a
 full child, borrowing from a rich sibling and merging two sparse ones. Each
 takes a run of siblings to another run with the same bounds, the same entries,
 and the same place in the leaf chain.
 */
module BTreeMoves {
  import opened Bytes
  import opened BTreeShape

  /** A run of siblings with the separators between them. */
  datatype Run = Run(keys: seq<Key>, trees: seq<Tree>)

  /** `ys` holds the same entries as `xs`, at the same place in the leaf chain. */
  ghost predicate SameData(xs: seq<Tree>, ys: seq<Tree>) {
    && Flat(LeavesOf(ys)) == Flat(LeavesOf(xs))
    && Relinks(LeavesOf(xs), LeavesOf(ys))
  }

  /** `ys` lives in the cells of `xs` plus `spare`, minus `gone`, again without sharing. */
  ghost predicate SameCells(xs: seq<Tree>, ys: seq<Tree>, spare: set<NodeId>, gone: set<NodeId>) {
    && IdsOf(ys) == IdsOf(xs) + spare - gone
    && (DistinctOf(xs) && spare !! IdsOf(xs) ==> DistinctOf(ys))
  }

  lemma {:induction false} LeavesSome(t: Tree, d: nat, lo: Option<Key>, hi: Option<Key>)
    requires Wf(t, d, lo, hi)
    ensures |Leaves(t)| > 0
    decreases d
  {
    if t.Branch? {
      LeavesSome(t.children[0], d - 1, Lo(lo, t.keys, 0), Hi(t.keys, hi, 0));
    }
  }

  lemma FlatTwo(s: Tree, t: Tree)
    ensures Flat([s, t]) == Entries(s) + Entries(t)
  {
    assert [s, t] == [s] + [t];
    FlatConcat([s], [t]);
    assert [s][1..] == [] && [t][1..] == [];
  }

  lemma FlatOne(t: Tree)
    ensures Flat([t]) == Entries(t)
  {
    assert [t][1..] == [];
  }

  /** Leaf runs: same first cell, same exit, linked inside. */
  lemma TipsSameData(a: Tree, x: Tree, y: Tree)
    requires a.Tip? && x.Tip? && y.Tip?
    requires x.id == a.id && y.next == a.next && x.next == Some(y.id)
    requires Entries(x) + Entries(y) == Entries(a)
    ensures SameData([a], [x, y])
  {
    LeavesOne(a);
    LeavesTwo(x, y);
    FlatOne(a);
    FlatTwo(x, y);
  }

  lemma BranchesSameData(a: Tree, b: Tree, x: Tree, y: Tree)
    requires a.Branch? && b.Branch? && x.Branch? && y.Branch?
    requires |LeavesOf(a.children)| > 0
    requires a.children + b.children == x.children + y.children
    ensures SameData([a, b], [x, y])
  {
    LeavesTwo(a, b);
    LeavesTwo(x, y);
    LeavesConcat(a.children, b.children);
    LeavesConcat(x.children, y.children);
  }

  /** Two internal nodes whose concatenation is a forest are one forest of two. */
  lemma CutBranches(x: Tree, sep: Key, y: Tree, d: nat, lo: Option<Key>, hi: Option<Key>)
    requires x.Branch? && y.Branch? && Even(x) && Even(y) && d > 0
    requires |x.keys| <= MAX_KEYS && |y.keys| <= MAX_KEYS
    requires Forest(x.keys + [sep] + y.keys, x.children + y.children, d - 1, lo, hi)
    ensures Forest([sep], [x, y], d, lo, hi)
  {
    hide Less, Rank;
    var K, T, m := x.keys + [sep] + y.keys, x.children + y.children, |x.children|;
    ForestSlice(K, T, d - 1, lo, hi, 0, m);
    ForestSlice(K, T, d - 1, lo, hi, m, |T|);
    assert K[0..m - 1] == x.keys && T[0..m] == x.children;
    assert K[m..|T| - 1] == y.keys && T[m..|T|] == y.children;
    assert K[m - 1] == sep;
    ForestTwo(x, sep, y, d, lo, hi);
  }

  // ---------------------------------------------------------------------
  // Split
  // ---------------------------------------------------------------------

  /** A leaf keeps its lower half and its cell; the upper half goes to the cell `spare`.
      An internal node also sends its middle separator up. */
  ghost function SplitRun(c: Tree, spare: NodeId): Run
    requires |c.keys| >= 2 && Even(c)
  {
    var mid := |c.keys| / 2;
    match c
    case Tip(id, keys, vals, next) =>
      Run([keys[mid - 1]], [Tip(id, keys[..mid], vals[..mid], Some(spare)), Tip(spare, keys[mid..], vals[mid..], next)])
    case Branch(id, keys, children) =>
      Run([keys[mid]], [Branch(id, keys[..mid], children[..mid + 1]), Branch(spare, keys[mid + 1..], children[mid + 1..])])
  }

  lemma SplitTip(c: Tree, spare: NodeId, lo: Option<Key>, hi: Option<Key>)
    requires c.Tip? && Wf(c, 0, lo, hi) && |c.keys| == MAX_KEYS
    ensures var r := SplitRun(c, spare);
            && Forest(r.keys, r.trees, 0, lo, hi)
            && SameData([c], r.trees)
            && SameCells([c], r.trees, {spare}, {})
            && FilledOf(r.trees)
  {
    hide Less, Rank;
    var r := SplitRun(c, spare);
    var sep, left, right := r.keys[0], r.trees[0], r.trees[1];
    assert r.trees == [left, right];
    KeysCut(c.keys, |c.keys| / 2, lo, hi);
    hide KeysIn, Sorted, Forest;
    ForestTwo(left, sep, right, 0, lo, hi);
    TipsSameData(c, left, right);
    IdsTwo(left, right);
    IdsOne(c);
  }

  lemma SplitBranch(c: Tree, spare: NodeId, d: nat, lo: Option<Key>, hi: Option<Key>)
    requires c.Branch? && Even(c) && Wf(c, d, lo, hi) && |c.keys| == MAX_KEYS
    ensures var r := SplitRun(c, spare);
            && Forest(r.keys, r.trees, d, lo, hi)
            && SameData([c], r.trees)
            && SameCells([c], r.trees, {spare}, {})
            && (Filled(c) ==> FilledOf(r.trees))
  {
    hide Less, Rank;
    var r := SplitRun(c, spare);
    var sep, left, right := r.keys[0], r.trees[0], r.trees[1];
    assert r.trees == [left, right];
    assert c.keys == left.keys + [sep] + right.keys && c.children == left.children + right.children;
    CutBranches(left, sep, right, d, lo, hi);
    LeavesSome(c, d, lo, hi);
    SplitBranchData(c, spare);
    FilledConcat(left.children, right.children);
  }

  lemma SplitBranchData(c: Tree, spare: NodeId)
    requires c.Branch? && Even(c) && |c.keys| >= 2 && |LeavesOf(c.children)| > 0
    ensures var r := SplitRun(c, spare);
            SameData([c], r.trees) && SameCells([c], r.trees, {spare}, {})
  {
    var r := SplitRun(c, spare);
    var left, right := r.trees[0], r.trees[1];
    assert r.trees == [left, right];
    assert c.children == left.children + right.children;
    LeavesConcat(left.children, right.children);
    LeavesTwo(left, right);
    LeavesOne(c);
    IdsConcat(left.children, right.children);
    IdsTwo(left, right);
    IdsOne(c);
  }

  // ---------------------------------------------------------------------
  // Borrow
  // ---------------------------------------------------------------------

  /** The first entry (or child) of `b` moves to the end of `a`. */
  ghost function BorrowRight(a: Tree, sep: Key, b: Tree): Run
    requires (a.Tip? <==> b.Tip?) && |b.keys| > 0 && Even(b)
  {
    if a.Tip? then
      Run([b.keys[0]], [Tip(a.id, a.keys + [b.keys[0]], a.vals + [b.vals[0]], a.next),
                        Tip(b.id, b.keys[1..], b.vals[1..], b.next)])
    else
      Run([b.keys[0]], [Branch(a.id, a.keys + [sep], a.children + [b.children[0]]),
                        Branch(b.id, b.keys[1..], b.children[1..])])
  }

  /** The last entry (or child) of `a` moves to the front of `b`. */
  ghost function BorrowLeft(a: Tree, sep: Key, b: Tree): Run
    requires (a.Tip? <==> b.Tip?) && |a.keys| > 1 && Even(a)
  {
    var n := |a.keys| - 1;
    if a.Tip? then
      Run([a.keys[n - 1]], [Tip(a.id, a.keys[..n], a.vals[..n], a.next),
                            Tip(b.id, [a.keys[n]] + b.keys, [a.vals[n]] + b.vals, b.next)])
    else
      Run([a.keys[n]], [Branch(a.id, a.keys[..n], a.children[..n + 1]),
                        Branch(b.id, [sep] + b.keys, [a.children[n + 1]] + b.children)])
  }

  ghost function BorrowRun(a: Tree, sep: Key, b: Tree, fromRight: bool): Run
    requires (a.Tip? <==> b.Tip?) && Even(a) && Even(b)
    requires if fromRight then |b.keys| > 1 else |a.keys| > 1
  {
    if fromRight then BorrowRight(a, sep, b) else BorrowLeft(a, sep, b)
  }

  lemma BorrowTips(a: Tree, sep: Key, b: Tree, lo: Option<Key>, hi: Option<Key>, fromRight: bool)
    requires a.Tip? && b.Tip? && Even(a) && Even(b) && Forest([sep], [a, b], 0, lo, hi)
    requires if fromRight then |a.keys| < MAX_KEYS && |b.keys| > 1 else |b.keys| < MAX_KEYS && |a.keys| > 1
    ensures var r := BorrowRun(a, sep, b, fromRight);
            && Forest(r.keys, r.trees, 0, lo, hi)
            && SameData([a, b], r.trees)
            && SameCells([a, b], r.trees, {}, {})
  {
    hide Less, Rank;
    ForestTwo(a, sep, b, 0, lo, hi);
    var r := BorrowRun(a, sep, b, fromRight);
    var up, x, y := r.keys[0], r.trees[0], r.trees[1];
    assert r.trees == [x, y];
    KeysJoin(a.keys, sep, b.keys, lo, hi);
    var K := a.keys + b.keys;
    assert K == x.keys + y.keys && a.vals + b.vals == x.vals + y.vals;
    KeysCut(K, |x.keys|, lo, hi);
    assert K[..|x.keys|] == x.keys && K[|x.keys|..] == y.keys;
    ForestTwo(x, up, y, 0, lo, hi);
    BorrowTipsData(a, b, x, y);
  }

  lemma BorrowTipsData(a: Tree, b: Tree, x: Tree, y: Tree)
    requires a.Tip? && b.Tip? && x.Tip? && y.Tip?
    requires Even(a) && Even(b) && Even(x) && Even(y)
    requires a.keys + b.keys == x.keys + y.keys && a.vals + b.vals == x.vals + y.vals
    requires x.id == a.id && y.id == b.id && x.next == a.next && y.next == b.next
    ensures SameData([a, b], [x, y]) && SameCells([a, b], [x, y], {}, {})
  {
    LeavesTwo(a, b);
    LeavesTwo(x, y);
    FlatTwo(a, b);
    FlatTwo(x, y);
    EntriesZip(a, b);
    EntriesZip(x, y);
    IdsTwo(a, b);
    IdsTwo(x, y);
  }

  /** The entries of two leaves depend only on their concatenated keys and values. */
  lemma EntriesZip(a: Tree, b: Tree)
    requires a.Tip? && b.Tip? && Even(a) && Even(b)
    ensures Entries(a) + Entries(b) == Entries(Tip(0, a.keys + b.keys, a.vals + b.vals, None))
  {
  }

  lemma BorrowBranches(a: Tree, sep: Key, b: Tree, d: nat, lo: Option<Key>, hi: Option<Key>, fromRight: bool)
    requires a.Branch? && b.Branch? && Even(a) && Even(b) && Forest([sep], [a, b], d, lo, hi)
    requires if fromRight then |a.keys| < MAX_KEYS && |b.keys| > 1 else |b.keys| < MAX_KEYS && |a.keys| > 1
    ensures var r := BorrowRun(a, sep, b, fromRight);
            && Forest(r.keys, r.trees, d, lo, hi)
            && SameData([a, b], r.trees)
            && SameCells([a, b], r.trees, {}, {})
  {
    hide Less, Rank;
    ForestTwo(a, sep, b, d, lo, hi);
    var r := BorrowRun(a, sep, b, fromRight);
    var up, x, y := r.keys[0], r.trees[0], r.trees[1];
    assert r.trees == [x, y];
    ForestJoin(a.keys, a.children, sep, b.keys, b.children, d - 1, lo, hi);
    assert a.keys + [sep] + b.keys == x.keys + [up] + y.keys;
    assert a.children + b.children == x.children + y.children;
    CutBranches(x, up, y, d, lo, hi);
    LeavesSome(a, d, lo, Some(sep));
    BranchesSameData(a, b, x, y);
    BorrowCells(a, b, x, y);
  }

  lemma BorrowCells(a: Tree, b: Tree, x: Tree, y: Tree)
    requires a.Branch? && b.Branch? && x.Branch? && y.Branch? && x.id == a.id && y.id == b.id
    requires a.children + b.children == x.children + y.children
    ensures SameCells([a, b], [x, y], {}, {})
  {
    IdsConcat(a.children, b.children);
    IdsConcat(x.children, y.children);
    IdsTwo(a, b);
    IdsTwo(x, y);
  }

  // ---------------------------------------------------------------------
  // Merge
  // ---------------------------------------------------------------------

  /** `b` folds into `a`; the separator between two internal nodes comes down. */
  ghost function MergeRun(a: Tree, sep: Key, b: Tree): Run
    requires a.Tip? <==> b.Tip?
  {
    if a.Tip? then
      Run([], [Tip(a.id, a.keys + b.keys, a.vals + b.vals, b.next)])
    else
      Run([], [Branch(a.id, a.keys + [sep] + b.keys, a.children + b.children)])
  }

  lemma MergeTips(a: Tree, sep: Key, b: Tree, lo: Option<Key>, hi: Option<Key>)
    requires a.Tip? && b.Tip? && Forest([sep], [a, b], 0, lo, hi)
    requires |a.keys| + |b.keys| <= MAX_KEYS
    ensures var r := MergeRun(a, sep, b);
            && Forest(r.keys, r.trees, 0, lo, hi)
            && SameData([a, b], r.trees)
            && (DistinctOf([a, b]) ==> SameCells([a, b], r.trees, {}, {b.id}))
  {
    hide Less, Rank;
    ForestTwo(a, sep, b, 0, lo, hi);
    var x := MergeRun(a, sep, b).trees[0];
    KeysJoin(a.keys, sep, b.keys, lo, hi);
    ForestOne(x, 0, lo, hi);
    MergeTipsData(a, sep, b);
  }

  lemma MergeTipsData(a: Tree, sep: Key, b: Tree)
    requires a.Tip? && b.Tip? && Even(a) && Even(b)
    ensures var r := MergeRun(a, sep, b);
            && SameData([a, b], r.trees)
            && (DistinctOf([a, b]) ==> SameCells([a, b], r.trees, {}, {b.id}))
  {
    var x := MergeRun(a, sep, b).trees[0];
    LeavesTwo(a, b);
    LeavesOne(x);
    FlatTwo(a, b);
    FlatOne(x);
    EntriesZip(a, b);
    IdsTwo(a, b);
    IdsOne(x);
  }

  lemma MergeBranches(a: Tree, sep: Key, b: Tree, d: nat, lo: Option<Key>, hi: Option<Key>)
    requires a.Branch? && b.Branch? && Forest([sep], [a, b], d, lo, hi)
    requires |a.keys| + 1 + |b.keys| <= MAX_KEYS
    ensures var r := MergeRun(a, sep, b);
            && Forest(r.keys, r.trees, d, lo, hi)
            && SameData([a, b], r.trees)
            && (DistinctOf([a, b]) ==> SameCells([a, b], r.trees, {}, {b.id}))
            && (Filled(a) && Filled(b) ==> Filled(r.trees[0]))
  {
    hide Less, Rank;
    ForestTwo(a, sep, b, d, lo, hi);
    var x := MergeRun(a, sep, b).trees[0];
    ForestJoin(a.keys, a.children, sep, b.keys, b.children, d - 1, lo, hi);
    ForestOne(x, d, lo, hi);
    LeavesSome(a, d, lo, Some(sep));
    LeavesTwo(a, b);
    LeavesOne(x);
    LeavesConcat(a.children, b.children);
    FilledConcat(a.children, b.children);
    IdsConcat(a.children, b.children);
    IdsTwo(a, b);
    IdsOne(x);
  }

  // ---------------------------------------------------------------------
  // A move inside its parent
  // ---------------------------------------------------------------------

  /** The parent `p` with its children `i..j` exchanged for the run `r`. */
  ghost function Splice(p: Tree, i: nat, j: nat, r: Run): Tree
    requires p.Branch? && Even(p) && i < j <= |p.children|
  {
    Branch(p.id, p.keys[..i] + r.keys + p.keys[j - 1..], p.children[..i] + r.trees + p.children[j..])
  }

  lemma SpliceData(p: Tree, i: nat, j: nat, r: Run)
    requires p.Branch? && Even(p) && i < j <= |p.children|
    requires SameData(p.children[i..j], r.trees)
    ensures SameData([p], [Splice(p, i, j, r)])
  {
    var A, X, B := p.children[..i], p.children[i..j], p.children[j..];
    var s := Splice(p, i, j, r);
    assert p.children == A + X + B;
    LeavesSplice(A, X, B);
    LeavesSplice(A, r.trees, B);
    LeavesOne(p);
    LeavesOne(s);
    FlatSplice(LeavesOf(A), LeavesOf(X), LeavesOf(B));
    FlatSplice(LeavesOf(A), LeavesOf(r.trees), LeavesOf(B));
    RelinkInContext(LeavesOf(A), LeavesOf(X), LeavesOf(r.trees), LeavesOf(B));
  }

  lemma SpliceCells(p: Tree, i: nat, j: nat, r: Run, spare: set<NodeId>, gone: set<NodeId>)
    requires p.Branch? && Even(p) && i < j <= |p.children| && Distinct(p)
    requires SameCells(p.children[i..j], r.trees, spare, gone)
    requires spare !! Ids(p) && gone <= IdsOf(p.children[i..j])
    ensures Distinct(Splice(p, i, j, r)) && Ids(Splice(p, i, j, r)) == Ids(p) + spare - gone
    ensures IdsOf(p.children[i..j]) <= Ids(p) && p.id !in IdsOf(p.children[i..j])
    ensures IdsOf(p.children[..i]) + IdsOf(p.children[j..]) == Ids(p) - {p.id} - IdsOf(p.children[i..j])
  {
    var A, X, B := p.children[..i], p.children[i..j], p.children[j..];
    assert p.children == A + X + B;
    IdsSplice(A, X, B);
    IdsSplice(A, r.trees, B);
  }
}
