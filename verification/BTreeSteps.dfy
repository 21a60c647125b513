/**
 Heap steps. A structural move rewrites the parent cell and the cells of the
 siblings involved and leaves every other cell alone; this is enough for it to be
 a sound local step that keeps all entries.
 */
module BTreeSteps {
  import opened Bytes
  import opened BTreeShape
  import opened BTreeMoves
  import opened BTreePaths
  import opened BTreeHeap

  ghost function Kids(t: Tree): seq<Tree> { if t.Tip? then [] else t.children }

  ghost function KidsOf(ts: seq<Tree>): seq<Tree> {
    if ts == [] then [] else Kids(ts[0]) + KidsOf(ts[1..])
  }

  ghost function Tops(ts: seq<Tree>): set<NodeId> {
    if ts == [] then {} else {ts[0].id} + Tops(ts[1..])
  }

  lemma KidsTwo(a: Tree, b: Tree)
    ensures KidsOf([a]) == Kids(a) && Tops([a]) == {a.id}
    ensures KidsOf([a, b]) == Kids(a) + Kids(b) && Tops([a, b]) == {a.id, b.id}
  {
    assert [a][1..] == [] && [a, b][1..] == [b] && [b][1..] == [];
  }

  /** The cells of a run are its top cells and those of its grandchildren. */
  lemma {:induction false} KidsIds(ts: seq<Tree>)
    ensures IdsOf(ts) == Tops(ts) + IdsOf(KidsOf(ts))
    ensures DistinctOf(ts) ==> Tops(ts) !! IdsOf(KidsOf(ts))
  {
    if ts != [] {
      KidsIds(ts[1..]);
      IdsConcat(Kids(ts[0]), KidsOf(ts[1..]));
      assert Ids(ts[0]) == {ts[0].id} + IdsOf(Kids(ts[0]));
      assert IdsOf(ts[1..]) == Tops(ts[1..]) + IdsOf(KidsOf(ts[1..]));
      assert Distinct(ts[0]) ==> ts[0].id !in IdsOf(Kids(ts[0]));
    }
  }

  lemma {:induction false} KidsRep(h: Heap, ts: seq<Tree>)
    requires RepOf(h, ts)
    ensures RepOf(h, KidsOf(ts))
  {
    if ts != [] {
      assert RepOf(h, ts[1..]);
      KidsRep(h, ts[1..]);
      assert Rep(h, ts[0]);
      assert RepOf(h, Kids(ts[0]));
    }
  }

  lemma {:induction false} RepFromKids(h: Heap, ts: seq<Tree>)
    requires RepOf(h, KidsOf(ts))
    requires forall i :: 0 <= i < |ts| ==> Holds(h, ts[i])
    ensures RepOf(h, ts)
  {
    if ts != [] {
      var k, rest := Kids(ts[0]), KidsOf(ts[1..]);
      assert KidsOf(ts) == k + rest;
      assert forall i :: 0 <= i < |k| ==> k[i] == KidsOf(ts)[i];
      assert forall i :: 0 <= i < |rest| ==> rest[i] == KidsOf(ts)[|k| + i];
      RepFromKids(h, ts[1..]);
      assert forall i :: 0 < i < |ts| ==> ts[i] == ts[1..][i - 1];
    }
  }

  /** Rewriting the top cells of a run, and no others, stores the new run. */
  lemma RunRep(h: Heap, h': Heap, xs: seq<Tree>, ys: seq<Tree>)
    requires RepOf(h, xs) && DistinctOf(xs) && KidsOf(xs) == KidsOf(ys)
    requires Agree(h, h', IdsOf(xs) - Tops(xs))
    requires forall i :: 0 <= i < |ys| ==> Holds(h', ys[i])
    ensures RepOf(h', ys)
  {
    KidsIds(xs);
    KidsRep(h, xs);
    RepFrameOf(h, h', KidsOf(xs));
    RepFromKids(h', ys);
  }

  /** The new parent is stored. */
  lemma SpliceRep(h: Heap, h': Heap, p: Tree, i: nat, j: nat, r: Run)
    requires p.Branch? && Even(p) && i < j <= |p.children| && Rep(h, p) && Distinct(p)
    requires KidsOf(p.children[i..j]) == KidsOf(r.trees)
    requires Agree(h, h', Ids(p) - {p.id} - Tops(p.children[i..j]))
    requires Holds(h', Splice(p, i, j, r)) && forall k :: 0 <= k < |r.trees| ==> Holds(h', r.trees[k])
    ensures Rep(h', Splice(p, i, j, r))
  {
    hide Holds, Ids, IdsOf, KidsOf, Tops, BodyOf, Distinct, DistinctOf;
    SpliceFrame(h, h', p, i, j);
    var A, X, B := p.children[..i], p.children[i..j], p.children[j..];
    RunRep(h, h', X, r.trees);
    hide Agree;
    var s := Splice(p, i, j, r);
    forall k | 0 <= k < |s.children|
      ensures Rep(h', s.children[k])
    {
      if k < i {
        assert s.children[k] == A[k];
      } else if k < i + |r.trees| {
        assert s.children[k] == r.trees[k - i];
      } else {
        assert s.children[k] == B[k - i - |r.trees|];
      }
    }
  }

  lemma SpliceFrame(h: Heap, h': Heap, p: Tree, i: nat, j: nat)
    requires p.Branch? && Even(p) && i < j <= |p.children| && Rep(h, p) && Distinct(p)
    requires Agree(h, h', Ids(p) - {p.id} - Tops(p.children[i..j]))
    ensures RepOf(h', p.children[..i]) && RepOf(h', p.children[j..])
    ensures RepOf(h, p.children[i..j]) && DistinctOf(p.children[i..j])
    ensures Agree(h, h', IdsOf(p.children[i..j]) - Tops(p.children[i..j]))
  {
    var A, X, B := p.children[..i], p.children[i..j], p.children[j..];
    assert p.children == A + X + B;
    IdsSplice(A, X, B);
    KidsIds(X);
    assert RepOf(h, p.children);
    hide Rep, Ids, IdsOf, KidsOf, Tops, Distinct, DistinctOf;
    RepFrameOf(h, h', A);
    RepFrameOf(h, h', B);
  }

  /** The heap change of a move at the parent `n` steps down the path of `key`. */
  ghost predicate Moves(h: Heap, h': Heap, t: Tree, key: Key, n: nat, i: nat, j: nat, r: Run,
                        spare: set<NodeId>, gone: set<NodeId>)
  {
    var p := At(t, key, n);
    && p.Branch? && Even(p) && i < j <= |p.children|
    && KidsOf(p.children[i..j]) == KidsOf(r.trees)
    && Agree(h, h', Ids(t) - {p.id} - Tops(p.children[i..j]))
    && Holds(h', Splice(p, i, j, r)) && (forall k :: 0 <= k < |r.trees| ==> Holds(h', r.trees[k]))
    && h'.Keys == Ids(t) + spare - gone
  }

  /** The order side of a move: bounds, entries and chain of the new parent. */
  lemma RunOrder(t: Tree, key: Key, n: nat, d: nat, i: nat, j: nat, r: Run)
    requires Wf(t, d, None, None) && n < d
    requires var p := At(t, key, n);
             && p.Branch? && Even(p) && i < j <= |p.children|
             && Forest(r.keys, r.trees, d - n - 1,
                       Lo(LoAt(t, key, n, None), p.keys, i), Hi(p.keys, HiAt(t, key, n, None), j - 1))
             && |Splice(p, i, j, r).keys| <= MAX_KEYS
             && SameData(p.children[i..j], r.trees)
    ensures var p := At(t, key, n);
            var s := Splice(p, i, j, r);
            && Wf(s, d - n, LoAt(t, key, n, None), HiAt(t, key, n, None))
            && Relinks(Leaves(p), Leaves(s)) && Flat(Leaves(s)) == Flat(Leaves(p))
  {
    hide Less, Rank, First;
    var p, lo, hi := At(t, key, n), LoAt(t, key, n, None), HiAt(t, key, n, None);
    PathWf(t, key, n, d, None, None);
    ForestSplice(p.keys, p.children, d - n - 1, lo, hi, i, j, r.keys, r.trees);
    SpliceData(p, i, j, r);
    LeavesOne(p);
    LeavesOne(Splice(p, i, j, r));
  }

  /** The cell side of a move. */
  lemma RunCells(h: Heap, h': Heap, t: Tree, key: Key, n: nat, i: nat, j: nat, r: Run,
                 spare: set<NodeId>, gone: set<NodeId>)
    requires Rep(h, t) && Distinct(t)
    requires Moves(h, h', t, key, n, i, j, r, spare, gone)
    requires SameCells(At(t, key, n).children[i..j], r.trees, spare, gone)
    requires spare !! Ids(t) && gone <= IdsOf(At(t, key, n).children[i..j])
    ensures var p := At(t, key, n);
            var s := Splice(p, i, j, r);
            && Distinct(s) && Ids(s) !! (Ids(t) - Ids(p))
            && Rep(h', s) && Agree(h, h', Ids(t) - Ids(p))
            && h'.Keys == Ids(t) - Ids(p) + Ids(s)
  {
    hide Less, Rank, First;
    var p := At(t, key, n);
    PathIds(t, key, n);
    RepAt(h, t, key, n);
    SpliceCells(p, i, j, r, spare, gone);
    KidsIds(p.children[i..j]);
    SpliceRep(h, h', p, i, j, r);
    assert gone <= Ids(p);
    assert Ids(t) + spare - gone == Ids(t) - Ids(p) + (Ids(p) + spare - gone);
  }

  /** Every move is a sound local step and keeps the entries. */
  lemma RunStep(h: Heap, h': Heap, t: Tree, key: Key, n: nat, d: nat, i: nat, j: nat, r: Run,
                spare: set<NodeId>, gone: set<NodeId>)
    requires Stored(h, t, d) && n < d
    requires Moves(h, h', t, key, n, i, j, r, spare, gone)
    requires var p := At(t, key, n);
             && Forest(r.keys, r.trees, d - n - 1,
                       Lo(LoAt(t, key, n, None), p.keys, i), Hi(p.keys, HiAt(t, key, n, None), j - 1))
             && |Splice(p, i, j, r).keys| <= MAX_KEYS
             && SameData(p.children[i..j], r.trees)
             && SameCells(p.children[i..j], r.trees, spare, gone)
             && spare !! Ids(t) && gone <= IdsOf(p.children[i..j])
    ensures LocalStep(h, h', t, key, n, Splice(At(t, key, n), i, j, r), d)
    ensures Flat(Leaves(Splice(At(t, key, n), i, j, r))) == Flat(Leaves(At(t, key, n)))
  {
    hide Less, Rank, First, Wf, Forest, SameData, SameCells;
    RunOrder(t, key, n, d, i, j, r);
    RunCells(h, h', t, key, n, i, j, r, spare, gone);
  }

  // ---------------------------------------------------------------------
  // Splitting the child on the path
  // ---------------------------------------------------------------------

  /** The heap after the child on the path of `key` below the node at depth `n` was split. */
  ghost function SplitHeap(h: Heap, p: Tree, i: nat, spare: NodeId): Heap
    requires p.Branch? && Even(p) && i < |p.children| && |p.children[i].keys| >= 2 && Even(p.children[i])
  {
    var r := SplitRun(p.children[i], spare);
    h[spare := BodyOf(r.trees[1])][p.children[i].id := BodyOf(r.trees[0])][p.id := BodyOf(Splice(p, i, i + 1, r))]
  }

  ghost predicate SplitPre(h: Heap, t: Tree, key: Key, n: nat, d: nat, spare: NodeId) {
    var p := At(t, key, n);
    && Stored(h, t, d) && n < d && spare !in Ids(t)
    && Goes(p, key) && Even(p) && |p.keys| < MAX_KEYS
    && Even(Child(p, key)) && |Child(p, key).keys| == MAX_KEYS
  }

  lemma SplitStep(h: Heap, t: Tree, key: Key, n: nat, d: nat, spare: NodeId)
    requires SplitPre(h, t, key, n, d, spare)
    ensures var p := At(t, key, n);
            var i := First(p.keys, key);
            var s := Splice(p, i, i + 1, SplitRun(p.children[i], spare));
            && LocalStep(h, SplitHeap(h, p, i, spare), t, key, n, s, d)
            && Flat(Leaves(s)) == Flat(Leaves(p))
  {
    hide Less, Rank, First, At, LoAt, HiAt, Wf, Forest, Rep, RepOf, Distinct, DistinctOf, Ids, IdsOf,
      Chained, Linked, Relinks, Leaves, LeavesOf, Flat, LocalStep, Moves, SplitHeap, SplitRun, BodyOf;
    var p := At(t, key, n);
    var i := First(p.keys, key);
    var c, r := p.children[i], SplitRun(p.children[i], spare);
    PathWf(t, key, n, d, None, None);
    var lo, hi := LoAt(t, key, n, None), HiAt(t, key, n, None);
    StepDown(p, key, d - n, lo, hi);
    SplitMoves(h, t, key, n, d, spare);
    assert p.children[i..i + 1] == [c];
    SplitSafe(c, spare, d - n - 1, Lo(lo, p.keys, i), Hi(p.keys, hi, i));
    RunStep(h, SplitHeap(h, p, i, spare), t, key, n, d, i, i + 1, r, {spare}, {});
  }

  /** The new parent: one more separator, exactly at the split child, and no emptier. */
  lemma SplitShape(t: Tree, key: Key, n: nat, d: nat, spare: NodeId)
    requires Wf(t, d, None, None) && n < d
    requires var p := At(t, key, n);
             Goes(p, key) && Even(p) && Even(Child(p, key)) && |Child(p, key).keys| == MAX_KEYS
    ensures var p := At(t, key, n);
            var i := First(p.keys, key);
            var r := SplitRun(p.children[i], spare);
            var s := Splice(p, i, i + 1, r);
            && (Filled(p) ==> Filled(s))
            && First(p.keys, r.keys[0]) == i
            && |s.keys| == |p.keys| + 1
  {
    var p := At(t, key, n);
    var i := First(p.keys, key);
    var c := p.children[i];
    PathWf(t, key, n, d, None, None);
    var lo, hi := LoAt(t, key, n, None), HiAt(t, key, n, None);
    StepDown(p, key, d - n, lo, hi);
    SortedKeys(p, d - n, lo, hi);
    var r := SplitRun(c, spare);
    SplitSafe(c, spare, d - n - 1, Lo(lo, p.keys, i), Hi(p.keys, hi, i));
    hide Less, First, Rank, Wf, Forest, SameData, SameCells, At, Filled, FilledOf;
    SplitFilled(p, i, r);
    SeparatorPlace(p.keys, key, r.keys[0]);
  }

  lemma SortedKeys(p: Tree, d: nat, lo: Option<Key>, hi: Option<Key>)
    requires Wf(p, d, lo, hi)
    ensures Sorted(p.keys)
  {
  }

  lemma SplitSafe(c: Tree, spare: NodeId, d: nat, lo: Option<Key>, hi: Option<Key>)
    requires Wf(c, d, lo, hi) && Even(c) && |c.keys| == MAX_KEYS
    ensures var r := SplitRun(c, spare);
            && Forest(r.keys, r.trees, d, lo, hi) && SameData([c], r.trees) && SameCells([c], r.trees, {spare}, {})
            && (Filled(c) ==> FilledOf(r.trees))
            && |r.keys| == 1 && Above(lo, r.keys[0]) && Below(r.keys[0], hi)
  {
    if c.Tip? {
      SplitTip(c, spare, lo, hi);
    } else {
      SplitBranch(c, spare, d, lo, hi);
    }
  }

  lemma SplitMoves(h: Heap, t: Tree, key: Key, n: nat, d: nat, spare: NodeId)
    requires SplitPre(h, t, key, n, d, spare)
    ensures var p := At(t, key, n);
            var i := First(p.keys, key);
            Moves(h, SplitHeap(h, p, i, spare), t, key, n, i, i + 1, SplitRun(p.children[i], spare), {spare}, {})
  {
    hide Less, Rank, First, Wf, Forest, Chained, At, Rep, LeavesOf, Leaves, BodyOf, SplitHeap, Holds, Agree;
    var p := At(t, key, n);
    var i := First(p.keys, key);
    var c := p.children[i];
    var r := SplitRun(c, spare);
    PathIds(t, key, n);
    IdsMember(p.children, i);
    assert c.id in Ids(c) && p.id in Ids(p) && c.id != p.id;
    assert p.children[i..i + 1] == [c];
    SplitKids(c, spare);
    SplitCells(h, p, i, spare);
    hide Ids, IdsOf, Distinct, DistinctOf, SplitRun, KidsOf, Tops;
    assert Ids(t) + {spare} - {} == Ids(t) + {spare};
  }

  lemma SplitKids(c: Tree, spare: NodeId)
    requires |c.keys| >= 2 && Even(c)
    ensures KidsOf([c]) == KidsOf(SplitRun(c, spare).trees) && Tops([c]) == {c.id}
  {
    var r := SplitRun(c, spare);
    KidsTwo(c, c);
    KidsTwo(r.trees[0], r.trees[1]);
    assert r.trees == [r.trees[0], r.trees[1]];
    assert Kids(r.trees[0]) + Kids(r.trees[1]) == Kids(c);
  }

  lemma SplitCells(h: Heap, p: Tree, i: nat, spare: NodeId)
    requires p.Branch? && Even(p) && i < |p.children| && |p.children[i].keys| >= 2 && Even(p.children[i])
    requires p.id in h && p.children[i].id in h && p.id != p.children[i].id && spare !in h
    ensures var r, h' := SplitRun(p.children[i], spare), SplitHeap(h, p, i, spare);
            && h'.Keys == h.Keys + {spare}
            && Holds(h', Splice(p, i, i + 1, r)) && Holds(h', r.trees[0]) && Holds(h', r.trees[1])
            && Agree(h, h', h.Keys - {p.id} - {p.children[i].id})
  {
    hide BodyOf;
  }

  lemma SplitFilled(p: Tree, i: nat, r: Run)
    requires p.Branch? && Even(p) && i < |p.children|
    requires Filled(p.children[i]) ==> FilledOf(r.trees)
    ensures Filled(p) ==> Filled(Splice(p, i, i + 1, r))
  {
    if Filled(p) {
      var A, c, B := p.children[..i], p.children[i], p.children[i + 1..];
      assert p.children == A + [c] + B;
      FilledConcat(A + [c], B);
      FilledConcat(A, [c]);
      FilledConcat(A + r.trees, B);
      FilledConcat(A, r.trees);
    }
  }

  /** The new separator goes exactly where the split child was. */
  lemma SeparatorPlace(keys: seq<Key>, key: Key, sep: Key)
    requires var i := First(keys, key);
             && (i > 0 ==> Less(keys[i - 1], sep)) && (i < |keys| ==> Less(sep, keys[i]))
             && Sorted(keys)
    ensures First(keys, sep) == First(keys, key)
  {
    var i := First(keys, key);
    OrderLaws();
    assert i > 0 ==> forall j: nat :: j < i - 1 ==> Less(keys[j], keys[i - 1]);
    FirstIsUnique(keys, sep, i);
  }

  // ---------------------------------------------------------------------
  // Curing an underfull child: borrow or merge
  // ---------------------------------------------------------------------

  /** All children of `p` are at least half full, except that child `c` lacks one. */
  ghost predicate Lacking(p: Tree, c: nat)
    requires p.Branch? && c < |p.children|
  {
    && Filled(p.children[c]) && Count(p.children[c]) == MIN_KEYS - 1
    && forall k :: 0 <= k < |p.children| && k != c ==> Count(p.children[k]) >= MIN_KEYS && Filled(p.children[k])
  }

  /** Children `i` and `i + 1` of the node at depth `n`, one of which (`c`) lacks an entry. */
  ghost predicate PairPre(h: Heap, t: Tree, key: Key, n: nat, d: nat, i: nat, c: nat) {
    var p := At(t, key, n);
    && Stored(h, t, d) && n < d
    && p.Branch? && Even(p) && i + 1 < |p.children| && (c == i || c == i + 1)
    && Lacking(p, c)
  }

  /** What the moves need to know about the cells of the pair and its parent. */
  ghost predicate PairCells(t: Tree, p: Tree, i: nat)
    requires p.Branch? && i + 1 < |p.children|
  {
    var a, b := p.children[i], p.children[i + 1];
    && p.children[i..i + 2] == [a, b]
    && DistinctOf([a, b]) && a.id != b.id && a.id != p.id && b.id != p.id
    && {a.id, b.id, p.id} <= Ids(t) && b.id in IdsOf([a, b])
  }

  lemma PairIds(t: Tree, key: Key, n: nat, i: nat)
    requires Distinct(t) && At(t, key, n).Branch? && i + 1 < |At(t, key, n).children|
    ensures PairCells(t, At(t, key, n), i)
  {
    hide Less, Rank, First;
    PathIds(t, key, n);
    var p := At(t, key, n);
    var a, b := p.children[i], p.children[i + 1];
    assert p.children[i..i + 2] == [a, b];
    assert p.children == p.children[..i] + [a, b] + p.children[i + 2..];
    IdsSplice(p.children[..i], [a, b], p.children[i + 2..]);
    IdsTwo(a, b);
    assert a.id in Ids(a) && b.id in Ids(b) && p.id in Ids(p);
  }

  lemma PairFacts(t: Tree, key: Key, n: nat, d: nat, i: nat)
    requires Wf(t, d, None, None) && n < d && At(t, key, n).Branch? && i + 1 < |At(t, key, n).children| && Even(At(t, key, n))
    ensures var p := At(t, key, n);
            var a, b := p.children[i], p.children[i + 1];
            && (a.Tip? <==> b.Tip?) && Even(a) && Even(b)
            && |p.keys| <= MAX_KEYS && |a.keys| <= MAX_KEYS && |b.keys| <= MAX_KEYS
            && Forest([p.keys[i]], [a, b], d - n - 1, Lo(LoAt(t, key, n, None), p.keys, i), Hi(p.keys, HiAt(t, key, n, None), i + 1))
  {
    var p, lo, hi := At(t, key, n), LoAt(t, key, n, None), HiAt(t, key, n, None);
    PathWf(t, key, n, d, None, None);
    hide Less, Rank, First;
    ForestSlice(p.keys, p.children, d - n - 1, lo, hi, i, i + 2);
    var a, b := p.children[i], p.children[i + 1];
    assert p.children[i..i + 2] == [a, b] && p.keys[i..i + 1] == [p.keys[i]];
    WfShape(a, d - n - 1, Lo(lo, p.keys, i), Hi(p.keys, hi, i));
    WfShape(b, d - n - 1, Lo(lo, p.keys, i + 1), Hi(p.keys, hi, i + 1));
  }

  ghost function BorrowHeap(h: Heap, p: Tree, i: nat, r: Run): Heap
    requires p.Branch? && Even(p) && i + 1 < |p.children| && |r.trees| == 2
  {
    h[p.children[i].id := BodyOf(r.trees[0])][p.children[i + 1].id := BodyOf(r.trees[1])]
     [p.id := BodyOf(Splice(p, i, i + 2, r))]
  }

  ghost predicate BorrowPre(h: Heap, t: Tree, key: Key, n: nat, d: nat, i: nat, fromRight: bool) {
    var p := At(t, key, n);
    && PairPre(h, t, key, n, d, i, if fromRight then i else i + 1)
    && Count(p.children[if fromRight then i + 1 else i]) > MIN_KEYS
    && (p.children[i].Tip? <==> p.children[i + 1].Tip?) && Even(p.children[i]) && Even(p.children[i + 1])
  }

  lemma BorrowStep(h: Heap, t: Tree, key: Key, n: nat, d: nat, i: nat, fromRight: bool)
    requires BorrowPre(h, t, key, n, d, i, fromRight)
    ensures var p := At(t, key, n);
            var r := BorrowRun(p.children[i], p.keys[i], p.children[i + 1], fromRight);
            var s := Splice(p, i, i + 2, r);
            && LocalStep(h, BorrowHeap(h, p, i, r), t, key, n, s, d)
            && Flat(Leaves(s)) == Flat(Leaves(p))
            && Filled(s) && Count(s) == Count(p)
  {
    hide Less, Rank, First, At, LoAt, HiAt, Lo, Hi, Wf, Forest, Rep, RepOf, Distinct, DistinctOf, Ids, IdsOf,
      Chained, Linked, Relinks, Leaves, LeavesOf, Flat, LocalStep, Moves, BodyOf, SameData, SameCells, Filled, FilledOf, BorrowHeap, BorrowRun;
    var p := At(t, key, n);
    PairFacts(t, key, n, d, i);
    PairIds(t, key, n, i);
    var a, b, sep := p.children[i], p.children[i + 1], p.keys[i];
    var r := BorrowRun(a, sep, b, fromRight);
    var lo, hi := Lo(LoAt(t, key, n, None), p.keys, i), Hi(p.keys, HiAt(t, key, n, None), i + 1);
    if a.Tip? {
      WfDepth(t, key, n, d, i);
      BorrowTips(a, sep, b, lo, hi, fromRight);
    } else {
      BorrowBranches(a, sep, b, d - n - 1, lo, hi, fromRight);
    }
    BorrowKids(a, sep, b, fromRight);
    PairMoves(h, t, key, n, i, r);
    BorrowFilled(p, i, fromRight);
    RunStep(h, BorrowHeap(h, p, i, r), t, key, n, d, i, i + 2, r, {}, {});
  }

  lemma WfDepth(t: Tree, key: Key, n: nat, d: nat, i: nat)
    requires Wf(t, d, None, None) && n < d && At(t, key, n).Branch? && i < |At(t, key, n).children|
    ensures At(t, key, n).children[i].Tip? <==> n + 1 == d
  {
    PathWf(t, key, n, d, None, None);
    var p, lo, hi := At(t, key, n), LoAt(t, key, n, None), HiAt(t, key, n, None);
    WfShape(p, d - n, lo, hi);
    WfShape(p.children[i], d - n - 1, Lo(lo, p.keys, i), Hi(p.keys, hi, i));
  }

  lemma BorrowKids(a: Tree, sep: Key, b: Tree, fromRight: bool)
    requires (a.Tip? <==> b.Tip?) && Even(a) && Even(b) && if fromRight then |b.keys| > 1 else |a.keys| > 1
    ensures var r := BorrowRun(a, sep, b, fromRight);
            && |r.trees| == 2 && r.trees[0].id == a.id && r.trees[1].id == b.id
            && Kids(r.trees[0]) + Kids(r.trees[1]) == Kids(a) + Kids(b) && |r.keys| == 1
  {
  }

  lemma PairMoves(h: Heap, t: Tree, key: Key, n: nat, i: nat, r: Run)
    requires h.Keys == Ids(t) && At(t, key, n).Branch? && Even(At(t, key, n)) && i + 1 < |At(t, key, n).children|
    requires PairCells(t, At(t, key, n), i) && |r.trees| == 2
    requires var p := At(t, key, n);
             var a, b := p.children[i], p.children[i + 1];
             && r.trees[0].id == a.id && r.trees[1].id == b.id
             && Kids(r.trees[0]) + Kids(r.trees[1]) == Kids(a) + Kids(b)
    ensures Moves(h, BorrowHeap(h, At(t, key, n), i, r), t, key, n, i, i + 2, r, {}, {})
  {
    var p := At(t, key, n);
    PairHeap(h, p, i, r);
    PairKids(p, i, r);
    hide Less, First, DistinctOf, IdsOf, Ids, At, BodyOf, Holds, Agree, BorrowHeap, KidsOf, Tops, Kids, Splice;
  }

  lemma PairKids(p: Tree, i: nat, r: Run)
    requires p.Branch? && i + 1 < |p.children| && |r.trees| == 2
    requires Kids(r.trees[0]) + Kids(r.trees[1]) == Kids(p.children[i]) + Kids(p.children[i + 1])
    ensures KidsOf(p.children[i..i + 2]) == KidsOf(r.trees)
    ensures Tops(p.children[i..i + 2]) == {p.children[i].id, p.children[i + 1].id}
  {
    var a, b := p.children[i], p.children[i + 1];
    assert p.children[i..i + 2] == [a, b];
    KidsTwo(a, b);
    KidsTwo(r.trees[0], r.trees[1]);
    assert r.trees == [r.trees[0], r.trees[1]];
  }

  lemma PairHeap(h: Heap, p: Tree, i: nat, r: Run)
    requires p.Branch? && Even(p) && i + 1 < |p.children| && |r.trees| == 2
    requires var a, b := p.children[i], p.children[i + 1];
             && r.trees[0].id == a.id && r.trees[1].id == b.id
             && a.id != b.id && a.id != p.id && b.id != p.id && {a.id, b.id, p.id} <= h.Keys
    ensures var h' := BorrowHeap(h, p, i, r);
            && h'.Keys == h.Keys
            && Holds(h', Splice(p, i, i + 2, r)) && Holds(h', r.trees[0]) && Holds(h', r.trees[1])
            && Agree(h, h', h.Keys - {p.id} - {p.children[i].id, p.children[i + 1].id})
  {
    hide BodyOf;
  }

  lemma BorrowFilled(p: Tree, i: nat, fromRight: bool)
    requires p.Branch? && Even(p) && i + 1 < |p.children| && Lacking(p, if fromRight then i else i + 1)
    requires Count(p.children[if fromRight then i + 1 else i]) > MIN_KEYS
    requires (p.children[i].Tip? <==> p.children[i + 1].Tip?) && Even(p.children[i]) && Even(p.children[i + 1])
    ensures var r := BorrowRun(p.children[i], p.keys[i], p.children[i + 1], fromRight);
            Filled(Splice(p, i, i + 2, r)) && Count(Splice(p, i, i + 2, r)) == Count(p)
  {
    var a, b := p.children[i], p.children[i + 1];
    var r := BorrowRun(a, p.keys[i], b, fromRight);
    var x, y := r.trees[0], r.trees[1];
    if a.Branch? {
      assert x.children + y.children == a.children + b.children;
      FilledConcat(x.children, y.children);
      FilledConcat(a.children, b.children);
    }
    assert Count(x) >= MIN_KEYS && Count(y) >= MIN_KEYS && Filled(x) && Filled(y);
    SpliceFilled(p, i, r);
  }

  lemma SpliceFilled(p: Tree, i: nat, r: Run)
    requires p.Branch? && Even(p) && i + 1 < |p.children| && FilledOf(r.trees)
    requires forall k :: 0 <= k < |p.children| && k != i && k != i + 1 ==> Count(p.children[k]) >= MIN_KEYS && Filled(p.children[k])
    ensures Filled(Splice(p, i, i + 2, r))
  {
    var A, B := p.children[..i], p.children[i + 2..];
    assert FilledOf(A) by {
      assert forall k :: 0 <= k < |A| ==> A[k] == p.children[k];
    }
    assert FilledOf(B) by {
      assert forall k :: 0 <= k < |B| ==> B[k] == p.children[i + 2 + k];
    }
    FilledConcat(A + r.trees, B);
    FilledConcat(A, r.trees);
  }

  ghost function MergeHeap(h: Heap, p: Tree, i: nat, r: Run): Heap
    requires p.Branch? && Even(p) && i + 1 < |p.children| && |r.trees| == 1
  {
    h[p.children[i].id := BodyOf(r.trees[0])][p.id := BodyOf(Splice(p, i, i + 2, r))] - {p.children[i + 1].id}
  }

  ghost predicate MergePre(h: Heap, t: Tree, key: Key, n: nat, d: nat, i: nat, c: nat) {
    var p := At(t, key, n);
    && PairPre(h, t, key, n, d, i, c)
    && Count(p.children[i]) <= MIN_KEYS && Count(p.children[i + 1]) <= MIN_KEYS
    && (p.children[i].Tip? <==> p.children[i + 1].Tip?)
  }

  lemma MergeStep(h: Heap, t: Tree, key: Key, n: nat, d: nat, i: nat, c: nat)
    requires MergePre(h, t, key, n, d, i, c)
    ensures var p := At(t, key, n);
            var r := MergeRun(p.children[i], p.keys[i], p.children[i + 1]);
            var s := Splice(p, i, i + 2, r);
            && LocalStep(h, MergeHeap(h, p, i, r), t, key, n, s, d)
            && Flat(Leaves(s)) == Flat(Leaves(p))
            && Filled(s) && Count(s) == Count(p) - 1
            && |MergeHeap(h, p, i, r)| == |h| - 1
  {
    hide Less, Rank, First, At, LoAt, HiAt, Lo, Hi, Wf, Forest, Rep, RepOf, Distinct, DistinctOf, Ids, IdsOf,
      Chained, Linked, Relinks, Leaves, LeavesOf, Flat, LocalStep, Moves, BodyOf, SameData, SameCells, Filled, FilledOf, MergeHeap;
    var p := At(t, key, n);
    PairFacts(t, key, n, d, i);
    PairIds(t, key, n, i);
    var a, b, sep := p.children[i], p.children[i + 1], p.keys[i];
    var r := MergeRun(a, sep, b);
    var lo, hi := Lo(LoAt(t, key, n, None), p.keys, i), Hi(p.keys, HiAt(t, key, n, None), i + 1);
    if a.Tip? {
      WfDepth(t, key, n, d, i);
      MergeTips(a, sep, b, lo, hi);
    } else {
      MergeBranches(a, sep, b, d - n - 1, lo, hi);
    }
    MergeMoves(h, t, key, n, i);
    MergeFilled(p, i, c);
    MergeCount(h, p, i, r);
    RunStep(h, MergeHeap(h, p, i, r), t, key, n, d, i, i + 2, r, {}, {b.id});
  }

  lemma MergeCount(h: Heap, p: Tree, i: nat, r: Run)
    requires p.Branch? && Even(p) && i + 1 < |p.children| && |r.trees| == 1
    requires p.children[i].id in h && p.id in h && p.children[i + 1].id in h
    ensures |MergeHeap(h, p, i, r)| == |h| - 1
  {
    assert MergeHeap(h, p, i, r).Keys == h.Keys - {p.children[i + 1].id};
  }

  lemma MergeMoves(h: Heap, t: Tree, key: Key, n: nat, i: nat)
    requires h.Keys == Ids(t) && At(t, key, n).Branch? && Even(At(t, key, n)) && i + 1 < |At(t, key, n).children|
    requires PairCells(t, At(t, key, n), i)
    requires At(t, key, n).children[i].Tip? <==> At(t, key, n).children[i + 1].Tip?
    ensures var p := At(t, key, n);
            var r := MergeRun(p.children[i], p.keys[i], p.children[i + 1]);
            Moves(h, MergeHeap(h, p, i, r), t, key, n, i, i + 2, r, {}, {p.children[i + 1].id})
  {
    hide Less, First, DistinctOf, IdsOf, Ids, At, BodyOf, KidsOf, Tops, Holds, Agree, MergeHeap;
    var p := At(t, key, n);
    MergeKids(p, i);
    MergeCells(h, p, i);
    assert Ids(t) + {} - {p.children[i + 1].id} == Ids(t) - {p.children[i + 1].id};
  }

  lemma MergeKids(p: Tree, i: nat)
    requires p.Branch? && Even(p) && i + 1 < |p.children|
    requires p.children[i].Tip? <==> p.children[i + 1].Tip?
    ensures var r := MergeRun(p.children[i], p.keys[i], p.children[i + 1]);
            && KidsOf(p.children[i..i + 2]) == KidsOf(r.trees)
            && Tops(p.children[i..i + 2]) == {p.children[i].id, p.children[i + 1].id}
  {
    var a, b := p.children[i], p.children[i + 1];
    var x := MergeRun(a, p.keys[i], b).trees[0];
    assert p.children[i..i + 2] == [a, b];
    KidsTwo(a, b);
    KidsTwo(x, x);
    assert Kids(x) == Kids(a) + Kids(b);
  }

  lemma MergeCells(h: Heap, p: Tree, i: nat)
    requires p.Branch? && Even(p) && i + 1 < |p.children|
    requires p.children[i].Tip? <==> p.children[i + 1].Tip?
    requires var a, b := p.children[i], p.children[i + 1];
             a.id != b.id && a.id != p.id && b.id != p.id && {a.id, b.id, p.id} <= h.Keys
    ensures var r := MergeRun(p.children[i], p.keys[i], p.children[i + 1]);
            var h' := MergeHeap(h, p, i, r);
            && h'.Keys == h.Keys - {p.children[i + 1].id}
            && Holds(h', Splice(p, i, i + 2, r)) && Holds(h', r.trees[0])
            && Agree(h, h', h.Keys - {p.id} - {p.children[i].id, p.children[i + 1].id})
  {
    hide BodyOf;
  }

  lemma MergeFilled(p: Tree, i: nat, c: nat)
    requires p.Branch? && Even(p) && i + 1 < |p.children| && (c == i || c == i + 1) && Lacking(p, c)
    requires p.children[i].Tip? <==> p.children[i + 1].Tip?
    ensures var r := MergeRun(p.children[i], p.keys[i], p.children[i + 1]);
            Filled(Splice(p, i, i + 2, r)) && Count(Splice(p, i, i + 2, r)) == Count(p) - 1
  {
    var a, b := p.children[i], p.children[i + 1];
    var r := MergeRun(a, p.keys[i], b);
    var x := r.trees[0];
    if a.Branch? {
      FilledConcat(a.children, b.children);
    }
    assert Count(x) == Count(a) + Count(b) && Filled(x);
    SpliceFilled(p, i, r);
  }
}
