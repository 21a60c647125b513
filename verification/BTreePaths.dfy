/**
 Root-to-leaf paths. Every writer changes one subtree at some depth along the
 search path of its key; the lemmas here carry such a local change to the whole
 tree, and say what lies left and right of the path.
 */
module BTreePaths {
  import opened Bytes
  import opened BTreeShape
  import opened BTreeMoves

  // One more step down exists.
  ghost predicate Goes(t: Tree, key: Key) { t.Branch? && First(t.keys, key) < |t.children| }

  ghost function Child(t: Tree, key: Key): Tree
    requires Goes(t, key)
  {
    t.children[First(t.keys, key)]
  }

  /** The subtree `n` steps down the search path of `key`. */
  ghost function At(t: Tree, key: Key, n: nat): Tree
    decreases n
  {
    if n == 0 || !Goes(t, key) then t else At(Child(t, key), key, n - 1)
  }

  /** `t` with that subtree exchanged for `s`. */
  ghost function Replace(t: Tree, key: Key, n: nat, s: Tree): Tree
    decreases n
  {
    if n == 0 || !Goes(t, key) then s
    else t.(children := t.children[First(t.keys, key) := Replace(Child(t, key), key, n - 1, s)])
  }

  // Bounds of the subtree, and the leaves left and right of it.
  ghost function LoAt(t: Tree, key: Key, n: nat, lo: Option<Key>): Option<Key>
    decreases n
  {
    if n == 0 || !Goes(t, key) then lo else LoAt(Child(t, key), key, n - 1, Lo(lo, t.keys, First(t.keys, key)))
  }

  ghost function HiAt(t: Tree, key: Key, n: nat, hi: Option<Key>): Option<Key>
    decreases n
  {
    if n == 0 || !Goes(t, key) then hi else HiAt(Child(t, key), key, n - 1, Hi(t.keys, hi, First(t.keys, key)))
  }

  ghost function Pre(t: Tree, key: Key, n: nat): seq<Tree>
    decreases n
  {
    if n == 0 || !Goes(t, key) then []
    else LeavesOf(t.children[..First(t.keys, key)]) + Pre(Child(t, key), key, n - 1)
  }

  ghost function Post(t: Tree, key: Key, n: nat): seq<Tree>
    decreases n
  {
    if n == 0 || !Goes(t, key) then []
    else Post(Child(t, key), key, n - 1) + LeavesOf(t.children[First(t.keys, key) + 1..])
  }

  // ---------------------------------------------------------------------
  // Bounds along the path
  // ---------------------------------------------------------------------

  /** Routing keeps the key inside the bounds of the chosen child. */
  lemma StepDown(t: Tree, key: Key, d: nat, lo: Option<Key>, hi: Option<Key>)
    requires t.Branch? && Wf(t, d, lo, hi) && Above(lo, key) && AtMost(key, hi)
    ensures Goes(t, key) && d > 0 && Even(t)
    ensures var i := First(t.keys, key);
            && Wf(Child(t, key), d - 1, Lo(lo, t.keys, i), Hi(t.keys, hi, i))
            && Above(Lo(lo, t.keys, i), key) && AtMost(key, Hi(t.keys, hi, i))
  {
  }

  lemma {:induction false} PathWf(t: Tree, key: Key, n: nat, d: nat, lo: Option<Key>, hi: Option<Key>)
    requires n <= d && Wf(t, d, lo, hi) && Above(lo, key) && AtMost(key, hi)
    ensures Wf(At(t, key, n), d - n, LoAt(t, key, n, lo), HiAt(t, key, n, hi))
    ensures Above(LoAt(t, key, n, lo), key) && AtMost(key, HiAt(t, key, n, hi))
    decreases n
  {
    if n > 0 {
      StepDown(t, key, d, lo, hi);
      var i := First(t.keys, key);
      PathWf(Child(t, key), key, n - 1, d - 1, Lo(lo, t.keys, i), Hi(t.keys, hi, i));
    }
  }

  lemma {:induction false} ReplaceWf(t: Tree, key: Key, n: nat, s: Tree, d: nat, lo: Option<Key>, hi: Option<Key>)
    requires n <= d && Wf(t, d, lo, hi) && Above(lo, key) && AtMost(key, hi)
    requires Wf(s, d - n, LoAt(t, key, n, lo), HiAt(t, key, n, hi))
    ensures Wf(Replace(t, key, n, s), d, lo, hi)
    decreases n
  {
    if n > 0 {
      StepDown(t, key, d, lo, hi);
      var i := First(t.keys, key);
      ReplaceWf(Child(t, key), key, n - 1, s, d - 1, Lo(lo, t.keys, i), Hi(t.keys, hi, i));
    }
  }

  /** The path itself is unchanged above the exchanged subtree. */
  lemma {:induction false} ReplaceAt(t: Tree, key: Key, n: nat, s: Tree, d: nat, lo: Option<Key>, hi: Option<Key>)
    requires n <= d && Wf(t, d, lo, hi) && Above(lo, key) && AtMost(key, hi)
    ensures At(Replace(t, key, n, s), key, n) == s
    ensures forall m: nat :: At(Replace(t, key, n, s), key, n + m) == At(s, key, m)
    ensures n > 0 ==> Replace(t, key, n, s).id == t.id && Count(Replace(t, key, n, s)) == Count(t)
    ensures n > 0 ==> Replace(t, key, n, s).Branch? && Replace(t, key, n, s).keys == t.keys
    ensures n == 0 ==> Replace(t, key, n, s) == s && At(t, key, n) == t
    decreases n
  {
    if n > 0 {
      StepDown(t, key, d, lo, hi);
      var i := First(t.keys, key);
      ReplaceAt(Child(t, key), key, n - 1, s, d - 1, Lo(lo, t.keys, i), Hi(t.keys, hi, i));
      var r := Replace(t, key, n, s);
      assert Goes(r, key) && Child(r, key) == Replace(Child(t, key), key, n - 1, s);
      forall m: nat
        ensures At(r, key, n + m) == At(s, key, m)
      {
        assert At(r, key, n + m) == At(Child(r, key), key, n - 1 + m);
      }
    }
  }

  lemma {:induction false} AtSum(t: Tree, key: Key, n: nat, m: nat)
    ensures At(t, key, n + m) == At(At(t, key, n), key, m)
    decreases n
  {
    if n > 0 {
      if Goes(t, key) {
        AtSum(Child(t, key), key, n - 1, m);
      }
    }
  }

  // ---------------------------------------------------------------------
  // Leaves and entries along the path
  // ---------------------------------------------------------------------

  lemma {:induction false} PathLeaves(t: Tree, key: Key, n: nat)
    ensures Leaves(t) == Pre(t, key, n) + Leaves(At(t, key, n)) + Post(t, key, n)
    decreases n
  {
    hide Less, First, LeavesOf;
    if n > 0 && Goes(t, key) {
      var i := First(t.keys, key);
      var c := Child(t, key);
      PathLeaves(c, key, n - 1);
      LeavesUpdate(t.children, i, c);
      assert t.children[i := c] == t.children;
      Regroup(LeavesOf(t.children[..i]), Pre(c, key, n - 1), Leaves(At(c, key, n - 1)), Post(c, key, n - 1),
              LeavesOf(t.children[i + 1..]));
    }
  }

  lemma {:induction false} ReplaceLeaves(t: Tree, key: Key, n: nat, s: Tree)
    ensures Leaves(Replace(t, key, n, s)) == Pre(t, key, n) + Leaves(s) + Post(t, key, n)
    decreases n
  {
    hide Less, First, LeavesOf;
    if n > 0 && Goes(t, key) {
      var i := First(t.keys, key);
      var c := Child(t, key);
      ReplaceLeaves(c, key, n - 1, s);
      LeavesUpdate(t.children, i, Replace(c, key, n - 1, s));
      Regroup(LeavesOf(t.children[..i]), Pre(c, key, n - 1), Leaves(s), Post(c, key, n - 1),
              LeavesOf(t.children[i + 1..]));
    }
  }

  ghost predicate Within(es: seq<Entry>, lo: Option<Key>, hi: Option<Key>) {
    forall i :: 0 <= i < |es| ==> Above(lo, es[i].0) && AtMost(es[i].0, hi)
  }

  ghost predicate Ascending(es: seq<Entry>) {
    forall i, j :: 0 <= i < j < |es| ==> Less(es[i].0, es[j].0)
  }

  lemma EntriesJoin(a: seq<Entry>, sep: Key, b: seq<Entry>, lo: Option<Key>, hi: Option<Key>)
    requires Within(a, lo, Some(sep)) && Within(b, Some(sep), hi)
    requires Ascending(a) && Ascending(b) && Above(lo, sep) && Below(sep, hi)
    ensures Within(a + b, lo, hi) && Ascending(a + b)
  {
    OrderLaws();
    hide Less, Rank;
  }

  /** The entries of a subtree ascend and lie inside its bounds. */
  lemma {:induction false} TreeEntries(t: Tree, d: nat, lo: Option<Key>, hi: Option<Key>)
    requires Wf(t, d, lo, hi)
    ensures Within(Flat(Leaves(t)), lo, hi) && Ascending(Flat(Leaves(t)))
    decreases t, 1
  {
    hide Less, Rank;
    if t.Tip? {
      FlatOne(t);
    } else {
      ForestEntries(t.keys, t.children, d - 1, lo, hi);
    }
  }

  lemma {:induction false} ForestEntries(keys: seq<Key>, ts: seq<Tree>, d: nat, lo: Option<Key>, hi: Option<Key>)
    requires Forest(keys, ts, d, lo, hi)
    ensures Within(Flat(LeavesOf(ts)), lo, hi) && Ascending(Flat(LeavesOf(ts)))
    decreases ts, 0
  {
    hide Less, Rank;
    var t := ts[0];
    TreeEntries(t, d, lo, Hi(keys, hi, 0));
    FlatConcat(Leaves(t), LeavesOf(ts[1..]));
    if |keys| > 0 {
      ForestSlice(keys, ts, d, lo, hi, 1, |ts|);
      assert ts[1..|ts|] == ts[1..] && keys[1..|ts| - 1] == keys[1..];
      ForestEntries(keys[1..], ts[1..], d, Some(keys[0]), hi);
      EntriesJoin(Flat(Leaves(t)), keys[0], Flat(LeavesOf(ts[1..])), lo, hi);
    } else {
      assert ts[1..] == [];
    }
  }

  ghost predicate AllBelow(es: seq<Entry>, key: Key) {
    forall i :: 0 <= i < |es| ==> Less(es[i].0, key)
  }

  ghost predicate AllAbove(es: seq<Entry>, key: Key) {
    forall i :: 0 <= i < |es| ==> Less(key, es[i].0)
  }

  /** Left of the path every key is smaller, right of it every key is larger: a key
      can only live in the subtree its search reaches. */
  lemma {:induction false} PathOrder(t: Tree, key: Key, n: nat, d: nat, lo: Option<Key>, hi: Option<Key>)
    requires n <= d && Wf(t, d, lo, hi) && Above(lo, key) && AtMost(key, hi)
    ensures AllBelow(Flat(Pre(t, key, n)), key) && AllAbove(Flat(Post(t, key, n)), key)
    decreases n
  {
    hide Less, First, Wf, Forest, Flat, LeavesOf, AllBelow, AllAbove;
    if n > 0 {
      WfShape(t, d, lo, hi);
      StepDown(t, key, d, lo, hi);
      var i := First(t.keys, key);
      var c := Child(t, key);
      PathOrder(c, key, n - 1, d - 1, Lo(lo, t.keys, i), Hi(t.keys, hi, i));
      LeftOf(t, key, d, lo, hi);
      RightOf(t, key, d, lo, hi);
      SidesJoin(LeavesOf(t.children[..i]), Pre(c, key, n - 1), key);
      SidesJoin(Post(c, key, n - 1), LeavesOf(t.children[i + 1..]), key);
    } else {
      EmptySides(key);
    }
  }

  lemma EmptySides(key: Key)
    ensures AllBelow(Flat([]), key) && AllAbove(Flat([]), key)
  {
  }

  lemma SidesJoin(a: seq<Tree>, b: seq<Tree>, key: Key)
    ensures AllBelow(Flat(a), key) && AllBelow(Flat(b), key) ==> AllBelow(Flat(a + b), key)
    ensures AllAbove(Flat(a), key) && AllAbove(Flat(b), key) ==> AllAbove(Flat(a + b), key)
  {
    FlatConcat(a, b);
  }

  lemma LeftOf(t: Tree, key: Key, d: nat, lo: Option<Key>, hi: Option<Key>)
    requires t.Branch? && d > 0 && Wf(t, d, lo, hi) && Goes(t, key)
    ensures AllBelow(Flat(LeavesOf(t.children[..First(t.keys, key)])), key)
  {
    OrderLaws();
    var i := First(t.keys, key);
    hide Less, Rank, First;
    if i > 0 {
      ForestSlice(t.keys, t.children, d - 1, lo, hi, 0, i);
      assert t.children[0..i] == t.children[..i];
      ForestEntries(t.keys[0..i - 1], t.children[..i], d - 1, lo, Some(t.keys[i - 1]));
    }
  }

  lemma RightOf(t: Tree, key: Key, d: nat, lo: Option<Key>, hi: Option<Key>)
    requires t.Branch? && d > 0 && Wf(t, d, lo, hi) && Goes(t, key)
    ensures AllAbove(Flat(LeavesOf(t.children[First(t.keys, key) + 1..])), key)
  {
    OrderLaws();
    var i := First(t.keys, key);
    hide Less, Rank, First;
    if i < |t.keys| {
      ForestSlice(t.keys, t.children, d - 1, lo, hi, i + 1, |t.children|);
      assert t.children[i + 1..|t.children|] == t.children[i + 1..];
      ForestEntries(t.keys[i + 1..|t.children| - 1], t.children[i + 1..], d - 1, Some(t.keys[i]), hi);
    }
  }

  // ---------------------------------------------------------------------
  // Cells along the path
  // ---------------------------------------------------------------------

  lemma {:induction false} PathIds(t: Tree, key: Key, n: nat)
    ensures Ids(At(t, key, n)) <= Ids(t)
    ensures Distinct(t) ==> Distinct(At(t, key, n))
    decreases n
  {
    if n > 0 && Goes(t, key) {
      IdsMember(t.children, First(t.keys, key));
      PathIds(Child(t, key), key, n - 1);
    }
  }

  lemma {:induction false} ReplaceIds(t: Tree, key: Key, n: nat, s: Tree)
    requires Distinct(t) && Distinct(s)
    requires Ids(s) !! (Ids(t) - Ids(At(t, key, n)))
    ensures Distinct(Replace(t, key, n, s))
    ensures Ids(Replace(t, key, n, s)) == Ids(t) - Ids(At(t, key, n)) + Ids(s)
    decreases n
  {
    if n > 0 && Goes(t, key) {
      var i := First(t.keys, key);
      var c := Child(t, key);
      PathIds(c, key, n - 1);
      IdsUpdate(t.children, i, c);
      assert t.children[i := c] == t.children;
      ghost var A, B, D := IdsOf(t.children[..i]), IdsOf(t.children[i + 1..]), Ids(At(c, key, n - 1));
      CellSets({t.id}, A, B, Ids(c), D, Ids(s));
      ReplaceIds(c, key, n - 1, s);
      IdsUpdate(t.children, i, Replace(c, key, n - 1, s));
    }
  }

  // The set algebra of exchanging D (inside C) for S.
  lemma CellSets(I: set<NodeId>, A: set<NodeId>, B: set<NodeId>, C: set<NodeId>, D: set<NodeId>, S: set<NodeId>)
    requires I !! A && I !! B && I !! C && A !! B && A !! C && B !! C && D <= C
    requires S !! (I + (A + C + B) - D)
    ensures S !! (C - D)
    ensures I !! (C - D + S) && A !! (C - D + S) && B !! (C - D + S)
    ensures I + (A + (C - D + S) + B) == I + (A + C + B) - D + S
  {
  }

  // ---------------------------------------------------------------------
  // Fill along the path
  // ---------------------------------------------------------------------

  /** Everything outside the subtree `n` steps down is at least half full. */
  ghost predicate Around(t: Tree, key: Key, n: nat)
    decreases n
  {
    n > 0 && Goes(t, key) ==>
      && (forall i :: 0 <= i < |t.children| && i != First(t.keys, key) ==>
            Count(t.children[i]) >= MIN_KEYS && Filled(t.children[i]))
      && (n > 1 ==> Count(Child(t, key)) >= MIN_KEYS)
      && Around(Child(t, key), key, n - 1)
  }

  lemma {:induction false} AroundWhole(t: Tree, key: Key, n: nat, d: nat, lo: Option<Key>, hi: Option<Key>)
    requires n <= d && Wf(t, d, lo, hi) && Above(lo, key) && AtMost(key, hi)
    ensures Filled(t) <==>
            && Around(t, key, n) && Filled(At(t, key, n))
            && (n > 0 ==> Count(At(t, key, n)) >= MIN_KEYS)
    decreases n
  {
    if n > 0 {
      StepDown(t, key, d, lo, hi);
      var i := First(t.keys, key);
      AroundWhole(Child(t, key), key, n - 1, d - 1, Lo(lo, t.keys, i), Hi(t.keys, hi, i));
    }
  }

  lemma {:induction false} AroundReplace(t: Tree, key: Key, n: nat, s: Tree, d: nat, lo: Option<Key>, hi: Option<Key>)
    requires n <= d && Wf(t, d, lo, hi) && Above(lo, key) && AtMost(key, hi)
    requires Around(t, key, n)
    ensures Around(Replace(t, key, n, s), key, n)
    decreases n
  {
    if n > 0 {
      StepDown(t, key, d, lo, hi);
      var i := First(t.keys, key);
      var c := Child(t, key);
      var r := Replace(t, key, n, s);
      AroundReplace(c, key, n - 1, s, d - 1, Lo(lo, t.keys, i), Hi(t.keys, hi, i));
      ReplaceAt(c, key, n - 1, s, d - 1, Lo(lo, t.keys, i), Hi(t.keys, hi, i));
      assert Goes(r, key) && Child(r, key) == Replace(c, key, n - 1, s);
    }
  }

  /** One step further out: what `Around` says of the parent and its other children. */
  lemma {:induction false} AroundParent(t: Tree, key: Key, n: nat, d: nat, lo: Option<Key>, hi: Option<Key>)
    requires n < d && Wf(t, d, lo, hi) && Above(lo, key) && AtMost(key, hi)
    requires Around(t, key, n + 1)
    ensures Around(t, key, n)
    ensures n > 0 ==> Count(At(t, key, n)) >= MIN_KEYS
    ensures var p := At(t, key, n);
            Goes(p, key) && forall i :: 0 <= i < |p.children| && i != First(p.keys, key) ==>
              Count(p.children[i]) >= MIN_KEYS && Filled(p.children[i])
    decreases n
  {
    StepDown(t, key, d, lo, hi);
    if n > 0 {
      var i := First(t.keys, key);
      AroundParent(Child(t, key), key, n - 1, d - 1, Lo(lo, t.keys, i), Hi(t.keys, hi, i));
    }
  }
}
