/**
 Editing the leaf a search ends in, and what that does to the abstract map.
 */
module BTreeEdits {
  import opened Bytes
  import opened BTreeShape
  import opened BTreeMoves
  import opened BTreePaths
  import opened BTreeHeap
  import opened BTreeSteps
  import opened BTreeBodies

  // ---------------------------------------------------------------------
  // The leaf a key belongs to
  // ---------------------------------------------------------------------

  ghost predicate StuckTip(leaf: Tree, key: Key) {
    leaf.Tip? && |leaf.keys| > 0 && leaf.next.Some? && Less(leaf.keys[|leaf.keys| - 1], key)
  }

  /** The search for `key` ends in a leaf whose largest key is smaller although the
      chain goes on: the writers take this for a concurrent split and restart. */
  ghost predicate Stranded(t: Tree, key: Key, d: nat) {
    StuckTip(At(t, key, d), key)
  }

  ghost predicate Deficit(t: Tree, key: Key, m: nat) {
    && Around(t, key, m) && Filled(At(t, key, m))
    && (m > 0 ==> Count(At(t, key, m)) >= MIN_KEYS - 1)
  }

  /** A node on the path, as the heap stores it. */
  lemma Arrive(h: Heap, t: Tree, d: nat, key: Key, n: nat)
    requires Stored(h, t, d) && n <= d
    ensures var p := At(t, key, n);
            && Holds(h, p) && Even(p) && |p.keys| <= MAX_KEYS && Sorted(p.keys)
            && (p.Tip? <==> n == d)
            && (p.Branch? ==>
                  && Goes(p, key) && At(t, key, n + 1) == Child(p, key)
                  && First(p.keys, key) <= |p.children| - 1
                  && forall i :: 0 <= i < |p.children| ==> Holds(h, p.children[i]) && Even(p.children[i]) && |p.children[i].keys| <= MAX_KEYS && (p.children[i].Tip? <==> n + 1 == d))
  {
    var p, lo, hi := At(t, key, n), LoAt(t, key, n, None), HiAt(t, key, n, None);
    PathWf(t, key, n, d, None, None);
    RepAt(h, t, key, n);
    WfShape(p, d - n, lo, hi);
    if p.Branch? {
      StepDown(p, key, d - n, lo, hi);
      AtSum(t, key, n, 1);
      assert At(p, key, 1) == At(Child(p, key), key, 0);
      forall i | 0 <= i < |p.children|
        ensures Holds(h, p.children[i]) && Even(p.children[i]) && |p.children[i].keys| <= MAX_KEYS && (p.children[i].Tip? <==> n + 1 == d)
      {
        assert Rep(h, p.children[i]);
        WfShape(p.children[i], d - n - 1, Lo(lo, p.keys, i), Hi(p.keys, hi, i));
      }
    }
  }

  /** The leaf at the end of the path decides membership. */
  lemma LeafDecides(t: Tree, d: nat, key: Key)
    requires Wf(t, d, None, None)
    ensures var leaf := At(t, key, d);
            var i := First(leaf.keys, key);
            && Even(leaf) && leaf.Tip?
            && (key in MapOf(Flat(Leaves(t))) <==> i < |leaf.keys| && leaf.keys[i] == key)
            && (i < |leaf.keys| && leaf.keys[i] == key ==> MapOf(Flat(Leaves(t)))[key] == leaf.vals[i])
  {
    hide Less, Rank, First, Wf, Forest, At, Pre, Post, Leaves, LeavesOf, MapOf, Flat, Ascending, AllBelow, AllAbove;
    var leaf := At(t, key, d);
    PathWf(t, key, d, d, None, None);
    WfShape(leaf, 0, LoAt(t, key, d, None), HiAt(t, key, d, None));
    PathLeaves(t, key, d);
    PathOrder(t, key, d, d, None, None);
    TreeEntries(t, d, None, None);
    TipLeaves(leaf);
    FlatSplice(Pre(t, key, d), [leaf], Post(t, key, d));
    FlatOne(leaf);
    SortedKeys(leaf, 0, LoAt(t, key, d, None), HiAt(t, key, d, None));
    FindBetween(Flat(Pre(t, key, d)), leaf, Flat(Post(t, key, d)), key);
  }

  lemma TipLeaves(t: Tree)
    requires t.Tip?
    ensures Leaves(t) == [t]
  {
  }

  lemma KeyAbsent(keys: seq<Key>, key: Key, m: nat)
    requires Sorted(keys) && m < |keys| && keys[m] == key
    ensures First(keys, key) == m
  {
    OrderLaws();
    FirstIsUnique(keys, key, m);
  }

  /** In `P`, the entries of a leaf, `Q`, with `P` below and `Q` above `key`. */
  lemma FindBetween(P: seq<Entry>, leaf: Tree, Q: seq<Entry>, key: Key)
    requires leaf.Tip? && Even(leaf) && Sorted(leaf.keys)
    requires Ascending(P + Entries(leaf) + Q) && AllBelow(P, key) && AllAbove(Q, key)
    ensures var i, M := First(leaf.keys, key), MapOf(P + Entries(leaf) + Q);
            && (key in M <==> i < |leaf.keys| && leaf.keys[i] == key)
            && (i < |leaf.keys| && leaf.keys[i] == key ==> M[key] == leaf.vals[i])
  {
    hide Less, Rank, First, MapOf, Entries, Sorted, Ascending;
    var i := First(leaf.keys, key);
    var L := Entries(leaf);
    var all: seq<Entry> := P + L + Q;
    MapOfKeys(all);
    RankOrders(key, key);
    if i < |leaf.keys| && leaf.keys[i] == key {
      assert all[|P| + i] == L[i];
    }
    if key in MapOf(all) {
      var j :| 0 <= j < |all| && all[j].0 == key;
      if j < |P| {
        assert false;
      } else if j < |P| + |L| {
        assert all[j] == L[j - |P|];
        KeyAbsent(leaf.keys, key, j - |P|);
      } else {
        assert false;
      }
    }
  }

  // ---------------------------------------------------------------------
  // Editing a leaf
  // ---------------------------------------------------------------------

  ghost function PutTip(leaf: Tree, key: Key, val: Key): Tree
    requires leaf.Tip? && Even(leaf)
  {
    var i := First(leaf.keys, key);
    if i < |leaf.keys| && leaf.keys[i] == key then leaf.(vals := leaf.vals[i := val])
    else leaf.(keys := InsertAt(leaf.keys, i, key), vals := InsertAt(leaf.vals, i, val))
  }

  ghost function CutTip(leaf: Tree, i: nat): Tree
    requires leaf.Tip? && Even(leaf) && i < |leaf.keys|
  {
    leaf.(keys := RemoveAt(leaf.keys, i), vals := RemoveAt(leaf.vals, i))
  }

  lemma PutTipWf(leaf: Tree, key: Key, val: Key, lo: Option<Key>, hi: Option<Key>)
    requires leaf.Tip? && Wf(leaf, 0, lo, hi) && Above(lo, key) && AtMost(key, hi)
    requires |leaf.keys| < MAX_KEYS || (First(leaf.keys, key) < |leaf.keys| && leaf.keys[First(leaf.keys, key)] == key)
    ensures Wf(PutTip(leaf, key, val), 0, lo, hi)
  {
    var i := First(leaf.keys, key);
    if !(i < |leaf.keys| && leaf.keys[i] == key) {
      KeysInsert(leaf.keys, key, lo, hi);
    }
  }

  lemma KeysInsert(keys: seq<Key>, key: Key, lo: Option<Key>, hi: Option<Key>)
    requires KeysIn(keys, lo, hi) && Above(lo, key) && AtMost(key, hi)
    requires First(keys, key) < |keys| ==> keys[First(keys, key)] != key
    ensures KeysIn(InsertAt(keys, First(keys, key), key), lo, hi)
  {
    OrderLaws();
    var i := First(keys, key);
    hide Less, Rank, First;
    forall j | i <= j < |keys|
      ensures Less(key, keys[j])
    {
      assert !Less(keys[i], key);
      assert j == i || Less(keys[i], keys[j]);
    }
    var K := InsertAt(keys, i, key);
    forall a, b | 0 <= a < b < |K|
      ensures Less(K[a], K[b])
    {
    }
  }

  lemma CutTipWf(leaf: Tree, i: nat, lo: Option<Key>, hi: Option<Key>)
    requires leaf.Tip? && Wf(leaf, 0, lo, hi) && i < |leaf.keys|
    ensures Wf(CutTip(leaf, i), 0, lo, hi)
  {
    hide Less;
  }

  /** Rewriting the leaf cell at the end of the path is a sound local step. */
  lemma TipStep(h: Heap, t: Tree, d: nat, key: Key, s: Tree)
    requires Stored(h, t, d) && At(t, key, d).Tip? && s.Tip?
    requires s.id == At(t, key, d).id && s.next == At(t, key, d).next
    requires Wf(s, 0, LoAt(t, key, d, None), HiAt(t, key, d, None))
    ensures LocalStep(h, h[s.id := BodyOf(s)], t, key, d, s, d)
  {
    PathIds(t, key, d);
    assert s.id in Ids(At(t, key, d)) && Ids(At(t, key, d)) == {s.id} == Ids(s);
    assert Linked([s]);
  }

  lemma InsertEntries(leaf: Tree, i: nat, key: Key, val: Key)
    requires leaf.Tip? && Even(leaf) && i <= |leaf.keys|
    ensures Entries(leaf.(keys := InsertAt(leaf.keys, i, key), vals := InsertAt(leaf.vals, i, val))) ==
            InsertAt(Entries(leaf), i, (key, val))
  {
    var x := leaf.(keys := InsertAt(leaf.keys, i, key), vals := InsertAt(leaf.vals, i, val));
    var a, b := Entries(x), InsertAt(Entries(leaf), i, (key, val));
    assert |a| == |b|;
    assert forall j :: 0 <= j < |a| ==> a[j] == b[j];
  }

  lemma CutEntries(leaf: Tree, i: nat)
    requires leaf.Tip? && Even(leaf) && i < |leaf.keys|
    ensures Entries(CutTip(leaf, i)) == RemoveAt(Entries(leaf), i)
  {
    var a, b := Entries(CutTip(leaf, i)), RemoveAt(Entries(leaf), i);
    assert |a| == |b|;
    assert forall j :: 0 <= j < |a| ==> a[j] == b[j];
  }

  // The three edits of one entry in the middle of an ascending sequence.
  lemma InsertEntry(P: seq<Entry>, L: seq<Entry>, Q: seq<Entry>, i: nat, e: Entry)
    requires i <= |L| && Ascending(P + InsertAt(L, i, e) + Q)
    ensures MapOf(P + InsertAt(L, i, e) + Q) == MapOf(P + L + Q)[e.0 := e.1]
  {
    var A, B := P + L[..i], L[i..] + Q;
    assert P + InsertAt(L, i, e) + Q == A + [e] + B && P + L + Q == A + B;
    MapOfPut(A, e, B);
  }

  lemma SetEntry(P: seq<Entry>, L: seq<Entry>, Q: seq<Entry>, i: nat, e: Entry)
    requires i < |L| && L[i].0 == e.0 && Ascending(P + L + Q) && Ascending(P + L[i := e] + Q)
    ensures MapOf(P + L[i := e] + Q) == MapOf(P + L + Q)[e.0 := e.1]
  {
    var A, B := P + L[..i], L[i + 1..] + Q;
    assert P + L + Q == A + [L[i]] + B && P + L[i := e] + Q == A + [e] + B;
    MapOfPut(A, L[i], B);
    MapOfPut(A, e, B);
  }

  lemma CutEntry(P: seq<Entry>, L: seq<Entry>, Q: seq<Entry>, i: nat)
    requires i < |L| && Ascending(P + L + Q)
    ensures MapOf(P + RemoveAt(L, i) + Q) == MapOf(P + L + Q) - {L[i].0}
  {
    var A, B := P + L[..i], L[i + 1..] + Q;
    assert P + L + Q == A + [L[i]] + B && P + RemoveAt(L, i) + Q == A + B;
    MapOfPut(A, L[i], B);
    assert MapOf(A + B)[L[i].0 := L[i].1] - {L[i].0} == MapOf(A + B);
  }

  /** What a leaf edit does to the contents. */
  lemma PutContents(t: Tree, d: nat, key: Key, val: Key, P: seq<Entry>, Q: seq<Entry>)
    requires Wf(t, d, None, None) && At(t, key, d).Tip? && Even(At(t, key, d))
    requires Flat(Leaves(t)) == P + Entries(At(t, key, d)) + Q
    requires Ascending(P + Entries(PutTip(At(t, key, d), key, val)) + Q)
    ensures MapOf(P + Entries(PutTip(At(t, key, d), key, val)) + Q) == MapOf(Flat(Leaves(t)))[key := val]
    ensures |P + Entries(PutTip(At(t, key, d), key, val)) + Q| ==
            |Flat(Leaves(t))| + if key in MapOf(Flat(Leaves(t))) then 0 else 1
  {
    LeafDecides(t, d, key);
    TreeEntries(t, d, None, None);
    var leaf := At(t, key, d);
    var i := First(leaf.keys, key);
    InsertEntries(leaf, i, key, val);
    hide Less, First, Wf, Forest, At, Leaves, LeavesOf, MapOf, Flat, Ascending;
    if i < |leaf.keys| && leaf.keys[i] == key {
      assert Entries(leaf.(vals := leaf.vals[i := val])) == Entries(leaf)[i := (key, val)];
      SetEntry(P, Entries(leaf), Q, i, (key, val));
    } else {
      InsertEntry(P, Entries(leaf), Q, i, (key, val));
    }
  }

  lemma CutContents(t: Tree, d: nat, key: Key, P: seq<Entry>, Q: seq<Entry>)
    requires Wf(t, d, None, None) && At(t, key, d).Tip? && Even(At(t, key, d))
    requires var leaf := At(t, key, d);
             First(leaf.keys, key) < |leaf.keys| && leaf.keys[First(leaf.keys, key)] == key
    requires Flat(Leaves(t)) == P + Entries(At(t, key, d)) + Q
    ensures var leaf := At(t, key, d);
            var es := P + Entries(CutTip(leaf, First(leaf.keys, key))) + Q;
            MapOf(es) == MapOf(Flat(Leaves(t))) - {key} && |es| == |Flat(Leaves(t))| - 1
  {
    var leaf := At(t, key, d);
    var i := First(leaf.keys, key);
    TreeEntries(t, d, None, None);
    CutEntries(leaf, i);
    hide Less, First, Wf, Forest, At, Leaves, LeavesOf, MapOf, Flat, Ascending;
    CutEntry(P, Entries(leaf), Q, i);
  }

  // ---------------------------------------------------------------------
  // Being stranded survives the structural moves of a writer
  // ---------------------------------------------------------------------

  /** After a split the search continues in one of the halves, to the same place. */
  lemma SplitRoute(p: Tree, key: Key, spare: NodeId, d: nat, lo: Option<Key>, hi: Option<Key>)
    requires p.Branch? && Wf(p, d, lo, hi) && d > 0 && Goes(p, key) && Even(p)
    requires Even(Child(p, key)) && |Child(p, key).keys| == MAX_KEYS && Goes(p, key)
    requires Above(lo, key) && AtMost(key, hi)
    ensures var i := First(p.keys, key);
            var r := SplitRun(p.children[i], spare);
            var s := Splice(p, i, i + 1, r);
            && Goes(s, key)
            && Child(s, key) == r.trees[if Less(r.keys[0], key) then 1 else 0]
  {
    hide Less, Rank, First, Wf, Forest, SameData, SameCells, FilledOf, SplitRun;
    var i := First(p.keys, key);
    var c := p.children[i];
    StepDown(p, key, d, lo, hi);
    SplitSafe(c, spare, d - 1, Lo(lo, p.keys, i), Hi(p.keys, hi, i));
    var r := SplitRun(c, spare);
    assert |r.trees| == 2 by { TwoHalves(c, spare); }
    var s := Splice(p, i, i + 1, r);
    assert s.keys == InsertAt(p.keys, i, r.keys[0]);
    SeparatorRoute(p.keys, key, r.keys[0]);
  }

  lemma TwoHalves(c: Tree, spare: NodeId)
    requires |c.keys| >= 2 && Even(c)
    ensures |SplitRun(c, spare).trees| == 2
  {
  }

  /** A separator put in at the routing index sends the key left or right of itself. */
  lemma SeparatorRoute(keys: seq<Key>, key: Key, sep: Key)
    ensures First(InsertAt(keys, First(keys, key), sep), key) == First(keys, key) + if Less(sep, key) then 1 else 0
  {
    hide Less;
    var i := First(keys, key);
    FirstIsUnique(InsertAt(keys, i, sep), key, if Less(sep, key) then i + 1 else i);
  }

  lemma HalfRoute(c: Tree, key: Key, spare: NodeId, d: nat, lo: Option<Key>, hi: Option<Key>)
    requires c.Branch? && Even(c) && |c.keys| == MAX_KEYS && Wf(c, d, lo, hi) && Goes(c, key)
    ensures var r := SplitRun(c, spare);
            var x := r.trees[if Less(r.keys[0], key) then 1 else 0];
            Goes(x, key) && Child(x, key) == Child(c, key)
  {
    var r := SplitRun(c, spare);
    var mid := |c.keys| / 2;
    var i := First(c.keys, key);
    SortedKeys(c, d, lo, hi);
    OrderLaws();
    if Less(r.keys[0], key) {
      assert mid < i;
      FirstIsUnique(r.trees[1].keys, key, i - mid - 1);
    } else {
      assert i <= mid;
      FirstIsUnique(r.trees[0].keys, key, i);
    }
  }

  lemma HalfStuck(c: Tree, key: Key, spare: NodeId, lo: Option<Key>, hi: Option<Key>)
    requires c.Tip? && Even(c) && |c.keys| == MAX_KEYS && Wf(c, 0, lo, hi)
    ensures var r := SplitRun(c, spare);
            var x := r.trees[if Less(r.keys[0], key) then 1 else 0];
            StuckTip(x, key) <==> StuckTip(c, key)
  {
    OrderLaws();
    var mid := |c.keys| / 2;
    assert Less(c.keys[mid - 1], c.keys[|c.keys| - 1]);
    hide Less, Rank;
  }

  /** Below a split parent the search ends in a leaf that strands `key` iff it did before. */
  lemma SplitEnd(p: Tree, key: Key, spare: NodeId, d: nat, lo: Option<Key>, hi: Option<Key>)
    requires p.Branch? && Wf(p, d, lo, hi) && Above(lo, key) && AtMost(key, hi) && Goes(p, key) && Even(p)
    requires Even(Child(p, key)) && |Child(p, key).keys| == MAX_KEYS && d > 0
    ensures var i := First(p.keys, key);
            var s := Splice(p, i, i + 1, SplitRun(p.children[i], spare));
            && Goes(s, key) && |Child(s, key).keys| < MAX_KEYS
            && (StuckTip(At(s, key, d), key) <==> StuckTip(At(p, key, d), key))
  {
    hide Less, Rank, First, Wf, Forest, StuckTip, Splice;
    var i := First(p.keys, key);
    StepDown(p, key, d, lo, hi);
    var c := p.children[i];
    var s := Splice(p, i, i + 1, SplitRun(c, spare));
    SplitRoute(p, key, spare, d, lo, hi);
    var x := Child(s, key);
    var l, h := Lo(lo, p.keys, i), Hi(p.keys, hi, i);
    WfShape(c, d - 1, l, h);
    AtChild(s, key, d);
    AtChild(p, key, d);
    hide At;
    if c.Tip? {
      HalfStuck(c, key, spare, l, h);
      AtZero(c, key);
      AtZero(x, key);
    } else {
      StepDown(c, key, d - 1, l, h);
      HalfRoute(c, key, spare, d - 1, l, h);
      AtChild(c, key, d - 1);
      AtChild(x, key, d - 1);
    }
  }

  lemma AtChild(t: Tree, key: Key, n: nat)
    requires n > 0 && Goes(t, key)
    ensures At(t, key, n) == At(Child(t, key), key, n - 1)
  {
  }

  lemma AtZero(t: Tree, key: Key)
    ensures At(t, key, 0) == t
  {
  }

  /** Splitting the child on the path strands no key and rescues none. */
  lemma SplitStranded(t: Tree, key: Key, n: nat, d: nat, spare: NodeId)
    requires Wf(t, d, None, None) && n < d
    requires var p := At(t, key, n);
             Goes(p, key) && Even(p) && Even(Child(p, key)) && |Child(p, key).keys| == MAX_KEYS
    ensures var p := At(t, key, n);
            var i := First(p.keys, key);
            var s := Splice(p, i, i + 1, SplitRun(p.children[i], spare));
            && (Stranded(Replace(t, key, n, s), key, d) <==> Stranded(t, key, d))
            && Goes(s, key) && |Child(s, key).keys| < MAX_KEYS
            && At(Replace(t, key, n, s), key, n + 1) == Child(s, key)
  {
    var p, lo, hi := At(t, key, n), LoAt(t, key, n, None), HiAt(t, key, n, None);
    var i := First(p.keys, key);
    PathWf(t, key, n, d, None, None);
    var s := Splice(p, i, i + 1, SplitRun(p.children[i], spare));
    SplitEnd(p, key, spare, d - n, lo, hi);
    ReplaceAt(t, key, n, s, d, None, None);
    AtSum(t, key, n, d - n);
    assert At(s, key, 1) == At(Child(s, key), key, 0);
    var t' := Replace(t, key, n, s);
    hide *;
    assert At(t', key, n + 1) == At(s, key, 1);
    assert At(t', key, n + (d - n)) == At(s, key, d - n);
    assert n + (d - n) == d;
  }
}
