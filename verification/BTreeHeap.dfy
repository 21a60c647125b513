/**
 Heap cells. A node body is what one heap cell stores; `Rep` says that the heap
 stores a given tree, and `Localize` carries a change of a few cells to the tree.
 */
module BTreeHeap {
  import opened Bytes
  import opened BTreeShape
  import opened BTreeMoves
  import opened BTreePaths

  /** The published body of one node; `heads` caches the four-byte key prefixes. */
  datatype Body =
    | Leaf(keys: seq<Key>, heads: seq<nat>, vals: seq<Key>, next: Option<NodeId>)
    | Internal(keys: seq<Key>, heads: seq<nat>, children: seq<NodeId>)

  type Heap = map<NodeId, Body>

  ghost function Names(ts: seq<Tree>): (ns: seq<NodeId>)
    ensures |ns| == |ts|
    ensures forall i :: 0 <= i < |ts| ==> ns[i] == ts[i].id
  {
    seq(|ts|, i requires 0 <= i < |ts| => ts[i].id)
  }

  ghost function BodyOf(t: Tree): Body {
    match t
    case Tip(_, keys, vals, next) => Leaf(keys, HeadsFor(keys), vals, next)
    case Branch(_, keys, children) => Internal(keys, HeadsFor(keys), Names(children))
  }

  ghost predicate Holds(h: Heap, t: Tree) { t.id in h && h[t.id] == BodyOf(t) }

  /** The heap stores `t`. */
  ghost predicate Rep(h: Heap, t: Tree)
    decreases t, 1
  {
    Holds(h, t) && (t.Branch? ==> RepOf(h, t.children))
  }

  ghost predicate RepOf(h: Heap, ts: seq<Tree>)
    decreases ts, 0
  {
    forall i :: 0 <= i < |ts| ==> Rep(h, ts[i])
  }

  ghost predicate Agree(h: Heap, h': Heap, ids: set<NodeId>) {
    forall id :: id in ids ==> id in h && id in h' && h'[id] == h[id]
  }

  lemma {:induction false} RepFrame(h: Heap, h': Heap, t: Tree)
    requires Rep(h, t) && Agree(h, h', Ids(t))
    ensures Rep(h', t)
    decreases t, 1
  {
    if t.Branch? {
      RepFrameOf(h, h', t.children);
    }
  }

  lemma {:induction false} RepFrameOf(h: Heap, h': Heap, ts: seq<Tree>)
    requires RepOf(h, ts) && Agree(h, h', IdsOf(ts))
    ensures RepOf(h', ts)
    decreases ts, 0
  {
    forall i | 0 <= i < |ts|
      ensures Rep(h', ts[i])
    {
      IdsMember(ts, i);
      RepFrame(h, h', ts[i]);
    }
  }

  lemma {:induction false} RepAt(h: Heap, t: Tree, key: Key, n: nat)
    requires Rep(h, t)
    ensures Rep(h, At(t, key, n))
    decreases n
  {
    if n > 0 && Goes(t, key) {
      RepAt(h, Child(t, key), key, n - 1);
    }
  }

  /** Changing only the cells of a subtree changes only that subtree. */
  lemma {:induction false} RepReplace(h: Heap, h': Heap, t: Tree, key: Key, n: nat, s: Tree)
    requires Rep(h, t) && Distinct(t) && Rep(h', s)
    requires s.id == At(t, key, n).id
    requires Agree(h, h', Ids(t) - Ids(At(t, key, n)))
    ensures Rep(h', Replace(t, key, n, s)) && Replace(t, key, n, s).id == t.id
    decreases n
  {
    if n > 0 && Goes(t, key) {
      var i := First(t.keys, key);
      var c := Child(t, key);
      PathIds(c, key, n - 1);
      IdsUpdate(t.children, i, c);
      assert t.children[i := c] == t.children;
      RepReplace(h, h', c, key, n - 1, s);
      var c' := Replace(c, key, n - 1, s);
      RepFrameOf(h, h', t.children[..i]);
      RepFrameOf(h, h', t.children[i + 1..]);
      var r := Replace(t, key, n, s);
      assert Names(r.children) == Names(t.children);
      forall j | 0 <= j < |r.children|
        ensures Rep(h', r.children[j])
      {
        if j < i {
          assert r.children[j] == t.children[..i][j];
        } else if j > i {
          assert r.children[j] == t.children[i + 1..][j - i - 1];
        }
      }
    }
  }

  /** A tree stored in exactly the cells of `h`, sound in every respect but fill. */
  ghost predicate Stored(h: Heap, t: Tree, d: nat) {
    && Rep(h, t) && h.Keys == Ids(t) && Distinct(t)
    && Wf(t, d, None, None)
    && Chained(Leaves(t))
  }

  /** What a local change at depth `n` must bring about in the cells it touches. */
  ghost predicate LocalStep(h: Heap, h': Heap, t: Tree, key: Key, n: nat, s: Tree, d: nat) {
    var p := At(t, key, n);
    && n <= d
    && s.id == p.id
    && Wf(s, d - n, LoAt(t, key, n, None), HiAt(t, key, n, None))
    && Distinct(s) && Ids(s) !! (Ids(t) - Ids(p))
    && Relinks(Leaves(p), Leaves(s))
    && Rep(h', s) && Agree(h, h', Ids(t) - Ids(p))
    && h'.Keys == Ids(t) - Ids(p) + Ids(s)
  }

  /** A sound change of one subtree on the path of `key` is a sound change of the tree. */
  lemma Localize(h: Heap, h': Heap, t: Tree, key: Key, n: nat, s: Tree, d: nat)
    requires Stored(h, t, d) && LocalStep(h, h', t, key, n, s, d)
    ensures Stored(h', Replace(t, key, n, s), d)
    ensures Replace(t, key, n, s).id == t.id
    ensures Flat(Leaves(Replace(t, key, n, s))) ==
            Flat(Pre(t, key, n)) + Flat(Leaves(s)) + Flat(Post(t, key, n))
    ensures Flat(Leaves(t)) ==
            Flat(Pre(t, key, n)) + Flat(Leaves(At(t, key, n))) + Flat(Post(t, key, n))
  {
    var t' := Replace(t, key, n, s);
    ReplaceWf(t, key, n, s, d, None, None);
    ReplaceIds(t, key, n, s);
    RepReplace(h, h', t, key, n, s);
    PathLeaves(t, key, n);
    ReplaceLeaves(t, key, n, s);
    FlatSplice(Pre(t, key, n), Leaves(s), Post(t, key, n));
    FlatSplice(Pre(t, key, n), Leaves(At(t, key, n)), Post(t, key, n));
    RelinkInContext(Pre(t, key, n), Leaves(At(t, key, n)), Leaves(s), Post(t, key, n));
  }

  // ---------------------------------------------------------------------
  // The abstract map
  // ---------------------------------------------------------------------

  ghost function MapOf(es: seq<Entry>): map<Key, Key> {
    if es == [] then map[] else MapOf(es[..|es| - 1])[es[|es| - 1].0 := es[|es| - 1].1]
  }

  lemma {:induction false} MapOfKeys(es: seq<Entry>)
    requires Ascending(es)
    ensures forall k :: k in MapOf(es) <==> exists i :: 0 <= i < |es| && es[i].0 == k
    ensures forall i :: 0 <= i < |es| ==> es[i].0 in MapOf(es) && MapOf(es)[es[i].0] == es[i].1
    ensures |MapOf(es)| == |es|
  {
    if es != [] {
      var n := |es| - 1;
      var init, last := es[..n], es[n];
      MapOfKeys(init);
      LastIsNew(es);
      hide Less, Ascending;
      assert last.0 !in MapOf(init);
      assert MapOf(es) == MapOf(init)[last.0 := last.1];
      hide MapOf;
      forall i | 0 <= i < |es|
        ensures es[i].0 in MapOf(es) && MapOf(es)[es[i].0] == es[i].1
      {
        if i < n { assert init[i] == es[i]; }
      }
      forall k
        ensures k in MapOf(es) <==> exists i :: 0 <= i < |es| && es[i].0 == k
      {
        if k in MapOf(es) && k != last.0 {
          var i :| 0 <= i < |init| && init[i].0 == k;
          assert es[i].0 == k;
        }
      }
    }
  }

  lemma LastIsNew(es: seq<Entry>)
    requires Ascending(es) && es != []
    ensures forall i :: 0 <= i < |es| - 1 ==> es[i].0 != es[|es| - 1].0
  {
    OrderLaws();
    hide Less, Rank;
    forall i | 0 <= i < |es| - 1
      ensures es[i].0 != es[|es| - 1].0
    {
      assert Less(es[i].0, es[|es| - 1].0);
    }
  }

  lemma {:induction false} MapOfPut(a: seq<Entry>, e: Entry, b: seq<Entry>)
    requires Ascending(a + [e] + b)
    ensures MapOf(a + [e] + b) == MapOf(a + b)[e.0 := e.1]
    ensures Ascending(a + b) && e.0 !in MapOf(a + b)
    decreases |b|
  {
    AscendWithout(a, e, b);
    MissingKey(a, e, b);
    if b == [] {
      assert a + [e] + b == a + [e] && a + b == a;
      MapSnoc(a, e);
    } else {
      var n := |b| - 1;
      assert a + [e] + b == (a + [e] + b[..n]) + [b[n]] && a + b == (a + b[..n]) + [b[n]];
      MapSnoc(a + [e] + b[..n], b[n]);
      MapSnoc(a + b[..n], b[n]);
      AscendPrefix(a + [e] + b, |a + [e] + b| - 1);
      assert (a + [e] + b)[..|a + [e] + b| - 1] == a + [e] + b[..n];
      hide MapOf, Ascending;
      MapOfPut(a, e, b[..n]);
    }
  }

  lemma MapSnoc(es: seq<Entry>, e: Entry)
    ensures MapOf(es + [e]) == MapOf(es)[e.0 := e.1]
  {
    assert (es + [e])[..|es|] == es;
  }

  lemma AscendPrefix(es: seq<Entry>, n: nat)
    requires Ascending(es) && n <= |es|
    ensures Ascending(es[..n])
  {
    hide Less;
  }

  lemma AscendWithout(a: seq<Entry>, e: Entry, b: seq<Entry>)
    requires Ascending(a + [e] + b)
    ensures Ascending(a + b) && forall i :: 0 <= i < |b| ==> b[i].0 != e.0
  {
    OrderLaws();
    hide Less, Rank;
    var es, rest: seq<Entry> := a + [e] + b, a + b;
    forall i, j | 0 <= i < j < |rest|
      ensures Less(rest[i].0, rest[j].0)
    {
      assert rest[i] == es[if i < |a| then i else i + 1] && rest[j] == es[if j < |a| then j else j + 1];
    }
    forall i | 0 <= i < |b|
      ensures b[i].0 != e.0
    {
      assert es[|a|] == e && es[|a| + 1 + i] == b[i];
    }
  }

  lemma MissingKey(a: seq<Entry>, e: Entry, b: seq<Entry>)
    requires Ascending(a + [e] + b) && Ascending(a + b)
    ensures e.0 !in MapOf(a + b)
  {
    OrderLaws();
    MapOfKeys(a + b);
    hide Less, Rank;
    var es := a + [e] + b;
    assert es[|a|] == e;
    forall i | 0 <= i < |a + b|
      ensures (a + b)[i].0 != e.0
    {
      assert (a + b)[i] == es[if i < |a| then i else i + 1];
    }
  }
}
