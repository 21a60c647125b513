/**
 The B+ tree, sequentially: a heap of node bodies edited in place by top-down
 writers, refining a finite map from keys to values.
 */
module BTree {
  import opened Bytes
  import opened BTreeShape
  import opened BTreeMoves
  import opened BTreePaths
  import opened BTreeHeap
  import opened BTreeSteps
  import opened BTreeBodies
  import opened BTreeEdits
  import opened BTreeRange

  /** Outcome of one descent of a writer. */
  datatype Descend<T> = Done(value: T) | Restart

  class BTree {
    var nodes: Heap        // live nodes by cell
    var root: NodeId
    var nextId: NodeId     // cells at or above this one are unused
    var splits: nat
    var merges: nat
    var inPlace: nat
    var entries: nat       // live entry count

    ghost var tree: Tree   // the tree the heap stores
    ghost var height: nat  // levels below the root

    /** Sound in every respect but fill: separators bound subtrees, all leaves on one
        level, the chain follows tree order, heads mirror keys, nothing is shared or leaked. */
    ghost predicate Sound()
      reads this
    {
      && Stored(nodes, tree, height) && tree.id == root
      && forall id :: id in nodes ==> id < nextId
    }

    ghost predicate Valid()
      reads this
    {
      && Sound() && Filled(tree) && (tree.Branch? ==> |tree.children| >= 2)
      && entries == |All()|
    }

    ghost function All(): seq<Entry>
      reads this
    {
      Flat(Leaves(tree))
    }

    /** The map this tree stands for. */
    ghost function Contents(): map<Key, Key>
      reads this
    {
      MapOf(All())
    }

    constructor ()
      ensures Valid() && Contents() == map[] && fresh(this)
    {
      nodes := map[0 := Leaf([], [], [], None)];
      root, nextId := 0, 1;
      splits, merges, inPlace, entries := 0, 0, 0, 0;
      tree, height := Tip(0, [], [], None), 0;
      new;
      FlatOne(tree);
      assert HeadsFor([]) == [];
    }

    // -----------------------------------------------------------------
    // Reading
    // -----------------------------------------------------------------

    method Get(key: Key) returns (v: Option<Key>)
      requires Valid()
      ensures v == if key in Contents() then Some(Contents()[key]) else None
    {
      hide Less, First, Rank, Wf, Forest, MapOf, Flat, Leaves, Filled, Rep, Chained, Distinct, Ids, At, Sorted;
      var node := root;
      ghost var n := 0;
      AtZero(tree, key);
      while true
        invariant n <= height && At(tree, key, n).id == node
        decreases height - n
      {
        Arrive(nodes, tree, height, key, n);
        match nodes[node] {
          case Leaf(keys, heads, vals, _) =>
            var idx := LowerBound(keys, heads, key);
            LeafDecides(tree, height, key);
            v := if idx < |keys| && idx < |vals| && keys[idx] == key then Some(vals[idx]) else None;
            return;
          case Internal(keys, heads, children) =>
            var idx := LowerBound(keys, heads, key);
            node, n := children[if idx < |children| - 1 then idx else |children| - 1], n + 1;
        }
      }
    }

    /** All entries between the bounds, each included or not as its flag says, in key order. */
    method Range(b: Bounds) returns (out: seq<Entry>)
      requires Valid()
      ensures forall i, j :: 0 <= i < j < |out| ==> Less(out[i].0, out[j].0)
      ensures forall e :: e in out <==>
                && e.0 in Contents() && Contents()[e.0] == e.1
                && (b.start.Some? ==> if b.startIncl then !Less(e.0, b.start.value) else Less(b.start.value, e.0))
                && (b.end.Some? ==> if b.endIncl then !Less(b.end.value, e.0) else Less(e.0, b.end.value))
    {
      hide Less, First, Rank, Wf, Forest, MapOf, Flat, Leaves, LeavesOf, Filled, Rep, Chained, Linked, Distinct, Ids,
        At, Sorted, Select, Pre, Post, Inside, Ascending;
      ghost var low: Key := if b.start.Some? then b.start.value else [];
      var node := root;
      ghost var n := 0;
      AtZero(tree, low);
      while true
        invariant n <= height && At(tree, low, n).id == node
        decreases height - n
      {
        Arrive(nodes, tree, height, low, n);
        match nodes[node] {
          case Leaf(_, _, _, _) =>
            break;
          case Internal(keys, heads, children) =>
            var idx := 0;
            if b.start.Some? {
              idx := LowerBound(keys, heads, b.start.value);
            } else {
              FirstOfEmpty(keys);
            }
            node, n := children[if idx < |children| - 1 then idx else |children| - 1], n + 1;
        }
      }

      ghost var ls, j := Leaves(tree), |Pre(tree, low, height)|;
      ScanStart(nodes, tree, height, b);
      out := [];
      var last: Option<Key> := None;
      while true
        invariant 0 <= j < |ls| && ls[j].id == node
        invariant out == Select(Flat(ls[..j]), b) && LastIs(out, last)
        decreases |ls| - j
      {
        ScanStep(nodes, tree, height, j, b, out);
        var body := nodes[node];
        var stop;
        out, last, stop := Emit(body.keys, body.vals, b, out, last);
        if stop {
          ScanStop(tree, height, j, b);
          break;
        }
        match body.next {
          case Some(id) =>
            node, j := id, j + 1;
          case None =>
            assert ls[..j + 1] == ls;
            break;
        }
      }
      RangeMeaning(tree, height, b);
      InsideAll(b);
      AscendingMeans(out);
    }

    // -----------------------------------------------------------------
    // Insert and upsert
    // -----------------------------------------------------------------

    /** Structural moves keep the entries, the root cell and the level count. */
    twostate predicate SameMap()
      reads this
    {
      && All() == old(All()) && entries == old(entries) && height == old(height) && root == old(root)
    }

    /** Split the full child on the path of `key` while its parent `id` is latched. */
    method SplitChild(id: NodeId, key: Key, idx: nat, ghost n: nat)
      requires Sound() && n < height && At(tree, key, n).id == id
      requires var p := At(tree, key, n);
               && Goes(p, key) && idx == First(p.keys, key)
               && |p.keys| < MAX_KEYS && |Child(p, key).keys| == MAX_KEYS
      modifies this
      ensures Sound() && SameMap()
      ensures At(tree, key, n).id == id && |At(tree, key, n + 1).keys| < MAX_KEYS
      ensures Stranded(tree, key, height) == old(Stranded(tree, key, height))
      ensures old(Filled(tree)) ==> Filled(tree)
      ensures Count(tree) >= old(Count(tree)) && (n == 0 ==> Count(tree) >= 2)
    {
      hide Less, First, Rank, Wf, Forest, Flat, Leaves, LeavesOf, Filled, FilledOf, Rep, RepOf, Chained, Linked,
        Distinct, Ids, At, Replace, Sorted, LocalStep, SplitBody, Absorb, Stranded, Pre, Post;
      ghost var t, h, d, spare := tree, nodes, height, nextId;
      Arrive(h, t, d, key, n);
      ghost var p := At(t, key, n);
      ghost var s := Splice(p, idx, idx + 1, SplitRun(Child(p, key), spare));
      SplitStep(h, t, key, n, d, spare);
      SplitShape(t, key, n, d, spare);
      SplitStranded(t, key, n, d, spare);
      SplitBodyMeaning(Child(p, key), spare);
      AbsorbMeaning(p, idx, spare);
      ChildCell(t, key, n);

      var child := nodes[id].children[idx];
      var right := nextId;
      var halves := SplitBody(nodes[child], right);
      nodes := nodes[right := halves.right][child := halves.left];
      nextId := nextId + 1;
      var at := LowerBound(nodes[id].keys, nodes[id].heads, halves.sep);
      nodes := nodes[id := Absorb(nodes[id], at, halves.sep, right)];
      splits := splits + 1;

      assert nodes == SplitHeap(h, p, idx, right);
      Localize(h, nodes, t, key, n, s, d);
      ReplaceAt(t, key, n, s, d, None, None);
      SplitKeepsFill(t, key, n, s, d);
      tree := Replace(t, key, n, s);
    }

    /** Facts about the leaf a descent ended in; the writers edit only this cell. */
    method PutLeaf(id: NodeId, key: Key, val: Key, idx: nat)
      requires Sound() && At(tree, key, height).id == id && At(tree, key, height).Tip?
      requires var leaf := At(tree, key, height);
               && Even(leaf) && idx == First(leaf.keys, key)
               && (|leaf.keys| < MAX_KEYS || (idx < |leaf.keys| && leaf.keys[idx] == key))
      modifies this
      ensures Sound() && entries == old(entries) && height == old(height) && root == old(root)
      ensures Contents() == old(Contents())[key := val]
      ensures |All()| == |old(All())| + if key in old(Contents()) then 0 else 1
      ensures key !in old(Contents()) ==> |At(tree, key, height).keys| == |old(At(tree, key, height)).keys| + 1
      ensures old(Filled(tree)) ==> Filled(tree)
      ensures tree.Branch? == old(tree.Branch?) && (tree.Branch? ==> Count(tree) == old(Count(tree)))
      ensures nodes.Keys == old(nodes.Keys) && nextId == old(nextId) && splits == old(splits)
    {
      hide Less, First, Rank, Wf, Forest, Flat, Leaves, LeavesOf, Filled, FilledOf, Rep, RepOf, Chained, Linked,
        Distinct, Ids, At, Replace, Sorted, LocalStep, Pre, Post, MapOf;
      ghost var t, h, d := tree, nodes, height;
      Arrive(h, t, d, key, d);
      ghost var leaf := At(t, key, d);
      ghost var s := PutTip(leaf, key, val);
      PutStep(h, t, d, key, val);
      LeafDecides(t, d, key);

      var body := nodes[id];
      if idx < |body.keys| && body.keys[idx] == key {
        nodes := nodes[id := body.(vals := body.vals[idx := val])];
      } else {
        nodes := nodes[id := Leaf(InsertAt(body.keys, idx, key), InsertAt(body.heads, idx, Head(key)),
                                  InsertAt(body.vals, idx, val), body.next)];
      }
      assert nodes == h[id := BodyOf(s)] by { HeadsOf3(leaf.keys, idx, key); }
      ReplaceAt(t, key, d, s, d, None, None);
      WfShape(t, d, None, None);
      tree := Replace(t, key, d, s);
    }

    /** One descent of `insert` from a node that is not full. */
    method InsertRec(id: NodeId, key: Key, val: Key, ghost n: nat) returns (r: Descend<bool>)
      requires Sound() && Filled(tree) && n <= height && At(tree, key, n).id == id
      requires |At(tree, key, n).keys| < MAX_KEYS
      requires tree.Branch? && Count(tree) < 2 ==> n == 0 && |At(tree, key, 1).keys| == MAX_KEYS
      modifies this
      ensures Sound() && Filled(tree) && (tree.Branch? ==> Count(tree) >= 2)
      ensures entries == old(entries) && height == old(height) && root == old(root)
      ensures r.Restart? <==> old(Stranded(tree, key, height))
      ensures r.Restart? ==> Stranded(tree, key, height) && All() == old(All())
      ensures r == Done(false) ==> key in old(Contents()) && All() == old(All())
      ensures r == Done(true) ==>
                key !in old(Contents()) && Contents() == old(Contents())[key := val] && |All()| == |old(All())| + 1
      ensures r == Done(true) && height > 0 ==> |At(tree, key, height).keys| > MIN_KEYS
      decreases height - n
    {
      hide Less, First, Rank, Wf, Forest, Flat, Leaves, LeavesOf, Filled, FilledOf, Rep, RepOf, Chained, Linked,
        Distinct, Ids, At, Sorted, MapOf;
      Arrive(nodes, tree, height, key, n);
      AtZero(tree, key);
      WfShape(tree, height, None, None);
      match nodes[id] {
        case Leaf(keys, heads, _, next) =>
          LeafDecides(tree, height, key);
          if |keys| >= MAX_KEYS {
            return Restart;
          }
          if next.Some? && keys != [] && Less(keys[|keys| - 1], key) {
            return Restart;
          }
          var idx := LowerBound(keys, heads, key);
          if idx < |keys| && keys[idx] == key {
            return Done(false);
          }
          LeafFilled(tree, key, height);
          PutLeaf(id, key, val, idx);
          return Done(true);
        case Internal(keys, heads, children) =>
          var idx := LowerBound(keys, heads, key);
          if |nodes[children[idx]].keys| >= MAX_KEYS {
            SplitChild(id, key, idx, n);
            Arrive(nodes, tree, height, key, n);
            idx := LowerBound(nodes[id].keys, nodes[id].heads, key);
          }
          r := InsertRec(nodes[id].children[idx], key, val, n + 1);
      }
    }

    /** A full root is put under a fresh internal root with one child. */
    method WrapRoot(ghost key: Key)
      requires Sound() && Filled(tree) && |tree.keys| == MAX_KEYS
      modifies this
      ensures Sound() && Filled(tree) && All() == old(All()) && entries == old(entries)
      ensures tree.Branch? && Count(tree) == 1 && |tree.keys| == 0 && |At(tree, key, 1).keys| == MAX_KEYS
      ensures Stranded(tree, key, height) == old(Stranded(tree, key, height))
    {
      hide Less, First, Rank, Wf, Forest, Flat, Leaves, LeavesOf, Filled, FilledOf, Rep, RepOf, Chained, Linked,
        Distinct, Ids, At, Sorted;
      WrapStep(nodes, tree, height, nextId, key);
      nodes := nodes[nextId := Internal([], [], [root])];
      tree, height := Branch(nextId, [], [tree]), height + 1;
      root, nextId, splits := nextId, nextId + 1, splits + 1;
    }

    /** Insert `key -> val` with at most `attempts` descents; `Some(false)` if the key exists.
        The retry loop returns exactly when the key is not stranded: a stranded key stays so,
        and no number of further descents helps. */
    method Insert(key: Key, val: Key, attempts: nat) returns (r: Option<bool>)
      requires Valid()
      modifies this
      ensures Valid()
      ensures r.Some? <==> attempts > 0 && !old(Stranded(tree, key, height))
      ensures r.None? ==> Contents() == old(Contents()) && Stranded(tree, key, height) == old(Stranded(tree, key, height))
      ensures r == Some(false) ==> key in old(Contents()) && Contents() == old(Contents())
      ensures r == Some(true) ==> key !in old(Contents()) && Contents() == old(Contents())[key := val]
      ensures r == Some(true) && height > 0 ==> |At(tree, key, height).keys| > MIN_KEYS
    {
      hide Less, First, Rank, Wf, Forest, Flat, Leaves, Filled, Rep, Chained, Distinct, Ids, At, Sorted, MapOf, Stranded;
      var left := attempts;
      while left > 0
        invariant Valid() && All() == old(All())
        invariant Stranded(tree, key, height) == old(Stranded(tree, key, height))
        invariant left < attempts ==> Stranded(tree, key, height)
      {
        AtZero(tree, key);
        Arrive(nodes, tree, height, key, 0);
        if |nodes[root].keys| >= MAX_KEYS {
          WrapRoot(key);
          AtZero(tree, key);
        }
        var res := InsertRec(root, key, val, 0);
        match res {
          case Done(inserted) =>
            if inserted {
              entries := entries + 1;
            }
            return Some(inserted);
          case Restart =>
            left := left - 1;
        }
      }
      return None;
    }

    /** One descent of `upsert` from a node that is not full. */
    method UpsertRec(id: NodeId, key: Key, val: Key, ghost n: nat) returns (r: Descend<Option<Key>>)
      requires Sound() && Filled(tree) && n <= height && At(tree, key, n).id == id
      requires |At(tree, key, n).keys| < MAX_KEYS
      requires tree.Branch? && Count(tree) < 2 ==> n == 0 && |At(tree, key, 1).keys| == MAX_KEYS
      modifies this
      ensures Sound() && Filled(tree) && (tree.Branch? ==> Count(tree) >= 2)
      ensures entries == old(entries) && height == old(height) && root == old(root)
      ensures r.Restart? <==> old(Stranded(tree, key, height))
      ensures r.Restart? ==> Stranded(tree, key, height) && All() == old(All())
      ensures r.Done? ==> Contents() == old(Contents())[key := val]
      ensures r.Done? ==> r.value == if key in old(Contents()) then Some(old(Contents())[key]) else None
      ensures r.Done? ==> |All()| == |old(All())| + if key in old(Contents()) then 0 else 1
      decreases height - n
    {
      hide Less, First, Rank, Wf, Forest, Flat, Leaves, LeavesOf, Filled, FilledOf, Rep, RepOf, Chained, Linked,
        Distinct, Ids, At, Sorted, MapOf;
      Arrive(nodes, tree, height, key, n);
      AtZero(tree, key);
      WfShape(tree, height, None, None);
      match nodes[id] {
        case Leaf(keys, heads, vals, next) =>
          LeafDecides(tree, height, key);
          if Stranded(tree, key, height) {
            StrandedIsMissing(tree, height, key);
          }
          var idx := LowerBound(keys, heads, key);
          if idx < |keys| && keys[idx] == key {
            var prev := vals[idx];
            PutLeaf(id, key, val, idx);
            return Done(Some(prev));
          }
          if |keys| >= MAX_KEYS {
            return Restart;
          }
          if next.Some? && keys != [] && Less(keys[|keys| - 1], key) {
            return Restart;
          }
          PutLeaf(id, key, val, idx);
          return Done(None);
        case Internal(keys, heads, children) =>
          var idx := LowerBound(keys, heads, key);
          if |nodes[children[idx]].keys| >= MAX_KEYS {
            SplitChild(id, key, idx, n);
            Arrive(nodes, tree, height, key, n);
            idx := LowerBound(nodes[id].keys, nodes[id].heads, key);
          }
          r := UpsertRec(nodes[id].children[idx], key, val, n + 1);
      }
    }

    /** Insert or replace; returns the previous value. Same retry loop as `Insert`. */
    method Upsert(key: Key, val: Key, attempts: nat) returns (r: Descend<Option<Key>>)
      requires Valid()
      modifies this
      ensures Valid()
      ensures r.Done? <==> attempts > 0 && !old(Stranded(tree, key, height))
      ensures r.Restart? ==> Contents() == old(Contents())
      ensures r.Done? ==> Contents() == old(Contents())[key := val]
      ensures r.Done? ==> r.value == if key in old(Contents()) then Some(old(Contents())[key]) else None
    {
      hide Less, First, Rank, Wf, Forest, Flat, Leaves, Filled, Rep, Chained, Distinct, Ids, At, Sorted, MapOf, Stranded;
      var left := attempts;
      while left > 0
        invariant Valid() && All() == old(All())
        invariant Stranded(tree, key, height) == old(Stranded(tree, key, height))
        invariant left < attempts ==> Stranded(tree, key, height)
      {
        AtZero(tree, key);
        Arrive(nodes, tree, height, key, 0);
        if |nodes[root].keys| >= MAX_KEYS {
          WrapRoot(key);
          AtZero(tree, key);
        }
        r := UpsertRec(root, key, val, 0);
        match r {
          case Done(prev) =>
            if prev.None? {
              entries := entries + 1;
            }
            return;
          case Restart =>
            left := left - 1;
        }
      }
      return Restart;
    }

    /** Replace the value of an existing key; never splits, wraps or allocates. */
    method UpdateInPlace(key: Key, val: Key) returns (prev: Option<Key>)
      requires Valid()
      modifies this
      ensures Valid() && nodes.Keys == old(nodes.Keys) && splits == old(splits) && nextId == old(nextId)
      ensures prev == if key in old(Contents()) then Some(old(Contents())[key]) else None
      ensures Contents() == if key in old(Contents()) then old(Contents())[key := val] else old(Contents())
    {
      hide Less, First, Rank, Wf, Forest, Flat, Leaves, LeavesOf, Filled, FilledOf, Rep, RepOf, Chained, Linked,
        Distinct, Ids, At, Sorted, MapOf;
      AtZero(tree, key);
      prev := UpdateInPlaceRec(root, key, val, 0);
      if prev.Some? {
        inPlace := inPlace + 1;
      }
    }

    method UpdateInPlaceRec(id: NodeId, key: Key, val: Key, ghost n: nat) returns (prev: Option<Key>)
      requires Valid() && n <= height && At(tree, key, n).id == id
      modifies this
      ensures Valid() && nodes.Keys == old(nodes.Keys) && splits == old(splits) && nextId == old(nextId)
      ensures prev == if key in old(Contents()) then Some(old(Contents())[key]) else None
      ensures Contents() == if key in old(Contents()) then old(Contents())[key := val] else old(Contents())
      decreases height - n
    {
      hide Less, First, Rank, Wf, Forest, Flat, Leaves, LeavesOf, Filled, FilledOf, Rep, RepOf, Chained, Linked,
        Distinct, Ids, At, Sorted, MapOf;
      Arrive(nodes, tree, height, key, n);
      match nodes[id] {
        case Leaf(keys, heads, vals, _) =>
          LeafDecides(tree, height, key);
          var idx := LowerBound(keys, heads, key);
          if idx < |keys| && keys[idx] == key {
            prev := Some(vals[idx]);
            PutLeaf(id, key, val, idx);
          } else {
            prev := None;
          }
        case Internal(keys, heads, children) =>
          var idx := LowerBound(keys, heads, key);
          prev := UpdateInPlaceRec(children[idx], key, val, n + 1);
      }
    }

    // -----------------------------------------------------------------
    // Remove
    // -----------------------------------------------------------------

    /** Take `key` out of its leaf; that leaf may now lack one entry. */
    method DeleteRec(id: NodeId, key: Key, ghost n: nat) returns (removed: Option<Key>)
      requires Valid() && n <= height && At(tree, key, n).id == id
      modifies this
      ensures Sound() && entries == old(entries) && height == old(height) && root == old(root)
      ensures removed == if key in old(Contents()) then Some(old(Contents())[key]) else None
      ensures Contents() == old(Contents()) - {key}
      ensures |All()| == |old(All())| - if key in old(Contents()) then 1 else 0
      ensures removed.None? ==> Valid()
      ensures Deficit(tree, key, height)
      ensures tree.Branch? == old(tree.Branch?) && (tree.Branch? ==> Count(tree) == old(Count(tree)))
      ensures splits == old(splits) && merges == old(merges) && nodes.Keys == old(nodes.Keys)
      ensures old(CutStrands(tree, key, height)) ==> Stranded(tree, key, height)
      ensures old(|At(tree, key, height).keys|) > MIN_KEYS ==> Filled(tree)
      decreases height - n
    {
      hide Less, First, Rank, Wf, Forest, Flat, Leaves, LeavesOf, Filled, FilledOf, Rep, RepOf, Chained, Linked,
        Distinct, Ids, At, Sorted, MapOf, Replace, Around, Stranded, CutStrands, Deficit;
      Arrive(nodes, tree, height, key, n);
      match nodes[id] {
        case Leaf(keys, heads, vals, next) =>
          LeafDecides(tree, height, key);
          var idx := LowerBound(keys, heads, key);
          ghost var t, h, d := tree, nodes, height;
          if idx < |keys| && keys[idx] == key {
            removed := Some(vals[idx]);
            CutStep(h, t, d, key);
            nodes := nodes[id := Leaf(RemoveAt(keys, idx), RemoveAt(heads, idx), RemoveAt(vals, idx), next)];
            ghost var s := CutTip(At(t, key, d), idx);
            assert nodes == h[id := BodyOf(s)] by { HeadsCut(keys, idx); }
            WfShape(t, d, None, None);
            ReplaceAt(t, key, d, s, d, None, None);
            tree := Replace(t, key, d, s);
          } else {
            removed := None;
            NoDeficit(t, key, d, d);
            MissingCut(t, key, d);
            assert Contents() - {key} == Contents();
          }
        case Internal(keys, heads, children) =>
          var idx := LowerBound(keys, heads, key);
          removed := DeleteRec(children[idx], key, n + 1);
      }
    }

    /** Move one entry (or child) from the rich sibling to the lacking child. */
    method Borrow(id: NodeId, i: nat, fromRight: bool, ghost key: Key, ghost n: nat)
      requires Sound() && n < height && At(tree, key, n).id == id
      requires BorrowPre(nodes, tree, key, n, height, i, fromRight) && Around(tree, key, n)
      requires n > 0 ==> Count(At(tree, key, n)) >= MIN_KEYS
      modifies this
      ensures Sound() && SameMap() && Filled(tree)
      ensures tree.Branch? && Count(tree) == old(Count(tree)) && merges == old(merges) && nodes.Keys == old(nodes.Keys)
    {
      hide Less, First, Rank, Wf, Forest, Flat, Leaves, LeavesOf, Filled, FilledOf, Rep, RepOf, Chained, Linked,
        Distinct, Ids, IdsOf, At, Sorted, Replace, Around, LocalStep, BorrowBodies, Pre, Post, Lacking;
      ghost var t, h, d := tree, nodes, height;
      Arrive(h, t, d, key, n);
      ghost var p := At(t, key, n);
      ghost var r := BorrowRun(p.children[i], p.keys[i], p.children[i + 1], fromRight);
      ghost var s := Splice(p, i, i + 2, r);
      BorrowStep(h, t, key, n, d, i, fromRight);
      BorrowMeaning(p, i, fromRight);
      PairIds(t, key, n, i);

      var left, right := nodes[id].children[i], nodes[id].children[i + 1];
      var family := BorrowBodies(nodes[id], i, nodes[left], nodes[right], fromRight);
      nodes := nodes[left := family.left][right := family.right][id := family.parent];

      assert nodes == BorrowHeap(h, p, i, r);
      Localize(h, nodes, t, key, n, s, d);
      ReplaceAt(t, key, n, s, d, None, None);
      FillReplaced(t, key, n, s, d);
      WfShape(t, d, None, None);
      tree := Replace(t, key, n, s);
    }

    /** Fold child `i + 1` into child `i` and unlink it from the parent and the leaf chain. */
    method Merge(id: NodeId, i: nat, ghost c: nat, ghost key: Key, ghost n: nat)
      requires Sound() && n < height && At(tree, key, n).id == id
      requires MergePre(nodes, tree, key, n, height, i, c) && Around(tree, key, n)
      requires n > 0 ==> Count(At(tree, key, n)) >= MIN_KEYS
      modifies this
      ensures Sound() && SameMap() && Deficit(tree, key, n)
      ensures |nodes| == |old(nodes)| - 1 && merges == old(merges) + 1
      ensures tree.Branch? && (n > 0 ==> Count(tree) == old(Count(tree)))
    {
      hide Less, First, Rank, Wf, Forest, Flat, Leaves, LeavesOf, Filled, FilledOf, Rep, RepOf, Chained, Linked,
        Distinct, Ids, IdsOf, At, Sorted, Replace, Around, LocalStep, MergeBodies, Pre, Post, Lacking;
      ghost var t, h, d := tree, nodes, height;
      Arrive(h, t, d, key, n);
      ghost var p := At(t, key, n);
      ghost var r := MergeRun(p.children[i], p.keys[i], p.children[i + 1]);
      ghost var s := Splice(p, i, i + 2, r);
      MergeStep(h, t, key, n, d, i, c);
      MergeMeaning(p, i);
      PairIds(t, key, n, i);

      var left, right := nodes[id].children[i], nodes[id].children[i + 1];
      var (parent, fused) := MergeBodies(nodes[id], i, nodes[left], nodes[right]);
      nodes := nodes[left := fused][id := parent] - {right};
      splits, merges := splits + 1, merges + 1;

      assert nodes == MergeHeap(h, p, i, r);
      Localize(h, nodes, t, key, n, s, d);
      ReplaceAt(t, key, n, s, d, None, None);
      AroundReplace(t, key, n, s, d, None, None);
      WfShape(t, d, None, None);
      tree := Replace(t, key, n, s);
    }

    /** Borrow from a rich sibling, else merge with one; the right sibling is preferred. */
    method FixChild(id: NodeId, idx: nat, ghost key: Key, ghost n: nat) returns (merged: bool)
      requires Sound() && n < height && At(tree, key, n).id == id && Around(tree, key, n)
      requires n > 0 ==> Count(At(tree, key, n)) >= MIN_KEYS
      requires var p := At(tree, key, n); p.Branch? && Even(p) && |p.children| >= 2 && idx < |p.children| && Lacking(p, idx)
      modifies this
      ensures Sound() && SameMap() && tree.Branch?
      ensures !merged ==> Filled(tree) && Count(tree) == old(Count(tree)) && merges == old(merges) && nodes.Keys == old(nodes.Keys)
      ensures merged ==> Deficit(tree, key, n) && |nodes| == |old(nodes)| - 1 && merges == old(merges) + 1
      ensures merged && n > 0 ==> Count(tree) == old(Count(tree))
    {
      hide Less, First, Rank, Wf, Forest, Flat, Leaves, LeavesOf, Filled, FilledOf, Rep, RepOf, Chained, Linked,
        Distinct, Ids, IdsOf, At, Sorted, Around, Deficit;
      Arrive(nodes, tree, height, key, n);
      ghost var p := At(tree, key, n);
      var children := nodes[id].children;
      var rightward := idx + 1 < |children|;
      var sib := if rightward then idx + 1 else idx - 1;
      var sep := if rightward then idx else idx - 1;
      var body := nodes[children[sib]];
      var sibCount := if body.Leaf? then |body.keys| else |body.children|;
      assert sibCount == Count(p.children[sib]);
      if sibCount > MIN_KEYS {
        Borrow(id, sep, rightward, key, n);
        return false;
      }
      Merge(id, sep, idx, key, n);
      return true;
    }

    /** One root-to-leaf descent along `key` that cures the first underfull node it meets.
        `m` is the level that may lack an entry; a merge hands the lack to the level above. */
    method FixPass(key: Key, ghost m: nat) returns (merged: bool)
      requires Sound() && m <= height && Deficit(tree, key, m)
      requires m > 0 ==> Count(tree) >= 2
      modifies this
      ensures Sound() && SameMap()
      ensures !merged ==> Filled(tree) && Count(tree) == old(Count(tree)) && nodes.Keys == old(nodes.Keys)
      ensures tree.Branch? == old(tree.Branch?)
      ensures merged ==> m > 0 && Deficit(tree, key, m - 1) && |nodes| == |old(nodes)| - 1 && tree.Branch?
      ensures merged && m > 1 ==> Count(tree) >= 2
      ensures old(Filled(tree)) ==> !merged && tree == old(tree)
    {
      hide Less, First, Rank, Wf, Forest, Flat, Leaves, LeavesOf, Filled, FilledOf, Rep, RepOf, Chained, Linked,
        Distinct, Ids, IdsOf, At, Sorted, Around;
      AtZero(tree, key);
      WfShape(tree, height, None, None);
      var parent := root;
      ghost var n := 0;
      if m == 0 {
        LackCured(tree, key, 0, height);
      }
      while true
        invariant n <= height && At(tree, key, n).id == parent
        invariant n < m || Filled(tree)
        invariant tree == old(tree) && nodes == old(nodes) && Sound() && SameMap() && merges == old(merges)
        invariant n > 0 ==> Count(At(tree, key, n)) >= MIN_KEYS
        decreases height - n
      {
        Arrive(nodes, tree, height, key, n);
        match nodes[parent] {
          case Leaf(_, _, _, _) =>
            return false;
          case Internal(keys, heads, children) =>
            if |children| <= 1 {
              return false;
            }
            var idx := LowerBound(keys, heads, key);
            var child := children[if idx < |children| - 1 then idx else |children| - 1];
            var body := nodes[child];
            var lacking := if body.Leaf? then |body.keys| < MIN_KEYS else |body.children| < MIN_KEYS;
            assert lacking <==> Count(At(tree, key, n + 1)) < MIN_KEYS;
            LackLevel(tree, key, m, n, height);
            if !lacking {
              if body.Leaf? {
                return false;
              }
              parent, n := child, n + 1;
            } else {
              merged := FixChild(parent, idx, key, n);
              return;
            }
        }
      }
    }

    /** Collapse single-child internal roots (the reverse of wrapping). */
    method CollapseRoot()
      requires Sound() && Filled(tree)
      modifies this
      ensures Sound() && Filled(tree) && (tree.Branch? ==> Count(tree) >= 2)
      ensures All() == old(All()) && entries == old(entries)
      ensures old(tree.Branch? ==> Count(tree) >= 2) ==> tree == old(tree) && height == old(height)
    {
      hide Less, First, Rank, Wf, Forest, Flat, Leaves, LeavesOf, Filled, FilledOf, Rep, RepOf, Chained, Linked,
        Distinct, Ids, IdsOf, At, Sorted;
      while true
        invariant Sound() && Filled(tree) && All() == old(All()) && entries == old(entries)
        invariant old(tree.Branch? ==> Count(tree) >= 2) ==> tree == old(tree) && height == old(height)
        decreases height
      {
        AtZero(tree, []);
        Arrive(nodes, tree, height, [], 0);
        match nodes[root] {
          case Internal(_, _, children) =>
            if |children| != 1 {
              break;
            }
            CollapseStep(nodes, tree, height);
            nodes := nodes - {root};
            root, splits := children[0], splits + 1;
            tree, height := tree.children[0], height - 1;
          case Leaf(_, _, _, _) =>
            break;
        }
      }
    }

    /** Remove `key` and rebalance. The fix-up loop ends because each merge frees a node. */
    method Remove(key: Key) returns (removed: Option<Key>)
      requires Valid()
      modifies this
      ensures Valid()
      ensures removed == if key in old(Contents()) then Some(old(Contents())[key]) else None
      ensures Contents() == old(Contents()) - {key}
      ensures old(CutStrands(tree, key, height) && |At(tree, key, height).keys| > MIN_KEYS) ==> Stranded(tree, key, height)
    {
      hide Less, First, Rank, Wf, Forest, Flat, Leaves, LeavesOf, Filled, FilledOf, Rep, RepOf, Chained, Linked,
        Distinct, Ids, IdsOf, At, Sorted, MapOf, Stranded, CutStrands, Deficit;
      AtZero(tree, key);
      removed := DeleteRec(root, key, 0);
      if removed.None? {
        return;
      }
      entries := entries - 1;
      ghost var t0, h0, all0 := tree, height, All();
      ghost var m: nat := height;
      WfShape(tree, height, None, None);
      var merged := true;
      while merged
        invariant Sound() && All() == all0 && entries == |All()| && height == h0
        invariant merged ==> m <= height && Deficit(tree, key, m) && (m > 0 ==> Count(tree) >= 2)
        invariant !merged ==> Filled(tree)
        invariant Filled(t0) ==> tree == t0
        invariant tree.Branch? == t0.Branch?
        decreases |nodes| + if merged then 1 else 0
      {
        ghost var cells := nodes;
        merged := FixPass(key, m);
        assert !merged ==> |nodes.Keys| == |cells.Keys|;
        m := if merged then m - 1 else m;
      }
      CollapseRoot();
    }
  }

  /** The level that lacks an entry is cured when it is not short after all. */
  lemma LackCured(t: Tree, key: Key, m: nat, d: nat)
    requires m <= d && Wf(t, d, None, None) && Deficit(t, key, m)
    requires m > 0 ==> Count(At(t, key, m)) >= MIN_KEYS
    ensures Filled(t)
  {
    AroundWhole(t, key, m, d, None, None);
  }

  /** Where on the path an underfull node can be, seen from the node at level `n`. */
  lemma LackLevel(t: Tree, key: Key, m: nat, n: nat, d: nat)
    requires m <= d && n < d && Wf(t, d, None, None) && Deficit(t, key, m) && (n < m || Filled(t))
    ensures Count(At(t, key, n + 1)) >= MIN_KEYS ==> n + 1 < m || Filled(t)
    ensures Count(At(t, key, n + 1)) < MIN_KEYS ==>
              && n + 1 == m && !Filled(t) && Around(t, key, n)
              && (n > 0 ==> Count(At(t, key, n)) >= MIN_KEYS)
              && Goes(At(t, key, n), key) && Lacking(At(t, key, n), First(At(t, key, n).keys, key))
  {
    AroundWhole(t, key, n + 1, d, None, None);
    if n + 1 == m {
      AroundParent(t, key, n, d, None, None);
      AtSum(t, key, n, 1);
      PathWf(t, key, n, d, None, None);
      StepDown(At(t, key, n), key, d - n, LoAt(t, key, n, None), HiAt(t, key, n, None));
      AtChild(At(t, key, n), key, 1);
      AtZero(Child(At(t, key, n), key), key);
    } else if n + 1 < m {
      AroundLevel(t, key, n + 1, m, d);
    }
  }

  lemma {:induction false} AroundLevel(t: Tree, key: Key, n: nat, m: nat, d: nat)
    requires 0 < n < m <= d && Wf(t, d, None, None) && Around(t, key, m)
    ensures Count(At(t, key, n)) >= MIN_KEYS
    decreases m - n
  {
    AroundParent(t, key, m - 1, d, None, None);
    if n < m - 1 {
      AroundLevel(t, key, n, m - 1, d);
    }
  }

  lemma CollapseStep(h: Heap, t: Tree, d: nat)
    requires Stored(h, t, d) && Filled(t) && t.Branch? && |t.children| == 1
    ensures d > 0 && Stored(h - {t.id}, t.children[0], d - 1) && Filled(t.children[0]) && Leaves(t.children[0]) == Leaves(t)
  {
    var c := t.children[0];
    WfShape(t, d, None, None);
    assert t.children == [c] && t.keys == [];
    AtChild(t, [], 1);
    AtZero(c, []);
    RepAt(h, t, [], 1);
    ForestOne(c, d - 1, None, None);
    LeavesOne(c);
    IdsOne(c);
    RepFrame(h, h - {t.id}, c);
  }

  /** Cutting `key`, the largest of a non-last leaf, leaves it stranded. */
  ghost predicate CutStrands(t: Tree, key: Key, d: nat) {
    var leaf := At(t, key, d);
    leaf.Tip? && |leaf.keys| > 1 && leaf.next.Some? && leaf.keys[|leaf.keys| - 1] == key
  }

  lemma HeadsCut(ks: seq<Key>, i: nat)
    requires i < |ks|
    ensures HeadsFor(RemoveAt(ks, i)) == RemoveAt(HeadsFor(ks), i)
  {
  }

  lemma NoDeficit(t: Tree, key: Key, n: nat, d: nat)
    requires n <= d && Wf(t, d, None, None) && Filled(t)
    ensures Deficit(t, key, n)
  {
    AroundWhole(t, key, n, d, None, None);
  }

  lemma MissingCut(t: Tree, key: Key, d: nat)
    requires Wf(t, d, None, None)
    requires var leaf := At(t, key, d); !(First(leaf.keys, key) < |leaf.keys| && leaf.keys[First(leaf.keys, key)] == key)
    ensures !CutStrands(t, key, d)
  {
    if CutStrands(t, key, d) {
      PathWf(t, key, d, d, None, None);
      var ks := At(t, key, d).keys;
      OrderLaws();
      assert forall i :: 0 <= i < |ks| - 1 ==> Less(ks[i], ks[|ks| - 1]);
      FirstIsUnique(ks, key, |ks| - 1);
    }
  }

  lemma FillReplaced(t: Tree, key: Key, n: nat, s: Tree, d: nat)
    requires n <= d && Wf(t, d, None, None) && Wf(Replace(t, key, n, s), d, None, None)
    requires Around(t, key, n) && Filled(s) && (n > 0 ==> Count(s) >= MIN_KEYS)
    ensures Filled(Replace(t, key, n, s))
  {
    AroundReplace(t, key, n, s, d, None, None);
    ReplaceAt(t, key, n, s, d, None, None);
    AroundWhole(Replace(t, key, n, s), key, n, d, None, None);
  }

  /** The heap step of taking a key out of its leaf. */
  lemma CutStep(h: Heap, t: Tree, d: nat, key: Key)
    requires Stored(h, t, d) && Filled(t) && At(t, key, d).Tip? && Even(At(t, key, d))
    requires var leaf := At(t, key, d);
             First(leaf.keys, key) < |leaf.keys| && leaf.keys[First(leaf.keys, key)] == key
    ensures var leaf := At(t, key, d);
            var s := CutTip(leaf, First(leaf.keys, key));
            var h', t' := h[s.id := BodyOf(s)], Replace(t, key, d, s);
            && Stored(h', t', d) && t'.id == t.id && h'.Keys == h.Keys
            && MapOf(Flat(Leaves(t'))) == MapOf(Flat(Leaves(t))) - {key}
            && |Flat(Leaves(t'))| == |Flat(Leaves(t))| - 1
            && Deficit(t', key, d)
            && (CutStrands(t, key, d) ==> Stranded(t', key, d))
            && (|leaf.keys| > MIN_KEYS ==> Filled(t'))
  {
    hide Less, First, Rank, Wf, Forest, Flat, Leaves, LeavesOf, Filled, FilledOf, Rep, RepOf, Chained, Linked,
      Distinct, DistinctOf, Ids, IdsOf, At, Replace, Sorted, LocalStep, Pre, Post, MapOf, Agree, BodyOf, LoAt, HiAt, Entries,
      Stranded, CutStrands;
    var leaf := At(t, key, d);
    var s := CutTip(leaf, First(leaf.keys, key));
    var h', t' := h[s.id := BodyOf(s)], Replace(t, key, d, s);
    PathWf(t, key, d, d, None, None);
    CutTipWf(leaf, First(leaf.keys, key), LoAt(t, key, d, None), HiAt(t, key, d, None));
    TipStep(h, t, d, key, s);
    Localize(h, h', t, key, d, s, d);
    LeavesTip(leaf);
    LeavesTip(s);
    PathIds(t, key, d);
    CutContents(t, d, key, Flat(Pre(t, key, d)), Flat(Post(t, key, d)));
    AroundWhole(t, key, d, d, None, None);
    AroundReplace(t, key, d, s, d, None, None);
    ReplaceAt(t, key, d, s, d, None, None);
    CutStranded(t, t', key, d);
    if |leaf.keys| > MIN_KEYS {
      FillReplaced(t, key, d, s, d);
    }
  }

  lemma CutStranded(t: Tree, t': Tree, key: Key, d: nat)
    requires Wf(t, d, None, None)
    requires var leaf := At(t, key, d);
             && leaf.Tip? && Even(leaf) && First(leaf.keys, key) < |leaf.keys| && leaf.keys[First(leaf.keys, key)] == key
             && At(t', key, d) == CutTip(leaf, First(leaf.keys, key))
    ensures CutStrands(t, key, d) ==> Stranded(t', key, d)
  {
    if CutStrands(t, key, d) {
      PathWf(t, key, d, d, None, None);
      var leaf := At(t, key, d);
      var m := |leaf.keys| - 1;
      assert forall i :: 0 <= i < m ==> Less(leaf.keys[i], leaf.keys[m]);
      FirstIsUnique(leaf.keys, key, m) by { OrderLaws(); }
      assert At(t', key, d).keys == leaf.keys[..m];
    }
  }

  /** Inserting above every key returns after one descent, in every tree. */
  method Append(t: BTree, key: Key, val: Key)
    requires t.Valid() && forall k :: k in t.Contents() ==> Less(k, key)
    modifies t
    ensures t.Valid() && t.Contents() == old(t.Contents())[key := val]
  {
    GreatestIn(t, key);
    hide *;
    var r := t.Insert(key, val, 1);
    assert r.Some? && r == Some(r.value);
    assert r.value || r == Some(false);
  }

  lemma GreatestIn(t: BTree, key: Key)
    requires t.Valid() && forall k :: k in t.Contents() ==> Less(k, key)
    ensures !Stranded(t.tree, key, t.height) && key !in t.Contents()
  {
    LessBothWays(key);
    hide Filled, Rep, Distinct, Ids, At, Sorted, MapOf, Stranded, Flat, Leaves, Wf, Forest, First, Rank, Chained, Less;
    GreatestNotStranded(t.nodes, t.tree, t.height, key);
  }

  /** Removing the largest key of a leaf that stays half full and has a successor makes
      re-inserting that key retry for ever: the property "insert returns" fails here. */
  method RemoveThenInsert(t: BTree, key: Key, val: Key, attempts: nat) returns (removed: Option<Key>, r: Option<bool>)
    requires t.Valid()
    requires CutStrands(t.tree, key, t.height) && |At(t.tree, key, t.height).keys| > MIN_KEYS
    modifies t
    ensures t.Valid() && t.Contents() == old(t.Contents()) - {key}
    ensures removed == (if key in old(t.Contents()) then Some(old(t.Contents())[key]) else None) && r == None
  {
    removed := t.Remove(key);
    r := t.Insert(key, val, attempts);
  }

  /** Every leaf below a root is at least half full. */
  lemma {:induction false} LeafFilled(t: Tree, key: Key, d: nat)
    requires Wf(t, d, None, None) && Filled(t)
    ensures d > 0 ==> |At(t, key, d).keys| >= MIN_KEYS
  {
    if d > 0 {
      StepDown(t, key, d, None, None);
      var i := First(t.keys, key);
      LeafFilledIn(Child(t, key), key, d - 1, Lo(None, t.keys, i), Hi(t.keys, None, i));
    }
  }

  lemma {:induction false} LeafFilledIn(t: Tree, key: Key, d: nat, lo: Option<Key>, hi: Option<Key>)
    requires Wf(t, d, lo, hi) && Above(lo, key) && AtMost(key, hi) && Filled(t) && Count(t) >= MIN_KEYS
    ensures |At(t, key, d).keys| >= MIN_KEYS
    decreases d
  {
    if d > 0 {
      StepDown(t, key, d, lo, hi);
      var i := First(t.keys, key);
      LeafFilledIn(Child(t, key), key, d - 1, Lo(lo, t.keys, i), Hi(t.keys, hi, i));
    }
  }

  /** A key found in the leaf of another has the same path. */
  lemma {:induction false} SameLeaf(t: Tree, key: Key, k: Key, d: nat, lo: Option<Key>, hi: Option<Key>)
    requires Wf(t, d, lo, hi) && Above(lo, key) && AtMost(key, hi) && k in At(t, key, d).keys
    ensures At(t, k, d) == At(t, key, d) && Above(lo, k) && AtMost(k, hi)
    decreases d
  {
    if d == 0 {
      var j :| 0 <= j < |t.keys| && t.keys[j] == k;
    } else {
      StepDown(t, key, d, lo, hi);
      var i := First(t.keys, key);
      SameLeaf(Child(t, key), key, k, d - 1, Lo(lo, t.keys, i), Hi(t.keys, hi, i));
      SameRoute(t, k, i, d, lo, hi);
    }
  }

  lemma SameRoute(t: Tree, k: Key, i: nat, d: nat, lo: Option<Key>, hi: Option<Key>)
    requires t.Branch? && Wf(t, d, lo, hi) && i < |t.children| == |t.keys| + 1 && Above(Lo(lo, t.keys, i), k) && AtMost(k, Hi(t.keys, hi, i))
    ensures First(t.keys, k) == i && Above(lo, k) && AtMost(k, hi)
  {
    OrderLaws();
    FirstIsUnique(t.keys, k, i);
  }

  /** A key below all others is never stranded. */
  lemma LeastNotStranded(t: Tree, d: nat, key: Key)
    requires Wf(t, d, None, None) && forall k :: k in MapOf(Flat(Leaves(t))) ==> Less(key, k)
    ensures !Stranded(t, key, d)
  {
    var leaf := At(t, key, d);
    if leaf.Tip? && |leaf.keys| > 0 {
      var k := leaf.keys[|leaf.keys| - 1];
      LeafKeyHeld(t, d, key, |leaf.keys| - 1);
      OrderLaws();
      assert Less(key, k);
    }
  }

  /** A key above all others is never stranded: its search ends in the last leaf. */
  lemma GreatestNotStranded(h: Heap, t: Tree, d: nat, key: Key)
    requires Stored(h, t, d) && forall k :: k in MapOf(Flat(Leaves(t))) ==> Less(k, key)
    requires Filled(t)
    ensures !Stranded(t, key, d)
  {
    hide Less, Rank, First, Wf, Forest, At, Pre, Post, Leaves, LeavesOf, MapOf, Flat, Ascending, Rep, Distinct;
    var leaf, a, b := At(t, key, d), Pre(t, key, d), Post(t, key, d);
    PathWf(t, key, d, d, None, None);
    WfShape(leaf, 0, LoAt(t, key, d, None), HiAt(t, key, d, None));
    PathLeaves(t, key, d);
    PathOrder(t, key, d, d, None, None);
    TreeEntries(t, d, None, None);
    TipLeaves(leaf);
    FlatSplice(a, [leaf], b);
    FlatOne(leaf);
    var es := Flat(Leaves(t));
    MapOfKeys(es);
    assert |Flat(b)| > 0 ==> es[|Flat(a)| + |Entries(leaf)|] == Flat(b)[0];
    LessBothWays(key);
    assert Flat(b) == [];
    assert Leaves(t)[|a|] == leaf;
    if b != [] {
      assert b[0] == Leaves(t)[|a| + 1];
      FullLeaves(t, d, None, None);
      FlatFirst(b);
    }
  }

  lemma LessBothWays(key: Key)
    ensures forall k :: !(Less(k, key) && Less(key, k))
  {
    OrderLaws();
  }

  lemma FlatFirst(ls: seq<Tree>)
    requires ls != [] && ls[0].Tip? && Even(ls[0]) && |ls[0].keys| > 0
    ensures Flat(ls) != []
  {
  }

  /** With more than one leaf, none is empty. */
  lemma {:induction false} FullLeaves(t: Tree, d: nat, lo: Option<Key>, hi: Option<Key>)
    requires Wf(t, d, lo, hi) && Filled(t) && (t.Tip? ==> |Leaves(t)| > 1 || |t.keys| >= MIN_KEYS)
    ensures forall j :: 0 <= j < |Leaves(t)| ==> Leaves(t)[j].Tip? && Even(Leaves(t)[j]) && |Leaves(t)[j].keys| > 0
    decreases t, 1
  {
    hide Less;
    if t.Branch? {
      FullLeavesOf(t.keys, t.children, d - 1, lo, hi);
    }
  }

  lemma {:induction false} FullLeavesOf(keys: seq<Key>, ts: seq<Tree>, d: nat, lo: Option<Key>, hi: Option<Key>)
    requires Forest(keys, ts, d, lo, hi) && FilledOf(ts)
    ensures forall j :: 0 <= j < |LeavesOf(ts)| ==> LeavesOf(ts)[j].Tip? && Even(LeavesOf(ts)[j]) && |LeavesOf(ts)[j].keys| > 0
    decreases ts, 0
  {
    hide Less;
    FullLeaves(ts[0], d, lo, Hi(keys, hi, 0));
    if |keys| > 0 {
      ForestSlice(keys, ts, d, lo, hi, 1, |ts|);
      assert ts[1..|ts|] == ts[1..] && keys[1..|ts| - 1] == keys[1..];
      FullLeavesOf(keys[1..], ts[1..], d, Some(keys[0]), hi);
    } else {
      assert ts[1..] == [];
    }
  }

  lemma LeafKeyHeld(t: Tree, d: nat, key: Key, j: nat)
    requires Wf(t, d, None, None) && j < |At(t, key, d).keys|
    ensures At(t, key, d).Tip? && At(t, key, d).keys[j] in MapOf(Flat(Leaves(t)))
  {
    hide Less, Rank, First, Wf, Forest, At, Pre, Post, Leaves, LeavesOf, MapOf, Flat, Ascending;
    var leaf := At(t, key, d);
    PathWf(t, key, d, d, None, None);
    WfShape(leaf, 0, LoAt(t, key, d, None), HiAt(t, key, d, None));
    PathLeaves(t, key, d);
    TreeEntries(t, d, None, None);
    TipLeaves(leaf);
    FlatSplice(Pre(t, key, d), [leaf], Post(t, key, d));
    FlatOne(leaf);
    var es := Flat(Leaves(t));
    MapOfKeys(es);
    assert es[|Flat(Pre(t, key, d))| + j] == Entries(leaf)[j];
  }

  lemma InsideAll(b: Bounds)
    ensures forall k {:trigger Inside(k, b)} :: Inside(k, b) <==>
              && (b.start.Some? ==> if b.startIncl then !Less(k, b.start.value) else Less(b.start.value, k))
              && (b.end.Some? ==> if b.endIncl then !Less(b.end.value, k) else Less(k, b.end.value))
  {
    hide Less, Before, Beyond;
    forall k
      ensures Inside(k, b) <==>
              && (b.start.Some? ==> if b.startIncl then !Less(k, b.start.value) else Less(b.start.value, k))
              && (b.end.Some? ==> if b.endIncl then !Less(b.end.value, k) else Less(k, b.end.value))
    {
      BoundsMeaning(k, b);
    }
  }

  lemma AscendingMeans(es: seq<Entry>)
    requires Ascending(es)
    ensures forall i, j :: 0 <= i < j < |es| ==> Less(es[i].0, es[j].0)
  {
  }

  /** A scan from a key to itself is a lookup when both ends are included, and empty otherwise. */
  method PointRange(t: BTree, k: Key, startIncl: bool, endIncl: bool) returns (out: seq<Entry>, v: Option<Key>)
    requires t.Valid()
    ensures v == if k in t.Contents() then Some(t.Contents()[k]) else None
    ensures out == if startIncl && endIncl && v.Some? then [(k, v.value)] else []
  {
    v := t.Get(k);
    out := t.Range(Bounds(Some(k), startIncl, Some(k), endIncl));
    hide BTree.Valid, BTree.Contents;
    OnlyBetween(k);
    if startIncl && endIncl && v.Some? {
      assert (k, v.value) in out;
      OneEntry(out, k);
    } else {
      assert |out| > 0 ==> out[0] in out;
    }
  }

  lemma OnlyBetween(k: Key)
    ensures forall x :: !Less(x, k) && !Less(k, x) ==> x == k
    ensures forall x :: !(Less(x, k) && Less(k, x))
    ensures !Less(k, k)
  {
    OrderLaws();
  }

  lemma OneEntry(out: seq<Entry>, k: Key)
    requires out != [] && forall e :: e in out ==> e.0 == k
    requires forall i, j :: 0 <= i < j < |out| ==> Less(out[i].0, out[j].0)
    ensures |out| == 1 || Less(k, k)
  {
    forall i | 0 <= i < |out| ensures out[i].0 == k {
      assert out[i] in out;
    }
    assert |out| > 1 ==> Less(out[0].0, out[1].0);
  }

  lemma FirstOfEmpty(keys: seq<Key>)
    ensures First(keys, []) == 0
  {
  }

  /** Left of the starting leaf nothing is inside the bounds. */
  lemma ScanStart(h: Heap, t: Tree, d: nat, b: Bounds)
    requires Stored(h, t, d)
    ensures var low: Key := if b.start.Some? then b.start.value else [];
            var j := |Pre(t, low, d)|;
            && j < |Leaves(t)| && Leaves(t)[j] == At(t, low, d)
            && Select(Flat(Leaves(t)[..j]), b) == []
  {
    hide Wf, Forest, Rep, Distinct, Ids, Select, Flat, LeavesOf;
    var low: Key := if b.start.Some? then b.start.value else [];
    PathWf(t, low, d, d, None, None);
    WfShape(At(t, low, d), 0, LoAt(t, low, d, None), HiAt(t, low, d, None));
    PathLeaves(t, low, d);
    PathOrder(t, low, d, d, None, None);
    var P := Pre(t, low, d);
    assert Leaves(t)[..|P|] == P;
    assert Leaves(t)[|P|] == At(t, low, d);
    var es := Flat(P);
    forall i | 0 <= i < |es|
      ensures !Inside(es[i].0, b)
    {
      assert Less(es[i].0, low);
    }
    SelectNone(es, b);
  }

  /** Visiting leaf `j`: its cell, its order against what was emitted, its successor. */
  lemma ScanStep(h: Heap, t: Tree, d: nat, j: nat, b: Bounds, out: seq<Entry>)
    requires Stored(h, t, d) && j < |Leaves(t)| && out == Select(Flat(Leaves(t)[..j]), b)
    ensures var l := Leaves(t)[j];
            && l.Tip? && Holds(h, l) && Even(l) && Sorted(l.keys)
            && Select(Flat(Leaves(t)[..j + 1]), b) == out + Select(Zip(l.keys, l.vals), b)
            && (out != [] && l.keys != [] ==> Less(out[|out| - 1].0, l.keys[0]))
            && l.next == if j + 1 < |Leaves(t)| then Some(Leaves(t)[j + 1].id) else None
  {
    hide Less, Wf, Leaves, Flat, Select, Rep, Distinct, Ids, Chained, Holds, Sorted, Zip;
    ScanCell(h, t, d, j);
    ScanOrder(t, d, j, b);
  }

  lemma ScanCell(h: Heap, t: Tree, d: nat, j: nat)
    requires Stored(h, t, d) && j < |Leaves(t)|
    ensures var l := Leaves(t)[j];
            && l.Tip? && Holds(h, l) && Even(l) && |l.vals| == |l.keys|
            && l.next == if j + 1 < |Leaves(t)| then Some(Leaves(t)[j + 1].id) else None
  {
    LeavesHeld(h, t, d, None, None);
    hide Less, Wf, Leaves, Flat, Rep, Distinct, Ids;
    assert Exit(Leaves(t)[j]) == Leaves(t)[j].next;
  }

  lemma ScanOrder(t: Tree, d: nat, j: nat, b: Bounds)
    requires Wf(t, d, None, None) && j < |Leaves(t)|
    requires Leaves(t)[j].Tip? && |Leaves(t)[j].vals| == |Leaves(t)[j].keys|
    ensures var l, out := Leaves(t)[j], Select(Flat(Leaves(t)[..j]), b);
            && Sorted(l.keys)
            && Select(Flat(Leaves(t)[..j + 1]), b) == out + Select(Zip(l.keys, l.vals), b)
            && (out != [] && l.keys != [] ==> Less(out[|out| - 1].0, l.keys[0]))
  {
    TreeEntries(t, d, None, None);
    hide Less, Wf, Leaves, Select, Sorted, Ascending;
    var ls := Leaves(t);
    var l := ls[j];
    FlatAt(ls, j);
    hide Flat;
    SelectConcat(Flat(ls[..j]), Zip(l.keys, l.vals), b);
    LeafOrder(Flat(ls[..j]), Zip(l.keys, l.vals), Flat(ls[j + 1..]), l.keys, b);
  }

  /** The entries around one leaf of a chain. */
  lemma FlatAt(ls: seq<Tree>, j: nat)
    requires j < |ls| && ls[j].Tip? && |ls[j].vals| == |ls[j].keys|
    ensures var es := Zip(ls[j].keys, ls[j].vals);
            && Flat(ls[..j + 1]) == Flat(ls[..j]) + es
            && Flat(ls) == Flat(ls[..j]) + es + Flat(ls[j + 1..])
  {
    var l := ls[j];
    assert ls[..j + 1] == ls[..j] + [l];
    FlatConcat(ls[..j], [l]);
    FlatOne(l);
    assert Entries(l) == Zip(l.keys, l.vals);
    assert ls == ls[..j + 1] + ls[j + 1..];
    FlatConcat(ls[..j + 1], ls[j + 1..]);
  }

  lemma LeafOrder(xs: seq<Entry>, L: seq<Entry>, ys: seq<Entry>, keys: seq<Key>, b: Bounds)
    requires Ascending(xs + L + ys) && |L| == |keys| && forall i :: 0 <= i < |L| ==> L[i].0 == keys[i]
    ensures Sorted(keys)
    ensures var out := Select(xs, b); out != [] && keys != [] ==> Less(out[|out| - 1].0, keys[0])
  {
    hide Less;
    var all: seq<Entry> := xs + L + ys;
    forall i, j | 0 <= i < j < |keys|
      ensures Less(keys[i], keys[j])
    {
      assert all[|xs| + i] == L[i] && all[|xs| + j] == L[j];
    }
    var out := Select(xs, b);
    if out != [] && keys != [] {
      SelectMembers(xs, b);
      assert out[|out| - 1] in out;
      var i :| 0 <= i < |xs| && xs[i] == out[|out| - 1];
      assert all[i] == xs[i] && all[|xs|] == L[0];
    }
  }

  /** A leaf that reaches past the end ends the scan. */
  lemma ScanStop(t: Tree, d: nat, j: nat, b: Bounds)
    requires Wf(t, d, None, None) && j < |Leaves(t)|
    requires var l := Leaves(t)[j]; l.Tip? && Even(l) && l.keys != [] && Beyond(l.keys[|l.keys| - 1], b)
    ensures Select(Flat(Leaves(t)), b) == Select(Flat(Leaves(t)[..j + 1]), b)
  {
    TreeEntries(t, d, None, None);
    hide Less, Wf, Leaves, Select, Ascending, Beyond, Inside;
    var ls := Leaves(t);
    var l := ls[j];
    FlatAt(ls, j);
    hide Flat;
    PastEnd(Flat(ls[..j]) + Zip(l.keys, l.vals), Flat(ls[j + 1..]), l.keys[|l.keys| - 1], b);
  }

  lemma PastEnd(xs: seq<Entry>, ys: seq<Entry>, k: Key, b: Bounds)
    requires Ascending(xs + ys) && xs != [] && xs[|xs| - 1].0 == k && Beyond(k, b)
    ensures Select(xs + ys, b) == Select(xs, b)
  {
    OrderLaws();
    hide Less, Rank, Select;
    var all: seq<Entry> := xs + ys;
    forall i | 0 <= i < |ys|
      ensures !Inside(ys[i].0, b)
    {
      assert all[|xs| + i] == ys[i] && all[|xs| - 1].0 == k;
      assert Less(k, ys[i].0);
    }
    SelectNone(ys, b);
    SelectConcat(xs, ys, b);
  }

  /** The selected entries are exactly the in-bounds part of the abstract map. */
  lemma RangeMeaning(t: Tree, d: nat, b: Bounds)
    requires Wf(t, d, None, None)
    ensures var out, M := Select(Flat(Leaves(t)), b), MapOf(Flat(Leaves(t)));
            && Ascending(out)
            && forall e :: e in out <==> e.0 in M && M[e.0] == e.1 && Inside(e.0, b)
  {
    TreeEntries(t, d, None, None);
    var es := Flat(Leaves(t));
    SelectMembers(es, b);
    MapOfKeys(es);
    hide Less, Wf, Leaves, Flat, Select, MapOf, Inside;
    forall e: Entry
      ensures e in es <==> e.0 in MapOf(es) && MapOf(es)[e.0] == e.1
    {
      if e.0 in MapOf(es) && MapOf(es)[e.0] == e.1 {
        var i :| 0 <= i < |es| && es[i].0 == e.0;
        assert es[i] == e;
      }
    }
  }

  /** Wrapping moves every path one level down and changes nothing else. */
  lemma WrapStep(h: Heap, t: Tree, d: nat, w: NodeId, key: Key)
    requires Stored(h, t, d) && w !in h && Filled(t) && |t.keys| == MAX_KEYS
    ensures var t', h' := Branch(w, [], [t]), h[w := Internal([], [], [t.id])];
            && Stored(h', t', d + 1) && Leaves(t') == Leaves(t) && Filled(t')
            && At(t', key, 1) == t && At(t', key, d + 1) == At(t, key, d)
  {
    var t', h' := Branch(w, [], [t]), h[w := Internal([], [], [t.id])];
    ForestOne(t, d, None, None);
    WfShape(t, d, None, None);
    LeavesOne(t);
    IdsOne(t);
    RepFrame(h, h', t);
    assert Names([t]) == [t.id] && HeadsFor([]) == [];
    assert First([], key) == 0 && Goes(t', key) && Child(t', key) == t;
    AtChild(t', key, 1);
    AtChild(t', key, d + 1);
    AtZero(t, key);
  }

  lemma StrandedIsMissing(t: Tree, d: nat, key: Key)
    requires Wf(t, d, None, None) && Stranded(t, key, d)
    ensures First(At(t, key, d).keys, key) == |At(t, key, d).keys|
  {
    PathWf(t, key, d, d, None, None);
    var ks := At(t, key, d).keys;
    OrderLaws();
    assert forall i :: 0 <= i < |ks| - 1 ==> Less(ks[i], ks[|ks| - 1]);
    FirstIsUnique(ks, key, |ks|);
  }

  lemma LeavesTip(t: Tree)
    requires t.Tip?
    ensures Flat(Leaves(t)) == Entries(t) && Filled(t) && t.id in Ids(t)
  {
    FlatOne(t);
  }

  /** The heap step of a leaf edit, and its effect on the whole tree. */
  lemma PutStep(h: Heap, t: Tree, d: nat, key: Key, val: Key)
    requires Stored(h, t, d) && At(t, key, d).Tip? && Even(At(t, key, d))
    requires var leaf := At(t, key, d);
             var i := First(leaf.keys, key);
             |leaf.keys| < MAX_KEYS || (i < |leaf.keys| && leaf.keys[i] == key)
    ensures var s := PutTip(At(t, key, d), key, val);
            var h', t' := h[s.id := BodyOf(s)], Replace(t, key, d, s);
            && Stored(h', t', d) && t'.id == t.id && h'.Keys == h.Keys
            && MapOf(Flat(Leaves(t'))) == MapOf(Flat(Leaves(t)))[key := val]
            && |Flat(Leaves(t'))| == |Flat(Leaves(t))| + (if key in MapOf(Flat(Leaves(t))) then 0 else 1)
            && (Filled(t) ==> Filled(t'))
  {
    hide Less, First, Rank, Wf, Forest, Flat, Leaves, LeavesOf, Filled, FilledOf, Rep, RepOf, Chained, Linked,
      Distinct, DistinctOf, Ids, IdsOf, At, Replace, Sorted, LocalStep, Pre, Post, MapOf, Agree, BodyOf, LoAt, HiAt, Entries;
    var leaf := At(t, key, d);
    var s := PutTip(leaf, key, val);
    var h', t' := h[s.id := BodyOf(s)], Replace(t, key, d, s);
    PathWf(t, key, d, d, None, None);
    PutTipWf(leaf, key, val, LoAt(t, key, d, None), HiAt(t, key, d, None));
    TipStep(h, t, d, key, s);
    Localize(h, h', t, key, d, s, d);
    LeavesTip(leaf);
    LeavesTip(s);
    SplitKeepsFill(t, key, d, s, d);
    TreeEntries(t', d, None, None);
    PathIds(t, key, d);
    PutContents(t, d, key, val, Flat(Pre(t, key, d)), Flat(Post(t, key, d)));
  }

  lemma ChildCell(t: Tree, key: Key, n: nat)
    requires Distinct(t) && Goes(At(t, key, n), key)
    ensures var p := At(t, key, n);
            p.id in Ids(t) && Child(p, key).id in Ids(t) && Child(p, key).id != p.id
  {
    var p := At(t, key, n);
    PathIds(t, key, n);
    IdsMember(p.children, First(p.keys, key));
    assert Child(p, key).id in Ids(Child(p, key));
  }

  lemma SplitKeepsFill(t: Tree, key: Key, n: nat, s: Tree, d: nat)
    requires n <= d && Wf(t, d, None, None) && Wf(Replace(t, key, n, s), d, None, None)
    requires Filled(At(t, key, n)) ==> Filled(s)
    requires Count(s) >= Count(At(t, key, n))
    ensures Filled(t) ==> Filled(Replace(t, key, n, s))
  {
    if Filled(t) {
      AroundWhole(t, key, n, d, None, None);
      AroundReplace(t, key, n, s, d, None, None);
      AroundWhole(Replace(t, key, n, s), key, n, d, None, None);
      ReplaceAt(t, key, n, s, d, None, None);
    }
  }

  /** The leaf of the least key comes first, so in a tree of more entries than a leaf holds it
      has a successor. */
  lemma LeastHasNext(h: Heap, t: Tree, d: nat, key: Key)
    requires Stored(h, t, d) && |Flat(Leaves(t))| > MAX_KEYS
    requires forall k :: k in MapOf(Flat(Leaves(t))) ==> !Less(k, key)
    ensures At(t, key, d).Tip? && At(t, key, d).next.Some?
  {
    hide Less, Rank, First, Wf, Forest, At, Pre, Post, Leaves, LeavesOf, MapOf, Flat, Ascending, Rep, Distinct;
    var leaf, a, b := At(t, key, d), Pre(t, key, d), Post(t, key, d);
    PathWf(t, key, d, d, None, None);
    WfShape(leaf, 0, LoAt(t, key, d, None), HiAt(t, key, d, None));
    PathLeaves(t, key, d);
    PathOrder(t, key, d, d, None, None);
    TreeEntries(t, d, None, None);
    TipLeaves(leaf);
    FlatSplice(a, [leaf], b);
    FlatOne(leaf);
    var es := Flat(Leaves(t));
    MapOfKeys(es);
    assert |Flat(a)| > 0 ==> es[0] == Flat(a)[0];
    assert Flat(a) == [];
    assert b != [] by { FlatNone(); }
    assert Leaves(t)[|a|] == leaf && Leaves(t)[|a| + 1] == b[0];
  }

  lemma FlatNone()
    ensures Flat([]) == []
  {
  }

  /** One-byte keys from `i` up, all with the value `val`. */
  ghost predicate Counting(m: map<Key, Key>, i: nat, val: Key) {
    && |m| + i == MAX_KEYS + 1 && forall k :: k in m ==> |k| == 1 && i <= k[0] && m[k] == val
  }

  lemma CountingNext(m: map<Key, Key>, i: nat, val: Key)
    requires 0 < i < 256 && Counting(m, i, val)
    ensures Counting(m[[i - 1] := val], i - 1, val) && [i - 1] !in m && forall k :: k in m ==> Less([i - 1], k)
  {
    var k0: Key := [i - 1];
    forall k | k in m ensures Less(k0, k) {
      assert k0[0] < k[0];
    }
  }

  lemma CountingStart(val: Key)
    ensures Counting(map[], MAX_KEYS + 1, val)
  {
  }

  lemma CountingLeast(m: map<Key, Key>, val: Key)
    requires Counting(m, 0, val)
    ensures forall k :: k in m ==> !Less(k, [0])
  {
    forall k | k in m ensures !Less(k, [0]) {
      assert k[1..] == [] && [0][1..] == [];
    }
  }

  /** Inserts of ever smaller keys into a new tree all succeed; the last went into a leaf that
      is more than half full. */
  method CountDown(val: Key) returns (t: BTree)
    ensures fresh(t) && t.Valid() && Counting(t.Contents(), 0, val)
    ensures t.height > 0 ==> |At(t.tree, [0], t.height).keys| > MIN_KEYS
  {
    hide At, MapOf, Stranded, Flat, Leaves, Counting, Less, Rank, First, BTree.Valid, BTree.Contents, BTree.Sound, BTree.All;
    t := new BTree();
    var i: nat := MAX_KEYS + 1;
    CountingStart(val);
    while i > 0
      invariant i <= MAX_KEYS + 1 && fresh(t) && t.Valid() && Counting(t.Contents(), i, val)
      invariant i <= MAX_KEYS && t.height > 0 ==> |At(t.tree, [i], t.height).keys| > MIN_KEYS
    {
      CountingNext(t.Contents(), i, val);
      i := i - 1;
      NotStrandedIn(t, [i]);
      ghost var m := t.Contents();
      assert [i] !in m;
      var done := t.Insert([i], val, 1);
      assert done.Some? && done == Some(done.value);
      assert done.value || done == Some(false);
    }
  }

  lemma NotStrandedIn(t: BTree, key: Key)
    requires t.Valid() && forall k :: k in t.Contents() ==> Less(key, k)
    ensures !Stranded(t.tree, key, t.height)
  {
    hide Filled, Rep, Chained, Distinct, Ids, At, Sorted, MapOf, Stranded, Flat, Leaves, Wf, Forest, First, Rank, Less;
    LeastNotStranded(t.tree, t.height, key);
  }

  /** Such a tree is one to which the above applies: removing one key and inserting it again,
      the insert never returns. */
  method StrandingIsReachable(val: Key, attempts: nat) returns (t: BTree, key: Key, removed: Option<Key>, r: Option<bool>)
    ensures t.Valid() && removed == Some(val) && key !in t.Contents() && |t.Contents()| == 128 && r == None
  {
    t := CountDown(val);
    hide *;
    ReadyToStrand(t, val);
    key := LastOfLeaf(t, [0]);
    Ready(t.tree, t.height, t.Contents(), key, val);
    removed, r := RemoveThenInsert(t, key, val, attempts);
  }

  /** Removing `key` strands it. */
  ghost predicate Strands(t: Tree, d: nat, m: map<Key, Key>, key: Key, val: Key) {
    && CutStrands(t, key, d) && |At(t, key, d).keys| > MIN_KEYS
    && key in m && m[key] == val && |m - {key}| == MAX_KEYS
  }

  lemma Ready(t: Tree, d: nat, m: map<Key, Key>, key: Key, val: Key)
    requires Strands(t, d, m, key, val)
    ensures CutStrands(t, key, d) && |At(t, key, d).keys| > MIN_KEYS && key in m && m[key] == val
    ensures |m - {key}| == 128 && key !in m - {key}
  {
  }

  lemma ReadyToStrand(t: BTree, val: Key)
    requires t.Valid() && Counting(t.Contents(), 0, val)
    requires t.height > 0 ==> |At(t.tree, [0], t.height).keys| > MIN_KEYS
    ensures |At(t.tree, [0], t.height).keys| > 0
    ensures Strands(t.tree, t.height, t.Contents(), Last(At(t.tree, [0], t.height)), val)
  {
    hide Filled, Rep, Distinct, Ids, At, Sorted, MapOf, Stranded, Flat, Leaves, Wf, Forest, First, Rank, Chained, Less, CutStrands,
      Counting, Strands, Last;
    TreeReady(t.nodes, t.tree, t.height, val);
  }

  ghost function Last(leaf: Tree): Key { if |leaf.keys| > 0 then leaf.keys[|leaf.keys| - 1] else [] }

  lemma TreeReady(h: Heap, t: Tree, d: nat, val: Key)
    requires Stored(h, t, d) && Counting(MapOf(Flat(Leaves(t))), 0, val)
    requires d > 0 ==> |At(t, [0], d).keys| > MIN_KEYS
    ensures |At(t, [0], d).keys| > 0 && Strands(t, d, MapOf(Flat(Leaves(t))), Last(At(t, [0], d)), val)
  {
    var m := MapOf(Flat(Leaves(t)));
    CountingLeast(m, val);
    assert |m| == MAX_KEYS + 1 && forall k :: k in m ==> m[k] == val;
    hide Filled, Rep, Distinct, Ids, At, Sorted, MapOf, Stranded, Flat, Leaves, Wf, Forest, First, Rank, Chained, Less, CutStrands,
      Counting;
    EntryCount(h, t, d);
    ReachedStranding(h, t, d, [0]);
    LeafKeyHeld(t, d, [0], |At(t, [0], d).keys| - 1);
    OneLess(m, Last(At(t, [0], d)));
  }

  lemma OneLess(m: map<Key, Key>, k: Key)
    requires k in m
    ensures |m - {k}| == |m| - 1
  {
    assert (m - {k})[k := m[k]] == m;
  }

  lemma EntryCount(h: Heap, t: Tree, d: nat)
    requires Stored(h, t, d)
    ensures |MapOf(Flat(Leaves(t)))| == |Flat(Leaves(t))|
  {
    TreeEntries(t, d, None, None);
    MapOfKeys(Flat(Leaves(t)));
  }

  /** The largest key of the leaf the search for `k` ends in. */
  method LastOfLeaf(t: BTree, k: Key) returns (last: Key)
    requires t.Valid() && |At(t.tree, k, t.height).keys| > 0
    ensures last == Last(At(t.tree, k, t.height))
  {
    hide Less, First, Rank, Wf, Forest, MapOf, Flat, Leaves, Filled, Rep, Chained, Distinct, Ids, At, Sorted;
    var node := t.root;
    ghost var n := 0;
    AtZero(t.tree, k);
    while true
      invariant n <= t.height && At(t.tree, k, n).id == node
      decreases t.height - n
    {
      Arrive(t.nodes, t.tree, t.height, k, n);
      match t.nodes[node] {
        case Leaf(keys, _, _, _) =>
          return keys[|keys| - 1];
        case Internal(keys, heads, children) =>
          var idx := LowerBound(keys, heads, k);
          node, n := children[idx], n + 1;
      }
    }
  }

  lemma ReachedStranding(h: Heap, t: Tree, d: nat, key: Key)
    requires Stored(h, t, d) && |Flat(Leaves(t))| > MAX_KEYS && forall k :: k in MapOf(Flat(Leaves(t))) ==> !Less(k, key)
    requires d > 0 ==> |At(t, key, d).keys| > MIN_KEYS
    ensures var leaf := At(t, key, d);
            |leaf.keys| > MIN_KEYS && CutStrands(t, Last(leaf), d) && At(t, Last(leaf), d) == leaf
  {
    hide Less, Rank, First, Wf, Forest, At, MapOf, Ascending, Rep, Distinct, Chained, Flat, Leaves, CutStrands;
    var leaf := At(t, key, d);
    LeastHasNext(h, t, d, key);
    Deep(h, t, d);
    SameLeaf(t, key, Last(leaf), d, None, None);
    IsCut(t, d, Last(leaf));
  }

  lemma Deep(h: Heap, t: Tree, d: nat)
    requires Stored(h, t, d) && |Flat(Leaves(t))| > MAX_KEYS
    ensures d > 0
  {
    WfShape(t, d, None, None);
    hide Wf, Rep, Distinct, Chained, Leaves, Flat;
    if d == 0 {
      TipLeaves(t);
      FlatOne(t);
    }
  }

  lemma IsCut(t: Tree, d: nat, key: Key)
    requires var leaf := At(t, key, d);
             leaf.Tip? && |leaf.keys| > MIN_KEYS && leaf.next.Some? && key == Last(leaf)
    ensures CutStrands(t, key, d)
  {
    hide At;
  }
}
