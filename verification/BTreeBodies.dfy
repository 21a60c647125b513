/**
 The vector edits the writers make inside node bodies, and their meaning as moves
 on trees. Head caches are edited in step with the keys, never rebuilt, except in
 a fresh right half.
 */
module BTreeBodies {
  import opened Bytes
  import opened BTreeShape
  import opened BTreeMoves
  import opened BTreeHeap

  function InsertAt<T>(s: seq<T>, i: nat, x: T): seq<T>
    requires i <= |s|
  {
    s[..i] + [x] + s[i..]
  }

  function RemoveAt<T>(s: seq<T>, i: nat): seq<T>
    requires i < |s|
  {
    s[..i] + s[i + 1..]
  }

  predicate EvenBody(b: Body) {
    |b.heads| == |b.keys| && if b.Leaf? then |b.vals| == |b.keys| else |b.children| == |b.keys| + 1
  }

  lemma HeadsConcat(a: seq<Key>, b: seq<Key>)
    ensures HeadsFor(a + b) == HeadsFor(a) + HeadsFor(b)
  {
  }

  lemma HeadsOne(k: Key)
    ensures HeadsFor([k]) == [Head(k)]
  {
  }

  lemma HeadsCuts(ks: seq<Key>, i: nat)
    requires i <= |ks|
    ensures HeadsFor(ks[..i]) == HeadsFor(ks)[..i] && HeadsFor(ks[i..]) == HeadsFor(ks)[i..]
  {
  }

  // ---------------------------------------------------------------------
  // Split
  // ---------------------------------------------------------------------

  datatype Halves = Halves(left: Body, right: Body, sep: Key)

  function SplitBody(c: Body, right: NodeId): Halves
    requires |c.keys| >= 2 && EvenBody(c)
  {
    var mid := |c.keys| / 2;
    match c
    case Leaf(keys, heads, vals, next) =>
      Halves(Leaf(keys[..mid], heads[..mid], vals[..mid], Some(right)),
             Leaf(keys[mid..], HeadsFor(keys[mid..]), vals[mid..], next), keys[mid - 1])
    case Internal(keys, heads, children) =>
      Halves(Internal(keys[..mid], heads[..mid], children[..mid + 1]),
             Internal(keys[mid + 1..], HeadsFor(keys[mid + 1..]), children[mid + 1..]), keys[mid])
  }

  /** The parent takes up the separator and the new right node. */
  function Absorb(p: Body, at: nat, sep: Key, right: NodeId): Body
    requires p.Internal? && EvenBody(p) && at <= |p.keys|
  {
    Internal(InsertAt(p.keys, at, sep), InsertAt(p.heads, at, Head(sep)), InsertAt(p.children, at + 1, right))
  }

  lemma SplitBodyMeaning(c: Tree, right: NodeId)
    requires |c.keys| >= 2 && Even(c)
    ensures EvenBody(BodyOf(c))
    ensures var r := SplitRun(c, right);
            SplitBody(BodyOf(c), right) == Halves(BodyOf(r.trees[0]), BodyOf(r.trees[1]), r.keys[0])
  {
    HeadsCuts(c.keys, |c.keys| / 2);
    if c.Branch? {
      var mid := |c.keys| / 2;
      assert Names(c.children[..mid + 1]) == Names(c.children)[..mid + 1];
      assert Names(c.children[mid + 1..]) == Names(c.children)[mid + 1..];
    }
  }

  lemma AbsorbMeaning(p: Tree, i: nat, right: NodeId)
    requires p.Branch? && Even(p) && i < |p.children| && |p.children[i].keys| >= 2 && Even(p.children[i])
    ensures EvenBody(BodyOf(p))
    ensures var r := SplitRun(p.children[i], right);
            Absorb(BodyOf(p), i, r.keys[0], right) == BodyOf(Splice(p, i, i + 1, r))
  {
    var r := SplitRun(p.children[i], right);
    var s := Splice(p, i, i + 1, r);
    HeadsOf3(p.keys, i, r.keys[0]);
    assert s.keys == InsertAt(p.keys, i, r.keys[0]);
    assert Names(s.children) == InsertAt(Names(p.children), i + 1, right);
  }

  lemma HeadsOf3(ks: seq<Key>, i: nat, k: Key)
    requires i <= |ks|
    ensures HeadsFor(InsertAt(ks, i, k)) == InsertAt(HeadsFor(ks), i, Head(k))
  {
  }

  // ---------------------------------------------------------------------
  // Borrow and merge
  // ---------------------------------------------------------------------

  /** Bodies of a parent and of two neighbouring children. */
  datatype Family = Family(parent: Body, left: Body, right: Body)

  ghost predicate Kin(p: Body, i: nat, a: Body, b: Body) {
    p.Internal? && EvenBody(p) && i < |p.keys| && EvenBody(a) && EvenBody(b) && (a.Leaf? <==> b.Leaf?)
  }

  function Reseparate(p: Body, i: nat, k: Key, h: nat): Body
    requires p.Internal? && EvenBody(p) && i < |p.keys|
  {
    Internal(p.keys[i := k], p.heads[i := h], p.children)
  }

  function BorrowBodies(p: Body, i: nat, a: Body, b: Body, fromRight: bool): Family
    requires Kin(p, i, a, b) && if fromRight then |b.keys| > 1 else |a.keys| > 1
  {
    if fromRight then
      var k, h := b.keys[0], b.heads[0];
      var p' := Reseparate(p, i, k, h);
      if a.Leaf? then
        Family(p', Leaf(a.keys + [k], a.heads + [h], a.vals + [b.vals[0]], a.next),
               Leaf(b.keys[1..], b.heads[1..], b.vals[1..], b.next))
      else
        Family(p', Internal(a.keys + [p.keys[i]], a.heads + [p.heads[i]], a.children + [b.children[0]]),
               Internal(b.keys[1..], b.heads[1..], b.children[1..]))
    else
      var n := |a.keys| - 1;
      if a.Leaf? then
        Family(Reseparate(p, i, a.keys[n - 1], a.heads[n - 1]),
               Leaf(a.keys[..n], a.heads[..n], a.vals[..n], a.next),
               Leaf([a.keys[n]] + b.keys, [a.heads[n]] + b.heads, [a.vals[n]] + b.vals, b.next))
      else
        Family(Reseparate(p, i, a.keys[n], a.heads[n]),
               Internal(a.keys[..n], a.heads[..n], a.children[..n + 1]),
               Internal([p.keys[i]] + b.keys, [p.heads[i]] + b.heads, [a.children[n + 1]] + b.children))
  }

  /** `b` folds into `a`; the parent drops the separator and `b`. */
  function MergeBodies(p: Body, i: nat, a: Body, b: Body): (Body, Body)
    requires Kin(p, i, a, b)
  {
    (Internal(RemoveAt(p.keys, i), RemoveAt(p.heads, i), RemoveAt(p.children, i + 1)),
     if a.Leaf? then Leaf(a.keys + b.keys, a.heads + b.heads, a.vals + b.vals, b.next)
     else Internal(a.keys + [p.keys[i]] + b.keys, a.heads + [p.heads[i]] + b.heads, a.children + b.children))
  }

  lemma BorrowMeaning(p: Tree, i: nat, fromRight: bool)
    requires p.Branch? && Even(p) && i + 1 < |p.children|
    requires (p.children[i].Tip? <==> p.children[i + 1].Tip?) && Even(p.children[i]) && Even(p.children[i + 1])
    requires if fromRight then |p.children[i + 1].keys| > 1 else |p.children[i].keys| > 1
    ensures Kin(BodyOf(p), i, BodyOf(p.children[i]), BodyOf(p.children[i + 1]))
    ensures var r := BorrowRun(p.children[i], p.keys[i], p.children[i + 1], fromRight);
            BorrowBodies(BodyOf(p), i, BodyOf(p.children[i]), BodyOf(p.children[i + 1]), fromRight) ==
            Family(BodyOf(Splice(p, i, i + 2, r)), BodyOf(r.trees[0]), BodyOf(r.trees[1]))
  {
    var a, b := p.children[i], p.children[i + 1];
    var r := BorrowRun(a, p.keys[i], b, fromRight);
    var s := Splice(p, i, i + 2, r);
    assert s.keys == p.keys[i := r.keys[0]];
    assert HeadsFor(s.keys) == HeadsFor(p.keys)[i := Head(r.keys[0])];
    assert Names(s.children) == Names(p.children);
    if fromRight {
      BorrowRightMeaning(a, p.keys[i], b);
    } else {
      BorrowLeftMeaning(a, p.keys[i], b);
    }
  }

  lemma BorrowRightMeaning(a: Tree, sep: Key, b: Tree)
    requires (a.Tip? <==> b.Tip?) && Even(a) && Even(b) && |b.keys| > 1
    ensures var r := BorrowRight(a, sep, b);
            && BodyOf(r.trees[0]) ==
               (if a.Tip? then Leaf(a.keys + [b.keys[0]], HeadsFor(a.keys) + [Head(b.keys[0])], a.vals + [b.vals[0]], a.next)
                else Internal(a.keys + [sep], HeadsFor(a.keys) + [Head(sep)], Names(a.children) + [b.children[0].id]))
            && BodyOf(r.trees[1]) ==
               (if b.Tip? then Leaf(b.keys[1..], HeadsFor(b.keys)[1..], b.vals[1..], b.next)
                else Internal(b.keys[1..], HeadsFor(b.keys)[1..], Names(b.children)[1..]))
  {
    HeadsConcat(a.keys, [if a.Tip? then b.keys[0] else sep]);
    HeadsOne(if a.Tip? then b.keys[0] else sep);
    HeadsCuts(b.keys, 1);
    if a.Branch? {
      assert Names(a.children + [b.children[0]]) == Names(a.children) + [b.children[0].id];
      assert Names(b.children[1..]) == Names(b.children)[1..];
    }
  }

  lemma BorrowLeftMeaning(a: Tree, sep: Key, b: Tree)
    requires (a.Tip? <==> b.Tip?) && Even(a) && Even(b) && |a.keys| > 1
    ensures var r := BorrowLeft(a, sep, b);
            var n := |a.keys| - 1;
            && BodyOf(r.trees[0]) ==
               (if a.Tip? then Leaf(a.keys[..n], HeadsFor(a.keys)[..n], a.vals[..n], a.next)
                else Internal(a.keys[..n], HeadsFor(a.keys)[..n], Names(a.children)[..n + 1]))
            && BodyOf(r.trees[1]) ==
               (if b.Tip? then Leaf([a.keys[n]] + b.keys, [Head(a.keys[n])] + HeadsFor(b.keys), [a.vals[n]] + b.vals, b.next)
                else Internal([sep] + b.keys, [Head(sep)] + HeadsFor(b.keys), [a.children[n + 1].id] + Names(b.children)))
  {
    var n := |a.keys| - 1;
    HeadsConcat([if a.Tip? then a.keys[n] else sep], b.keys);
    HeadsOne(if a.Tip? then a.keys[n] else sep);
    HeadsCuts(a.keys, n);
    if a.Branch? {
      assert Names(a.children[..n + 1]) == Names(a.children)[..n + 1];
      assert Names([a.children[n + 1]] + b.children) == [a.children[n + 1].id] + Names(b.children);
    }
  }

  lemma MergeMeaning(p: Tree, i: nat)
    requires p.Branch? && Even(p) && i + 1 < |p.children|
    requires (p.children[i].Tip? <==> p.children[i + 1].Tip?) && Even(p.children[i]) && Even(p.children[i + 1])
    ensures Kin(BodyOf(p), i, BodyOf(p.children[i]), BodyOf(p.children[i + 1]))
    ensures var r := MergeRun(p.children[i], p.keys[i], p.children[i + 1]);
            MergeBodies(BodyOf(p), i, BodyOf(p.children[i]), BodyOf(p.children[i + 1])) ==
            (BodyOf(Splice(p, i, i + 2, r)), BodyOf(r.trees[0]))
  {
    var a, b := p.children[i], p.children[i + 1];
    var r := MergeRun(a, p.keys[i], b);
    var s := Splice(p, i, i + 2, r);
    assert s.keys == RemoveAt(p.keys, i);
    assert HeadsFor(s.keys) == RemoveAt(HeadsFor(p.keys), i);
    assert Names(s.children) == RemoveAt(Names(p.children), i + 1);
    MergedBody(a, p.keys[i], b);
  }

  lemma MergedBody(a: Tree, sep: Key, b: Tree)
    requires (a.Tip? <==> b.Tip?) && Even(a) && Even(b)
    ensures BodyOf(MergeRun(a, sep, b).trees[0]) ==
            if a.Tip? then Leaf(a.keys + b.keys, HeadsFor(a.keys) + HeadsFor(b.keys), a.vals + b.vals, b.next)
            else Internal(a.keys + [sep] + b.keys, HeadsFor(a.keys) + [Head(sep)] + HeadsFor(b.keys), Names(a.children) + Names(b.children))
  {
    if a.Tip? {
      HeadsConcat(a.keys, b.keys);
    } else {
      HeadsConcat(a.keys + [sep], b.keys);
      HeadsConcat(a.keys, [sep]);
      HeadsOne(sep);
      assert Names(a.children + b.children) == Names(a.children) + Names(b.children);
    }
  }
}
