/**
 Range scans: walking the leaf chain and emitting the entries inside the bounds.
 */
module BTreeRange {
  import opened Bytes
  import opened BTreeShape
  import opened BTreeMoves
  import opened BTreePaths
  import opened BTreeHeap

  /** Bounds of a scan; `None` is open-ended. */
  datatype Bounds = Bounds(start: Option<Key>, startIncl: bool, end: Option<Key>, endIncl: bool)

  predicate Before(k: Key, b: Bounds) {
    b.start.Some? && (Less(k, b.start.value) || (k == b.start.value && !b.startIncl))
  }

  predicate Beyond(k: Key, b: Bounds) {
    b.end.Some? && (Less(b.end.value, k) || (k == b.end.value && !b.endIncl))
  }

  predicate Inside(k: Key, b: Bounds) { !Before(k, b) && !Beyond(k, b) }

  /** What the bounds mean: an inclusive start admits itself and everything larger, an exclusive
      one only what is larger; likewise the end. */
  lemma BoundsMeaning(k: Key, b: Bounds)
    ensures !Before(k, b) <==> (b.start.Some? ==> if b.startIncl then !Less(k, b.start.value) else Less(b.start.value, k))
    ensures !Beyond(k, b) <==> (b.end.Some? ==> if b.endIncl then !Less(b.end.value, k) else Less(k, b.end.value))
  {
    OrderLaws();
  }

  /** The entries inside the bounds, in order. */
  ghost function Select(es: seq<Entry>, b: Bounds): seq<Entry> {
    if es == [] then []
    else Select(es[..|es| - 1], b) + if Inside(es[|es| - 1].0, b) then [es[|es| - 1]] else []
  }

  lemma {:induction false} SelectConcat(xs: seq<Entry>, ys: seq<Entry>, b: Bounds)
    ensures Select(xs + ys, b) == Select(xs, b) + Select(ys, b)
  {
    if ys == [] {
      assert xs + ys == xs;
    } else {
      var n := |ys| - 1;
      assert (xs + ys)[..|xs + ys| - 1] == xs + ys[..n] && (xs + ys)[|xs + ys| - 1] == ys[n];
      SelectConcat(xs, ys[..n], b);
    }
  }

  lemma {:induction false} SelectNone(es: seq<Entry>, b: Bounds)
    requires forall i :: 0 <= i < |es| ==> !Inside(es[i].0, b)
    ensures Select(es, b) == []
  {
    if es != [] {
      SelectNone(es[..|es| - 1], b);
    }
  }

  /** Select keeps exactly the inside entries: membership and order. */
  lemma {:induction false} SelectMembers(es: seq<Entry>, b: Bounds)
    ensures forall e :: e in Select(es, b) <==> e in es && Inside(e.0, b)
    ensures Ascending(es) ==> Ascending(Select(es, b))
  {
    if es != [] {
      var n := |es| - 1;
      SelectMembers(es[..n], b);
      assert es == es[..n] + [es[n]];
      if Ascending(es) {
        var s := Select(es[..n], b);
        forall i | 0 <= i < |s|
          ensures Less(s[i].0, es[n].0)
        {
          assert s[i] in es[..n];
          var j :| 0 <= j < n && es[j] == s[i];
        }
      }
    }
  }

  ghost predicate LastIs(out: seq<Entry>, last: Option<Key>) {
    last == if out == [] then None else Some(out[|out| - 1].0)
  }

  /** The inner loop of a scan over one leaf snapshot. Whatever the snapshot holds, the
      output stays ascending; if the snapshot is a sorted leaf beyond what was emitted,
      the output grows by exactly its inside entries. */
  method Emit(keys: seq<Key>, vals: seq<Key>, b: Bounds, out0: seq<Entry>, last0: Option<Key>)
      returns (out: seq<Entry>, last: Option<Key>, stop: bool)
    requires |vals| == |keys|
    requires LastIs(out0, last0)
    ensures LastIs(out, last) && out0 <= out
    ensures Ascending(out0) ==> Ascending(out)
    ensures forall i :: |out0| <= i < |out| ==> Inside(out[i].0, b) && out[i] in Zip(keys, vals)
    ensures Sorted(keys) && (last0.Some? && keys != [] ==> Less(last0.value, keys[0])) ==>
              out == out0 + Select(Zip(keys, vals), b) && (stop ==> keys != [] && Beyond(keys[|keys| - 1], b))
  {
    out, last, stop := out0, last0, false;
    ghost var sorted := Sorted(keys) && (last0.Some? && keys != [] ==> Less(last0.value, keys[0]));
    ghost var es := Zip(keys, vals);
    ghost var added: seq<Entry> := [];
    assert es[..0] == [];
    SelectNone([], b);
    hide Less, Rank, Select, Ascending, Before, Beyond, Inside;
    for i := 0 to |keys|
      invariant LastIs(out, last) && out == out0 + added && !stop
      invariant Ascending(out0) ==> Ascending(out)
      invariant forall j :: 0 <= j < |added| ==> Inside(added[j].0, b) && added[j] in es
      invariant sorted ==> added == Select(es[..i], b)
      invariant sorted && i > 0 && last.Some? ==> !Less(keys[i - 1], last.value)
      invariant sorted && i == 0 ==> last == last0
    {
      var k := keys[i];
      SelectSnoc(es, i, b);
      Sides(k, b);
      if sorted && last.Some? {
        if i > 0 {
          Beyond3(last.value, keys[i - 1], k);
        }
        assert Less(last.value, k);
        NotBack(last.value, k);
      }
      NotBack(k, k);
      if last.Some? && !Less(last.value, k) {
        continue;
      }
      if Before(k, b) {
        continue;
      }
      if Beyond(k, b) {
        if sorted {
          RestBeyond(keys, vals, i, b);
        }
        stop := true;
        return;
      }
      if Ascending(out0) {
        AscendSnoc(out, (k, vals[i]));
      }
      added := added + [es[i]];
      out, last := out + [(k, vals[i])], Some(k);
    }
    assert es[..|keys|] == es;
  }

  lemma Sides(k: Key, b: Bounds)
    ensures Inside(k, b) <==> !Before(k, b) && !Beyond(k, b)
  {
  }

  lemma Beyond3(a: Key, b: Key, c: Key)
    requires !Less(b, a) && Less(b, c)
    ensures Less(a, c)
  {
    OrderLaws();
  }

  lemma NotBack(a: Key, b: Key)
    ensures Less(a, b) || a == b ==> !Less(b, a)
  {
    OrderLaws();
  }

  lemma SelectSnoc(es: seq<Entry>, i: nat, b: Bounds)
    requires i < |es|
    ensures Select(es[..i + 1], b) == Select(es[..i], b) + if Inside(es[i].0, b) then [es[i]] else []
  {
    assert es[..i + 1][..i] == es[..i] && es[..i + 1][i] == es[i];
  }

  lemma AscendSnoc(out: seq<Entry>, e: Entry)
    requires Ascending(out) && (out != [] ==> Less(out[|out| - 1].0, e.0))
    ensures Ascending(out + [e])
  {
    OrderLaws();
    hide Less, Rank;
  }

  ghost function Zip(keys: seq<Key>, vals: seq<Key>): (es: seq<Entry>)
    requires |vals| == |keys|
    ensures |es| == |keys| && forall i :: 0 <= i < |es| ==> es[i] == (keys[i], vals[i])
  {
    seq(|keys|, i requires 0 <= i < |keys| => (keys[i], vals[i]))
  }

  lemma RestBeyond(keys: seq<Key>, vals: seq<Key>, i: nat, b: Bounds)
    requires |vals| == |keys| && Sorted(keys) && i < |keys| && Beyond(keys[i], b)
    ensures Select(Zip(keys, vals), b) == Select(Zip(keys, vals)[..i], b)
    ensures Beyond(keys[|keys| - 1], b)
  {
    OrderLaws();
    hide Less, Rank, Select;
    var es := Zip(keys, vals);
    forall j | i <= j < |keys|
      ensures Beyond(keys[j], b)
    {
      assert j == i || Less(keys[i], keys[j]);
    }
    var rest := es[i..];
    forall j | 0 <= j < |rest|
      ensures !Inside(rest[j].0, b)
    {
      assert rest[j] == es[i + j] && Beyond(keys[i + j], b);
    }
    assert es == es[..i] + rest;
    SelectConcat(es[..i], rest, b);
    SelectNone(rest, b);
  }

  /** The walk when other writers change leaves between visits: any sequence of leaf
      snapshots at all yields ascending keys inside the bounds, each from a snapshot. */
  method Walk(snaps: seq<Body>, b: Bounds) returns (out: seq<Entry>)
    requires forall i :: 0 <= i < |snaps| ==> snaps[i].Leaf? && |snaps[i].vals| == |snaps[i].keys|
    ensures Ascending(out)
    ensures forall i :: 0 <= i < |out| ==>
              Inside(out[i].0, b) && exists j :: 0 <= j < |snaps| && out[i] in Zip(snaps[j].keys, snaps[j].vals)
  {
    out := [];
    var last: Option<Key> := None;
    for s := 0 to |snaps|
      invariant LastIs(out, last) && Ascending(out)
      invariant forall i :: 0 <= i < |out| ==>
                  Inside(out[i].0, b) && exists j :: 0 <= j < |snaps| && out[i] in Zip(snaps[j].keys, snaps[j].vals)
    {
      var stop;
      ghost var prev := out;
      out, last, stop := Emit(snaps[s].keys, snaps[s].vals, b, out, last);
      forall i | 0 <= i < |out|
        ensures exists j :: 0 <= j < |snaps| && out[i] in Zip(snaps[j].keys, snaps[j].vals)
      {
        if i < |prev| {
          assert out[i] == prev[i];
        } else {
          assert out[i] in Zip(snaps[s].keys, snaps[s].vals);
        }
      }
      if stop {
        return;
      }
    }
  }

  // ---------------------------------------------------------------------
  // The chain of a stored tree
  // ---------------------------------------------------------------------

  lemma {:induction false} LeavesHeld(h: Heap, t: Tree, d: nat, lo: Option<Key>, hi: Option<Key>)
    requires Rep(h, t) && Wf(t, d, lo, hi)
    ensures forall j :: 0 <= j < |Leaves(t)| ==> Leaves(t)[j].Tip? && Even(Leaves(t)[j]) && Holds(h, Leaves(t)[j])
    decreases t, 1
  {
    hide Less;
    if t.Branch? {
      LeavesOfHeld(h, t.keys, t.children, d - 1, lo, hi);
    }
  }

  lemma {:induction false} LeavesOfHeld(h: Heap, keys: seq<Key>, ts: seq<Tree>, d: nat, lo: Option<Key>, hi: Option<Key>)
    requires RepOf(h, ts) && Forest(keys, ts, d, lo, hi)
    ensures forall j :: 0 <= j < |LeavesOf(ts)| ==> LeavesOf(ts)[j].Tip? && Even(LeavesOf(ts)[j]) && Holds(h, LeavesOf(ts)[j])
    decreases ts, 0
  {
    hide Less;
    LeavesHeld(h, ts[0], d, lo, Hi(keys, hi, 0));
    if |keys| > 0 {
      ForestSlice(keys, ts, d, lo, hi, 1, |ts|);
      assert ts[1..|ts|] == ts[1..] && keys[1..|ts| - 1] == keys[1..];
      LeavesOfHeld(h, keys[1..], ts[1..], d, Some(keys[0]), hi);
    } else {
      assert ts[1..] == [];
    }
  }
}
