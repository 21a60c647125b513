/**
 Sequences up to permutation.
 */
module Bags {
  function FlatMap<T, U>(f: T -> seq<U>, s: seq<T>): seq<U> {
    if s == [] then [] else FlatMap(f, s[..|s| - 1]) + f(s[|s| - 1])
  }

  function Map<T, U>(f: T -> U, s: seq<T>): (r: seq<U>)
    ensures |r| == |s| && forall i :: 0 <= i < |s| ==> r[i] == f(s[i])
  {
    seq(|s|, i requires 0 <= i < |s| => f(s[i]))
  }

  function Filter<T>(keep: T -> bool, s: seq<T>): seq<T> {
    if s == [] then [] else Filter(keep, s[..|s| - 1]) + if keep(s[|s| - 1]) then [s[|s| - 1]] else []
  }

  ghost predicate Unique<T>(s: seq<T>) { forall i, j :: 0 <= i < j < |s| ==> s[i] != s[j] }

  lemma {:induction false} FlatMapConcat<T, U>(f: T -> seq<U>, a: seq<T>, b: seq<T>)
    ensures FlatMap(f, a + b) == FlatMap(f, a) + FlatMap(f, b)
  {
    if b == [] {
      assert a + b == a;
    } else {
      FlatMapConcat(f, a, b[..|b| - 1]);
      assert (a + b)[..|a + b| - 1] == a + b[..|b| - 1];
    }
  }

  lemma FlatMapOne<T, U>(f: T -> seq<U>, x: T)
    ensures FlatMap(f, [x]) == f(x)
  {
    assert [x][..0] == [];
  }

  /** Where `x` occurs, the rest of the sequence with `x` taken out. */
  lemma TakeOut<T>(t: seq<T>, x: T) returns (a: seq<T>, b: seq<T>)
    requires x in t
    ensures t == a + [x] + b && multiset(t) == multiset(a + b) + multiset{x}
  {
    var i :| 0 <= i < |t| && t[i] == x;
    a, b := t[..i], t[i + 1..];
    assert t == a + [x] + b;
  }

  lemma FlatMapAround<T, U>(f: T -> seq<U>, a: seq<T>, x: T, b: seq<T>)
    ensures multiset(FlatMap(f, a + [x] + b)) == multiset(FlatMap(f, a + b)) + multiset(f(x))
  {
    FlatMapConcat(f, a + [x], b);
    FlatMapConcat(f, a, [x]);
    FlatMapConcat(f, a, b);
    FlatMapOne(f, x);
  }

  /** A flat map of a permutation is a permutation. */
  lemma {:induction false} FlatMapPermutes<T, U>(f: T -> seq<U>, s: seq<T>, t: seq<T>)
    requires multiset(s) == multiset(t)
    ensures multiset(FlatMap(f, s)) == multiset(FlatMap(f, t))
    decreases |s|
  {
    assert |t| == |multiset(t)| == |multiset(s)|;
    if s != [] {
      var init, x := s[..|s| - 1], s[|s| - 1];
      hide FlatMap;
      assert s == init + [x] + [] && init + [] == init;
      assert multiset(s) == multiset(init) + multiset{x} by { assert s == init + [x]; }
      assert x in multiset(t);
      var a, b := TakeOut(t, x);
      Cancel(multiset(init), multiset(a + b), x);
      FlatMapPermutes(f, init, a + b);
      FlatMapAround(f, init, x, []);
      FlatMapAround(f, a, x, b);
    }
  }

  lemma NoMembers<T>(s: seq<T>)
    requires forall x :: x !in s
    ensures s == []
  {
    assert forall x :: x in multiset(s) ==> x in s;
    assert |multiset(s)| == |s|;
  }

  lemma Cancel<T>(a: multiset<T>, b: multiset<T>, x: T)
    requires a + multiset{x} == b + multiset{x}
    ensures a == b
  {
    assert a == (a + multiset{x}) - multiset{x};
  }

  lemma {:induction false} FlatMapMembers<T, U>(f: T -> seq<U>, s: seq<T>, y: U)
    ensures y in FlatMap(f, s) <==> exists i :: 0 <= i < |s| && y in f(s[i])
  {
    if s != [] {
      var init := s[..|s| - 1];
      FlatMapMembers(f, init, y);
      assert forall i :: 0 <= i < |init| ==> init[i] == s[i];
    }
  }

  lemma UniqueConcat<T>(a: seq<T>, b: seq<T>)
    requires Unique(a) && Unique(b) && forall x :: x in a ==> x !in b
    ensures Unique(a + b)
  {
    var c := a + b;
    forall i, j | 0 <= i < j < |c|
      ensures c[i] != c[j]
    {
      if i < |a| <= j {
        assert c[i] in a && c[j] == b[j - |a|];
      }
    }
  }

  /** Disjoint images keep a flat map free of duplicates. */
  lemma {:induction false} UniqueFlatMap<T, U>(f: T -> seq<U>, s: seq<T>)
    requires Unique(s) && forall x :: x in s ==> Unique(f(x))
    requires forall x, y, z :: x in s && y in s && z in f(x) && z in f(y) ==> x == y
    ensures Unique(FlatMap(f, s))
  {
    if s != [] {
      var init, last := s[..|s| - 1], s[|s| - 1];
      UniqueFlatMap(f, init);
      forall z | z in FlatMap(f, init)
        ensures z !in f(last)
      {
        FlatMapMembers(f, init, z);
        var i :| 0 <= i < |init| && z in f(init[i]);
        assert init[i] == s[i];
      }
      UniqueConcat(FlatMap(f, init), f(last));
    }
  }

  lemma {:induction false} UniqueCount<T>(s: seq<T>, x: T)
    requires Unique(s)
    ensures multiset(s)[x] == if x in s then 1 else 0
  {
    if s != [] {
      var init := s[..|s| - 1];
      UniqueCount(init, x);
      assert s == init + [s[|s| - 1]];
    }
  }

  /** Two duplicate-free sequences with the same elements are permutations of each other. */
  lemma UniqueSame<T>(s: seq<T>, t: seq<T>)
    requires Unique(s) && Unique(t) && forall x :: x in s <==> x in t
    ensures multiset(s) == multiset(t)
  {
    forall x ensures multiset(s)[x] == multiset(t)[x] {
      UniqueCount(s, x);
      UniqueCount(t, x);
    }
  }

  lemma {:induction false} FilterMember<T>(keep: T -> bool, s: seq<T>, x: T)
    ensures x in Filter(keep, s) <==> x in s && keep(x)
  {
    if s != [] {
      var init, last := s[..|s| - 1], s[|s| - 1];
      FilterMember(keep, init, x);
      assert s == init + [last];
    }
  }

  lemma {:induction false} UniqueFilter<T>(keep: T -> bool, s: seq<T>)
    requires Unique(s)
    ensures Unique(Filter(keep, s))
  {
    if s != [] {
      var init, last := s[..|s| - 1], s[|s| - 1];
      UniqueFilter(keep, init);
      FilterMember(keep, init, last);
      if keep(last) {
        UniqueConcat(Filter(keep, init), [last]);
      }
    }
  }

  lemma {:induction false} FilterPermutes<T>(keep: T -> bool, s: seq<T>, t: seq<T>)
    requires multiset(s) == multiset(t)
    ensures multiset(Filter(keep, s)) == multiset(Filter(keep, t))
  {
    var f := (x: T) => if keep(x) then [x] else [];
    FilterIsFlatMap(keep, f, s);
    FilterIsFlatMap(keep, f, t);
    FlatMapPermutes(f, s, t);
  }

  lemma {:induction false} FilterIsFlatMap<T>(keep: T -> bool, f: T -> seq<T>, s: seq<T>)
    requires forall x :: f(x) == if keep(x) then [x] else []
    ensures Filter(keep, s) == FlatMap(f, s)
  {
    if s != [] {
      FilterIsFlatMap(keep, f, s[..|s| - 1]);
    }
  }

  lemma {:induction false} MapIsFlatMap<T, U>(g: T -> U, f: T -> seq<U>, s: seq<T>)
    requires forall x :: f(x) == [g(x)]
    ensures Map(g, s) == FlatMap(f, s)
  {
    if s != [] {
      MapIsFlatMap(g, f, s[..|s| - 1]);
      assert Map(g, s) == Map(g, s[..|s| - 1]) + [g(s[|s| - 1])];
    }
  }

  lemma MapPermutes<T, U>(g: T -> U, s: seq<T>, t: seq<T>)
    requires multiset(s) == multiset(t)
    ensures multiset(Map(g, s)) == multiset(Map(g, t))
  {
    var f := (x: T) => [g(x)];
    MapIsFlatMap(g, f, s);
    MapIsFlatMap(g, f, t);
    FlatMapPermutes(f, s, t);
  }

  lemma MapSnoc<T, U>(f: T -> U, s: seq<T>, x: T)
    ensures Map(f, s + [x]) == Map(f, s) + [f(x)]
  {
  }

  lemma FilterSnoc<T>(keep: T -> bool, s: seq<T>, x: T)
    ensures Filter(keep, s + [x]) == Filter(keep, s) + if keep(x) then [x] else []
  {
    assert (s + [x])[..|s|] == s;
  }

  /** Filtering images is mapping the elements whose image passes. */
  lemma {:induction false} FilterMap<T, U>(g: T -> U, keep: U -> bool, pass: T -> bool, s: seq<T>)
    requires forall i :: 0 <= i < |s| ==> keep(g(s[i])) == pass(s[i])
    ensures Filter(keep, Map(g, s)) == Map(g, Filter(pass, s))
  {
    if s != [] {
      var init, x := s[..|s| - 1], s[|s| - 1];
      FilterMap(g, keep, pass, init);
      assert s == init + [x];
      hide Filter;
      MapSnoc(g, init, x);
      FilterSnoc(keep, Map(g, init), g(x));
      FilterSnoc(pass, init, x);
      MapSnoc(g, Filter(pass, init), x);
    } else {
      assert Map(g, s) == [];
    }
  }
}
