/**
 Byte strings and the order the engine compares keys by (memcmp: byte by byte,
 a proper prefix first), plus the four-byte key head used as a search prefilter.
 */
module Bytes {

  type Byte = x: int | 0 <= x < 256
  type Key = seq<Byte>

  datatype Option<+T> = None | Some(value: T)

  /** memcmp order on byte strings. */
  predicate Less(a: Key, b: Key) {
    |b| > 0 && (|a| == 0 || a[0] < b[0] || (a[0] == b[0] && Less(a[1..], b[1..])))
  }

  /** A real number for every key, used only to reason about `Less`: it turns the
      order laws into linear arithmetic. */
  ghost function Rank(a: Key): (r: real)
    ensures 0.0 <= r < 1.0
    ensures a != [] ==> 0.0 < r
  {
    if a == [] then 0.0 else (1.0 + a[0] as real + Rank(a[1..])) / 257.0
  }

  lemma {:induction false} RankOrders(a: Key, b: Key)
    ensures Less(a, b) <==> Rank(a) < Rank(b)
    ensures Rank(a) == Rank(b) ==> a == b
  {
    if a != [] && b != [] {
      RankOrders(a[1..], b[1..]);
      assert a == [a[0]] + a[1..] && b == [b[0]] + b[1..];
    }
  }

  /** `Less` is a strict total order (stated through its embedding in the reals). */
  lemma OrderLaws()
    ensures forall a: Key, b: Key {:trigger Less(a, b)} ::
              (Less(a, b) <==> Rank(a) < Rank(b)) && (Rank(a) == Rank(b) ==> a == b)
  {
    forall a: Key, b: Key
      ensures (Less(a, b) <==> Rank(a) < Rank(b)) && (Rank(a) == Rank(b) ==> a == b)
    {
      RankOrders(a, b);
    }
  }

  // Strictly ascending keys.
  ghost predicate Sorted(ks: seq<Key>) {
    forall i, j :: 0 <= i < j < |ks| ==> Less(ks[i], ks[j])
  }

  // ---------------------------------------------------------------------
  // Key heads
  // ---------------------------------------------------------------------

  function Pad(key: Key, i: nat): Byte {
    if i < |key| then key[i] else 0
  }

  /** First four bytes as a big-endian integer, zero-padded. */
  function Head(key: Key): (h: nat)
    ensures h < 0x1_0000_0000
  {
    0x100_0000 * Pad(key, 0) + 0x1_0000 * Pad(key, 1) + 0x100 * Pad(key, 2) + Pad(key, 3)
  }

  function HeadsFor(keys: seq<Key>): (hs: seq<nat>)
    ensures |hs| == |keys|
    ensures forall i :: 0 <= i < |keys| ==> hs[i] == Head(keys[i])
  {
    seq(|keys|, i requires 0 <= i < |keys| => Head(keys[i]))
  }

  lemma {:induction false} PadDecides(a: Key, b: Key, i: nat)
    requires Pad(a, i) < Pad(b, i)
    requires forall j :: 0 <= j < i ==> Pad(a, j) == Pad(b, j)
    ensures Less(a, b)
    decreases i
  {
    if i > 0 && |a| > 0 {
      assert Pad(a, 0) == Pad(b, 0);
      if |b| > 0 {
        assert forall j :: 0 <= j < i - 1 ==> Pad(a[1..], j) == Pad(a, j + 1) && Pad(b[1..], j) == Pad(b, j + 1);
        assert Pad(a[1..], i - 1) == Pad(a, i) && Pad(b[1..], i - 1) == Pad(b, i);
        PadDecides(a[1..], b[1..], i - 1);
      }
    }
  }

  /** The head order is consistent with the byte order: the promise behind the prefilter. */
  lemma HeadOrder(a: Key, b: Key)
    requires Head(a) < Head(b)
    ensures Less(a, b)
  {
    if Pad(a, 0) != Pad(b, 0) {
      PadDecides(a, b, 0);
    } else if Pad(a, 1) != Pad(b, 1) {
      PadDecides(a, b, 1);
    } else if Pad(a, 2) != Pad(b, 2) {
      PadDecides(a, b, 2);
    } else {
      PadDecides(a, b, 3);
    }
  }

  // ---------------------------------------------------------------------
  // Searching a node
  // ---------------------------------------------------------------------

  /** First index whose key is not below `key` (the routing index of a node). */
  function First(keys: seq<Key>, key: Key): (i: nat)
    ensures i <= |keys|
    ensures forall j :: 0 <= j < i ==> Less(keys[j], key)
    ensures i < |keys| ==> !Less(keys[i], key)
  {
    if keys == [] || !Less(keys[0], key) then 0 else 1 + First(keys[1..], key)
  }

  lemma {:induction false} FirstIsUnique(keys: seq<Key>, key: Key, i: nat)
    requires i <= |keys|
    requires forall j :: 0 <= j < i ==> Less(keys[j], key)
    requires i < |keys| ==> !Less(keys[i], key)
    ensures First(keys, key) == i
  {
    if i > 0 {
      FirstIsUnique(keys[1..], key, i - 1);
    }
  }

  /** Binary search on (head, key), comparing the key only when the heads collide. */
  method LowerBound(keys: seq<Key>, heads: seq<nat>, key: Key) returns (lo: nat)
    ensures lo <= |keys| && lo <= |heads|
    ensures heads == HeadsFor(keys) && Sorted(keys) ==> lo == First(keys, key)
  {
    var n := if |keys| < |heads| then |keys| else |heads|;
    var h := Head(key);
    var hi := n;
    lo := 0;
    ghost var synced := heads == HeadsFor(keys) && Sorted(keys);
    if synced { OrderLaws(); }
    while lo < hi
      invariant 0 <= lo <= hi <= n
      invariant synced ==> forall j :: 0 <= j < lo ==> Less(keys[j], key)
      invariant synced ==> forall j :: hi <= j < n ==> !Less(keys[j], key)
    {
      var mid := (lo + hi) / 2;
      if synced && heads[mid] < h { HeadOrder(keys[mid], key); }
      if synced && heads[mid] > h { HeadOrder(key, keys[mid]); }
      if heads[mid] < h || (heads[mid] == h && Less(keys[mid], key)) {
        lo := mid + 1;
      } else {
        hi := mid;
      }
    }
    if synced { FirstIsUnique(keys, key, lo); }
  }
}
