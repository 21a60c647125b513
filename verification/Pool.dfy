/**
 Values over the buffer pool: chains of fragments, quarantined frees, and the map from live
 locators to byte strings that `Store`, `Load` and `Free` implement.
 */
module Pool {
  import opened Bytes
  import opened Slotted
  import opened PageCache
  import Le

  const MAX_VALUE: nat := 67_108_864
  const SINGLE: nat := 9        // flag and total length
  const CHAINED: nat := 21      // flag, total length, next page, next slot
  const PAYLOAD: nat := PAGE_SIZE - HEADER_LEN - 2 * SLOT_LEN - CHAINED
  const MAX_FRAGS: nat := 4096

  // ---------------------------------------------------------------------
  // Fragments of a value
  // ---------------------------------------------------------------------

  /** How many fragments a value needs. */
  function Pieces(n: nat): nat { if n == 0 then 0 else 1 + (n - 1) / PAYLOAD }

  function Min(a: nat, b: nat): nat { if a < b then a else b }

  function Chunk(data: seq<Byte>, i: nat): seq<Byte>
    requires i * PAYLOAD <= |data|
  {
    data[i * PAYLOAD..Min((i + 1) * PAYLOAD, |data|)]
  }

  function Pointer(next: Frag): (bs: seq<Byte>)
    ensures |bs| == 12
  {
    Le.Encode(next.0, 8) + Le.Encode(next.1, 4)
  }

  /** The record of piece `i`: the last one is single, the others point to the next. */
  function Rec(data: seq<Byte>, i: nat, next: Frag): seq<Byte>
    requires i < Pieces(|data|)
  {
    PieceBound(|data|, i);
    if i + 1 < Pieces(|data|) then [1] + Le.Encode(|data|, 8) + Pointer(next) + Chunk(data, i)
    else [0] + Le.Encode(|data|, 8) + Chunk(data, i)
  }

  lemma PieceBound(n: nat, i: nat)
    requires i < Pieces(n)
    ensures i * PAYLOAD < n && (i + 1 < Pieces(n) ==> (i + 1) * PAYLOAD < n) && (i + 1 == Pieces(n) ==> n <= (i + 1) * PAYLOAD)
  {
    assert PAYLOAD == 262_075;
  }

  /** A live value: its bytes and its fragments, the first of which is its locator. */
  datatype Chain = Chain(data: seq<Byte>, frags: seq<Frag>)

  function NextOf(frags: seq<Frag>, i: nat): Frag { if i + 1 < |frags| then frags[i + 1] else (0, 0) }

  predicate InRange(f: Frag) { f.0 <= MAX_PAGE && f.1 < PAGE_SIZE }

  /** The first fragments of a value are in place, each pointing to the next. */
  ghost predicate Laid(disk: Disk, lazy: Lazy, data: seq<Byte>, frags: seq<Frag>) {
    && |frags| <= Pieces(|data|)
    && (forall i, j :: 0 <= i < j < |frags| ==> frags[i] != frags[j])
    && (forall i :: 0 <= i < |frags| ==> InRange(frags[i]) && FragAt(disk, lazy, frags[i]) == Some(Rec(data, i, NextOf(frags, i))))
  }

  ghost predicate Whole(disk: Disk, lazy: Lazy, loc: Frag, c: Chain) {
    && 0 < |c.data| <= MAX_VALUE && |c.frags| == Pieces(|c.data|) && c.frags[0] == loc && Laid(disk, lazy, c.data, c.frags)
  }

  type Chains = map<Frag, Chain>

  ghost predicate Apart(chains: Chains) {
    forall a, b, f :: a in chains && b in chains && f in chains[a].frags && f in chains[b].frags ==> a == b
  }

  ghost predicate Holds(disk: Disk, lazy: Lazy, chains: Chains) {
    Apart(chains) && forall loc :: loc in chains ==> Whole(disk, lazy, loc, chains[loc])
  }

  ghost function ValuesOf(chains: Chains): map<Frag, seq<Byte>> { map loc | loc in chains :: chains[loc].data }

  /** `f` belongs to no live value. */
  ghost predicate Idle(chains: Chains, f: Frag) { forall loc :: loc in chains ==> f !in chains[loc].frags }

  lemma LaidSame(d: Disk, l: Lazy, d': Disk, l': Lazy, data: seq<Byte>, frags: seq<Frag>)
    requires Laid(d, l, data, frags) && forall i :: 0 <= i < |frags| ==> FragAt(d', l', frags[i]) == FragAt(d, l, frags[i])
    ensures Laid(d', l', data, frags)
  {
    hide FragAt;
  }

  lemma HoldsSame(d: Disk, l: Lazy, d': Disk, l': Lazy, chains: Chains)
    requires Holds(d, l, chains) && SameFrags(d, l, d', l')
    ensures Holds(d', l', chains)
  {
    forall loc | loc in chains ensures Whole(d', l', loc, chains[loc]) {
      LaidSame(d, l, d', l', chains[loc].data, chains[loc].frags);
    }
  }

  /** A change to a fragment of no live value keeps every value. */
  lemma HoldsOne(d: Disk, l: Lazy, d': Disk, l': Lazy, chains: Chains, g: Frag, v: Option<seq<Byte>>)
    requires Holds(d, l, chains) && OneFrag(d, l, d', l', g, v) && Idle(chains, g)
    ensures Holds(d', l', chains)
  {
    forall loc | loc in chains ensures Whole(d', l', loc, chains[loc]) {
      var c := chains[loc];
      forall i | 0 <= i < |c.frags| ensures FragAt(d', l', c.frags[i]) == FragAt(d, l, c.frags[i]) {
        assert c.frags[i] in c.frags;
      }
      LaidSame(d, l, d', l', c.data, c.frags);
    }
  }

  /** A slot that holds nothing belongs to no live value. */
  lemma UnusedIsIdle(d: Disk, l: Lazy, chains: Chains, g: Frag)
    requires Holds(d, l, chains) && FragAt(d, l, g).None?
    ensures Idle(chains, g)
  {
    forall loc | loc in chains ensures g !in chains[loc].frags {
      var c := chains[loc];
      assert Whole(d, l, loc, c);
      assert forall i :: 0 <= i < |c.frags| ==> FragAt(d, l, c.frags[i]).Some?;
    }
  }

  // ---------------------------------------------------------------------
  // Growing a chain
  // ---------------------------------------------------------------------

  lemma RecSize(data: seq<Byte>, i: nat, next: Frag)
    requires i < Pieces(|data|)
    ensures |Rec(data, i, next)| <= PAYLOAD + CHAINED
    ensures i + 1 < Pieces(|data|) ==> |Rec(data, i, next)| == PAYLOAD + CHAINED
  {
    PieceBound(|data|, i);
  }

  /** Patching the pointer of a chained record points it to `next`. */
  lemma PatchPointer(data: seq<Byte>, i: nat, next: Frag)
    requires i + 1 < Pieces(|data|)
    ensures |Rec(data, i, (0, 0))| >= SINGLE + 12
    ensures Overwrite(Rec(data, i, (0, 0)), SINGLE, Pointer(next)) == Rec(data, i, next)
  {
    RecSize(data, i, (0, 0));
    PieceBound(|data|, i);
    var head, tail := [1] + Le.Encode(|data|, 8), Chunk(data, i);
    hide Le.Encode, Pointer, Chunk;
    var a, b := Rec(data, i, (0, 0)), Rec(data, i, next);
    assert a == head + Pointer((0, 0)) + tail && b == head + Pointer(next) + tail;
    assert a[..SINGLE] == head && a[SINGLE + 12..] == tail;
  }

  lemma LaidStart(d: Disk, l: Lazy, data: seq<Byte>)
    ensures Laid(d, l, data, [])
  {
  }

  /** A new fragment, unlinked. */
  lemma LaidPush(d: Disk, l: Lazy, d': Disk, l': Lazy, data: seq<Byte>, frags: seq<Frag>, g: Frag)
    requires Laid(d, l, data, frags) && |frags| < Pieces(|data|) && InRange(g) && FragAt(d, l, g).None?
    requires OneFrag(d, l, d', l', g, Some(Rec(data, |frags|, (0, 0))))
    ensures forall i :: 0 <= i < |frags| ==> frags[i] != g && FragAt(d', l', frags[i]) == Some(Rec(data, i, NextOf(frags, i)))
    ensures FragAt(d', l', g) == Some(Rec(data, |frags|, (0, 0)))
  {
    hide FragAt, Rec;
    forall i | 0 <= i < |frags| ensures frags[i] != g {
      assert FragAt(d, l, frags[i]).Some?;
    }
  }

  /** ... and its predecessor, pointed to it. */
  lemma LaidLink(d0: Disk, l0: Lazy, d: Disk, l: Lazy, d': Disk, l': Lazy, data: seq<Byte>, frags: seq<Frag>, g: Frag)
    requires Laid(d0, l0, data, frags) && 0 < |frags| < Pieces(|data|) && InRange(g)
    requires forall i :: 0 <= i < |frags| ==> frags[i] != g && FragAt(d, l, frags[i]) == Some(Rec(data, i, NextOf(frags, i)))
    requires FragAt(d, l, g) == Some(Rec(data, |frags|, (0, 0)))
    requires OneFrag(d, l, d', l', frags[|frags| - 1], Some(Rec(data, |frags| - 1, g)))
    ensures Laid(d', l', data, frags + [g])
  {
    hide FragAt, Rec;
    var all, n := frags + [g], |frags|;
    forall i | 0 <= i < |all| ensures InRange(all[i]) && FragAt(d', l', all[i]) == Some(Rec(data, i, NextOf(all, i))) {
      if i < n - 1 {
        assert all[i] == frags[i] && all[i] != frags[n - 1] && NextOf(all, i) == NextOf(frags, i);
      } else if i == n - 1 {
        assert NextOf(all, i) == g;
      } else {
        assert all[i] == g && NextOf(all, i) == (0, 0);
      }
    }
  }

  lemma FirstLaid(d: Disk, l: Lazy, data: seq<Byte>, g: Frag)
    requires 0 < Pieces(|data|) && InRange(g) && FragAt(d, l, g) == Some(Rec(data, 0, (0, 0)))
    ensures Laid(d, l, data, [g])
  {
  }

  // ---------------------------------------------------------------------
  // Reading a fragment
  // ---------------------------------------------------------------------

  /** A decoded fragment: total length, next fragment if any, payload. */
  datatype Piece = Piece(total: nat, next: Option<Frag>, payload: seq<Byte>)

  function Parse(rec: seq<Byte>): Option<Piece> {
    if |rec| < SINGLE || rec[0] > 1 then None
    else
      var total := Le.Decode(rec[1..9]);
      if rec[0] == 0 then Some(Piece(total, None, rec[SINGLE..]))
      else if |rec| < CHAINED then None
      else Some(Piece(total, Some((Le.Decode(rec[9..17]), Le.Decode(rec[17..21]))), rec[CHAINED..]))
  }

  lemma Narrow(n: nat, f: Frag)
    requires n <= MAX_VALUE && InRange(f)
    ensures n < Le.Pow256(8) && f.0 < Le.Pow256(8) && f.1 < Le.Pow256(4)
  {
    Le.Powers();
  }

  /** Parsing a record gives back what it was made of. */
  lemma ParseRec(data: seq<Byte>, i: nat, next: Frag)
    requires i < Pieces(|data|) && |data| <= MAX_VALUE && InRange(next) && i * PAYLOAD <= |data|
    ensures Parse(Rec(data, i, next)) ==
            Some(Piece(|data|, if i + 1 < Pieces(|data|) then Some(next) else None, Chunk(data, i)))
  {
    PieceBound(|data|, i);
    hide Pieces;
    Narrow(|data|, next);
    hide Le.Encode, Le.Decode, Le.Pow256, Chunk;
    if i + 1 < Pieces(|data|) {
      ParseChained(|data|, next, Chunk(data, i));
    } else {
      ParseSingle(|data|, Chunk(data, i));
    }
  }

  lemma Slices(t: seq<Byte>, p: seq<Byte>, s: seq<Byte>, chunk: seq<Byte>)
    requires |t| == 8 && |p| == 8 && |s| == 4
    ensures var rec := [1] + t + (p + s) + chunk;
            |rec| >= CHAINED && rec[0] == 1 && rec[1..9] == t && rec[9..17] == p && rec[17..21] == s && rec[CHAINED..] == chunk
  {
  }

  lemma ParseChained(n: nat, next: Frag, chunk: seq<Byte>)
    requires n < Le.Pow256(8) && next.0 < Le.Pow256(8) && next.1 < Le.Pow256(4)
    ensures Parse([1] + Le.Encode(n, 8) + Pointer(next) + chunk) == Some(Piece(n, Some(next), chunk))
  {
    hide Le.Encode, Le.Decode, Le.Pow256;
    Le.RoundTrip(n, 8);
    Le.RoundTrip(next.0, 8);
    Le.RoundTrip(next.1, 4);
    Slices(Le.Encode(n, 8), Le.Encode(next.0, 8), Le.Encode(next.1, 4), chunk);
  }

  lemma ParseSingle(n: nat, chunk: seq<Byte>)
    requires n < Le.Pow256(8)
    ensures Parse([0] + Le.Encode(n, 8) + chunk) == Some(Piece(n, None, chunk))
  {
    Le.RoundTrip(n, 8);
    var t := Le.Encode(n, 8);
    hide Le.Encode, Le.Decode, Le.Pow256;
    var rec := [0] + t + chunk;
    assert rec[1..9] == t && rec[SINGLE..] == chunk;
  }

  /** The chunks before piece `i`, joined. */
  lemma JoinChunk(data: seq<Byte>, i: nat)
    requires i < Pieces(|data|) && i * PAYLOAD <= |data|
    ensures data[..i * PAYLOAD] + Chunk(data, i) == data[..Min((i + 1) * PAYLOAD, |data|)]
  {
    PieceBound(|data|, i);
  }

  // ---------------------------------------------------------------------
  // Quarantine
  // ---------------------------------------------------------------------

  datatype Quarantined = Quarantined(frags: seq<Frag>, epoch: nat)

  ghost predicate Distinct(frags: seq<Frag>) { forall i, j :: 0 <= i < j < |frags| ==> frags[i] != frags[j] }

  /** Fragments of no live value whose slots are still taken. */
  ghost predicate Spent(d: Disk, l: Lazy, chains: Chains, frags: seq<Frag>) {
    Distinct(frags) && forall f :: f in frags ==> Idle(chains, f) && FragAt(d, l, f).Some?
  }

  ghost predicate Disjoint(a: seq<Frag>, b: seq<Frag>) { forall f :: f in a ==> f !in b }

  ghost predicate Waiting(d: Disk, l: Lazy, chains: Chains, q: seq<Quarantined>) {
    && (forall i :: 0 <= i < |q| ==> Spent(d, l, chains, q[i].frags))
    && (forall i, j :: 0 <= i < j < |q| ==> Disjoint(q[i].frags, q[j].frags))
  }

  ghost predicate Outside(q: seq<Quarantined>, g: Frag) { forall i :: 0 <= i < |q| ==> g !in q[i].frags }

  lemma WaitingSame(d: Disk, l: Lazy, d': Disk, l': Lazy, chains: Chains, q: seq<Quarantined>)
    requires Waiting(d, l, chains, q) && SameFrags(d, l, d', l')
    ensures Waiting(d', l', chains, q)
  {
    hide FragAt, Distinct, Disjoint, Idle;
    forall i | 0 <= i < |q| ensures Spent(d', l', chains, q[i].frags) {
      assert Spent(d, l, chains, q[i].frags);
    }
  }

  lemma WaitingOne(d: Disk, l: Lazy, d': Disk, l': Lazy, chains: Chains, q: seq<Quarantined>, g: Frag, v: Option<seq<Byte>>)
    requires Waiting(d, l, chains, q) && OneFrag(d, l, d', l', g, v) && Outside(q, g)
    ensures Waiting(d', l', chains, q)
  {
    hide FragAt, Distinct, Disjoint, Idle;
    forall i | 0 <= i < |q| ensures Spent(d', l', chains, q[i].frags) {
      assert Spent(d, l, chains, q[i].frags);
    }
  }

  lemma UnusedIsOutside(d: Disk, l: Lazy, chains: Chains, q: seq<Quarantined>, g: Frag)
    requires Waiting(d, l, chains, q) && FragAt(d, l, g).None?
    ensures Outside(q, g)
  {
    forall i | 0 <= i < |q| ensures g !in q[i].frags {
      assert Spent(d, l, chains, q[i].frags);
    }
  }

  /** A live value's fragments are not quarantined. */
  lemma LiveIsOutside(d: Disk, l: Lazy, chains: Chains, q: seq<Quarantined>, loc: Frag, g: Frag)
    requires Waiting(d, l, chains, q) && loc in chains && g in chains[loc].frags
    ensures Outside(q, g)
  {
    forall i | 0 <= i < |q| ensures g !in q[i].frags {
      assert Spent(d, l, chains, q[i].frags);
    }
  }

  // ---------------------------------------------------------------------
  // The pool
  // ---------------------------------------------------------------------

  class BufferPool {
    const cache: Cache
    var quarantine: seq<Quarantined>
    ghost var chains: Chains

    ghost predicate Valid()
      reads this, cache
    {
      cache.Valid() && Holds(cache.disk, cache.lazy, chains) && Waiting(cache.disk, cache.lazy, chains, quarantine)
    }

    /** The map the pool refines. */
    ghost function Values(): map<Frag, seq<Byte>>
      reads this
    {
      ValuesOf(chains)
    }

    constructor (frames: nat)
      requires frames > 0
      ensures Valid() && Values() == map[] && fresh(cache) && |cache.frames| == frames
    {
      cache := new Cache(frames);
      quarantine, chains := [], map[];
    }

    /** Frees the slots of one expired entry. */
    method Release(frags: seq<Frag>)
      requires Valid() && Spent(cache.disk, cache.lazy, chains, frags)
      requires forall i :: 0 <= i < |quarantine| ==> Disjoint(frags, quarantine[i].frags)
      modifies cache
      ensures Valid() && |cache.frames| == old(|cache.frames|)
    {
      hide Holds, Waiting, FragAt, Idle;
      for i := 0 to |frags|
        invariant Valid() && |cache.frames| == old(|cache.frames|) && Spent(cache.disk, cache.lazy, chains, frags[i..])
      {
        var g := frags[i];
        assert g in frags[i..];
        ghost var d, l := cache.disk, cache.lazy;
        OnDisk(d, l, g);
        cache.FreeFrag(g);
        HoldsOne(d, l, cache.disk, cache.lazy, chains, g, None);
        assert g in frags && Outside(quarantine, g);
        WaitingOne(d, l, cache.disk, cache.lazy, chains, quarantine, g, None);
        SpentRest(d, l, cache.disk, cache.lazy, chains, frags, i);
      }
    }

    /** Entries two epochs old give up their slots; no value changes. */
    method ReclaimQuarantine(current: nat)
      requires Valid()
      modifies this`quarantine, cache
      ensures Valid() && Values() == old(Values()) && |cache.frames| == old(|cache.frames|)
    {
      var i := 0;
      while i < |quarantine|
        invariant 0 <= i <= |quarantine| && Valid() && chains == old(chains) && |cache.frames| == old(|cache.frames|)
        decreases |quarantine| - i
      {
        if quarantine[i].epoch + 1 < current {
          var q := quarantine[i];
          TakeEntry(cache.disk, cache.lazy, chains, quarantine, i);
          quarantine := quarantine[..i] + quarantine[i + 1..];
          Release(q.frags);
        } else {
          i := i + 1;
        }
      }
    }

    /** Stores a value as a chain of fragments and returns its locator, which was not live.
        Fails for an empty or oversized value and when page ids are exhausted; no other value
        changes in any case. */
    method Store(data: seq<Byte>, current: nat, picks: nat -> nat) returns (r: Option<Frag>)
      requires Valid() && forall k :: picks(k) < |cache.frames|
      modifies this, cache
      ensures Valid() && |cache.frames| == old(|cache.frames|)
      ensures r.Some? ==> r.value !in old(Values()) && Values() == old(Values())[r.value := data]
      ensures r.None? ==> Values() == old(Values())
      ensures data == [] || |data| > MAX_VALUE ==> r.None?
      ensures r.None? ==> data == [] || |data| > MAX_VALUE || cache.nextId == MAX_PAGE
    {
      if data == [] || |data| > MAX_VALUE {
        return None;
      }
      ReclaimQuarantine(current);
      hide Holds, Waiting, Laid, Idle, Outside, Cache.Valid;
      var ok, alloced := StoreChain(data, picks);
      if !ok {
        return None;
      }
      Complete(cache.disk, cache.lazy, chains, quarantine, data, alloced);
      NewValue(chains, alloced[0], Chain(data, alloced));
      chains := chains[alloced[0] := Chain(data, alloced)];
      return Some(alloced[0]);
    }

    /** The fragments of a new value, in place and linked. */
    method StoreChain(data: seq<Byte>, picks: nat -> nat) returns (ok: bool, alloced: seq<Frag>)
      requires Valid() && 0 < |data| <= MAX_VALUE && forall k :: picks(k) < |cache.frames|
      modifies cache
      ensures Valid() && |cache.frames| == old(|cache.frames|) && (!ok ==> cache.nextId == MAX_PAGE)
      ensures ok ==> |alloced| == Pieces(|data|) && Laid(cache.disk, cache.lazy, data, alloced)
      ensures ok ==> forall k :: 0 <= k < |alloced| ==> Idle(chains, alloced[k]) && Outside(quarantine, alloced[k])
    {
      alloced := [];
      LaidStart(cache.disk, cache.lazy, data);
      hide Holds, Waiting, Laid, FragAt, Rec, Idle, Outside, Pieces, Cache.Valid;
      for i := 0 to Pieces(|data|)
        invariant |alloced| == i && Valid() && |cache.frames| == old(|cache.frames|)
        invariant Laid(cache.disk, cache.lazy, data, alloced)
        invariant forall k :: 0 <= k < i ==> Idle(chains, alloced[k]) && Outside(quarantine, alloced[k])
      {
        var more, loc := Extend(data, alloced, picks(2 * i), [picks(2 * i + 1)]);
        if !more {
          return false, alloced;
        }
        alloced := alloced + [loc];
      }
      return true, alloced;
    }

    /** One more fragment of a value being stored: allocate it, then point its predecessor to
        it; on exhaustion, roll the resident part back. */
    method Extend(data: seq<Byte>, alloced: seq<Frag>, pick: nat, samples: seq<nat>) returns (ok: bool, loc: Frag)
      requires Valid() && pick < |cache.frames| && (forall i :: 0 <= i < |samples| ==> samples[i] < |cache.frames|)
      requires |alloced| < Pieces(|data|) && |data| <= MAX_VALUE && Laid(cache.disk, cache.lazy, data, alloced)
      requires forall k :: 0 <= k < |alloced| ==> Idle(chains, alloced[k]) && Outside(quarantine, alloced[k])
      modifies cache
      ensures Valid() && |cache.frames| == old(|cache.frames|)
      ensures ok ==> Laid(cache.disk, cache.lazy, data, alloced + [loc]) && Idle(chains, loc) && Outside(quarantine, loc)
      ensures !ok ==> cache.nextId == MAX_PAGE
    {
      var i := |alloced|;
      RecSize(data, i, (0, 0));
      ghost var d0, l0 := cache.disk, cache.lazy;
      hide Holds, Waiting, FragAt, Rec, Idle, Outside, Pointer, Cache.Valid, Pieces, Laid;
      var put := cache.InsertFrag(Rec(data, i, (0, 0)), pick, samples);
      if put.None? {
        HoldsSame(d0, l0, cache.disk, cache.lazy, chains);
        WaitingSame(d0, l0, cache.disk, cache.lazy, chains, quarantine);
        RollBack(alloced);
        return false, (0, 0);
      }
      loc := put.value;
      ghost var d1, l1 := cache.disk, cache.lazy;
      UnusedIsIdle(d0, l0, chains, loc);
      UnusedIsOutside(d0, l0, chains, quarantine, loc);
      HoldsOne(d0, l0, d1, l1, chains, loc, Some(Rec(data, i, (0, 0))));
      WaitingOne(d0, l0, d1, l1, chains, quarantine, loc, Some(Rec(data, i, (0, 0))));
      LaidPush(d0, l0, d1, l1, data, alloced, loc);
      if i == 0 {
        FirstLaid(d1, l1, data, loc);
        assert alloced + [loc] == [loc];
        return true, loc;
      }
      var prev := alloced[i - 1];
      PatchPointer(data, i - 1, loc);
      cache.PatchFrag(prev, SINGLE, Pointer(loc), pick, Rec(data, i - 1, (0, 0)));
      HoldsOne(d1, l1, cache.disk, cache.lazy, chains, prev, Some(Rec(data, i - 1, loc)));
      WaitingOne(d1, l1, cache.disk, cache.lazy, chains, quarantine, prev, Some(Rec(data, i - 1, loc)));
      LaidLink(d0, l0, d1, l1, cache.disk, cache.lazy, data, alloced, loc);
      return true, loc;
    }

    method RollBack(alloced: seq<Frag>)
      requires Valid() && forall k :: 0 <= k < |alloced| ==> Idle(chains, alloced[k]) && Outside(quarantine, alloced[k])
      modifies cache
      ensures Valid() && |cache.frames| == old(|cache.frames|) && cache.nextId == old(cache.nextId)
    {
      hide Holds, Waiting, FragAt, Idle, Outside;
      for k := 0 to |alloced|
        invariant Valid() && |cache.frames| == old(|cache.frames|) && cache.nextId == old(cache.nextId)
      {
        var g := alloced[k];
        if g.0 in cache.index {
          ghost var d, l := cache.disk, cache.lazy;
          ResidentImage(cache.frames, cache.index, cache.disk, g.0);
          cache.FreeFrag(g);
          HoldsOne(d, l, cache.disk, cache.lazy, chains, g, None);
          WaitingOne(d, l, cache.disk, cache.lazy, chains, quarantine, g, None);
        }
      }
    }

    /** Loads a value by walking its chain: exactly what was stored there. */
    method Load(loc: Frag, current: nat, picks: nat -> nat) returns (r: Option<seq<Byte>>)
      requires Valid() && forall k :: picks(k) < |cache.frames|
      modifies this`quarantine, cache
      ensures Valid() && Values() == old(Values()) && |cache.frames| == old(|cache.frames|)
      ensures loc in old(Values()) ==> r == Some(old(Values())[loc])
    {
      ReclaimQuarantine(current);
      r := WalkChain(loc, picks);
    }

    method WalkChain(loc: Frag, picks: nat -> nat) returns (r: Option<seq<Byte>>)
      requires Valid() && forall k :: picks(k) < |cache.frames|
      modifies cache
      ensures Valid() && |cache.frames| == old(|cache.frames|)
      ensures loc in chains ==> r == Some(chains[loc].data)
    {
      var out: seq<Byte>, total: Option<nat>, cur, count := [], None, loc, 0;
      LiveStart(cache.disk, cache.lazy, chains, loc);
      hide Holds, Waiting, Cache.Valid, Reading, PieceAt, Walked, Valid, Parse, FragAt, Advance;
      while count < MAX_FRAGS
        invariant Valid() && |cache.frames| == old(|cache.frames|) && count <= MAX_FRAGS
        invariant Reading(chains, loc, count, cur, out, total)
        decreases MAX_FRAGS - count
      {
        var piece := ReadPiece(cur, picks(count));
        LiveState();
        LivePiece(cache.disk, cache.lazy, chains, loc, count, cur, out, total);
        match Advance(piece, out, total) {
          case Broken => return None;
          case Finished(bytes) => return Some(bytes);
          case Onward(next, more, t) =>
            cur, out, total, count := next, more, Some(t), count + 1;
            Unread(chains, loc, count, cur, out, total);
        }
      }
      LiveState();
      ChainShort(cache.disk, cache.lazy, chains, loc, count, cur, out, total);
      return None;
    }

    lemma LiveState()
      requires Valid()
      ensures Holds(cache.disk, cache.lazy, chains)
    {
    }

    /** Reads and parses one fragment. */
    method ReadPiece(f: Frag, pick: nat) returns (p: Option<Piece>)
      requires Valid() && pick < |cache.frames|
      modifies cache
      ensures Valid() && |cache.frames| == old(|cache.frames|) && p == PieceAt(cache.disk, cache.lazy, f)
    {
      hide Holds, Waiting, FragAt, Parse, Cache.Valid;
      ghost var d, l := cache.disk, cache.lazy;
      var rec := cache.ReadFrag(f, pick);
      HoldsSame(d, l, cache.disk, cache.lazy, chains);
      WaitingSame(d, l, cache.disk, cache.lazy, chains, quarantine);
      p := if rec.Some? then Parse(rec.value) else None;
    }

    /** Releases a live value: its known fragments wait in quarantine, the others leak; it is
        no longer a value, and every other value stays. */
    method Free(loc: Frag, epoch: nat)
      requires Valid() && loc in Values()
      modifies this
      ensures Valid() && Values() == old(Values()) - {loc}
    {
      hide Holds, Waiting, Cache.Valid;
      var frags := CollectChain(loc);
      Retire(cache.disk, cache.lazy, chains, quarantine, loc, frags, epoch);
      quarantine := quarantine + [Quarantined(frags, epoch)];
      chains := chains - {loc};
    }

    /** The fragments of a chain found in resident pages, from its first on. */
    method CollectChain(loc: Frag) returns (frags: seq<Frag>)
      requires Valid() && loc in chains
      ensures |frags| <= |chains[loc].frags| && frags == chains[loc].frags[..|frags|]
    {
      hide Holds, Waiting, FragAt, Parse, Rec, Pieces, Inverse, WrittenThrough, Queued, DiskOk, LazyOk;
      frags := [loc];
      var cur, count := loc, 0;
      LiveFirst(cache.disk, cache.lazy, chains, loc);
      ghost var c := chains[loc];
      while count < MAX_FRAGS
        invariant |frags| == count + 1 <= |c.frags| && frags == c.frags[..|frags|] && cur == c.frags[count]
        decreases MAX_FRAGS - count
      {
        if cur.0 !in cache.index {
          break;
        }
        ResidentImage(cache.frames, cache.index, cache.disk, cur.0);
        var rec := Get(cache.frames[cache.index[cur.0]].image.value, cur.1);
        ResidentFrag(cache.frames, cache.index, cache.disk, cache.lazy, cache.nextId, cur);
        LiveRec(cache.disk, cache.lazy, chains, loc, count);
        if rec.None? || |rec.value| < CHAINED || rec.value[0] != 1 {
          break;
        }
        NextPiece(c, count, rec.value);
        var next := Parse(rec.value).value.next.value;
        frags := frags + [next];
        cur := next;
        count := count + 1;
      }
    }
  }

  /** A chain being read: the chunks so far and the total seen. */
  ghost predicate Walked(data: seq<Byte>, count: nat, out: seq<Byte>, total: Option<nat>) {
    count * PAYLOAD <= |data| && out == data[..count * PAYLOAD] && (total.Some? ==> total.value == |data|)
  }

  lemma Complete(d: Disk, l: Lazy, chains: Chains, q: seq<Quarantined>, data: seq<Byte>, frags: seq<Frag>)
    requires Holds(d, l, chains) && Waiting(d, l, chains, q) && Laid(d, l, data, frags)
    requires 0 < |data| <= MAX_VALUE && |frags| == Pieces(|data|)
    requires forall k :: 0 <= k < |frags| ==> Idle(chains, frags[k]) && Outside(q, frags[k])
    ensures frags != [] && frags[0] !in chains
    ensures Holds(d, l, chains[frags[0] := Chain(data, frags)]) && Waiting(d, l, chains[frags[0] := Chain(data, frags)], q)
  {
    hide FragAt, Laid;
    assert frags != [];
    var loc, more := frags[0], chains[frags[0] := Chain(data, frags)];
    forall f | f in frags ensures Idle(chains, f) && Outside(q, f) {
      var k :| 0 <= k < |frags| && frags[k] == f;
    }
    assert frags[0] in frags;
    forall x | x in chains ensures x in chains[x].frags { assert Whole(d, l, x, chains[x]); }
    assert Idle(chains, loc);
    assert Apart(more);
    forall i | 0 <= i < |q| ensures Spent(d, l, more, q[i].frags) {
      assert Spent(d, l, chains, q[i].frags);
    }
  }

  lemma HasPiece(n: nat)
    ensures n > 0 ==> Pieces(n) > 0
    ensures n <= MAX_VALUE ==> Pieces(n) <= MAX_FRAGS
  {
    assert PAYLOAD == 262_075;
  }

  lemma LiveStart(d: Disk, l: Lazy, chains: Chains, loc: Frag)
    requires Holds(d, l, chains)
    ensures Reading(chains, loc, 0, loc, [], None)
  {
    if loc in chains {
      HasPiece(|chains[loc].data|);
      hide Laid, Pieces, FragAt;
      assert Whole(d, l, loc, chains[loc]);
    }
  }

  /** Where the walk of a live chain stands. */
  ghost predicate Reading(chains: Chains, loc: Frag, count: nat, cur: Frag, out: seq<Byte>, total: Option<nat>) {
    loc in chains ==>
      count < |chains[loc].frags| && cur == chains[loc].frags[count] && Walked(chains[loc].data, count, out, total)
  }

  function PieceAt(d: Disk, l: Lazy, f: Frag): Option<Piece> {
    if FragAt(d, l, f).Some? then Parse(FragAt(d, l, f).value) else None
  }

  lemma Unread(chains: Chains, loc: Frag, count: nat, cur: Frag, out: seq<Byte>, total: Option<nat>)
    ensures loc !in chains ==> Reading(chains, loc, count, cur, out, total)
  {
  }

  /** What one more fragment makes of a walk. */
  datatype Progress = Broken | Finished(bytes: seq<Byte>) | Onward(next: Frag, out: seq<Byte>, total: nat)

  function Advance(p: Option<Piece>, out: seq<Byte>, total: Option<nat>): Progress {
    if p.None? || (total.Some? && total.value != p.value.total) || p.value.total > MAX_VALUE then Broken
    else if p.value.next.Some? then Onward(p.value.next.value, out + p.value.payload, p.value.total)
    else if |out + p.value.payload| == p.value.total then Finished(out + p.value.payload)
    else Broken
  }

  /** The next fragment of a live chain carries the walk on, or completes the value. */
  lemma LivePiece(d: Disk, l: Lazy, chains: Chains, loc: Frag, i: nat, cur: Frag, out: seq<Byte>, total: Option<nat>)
    requires Holds(d, l, chains) && Reading(chains, loc, i, cur, out, total)
    ensures loc in chains ==>
              match Advance(PieceAt(d, l, cur), out, total)
              case Broken => false
              case Finished(bytes) => bytes == chains[loc].data
              case Onward(next, more, t) => Reading(chains, loc, i + 1, next, more, Some(t))
  {
    if loc in chains {
      var c := chains[loc];
      assert Whole(d, l, loc, c);
      var next := NextOf(c.frags, i);
      assert InRange(next);
      hide FragAt, Parse;
      PieceBound(|c.data|, i);
      ParseRec(c.data, i, next);
      JoinChunk(c.data, i);
      assert c.data[..|c.data|] == c.data;
    }
  }

  lemma ChainShort(d: Disk, l: Lazy, chains: Chains, loc: Frag, count: nat, cur: Frag, out: seq<Byte>, total: Option<nat>)
    requires Holds(d, l, chains) && Reading(chains, loc, count, cur, out, total)
    ensures loc in chains ==> count < MAX_FRAGS
  {
    if loc in chains {
      HasPiece(|chains[loc].data|);
      hide Laid, Pieces, FragAt;
      assert Whole(d, l, loc, chains[loc]);
    }
  }

  lemma LiveFirst(d: Disk, l: Lazy, chains: Chains, loc: Frag)
    requires Holds(d, l, chains) && loc in chains
    ensures |chains[loc].frags| > 0 && chains[loc].frags[..1] == [loc]
  {
    HasPiece(|chains[loc].data|);
    hide Laid, Pieces, FragAt;
    assert Whole(d, l, loc, chains[loc]);
  }

  lemma LiveRec(d: Disk, l: Lazy, chains: Chains, loc: Frag, i: nat)
    requires Holds(d, l, chains) && loc in chains && i < |chains[loc].frags|
    ensures var c := chains[loc];
            0 < |c.data| <= MAX_VALUE && |c.frags| == Pieces(|c.data|) && InRange(NextOf(c.frags, i))
            && FragAt(d, l, c.frags[i]) == Some(Rec(c.data, i, NextOf(c.frags, i)))
  {
    assert Whole(d, l, loc, chains[loc]);
    if i + 1 < |chains[loc].frags| {
      assert InRange(chains[loc].frags[i + 1]);
    }
  }

  lemma ResidentFrag(frames: seq<Frame>, index: map<nat, nat>, disk: Disk, lazy: Lazy, nextId: nat, g: Frag)
    requires Inverse(frames, index) && WrittenThrough(frames, disk) && DiskOk(disk, nextId) && LazyOk(index, lazy, disk) && g.0 in index
    ensures g.0 in disk && Get(disk[g.0], g.1) == FragAt(disk, lazy, g)
  {
    ResidentImage(frames, index, disk, g.0);
    GetIsContent(disk[g.0], g.1);
  }

  /** A chained record of a live value points to the next fragment. */
  lemma NextPiece(c: Chain, i: nat, rec: seq<Byte>)
    requires 0 < |c.data| <= MAX_VALUE && |c.frags| == Pieces(|c.data|) && i < |c.frags| && InRange(NextOf(c.frags, i))
    requires rec == Rec(c.data, i, NextOf(c.frags, i)) && |rec| >= CHAINED && rec[0] == 1
    ensures i + 1 < |c.frags| && Parse(rec).Some? && Parse(rec).value.next == Some(c.frags[i + 1])
    ensures c.frags[..i + 1] + [c.frags[i + 1]] == c.frags[..i + 2]
  {
    PieceBound(|c.data|, i);
    ParseRec(c.data, i, NextOf(c.frags, i));
  }

  /** Retiring a value leaves the others, and quarantines fragments of none. */
  lemma Retire(d: Disk, l: Lazy, chains: Chains, q: seq<Quarantined>, loc: Frag, frags: seq<Frag>, epoch: nat)
    requires Holds(d, l, chains) && Waiting(d, l, chains, q) && loc in chains
    requires |frags| <= |chains[loc].frags| && frags == chains[loc].frags[..|frags|]
    ensures Holds(d, l, chains - {loc}) && Waiting(d, l, chains - {loc}, q + [Quarantined(frags, epoch)])
  {
    var fewer := chains - {loc};
    hide FragAt, Laid;
    assert Apart(fewer);
    forall x | x in fewer ensures Whole(d, l, x, fewer[x]) { assert Whole(d, l, x, chains[x]); }
    SpentFrags(d, l, chains, q, loc, frags);
    hide Spent, Holds, Outside, Idle;
    WaitingFewer(d, l, chains, q, loc);
    WaitingPush(d, l, fewer, q, frags, epoch);
  }

  lemma SpentFrags(d: Disk, l: Lazy, chains: Chains, q: seq<Quarantined>, loc: Frag, frags: seq<Frag>)
    requires Holds(d, l, chains) && Waiting(d, l, chains, q) && loc in chains
    requires |frags| <= |chains[loc].frags| && frags == chains[loc].frags[..|frags|]
    ensures Spent(d, l, chains - {loc}, frags) && forall i :: 0 <= i < |q| ==> Disjoint(q[i].frags, frags)
  {
    hide FragAt, Rec, Pieces;
    var c, fewer := chains[loc], chains - {loc};
    assert Whole(d, l, loc, c);
    assert Distinct(frags);
    forall f | f in frags ensures Idle(fewer, f) && FragAt(d, l, f).Some? && Outside(q, f) {
      var k :| 0 <= k < |frags| && frags[k] == f;
      assert c.frags[k] == f && f in c.frags;
      hide Waiting;
      LiveIsOutside(d, l, chains, q, loc, f);
    }
    hide Holds;
    forall i | 0 <= i < |q| ensures Disjoint(q[i].frags, frags) {
      forall f | f in q[i].frags ensures f !in frags {
        assert f in frags ==> Outside(q, f);
      }
    }
  }

  lemma WaitingFewer(d: Disk, l: Lazy, chains: Chains, q: seq<Quarantined>, loc: Frag)
    requires Waiting(d, l, chains, q)
    ensures Waiting(d, l, chains - {loc}, q)
  {
    hide FragAt, Disjoint, Distinct;
    forall i | 0 <= i < |q| ensures Spent(d, l, chains - {loc}, q[i].frags) {
      assert Spent(d, l, chains, q[i].frags);
    }
  }

  lemma WaitingPush(d: Disk, l: Lazy, chains: Chains, q: seq<Quarantined>, frags: seq<Frag>, epoch: nat)
    requires Waiting(d, l, chains, q) && Spent(d, l, chains, frags) && forall i :: 0 <= i < |q| ==> Disjoint(q[i].frags, frags)
    ensures Waiting(d, l, chains, q + [Quarantined(frags, epoch)])
  {
    hide Spent, Disjoint;
  }

  lemma NewValue(chains: Chains, loc: Frag, c: Chain)
    ensures ValuesOf(chains[loc := c]) == ValuesOf(chains)[loc := c.data]
  {
  }

  lemma OnDisk(d: Disk, l: Lazy, g: Frag)
    requires FragAt(d, l, g).Some?
    ensures g.0 in d
  {
  }

  lemma SpentRest(d: Disk, l: Lazy, d': Disk, l': Lazy, chains: Chains, frags: seq<Frag>, i: nat)
    requires i < |frags| && Spent(d, l, chains, frags[i..]) && OneFrag(d, l, d', l', frags[i], None)
    ensures Spent(d', l', chains, frags[i + 1..])
  {
    hide FragAt, Idle;
    var rest := frags[i + 1..];
    assert frags[i..][1..] == rest;
    forall f | f in rest ensures Idle(chains, f) && FragAt(d', l', f).Some? {
      assert f in frags[i..];
      var j :| 0 <= j < |rest| && rest[j] == f;
      assert frags[i..][j + 1] == f && frags[i..][0] == frags[i];
    }
  }

  lemma TakeEntry(d: Disk, l: Lazy, chains: Chains, q: seq<Quarantined>, i: nat)
    requires Waiting(d, l, chains, q) && i < |q|
    ensures var rest := q[..i] + q[i + 1..];
            Waiting(d, l, chains, rest) && Spent(d, l, chains, q[i].frags)
            && forall j :: 0 <= j < |rest| ==> Disjoint(q[i].frags, rest[j].frags)
  {
    hide Spent;
    var rest := q[..i] + q[i + 1..];
    assert forall j :: 0 <= j < |rest| ==> rest[j] == if j < i then q[j] else q[j + 1];
  }
}
