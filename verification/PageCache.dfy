/**
 The buffer pool: a write-through cache of pages with cooling and eviction, lazily applied
 frees, and values stored as chains of fragments. It refines a map from live locators to
 byte strings.
 */
module PageCache {
  import opened Bytes
  import opened Slotted

  type Frag = (nat, nat)    // page, slot; the first fragment of a chain is its locator
  type Disk = map<nat, Page>
  type Lazy = map<nat, seq<nat>>

  const MAX_PAGE: nat := 0xFFFF_FFFF_FFFF_FFFF

  datatype Frame = Frame(page: Option<nat>, image: Option<Page>, cooling: bool)

  predicate Hot(f: Frame) { f.page.Some? && !f.cooling }

  const Empty: Frame := Frame(None, None, false)

  /** What a fragment's slot holds, lazily applied frees included. */
  function FragAt(disk: Disk, lazy: Lazy, f: Frag): Option<seq<Byte>> {
    if f.0 in disk && !(f.0 in lazy && f.1 in lazy[f.0]) then Content(disk[f.0], f.1) else None
  }

  ghost predicate SameFrags(d: Disk, l: Lazy, d': Disk, l': Lazy) { forall f: Frag :: FragAt(d', l', f) == FragAt(d, l, f) }

  /** Only fragment `g` changed, to `v`. */
  ghost predicate OneFrag(d: Disk, l: Lazy, d': Disk, l': Lazy, g: Frag, v: Option<seq<Byte>>) {
    FragAt(d', l', g) == v && forall f: Frag :: f != g ==> FragAt(d', l', f) == FragAt(d, l, f)
  }

  // ---------------------------------------------------------------------
  // Invariants of the cache
  // ---------------------------------------------------------------------

  /** Page table and frames are inverse. */
  ghost predicate Inverse(frames: seq<Frame>, index: map<nat, nat>) {
    && (forall p :: p in index ==> index[p] < |frames| && frames[index[p]].page == Some(p))
    && (forall f :: 0 <= f < |frames| && frames[f].page.Some? ==> frames[f].page.value in index && index[frames[f].page.value] == f)
  }

  /** A resident image equals its page on disk. */
  ghost predicate WrittenThrough(frames: seq<Frame>, disk: Disk) {
    forall f :: 0 <= f < |frames| ==>
      if frames[f].page.Some? then frames[f].page.value in disk && frames[f].image == Some(disk[frames[f].page.value])
      else frames[f].image.None? && !frames[f].cooling
  }

  /** The cooling queue holds exactly the cooling frames, once each. */
  ghost predicate Queued(frames: seq<Frame>, cooling: seq<nat>) {
    && (forall i :: 0 <= i < |cooling| ==> cooling[i] < |frames| && frames[cooling[i]].cooling)
    && (forall f :: 0 <= f < |frames| && frames[f].cooling ==> f in cooling)
    && (forall i, j :: 0 <= i < j < |cooling| ==> cooling[i] != cooling[j])
  }

  ghost predicate DiskOk(disk: Disk, nextId: nat) {
    0 < nextId <= MAX_PAGE && forall p :: p in disk ==> 0 < p < nextId && Wf(disk[p]) && disk[p].id == p
  }

  /** Lazy frees wait only on evicted pages. */
  ghost predicate LazyOk(index: map<nat, nat>, lazy: Lazy, disk: Disk) {
    forall p :: p in lazy ==> p in disk && p !in index
  }

  lemma DropInverse(frames: seq<Frame>, index: map<nat, nat>, f: nat, p: nat)
    requires Inverse(frames, index) && f < |frames| && frames[f].page == Some(p)
    ensures Inverse(frames[f := Empty], index - {p})
  {
  }

  lemma PutInverse(frames: seq<Frame>, index: map<nat, nat>, f: nat, p: nat, img: Page)
    requires Inverse(frames, index) && f < |frames| && frames[f].page.None? && p !in index
    ensures Inverse(frames[f := Frame(Some(p), Some(img), false)], index[p := f])
  {
  }

  /** Changing only an image or a cooling mark keeps the table. */
  lemma SameInverse(frames: seq<Frame>, index: map<nat, nat>, f: nat, fr: Frame)
    requires Inverse(frames, index) && f < |frames| && fr.page == frames[f].page
    ensures Inverse(frames[f := fr], index)
  {
  }

  lemma Unqueue(frames: seq<Frame>, cooling: seq<nat>, f: nat, fr: Frame)
    requires Queued(frames, cooling) && f < |frames| && !fr.cooling
    ensures Queued(frames[f := fr], Without(cooling, f))
    ensures f !in cooling ==> Without(cooling, f) == cooling
    ensures cooling != [] && cooling[0] == f ==> Without(cooling, f) == cooling[1..]
  {
    var rest := Without(cooling, f);
    WithoutMembers(cooling, f);
    forall i | 0 <= i < |rest| ensures rest[i] < |frames| && frames[f := fr][rest[i]].cooling {
      assert rest[i] in rest;
      var j :| 0 <= j < |cooling| && cooling[j] == rest[i];
    }
  }

  function Without(s: seq<nat>, f: nat): seq<nat> {
    if s == [] then [] else (if s[0] == f then [] else [s[0]]) + Without(s[1..], f)
  }

  lemma {:induction false} WithoutMembers(s: seq<nat>, f: nat)
    requires forall i, j :: 0 <= i < j < |s| ==> s[i] != s[j]
    ensures forall x :: x in Without(s, f) <==> x in s && x != f
    ensures forall i, j :: 0 <= i < j < |Without(s, f)| ==> Without(s, f)[i] != Without(s, f)[j]
    ensures f !in s ==> Without(s, f) == s
    ensures s != [] && s[0] == f ==> Without(s, f) == s[1..]
  {
    if s != [] {
      WithoutMembers(s[1..], f);
      assert s == [s[0]] + s[1..];
      assert s[0] !in s[1..];
    }
  }

  lemma Enqueue(frames: seq<Frame>, cooling: seq<nat>, f: nat)
    requires Queued(frames, cooling) && f < |frames| && !frames[f].cooling
    ensures Queued(frames[f := frames[f].(cooling := true)], cooling + [f])
  {
    var q := cooling + [f];
    assert forall i :: 0 <= i < |cooling| ==> cooling[i] != f;
    forall g | 0 <= g < |frames| && frames[f := frames[f].(cooling := true)][g].cooling ensures g in q {
      if g != f {
        assert g in cooling;
      }
    }
  }

  // ---------------------------------------------------------------------
  // Effects on fragments
  // ---------------------------------------------------------------------

  function FreeAll(p: Page, slots: seq<nat>): Page {
    if slots == [] then p else FreeSlot(FreeAll(p, slots[..|slots| - 1]), slots[|slots| - 1])
  }

  lemma {:induction false} FreeAllContent(p: Page, slots: seq<nat>)
    requires Wf(p)
    ensures Wf(FreeAll(p, slots)) && FreeAll(p, slots).id == p.id
    ensures forall s :: Content(FreeAll(p, slots), s) == if s in slots then None else Content(p, s)
  {
    if slots != [] {
      var init, last := slots[..|slots| - 1], slots[|slots| - 1];
      FreeAllContent(p, init);
      FreeContent(FreeAll(p, init), last);
      assert slots == init + [last];
      hide Content, Wf;
    }
  }

  /** Applying the lazy frees of a page changes no fragment. */
  lemma ApplyLazy(disk: Disk, lazy: Lazy, p: nat)
    requires p in disk && p in lazy && Wf(disk[p])
    ensures SameFrags(disk, lazy, disk[p := FreeAll(disk[p], lazy[p])], lazy - {p})
  {
    FreeAllContent(disk[p], lazy[p]);
    hide Content, FreeAll;
  }

  /** Writing a page whose one slot changed changes one fragment. */
  lemma WriteOne(disk: Disk, lazy: Lazy, p: nat, img: Page, s: nat, v: Option<seq<Byte>>)
    requires p !in lazy && Content(img, s) == v && (forall t: nat :: t != s ==> Content(img, t) == (if p in disk then Content(disk[p], t) else None))
    ensures OneFrag(disk, lazy, disk[p := img], lazy, (p, s), v)
  {
    hide Content;
  }

  lemma FreeLater(disk: Disk, lazy: Lazy, f: Frag)
    ensures OneFrag(disk, lazy, disk, lazy[f.0 := (if f.0 in lazy then lazy[f.0] else []) + [f.1]], f, None)
  {
    hide Content;
    var lazy' := lazy[f.0 := (if f.0 in lazy then lazy[f.0] else []) + [f.1]];
    forall g: Frag | g != f ensures FragAt(disk, lazy', g) == FragAt(disk, lazy, g) {
      if g.0 == f.0 {
        assert g.1 in lazy'[f.0] <==> (f.0 in lazy && g.1 in lazy[f.0]);
      }
    }
  }

  lemma SameThenOne(a: Disk, la: Lazy, b: Disk, lb: Lazy, c: Disk, lc: Lazy, g: Frag, v: Option<seq<Byte>>)
    requires SameFrags(a, la, b, lb) && OneFrag(b, lb, c, lc, g, v)
    ensures OneFrag(a, la, c, lc, g, v)
  {
    hide FragAt;
  }

  // ---------------------------------------------------------------------
  // The pool
  // ---------------------------------------------------------------------

  /** Best fit over every page with known free space. */
  method BestFit(freeMap: map<nat, nat>, need: nat) returns (best: Option<nat>)
    ensures best.Some? ==> best.value in freeMap && freeMap[best.value] >= need
    ensures best.Some? ==> forall p :: p in freeMap && freeMap[p] >= need ==> freeMap[best.value] <= freeMap[p]
    ensures best.None? ==> forall p :: p in freeMap ==> freeMap[p] < need
  {
    best := None;
    var todo := freeMap.Keys;
    while todo != {}
      invariant todo <= freeMap.Keys
      invariant best.Some? ==> best.value in freeMap && freeMap[best.value] >= need
      invariant best.Some? ==> forall p :: p in freeMap && p !in todo && freeMap[p] >= need ==> freeMap[best.value] <= freeMap[p]
      invariant best.None? ==> forall p :: p in freeMap && p !in todo ==> freeMap[p] < need
      decreases |todo|
    {
      var p :| p in todo;
      todo := todo - {p};
      if freeMap[p] >= need && (best.None? || freeMap[p] < freeMap[best.value]) {
        best := Some(p);
      }
    }
  }

  class Cache {
    var disk: Disk
    var nextId: nat
    var frames: seq<Frame>
    var index: map<nat, nat>
    var cooling: seq<nat>
    var lazy: Lazy
    var freeMap: map<nat, nat>

    ghost predicate Valid()
      reads this
    {
      && |frames| > 0 && Inverse(frames, index) && WrittenThrough(frames, disk) && Queued(frames, cooling)
      && DiskOk(disk, nextId) && LazyOk(index, lazy, disk) && freeMap.Keys <= disk.Keys
    }

    constructor (n: nat)
      requires n > 0
      ensures Valid() && disk == map[] && lazy == map[] && |frames| == n
    {
      disk, nextId, index, cooling, lazy, freeMap := map[], 1, map[], [], map[], map[];
      frames := seq(n, _ => Empty);
    }

    method DropFrame(f: nat)
      requires Valid() && f < |frames|
      modifies this`frames, this`index, this`cooling
      ensures Valid() && |frames| == old(|frames|) && frames == old(frames)[f := Empty] && index.Keys <= old(index.Keys)
    {
      hide Inverse, Queued, DiskOk;
      Unqueue(frames, cooling, f, Empty);
      cooling := Without(cooling, f);
      if frames[f].page.Some? {
        DropInverse(frames, index, f, frames[f].page.value);
        index := index - {frames[f].page.value};
      } else {
        SameInverse(frames, index, f, Empty);
      }
      frames := frames[f := Empty];
    }

    /** A free frame first, then the oldest cooling one, else the picked hot one. */
    method VictimFrame(pick: nat) returns (f: nat)
      requires Valid() && pick < |frames|
      modifies this`frames, this`index, this`cooling
      ensures Valid() && |frames| == old(|frames|) && f < |frames| && frames[f].page.None? && index.Keys <= old(index.Keys)
      ensures (exists g :: 0 <= g < old(|frames|) && old(frames)[g].page.None?) ==> frames == old(frames) && index == old(index)
      ensures (forall g :: 0 <= g < old(|frames|) ==> old(frames)[g].page.Some?) ==>
                f == (if old(cooling) != [] then old(cooling)[0] else pick) && frames == old(frames)[f := Empty]
    {
      var i := 0;
      while i < |frames| && frames[i].page.Some?
        invariant 0 <= i <= |frames| && forall g :: 0 <= g < i ==> frames[g].page.Some?
      {
        i := i + 1;
      }
      if i < |frames| {
        return i;
      }
      f := if cooling != [] then cooling[0] else pick;
      DropFrame(f);
    }

    /** A hit on a cooling frame makes it hot again. */
    method Reheat(f: nat)
      requires Valid() && f < |frames| && frames[f].page.Some?
      modifies this`frames, this`cooling
      ensures Valid() && |frames| == old(|frames|) && frames[f] == old(frames[f]).(cooling := false)
    {
      hide Inverse, Queued, DiskOk, LazyOk;
      var fr := frames[f].(cooling := false);
      Unqueue(frames, cooling, f, fr);
      SameInverse(frames, index, f, fr);
      cooling := Without(cooling, f);
      frames := frames[f := fr];
    }

    /** Puts a page image into an empty frame, on disk and into the free map. */
    method Install(f: nat, page: nat, img: Page)
      requires Valid() && f < |frames| && frames[f].page.None? && page !in index && page !in lazy
      requires 0 < page < nextId && Wf(img) && img.id == page
      modifies this`frames, this`index, this`disk, this`freeMap
      ensures Valid() && |frames| == old(|frames|) && disk == old(disk)[page := img]
      ensures page in index && index[page] == f && frames[f] == Frame(Some(page), Some(img), false)
    {
      hide Inverse, Queued;
      PutInverse(frames, index, f, page, img);
      NotCooling(frames, cooling, f, page, img);
      WritePage(frames, disk, index, page, img);
      disk := disk[page := img];
      freeMap := freeMap[page := FreeSpace(img)];
      frames := frames[f := Frame(Some(page), Some(img), false)];
      index := index[page := f];
    }

    /** The page's frame, faulting the page in when needed; lazy frees are applied then. No
        fragment changes. */
    method FixPage(page: nat, pick: nat) returns (f: nat)
      requires Valid() && page in disk && pick < |frames|
      modifies this
      ensures Valid() && |frames| == old(|frames|) && nextId == old(nextId) && disk.Keys == old(disk.Keys)
      ensures page in index && index[page] == f < |frames| && frames[f].image == Some(disk[page]) && page !in lazy
      ensures !frames[f].cooling
      ensures SameFrags(old(disk), old(lazy), disk, lazy)
    {
      if page in index {
        f := index[page];
        Reheat(f);
        return;
      }
      f := VictimFrame(pick);
      var img := disk[page];
      hide Inverse, Queued, WrittenThrough, Content, FreeAll;
      if page in lazy {
        ApplyLazy(disk, lazy, page);
        FreeAllContent(img, lazy[page]);
        img := FreeSlots(img, lazy[page]);
        lazy := lazy - {page};
      } else {
        assert disk[page := img] == disk;
      }
      Install(f, page, img);
    }

    /** Changes a resident page, writing it through. */
    method WriteImage(f: nat, page: nat, img: Page)
      requires Valid() && page in index && index[page] == f && Wf(img) && img.id == page
      modifies this`frames, this`disk, this`freeMap
      ensures Valid() && |frames| == old(|frames|) && disk == old(disk)[page := img] && frames[f].image == Some(img)
    {
      var fr := frames[f].(image := Some(img));
      SameInverse(frames, index, f, fr);
      SameQueued(frames, cooling, f, fr);
      WriteResident(frames, disk, index, f, page, img);
      hide Inverse, Queued, WrittenThrough;
      frames := frames[f := fr];
      disk := disk[page := img];
      freeMap := freeMap[page := FreeSpace(img)];
    }

    /** Cools the first hot frame among a few sampled ones. */
    method MaybeCool(samples: seq<nat>)
      requires Valid() && forall i :: 0 <= i < |samples| ==> samples[i] < |frames|
      modifies this`frames, this`cooling
      ensures Valid() && |frames| == old(|frames|)
      ensures if old(|cooling|) < |frames| && (exists i :: 0 <= i < |samples| && Hot(old(frames)[samples[i]]))
              then exists i :: 0 <= i < |samples| && Hot(old(frames)[samples[i]])
                               && cooling == old(cooling) + [samples[i]] && (forall j :: 0 <= j < i ==> !Hot(old(frames)[samples[j]]))
              else cooling == old(cooling) && frames == old(frames)
    {
      if |cooling| >= |frames| {
        return;
      }
      for i := 0 to |samples|
        invariant Valid() && frames == old(frames) && cooling == old(cooling) && forall j :: 0 <= j < i ==> !Hot(frames[samples[j]])
      {
        var v := samples[i];
        if Hot(frames[v]) {
          var fr := frames[v].(cooling := true);
          Enqueue(frames, cooling, v);
          SameInverse(frames, index, v, fr);
          hide Inverse, Queued;
          frames := frames[v := fr];
          cooling := cooling + [v];
          return;
        }
      }
    }

    /** Stores a fragment in the best-fitting known page, else in a fresh one. The slot was
        unused, and nothing else changes. Fails only when page ids are exhausted. */
    method InsertFrag(rec: seq<Byte>, pick: nat, samples: seq<nat>) returns (r: Option<Frag>)
      requires Valid() && pick < |frames| && (forall i :: 0 <= i < |samples| ==> samples[i] < |frames|)
      requires |rec| <= PAGE_SIZE - HEADER_LEN - 2 * SLOT_LEN
      modifies this
      ensures Valid() && |frames| == old(|frames|)
      ensures r.Some? ==> FragAt(old(disk), old(lazy), r.value).None? && r.value.0 <= MAX_PAGE && r.value.1 < PAGE_SIZE
      ensures r.Some? ==> OneFrag(old(disk), old(lazy), disk, lazy, r.value, Some(rec))
      ensures r.None? ==> SameFrags(old(disk), old(lazy), disk, lazy) && nextId == MAX_PAGE
    {
      hide Inverse, Queued, WrittenThrough, Content, Wf, LazyOk;
      var best := BestFit(freeMap, |rec| + SLOT_LEN);
      if best.Some? {
        var page := best.value;
        var f := FixPage(page, pick);
        var img := frames[f].image.value;
        var put := Insert(img, rec);
        if put.Some? {
          InsertContent(img, rec);
          ghost var d, l := disk, lazy;
          WriteOne(disk, lazy, page, put.value.0, put.value.1, Some(rec));
          WriteImage(f, page, put.value.0);
          SameThenOne(old(disk), old(lazy), d, l, disk, lazy, (page, put.value.1), Some(rec));
          Unused(old(disk), old(lazy), d, l, (page, put.value.1));
          return Some((page, put.value.1));
        }
        freeMap := freeMap[page := FreeSpace(img)];
      }
      ghost var d, l := disk, lazy;
      if nextId == MAX_PAGE {
        return None;
      }
      r := FreshPage(rec, pick);
      MaybeCool(samples);
      if best.Some? {
        SameThenOne(old(disk), old(lazy), d, l, disk, lazy, r.value, Some(rec));
        Unused(old(disk), old(lazy), d, l, r.value);
      }
    }

    method FreshPage(rec: seq<Byte>, pick: nat) returns (r: Option<Frag>)
      requires Valid() && pick < |frames| && nextId < MAX_PAGE && |rec| <= PAGE_SIZE - HEADER_LEN - 2 * SLOT_LEN
      modifies this`nextId, this`frames, this`index, this`cooling, this`disk, this`freeMap
      ensures Valid() && |frames| == old(|frames|) && r.Some? && FragAt(old(disk), lazy, r.value).None?
      ensures r.value.0 <= MAX_PAGE && r.value.1 < PAGE_SIZE && OneFrag(old(disk), lazy, disk, lazy, r.value, Some(rec))
    {
      var id := nextId;
      NewId(index, frames, disk, nextId, lazy);
      nextId := nextId + 1;
      var f := VictimFrame(pick);
      var fresh' := Create(id);
      FreshFits(id, rec);
      InsertContent(fresh', rec);
      var (img, slot) := Insert(fresh', rec).value;
      hide Inverse, Queued, WrittenThrough, Content, Wf, LazyOk, Insert;
      WriteOne(disk, lazy, id, img, slot, Some(rec));
      Install(f, id, img);
      return Some((id, slot));
    }

    /** Frees a fragment's slot: at once when its page is resident, lazily otherwise. */
    method FreeFrag(g: Frag)
      requires Valid() && g.0 in disk
      modifies this`frames, this`disk, this`freeMap, this`lazy
      ensures Valid() && |frames| == old(|frames|) && disk.Keys == old(disk.Keys)
      ensures OneFrag(old(disk), old(lazy), disk, lazy, g, None)
    {
      hide Inverse, Queued, Content;
      if g.0 in index {
        var f := index[g.0];
        ResidentImage(frames, index, disk, g.0);
        var img := FreeSlot(disk[g.0], g.1);
        FreeContent(disk[g.0], g.1);
        WriteOne(disk, lazy, g.0, img, g.1, None);
        WriteImage(f, g.0, img);
      } else {
        FreeLater(disk, lazy, g);
        lazy := lazy[g.0 := (if g.0 in lazy then lazy[g.0] else []) + [g.1]];
      }
    }

    /** Reads a fragment, faulting its page in; `None` for a page or slot that is not there. */
    method ReadFrag(g: Frag, pick: nat) returns (rec: Option<seq<Byte>>)
      requires Valid() && pick < |frames|
      modifies this
      ensures Valid() && |frames| == old(|frames|) && SameFrags(old(disk), old(lazy), disk, lazy)
      ensures rec == FragAt(disk, lazy, g)
    {
      if g.0 !in disk {
        return None;
      }
      var f := FixPage(g.0, pick);
      hide Inverse, Queued;
      GetIsContent(disk[g.0], g.1);
      rec := Get(frames[f].image.value, g.1);
    }

    /** Overwrites part of a fragment in place. */
    method PatchFrag(g: Frag, at: nat, bytes: seq<Byte>, pick: nat, ghost rec: seq<Byte>)
      requires Valid() && pick < |frames| && FragAt(disk, lazy, g) == Some(rec) && at + |bytes| <= |rec|
      modifies this
      ensures Valid() && |frames| == old(|frames|)
      ensures OneFrag(old(disk), old(lazy), disk, lazy, g, Some(Overwrite(rec, at, bytes)))
    {
      var f := FixPage(g.0, pick);
      ghost var d, l := disk, lazy;
      hide Inverse, Queued, WrittenThrough, LazyOk;
      Unused(old(disk), old(lazy), disk, lazy, g);
      var img := Patch(frames[f].image.value, g.1, at, bytes);
      PatchContent(disk[g.0], g.1, at, bytes);
      hide Content, Wf, Patch, Overwrite;
      WriteOne(disk, lazy, g.0, img, g.1, Some(Overwrite(rec, at, bytes)));
      WriteImage(f, g.0, img);
      SameThenOne(old(disk), old(lazy), d, l, disk, lazy, g, Some(Overwrite(rec, at, bytes)));
    }

    static method FreeSlots(img: Page, slots: seq<nat>) returns (p: Page)
      ensures p == FreeAll(img, slots)
    {
      p := img;
      for i := 0 to |slots|
        invariant p == FreeAll(img, slots[..i])
      {
        assert slots[..i + 1][..i] == slots[..i];
        p := FreeSlot(p, slots[i]);
      }
      assert slots[..|slots|] == slots;
    }
  }

  lemma NotCooling(frames: seq<Frame>, cooling: seq<nat>, f: nat, p: nat, img: Page)
    requires Queued(frames, cooling) && f < |frames| && !frames[f].cooling
    ensures Queued(frames[f := Frame(Some(p), Some(img), false)], cooling)
  {
  }

  /** A page that is not resident can be rewritten on disk. */
  lemma WritePage(frames: seq<Frame>, disk: Disk, index: map<nat, nat>, p: nat, img: Page)
    requires Inverse(frames, index) && WrittenThrough(frames, disk) && p !in index
    ensures WrittenThrough(frames, disk[p := img])
  {
  }

  lemma SameQueued(frames: seq<Frame>, cooling: seq<nat>, f: nat, fr: Frame)
    requires Queued(frames, cooling) && f < |frames| && fr.cooling == frames[f].cooling
    ensures Queued(frames[f := fr], cooling)
  {
  }

  lemma WriteResident(frames: seq<Frame>, disk: Disk, index: map<nat, nat>, f: nat, p: nat, img: Page)
    requires Inverse(frames, index) && WrittenThrough(frames, disk) && p in index && index[p] == f
    ensures WrittenThrough(frames[f := frames[f].(image := Some(img))], disk[p := img])
  {
  }

  lemma ResidentImage(frames: seq<Frame>, index: map<nat, nat>, disk: Disk, p: nat)
    requires Inverse(frames, index) && WrittenThrough(frames, disk) && p in index
    ensures p in disk && index[p] < |frames| && frames[index[p]].image == Some(disk[p])
  {
  }

  lemma NewId(index: map<nat, nat>, frames: seq<Frame>, disk: Disk, nextId: nat, lazy: Lazy)
    requires Inverse(frames, index) && WrittenThrough(frames, disk) && DiskOk(disk, nextId) && LazyOk(index, lazy, disk)
    ensures nextId !in disk && nextId !in index && nextId !in lazy
  {
  }

  lemma Unused(a: Disk, la: Lazy, b: Disk, lb: Lazy, f: Frag)
    requires SameFrags(a, la, b, lb)
    ensures FragAt(a, la, f) == FragAt(b, lb, f)
  {
  }
}
