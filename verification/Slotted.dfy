/**
 Slotted pages: records grow down from the end of the page, the slot directory up from its
 header. Directory entries and counters are numbers here, record bytes are bytes.
 */
module Slotted {
  import opened Bytes

  const PAGE_SIZE: nat := 262_144
  const HEADER_LEN: nat := 32
  const SLOT_LEN: nat := 8

  /** Offset and length of a record; both zero for a free slot. */
  datatype Slot = Slot(off: nat, len: nat)

  datatype Page = Page(id: nat, slots: seq<Slot>, start: nat, bytes: seq<Byte>)

  predicate Used(s: Slot) { s.off != 0 || s.len != 0 }

  function DirEnd(n: nat): nat { HEADER_LEN + n * SLOT_LEN }

  /** The record lies in the data region. */
  predicate Inside(p: Page, s: Slot) { p.start <= s.off && s.off + s.len <= PAGE_SIZE }

  predicate Apart(a: Slot, b: Slot) { a.off + a.len <= b.off || b.off + b.len <= a.off }

  ghost predicate Wf(p: Page) {
    && |p.bytes| == PAGE_SIZE && DirEnd(|p.slots|) <= p.start <= PAGE_SIZE
    && (forall s :: 0 <= s < |p.slots| && Used(p.slots[s]) ==> Inside(p, p.slots[s]))
    && (forall s, t :: 0 <= s < t < |p.slots| && Used(p.slots[s]) && Used(p.slots[t]) ==> Apart(p.slots[s], p.slots[t]))
  }

  function Create(id: nat): (p: Page)
    ensures Wf(p) && forall s :: Content(p, s).None?
  {
    Page(id, [], PAGE_SIZE, seq(PAGE_SIZE, _ => 0))
  }

  /** Bytes for a new record and its slot. */
  function FreeSpace(p: Page): nat {
    if p.start >= DirEnd(|p.slots| + 1) then p.start - DirEnd(|p.slots| + 1) else 0
  }

  /** What a slot holds. */
  function Content(p: Page, s: nat): Option<seq<Byte>> {
    if s < |p.slots| && Used(p.slots[s]) && p.slots[s].off + p.slots[s].len <= |p.bytes|
    then Some(p.bytes[p.slots[s].off..p.slots[s].off + p.slots[s].len])
    else None
  }

  /** Reading a slot, with the bounds the code checks. */
  function Get(p: Page, s: nat): Option<seq<Byte>> {
    if s >= |p.slots| || DirEnd(s + 1) > PAGE_SIZE || !Used(p.slots[s]) then None
    else if p.slots[s].off + p.slots[s].len > PAGE_SIZE || p.slots[s].off < DirEnd(|p.slots|) then None
    else if |p.bytes| == PAGE_SIZE then Some(p.bytes[p.slots[s].off..p.slots[s].off + p.slots[s].len])
    else None
  }

  lemma GetIsContent(p: Page, s: nat)
    requires Wf(p)
    ensures Get(p, s) == Content(p, s)
  {
  }

  function FirstFree(slots: seq<Slot>, from: nat): (s: nat)
    requires from <= |slots|
    ensures from <= s <= |slots| && (s < |slots| ==> !Used(slots[s]))
    decreases |slots| - from
  {
    if from == |slots| || !Used(slots[from]) then from else FirstFree(slots, from + 1)
  }

  function Overwrite(bytes: seq<Byte>, at: nat, data: seq<Byte>): (r: seq<Byte>)
    requires at + |data| <= |bytes|
    ensures |r| == |bytes| && r[at..at + |data|] == data
    ensures forall i :: 0 <= i < at || at + |data| <= i < |bytes| ==> r[i] == bytes[i]
  {
    bytes[..at] + data + bytes[at + |data|..]
  }

  lemma OverwriteApart(bytes: seq<Byte>, at: nat, data: seq<Byte>, a: nat, b: nat)
    requires at + |data| <= |bytes| && a <= b <= |bytes| && (b <= at || at + |data| <= a)
    ensures Overwrite(bytes, at, data)[a..b] == bytes[a..b]
  {
  }

  /** Insert into the first free slot, else a new one; `None` when it does not fit. */
  function Insert(p: Page, data: seq<Byte>): Option<(Page, nat)>
    requires Wf(p)
  {
    if |data| + SLOT_LEN > FreeSpace(p) then None
    else
      var s := FirstFree(p.slots, 0);
      var start := p.start - |data|;
      var slot := Slot(start, |data|);
      Some((Page(p.id, if s < |p.slots| then p.slots[s := slot] else p.slots + [slot], start, Overwrite(p.bytes, start, data)), s))
  }

  function FreeSlot(p: Page, s: nat): Page {
    if s < |p.slots| && Used(p.slots[s]) then p.(slots := p.slots[s := Slot(0, 0)]) else p
  }

  /** Bytes of a record overwritten in place. */
  function Patch(p: Page, s: nat, at: nat, data: seq<Byte>): Page
    requires Wf(p) && s < |p.slots| && Used(p.slots[s]) && at + |data| <= p.slots[s].len
  {
    p.(bytes := Overwrite(p.bytes, p.slots[s].off + at, data))
  }

  /** An insert fills its slot and leaves every other slot as it was. */
  lemma InsertContent(p: Page, data: seq<Byte>)
    requires Wf(p) && Insert(p, data).Some?
    ensures var (p', s) := Insert(p, data).value;
            Wf(p') && p'.id == p.id && Content(p, s).None? && Content(p', s) == Some(data)
            && (forall t :: t != s ==> Content(p', t) == Content(p, t)) && s < PAGE_SIZE
  {
    var (p', s) := Insert(p, data).value;
    var start := p.start - |data|;
    assert start >= DirEnd(|p.slots| + 1) > 0;
    assert Used(p'.slots[s]);
    forall t, u | 0 <= t < u < |p'.slots| && Used(p'.slots[t]) && Used(p'.slots[u]) ensures Apart(p'.slots[t], p'.slots[u]) {
      if t != s && u != s {
        assert p'.slots[t] == p.slots[t] && p'.slots[u] == p.slots[u];
      }
    }
    forall t: nat | t != s ensures Content(p', t) == Content(p, t) {
      if t < |p.slots| && Used(p.slots[t]) {
        assert Inside(p, p.slots[t]);
        OverwriteApart(p.bytes, start, data, p.slots[t].off, p.slots[t].off + p.slots[t].len);
      }
    }
  }

  lemma FreeContent(p: Page, s: nat)
    requires Wf(p)
    ensures Wf(FreeSlot(p, s)) && FreeSlot(p, s).id == p.id && Content(FreeSlot(p, s), s).None?
    ensures forall t :: t != s ==> Content(FreeSlot(p, s), t) == Content(p, t)
  {
  }

  lemma PatchContent(p: Page, s: nat, at: nat, data: seq<Byte>)
    requires Wf(p) && s < |p.slots| && Used(p.slots[s]) && at + |data| <= p.slots[s].len
    ensures var p', old' := Patch(p, s, at, data), Content(p, s).value;
            Wf(p') && p'.id == p.id && Content(p, s).Some? && |old'| == p.slots[s].len
            && Content(p', s) == Some(Overwrite(old', at, data))
            && (forall t :: t != s ==> Content(p', t) == Content(p, t))
  {
    var p', slot := Patch(p, s, at, data), p.slots[s];
    assert Inside(p, slot);
    var before := p.bytes[slot.off..slot.off + slot.len];
    var after := p'.bytes[slot.off..slot.off + slot.len];
    assert after == Overwrite(before, at, data);
    forall t: nat | t != s ensures Content(p', t) == Content(p, t) {
      if t < |p.slots| && Used(p.slots[t]) {
        assert Apart(p.slots[t], slot);
        OverwriteApart(p.bytes, slot.off + at, data, p.slots[t].off, p.slots[t].off + p.slots[t].len);
      }
    }
  }

  /** A fresh page takes every record up to the largest fragment. */
  lemma FreshFits(id: nat, data: seq<Byte>)
    requires |data| <= PAGE_SIZE - HEADER_LEN - 2 * SLOT_LEN
    ensures Insert(Create(id), data).Some?
  {
  }
}
