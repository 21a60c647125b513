/**
 Row writes that keep secondary indexes, and index scans. The trees are their contents:
 a map for the primary tree, a set of entries for each index.
 */
module Tables {
  import opened Bytes
  import opened Sql
  import opened Keys
  import Aggregate

  type Row = seq<Datum>

  datatype ColumnKind = Ints | Texts | Bools | Times

  predicate OfKind(d: Datum, k: ColumnKind) {
    d.Null? || (k.Ints? && d.Int?) || (k.Texts? && d.Text?) || (k.Bools? && d.Bool?) || (k.Times? && d.DateTime?)
  }

  datatype Shape = Shape(lib: Library, utf8: Utf8, kinds: seq<ColumnKind>, pk: nat)

  /** A validated row: one value of its column's kind per column, a primary key. */
  ghost predicate RowOk(s: Shape, row: Row) {
    && s.pk < |s.kinds| == |row| && (forall c :: 0 <= c < |row| ==> OfKind(row[c], s.kinds[c]))
    && !row[s.pk].Null?
  }

  /** The encoded primary key of a row that has one. */
  function PkKey(s: Shape, row: Row): Key {
    if s.pk < |row| && !row[s.pk].Float? && EncodeKey(s.utf8, row[s.pk]).Some? then EncodeKey(s.utf8, row[s.pk]).value else []
  }

  /** The row's entry in an index on `col`. */
  function Entry(s: Shape, row: Row, col: nat): Key {
    if s.pk < |row| && col < |row| && !row[col].Float? && !row[s.pk].Float? && SecKey(s.utf8, row[col], row[s.pk]).Some?
    then SecKey(s.utf8, row[col], row[s.pk]).value
    else []
  }

  ghost predicate TreeOk(s: Shape, tree: map<Key, Row>) {
    Utf8Ok(s.utf8) && forall k :: k in tree ==> RowOk(s, tree[k]) && PkKey(s, tree[k]) == k
  }

  /** The entries an index on `col` should hold. */
  ghost function Image(s: Shape, tree: map<Key, Row>, col: nat): set<Key>
    requires TreeOk(s, tree) && col < |s.kinds|
  {
    set k | k in tree :: Entry(s, tree[k], col)
  }

  lemma EntryInjective(s: Shape, a: Row, b: Row, col: nat)
    requires Utf8Ok(s.utf8) && RowOk(s, a) && RowOk(s, b) && col < |s.kinds|
    ensures Entry(s, a, col) == Entry(s, b, col) <==> a[col] == b[col] && a[s.pk] == b[s.pk]
    ensures PkKey(s, a) == PkKey(s, b) <==> a[s.pk] == b[s.pk]
  {
    assert OfKind(a[col], s.kinds[col]) && OfKind(b[col], s.kinds[col]);
    assert OfKind(a[s.pk], s.kinds[s.pk]) && OfKind(b[s.pk], s.kinds[s.pk]);
    SecKeyOrder(s.lib, s.utf8, a[col], a[s.pk], b[col], b[s.pk]);
    KeyOrder(s.lib, s.utf8, a[s.pk], b[s.pk]);
  }

  /** A row put under its key changes the image by its own entry, and by the entry of the row
      it replaces. */
  lemma ImagePut(s: Shape, tree: map<Key, Row>, row: Row, col: nat)
    requires TreeOk(s, tree) && RowOk(s, row) && col < |s.kinds|
    ensures TreeOk(s, tree[PkKey(s, row) := row])
    ensures var key := PkKey(s, row);
            Image(s, tree[key := row], col) ==
            (if key in tree then Image(s, tree, col) - {Entry(s, tree[key], col)} else Image(s, tree, col)) + {Entry(s, row, col)}
  {
    var key := PkKey(s, row);
    var tree' := tree[key := row];
    hide Utf8Ok, Entry, PkKey, EncodeKey, SecKey;
    assert TreeOk(s, tree');
    var left := Image(s, tree', col);
    var right := (if key in tree then Image(s, tree, col) - {Entry(s, tree[key], col)} else Image(s, tree, col)) + {Entry(s, row, col)};
    forall e ensures e in left <==> e in right {
      if e in left {
        var k :| k in tree' && Entry(s, tree'[k], col) == e;
        if k != key && key in tree {
          EntryInjective(s, tree[k], tree[key], col);
        }
      }
      if e in right && e != Entry(s, row, col) {
        var k :| k in tree && Entry(s, tree[k], col) == e;
        assert k != key && tree'[k] == tree[k];
      }
      if e == Entry(s, row, col) {
        assert tree'[key] == row;
      }
    }
  }

  lemma ImageDrop(s: Shape, tree: map<Key, Row>, key: Key, col: nat)
    requires TreeOk(s, tree) && key in tree && col < |s.kinds|
    ensures TreeOk(s, tree - {key})
    ensures Image(s, tree - {key}, col) == Image(s, tree, col) - {Entry(s, tree[key], col)}
  {
    var tree' := tree - {key};
    hide Utf8Ok, Entry, PkKey, EncodeKey, SecKey;
    assert TreeOk(s, tree');
    forall e ensures e in Image(s, tree', col) <==> e in Image(s, tree, col) - {Entry(s, tree[key], col)} {
      if e in Image(s, tree', col) {
        var k :| k in tree' && Entry(s, tree'[k], col) == e;
        EntryInjective(s, tree[k], tree[key], col);
        assert k in tree;
      }
      if e in Image(s, tree, col) && e != Entry(s, tree[key], col) {
        var k :| k in tree && Entry(s, tree[k], col) == e;
        assert k in tree';
      }
    }
  }

  datatype Inserted = Stored | DuplicateKey

  class Table {
    const shape: Shape
    const columns: seq<nat>          // the indexed column of each index
    var tree: map<Key, Row>
    var indexes: seq<set<Key>>

    /** Every index is the image of the table. */
    ghost predicate Valid()
      reads this
    {
      && TreeOk(shape, tree) && |indexes| == |columns|
      && forall i :: 0 <= i < |columns| ==> columns[i] < |shape.kinds| && indexes[i] == Image(shape, tree, columns[i])
    }

    constructor (s: Shape, indexed: seq<nat>)
      requires Utf8Ok(s.utf8) && forall i :: 0 <= i < |indexed| ==> indexed[i] < |s.kinds|
      ensures Valid() && shape == s && columns == indexed && tree == map[]
    {
      shape, columns, tree := s, indexed, map[];
      indexes := seq(|indexed|, _ => {});
    }

    method InsertRow(row: Row) returns (r: Inserted)
      requires Valid() && RowOk(shape, row)
      modifies this
      ensures Valid() && (r == DuplicateKey <==> PkKey(shape, row) in old(tree))
      ensures tree == if r == Stored then old(tree)[PkKey(shape, row) := row] else old(tree)
    {
      var key := PkKey(shape, row);
      if key in tree {
        return DuplicateKey;
      }
      Reindex(None, row, key);
      return Stored;
    }

    /** Insert or replace. */
    method UpsertRow(row: Row) returns (prev: Option<Row>)
      requires Valid() && RowOk(shape, row)
      modifies this
      ensures Valid() && tree == old(tree)[PkKey(shape, row) := row]
      ensures prev == if PkKey(shape, row) in old(tree) then Some(old(tree)[PkKey(shape, row)]) else None
    {
      var key := PkKey(shape, row);
      prev := if key in tree then Some(tree[key]) else None;
      Reindex(prev, row, key);
    }

    /** Replace only. */
    method UpdateRow(row: Row) returns (prev: Option<Row>)
      requires Valid() && RowOk(shape, row)
      modifies this
      ensures Valid() && prev == if PkKey(shape, row) in old(tree) then Some(old(tree)[PkKey(shape, row)]) else None
      ensures tree == if prev.Some? then old(tree)[PkKey(shape, row) := row] else old(tree)
    {
      var key := PkKey(shape, row);
      if key !in tree {
        return None;
      }
      prev := Some(tree[key]);
      Reindex(prev, row, key);
    }

    /** Stores the row and moves its entry in every index whose value changed. */
    method Reindex(prev: Option<Row>, row: Row, key: Key)
      requires Valid() && RowOk(shape, row) && key == PkKey(shape, row)
      requires prev == if key in tree then Some(tree[key]) else None
      modifies this
      ensures Valid() && tree == old(tree)[key := row]
    {
      ghost var before := tree;
      tree := tree[key := row];
      hide Image, Utf8Ok;
      if columns == [] {
        StillOk(shape, before, row);
      }
      for i := 0 to |columns|
        invariant |indexes| == |columns| && tree == before[key := row] && TreeOk(shape, before) && (i > 0 ==> TreeOk(shape, tree))
        invariant forall j :: 0 <= j < |columns| ==> columns[j] < |shape.kinds|
        invariant forall j :: 0 <= j < i ==> indexes[j] == Image(shape, tree, columns[j])
        invariant forall j :: i <= j < |columns| ==> indexes[j] == Image(shape, before, columns[j])
      {
        var col := columns[i];
        ImagePut(shape, before, row, col);
        assert OfKind(row[col], shape.kinds[col]) && OfKind(row[shape.pk], shape.kinds[shape.pk]);
        if prev.None? {
          indexes := indexes[i := indexes[i] + {Entry(shape, row, col)}];
        } else {
          EntryInjective(shape, before[key], row, col);
          assert OfKind(prev.value[col], shape.kinds[col]);
          if prev.value[col] != row[col] {
            indexes := indexes[i := indexes[i] - {Entry(shape, prev.value, col)} + {Entry(shape, row, col)}];
          } else {
            HasEntry(shape, before, key, col);
          }
        }
      }
    }

    /** Delete by primary key value; NULL is no key. */
    method DeleteRow(pk: Datum) returns (r: Option<Option<Row>>)
      requires Valid() && !pk.Float?
      modifies this
      ensures Valid() && (r.None? <==> pk.Null?)
      ensures r.None? ==> tree == old(tree)
      ensures r.Some? ==> var key := EncodeKey(shape.utf8, pk).value;
                tree == old(tree) - {key} && r.value == if key in old(tree) then Some(old(tree)[key]) else None
    {
      var key := EncodeKey(shape.utf8, pk);
      if key.None? {
        return None;
      }
      var row := RemoveRaw(key.value);
      return Some(row);
    }

    /** Delete by encoded key. */
    method RemoveRaw(key: Key) returns (row: Option<Row>)
      requires Valid()
      modifies this
      ensures Valid() && tree == old(tree) - {key} && row == if key in old(tree) then Some(old(tree)[key]) else None
    {
      if key !in tree {
        assert tree - {key} == tree;
        return None;
      }
      ghost var before := tree;
      var gone := tree[key];
      tree := tree - {key};
      hide Image, Utf8Ok;
      if columns == [] {
        StillOkWithout(shape, before, key);
      }
      for i := 0 to |columns|
        invariant |indexes| == |columns| && tree == before - {key} && TreeOk(shape, before) && (i > 0 ==> TreeOk(shape, tree))
        invariant forall j :: 0 <= j < |columns| ==> columns[j] < |shape.kinds|
        invariant forall j :: 0 <= j < i ==> indexes[j] == Image(shape, tree, columns[j])
        invariant forall j :: i <= j < |columns| ==> indexes[j] == Image(shape, before, columns[j])
      {
        ImageDrop(shape, before, key, columns[i]);
        assert OfKind(gone[columns[i]], shape.kinds[columns[i]]) && OfKind(gone[shape.pk], shape.kinds[shape.pk]);
        indexes := indexes[i := indexes[i] - {Entry(shape, gone, columns[i])}];
      }
      return Some(gone);
    }
  }

  lemma StillOk(s: Shape, tree: map<Key, Row>, row: Row)
    requires TreeOk(s, tree) && RowOk(s, row)
    ensures TreeOk(s, tree[PkKey(s, row) := row])
  {
  }

  lemma StillOkWithout(s: Shape, tree: map<Key, Row>, key: Key)
    requires TreeOk(s, tree)
    ensures TreeOk(s, tree - {key})
  {
  }

  lemma HasEntry(s: Shape, tree: map<Key, Row>, key: Key, col: nat)
    requires TreeOk(s, tree) && key in tree && col < |s.kinds|
    ensures Entry(s, tree[key], col) in Image(s, tree, col)
  {
  }

  // ---------------------------------------------------------------------
  // Index scans
  // ---------------------------------------------------------------------

  /** A bound on the indexed value, and whether it is inclusive. */
  type Bound = Option<(Datum, bool)>

  predicate Above(lib: Library, d: Datum, lo: Bound) {
    lo.Some? ==> if lo.value.1 then !Compare(lib, d, lo.value.0).Less? else Compare(lib, d, lo.value.0).Greater?
  }

  predicate Below(lib: Library, d: Datum, hi: Bound) {
    hi.Some? ==> if hi.value.1 then !Compare(lib, d, hi.value.0).Greater? else Compare(lib, d, hi.value.0).Less?
  }

  /** The entries at or after a key, ascending: what a range scan of the index tree yields. */
  method ScanFrom(entries: set<Key>, lo: Option<Key>) returns (s: seq<Key>)
    ensures Sorted(s) && forall k :: k in s <==> k in entries && (lo.Some? ==> !Bytes.Less(k, lo.value))
  {
    s := [];
    OrderLaws();
    var todo := set k | k in entries && (lo.Some? ==> !Bytes.Less(k, lo.value));
    ghost var all := todo;
    hide Bytes.Less, Bytes.Rank;
    while todo != {}
      invariant Sorted(s) && todo <= all && forall k :: k in s <==> k in all && k !in todo
      invariant forall k, i :: k in todo && 0 <= i < |s| ==> Bytes.Less(s[i], k)
      decreases |todo|
    {
      var least := Least(todo);
      forall i | 0 <= i < |s| ensures Bytes.Less(s[i], least) {}
      s := s + [least];
      todo := todo - {least};
    }
  }

  method Least(todo: set<Key>) returns (least: Key)
    requires todo != {}
    ensures least in todo && forall k :: k in todo && k != least ==> Bytes.Less(least, k)
  {
    OrderLaws();
    hide Bytes.Less, Bytes.Rank;
    least :| least in todo;
    var rest := todo - {least};
    while rest != {}
      invariant least in todo && rest <= todo && least !in rest
      invariant forall k :: k in todo && k !in rest && k != least ==> Bytes.Less(least, k)
      decreases |rest|
    {
      var k :| k in rest;
      rest := rest - {k};
      if Bytes.Less(k, least) {
        least := k;
      }
    }
  }

  /** An entry of the index, decoded. */
  ghost predicate EntryOf(s: Shape, tree: map<Key, Row>, col: nat, e: Key, sec: Datum, pk: Datum)
    requires TreeOk(s, tree) && col < |s.kinds|
  {
    exists k :: k in tree && e == Entry(s, tree[k], col) && sec == tree[k][col] && pk == tree[k][s.pk]
  }

  lemma DecodeEntry(s: Shape, tree: map<Key, Row>, col: nat, e: Key)
    requires TreeOk(s, tree) && col < |s.kinds| && e in Image(s, tree, col)
    ensures DecodeSecKey(s.utf8, e).Some?
    ensures var (sec, pk) := DecodeSecKey(s.utf8, e).value;
            EntryOf(s, tree, col, e, sec, pk) && OfKind(sec, s.kinds[col]) && OfKind(pk, s.kinds[s.pk]) && !pk.Null?
            && SecKey(s.utf8, sec, pk) == Some(e)
  {
    var k :| k in tree && e == Entry(s, tree[k], col);
    var row := tree[k];
    assert OfKind(row[col], s.kinds[col]) && OfKind(row[s.pk], s.kinds[s.pk]);
    SecKeyBack(s.utf8, row[col], row[s.pk]);
  }

  function SecOf(s: Shape, e: Key): Datum { if DecodeSecKey(s.utf8, e).Some? then DecodeSecKey(s.utf8, e).value.0 else Null }

  function PkAt(s: Shape, e: Key): Datum { if DecodeSecKey(s.utf8, e).Some? then DecodeSecKey(s.utf8, e).value.1 else Null }

  predicate InBounds(s: Shape, e: Key, lo: Bound, hi: Bound) { Above(s.lib, SecOf(s, e), lo) && Below(s.lib, SecOf(s, e), hi) }

  ghost predicate BoundKind(b: Bound, k: ColumnKind) { b.Some? ==> OfKind(b.value.0, k) }

  /** The filtering loop of a scan: skips below the lower bound, stops beyond the upper. */
  method FilterEntries(s: Shape, ghost tree: map<Key, Row>, ghost col: nat, scanned: seq<Key>, lo: Bound, hi: Bound)
      returns (out: seq<Datum>, ghost found: seq<Key>)
    requires TreeOk(s, tree) && col < |s.kinds| && Sorted(scanned)
    requires forall i :: 0 <= i < |scanned| ==> scanned[i] in Image(s, tree, col)
    ensures |out| == |found| && Sorted(found) && forall i :: 0 <= i < |found| ==> out[i] == PkAt(s, found[i])
    ensures forall e :: e in found ==> e in scanned && InBounds(s, e, lo, hi)
    ensures BoundKind(hi, s.kinds[col]) ==> forall e :: e in scanned && InBounds(s, e, lo, hi) ==> e in found
  {
    out, found := [], [];
    var n := 0;
    NoneSorted();
    hide Image, Utf8Ok, DecodeSecKey, SecKey, EncodeKey, SecPrefix, Compare, Sorted, TreeOk, EntryOf, OfKind;
    while n < |scanned|
      invariant 0 <= n <= |scanned| && |out| == |found| && Sorted(found)
      invariant forall k :: 0 <= k < |found| ==> out[k] == PkAt(s, found[k])
      invariant forall e :: e in found <==> e in scanned[..n] && InBounds(s, e, lo, hi)
    {
      DecodeEntry(s, tree, col, scanned[n]);
      var entry := DecodeSecKey(s.utf8, scanned[n]).value;
      assert scanned[..n + 1] == scanned[..n] + [scanned[n]];
      if !Above(s.lib, entry.0, lo) {
        n := n + 1;
        continue;
      }
      if !Below(s.lib, entry.0, hi) {
        if BoundKind(hi, s.kinds[col]) {
          RestAbove(s, tree, col, scanned, n, hi);
        }
        break;
      }
      SortedPush(found, scanned, n);
      out := out + [entry.1];
      found := found + [scanned[n]];
      n := n + 1;
    }
    assert scanned == scanned[..n] + scanned[n..];
  }

  lemma NoneSorted()
    ensures Sorted([])
  {
  }

  /** A scan of an index for bounds of the column's kind yields exactly the entries in
      bounds, in entry order, hence in (value, primary key) order. */
  method ScanSecondary(t: Table, col: nat, lo: Bound, hi: Bound) returns (pks: Option<seq<Datum>>, ghost found: seq<Key>)
    requires t.Valid() && col < |t.shape.kinds| && (lo.Some? ==> !lo.value.0.Float?) && (hi.Some? ==> !hi.value.0.Float?)
    ensures pks.None? <==> col !in t.columns
    ensures pks.Some? ==> Sorted(found) && |pks.value| == |found| && forall i :: 0 <= i < |found| ==> pks.value[i] == PkAt(t.shape, found[i])
    ensures pks.Some? && BoundKind(lo, t.shape.kinds[col]) && BoundKind(hi, t.shape.kinds[col]) ==>
              forall e :: e in found <==> e in Image(t.shape, t.tree, col) && InBounds(t.shape, e, lo, hi)
  {
    found := [];
    var i := 0;
    while i < |t.columns| && t.columns[i] != col
      invariant 0 <= i <= |t.columns| && forall j :: 0 <= j < i ==> t.columns[j] != col
    {
      i := i + 1;
    }
    if i == |t.columns| {
      return None, found;
    }
    hide Image, Utf8Ok, SecPrefix, Compare, Sorted, SecOf, PkAt, OfKind;
    ghost var image := Image(t.shape, t.tree, col);
    var loKey := if lo.Some? then Some(SecPrefix(t.shape.utf8, lo.value.0)) else None;
    var scanned := ScanFrom(t.indexes[i], loKey);
    var out;
    out, found := FilterEntries(t.shape, t.tree, col, scanned, lo, hi);
    forall e | BoundKind(lo, t.shape.kinds[col]) && e in image && InBounds(t.shape, e, lo, hi)
      ensures e in scanned
    {
      if lo.Some? {
        NotBefore(t.shape, t.tree, col, e, lo.value.0);
      }
    }
    return Some(out), found;
  }

  lemma SortedPush(found: seq<Key>, scanned: seq<Key>, n: nat)
    requires n < |scanned| && Sorted(scanned) && Sorted(found) && forall e :: e in found ==> e in scanned[..n]
    ensures Sorted(found + [scanned[n]])
  {
    hide Bytes.Less;
    forall i | 0 <= i < |found| ensures Bytes.Less(found[i], scanned[n]) {
      assert found[i] in scanned[..n];
      var j :| 0 <= j < n && scanned[j] == found[i];
    }
  }

  /** An entry whose value is not below the bound does not sort before the bound's prefix. */
  lemma NotBefore(s: Shape, tree: map<Key, Row>, col: nat, e: Key, lo: Datum)
    requires TreeOk(s, tree) && col < |s.kinds| && e in Image(s, tree, col) && OfKind(lo, s.kinds[col])
    requires Above(s.lib, SecOf(s, e), Some((lo, true))) || Above(s.lib, SecOf(s, e), Some((lo, false)))
    ensures !Bytes.Less(e, SecPrefix(s.utf8, lo))
  {
    DecodeEntry(s, tree, col, e);
    var sec, pk := SecOf(s, e), PkAt(s, e);
    var rest := EncodeKey(s.utf8, pk).value;
    SecOrder(s.lib, s.utf8, sec, lo, rest, []);
    assert SecPrefix(s.utf8, lo) + [] == SecPrefix(s.utf8, lo);
  }

  /** Once a value is beyond the upper bound, so are all later ones. */
  lemma RestAbove(s: Shape, tree: map<Key, Row>, col: nat, scanned: seq<Key>, n: nat, hi: Bound)
    requires TreeOk(s, tree) && col < |s.kinds| && n < |scanned| && Sorted(scanned)
    requires (forall i :: 0 <= i < |scanned| ==> scanned[i] in Image(s, tree, col)) && (hi.Some? ==> OfKind(hi.value.0, s.kinds[col]))
    requires !Below(s.lib, SecOf(s, scanned[n]), hi)
    ensures forall e :: e in scanned[n..] ==> !Below(s.lib, SecOf(s, e), hi)
  {
    forall e | e in scanned[n..] ensures !Below(s.lib, SecOf(s, e), hi) {
      var j :| n <= j < |scanned| && scanned[j] == e;
      if j > n {
        LaterValue(s, tree, col, scanned[n], scanned[j]);
        var a, b, h := SecOf(s, scanned[n]), SecOf(s, scanned[j]), hi.value.0;
        hide Compare;
        KindOrder(s.lib, a, b, h);
        KindOrder(s.lib, b, h, a);
        KindOrder(s.lib, h, a, b);
        KindOrder(s.lib, a, h, h);
        KindOrder(s.lib, h, b, b);
      }
    }
  }

  /** The order of values other than floats is total. */
  lemma KindOrder(lib: Library, a: Datum, b: Datum, c: Datum)
    requires !a.Float? && !b.Float? && !c.Float?
    ensures Compare(lib, a, b).Less? <==> Compare(lib, b, a).Greater?
    ensures !Compare(lib, a, b).Greater? && !Compare(lib, b, c).Greater? ==> !Compare(lib, a, c).Greater?
  {
    if a.Text? && b.Text? {
      Aggregate.TextOrder(a.s, b.s, if c.Text? then c.s else "");
    }
  }

  lemma LaterValue(s: Shape, tree: map<Key, Row>, col: nat, e: Key, f: Key)
    requires TreeOk(s, tree) && col < |s.kinds| && e in Image(s, tree, col) && f in Image(s, tree, col) && Bytes.Less(e, f)
    ensures !Compare(s.lib, SecOf(s, e), SecOf(s, f)).Greater? && !SecOf(s, e).Float? && !SecOf(s, f).Float?
  {
    DecodeEntry(s, tree, col, e);
    DecodeEntry(s, tree, col, f);
    var a, b := SecOf(s, e), SecOf(s, f);
    SecKeyOrder(s.lib, s.utf8, a, PkAt(s, e), b, PkAt(s, f));
    KindOrder(s.lib, a, b, b);
    KindOrder(s.lib, a, a, a);
  }
}
