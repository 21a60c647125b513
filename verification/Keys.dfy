/**
 Order-preserving keys: primary keys, and secondary index entries that put the indexed
 value before the primary key. Floats are not part of this model.
 */
module Keys {
  import opened Bytes
  import opened Sql

  const TWO_63: int := 0x8000_0000_0000_0000

  /** UTF-8: decodable and order-preserving. */
  datatype Utf8 = Utf8(bytes: string -> Key, text: Key -> Option<string>)

  ghost predicate Utf8Ok(u: Utf8) {
    && (forall s :: u.text(u.bytes(s)) == Some(s))
    && (forall a, b :: Bytes.Less(u.bytes(a), u.bytes(b)) <==> CompareText(a, b).Less?)
  }

  // ---------------------------------------------------------------------
  // Big-endian numbers
  // ---------------------------------------------------------------------

  function Pow(k: nat): nat { if k == 0 then 1 else 256 * Pow(k - 1) }

  function Be(v: nat, k: nat): (bs: Key)
    ensures |bs| == k
  {
    if k == 0 then [] else Be(v / 256, k - 1) + [v % 256]
  }

  function UnBe(bs: Key): nat { if bs == [] then 0 else UnBe(bs[..|bs| - 1]) * 256 + bs[|bs| - 1] }

  lemma {:induction false} BeBack(v: nat, k: nat)
    requires v < Pow(k)
    ensures UnBe(Be(v, k)) == v
  {
    if k > 0 {
      BeBack(v / 256, k - 1);
      assert Be(v, k)[..k - 1] == Be(v / 256, k - 1);
    }
  }

  lemma Pow8()
    ensures Pow(8) == 0x1_0000_0000_0000_0000
  {
    assert Pow(2) == 65536;
    assert Pow(3) == 16777216;
    assert Pow(4) == 4294967296;
    assert Pow(5) == 1099511627776;
    assert Pow(6) == 281474976710656;
    assert Pow(7) == 72057594037927936;
  }

  /** The order of two strings is decided in a common-length front, else in the rest. */
  lemma {:induction false} LessFront(a: Key, b: Key, x: Key, y: Key)
    requires |a| == |b|
    ensures Bytes.Less(a + x, b + y) <==> Bytes.Less(a, b) || (a == b && Bytes.Less(x, y))
  {
    if a == [] {
      assert a + x == x && b + y == y;
    } else {
      LessFront(a[1..], b[1..], x, y);
      assert (a + x)[1..] == a[1..] + x && (b + y)[1..] == b[1..] + y;
      assert a == [a[0]] + a[1..] && b == [b[0]] + b[1..];
    }
  }

  lemma LessOne(x: Byte, y: Byte)
    ensures Bytes.Less([x], [y]) <==> x < y
  {
  }

  /** Big-endian order is numeric order. */
  lemma {:induction false} BeOrder(v: nat, w: nat, k: nat)
    requires v < Pow(k) && w < Pow(k)
    ensures Bytes.Less(Be(v, k), Be(w, k)) <==> v < w
    ensures Be(v, k) == Be(w, k) <==> v == w
  {
    if k > 0 {
      BeOrder(v / 256, w / 256, k - 1);
      LessFront(Be(v / 256, k - 1), Be(w / 256, k - 1), [v % 256], [w % 256]);
      LessOne(v % 256, w % 256);
      BeBack(v, k);
      BeBack(w, k);
    }
  }

  /** Sign-flipped 64-bit integers. */
  function Flip(v: Int64): nat { v + TWO_63 }

  // ---------------------------------------------------------------------
  // Text with an escaped terminator
  // ---------------------------------------------------------------------

  function Escape(b: Key): Key {
    if b == [] then [0, 0] else (if b[0] == 0 then [0, 0xFF] else [b[0]]) + Escape(b[1..])
  }

  /** The text and what follows its terminator. */
  function Unescape(k: Key): Option<(Key, Key)> {
    if k == [] then None
    else if k[0] != 0 then Prepend(k[0], Unescape(k[1..]))
    else if |k| == 1 then None
    else if k[1] == 0 then Some(([], k[2..]))
    else if k[1] == 0xFF then Prepend(0, Unescape(k[2..]))
    else None
  }

  function Prepend(b: Byte, r: Option<(Key, Key)>): Option<(Key, Key)> {
    if r.None? then None else Some(([b] + r.value.0, r.value.1))
  }

  lemma {:induction false} EscapeBack(b: Key, rest: Key)
    ensures Unescape(Escape(b) + rest) == Some((b, rest))
  {
    var k := Escape(b) + rest;
    if b == [] {
      assert k[2..] == rest;
    } else {
      EscapeBack(b[1..], rest);
      if b[0] == 0 {
        assert k[2..] == Escape(b[1..]) + rest;
      } else {
        assert k[1..] == Escape(b[1..]) + rest;
      }
      assert b == [b[0]] + b[1..];
    }
  }

  /** The loop that reads an escaped text. */
  method ReadText(k: Key) returns (r: Option<(Key, Key)>)
    ensures r == Unescape(k)
  {
    var off, text := 0, [];
    assert k[0..] == k;
    AfterNone(Unescape(k));
    while true
      invariant 0 <= off <= |k| && Unescape(k) == After(text, Unescape(k[off..]))
      decreases |k| - off
    {
      if off >= |k| {
        return None;
      }
      if k[off] == 0 {
        if off + 1 >= |k| {
          return None;
        }
        if k[off + 1] == 0 {
          assert k[off..][2..] == k[off + 2..] && text + [] == text;
          return Some((text, k[off + 2..]));
        } else if k[off + 1] == 0xFF {
          assert k[off..][2..] == k[off + 2..];
          AfterOne(text, 0, Unescape(k[off + 2..]));
          text, off := text + [0], off + 2;
        } else {
          return None;
        }
      } else {
        assert k[off..][1..] == k[off + 1..];
        AfterOne(text, k[off], Unescape(k[off + 1..]));
        text, off := text + [k[off]], off + 1;
      }
    }
  }

  function After(text: Key, r: Option<(Key, Key)>): Option<(Key, Key)> {
    if r.None? then None else Some((text + r.value.0, r.value.1))
  }

  lemma AfterNone(r: Option<(Key, Key)>)
    ensures After([], r) == r
  {
    if r.Some? {
      assert [] + r.value.0 == r.value.0;
    }
  }

  lemma AfterOne(text: Key, b: Byte, r: Option<(Key, Key)>)
    ensures After(text, Prepend(b, r)) == After(text + [b], r)
  {
    if r.Some? {
      assert text + ([b] + r.value.0) == text + [b] + r.value.0;
    }
  }

  /** Escaped texts compare as the texts do, and equal texts leave it to what follows, so a
      text with embedded zero bytes sorts right and is never a prefix of another. */
  lemma {:induction false} EscapeOrder(a: Key, b: Key, x: Key, y: Key)
    ensures Bytes.Less(Escape(a) + x, Escape(b) + y) <==> Bytes.Less(a, b) || (a == b && Bytes.Less(x, y))
    decreases |a| + |b|
  {
    var p, q := Escape(a) + x, Escape(b) + y;
    if a == [] && b == [] {
      LessFront([0, 0], [0, 0], x, y);
    } else if a == [] {
      EscapeFirst(b, y);
      assert p == [0, 0] + x;
    } else if b == [] {
      EscapeFirst(a, x);
      assert q == [0, 0] + y;
    } else {
      EscapeOrder(a[1..], b[1..], x, y);
      EscapeStep(a, x);
      EscapeStep(b, y);
      assert a == [a[0]] + a[1..] && b == [b[0]] + b[1..];
      var fa, fb := Unit(a[0]), Unit(b[0]);
      var ra, rb := Escape(a[1..]) + x, Escape(b[1..]) + y;
      if a[0] == b[0] {
        LessFront(fa, fb, ra, rb);
      } else if a[0] != 0 && b[0] != 0 {
        LessFront(fa, fb, ra, rb);
        LessOne(a[0], b[0]);
      } else {
        assert p[0] == a[0] && q[0] == b[0];
      }
    }
  }

  function Unit(b: Byte): Key { if b == 0 then [0, 0xFF] else [b] }

  lemma EscapeStep(b: Key, y: Key)
    requires b != []
    ensures Escape(b) + y == Unit(b[0]) + (Escape(b[1..]) + y)
  {
  }

  /** A nonempty escaped text sorts after the terminator. */
  lemma EscapeFirst(b: Key, y: Key)
    requires b != []
    ensures var q := Escape(b) + y; |q| >= 2 && (q[0] > 0 || (q[0] == 0 && q[1] == 0xFF))
  {
    if b[0] != 0 && b[1..] == [] {
      assert Escape(b) == [b[0]] + [0, 0];
    }
  }

  // ---------------------------------------------------------------------
  // Primary and secondary keys
  // ---------------------------------------------------------------------

  /** NULL has no primary key. */
  function EncodeKey(u: Utf8, d: Datum): Option<Key>
    requires !d.Float?
  {
    match d
    case Int(v) => Some([1] + Be(Flip(v), 8))
    case Text(s) => Some([3] + u.bytes(s))
    case Bool(b) => Some([4, Bit(b)])
    case DateTime(v) => Some([5] + Be(Flip(v), 8))
    case Null => None
  }

  function DecodeKey(u: Utf8, k: Key): Option<Datum> {
    if k == [] then None
    else
      match k[0]
      case 1 => if |k| >= 9 then Some(Int(UnFlip(UnBe(k[1..9])))) else None
      case 3 => if u.text(k[1..]).Some? then Some(Text(u.text(k[1..]).value)) else None
      case 4 => if |k| >= 2 then Some(Bool(k[1] != 0)) else None
      case 5 => if |k| >= 9 then Some(DateTime(UnFlip(UnBe(k[1..9])))) else None
      case _ => None
  }

  function UnFlip(n: nat): Int64 { if n < 2 * TWO_63 then n - TWO_63 else 0 }

  /** The indexed value, self-delimiting; NULL sorts first. */
  function SecPrefix(u: Utf8, d: Datum): Key
    requires !d.Float?
  {
    match d
    case Null => [0]
    case Int(v) => [1] + Be(Flip(v), 8)
    case Text(s) => [3] + Escape(u.bytes(s))
    case Bool(b) => [4, Bit(b)]
    case DateTime(v) => [5] + Be(Flip(v), 8)
  }

  function SecKey(u: Utf8, sec: Datum, pk: Datum): Option<Key>
    requires !sec.Float? && !pk.Float?
  {
    match EncodeKey(u, pk) case None => None case Some(k) => Some(SecPrefix(u, sec) + k)
  }

  /** The indexed value of an entry and what follows it. */
  function DecodeSec(u: Utf8, k: Key): Option<(Datum, Key)> {
    if k == [] then None
    else
      match k[0]
      case 0 => Some((Null, k[1..]))
      case 1 => if |k| >= 9 then Some((Int(UnFlip(UnBe(k[1..9]))), k[9..])) else None
      case 3 =>
        var t := Unescape(k[1..]);
        if t.None? || u.text(t.value.0).None? then None else Some((Text(u.text(t.value.0).value), t.value.1))
      case 4 => if |k| >= 2 then Some((Bool(k[1] != 0), k[2..])) else None
      case 5 => if |k| >= 9 then Some((DateTime(UnFlip(UnBe(k[1..9]))), k[9..])) else None
      case _ => None
  }

  function DecodeSecKey(u: Utf8, k: Key): Option<(Datum, Datum)> {
    var s := DecodeSec(u, k);
    if s.None? then None
    else
      var pk := DecodeKey(u, s.value.1);
      if pk.None? then None else Some((s.value.0, pk.value))
  }

  /** Two values of one kind; NULL goes with every kind. */
  predicate SameKind(a: Datum, b: Datum) {
    !a.Float? && !b.Float? && (a.Null? || b.Null? || (a.Int? && b.Int?) || (a.Text? && b.Text?) || (a.Bool? && b.Bool?) || (a.DateTime? && b.DateTime?))
  }

  lemma FlipRange(v: Int64)
    ensures Flip(v) < Pow(8) && UnFlip(Flip(v)) == v
  {
    Pow8();
  }

  lemma NumberAt(v: Int64, tag: Byte, rest: Key)
    ensures var k := [tag] + Be(Flip(v), 8) + rest; |k| >= 9 && k[0] == tag && UnFlip(UnBe(k[1..9])) == v && k[9..] == rest
  {
    FlipRange(v);
    BeBack(Flip(v), 8);
    hide Be, UnBe, Pow;
    var k := [tag] + Be(Flip(v), 8) + rest;
    assert k[1..9] == Be(Flip(v), 8);
  }

  /** Decoding inverts the primary key encoding. */
  lemma KeyBack(u: Utf8, d: Datum)
    requires Utf8Ok(u) && !d.Float? && !d.Null?
    ensures DecodeKey(u, EncodeKey(u, d).value) == Some(d)
  {
    hide Be, UnBe;
    match d
    case Int(v) =>
      NumberAt(v, 1, []);
      assert [1] + Be(Flip(v), 8) + [] == [1] + Be(Flip(v), 8);
    case DateTime(v) =>
      NumberAt(v, 5, []);
      assert [5] + Be(Flip(v), 8) + [] == [5] + Be(Flip(v), 8);
    case Text(s) => assert ([3] + u.bytes(s))[1..] == u.bytes(s);
    case Bool(_) =>
  }

  lemma SecBack(u: Utf8, d: Datum, rest: Key)
    requires Utf8Ok(u) && !d.Float?
    ensures DecodeSec(u, SecPrefix(u, d) + rest) == Some((d, rest))
  {
    hide Be, UnBe, Unescape, Escape;
    var k := SecPrefix(u, d) + rest;
    match d
    case Null => assert k[1..] == rest;
    case Int(v) => NumberAt(v, 1, rest);
    case DateTime(v) => NumberAt(v, 5, rest);
    case Bool(b) => assert k[2..] == rest;
    case Text(s) =>
      assert k[1..] == Escape(u.bytes(s)) + rest;
      EscapeBack(u.bytes(s), rest);
  }

  /** Decoding inverts the entry encoding. */
  lemma SecKeyBack(u: Utf8, sec: Datum, pk: Datum)
    requires Utf8Ok(u) && !sec.Float? && !pk.Float? && !pk.Null?
    ensures SecKey(u, sec, pk).Some? && DecodeSecKey(u, SecKey(u, sec, pk).value) == Some((sec, pk))
  {
    KeyBack(u, pk);
    SecBack(u, sec, EncodeKey(u, pk).value);
  }

  lemma TagOrder(t: Byte, x: Key, y: Key)
    ensures Bytes.Less([t] + x, [t] + y) <==> Bytes.Less(x, y)
  {
    LessFront([t], [t], x, y);
    LessOne(t, t);
  }

  lemma TextOrderOf(u: Utf8, a: string, b: string)
    requires Utf8Ok(u)
    ensures Bytes.Less(u.bytes(a), u.bytes(b)) <==> CompareText(a, b).Less?
    ensures u.bytes(a) == u.bytes(b) <==> a == b
  {
    assert u.text(u.bytes(a)) == Some(a) && u.text(u.bytes(b)) == Some(b);
  }

  lemma NumberOrder(v: Int64, w: Int64, tag: Byte, x: Key, y: Key)
    ensures Bytes.Less([tag] + Be(Flip(v), 8) + x, [tag] + Be(Flip(w), 8) + y) <==> v < w || (v == w && Bytes.Less(x, y))
  {
    FlipRange(v);
    FlipRange(w);
    BeOrder(Flip(v), Flip(w), 8);
    hide Be, Pow;
    var a, b := Be(Flip(v), 8), Be(Flip(w), 8);
    LessFront(a, b, x, y);
    TagOrder(tag, a + x, b + y);
    assert [tag] + a + x == [tag] + (a + x) && [tag] + b + y == [tag] + (b + y);
  }

  /** Byte order of entries is (indexed value, rest) order, NULL first. */
  lemma SecOrder(lib: Library, u: Utf8, a: Datum, b: Datum, x: Key, y: Key)
    requires Utf8Ok(u) && SameKind(a, b)
    ensures Bytes.Less(SecPrefix(u, a) + x, SecPrefix(u, b) + y) <==> Compare(lib, a, b).Less? || (a == b && Bytes.Less(x, y))
  {
    hide Be, Escape, Utf8Ok;
    var p, q := SecPrefix(u, a) + x, SecPrefix(u, b) + y;
    if a.Null? && b.Null? {
      TagOrder(0, x, y);
    } else if a.Null? || b.Null? {
      assert p != [] && q != [] && p[0] != q[0];
    } else if a.Int? {
      NumberOrder(a.i, b.i, 1, x, y);
    } else if a.DateTime? {
      NumberOrder(a.micros, b.micros, 5, x, y);
    } else if a.Bool? {
      var v, w := Bit(a.b), Bit(b.b);
      LessFront([4, v], [4, w], x, y);
      TagOrder(4, [v], [w]);
      LessOne(v, w);
      assert [4] + [v] == [4, v] && [4] + [w] == [4, w];
    } else {
      SecTextOrder(u, a.s, b.s, x, y);
      hide SecPrefix, CompareText, Bytes.Less;
    }
  }

  lemma SecTextOrder(u: Utf8, a: string, b: string, x: Key, y: Key)
    requires Utf8Ok(u)
    ensures Bytes.Less(SecPrefix(u, Text(a)) + x, SecPrefix(u, Text(b)) + y) <==> CompareText(a, b).Less? || (a == b && Bytes.Less(x, y))
  {
    hide Escape, Utf8Ok, CompareText;
    var p, q := SecPrefix(u, Text(a)) + x, SecPrefix(u, Text(b)) + y;
    TextOrderOf(u, a, b);
    EscapeOrder(u.bytes(a), u.bytes(b), x, y);
    TagOrder(3, Escape(u.bytes(a)) + x, Escape(u.bytes(b)) + y);
    assert p == [3] + (Escape(u.bytes(a)) + x) && q == [3] + (Escape(u.bytes(b)) + y);
  }

  /** Byte order of primary keys is the order of their values. */
  lemma KeyOrder(lib: Library, u: Utf8, a: Datum, b: Datum)
    requires Utf8Ok(u) && SameKind(a, b) && !a.Null? && !b.Null?
    ensures Bytes.Less(EncodeKey(u, a).value, EncodeKey(u, b).value) <==> Compare(lib, a, b).Less?
    ensures EncodeKey(u, a) == EncodeKey(u, b) <==> a == b
  {
    KeyBack(u, a);
    KeyBack(u, b);
    if a.Text? {
      TextOrderOf(u, a.s, b.s);
      TagOrder(3, u.bytes(a.s), u.bytes(b.s));
    } else {
      SecOrder(lib, u, a, b, [], []);
      assert SecPrefix(u, a) + [] == SecPrefix(u, a) && SecPrefix(u, b) + [] == SecPrefix(u, b);
    }
  }

  /** Byte order of index entries is lexicographic (indexed value, primary key) order. */
  lemma SecKeyOrder(lib: Library, u: Utf8, a: Datum, p: Datum, b: Datum, q: Datum)
    requires Utf8Ok(u) && SameKind(a, b) && SameKind(p, q) && !p.Null? && !q.Null?
    ensures SecKey(u, a, p).Some? && SecKey(u, b, q).Some?
    ensures Bytes.Less(SecKey(u, a, p).value, SecKey(u, b, q).value) <==> Compare(lib, a, b).Less? || (a == b && Compare(lib, p, q).Less?)
    ensures SecKey(u, a, p) == SecKey(u, b, q) <==> a == b && p == q
  {
    SecKeyBack(u, a, p);
    SecKeyBack(u, b, q);
    KeyOrder(lib, u, p, q);
    SecOrder(lib, u, a, b, EncodeKey(u, p).value, EncodeKey(u, q).value);
  }
}
