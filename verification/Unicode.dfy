/**
 UTF-8: the encoding that meets the laws asked of texts in keys, rows and log records.
 */
module Unicode {
  import opened Bytes
  import opened Sql
  import Columns
  import Keys
  import WalCodec

  // ---------------------------------------------------------------------
  // Encoding
  // ---------------------------------------------------------------------

  function Tail1(n: nat): Key
    requires n < 0x40
  {
    [0x80 + n]
  }

  function Tail2(n: nat): Key
    requires n < 0x1000
  {
    [0x80 + n / 0x40] + Tail1(n % 0x40)
  }

  function Tail3(n: nat): Key
    requires n < 0x4_0000
  {
    [0x80 + n / 0x1000] + Tail2(n % 0x1000)
  }

  function EncodeChar(c: char): (bs: Key)
    ensures 1 <= |bs| <= 4
  {
    var n := c as int;
    if n < 0x80 then [n]
    else if n < 0x800 then [0xC0 + n / 0x40] + Tail1(n % 0x40)
    else if n < 0x1_0000 then [0xE0 + n / 0x1000] + Tail2(n % 0x1000)
    else [0xF0 + n / 0x4_0000] + Tail3(n % 0x4_0000)
  }

  function Encode(s: string): Key { if s == [] then [] else EncodeChar(s[0]) + Encode(s[1..]) }

  // ---------------------------------------------------------------------
  // Decoding
  // ---------------------------------------------------------------------

  predicate Scalar(n: int) { 0 <= n < 0xD800 || 0xE000 <= n < 0x11_0000 }

  function Digit(b: Byte): int { (b as int) - 0x80 }

  /** The number the leading byte and what follows it stand for. */
  function Number(bs: Key): int
    requires bs != []
  {
    var b: int := bs[0];
    if b < 0x80 then b
    else if b < 0xE0 && |bs| > 1 then (b - 0xC0) * 0x40 + Digit(bs[1])
    else if b < 0xF0 && |bs| > 2 then (b - 0xE0) * 0x1000 + Digit(bs[1]) * 0x40 + Digit(bs[2])
    else if |bs| > 3 then (b - 0xF0) * 0x4_0000 + Digit(bs[1]) * 0x1000 + Digit(bs[2]) * 0x40 + Digit(bs[3])
    else -1
  }

  /** The first character; its encoding must be the shortest, so it is encoded again. */
  function DecodeChar(bs: Key): (r: Option<(char, Key)>)
    ensures r.Some? ==> |r.value.1| < |bs|
  {
    if bs == [] || !Scalar(Number(bs)) then None
    else
      var code := EncodeChar(Number(bs) as char);
      if code <= bs then Some((Number(bs) as char, bs[|code|..])) else None
  }

  function Decode(bs: Key): Option<string>
    decreases |bs|
  {
    if bs == [] then Some("")
    else
      var first := DecodeChar(bs);
      if first.None? then None
      else
        var rest := Decode(first.value.1);
        if rest.Some? then Some([first.value.0] + rest.value) else None
  }

  lemma NumberBack(c: char, rest: Key)
    ensures Number(EncodeChar(c) + rest) == c as int
  {
    var n := c as int;
    var bs := EncodeChar(c) + rest;
    if 0x1_0000 <= n {
      var m := n % 0x4_0000;
      assert bs[1] == 0x80 + m / 0x1000 && bs[2] == 0x80 + m % 0x1000 / 0x40 && bs[3] == 0x80 + m % 0x1000 % 0x40;
    }
  }

  lemma CharBack(c: char, rest: Key)
    ensures DecodeChar(EncodeChar(c) + rest) == Some((c, rest))
  {
    NumberBack(c, rest);
    hide EncodeChar, Number;
  }

  /** Decoding inverts encoding. */
  lemma {:induction false} TextBack(s: string)
    ensures Decode(Encode(s)) == Some(s)
  {
    if s != [] {
      TextBack(s[1..]);
      CharBack(s[0], Encode(s[1..]));
      assert Encode(s) == EncodeChar(s[0]) + Encode(s[1..]) && Encode(s) != [];
      hide EncodeChar, DecodeChar, Encode;
      assert s == [s[0]] + s[1..];
    }
  }

  // ---------------------------------------------------------------------
  // Order
  // ---------------------------------------------------------------------

  lemma ConsOrder(h: Byte, k: Byte, a: Key, b: Key)
    ensures Bytes.Less([h] + a, [k] + b) <==> h < k || (h == k && Bytes.Less(a, b))
  {
    assert ([h] + a)[1..] == a && ([k] + b)[1..] == b;
  }

  lemma Tail1Order(m: nat, n: nat, a: Key, b: Key)
    requires m < 0x40 && n < 0x40
    ensures Bytes.Less(Tail1(m) + a, Tail1(n) + b) <==> m < n || (m == n && Bytes.Less(a, b))
  {
    ConsOrder(0x80 + m, 0x80 + n, a, b);
  }

  lemma Tail2Order(m: nat, n: nat, a: Key, b: Key)
    requires m < 0x1000 && n < 0x1000
    ensures Bytes.Less(Tail2(m) + a, Tail2(n) + b) <==> m < n || (m == n && Bytes.Less(a, b))
  {
    Tail1Order(m % 0x40, n % 0x40, a, b);
    ConsOrder(0x80 + m / 0x40, 0x80 + n / 0x40, Tail1(m % 0x40) + a, Tail1(n % 0x40) + b);
    hide Bytes.Less, Tail1;
    Assoc(0x80 + m / 0x40, Tail1(m % 0x40), a);
    Assoc(0x80 + n / 0x40, Tail1(n % 0x40), b);
  }

  lemma Assoc(h: Byte, t: Key, a: Key)
    ensures ([h] + t) + a == [h] + (t + a)
  {
  }

  lemma Tail3Order(m: nat, n: nat, a: Key, b: Key)
    requires m < 0x4_0000 && n < 0x4_0000
    ensures Bytes.Less(Tail3(m) + a, Tail3(n) + b) <==> m < n || (m == n && Bytes.Less(a, b))
  {
    Tail2Order(m % 0x1000, n % 0x1000, a, b);
    ConsOrder(0x80 + m / 0x1000, 0x80 + n / 0x1000, Tail2(m % 0x1000) + a, Tail2(n % 0x1000) + b);
    hide Bytes.Less, Tail2;
    Assoc(0x80 + m / 0x1000, Tail2(m % 0x1000), a);
    Assoc(0x80 + n / 0x1000, Tail2(n % 0x1000), b);
  }

  /** Encodings compare as their characters do, whatever follows. */
  lemma CharOrder(c: char, d: char, a: Key, b: Key)
    ensures Bytes.Less(EncodeChar(c) + a, EncodeChar(d) + b) <==> c < d || (c == d && Bytes.Less(a, b))
  {
    var m, n := c as int, d as int;
    var s, t := EncodeChar(c)[1..], EncodeChar(d)[1..];
    assert EncodeChar(c) == [EncodeChar(c)[0]] + s && EncodeChar(d) == [EncodeChar(d)[0]] + t;
    Assoc(EncodeChar(c)[0], s, a);
    Assoc(EncodeChar(d)[0], t, b);
    ConsOrder(EncodeChar(c)[0], EncodeChar(d)[0], s + a, t + b);
    hide Bytes.Less;
    if m < 0x80 && n < 0x80 {
      assert s + a == a && t + b == b;
    } else if 0x80 <= m < 0x800 && 0x80 <= n < 0x800 {
      Tail1Order(m % 0x40, n % 0x40, a, b);
    } else if 0x800 <= m < 0x1_0000 && 0x800 <= n < 0x1_0000 {
      Tail2Order(m % 0x1000, n % 0x1000, a, b);
    } else if 0x1_0000 <= m && 0x1_0000 <= n {
      Tail3Order(m % 0x4_0000, n % 0x4_0000, a, b);
    }
  }

  /** Byte order of encodings is the order of texts by code point. */
  lemma {:induction false} TextOrder(a: string, b: string)
    ensures Bytes.Less(Encode(a), Encode(b)) <==> CompareText(a, b).Less?
  {
    if a != [] && b != [] {
      TextOrder(a[1..], b[1..]);
      CharOrder(a[0], b[0], Encode(a[1..]), Encode(b[1..]));
    }
  }

  // ---------------------------------------------------------------------
  // The laws hold
  // ---------------------------------------------------------------------

  /** UTF-8 meets the laws the key encodings ask for. */
  lemma Utf8IsOk()
    ensures Keys.Utf8Ok(Keys.Utf8(Encode, Decode))
  {
    forall s ensures Decode(Encode(s)) == Some(s) { TextBack(s); }
    forall a, b ensures Bytes.Less(Encode(a), Encode(b)) <==> CompareText(a, b).Less? { TextOrder(a, b); }
  }

  /** UTF-8 meets the law the row and record encodings ask for, whatever stands for floats. */
  lemma CodecIsOk(bits: real -> nat, float: nat -> real)
    ensures Columns.CodecOk(Columns.Codec(bits, float, Encode, Decode))
  {
    forall s ensures Decode(Encode(s)) == Some(s) { TextBack(s); }
  }

  function WholeBits(x: real): nat { if x.Floor >= 0 then x.Floor else 0 }

  /** With such a codec, values of every kind fit: here the floats that are whole numbers. */
  lemma FloatsFit(n: nat)
    requires n < Columns.TWO_64
    ensures Columns.Fits(Columns.Codec(WholeBits, (k: nat) => k as real, Encode, Decode), Float(n as real))
  {
    assert (n as real).Floor == n;
  }

  lemma {:induction false} EncodeLength(s: string)
    ensures |Encode(s)| <= 4 * |s|
  {
    if s != [] {
      EncodeLength(s[1..]);
    }
  }

  /** The definition whose types do not come back fits its encoding. */
  lemma LettersFit(bits: real -> nat, float: nat -> real)
    ensures WalCodec.DefFits(Columns.Codec(bits, float, Encode, Decode), WalCodec.LettersDef())
  {
    EncodeLength("t");
    EncodeLength("k");
    EncodeLength("b");
    EncodeLength("d");
    EncodeLength("s");
    hide Encode;
  }
}
