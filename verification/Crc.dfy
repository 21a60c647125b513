/**
 CRC-32 (section 8 of RFC 1952): table-driven, bit by bit, and incremental.
 */
module Crc {
  import opened Bytes

  type Word = bv32

  const POLY: Word := 0xEDB8_8320
  const ONES: Word := 0xFFFF_FFFF

  function Xor(x: Word, y: Word): Word { x ^ y }
  function Shr(x: Word): Word { x >> 1 }
  function Low(x: Word): Word { x & 1 }

  /** One step of the reflected division: shift out the low bit, subtract the polynomial
      when it was set. */
  function BitStep(c: Word): Word { if Low(c) != 0 then Xor(POLY, Shr(c)) else Shr(c) }

  function Steps(c: Word, n: nat): Word { if n == 0 then c else BitStep(Steps(c, n - 1)) }

  function BitAt(odd: bool, mask: Word): Word { if odd then mask else 0 }

  predicate Odd(n: nat) { n % 2 == 1 }

  /** A byte as the low bits of a word. */
  function Widen(b: Byte): Word {
    var h1: nat := b / 2; var h2 := h1 / 2; var h3 := h2 / 2; var h4 := h3 / 2; var h5 := h4 / 2; var h6 := h5 / 2; var h7 := h6 / 2;
    Pack(Odd(b), Odd(h1), Odd(h2), Odd(h3), Odd(h4), Odd(h5), Odd(h6), Odd(h7))
  }

  function Pack(b0: bool, b1: bool, b2: bool, b3: bool, b4: bool, b5: bool, b6: bool, b7: bool): Word {
    BitAt(b0, 1) | BitAt(b1, 2) | BitAt(b2, 4) | BitAt(b3, 8) | BitAt(b4, 16) | BitAt(b5, 32) | BitAt(b6, 64) | BitAt(b7, 128)
  }

  function Plus(odd: bool, n: nat): nat { (if odd then 1 else 0) + 2 * n }

  /** The low byte of a word as a number. */
  function Index(c: Word): nat {
    Plus(c & 1 != 0, Plus(c & 2 != 0, Plus(c & 4 != 0, Plus(c & 8 != 0,
      Plus(c & 16 != 0, Plus(c & 32 != 0, Plus(c & 64 != 0, Plus(c & 128 != 0, 0))))))))
  }

  // ---------------------------------------------------------------------
  // Division bit by bit
  // ---------------------------------------------------------------------

  /** The register after `n` message bits of `w`, which enter lowest first. */
  function FeedBits(c: Word, w: Word, n: nat): Word
    decreases n
  {
    if n == 0 then c else FeedBits(BitStep(Xor(c, Low(w))), Shr(w), n - 1)
  }

  /** The remainder register after a message, bit by bit. */
  function Divide(c: Word, data: seq<Byte>): Word {
    if data == [] then c else FeedBits(Divide(c, data[..|data| - 1]), Widen(data[|data| - 1]), 8)
  }

  /** The checksum by its definition: complement, divide, complement. */
  function Checksum(data: seq<Byte>): Word { Xor(Divide(ONES, data), ONES) }

  // ---------------------------------------------------------------------
  // Bit-vector facts
  // ---------------------------------------------------------------------

  lemma XorLaws(x: Word, y: Word, z: Word)
    ensures Xor(Xor(x, y), z) == Xor(x, Xor(y, z)) && Xor(x, y) == Xor(y, x) && Xor(x, x) == 0 && Xor(x, 0) == x
  {
  }

  lemma LowXor(x: Word, y: Word)
    ensures Low(Xor(x, y)) != 0 <==> ((Low(x) != 0) != (Low(y) != 0))
  {
  }

  lemma ShrXor(x: Word, y: Word)
    ensures Shr(Xor(x, y)) == Xor(Shr(x), Shr(y))
  {
  }

  lemma Split(w: Word)
    ensures Low(Xor(w, Low(w))) == 0 && Shr(Xor(w, Low(w))) == Shr(w)
  {
  }

  /** Division is linear. */
  lemma Linear(x: Word, y: Word)
    ensures BitStep(Xor(x, y)) == Xor(BitStep(x), BitStep(y))
  {
    hide Xor, Shr, Low;
    LowXor(x, y);
    ShrXor(x, y);
    var a, b := Shr(x), Shr(y);
    XorLaws(POLY, a, b);
    XorLaws(a, POLY, b);
    XorLaws(Xor(POLY, a), POLY, b);
    XorLaws(a, POLY, POLY);
    XorLaws(a, 0, b);
  }

  /** The low bit decides the step; the others only shift. */
  lemma Peel(c: Word, w: Word)
    ensures BitStep(Xor(c, w)) == Xor(BitStep(Xor(c, Low(w))), Shr(w))
  {
    Split(w);
    hide Xor, Shr, Low;
    var bit, rest := Low(w), Xor(w, Low(w));
    XorLaws(w, bit, bit);
    XorLaws(bit, rest, rest);
    XorLaws(rest, bit, bit);
    XorLaws(c, bit, rest);
    XorLaws(w, 0, 0);
    Linear(Xor(c, bit), rest);
  }

  function Shift(w: Word, n: nat): Word { if n == 0 then w else Shift(Shr(w), n - 1) }

  /** Feeding bits one by one is stepping the register with the whole word mixed in. */
  lemma {:induction false} FeedIsSteps(c: Word, w: Word, n: nat)
    ensures Steps(Xor(c, w), n) == Xor(FeedBits(c, w, n), Shift(w, n))
    decreases n
  {
    hide Xor, Shr, Low, BitStep;
    if n > 0 {
      Peel(c, w);
      StepsFirst(Xor(c, w), n);
      FeedIsSteps(BitStep(Xor(c, Low(w))), Shr(w), n - 1);
    }
  }

  lemma {:induction false} StepsFirst(c: Word, n: nat)
    requires n > 0
    ensures Steps(c, n) == Steps(BitStep(c), n - 1)
  {
    if n > 1 {
      StepsFirst(c, n - 1);
    }
  }

  lemma ShiftOne(w: Word, n: nat)
    ensures Shift(w, 0) == w && Shift(w, n + 1) == Shift(Shr(w), n)
  {
  }

  lemma ShrChain(w: Word)
    ensures Shr(w) == w >> 1 && Shr(w >> 1) == w >> 2 && Shr(w >> 2) == w >> 3 && Shr(w >> 3) == w >> 4
    ensures Shr(w >> 4) == w >> 5 && Shr(w >> 5) == w >> 6 && Shr(w >> 6) == w >> 7 && Shr(w >> 7) == w >> 8
  {
  }

  /** Shifts up to a byte, written out. */
  lemma Shifts(w: Word)
    ensures Shift(w, 0) == w && Shift(w, 1) == w >> 1 && Shift(w, 2) == w >> 2 && Shift(w, 3) == w >> 3
    ensures Shift(w, 4) == w >> 4 && Shift(w, 5) == w >> 5 && Shift(w, 6) == w >> 6 && Shift(w, 7) == w >> 7
    ensures Shift(w, 8) == w >> 8
  {
    ShrChain(w);
    hide Shr;
    ShiftNext(w, 0);
    ShiftNext(w, 1);
    ShiftNext(w, 2);
    ShiftNext(w, 3);
    ShiftNext(w, 4);
    ShiftNext(w, 5);
    ShiftNext(w, 6);
    ShiftNext(w, 7);
    ShiftOne(w, 0);
    hide Shift;
  }

  lemma {:induction false} ShiftNext(w: Word, n: nat)
    ensures Shift(w, n + 1) == Shr(Shift(w, n))
    decreases n
  {
    if n > 0 {
      ShiftNext(Shr(w), n - 1);
    }
  }

  lemma PackShort(b0: bool, b1: bool, b2: bool, b3: bool, b4: bool, b5: bool, b6: bool, b7: bool)
    ensures Pack(b0, b1, b2, b3, b4, b5, b6, b7) >> 8 == 0
  {
  }

  lemma WidenShort(b: Byte)
    ensures Widen(b) >> 8 == 0
  {
    var h1: nat := b / 2;
    var h2 := h1 / 2;
    var h3 := h2 / 2;
    var h4 := h3 / 2;
    var h5 := h4 / 2;
    var h6 := h5 / 2;
    var h7 := h6 / 2;
    PackShort(Odd(b), Odd(h1), Odd(h2), Odd(h3), Odd(h4), Odd(h5), Odd(h6), Odd(h7));
    hide Pack;
  }

  /** One byte of the division. */
  lemma FeedByte(c: Word, b: Byte)
    ensures FeedBits(c, Widen(b), 8) == Steps(Xor(c, Widen(b)), 8)
  {
    var w := Widen(b);
    FeedIsSteps(c, w, 8);
    Shifts(w);
    WidenShort(b);
    hide Xor, Shr, Low, FeedBits, Steps, Widen;
    XorLaws(FeedBits(c, w, 8), 0, 0);
  }

  // ---------------------------------------------------------------------
  // The table
  // ---------------------------------------------------------------------

  function Byte0(c: Word): Word { c & 0xFF }

  lemma HighPart(c: Word)
    ensures Xor(Byte0(c), c & 0xFFFF_FF00) == c && (c & 0xFFFF_FF00) >> 8 == c >> 8
  {
  }

  lemma HighZero(c: Word)
    ensures (c & 0xFFFF_FF00) & 0xFF == 0
  {
  }

  lemma {:induction false} StepsLinear(x: Word, y: Word, n: nat)
    ensures Steps(Xor(x, y), n) == Xor(Steps(x, n), Steps(y, n))
  {
    hide Xor, BitStep;
    if n > 0 {
      StepsLinear(x, y, n - 1);
      Linear(Steps(x, n - 1), Steps(y, n - 1));
    }
  }

  /** While the bits shifted out are zero, steps only shift. */
  lemma {:induction false} StepsShift(w: Word, n: nat)
    requires forall k :: 0 <= k < n ==> Low(Shift(w, k)) == 0
    ensures Steps(w, n) == Shift(w, n)
    decreases n
  {
    if n > 0 {
      StepsFirst(w, n);
      assert Low(Shift(w, 0)) == 0;
      forall k | 0 <= k < n - 1 ensures Low(Shift(Shr(w), k)) == 0 { assert Shift(Shr(w), k) == Shift(w, k + 1); }
      StepsShift(Shr(w), n - 1);
    }
  }

  lemma LowBitsZero(w: Word, k: nat)
    requires k < 8 && w & 0xFF == 0
    ensures Low(Shift(w, k)) == 0
  {
    Shifts(w);
    hide Shift;
    assert (w >> 1) & 1 == 0 && (w >> 2) & 1 == 0 && (w >> 3) & 1 == 0 && (w >> 4) & 1 == 0;
    assert (w >> 5) & 1 == 0 && (w >> 6) & 1 == 0 && (w >> 7) & 1 == 0 && w & 1 == 0;
  }

  /** A table step: the entry of the low byte, mixed with the rest shifted down. */
  lemma TableStep(c: Word)
    ensures Steps(c, 8) == Xor(Steps(Byte0(c), 8), c >> 8)
  {
    var high := c & 0xFFFF_FF00;
    HighPart(c);
    HighZero(c);
    hide Xor, Shr, Low, BitStep, Byte0, Steps, Shift;
    forall k | 0 <= k < 8 ensures Low(Shift(high, k)) == 0 { LowBitsZero(high, k); }
    StepsShift(high, 8);
    Shifts(high);
    StepsLinear(Byte0(c), high, 8);
  }

  // ---------------------------------------------------------------------
  // The checksum, table-driven
  // ---------------------------------------------------------------------

  lemma Halves(odd: bool, n: nat)
    ensures Odd(Plus(odd, n)) == odd && Plus(odd, n) / 2 == n
  {
  }

  lemma PackBack(c: Word)
    ensures Pack(c & 1 != 0, c & 2 != 0, c & 4 != 0, c & 8 != 0, c & 16 != 0, c & 32 != 0, c & 64 != 0, c & 128 != 0) == Byte0(c)
  {
  }

  lemma IndexSmall(c: Word)
    ensures Index(c) < 256
  {
  }

  lemma IndexBack(c: Word)
    ensures Index(c) < 256 && Widen(Index(c)) == Byte0(c)
  {
    IndexSmall(c);
    PackBack(c);
    hide Pack, Byte0, Odd;
    var n7 := Plus(c & 128 != 0, 0);
    var n6 := Plus(c & 64 != 0, n7);
    var n5 := Plus(c & 32 != 0, n6);
    var n4 := Plus(c & 16 != 0, n5);
    var n3 := Plus(c & 8 != 0, n4);
    var n2 := Plus(c & 4 != 0, n3);
    var n1 := Plus(c & 2 != 0, n2);
    assert Index(c) == Plus(c & 1 != 0, n1);
    Halves(c & 128 != 0, 0);
    Halves(c & 64 != 0, n7);
    Halves(c & 32 != 0, n6);
    Halves(c & 16 != 0, n5);
    Halves(c & 8 != 0, n4);
    Halves(c & 4 != 0, n3);
    Halves(c & 2 != 0, n2);
    Halves(c & 1 != 0, n1);
  }

  predicate IsTable(table: seq<Word>) { |table| == 256 && forall i :: 0 <= i < 256 ==> table[i] == Steps(Widen(i), 8) }

  method BuildTable() returns (table: seq<Word>)
    ensures IsTable(table)
  {
    hide Steps, BitStep, Widen;
    table := [];
    for i := 0 to 256
      invariant |table| == i && forall j :: 0 <= j < i ==> table[j] == Steps(Widen(j), 8)
    {
      var c := Widen(i);
      NoSteps(c);
      for k := 0 to 8
        invariant c == Steps(Widen(i), k)
      {
        NextStep(Widen(i), k);
        c := BitStep(c);
      }
      table := table + [c];
    }
  }

  lemma NoSteps(c: Word)
    ensures Steps(c, 0) == c
  {
  }

  lemma NextStep(c: Word, k: nat)
    ensures Steps(c, k + 1) == BitStep(Steps(c, k))
  {
  }

  /** One table-driven step is one byte of the division. */
  lemma TableFeeds(table: seq<Word>, c: Word, b: Byte)
    requires IsTable(table)
    ensures Index(Xor(c, Widen(b))) < 256
    ensures Xor(table[Index(Xor(c, Widen(b)))], c >> 8) == FeedBits(c, Widen(b), 8)
  {
    hide Xor, FeedBits, Steps, Widen, Index, Byte0;
    var x := Xor(c, Widen(b));
    IndexBack(x);
    TableStep(x);
    FeedByte(c, b);
    MixedHigh(c, b);
  }

  lemma MixedHigh(c: Word, b: Byte)
    ensures Xor(c, Widen(b)) >> 8 == c >> 8
  {
    WidenShort(b);
    HighXor(c, Widen(b));
  }

  lemma HighXor(c: Word, x: Word)
    requires x >> 8 == 0
    ensures (c ^ x) >> 8 == c >> 8
  {
  }

  /** The running form: continues a register over more bytes. */
  method TableCrc(table: seq<Word>, data: seq<Byte>, start: Word) returns (crc: Word)
    requires IsTable(table)
    ensures crc == Divide(start, data)
  {
    hide Xor, FeedBits, Index, Widen, IsTable;
    crc := start;
    for i := 0 to |data|
      invariant crc == Divide(start, data[..i])
    {
      assert data[..i + 1][..i] == data[..i];
      TableFeeds(table, crc, data[i]);
      TableSize(table);
      crc := Xor(table[Index(Xor(crc, Widen(data[i])))], crc >> 8);
    }
    assert data[..|data|] == data;
  }

  lemma TableSize(table: seq<Word>)
    requires IsTable(table)
    ensures |table| == 256
  {
  }

  /** The table-driven checksum equals the division bit by bit. */
  method Crc32(data: seq<Byte>) returns (crc: Word)
    ensures crc == Checksum(data)
  {
    var table := BuildTable();
    crc := TableCrc(table, data, ONES);
    crc := Xor(crc, ONES);
  }

  /** Incremental over concatenation. */
  lemma {:induction false} Incremental(c: Word, a: seq<Byte>, b: seq<Byte>)
    ensures Divide(c, a + b) == Divide(Divide(c, a), b)
    decreases |b|
  {
    if b == [] {
      assert a + b == a;
    } else {
      Incremental(c, a, b[..|b| - 1]);
      assert (a + b)[..|a + b| - 1] == a + b[..|b| - 1];
    }
  }

  // ---------------------------------------------------------------------
  // Every one-byte change is seen
  // ---------------------------------------------------------------------

  function UnStep(c: Word): Word { if c & 0x8000_0000 != 0 then ((c ^ POLY) << 1) | 1 else c << 1 }

  /** A step loses nothing. */
  lemma StepBack(c: Word)
    ensures UnStep(BitStep(c)) == c
  {
  }

  lemma {:induction false} StepsInjective(c: Word, d: Word, n: nat)
    requires Steps(c, n) == Steps(d, n)
    ensures c == d
  {
    if n > 0 {
      StepBack(Steps(c, n - 1));
      StepBack(Steps(d, n - 1));
      StepsInjective(c, d, n - 1);
    }
  }

  lemma XorInjective(x: Word, y: Word, z: Word)
    requires Xor(x, z) == Xor(y, z) || Xor(z, x) == Xor(z, y)
    ensures x == y
  {
  }

  lemma PackBits(b0: bool, b1: bool, b2: bool, b3: bool, b4: bool, b5: bool, b6: bool, b7: bool)
    ensures var w := Pack(b0, b1, b2, b3, b4, b5, b6, b7);
            && (w & 1 != 0) == b0 && (w & 2 != 0) == b1 && (w & 4 != 0) == b2 && (w & 8 != 0) == b3
            && (w & 16 != 0) == b4 && (w & 32 != 0) == b5 && (w & 64 != 0) == b6 && (w & 128 != 0) == b7
  {
  }

  lemma PackIndex(b0: bool, b1: bool, b2: bool, b3: bool, b4: bool, b5: bool, b6: bool, b7: bool)
    ensures Index(Pack(b0, b1, b2, b3, b4, b5, b6, b7)) ==
            Plus(b0, Plus(b1, Plus(b2, Plus(b3, Plus(b4, Plus(b5, Plus(b6, Plus(b7, 0))))))))
  {
    PackBits(b0, b1, b2, b3, b4, b5, b6, b7);
    hide Pack, Plus;
  }

  lemma Doubled(n: nat)
    ensures n == Plus(Odd(n), n / 2)
  {
  }

  /** Widening a byte loses nothing. */
  lemma WidenIndex(b: Byte)
    ensures Index(Widen(b)) == b
  {
    var h1: nat := b / 2;
    var h2 := h1 / 2;
    var h3 := h2 / 2;
    var h4 := h3 / 2;
    var h5 := h4 / 2;
    var h6 := h5 / 2;
    var h7 := h6 / 2;
    assert h7 / 2 == 0;
    PackIndex(Odd(b), Odd(h1), Odd(h2), Odd(h3), Odd(h4), Odd(h5), Odd(h6), Odd(h7));
    hide Pack, Odd, Plus, Index;
    Doubled(b);
    Doubled(h1);
    Doubled(h2);
    Doubled(h3);
    Doubled(h4);
    Doubled(h5);
    Doubled(h6);
    Doubled(h7);
  }

  lemma WidenInjective(a: Byte, b: Byte)
    requires Widen(a) == Widen(b)
    ensures a == b
  {
    WidenIndex(a);
    WidenIndex(b);
  }

  /** A byte step is injective in the register and in the byte. */
  lemma ByteInjective(c: Word, d: Word, a: Byte, b: Byte)
    ensures FeedBits(c, Widen(a), 8) == FeedBits(d, Widen(a), 8) ==> c == d
    ensures FeedBits(c, Widen(a), 8) == FeedBits(c, Widen(b), 8) ==> a == b
  {
    FeedByte(c, a);
    FeedByte(d, a);
    FeedByte(c, b);
    hide Xor, FeedBits, Steps, Widen;
    if FeedBits(c, Widen(a), 8) == FeedBits(d, Widen(a), 8) {
      StepsInjective(Xor(c, Widen(a)), Xor(d, Widen(a)), 8);
      XorInjective(c, d, Widen(a));
    }
    if FeedBits(c, Widen(a), 8) == FeedBits(c, Widen(b), 8) {
      StepsInjective(Xor(c, Widen(a)), Xor(c, Widen(b)), 8);
      XorInjective(Widen(a), Widen(b), c);
      WidenInjective(a, b);
    }
  }

  lemma {:induction false} DivideInjective(c: Word, d: Word, data: seq<Byte>)
    requires Divide(c, data) == Divide(d, data)
    ensures c == d
  {
    hide FeedBits, Widen;
    if data != [] {
      var init, last := data[..|data| - 1], data[|data| - 1];
      ByteInjective(Divide(c, init), Divide(d, init), last, last);
      DivideInjective(c, d, init);
    }
  }

  /** Changing any one byte of data of any length changes the checksum. */
  lemma OneByteChange(data: seq<Byte>, i: nat, b: Byte)
    requires i < |data| && b != data[i]
    ensures Checksum(data[i := b]) != Checksum(data)
  {
    hide FeedBits, Widen, Xor;
    var head, tail := data[..i], data[i + 1..];
    assert data == (head + [data[i]]) + tail && data[i := b] == (head + [b]) + tail;
    var c := Divide(ONES, head);
    var x, y := Divide(ONES, head + [data[i]]), Divide(ONES, head + [b]);
    assert (head + [data[i]])[..i] == head && (head + [b])[..i] == head;
    ByteInjective(c, c, data[i], b);
    Incremental(ONES, head + [data[i]], tail);
    Incremental(ONES, head + [b], tail);
    hide Divide;
    if Checksum(data[i := b]) == Checksum(data) {
      XorInjective(Divide(ONES, data[i := b]), Divide(ONES, data), ONES);
      DivideInjective(x, y, tail);
    }
  }

  /** The checksum as a number, for its four bytes. */
  function Number(c: Word): nat { c as int }

  lemma NumberInjective(c: Word, d: Word)
    ensures Number(c) < 0x1_0000_0000 && (Number(c) == Number(d) ==> c == d)
  {
    NumberBack(c);
    NumberBack(d);
  }

  lemma NumberBack(c: Word)
    ensures 0 <= c as int < 0x1_0000_0000 && (c as int) as bv32 == c
  {
  }

  /** The generator: x^32 + x^26 + x^23 + x^22 + x^16 + x^12 + x^11 + x^10 + x^8 + x^7 + x^5 +
      x^4 + x^2 + x + 1, the coefficient of x^i in bit 31 - i. */
  lemma Generator()
    ensures POLY == (1 << 31) | (1 << 30) | (1 << 29) | (1 << 27) | (1 << 26) | (1 << 24) | (1 << 23) | (1 << 21) | (1 << 20)
                    | (1 << 19) | (1 << 15) | (1 << 9) | (1 << 8) | (1 << 5)
  {
  }

  /** The checksums of no bytes and of the text "a". */
  lemma KnownChecksums()
    ensures Checksum([]) == 0 && Checksum([97]) == 0xE8B7_BE43
  {
    WidenA();
    assert [97][..0] == [] && Divide(ONES, []) == ONES;
    hide FeedBits, BitStep, Widen;
    FeedOne(0xFFFF_FFFF, 97, 8, 0x7FFF_FFFF, 48);
    FeedOne(0x7FFF_FFFF, 48, 7, 0xD247_7CDF, 24);
    FeedOne(0xD247_7CDF, 24, 6, 0x849B_3D4F, 12);
    FeedOne(0x849B_3D4F, 12, 5, 0xAFF5_1D87, 6);
    FeedOne(0xAFF5_1D87, 6, 4, 0xBA42_0DE3, 3);
    FeedOne(0xBA42_0DE3, 3, 3, 0x5D21_06F1, 1);
    FeedOne(0x5D21_06F1, 1, 2, 0x2E90_8378, 0);
    FeedOne(0x2E90_8378, 0, 1, 0x1748_41BC, 0);
    FeedNone(0x1748_41BC, 0);
  }

  lemma WidenA()
    ensures Widen(97) == 97
  {
    PackA();
    hide Pack, BitAt;
    assert Widen(97) == Pack(true, false, false, false, false, true, true, false);
  }

  lemma PackA()
    ensures Pack(true, false, false, false, false, true, true, false) == 97
  {
  }

  lemma FeedNone(c: Word, w: Word)
    ensures FeedBits(c, w, 0) == c
  {
  }

  lemma FeedOne(c: Word, w: Word, n: nat, d: Word, v: Word)
    requires n > 0 && v == w >> 1
    requires var x := c ^ (w & 1); d == if x & 1 != 0 then POLY ^ (x >> 1) else x >> 1
    ensures FeedBits(c, w, n) == FeedBits(d, v, n - 1)
  {
  }
}
