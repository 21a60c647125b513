/**
 Little-endian integers.
 */
module Le {
  import opened Bytes

  function Pow256(k: nat): nat { if k == 0 then 1 else 256 * Pow256(k - 1) }

  function Encode(v: nat, k: nat): (bs: seq<Byte>)
    ensures |bs| == k
  {
    if k == 0 then [] else [v % 256] + Encode(v / 256, k - 1)
  }

  function Decode(bs: seq<Byte>): nat {
    if bs == [] then 0 else bs[0] + 256 * Decode(bs[1..])
  }

  /** Decoding inverts encoding modulo the width. */
  lemma {:induction false} RoundTrip(v: nat, k: nat)
    requires v < Pow256(k)
    ensures Decode(Encode(v, k)) == v
  {
    if k > 0 {
      RoundTrip(v / 256, k - 1);
      assert Encode(v, k)[1..] == Encode(v / 256, k - 1);
    }
  }

  /** Encoding inverts decoding, so every byte string of the width is one number. */
  lemma {:induction false} RoundBack(bs: seq<Byte>)
    ensures Decode(bs) < Pow256(|bs|) && Encode(Decode(bs), |bs|) == bs
  {
    if bs != [] {
      RoundBack(bs[1..]);
      assert Decode(bs) == bs[0] + 256 * Decode(bs[1..]);
      assert Decode(bs) % 256 == bs[0] && Decode(bs) / 256 == Decode(bs[1..]);
    }
  }

  lemma Powers()
    ensures Pow256(4) == 0x1_0000_0000 && Pow256(8) == 0x1_0000_0000_0000_0000 && Pow256(1) == 256
  {
    assert Pow256(2) == 65536;
    assert Pow256(3) == 16777216;
    assert Pow256(4) == 4294967296;
    assert Pow256(5) == 1099511627776;
    assert Pow256(6) == 281474976710656;
    assert Pow256(7) == 72057594037927936;
  }
}
