/**
 Archive segment headers.
 */
module Archive {
  import opened Bytes
  import Le
  import opened Crc

  const VERSION: nat := 1
  const MAX_PAYLOAD: nat := 0x1_0000_0000
  const MAGIC: seq<Byte> := [0x48, 0x44, 0x42, 0x41]   // "HDBA"

  datatype Meta = Meta(walVersion: nat, generation: nat, index: nat, start: nat, end: nat, startTs: nat, endTs: nat)

  datatype Error = Truncated | BadMagic | BadVersion | BadCrc | Inverted | TooLarge | BadIndex

  datatype Result = Ok(meta: Meta) | Err(error: Error)

  /** Field widths: 32 bits for the version, 64 for the others. */
  predicate Fits(m: Meta) {
    && m.walVersion < Le.Pow256(4) && m.generation < Le.Pow256(8) && m.index < Le.Pow256(8) && m.start < Le.Pow256(8)
    && m.end < Le.Pow256(8) && m.startTs < Le.Pow256(8) && m.endTs < Le.Pow256(8)
  }

  function Fields(m: Meta): (bs: seq<Byte>)
    ensures |bs| == 52
  {
    Le.Encode(m.walVersion, 4) + Le.Encode(m.generation, 8) + Le.Encode(m.index, 8) + Le.Encode(m.start, 8)
    + Le.Encode(m.end, 8) + Le.Encode(m.startTs, 8) + Le.Encode(m.endTs, 8)
  }

  /** The bytes the header checksum covers: version and fields. */
  function Covered(m: Meta): (bs: seq<Byte>)
    ensures |bs| == 56
  {
    Le.Encode(VERSION, 4) + Fields(m)
  }

  function CrcBytes(data: seq<Byte>): (bs: seq<Byte>)
    ensures |bs| == 4
  {
    Le.Encode(Number(Checksum(data)), 4)
  }

  function EncodeHeader(m: Meta): (h: seq<Byte>)
    ensures |h| == 64
  {
    MAGIC + Covered(m) + CrcBytes(Covered(m))
  }

  function ReadMeta(f: seq<Byte>): Meta
    requires |f| == 52
  {
    Meta(Le.Decode(f[0..4]), Le.Decode(f[4..12]), Le.Decode(f[12..20]), Le.Decode(f[20..28]),
         Le.Decode(f[28..36]), Le.Decode(f[36..44]), Le.Decode(f[44..52]))
  }

  function DecodeHeader(bytes: seq<Byte>): Result {
    if |bytes| < 64 then Err(Truncated)
    else if bytes[0..4] != MAGIC then Err(BadMagic)
    else if Le.Decode(bytes[4..8]) != VERSION then Err(BadVersion)
    else if Number(Checksum(bytes[4..60])) != Le.Decode(bytes[60..64]) then Err(BadCrc)
    else
      var m := ReadMeta(bytes[8..60]);
      if m.end < m.start then Err(Inverted)
      else if m.end - m.start > MAX_PAYLOAD then Err(TooLarge)
      else if m.index == 0 then Err(BadIndex)
      else Ok(m)
  }

  /** What a header may say about its segment. */
  predicate Plausible(m: Meta) { m.start <= m.end && m.end - m.start <= MAX_PAYLOAD && m.index > 0 }

  lemma ReadFields(m: Meta)
    requires Fits(m)
    ensures ReadMeta(Fields(m)) == m
  {
    hide Le.Encode, Le.Decode, Le.Pow256;
    var f := Fields(m);
    var f1 := Le.Encode(m.walVersion, 4);
    var f2 := Le.Encode(m.generation, 8);
    var f3 := Le.Encode(m.index, 8);
    var f4 := Le.Encode(m.start, 8);
    var f5 := Le.Encode(m.end, 8);
    var f6 := Le.Encode(m.startTs, 8);
    var f7 := Le.Encode(m.endTs, 8);
    assert f[0..4] == f1 && f[4..12] == f2 && f[12..20] == f3 && f[20..28] == f4;
    assert f[28..36] == f5 && f[36..44] == f6 && f[44..52] == f7;
    Le.RoundTrip(m.walVersion, 4);
    Le.RoundTrip(m.generation, 8);
    Le.RoundTrip(m.index, 8);
    Le.RoundTrip(m.start, 8);
    Le.RoundTrip(m.end, 8);
    Le.RoundTrip(m.startTs, 8);
    Le.RoundTrip(m.endTs, 8);
  }

  lemma Sections(m: Meta)
    ensures var h := EncodeHeader(m);
            h[0..4] == MAGIC && h[4..8] == Le.Encode(VERSION, 4) && h[8..60] == Fields(m)
            && h[4..60] == Covered(m) && h[60..64] == CrcBytes(Covered(m))
  {
    hide Fields, Le.Encode, CrcBytes;
  }

  lemma CrcReads(data: seq<Byte>)
    ensures Le.Decode(CrcBytes(data)) == Number(Checksum(data))
  {
    hide Checksum;
    Le.Powers();
    NumberInjective(Checksum(data), Checksum(data));
    Le.RoundTrip(Number(Checksum(data)), 4);
  }

  /** A header round-trips exactly when it is plausible; otherwise it is rejected. */
  lemma HeaderRoundTrip(m: Meta)
    requires Fits(m)
    ensures DecodeHeader(EncodeHeader(m)) == Ok(m) <==> Plausible(m)
    ensures !Plausible(m) ==> DecodeHeader(EncodeHeader(m)).Err?
  {
    Sections(m);
    ReadFields(m);
    CrcReads(Covered(m));
    Le.Powers();
    Le.RoundTrip(VERSION, 4);
    hide EncodeHeader, Le.Encode, Le.Decode, Le.Pow256, Fields, Covered, CrcBytes, Checksum, Number, ReadMeta;
  }

  /** Two byte strings of one width that read as one number are equal. */
  lemma SameNumber(a: seq<Byte>, b: seq<Byte>)
    requires |a| == |b| && Le.Decode(a) == Le.Decode(b)
    ensures a == b
  {
    Le.RoundBack(a);
    Le.RoundBack(b);
  }

  lemma CoveredChange(h: seq<Byte>, i: nat, b: Byte)
    requires |h| == 64 && 4 <= i < 60 && b != h[i] && Number(Checksum(h[4..60])) == Le.Decode(h[60..64])
    ensures DecodeHeader(h[i := b]).Err?
  {
    hide Le.Decode, Checksum, Number, ReadMeta;
    var g := h[i := b];
    assert g[4..60] == h[4..60][i - 4 := b] && g[60..64] == h[60..64];
    OneByteChange(h[4..60], i - 4, b);
    NumberInjective(Checksum(g[4..60]), Checksum(h[4..60]));
  }

  lemma CrcChange(h: seq<Byte>, i: nat, b: Byte)
    requires |h| == 64 && 60 <= i < 64 && b != h[i] && Number(Checksum(h[4..60])) == Le.Decode(h[60..64])
    ensures DecodeHeader(h[i := b]).Err?
  {
    hide Le.Decode, Checksum, Number, ReadMeta;
    var g := h[i := b];
    assert g[4..60] == h[4..60];
    assert g[60..64][i - 60] != h[60..64][i - 60];
    if Le.Decode(g[60..64]) == Le.Decode(h[60..64]) {
      SameNumber(g[60..64], h[60..64]);
    }
  }

  lemma MagicChange(h: seq<Byte>, i: nat, b: Byte)
    requires |h| == 64 && i < 4 && b != h[i] && h[0..4] == MAGIC
    ensures DecodeHeader(h[i := b]).Err?
  {
    hide Le.Decode, Checksum, Number, ReadMeta;
    assert h[i := b][0..4][i] != h[0..4][i];
  }

  /** Every one-byte change of every encoded header is rejected. */
  lemma OneByteChangeRejected(m: Meta, i: nat, b: Byte)
    requires i < 64 && b != EncodeHeader(m)[i]
    ensures DecodeHeader(EncodeHeader(m)[i := b]).Err?
  {
    Sections(m);
    CrcReads(Covered(m));
    hide EncodeHeader, Le.Encode, Le.Decode, Fields, Covered, CrcBytes, Checksum, Number, DecodeHeader;
    if i < 4 {
      MagicChange(EncodeHeader(m), i, b);
    } else if i < 60 {
      CoveredChange(EncodeHeader(m), i, b);
    } else {
      CrcChange(EncodeHeader(m), i, b);
    }
  }
}
