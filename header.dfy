/** The 48-byte archive header `LARHeader`: magic "LAR", version 1, the
    uncompressed and compressed TOC sizes, the number of TOC items and the
    aggregate digest. */
module Header {
  import opened Bytes
  import opened Ports

  /** `sizeof(LARHeader)`: 3 + 1 + 4 + 4 + 4 + 32. */
  const HeaderSize: nat := 48

  /** The bytes of 'L', 'A', 'R'. */
  const MagicLAR: seq<byte> := [0x4C, 0x41, 0x52]

  const Version: byte := 1

  type Magic = s: seq<byte> | |s| == 3 witness [0, 0, 0]

  datatype LarHeader = LarHeader(
    magic: Magic,
    version: byte,
    tocSize: u32,
    tocCompressedSize: u32,
    tocItems: u32,
    hashsum: Digest)
  {
    /** `LARHeader::valid()`. */
    predicate Valid()
    {
      magic[0] == 0x4C && magic[1] == 0x41 && magic[2] == 0x52 && version == 1
    }
  }

  /** `valid()` accepts exactly the magic "LAR" with version 1. */
  lemma {:induction false} ValidIff(h: LarHeader)
    ensures h.Valid() <==> h.magic == MagicLAR && h.version == Version
  {
    if h.Valid() {
      assert h.magic == [h.magic[0], h.magic[1], h.magic[2]];
    }
  }

  /** The header a fresh `LAR` starts with. */
  function DefaultHeader(): (h: LarHeader)
    ensures h.Valid()
    ensures h.tocSize == 0 && h.tocCompressedSize == 0 && h.tocItems == 0
    ensures forall i :: 0 <= i < 32 ==> h.hashsum[i] == 0
  {
    LarHeader(MagicLAR, Version, 0, 0, 0, ZeroDigest)
  }

  /** The header's wire form: the fields in declaration order, sizes little-endian. */
  function EncodeHeader(h: LarHeader): (b: seq<byte>)
    ensures |b| == HeaderSize
  {
    h.magic + [h.version] + Encode32(h.tocSize) + Encode32(h.tocCompressedSize)
      + Encode32(h.tocItems) + h.hashsum
  }

  /** Reading the first 48 bytes of an archive into a `LARHeader`: every
      field from its own bytes, so the result encodes back to exactly those
      bytes. */
  function DecodeHeader(bytes: seq<byte>): (h: LarHeader)
    requires |bytes| >= HeaderSize
    ensures EncodeHeader(h) == bytes[..HeaderSize]
  {
    var h := LarHeader(bytes[0..3], bytes[3], Decode32At(bytes, 4), Decode32At(bytes, 8),
                       Decode32At(bytes, 12), bytes[16..48]);
    Encode32Decode32(bytes, 4);
    Encode32Decode32(bytes, 8);
    Encode32Decode32(bytes, 12);
    assert bytes[..HeaderSize] == bytes[0..3] + [bytes[3]] + bytes[4..8] + bytes[8..12]
      + bytes[12..16] + bytes[16..48];
    h
  }

  /** Decoding the encoded header at the start of any archive gives it back. */
  lemma {:induction false} HeaderRoundTrip(h: LarHeader, rest: seq<byte>)
    ensures DecodeHeader(EncodeHeader(h) + rest) == h
  {
    var b := EncodeHeader(h) + rest;
    assert b[0..3] == h.magic && b[3] == h.version && b[16..48] == h.hashsum;
    assert b[4..8] == Encode32(h.tocSize);
    assert b[8..12] == Encode32(h.tocCompressedSize);
    assert b[12..16] == Encode32(h.tocItems);
    Decode32Encode32(h.tocSize, b, 4);
    Decode32Encode32(h.tocCompressedSize, b, 8);
    Decode32Encode32(h.tocItems, b, 12);
  }
}
