/** One table-of-contents record (`TOCItem`): a 56-byte fixed prefix
    followed by `path_size` raw path bytes. */
module Toc {
  import opened Bytes
  import opened Errors
  import opened Ports

  /** Bytes of the fixed prefix: fsize 8, compressedSize 8, path_size 4,
      permissions 4, hashsum 32. */
  const FixedSize: nat := 56

  /** The fields of a record as they travel through the TOC buffer. */
  datatype TocRecord = TocRecord(
    fsize: u64,
    compressedSize: u64,
    pathSize: u32,
    permissions: u32,
    hashsum: Digest,
    path: Path)
  {
    /** The stored path length agrees with the path. */
    predicate WellFormed()
    {
      pathSize == |path|
    }
  }

  /** The fixed prefix, field by field in declaration order, little-endian. */
  function EncodeFixed(r: TocRecord): (b: seq<byte>)
    ensures |b| == FixedSize
  {
    Encode64(r.fsize) + Encode64(r.compressedSize) + Encode32(r.pathSize)
      + Encode32(r.permissions) + r.hashsum
  }

  /** `TOCItem::dump`: the fixed prefix, then the path bytes. The prefix
      carries the stored `path_size`, the suffix the path itself. */
  function Dump(r: TocRecord): (b: seq<byte>)
    ensures |b| == FixedSize + |r.path|
  {
    EncodeFixed(r) + r.path
  }

  /** The stored path length, read from the prefix at `offset`. */
  function PathSizeAt(bytes: seq<byte>, offset: nat): (n: u32)
    requires offset + FixedSize <= |bytes|
  {
    Decode32At(bytes, offset + 16)
  }

  /** Both bounds checks of the decoding constructor pass at `offset`: 56
      bytes remain, and so do the `path_size` bytes the prefix declares. */
  predicate Fits(bytes: seq<byte>, offset: nat)
  {
    offset + FixedSize <= |bytes| && offset + FixedSize + PathSizeAt(bytes, offset) <= |bytes|
  }

  /** The record whose 56-byte prefix starts at `offset`: the fixed fields
      from the prefix, the path from the `path_size` bytes after it. */
  function RecordAt(bytes: seq<byte>, offset: nat): (r: TocRecord)
    requires Fits(bytes, offset)
    ensures r.pathSize == PathSizeAt(bytes, offset)
  {
    var pathSize := PathSizeAt(bytes, offset);
    TocRecord(Decode64At(bytes, offset), Decode64At(bytes, offset + 8), pathSize,
              Decode32At(bytes, offset + 20), bytes[offset + 24..offset + FixedSize],
              bytes[offset + FixedSize..offset + FixedSize + pathSize])
  }

  /** The decoding constructor `TOCItem(bytes, offset)`: the two bounds
      checks, each failing with EINVAL, then the record at `offset`. */
  function DecodeEntry(bytes: seq<byte>, offset: nat): (r: Result<TocRecord>)
    ensures r.Ok? ==> offset + FixedSize + r.value.pathSize <= |bytes|
    ensures r.Err? ==> r.error == Error(EINVAL, VectorTooSmall)
  {
    if |bytes| < FixedSize + offset then Err(Error(EINVAL, VectorTooSmall))
    else if |bytes| < offset + FixedSize + PathSizeAt(bytes, offset) then
      Err(Error(EINVAL, VectorTooSmall))
    else Ok(RecordAt(bytes, offset))
  }

  /** Decoding fails with EINVAL when fewer than 56 bytes remain at
      `offset`, and again when the declared path runs past the end of the
      buffer; it succeeds exactly when both checks pass. */
  lemma {:induction false} DecodeEntryFails(bytes: seq<byte>, offset: nat)
    ensures var r := DecodeEntry(bytes, offset);
      && (|bytes| < offset + FixedSize ==> r == Err(Error(EINVAL, VectorTooSmall)))
      && (offset + FixedSize <= |bytes| < offset + FixedSize + PathSizeAt(bytes, offset) ==>
            r == Err(Error(EINVAL, VectorTooSmall)))
      && (r.Ok? <==> Fits(bytes, offset))
      && (r.Ok? ==> r.value == RecordAt(bytes, offset))
  {
  }

  /** A decoded record is exactly the bytes `bytes[offset .. offset + 56 +
      path_size]` read back through `Dump`: the fixed fields from the
      prefix, the path from the bytes after it. */
  lemma {:induction false} DecodeEntrySpec(bytes: seq<byte>, offset: nat)
    requires DecodeEntry(bytes, offset).Ok?
    ensures var r := DecodeEntry(bytes, offset).value;
      && r.WellFormed()
      && r.pathSize == PathSizeAt(bytes, offset)
      && bytes[offset..offset + FixedSize] == EncodeFixed(r)
      && bytes[offset + FixedSize..offset + FixedSize + r.pathSize] == r.path
      && bytes[offset..offset + FixedSize + r.pathSize] == Dump(r)
  {
    var r := DecodeEntry(bytes, offset).value;
    var o := offset;
    Encode64Decode64(bytes, o);
    Encode64Decode64(bytes, o + 8);
    Encode32Decode32(bytes, o + 16);
    Encode32Decode32(bytes, o + 20);
    assert bytes[o..o + FixedSize] == bytes[o..o + 8] + bytes[o + 8..o + 16] + bytes[o + 16..o + 20]
      + bytes[o + 20..o + 24] + bytes[o + 24..o + FixedSize];
    assert bytes[o..o + FixedSize + r.pathSize] == bytes[o..o + FixedSize] + r.path;
  }

  /** The layout `Dump` promises: the prefix holds the fields in the order
      fsize, compressedSize, path_size, permissions, hashsum, and the path
      follows it unchanged. */
  lemma {:induction false} DumpLayout(r: TocRecord)
    ensures |Dump(r)| == FixedSize + |r.path|
    ensures Decode64At(Dump(r), 0) == r.fsize
    ensures Decode64At(Dump(r), 8) == r.compressedSize
    ensures Decode32At(Dump(r), 16) == r.pathSize
    ensures Decode32At(Dump(r), 20) == r.permissions
    ensures Dump(r)[24..FixedSize] == r.hashsum
    ensures Dump(r)[FixedSize..] == r.path
  {
    var d := Dump(r);
    assert d[0..8] == Encode64(r.fsize);
    assert d[8..16] == Encode64(r.compressedSize);
    assert d[16..20] == Encode32(r.pathSize);
    assert d[20..24] == Encode32(r.permissions);
    Decode64Encode64(r.fsize, d, 0);
    Decode64Encode64(r.compressedSize, d, 8);
    Decode32Encode32(r.pathSize, d, 16);
    Decode32Encode32(r.permissions, d, 20);
  }

  /** Decoding a dumped record at any offset inside a larger buffer yields
      the record back, provided its stored path length is the path's. */
  lemma {:induction false} DecodeDump(pre: seq<byte>, r: TocRecord, post: seq<byte>)
    requires r.WellFormed()
    ensures DecodeEntry(pre + Dump(r) + post, |pre|) == Ok(r)
  {
    var bytes := pre + Dump(r) + post;
    var o := |pre|;
    var d := Dump(r);
    DumpLayout(r);
    assert bytes[o..o + |d|] == d;
    assert bytes[o..o + 8] == d[0..8];
    assert bytes[o + 8..o + 16] == d[8..16];
    assert bytes[o + 16..o + 20] == d[16..20];
    assert bytes[o + 20..o + 24] == d[20..24];
    Decode64Encode64(r.fsize, bytes, o);
    Decode64Encode64(r.compressedSize, bytes, o + 8);
    Decode32Encode32(r.pathSize, bytes, o + 16);
    Decode32Encode32(r.permissions, bytes, o + 20);
    assert bytes[o + 24..o + FixedSize] == d[24..FixedSize];
    assert bytes[o + FixedSize..o + FixedSize + r.pathSize] == d[FixedSize..];
  }

  /** Two well-formed records with the same dump are the same record. */
  lemma {:induction false} DumpInjective(a: TocRecord, b: TocRecord)
    requires a.WellFormed() && b.WellFormed()
    requires Dump(a) == Dump(b)
    ensures a == b
  {
    DumpLayout(a);
    DumpLayout(b);
  }

  /** The record the path constructor makes for a file: the size and
      permission bits the filesystem reports, nothing compressed yet, a zero
      digest, and the path's UTF-8 length stored in a 32-bit field. */
  function PathRecord(path: Path, fileSize: u64, perms: u32): (r: TocRecord)
    ensures r.path == path && r.fsize == fileSize && r.permissions == perms
    ensures r.compressedSize == 0 && r.hashsum == ZeroDigest
    ensures |path| < TWO32 <==> r.WellFormed()
  {
    TocRecord(fileSize, 0, Trunc32(|path|), perms, ZeroDigest, path)
  }

  /** The in-memory `TOCItem`, whose size and digest `pack` fills in place. */
  class TocItem {
    var fsize: u64
    var compressedSize: u64
    var pathSize: u32
    var permissions: u32
    var hashsum: Digest
    var relativePath: Path

    /** The item's fields as a record. */
    function Record(): TocRecord
      reads this
    {
      TocRecord(fsize, compressedSize, pathSize, permissions, hashsum, relativePath)
    }

    /** The path constructor: the item holds `PathRecord`. */
    constructor FromPath(path: Path, fileSize: u64, perms: u32)
      ensures Record() == PathRecord(path, fileSize, perms)
      ensures |path| < TWO32 ==> Record().WellFormed()
    {
      fsize := fileSize;
      compressedSize := 0;
      pathSize := Trunc32(|path|);
      permissions := perms;
      hashsum := ZeroDigest;
      relativePath := path;
    }

    /** The decoding constructor, once `DecodeEntry` has succeeded. */
    constructor FromRecord(r: TocRecord)
      ensures Record() == r
    {
      fsize := r.fsize;
      compressedSize := r.compressedSize;
      pathSize := r.pathSize;
      permissions := r.permissions;
      hashsum := r.hashsum;
      relativePath := r.path;
    }

    /** `calcHashSum`: the digest of the content, and no other field. */
    method CalcHashSum(content: seq<byte>, codecs: Codecs)
      modifies this
      ensures Record() == old(Record()).(hashsum := codecs.digest(content))
    {
      hashsum := codecs.digest(content);
    }
  }
}
