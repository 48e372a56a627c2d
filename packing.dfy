/** What `LAR::pack` computes, as functions of the items, the files on disk
    and the compressor: which item stops it, what each item's fields become,
    the header size fields, and the bytes of the archive it writes. */
module Packing {
  import opened Bytes
  import opened Errors
  import opened Ports
  import opened Toc
  import opened Header
  import opened Archive

  /** The two checks `pack` makes on an item before it reads its content:
      the file must open, and its size must not exceed a third of the
      available memory. */
  function ItemCheck(fs: Files, memAvail: nat, r: TocRecord): (e: Option<Error>)
    ensures e.None? <==> r.path in fs && r.fsize <= memAvail / 3
    ensures r.path !in fs ==> e == Some(Error(EACCES, CantOpenFile))
    ensures r.path in fs && r.fsize > memAvail / 3 ==> e == Some(Error(ENOMEM, FileTooLarge))
  {
    if r.path !in fs then Some(Error(EACCES, CantOpenFile))
    else if r.fsize > memAvail / 3 then Some(Error(ENOMEM, FileTooLarge))
    else None
  }

  /** The index of the first item `pack` rejects, or `|rs|` if it rejects
      none. */
  function FirstRejected(fs: Files, memAvail: nat, rs: seq<TocRecord>): (k: nat)
    ensures k <= |rs|
    ensures forall j {:trigger ItemCheck(fs, memAvail, rs[j])} :: 0 <= j < k ==> ItemCheck(fs, memAvail, rs[j]).None?
    ensures k < |rs| ==> ItemCheck(fs, memAvail, rs[k]).Some?
    ensures AllOpen(fs, rs[..k])
  {
    if rs == [] then 0
    else if ItemCheck(fs, memAvail, rs[0]).Some? then 0
    else 1 + FirstRejected(fs, memAvail, rs[1..])
  }

  /** The `fsize` bytes `pack` reads from an item's file into a zeroed
      buffer of that size (the read is not checked). */
  function Content(fs: Files, r: TocRecord): (c: seq<byte>)
    requires r.path in fs
    ensures |c| == r.fsize
    ensures r.fsize <= |fs[r.path]| ==> c == fs[r.path][..r.fsize]
  {
    ReadPadded(fs[r.path], 0, r.fsize)
  }

  /** The compressed block `pack` appends to the content scratch file for
      an item. */
  function Block(fs: Files, codecs: Codecs, r: TocRecord): seq<byte>
    requires r.path in fs
  {
    codecs.compress(Content(fs, r))
  }

  /** An item after `pack` has handled it: `calcHashSum` has set the digest
      of its content, and `compressedSize` is the length of its block. */
  function Stamp(fs: Files, codecs: Codecs, r: TocRecord): (s: TocRecord)
    requires r.path in fs
    ensures s.hashsum == codecs.digest(Content(fs, r))
    ensures |Block(fs, codecs, r)| < TWO64 ==> s.compressedSize == |Block(fs, codecs, r)|
    ensures s.fsize == r.fsize && s.pathSize == r.pathSize && s.permissions == r.permissions
    ensures s.path == r.path
  {
    r.(hashsum := codecs.digest(Content(fs, r)),
       compressedSize := Trunc64(|Block(fs, codecs, r)|))
  }

  predicate AllOpen(fs: Files, rs: seq<TocRecord>)
  {
    forall j :: 0 <= j < |rs| ==> rs[j].path in fs
  }

  /** Every item of `rs`, stamped. */
  function StampAll(fs: Files, codecs: Codecs, rs: seq<TocRecord>): (ss: seq<TocRecord>)
    requires AllOpen(fs, rs)
    ensures |ss| == |rs|
    ensures forall j {:trigger ss[j]} :: 0 <= j < |rs| ==> ss[j] == Stamp(fs, codecs, rs[j])
  {
    if rs == [] then []
    else
      assert AllOpen(fs, rs[..|rs| - 1]);
      StampAll(fs, codecs, rs[..|rs| - 1]) + [Stamp(fs, codecs, rs[|rs| - 1])]
  }

  /** The digests of the first `n` records, one after the other. */
  function DigestsUpTo(rs: seq<TocRecord>, n: nat): seq<byte>
    requires n <= |rs|
  {
    if n == 0 then [] else DigestsUpTo(rs, n - 1) + rs[n - 1].hashsum
  }

  /** The `checksums` buffer: the 32-byte digests of the records one after
      the other. */
  function Checksums(rs: seq<TocRecord>): seq<byte>
  {
    DigestsUpTo(rs, |rs|)
  }

  /** The `checksums` buffer after `pack` has handled the first `i`
      items: the digests of their contents one after the other. */
  function ChecksumsUpTo(fs: Files, codecs: Codecs, rs: seq<TocRecord>, i: nat): seq<byte>
    requires i <= |rs| && forall j :: 0 <= j < i ==> rs[j].path in fs
  {
    if i == 0 then [] else ChecksumsUpTo(fs, codecs, rs, i - 1) + Stamp(fs, codecs, rs[i - 1]).hashsum
  }

  /** The content scratch file after `pack` has handled the first `i`
      items: their blocks one after the other. */
  function ContentUpTo(fs: Files, codecs: Codecs, rs: seq<TocRecord>, i: nat): seq<byte>
    requires i <= |rs| && forall j :: 0 <= j < i ==> rs[j].path in fs
  {
    if i == 0 then [] else ContentUpTo(fs, codecs, rs, i - 1) + Block(fs, codecs, rs[i - 1])
  }

  /** The content scratch file after every item of `rs`. */
  function PackedContent(fs: Files, codecs: Codecs, rs: seq<TocRecord>): seq<byte>
    requires AllOpen(fs, rs)
  {
    ContentUpTo(fs, codecs, rs, |rs|)
  }

  /** The header `pack` writes for the stamped items `rs`, from the header
      `h` the archive object held before: the item count, the digest of the
      checksums, and the sizes of the serialised and compressed TOC, each
      stored in a 32-bit field. */
  function PackedHeader(h: LarHeader, rs: seq<TocRecord>, codecs: Codecs): LarHeader
  {
    h.(tocItems := Trunc32(|rs|),
       hashsum := codecs.digest(Checksums(rs)),
       tocSize := Trunc32(|Serialize(rs)|),
       tocCompressedSize := Trunc32(|codecs.compress(Serialize(rs))|))
  }

  /** The bytes of the archive: the header, the compressed TOC, then the
      content. */
  function PackedArchive(h: LarHeader, rs: seq<TocRecord>, content: seq<byte>, codecs: Codecs): seq<byte>
  {
    EncodeHeader(h) + codecs.compress(Serialize(rs)) + content
  }

  // ---------------------------------------------------------------------
  // Properties

  /** `pack` stops at the first item that fails a check, with the error of
      that check: a file that is too large is rejected with ENOMEM, and
      one that does not open with EACCES. */
  lemma {:induction false} FirstRejectedIs(fs: Files, memAvail: nat, rs: seq<TocRecord>, k: nat)
    requires k < |rs|
    requires forall j {:trigger ItemCheck(fs, memAvail, rs[j])} :: 0 <= j < k ==> ItemCheck(fs, memAvail, rs[j]).None?
    requires ItemCheck(fs, memAvail, rs[k]).Some?
    ensures FirstRejected(fs, memAvail, rs) == k
    ensures rs[k].path in fs && rs[k].fsize > memAvail / 3 ==>
              ItemCheck(fs, memAvail, rs[k]) == Some(Error(ENOMEM, FileTooLarge))
  {
  }

  /** Stamping changes only the digest and the compressed size, so a
      record whose path size matches its path still does. */
  lemma {:induction false} StampAllWellFormed(fs: Files, codecs: Codecs, rs: seq<TocRecord>)
    requires AllOpen(fs, rs)
    requires AllWellFormed(rs)
    ensures AllWellFormed(StampAll(fs, codecs, rs))
    ensures forall j :: 0 <= j < |rs| ==> StampAll(fs, codecs, rs)[j].path == rs[j].path
  {
  }

  /** The checksums are 32 bytes per item, item `j`'s digest at `32 * j`. */
  lemma {:induction false} ChecksumsLayout(rs: seq<TocRecord>, n: nat, j: nat)
    requires j < n <= |rs|
    ensures |DigestsUpTo(rs, n)| == 32 * n
    ensures DigestsUpTo(rs, n)[32 * j..32 * j + 32] == rs[j].hashsum
    decreases n
  {
    DigestsLength(rs, n - 1);
    if j < n - 1 {
      ChecksumsLayout(rs, n - 1, j);
      assert DigestsUpTo(rs, n)[32 * j..32 * j + 32] == DigestsUpTo(rs, n - 1)[32 * j..32 * j + 32];
    }
  }

  /** The first `n` digests take 32 bytes each. */
  lemma {:induction false} DigestsLength(rs: seq<TocRecord>, n: nat)
    requires n <= |rs|
    ensures |DigestsUpTo(rs, n)| == 32 * n
  {
    if n > 0 {
      DigestsLength(rs, n - 1);
    }
  }

  /** The header `pack` writes: it is still valid, it counts the items,
      its digest covers the item digests in item order, and the TOC size is
      `Σ (56 + path_size)` whenever the sizes fit their 32-bit fields. */
  lemma {:induction false} PackedHeaderFields(h: LarHeader, rs: seq<TocRecord>, codecs: Codecs)
    requires AllWellFormed(rs)
    ensures var p := PackedHeader(h, rs, codecs);
      && (p.Valid() <==> h.Valid())
      && (|rs| < TWO32 ==> p.tocItems == |rs|)
      && p.hashsum == codecs.digest(Checksums(rs))
      && (TocSpan(rs, |rs|) < TWO32 ==> p.tocSize == TocSpan(rs, |rs|))
      && (|codecs.compress(Serialize(rs))| < TWO32 ==>
            p.tocCompressedSize == |codecs.compress(Serialize(rs))|)
  {
    SerializeLength(rs, |rs|);
  }

  /** Records of which the first `k` are stamped and the rest untouched
      are the stamped prefix followed by the rest. */
  lemma {:induction false} StampedSplit(fs: Files, codecs: Codecs, rs: seq<TocRecord>, k: nat, cur: seq<TocRecord>)
    requires k <= |rs| == |cur|
    requires forall j {:trigger cur[j]} :: 0 <= j < |rs| ==>
      && (j < k ==> rs[j].path in fs && cur[j] == Stamp(fs, codecs, rs[j]))
      && (k <= j ==> cur[j] == rs[j])
    ensures AllOpen(fs, rs[..k])
    ensures cur == StampAll(fs, codecs, rs[..k]) + rs[k..]
  {
    assert forall j :: 0 <= j < k ==> rs[..k][j] == rs[j] && cur[j].path == rs[j].path;
    var ss := StampAll(fs, codecs, rs[..k]);
    assert forall j :: 0 <= j < |cur| ==> cur[j] == (ss + rs[k..])[j];
  }

  /** After the first `i` items, the checksums buffer holds the digests of
      the stamped items. */
  lemma {:induction false} ChecksumsUpToStamped(fs: Files, codecs: Codecs, rs: seq<TocRecord>, i: nat)
    requires i <= |rs| && AllOpen(fs, rs)
    ensures ChecksumsUpTo(fs, codecs, rs, i) == DigestsUpTo(StampAll(fs, codecs, rs), i)
  {
    if i > 0 {
      ChecksumsUpToStamped(fs, codecs, rs, i - 1);
    }
  }

  /** The content file after `n` items begins with the content file after
      any fewer of them. */
  lemma {:induction false} ContentPrefix(fs: Files, codecs: Codecs, rs: seq<TocRecord>, m: nat, n: nat)
    requires m <= n <= |rs| && forall j :: 0 <= j < n ==> rs[j].path in fs
    ensures |ContentUpTo(fs, codecs, rs, m)| <= |ContentUpTo(fs, codecs, rs, n)|
    ensures ContentUpTo(fs, codecs, rs, n)[..|ContentUpTo(fs, codecs, rs, m)|] == ContentUpTo(fs, codecs, rs, m)
    decreases n
  {
    if m < n {
      ContentPrefix(fs, codecs, rs, m, n - 1);
      var c, d := ContentUpTo(fs, codecs, rs, n - 1), ContentUpTo(fs, codecs, rs, m);
      assert (c + Block(fs, codecs, rs[n - 1]))[..|d|] == c[..|d|];
    }
  }

  /** In the content file, item `i`'s block follows the blocks of the
      items before it. */
  lemma {:induction false} ContentAt(fs: Files, codecs: Codecs, rs: seq<TocRecord>, n: nat, i: nat)
    requires i < n <= |rs| && forall j :: 0 <= j < n ==> rs[j].path in fs
    ensures var s, b := |ContentUpTo(fs, codecs, rs, i)|, Block(fs, codecs, rs[i]);
      && s + |b| <= |ContentUpTo(fs, codecs, rs, n)|
      && ContentUpTo(fs, codecs, rs, n)[s..s + |b|] == b
  {
    ContentPrefix(fs, codecs, rs, i + 1, n);
    assert ContentUpTo(fs, codecs, rs, i + 1) == ContentUpTo(fs, codecs, rs, i) + Block(fs, codecs, rs[i]);
    SliceInPrefix(ContentUpTo(fs, codecs, rs, n), ContentUpTo(fs, codecs, rs, i), Block(fs, codecs, rs[i]));
  }
}
