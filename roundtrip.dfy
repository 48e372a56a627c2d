/** `unpack` inverts `pack`: the archive `pack` writes unpacks, entry by
    entry and in item order, to the content `pack` read for each item. */
module RoundTrip {
  import opened Bytes
  import opened Errors
  import opened Ports
  import opened Toc
  import opened Header
  import opened Archive
  import opened Packing
  import opened Unpacking

  /** Where every record's `compressedSize` is the length of its block,
      block `n` starts after the blocks of the `n` items before it. */
  lemma {:induction false} ContentStart(fs: Files, codecs: Codecs, rs: seq<TocRecord>, ss: seq<TocRecord>, n: nat)
    requires n <= |rs| == |ss| && forall j :: 0 <= j < n ==> rs[j].path in fs
    requires forall j :: 0 <= j < n ==> ss[j].compressedSize == |Block(fs, codecs, rs[j])|
    ensures BlockStart(ss, n) == |ContentUpTo(fs, codecs, rs, n)|
  {
    if n > 0 {
      ContentStart(fs, codecs, rs, ss, n - 1);
    }
  }

  /** In a buffer that holds the content from `base` on, reading
      `compressedSize` bytes at `base + BlockStart` gives back exactly item
      `i`'s block. */
  lemma {:induction false} BlockReads(archive: seq<byte>, base: nat, fs: Files, codecs: Codecs, rs: seq<TocRecord>,
                   ss: seq<TocRecord>, i: nat)
    requires AllOpen(fs, rs) && |ss| == |rs| && i < |rs|
    requires forall j :: 0 <= j < |rs| ==> ss[j].compressedSize == |Block(fs, codecs, rs[j])|
    requires base <= |archive| && archive[base..] == PackedContent(fs, codecs, rs)
    ensures ReadPadded(archive, base + BlockStart(ss, i), ss[i].compressedSize) == Block(fs, codecs, rs[i])
  {
    ContentStart(fs, codecs, rs, ss, i);
    ContentAt(fs, codecs, rs, |rs|, i);
    ReadInSuffix(archive, base, PackedContent(fs, codecs, rs), BlockStart(ss, i), ss[i].compressedSize);
  }

  /** The header and the compressed TOC at the front of a packed archive
      read back as written. */
  lemma {:induction false} PackedFront(h: LarHeader, ctoc: seq<byte>, content: seq<byte>)
    requires h.tocCompressedSize == |ctoc|
    ensures var a := EncodeHeader(h) + ctoc + content;
      && |a| >= HeaderSize
      && DecodeHeader(a) == h
      && ReadPadded(a, HeaderSize, h.tocCompressedSize) == ctoc
      && ContentBase(h) <= |a| && a[ContentBase(h)..] == content
  {
    var a := EncodeHeader(h) + ctoc + content;
    assert a == EncodeHeader(h) + (ctoc + content);
    HeaderRoundTrip(h, ctoc + content);
    assert a[HeaderSize..HeaderSize + |ctoc|] == ctoc;
  }

  /** When every entry passes its checks, the loop writes all of them, in
      order, and stops without error. */
  lemma {:induction false} AllPass(ds: seq<seq<byte>>, fs: seq<Path>, rs: seq<TocRecord>, codecs: Codecs, host: Host)
    requires |ds| == |rs| && |fs| == |rs|
    requires forall j {:trigger EntryCheck(ds[j], rs[j], fs[j], codecs, host)} :: 0 <= j < |rs| ==>
      EntryCheck(ds[j], rs[j], fs[j], codecs, host).None?
    ensures UnpackFrom(ds, fs, rs, 0, codecs, host)
            == Unpacked(seq(|rs|, j requires 0 <= j < |rs| => Written(fs[j], ds[j])), None)
  {
    UnpackFromStops(ds, fs, rs, 0, codecs, host);
    UnpackFromWritten(ds, fs, rs, 0, codecs, host);
  }

  /** The blocks of a packed archive unpack to the items' contents. */
  lemma {:induction false} PackedEntries(archive: seq<byte>, base: nat, fs: Files, codecs: Codecs, rs: seq<TocRecord>)
    requires Lossless(codecs)
    requires AllOpen(fs, rs)
    requires forall j :: 0 <= j < |rs| ==> |Block(fs, codecs, rs[j])| < TWO64
    requires base <= |archive| && archive[base..] == PackedContent(fs, codecs, rs)
    ensures var ss := StampAll(fs, codecs, rs);
      forall i :: 0 <= i < |rs| ==> EntryBytes(archive, base, ss, i, codecs) == Content(fs, rs[i])
  {
    var ss := StampAll(fs, codecs, rs);
    forall i | 0 <= i < |rs|
      ensures EntryBytes(archive, base, ss, i, codecs) == Content(fs, rs[i])
    {
      BlockReads(archive, base, fs, codecs, rs, ss, i);
    }
  }

  /** An archive whose TOC walks without error unpacks by the loop over the
      records the walk read. */
  lemma {:induction false} UnpackArchiveLoop(a: seq<byte>, h: LarHeader, toc: seq<byte>, rs: seq<TocRecord>,
                          dir: Path, codecs: Codecs, host: Host)
    requires Readable(Some(a))
    requires DecodeHeader(a) == h && TocOf(a, codecs) == toc
    requires TocWalk(toc, 0).error.None? && TocRecords(toc) == rs
    ensures UnpackArchive(Some(a), dir, codecs, host)
            == UnpackFrom(AllEntryBytes(a, ContentBase(h), rs, codecs), Targets(dir, rs), rs, 0, codecs, host)
  {
  }

  /** Every entry of a packed archive passes its checks, and what the loop
      writes for it is the item's content at `dir / path`. */
  lemma {:induction false} PackedChecksPass(a: seq<byte>, base: nat, rs: seq<TocRecord>, fs: Files, codecs: Codecs,
                         dir: Path, host: Host)
    requires AllOpen(fs, rs)
    requires forall j :: 0 <= j < |rs| ==>
      host.makeParentDirs(Join(dir, rs[j].path)) == 0 && host.openForWrite(Join(dir, rs[j].path))
    requires var ss := StampAll(fs, codecs, rs);
      forall i :: 0 <= i < |rs| ==> EntryBytes(a, base, ss, i, codecs) == Content(fs, rs[i])
    ensures var ss := StampAll(fs, codecs, rs);
      var ds, ts := AllEntryBytes(a, base, ss, codecs), Targets(dir, ss);
      && (forall j {:trigger EntryCheck(ds[j], ss[j], ts[j], codecs, host)} :: 0 <= j < |ss| ==>
            EntryCheck(ds[j], ss[j], ts[j], codecs, host).None?)
      && seq(|ss|, j requires 0 <= j < |ss| => Written(ts[j], ds[j]))
         == seq(|rs|, j requires 0 <= j < |rs| => Written(Join(dir, rs[j].path), Content(fs, rs[j])))
  {
  }

  /** Round trip: unpacking the archive `pack` writes for items `rs`
      (at least one, each with a path size that matches its path, each
      file present) writes every item, in item order, to `dir / path` with
      the content `pack` read for it, and ends without error; provided the
      compressor round-trips, the sizes fit the fields that store them, and
      the directories and files can be created. */
  lemma {:induction false} UnpackPacked(h0: LarHeader, rs: seq<TocRecord>, fs: Files, codecs: Codecs, dir: Path, host: Host)
    requires Lossless(codecs)
    requires h0.Valid()
    requires rs != [] && AllWellFormed(rs) && AllOpen(fs, rs)
    requires |codecs.compress(Serialize(StampAll(fs, codecs, rs)))| < TWO32
    requires forall j :: 0 <= j < |rs| ==> |Block(fs, codecs, rs[j])| < TWO64
    requires forall j :: 0 <= j < |rs| ==>
      host.makeParentDirs(Join(dir, rs[j].path)) == 0 && host.openForWrite(Join(dir, rs[j].path))
    ensures var ss := StampAll(fs, codecs, rs);
      var a := PackedArchive(PackedHeader(h0, ss, codecs), ss, PackedContent(fs, codecs, rs), codecs);
      && Readable(Some(a))
      && UnpackArchive(Some(a), dir, codecs, host)
         == Unpacked(seq(|rs|, j requires 0 <= j < |rs| => Written(Join(dir, rs[j].path), Content(fs, rs[j]))), None)
  {
    var ss := StampAll(fs, codecs, rs);
    var h := PackedHeader(h0, ss, codecs);
    var toc := Serialize(ss);
    var a := PackedArchive(h, ss, PackedContent(fs, codecs, rs), codecs);
    PackedFront(h, codecs.compress(toc), PackedContent(fs, codecs, rs));
    assert TocOf(a, codecs) == toc;
    StampAllWellFormed(fs, codecs, rs);
    TocWalkSerialized(ss);
    var base := ContentBase(h);
    UnpackArchiveLoop(a, h, toc, ss, dir, codecs, host);
    PackedEntries(a, base, fs, codecs, rs);
    PackedChecksPass(a, base, rs, fs, codecs, dir, host);
    AllPass(AllEntryBytes(a, base, ss, codecs), Targets(dir, ss), ss, codecs, host);
  }

  /** An archive `pack` writes for no items does not unpack to an empty
      directory: its TOC is empty, so the first decode of the do-while
      fails with EINVAL and nothing is written. */
  lemma {:induction false} UnpackEmptyPacked(h0: LarHeader, fs: Files, codecs: Codecs, dir: Path, host: Host)
    requires Lossless(codecs)
    requires h0.Valid()
    requires |codecs.compress(Serialize([]))| < TWO32
    ensures var a := PackedArchive(PackedHeader(h0, [], codecs), [], PackedContent(fs, codecs, []), codecs);
      && Readable(Some(a))
      && UnpackArchive(Some(a), dir, codecs, host) == Unpacked([], Some(Error(EINVAL, VectorTooSmall)))
  {
    var h := PackedHeader(h0, [], codecs);
    var toc := Serialize([]);
    PackedHeaderFields(h0, [], codecs);
    PackedFront(h, codecs.compress(toc), PackedContent(fs, codecs, []));
    assert toc == [];
    EmptyTocRejected();
  }
}
