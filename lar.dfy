/** The archive object `LAR`: a header and a list of items, with the
    operations that fill, read and write them. Each method is proved against
    the functions of modules `Archive`, `Packing` and `Unpacking`. */
module Engine {
  import opened Bytes
  import opened Errors
  import opened Ports
  import opened Toc
  import opened Header
  import opened Archive
  import opened Packing
  import opened Unpacking

  /** The size of the buffer `pack` copies the content section through. */
  const ChunkSize: nat := 4096

  /** A regular file found by the directory walk of `add`: its path, its
      size and its permission bits as the filesystem reports them. */
  datatype Entry = Entry(path: Path, size: u64, perms: u32)

  /** The copy at the end of `pack` of the content scratch file into the
      archive: content under 4096 bytes goes in one write; otherwise
      `len / 4096` writes of 4096 bytes and one of the remaining
      `len - (len / 4096) * 4096` bytes (possibly none). Together the
      writes are exactly the content. */
  method CopyChunked(content: seq<byte>) returns (chunks: seq<seq<byte>>)
    ensures Flatten(chunks) == content
    ensures |content| < ChunkSize ==> chunks == [content]
    ensures |content| >= ChunkSize ==>
      && |chunks| == |content| / ChunkSize + 1
      && (forall k :: 0 <= k < |chunks| - 1 ==> |chunks[k]| == ChunkSize)
      && |chunks[|chunks| - 1]| == |content| - (|content| / ChunkSize) * ChunkSize
  {
    if |content| < ChunkSize {
      chunks := [content];
      FlattenAppend([], content);
      return;
    }
    var n := |content| / ChunkSize;
    chunks := [];
    var i := 0;
    while i < n
      invariant 0 <= i <= n
      invariant |chunks| == i
      invariant forall k :: 0 <= k < i ==> |chunks[k]| == ChunkSize
      invariant Flatten(chunks) == content[..i * ChunkSize]
    {
      var chunk := content[i * ChunkSize..(i + 1) * ChunkSize];
      FlattenAppend(chunks, chunk);
      assert content[..i * ChunkSize] + chunk == content[..(i + 1) * ChunkSize];
      chunks := chunks + [chunk];
      i := i + 1;
    }
    var last := |content| - n * ChunkSize;
    var chunk := content[n * ChunkSize..n * ChunkSize + last];
    FlattenAppend(chunks, chunk);
    assert content[..n * ChunkSize] + chunk == content;
    chunks := chunks + [chunk];
  }

  /** The loop of `unpack` over the records `rs` of the TOC, the content
      section starting at `base`: each block is read right after the one
      before it and decompressed; its digest must match the record's, the
      parent directory of `dir / path` must be created and the file must
      open, or the loop stops with that error; otherwise the bytes are
      written there. */
  method UnpackEntries(archive: seq<byte>, base: nat, rs: seq<TocRecord>, dir: Path,
                       codecs: Codecs, host: Host)
    returns (written: seq<Written>, err: Option<Error>)
    ensures Unpacked(written, err)
            == UnpackFrom(AllEntryBytes(archive, base, rs, codecs), Targets(dir, rs), rs, 0, codecs, host)
  {
    var pos: nat := base;
    ghost var ds := AllEntryBytes(archive, base, rs, codecs);
    ghost var ts := Targets(dir, rs);
    written := [];
    for i := 0 to |rs|
      invariant pos == base + BlockStart(rs, i)
      invariant |written| == i
      invariant forall j {:trigger written[j]} :: 0 <= j < i ==> written[j] == Written(ts[j], ds[j])
      invariant forall j {:trigger EntryCheck(ds[j], rs[j], ts[j], codecs, host)} :: 0 <= j < i ==>
        EntryCheck(ds[j], rs[j], ts[j], codecs, host).None?
    {
      var w, e := UnpackEntry(archive, pos, rs[i], dir, codecs, host);
      assert w == Written(ts[i], ds[i]);
      assert e == EntryCheck(ds[i], rs[i], ts[i], codecs, host);
      if e.Some? {
        UnpackFromUpTo(ds, ts, rs, i, written, codecs, host);
        return written, e;
      }
      written := written + [w];
      pos := pos + rs[i].compressedSize;
    }
    UnpackFromUpTo(ds, ts, rs, |rs|, written, codecs, host);
    err := None;
  }

  /** One entry of `unpack`: `compressedSize` bytes read at `pos` and
      decompressed, bound for `dir / path`, and the first check they fail:
      a digest that differs from the record's, a parent directory that
      cannot be created, a file that does not open for writing. */
  method UnpackEntry(archive: seq<byte>, pos: nat, r: TocRecord, dir: Path, codecs: Codecs, host: Host)
    returns (w: Written, e: Option<Error>)
    ensures w == Written(Join(dir, r.path), codecs.decompress(ReadPadded(archive, pos, r.compressedSize)))
    ensures e.None? <==> codecs.digest(w.data) == r.hashsum && host.makeParentDirs(w.path) == 0 && host.openForWrite(w.path)
    ensures e == EntryCheck(w.data, r, w.path, codecs, host)
  {
    var block := ReadPadded(archive, pos, r.compressedSize);
    var data := codecs.decompress(block);
    var file := Join(dir, r.path);
    w := Written(file, data);
    if codecs.digest(data) != r.hashsum {
      return w, Some(Error(EILSEQ, CorruptArchive));
    }
    var code := host.makeParentDirs(file);
    if code != 0 {
      return w, Some(Error(DirError(code), CantCreateDirectory));
    }
    if !host.openForWrite(file) {
      return w, Some(Error(EACCES, CantUnpackFile));
    }
    e := None;
  }

  /** One item of `pack`: the file must open and its size must not
      exceed a third of the available memory; then `fsize` bytes are read
      from it, `calcHashSum` sets the item's digest, and the compressed
      bytes give the item's `compressedSize`. */
  method PackItem(item: TocItem, fs: Files, memAvail: nat, codecs: Codecs)
    returns (e: Option<Error>, compressed: seq<byte>)
    modifies item
    ensures e == ItemCheck(fs, memAvail, old(item.Record()))
    ensures e.Some? ==> item.Record() == old(item.Record())
    ensures e.None? ==>
      && old(item.Record()).path in fs
      && item.Record() == Stamp(fs, codecs, old(item.Record()))
      && compressed == Block(fs, codecs, old(item.Record()))
  {
    if item.relativePath !in fs {
      return Some(Error(EACCES, CantOpenFile)), [];
    }
    if item.fsize > memAvail / 3 {
      return Some(Error(ENOMEM, FileTooLarge)), [];
    }
    var buf := ReadPadded(fs[item.relativePath], 0, item.fsize);
    item.CalcHashSum(buf, codecs);
    compressed := codecs.compress(buf);
    item.compressedSize := Trunc64(|compressed|);
    e := None;
  }

  /** One round of the item loop of `pack`: item `i` of the distinct
      items `its`, of which the first `i` hold the records `rs` stamped and
      the rest hold `rs` untouched, is checked; if it passes it is
      stamped, and its digest is appended to the checksums and its block to
      the content. */
  method PackStep(its: seq<TocItem>, ghost idx: map<TocItem, nat>, ghost rs: seq<TocRecord>, i: nat,
                  fs: Files, memAvail: nat, codecs: Codecs, checksums: seq<byte>, content: seq<byte>)
    returns (e: Option<Error>, checksums': seq<byte>, content': seq<byte>)
    requires i < |its| == |rs| && i <= FirstRejected(fs, memAvail, rs)
    requires forall j {:trigger its[j]} :: 0 <= j < |its| ==> its[j] in idx && idx[its[j]] == j
    requires forall j :: 0 <= j < i ==> rs[j].path in fs
    requires forall j {:trigger its[j]} :: 0 <= j < |its| ==>
      its[j].Record() == if j < i then Stamp(fs, codecs, rs[j]) else rs[j]
    requires checksums == ChecksumsUpTo(fs, codecs, rs, i)
    requires content == ContentUpTo(fs, codecs, rs, i)
    modifies its[i]
    ensures e == ItemCheck(fs, memAvail, rs[i])
    ensures e.Some? ==>
      && i == FirstRejected(fs, memAvail, rs)
      && forall j {:trigger its[j]} :: 0 <= j < |its| ==>
           its[j].Record() == if j < i then Stamp(fs, codecs, rs[j]) else rs[j]
    ensures e.None? ==>
      && i + 1 <= FirstRejected(fs, memAvail, rs)
      && rs[i].path in fs
      && (forall j {:trigger its[j]} :: 0 <= j < |its| ==>
            its[j].Record() == if j <= i then Stamp(fs, codecs, rs[j]) else rs[j])
      && checksums' == ChecksumsUpTo(fs, codecs, rs, i + 1)
      && content' == ContentUpTo(fs, codecs, rs, i + 1)
  {
    var compressed;
    e, compressed := PackItem(its[i], fs, memAvail, codecs);
    checksums', content' := checksums + its[i].hashsum, content + compressed;
  }

  /** The item loop of `pack` over the distinct items `its`, whose
      records are `rs`: each item in turn is checked, read, digested and
      compressed, its digest appended to the checksums and its block to the
      content, until the first item that fails a check, at index `k`, whose
      error is returned. The items before it are stamped; the rest are
      untouched. */
  method PackItems(its: seq<TocItem>, ghost idx: map<TocItem, nat>, ghost rs: seq<TocRecord>,
                   fs: Files, memAvail: nat, codecs: Codecs)
    returns (err: Option<Error>, checksums: seq<byte>, content: seq<byte>, ghost k: nat)
    requires |its| == |rs|
    requires forall j {:trigger its[j]} :: 0 <= j < |its| ==> its[j] in idx && idx[its[j]] == j
    requires forall j {:trigger its[j]} :: 0 <= j < |its| ==> its[j].Record() == rs[j]
    modifies its
    ensures k == FirstRejected(fs, memAvail, rs)
    ensures err == (if k < |rs| then ItemCheck(fs, memAvail, rs[k]) else None)
    ensures forall j :: 0 <= j < k ==> rs[j].path in fs
    ensures forall j {:trigger its[j]} :: 0 <= j < |its| ==>
      its[j].Record() == if j < k then Stamp(fs, codecs, rs[j]) else rs[j]
    ensures err.None? ==>
      && k == |rs|
      && checksums == ChecksumsUpTo(fs, codecs, rs, k)
      && content == ContentUpTo(fs, codecs, rs, k)
  {
    checksums, content := [], [];
    var i := 0;
    while i < |its|
      invariant i <= |its| == |rs| && i <= FirstRejected(fs, memAvail, rs)
      invariant forall j :: 0 <= j < i ==> rs[j].path in fs
      invariant forall j {:trigger its[j]} :: 0 <= j < |its| ==>
        its[j].Record() == if j < i then Stamp(fs, codecs, rs[j]) else rs[j]
      invariant checksums == ChecksumsUpTo(fs, codecs, rs, i)
      invariant content == ContentUpTo(fs, codecs, rs, i)
    {
      var e;
      e, checksums, content := PackStep(its, idx, rs, i, fs, memAvail, codecs, checksums, content);
      if e.Some? {
        return e, checksums, content, i;
      }
      i := i + 1;
    }
    err, k := None, i;
  }

  /** The items `add` appends for the files `es`, in walk order. */
  function EntryRecords(es: seq<Entry>): (rs: seq<TocRecord>)
    ensures |rs| == |es|
    ensures forall k {:trigger rs[k]} :: 0 <= k < |es| ==> rs[k] == PathRecord(es[k].path, es[k].size, es[k].perms)
  {
    if es == [] then []
    else
      var e := es[|es| - 1];
      EntryRecords(es[..|es| - 1]) + [PathRecord(e.path, e.size, e.perms)]
  }

  /** The fields of the items `its`, in order. */
  function RecordsOf(its: seq<TocItem>): (rs: seq<TocRecord>)
    reads its
    ensures |rs| == |its|
  {
    if its == [] then [] else RecordsOf(its[..|its| - 1]) + [its[|its| - 1].Record()]
  }

  /** Record `i` of `RecordsOf(its)` holds the fields of item `i`. */
  lemma {:induction false} RecordsOfIndex(its: seq<TocItem>)
    ensures forall i {:trigger RecordsOf(its)[i]} :: 0 <= i < |its| ==> RecordsOf(its)[i] == its[i].Record()
  {
    if its != [] {
      RecordsOfIndex(its[..|its| - 1]);
    }
  }

  class Lar {
    var header: LarHeader
    var items: seq<TocItem>
    /** The position of each item in `items`. */
    ghost var index: map<TocItem, nat>

    /** Every item is an object of its own, at one position only: `add` and
        `read_toc` create a new one for each entry. */
    ghost predicate Valid()
      reads this`items, this`index
    {
      forall i {:trigger items[i]} :: 0 <= i < |items| ==> items[i] in index && index[items[i]] == i
    }

    /** The fields of the items, in order. */
    function Records(): (rs: seq<TocRecord>)
      reads this`items, items
      ensures |rs| == |items|
    {
      RecordsOf(items)
    }

    /** A new archive object: the default header and no items. */
    constructor()
      ensures header == DefaultHeader() && items == [] && Valid()
    {
      header := DefaultHeader();
      items := [];
      index := map[];
    }

    /** One more item at the end of `items`, at a position of its own. */
    method Append(item: TocItem)
      requires Valid() && item !in items
      modifies this`items, this`index
      ensures Valid() && items == old(items) + [item]
      ensures Records() == old(Records()) + [item.Record()]
    {
      items := items + [item];
      index := index[item := |items| - 1];
    }

    /** `add`, given the regular files the directory walk finds: one item
        per file, made by the path constructor, appended in walk order. */
    method Add(entries: seq<Entry>)
      requires Valid()
      modifies this
      ensures Valid() && header == old(header)
      ensures |items| == old(|items|) + |entries| && items[..old(|items|)] == old(items)
      ensures forall k :: old(|items|) <= k < |items| ==> fresh(items[k])
      ensures Records() == old(Records()) + EntryRecords(entries)
    {
      ghost var n0 := |items|;
      for k := 0 to |entries|
        invariant Valid() && header == old(header)
        invariant |items| == n0 + k && items[..n0] == old(items)
        invariant forall m :: n0 <= m < |items| ==> fresh(items[m])
        invariant Records() == old(Records()) + EntryRecords(entries[..k])
      {
        AddEntry(entries[k]);
        assert entries[..k + 1][..k] == entries[..k];
      }
      assert entries[..|entries|] == entries;
    }

    /** `push_back` of a new item made by the path constructor. */
    method AddEntry(e: Entry)
      requires Valid()
      modifies this
      ensures Valid() && header == old(header)
      ensures |items| == old(|items|) + 1 && items == old(items) + [items[old(|items|)]]
      ensures fresh(items[old(|items|)])
      ensures Records() == old(Records()) + [PathRecord(e.path, e.size, e.perms)]
    {
      var item := new TocItem.FromPath(e.path, e.size, e.perms);
      Append(item);
    }

    /** `push_back` of a new item made by the decoding constructor. */
    method Push(r: TocRecord)
      requires Valid()
      modifies this
      ensures Valid() && header == old(header)
      ensures |items| == old(|items|) + 1 && items == old(items) + [items[old(|items|)]]
      ensures fresh(items[old(|items|)])
      ensures Records() == old(Records()) + [r]
    {
      var item := new TocItem.FromRecord(r);
      Append(item);
    }

    /** `read_toc`: an archive that does not open gives `false` and no
        items. Otherwise the header is read from the first 48 bytes, the TOC
        is decompressed from the `TOCCompressedSize` bytes after it, and its
        records are decoded by `DecodeItems`. */
    method ReadToc(archive: Option<seq<byte>>, codecs: Codecs) returns (r: Result<bool>)
      requires Readable(archive)
      modifies this
      ensures Valid()
      ensures archive.None? ==> r == Ok(false) && items == [] && header == old(header)
      ensures archive.Some? ==>
        var toc := TocOf(archive.value, codecs);
        var w := TocWalk(toc, 0);
        && header == DecodeHeader(archive.value)
        && Records() == TocRecords(toc)
        && r == (if w.error.None? then Ok(true) else Err(w.error.value))
    {
      items := [];
      index := map[];
      if archive.None? {
        return Ok(false);
      }
      var a := archive.value;
      header := DecodeHeader(a);
      var compressed := ReadPadded(a, HeaderSize, header.tocCompressedSize);
      var toc := codecs.decompress(compressed);
      var err := DecodeItems(toc);
      r := if err.None? then Ok(true) else Err(err.value);
    }

    /** The do-while loop of `read_toc`: decode a record at offset 0, push
        it, and move on by `56 + path_size` (the corrected step, without
        32-bit wrap-around), while the offset is below the size of the
        decompressed TOC; a failing decode ends the loop with
        the decoder's error, keeping the items pushed before it. */
    method DecodeItems(toc: seq<byte>) returns (err: Option<Error>)
      requires items == []
      modifies this
      ensures Valid() && header == old(header)
      ensures Records() == TocRecords(toc)
      ensures err == TocWalk(toc, 0).error
    {
      var offset: nat := 0;
      ghost var visited: seq<nat> := [];
      while true
        invariant Valid() && header == old(header)
        invariant var w, rest := TocWalk(toc, 0), TocWalk(toc, offset);
          w == Walk(visited + rest.offsets, rest.end, rest.error)
        invariant AllFit(toc, visited) && Records() == WalkRecords(toc, visited)
        decreases |toc| - offset
      {
        var e := DecodeEntry(toc, offset);
        DecodeEntryFails(toc, offset);
        TocWalkTurn(toc, visited, offset);
        if e.Err? {
          TocRecordsAt(toc, visited);
          return Some(e.error);
        }
        WalkRecordsAppend(toc, visited, offset);
        Push(e.value);
        visited := visited + [offset];
        offset := offset + e.value.pathSize + FixedSize;
        if offset >= |toc| {
          TocRecordsAt(toc, visited);
          return None;
        }
      }
    }

    /** `unpack`: the TOC is read as by `read_toc` (an archive that does not
        open fails with EINVAL "Can't read TOC"); then each item's block is
        read from the running position, starting right after the compressed
        TOC, decompressed and checked, and written to `dir / path`; the
        first entry that fails stops it. */
    method Unpack(archive: Option<seq<byte>>, dir: Path, codecs: Codecs, host: Host)
      returns (written: seq<Written>, err: Option<Error>)
      requires Readable(archive)
      modifies this
      ensures Unpacked(written, err) == UnpackArchive(archive, dir, codecs, host)
      ensures Valid()
      ensures archive.None? ==> items == [] && header == old(header)
      ensures archive.Some? ==>
        header == DecodeHeader(archive.value) && Records() == TocRecords(TocOf(archive.value, codecs))
    {
      var ok := ReadToc(archive, codecs);
      if ok.Ok? && !ok.value {
        return [], Some(Error(EINVAL, CantReadToc));
      }
      if ok.Err? {
        return [], Some(ok.error);
      }
      written, err := UnpackEntries(archive.value, ContentBase(header), Records(), dir, codecs, host);
    }

    /** The serialised TOC: every item's dump, in item order. */
    method SerializeItems() returns (toc: seq<byte>)
      ensures toc == Serialize(Records())
    {
      toc := [];
      RecordsOfIndex(items);
      for j := 0 to |items|
        invariant toc == SerializePrefix(Records(), j)
      {
        toc := toc + Dump(items[j].Record());
      }
    }

    /** The first part of `pack`: the item count goes into the header,
        then the item loop runs on this archive's items; see `PackItems`. */
    method StampItems(fs: Files, memAvail: nat, codecs: Codecs)
      returns (err: Option<Error>, checksums: seq<byte>, content: seq<byte>)
      requires Valid()
      modifies this`header, items
      ensures header == old(header).(tocItems := Trunc32(|old(Records())|))
      ensures var rs := old(Records());
        err.None? <==> FirstRejected(fs, memAvail, rs) == |rs|
      ensures var rs, k := old(Records()), FirstRejected(fs, memAvail, old(Records()));
        k < |rs| ==>
          && err == ItemCheck(fs, memAvail, rs[k])
          && Records() == StampAll(fs, codecs, rs[..k]) + rs[k..]
      ensures var rs := old(Records());
        FirstRejected(fs, memAvail, rs) == |rs| ==>
          && AllOpen(fs, rs)
          && Records() == StampAll(fs, codecs, rs)
          && checksums == Checksums(Records())
          && content == PackedContent(fs, codecs, rs)
    {
      ghost var rs := Records();
      header := header.(tocItems := Trunc32(|items|));
      assert Records() == rs;
      var its := items;
      ghost var k;
      RecordsOfIndex(its);
      err, checksums, content, k := PackItems(its, index, rs, fs, memAvail, codecs);
      RecordsOfIndex(its);
      StampedSplit(fs, codecs, rs, k, Records());
      if err.None? {
        assert rs[..k] == rs && rs[k..] == [];
        ChecksumsUpToStamped(fs, codecs, rs, k);
      }
    }

    /** The end of `pack` before the archive is written: the header gets
        the digest of the checksums, the size of the serialised TOC and the
        size of the compressed TOC, which is returned. */
    method Seal(checksums: seq<byte>, codecs: Codecs) returns (compressedToc: seq<byte>)
      requires checksums == Checksums(Records())
      requires header.tocItems == Trunc32(|items|)
      modifies this`header
      ensures header == PackedHeader(old(header), Records(), codecs)
      ensures compressedToc == codecs.compress(Serialize(Records()))
    {
      header := header.(hashsum := codecs.digest(checksums));
      var toc := SerializeItems();
      header := header.(tocSize := Trunc32(|toc|));
      compressedToc := codecs.compress(toc);
      header := header.(tocCompressedSize := Trunc32(|compressedToc|));
    }

    /** The end of `pack` once every item is stamped: `Seal`, then, if the
        output opens, the archive is the header, the compressed TOC and the
        content, copied in chunks. */
    method Finish(checksums: seq<byte>, content: seq<byte>, codecs: Codecs, outputOpens: bool)
      returns (r: Result<Option<seq<byte>>>)
      requires checksums == Checksums(Records())
      requires header.tocItems == Trunc32(|items|)
      modifies this`header
      ensures Records() == old(Records())
      ensures header == PackedHeader(old(header), Records(), codecs)
      ensures r == Ok(if outputOpens then Some(PackedArchive(header, Records(), content, codecs)) else None)
    {
      var compressedToc := Seal(checksums, codecs);
      if !outputOpens {
        return Ok(None);
      }
      var chunks := CopyChunked(content);
      var archive := EncodeHeader(header) + compressedToc + Flatten(chunks);
      return Ok(Some(archive));
    }

    /** `pack`: the item count goes into the header; then, item by item,
        the file must open and not be larger than a third of the available
        memory, its content is read, digested into the item and into the
        checksums, compressed, and its block appended to the content
        scratch file. The header then gets the digest of the checksums and
        the sizes of the serialised and compressed TOC, and, if the output
        opens, the archive is the header, the compressed TOC and the
        content, copied in chunks. */
    method Pack(fs: Files, memAvail: nat, codecs: Codecs, outputOpens: bool)
      returns (r: Result<Option<seq<byte>>>)
      requires Valid()
      modifies this, items
      ensures Valid() && items == old(items)
      ensures var rs := old(Records());
        var k := FirstRejected(fs, memAvail, rs);
        k < |rs| ==>
          && r == Err(ItemCheck(fs, memAvail, rs[k]).value)
          && Records() == StampAll(fs, codecs, rs[..k]) + rs[k..]
          && header == old(header).(tocItems := Trunc32(|rs|))
      ensures var rs := old(Records());
        FirstRejected(fs, memAvail, rs) == |rs| ==>
          && Records() == StampAll(fs, codecs, rs)
          && header == PackedHeader(old(header), Records(), codecs)
          && r == Ok(if outputOpens then Some(PackedArchive(header, Records(), PackedContent(fs, codecs, rs), codecs))
                     else None)
    {
      var err, checksums, content := StampItems(fs, memAvail, codecs);
      if err.Some? {
        return Err(err.value);
      }
      r := Finish(checksums, content, codecs, outputOpens);
    }
  }
}
