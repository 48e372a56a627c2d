/** What `LAR::unpack` does, as functions of the archive bytes: where the
    content section and each block start, the check each entry must pass,
    the files written in TOC order, and the error that stops it. */
module Unpacking {
  import opened Bytes
  import opened Errors
  import opened Ports
  import opened Toc
  import opened Header
  import opened Archive

  /** One file written by `unpack`: its path and its bytes. */
  datatype Written = Written(path: Path, data: seq<byte>)

  /** The files `unpack` wrote, in order, and the error that stopped it. */
  datatype Unpacked = Unpacked(written: seq<Written>, error: Option<Error>)

  /** Where the content section starts: right after the header and the
      compressed TOC. */
  function ContentBase(h: LarHeader): nat
  {
    HeaderSize + h.tocCompressedSize
  }

  /** `Σ_{j<n} compressedSize_j`: where block `n` starts within the content
      section, since the blocks are read one after the other. */
  function BlockStart(rs: seq<TocRecord>, n: nat): nat
    requires n <= |rs|
  {
    if n == 0 then 0 else BlockStart(rs, n - 1) + rs[n - 1].compressedSize
  }

  /** The bytes `unpack` decompresses entry `i` to: `compressedSize` bytes
      read (unchecked, into a zeroed buffer) at the block's position. */
  function EntryBytes(archive: seq<byte>, base: nat, rs: seq<TocRecord>, i: nat, codecs: Codecs): seq<byte>
    requires i < |rs|
  {
    codecs.decompress(ReadPadded(archive, base + BlockStart(rs, i), rs[i].compressedSize))
  }

  /** The unpacked bytes of every entry, in TOC order. */
  function AllEntryBytes(archive: seq<byte>, base: nat, rs: seq<TocRecord>, codecs: Codecs): (ds: seq<seq<byte>>)
    ensures |ds| == |rs|
    ensures forall i {:trigger ds[i]} :: 0 <= i < |rs| ==> ds[i] == EntryBytes(archive, base, rs, i, codecs)
  {
    seq(|rs|, i requires 0 <= i < |rs| => EntryBytes(archive, base, rs, i, codecs))
  }

  /** The checks an entry passes before its file is written, in order: the
      digest of the unpacked bytes must equal the recorded one, the parent
      directory must be created, and the file must open and take the write. */
  function EntryCheck(data: seq<byte>, r: TocRecord, file: Path, codecs: Codecs, host: Host): (e: Option<Error>)
    ensures e.None? <==> codecs.digest(data) == r.hashsum && host.makeParentDirs(file) == 0 && host.openForWrite(file)
    ensures codecs.digest(data) != r.hashsum ==> e == Some(Error(EILSEQ, CorruptArchive))
  {
    if codecs.digest(data) != r.hashsum then Some(Error(EILSEQ, CorruptArchive))
    else if host.makeParentDirs(file) != 0 then
      Some(Error(DirError(host.makeParentDirs(file)), CantCreateDirectory))
    else if !host.openForWrite(file) then Some(Error(EACCES, CantUnpackFile))
    else None
  }

  /** The file each entry is unpacked to: `dir / relativePath`. */
  function Targets(dir: Path, rs: seq<TocRecord>): (fs: seq<Path>)
    ensures |fs| == |rs|
    ensures forall i {:trigger fs[i]} :: 0 <= i < |rs| ==> fs[i] == Join(dir, rs[i].path)
  {
    seq(|rs|, i requires 0 <= i < |rs| => Join(dir, rs[i].path))
  }

  /** The loop of `unpack` from entry `i` on, given the unpacked bytes
      `ds` of every entry and the file `fs` each goes to: each entry that
      passes its checks is written; the first that fails stops the loop
      with its error. */
  function UnpackFrom(ds: seq<seq<byte>>, fs: seq<Path>, rs: seq<TocRecord>, i: nat,
                      codecs: Codecs, host: Host): Unpacked
    requires |ds| == |rs| && |fs| == |rs| && i <= |rs|
    decreases |rs| - i
  {
    if i == |rs| then Unpacked([], None)
    else
      match EntryCheck(ds[i], rs[i], fs[i], codecs, host)
      case Some(e) => Unpacked([], Some(e))
      case None =>
        var u := UnpackFrom(ds, fs, rs, i + 1, codecs, host);
        Unpacked([Written(fs[i], ds[i])] + u.written, u.error)
  }

  /** The decompressed TOC: `TOCCompressedSize` bytes read (unchecked)
      right after the header. */
  function TocOf(archive: seq<byte>, codecs: Codecs): seq<byte>
    requires |archive| >= HeaderSize
  {
    codecs.decompress(ReadPadded(archive, HeaderSize, DecodeHeader(archive).tocCompressedSize))
  }

  /** What `read_toc` demands of an archive that opens: a full header (a
      short read fails an assertion) that is valid (another assertion). */
  predicate Readable(archive: Option<seq<byte>>)
  {
    archive.Some? ==> |archive.value| >= HeaderSize && DecodeHeader(archive.value).Valid()
  }

  /** `unpack` as a whole: an archive that does not open fails with EINVAL;
      a TOC that does not decode fails with the decoder's error; otherwise
      the entries are unpacked in TOC order. */
  function UnpackArchive(archive: Option<seq<byte>>, dir: Path, codecs: Codecs, host: Host): Unpacked
    requires Readable(archive)
  {
    match archive
    case None => Unpacked([], Some(Error(EINVAL, CantReadToc)))
    case Some(a) =>
      var toc := TocOf(a, codecs);
      var w := TocWalk(toc, 0);
      if w.error.Some? then Unpacked([], w.error)
      else
        var rs := TocRecords(toc);
        UnpackFrom(AllEntryBytes(a, ContentBase(DecodeHeader(a)), rs, codecs), Targets(dir, rs), rs, 0, codecs, host)
  }

  // ---------------------------------------------------------------------
  // Properties

  /** `unpack` writes entries in TOC order, each to `dir / relativePath`
      with the bytes unpacked from its block, and only entries that passed
      their checks: in particular the digest of every file written is the
      one recorded in the TOC. */
  lemma {:induction false} UnpackFromWritten(ds: seq<seq<byte>>, fs: seq<Path>, rs: seq<TocRecord>, i: nat,
      codecs: Codecs, host: Host)
    requires |ds| == |rs| && |fs| == |rs| && i <= |rs|
    ensures var u := UnpackFrom(ds, fs, rs, i, codecs, host);
      && i + |u.written| <= |rs|
      && forall j {:trigger u.written[j]} :: 0 <= j < |u.written| ==>
           && u.written[j] == Written(fs[i + j], ds[i + j])
           && EntryCheck(u.written[j].data, rs[i + j], u.written[j].path, codecs, host).None?
           && codecs.digest(u.written[j].data) == rs[i + j].hashsum
    decreases |rs| - i
  {
    if i < |rs| {
      var data := ds[i];
      var file := fs[i];
      var u := UnpackFrom(ds, fs, rs, i, codecs, host);
      if EntryCheck(data, rs[i], file, codecs, host).None? {
        UnpackFromWritten(ds, fs, rs, i + 1, codecs, host);
        var u' := UnpackFrom(ds, fs, rs, i + 1, codecs, host);
        assert u.written == [Written(file, data)] + u'.written;
        forall j | 0 <= j < |u.written|
          ensures u.written[j] == Written(fs[i + j], ds[i + j])
          ensures EntryCheck(u.written[j].data, rs[i + j], u.written[j].path, codecs, host).None?
        {
          if j > 0 {
            assert u.written[j] == u'.written[j - 1];
          }
        }
      } else {
        assert u.written == [];
      }
    }
  }

  /** `unpack` writes every entry if and only if none fails; when one
      fails, it is the entry right after the written ones, the loop stops
      with that entry's own error, and nothing after it is written. */
  lemma {:induction false} UnpackFromStops(ds: seq<seq<byte>>, fs: seq<Path>, rs: seq<TocRecord>, i: nat,
      codecs: Codecs, host: Host)
    requires |ds| == |rs| && |fs| == |rs| && i <= |rs|
    ensures var u := UnpackFrom(ds, fs, rs, i, codecs, host);
      && i + |u.written| <= |rs|
      && (u.error.None? <==> i + |u.written| == |rs|)
      && (u.error.Some? ==>
            var k := i + |u.written|;
            u.error == EntryCheck(ds[k], rs[k], fs[k], codecs, host))
    decreases |rs| - i
  {
    if i < |rs| {
      var data := ds[i];
      var file := fs[i];
      var u := UnpackFrom(ds, fs, rs, i, codecs, host);
      if EntryCheck(data, rs[i], file, codecs, host).None? {
        UnpackFromStops(ds, fs, rs, i + 1, codecs, host);
        var u' := UnpackFrom(ds, fs, rs, i + 1, codecs, host);
        assert u.written == [Written(file, data)] + u'.written && u.error == u'.error;
        var k := i + |u.written|;
        assert k == i + 1 + |u'.written|;
      } else {
        assert u == Unpacked([], EntryCheck(data, rs[i], file, codecs, host));
      }
    }
  }

  /** One turn of the loop: an entry that fails its checks stops it with
      that error and writes nothing; one that passes is written first. */
  lemma {:induction false} UnpackFromStep(ds: seq<seq<byte>>, fs: seq<Path>, rs: seq<TocRecord>, i: nat,
      codecs: Codecs, host: Host)
    requires |ds| == |rs| && |fs| == |rs| && i < |rs|
    ensures var e, u := EntryCheck(ds[i], rs[i], fs[i], codecs, host), UnpackFrom(ds, fs, rs, i, codecs, host);
      e.Some? ==> u == Unpacked([], e)
    ensures var e, u := EntryCheck(ds[i], rs[i], fs[i], codecs, host), UnpackFrom(ds, fs, rs, i, codecs, host);
      var u' := UnpackFrom(ds, fs, rs, i + 1, codecs, host);
      e.None? ==> u == Unpacked([Written(fs[i], ds[i])] + u'.written, u'.error)
  {
  }

  /** The loop from entry `i` on, when entries `i..k-1` pass their checks
      and entry `k` is either the end or the first that fails: it writes
      exactly those entries, in order, and stops with entry `k`'s error or
      with none. */
  lemma {:induction false} UnpackFromRun(ds: seq<seq<byte>>, fs: seq<Path>, rs: seq<TocRecord>, i: nat, k: nat,
      codecs: Codecs, host: Host)
    requires |ds| == |rs| && |fs| == |rs| && i <= k <= |rs|
    requires forall j {:trigger EntryCheck(ds[j], rs[j], fs[j], codecs, host)} :: i <= j < k ==>
      EntryCheck(ds[j], rs[j], fs[j], codecs, host).None?
    requires k < |rs| ==> EntryCheck(ds[k], rs[k], fs[k], codecs, host).Some?
    ensures var u := UnpackFrom(ds, fs, rs, i, codecs, host);
      && |u.written| == k - i
      && (forall j {:trigger u.written[j]} :: 0 <= j < k - i ==> u.written[j] == Written(fs[i + j], ds[i + j]))
      && u.error == (if k < |rs| then EntryCheck(ds[k], rs[k], fs[k], codecs, host) else None)
    decreases k - i
  {
    if i < k {
      assert EntryCheck(ds[i], rs[i], fs[i], codecs, host).None?;
      UnpackFromRun(ds, fs, rs, i + 1, k, codecs, host);
      var u, u' := UnpackFrom(ds, fs, rs, i, codecs, host), UnpackFrom(ds, fs, rs, i + 1, codecs, host);
      assert u.written == [Written(fs[i], ds[i])] + u'.written && u.error == u'.error;
      forall j | 0 <= j < k - i
        ensures u.written[j] == Written(fs[i + j], ds[i + j])
      {
        if j > 0 {
          assert u.written[j] == u'.written[j - 1];
        }
      }
    }
  }

  /** The loop as a whole: when entries `0..k-1` pass their checks and
      entry `k` is either the end or the first that fails, `unpack` writes
      exactly those `k` entries, in order, and stops with entry `k`'s error
      or with none. */
  lemma {:induction false} UnpackFromUpTo(ds: seq<seq<byte>>, fs: seq<Path>, rs: seq<TocRecord>, k: nat,
      written: seq<Written>, codecs: Codecs, host: Host)
    requires |ds| == |rs| && |fs| == |rs| && k <= |rs|
    requires forall j {:trigger EntryCheck(ds[j], rs[j], fs[j], codecs, host)} :: 0 <= j < k ==>
      EntryCheck(ds[j], rs[j], fs[j], codecs, host).None?
    requires k < |rs| ==> EntryCheck(ds[k], rs[k], fs[k], codecs, host).Some?
    requires |written| == k && forall j {:trigger written[j]} :: 0 <= j < k ==> written[j] == Written(fs[j], ds[j])
    ensures UnpackFrom(ds, fs, rs, 0, codecs, host)
            == Unpacked(written, if k < |rs| then EntryCheck(ds[k], rs[k], fs[k], codecs, host) else None)
  {
    UnpackFromRun(ds, fs, rs, 0, k, codecs, host);
    var u := UnpackFrom(ds, fs, rs, 0, codecs, host);
    assert forall j :: 0 <= j < k ==> u.written[j] == written[j];
  }

  /** A digest mismatch at entry `k`, after entries `i..k-1` that all
      pass, stops the loop with EILSEQ once it has written exactly those
      entries. */
  lemma {:induction false} FirstMismatchAborts(ds: seq<seq<byte>>, fs: seq<Path>, rs: seq<TocRecord>, i: nat, k: nat,
      codecs: Codecs, host: Host)
    requires |ds| == |rs| && |fs| == |rs| && i <= k < |rs|
    requires forall j {:trigger EntryCheck(ds[j], rs[j], fs[j], codecs, host)} :: i <= j < k ==>
      EntryCheck(ds[j], rs[j], fs[j], codecs, host).None?
    requires codecs.digest(ds[k]) != rs[k].hashsum
    ensures var u := UnpackFrom(ds, fs, rs, i, codecs, host);
      |u.written| == k - i && u.error == Some(Error(EILSEQ, CorruptArchive))
    decreases k - i
  {
    if i < k {
      FirstMismatchAborts(ds, fs, rs, i + 1, k, codecs, host);
    }
  }

  /** An archive that does not open fails with EINVAL "Can't read TOC" and
      writes nothing; a TOC that does not decode writes nothing either. */
  lemma {:induction false} UnpackArchiveFails(archive: Option<seq<byte>>, dir: Path, codecs: Codecs, host: Host)
    requires Readable(archive)
    ensures archive.None? ==> UnpackArchive(archive, dir, codecs, host) == Unpacked([], Some(Error(EINVAL, CantReadToc)))
    ensures archive.Some? && TocWalk(TocOf(archive.value, codecs), 0).error.Some? ==>
      UnpackArchive(archive, dir, codecs, host).written == []
  {
  }
}
