/** The collaborators the archive engine calls but whose insides are not part
    of this model: the compressor, the SHA-256 digest, and the filesystem. */
module Ports {
  import opened Bytes

  /** A SHA-256 value: 32 bytes. */
  type Digest = s: seq<byte> | |s| == 32 witness Zeros(32)

  /** The all-zero digest a freshly constructed header or item holds. */
  const ZeroDigest: Digest := Zeros(32)

  /** The bzip2 compressor and the SHA-256 function, as black boxes. */
  datatype Codecs = Codecs(
    compress: seq<byte> -> seq<byte>,
    decompress: seq<byte> -> seq<byte>,
    digest: seq<byte> -> Digest)

  /** The only property of the compressor the archive relies on. */
  ghost predicate Lossless(p: Codecs)
  {
    forall x :: p.decompress(p.compress(x)) == x
  }

  /** A path, as the bytes of its UTF-8 form. */
  type Path = seq<byte>

  /** The regular files on disk, by path. */
  type Files = map<Path, seq<byte>>

  /** What the filesystem answers when the engine writes: `makeParentDirs(f)`
      is the error code `create_directories` reports for the parent directory
      of `f` (0 for success), `openForWrite(f)` whether an output stream on
      `f` opens and its write does not go bad. */
  datatype Host = Host(makeParentDirs: Path -> nat, openForWrite: Path -> bool)

  const Slash: byte := 0x2F

  /** `dir / rel` of the Filesystem TS (`std::experimental::filesystem`):
      `rel` is always appended to `dir`, with one separator in between
      unless `dir` is empty or already ends in one, or `rel` is empty or
      already starts with one. An absolute `rel` does not replace `dir`. */
  function Join(dir: Path, rel: Path): (r: Path)
    ensures |rel| > 0 && rel[0] == Slash ==> r == dir + rel
    ensures dir == [] ==> r == rel
    ensures rel == [] ==> r == dir
  {
    if dir == [] || dir[|dir| - 1] == Slash || rel == [] || rel[0] == Slash then dir + rel
    else dir + [Slash] + rel
  }

  /** `dir / rel` lies under `dir`: it begins with `dir`, ends in `rel`,
      and between them holds at most the one separator the append adds. */
  lemma {:induction false} JoinUnderDir(dir: Path, rel: Path)
    ensures var r := Join(dir, rel);
      && |dir| + |rel| <= |r| <= |dir| + |rel| + 1
      && r[..|dir|] == dir
      && r[|r| - |rel|..] == rel
      && (|r| == |dir| + |rel| + 1 ==> r[|dir|] == Slash)
      && (|r| == |dir| + |rel| + 1 <==>
            dir != [] && dir[|dir| - 1] != Slash && rel != [] && rel[0] != Slash)
  {
    var r := Join(dir, rel);
    if !(dir == [] || dir[|dir| - 1] == Slash || rel == [] || rel[0] == Slash) {
      assert r == dir + ([Slash] + rel);
    }
  }
}
