# LAR archive codec, modelled in Dafny

LAR packs a list of files into one container: a 48-byte header, a compressed
table of contents (TOC), then each file's compressed content block. `unpack`
reads the TOC back, finds each block by the running sum of the
`compressedSize` fields, checks each file's SHA-256 digest, and writes the
file under the target directory. The first mismatch stops it.

The model covers the core of `TOC.h` and `LAR.h`:

- `bytes.dfy` (`Bytes`): bytes, `uint32_t` and `size_t` values, 32-bit and
  64-bit truncation, and the little-endian encoding used in place of the
  native `memcpy` struct layout. It also has the zero-padded result of an
  unchecked read.
- `errors.dfy` (`Errors`): the `std::system_error` exceptions as values, plus
  `Option` and `Result`.
- `ports.dfy` (`Ports`): the compressor, decompressor and SHA-256 as
  function-valued fields of `Codecs`, a parameter of `pack` and `unpack`.
  `Lossless` is the one property assumed of the compressor: `decompress(compress(x)) == x`. The filesystem is a map from path
  to bytes, plus a `Host` that answers whether a directory can be created and
  a file opened. `dir / rel` is modelled as a function on paths.
- `header.dfy` (`Header`): `LARHeader`, its defaults, `valid()`, and its
  48-byte wire form.
- `toc.dfy` (`Toc`): the 56-byte-prefix record codec (`dump` and the decoding
  constructor), plus the `TocItem` class with its two constructors and
  `calcHashSum`.
- `archive.dfy` (`Archive`): the serialised TOC and the `read_toc` walk, as
  functions, with lemmas.
- `packing.dfy`, `unpacking.dfy` (`Packing`, `Unpacking`): what `pack` and
  `unpack` compute, as functions of the items, the files, the archive bytes
  and the collaborators, with lemmas.
- `roundtrip.dfy` (`RoundTrip`): the archive `pack` writes unpacks to the
  contents `pack` read.
- `lar.dfy` (`Engine`): the `LAR` object as a class with `header` and `items`
  fields. Its methods `Add`, `ReadToc`, `Unpack` and `Pack` are imperative:
  the do-while TOC loop, the item loop of `pack` that stamps items in place,
  the unpack loop with a running position, and the 4096-byte chunked copy.
  Each is proved against the functions of the modules above.

Three behaviours of the code are easy to miss; the model keeps them:

- The TOC walk stops when the offset reaches the size of the *decompressed*
  TOC, not the header's `TOCSize` (LAR.h:90).
- The walk is a do-while, so an archive with no items fails to unpack: the
  first decode at offset 0 finds fewer than 56 bytes and throws EINVAL
  (`Archive.EmptyTocRejected`). An empty archive does not unpack to an empty
  directory (`RoundTrip.UnpackEmptyPacked`).
- `unpack` never restores permissions, and never re-checks the aggregate
  digest, so nothing of either is modelled.

In one place the model departs from the code on purpose. `read_toc` computes
its step `path_size + 56` in 32-bit unsigned arithmetic (LAR.h:89), which
wraps for `path_size >= 2^32 - 56` (see "Findings"). The walk `TocWalk`, and
the loop `DecodeItems` proved against it, take the corrected step `After`
instead. The two steps agree whenever `path_size + 56 < 2^32`
(`Archive.StepAsWrittenAgrees`).

## Model

| member | source | states |
|---|---|---|
| Bytes.Trunc32 | LAR.h:163 | storing a count or size in a `uint32_t` field gives a value below 2^32 that equals the count whenever the count fits |
| Bytes.Trunc64 | LAR.h:205 | storing a length in a `size_t` field gives a value below 2^64 that equals the length whenever it fits |
| Bytes.Decode32Encode32 | TOC.h:57 | the four little-endian bytes of a `uint32_t` decode back to it at any position of any buffer |
| Bytes.Encode32Decode32 | TOC.h:79 | re-encoding a decoded `uint32_t` gives back exactly the four bytes it was read from |
| Bytes.Decode64Encode64 | TOC.h:57 | the eight little-endian bytes of a `size_t` decode back to it at any position |
| Bytes.Encode64Decode64 | TOC.h:79 | re-encoding a decoded `size_t` gives back exactly its eight bytes |
| Bytes.ReadPadded | LAR.h:117-118 | an unchecked read of `n` bytes into a zeroed buffer has length `n`; it holds the file's bytes where the file has them and zeros past its end, and is exactly the slice when the read is in bounds |
| Bytes.ReadInSuffix | LAR.h:113-118 | reading inside the region that starts at `base` returns the matching slice of that region |
| Ports.Join | LAR.h:126 | `p / relativePath` of the Filesystem TS: `rel` is appended to `dir` even when it starts with a separator; an empty `dir` gives `rel` and an empty `rel` gives `dir` |
| Ports.JoinUnderDir | LAR.h:126 | `dir / rel` begins with `dir` and ends with `rel`, with at most one separator between them; that separator is added exactly when `dir` and `rel` are non-empty and neither has a separator at the join |
| Header.ValidIff | LAR.h:37-42 | `valid()` holds exactly when the magic is "LAR" and the version is 1 |
| Header.DefaultHeader | LAR.h:34-35 | a default header is valid, with all sizes and every digest byte zero |
| Header.EncodeHeader | LAR.h:258 | the header's wire form is 48 bytes long |
| Header.DecodeHeader | LAR.h:72 | the header read from the first 48 bytes re-encodes to exactly those bytes |
| Header.HeaderRoundTrip | LAR.h:72 | reading the header back from an archive that starts with an encoded header gives that header, whatever follows |
| Toc.EncodeFixed | TOC.h:79 | the fixed prefix is 56 bytes |
| Toc.Dump | TOC.h:76-81 | `dump` writes `56 + |path|` bytes |
| Toc.DumpLayout | TOC.h:76-81 | `dump` holds fsize, compressedSize, path_size, permissions and hashsum at offsets 0, 8, 16, 20 and 24, then the path bytes unchanged |
| Toc.DecodeEntry | TOC.h:52-66 | a successful decode ends inside the buffer; every failure is EINVAL "vector is too small" |
| Toc.DecodeEntryFails | TOC.h:54-60 | decoding fails with EINVAL when fewer than 56 bytes remain and again when the declared path runs past the end; it succeeds exactly when both checks pass, with the record at that offset |
| Toc.DecodeEntrySpec | TOC.h:57-65 | a decoded record's fixed fields are the 56 bytes at `offset` in declaration order; its path is exactly the `path_size` bytes after them, and its path size matches its path |
| Toc.DecodeDump | TOC.h:52-81 | decoding `dump(r)` at any offset inside a larger buffer gives `r` back, when `path_size == |path|` |
| Toc.DumpInjective | TOC.h:76-81 | two well-formed records with the same dump are equal |
| Toc.PathRecord | TOC.h:43-50 | the record the path constructor makes: the reported size and permissions, `compressedSize` 0, a zero digest, and the path's byte length in 32 bits, which matches the path exactly when the path is under 2^32 bytes |
| Toc.TocItem.FromPath | TOC.h:43-50 | the path constructor's item holds `PathRecord` of its path, size and permissions, so a path under 2^32 bytes gives a well-formed record |
| Toc.TocItem.FromRecord | TOC.h:52-66 | the decoding constructor's item holds exactly the decoded fields |
| Toc.TocItem.CalcHashSum | TOC.h:71-75 | `calcHashSum` sets the digest of the content and changes no other field |
| Archive.Serialize | LAR.h:230-238 | the TOC `pack` builds: every record's dump, in item order; its length is `SerializeLength`, its layout `SerializeSplit`, and it walks back to its records by `TocWalkSerialized` |
| Archive.SerializeLength | LAR.h:232-239 | the serialised TOC is `Σ (56 + path_size)` bytes long |
| Archive.SerializePrefixOf | LAR.h:232-238 | the TOC after fewer items is a prefix of the TOC after more |
| Archive.SerializeSplit | LAR.h:232-238 | the serialised TOC is the dumps before item `i`, then dump `i`, then the rest |
| Archive.SerializedDecodesAt | LAR.h:87-89 | in the serialised TOC of well-formed records, record `i` decodes at `Σ_{j<i} (56 + path_size_j)` |
| Archive.TocSpanGrows | LAR.h:89 | each further record advances the walk by at least 56 bytes |
| Archive.After | LAR.h:89 | the walk's next offset is at least 56 bytes further on, and stays inside the TOC after a record that fits |
| Archive.StepAsWritten | LAR.h:89 | the step computed in 32-bit arithmetic equals `path_size + 56` whenever that sum fits in 32 bits |
| Archive.StepAsWrittenAgrees | LAR.h:89 | whenever `path_size + 56` fits in 32 bits, the step as written lands where the corrected step `After` does |
| Archive.StepAsWrittenStalls | LAR.h:89 | a record with `path_size == 2^32 - 56` in a TOC of at least 4 GiB passes both checks, yet the step as written leaves the offset unchanged |
| Archive.TocWalk | LAR.h:85-90 | the do-while walk of `read_toc`, with the corrected step: the offsets it decodes at, where it stops, and the decoder's error if one stopped it; pinned down by `TocWalkSteps`, `TocWalkEnd` and `TocWalkTurn` |
| Archive.WalkRecords | LAR.h:88 | each record of the walk is what the decoding constructor returns at its offset |
| Archive.WalkRecordsAppend | LAR.h:88 | decoding at one more offset appends that record |
| Archive.TocWalkSteps | LAR.h:85-90 | the walk visits offset 0 first, then always the end of the record it just decoded; every visited record decodes, and the walk stops where the last one ends |
| Archive.TocWalkEnd | LAR.h:87-90 | a walk without error decodes at least one record and ends exactly at the TOC's size; a failing walk fails with the decoder's error at the offset where it stopped |
| Archive.TocRecords | LAR.h:87-90 | the records `read_toc` pushes are one per visited offset, each the decoder's result there |
| Archive.TocRecordsAt | LAR.h:87-90 | the pushed records are the records at the visited offsets |
| Archive.TocWalkTurn | LAR.h:87-90 | one turn of the do-while: stop with EINVAL where the record does not fit, go on from `offset + 56 + path_size` while that is inside the TOC, otherwise stop after it |
| Archive.EmptyTocRejected | LAR.h:87-88 | an empty TOC fails at the first decode, with EINVAL |
| Archive.Boundaries | LAR.h:89 | record boundary `k` is `Σ_{j<i+k} (56 + path_size_j)` |
| Archive.TocWalkLaid | LAR.h:85-90 | walking a buffer that lays records out from a record boundary visits every later boundary and stops at the end without error |
| Archive.SerializeLays | LAR.h:232-238 | the TOC that `pack` serialises lays its records out back to back, each decoding at its boundary |
| Archive.BoundaryRecords | LAR.h:88 | where every record decodes at its boundary, the records read there are the original ones |
| Archive.TocWalkLaidRecords | LAR.h:85-90 | walking such a buffer reads back the records it lays out |
| Archive.TocWalkSerialized | LAR.h:85-90 | the TOC `pack` serialises walks back, without error, to the same records, when there is at least one |
| Packing.ItemCheck | LAR.h:182-224 | an item passes exactly when its file opens and its size is at most a third of available memory; otherwise the error is EACCES for a file that does not open, or ENOMEM for one too large |
| Packing.FirstRejected | LAR.h:180-226 | the loop stops at the first item that fails a check: every earlier item passes, and all of them open |
| Packing.Content | LAR.h:197-198 | `fsize` bytes are read from the file: its first `fsize` bytes when it has that many |
| Packing.Stamp | LAR.h:199-205 | a handled item gets the digest of its content and, when the length fits, the length of its compressed block; its other fields are unchanged |
| Packing.StampAll | LAR.h:180-226 | every item handled, in order |
| Packing.PackedHeader | LAR.h:228-242 | the header `pack` writes: the old header with the item count, the digest of the checksums and both TOC sizes, each size stored in 32 bits (`LAR.h:163` sets the count); its fields are stated by `PackedHeaderFields` |
| Packing.PackedArchive | LAR.h:254-325 | the archive bytes `pack` writes: the encoded header, the compressed TOC, then the content; `PackedFront` and `BlockReads` state where each part reads back |
| Packing.FirstRejectedIs | LAR.h:186-194 | if items before `k` pass and item `k` fails, the loop stops at `k`; an open file that is too large is rejected with ENOMEM |
| Packing.StampAllWellFormed | LAR.h:199-205 | handling items keeps their paths and their path sizes |
| Packing.ChecksumsLayout | LAR.h:200-201 | the checksums buffer has 32 bytes per item, with item `j`'s digest at `32 * j` |
| Packing.DigestsLength | LAR.h:200-201 | the first `n` digests take `32 * n` bytes |
| Packing.PackedHeaderFields | LAR.h:228-242 | the header `pack` writes is valid exactly when the one before it was; `hashsum` is the digest of the item digests in item order; `TOCItems == |items|`, `TOCSize == Σ (56 + path_size)` and `TOCCompressedSize == |compress(TOC)|` whenever each fits in 32 bits |
| Packing.StampedSplit | LAR.h:180-226 | items of which the first `k` are handled and the rest untouched are the handled prefix followed by the untouched rest |
| Packing.ChecksumsUpToStamped | LAR.h:199-201 | the checksums buffer after `i` items holds the digests of the handled items, in order |
| Packing.ContentPrefix | LAR.h:206 | the content file after more items begins with the content file after fewer |
| Packing.ContentAt | LAR.h:204-206 | item `i`'s block sits in the content file right after the blocks of the items before it |
| Unpacking.AllEntryBytes | LAR.h:115-120 | entry `i`'s bytes are its `compressedSize` bytes, read at its block position and decompressed |
| Unpacking.EntryCheck | LAR.h:122-151 | an entry is written exactly when its digest matches, its directory is created and its file opens; a digest mismatch is EILSEQ |
| Unpacking.Targets | LAR.h:126 | entry `i` goes to `dir / relativePath_i` |
| Unpacking.UnpackFrom | LAR.h:115-151 | the entry loop of `unpack` from entry `i`: entries that pass their checks are written in TOC order, and the first that fails stops it with its error; pinned down by `UnpackFromWritten`, `UnpackFromStops` and `UnpackFromRun` |
| Unpacking.TocOf | LAR.h:77-83 | the decompressed TOC: the `TOCCompressedSize` bytes read after the header, decompressed; `PackedFront` shows it reads back the compressed TOC `pack` wrote |
| Unpacking.UnpackArchive | LAR.h:104-156 | `unpack` as a whole: EINVAL when the archive does not open, the walk's error when the TOC does not decode, otherwise the entry loop from `48 + TOCCompressedSize`; stated by `UnpackArchiveFails`, `UnpackArchiveLoop` and `UnpackPacked` |
| Unpacking.UnpackFromWritten | LAR.h:115-151 | `unpack` writes entries in TOC order, each to its target with its unpacked bytes, and only those that passed their checks, so each written file has the digest recorded for it |
| Unpacking.UnpackFromStops | LAR.h:115-151 | `unpack` finishes without error exactly when it writes every entry; otherwise the error is that of the entry right after the written ones |
| Unpacking.UnpackFromStep | LAR.h:115-151 | an entry that fails stops the loop with its error and nothing written; one that passes is written before the rest |
| Unpacking.UnpackFromRun | LAR.h:115-151 | when entries `i..k-1` pass and entry `k` fails or is the end, exactly those entries are written, in order, with entry `k`'s error or none |
| Unpacking.UnpackFromUpTo | LAR.h:115-151 | the whole loop, from entry 0, under the same conditions |
| Unpacking.FirstMismatchAborts | LAR.h:124-150 | the first digest mismatch stops `unpack` with EILSEQ, after writing exactly the entries before it |
| Unpacking.UnpackArchiveFails | LAR.h:104-156 | an archive that does not open fails with EINVAL "Can't read TOC"; a TOC that does not decode writes nothing |
| RoundTrip.ContentStart | LAR.h:108-118 | when every `compressedSize` is its block's length, block `n` starts at the length of the first `n` blocks |
| RoundTrip.BlockReads | LAR.h:113-118 | reading `compressedSize` bytes at `48 + TOCCompressedSize + Σ_{j<i} compressedSize_j` gives back exactly block `i` |
| RoundTrip.PackedFront | LAR.h:72-79 | the header and the compressed TOC at the front of a packed archive read back as written, and the content starts at `48 + TOCCompressedSize` |
| RoundTrip.AllPass | LAR.h:115-151 | when every entry passes, all are written in order and the loop ends without error |
| RoundTrip.PackedEntries | LAR.h:115-124 | each entry of a packed archive unpacks to the content `pack` read for its item |
| RoundTrip.UnpackArchiveLoop | LAR.h:104-118 | once the TOC decodes, `unpack` is the loop over the decoded records, starting at `48 + TOCCompressedSize` |
| RoundTrip.PackedChecksPass | LAR.h:122-148 | every entry of a packed archive passes its checks, and goes to `dir / path` with the item's content |
| RoundTrip.UnpackPacked | LAR.h:104-332 | round trip: unpacking the archive `pack` writes for at least one item writes every item, in item order, to `dir / path` with the content `pack` read, and ends without error; this needs a lossless compressor, sizes that fit their fields, and directories and files that can be created |
| RoundTrip.UnpackEmptyPacked | LAR.h:85-90 | unpacking the archive `pack` writes for no items fails at the first decode of the do-while with EINVAL "vector is too small" and writes nothing |
| Engine.CopyChunked | LAR.h:285-325 | the chunked copy writes exactly the content: one write under 4096 bytes; otherwise `len / 4096` writes of 4096 bytes plus one of `len - (len / 4096) * 4096` |
| Engine.UnpackEntries | LAR.h:113-152 | the unpack loop with its running position returns the files written and the error of `UnpackFrom` |
| Engine.UnpackEntry | LAR.h:117-151 | one entry: the bytes read at the position and decompressed, bound for `dir / path`; it fails exactly on a digest mismatch, a directory not created or a file not opened |
| Engine.PackItem | LAR.h:182-205 | one item: the check result; a failing item is unchanged; a passing one is stamped, and its compressed block is returned |
| Engine.PackStep | LAR.h:180-226 | one round of the item loop keeps the loop invariant: handled prefix, untouched rest, checksums and content so far |
| Engine.PackItems | LAR.h:180-226 | the item loop stops at the first rejected item with its error, leaving the items before it handled and the rest untouched; without error, the checksums are the digests and the content the blocks, in item order |
| Engine.EntryRecords | LAR.h:56-62 | `add` appends one item per regular file, in walk order, each as the path constructor makes it |
| Engine.RecordsOfIndex | LAR.h:48 | record `i` of the item list holds item `i`'s fields |
| Engine.Lar.constructor | LAR.h:50 | a new archive has the default header and no items |
| Engine.Lar.Append | LAR.h:60 | `push_back` appends the item and its record and keeps the items distinct |
| Engine.Lar.Add | LAR.h:54-64 | `add` keeps the header and the existing items and appends, in walk order, one new item per file as the path constructor makes it |
| Engine.Lar.AddEntry | LAR.h:60 | one new item from the path constructor appended |
| Engine.Lar.Push | LAR.h:88 | one new item from the decoding constructor appended |
| Engine.Lar.ReadToc | LAR.h:66-95 | an archive that does not open gives `false` and no items; otherwise the header is read from the front and the items are the records of the TOC walk, with `true` or the decoder's error |
| Engine.Lar.DecodeItems | LAR.h:85-90 | the do-while loop pushes exactly the records of the walk, keeps those pushed before a failing decode, and ends with the walk's error |
| Engine.Lar.Unpack | LAR.h:104-157 | `unpack` writes and fails exactly as `UnpackArchive` says, leaving the header and items that `read_toc` read; when the archive does not open, the items are cleared and the header is kept |
| Engine.Lar.SerializeItems | LAR.h:230-238 | the TOC buffer is every item's dump, in item order |
| Engine.Lar.StampItems | LAR.h:161-226 | the first part of `pack` sets `TOCItems`, then runs the item loop over the object's items, with the same result as `PackItems`, split into the rejecting and the accepting case |
| Engine.Lar.Seal | LAR.h:228-242 | the header gets the digest of the checksums and both TOC sizes, and the compressed TOC is returned |
| Engine.Lar.Finish | LAR.h:228-332 | `Seal`, then the archive bytes when the output opens: header, compressed TOC, content |
| Engine.Lar.Pack | LAR.h:159-332 | `pack`: a rejected item stops it with that item's error, with the items before it handled and `TOCItems` set; otherwise every item is handled, the header is `PackedHeader`, and, if the output opens, the archive is the header, the compressed TOC, then every block in item order |

## Left out

- Directory enumeration in `add` (LAR.h:56-58) is left out. `Add` takes the regular files it finds as a list of entries, in walk order; the progress message is not modelled.
- `list()` (LAR.h:96-102) prints to standard output and is not modelled.
- The temporary scratch files (`mkstemp`, `lseek`, `unlink`) are left out, with the errno exceptions of their creation, reads and writes (LAR.h:166-178, 206-216, 244-252, 267-274, 288-323). The TOC and the content are byte sequences, and the I/O calls are assumed to succeed.
- Compression, decompression and SHA-256 are parameters. The round trip assumes only that decompression undoes compression.
- Available memory (`memavail()`) is a parameter of `pack`. Whether the archive file opens (`outputOpens`) is one too; when it does not, `pack` writes nothing and raises no error, as in the code.
- The filesystem when unpacking is the `Host` parameter: whether a directory is created (its error code) and whether a file opens and takes the write. A write that goes bad counts as a file that does not open, since both throw the same EACCES.
- `unpack` sizes its output buffer by `fsize` before decompressing. The model takes the decompressor's output as it is.
- The `assert`s in `read_toc` (LAR.h:73, 75), which NDEBUG compiles out, are the precondition `Readable`: the header is read in full and is valid.
- `unpack` opens the archive a second time (LAR.h:110-111) and silently does nothing if that open fails. The model reads one archive value, so it assumes the second open succeeds whenever the first, in `read_toc`, did.
- Unchecked short reads (LAR.h:79, 118, 198) are modelled as reads into a zeroed buffer that keep whatever bytes exist.
- The native struct layout of the `memcpy` casts is replaced by a fixed little-endian encoding.
- A path-constructed item's digest is left uninitialised by the code; the model zero-fills it.
- Paths are byte sequences. `dir / rel` follows the Filesystem TS append rule on `/` separators; `..` and other normalisation are not modelled, and neither are root names.
- Engine.Lar.ReadToc: does not state that each pushed item is a new object (`std::make_shared`), only that the items are distinct objects (`Valid`).
- Engine.Lar.DecodeItems: does not state that the pushed items are new objects, only that they are distinct (`Valid`). It also advances by the corrected step `After`, not the 32-bit step of LAR.h:89; the two agree whenever `path_size + 56 < 2^32` (`Archive.StepAsWrittenAgrees`).
- Archive.TocWalk: advances by the corrected step `After`, not the wrapping 32-bit step of LAR.h:89. For `path_size` in `[2^32 - 56, 2^32)` the code stalls or lands inside the record (`Archive.StepAsWrittenStalls`); the walk does not model that.
- RoundTrip.UnpackPacked: proved only when the compressed TOC is under 2^32 bytes and every block under 2^64 bytes. Larger sizes are truncated when stored, and the round trip can then fail. It is proved for the corrected walk. For the code as written it also needs `path_size + 56 < 2^32` for every item, where the two steps agree (`Archive.StepAsWrittenAgrees`); a path of `2^32 - 56` bytes or more makes the code's walk stall or land inside a record.

## Findings

| source | as written | input that shows it | evidently intended | confidence | as-written member | corrected member |
|---|---|---|---|---|---|---|
| LAR.h:89 | `offset += path_size + 56` computes `path_size + 56` in 32-bit unsigned arithmetic, which wraps before it is added to the 64-bit offset | a decompressed TOC of at least 4 GiB whose record at offset 0 has `path_size == 0xFFFFFFC8`: both bounds checks pass and the step wraps to 0, so the loop never advances, pushing a new item with a 4 GiB path each turn until memory runs out; `path_size` from `0xFFFFFFC9` to `0xFFFFFFFF` instead gives a step of 1 to 55, which lands inside the record | advance by the record's full length, `56 + path_size`, computed without wrapping, so the walk always moves forward | not executed | Archive.StepAsWrittenStalls | Archive.After |
