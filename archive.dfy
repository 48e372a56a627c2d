/** The archive format as pure functions: the TOC buffer and its walk, the
    content section and where each block sits, and the results `pack` and
    `unpack` are specified by. The class in module `Engine` is proved against
    these functions. Sums and concatenations over the first `n` records are
    written with an index rather than a slice. */
module Archive {
  import opened Bytes
  import opened Errors
  import opened Ports
  import opened Toc
  import opened Header

  // ---------------------------------------------------------------------
  // The TOC buffer

  /** `Σ_{j<n} (56 + path_size_j)`: the bytes the TOC walk steps over. */
  function TocSpan(rs: seq<TocRecord>, n: nat): nat
    requires n <= |rs|
  {
    if n == 0 then 0 else TocSpan(rs, n - 1) + FixedSize + rs[n - 1].pathSize
  }

  /** The first `n` records' dumps, one after the other. */
  function SerializePrefix(rs: seq<TocRecord>, n: nat): seq<byte>
    requires n <= |rs|
  {
    if n == 0 then [] else SerializePrefix(rs, n - 1) + Dump(rs[n - 1])
  }

  /** The serialised TOC that `pack` builds: every record's dump, in order. */
  function Serialize(rs: seq<TocRecord>): seq<byte>
  {
    SerializePrefix(rs, |rs|)
  }

  predicate AllWellFormed(rs: seq<TocRecord>)
  {
    forall i :: 0 <= i < |rs| ==> rs[i].WellFormed()
  }

  /** The first `n` dumps take `Σ_{j<n} (56 + path_size_j)` bytes, so the
      serialised TOC is as long as the `TOCSize` that `pack` stores. */
  lemma {:induction false} SerializeLength(rs: seq<TocRecord>, n: nat)
    requires AllWellFormed(rs)
    requires n <= |rs|
    ensures |SerializePrefix(rs, n)| == TocSpan(rs, n)
  {
    if n > 0 {
      SerializeLength(rs, n - 1);
    }
  }

  /** A shorter serialisation is a prefix of a longer one. */
  lemma {:induction false} SerializePrefixOf(rs: seq<TocRecord>, m: nat, n: nat)
    requires m <= n <= |rs|
    ensures |SerializePrefix(rs, m)| <= |SerializePrefix(rs, n)|
    ensures SerializePrefix(rs, n)[..|SerializePrefix(rs, m)|] == SerializePrefix(rs, m)
    decreases n
  {
    if m < n {
      SerializePrefixOf(rs, m, n - 1);
      var a, b := SerializePrefix(rs, n - 1), SerializePrefix(rs, m);
      assert (a + Dump(rs[n - 1]))[..|b|] == a[..|b|];
    }
  }

  /** The serialised TOC is the first `i` dumps, then dump `i`, then the rest. */
  lemma {:induction false} SerializeSplit(rs: seq<TocRecord>, i: nat)
    requires i < |rs|
    ensures |SerializePrefix(rs, i + 1)| <= |Serialize(rs)|
    ensures Serialize(rs) == SerializePrefix(rs, i) + Dump(rs[i])
                             + Serialize(rs)[|SerializePrefix(rs, i + 1)|..]
  {
    var toc := Serialize(rs);
    var ab := SerializePrefix(rs, i + 1);
    SerializePrefixOf(rs, i + 1, |rs|);
    assert toc == ab + toc[|ab|..];
  }

  /** `DecodeDump`, for a buffer already known to be split around a dump. */
  lemma {:induction false} DecodeAtBoundary(toc: seq<byte>, pre: seq<byte>, r: TocRecord, post: seq<byte>, o: nat)
    requires r.WellFormed()
    requires toc == pre + Dump(r) + post && o == |pre|
    ensures DecodeEntry(toc, o) == Ok(r)
  {
    DecodeDump(pre, r, post);
  }

  /** Record `i` of a serialised TOC decodes at `Σ_{j<i} (56 + path_size_j)`. */
  lemma {:induction false} SerializedDecodesAt(rs: seq<TocRecord>, i: nat)
    requires AllWellFormed(rs)
    requires i < |rs|
    ensures DecodeEntry(Serialize(rs), TocSpan(rs, i)) == Ok(rs[i])
  {
    SerializeSplit(rs, i);
    SerializeLength(rs, i);
    DecodeAtBoundary(Serialize(rs), SerializePrefix(rs, i), rs[i],
                     Serialize(rs)[|SerializePrefix(rs, i + 1)|..], TocSpan(rs, i));
  }

  /** Each further record adds at least 56 bytes to the span. */
  lemma {:induction false} TocSpanGrows(rs: seq<TocRecord>, m: nat, n: nat)
    requires m < n <= |rs|
    ensures TocSpan(rs, m) + FixedSize <= TocSpan(rs, n)
    decreases n
  {
    if m < n - 1 {
      TocSpanGrows(rs, m, n - 1);
    }
  }

  // ---------------------------------------------------------------------
  // The TOC walk of `read_toc`

  /** What the walk leaves behind: the offsets at which it decoded a record,
      in order, the offset at which it stopped, and the error that stopped
      it, if any. */
  datatype Walk = Walk(offsets: seq<nat>, end: nat, error: Option<Error>)

  /** Where the record at `offset` ends: `offset + 56 + path_size`, in
      arithmetic that does not wrap. The walk always moves on by at least
      one fixed prefix, and never past the end of a record that fits. */
  function After(toc: seq<byte>, offset: nat): (next: nat)
    requires offset + FixedSize <= |toc|
    ensures offset + FixedSize <= next
    ensures Fits(toc, offset) ==> next <= |toc|
  {
    offset + FixedSize + PathSizeAt(toc, offset)
  }

  /** The step as `read_toc` computes it: `path_size + 56` is evaluated in
      32-bit unsigned arithmetic before it is added to the offset. */
  function StepAsWritten(pathSize: u32): (step: u32)
    ensures pathSize + FixedSize < TWO32 ==> step == pathSize + FixedSize
  {
    (pathSize + FixedSize) % TWO32
  }

  /** A record whose `path_size` is `2^32 - 56` passes both bounds checks in
      a TOC of at least 4 GiB, and then the step as written is zero: the
      loop never advances, pushing a new item with a 4 GiB path each turn
      until memory runs out. `After` moves past the record instead. */
  lemma {:induction false} StepAsWrittenStalls(toc: seq<byte>, offset: nat)
    requires Fits(toc, offset) && PathSizeAt(toc, offset) == TWO32 - FixedSize
    ensures offset + StepAsWritten(PathSizeAt(toc, offset)) == offset
    ensures After(toc, offset) == offset + TWO32 && offset < After(toc, offset) <= |toc|
  {
  }

  /** Where `path_size + 56` fits in 32 bits, the step as written and the
      corrected step agree: the walk below is then the walk `read_toc`
      performs. */
  lemma {:induction false} StepAsWrittenAgrees(toc: seq<byte>, offset: nat)
    requires offset + FixedSize <= |toc| && PathSizeAt(toc, offset) + FixedSize < TWO32
    ensures offset + StepAsWritten(PathSizeAt(toc, offset)) == After(toc, offset)
  {
  }

  /** The do-while loop of `read_toc`: decode at `offset` (the decoding
      constructor fails unless both bounds checks pass), advance by
      `56 + path_size`, and go on while the offset is below the size of the
      decompressed TOC. The step is the corrected one, `After`, which does
      not wrap; it is the step `read_toc` takes whenever `path_size + 56`
      fits in 32 bits (`StepAsWrittenAgrees`). The offsets visited depend only on the bounds checks
      and the `path_size` fields; `WalkRecords` reads the records there. */
  function TocWalk(toc: seq<byte>, offset: nat): Walk
    decreases |toc| - offset
  {
    if !Fits(toc, offset) then Walk([], offset, Some(Error(EINVAL, VectorTooSmall)))
    else
      var next := After(toc, offset);
      if next < |toc| then
        var w := TocWalk(toc, next);
        Walk([offset] + w.offsets, w.end, w.error)
      else
        Walk([offset], next, None)
  }

  predicate AllFit(toc: seq<byte>, offsets: seq<nat>)
  {
    forall i :: 0 <= i < |offsets| ==> Fits(toc, offsets[i])
  }

  /** The records the decoding constructor builds at the given offsets. */
  function WalkRecords(toc: seq<byte>, offsets: seq<nat>): (rs: seq<TocRecord>)
    requires AllFit(toc, offsets)
    ensures |rs| == |offsets|
    ensures forall i :: 0 <= i < |offsets| ==> DecodeEntry(toc, offsets[i]) == Ok(rs[i])
  {
    seq(|offsets|, i requires 0 <= i < |offsets| => RecordAt(toc, offsets[i]))
  }

  /** Decoding at one more offset adds that record at the end. */
  lemma {:induction false} WalkRecordsAppend(toc: seq<byte>, offsets: seq<nat>, o: nat)
    requires AllFit(toc, offsets) && Fits(toc, o)
    ensures AllFit(toc, offsets + [o])
    ensures WalkRecords(toc, offsets + [o]) == WalkRecords(toc, offsets) + [RecordAt(toc, o)]
  {
    assert forall i :: 0 <= i < |offsets| ==> (offsets + [o])[i] == offsets[i];
  }

  /** The walk visits `offset` first and then, each time, the offset right
      after the record it has just decoded; every record it visits decodes;
      after the last one it stops where that record ends. */
  lemma {:induction false} TocWalkSteps(toc: seq<byte>, offset: nat)
    ensures var w := TocWalk(toc, offset);
      && AllFit(toc, w.offsets)
      && (w.offsets == [] ==> w.end == offset)
      && (w.offsets != [] ==> w.offsets[0] == offset && After(toc, w.offsets[|w.offsets| - 1]) == w.end)
      && forall i :: 0 <= i < |w.offsets| - 1 ==> After(toc, w.offsets[i]) == w.offsets[i + 1]
    decreases |toc| - offset
  {
    if Fits(toc, offset) {
      var next := After(toc, offset);
      if next < |toc| {
        TocWalkSteps(toc, next);
        var w, w' := TocWalk(toc, offset), TocWalk(toc, next);
        assert w.offsets == [offset] + w'.offsets && w.end == w'.end;
        forall i | 0 <= i < |w.offsets| - 1
          ensures After(toc, w.offsets[i]) == w.offsets[i + 1]
        {
          if i > 0 {
            assert w.offsets[i] == w'.offsets[i - 1];
          }
        }
      }
    }
  }

  /** A walk that succeeds has decoded at least one record and stops exactly
      at the end of the decompressed TOC; one that fails, fails with the
      decoding constructor's EINVAL at the offset where it stopped. */
  lemma {:induction false} TocWalkEnd(toc: seq<byte>, offset: nat)
    ensures var w := TocWalk(toc, offset);
      && offset <= w.end
      && (w.error.None? ==> |w.offsets| >= 1 && w.end == |toc|)
      && (w.error.Some? ==> DecodeEntry(toc, w.end) == Err(w.error.value))
    decreases |toc| - offset
  {
    if Fits(toc, offset) {
      var next := After(toc, offset);
      if next < |toc| {
        TocWalkEnd(toc, next);
      }
    } else {
      DecodeEntryFails(toc, offset);
    }
  }

  /** The records `read_toc` pushes: one for each offset the walk decoded
      at, in order, including those pushed before a failing decode. */
  function TocRecords(toc: seq<byte>): (rs: seq<TocRecord>)
    ensures |rs| == |TocWalk(toc, 0).offsets|
    ensures forall i :: 0 <= i < |rs| ==> DecodeEntry(toc, TocWalk(toc, 0).offsets[i]) == Ok(rs[i])
  {
    TocWalkSteps(toc, 0);
    WalkRecords(toc, TocWalk(toc, 0).offsets)
  }

  /** The records the walk read are those at the offsets it visited. */
  lemma {:induction false} TocRecordsAt(toc: seq<byte>, offsets: seq<nat>)
    requires TocWalk(toc, 0).offsets == offsets
    ensures AllFit(toc, offsets) && TocRecords(toc) == WalkRecords(toc, offsets)
  {
    TocWalkSteps(toc, 0);
  }

  /** One turn of the `read_toc` loop, for a walk that has visited
      `visited` and is now at `offset`: if the record there does not fit,
      the walk ends here with the decoder's error; if it fits and the next
      offset is still inside the TOC, the walk goes on from there; and if
      it fits and the next offset is not inside, the walk ends with it. */
  lemma {:induction false} TocWalkTurn(toc: seq<byte>, visited: seq<nat>, offset: nat)
    requires var w, rest := TocWalk(toc, 0), TocWalk(toc, offset);
      w == Walk(visited + rest.offsets, rest.end, rest.error)
    ensures !Fits(toc, offset) ==>
      TocWalk(toc, 0) == Walk(visited, offset, Some(Error(EINVAL, VectorTooSmall)))
    ensures Fits(toc, offset) && After(toc, offset) < |toc| ==>
      var w, rest := TocWalk(toc, 0), TocWalk(toc, After(toc, offset));
      w == Walk((visited + [offset]) + rest.offsets, rest.end, rest.error)
    ensures Fits(toc, offset) && After(toc, offset) >= |toc| ==>
      TocWalk(toc, 0) == Walk(visited + [offset], After(toc, offset), None)
  {
    if !Fits(toc, offset) {
      assert visited + [] == visited;
    } else if After(toc, offset) < |toc| {
      var rest := TocWalk(toc, After(toc, offset));
      assert visited + ([offset] + rest.offsets) == (visited + [offset]) + rest.offsets;
    }
  }

  /** An empty TOC is rejected: the first decode already finds fewer than
      56 bytes. */
  lemma {:induction false} EmptyTocRejected()
    ensures TocWalk([], 0) == Walk([], 0, Some(Error(EINVAL, VectorTooSmall)))
  {
  }

  /** The record boundaries of `rs` from record `i` on. */
  function Boundaries(rs: seq<TocRecord>, i: nat): (bs: seq<nat>)
    requires i <= |rs|
    ensures |bs| == |rs| - i
    ensures forall k {:trigger bs[k]} :: 0 <= k < |bs| ==> bs[k] == TocSpan(rs, i + k)
    decreases |rs| - i
  {
    if i == |rs| then [] else [TocSpan(rs, i)] + Boundaries(rs, i + 1)
  }

  /** A buffer in which every record of `rs` passes the bounds checks at its
      boundary, with its own `path_size`, and which ends where the last of
      them ends. */
  predicate Lays(toc: seq<byte>, rs: seq<TocRecord>)
  {
    && |toc| == TocSpan(rs, |rs|)
    && forall j {:trigger TocSpan(rs, j)} :: 0 <= j < |rs| ==>
         Fits(toc, TocSpan(rs, j)) && PathSizeAt(toc, TocSpan(rs, j)) == rs[j].pathSize
  }

  /** Walking such a buffer from any record boundary visits the remaining
      boundaries and stops at its end. */
  lemma {:induction false} TocWalkLaid(toc: seq<byte>, rs: seq<TocRecord>, i: nat)
    requires Lays(toc, rs)
    requires i < |rs|
    ensures TocWalk(toc, TocSpan(rs, i)) == Walk(Boundaries(rs, i), |toc|, None)
    decreases |rs| - i
  {
    var o := TocSpan(rs, i);
    assert Fits(toc, o) && PathSizeAt(toc, o) == rs[i].pathSize;
    var next := After(toc, o);
    assert next == TocSpan(rs, i + 1);
    if i + 1 < |rs| {
      TocSpanGrows(rs, i + 1, |rs|);
      TocWalkLaid(toc, rs, i + 1);
    }
  }

  /** The TOC `pack` serialises lays out its records, and each decodes back. */
  lemma {:induction false} SerializeLays(rs: seq<TocRecord>)
    requires AllWellFormed(rs)
    ensures Lays(Serialize(rs), rs)
    ensures forall j :: 0 <= j < |rs| ==> DecodeEntry(Serialize(rs), TocSpan(rs, j)) == Ok(rs[j])
  {
    SerializeLength(rs, |rs|);
    forall j | 0 <= j < |rs|
      ensures Fits(Serialize(rs), TocSpan(rs, j))
      ensures PathSizeAt(Serialize(rs), TocSpan(rs, j)) == rs[j].pathSize
      ensures DecodeEntry(Serialize(rs), TocSpan(rs, j)) == Ok(rs[j])
    {
      SerializedDecodesAt(rs, j);
      DecodeEntryFails(Serialize(rs), TocSpan(rs, j));
    }
  }

  /** Where every record of `rs` decodes at its boundary, the records read
      at the boundaries are `rs`. */
  lemma {:induction false} BoundaryRecords(toc: seq<byte>, rs: seq<TocRecord>)
    requires forall j :: 0 <= j < |rs| ==> DecodeEntry(toc, TocSpan(rs, j)) == Ok(rs[j])
    ensures AllFit(toc, Boundaries(rs, 0))
    ensures WalkRecords(toc, Boundaries(rs, 0)) == rs
  {
    var bs := Boundaries(rs, 0);
    forall j | 0 <= j < |rs|
      ensures Fits(toc, bs[j])
    {
      assert bs[j] == TocSpan(rs, j);
      DecodeEntryFails(toc, bs[j]);
    }
  }

  /** Walking a buffer that lays out `rs` from offset 0 visits every record
      boundary and reads back `rs`. */
  lemma {:induction false} TocWalkLaidRecords(toc: seq<byte>, rs: seq<TocRecord>)
    requires Lays(toc, rs) && rs != []
    requires forall j :: 0 <= j < |rs| ==> DecodeEntry(toc, TocSpan(rs, j)) == Ok(rs[j])
    ensures var w := TocWalk(toc, 0);
      && w == Walk(Boundaries(rs, 0), |toc|, None)
      && AllFit(toc, w.offsets)
      && WalkRecords(toc, w.offsets) == rs
  {
    TocWalkLaid(toc, rs, 0);
    BoundaryRecords(toc, rs);
  }

  /** The TOC `pack` serialises walks back to the same records, visiting
      each record boundary in turn, provided there is at least one record
      (an empty TOC fails, see `EmptyTocRejected`). */
  lemma {:induction false} TocWalkSerialized(rs: seq<TocRecord>)
    requires AllWellFormed(rs)
    requires rs != []
    ensures var toc := Serialize(rs);
      var w := TocWalk(toc, 0);
      && w == Walk(Boundaries(rs, 0), |toc|, None)
      && AllFit(toc, w.offsets)
      && WalkRecords(toc, w.offsets) == rs
      && TocRecords(toc) == rs
  {
    SerializeLays(rs);
    TocWalkLaidRecords(Serialize(rs), rs);
  }
}
