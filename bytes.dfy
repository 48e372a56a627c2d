/** Bytes, fixed-width unsigned integers and the little-endian wire encoding
    that stands in for the native struct layout of the `memcpy` casts. */
module Bytes {

  /** An unsigned 8-bit value. */
  type byte = x: int | 0 <= x < 256

  /** `uint32_t` and `size_t` (64-bit) values. */
  type u32 = x: nat | x < 0x1_0000_0000
  type u64 = x: nat | x < 0x1_0000_0000_0000_0000

  const TWO32: nat := 0x1_0000_0000
  const TWO64: nat := 0x1_0000_0000_0000_0000

  /** An assignment of a length to a `uint32_t` keeps the low 32 bits. */
  function Trunc32(n: nat): (r: u32)
    ensures r < TWO32
    ensures n < TWO32 ==> r == n
  {
    n % TWO32
  }

  /** An assignment of a length to a `size_t` keeps the low 64 bits. */
  function Trunc64(n: nat): (r: u64)
    ensures r < TWO64
    ensures n < TWO64 ==> r == n
  {
    n % TWO64
  }

  /** The 4 bytes of `v`, least significant first. */
  function Encode32(v: u32): (r: seq<byte>)
    ensures |r| == 4
  {
    [v % 0x100, v / 0x100 % 0x100, v / 0x1_0000 % 0x100, v / 0x100_0000]
  }

  /** The 8 bytes of `v`, least significant first. */
  function Encode64(v: u64): (r: seq<byte>)
    ensures |r| == 8
  {
    Encode32(v % TWO32) + Encode32(v / TWO32)
  }

  /** The little-endian 32-bit value stored at `s[p..p + 4]`. */
  function Decode32At(s: seq<byte>, p: nat): (v: u32)
    requires p + 4 <= |s|
  {
    s[p] as int + 0x100 * s[p + 1] as int + 0x1_0000 * s[p + 2] as int
      + 0x100_0000 * s[p + 3] as int
  }

  /** The little-endian 64-bit value stored at `s[p..p + 8]`. */
  function Decode64At(s: seq<byte>, p: nat): (v: u64)
    requires p + 8 <= |s|
  {
    Decode32At(s, p) + TWO32 * Decode32At(s, p + 4)
  }

  /** Decoding the four bytes of `v` gives `v` back, wherever they sit. */
  lemma {:induction false} Decode32Encode32(v: u32, s: seq<byte>, p: nat)
    requires p + 4 <= |s| && s[p..p + 4] == Encode32(v)
    ensures Decode32At(s, p) == v
  {
    var a, b, c, d := v % 0x100, v / 0x100 % 0x100, v / 0x1_0000 % 0x100, v / 0x100_0000;
    assert s[p] == a && s[p + 1] == b by { assert s[p..p + 4][0] == s[p]; assert s[p..p + 4][1] == s[p + 1]; }
    assert s[p + 2] == c && s[p + 3] == d by { assert s[p..p + 4][2] == s[p + 2]; assert s[p..p + 4][3] == s[p + 3]; }
    assert v == a + 0x100 * (v / 0x100);
    assert v / 0x100 == b + 0x100 * (v / 0x1_0000);
    assert v / 0x1_0000 == c + 0x100 * d;
  }

  /** Re-encoding a decoded value gives back the four bytes it came from. */
  lemma {:induction false} Encode32Decode32(s: seq<byte>, p: nat)
    requires p + 4 <= |s|
    ensures Encode32(Decode32At(s, p)) == s[p..p + 4]
  {
    var v := Decode32At(s, p);
    var b0, b1, b2, b3: int := s[p], s[p + 1], s[p + 2], s[p + 3];
    assert v == b0 + 0x100 * (b1 + 0x100 * (b2 + 0x100 * b3));
    assert v % 0x100 == b0 && v / 0x100 == b1 + 0x100 * (b2 + 0x100 * b3);
    var w := v / 0x100;
    assert w % 0x100 == b1 && w / 0x100 == b2 + 0x100 * b3;
    assert v / 0x1_0000 == w / 0x100;
    var x := w / 0x100;
    assert x % 0x100 == b2 && x / 0x100 == b3;
    assert v / 0x100_0000 == x / 0x100;
  }

  /** Decoding the eight bytes of `v` gives `v` back, wherever they sit. */
  lemma {:induction false} Decode64Encode64(v: u64, s: seq<byte>, p: nat)
    requires p + 8 <= |s| && s[p..p + 8] == Encode64(v)
    ensures Decode64At(s, p) == v
  {
    var lo, hi := v % TWO32, v / TWO32;
    assert s[p..p + 4] == s[p..p + 8][0..4] == Encode32(lo);
    assert s[p + 4..p + 8] == s[p..p + 8][4..8] == Encode32(hi);
    Decode32Encode32(lo, s, p);
    Decode32Encode32(hi, s, p + 4);
  }

  /** Re-encoding a decoded 64-bit value gives back its eight bytes. */
  lemma {:induction false} Encode64Decode64(s: seq<byte>, p: nat)
    requires p + 8 <= |s|
    ensures Encode64(Decode64At(s, p)) == s[p..p + 8]
  {
    var lo, hi := Decode32At(s, p), Decode32At(s, p + 4);
    var v := Decode64At(s, p);
    assert v % TWO32 == lo && v / TWO32 == hi;
    Encode32Decode32(s, p);
    Encode32Decode32(s, p + 4);
    assert s[p..p + 8] == s[p..p + 4] + s[p + 4..p + 8];
  }

  /** A slice of a slice is a slice of the original. */
  lemma {:induction false} SliceOfSlice(s: seq<byte>, a: nat, b: nat, c: nat, d: nat)
    requires a <= b <= |s| && c <= d <= b - a
    ensures s[a..b][c..d] == s[a + c..a + d]
  {
    assert forall i :: 0 <= i < d - c ==> s[a..b][c..d][i] == s[a + c + i];
  }

  function Zeros(n: nat): (r: seq<byte>)
    ensures |r| == n && forall i :: 0 <= i < n ==> r[i] == 0
  {
    seq(n, _ => 0)
  }

  /** What an unchecked read of `n` bytes at position `pos` leaves in a
      zero-initialised buffer of size `n`: the bytes the file still holds,
      then zeros where the read came up short. */
  function ReadPadded(file: seq<byte>, pos: nat, n: nat): (r: seq<byte>)
    ensures |r| == n
    ensures pos + n <= |file| ==> r == file[pos..pos + n]
    ensures forall i :: 0 <= i < n && pos + i < |file| ==> r[i] == file[pos + i]
    ensures forall i :: 0 <= i < n && pos + i >= |file| ==> r[i] == 0
  {
    var avail := if pos >= |file| then [] else if pos + n <= |file| then file[pos..pos + n] else file[pos..];
    avail + Zeros(n - |avail|)
  }

  /** In a buffer that begins with `p + b`, the bytes after `p` are `b`. */
  lemma {:induction false} SliceInPrefix(c: seq<byte>, p: seq<byte>, b: seq<byte>)
    requires |p + b| <= |c| && c[..|p + b|] == p + b
    ensures |p| + |b| <= |c| && c[|p|..|p| + |b|] == b
  {
    SliceOfSlice(c, 0, |p + b|, |p|, |p| + |b|);
    assert (p + b)[|p|..|p| + |b|] == b;
  }

  /** Reading within a file whose bytes from `base` on are `w` gives a
      slice of `w`. */
  lemma {:induction false} ReadInSuffix(file: seq<byte>, base: nat, w: seq<byte>, s: nat, n: nat)
    requires base <= |file| && file[base..] == w && s + n <= |w|
    ensures ReadPadded(file, base + s, n) == w[s..s + n]
  {
    SliceOfSlice(file, base, |file|, s, s + n);
    assert file[base..|file|] == file[base..];
  }

  /** The bytes of a sequence of buffers written one after the other. */
  function Flatten(ws: seq<seq<byte>>): seq<byte>
  {
    if ws == [] then [] else Flatten(ws[..|ws| - 1]) + ws[|ws| - 1]
  }

  /** Writing one more buffer appends its bytes. */
  lemma {:induction false} FlattenAppend(ws: seq<seq<byte>>, w: seq<byte>)
    ensures Flatten(ws + [w]) == Flatten(ws) + w
  {
    assert (ws + [w])[..|ws|] == ws;
  }

}
