/** Fixed-width integers, bounded byte slices, and positional byte encodings. */
module Bytes {
  import opened Results

  const TWO_8: int := 0x100
  const TWO_16: int := 0x1_0000
  const TWO_32: int := 0x1_0000_0000
  const TWO_64: int := 0x1_0000_0000_0000_0000

  type u8 = x: int | 0 <= x < TWO_8
  type u16 = x: int | 0 <= x < TWO_16
  type u32 = x: int | 0 <= x < TWO_32
  type u64 = x: int | 0 <= x < TWO_64

  /** `usize` on the 64-bit targets this code is built for. */
  type usize = u64

  /** No slice is longer than `isize::MAX` bytes. */
  const ISIZE_MAX: int := 0x7fff_ffff_ffff_ffff
  type Slice = s: seq<u8> | |s| <= ISIZE_MAX

  function CheckedAdd(a: u64, b: u64): (r: Option<u64>) {
    if a + b < TWO_64 then Some(a + b) else None
  }

  function CheckedMul(a: u64, b: u64): (r: Option<u64>)
  {
    if a * b < TWO_64 && 0 <= a * b then Some(a * b) else None
  }

  function Min(a: int, b: int): (least: int) {
    if a <= b then a else b
  }

  /** `s.get(start..end)`. */
  function Get(s: seq<u8>, start: nat, end: nat): (r: Option<seq<u8>>) {
    if start <= end <= |s| then Some(s[start..end]) else None
  }

  function Zeros(n: nat): (s: seq<u8>)
    ensures |s| == n
    ensures forall i :: 0 <= i < n ==> s[i] == 0
  {
    seq(n, i => 0)
  }

  predicate AllZero(s: seq<u8>) {
    forall i :: 0 <= i < |s| ==> s[i] == 0
  }

  /** The bytes of an ASCII literal. */
  function Ascii(text: string): (s: seq<u8>)
    ensures |s| == |text|
  {
    seq(|text|, i requires 0 <= i < |text| => text[i] as int % TWO_8)
  }

  /** `s.iter().position(|b| *b == wanted)`: the first index holding `wanted`. */
  function Position(s: seq<u8>, wanted: u8): (r: Option<nat>)
    ensures r.None? <==> wanted !in s
    ensures r.Some? ==> r.value < |s| && s[r.value] == wanted && wanted !in s[..r.value]
  {
    if s == [] then None
    else if s[0] == wanted then Some(0)
    else
      match Position(s[1..], wanted)
      case None => None
      case Some(i) =>
        assert s[..i + 1] == [s[0]] + s[1..][..i];
        Some(i + 1)
  }

  lemma {:induction false} PositionUnique(s: seq<u8>, wanted: u8, i: nat)
    requires i < |s| && s[i] == wanted && wanted !in s[..i]
    ensures Position(s, wanted) == Some(i)
    decreases i
  {
    if i > 0 {
      assert s[0] in s[..i];
      assert s[..i][1..] == s[1..][..i - 1];
      PositionUnique(s[1..], wanted, i - 1);
    }
  }

  // ---- Parts and slices --------------------------------------------------

  /** The bytes of `part` lie at `at`. */
  ghost predicate Part(s: seq<u8>, at: nat, part: seq<u8>) {
    at + |part| <= |s| && s[at..at + |part|] == part
  }

  lemma PartSplit(s: seq<u8>, at: nat, a: seq<u8>, b: seq<u8>)
    ensures Part(s, at, a + b) <==> Part(s, at, a) && Part(s, at + |a|, b)
  {
    if at + |a| + |b| <= |s| {
      var whole := s[at..at + |a| + |b|];
      assert whole[..|a|] == s[at..at + |a|] && whole[|a|..] == s[at + |a|..at + |a| + |b|];
      assert (a + b)[..|a|] == a && (a + b)[|a|..] == b;
      assert whole == whole[..|a|] + whole[|a|..];
    }
  }

  lemma PartIs(s: seq<u8>, at: nat, part: seq<u8>)
    requires Part(s, at, part)
    ensures at + |part| <= |s| && s[at..at + |part|] == part
    ensures forall i :: 0 <= i < |part| ==> s[at + i] == part[i]
  {
    assert forall i :: 0 <= i < |part| ==> s[at..at + |part|][i] == part[i];
  }

  lemma WholePart(s: seq<u8>, part: seq<u8>)
    requires |s| == |part|
    ensures Part(s, 0, part) <==> s == part
  {
    assert s[0..|s|] == s;
  }

  lemma DropTake(s: seq<u8>, a: nat, n: nat)
    requires a + n <= |s|
    ensures s[a..][..n] == s[a..a + n]
  {
  }

  /** A slice of a slice. */
  lemma SubSlice(s: seq<u8>, i: nat, j: nat, a: nat, n: nat)
    requires i <= j <= |s| && a + n <= j - i
    ensures s[i..j][a..][..n] == s[i..j][a..a + n] == s[i + a..i + a + n]
  {
  }

  /** `a` and `b` hold the same bytes from `low` up to `high`. */
  ghost predicate Agree(a: seq<u8>, b: seq<u8>, low: nat, high: nat) {
    high <= |a| && high <= |b| && forall k :: low <= k < high ==> a[k] == b[k]
  }

  lemma SliceSame(a: seq<u8>, b: seq<u8>, low: nat, high: nat, i: nat, j: nat)
    requires Agree(a, b, low, high) && low <= i <= j <= high
    ensures j <= |a| && j <= |b| && a[i..j] == b[i..j]
  {
  }

  // ---- Positional encodings --------------------------------------------

  function Pow256(n: nat): (p: nat)
    ensures p >= 1
  {
    if n == 0 then 1 else 256 * Pow256(n - 1)
  }

  lemma PowWidths()
    ensures Pow256(1) == TWO_8 && Pow256(2) == TWO_16 && Pow256(4) == TWO_32 && Pow256(8) == TWO_64
  {
    assert Pow256(3) == 0x100_0000;
    assert Pow256(5) == 0x100_0000_0000;
    assert Pow256(6) == 0x1_0000_0000_0000;
    assert Pow256(7) == 0x100_0000_0000_0000;
  }

  /** Little-endian value: the first byte is the least significant. */
  function LeValue(s: seq<u8>): (v: nat)
    ensures v < Pow256(|s|)
  {
    if s == [] then 0 else s[0] + 256 * LeValue(s[1..])
  }

  function LeBytes(v: nat, width: nat): (s: seq<u8>)
    ensures |s| == width
    decreases width
  {
    if width == 0 then [] else [v % 256] + LeBytes(v / 256, width - 1)
  }

  /** Big-endian value: the first byte is the most significant. */
  function BeValue(s: seq<u8>): (v: nat)
    ensures v < Pow256(|s|)
  {
    if s == [] then 0 else 256 * BeValue(s[..|s| - 1]) + s[|s| - 1]
  }

  function BeBytes(v: nat, width: nat): (s: seq<u8>)
    ensures |s| == width
    decreases width
  {
    if width == 0 then [] else BeBytes(v / 256, width - 1) + [v % 256]
  }

  /** Four bytes, least significant first and most significant first. */
  lemma ByteOrder(s: seq<u8>)
    requires |s| == 4
    ensures var a: int, b: int, c: int, d: int := s[0], s[1], s[2], s[3];
      && LeValue(s) == a + 0x100 * b + 0x1_0000 * c + 0x100_0000 * d
      && BeValue(s) == 0x100_0000 * a + 0x1_0000 * b + 0x100 * c + d
  {
    var a: int, b: int, c: int, d: int := s[0], s[1], s[2], s[3];
    assert s[1..][1..] == s[2..] && s[2..][1..] == s[3..] && s[3..][1..] == [];
    assert LeValue(s[3..]) == d && LeValue(s[2..]) == c + 0x100 * d;
    assert s[..3][..2] == s[..2] && s[..2][..1] == s[..1] && s[..1][..0] == [];
    assert BeValue(s[..1]) == a && BeValue(s[..2]) == 0x100 * a + b;
  }

  lemma {:induction false} LeRoundTrip(v: nat, width: nat)
    requires v < Pow256(width)
    ensures LeValue(LeBytes(v, width)) == v
    decreases width
  {
    if width > 0 {
      LeRoundTrip(v / 256, width - 1);
      assert LeBytes(v, width)[1..] == LeBytes(v / 256, width - 1);
    }
  }

  lemma {:induction false} LeCanonical(s: seq<u8>)
    ensures LeBytes(LeValue(s), |s|) == s
  {
    if s != [] {
      LeCanonical(s[1..]);
      assert LeValue(s) % 256 == s[0] && LeValue(s) / 256 == LeValue(s[1..]);
    }
  }

  lemma {:induction false} BeRoundTrip(v: nat, width: nat)
    requires v < Pow256(width)
    ensures BeValue(BeBytes(v, width)) == v
    decreases width
  {
    if width > 0 {
      BeRoundTrip(v / 256, width - 1);
      assert BeBytes(v, width)[..width - 1] == BeBytes(v / 256, width - 1);
    }
  }

  lemma {:induction false} BeCanonical(s: seq<u8>)
    ensures BeBytes(BeValue(s), |s|) == s
  {
    if s != [] {
      var front := s[..|s| - 1];
      BeCanonical(front);
      assert BeValue(s) % 256 == s[|s| - 1] && BeValue(s) / 256 == BeValue(front);
    }
  }

  /** Reads a little-endian `u32` at `offset`, or nothing if it does not fit. */
  function ReadU32Le(blob: seq<u8>, offset: u64): (r: Option<u32>)
    ensures r.Some? <==> offset + 4 <= |blob| && offset + 4 < TWO_64
    ensures r.Some? ==> r.value == LeValue(blob[offset..offset + 4])
  {
    PowWidths();
    match CheckedAdd(offset, 4)
    case None => None
    case Some(end) =>
      match Get(blob, offset, end)
      case None => None
      case Some(bytes) => Some(LeValue(bytes))
  }

  // ---- Fixed-offset little-endian fields of a record known to be long enough ----

  function U16At(s: seq<u8>, at: nat): (v: u16)
    requires at + 2 <= |s|
    ensures v == LeValue(s[at..at + 2])
  {
    PowWidths();
    LeValue(s[at..at + 2])
  }

  function U32At(s: seq<u8>, at: nat): (v: u32)
    requires at + 4 <= |s|
    ensures v == LeValue(s[at..at + 4])
  {
    PowWidths();
    LeValue(s[at..at + 4])
  }

  function U64At(s: seq<u8>, at: nat): (v: u64)
    requires at + 8 <= |s|
    ensures v == LeValue(s[at..at + 8])
  {
    PowWidths();
    LeValue(s[at..at + 8])
  }
}
