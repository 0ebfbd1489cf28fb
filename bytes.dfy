/** Bytes, the fixed-width integers both formats store, and reads from a
    byte stream at a given position. */
module Bytes {

  type byte = x: int | 0 <= x < 256

  function Pow256(k: nat): (p: nat)
    ensures p >= 1
  {
    if k == 0 then 1 else 256 * Pow256(k - 1)
  }

  /** Unsigned little-endian value of `b` (what struct's `<H`, `<I` and
      `<Q` decode for widths 2, 4 and 8). */
  function LittleEndian(b: seq<byte>): (n: nat)
    ensures n < Pow256(|b|)
  {
    if b == [] then 0 else b[0] + 256 * LittleEndian(b[1..])
  }

  /** The `width` bytes that store `n` little-endian. */
  function ToLittleEndian(n: nat, width: nat): (b: seq<byte>)
    requires n < Pow256(width)
    ensures |b| == width
  {
    if width == 0 then [] else [n % 256] + ToLittleEndian(n / 256, width - 1)
  }

  lemma {:induction false} LittleEndianOfToLittleEndian(n: nat, width: nat)
    requires n < Pow256(width)
    ensures LittleEndian(ToLittleEndian(n, width)) == n
  {
    if width > 0 {
      var b := ToLittleEndian(n, width);
      assert b[1..] == ToLittleEndian(n / 256, width - 1);
      LittleEndianOfToLittleEndian(n / 256, width - 1);
    }
  }

  lemma {:induction false} ToLittleEndianOfLittleEndian(b: seq<byte>)
    ensures ToLittleEndian(LittleEndian(b), |b|) == b
  {
    if b != [] {
      var n := LittleEndian(b);
      assert n % 256 == b[0] && n / 256 == LittleEndian(b[1..]);
      ToLittleEndianOfLittleEndian(b[1..]);
    }
  }

  /** Unsigned big-endian value of `b` (struct's `>i` before the sign). */
  function BigEndian(b: seq<byte>): (n: nat)
    ensures n < Pow256(|b|)
  {
    if b == [] then 0 else BigEndian(b[..|b| - 1]) * 256 + b[|b| - 1]
  }

  /** The `width` bytes that store `n` big-endian. */
  function ToBigEndian(n: nat, width: nat): (b: seq<byte>)
    requires n < Pow256(width)
    ensures |b| == width
  {
    if width == 0 then [] else ToBigEndian(n / 256, width - 1) + [n % 256]
  }

  lemma {:induction false} BigEndianOfToBigEndian(n: nat, width: nat)
    requires n < Pow256(width)
    ensures BigEndian(ToBigEndian(n, width)) == n
  {
    if width > 0 {
      var b := ToBigEndian(n, width);
      assert b[..|b| - 1] == ToBigEndian(n / 256, width - 1);
      BigEndianOfToBigEndian(n / 256, width - 1);
    }
  }

  const Two31: int := 0x8000_0000
  const Two32: int := 0x1_0000_0000

  /** Two's-complement reading of a 32-bit unsigned value. */
  function Signed32(u: nat): (i: int)
    requires u < Two32
    ensures -Two31 <= i < Two31
    ensures i % Two32 == u
  {
    if u < Two31 then u else u - Two32
  }

  /** The unsigned 32-bit pattern that stores the signed value `i`. */
  function Unsigned32(i: int): (u: nat)
    requires -Two31 <= i < Two31
    ensures u < Two32 && Signed32(u) == i
  {
    if i >= 0 then i else i + Two32
  }

  lemma Pow256Four()
    ensures Pow256(4) == Two32 && Pow256(8) == Two32 * Two32
  {
    assert Pow256(2) == 65536;
    assert Pow256(4) == 256 * 256 * Pow256(2);
  }

  /** struct `<i`: a signed little-endian 32-bit integer. */
  function I32LE(b: seq<byte>): (i: int)
    requires |b| == 4
    ensures -Two31 <= i < Two31
  {
    Pow256Four();
    Signed32(LittleEndian(b))
  }

  /** struct `>i`: a signed big-endian 32-bit integer. */
  function I32BE(b: seq<byte>): (i: int)
    requires |b| == 4
    ensures -Two31 <= i < Two31
  {
    Pow256Four();
    Signed32(BigEndian(b))
  }

  lemma {:induction false} I32LERoundTrip(i: int)
    requires -Two31 <= i < Two31
    ensures Pow256(4) == Two32
    ensures I32LE(ToLittleEndian(Unsigned32(i), 4)) == i
  {
    Pow256Four();
    LittleEndianOfToLittleEndian(Unsigned32(i), 4);
  }

  lemma {:induction false} I32BERoundTrip(i: int)
    requires -Two31 <= i < Two31
    ensures Pow256(4) == Two32
    ensures I32BE(ToBigEndian(Unsigned32(i), 4)) == i
  {
    Pow256Four();
    BigEndianOfToBigEndian(Unsigned32(i), 4);
  }

  /** A slice of a suffix is a slice of the whole, shifted by where the
      suffix starts.
      Stated apart, with an empty body, so that the proofs that use it
      unfold the definitions only here. */
  lemma SliceOfSuffix<T>(s: seq<T>, n: nat, lo: nat, len: nat)
    requires n <= |s| && lo + len <= |s| - n
    ensures s[n..][lo..lo + len] == s[n + lo..n + lo + len]
  {
  }

  /** A sequence that holds `r` at `p` is what comes before, `r`, and what
      comes after. */
  lemma SplitAround<T>(s: seq<T>, p: nat, r: seq<T>)
    requires p + |r| <= |s| && s[p..p + |r|] == r
    ensures s == s[..p] + r + s[p + |r|..]
  {
    assert s == s[..p] + s[p..p + |r|] + s[p + |r|..];
  }

  /** One past the largest file offset: positions are 64-bit signed. */
  const OffsetLimit: int := 0x8000_0000_0000_0000

  /** A binary file's `seek(offset)` accepts a position from 0 up to
      OffsetLimit - 1; a negative one raises OSError (EINVAL), and one that
      does not fit a 64-bit offset raises ValueError. */
  predicate SeekAllowed(offset: int) {
    0 <= offset < OffsetLimit
  }

  /** A binary file's `read(n)` accepts -1 (read everything that is left)
      and any count from 0 up; any other negative count raises ValueError. */
  predicate ReadCountAllowed(n: int) {
    n >= -1
  }

  /** What a binary file's `read(n)` returns when its position is `pos`:
      nothing at or past the end, everything that is left for `n == -1`,
      and otherwise at most `n` bytes. */
  function ReadAt(data: seq<byte>, pos: nat, n: int): (chunk: seq<byte>)
    requires ReadCountAllowed(n)
    ensures pos >= |data| ==> |chunk| == 0
    ensures pos < |data| ==> pos + |chunk| <= |data|
    ensures pos < |data| ==> |chunk| == (if n == -1 || pos + n > |data| then |data| - pos else n)
  {
    if pos >= |data| then []
    else if n == -1 then data[pos..]
    else if pos + n <= |data| then data[pos..pos + n]
    else data[pos..]
  }

  /** What a read returns is the data from the read position on. */
  lemma ReadAtSlice(data: seq<byte>, pos: nat, n: int)
    requires pos < |data| && ReadCountAllowed(n)
    ensures pos + |ReadAt(data, pos, n)| <= |data|
    ensures ReadAt(data, pos, n) == data[pos..pos + |ReadAt(data, pos, n)|]
  {
  }
}
