/**
 * Byte buffers as the DVD and MPEG parsers see them: unsigned bytes, big- and
 * little-endian integer fields, and the C++ integer wrap-arounds that the
 * parsers rely on.
 */
module Bytes {

  /** An unsigned 8-bit value (quint8). */
  type byte = b: int | 0 <= b < 256

  datatype Option<T> = None | Some(value: T)

  const Two16: int := 0x1_0000
  const Two32: int := 0x1_0000_0000

  /** Byte `i` of `s`; a read outside the buffer yields 0. */
  function At(s: seq<byte>, i: int): byte
  {
    if 0 <= i < |s| then s[i] else 0
  }

  /** `n` bits of `x` starting at bit `lo` (a shift right then a mask). */
  function Bits(x: nat, lo: nat, n: nat): (r: nat)
    ensures r < Pow2(n)
  {
    (x / Pow2(lo)) % Pow2(n)
  }

  function Pow2(n: nat): (r: nat)
    ensures r >= 1
  {
    if n == 0 then 1 else 2 * Pow2(n - 1)
  }

  /**
   * A 16-bit big-endian field at `i`; 0 when the field does not fit in the
   * buffer (the convention of QtlByteBlock::fromBigEndian).
   */
  function BE16(s: seq<byte>, i: int): (r: nat)
    ensures r < Two16
  {
    if 0 <= i && i + 2 <= |s| then (s[i] as int) * 256 + s[i + 1] else 0
  }

  /** A 32-bit big-endian field at `i`; 0 when it does not fit. */
  function BE32(s: seq<byte>, i: int): (r: nat)
    ensures r < Two32
  {
    if 0 <= i && i + 4 <= |s| then (((s[i] as int) * 256 + s[i + 1]) * 256 + s[i + 2]) * 256 + s[i + 3] else 0
  }

  /** A 32-bit little-endian field at `i`; 0 when it does not fit. */
  function LE32(s: seq<byte>, i: int): (r: nat)
    ensures r < Two32
  {
    if 0 <= i && i + 4 <= |s| then (((s[i + 3] as int) * 256 + s[i + 2]) * 256 + s[i + 1]) * 256 + s[i] else 0
  }

  /** The two bytes of a 16-bit value in network order (qToBigEndian). */
  function EncodeBE16(v: int): (r: seq<byte>)
    requires 0 <= v < Two16
    ensures |r| == 2 && BE16(r, 0) == v
  {
    [v / 256, v % 256]
  }

  /** The four bytes of a 32-bit value in network order. */
  function EncodeBE32(v: int): (r: seq<byte>)
    requires 0 <= v < Two32
    ensures |r| == 4 && BE32(r, 0) == v
  {
    var b3 := v % 256;
    var w2 := v / 256;
    var b2 := w2 % 256;
    var w1 := w2 / 256;
    var b1 := w1 % 256;
    var b0 := w1 / 256;
    assert v == ((b0 * 256 + b1) * 256 + b2) * 256 + b3;
    [b0, b1, b2, b3]
  }

  /** Euclidean division is determined by its quotient-remainder decomposition. */
  lemma DivUnique(x: int, q: int, r: int, k: int)
    requires k > 0 && 0 <= r < k && x == q * k + r
    ensures x / k == q && x % k == r
  {
    var d := q - x / k;
    assert d * k == x % k - r;
  }

  /** `s` with the bytes from `i` on replaced by `b` (the buffer is not enlarged). */
  function Patch(s: seq<byte>, i: int, b: seq<byte>): (r: seq<byte>)
    requires 0 <= i && i + |b| <= |s|
    ensures |r| == |s|
  {
    s[..i] + b + s[i + |b|..]
  }

  /** Patching bytes with what they already hold changes nothing. */
  lemma PatchSame(s: seq<byte>, i: int, n: int)
    requires 0 <= i && 0 <= n && i + n <= |s|
    ensures Patch(s, i, s[i..i + n]) == s
  {
    assert s[..i] + s[i..i + n] + s[i + n..] == s;
  }

  /** Inside the patched bytes `b` shows through, elsewhere `s` is untouched. */
  lemma PatchContents(s: seq<byte>, i: int, b: seq<byte>)
    requires 0 <= i && i + |b| <= |s|
    ensures Patch(s, i, b)[i..i + |b|] == b
    ensures forall k :: 0 <= k < |s| ==> Patch(s, i, b)[k] == (if i <= k < i + |b| then b[k - i] else s[k])
  {
  }

  /** A 32-bit unsigned result (quint32 arithmetic): the value modulo 2^32. */
  function U32(x: int): (r: nat)
    ensures r < Two32 && (r - x) % Two32 == 0
  {
    x % Two32
  }

  /** The `int` that a 32-bit pattern becomes in two's complement. */
  function I32(x: int): (r: int)
    ensures -0x8000_0000 <= r < 0x8000_0000 && (r - x) % Two32 == 0
    ensures -0x8000_0000 <= x < 0x8000_0000 ==> r == x
  {
    var u := x % Two32;
    if u < 0x8000_0000 then u else u - Two32
  }

  /** getLatin1(index, size): the bytes as Latin-1 characters, cut at the end of the block. */
  function Latin1(s: seq<byte>, index: nat, size: nat): (r: string)
    ensures |r| <= size
    decreases size
  {
    if size == 0 || index >= |s| then [] else [s[index] as char] + Latin1(s, index + 1, size - 1)
  }
}
