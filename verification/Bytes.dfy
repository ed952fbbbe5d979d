/** Bytes, byte strings and the little-endian values that FAT structures are made of. */
module Bytes {

  type byte = x: int | 0 <= x < 256 witness 0

  /** `n` zero bytes: what a `memset(.., 0, n)` stores. */
  function Zeros(n: nat): (z: seq<byte>)
    ensures |z| == n && forall i :: 0 <= i < n ==> z[i] == 0
  {
    seq(n, _ => 0)
  }

  /** `s` with the bytes from position `at` on replaced by `data`. */
  function Splice(s: seq<byte>, at: nat, data: seq<byte>): (r: seq<byte>)
    requires at + |data| <= |s|
    ensures |r| == |s|
    ensures forall i :: 0 <= i < |s| ==> r[i] == if at <= i < at + |data| then data[i - at] else s[i]
  {
    s[..at] + data + s[at + |data|..]
  }

  /** The `n` bytes of `s` from position `at` on. */
  function Slice(s: seq<byte>, at: nat, n: nat): (r: seq<byte>)
    requires at + n <= |s|
    ensures |r| == n
  {
    s[at..at + n]
  }

  lemma SliceNone(s: seq<byte>, at: nat)
    requires at <= |s|
    ensures Slice(s, at, 0) == []
  {
  }

  lemma SliceAppend(s: seq<byte>, at: nat, n: nat, m: nat)
    requires at + n + m <= |s|
    ensures Slice(s, at, n) + Slice(s, at + n, m) == Slice(s, at, n + m)
  {
  }

  /** Equal stretches have equal parts. */
  lemma SubSlices(a: seq<byte>, i: nat, b: seq<byte>, j: nat, n: nat, off: nat, size: nat)
    requires i + n <= |a| && j + n <= |b| && Slice(a, i, n) == Slice(b, j, n)
    requires off + size <= n
    ensures Slice(a, i + off, size) == Slice(b, j + off, size)
  {
    var x, y := a[i + off..i + off + size], b[j + off..j + off + size];
    forall k | 0 <= k < size ensures x[k] == y[k] {
      assert a[i..i + n][off + k] == b[j..j + n][off + k];
    }
  }

  /** Neighbouring equal stretches make one. */
  lemma JoinSlices(a: seq<byte>, i: nat, b: seq<byte>, j: nat, n: nat, m: nat)
    requires i + n + m <= |a| && j + n + m <= |b|
    requires Slice(a, i, n) == Slice(b, j, n) && Slice(a, i + n, m) == Slice(b, j + n, m)
    ensures Slice(a, i, n + m) == Slice(b, j, n + m)
  {
    assert a[i..i + (n + m)] == a[i..i + n] + a[i + n..i + n + m];
    assert b[j..j + (n + m)] == b[j..j + n] + b[j + n..j + n + m];
  }

  /** The little-endian value held by the first one, two or four bytes of `b`. */
  function U16(b: seq<byte>): (v: nat)
    requires |b| == 2
    ensures v < 0x1_0000
  {
    b[0] as nat + 0x100 * (b[1] as nat)
  }

  function U32(b: seq<byte>): (v: nat)
    requires |b| == 4
    ensures v < 0x1_0000_0000
  {
    U16(b[..2]) + 0x1_0000 * U16(b[2..])
  }

  /** The bytes that hold `v`, least significant byte first; higher bits are cut off. */
  function ToU16(v: nat): (b: seq<byte>)
    ensures |b| == 2
  {
    [v % 0x100, v / 0x100 % 0x100]
  }

  function ToU32(v: nat): (b: seq<byte>)
    ensures |b| == 4
  {
    ToU16(v) + ToU16(v / 0x1_0000)
  }

  /** The value of a one, two or four byte little-endian field, and the bytes that store one. */
  function Value(b: seq<byte>): nat
    requires |b| in {1, 2, 4}
  {
    if |b| == 1 then b[0] else if |b| == 2 then U16(b) else U32(b)
  }

  function Encoding(v: nat, size: nat): (b: seq<byte>)
    requires size in {1, 2, 4}
    ensures |b| == size
  {
    if size == 1 then [v % 0x100] else if size == 2 then ToU16(v) else ToU32(v)
  }

  /** The value of four bytes, the first one least significant. */
  lemma U32IsLittleEndian(b: seq<byte>)
    requires |b| == 4
    ensures U32(b) == b[0] as int + 0x100 * (b[1] as int) + 0x1_0000 * (b[2] as int) + 0x100_0000 * (b[3] as int)
  {
    assert b[..2][0] == b[0] && b[..2][1] == b[1] && b[2..][0] == b[2] && b[2..][1] == b[3];
  }

  lemma ToU32IsLittleEndian(v: nat)
    ensures ToU32(v) == [v % 0x100, v / 0x100 % 0x100, v / 0x1_0000 % 0x100, v / 0x100_0000 % 0x100]
  {
    assert v / 0x1_0000 / 0x100 == v / 0x100_0000;
  }

  /** What is stored for a value, byte by byte. */
  lemma EncodingIs(v: nat, size: nat)
    requires size in {1, 2, 4}
    ensures Encoding(v, size)[0] == v % 0x100
    ensures size >= 2 ==> Encoding(v, size)[1] == v / 0x100 % 0x100
    ensures size == 4 ==> Encoding(v, size)[2] == v / 0x1_0000 % 0x100 && Encoding(v, size)[3] == v / 0x100_0000 % 0x100
  {
    ToU32IsLittleEndian(v);
  }

  lemma ValueIs(b: seq<byte>)
    requires |b| in {1, 2, 4}
    ensures |b| == 1 ==> Value(b) == b[0]
    ensures |b| == 2 ==> Value(b) == b[0] as int + 0x100 * (b[1] as int)
    ensures |b| == 4 ==>
              Value(b) == b[0] as int + 0x100 * (b[1] as int) + 0x1_0000 * (b[2] as int) + 0x100_0000 * (b[3] as int)
  {
    if |b| == 4 { U32IsLittleEndian(b); }
  }

  lemma U16RoundTrip(v: nat)
    ensures U16(ToU16(v)) == v % 0x1_0000
  {
    var b := ToU16(v);
    assert v % 0x1_0000 == v % 0x100 + 0x100 * (v / 0x100 % 0x100);
  }

  lemma U32RoundTrip(v: nat)
    ensures U32(ToU32(v)) == v % 0x1_0000_0000
  {
    var low, high := ToU16(v), ToU16(v / 0x1_0000);
    assert ToU32(v)[..2] == low && ToU32(v)[2..] == high;
    U16RoundTrip(v);
    U16RoundTrip(v / 0x1_0000);
    SplitMod(v);
  }

  lemma SplitMod(v: nat)
    ensures v % 0x1_0000_0000 == v % 0x1_0000 + 0x1_0000 * (v / 0x1_0000 % 0x1_0000)
  {
  }
}
