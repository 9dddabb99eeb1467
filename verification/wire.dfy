/**
 * Fixed-width values as they appear on the wire. The gateway copies values
 * with `memcpy` in host byte order, which is little-endian on its targets, so
 * every multi-byte integer here is little-endian; signed values are two's
 * complement.
 */
module Wire {
  import opened Base

  const Two8: int := 0x100
  const Two31: int := 0x8000_0000
  const Two32: int := 0x1_0000_0000

  type Int8 = x: int | -128 <= x < 128
  type Int32 = x: int | -0x8000_0000 <= x < 0x8000_0000
  type UInt32 = x: int | 0 <= x < 0x1_0000_0000

  /**
   * A `double` is treated as its 8-byte IEEE 754 image in host order; no
   * floating-point arithmetic is modelled, so it round-trips bit for bit.
   */
  type Double = s: Bytes | |s| == 8 witness [0, 0, 0, 0, 0, 0, 0, 0]

  /** The 4 little-endian bytes of an unsigned 32-bit value. */
  function LE32(u: UInt32): (r: Bytes)
    ensures |r| == 4
  {
    var q1 := u / 0x100;
    var q2 := q1 / 0x100;
    [u % 0x100, q1 % 0x100, q2 % 0x100, q2 / 0x100]
  }

  /** The unsigned 32-bit value of 4 little-endian bytes. */
  function FromLE32(s: Bytes): (u: UInt32)
    requires |s| == 4
  {
    s[0] as int + 0x100 * (s[1] as int) + 0x1_0000 * (s[2] as int) + 0x100_0000 * (s[3] as int)
  }

  lemma LE32RoundTrip(u: UInt32)
    ensures FromLE32(LE32(u)) == u
  {
    var q1 := u / 0x100;
    var q2 := q1 / 0x100;
    var q3 := q2 / 0x100;
    assert u == u % 0x100 + 0x100 * q1;
    assert q1 == q1 % 0x100 + 0x100 * q2;
    assert q2 == q2 % 0x100 + 0x100 * q3;
  }

  /** `static_cast<int32_t>` of an unsigned value: reduction modulo 2^32 into the signed range. */
  function ToInt32(n: nat): (r: Int32)
    ensures n < Two31 ==> r == n
  {
    var m := n % Two32;
    if m < Two31 then m else m - Two32
  }

  function EncodeInt8(v: Int8): (r: Bytes)
    ensures |r| == 1
  {
    [if v < 0 then v + Two8 else v]
  }

  function DecodeInt8(s: Bytes): Int8
    requires |s| == 1
  {
    if s[0] < 128 then s[0] else s[0] - Two8
  }

  function EncodeInt32(v: Int32): (r: Bytes)
    ensures |r| == 4
  {
    LE32(if v < 0 then v + Two32 else v)
  }

  function DecodeInt32(s: Bytes): Int32
    requires |s| == 4
  {
    var u := FromLE32(s);
    if u < Two31 then u else u - Two32
  }

  function EncodeUInt32(v: UInt32): (r: Bytes)
    ensures |r| == 4
  {
    LE32(v)
  }

  function DecodeUInt32(s: Bytes): UInt32
    requires |s| == 4
  {
    FromLE32(s)
  }

  function EncodeDouble(d: Double): (r: Bytes)
    ensures |r| == 8
  {
    d
  }

  function DecodeDouble(s: Bytes): Double
    requires |s| == 8
  {
    s
  }

  lemma Int8RoundTrip(v: Int8)
    ensures DecodeInt8(EncodeInt8(v)) == v
  {
  }

  lemma Int32RoundTrip(v: Int32)
    ensures DecodeInt32(EncodeInt32(v)) == v
  {
    LE32RoundTrip(if v < 0 then v + Two32 else v);
  }

  lemma UInt32RoundTrip(v: UInt32)
    ensures DecodeUInt32(EncodeUInt32(v)) == v
  {
    LE32RoundTrip(v);
  }

  lemma DoubleRoundTrip(d: Double)
    ensures DecodeDouble(EncodeDouble(d)) == d
  {
  }

  /** A string on the wire: its `int32` length, then its raw bytes, no terminator. */
  function EncodeString(s: Bytes): (r: Bytes)
    requires |s| < Two31
    ensures |r| == 4 + |s|
    ensures r[4..] == s
  {
    EncodeInt32(|s|) + s
  }

  /** `memcpy` of `static_cast<int32_t>(n)`: the low 32 bits of `n`, little-endian. */
  lemma Int32OfSizeBytes(n: nat)
    ensures EncodeInt32(ToInt32(n)) == LE32(n % Two32)
    ensures DecodeUInt32(EncodeInt32(ToInt32(n))) == n % Two32
  {
    LE32RoundTrip(n % Two32);
  }

  /** A non-negative `int32` and the same value as `uint32` have the same bytes. */
  lemma NonNegativeInt32IsUInt32(v: Int32)
    requires 0 <= v
    ensures EncodeInt32(v) == EncodeUInt32(v)
  {
  }
}
