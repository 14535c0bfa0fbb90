/** Fixed-width integers and the `from_ne_bytes` / `to_ne_bytes` conversions,
    with the native byte order fixed to little-endian (the Windows targets). */
module Integers {

  type u8 = x: int | 0 <= x < 0x100
  type u16 = x: int | 0 <= x < 0x1_0000
  type u32 = x: int | 0 <= x < 0x1_0000_0000
  type i32 = x: int | -0x8000_0000 <= x < 0x8000_0000

  /** `u16::from_ne_bytes`: the first byte is the low one. */
  function U16FromBytes(b: seq<u8>): (r: u16)
    requires |b| == 2
    ensures r % 0x100 == b[0] && r / 0x100 == b[1]
  {
    b[0] as int + 0x100 * (b[1] as int)
  }

  /** `u16::to_ne_bytes`. */
  function U16ToBytes(v: u16): (r: seq<u8>)
    ensures |r| == 2
    ensures r[0] as int + 0x100 * r[1] as int == v
  {
    [v % 0x100, v / 0x100]
  }

  /** `u32::from_ne_bytes`: two little-endian halves, the low one first. */
  function U32FromBytes(b: seq<u8>): (r: u32)
    requires |b| == 4
    ensures r == b[0] as int + 0x100 * b[1] as int + 0x1_0000 * b[2] as int + 0x100_0000 * b[3] as int
  {
    U16FromBytes(b[..2]) + 0x1_0000 * U16FromBytes(b[2..])
  }

  /** `u32::to_ne_bytes`. */
  function U32ToBytes(v: u32): (r: seq<u8>)
    ensures |r| == 4
    ensures r[0] as int + 0x100 * r[1] as int + 0x1_0000 * r[2] as int + 0x100_0000 * r[3] as int == v
  {
    U16ToBytes(v % 0x1_0000) + U16ToBytes(v / 0x1_0000)
  }

  /** `i32::from_ne_bytes`: the same four bytes read as two's complement. */
  function I32FromBytes(b: seq<u8>): (r: i32)
    requires |b| == 4
    ensures r % 0x1_0000_0000 == U32FromBytes(b)
    ensures r < 0 <==> b[3] >= 0x80
  {
    var u := U32FromBytes(b);
    if u < 0x8000_0000 then u else u - 0x1_0000_0000
  }

  /** `i32::to_ne_bytes`: the two's-complement bit pattern, `v mod 2^32`. */
  function I32ToBytes(v: i32): (r: seq<u8>)
    ensures |r| == 4
    ensures U32FromBytes(r) == v % 0x1_0000_0000
    ensures r[3] >= 0x80 <==> v < 0
  {
    U32ToBytes(v % 0x1_0000_0000)
  }

  lemma U16RoundTrip(v: u16)
    ensures U16FromBytes(U16ToBytes(v)) == v
  {
  }

  lemma U16BytesRoundTrip(b: seq<u8>)
    requires |b| == 2
    ensures U16ToBytes(U16FromBytes(b)) == b
  {
  }

  lemma U32RoundTrip(v: u32)
    ensures U32FromBytes(U32ToBytes(v)) == v
  {
    var b := U32ToBytes(v);
    assert b[..2] == U16ToBytes(v % 0x1_0000);
    assert b[2..] == U16ToBytes(v / 0x1_0000);
    U16RoundTrip(v % 0x1_0000);
    U16RoundTrip(v / 0x1_0000);
  }

  lemma U32BytesRoundTrip(b: seq<u8>)
    requires |b| == 4
    ensures U32ToBytes(U32FromBytes(b)) == b
  {
    var lo, hi := U16FromBytes(b[..2]), U16FromBytes(b[2..]);
    assert U32FromBytes(b) % 0x1_0000 == lo && U32FromBytes(b) / 0x1_0000 == hi;
    U16BytesRoundTrip(b[..2]);
    U16BytesRoundTrip(b[2..]);
    assert b == b[..2] + b[2..];
  }

  lemma I32RoundTrip(v: i32)
    ensures I32FromBytes(I32ToBytes(v)) == v
  {
    U32RoundTrip(v % 0x1_0000_0000);
  }

  lemma I32BytesRoundTrip(b: seq<u8>)
    requires |b| == 4
    ensures I32ToBytes(I32FromBytes(b)) == b
  {
    U32BytesRoundTrip(b);
  }
}
