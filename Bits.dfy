/**
 * Byte-level helpers for the packed 1-bit-per-pixel back buffer.
 * A byte holds eight horizontally adjacent pixels, most significant bit
 * first: column x lives in bit 0x80 >> (x & 7) of its byte.
 */
module Bits {

  /** The byte holding n, for 0 <= n < 256 (a C store into a uint8_t). */
  function ByteOf(n: int): (b: bv8)
    requires 0 <= n < 256
    ensures b as int == n
  {
    assert n % 256 == n;
    n as bv8
  }

  /** The bit of column x within its byte, 0x80 >> (x & 7), one constant per bit position. */
  function Mask(x: int): (m: bv8)
    ensures m != 0 && m & (m - 1) == 0
    ensures x % 8 == 0 <==> m == 0x80
    ensures x % 8 == 7 <==> m == 0x01
  {
    var r := x % 8;
    if r == 0 then 0x80 else if r == 1 then 0x40 else if r == 2 then 0x20 else if r == 3 then 0x10
    else if r == 4 then 0x08 else if r == 5 then 0x04 else if r == 6 then 0x02 else 0x01
  }

  /** The table agrees with the shift it stands for. */
  lemma MaskIsShift(x: int)
    ensures Mask(x) == 0x80 >> (x % 8)
  {
  }

  /** Two columns share a bit position exactly when they are congruent mod 8. */
  lemma MaskDisjoint(x: int, z: int)
    ensures (Mask(x) & Mask(z) == 0) <==> x % 8 != z % 8
  {
  }

  /** Shifting the mask right moves to the next column; it empties past bit 0. */
  lemma MaskShiftRight(x: int)
    ensures (Mask(x) >> 1 == 0) <==> x % 8 == 7
    ensures x % 8 != 7 ==> Mask(x) >> 1 == Mask(x + 1) && (x + 1) / 8 == x / 8
    ensures x % 8 == 7 ==> Mask(x + 1) == 0x80 && (x + 1) / 8 == x / 8 + 1
  {
  }

  /** Shifting the mask left (within 8 bits) moves to the previous column; it empties past bit 7. */
  lemma MaskShiftLeft(x: int)
    ensures (Mask(x) << 1 == 0) <==> x % 8 == 0
    ensures x % 8 != 0 ==> Mask(x) << 1 == Mask(x - 1) && (x - 1) / 8 == x / 8
    ensures x % 8 == 0 ==> Mask(x - 1) == 0x01 && (x - 1) / 8 == x / 8 - 1
  {
  }

  /** Set (on) or clear (off) the bits of m in b: `b |= m` or `b &= ~m`. */
  function PaintByte(b: bv8, m: bv8, on: bool): (r: bv8)
    ensures r & m == (if on then m else 0)
    ensures r & !m == b & !m
  {
    if on then b | m else b & !m
  }

  /** Bitwise complement of every byte. */
  function Inverted(s: seq<bv8>): (r: seq<bv8>)
    ensures |r| == |s|
    ensures forall i :: 0 <= i < |s| ==> r[i] & s[i] == 0 && r[i] | s[i] == 0xff
  {
    seq(|s|, i requires 0 <= i < |s| => !s[i])
  }

  /** Inverting twice gives the original bytes back. */
  lemma InvertedInvolution(s: seq<bv8>)
    ensures Inverted(Inverted(s)) == s
  {
    assert forall i :: 0 <= i < |s| ==> Inverted(Inverted(s))[i] == s[i];
  }
}
