/** Bytes and single bits, shared by the encoder and the viewer.
    Both programs work on `unsigned char`, so a byte is an 8-bit vector and the
    shifts, masks and exclusive-ors of the C code can be written as they are. */
module Bits {

  type byte = bv8

  /** Bit `k` of `b`, counting from the least significant bit. */
  predicate Bit(b: byte, k: nat)
    requires k < 8
    decreases k
  {
    if k == 0 then b & 1 == 1 else Bit(b >> 1, k - 1)
  }

  /** Bit `k` is what shifting right by `k` brings to position 0. */
  lemma {:induction false} BitIsShift(b: byte, k: nat)
    requires k < 8
    ensures Bit(b, k) == ((b >> k) & 1 == 1)
    decreases k
  {
    if k > 0 {
      BitIsShift(b >> 1, k - 1);
      ShiftTwice(b, k);
    }
  }

  /** Shifting right by one and then by `k - 1` is shifting right by `k`. */
  lemma ShiftTwice(b: byte, k: nat)
    requires 0 < k < 8
    ensures (b >> 1) >> (k - 1) == b >> k
  {
  }

  /** Shifting `a` left by one and xoring in the low bit of `x` puts that low
      bit at position 0 and moves every bit of `a` up by one. */
  lemma ShiftInBit(a: byte, x: byte, k: nat)
    requires k < 8
    ensures Bit((a << 1) ^ (x & 1), k) == if k == 0 then x & 1 == 1 else Bit(a, k - 1)
  {
    BitIsShift((a << 1) ^ (x & 1), k);
    if k > 0 {
      BitIsShift(a, k - 1);
    }
  }

  /** `ShiftInBit` for every bit above bit 0, where `r` is the shifted byte. */
  lemma ShiftInBitAll(a: byte, x: byte, r: byte)
    requires r == (a << 1) ^ (x & 1)
    ensures forall k :: 0 < k < 8 ==> Bit(r, k) == Bit(a, k - 1)
  {
    forall k | 0 < k < 8
      ensures Bit(r, k) == Bit(a, k - 1)
    {
      ShiftInBit(a, x, k);
    }
  }

  /** The zero byte has no bit set. */
  lemma ZeroBits()
    ensures forall k :: 0 <= k < 8 ==> !Bit(0, k)
  {
    forall k | 0 <= k < 8
      ensures !Bit(0, k)
    {
      BitIsShift(0, k);
    }
  }

  /** Masking with 0xfe clears bit 0 and keeps every other bit. */
  lemma ClearLowBitAll(b: byte)
    ensures forall k :: 0 <= k < 8 ==> Bit(b & 0xfe, k) == (k != 0 && Bit(b, k))
  {
  }

  /** After `i` left shifts, the most significant bit is the original bit `7 - i`. */
  lemma TopAfterShift(b: byte, i: nat)
    requires i < 8
    ensures ((b << i) & 0x80 != 0) == Bit(b, 7 - i)
  {
    BitIsShift(b, 7 - i);
  }

  /** Shifting by `i` and then by one more is shifting by `i + 1`. */
  lemma ShiftAgain(b: byte, i: nat)
    requires i < 8
    ensures (b << i) << 1 == b << (i + 1)
  {
  }
}
