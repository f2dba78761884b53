/** Bytes as the numbers they stand for, and what the bit operations of the byte-level code do to these. */
module Bytes {
  type byte = x: int | 0 <= x < 256

  lemma {:induction false} NextBits(bits: bv8)
    requires bits < 255
    ensures (bits + 1) as int == bits as int + 1
  {
  }

  /** The eight bits of the byte with number `c`. */
  function Bits(c: byte): (bits: bv8)
    ensures bits as int == c
  {
    if c == 0 then 0
    else
      NextBits(Bits(c - 1));
      Bits(c - 1) + 1
  }

  /** Writing two bytes for one. */
  lemma {:induction false} BitMasksAreArithmetic(c: bv8)
    ensures (0xC0 | ((c >> 6) & 0x1F)) as int == 0xC0 + c as int / 64
    ensures (0x80 | (c & 0x3F)) as int == 0x80 + c as int % 64
  {
  }

  /** Telling kinds of bytes apart. */
  lemma {:induction false} BitTestsAreComparisons(c: bv8)
    ensures (c & 0x80) == 0 <==> (c as int) < 128
    ensures (c & 0xC0) == 0x80 <==> 128 <= (c as int) < 192
  {
  }

  /** Taking the bits of a value out of a byte. */
  lemma {:induction false} LowBitsAreRemainders(c: bv8)
    ensures (c & 0x3F) as int == c as int % 64
    ensures (c & 0x1F) as int == c as int % 32
  {
  }

  lemma {:induction false} FourOrThreeBitsAreRemainders(c: bv8)
    ensures (c & 0x0F) as int == c as int % 16
    ensures (c & 0x07) as int == c as int % 8
  {
  }

  lemma {:induction false} TwoBitsOrOneAreRemainders(c: bv8)
    ensures (c & 0x03) as int == c as int % 4
    ensures (c & 0x01) as int == c as int % 2
  {
  }
}
