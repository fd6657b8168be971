/**
 * Bit counting on 32-bit words, as used by the Hamming distance of the matcher.
 *
 * The matcher counts set bits with the parallel ("SWAR") trick: pairs, then
 * nibbles, then bytes are summed inside the word, and a multiplication by
 * 0x01010101 adds the four byte counts into the top byte. PopCount is the
 * reference count, the plain sum of the 32 one-bit extracts grouped by byte,
 * and SwarIsPopCount proves the two agree on every word.
 */
module BitCount {
  /** Number of set bits in the low byte of y: the sum of its eight one-bit extracts. */
  function ByteBits(y: bv32): bv32 {
    (y & 1) + ((y >> 1) & 1) + ((y >> 2) & 1) + ((y >> 3) & 1)
    + ((y >> 4) & 1) + ((y >> 5) & 1) + ((y >> 6) & 1) + ((y >> 7) & 1)
  }

  function Add(a: bv32, b: bv32): bv32 { a + b }

  /** Number of set bits in the top k bytes of v. */
  function HighBytesBits(v: bv32, k: nat): bv32
    requires k <= 4
    decreases k
  {
    if k == 0 then 0 else Add(ByteBits(v >> 24), HighBytesBits(v << 8, k - 1))
  }

  /** Reference population count: the set bits of the four bytes of v. */
  function PopCount(v: bv32): bv32 {
    HighBytesBits(v, 4)
  }

  lemma ShiftedBytes(v: bv32)
    ensures ByteBits((v << 8) >> 24) == ByteBits(v >> 16)
    ensures ByteBits((v << 8 << 8) >> 24) == ByteBits(v >> 8)
    ensures ByteBits((v << 8 << 8 << 8) >> 24) == ByteBits(v)
  { }

  /** PopCount adds the bit counts of the four bytes, highest byte first. */
  lemma PopCountBytes(v: bv32)
    ensures PopCount(v) == Add(ByteBits(v >> 24), Add(ByteBits(v >> 16), Add(ByteBits(v >> 8), Add(ByteBits(v), 0))))
  {
    assert HighBytesBits(v << 8 << 8 << 8, 1) == Add(ByteBits((v << 8 << 8 << 8) >> 24), HighBytesBits(v << 8 << 8 << 8 << 8, 0));
    assert HighBytesBits(v << 8 << 8, 2) == Add(ByteBits((v << 8 << 8) >> 24), HighBytesBits(v << 8 << 8 << 8, 1));
    assert HighBytesBits(v << 8, 3) == Add(ByteBits((v << 8) >> 24), HighBytesBits(v << 8 << 8, 2));
    assert HighBytesBits(v, 4) == Add(ByteBits(v >> 24), HighBytesBits(v << 8, 3));
    ShiftedBytes(v);
  }

  // The four steps of the parallel bit count, with the constants of the matcher.

  /** Step 1: every 2-bit field holds the number of set bits of that field of v. */
  function PairCounts(v: bv32): bv32 { v - ((v >> 1) & 0x55555555) }
  /** Step 2: every 4-bit field holds the sum of its two 2-bit fields. */
  function NibbleCounts(v: bv32): bv32 { (v & 0x33333333) + ((v >> 2) & 0x33333333) }
  /** Step 3: every byte holds the sum of its two nibbles. */
  function ByteCounts(v: bv32): bv32 { (v + (v >> 4)) & 0xF0F0F0F }
  /** Step 4: the multiplication gathers the four byte sums in the top byte. */
  function SumBytes(v: bv32): bv32 { (v * 0x1010101) >> 24 }

  // Intermediate forms used in the proof: the same counts written as plain sums.

  /** Every nibble of the result holds the number of set bits of that nibble of v. */
  function NibbleSums(v: bv32): bv32 {
    (v & 0x11111111) + ((v >> 1) & 0x11111111) + ((v >> 2) & 0x11111111) + ((v >> 3) & 0x11111111)
  }

  /** Every byte of the result holds the number of set bits of that byte of v. */
  function ByteSums(v: bv32): bv32 {
    (v & 0x01010101) + ((v >> 1) & 0x01010101) + ((v >> 2) & 0x01010101) + ((v >> 3) & 0x01010101)
    + ((v >> 4) & 0x01010101) + ((v >> 5) & 0x01010101) + ((v >> 6) & 0x01010101) + ((v >> 7) & 0x01010101)
  }

  /** Sum of the four bytes of x. */
  function LowBytes(x: bv32): bv32 { Add((x >> 24) & 0xFF, Add((x >> 16) & 0xFF, Add((x >> 8) & 0xFF, Add(x & 0xFF, 0)))) }

  lemma PairNibble(v: bv32) ensures NibbleCounts(PairCounts(v)) == NibbleSums(v) { }
  lemma NibbleByte(v: bv32) ensures ByteCounts(NibbleSums(v)) == ByteSums(v) { }
  lemma ByteSumsSmall(v: bv32) ensures ByteSums(v) & 0xF0F0F0F0 == 0 { }
  lemma MulShifts(x: bv32) ensures x * 0x1010101 == x + (x << 8) + (x << 16) + (x << 24) { }
  lemma ShiftsAdd(x: bv32)
    requires x & 0xF0F0F0F0 == 0
    ensures (x + (x << 8) + (x << 16) + (x << 24)) >> 24 == LowBytes(x)
  { }
  lemma SumBytesAdds(x: bv32) requires x & 0xF0F0F0F0 == 0 ensures SumBytes(x) == LowBytes(x) {
    MulShifts(x);
    ShiftsAdd(x);
  }
  lemma Byte0(v: bv32) ensures ByteSums(v) & 0xFF == ByteBits(v) { }
  lemma Byte1(v: bv32) ensures (ByteSums(v) >> 8) & 0xFF == ByteBits(v >> 8) { }
  lemma Byte2(v: bv32) ensures (ByteSums(v) >> 16) & 0xFF == ByteBits(v >> 16) { }
  lemma Byte3(v: bv32) ensures (ByteSums(v) >> 24) & 0xFF == ByteBits(v >> 24) { }

  lemma SwarAddsBytes(v: bv32)
    ensures SumBytes(ByteCounts(NibbleCounts(PairCounts(v)))) == LowBytes(ByteSums(v))
  {
    PairNibble(v);
    NibbleByte(v);
    ByteSumsSmall(v);
    SumBytesAdds(ByteSums(v));
  }

  lemma ByteSumsCount(v: bv32)
    ensures LowBytes(ByteSums(v)) == PopCount(v)
  {
    Byte0(v);
    Byte1(v);
    Byte2(v);
    Byte3(v);
    PopCountBytes(v);
  }

  /** The parallel bit count of the matcher computes the population count of every word. */
  lemma SwarIsPopCount(v: bv32)
    ensures SumBytes(ByteCounts(NibbleCounts(PairCounts(v)))) == PopCount(v)
  {
    SwarAddsBytes(v);
    ByteSumsCount(v);
  }

  lemma PopCountAtMost32(v: bv32) ensures PopCount(v) <= 32 { PopCountBytes(v); }
  lemma PopCountZero(v: bv32) ensures PopCount(v) == 0 <==> v == 0 { PopCountBytes(v); }
  lemma SmallInt(c: bv32) requires c <= 32 ensures c as int <= 32 && (c as int == 0 <==> c == 0) { }

  /** As an integer, the population count lies in [0, 32] and is zero exactly for the zero word. */
  lemma PopCountInt(v: bv32)
    ensures 0 <= PopCount(v) as int <= 32
    ensures PopCount(v) as int == 0 <==> v == 0
  {
    PopCountAtMost32(v);
    PopCountZero(v);
    SmallInt(PopCount(v));
  }
}
