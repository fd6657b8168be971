/**
 * Hamming distance between two binary descriptors (Matcher::DescriptorDistance).
 *
 * A descriptor row is 32 bytes, read by the matcher as eight 32-bit words.
 * The XOR of two words has a set bit wherever the descriptors differ, and
 * the parallel bit count of BitCount adds those bits up.
 */
module Hamming {
  import opened BitCount

  /** A binary descriptor: 256 bits stored as eight 32-bit words. */
  type Descriptor = d: seq<bv32> | |d| == 8 witness [0, 0, 0, 0, 0, 0, 0, 0]

  lemma XorZero(x: bv32, y: bv32) ensures x ^ y == 0 <==> x == y { }

  /** Number of bits in which the words x and y differ. */
  function WordDistance(x: bv32, y: bv32): (d: int)
    ensures 0 <= d <= 32
    ensures d == 0 <==> x == y
  {
    PopCountInt(x ^ y);
    XorZero(x, y);
    PopCount(x ^ y) as int
  }

  /** Differing bits in the first n words of a and b. */
  function WordsDistance(a: Descriptor, b: Descriptor, n: nat): (d: int)
    requires n <= 8
    ensures 0 <= d <= 32 * n
    ensures d == 0 <==> a[..n] == b[..n]
  {
    if n == 0 then 0
    else
      assert a[..n] == a[..n - 1] + [a[n - 1]] && b[..n] == b[..n - 1] + [b[n - 1]];
      WordsDistance(a, b, n - 1) + WordDistance(a[n - 1], b[n - 1])
  }

  /** Hamming distance of two descriptors: the number of bit positions where they differ. */
  function HammingDistance(a: Descriptor, b: Descriptor): (d: int)
    ensures 0 <= d <= 256
    ensures d == 0 <==> a == b
  {
    assert a[..8] == a && b[..8] == b;
    WordsDistance(a, b, 8)
  }

  lemma {:induction false} WordsDistanceSymmetric(a: Descriptor, b: Descriptor, n: nat)
    requires n <= 8
    ensures WordsDistance(a, b, n) == WordsDistance(b, a, n)
  {
    if n > 0 {
      WordsDistanceSymmetric(a, b, n - 1);
      assert a[n - 1] ^ b[n - 1] == b[n - 1] ^ a[n - 1];
    }
  }

  /** The distance does not depend on the order of its arguments. */
  lemma HammingSymmetric(a: Descriptor, b: Descriptor)
    ensures HammingDistance(a, b) == HammingDistance(b, a)
  {
    WordsDistanceSymmetric(a, b, 8);
  }

  lemma WordStep(a: Descriptor, b: Descriptor, i: nat)
    requires i < 8
    ensures WordsDistance(a, b, i + 1) == WordsDistance(a, b, i) + PopCount(a[i] ^ b[i]) as int
  { }

  /**
   * The word loop of the matcher: XOR the words, count the set bits in
   * parallel and accumulate. The sum never exceeds 256, so the mixed
   * int/unsigned addition of the matcher never wraps and is modelled on int.
   */
  method DescriptorDistance(a: Descriptor, b: Descriptor) returns (dist: int)
    ensures dist == HammingDistance(a, b)
  {
    dist := 0;
    for i := 0 to 8
      invariant dist == WordsDistance(a, b, i)
    {
      var v: bv32 := a[i] ^ b[i];
      v := PairCounts(v);
      v := NibbleCounts(v);
      var count := SumBytes(ByteCounts(v));
      SwarIsPopCount(a[i] ^ b[i]);
      WordStep(a, b, i);
      dist := dist + count as int;
    }
  }
}
