/**
 * Row remapping of the multi-scale descriptor matrix (Matcher::multiScaleMatching).
 *
 * The extractor stores descriptors scale-major: for K keypoints and
 * nLevels scale levels, row level * K + kp holds keypoint kp at that level.
 * The matcher moves row j to row nLevels * (j mod K) + j div K, after which
 * the nLevels descriptors of one keypoint are adjacent: keypoint kp at
 * level l sits in row kp * nLevels + l, so each keypoint pair owns an
 * nLevels x nLevels block of the distance matrix.
 */
module IndexRemap {
  import opened Arith

  /** Target row of scale-major row j in a matrix of L rows (the map of id1 and id2). */
  function Interleave(j: int, L: int, nLevels: int): int
    requires nLevels > 0 && L / nLevels > 0
  {
    nLevels * (j % (L / nLevels)) + j / (L / nLevels)
  }

  /** The inverse map: scale-major row that lands in row i. */
  function Deinterleave(i: int, L: int, nLevels: int): int
    requires nLevels > 0
  {
    (L / nLevels) * (i % nLevels) + i / nLevels
  }

  /** The length L of a descriptor matrix suits nLevels: a whole number of keypoints, each with nLevels rows. */
  predicate Divides(L: int, nLevels: int) {
    nLevels > 0 && L >= 0 && L % nLevels == 0
  }

  lemma DividesParts(L: int, nLevels: int)
    requires Divides(L, nLevels)
    ensures (L > 0 ==> L / nLevels >= 1) && L == nLevels * (L / nLevels)
  {
    DivModUnique(L, nLevels, L / nLevels, 0);
  }

  /** Scale-major row level * K + kp is moved to row kp * nLevels + level. */
  lemma InterleaveScaleMajor(L: int, nLevels: int, level: int, kp: int)
    requires Divides(L, nLevels)
    requires 0 <= level < nLevels && 0 <= kp < L / nLevels
    ensures Interleave(level * (L / nLevels) + kp, L, nLevels) == kp * nLevels + level
  {
    DividesParts(L, nLevels);
    var K := L / nLevels;
    DivModUnique(level * K + kp, K, level, kp);
  }

  /** Row kp * nLevels + level comes from scale-major row level * K + kp. */
  lemma DeinterleaveKeypointMajor(L: int, nLevels: int, level: int, kp: int)
    requires Divides(L, nLevels)
    requires 0 <= level < nLevels && 0 <= kp < L / nLevels
    ensures Deinterleave(kp * nLevels + level, L, nLevels) == level * (L / nLevels) + kp
  {
    DivModUnique(kp * nLevels + level, nLevels, kp, level);
  }

  /** Every scale-major row splits into its level and keypoint. */
  lemma ScaleMajorParts(L: int, nLevels: int, j: int)
    requires Divides(L, nLevels) && 0 <= j < L
    ensures 0 <= j / (L / nLevels) < nLevels && 0 <= j % (L / nLevels) < L / nLevels
    ensures j == (j / (L / nLevels)) * (L / nLevels) + j % (L / nLevels)
  {
    DividesParts(L, nLevels);
  }

  /** Every target row splits into its keypoint and level. */
  lemma KeypointMajorParts(L: int, nLevels: int, i: int)
    requires Divides(L, nLevels) && 0 <= i < L
    ensures 0 <= i / nLevels < L / nLevels && 0 <= i % nLevels < nLevels
    ensures i == (i / nLevels) * nLevels + i % nLevels
  {
    DividesParts(L, nLevels);
  }

  /** The remap sends [0, L) into [0, L) and Deinterleave undoes it. */
  lemma InterleaveInverse(L: int, nLevels: int, j: int)
    requires Divides(L, nLevels) && 0 <= j < L
    ensures 0 <= Interleave(j, L, nLevels) < L
    ensures Deinterleave(Interleave(j, L, nLevels), L, nLevels) == j
  {
    DividesParts(L, nLevels);
    ScaleMajorParts(L, nLevels, j);
    var K := L / nLevels;
    var level, kp := j / K, j % K;
    InterleaveScaleMajor(L, nLevels, level, kp);
    DeinterleaveKeypointMajor(L, nLevels, level, kp);
    MulAtLeast(K - kp, nLevels);
    assert nLevels * K == (K - kp) * nLevels + kp * nLevels;
  }

  /** Deinterleave sends [0, L) into [0, L) and the remap undoes it. */
  lemma DeinterleaveInverse(L: int, nLevels: int, i: int)
    requires Divides(L, nLevels) && 0 <= i < L
    ensures 0 <= Deinterleave(i, L, nLevels) < L
    ensures Interleave(Deinterleave(i, L, nLevels), L, nLevels) == i
  {
    DividesParts(L, nLevels);
    KeypointMajorParts(L, nLevels, i);
    var K := L / nLevels;
    var kp, level := i / nLevels, i % nLevels;
    InterleaveScaleMajor(L, nLevels, level, kp);
    DeinterleaveKeypointMajor(L, nLevels, level, kp);
    MulAtLeast(nLevels - level, K);
    assert nLevels * K == (nLevels - level) * K + level * K;
  }

  /** Distinct rows go to distinct rows, so no cell of the distance matrix is written twice. */
  lemma InterleaveInjective(L: int, nLevels: int, j: int, k: int)
    requires Divides(L, nLevels) && 0 <= j < L && 0 <= k < L
    ensures Interleave(j, L, nLevels) == Interleave(k, L, nLevels) <==> j == k
  {
    InterleaveInverse(L, nLevels, j);
    InterleaveInverse(L, nLevels, k);
  }

  /** When nLevels does not divide L the map is not injective: with L = 10, nLevels = 4, rows 1 and 8 collide. */
  lemma InterleaveCollidesWithoutDivisibility()
    ensures Interleave(1, 10, 4) == Interleave(8, 10, 4) == 4
  { }

  /** The loop that fills id1 (or id2). */
  method BuildIndexMap(L: int, nLevels: int) returns (id: array<int>)
    requires nLevels > 0 && L >= 0 && (L > 0 ==> L / nLevels > 0)
    ensures fresh(id) && id.Length == L
    ensures forall j :: 0 <= j < L ==> id[j] == Interleave(j, L, nLevels)
  {
    id := new int[L];
    for j := 0 to L
      invariant forall k :: 0 <= k < j ==> id[k] == Interleave(k, L, nLevels)
    {
      id[j] := nLevels * (j % (L / nLevels)) + j / (L / nLevels);
    }
  }
}
