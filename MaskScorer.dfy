/**
 * The masked block scorer (Matcher::getDistanceAndScaleRatio, strategies C,
 * C-SEC, wC, wC-SEC and cORB), for a kernel half-length W = 0.
 *
 * With W = 0 the diagonal kernel is the 1 x 1 identity on every branch (the
 * south-east and WMA branches only touch the empty range [0, W) or rescale
 * the single weight by itself), so the filtered and normalised block equals
 * the block. A mask of 256s is then zeroed on a window chosen by R around
 * the detection scales (s1, s2), added to the block, and the first minimum
 * of the sum is reported.
 */
module MaskScorer {
  import opened Blocks

  /** Value of the mask outside the zeroed window. */
  const MaskHigh := 256

  /**
   * The zeroed window: R = -1 only the detection cell (s1, s2); R = 0 all of
   * row s1 and all of column s2; any other R the rows from s1 down and the
   * columns from s2 right.
   */
  predicate InWindow(R: int, s1: int, s2: int, i: int, j: int) {
    if R == -1 then i == s1 && j == s2
    else if R == 0 then i == s1 || j == s2
    else i >= s1 && j >= s2
  }

  function MaskValue(R: int, s1: int, s2: int, i: int, j: int): int {
    if InWindow(R, s1, s2, i, j) then 0 else MaskHigh
  }

  /** A detection scale the mask can use: a row (or column) for R = -1 and R = 0, a range start otherwise. */
  predicate MaskScaleFits(N: int, R: int, s: int) {
    0 <= s && (if R == -1 || R == 0 then s < N else s <= N)
  }

  predicate ValidScales(N: int, R: int, s1: int, s2: int) {
    MaskScaleFits(N, R, s1) && MaskScaleFits(N, R, s2)
  }

  /** The mask of 256s, zeroed on the window, built with whole-matrix and sub-range assignments. */
  method BuildMask(N: nat, R: int, s1: int, s2: int) returns (mask: array2<int>)
    requires ValidScales(N, R, s1, s2)
    ensures fresh(mask) && mask.Length0 == N && mask.Length1 == N
    ensures forall i, j :: 0 <= i < N && 0 <= j < N ==> mask[i, j] == MaskValue(R, s1, s2, i, j)
  {
    mask := new int[N, N]((i, j) => MaskHigh);
    if R == -1 {
      mask[s1, s2] := 0;
    } else if R == 0 {
      for c := 0 to N
        invariant forall i, j :: 0 <= i < N && 0 <= j < N ==>
          mask[i, j] == (if i == s1 && j < c then 0 else MaskHigh)
      {
        mask[s1, c] := 0;
      }
      for r := 0 to N
        invariant forall i, j :: 0 <= i < N && 0 <= j < N ==>
          mask[i, j] == (if i == s1 || (j == s2 && i < r) then 0 else MaskHigh)
      {
        mask[r, s2] := 0;
      }
    } else {
      for r := s1 to N
        invariant forall i, j :: 0 <= i < N && 0 <= j < N ==>
          mask[i, j] == (if s1 <= i < r && j >= s2 then 0 else MaskHigh)
      {
        for c := s2 to N
          invariant forall i, j :: 0 <= i < N && 0 <= j < N ==>
            mask[i, j] == (if (s1 <= i < r && j >= s2) || (i == r && s2 <= j < c) then 0 else MaskHigh)
        {
          mask[r, c] := 0;
        }
      }
    }
  }

  /** The block plus the mask. */
  function Overlay(b: Block, R: int, s1: int, s2: int): (roi: Block)
    requires IsSquare(b)
    ensures IsSquare(roi) && |roi| == |b|
    ensures forall i, j :: 0 <= i < |b| && 0 <= j < |b| ==> roi[i][j] == b[i][j] + MaskValue(R, s1, s2, i, j)
  {
    seq(|b|, i requires 0 <= i < |b| => seq(|b|, j requires 0 <= j < |b| => b[i][j] + MaskValue(R, s1, s2, i, j)))
  }

  /** The scores of the masked scorer: the first minimum of block plus mask and its location. */
  function MaskedScores(b: Block, R: int, s1: int, s2: int): Scores
    requires IsSquare(b)
  {
    var roi := Overlay(b, R, s1, s2);
    var loc := MinLoc(roi);
    Scores(roi[loc.0][loc.1], loc.0, loc.1)
  }

  /**
   * When every distance is below 256 and the window is not empty, the
   * reported location lies in the window, its score is the block value
   * there, and it is the first row-major minimum of the block over the
   * window.
   */
  lemma MaskedMinInWindow(b: Block, R: int, s1: int, s2: int)
    requires IsSquare(b) && ValidScales(|b|, R, s1, s2) && s1 < |b| && s2 < |b|
    requires forall i, j :: 0 <= i < |b| && 0 <= j < |b| ==> 0 <= b[i][j] < MaskHigh
    ensures var s := MaskedScores(b, R, s1, s2);
      InWindow(R, s1, s2, s.s1, s.s2) && 0 <= s.s1 < |b| && 0 <= s.s2 < |b|
      && s.score == b[s.s1][s.s2]
      && (forall i, j :: 0 <= i < |b| && 0 <= j < |b| && InWindow(R, s1, s2, i, j) ==> s.score <= b[i][j])
      && (forall i, j :: 0 <= i < |b| && 0 <= j < |b| && InWindow(R, s1, s2, i, j) && Before(i, j, s.s1, s.s2)
            ==> s.score < b[i][j])
  {
    var roi := Overlay(b, R, s1, s2);
    var loc := MinLoc(roi);
    assert InWindow(R, s1, s2, s1, s2);
    assert roi[loc.0][loc.1] <= roi[s1][s2];
  }

  /** With R = -1 and distances below 256 the scorer returns the distance at the detection scales. */
  lemma SingleCellMask(b: Block, s1: int, s2: int)
    requires IsSquare(b) && 0 <= s1 < |b| && 0 <= s2 < |b|
    requires forall i, j :: 0 <= i < |b| && 0 <= j < |b| ==> 0 <= b[i][j] < MaskHigh
    ensures MaskedScores(b, -1, s1, s2) == Scores(b[s1][s2], s1, s2)
  {
    MaskedMinInWindow(b, -1, s1, s2);
  }

  /** The integer part of getDistanceAndScaleRatio: mask, overlay, cv::minMaxLoc. */
  method GetDistanceAndScaleRatio(block: Block, R: int, s1: int, s2: int) returns (s: Scores)
    requires IsSquare(block) && ValidScales(|block|, R, s1, s2)
    ensures s == MaskedScores(block, R, s1, s2)
  {
    var N := |block|;
    var mask := BuildMask(N, R, s1, s2);
    var roi := seq(N, i requires 0 <= i < N reads mask =>
                 seq(N, j requires 0 <= j < N reads mask => block[i][j] + mask[i, j]));
    var overlay := Overlay(block, R, s1, s2);
    forall i | 0 <= i < N
      ensures roi[i] == overlay[i]
    {
      assert forall j :: 0 <= j < N ==> roi[i][j] == overlay[i][j];
    }
    assert roi == overlay;
    var idx := MinLoc(roi);
    s := Scores(roi[idx.0][idx.1], idx.0, idx.1);
  }
}
