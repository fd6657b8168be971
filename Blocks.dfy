/**
 * Square blocks of Hamming distances and the first-minimum search over them.
 *
 * A block holds, for one pair of keypoints, the distances between their
 * descriptors at every pair of scale levels: row = level in image 1,
 * column = level in image 2. Every scorer reduces a block to a triple
 * (score, s1, s2).
 */
module Blocks {
  type Block = seq<seq<int>>

  /** An N x N block with N >= 1. */
  predicate IsSquare(b: Block) {
    |b| > 0 && forall i :: 0 <= i < |b| ==> |b[i]| == |b|
  }

  /** The result of a block scorer: a distance and the pair of scale levels it was found at. */
  datatype Scores = Scores(score: int, s1: int, s2: int)

  /** Cell (r1, c1) comes before cell (r2, c2) in row-major order. */
  predicate Before(r1: int, c1: int, r2: int, c2: int) {
    r1 < r2 || (r1 == r2 && c1 < c2)
  }

  /** (r, c) is the first cell, in row-major order, holding the smallest value of b. */
  predicate IsFirstMin(b: Block, r: int, c: int)
    requires IsSquare(b)
  {
    0 <= r < |b| && 0 <= c < |b|
    && (forall i, j :: 0 <= i < |b| && 0 <= j < |b| ==> b[r][c] <= b[i][j])
    && (forall i, j :: 0 <= i < |b| && 0 <= j < |b| && Before(i, j, r, c) ==> b[r][c] < b[i][j])
  }

  /** Index of the first smallest value among row[..k]. */
  function FirstMinInRow(row: seq<int>, k: nat): (c: nat)
    requires 0 < k <= |row|
    ensures c < k
    ensures forall j :: 0 <= j < k ==> row[c] <= row[j]
    ensures forall j :: 0 <= j < c ==> row[c] < row[j]
  {
    if k == 1 then 0
    else
      var c := FirstMinInRow(row, k - 1);
      if row[k - 1] < row[c] then k - 1 else c
  }

  /** Location of the first smallest value, in row-major order, among the first k rows of b. */
  function FirstMinInRows(b: Block, k: nat): (loc: (nat, nat))
    requires IsSquare(b) && 0 < k <= |b|
    ensures loc.0 < k && loc.1 < |b|
    ensures forall i, j :: 0 <= i < k && 0 <= j < |b| ==> b[loc.0][loc.1] <= b[i][j]
    ensures forall i, j :: 0 <= i < k && 0 <= j < |b| && Before(i, j, loc.0, loc.1) ==> b[loc.0][loc.1] < b[i][j]
  {
    var c := FirstMinInRow(b[k - 1], |b|);
    if k == 1 then (0, c)
    else
      var loc := FirstMinInRows(b, k - 1);
      if b[k - 1][c] < b[loc.0][loc.1] then (k - 1, c) else loc
  }

  /**
   * The location that cv::minMaxLoc reports for the minimum of b: OpenCV scans
   * row-major and keeps the first cell holding the smallest value.
   */
  function MinLoc(b: Block): (loc: (nat, nat))
    requires IsSquare(b)
    ensures IsFirstMin(b, loc.0, loc.1)
  {
    FirstMinInRows(b, |b|)
  }

  /** The first minimum of a block is unique, so MinLoc is the only location with that property. */
  lemma FirstMinUnique(b: Block, r: int, c: int)
    requires IsSquare(b) && IsFirstMin(b, r, c)
    ensures (r, c) == (MinLoc(b).0 as int, MinLoc(b).1 as int)
  { }
}
