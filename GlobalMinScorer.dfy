/**
 * The global-minimum block scorer (Matcher::scaleMatchingMin, strategy RM).
 *
 * The scorer reports the first row-major minimum of the block and its
 * location. With maxCond = 1 (or 2) a minimum that lies outside the first
 * row or column (outside the first two) is replaced by the sentinel 10000.
 * With the south-east check the score becomes instead the mean of the cells
 * on the descending diagonal from the minimum down to the edge of the
 * block, divided as C++ divides ints.
 */
module GlobalMinScorer {
  import opened Arith
  import opened Blocks

  /** Score that marks a minimum rejected by the row/column gate. */
  const Rejected := 10000

  /** The gate rejects the location (r, c). */
  predicate Gated(maxCond: int, r: int, c: int) {
    (maxCond == 1 && r != 0 && c != 0)
    || (maxCond == 2 && r != 0 && c != 0 && r != 1 && c != 1)
  }

  /** Sum of the cells (r + t, c + t) that lie inside the block. */
  function DiagonalSum(b: Block, r: nat, c: nat): int
    requires IsSquare(b)
    decreases |b| - r
  {
    if r < |b| && c < |b| then b[r][c] + DiagonalSum(b, r + 1, c + 1) else 0
  }

  /** Number of cells on the diagonal from (r, c) to the edge of an N x N block. */
  function DiagonalLength(N: nat, r: nat, c: nat): int {
    if r < N && c < N then N - (if r < c then c else r) else 0
  }

  /** Bounds on every cell of a diagonal bound its sum. */
  lemma {:induction false} DiagonalSumBounds(b: Block, r: nat, c: nat, lo: int, hi: int)
    requires IsSquare(b)
    requires forall i, j :: 0 <= i < |b| && 0 <= j < |b| ==> lo <= b[i][j] <= hi
    ensures lo * DiagonalLength(|b|, r, c) <= DiagonalSum(b, r, c) <= hi * DiagonalLength(|b|, r, c)
    decreases |b| - r
  {
    if r < |b| && c < |b| {
      DiagonalSumBounds(b, r + 1, c + 1, lo, hi);
      var n := DiagonalLength(|b|, r + 1, c + 1);
      assert DiagonalLength(|b|, r, c) == n + 1;
      assert lo <= b[r][c] <= hi;
      MulSucc(lo, n);
      MulSucc(hi, n);
    }
  }

  /** A diagonal of zeros from (r, r) sums to 0. */
  lemma {:induction false} ZeroDiagonal(b: Block, r: nat)
    requires IsSquare(b)
    requires forall t :: r <= t < |b| ==> b[t][t] == 0
    ensures DiagonalSum(b, r, r) == 0
    decreases |b| - r
  {
    if r < |b| {
      ZeroDiagonal(b, r + 1);
    }
  }

  /** The block scores of scaleMatchingMin. */
  function GlobalMinScores(b: Block, maxCond: int, southEastCheck: bool): (s: Scores)
    requires IsSquare(b)
    ensures IsFirstMin(b, s.s1, s.s2)
  {
    var loc := MinLoc(b);
    var minimum := b[loc.0][loc.1];
    if southEastCheck then
      Scores(TruncDiv(DiagonalSum(b, loc.0, loc.1), DiagonalLength(|b|, loc.0, loc.1)), loc.0, loc.1)
    else if Gated(maxCond, loc.0, loc.1) then
      Scores(Rejected, loc.0, loc.1)
    else
      Scores(minimum, loc.0, loc.1)
  }

  /**
   * Without the south-east check: maxCond 1 keeps the minimum exactly when it
   * lies in row 0 or column 0, maxCond 2 exactly when it lies in the first two
   * rows or columns, and any other maxCond always keeps it; a rejected
   * minimum scores 10000.
   */
  lemma GateKeepsMinimum(b: Block, maxCond: int)
    requires IsSquare(b)
    ensures var s := GlobalMinScores(b, maxCond, false);
      var kept := if maxCond == 1 then s.s1 == 0 || s.s2 == 0
                  else if maxCond == 2 then s.s1 <= 1 || s.s2 <= 1
                  else true;
      (kept ==> s.score == b[s.s1][s.s2]) && (!kept ==> s.score == Rejected)
  { }

  /**
   * With the south-east check the score is a mean of cells that start at the
   * block minimum, so it lies between the minimum and any upper bound of the
   * block, and the gate has no effect.
   */
  lemma SouthEastMeanBounds(b: Block, maxCond: int, hi: int)
    requires IsSquare(b)
    requires forall i, j :: 0 <= i < |b| && 0 <= j < |b| ==> b[i][j] <= hi
    ensures var s := GlobalMinScores(b, maxCond, true);
      b[s.s1][s.s2] <= s.score <= hi && s == GlobalMinScores(b, 0, true)
  {
    var loc := MinLoc(b);
    var lo := b[loc.0][loc.1];
    DiagonalSumBounds(b, loc.0, loc.1, lo, hi);
    TruncDivBetween(DiagonalSum(b, loc.0, loc.1), DiagonalLength(|b|, loc.0, loc.1), lo, hi);
  }

  /** scaleMatchingMin: cv::minMaxLoc, the gate switch, then the south-east while loop. */
  method ScaleMatchingMin(block: Block, maxCond: int, southEastCheck: bool) returns (s: Scores)
    requires IsSquare(block)
    ensures s == GlobalMinScores(block, maxCond, southEastCheck)
  {
    var idx := MinLoc(block);
    var minHblock := block[idx.0][idx.1];
    if maxCond == 1 {
      if idx.0 == 0 || idx.1 == 0 {
        s := Scores(minHblock, idx.0, idx.1);
      } else {
        s := Scores(Rejected, idx.0, idx.1);
      }
    } else if maxCond == 2 {
      if idx.0 == 0 || idx.1 == 0 || idx.0 == 1 || idx.1 == 1 {
        s := Scores(minHblock, idx.0, idx.1);
      } else {
        s := Scores(Rejected, idx.0, idx.1);
      }
    } else {
      s := Scores(minHblock, idx.0, idx.1);
    }

    if southEastCheck {
      var N := |block|;
      var j, n := idx.0 + 1, idx.1 + 1;
      var hammDistSE := minHblock;
      var counterCells := 1;
      while j < N && n < N
        invariant j == idx.0 + counterCells && n == idx.1 + counterCells
        invariant j <= N && n <= N && counterCells >= 1
        invariant hammDistSE + DiagonalSum(block, j, n) == DiagonalSum(block, idx.0, idx.1)
        invariant DiagonalLength(N, idx.0, idx.1) == counterCells + DiagonalLength(N, j, n)
        decreases N - j
      {
        hammDistSE := hammDistSE + block[j][n];
        j := j + 1;
        n := n + 1;
        counterCells := counterCells + 1;
      }
      s := Scores(TruncDiv(hammDistSE, counterCells), idx.0, idx.1);
    }
  }
}
