/**
 * The diagonal-band block scorer (Matcher::minHammingAndScale, strategy D).
 *
 * Cell (j, n) of a block lies on diagonal k = j - n, the scale offset
 * between the two descriptors. Diagonal k has N - |k| cells; its score is
 * the ceiling of their mean. The scorer keeps the smallest score below the
 * initial bound 255, taking the most negative offset on ties, and reports
 * the offset as the pair (max(k, 0), max(-k, 0)).
 */
module DiagonalScorer {
  import opened Arith
  import opened Blocks

  /** Initial value of the running minimum (the default argument hamm = 255). */
  const Bound := 255

  /** Row j of an N x N block has a cell on diagonal k. */
  predicate OnDiagonal(N: int, k: int, j: int) {
    0 <= j - k < N
  }

  /** Sum of the cells of diagonal k in the first J rows. */
  function DiagonalSumRows(b: Block, k: int, J: nat): (s: int)
    requires IsSquare(b) && J <= |b|
    ensures DiagonalCountRows(|b|, k, J) == 0 ==> s == 0
  {
    if J == 0 then 0
    else DiagonalSumRows(b, k, J - 1) + (if OnDiagonal(|b|, k, J - 1) then b[J - 1][J - 1 - k] else 0)
  }

  /** Number of cells of diagonal k in the first J rows. */
  function DiagonalCountRows(N: nat, k: int, J: nat): (c: int)
    ensures 0 <= c <= J
  {
    if J == 0 then 0
    else DiagonalCountRows(N, k, J - 1) + (if OnDiagonal(N, k, J - 1) then 1 else 0)
  }

  /** Sum of the cells of diagonal k in the first j rows and the first n cells of row j. */
  function SumUpTo(b: Block, k: int, j: nat, n: nat): int
    requires IsSquare(b) && j < |b|
  {
    DiagonalSumRows(b, k, j) + (if 0 <= j - k < n && n <= |b| then b[j][j - k] else 0)
  }

  /** Number of cells of diagonal k in the first j rows and the first n cells of row j. */
  function CountUpTo(N: nat, k: int, j: nat, n: nat): int {
    DiagonalCountRows(N, k, j) + (if 0 <= j - k < n && n <= N then 1 else 0)
  }

  /** Visiting cell (j, n) adds it to diagonal j - n and to no other. */
  lemma CellStep(b: Block, k: int, j: nat, n: nat)
    requires IsSquare(b) && j < |b| && n < |b|
    ensures SumUpTo(b, k, j, n + 1) == SumUpTo(b, k, j, n) + (if k == j - n then b[j][n] else 0)
    ensures CountUpTo(|b|, k, j, n + 1) == CountUpTo(|b|, k, j, n) + (if k == j - n then 1 else 0)
  { }

  /** A row starts with the totals of the rows before it and ends with the totals including it. */
  lemma RowEnds(b: Block, k: int, j: nat)
    requires IsSquare(b) && j < |b|
    ensures SumUpTo(b, k, j, 0) == DiagonalSumRows(b, k, j) && CountUpTo(|b|, k, j, 0) == DiagonalCountRows(|b|, k, j)
    ensures SumUpTo(b, k, j, |b|) == DiagonalSumRows(b, k, j + 1) && CountUpTo(|b|, k, j, |b|) == DiagonalCountRows(|b|, k, j + 1)
  { }

  function Max(x: int, y: int): int { if x < y then y else x }
  function Min(x: int, y: int): int { if x < y then x else y }

  lemma {:induction false} DiagonalCountFormula(N: nat, k: int, J: nat)
    requires J <= N
    ensures DiagonalCountRows(N, k, J) == Max(0, Min(J, N + k) - Max(0, k))
  {
    if J > 0 {
      DiagonalCountFormula(N, k, J - 1);
    }
  }

  /** Diagonal k of an N x N block has N - |k| cells, and none when |k| >= N. */
  lemma DiagonalCount(N: int, k: int)
    requires N >= 0
    ensures -N < k < N ==> DiagonalCountRows(N, k, N) == N - (if k < 0 then -k else k)
    ensures DiagonalCountRows(N, k, N) > 0 <==> -N < k < N
  {
    DiagonalCountFormula(N, k, N);
  }

  /** Score of diagonal k: the ceiling of the mean of its cells. */
  function OffsetScore(b: Block, k: int): int
    requires IsSquare(b) && -|b| < k < |b|
  {
    CeilDiv(DiagonalSumRows(b, k, |b|), |b| - (if k < 0 then -k else k))
  }

  /** The first offset in [1 - N, k] with the smallest score. */
  function BestOffset(b: Block, k: int): (p: int)
    requires IsSquare(b) && -|b| < k < |b|
    ensures -|b| < p <= k
    ensures forall q :: -|b| < q <= k ==> OffsetScore(b, p) <= OffsetScore(b, q)
    ensures forall q :: -|b| < q < p ==> OffsetScore(b, p) < OffsetScore(b, q)
    decreases k + |b|
  {
    if k == 1 - |b| then k
    else
      var p := BestOffset(b, k - 1);
      if OffsetScore(b, k) < OffsetScore(b, p) then k else p
  }

  /** The scores of minHammingAndScale: the first best offset if its score beats the bound. */
  function DiagonalMinScores(b: Block): Scores
    requires IsSquare(b)
  {
    var p := BestOffset(b, |b| - 1);
    if OffsetScore(b, p) < Bound then Scores(OffsetScore(b, p), Max(p, 0), Max(-p, 0))
    else Scores(Bound, 0, 0)
  }

  /**
   * The declarative reading of the scorer: the score is the smaller of 255
   * and every diagonal score; below 255 it is reached at offset s1 - s2, and
   * every more negative offset scores higher; otherwise the offset is 0; and
   * at least one of s1, s2 is zero.
   */
  predicate IsDiagonalMin(b: Block, s: Scores)
    requires IsSquare(b)
  {
    var k := s.s1 - s.s2;
    s.s1 >= 0 && s.s2 >= 0 && (s.s1 == 0 || s.s2 == 0)
    && s.score <= Bound
    && (forall q :: -|b| < q < |b| ==> s.score <= OffsetScore(b, q))
    && (s.score < Bound ==>
          -|b| < k < |b| && OffsetScore(b, k) == s.score
          && forall q :: -|b| < q < k ==> OffsetScore(b, q) > s.score)
    && (s.score == Bound ==> s.s1 == 0 && s.s2 == 0)
  }

  /** The reference scores meet the declarative reading. */
  lemma DiagonalMinScoresCorrect(b: Block)
    requires IsSquare(b)
    ensures IsDiagonalMin(b, DiagonalMinScores(b))
  { }

  /** At most one triple meets the declarative reading. */
  lemma DiagonalMinUnique(b: Block, s: Scores, t: Scores)
    requires IsSquare(b) && IsDiagonalMin(b, s) && IsDiagonalMin(b, t)
    ensures s == t
  { }

  /** dist holds (sum, count) for exactly the offsets met among the first j rows and the first n cells of row j. */
  ghost predicate Tallied(dist: map<int, (int, int)>, b: Block, j: nat, n: nat)
    requires IsSquare(b) && j < |b|
  {
    forall k :: (k in dist <==> CountUpTo(|b|, k, j, n) > 0)
      && (k in dist ==> dist[k] == (SumUpTo(b, k, j, n), CountUpTo(|b|, k, j, n)))
  }

  /** The update of the map for cell (j, n): create the entry or add to it. */
  function AddCell(dist: map<int, (int, int)>, key: int, value: int): map<int, (int, int)> {
    if key !in dist then dist[key := (value, 1)]
    else dist[key := (dist[key].0 + value, dist[key].1 + 1)]
  }

  lemma TallyStep(dist: map<int, (int, int)>, b: Block, j: nat, n: nat)
    requires IsSquare(b) && j < |b| && n < |b| && Tallied(dist, b, j, n)
    ensures Tallied(AddCell(dist, j - n, b[j][n]), b, j, n + 1)
  {
    forall k { CellStep(b, k, j, n); }
  }

  lemma TallyRow(dist: map<int, (int, int)>, b: Block, j: nat)
    requires IsSquare(b) && j < |b|
    ensures Tallied(dist, b, j, 0) <==>
      forall k :: (k in dist <==> DiagonalCountRows(|b|, k, j) > 0)
        && (k in dist ==> dist[k] == (DiagonalSumRows(b, k, j), DiagonalCountRows(|b|, k, j)))
    ensures Tallied(dist, b, j, |b|) <==>
      forall k :: (k in dist <==> DiagonalCountRows(|b|, k, j + 1) > 0)
        && (k in dist ==> dist[k] == (DiagonalSumRows(b, k, j + 1), DiagonalCountRows(|b|, k, j + 1)))
  {
    forall k { RowEnds(b, k, j); }
  }

  /** The accumulation into std::map: for every offset j - n, the sum and the count of its cells. */
  method DiagonalTotals(block: Block) returns (dist: map<int, (int, int)>)
    requires IsSquare(block)
    ensures forall k :: k in dist <==> -|block| < k < |block|
    ensures forall k :: k in dist ==>
      dist[k] == (DiagonalSumRows(block, k, |block|), |block| - (if k < 0 then -k else k))
  {
    var N := |block|;
    dist := map[];
    for j := 0 to N
      invariant forall k ::
        (k in dist <==> DiagonalCountRows(N, k, j) > 0) &&
        (k in dist ==> dist[k] == (DiagonalSumRows(block, k, j), DiagonalCountRows(N, k, j)))
    {
      TallyRow(dist, block, j);
      for n := 0 to N
        invariant Tallied(dist, block, j, n)
      {
        TallyStep(dist, block, j, n);
        dist := AddCell(dist, j - n, block[j][n]);
      }
      TallyRow(dist, block, j);
    }
    forall k { DiagonalCount(N, k); }
  }

  /** The running minimum after the offsets 1 - N .. k - 1 have been visited. */
  ghost predicate Scanned(b: Block, k: int, hamm: int, scaleDiff: int)
    requires IsSquare(b)
  {
    1 - |b| <= k <= |b|
    && hamm <= Bound
    && (forall q :: 1 - |b| <= q < k ==> hamm <= OffsetScore(b, q))
    && (hamm < Bound ==>
          1 - |b| <= scaleDiff < k && OffsetScore(b, scaleDiff) == hamm
          && forall q :: 1 - |b| <= q < scaleDiff ==> OffsetScore(b, q) > hamm)
    && (hamm == Bound ==> scaleDiff == 0)
  }

  /** Visiting offset k keeps a score only when it is strictly below the running minimum. */
  lemma ScanStep(b: Block, k: int, hamm: int, scaleDiff: int)
    requires IsSquare(b) && k < |b| && Scanned(b, k, hamm, scaleDiff)
    ensures var score := OffsetScore(b, k);
      if score < hamm then Scanned(b, k + 1, score, k) else Scanned(b, k + 1, hamm, scaleDiff)
  { }

  /** After the last offset, splitting the kept offset gives the declarative result. */
  lemma ScanDone(b: Block, hamm: int, scaleDiff: int)
    requires IsSquare(b) && Scanned(b, |b|, hamm, scaleDiff)
    ensures IsDiagonalMin(b, if scaleDiff < 0 then Scores(hamm, 0, -scaleDiff) else Scores(hamm, scaleDiff, 0))
  { }

  /**
   * minHammingAndScale: walk the offsets of the map in ascending key order
   * (its keys are exactly 1 - N .. N - 1), keep every score strictly below
   * the running minimum, then split the offset into the two scale levels.
   */
  method MinHammingAndScale(block: Block) returns (s: Scores)
    requires IsSquare(block)
    ensures IsDiagonalMin(block, s)
    ensures s == DiagonalMinScores(block)
  {
    var N := |block|;
    var dist := DiagonalTotals(block);
    var hamm := Bound;
    var scaleDiff := 0;
    var k := 1 - N;
    while k < N
      invariant Scanned(block, k, hamm, scaleDiff)
      decreases N - k
    {
      ScanStep(block, k, hamm, scaleDiff);
      var entry := dist[k];
      var score := CeilDiv(entry.0, entry.1);
      if score < hamm {
        hamm := score;
        scaleDiff := k;
      }
      k := k + 1;
    }
    ScanDone(block, hamm, scaleDiff);
    if scaleDiff < 0 {
      s := Scores(hamm, 0, -scaleDiff);
    } else {
      s := Scores(hamm, scaleDiff, 0);
    }
    DiagonalMinScoresCorrect(block);
    DiagonalMinUnique(block, s, DiagonalMinScores(block));
  }
}
