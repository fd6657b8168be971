/**
 * Multi-scale brute-force matching (Matcher::multiScaleMatching).
 *
 * Phase 1 remaps both descriptor matrices to keypoint-major order and fills
 * the distance matrix H. Phase 2 reduces every nLevels x nLevels block of H
 * to (Hs, S1, S2) with the scorer of the strategy. Phase 3 picks, for every
 * keypoint of image 2, the best keypoint of image 1, visits the keypoints of
 * image 2 by ascending distance and keeps a match only if its keypoint of
 * image 1 is still free.
 */
module Matching {
  import opened Arith
  import opened Hamming
  import opened IndexRemap
  import opened Blocks
  import opened Config
  import opened GlobalMinScorer
  import opened DiagonalScorer
  import opened MaskScorer

  /** back is the inverse of the index map id on [0, L). */
  ghost predicate Inverses(id: array<int>, back: seq<int>, L: int)
    reads id
  {
    id.Length == L && |back| == L &&
    (forall i :: 0 <= i < L ==> 0 <= back[i] < L && id[back[i]] == i) &&
    (forall j :: 0 <= j < L ==> 0 <= id[j] < L && back[id[j]] == j)
  }

  /** Deinterleave is the inverse of the map that BuildIndexMap fills in. */
  lemma IndexMapInverse(id: array<int>, L: int, nLevels: int) returns (back: seq<int>)
    requires Divides(L, nLevels) && id.Length == L
    requires forall j :: 0 <= j < L ==> id[j] == Interleave(j, L, nLevels)
    ensures Inverses(id, back, L)
    ensures forall i :: 0 <= i < L ==> back[i] == Deinterleave(i, L, nLevels)
  {
    back := seq(L, i requires 0 <= i < L => Deinterleave(i, L, nLevels));
    forall i | 0 <= i < L ensures 0 <= back[i] < L && id[back[i]] == i {
      DeinterleaveInverse(L, nLevels, i);
    }
    forall j | 0 <= j < L ensures 0 <= id[j] < L && back[id[j]] == j {
      InterleaveInverse(L, nLevels, j);
    }
  }

  /** The distance of every pair of rows, in the original (scale-major) order. */
  function Distances(D1: seq<Descriptor>, D2: seq<Descriptor>): (dist: seq<seq<int>>)
    ensures |dist| == |D1| && forall j :: 0 <= j < |D1| ==> |dist[j]| == |D2|
    ensures forall j, n :: 0 <= j < |D1| && 0 <= n < |D2| ==> dist[j][n] == HammingDistance(D1[j], D2[n])
  {
    seq(|D1|, j requires 0 <= j < |D1| => seq(|D2|, n requires 0 <= n < |D2| => HammingDistance(D1[j], D2[n])))
  }

  /** Every cell whose source rows (back1[i1], back2[i2]) come before (j, n) holds their distance. */
  ghost predicate WrittenUpTo(H: array2<int>, dist: seq<seq<int>>, back1: seq<int>, back2: seq<int>, j: int, n: int)
    reads H
    requires H.Length0 == |back1| && H.Length1 == |back2|
  {
    forall i1, i2 :: 0 <= i1 < H.Length0 && 0 <= i2 < H.Length1 ==>
      (back1[i1] < j || (back1[i1] == j && back2[i2] < n)) ==>
        0 <= back1[i1] < |dist| && 0 <= back2[i2] < |dist[back1[i1]]| &&
        H[i1, i2] == dist[back1[i1]][back2[i2]]
  }

  /** One pass of the inner loop: row j of image 1 against every row of image 2. */
  method FillRow(H: array2<int>, D1: seq<Descriptor>, D2: seq<Descriptor>, id1: array<int>, id2: array<int>,
                 ghost dist: seq<seq<int>>, ghost back1: seq<int>, ghost back2: seq<int>, j: int)
    modifies H
    requires H.Length0 == |D1| && H.Length1 == |D2| && 0 <= j < |D1|
    requires dist == Distances(D1, D2)
    requires Inverses(id1, back1, |D1|) && Inverses(id2, back2, |D2|)
    requires WrittenUpTo(H, dist, back1, back2, j, 0)
    ensures WrittenUpTo(H, dist, back1, back2, j + 1, 0)
  {
    for n := 0 to |D2|
      invariant WrittenUpTo(H, dist, back1, back2, j, n)
    {
      var hd := DescriptorDistance(D1[j], D2[n]);
      H[id1[j], id2[n]] := hd;
      forall i1, i2 | 0 <= i1 < |D1| && 0 <= i2 < |D2| && back1[i1] == j && back2[i2] == n
        ensures i1 == id1[j] && i2 == id2[n]
      { }
    }
  }

  /** Cell (i1, i2) of H holds the distance of the rows that the remap moved to rows i1 and i2. */
  ghost predicate DistanceMatrix(H: array2<int>, D1: seq<Descriptor>, D2: seq<Descriptor>, nLevels: int)
    reads H
    requires nLevels > 0
  {
    H.Length0 == |D1| && H.Length1 == |D2| &&
    forall i1, i2 :: 0 <= i1 < |D1| && 0 <= i2 < |D2| ==>
      0 <= Deinterleave(i1, |D1|, nLevels) < |D1| && 0 <= Deinterleave(i2, |D2|, nLevels) < |D2|
      && H[i1, i2] == HammingDistance(D1[Deinterleave(i1, |D1|, nLevels)], D2[Deinterleave(i2, |D2|, nLevels)])
  }

  /** Phase 1: the index maps id1 and id2, then the distance matrix written through them. */
  method FillDistances(D1: seq<Descriptor>, D2: seq<Descriptor>, nLevels: int) returns (H: array2<int>)
    requires Divides(|D1|, nLevels) && Divides(|D2|, nLevels)
    ensures fresh(H) && DistanceMatrix(H, D1, D2, nLevels)
  {
    var L1, L2 := |D1|, |D2|;
    if L1 > 0 { DividesParts(L1, nLevels); }
    if L2 > 0 { DividesParts(L2, nLevels); }
    var id1 := BuildIndexMap(L1, nLevels);
    var id2 := BuildIndexMap(L2, nLevels);
    ghost var back1 := IndexMapInverse(id1, L1, nLevels);
    ghost var back2 := IndexMapInverse(id2, L2, nLevels);
    H := new int[L1, L2];
    ghost var dist := Distances(D1, D2);
    for j := 0 to L1
      invariant Inverses(id1, back1, L1) && Inverses(id2, back2, L2)
      invariant WrittenUpTo(H, dist, back1, back2, j, 0)
    {
      FillRow(H, D1, D2, id1, id2, dist, back1, back2, j);
    }
  }

  /** Row a * nLevels + l of a remapped matrix is keypoint a at level l. */
  lemma KeypointRow(L: int, nLevels: int, a: int, l: int)
    requires Divides(L, nLevels) && 0 <= a < L / nLevels && 0 <= l < nLevels
    ensures 0 <= a * nLevels + l < L
    ensures Deinterleave(a * nLevels + l, L, nLevels) == l * (L / nLevels) + a
    ensures 0 <= l * (L / nLevels) + a < L
  {
    var K := L / nLevels;
    DividesParts(L, nLevels);
    MulMonotone(a + 1, K, nLevels);
    MulSucc(nLevels, a);
    assert a * nLevels + l < L;
    DeinterleaveKeypointMajor(L, nLevels, l, a);
    DeinterleaveInverse(L, nLevels, a * nLevels + l);
  }

  /**
   * The nLevels x nLevels block of H at keypoint pair (a, b): its cell
   * (l1, l2) is the distance between keypoint a of image 1 at level l1 and
   * keypoint b of image 2 at level l2.
   */
  lemma KeypointBlock(H: array2<int>, D1: seq<Descriptor>, D2: seq<Descriptor>, nLevels: int,
                      a: int, b: int, l1: int, l2: int)
    requires Divides(|D1|, nLevels) && Divides(|D2|, nLevels)
    requires DistanceMatrix(H, D1, D2, nLevels)
    requires 0 <= a < |D1| / nLevels && 0 <= b < |D2| / nLevels
    requires 0 <= l1 < nLevels && 0 <= l2 < nLevels
    ensures 0 <= l1 * (|D1| / nLevels) + a < |D1| && 0 <= l2 * (|D2| / nLevels) + b < |D2|
    ensures 0 <= a * nLevels + l1 < |D1| && 0 <= b * nLevels + l2 < |D2|
    ensures H[a * nLevels + l1, b * nLevels + l2]
         == HammingDistance(D1[l1 * (|D1| / nLevels) + a], D2[l2 * (|D2| / nLevels) + b])
  {
    KeypointRow(|D1|, nLevels, a, l1);
    KeypointRow(|D2|, nLevels, b, l2);
  }

  /** The n x n sub-matrix of H from (r0, c0) (cv::Mat::rowRange and colRange); cells past the edge read 0. */
  function BlockAt(H: array2<int>, r0: int, c0: int, n: nat): (b: Block)
    reads H
    ensures |b| == n && (n > 0 ==> IsSquare(b))
    ensures forall i, k ::
      (0 <= i < n && 0 <= k < n && 0 <= r0 && 0 <= c0 && r0 + i < H.Length0 && c0 + k < H.Length1) ==>
        b[i][k] == H[r0 + i, c0 + k]
  {
    seq(n, i reads H => seq(n, k reads H =>
      if 0 <= r0 + i < H.Length0 && 0 <= c0 + k < H.Length1 then H[r0 + i, c0 + k] else 0))
  }

  /** What the scorer of strategy mm does with one block (the switch of multiScaleMatching), for W = 0. */
  function BlockScores(mm: int, cfg: Matcher, block: Block, sA: int, sB: int): Scores
    requires IsSquare(block)
    requires ScorerFor(mm).Masked? ==> ValidScales(|block|, cfg.R, sA, sB)
  {
    match ScorerFor(mm)
    case GlobalMin => GlobalMinScores(block, cfg.maxCond, cfg.southEastCheck)
    case DiagonalMin => DiagonalMinScores(block)
    case Masked(_) => MaskedScores(block, cfg.R, sA, sB)
  }

  /** The switch on the strategy. */
  method ScoreBlock(mm: int, cfg: Matcher, block: Block, sA: int, sB: int) returns (s: Scores)
    requires IsSquare(block)
    requires ScorerFor(mm).Masked? ==> cfg.W == 0 && ValidScales(|block|, cfg.R, sA, sB)
    ensures s == BlockScores(mm, cfg, block, sA, sB)
  {
    if mm == 0 {
      s := ScaleMatchingMin(block, cfg.maxCond, cfg.southEastCheck);
    } else if mm == 1 {
      s := MinHammingAndScale(block);
    } else if 2 <= mm <= 6 {
      s := GetDistanceAndScaleRatio(block, cfg.R, sA, sB);
    } else {
      s := ScaleMatchingMin(block, cfg.maxCond, cfg.southEastCheck);
    }
  }

  /**
   * Matching a descriptor set against itself: the global-minimum scorer
   * gives every keypoint paired with itself the score 0 at levels (0, 0),
   * whatever the gate, and with the south-east check as well, since the
   * diagonal of the block holds zeros only.
   */
  lemma IdenticalSetsScoreZero(H: array2<int>, D: seq<Descriptor>, dt1: seq<int>, dt2: seq<int>,
                               cfg: Matcher, mm: int, a: int)
    requires Divides(|D|, cfg.nLevels) && DistanceMatrix(H, D, D, cfg.nLevels)
    requires ScorerFor(mm) == GlobalMin
    requires 0 <= a < |D| / cfg.nLevels
    ensures CellScores(H, mm, cfg, dt1, dt2, a, a) == Scores(0, 0, 0)
  {
    var n := cfg.nLevels;
    var blk := BlockAt(H, a * n, a * n, n);
    forall i, j | 0 <= i < n && 0 <= j < n ensures blk[i][j] >= 0 {
      KeypointBlock(H, D, D, n, a, a, i, j);
    }
    forall l | 0 <= l < n ensures blk[l][l] == 0 {
      KeypointBlock(H, D, D, n, a, a, l, l);
    }
    assert IsFirstMin(blk, 0, 0);
    FirstMinUnique(blk, 0, 0);
    ZeroDiagonal(blk, 0);
  }

  /** The detection scales that the masked strategies read are usable by the mask. */
  predicate ScalesFit(mm: int, cfg: Matcher, dt1: seq<int>, dt2: seq<int>, K1: int, K2: int) {
    ScorerFor(mm).Masked? ==>
      cfg.W == 0 && |dt1| >= K1 && |dt2| >= K2 &&
      (forall a :: 0 <= a < K1 ==> MaskScaleFits(cfg.nLevels, cfg.R, dt1[a])) &&
      (forall b :: 0 <= b < K2 ==> MaskScaleFits(cfg.nLevels, cfg.R, dt2[b]))
  }

  /** The scores stored in (Hs, S1, S2) at keypoint pair (a, b). */
  function CellScores(H: array2<int>, mm: int, cfg: Matcher, dt1: seq<int>, dt2: seq<int>, a: int, b: int): Scores
    reads H
    requires cfg.nLevels > 0 && 0 <= a && 0 <= b
    requires ScalesFit(mm, cfg, dt1, dt2, a + 1, b + 1)
  {
    var masked := ScorerFor(mm).Masked?;
    BlockScores(mm, cfg, BlockAt(H, a * cfg.nLevels, b * cfg.nLevels, cfg.nLevels),
                if masked then dt1[a] else 0, if masked then dt2[b] else 0)
  }

  /** The scores of all K1 x K2 keypoint pairs. */
  function AllScores(H: array2<int>, mm: int, cfg: Matcher, dt1: seq<int>, dt2: seq<int>, K1: nat, K2: nat)
    : (e: seq<seq<Scores>>)
    reads H
    requires cfg.nLevels > 0 && ScalesFit(mm, cfg, dt1, dt2, K1, K2)
    ensures |e| == K1 && forall x :: 0 <= x < K1 ==> |e[x]| == K2
  {
    seq(K1, x reads H requires 0 <= x < K1 =>
      seq(K2, y reads H requires 0 <= y < K2 => CellScores(H, mm, cfg, dt1, dt2, x, y)))
  }

  lemma AllScoresAt(H: array2<int>, mm: int, cfg: Matcher, dt1: seq<int>, dt2: seq<int>, K1: nat, K2: nat, x: int, y: int)
    requires cfg.nLevels > 0 && ScalesFit(mm, cfg, dt1, dt2, K1, K2) && 0 <= x < K1 && 0 <= y < K2
    ensures AllScores(H, mm, cfg, dt1, dt2, K1, K2)[x][y] == CellScores(H, mm, cfg, dt1, dt2, x, y)
  { }

  /** Every keypoint pair before (a, b) in row-major order has its scores e[x][y] stored. */
  ghost predicate ScoredUpTo(Hs: array2<int>, S1: array2<int>, S2: array2<int>, e: seq<seq<Scores>>, a: int, b: int)
    reads Hs, S1, S2
    requires |e| == Hs.Length0 && forall x :: 0 <= x < |e| ==> |e[x]| == Hs.Length1
    requires S1.Length0 == S2.Length0 == Hs.Length0 && S1.Length1 == S2.Length1 == Hs.Length1
  {
    forall x, y :: 0 <= x < Hs.Length0 && 0 <= y < Hs.Length1 && (x < a || (x == a && y < b)) ==>
      Hs[x, y] == e[x][y].score && S1[x, y] == e[x][y].s1 && S2[x, y] == e[x][y].s2
  }

  /** H is split into whole nLevels x nLevels blocks and (Hs, S1, S2) hold one cell per block. */
  predicate ScoreShapes(H: array2<int>, Hs: array2<int>, S1: array2<int>, S2: array2<int>, nLevels: int) {
    nLevels > 0 &&
    H.Length0 == Hs.Length0 * nLevels && H.Length1 == Hs.Length1 * nLevels &&
    S1.Length0 == S2.Length0 == Hs.Length0 && S1.Length1 == S2.Length1 == Hs.Length1 &&
    H != Hs && H != S1 && H != S2 && Hs != S1 && Hs != S2 && S1 != S2
  }

  /** The scores of the block at (a * nLevels, b * nLevels) are the entry of AllScores at (a, b). */
  lemma CellIsBlock(H: array2<int>, mm: int, cfg: Matcher, dt1: seq<int>, dt2: seq<int>, e: seq<seq<Scores>>,
                    K1: nat, K2: nat, a: int, b: int, block: Block, s: Scores)
    requires cfg.nLevels > 0 && ScalesFit(mm, cfg, dt1, dt2, K1, K2) && 0 <= a < K1 && 0 <= b < K2
    requires e == AllScores(H, mm, cfg, dt1, dt2, K1, K2)
    requires block == BlockAt(H, a * cfg.nLevels, b * cfg.nLevels, cfg.nLevels)
    requires var masked := ScorerFor(mm).Masked?;
      s == BlockScores(mm, cfg, block, if masked then dt1[a] else 0, if masked then dt2[b] else 0)
    ensures s == e[a][b]
  {
    AllScoresAt(H, mm, cfg, dt1, dt2, K1, K2, a, b);
  }

  /** Stores the three scores of keypoint pair (a, b). */
  method StoreScores(Hs: array2<int>, S1: array2<int>, S2: array2<int>, ghost e: seq<seq<Scores>>,
                     a: int, b: int, s: Scores)
    modifies Hs, S1, S2
    requires Hs != S1 && Hs != S2 && S1 != S2
    requires S1.Length0 == S2.Length0 == Hs.Length0 && S1.Length1 == S2.Length1 == Hs.Length1
    requires |e| == Hs.Length0 && forall x :: 0 <= x < |e| ==> |e[x]| == Hs.Length1
    requires 0 <= a < Hs.Length0 && 0 <= b < Hs.Length1 && s == e[a][b]
    requires ScoredUpTo(Hs, S1, S2, e, a, b)
    ensures ScoredUpTo(Hs, S1, S2, e, a, b + 1)
  {
    Hs[a, b] := s.score;
    S1[a, b] := s.s1;
    S2[a, b] := s.s2;
  }

  /** The body of the inner loop: score the block at rows j and columns n of H and store it at (a, b). */
  method ScoreCell(H: array2<int>, Hs: array2<int>, S1: array2<int>, S2: array2<int>,
                   mm: int, cfg: Matcher, dt1: seq<int>, dt2: seq<int>, ghost e: seq<seq<Scores>>,
                   a: int, b: int, j: int, n: int)
    modifies Hs, S1, S2
    requires ScoreShapes(H, Hs, S1, S2, cfg.nLevels)
    requires ScalesFit(mm, cfg, dt1, dt2, Hs.Length0, Hs.Length1)
    requires 0 <= a < Hs.Length0 && 0 <= b < Hs.Length1 && j == a * cfg.nLevels && n == b * cfg.nLevels
    requires e == AllScores(H, mm, cfg, dt1, dt2, Hs.Length0, Hs.Length1)
    requires ScoredUpTo(Hs, S1, S2, e, a, b)
    ensures ScoredUpTo(Hs, S1, S2, e, a, b + 1)
  {
    var block := BlockAt(H, j, n, cfg.nLevels);
    var masked := ScorerFor(mm).Masked?;
    var s := ScoreBlock(mm, cfg, block, if masked then dt1[a] else 0, if masked then dt2[b] else 0);
    CellIsBlock(H, mm, cfg, dt1, dt2, e, Hs.Length0, Hs.Length1, a, b, block, s);
    StoreScores(Hs, S1, S2, e, a, b, s);
  }

  /** One pass of the inner loop of the block scoring: block row a (rows j .. j + nLevels of H). */
  method ScoreRow(H: array2<int>, Hs: array2<int>, S1: array2<int>, S2: array2<int>,
                  mm: int, cfg: Matcher, dt1: seq<int>, dt2: seq<int>, ghost e: seq<seq<Scores>>, a: int, j: int)
    modifies Hs, S1, S2
    requires ScoreShapes(H, Hs, S1, S2, cfg.nLevels)
    requires ScalesFit(mm, cfg, dt1, dt2, Hs.Length0, Hs.Length1)
    requires 0 <= a < Hs.Length0 && j == a * cfg.nLevels
    requires e == AllScores(H, mm, cfg, dt1, dt2, Hs.Length0, Hs.Length1)
    requires ScoredUpTo(Hs, S1, S2, e, a, 0)
    ensures ScoredUpTo(Hs, S1, S2, e, a + 1, 0)
  {
    var nLevels, L2 := cfg.nLevels, H.Length1;
    MulMonotone(a + 1, Hs.Length0, nLevels);
    var b, n := 0, 0;
    while n < L2
      invariant 0 <= b <= Hs.Length1 && n == b * nLevels
      invariant ScoredUpTo(Hs, S1, S2, e, a, b)
      decreases L2 - n
    {
      if b >= Hs.Length1 { MulMonotone(Hs.Length1, b, nLevels); }
      MulMonotone(b + 1, Hs.Length1, nLevels);
      SuccMul(b, nLevels);
      ScoreCell(H, Hs, S1, S2, mm, cfg, dt1, dt2, e, a, b, j, n);
      b := b + 1;
      n := n + nLevels;
    }
    if b < Hs.Length1 { MulMonotone(b + 1, Hs.Length1, nLevels); SuccMul(b, nLevels); }
  }

  /** Phase 2: the scores of every keypoint pair. */
  method ScoreBlocks(H: array2<int>, mm: int, cfg: Matcher, dt1: seq<int>, dt2: seq<int>)
    returns (Hs: array2<int>, S1: array2<int>, S2: array2<int>)
    requires cfg.nLevels > 0 && H.Length0 % cfg.nLevels == 0 && H.Length1 % cfg.nLevels == 0
    requires ScalesFit(mm, cfg, dt1, dt2, H.Length0 / cfg.nLevels, H.Length1 / cfg.nLevels)
    ensures fresh(Hs) && fresh(S1) && fresh(S2)
    ensures ScoreShapes(H, Hs, S1, S2, cfg.nLevels)
    ensures Hs.Length0 == H.Length0 / cfg.nLevels && Hs.Length1 == H.Length1 / cfg.nLevels
    ensures ScoredUpTo(Hs, S1, S2, AllScores(H, mm, cfg, dt1, dt2, Hs.Length0, Hs.Length1), Hs.Length0, 0)
  {
    var nLevels, L1, L2 := cfg.nLevels, H.Length0, H.Length1;
    var K1, K2 := L1 / nLevels, L2 / nLevels;
    DivExact(L1, nLevels);
    DivExact(L2, nLevels);
    S1 := new int[K1, K2];
    S2 := new int[K1, K2];
    Hs := new int[K1, K2];
    ghost var e := AllScores(H, mm, cfg, dt1, dt2, K1, K2);
    var a, j := 0, 0;
    while j < L1
      invariant 0 <= a <= K1 && j == a * nLevels
      invariant e == AllScores(H, mm, cfg, dt1, dt2, K1, K2)
      invariant ScoredUpTo(Hs, S1, S2, e, a, 0)
      decreases L1 - j
    {
      if a >= K1 { MulMonotone(K1, a, nLevels); }
      SuccMul(a, nLevels);
      ScoreRow(H, Hs, S1, S2, mm, cfg, dt1, dt2, e, a, j);
      a := a + 1;
      j := j + nLevels;
    }
    if a < K1 { MulMonotone(a + 1, K1, nLevels); SuccMul(a, nLevels); }
  }

  /** The distance the nearest-neighbour search starts from (minH = 255). */
  const NoMatch := 255

  /**
   * The best row among the first k rows of column j of Hs: the first row
   * whose score is strictly below every earlier score and below 255, or row
   * 0 with distance 255 when there is none.
   */
  function BestRow(Hs: array2<int>, j: int, k: int): (int, int)
    reads Hs
    requires 0 <= j < Hs.Length1 && 0 <= k <= Hs.Length0
  {
    if k == 0 then (0, NoMatch)
    else
      var p := BestRow(Hs, j, k - 1);
      if Hs[k - 1, j] < p.1 then (k - 1, Hs[k - 1, j]) else p
  }

  /** What BestRow finds: the minimum of 255 and the column, and the first row reaching it below 255. */
  predicate IsBestRow(Hs: array2<int>, j: int, k: int, row: int, d: int)
    reads Hs
    requires 0 <= j < Hs.Length1 && 0 <= k <= Hs.Length0
  {
    d <= NoMatch && (forall n :: 0 <= n < k ==> d <= Hs[n, j])
    && (d < NoMatch ==> 0 <= row < k && Hs[row, j] == d && forall n :: 0 <= n < row ==> d < Hs[n, j])
    && (d == NoMatch ==> row == 0)
  }

  lemma {:induction false} BestRowIsBest(Hs: array2<int>, j: int, k: int)
    requires 0 <= j < Hs.Length1 && 0 <= k <= Hs.Length0
    ensures IsBestRow(Hs, j, k, BestRow(Hs, j, k).0, BestRow(Hs, j, k).1)
  {
    if k > 0 {
      BestRowIsBest(Hs, j, k - 1);
    }
  }

  /** IsBestRow pins the pair down: BestRow is the only pair with those properties. */
  lemma BestRowUnique(Hs: array2<int>, j: int, row: int, d: int)
    requires 0 <= j < Hs.Length1 && IsBestRow(Hs, j, Hs.Length0, row, d)
    ensures BestRow(Hs, j, Hs.Length0) == (row, d)
  {
    var r := BestRow(Hs, j, Hs.Length0);
    BestRowIsBest(Hs, j, Hs.Length0);
    if d < NoMatch {
      assert r.1 <= Hs[row, j];
    }
    if r.1 < NoMatch {
      assert d <= Hs[r.0, j];
    }
    assert r.1 == d;
    if d < NoMatch {
      assert Hs[r.0, j] == d && Hs[row, j] == d;
    }
  }

  /** The loop over the columns of Hs that fills dd and idx1. */
  method BestRows(Hs: array2<int>) returns (dd: array<int>, idx1: array<int>)
    ensures fresh(dd) && fresh(idx1) && dd.Length == idx1.Length == Hs.Length1
    ensures forall j :: 0 <= j < Hs.Length1 ==> (idx1[j], dd[j]) == BestRow(Hs, j, Hs.Length0)
  {
    var K1, K2 := Hs.Length0, Hs.Length1;
    dd := new int[K2];
    idx1 := new int[K2];
    for j := 0 to K2
      invariant forall c :: 0 <= c < j ==> (idx1[c], dd[c]) == BestRow(Hs, c, K1)
    {
      var bestIdx, minH := ColumnBest(Hs, j);
      dd[j] := minH;
      idx1[j] := bestIdx;
    }
  }

  /** The inner loop: the running minimum of column j, starting from 255. */
  method ColumnBest(Hs: array2<int>, j: int) returns (bestIdx: int, minH: int)
    requires 0 <= j < Hs.Length1
    ensures (bestIdx, minH) == BestRow(Hs, j, Hs.Length0)
  {
    minH := NoMatch;
    bestIdx := 0;
    for n := 0 to Hs.Length0
      invariant (bestIdx, minH) == BestRow(Hs, j, n)
    {
      if Hs[n, j] < minH {
        minH := Hs[n, j];
        bestIdx := n;
      }
    }
  }

  // cv::sortIdx: what it promises (IsSortIdx), and one sort that keeps it,
  // a stable insertion of the column indices by key.

  predicate InRange(o: seq<int>, n: int) {
    forall p :: 0 <= p < |o| ==> 0 <= o[p] < n
  }

  /** The key of the column at position p of o. */
  function KeyAt(o: seq<int>, key: seq<int>, p: int): int
    requires InRange(o, |key|) && 0 <= p < |o|
  {
    key[o[p]]
  }

  /** The keys of the visited columns never decrease along o. */
  predicate SortedBy(o: seq<int>, key: seq<int>)
    requires InRange(o, |key|)
  {
    forall p, q :: 0 <= p <= q < |o| ==> KeyAt(o, key, p) <= KeyAt(o, key, q)
  }

  lemma SortedTail(o: seq<int>, key: seq<int>)
    requires InRange(o, |key|) && SortedBy(o, key) && |o| > 0
    ensures InRange(o[1..], |key|) && SortedBy(o[1..], key)
  {
    var tail := o[1..];
    forall p, q | 0 <= p <= q < |tail| ensures KeyAt(tail, key, p) <= KeyAt(tail, key, q) {
      assert KeyAt(tail, key, p) == KeyAt(o, key, p + 1) && KeyAt(tail, key, q) == KeyAt(o, key, q + 1);
    }
  }

  /** Inserts x after every index whose key is not larger. */
  function Insert(x: int, o: seq<int>, key: seq<int>): (r: seq<int>)
    requires 0 <= x < |key| && InRange(o, |key|)
    ensures |r| == |o| + 1 && InRange(r, |key|)
  {
    if |o| == 0 then [x]
    else if key[x] < key[o[0]] then [x] + o
    else [o[0]] + Insert(x, o[1..], key)
  }

  /** Insert adds x and keeps every other index. */
  lemma {:induction false} InsertPermutes(x: int, o: seq<int>, key: seq<int>)
    requires 0 <= x < |key| && InRange(o, |key|)
    ensures multiset(Insert(x, o, key)) == multiset(o) + multiset{x}
  {
    if |o| > 0 && key[x] >= key[o[0]] {
      InsertPermutes(x, o[1..], key);
      assert o == [o[0]] + o[1..];
    }
  }

  lemma {:induction false} InsertSorted(x: int, o: seq<int>, key: seq<int>)
    requires 0 <= x < |key| && InRange(o, |key|) && SortedBy(o, key)
    ensures SortedBy(Insert(x, o, key), key)
  {
    if |o| == 0 {
    } else if key[x] < key[o[0]] {
      forall y | y in multiset(o) ensures key[x] <= key[y] {
        var t :| 0 <= t < |o| && o[t] == y;
        assert KeyAt(o, key, 0) <= KeyAt(o, key, t);
      }
      PrependSorted(x, o, key);
    } else {
      SortedTail(o, key);
      InsertSorted(x, o[1..], key);
      InsertPermutes(x, o[1..], key);
      var rest := Insert(x, o[1..], key);
      forall y | y in multiset(rest) ensures key[o[0]] <= key[y] {
        if y != x {
          assert y in multiset(o[1..]);
          var t :| 0 <= t < |o[1..]| && o[1..][t] == y;
          assert KeyAt(o, key, 0) <= KeyAt(o, key, t + 1);
        }
      }
      PrependSorted(o[0], rest, key);
    }
  }

  /** Putting in front an index whose key is at most every key of a sorted order keeps it sorted. */
  lemma PrependSorted(x: int, o: seq<int>, key: seq<int>)
    requires 0 <= x < |key| && InRange(o, |key|) && SortedBy(o, key)
    requires forall y :: y in multiset(o) ==> key[x] <= key[y]
    ensures InRange([x] + o, |key|) && SortedBy([x] + o, key)
  {
    var r := [x] + o;
    forall p, q | 0 <= p <= q < |r| ensures KeyAt(r, key, p) <= KeyAt(r, key, q) {
      if p == 0 && q > 0 {
        assert o[q - 1] in multiset(o);
      } else if p > 0 {
        assert KeyAt(o, key, p - 1) <= KeyAt(o, key, q - 1);
      }
    }
  }

  /** The indices 0 .. n - 1 in order. */
  function Range(n: nat): (r: seq<int>)
    ensures |r| == n
  {
    if n == 0 then [] else Range(n - 1) + [n - 1]
  }

  lemma {:induction false} RangeMembers(n: nat, c: int)
    ensures c in multiset(Range(n)) <==> 0 <= c < n
  {
    if n > 0 {
      RangeMembers(n - 1, c);
      assert multiset(Range(n)) == multiset(Range(n - 1)) + multiset{n - 1};
    }
  }

  /** The indices 0 .. n - 1 ordered by key, equal keys in index order. */
  function SortIdx(key: seq<int>, n: nat): (o: seq<int>)
    requires n <= |key|
    ensures |o| == n && InRange(o, |key|)
  {
    if n == 0 then [] else Insert(n - 1, SortIdx(key, n - 1), key)
  }

  /** SortIdx lists the keys in non-decreasing order. */
  lemma {:induction false} SortIdxSorted(key: seq<int>, n: nat)
    requires n <= |key|
    ensures SortedBy(SortIdx(key, n), key)
  {
    if n > 0 {
      SortIdxSorted(key, n - 1);
      InsertSorted(n - 1, SortIdx(key, n - 1), key);
    }
  }

  /** SortIdx is a permutation of 0 .. n - 1. */
  lemma {:induction false} SortIdxPermutation(key: seq<int>, n: nat)
    requires n <= |key|
    ensures multiset(SortIdx(key, n)) == multiset(Range(n))
  {
    if n > 0 {
      SortIdxPermutation(key, n - 1);
      InsertPermutes(n - 1, SortIdx(key, n - 1), key);
    }
  }

  /**
   * What cv::sortIdx promises with SORT_ASCENDING: order lists every index
   * of key exactly once, by non-decreasing key. The order of equal keys is
   * left open.
   */
  predicate IsSortIdx(order: seq<int>, key: seq<int>) {
    InRange(order, |key|) && multiset(order) == multiset(Range(|key|)) && SortedBy(order, key)
  }

  /** The stable insertion sort keeps that promise. */
  lemma SortIdxMeetsContract(key: seq<int>)
    ensures IsSortIdx(SortIdx(key, |key|), key)
  {
    SortIdxSorted(key, |key|);
    SortIdxPermutation(key, |key|);
  }

  /**
   * The tie order matters: two columns with equal keys that prefer the same
   * row keep whichever of them is visited first.
   */
  lemma TieOrderDecides()
    ensures IsSortIdx([0, 1], [5, 5]) && IsSortIdx([1, 0], [5, 5])
    ensures GreedyFrom([0, 1], [0, 0], {}) == [(0, 0)] && GreedyFrom([1, 0], [0, 0], {}) == [(0, 1)]
  {
    assert multiset([1, 0]) == multiset(Range(2));
  }

  /** A visiting order holds every column exactly once. */
  lemma PermutationCovers(o: seq<int>, n: nat, c: int)
    requires multiset(o) == multiset(Range(n))
    ensures c in o <==> 0 <= c < n
  {
    assert c in multiset(o) <==> c in multiset(Range(n));
    RangeMembers(n, c);
  }

  /**
   * The greedy assignment over the visiting order: column c claims its best
   * row best[c] unless an earlier column (or seen) already holds it.
   * The result lists the (row, column) pairs kept, in visiting order.
   */
  function GreedyFrom(order: seq<int>, best: seq<int>, seen: set<int>): seq<(int, int)>
    requires InRange(order, |best|)
    decreases |order|
  {
    if |order| == 0 then []
    else
      var c := order[0];
      var r := best[c];
      if r in seen then GreedyFrom(order[1..], best, seen)
      else [(r, c)] + GreedyFrom(order[1..], best, seen + {r})
  }

  /**
   * Every kept pair is a visited column with its best row, a row not seen
   * before, and no two kept pairs share a row.
   */
  ghost predicate KeptPairs(pairs: seq<(int, int)>, order: seq<int>, best: seq<int>, seen: set<int>)
    requires InRange(order, |best|)
  {
    (forall i :: 0 <= i < |pairs| ==> pairs[i].1 in order && pairs[i].0 == best[pairs[i].1] && pairs[i].0 !in seen)
    && (forall i, i' :: 0 <= i < i' < |pairs| ==> pairs[i].0 != pairs[i'].0)
  }

  lemma {:induction false} GreedyPairs(order: seq<int>, best: seq<int>, seen: set<int>)
    requires InRange(order, |best|)
    ensures KeptPairs(GreedyFrom(order, best, seen), order, best, seen)
    decreases |order|
  {
    if |order| > 0 {
      var r := best[order[0]];
      var tail := order[1..];
      var seen' := if r in seen then seen else seen + {r};
      GreedyPairs(tail, best, seen');
      var rest := GreedyFrom(tail, best, seen');
      assert forall i :: 0 <= i < |rest| ==> rest[i].1 in tail && rest[i].0 !in seen';
      forall i | 0 <= i < |rest| ensures rest[i].1 in order {
        var t :| 0 <= t < |tail| && tail[t] == rest[i].1;
        assert order[t + 1] == rest[i].1;
      }
      if r in seen {
        assert GreedyFrom(order, best, seen) == rest;
      } else {
        var pairs := [(r, order[0])] + rest;
        assert GreedyFrom(order, best, seen) == pairs;
        forall i | 0 < i < |pairs| ensures pairs[i] == rest[i - 1] { }
      }
    }
  }

  /** Some kept pair holds row r. */
  predicate HasRow(pairs: seq<(int, int)>, r: int) {
    exists i :: 0 <= i < |pairs| && pairs[i].0 == r
  }

  /** Every column leads to a kept pair for its best row: no row preferred by some column stays unmatched. */
  lemma {:induction false} GreedyCovers(order: seq<int>, best: seq<int>, seen: set<int>, q: int)
    requires InRange(order, |best|) && 0 <= q < |order|
    ensures best[order[q]] in seen || HasRow(GreedyFrom(order, best, seen), best[order[q]])
    decreases |order|
  {
    var r := best[order[0]];
    var x := best[order[q]];
    if r in seen {
      var rest := GreedyFrom(order[1..], best, seen);
      assert GreedyFrom(order, best, seen) == rest;
      if q > 0 {
        assert order[1..][q - 1] == order[q];
        GreedyCovers(order[1..], best, seen, q - 1);
      }
    } else {
      var rest := GreedyFrom(order[1..], best, seen + {r});
      var pairs := [(r, order[0])] + rest;
      assert GreedyFrom(order, best, seen) == pairs;
      if x == r {
        assert pairs[0].0 == x;
      } else {
        assert q > 0;
        assert order[1..][q - 1] == order[q];
        GreedyCovers(order[1..], best, seen + {r}, q - 1);
        if x !in seen {
          var i :| 0 <= i < |rest| && rest[i].0 == x;
          assert pairs[i + 1].0 == x;
        }
      }
    }
  }

  /**
   * When the order visits the columns by non-decreasing key, the column
   * kept for a row has the smallest key among all the columns whose best
   * row it is.
   */
  lemma {:induction false} GreedyFirst(order: seq<int>, best: seq<int>, seen: set<int>, key: seq<int>, i: int, q: int)
    requires InRange(order, |best|) && InRange(order, |key|) && SortedBy(order, key)
    requires 0 <= i < |GreedyFrom(order, best, seen)| && 0 <= q < |order|
    requires best[order[q]] == GreedyFrom(order, best, seen)[i].0
    ensures GreedyFrom(order, best, seen)[i].1 in order
    ensures key[GreedyFrom(order, best, seen)[i].1] <= key[order[q]]
    decreases |order|
  {
    var pairs := GreedyFrom(order, best, seen);
    var r := best[order[0]];
    var seen' := if r in seen then seen else seen + {r};
    var rest := GreedyFrom(order[1..], best, seen');
    var tail := order[1..];
    SortedTail(order, key);
    if r !in seen && i == 0 {
      assert pairs[0].1 == order[0];
      assert KeyAt(order, key, 0) <= KeyAt(order, key, q);
    } else {
      var i' := if r in seen then i else i - 1;
      assert pairs[i] == rest[i'];
      GreedyPairs(tail, best, seen');
      assert q != 0;
      assert tail[q - 1] == order[q];
      GreedyFirst(tail, best, seen', key, i', q - 1);
    }
  }

  /** One iteration of the greedy loop: the pairs from position k are the outcome at k followed by those from k + 1. */
  lemma GreedyStep(order: seq<int>, best: seq<int>, seen: set<int>, k: int)
    requires InRange(order, |best|) && 0 <= k < |order|
    ensures var r := best[order[k]];
      GreedyFrom(order[k..], best, seen)
      == if r in seen then GreedyFrom(order[k + 1..], best, seen)
         else [(r, order[k])] + GreedyFrom(order[k + 1..], best, seen + {r})
  {
    assert order[k..][1..] == order[k + 1..];
  }

  /** One row of the matches matrix: the image-1 keypoint, the image-2 keypoint, and the scores of that pair. */
  datatype Match = Match(row: int, col: int, distance: int, scale1: int, scale2: int)

  function MatchOf(Hs: array2<int>, S1: array2<int>, S2: array2<int>, p: (int, int)): Match
    reads Hs, S1, S2
    requires 0 <= p.0 < Hs.Length0 && 0 <= p.1 < Hs.Length1
    requires S1.Length0 == S2.Length0 == Hs.Length0 && S1.Length1 == S2.Length1 == Hs.Length1
  {
    Match(p.0, p.1, Hs[p.0, p.1], S1[p.0, p.1], S2[p.0, p.1])
  }

  /** Scores arrays of equal shape and a best row in range for every column. */
  predicate GreedyInputs(Hs: array2<int>, S1: array2<int>, S2: array2<int>, best: seq<int>)
    reads Hs, S1, S2
  {
    S1.Length0 == S2.Length0 == Hs.Length0 && S1.Length1 == S2.Length1 == Hs.Length1 &&
    |best| == Hs.Length1 && forall c :: 0 <= c < |best| ==> 0 <= best[c] < Hs.Length0
  }

  /** The matches rows for a list of kept pairs. */
  predicate MatchesFor(matches: seq<Match>, pairs: seq<(int, int)>, Hs: array2<int>, S1: array2<int>, S2: array2<int>)
    reads Hs, S1, S2
    requires S1.Length0 == S2.Length0 == Hs.Length0 && S1.Length1 == S2.Length1 == Hs.Length1
  {
    |matches| == |pairs| &&
    forall i :: 0 <= i < |pairs| ==>
      0 <= pairs[i].0 < Hs.Length0 && 0 <= pairs[i].1 < Hs.Length1 && matches[i] == MatchOf(Hs, S1, S2, pairs[i])
  }

  /** Appending a kept pair to done and its row to matches keeps both invariants of the greedy loop. */
  lemma KeepPair(matches: seq<Match>, done: seq<(int, int)>, p: (int, int), rest: seq<(int, int)>,
                 Hs: array2<int>, S1: array2<int>, S2: array2<int>)
    requires S1.Length0 == S2.Length0 == Hs.Length0 && S1.Length1 == S2.Length1 == Hs.Length1
    requires 0 <= p.0 < Hs.Length0 && 0 <= p.1 < Hs.Length1
    requires MatchesFor(matches, done, Hs, S1, S2)
    ensures MatchesFor(matches + [MatchOf(Hs, S1, S2, p)], done + [p], Hs, S1, S2)
    ensures (done + [p]) + rest == done + ([p] + rest)
  { }

  /** The loop over idx2 with the visited-rows vector V of length L1. */
  method GreedyMatches(Hs: array2<int>, S1: array2<int>, S2: array2<int>, idx1: array<int>, idx2: seq<int>, L1: int)
    returns (matches: seq<Match>)
    requires GreedyInputs(Hs, S1, S2, idx1[..]) && InRange(idx2, idx1.Length) && Hs.Length0 <= L1
    ensures MatchesFor(matches, GreedyFrom(idx2, idx1[..], {}), Hs, S1, S2)
  {
    var V := new int[L1](_ => 0);
    ghost var best := idx1[..];
    ghost var seen: set<int> := {};
    ghost var done: seq<(int, int)> := [];
    matches := [];
    for k := 0 to |idx2|
      invariant forall r :: 0 <= r < L1 ==> (V[r] == 1 <==> r in seen)
      invariant done + GreedyFrom(idx2[k..], best, seen) == GreedyFrom(idx2, best, {})
      invariant MatchesFor(matches, done, Hs, S1, S2)
    {
      GreedyStep(idx2, best, seen, k);
      var j := idx1[idx2[k]];
      if V[j] == 1 {
        continue;
      }
      V[j] := 1;
      var tmp := Match(j, idx2[k], Hs[j, idx2[k]], S1[j, idx2[k]], S2[j, idx2[k]]);
      KeepPair(matches, done, (j, idx2[k]), GreedyFrom(idx2[k + 1..], best, seen + {j}), Hs, S1, S2);
      matches := matches + [tmp];
      done := done + [(j, idx2[k])];
      seen := seen + {j};
    }
  }

  /** idx1: the best row of every column of Hs. */
  function BestRows1(Hs: array2<int>): (best: seq<int>)
    reads Hs
    ensures |best| == Hs.Length1
  {
    seq(Hs.Length1, c reads Hs requires 0 <= c < Hs.Length1 => BestRow(Hs, c, Hs.Length0).0)
  }

  /** dd: the distance of the best row of every column of Hs. */
  function BestDistances(Hs: array2<int>): (dd: seq<int>)
    reads Hs
    ensures |dd| == Hs.Length1
  {
    seq(Hs.Length1, c reads Hs requires 0 <= c < Hs.Length1 => BestRow(Hs, c, Hs.Length0).1)
  }

  /** The (row, column) pairs that multiScaleMatching keeps for the scores Hs when it visits the columns in order. */
  function KeptPairsOf(Hs: array2<int>, order: seq<int>): seq<(int, int)>
    reads Hs
    requires Hs.Length1 > 0 ==> Hs.Length0 > 0
    requires InRange(order, Hs.Length1)
  {
    BestRowsInRange(Hs);
    GreedyFrom(order, BestRows1(Hs), {})
  }

  lemma BestRowsInRange(Hs: array2<int>)
    requires Hs.Length1 > 0 ==> Hs.Length0 > 0
    ensures forall c :: 0 <= c < Hs.Length1 ==> 0 <= BestRows1(Hs)[c] < Hs.Length0
  {
    forall c | 0 <= c < Hs.Length1 ensures 0 <= BestRows1(Hs)[c] < Hs.Length0 {
      BestRowIsBest(Hs, c, Hs.Length0);
    }
  }

  /**
   * The pairs form a one-to-one greedy assignment for best rows best and
   * distances key: every pair is a column with its best row, no row is kept
   * twice, every row that is the best row of some column is kept, and the
   * column kept for a row has the smallest key among all columns whose
   * best row it is.
   */
  ghost predicate GreedyOneToOne(pairs: seq<(int, int)>, best: seq<int>, key: seq<int>)
    requires |best| == |key|
  {
    (forall i :: 0 <= i < |pairs| ==> 0 <= pairs[i].1 < |best| && pairs[i].0 == best[pairs[i].1])
    && (forall i, i' :: 0 <= i < i' < |pairs| ==> pairs[i].0 != pairs[i'].0)
    && (forall c :: 0 <= c < |best| ==> HasRow(pairs, best[c]))
    && (forall i, c :: 0 <= i < |pairs| && 0 <= c < |best| && 0 <= pairs[i].1 < |best| && best[c] == pairs[i].0 ==>
          key[pairs[i].1] <= key[c])
  }

  /** A greedy pass over a key-sorted permutation of the columns is a one-to-one greedy assignment. */
  lemma GreedyOverSortedOrder(order: seq<int>, best: seq<int>, key: seq<int>)
    requires |best| == |key| && InRange(order, |best|)
    requires multiset(order) == multiset(Range(|best|)) && SortedBy(order, key)
    ensures GreedyOneToOne(GreedyFrom(order, best, {}), best, key)
  {
    var pairs := GreedyFrom(order, best, {});
    GreedyPairs(order, best, {});
    forall i | 0 <= i < |pairs| ensures 0 <= pairs[i].1 < |best| {
      var t :| 0 <= t < |order| && order[t] == pairs[i].1;
    }
    forall c | 0 <= c < |best| ensures HasRow(pairs, best[c]) {
      PermutationCovers(order, |best|, c);
      var q :| 0 <= q < |order| && order[q] == c;
      GreedyCovers(order, best, {}, q);
    }
    forall i, c | 0 <= i < |pairs| && 0 <= c < |best| && 0 <= pairs[i].1 < |best| && best[c] == pairs[i].0
      ensures key[pairs[i].1] <= key[c]
    {
      PermutationCovers(order, |best|, c);
      var q :| 0 <= q < |order| && order[q] == c;
      GreedyFirst(order, best, {}, key, i, q);
    }
  }

  /**
   * For any order cv::sortIdx may return, the pairs multiScaleMatching keeps
   * are a one-to-one greedy assignment of best rows by distance.
   */
  lemma KeptPairsAreGreedy(Hs: array2<int>, order: seq<int>)
    requires Hs.Length1 > 0 ==> Hs.Length0 > 0
    requires IsSortIdx(order, BestDistances(Hs))
    ensures GreedyOneToOne(KeptPairsOf(Hs, order), BestRows1(Hs), BestDistances(Hs))
  {
    BestRowsInRange(Hs);
    GreedyOverSortedOrder(order, BestRows1(Hs), BestDistances(Hs));
  }

  /**
   * Phase 3: nearest neighbours of every keypoint of image 2, then the
   * greedy one-to-one pass. The OpenCV call cv::sortIdx is the parameter
   * sortIdx, of which only its promise IsSortIdx is assumed.
   */
  method MatchFromScores(Hs: array2<int>, S1: array2<int>, S2: array2<int>, L1: int, sortIdx: seq<int> -> seq<int>)
    returns (idx2: seq<int>, matches: seq<Match>)
    requires S1.Length0 == S2.Length0 == Hs.Length0 && S1.Length1 == S2.Length1 == Hs.Length1
    requires Hs.Length1 > 0 ==> Hs.Length0 > 0
    requires Hs.Length0 <= L1
    requires forall key {:trigger sortIdx(key)} :: IsSortIdx(sortIdx(key), key)
    ensures idx2 == sortIdx(BestDistances(Hs)) && IsSortIdx(idx2, BestDistances(Hs))
    ensures MatchesFor(matches, KeptPairsOf(Hs, idx2), Hs, S1, S2)
    ensures GreedyOneToOne(KeptPairsOf(Hs, idx2), BestRows1(Hs), BestDistances(Hs))
  {
    var dd, idx1 := BestRows(Hs);
    assert idx1[..] == BestRows1(Hs);
    assert dd[..] == BestDistances(Hs);
    idx2 := sortIdx(dd[..]);
    BestRowsInRange(Hs);
    matches := GreedyMatches(Hs, S1, S2, idx1, idx2, L1);
    KeptPairsAreGreedy(Hs, idx2);
  }

  /** Matrix multi-scale matching: distances, block scores, nearest neighbours and the greedy one-to-one pass. */
  method MultiScaleMatching(D1: seq<Descriptor>, D2: seq<Descriptor>, dt1: seq<int>, dt2: seq<int>, cfg: Matcher, mm: int,
                            sortIdx: seq<int> -> seq<int>)
    returns (H: array2<int>, Hs: array2<int>, S1: array2<int>, S2: array2<int>, idx2: seq<int>, matches: seq<Match>)
    requires Divides(|D1|, cfg.nLevels) && Divides(|D2|, cfg.nLevels)
    requires ScalesFit(mm, cfg, dt1, dt2, |D1| / cfg.nLevels, |D2| / cfg.nLevels)
    requires |D2| > 0 ==> |D1| > 0
    requires forall key {:trigger sortIdx(key)} :: IsSortIdx(sortIdx(key), key)
    ensures fresh(H) && fresh(Hs) && fresh(S1) && fresh(S2)
    ensures DistanceMatrix(H, D1, D2, cfg.nLevels)
    ensures ScoreShapes(H, Hs, S1, S2, cfg.nLevels)
    ensures Hs.Length0 == |D1| / cfg.nLevels && Hs.Length1 == |D2| / cfg.nLevels
    ensures ScoredUpTo(Hs, S1, S2, AllScores(H, mm, cfg, dt1, dt2, Hs.Length0, Hs.Length1), Hs.Length0, 0)
    ensures idx2 == sortIdx(BestDistances(Hs)) && IsSortIdx(idx2, BestDistances(Hs))
    ensures MatchesFor(matches, KeptPairsOf(Hs, idx2), Hs, S1, S2)
    ensures GreedyOneToOne(KeptPairsOf(Hs, idx2), BestRows1(Hs), BestDistances(Hs))
  {
    H := FillDistances(D1, D2, cfg.nLevels);
    Hs, S1, S2 := ScoreBlocks(H, mm, cfg, dt1, dt2);
    DivExact(|D1|, cfg.nLevels);
    DivExact(|D2|, cfg.nLevels);
    if Hs.Length0 > 0 { MulMonotone(1, cfg.nLevels, Hs.Length0); }
    idx2, matches := MatchFromScores(Hs, S1, S2, |D1|, sortIdx);
  }
}
