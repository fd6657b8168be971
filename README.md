# MORB multi-scale descriptor matching, modelled in Dafny

This project models the matching core of MORB, a multi-scale ORB matcher.

Each image delivers `L = K * nLevels` binary descriptors: K keypoints, each described at nLevels pyramid levels, stored scale-major. `Matcher::multiScaleMatching` runs in four steps:

1. It permutes the rows so that the nLevels descriptors of one keypoint become adjacent.
2. It fills the full Hamming-distance matrix `H`.
3. It reduces every nLevels x nLevels block of `H` (one block per keypoint pair) to a triple `(score, s1, s2)`. The selected strategy does the reduction:
   - RM: the global minimum, with an optional row/column gate and an optional south-east diagonal mean;
   - D: the best diagonal band average;
   - C, C-SEC, wC, wC-SEC and cORB: a 256-valued mask around the detection scales, then an argmin.
   The triples are stored in `Hs`, `S1` and `S2`.
4. For every image-2 keypoint it picks the best image-1 keypoint. It then visits the image-2 keypoints by increasing distance and keeps each one whose best row is still unused.

The model also covers:
- the `Matcher` configuration switch;
- the popcount distance;
- the two descriptor text dumps of `Frame`: the bit characters of `saveDescriptors` and the keypoint-major rows of `saveMultiScaleDescriptor`.

## Modules

| module | models |
|---|---|
| `BitCount` | the SWAR popcount of one 32-bit word, proved equal to a byte-wise count |
| `Hamming` | descriptors as 8 x `bv32`, `DescriptorDistance` and its specification |
| `Arith` | C++ integer division (truncating) and the ceiling, with the division facts used elsewhere |
| `IndexRemap` | the id1/id2 row permutation and its inverse |
| `Config` | the `MatchMode` enum and the two constructors of `Matcher` |
| `Blocks` | square blocks, and `cv::minMaxLoc` as the first row-major minimum |
| `GlobalMinScorer` | `scaleMatchingMin` (RM) |
| `DiagonalScorer` | `minHammingAndScale` (D), with the `std::map` accumulation loop |
| `MaskScorer` | the integer part of `getDistanceAndScaleRatio` for W = 0 |
| `Matching` | `multiScaleMatching`: H fill, block loop, best rows, `sortIdx`, the greedy pass |
| `FrameText` | the characters written by `saveDescriptors` and `saveMultiScaleDescriptor` |

The imperative code is modelled with imperative Dafny:
- `H`, `Hs`, `S1`, `S2`, `id1`, `id2`, `dd`, `idx1` and `V` are arrays.
- The mask is an `array2` filled range by range.
- The `dist` map of `minHammingAndScale` is a Dafny `map` updated in the loop.
- The text dumps are strings grown one `fprintf` at a time.

Each method is proved against a pure function, and the properties are proved as lemmas about those functions.

The descriptor text is written **least significant bit first**: `binary[7]` of `std::bitset<8>::to_string()` is bit 0, and it is written first (src/Frame.cpp:165-173).

Two behaviours of the code that are easy to miss:
- `R == 0` zeroes the whole row s1 and the whole column s2 of the mask (src/matcher.cpp:429-438).
- With the south-east check, the RM score becomes the diagonal mean even when the gate rejected the minimum, because the check overwrites the sentinel 10000.

## Model

| member | source | states |
|---|---|---|
| BitCount.SwarIsPopCount | src/matcher.cpp:477-481 | the three SWAR steps applied to v ^ w compute the number of set bits of the word |
| BitCount.PopCountInt | src/matcher.cpp:477-481 | a word's popcount lies in 0..32 and is 0 exactly for the zero word |
| Hamming.WordDistance | src/matcher.cpp:477-481 | the per-word distance lies in 0..32 and is 0 exactly when the two words are equal |
| Hamming.HammingDistance | src/matcher.cpp:471-485 | the descriptor distance lies in 0..256 and is 0 exactly when the two descriptors are equal |
| Hamming.HammingSymmetric | src/matcher.cpp:471-485 | the distance is symmetric in its two descriptors |
| Hamming.DescriptorDistance | src/matcher.cpp:471-485 | the loop over the eight words returns the sum of the popcounts of the XORed words |
| IndexRemap.BuildIndexMap | src/matcher.cpp:61-69 | id[j] == nLevels * (j mod K) + j div K for every row |
| IndexRemap.InterleaveScaleMajor | src/matcher.cpp:63 | scale-major row level * K + kp moves to row kp * nLevels + level |
| IndexRemap.InterleaveInverse | src/matcher.cpp:61-69 | when nLevels divides L the map sends [0, L) into [0, L) and Deinterleave undoes it |
| IndexRemap.DeinterleaveInverse | src/matcher.cpp:61-69 | the map is onto [0, L): Deinterleave is a right inverse too |
| IndexRemap.InterleaveInjective | src/matcher.cpp:61-79 | distinct rows land in distinct rows, so no cell of H is written twice |
| IndexRemap.InterleaveCollidesWithoutDivisibility | src/matcher.cpp:63 | with L = 10 and nLevels = 4 rows 1 and 8 both land in row 4, so divisibility is needed |
| Config.Code | src/matcher.h:51-59 | the strategy codes are 0..6 in declaration order |
| Config.CodeRoundTrip | src/matcher.h:51-59 | decoding a strategy's code gives back the strategy, and a decoded code is that strategy's code |
| Config.Configure | src/matcher.h:70-113 | maxCond is 0 for every strategy; southEastCheck holds exactly for 3 and 5; cORB forces W = 0 and R = -1; other strategies keep W and R; nLevels is copied |
| Config.DefaultIsRM | src/matcher.h:61-68 | the default constructor equals the configuration of MORB_RM with W = 0, R = 0, nLevels = 8 |
| Config.ConfigureByMode | src/matcher.h:70-113 | per enum value, the configuration apart from W and R is (maxCond 0, southEastCheck exactly for C-SEC and wC-SEC, nLevels) |
| Config.ScorerFor | src/matcher.cpp:106-146 | strategy 1 selects D, 2..6 the masked scorer (with WMA for 4 and 5), and 0 or any other value RM |
| Blocks.FirstMinInRows | src/matcher.cpp:296 | the scan returns a cell no larger than any cell of the first k rows and smaller than every cell before it |
| Blocks.MinLoc | src/matcher.cpp:296 | cv::minMaxLoc reports the first row-major cell holding the block minimum |
| Blocks.FirstMinUnique | src/matcher.cpp:296 | the first minimum is unique, so the reported location is determined |
| GlobalMinScorer.GlobalMinScores | src/matcher.cpp:285-346 | the reported (s1, s2) is always the first minimum of the block |
| GlobalMinScorer.GateKeepsMinimum | src/matcher.cpp:298-325 | without the south-east check: maxCond 1 keeps the minimum exactly in row or column 0, maxCond 2 exactly in rows or columns 0..1, other values always; otherwise the score is 10000 |
| GlobalMinScorer.DiagonalSumBounds | src/matcher.cpp:333-342 | bounds on the cells bound the diagonal sum by the bounds times the diagonal's length |
| GlobalMinScorer.SouthEastMeanBounds | src/matcher.cpp:327-345 | with the south-east check the score lies between the minimum and any upper bound of the block, and the gate has no effect |
| GlobalMinScorer.ScaleMatchingMin | src/matcher.cpp:285-346 | the while loop's truncated mean and the switch give the reference scores |
| DiagonalScorer.DiagonalCount | src/matcher.cpp:246-258 | diagonal k of an N x N block has N - abs k cells and is non-empty exactly for -N < k < N |
| DiagonalScorer.BestOffset | src/matcher.cpp:263-272 | the strict-less scan in increasing k keeps the first offset with the smallest ceiled average |
| DiagonalScorer.DiagonalMinScoresCorrect | src/matcher.cpp:232-282 | the score is the minimum over offsets of ceil(sum / count), capped at 255; the first such offset is chosen; (s1, s2) = (max(k, 0), max(-k, 0)); with no average below 255 the result is (255, 0, 0) |
| DiagonalScorer.DiagonalMinUnique | src/matcher.cpp:232-282 | that description determines the scores uniquely |
| DiagonalScorer.DiagonalTotals | src/matcher.cpp:244-258 | after the nested loops, dist holds exactly the offsets -N < k < N, each with its diagonal sum and its N - abs k cells |
| DiagonalScorer.MinHammingAndScale | src/matcher.cpp:232-282 | the map loop and the scan over it produce the reference scores |
| MaskScorer.BuildMask | src/matcher.cpp:426-441 | the mask is 0 inside the window chosen by R and 256 elsewhere |
| MaskScorer.MaskedMinInWindow | src/matcher.cpp:426-451 | for distances below 256 the reported cell is the first minimum of the block inside the window, and the score is its distance |
| MaskScorer.SingleCellMask | src/matcher.cpp:427-428 | with R = -1 the scorer reports exactly the distance at the detection scales (s1, s2) |
| MaskScorer.GetDistanceAndScaleRatio | src/matcher.cpp:349-467 | with W = 0 the mask, the overlay and cv::minMaxLoc give the reference scores |
| Matching.IndexMapInverse | src/matcher.cpp:61-69 | the filled id1/id2 arrays are bijections on [0, L), and their inverse is Deinterleave |
| Matching.FillDistances | src/matcher.cpp:61-79 | every cell (i1, i2) of H holds the distance between the scale-major rows Deinterleave(i1) and Deinterleave(i2) |
| Matching.KeypointBlock | src/matcher.cpp:71-79 | cell (a * nLevels + l1, b * nLevels + l2) of H is the distance between keypoint a at level l1 and keypoint b at level l2 |
| Matching.ScoreBlock | src/matcher.cpp:106-146 | the switch on mm applies the scorer ScorerFor selects |
| Matching.ScoreBlocks | src/matcher.cpp:92-160 | Hs, S1 and S2 are (L1 / nLevels) x (L2 / nLevels), and cell (a, b) holds the scores of block (a * nLevels, b * nLevels) of H |
| Matching.IdenticalSetsScoreZero | src/matcher.cpp:98-150 | matching a set against itself with any global-minimum strategy, with or without the south-east check and for every gate, scores every pair (a, a) as (0, 0, 0) |
| Matching.BestRowIsBest | src/matcher.cpp:171-183 | a column's best row holds the minimum of 255 and the column, and it is the first row strictly below every earlier row; with no value below 255 it is (row 0, 255) |
| Matching.BestRowUnique | src/matcher.cpp:171-183 | that description determines the best row and distance |
| Matching.ColumnBest | src/matcher.cpp:173-180 | the inner loop returns the best row and distance of column j |
| Matching.BestRows | src/matcher.cpp:171-183 | idx1 and dd hold the best row and distance of every column |
| Matching.SortIdxSorted | src/matcher.cpp:185 | the stable insertion sort `SortIdx` lists the columns by non-decreasing dd |
| Matching.SortIdxPermutation | src/matcher.cpp:185 | the stable insertion sort `SortIdx` lists a permutation of the columns 0 .. K2 - 1 |
| Matching.SortIdxMeetsContract | src/matcher.cpp:185 | the stable insertion sort is one admissible `sortIdx`: it meets IsSortIdx (a permutation of the columns by non-decreasing dd) |
| Matching.TieOrderDecides | src/matcher.cpp:185-205 | two admissible orders of tied columns keep different columns, so the match list depends on the tie order of `sortIdx` |
| Matching.GreedyPairs | src/matcher.cpp:187-211 | each kept pair is a visited column with its best row, a row not used before, and no row is kept twice |
| Matching.GreedyCovers | src/matcher.cpp:192-201 | a skipped column's best row is already kept, so every row that some column prefers is matched |
| Matching.GreedyFirst | src/matcher.cpp:185-211 | over a sorted order, the column kept for a row has the smallest key among all columns preferring that row |
| Matching.GreedyOverSortedOrder | src/matcher.cpp:185-211 | for any key-sorted permutation of the columns, the pass is a one-to-one greedy assignment |
| Matching.GreedyMatches | src/matcher.cpp:187-211 | the loop with the V vector emits exactly the rows (row, column, Hs, S1, S2) of the kept pairs, in visiting order |
| Matching.KeptPairsAreGreedy | src/matcher.cpp:171-211 | for every order meeting IsSortIdx: rows are pairwise distinct; each kept column has its best row; every preferred row is kept; the kept column has the lowest dd for its row |
| Matching.MatchFromScores | src/matcher.cpp:171-211 | for any `sortIdx` meeting IsSortIdx, idx2 is its order of dd, the matches are those of the greedy pass over idx2, and the kept pairs are a one-to-one greedy assignment |
| Matching.MultiScaleMatching | src/matcher.cpp:43-228 | H is the remapped distance matrix; Hs/S1/S2 hold the block scores; for any `sortIdx` meeting IsSortIdx the matches are those of the greedy pass over its order, and form a one-to-one greedy assignment |
| FrameText.BinaryReadBackwards | src/Frame.cpp:165-173 | reading the bitset string from its last character emits the bits least significant first |
| FrameText.ByteTextRoundTrip | src/Frame.cpp:165-173 | decoding the sixteen characters of a value gives back the value modulo 256 |
| FrameText.LsbLayout | src/Frame.cpp:166-173 | the characters alternate between '0'/'1' and a space |
| FrameText.EmitByte | src/Frame.cpp:165-173 | the eight fprintf calls write the bits of v mod 256, least significant first, each followed by a space |
| FrameText.RowTextLength | src/Frame.cpp:163-174 | a descriptor line has 16 characters per value, that is 8 bit characters and 8 spaces |
| FrameText.RowRoundTrip | src/Frame.cpp:163-174 | a descriptor line decodes to the low eight bits of every value of the row |
| FrameText.RowLayout | src/Frame.cpp:163-174 | a descriptor line alternates bit characters and spaces |
| FrameText.EmitRow | src/Frame.cpp:163-174 | the loop over the columns writes the line of the row |
| FrameText.SaveDescriptors | src/Frame.cpp:144-182 | the file is, per keypoint, its header, a newline, its bit line and a newline |
| FrameText.RecordShape | src/Frame.cpp:157-177 | a record is the header, '\n', 16 characters per value and '\n' |
| FrameText.RecordRoundTrip | src/Frame.cpp:157-177 | the bit line of a record decodes to the descriptor row modulo 256 |
| FrameText.DescriptorsFileLines | src/Frame.cpp:157-177 | with newline-free headers the file has exactly two lines per keypoint |
| FrameText.DecimalRoundTrip | src/Frame.cpp:238 | "%d" text is all digits and parses back to the number |
| FrameText.RowKeypointInRange | src/Frame.cpp:241-244 | every row index below nkeypointsLevel * nlevels belongs to a keypoint n / nlevels that exists |
| FrameText.EmitValues | src/Frame.cpp:246-247 | the inner loop writes the first 32 values of the row, each as "%u " |
| FrameText.EmitDumpLine | src/Frame.cpp:244-249 | a row is the keypoint's coordinates, its 32 values and a newline |
| FrameText.SaveMultiScaleDescriptor | src/Frame.cpp:225-253 | the file is "%d \n" of the per-level count, then nkeypointsLevel * nlevels rows |
| FrameText.DumpLayout | src/Frame.cpp:241-250 | row kp * nlevels + level carries keypoint kp's coordinates, so each keypoint fills nlevels consecutive rows |
| FrameText.DumpFileLines | src/Frame.cpp:238-250 | with newline-free coordinates the file has one line for the count plus one per row |

## Left out

- Strategies C, C-SEC, wC, wC-SEC and cORB with W > 0 are not modelled. That case needs the float kernel and its weighted-moving-average weights (`pow`), `cv::filter2D` and `cv::divide` (src/matcher.cpp:359-424). `MultiScaleMatching` requires W = 0 for these strategies. With W = 0 the kernel is the 1 x 1 identity on every branch and `round` of an integer is the integer.
- Matching.ScoreBlock: the `WMA` flag passed for wC and wC-SEC is not used, because it has no effect when W = 0.
- DiagonalScorer.DiagonalMinScoresCorrect: `ceil((float) sum / count)` is modelled as the exact integer ceiling. A block sum is at most 256 * nLevels and a count at most nLevels, so a float quotient of that size is never rounded across an integer.
- `cv::sortIdx` is OpenCV code with no documented tie order. `MatchFromScores` and `MultiScaleMatching` take it as a parameter and assume only IsSortIdx of it. The match list is stated for the order it returns, and the greedy properties for every such order. `SortIdx`, a stable insertion sort, shows that the assumption can be met. `TieOrderDecides` shows that the exact list does depend on the tie order.
- Matching.MultiScaleMatching requires nLevels to divide both row counts. Without it the source goes wrong as follows. When 0 < L < nLevels, `L / nLevels` is 0 and the remap of src/matcher.cpp:61-69 divides by zero. Otherwise the remap can send two rows to the same row (`InterleaveCollidesWithoutDivisibility`). The last block's `rowRange(j, j + nLevels)` (or `colRange`) at src/matcher.cpp:102 then runs past the end of `H`, which fails an OpenCV assertion.
- The default argument `MatchMode _ = MORB_RM` of `multiScaleMatching` (src/matcher.h:122) is not a separate case. A call without a mode is `MultiScaleMatching` with mm = 0, which `ScorerFor` maps to the global minimum (RM). `DefaultIsRM` covers the default of the constructor.
- Matching.MultiScaleMatching requires image 1 to be non-empty when image 2 is not. Otherwise the greedy loop reads `V` and `Hs` at row 0 of empty matrices.
- Matching.BlockAt reads 0 outside `H`. Under the requirements above, every block lies inside `H`.
- The detection scales `dtScales1` and `dtScales2` are read only by the masked strategies. Only those strategies require them to be long enough and to fit the mask ranges.
- Hamming.DescriptorDistance takes the descriptor as eight 32-bit words. The reinterpretation of a 32-byte `cv::Mat` row as `int32` words is not modelled.
- Timing, `std::cout` logging and `saveMatching` (src/matcher.cpp:487-502) are not modelled: they are clocks and console or file I/O.
- `fopen`, `fclose` and the file itself are not modelled. The dumps are the character sequences the `fprintf` calls produce.
- The float fields of the dumps are inputs: the header `"%.7e %.7e %d %.7e %f"` of `saveDescriptors` and the coordinates `"%.7e %.7e "` of `saveMultiScaleDescriptor`. Float formatting is not modelled.
- FrameText.SaveDescriptors takes the descriptor rows as a sequence of integer rows. It does not take a `cv::Mat` with a common column count; each row is written with its own length.
- FrameText.SaveMultiScaleDescriptor requires at least nkeypointsLevel * nlevels rows of at least 32 byte values. Reading past them is undefined in the source.
- Feature detection, `showKeypoints` and `saveDescriptorsAndIntensityDiff` in src/Frame.cpp are not modelled: they are image handling, UI and a separate dump.
- src/morb.h, src/utilities.h, src/Frame.h, src/timer.h, src/mainMatcher.cpp and src/kpsextractor.cpp are not part of this model.
