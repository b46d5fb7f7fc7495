# Uplifting-shape playlist reorder, modelled in Dafny

The playlist tool scores every track of a Spotify playlist with a
"composite value". It can then reorder the playlist so that the scores
follow one of six shapes: a rising or falling line, an upward or downward
parabola, or a rising or falling cubic. `rearrange_to_shape` does this in
four steps:

1. Evaluate the chosen curve `equation_y` at `(x + 1) / N` for each row x.
   These are the target values.
2. Sort the target values and the scores as `(value, index)` pairs.
3. Zip the two resulting index lists and sort the zipped pairs by their
   target-side index.
4. Select the frame's rows in that order with `iloc`.

The result is that the track with score rank k lands on the position whose
target value has rank k. Ranks count ascending, and ties are broken by
original index.

The project has four modules:

- `TupleSort` models Python's `enumerate`, `zip` and `sorted` on
  `(key, index)` pairs compared lexicographically. Insertion sort stands in
  for Timsort. `SortedIsUnique` justifies the substitution: a sorted
  permutation is unique.
- `Ranking` defines the reference notion of rank, the number of rows that
  come before a row. It proves that the sorted index list is a permutation
  and lists the rows in rank order.
- `Curves` models the six curves of `equation_y` and their closed-form
  properties.
- `PlaylistAnalysis` models `rearrange_to_shape` on a frame of `Track` rows
  and proves these properties:
  - the output is a permutation of the rows;
  - ranks are matched;
  - the two straight lines sort the scores;
  - tied scores are ordered as the target ranks say;
  - the small cases behave as expected.

Three behaviours of the code are worth stating plainly, and the model
keeps them:

- **Empty frame.** An empty frame yields empty lists at every step and comes
  back empty; no curve is evaluated, so there is no division by zero.
  `RearrangeToShape` keeps the length.
- **Unchecked selector.** `rearrange_to_shape` does not check the selector:
  its `else` branch gives every selector other than 1..5 the negative cubic
  (`UncheckedSelectorsActAsNegativeCubic`). Only the menu `choose_equation`
  enforces the range 1..6 (`IsEquationNumber`).
- **Tied scores.** Of two tied scores, the row with the smaller index goes
  to the position whose target ranks lower. Under a falling curve this
  reverses tied rows (`TiesUnderStraightLines`, `TiedExample`).

## Model

| member | source | states |
|---|---|---|
| TupleSort.Enumerate | playlist_analysis.py:172 | `[(value, index) for index, value in enumerate(v)]`: one pair per value, and no two pairs alike because each carries its own index |
| TupleSort.Zip | playlist_analysis.py:184 | `zip` of two index lists: no longer than either list, as long as both when they have equal length, and free of repeated pairs when the first list is |
| TupleSort.Seconds | playlist_analysis.py:174 | `[index for _, index in pairs]`: one index per pair; its contents are stated by SortedPositionsSpec and TargetedPositionsPairing |
| TupleSort.Insert | playlist_analysis.py:173 | inserting into a sorted list of pairs gives a sorted list holding the old pairs plus the new one |
| TupleSort.SortPairs | playlist_analysis.py:173 | `sorted` returns a list that is sorted under the lexicographic tuple order and is a permutation (same multiset, same length) of its input |
| TupleSort.SortPairsMembers | playlist_analysis.py:178 | a pair occurs in the sorted list exactly when it occurs in the input |
| TupleSort.SortedIsUnique | playlist_analysis.py:185 | every sorted permutation of a list equals SortPairs of it, so the result does not depend on the sorting algorithm Python uses |
| TupleSort.SortDistinctIsStrict | playlist_analysis.py:173 | sorting pairs that are pairwise different gives a strictly increasing list |
| TupleSort.SortKeepsDistinct | playlist_analysis.py:178 | sorting keeps a list free of repeated pairs |
| TupleSort.InsertKeepsDistinct | playlist_analysis.py:173 | inserting a pair that is not yet present keeps the list free of repeats |
| Ranking.Rank | playlist_analysis.py:172-179 | the reference definition of rank (how many rows come before a row by value, then index); always below N; the lemmas RankOfSortedPosition, RankLocatesRow and RankOrder tie it to the sorted index lists |
| Ranking.SortedPositions | playlist_analysis.py:172-174 | the index list extracted from the sorted `(value, index)` pairs has one entry per value |
| Ranking.SortedPositionsSpec | playlist_analysis.py:172-179 | `a_original_position` and `b_original_position` are permutations of 0..N-1 ordered by value ascending, with equal values in increasing index order |
| Ranking.SortedEntry | playlist_analysis.py:172-174 | the k-th sorted pair is the row at the k-th sorted position paired with its own value |
| Ranking.RankOfSortedPosition | playlist_analysis.py:172-174 | the row listed k-th in the sorted index list has rank k (exactly k rows come before it) |
| Ranking.RankLocatesRow | playlist_analysis.py:177-179 | every row appears in the sorted index list at the index given by its rank |
| Ranking.RankOrder | playlist_analysis.py:172-179 | one row ranks below another exactly when it comes first by value, then by index |
| Ranking.RanksOfAscendingRows | playlist_analysis.py:172-174 | when rows are already in value-then-index order, each row's rank is its index |
| Ranking.RanksOfDescendingRows | playlist_analysis.py:172-174 | when rows are in reverse value-then-index order, row i has rank N-1-i |
| Curves.EquationY | playlist_analysis.py:141-165 | `equation_y`: u = x/t, then u, 1-u, 4u^2-4u+1, -4u^2+4u, 9u^3-(27/2)u^2+(11/2)u, or for any other selector -9u^3+(27/2)u^2-(11/2)u+1; t = 0 is excluded, where Python raises; its properties are the Curves lemmas below |
| Curves.OtherSelectorsAreNegativeCubic | playlist_analysis.py:164-165 | any selector outside 1..5 (0, negatives, 7 and up) evaluates to the negative cubic |
| Curves.NegativeCurvesMirrorPositive | playlist_analysis.py:154-165 | curves 2, 4 and 6 equal one minus curves 1, 3 and 5 respectively |
| Curves.ParabolaIsSquare | playlist_analysis.py:158-161 | the positive parabola is (2u-1)^2; at u = 1/2 it gives 0 and the negative parabola gives 1; elsewhere the first is positive and the second below 1 |
| Curves.CurvesUnderReflection | playlist_analysis.py:153-165 | reflecting x to t-x swaps the lines, leaves the parabolas unchanged and maps each cubic value y to 1-y |
| Curves.BoundaryValues | playlist_analysis.py:153-165 | at u = 1/2 the parabolas give 0 and 1 and both cubics give 1/2; at u = 1 the lines give 1 and 0 and the cubics give 1 and 0 |
| Curves.LinearCurvesAreStrictlyMonotone | playlist_analysis.py:154-157 | for t > 0 the positive line rises and the negative line falls strictly in x |
| Curves.CurvesStayInUnitInterval | playlist_analysis.py:153-165 | for 0 <= x <= t every selector's value lies in [0, 1] |
| Curves.ParabolaBetweenZeroAndOne | playlist_analysis.py:158-159 | the positive parabola stays in [0, 1] for u in [0, 1] |
| Curves.CubicBetweenZeroAndOne | playlist_analysis.py:162-163 | the positive cubic stays in [0, 1] for u in [0, 1] |
| PlaylistAnalysis.IsEquationNumber | playlist_analysis.py:120 | the range test of `choose_equation`: a selector is accepted exactly when 0 < n < 7; UncheckedSelectorsActAsNegativeCubic states what the reorder does with the rest |
| PlaylistAnalysis.CompositeValues | playlist_analysis.py:169 | `df['Composite Value'].values`: one score per row |
| PlaylistAnalysis.TargetValues | playlist_analysis.py:168 | list `a`: one target per row, the curve at (x+1)/N; TargetValuesInUnitInterval bounds it in [0, 1] |
| PlaylistAnalysis.TargetedPositions | playlist_analysis.py:172-186 | `targeted_positions`: one entry per row; TargetedPositionsIsPermutation and RankMatching state its contents |
| PlaylistAnalysis.Iloc | playlist_analysis.py:189 | `df.iloc[positions]`: one row per position, each a row of the frame; IlocOfPermutation states that a permutation keeps every row |
| PlaylistAnalysis.RearrangeToShape | playlist_analysis.py:130-191 | the reordered frame has the same number of rows and the same rows with the same multiplicities |
| PlaylistAnalysis.SortedZipByTarget | playlist_analysis.py:184-185 | after sorting the zipped index lists, the pair whose target index is p sits at index p |
| PlaylistAnalysis.SortedZipSource | playlist_analysis.py:185 | every entry of the sorted zip is one of the zipped pairs |
| PlaylistAnalysis.SortedZipFirsts | playlist_analysis.py:184-185 | the target-side indices of the sorted zip are 0, 1, ..., N-1 in order |
| PlaylistAnalysis.SortedZipFirstsIncrease | playlist_analysis.py:185 | the target-side indices of the sorted zip increase strictly |
| PlaylistAnalysis.TargetedPositionsPairing | playlist_analysis.py:184-186 | `targeted_positions[a_original_position[k]] == b_original_position[k]` for every k |
| PlaylistAnalysis.TargetedPositionAt | playlist_analysis.py:168-186 | position p receives the row whose score rank is p's target rank |
| PlaylistAnalysis.TargetedPositionsIsPermutation | playlist_analysis.py:172-186 | `targeted_positions` has length N and holds every row position 0..N-1 exactly once |
| PlaylistAnalysis.TargetedPositionsAreDistinct | playlist_analysis.py:184-186 | two different positions never receive the same row |
| PlaylistAnalysis.TargetedPositionsCover | playlist_analysis.py:184-186 | every row is placed at some position |
| PlaylistAnalysis.RankMatching | playlist_analysis.py:171-186 | the row placed at p has the same score rank as p has target rank |
| PlaylistAnalysis.RankMatchingIsUnique | playlist_analysis.py:171-186 | any arrangement that matches ranks this way is exactly `targeted_positions` |
| PlaylistAnalysis.ScoreOrderFollowsTargetOrder | playlist_analysis.py:171-186 | the rows at p and q compare by score (ties by index) exactly as p and q compare by target value (ties by index) |
| PlaylistAnalysis.TiedRowsFollowTargetRank | playlist_analysis.py:177-186 | of two tied scores, the row with the smaller index goes to the position whose target ranks lower |
| PlaylistAnalysis.PositiveLineTargetsAscend | playlist_analysis.py:154-155 | under selector 1 the target values rise strictly with position |
| PlaylistAnalysis.NegativeLineTargetsDescend | playlist_analysis.py:156-157 | under selector 2 the target values fall strictly with position |
| PlaylistAnalysis.PositiveLineSortsAscending | playlist_analysis.py:168-186 | under selector 1 `targeted_positions` is `b_original_position`: position p gets score rank p, and the scores come out non-decreasing |
| PlaylistAnalysis.NegativeLineSortsDescending | playlist_analysis.py:168-186 | under selector 2 position p gets score rank N-1-p, and the scores come out non-increasing |
| PlaylistAnalysis.TiesUnderStraightLines | playlist_analysis.py:177-186 | tied scores keep their index order under selector 1 and are reversed under selector 2 |
| PlaylistAnalysis.PositiveLineOrdersTracks | playlist_analysis.py:130-191 | the frame reordered with selector 1 lists tracks by composite value, lowest first |
| PlaylistAnalysis.NegativeLineOrdersTracks | playlist_analysis.py:130-191 | the frame reordered with selector 2 lists tracks by composite value, highest first |
| PlaylistAnalysis.UncheckedSelectorsActAsNegativeCubic | playlist_analysis.py:164-168 | a selector that `choose_equation` refuses gives the same targets and positions as selector 6 |
| PlaylistAnalysis.SingleRowIsUnchanged | playlist_analysis.py:168-191 | a one-row frame comes back as the same single row, whatever the selector |
| PlaylistAnalysis.AscendingExample | playlist_analysis.py:168-189 | three scores ordered like [10, 30, 20] (first lowest, middle highest) give positions [0, 2, 1] with selector 1 |
| PlaylistAnalysis.AllTiedScores | playlist_analysis.py:177-186 | when all scores are equal, selector 1 gives the identity order and selector 2 the reversed order |
| PlaylistAnalysis.TiedExample | playlist_analysis.py:177-186 | three equal scores such as [5, 5, 5] give [0, 1, 2] under selector 1 and [2, 1, 0] under selector 2 |
| PlaylistAnalysis.TargetValuesInUnitInterval | playlist_analysis.py:168 | every target value lies in [0, 1] |
| PlaylistAnalysis.ScoresConserved | playlist_analysis.py:189 | the multiset of composite values is unchanged by the reorder |
| PlaylistAnalysis.IlocOfPermutation | playlist_analysis.py:189 | `iloc` with a permutation of the positions keeps every row with its multiplicity |
| PlaylistAnalysis.IlocRespectsMultiset | playlist_analysis.py:189 | `iloc` with two rearrangements of the same positions selects the same multiset of rows |
| PlaylistAnalysis.PermutationMultiset | playlist_analysis.py:186 | a permutation of 0..N-1 has the same multiset as 0..N-1 itself |

## Left out

- Floating point: scores and curve values are exact reals. Python floats can order tied targets by rounding noise, for example rows x and N-2-x under a parabola, whose `equation_y` arguments x+1 and N-x-1 are mirror images. In the model those ties are exact and are broken by index.
- The pandas index: the model assumes the frame's index is 0..N-1, as `read_csv` produces it. After a reorder in the same session the index labels are permuted, and line 168 then iterates over those labels. The model does not capture this.
- NaN or missing composite values are not modelled. Scores are reals.
- `choose_equation`'s `input()` loop (lines 117-127) is console I/O. Only its range test at line 120 is modelled, as `IsEquationNumber`.
- Plotting (lines 6-56), the pandas statistics and their printing (lines 58-99), the `choose_analysis` menu and the CSV write are I/O or plotting.
- `SpotifyAPI.py`, `playlist_csv_manager.py` and `playlist_maker.py` are not part of this model. They handle credentials, Spotify API calls, composite-score computation with floating-point rounding, and CSV files.
- The `Track` columns other than the composite value are carried through unchanged and play no part in the order.
