# Features matching: a verified model of the matching pass

This project models the core of MRPT's features-matching demo
(`apps/features-matching/features_matching_main.cpp`, function
`DemoFeatures`). The demo detects features in two images and extracts
descriptors for them. For each feature of image 1 it then does the
following:
- computes the distance to every feature of image 2;
- takes the minimum (the best match), the maximum and the standard deviation
  of that distance row;
- marks every candidate below `min + 0.3·σ` in red and collects it into
  `xs_best`/`ys_best`, and marks all the others in gray;
- animates circles of shrinking radius around the candidates below
  `min + 0.1·σ`.

For the descriptor display it also lays out a flat spin image as a
row-major matrix, and it doubles a small descriptor image until one side
reaches 100 pixels.

Modules:
- `Extraction` (extraction.dfy): choice of detector, descriptor kind and
  patch size from the console answers.
- `Matching` (matching.dfy): the distance row, which is filled in place in
  an `array<real>`, then min/max, the wide band with its markers, the
  per-feature pass and the outer pass over image 1.
- `Bands` (bands.dfy): the band threshold `min + k·σ` and the scan
  `IndicesBelow`, which lists the indices strictly below a threshold in
  increasing order. This module holds the lemmas on nesting, emptiness and
  membership.
- `Animation` (animation.dfy): the 36, 34, …, 2 countdown on a 32-bit
  unsigned counter, which wraps below zero explicitly, with the tight band
  rescanned in each frame.
- `Display` (display.dfy): the spin-image reshape into an `array2<real>`
  and the upscale loop, which is modelled on image sizes only.

Features are of an arbitrary type `F`. The library calls that this model
does not contain are passed in as function parameters:
- `descriptorDistanceTo`, as `descDist`;
- `patchCorrelationTo`, as `patchCorr`;
- `mrpt::math::stddev`, as `stddev`.

The `kind` argument of `FillDistances`, `MatchFeature` and `MatchAll` is
`plan.matchedKind` from `SelectDescriptor`. This is the value of
`desc_to_compute` after the SIFT/SURF override, which decides the branch
at line 252.

The code behaves as follows, and the model keeps that behaviour:
- The band coefficients are the literals 0.3 and 0.1, not configuration.
- The two bands are nested, and each is tested on its own with a strict
  `<`. They are not three disjoint classes.
- The code has no "unavailable" flag and no per-pair error recovery.
- An empty image-2 list is not handled. The code takes the minimum of an
  empty row and then reads `feats2[min_dist_idx]` without a check, so
  `MatchFeature` requires image 2 to have at least one feature.

## Model

| member | source | states |
|---|---|---|
| Extraction.SelectDescriptor | apps/features-matching/features_matching_main.cpp:78-196 | The detector is KLT on an empty answer. A SIFT or SURF detector is never asked for a descriptor kind, extracts no extra descriptors and matches with SIFT or SURF respectively. Any other detector takes the answer, and an empty answer means SIFT. Descriptors are extracted iff the kind is neither -1 nor the patch. The patch size is kept iff the kind is the patch. So a stored patch implies patch matching, and extracted descriptors are the ones matched. |
| Matching.FillDistances | apps/features-matching/features_matching_main.cpp:247-264 | Writes the preallocated vector in place. It ends with one entry per image-2 feature, and entry i2 is the patch correlation when the kind is the patch and the descriptor distance otherwise. |
| Matching.MinCoeff | apps/features-matching/features_matching_main.cpp:271-272 | For a non-empty row: the returned index is in range, holds the returned value, no entry is smaller, and no earlier entry is equal (first occurrence). |
| Matching.MaxCoeff | apps/features-matching/features_matching_main.cpp:271-273 | For a non-empty row: the returned index is in range, holds the returned value, no entry is larger, and it is the first occurrence. |
| Matching.SelectWideBand | apps/features-matching/features_matching_main.cpp:387-411 | `xs_best` is strictly increasing and in range, and holds exactly the indices with `d < min + 0.3·σ`, in both directions. `ys_best` has the same length and `ys_best[j] == d[xs_best[j]]`. There is exactly one marker per candidate: a red labelled one iff the candidate is in the band, gray otherwise. |
| Matching.MatchFeature | apps/features-matching/features_matching_main.cpp:247-445 | One pass over a non-empty image-2 list gives the full distance row, the first minimum and maximum, σ as the library gives it, the wide band with its markers and the 18-frame animation of the tight band. The best-match index read at line 288 is in range. |
| Matching.MatchAll | apps/features-matching/features_matching_main.cpp:242-452 | Gives one pass per image-1 feature, in order, each as `MatchFeature` describes. |
| Matching.PassCoversEveryPair | apps/features-matching/features_matching_main.cpp:242-264 | A full pass holds a distance for every (image-1, image-2) pair, computed by the metric the kind selects. |
| Matching.CircledAreMarked | apps/features-matching/features_matching_main.cpp:388-439 | With σ ≥ 0, every candidate circled in any frame is also in `xs_best`, that is, marked red. |
| Matching.NoSpreadNoBands | apps/features-matching/features_matching_main.cpp:388-439 | With σ = 0, nothing is marked red, `xs_best`/`ys_best` are empty, every marker is gray and no frame circles anything. |
| Matching.BestMatchHighlighted | apps/features-matching/features_matching_main.cpp:271-439 | With σ > 0, the best match is in `xs_best`, carries the red label with the minimum distance and is circled in every frame. |
| Bands.IndicesBelowSpec | apps/features-matching/features_matching_main.cpp:388-404 | The left-to-right scan gives strictly increasing, in-range indices. Every listed distance is below the threshold, and every index below the threshold is listed. |
| Bands.IndicesBelowMonotone | apps/features-matching/features_matching_main.cpp:390-433 | A larger threshold collects a superset of the indices. |
| Bands.TightBandWithinWideBand | apps/features-matching/features_matching_main.cpp:390-433 | With σ ≥ 0, the 0.1 band is contained in the 0.3 band. |
| Bands.BandsEmptyWithoutSpread | apps/features-matching/features_matching_main.cpp:390-433 | When no distance lies below the minimum and σ = 0, every band is empty, because the comparison is strict. |
| Bands.BestInBand | apps/features-matching/features_matching_main.cpp:390-433 | With σ > 0 and a positive coefficient, the index of the minimum is in the band. |
| Bands.ExampleRow | apps/features-matching/features_matching_main.cpp:388-439 | For the row [1, 5, 9, 2] with σ = 3.5, the wide band is [0, 3] and the tight band is [0]. |
| Animation.SubU32 | apps/features-matching/features_matching_main.cpp:419 | `unsigned` subtraction is exact when it does not go below zero and wraps by 2^32 when it does. |
| Animation.OddStartNeverStops | apps/features-matching/features_matching_main.cpp:419 | The countdown depends on its even start. From any odd start value the `unsigned` counter stays odd, and so positive, after every number of `-= 2` steps: it steps from 1 to 4294967295, and `anim_loops > 0` never fails. |
| Animation.Animate | apps/features-matching/features_matching_main.cpp:419-445 | The counter runs 36, 34, …, 2 without wrapping, which gives exactly 18 frames. Frame k has radius 43 − 2k and circles exactly the tight-band indices `d < min + 0.1·σ`. |
| Animation.RadiiInRange | apps/features-matching/features_matching_main.cpp:426-437 | Every drawn radius `7 + anim_loops` lies in [9, 43]; the first is 43 and the last 9. |
| Display.ReshapeIndexInBounds | apps/features-matching/features_matching_main.cpp:318-325 | With nR > 0 and nC = size / nR, every read index satisfies `c + r·nC < nR·nC ≤ size`. |
| Display.FlatIndexInjective | apps/features-matching/features_matching_main.cpp:322-325 | A cell is recovered from its flat index as (index / nC, index % nC), so distinct cells read distinct entries. |
| Display.ReshapeCoversPrefix | apps/features-matching/features_matching_main.cpp:322-325 | Every flat index below nR·nC is read, by the cell (k / nC, k % nC). |
| Display.ReshapeSpinImage | apps/features-matching/features_matching_main.cpp:318-337 | Gives a fresh nR × (size / nR) matrix with `M(r, c) == spin[c + r·nC]` for every cell: a row-major layout. |
| Display.UpscaleForDisplay | apps/features-matching/features_matching_main.cpp:342-349 | If one side is positive, the loop stops with width or height at least 100. Both sides are multiplied by the same power of two, and every earlier size was below 100 on both sides. An image already at least 100 on either side is left unchanged. |

## Left out

- Console and argument handling (lines 36-118, 461-482): each answer is an input. `None` stands for an empty line and `Some(n)` for the number `atoi` gives. The feature-count limit `nFeats` is not modelled.
- Image loading, `detectFeatures`, `computeDescriptors` and the distances `descriptorDistanceTo`/`patchCorrelationTo` are library code. They are represented only by the decisions that select them and by function parameters.
- `mrpt::math::stddev` is a function parameter, so its value for a row is whatever the library gives. Properties that need σ ≥ 0 state it as a requirement.
- Windows, plots, `drawMark`/`drawCircle`/`textOut` pixel output, `setFromMatrix`, the pixel content of `scaleImage`, `sleep_for`, `waitForKey` and timing are not modelled. The marks and circles are kept only as the data that decides them: marker kind, label and circle radius per index.
- The display dispatch on the descriptor kind (lines 198-233, 292-380) is not modelled. This covers the window kinds, and the patch, polar, log-polar, SIFT and SURF display. Only the spin-image reshape and the upscale loop are modelled.
- The outer loop's window-open checks (lines 242-244) are GUI state. `MatchAll` runs a pass for every image-1 feature.
- Floating point is modelled as `real`: no NaN, infinity or rounding.
- BestMatchHighlighted: holds in real arithmetic only. In `double`, `min_dist + 0.1 * dist_std` can round to `min_dist` when the spread is tiny next to the minimum, and then nothing is circled. BestInBand depends on exactness in the same way.
- The 32-bit `unsigned` loop indices `i1`/`i2` are unbounded, so feature lists beyond 2^32 entries are not modelled. The animation counter is modelled as 32-bit.
- MatchFeature: requires a non-empty image-2 list, because the code dereferences `feats2[min_dist_idx]` unconditionally. The minimum of an empty row is undefined in the code.
- MinCoeff: keeps the first of equal minima. The code leaves the tie-break to the library.
- MaxCoeff: keeps the first of equal maxima, for the same reason.
- ReshapeSpinImage: requires at least one range row, because the code divides by `SpinImg_range_rows`.
- UpscaleForDisplay: requires one side to be positive. A 0 × 0 image never grows and the loop would not end.
