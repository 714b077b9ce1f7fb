# Fastener colour analysis: the per-image decision layer

This project models the per-image decision layer of a fastener colour-analysis tool. The layer sits between the image-processing library calls and the plotting and CSV output. For each photograph of parts on a holder it:

1. **Selects and orders the parts.**
   - Labelled regions whose bounding box ends within five rows of the bottom edge, or that are smaller than `min_area`, are dropped. The bounding box's `max_row` is exclusive, so a region whose last pixel row is any of the bottom six rows is dropped.
   - The rest are sorted left to right by centroid column and turned into one boolean mask each (`segmentation.py`, and its duplicate `src/segmentation.py`).
2. **Finds the background and the holder.**
   - Part pixels are excluded, and the grey values left over give a 70th-percentile threshold.
   - The background is the pixels strictly brighter than that threshold.
   - The "dark" pixels are those strictly darker.
   - The holder is the largest connected dark region (`background.py`).
3. **Normalises each part in CIE Lab.**
   - Each channel of each part has the background median of that channel subtracted (`normalize_parts`, `lab_normalize_from_bg`).
4. **Scores each part.** Each part gets five scores: blackness, colour shift, a* and b* shift, and gloss.
   - The mean-based variant of `color_analysis.py` scores the whole part.
   - The diffuse/highlight variant of `color_processing.py` reads the first four scores from the pixels below the 95th-percentile cutoff only.
5. **Corrects colour in linear RGB.** It decodes sRGB, scales each channel so that the mean over a reference mask reaches a target, clips the result to [0, 1] and encodes back (`color_processing.py`, `utils.py`).
6. **Builds the results table.** Part numbers run 1..n, and each metric column is copied position by position. The two builders (`table_builder.py`, `utils.py`) take their arguments in different orders.

## Representation

- **Images and masks** are flat row-major sequences (`seq<real>`, `seq<bool>`), which is the order numpy's boolean indexing uses.
- **NaN** (a pixel the source overwrites with `np.nan`, or an `np.nanpercentile` with nothing left to read) is `None` in an `Option`. A comparison with it is false, as in numpy.
- **Percentiles** use numpy's default "linear" method, defined once over sorted sequences. `np.median` is the 50th percentile, as in numpy.
- **Library steps are inputs.**
  - Connected-component labelling is given as a label grid plus the region records (`Regions.Labelling`). `Regions.LabellingOf` states what the library guarantees about them.
  - `sqrt` and the power-law branches of the sRGB curves are function parameters.
- **The caller's grey image is not modified.** The source writes NaN into a copy, and here every image is a value, so the caller's image cannot change.
- **Imperative source code.**
  - Loops that append to lists or OR masks together are methods with loop invariants: `Masks.CombineMasks`, `Segmentation.ExtractPartRegions`, `Segmentation.ComputeBackground`, `Background.ComputeBackgroundAndHolderMasks`, `LabNormalization.NormalizeParts`, and the two `ComputeMetrics`.
  - Each is proved equal to a specification function, and the lemmas are stated about that function.

## Model

| member | source | states |
|---|---|---|
| Segmentation.BrightestNotCoarse | segmentation.py:10-11 | the brightest grey pixel is never in the coarse mask `gray < percentile(gray, 60)`; also src/segmentation.py:19-20: the same coarse rule in the duplicate module |
| Segmentation.CoarseMask | segmentation.py:10-11 | one flag per pixel, set where the grey value is below the 60th percentile; its brightest pixel is never set (`BrightestNotCoarse`); also src/segmentation.py:19-20: the same coarse mask |
| Segmentation.ExtractPartRegions | segmentation.py:25-37 | the loop returns the labels unchanged and exactly the regions kept by the bottom-row and area tests, in input order; also src/segmentation.py:44-55: the same loop in the duplicate module |
| Segmentation.KeptIff | segmentation.py:32-36 | a region is kept iff it occurs in the input, its bbox max row is below `height - 5`, and its area is at least `min_area` (inclusive); also src/segmentation.py:50-54: the same keep rule in the duplicate module |
| Segmentation.KeptSubsequence | segmentation.py:28-37 | the kept regions are the input regions at strictly increasing positions, and exactly the positions that pass both tests; also src/segmentation.py:46-55: the same order-preserving subsequence in the duplicate module |
| Segmentation.SortRegionsL2R | segmentation.py:39-41 | the sorted regions are a permutation of the input, non-decreasing in centroid column; also src/segmentation.py:65: the same sort in the duplicate module |
| Segmentation.SortRegionsL2RStable | segmentation.py:40 | regions with equal centroid column keep their input order (`sorted` is stable); also src/segmentation.py:65: the same stability in the duplicate module |
| Segmentation.RegionsToMasks | segmentation.py:43-44 | one mask per region, in order, each true exactly where the label grid carries that region's label; also src/segmentation.py:72: the same masks in the duplicate module |
| Segmentation.RegionMasksDisjoint | segmentation.py:44 | masks of regions with distinct labels are pairwise disjoint |
| Segmentation.PartMasksDisjoint | src/segmentation.py:44-72 | the masks of the kept, sorted regions of one labelling are pairwise disjoint |
| Segmentation.KeptDistinct | segmentation.py:29-36 | filtering keeps the labels distinct |
| Segmentation.SortDistinct | segmentation.py:40 | sorting keeps the labels distinct |
| Segmentation.ComputeBackground | segmentation.py:46-58 | the OR loop, NaN copy, `nanpercentile(…, 70)` and `>` give exactly the background rule; also src/segmentation.py:83-94: the same steps in the duplicate module |
| Segmentation.ComputeBackgroundMeaning | segmentation.py:51-56 | no part pixel is background; a non-part pixel is background iff some non-part value exists and the pixel is strictly above the 70th percentile of the non-part values; also src/segmentation.py:87-92: the same characterisation in the duplicate module |
| Masks.CombineMasks | background.py:12-14 | the OR loop yields the union of the part masks |
| Masks.PresentAfterExclusion | background.py:17-18 | after NaN-marking the part pixels of a copy, the values left are exactly the non-part values, in pixel order |
| BackgroundRule.ThresholdOfNonPartValues | background.py:21 | the threshold is the 70th percentile of the non-part values, and NaN (None) when every pixel belongs to a part |
| BackgroundRule.BackgroundMask | background.py:16-22 | one flag per pixel; its meaning is `BackgroundMaskMeaning` |
| BackgroundRule.DarkMask | background.py:16-25 | one flag per pixel; its meaning is `DarkMaskMeaning`, and it is disjoint from the background (`BackgroundDarkPartition`) |
| BackgroundRule.BackgroundMaskMeaning | background.py:22 | a pixel is background iff it is no part's, a threshold exists and its value is strictly above it |
| BackgroundRule.DarkMaskMeaning | background.py:25 | a pixel is dark iff it is no part's, a threshold exists and its value is strictly below it |
| BackgroundRule.BackgroundDarkPartition | background.py:22-25 | background and dark are disjoint; part pixels and pixels exactly at the threshold are in neither |
| Background.LargestRegion | background.py:34 | the chosen region has the maximum area, and every earlier region is strictly smaller, so ties go to the first (Python `max`) |
| Background.HolderMask | background.py:27-35 | one flag per pixel: all false without regions, otherwise the pixels of the largest region (`HolderIsLargestRegion`, `HolderInsideDark`, `HolderEmptyIff`) |
| Background.ComputeBackgroundAndHolderMasks | background.py:5-37 | returns the background mask and the holder mask: all false with no dark region, otherwise the pixels labelled with the largest region's label |
| Background.HolderIsLargestRegion | background.py:34-35 | a holder pixel is one carrying the holder label; the holder's pixel count is that region's area, and no region is larger |
| Background.HolderInsideDark | background.py:25-35 | every holder pixel is dark, so it is neither background nor in any part |
| Background.HolderEmptyIff | background.py:25-35 | no dark region gives an all-false holder; the holder has a pixel exactly when some pixel is dark |
| LabNormalization.BackgroundReference | color_analysis.py:11-13 | the reference medians are undefined (None) exactly when the background mask is empty |
| LabNormalization.NormalizeParts | color_analysis.py:10-18 | one normalised (L, a, b) triple per part mask, in mask order, each the mask's pixel values minus the background median of the channel; None exactly when the background is empty and there is at least one part mask, and the empty list when there are no part masks; also color_processing.py:35-43: `lab_normalize_from_bg` is the same computation |
| LabNormalization.BackgroundNormalizesToZero | color_analysis.py:11-17 | the normalised background has L median 0 |
| LabNormalization.SelectShift | color_analysis.py:17 | masking commutes with subtracting a constant |
| LabNormalization.SelectedMedianOffset | color_analysis.py:11 | brightening an image uniformly by d raises the masked median by d |
| LabNormalization.ReferenceOffset | color_analysis.py:11-13 | under a uniform L offset, the L reference moves by the offset and the a and b references stay |
| LabNormalization.PartOffset | color_analysis.py:16-17 | a part normalised against the offset reference of the offset image equals the original normalised part |
| LabNormalization.NormalizationIgnoresOffset | color_analysis.py:10-18 | normalised parts do not depend on a uniform lightness offset of the image |
| Stats.PercentileBetweenElements | color_analysis.py:29 | a percentile lies between two values of the data |
| Stats.Percentile | color_analysis.py:29 | `np.percentile` lies between the smallest and the largest value of the data |
| Stats.Median | color_analysis.py:11 | `np.median` lies between the smallest and the largest value of the data; it is the middle value or the mean of the two middle values (`MedianIsMiddle`) |
| Stats.PercentileWithin | color_analysis.py:29 | bounds on the data bound every percentile |
| Stats.PercentileBelow | color_processing.py:58 | data strictly below c have every percentile strictly below c |
| Stats.MedianIsMiddle | color_analysis.py:11 | `np.median` as the 50th percentile is the middle value or the mean of the two middle values |
| Stats.PercentileShift | color_analysis.py:11-17 | percentiles move with a uniform offset of the data |
| Stats.MedianShift | color_analysis.py:11-17 | the median moves with a uniform offset of the data |
| Stats.MeanShift | color_analysis.py:31-32 | the mean moves with a uniform offset of the data (used by `ColorAnalysis.ChromaMeansFollowOffset`) |
| Stats.MeanWithin | color_analysis.py:31-32 | a mean lies within any bounds on its data |
| Stats.MeanAbove | color_analysis.py:41 | the mean of values above c is above c |
| Stats.SortShift | color_analysis.py:29 | sorting commutes with subtracting a constant |
| Stats.SortRealsOrdered | color_analysis.py:29 | the arrangement numpy interpolates in is ascending and holds the same values as the data |
| Stats.PercentileSortedBounds | color_analysis.py:29 | on sorted data the interpolated percentile lies between the smallest and largest value |
| Sorting.SortBySorted | segmentation.py:40 | the sort's output is ordered by key |
| Sorting.SortByPermutation | segmentation.py:40 | the sort's output is a permutation of its input |
| Sorting.InsertBySorted | segmentation.py:40 | inserting into a key-ordered sequence keeps it ordered |
| Sorting.InsertByPermutation | segmentation.py:40 | inserting adds exactly the inserted element |
| Sorting.SortByStable | segmentation.py:40 | equal keys keep their input order |
| Sorting.SortByMembers | segmentation.py:40 | the sort keeps exactly the input's elements |
| ColorAnalysis.ComputeMetrics | color_analysis.py:21-51 | five lists as long as the parts; entry k holds part k's 10th L percentile, colour shift, mean a, mean b and gloss |
| ColorAnalysis.PartScores | color_analysis.py:29-48 | the five scores of one part; their properties are `BlacknessWithin` and `BackgroundLikePartScoresZero` |
| ColorAnalysis.ChromaMeansFollowOffset | color_analysis.py:29-46 | offsetting a part's a* and b* values moves its reported a* and b* means by the same offsets and leaves blackness and gloss unchanged |
| ColorAnalysis.BlacknessWithin | color_analysis.py:29 | blackness lies within any bounds on the part's L values |
| ColorAnalysis.BackgroundLikePartScoresZero | color_analysis.py:29-46 | a part whose normalised L, a and b are all zero (it matches the background reference) scores zero on all five metrics |
| Metrics.ColorShiftZero | color_analysis.py:30 | the colour shift is non-negative, and zero when every a and b is zero |
| Metrics.HighlightDiffusePartition | color_processing.py:53-62 | highlight (`> cutoff`) and diffuse (`< cutoff`) are disjoint; a pixel at the cutoff is in neither |
| Metrics.IntensityAboveCutoff | color_analysis.py:39-41 | with highlights, the highlight intensity exceeds the 95th-percentile cutoff |
| Metrics.NoHighlightNoGloss | color_analysis.py:39-46 | with no highlight pixel the gloss is 0 |
| Metrics.Gloss | color_analysis.py:33-46 | highlight fraction times highlight intensity; 0 without highlights (`NoHighlightNoGloss`), and the intensity exceeds the cutoff otherwise (`IntensityAboveCutoff`); also color_processing.py:53-69: the same gloss |
| Metrics.UniformPart | color_analysis.py:33-46 | a part of constant L has no highlight and no diffuse pixel, and gloss 0 |
| Metrics.SplitIgnoresOffset | color_processing.py:53-62 | the highlight/diffuse split does not change under a uniform L offset |
| Metrics.CutoffOffset | color_analysis.py:33 | the cutoff moves with a uniform offset |
| ColorProcessing.ComputeMetrics | color_processing.py:45-71 | five lists as long as the parts; entry k holds part k's diffuse-only 10th L percentile, colour shift and a/b medians, and its whole-part gloss |
| ColorProcessing.DiffuseScores | color_processing.py:53-70 | the diffuse-only scores and whole-part gloss of one part; blackness lies below the cutoff (`BlacknessBelowCutoff`) |
| ColorProcessing.BlacknessBelowCutoff | color_processing.py:53-58 | diffuse-only blackness is strictly below the highlight cutoff |
| ColorProcessing.DiffuseBelowCutoff | color_processing.py:54-55 | every diffuse L value is below the cutoff |
| ColorProcessing.UniformPartHasNoDiffuse | color_processing.py:53-58 | a part of constant L has no diffuse pixel, so its 10th percentile has no data |
| ColorProcessing.Clip | color_processing.py:10 | `np.clip(x, 0, 1)` lies in [0, 1], leaves values in range alone and saturates at either end |
| ColorProcessing.Correction | color_processing.py:7-9 | the per-channel factor exists iff the mask is non-empty and the channel's masked mean is non-zero |
| ColorProcessing.ScaleClip | color_processing.py:10 | every scaled and clipped value lies in [0, 1] |
| ColorProcessing.CorrectToTarget | color_processing.py:7-10 | correction succeeds iff the mask is non-empty and all three masked means are non-zero; every output value lies in [0, 1] |
| ColorProcessing.NormalizeToTarget | color_processing.py:5-12 | fails exactly when the mask is empty or a decoded channel's masked mean is zero; otherwise the encoding of the corrected linear image; an image already at the target is only re-encoded (`AtTargetOnlyReencodes`) |
| ColorProcessing.AtTargetOnlyReencodes | color_processing.py:5-12 | an image whose decoded masked means already are the target, with decoded values in [0, 1], comes out as its own decoding re-encoded: every factor is 1 and nothing is clipped |
| ColorProcessing.LinearNormalizeFromBg | color_processing.py:5-12 | fails exactly when the background mask is empty or a decoded channel's background mean is zero; the corrected background mean is 1.0 when nothing clips (`CorrectedMeanIsTarget`) |
| ColorProcessing.NormalizeFromGrayCard | color_processing.py:14-22 | fails exactly when the card mask is empty or a decoded channel's card mean is zero; the corrected card mean is 0.215 when nothing clips (`CorrectedMeanIsTarget`) |
| ColorProcessing.CorrectionHitsTarget | color_processing.py:9 | the masked mean times the factor is the target |
| ColorProcessing.CorrectedMeanIsTarget | color_processing.py:7-10 | when no masked pixel is clipped, the corrected masked mean is exactly the target (1.0 for the background); also color_processing.py:16-20: with target 0.215 the grey card's corrected mean is 0.215 |
| ColorProcessing.AtTargetFactorOne | color_processing.py:19 | a channel already at the target gets factor 1 |
| ColorProcessing.UnitScaleUnchanged | color_processing.py:20 | factor 1 leaves values in [0, 1] unchanged |
| ColorProcessing.SumScale | color_processing.py:10 | scaling the values scales their sum |
| ColorProcessing.SelectScaleClip | color_processing.py:10 | without clipping, masking commutes with scaling |
| Utils.LinearBranchRoundTrip | utils.py:25-40 | both curves map 0 to 0; encoding undoes the as-written decoder on [0, 0.0031308] |
| Utils.AsWrittenDecoderBreaksRoundTrip | utils.py:25-27 | 0.0032/12.92 encodes to 0.0032, which the as-written decoder does not map back |
| Utils.StandardLinearRoundTrip | utils.py:38-39 | with the decoder's branch at 0.04045, decode undoes encode on [0, 0.0031308] and encode undoes decode on [0, 0.0031308 × 12.92] |
| Utils.SrgbToLinear | utils.py:17-28 | agrees with the IEC 61966-2-1 decoding everywhere except on (0.0031308, 0.04045], where the as-written branch point differs (see Findings) |
| Utils.LinearToSrgb | utils.py:30-41 | the linear branch maps [0, 0.0031308] into [0, 0.0031308 × 12.92]; decoding with the standard curve undoes it there (`StandardLinearRoundTrip`) |
| Utils.SrgbToLinearStandard | utils.py:25-27 | the decoder with the IEC 61966-2-1 branch point 0.04045, the corrected counterpart of `SrgbToLinear`; it inverts `LinearToSrgb` on its linear branch (`StandardLinearRoundTrip`) |
| Utils.BuildResultsTable | utils.py:43-62 | arguments in (blackness, color shift, a*, b*, gloss) order; columns Blackness, Color Shift, Gloss Factor, Median a*, Median b*; `BuildersAgree` and `SwappedArgumentsMisfile` state its meaning |
| Utils.BuildersAgree | utils.py:43-62 | this builder succeeds exactly when the table_builder one does, with the same part numbers and columns; only the third name differs ("Gloss Factor") |
| Utils.SwappedArgumentsMisfile | utils.py:43 | called in table_builder's argument order, this builder files b* shift under "Gloss Factor" and gloss under "Median a*" |
| TableBuilder.BuildResultsTableRows | table_builder.py:25-32 | success iff all lists have the length of `blackness`; part numbers 1..n; row i holds part i's five metrics |
| TableBuilder.BuildResultsTableColumns | table_builder.py:26-31 | each column holds its argument list; gloss is under "Glossiness" and no "Gloss Factor" column exists |
| TableBuilder.BuildResultsTable | table_builder.py:4-31 | the table in (blackness, color shift, gloss, a*, b*) order; `BuildResultsTableRows` and `BuildResultsTableColumns` state its meaning |
| Tables.ColumnInSpec | table_builder.py:25-32 | a column lookup finds the first column of that name, and nothing for an absent name |

## Left out

- Morphology and edge detection in `threshold_parts` (`rgb2gray`, `canny`, `dilation`, `binary_closing`, `binary_fill_holes`, `remove_small_holes`): library internals. Only the coarse percentile rule is modelled.
- Connected-component labelling and `regionprops`: their results are inputs, constrained by `Regions.LabellingOf`. Connectivity itself is not modelled.
- `rgb2lab` (`convert_to_lab` in both modules): a library floating-point conversion, so the Lab channels are inputs.
- The power-law branches of the sRGB curves (`** 2.4`, `** (1/2.4)`) and `np.sqrt`: function parameters. The lemmas that need them constrain them (`Metrics.IsSqrt`, `Utils.IsDecodePower`).
- `get_lab_parts` (color_processing.py:30-33): builds a list and returns nothing, so it has no effect.
- `load_image` and every `print`: file I/O and console output.
- Plotting, the command-line and web front ends, and the batch drivers: presentation and orchestration. The empty `ind_color_analysis` module is left out too.
- Floating point: arithmetic is exact over `real`, so rounding, overflow and numpy's NaN/inf propagation are not modelled. A NaN result is `None`:
  - the threshold when every pixel is a part;
  - a median over an empty background;
  - a colour-correction mean over an empty mask.
  The infinite factor from a zero mean is also `None`.
- Holder closing and hole filling: `background.py` does neither, so nothing models them.
- Metrics.ColorShiftZero: proves only that zero a and b give a zero colour shift, not the converse. The converse needs strict positivity of a sum of squares, which is not proved.
- ColorAnalysis.ComputeMetrics: requires every part to be non-empty with equal-length channels, because `np.percentile` of an empty part raises.
- ColorProcessing.ComputeMetrics: also requires some pixel below the 95th-percentile cutoff. The source raises on an empty diffuse subset, which `ColorProcessing.UniformPartHasNoDiffuse` exhibits.
- Part numbers are integers, and a table with columns of unequal length is a `Failure` (pandas raises).
- Colour correction is modelled per channel on flattened channels, not on an H×W×3 array.

## Findings

| source | as written | input that shows it | evidently intended | confidence | as-written member | corrected member |
|---|---|---|---|---|---|---|
| utils.py:25 | `srgb_to_linear` switches to `x / 12.92` below 0.0031308, the encoder's branch point | the sRGB value 0.0032, which `linear_to_srgb` produces from 0.0032/12.92: it is decoded by the power branch and does not return 0.0032/12.92 | decode on the linear branch up to 0.04045, as IEC 61966-2-1 specifies, so that decoding inverts encoding | not executed | Utils.AsWrittenDecoderBreaksRoundTrip | Utils.StandardLinearRoundTrip |
