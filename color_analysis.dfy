/** color_analysis.py: the whole-part, mean-based variant of the per-part
    scores. Its `normalize_parts` is `LabNormalization.NormalizeParts`. */
module ColorAnalysis {
  import opened Stats
  import opened Masks
  import opened LabNormalization
  import opened Metrics

  /** The scores of one normalised part: the 10th percentile of L*, the
      root-mean-square chroma, the means of a* and b*, and the gloss. */
  function PartScores(part: LabPart, sqrt: real -> real): Scores
    requires ValidPart(part)
  {
    Scores(Percentile(part.L, BlacknessPercentile),
           ColorShift(part.a, part.b, sqrt),
           Mean(part.a),
           Mean(part.b),
           Gloss(part.L))
  }

  /** `compute_metrics(normalized_parts)`: five lists with one entry per
      part, in part order. */
  method ComputeMetrics(parts: seq<LabPart>, sqrt: real -> real)
    returns (blackness: seq<real>, colorShift: seq<real>, aShift: seq<real>, bShift: seq<real>, gloss: seq<real>)
    requires forall k :: 0 <= k < |parts| ==> ValidPart(parts[k])
    ensures |blackness| == |parts| && |colorShift| == |parts| && |aShift| == |parts|
    ensures |bShift| == |parts| && |gloss| == |parts|
    ensures forall k :: 0 <= k < |parts| ==>
              PartScores(parts[k], sqrt) == Scores(blackness[k], colorShift[k], aShift[k], bShift[k], gloss[k])
  {
    blackness, colorShift, aShift, bShift, gloss := [], [], [], [], [];
    for k := 0 to |parts|
      invariant |blackness| == k && |colorShift| == k && |aShift| == k && |bShift| == k && |gloss| == k
      invariant forall j :: 0 <= j < k ==>
                  PartScores(parts[j], sqrt) == Scores(blackness[j], colorShift[j], aShift[j], bShift[j], gloss[j])
    {
      var part := parts[k];
      blackness := blackness + [Percentile(part.L, BlacknessPercentile)];
      colorShift := colorShift + [ColorShift(part.a, part.b, sqrt)];
      aShift := aShift + [Mean(part.a)];
      bShift := bShift + [Mean(part.b)];
      gloss := gloss + [Gloss(part.L)];
    }
  }

  /** Offsetting a part's a* values by `ca` and its b* values by `cb`
      moves the reported a* and b* means by exactly those offsets and
      leaves blackness and gloss, which read only L*, as they are. */
  lemma ChromaMeansFollowOffset(part: LabPart, sqrt: real -> real, ca: real, cb: real)
    requires ValidPart(part)
    ensures var moved := LabPart(part.L, Shift(part.a, ca), Shift(part.b, cb));
            && ValidPart(moved)
            && PartScores(moved, sqrt).aShift == PartScores(part, sqrt).aShift - ca
            && PartScores(moved, sqrt).bShift == PartScores(part, sqrt).bShift - cb
            && PartScores(moved, sqrt).blackness == PartScores(part, sqrt).blackness
            && PartScores(moved, sqrt).gloss == PartScores(part, sqrt).gloss
  {
    MeanShift(part.a, ca);
    MeanShift(part.b, cb);
  }

  /** Blackness lies within the part's own L* range. */
  lemma BlacknessWithin(part: LabPart, sqrt: real -> real, lo: real, hi: real)
    requires ValidPart(part)
    requires forall i :: 0 <= i < |part.L| ==> lo <= part.L[i] <= hi
    ensures lo <= PartScores(part, sqrt).blackness <= hi
  {
    PercentileWithin(part.L, BlacknessPercentile, lo, hi);
  }

  /** A part whose every pixel matches the background exactly (L*, a*, b*
      all 0 after normalisation) scores 0 throughout, given a faithful
      square root. */
  lemma BackgroundLikePartScoresZero(part: LabPart, sqrt: real -> real)
    requires ValidPart(part) && IsSqrt(sqrt)
    requires forall i :: 0 <= i < |part.L| ==> part.L[i] == 0.0 && part.a[i] == 0.0 && part.b[i] == 0.0
    ensures PartScores(part, sqrt) == Scores(0.0, 0.0, 0.0, 0.0, 0.0)
  {
    PercentileWithin(part.L, BlacknessPercentile, 0.0, 0.0);
    ColorShiftZero(part.a, part.b, sqrt);
    MeanWithin(part.a, 0.0, 0.0);
    MeanWithin(part.b, 0.0, 0.0);
    UniformPart(part.L, 0.0);
  }
}
