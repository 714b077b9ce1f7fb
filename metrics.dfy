/** Definitions both `compute_metrics` variants share: the 95th-percentile
    cutoff of a part's normalised L*, the strict highlight/diffuse split at
    that cutoff, the gloss score built on it, and the chroma magnitude under
    `np.sqrt`. */
module Metrics {
  import opened Stats
  import opened Masks
  import opened LabNormalization

  const BlacknessPercentile := 10.0
  const HighPercentile := 95.0

  /** The five scores of one part, in the order `compute_metrics` returns
      its lists. */
  datatype Scores = Scores(blackness: real, colorShift: real, aShift: real, bShift: real, gloss: real)

  /** A normalised part the metrics can be computed on: three channels of
      one non-empty pixel set (numpy's percentile raises on no data). */
  predicate ValidPart(part: LabPart)
  {
    |part.L| > 0 && |part.a| == |part.L| && |part.b| == |part.L|
  }

  /** `high_L = np.percentile(L, 95)`. */
  function Cutoff(L: seq<real>): real
    requires |L| > 0
  {
    Percentile(L, HighPercentile)
  }

  /** `L > high_L`. */
  function HighlightMask(L: seq<real>): (m: Mask)
    requires |L| > 0
    ensures |m| == |L|
  {
    Above(L, Cutoff(L))
  }

  /** `L < high_L`. */
  function DiffuseMask(L: seq<real>): (m: Mask)
    requires |L| > 0
    ensures |m| == |L|
  {
    Below(L, Cutoff(L))
  }

  /** The mean L* of the highlight pixels, or 0 when there are none. */
  function Intensity(L: seq<real>): real
    requires |L| > 0
  {
    var hm := HighlightMask(L);
    if Count(hm) > 0 then Mean(Select(L, hm)) else 0.0
  }

  /** `gloss_score = fraction * intensity`, the fraction taken over all of
      the part's pixels. */
  function Gloss(L: seq<real>): real
    requires |L| > 0
  {
    Fraction(HighlightMask(L)) * Intensity(L)
  }

  /** `a**2 + b**2` element-wise. */
  function SquaredChroma(a: seq<real>, b: seq<real>): (c: seq<real>)
    requires |a| == |b|
    ensures |c| == |a|
  {
    seq(|a|, i requires 0 <= i < |a| => a[i] * a[i] + b[i] * b[i])
  }

  /** What `np.sqrt` satisfies on the non-negative reals. */
  ghost predicate IsSqrt(sqrt: real -> real)
  {
    && sqrt(0.0) == 0.0
    && forall x :: 0.0 <= x ==> 0.0 <= sqrt(x) && sqrt(x) * sqrt(x) == x
  }

  /** `np.sqrt(np.mean(a**2 + b**2))`: the root-mean-square chroma. */
  function ColorShift(a: seq<real>, b: seq<real>, sqrt: real -> real): real
    requires |a| == |b| && |a| > 0
  {
    sqrt(Mean(SquaredChroma(a, b)))
  }

  /** The colour shift is never negative, and it is zero when every pixel
      has a* = b* = 0. */
  lemma ColorShiftZero(a: seq<real>, b: seq<real>, sqrt: real -> real)
    requires |a| == |b| && |a| > 0 && IsSqrt(sqrt)
    ensures 0.0 <= ColorShift(a, b, sqrt)
    ensures (forall i :: 0 <= i < |a| ==> a[i] == 0.0 && b[i] == 0.0) ==> ColorShift(a, b, sqrt) == 0.0
  {
    var c := SquaredChroma(a, b);
    forall i | 0 <= i < |c| ensures 0.0 <= c[i] {
      MulNonNegative(if a[i] < 0.0 then -a[i] else a[i], if a[i] < 0.0 then -a[i] else a[i]);
      MulNonNegative(if b[i] < 0.0 then -b[i] else b[i], if b[i] < 0.0 then -b[i] else b[i]);
    }
    MeanWithin(c, 0.0, MaxOf(c));
    if forall i :: 0 <= i < |a| ==> a[i] == 0.0 && b[i] == 0.0 {
      forall i | 0 <= i < |c| ensures c[i] == 0.0 {
        assert a[i] == 0.0 && b[i] == 0.0;
      }
      MeanWithin(c, 0.0, 0.0);
    }
  }

  /** The largest value of a non-empty sequence. */
  function MaxOf(xs: seq<real>): (m: real)
    requires |xs| > 0
    ensures forall i :: 0 <= i < |xs| ==> xs[i] <= m
  {
    if |xs| == 1 then xs[0]
    else
      var rest := MaxOf(xs[1..]);
      assert forall i :: 1 <= i < |xs| ==> xs[i] == xs[1..][i - 1];
      if xs[0] < rest then rest else xs[0]
  }

  /** Highlight pixels lie strictly above the cutoff and diffuse pixels
      strictly below it: no pixel is both, and a pixel exactly at the cutoff
      is neither. */
  lemma HighlightDiffusePartition(L: seq<real>, p: nat)
    requires |L| > 0 && p < |L|
    ensures !(HighlightMask(L)[p] && DiffuseMask(L)[p])
    ensures L[p] == Cutoff(L) <==> !HighlightMask(L)[p] && !DiffuseMask(L)[p]
  {
  }

  /** Whenever there are highlight pixels, their mean L* exceeds the
      cutoff. */
  lemma IntensityAboveCutoff(L: seq<real>)
    requires |L| > 0 && Count(HighlightMask(L)) > 0
    ensures Intensity(L) > Cutoff(L)
  {
    var hm := HighlightMask(L);
    var sel := Select(L, hm);
    SelectMembers(L, hm);
    forall i | 0 <= i < |sel| ensures Cutoff(L) < sel[i] {
      assert sel[i] in sel;
    }
    MeanAbove(sel, Cutoff(L));
  }

  /** No highlight pixel means no gloss. */
  lemma NoHighlightNoGloss(L: seq<real>)
    requires |L| > 0 && Count(HighlightMask(L)) == 0
    ensures Gloss(L) == 0.0
  {
  }

  /** A part of uniform lightness has no highlight and no diffuse pixel,
      and so no gloss: its cutoff is that lightness itself. */
  lemma UniformPart(L: seq<real>, c: real)
    requires |L| > 0
    requires forall i :: 0 <= i < |L| ==> L[i] == c
    ensures Count(HighlightMask(L)) == 0 && Count(DiffuseMask(L)) == 0
    ensures Gloss(L) == 0.0
  {
    PercentileWithin(L, HighPercentile, c, c);
    CountZero(HighlightMask(L));
    CountZero(DiffuseMask(L));
  }

  /** The highlight and diffuse pixel sets do not depend on a uniform offset
      of L*, such as a different background reference. */
  lemma SplitIgnoresOffset(L: seq<real>, d: real)
    requires |L| > 0
    ensures HighlightMask(Shift(L, d)) == HighlightMask(L)
    ensures DiffuseMask(Shift(L, d)) == DiffuseMask(L)
  {
    var shifted := Shift(L, d);
    CutoffOffset(L, d);
    assert HighlightMask(shifted) == Above(shifted, Cutoff(L) - d);
    assert DiffuseMask(shifted) == Below(shifted, Cutoff(L) - d);
  }

  lemma CutoffOffset(L: seq<real>, d: real)
    requires |L| > 0
    ensures Cutoff(Shift(L, d)) == Cutoff(L) - d
  {
    PercentileShift(L, HighPercentile, d);
  }
}
