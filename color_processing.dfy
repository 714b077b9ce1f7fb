/** color_processing.py: background- and grey-card-referenced colour
    correction in linear RGB, and the diffuse/highlight variant of the
    per-part scores. Its `lab_normalize_from_bg` is
    `LabNormalization.NormalizeParts`. */
module ColorProcessing {
  import opened Wrappers
  import opened Stats
  import opened Masks
  import opened LabNormalization
  import opened Metrics
  import opened Utils

  /** The white level `linear_normalize_from_bg` maps the background to. */
  const BackgroundTarget := 1.0
  /** The linear level `normalize_from_gray_card` maps the card to. */
  const GrayCardTarget := 0.215

  /** An RGB image, each channel flattened. */
  datatype RgbImage = RgbImage(r: seq<real>, g: seq<real>, b: seq<real>)

  predicate WellFormedRgb(img: RgbImage)
  {
    |img.g| == |img.r| && |img.b| == |img.r|
  }

  /** `np.clip(x, 0, 1)`. */
  function Clip(x: real): (y: real)
    ensures 0.0 <= y <= 1.0
    ensures 0.0 <= x <= 1.0 ==> y == x
    ensures x < 0.0 ==> y == 0.0
    ensures x > 1.0 ==> y == 1.0
  {
    if x < 0.0 then 0.0 else if x > 1.0 then 1.0 else x
  }

  /** The per-channel correction `target / mean(channel[mask])`; `None`
      where numpy would divide by zero or average no pixels. */
  function Correction(ch: seq<real>, mask: Mask, target: real): (f: Option<real>)
    requires |mask| == |ch|
    ensures f.Some? <==> Count(mask) > 0 && Mean(Select(ch, mask)) != 0.0
  {
    if Count(mask) == 0 then None
    else
      var m := Mean(Select(ch, mask));
      if m == 0.0 then None else Some(target / m)
  }

  /** One pixel value times its channel's correction. The product is kept
      behind this name so that the lemmas below can state and rewrite it as
      one term instead of leaving the solver to match bare multiplications. */
  function Times(x: real, f: real): real
  {
    x * f
  }

  /** `np.clip(channel * correction, 0, 1)`. */
  function ScaleClip(ch: seq<real>, f: real): (out: seq<real>)
    ensures |out| == |ch|
    ensures forall p :: 0 <= p < |out| ==> 0.0 <= out[p] <= 1.0
  {
    var out := seq(|ch|, p requires 0 <= p < |ch| => Clip(Times(ch[p], f)));
    assert forall p :: 0 <= p < |out| ==> out[p] == Clip(Times(ch[p], f));
    out
  }

  /** The scale-and-clip step: each channel of the linear image multiplied
      by its correction and clipped into [0, 1]. */
  function CorrectToTarget(lin: RgbImage, mask: Mask, target: real): (out: Option<RgbImage>)
    requires WellFormedRgb(lin) && |mask| == |lin.r|
    ensures out.Some? <==> (Count(mask) > 0 && Mean(Select(lin.r, mask)) != 0.0
                            && Mean(Select(lin.g, mask)) != 0.0 && Mean(Select(lin.b, mask)) != 0.0)
    ensures out.Some? ==> WellFormedRgb(out.value) && |out.value.r| == |lin.r|
    ensures out.Some? ==> forall p :: 0 <= p < |lin.r| ==>
              0.0 <= out.value.r[p] <= 1.0 && 0.0 <= out.value.g[p] <= 1.0 && 0.0 <= out.value.b[p] <= 1.0
  {
    match (Correction(lin.r, mask, target), Correction(lin.g, mask, target), Correction(lin.b, mask, target))
    case (Some(fr), Some(fg), Some(fb)) =>
      Some(RgbImage(ScaleClip(lin.r, fr), ScaleClip(lin.g, fg), ScaleClip(lin.b, fb)))
    case _ => None
  }

  /** `utils.srgb_to_linear` as written, value by value, branch point
      0.0031308 included. */
  function DecodeChannel(ch: seq<real>, decodePow: real -> real): (out: seq<real>)
    ensures |out| == |ch|
  {
    seq(|ch|, p requires 0 <= p < |ch| => SrgbToLinear(ch[p], decodePow))
  }

  function EncodeChannel(ch: seq<real>, encodePow: real -> real): (out: seq<real>)
    ensures |out| == |ch|
  {
    seq(|ch|, p requires 0 <= p < |ch| => LinearToSrgb(ch[p], encodePow))
  }

  function Decode(img: RgbImage, decodePow: real -> real): (out: RgbImage)
    requires WellFormedRgb(img)
    ensures WellFormedRgb(out) && |out.r| == |img.r|
  {
    RgbImage(DecodeChannel(img.r, decodePow), DecodeChannel(img.g, decodePow), DecodeChannel(img.b, decodePow))
  }

  function Encode(img: RgbImage, encodePow: real -> real): (out: RgbImage)
    requires WellFormedRgb(img)
    ensures WellFormedRgb(out) && |out.r| == |img.r|
  {
    RgbImage(EncodeChannel(img.r, encodePow), EncodeChannel(img.g, encodePow), EncodeChannel(img.b, encodePow))
  }

  /** Decode, correct towards `target` over `mask`, encode. */
  function NormalizeToTarget(img: RgbImage, mask: Mask, target: real,
                             decodePow: real -> real, encodePow: real -> real): (out: Option<RgbImage>)
    requires WellFormedRgb(img) && |mask| == |img.r|
    ensures var lin := Decode(img, decodePow);
            out.Some? <==> (Count(mask) > 0 && Mean(Select(lin.r, mask)) != 0.0
                            && Mean(Select(lin.g, mask)) != 0.0 && Mean(Select(lin.b, mask)) != 0.0)
    ensures out.Some? ==> out.value == Encode(CorrectToTarget(Decode(img, decodePow), mask, target).value, encodePow)
  {
    match CorrectToTarget(Decode(img, decodePow), mask, target)
    case Some(c) => Some(Encode(c, encodePow))
    case None => None
  }

  /** `linear_normalize_from_bg(image, bg_mask)`: the background's mean
      becomes white. */
  function LinearNormalizeFromBg(img: RgbImage, bgMask: Mask,
                                 decodePow: real -> real, encodePow: real -> real): (out: Option<RgbImage>)
    requires WellFormedRgb(img) && |bgMask| == |img.r|
    ensures var lin := Decode(img, decodePow);
            out.Some? <==> (Count(bgMask) > 0 && Mean(Select(lin.r, bgMask)) != 0.0
                            && Mean(Select(lin.g, bgMask)) != 0.0 && Mean(Select(lin.b, bgMask)) != 0.0)
  {
    NormalizeToTarget(img, bgMask, BackgroundTarget, decodePow, encodePow)
  }

  /** `normalize_from_gray_card(image, card_mask)`: the card's mean becomes
      the linear level 0.215. */
  function NormalizeFromGrayCard(img: RgbImage, cardMask: Mask,
                                 decodePow: real -> real, encodePow: real -> real): (out: Option<RgbImage>)
    requires WellFormedRgb(img) && |cardMask| == |img.r|
    ensures var lin := Decode(img, decodePow);
            out.Some? <==> (Count(cardMask) > 0 && Mean(Select(lin.r, cardMask)) != 0.0
                            && Mean(Select(lin.g, cardMask)) != 0.0 && Mean(Select(lin.b, cardMask)) != 0.0)
  {
    NormalizeToTarget(img, cardMask, GrayCardTarget, decodePow, encodePow)
  }

  lemma QuotientTimes(target: real, m: real)
    requires m != 0.0
    ensures Times(m, target / m) == target
  {
  }

  /** The correction brings the masked mean to the target: the mean times
      the factor is the target. */
  lemma CorrectionHitsTarget(ch: seq<real>, mask: Mask, target: real)
    requires |mask| == |ch|
    ensures var f := Correction(ch, mask, target);
            f.Some? ==> Times(Mean(Select(ch, mask)), f.value) == target
  {
    if Count(mask) > 0 {
      var m := Mean(Select(ch, mask));
      if m != 0.0 {
        QuotientTimes(target, m);
      }
    }
  }

  function Scale(xs: seq<real>, f: real): (out: seq<real>)
    ensures |out| == |xs|
  {
    seq(|xs|, i requires 0 <= i < |xs| => Times(xs[i], f))
  }

  lemma Distribute(h: real, t: real, f: real)
    ensures Times(h, f) + Times(t, f) == Times(h + t, f)
  {
  }

  lemma {:induction false} SumScale(xs: seq<real>, f: real)
    ensures Sum(Scale(xs, f)) == Times(Sum(xs), f)
  {
    if xs != [] {
      assert Scale(xs, f)[1..] == Scale(xs[1..], f);
      SumScale(xs[1..], f);
      Distribute(xs[0], Sum(xs[1..]), f);
    }
  }

  lemma {:induction false} SelectScaleClip(ch: seq<real>, mask: Mask, f: real)
    requires |mask| == |ch|
    requires forall p :: 0 <= p < |ch| && mask[p] ==> 0.0 <= Times(ch[p], f) <= 1.0
    ensures Select(ScaleClip(ch, f), mask) == Scale(Select(ch, mask), f)
  {
    if ch != [] {
      assert ScaleClip(ch, f)[1..] == ScaleClip(ch[1..], f);
      SelectScaleClip(ch[1..], mask[1..], f);
      var head := if mask[0] then [ch[0]] else [];
      var tail := Select(ch[1..], mask[1..]);
      assert Scale(head + tail, f) == Scale(head, f) + Scale(tail, f);
    }
  }

  lemma MeanTimes(sum: real, n: real, f: real)
    requires n > 0.0
    ensures Times(sum, f) / n == Times(sum / n, f)
  {
  }

  /** When no masked pixel is clipped, the corrected channel's masked mean
      is exactly the target. */
  lemma CorrectedMeanIsTarget(ch: seq<real>, mask: Mask, target: real, f: real)
    requires |mask| == |ch| && Correction(ch, mask, target) == Some(f)
    requires forall p :: 0 <= p < |ch| && mask[p] ==> 0.0 <= Times(ch[p], f) <= 1.0
    ensures Mean(Select(ScaleClip(ch, f), mask)) == target
  {
    var sel := Select(ch, mask);
    SelectScaleClip(ch, mask, f);
    SumScale(sel, f);
    MeanTimes(Sum(sel), |sel| as real, f);
    CorrectionHitsTarget(ch, mask, target);
  }

  /** A channel whose masked mean already is the target gets factor one. */
  lemma AtTargetFactorOne(ch: seq<real>, mask: Mask, target: real)
    requires |mask| == |ch| && Count(mask) > 0 && target != 0.0
    requires Mean(Select(ch, mask)) == target
    ensures Correction(ch, mask, target) == Some(1.0)
  {
    SelfQuotient(target);
  }

  lemma SelfQuotient(t: real)
    requires t != 0.0
    ensures t / t == 1.0
  {
  }

  /** Factor one leaves values already in [0, 1] as they are. */
  lemma UnitScaleUnchanged(ch: seq<real>)
    requires forall p :: 0 <= p < |ch| ==> 0.0 <= ch[p] <= 1.0
    ensures ScaleClip(ch, 1.0) == ch
  {
  }

  /** An image whose decoded masked means all already are the target, and
      whose decoded values lie in [0, 1], is only decoded and re-encoded:
      every correction factor is one and nothing is clipped. */
  lemma AtTargetOnlyReencodes(img: RgbImage, mask: Mask, target: real,
                              decodePow: real -> real, encodePow: real -> real)
    requires WellFormedRgb(img) && |mask| == |img.r| && Count(mask) > 0 && target != 0.0
    requires var lin := Decode(img, decodePow);
             && Mean(Select(lin.r, mask)) == target
             && Mean(Select(lin.g, mask)) == target
             && Mean(Select(lin.b, mask)) == target
    requires var lin := Decode(img, decodePow);
             && (forall p :: 0 <= p < |lin.r| ==> 0.0 <= lin.r[p] <= 1.0)
             && (forall p :: 0 <= p < |lin.g| ==> 0.0 <= lin.g[p] <= 1.0)
             && (forall p :: 0 <= p < |lin.b| ==> 0.0 <= lin.b[p] <= 1.0)
    ensures NormalizeToTarget(img, mask, target, decodePow, encodePow)
            == Some(Encode(Decode(img, decodePow), encodePow))
  {
    var lin := Decode(img, decodePow);
    AtTargetFactorOne(lin.r, mask, target);
    AtTargetFactorOne(lin.g, mask, target);
    AtTargetFactorOne(lin.b, mask, target);
    UnitScaleUnchanged(lin.r);
    UnitScaleUnchanged(lin.g);
    UnitScaleUnchanged(lin.b);
    assert CorrectToTarget(lin, mask, target) == Some(lin);
  }

  // ----- compute_metrics, diffuse/highlight variant -----

  /** Some pixel lies strictly below the 95th-percentile cutoff, so that
      the diffuse subset the scores read has data. */
  predicate HasDiffuse(L: seq<real>)
    requires |L| > 0
  {
    Count(DiffuseMask(L)) > 0
  }

  /** The diffuse pixels of a part: those strictly below its cutoff, in
      pixel order, in all three channels. */
  function DiffusePart(part: LabPart): (d: LabPart)
    requires ValidPart(part) && HasDiffuse(part.L)
    ensures ValidPart(d) && |d.L| == Count(DiffuseMask(part.L))
  {
    var dm := DiffuseMask(part.L);
    LabPart(Select(part.L, dm), Select(part.a, dm), Select(part.b, dm))
  }

  /** The scores of one part: blackness, chroma and the a* and b* medians
      over the diffuse pixels only; gloss over the whole part, as in the
      mean-based variant. */
  function DiffuseScores(part: LabPart, sqrt: real -> real): Scores
    requires ValidPart(part) && HasDiffuse(part.L)
  {
    var d := DiffusePart(part);
    Scores(Percentile(d.L, BlacknessPercentile), ColorShift(d.a, d.b, sqrt), Median(d.a), Median(d.b), Gloss(part.L))
  }

  /** `compute_metrics(normalized_parts)`: five lists with one entry per
      part, in part order. */
  method ComputeMetrics(parts: seq<LabPart>, sqrt: real -> real)
    returns (blackness: seq<real>, colorShift: seq<real>, aShift: seq<real>, bShift: seq<real>, gloss: seq<real>)
    requires forall k :: 0 <= k < |parts| ==> ValidPart(parts[k]) && HasDiffuse(parts[k].L)
    ensures |blackness| == |parts| && |colorShift| == |parts| && |aShift| == |parts|
    ensures |bShift| == |parts| && |gloss| == |parts|
    ensures forall k :: 0 <= k < |parts| ==>
              DiffuseScores(parts[k], sqrt) == Scores(blackness[k], colorShift[k], aShift[k], bShift[k], gloss[k])
  {
    blackness, colorShift, aShift, bShift, gloss := [], [], [], [], [];
    for k := 0 to |parts|
      invariant |blackness| == k && |colorShift| == k && |aShift| == k && |bShift| == k && |gloss| == k
      invariant forall j :: 0 <= j < k ==>
                  DiffuseScores(parts[j], sqrt) == Scores(blackness[j], colorShift[j], aShift[j], bShift[j], gloss[j])
    {
      var part := parts[k];
      var diffuse := DiffusePart(part);
      blackness := blackness + [Percentile(diffuse.L, BlacknessPercentile)];
      colorShift := colorShift + [ColorShift(diffuse.a, diffuse.b, sqrt)];
      aShift := aShift + [Median(diffuse.a)];
      bShift := bShift + [Median(diffuse.b)];
      gloss := gloss + [Gloss(part.L)];
    }
  }

  /** Blackness, read from diffuse pixels only, lies strictly below the
      highlight cutoff. */
  lemma BlacknessBelowCutoff(part: LabPart, sqrt: real -> real)
    requires ValidPart(part) && HasDiffuse(part.L)
    ensures DiffuseScores(part, sqrt).blackness < Cutoff(part.L)
  {
    var L := part.L;
    var dm := DiffuseMask(L);
    DiffuseBelowCutoff(L);
    PercentileBelow(Select(L, dm), BlacknessPercentile, Cutoff(L));
  }

  lemma DiffuseBelowCutoff(L: seq<real>)
    requires |L| > 0
    ensures forall i :: 0 <= i < |Select(L, DiffuseMask(L))| ==> Select(L, DiffuseMask(L))[i] < Cutoff(L)
  {
    var dm := DiffuseMask(L);
    var sel := Select(L, dm);
    SelectMembers(L, dm);
    forall i | 0 <= i < |sel| ensures sel[i] < Cutoff(L) {
      assert sel[i] in sel;
    }
  }

  /** A part of uniform lightness has no diffuse pixel: the source's 10th
      percentile of the diffuse subset then has no data. */
  lemma UniformPartHasNoDiffuse(L: seq<real>, c: real)
    requires |L| > 0
    requires forall i :: 0 <= i < |L| ==> L[i] == c
    ensures !HasDiffuse(L)
  {
    UniformPart(L, c);
  }
}
