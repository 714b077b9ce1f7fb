/** Background-referenced Lab normalisation, as written twice in the
    source (`normalize_parts` in color_analysis.py and
    `lab_normalize_from_bg` in color_processing.py): each part's L*, a* and
    b* pixel values minus the median of that channel over the background. */
module LabNormalization {
  import opened Wrappers
  import opened Stats
  import opened Masks

  /** The three channels of `rgb2lab(image)`, each flattened. */
  datatype LabImage = LabImage(L: seq<real>, a: seq<real>, b: seq<real>)

  predicate WellFormed(img: LabImage)
  {
    |img.a| == |img.L| && |img.b| == |img.L|
  }

  /** One part's normalised pixel values, channel by channel, in pixel
      order. */
  datatype LabPart = LabPart(L: seq<real>, a: seq<real>, b: seq<real>)

  /** The per-channel background medians `L_ref`, `a_ref`, `b_ref`. */
  datatype Reference = Reference(L: real, a: real, b: real)

  /** `np.median` of each channel over the background; numpy's median of
      no pixels is NaN, which is `None` here. */
  function BackgroundReference(img: LabImage, bgMask: Mask): (ref: Option<Reference>)
    requires WellFormed(img) && |bgMask| == |img.L|
    ensures ref.None? <==> Count(bgMask) == 0
  {
    if Count(bgMask) == 0 then None
    else Some(Reference(Median(Select(img.L, bgMask)),
                        Median(Select(img.a, bgMask)),
                        Median(Select(img.b, bgMask))))
  }

  /** `(L[m] - L_ref, a[m] - a_ref, b[m] - b_ref)`. */
  function NormalizedPart(img: LabImage, ref: Reference, m: Mask): (part: LabPart)
    requires WellFormed(img) && |m| == |img.L|
    ensures |part.L| == Count(m) && |part.a| == Count(m) && |part.b| == Count(m)
  {
    LabPart(Shift(Select(img.L, m), ref.L), Shift(Select(img.a, m), ref.a), Shift(Select(img.b, m), ref.b))
  }

  /** `normalize_parts(L, a, b, background_mask, part_masks)` (identical to
      `lab_normalize_from_bg`): one normalised triple per part mask, in mask
      order. With an empty background every value of every part would be
      NaN, which is `None`; with no part masks the loop never runs and the
      result is the empty list whatever the background. */
  method NormalizeParts(img: LabImage, bgMask: Mask, partMasks: seq<Mask>)
    returns (normalized: Option<seq<LabPart>>)
    requires WellFormed(img) && |bgMask| == |img.L| && SameShape(partMasks, |img.L|)
    ensures normalized.None? <==> Count(bgMask) == 0 && |partMasks| > 0
    ensures normalized.Some? ==>
              && |normalized.value| == |partMasks|
              && forall k :: 0 <= k < |partMasks| ==>
                   && Count(bgMask) > 0
                   && normalized.value[k]
                      == NormalizedPart(img, BackgroundReference(img, bgMask).value, partMasks[k])
  {
    var ref := BackgroundReference(img, bgMask);
    if ref.None? {
      return if |partMasks| == 0 then Some([]) else None;
    }
    var parts: seq<LabPart> := [];
    for k := 0 to |partMasks|
      invariant |parts| == k
      invariant forall j :: 0 <= j < k ==> parts[j] == NormalizedPart(img, ref.value, partMasks[j])
    {
      parts := parts + [NormalizedPart(img, ref.value, partMasks[k])];
    }
    return Some(parts);
  }

  /** The background's own L* values normalise to median 0. */
  lemma BackgroundNormalizesToZero(img: LabImage, bgMask: Mask)
    requires WellFormed(img) && |bgMask| == |img.L| && Count(bgMask) > 0
    ensures var ref := BackgroundReference(img, bgMask).value;
            Median(NormalizedPart(img, ref, bgMask).L) == 0.0
  {
    var sel := Select(img.L, bgMask);
    MedianShift(sel, Median(sel));
  }

  lemma {:induction false} SelectShift(xs: seq<real>, m: Mask, d: real)
    requires |xs| == |m|
    ensures Select(Shift(xs, d), m) == Shift(Select(xs, m), d)
  {
    if xs != [] {
      assert Shift(xs, d)[1..] == Shift(xs[1..], d);
      SelectShift(xs[1..], m[1..], d);
      ShiftConcat(if m[0] then [xs[0]] else [], Select(xs[1..], m[1..]), d);
    }
  }

  lemma ShiftTwice(xs: seq<real>, c: real, d: real)
    ensures Shift(Shift(xs, c), d) == Shift(xs, c + d)
  {
  }

  lemma SelectedMedianOffset(xs: seq<real>, m: Mask, d: real)
    requires |xs| == |m| && Count(m) > 0
    ensures Median(Select(Shift(xs, -d), m)) == Median(Select(xs, m)) + d
  {
    var ys := Select(xs, m);
    var zs := Select(Shift(xs, -d), m);
    SelectShift(xs, m, -d);
    assert zs == Shift(ys, -d);
    MedianShift(ys, -d);
  }

  /** Brightening L* by `d` raises the L* reference by `d` and leaves the
      a* and b* references alone. */
  lemma ReferenceOffset(img: LabImage, lit: LabImage, bgMask: Mask, d: real)
    requires WellFormed(img) && |bgMask| == |img.L| && Count(bgMask) > 0
    requires lit == LabImage(Shift(img.L, -d), img.a, img.b)
    ensures BackgroundReference(lit, bgMask).value.L == BackgroundReference(img, bgMask).value.L + d
    ensures BackgroundReference(lit, bgMask).value.a == BackgroundReference(img, bgMask).value.a
    ensures BackgroundReference(lit, bgMask).value.b == BackgroundReference(img, bgMask).value.b
  {
    SelectedMedianOffset(img.L, bgMask, d);
  }

  /** Raising the L* reference by the same `d` as the image cancels out. */
  lemma PartOffset(img: LabImage, lit: LabImage, ref: Reference, m: Mask, d: real)
    requires WellFormed(img) && |m| == |img.L|
    requires lit == LabImage(Shift(img.L, -d), img.a, img.b)
    ensures NormalizedPart(lit, Reference(ref.L + d, ref.a, ref.b), m) == NormalizedPart(img, ref, m)
  {
    var sel := Select(img.L, m);
    SelectShift(img.L, m, -d);
    ShiftTwice(sel, -d, ref.L + d);
  }

  /** Lighting offset invariance: brightening the whole image's L* channel
      by a constant `d` leaves every normalised part unchanged. */
  lemma NormalizationIgnoresOffset(img: LabImage, bgMask: Mask, m: Mask, d: real)
    requires WellFormed(img) && |bgMask| == |img.L| && |m| == |img.L| && Count(bgMask) > 0
    ensures var lit := LabImage(Shift(img.L, -d), img.a, img.b);
            NormalizedPart(lit, BackgroundReference(lit, bgMask).value, m)
              == NormalizedPart(img, BackgroundReference(img, bgMask).value, m)
  {
    var lit := LabImage(Shift(img.L, -d), img.a, img.b);
    var ref := BackgroundReference(img, bgMask).value;
    var litRef := BackgroundReference(lit, bgMask).value;
    ReferenceOffset(img, lit, bgMask, d);
    assert litRef == Reference(ref.L + d, ref.a, ref.b);
    PartOffset(img, lit, ref, m, d);
  }
}
