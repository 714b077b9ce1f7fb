/** The background rule shared by `compute_background` (segmentation.py)
    and `compute_background_and_holder_masks` (background.py): part pixels
    are NaN-marked out of the grey image, the threshold is the 70th
    percentile of what is left, and the background is every remaining pixel
    strictly brighter than it. */
module BackgroundRule {
  import opened Wrappers
  import opened Stats
  import opened Masks

  const BackgroundPercentile := 70.0

  /** `gray_no_parts`: the grey image with every part pixel NaN-marked. */
  function NonPartGray(gray: seq<real>, partMasks: seq<Mask>): (g: seq<Option<real>>)
    requires SameShape(partMasks, |gray|)
    ensures |g| == |gray|
  {
    ExcludeMasked(gray, PartsUnion(|gray|, partMasks))
  }

  /** `bg_thresh = np.nanpercentile(gray_no_parts, 70)`. */
  function BackgroundThreshold(gray: seq<real>, partMasks: seq<Mask>): Option<real>
    requires SameShape(partMasks, |gray|)
  {
    NanPercentile(NonPartGray(gray, partMasks), BackgroundPercentile)
  }

  /** `gray_no_parts > bg_thresh`. */
  function BackgroundMask(gray: seq<real>, partMasks: seq<Mask>): (m: Mask)
    requires SameShape(partMasks, |gray|)
    ensures |m| == |gray|
  {
    Greater(NonPartGray(gray, partMasks), BackgroundThreshold(gray, partMasks))
  }

  /** `(gray_no_parts < bg_thresh) & ~np.isnan(gray_no_parts)`. */
  function DarkMask(gray: seq<real>, partMasks: seq<Mask>): (m: Mask)
    requires SameShape(partMasks, |gray|)
    ensures |m| == |gray|
  {
    var g := NonPartGray(gray, partMasks);
    And(Less(g, BackgroundThreshold(gray, partMasks)), NotNan(g))
  }

  /** The non-part grey values, in pixel order. */
  function NonPartValues(gray: seq<real>, partMasks: seq<Mask>): seq<real>
    requires SameShape(partMasks, |gray|)
  {
    Select(gray, Not(PartsUnion(|gray|, partMasks)))
  }

  /** The threshold is the 70th percentile of the non-part grey values, and
      NaN when every pixel belongs to a part. */
  lemma ThresholdOfNonPartValues(gray: seq<real>, partMasks: seq<Mask>)
    requires SameShape(partMasks, |gray|)
    ensures var v := NonPartValues(gray, partMasks);
            BackgroundThreshold(gray, partMasks)
              == if v == [] then None else Some(Percentile(v, BackgroundPercentile))
  {
    PresentAfterExclusion(gray, PartsUnion(|gray|, partMasks));
  }

  /** A pixel is background exactly when it is in no part and its grey value
      is strictly above the 70th percentile of the non-part grey values. */
  lemma BackgroundMaskMeaning(gray: seq<real>, partMasks: seq<Mask>, p: nat)
    requires SameShape(partMasks, |gray|) && p < |gray|
    ensures var v := NonPartValues(gray, partMasks);
            (BackgroundMask(gray, partMasks)[p]
             <==> !PartsUnion(|gray|, partMasks)[p] && v != []
                  && gray[p] > Percentile(v, BackgroundPercentile))
  {
    ThresholdOfNonPartValues(gray, partMasks);
  }

  /** A pixel is dark exactly when it is in no part and its grey value is
      strictly below the 70th percentile of the non-part grey values. */
  lemma DarkMaskMeaning(gray: seq<real>, partMasks: seq<Mask>, p: nat)
    requires SameShape(partMasks, |gray|) && p < |gray|
    ensures var v := NonPartValues(gray, partMasks);
            (DarkMask(gray, partMasks)[p]
             <==> !PartsUnion(|gray|, partMasks)[p] && v != []
                  && gray[p] < Percentile(v, BackgroundPercentile))
  {
    ThresholdOfNonPartValues(gray, partMasks);
  }

  /** Background and dark pixels never overlap, neither includes a part
      pixel, and a pixel exactly at the threshold is in neither. */
  lemma BackgroundDarkPartition(gray: seq<real>, partMasks: seq<Mask>, p: nat)
    requires SameShape(partMasks, |gray|) && p < |gray|
    ensures !(BackgroundMask(gray, partMasks)[p] && DarkMask(gray, partMasks)[p])
    ensures PartsUnion(|gray|, partMasks)[p] ==>
              !BackgroundMask(gray, partMasks)[p] && !DarkMask(gray, partMasks)[p]
    ensures BackgroundThreshold(gray, partMasks) == Some(gray[p]) ==>
              !BackgroundMask(gray, partMasks)[p] && !DarkMask(gray, partMasks)[p]
  {
  }
}
