/** background.py: the background and holder masks of one image. The
    background is decided as in `compute_background`; the holder is the
    largest connected region of the non-part pixels strictly darker than the
    background threshold. */
module Background {
  import opened Masks
  import opened Regions
  import opened BackgroundRule

  /** `max(regions, key=lambda r: r.area)`: the position of the region of
      largest area, the first one when several share it. */
  function LargestRegion(rs: seq<Region>): (k: nat)
    requires |rs| > 0
    ensures k < |rs|
    ensures forall j :: 0 <= j < |rs| ==> rs[j].area <= rs[k].area
    ensures forall j :: 0 <= j < k ==> rs[j].area < rs[k].area
  {
    if |rs| == 1 then 0
    else
      var k := LargestRegion(rs[..|rs| - 1]);
      if rs[|rs| - 1].area > rs[k].area then |rs| - 1 else k
  }

  /** The holder mask for the labelling of the dark mask: all false when no
      dark region exists, and otherwise the pixels of the largest region. */
  function HolderMask(lab: Labelling, n: nat): (m: Mask)
    requires |lab.labels| == n
    ensures |m| == n
  {
    if lab.regions == [] then seq(n, p => false)
    else LabelMask(lab.labels, lab.regions[LargestRegion(lab.regions)].id)
  }

  /** `compute_background_and_holder_masks(gray, part_masks)`, with
      `labelRegions` standing for `label` followed by `regionprops`. */
  method ComputeBackgroundAndHolderMasks(gray: seq<real>, partMasks: seq<Mask>, labelRegions: Mask -> Labelling)
    returns (backgroundMask: Mask, holderMask: Mask)
    requires SameShape(partMasks, |gray|)
    requires LabellingOf(labelRegions(DarkMask(gray, partMasks)), DarkMask(gray, partMasks))
    ensures backgroundMask == BackgroundMask(gray, partMasks)
    ensures holderMask == HolderMask(labelRegions(DarkMask(gray, partMasks)), |gray|)
  {
    var partsMask := CombineMasks(|gray|, partMasks);
    var grayNoParts := ExcludeMasked(gray, partsMask);
    var bgThresh := NanPercentile(grayNoParts, BackgroundPercentile);
    backgroundMask := Greater(grayNoParts, bgThresh);
    var darkMask := And(Less(grayNoParts, bgThresh), NotNan(grayNoParts));
    var lab := labelRegions(darkMask);
    if lab.regions == [] {
      return backgroundMask, seq(|gray|, p => false);
    }
    var holderLabel := lab.regions[LargestRegion(lab.regions)].id;
    holderMask := LabelMask(lab.labels, holderLabel);
  }

  /** With at least one dark region, the holder is exactly the pixels of
      the region `max` picks, and it is at least as large as every region. */
  lemma HolderIsLargestRegion(lab: Labelling, mask: Mask)
    requires LabellingOf(lab, mask) && lab.regions != []
    ensures var h := lab.regions[LargestRegion(lab.regions)];
            var holder := HolderMask(lab, |mask|);
            && Count(holder) == h.area
            && (forall k :: 0 <= k < |lab.regions| ==> lab.regions[k].area <= Count(holder))
            && (forall p :: 0 <= p < |mask| ==> (holder[p] <==> lab.labels[p] == h.id))
  {
  }

  /** The holder lies inside the dark mask; it is therefore disjoint from
      the background and from every part. */
  lemma HolderInsideDark(gray: seq<real>, partMasks: seq<Mask>, lab: Labelling, p: nat)
    requires SameShape(partMasks, |gray|) && p < |gray|
    requires LabellingOf(lab, DarkMask(gray, partMasks))
    ensures HolderMask(lab, |gray|)[p] ==> DarkMask(gray, partMasks)[p]
    ensures HolderMask(lab, |gray|)[p] ==> !BackgroundMask(gray, partMasks)[p]
    ensures forall k :: 0 <= k < |partMasks| && HolderMask(lab, |gray|)[p] ==> !partMasks[k][p]
  {
    if lab.regions != [] {
      var h := lab.regions[LargestRegion(lab.regions)];
      assert h.id >= 1;
    }
    BackgroundDarkPartition(gray, partMasks, p);
  }

  /** With no dark region the holder mask is all false; the holder has a
      pixel exactly when some pixel is dark: one dark pixel makes a region,
      and every holder pixel is dark. */
  lemma HolderEmptyIff(gray: seq<real>, partMasks: seq<Mask>, lab: Labelling)
    requires SameShape(partMasks, |gray|)
    requires LabellingOf(lab, DarkMask(gray, partMasks))
    ensures lab.regions == [] ==> forall p :: 0 <= p < |gray| ==> !HolderMask(lab, |gray|)[p]
    ensures (exists p :: 0 <= p < |gray| && DarkMask(gray, partMasks)[p]) <==>
              exists p :: 0 <= p < |gray| && HolderMask(lab, |gray|)[p]
  {
    var dark := DarkMask(gray, partMasks);
    forall p | 0 <= p < |gray|
      ensures HolderMask(lab, |gray|)[p] ==> dark[p]
    {
      HolderInsideDark(gray, partMasks, lab, p);
    }
    if exists p :: 0 <= p < |gray| && dark[p] {
      var p :| 0 <= p < |gray| && dark[p];
      assert exists k :: 0 <= k < |lab.regions| && lab.regions[k].id == lab.labels[p];
      var h := lab.regions[LargestRegion(lab.regions)];
      var hm := LabelMask(lab.labels, h.id);
      assert Count(hm) >= 1;
      CountZero(hm);
      var q :| 0 <= q < |hm| && hm[q];
      assert HolderMask(lab, |gray|)[q];
    }
  }
}
