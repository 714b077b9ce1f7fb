/** segmentation.py (and its duplicate src/segmentation.py): turning the
    labelled binary part mask into an ordered list of part masks, and the
    background mask of one image. */
module Segmentation {
  import opened Sorting
  import opened Stats
  import opened Masks
  import opened Regions
  import opened BackgroundRule

  /** `threshold_parts` reads its coarse threshold at this percentile. */
  const CoarsePercentile := 60.0
  /** A region whose bounding box ends within this many rows of the bottom
      edge is dropped. */
  const BottomMargin := 5

  /** The coarse threshold of `threshold_parts`: the 60th percentile of the
      grey image. */
  function CoarseThreshold(gray: seq<real>): real
    requires |gray| > 0
  {
    Percentile(gray, CoarsePercentile)
  }

  /** `coarse_mask = gray < coarse_thresh`, before the morphology. */
  function CoarseMask(gray: seq<real>): (m: Mask)
    requires |gray| > 0
    ensures |m| == |gray|
  {
    Below(gray, CoarseThreshold(gray))
  }

  /** A brightest pixel is never in the coarse mask, so the coarse mask is
      never the whole image. */
  lemma BrightestNotCoarse(gray: seq<real>, p: nat)
    requires p < |gray|
    requires forall i :: 0 <= i < |gray| ==> gray[i] <= gray[p]
    ensures !CoarseMask(gray)[p]
  {
    PercentileBetweenElements(gray, CoarsePercentile);
  }

  /** The region's bounding box ends within `BottomMargin` rows of the
      bottom edge of an image `height` rows tall. `maxRow` is exclusive, as
      in `regionprops`, so a region whose last occupied row is any of the
      bottom `BottomMargin + 1` rows counts. */
  predicate TouchesBottom(r: Region, height: int)
  {
    r.maxRow >= height - BottomMargin
  }

  /** `extract_part_regions` keeps `r`. */
  predicate Kept(r: Region, height: int, minArea: int)
  {
    !TouchesBottom(r, height) && r.area >= minArea
  }

  /** The regions `extract_part_regions` keeps, in `regionprops` order. */
  function KeptRegions(rs: seq<Region>, height: int, minArea: int): seq<Region>
  {
    if rs == [] then []
    else
      var last := rs[|rs| - 1];
      KeptRegions(rs[..|rs| - 1], height, minArea) + (if Kept(last, height, minArea) then [last] else [])
  }

  /** The positions in `rs` of the kept regions. */
  function KeptIndices(rs: seq<Region>, height: int, minArea: int): seq<nat>
  {
    if rs == [] then []
    else
      var n := |rs| - 1;
      KeptIndices(rs[..n], height, minArea) + (if Kept(rs[n], height, minArea) then [n] else [])
  }

  /** `extract_part_regions(binary_mask, min_area)`, given `labels =
      label(binary_mask)` and `regions = regionprops(labels)`. The label grid
      is handed back as it came. */
  method ExtractPartRegions(labels: seq<nat>, regions: seq<Region>, height: int, minArea: int)
    returns (labelsOut: seq<nat>, partRegions: seq<Region>)
    ensures labelsOut == labels
    ensures partRegions == KeptRegions(regions, height, minArea)
  {
    partRegions := [];
    for i := 0 to |regions|
      invariant partRegions == KeptRegions(regions[..i], height, minArea)
    {
      var r := regions[i];
      assert regions[..i + 1][..i] == regions[..i];
      if r.maxRow >= height - BottomMargin {
        continue;
      }
      if r.area >= minArea {
        partRegions := partRegions + [r];
      }
    }
    assert regions[..|regions|] == regions;
    labelsOut := labels;
  }

  /** The kept regions are exactly the regions at the kept positions, the
      positions strictly increase (the output is an order-preserving
      subsequence of the input) and every kept region is listed. */
  lemma {:induction false} KeptSubsequence(rs: seq<Region>, height: int, minArea: int)
    ensures var idx := KeptIndices(rs, height, minArea);
            var out := KeptRegions(rs, height, minArea);
            && |idx| == |out|
            && (forall k :: 0 <= k < |idx| ==> idx[k] < |rs| && out[k] == rs[idx[k]])
            && (forall k, l :: 0 <= k < l < |idx| ==> idx[k] < idx[l])
            && (forall i :: 0 <= i < |rs| ==> (Kept(rs[i], height, minArea) <==> i in idx))
  {
    if rs != [] {
      var n := |rs| - 1;
      var front := rs[..n];
      KeptSubsequence(front, height, minArea);
      assert forall i :: 0 <= i < n ==> front[i] == rs[i];
    }
  }

  /** A region is in the output exactly when it is in the input with its
      bottom row clear of the bottom margin and its area at least `minArea`;
      in particular a region touching the bottom margin is never kept,
      whatever its area. */
  lemma KeptIff(rs: seq<Region>, height: int, minArea: int, r: Region)
    ensures r in KeptRegions(rs, height, minArea) <==>
              r in rs && r.maxRow < height - BottomMargin && r.area >= minArea
  {
    KeptSubsequence(rs, height, minArea);
    var idx := KeptIndices(rs, height, minArea);
    var out := KeptRegions(rs, height, minArea);
    if r in out {
      var k :| 0 <= k < |out| && out[k] == r;
      assert rs[idx[k]] == r && idx[k] in idx;
    }
    if r in rs && Kept(r, height, minArea) {
      var i :| 0 <= i < |rs| && rs[i] == r;
      assert i in idx;
      var k :| 0 <= k < |idx| && idx[k] == i;
      assert out[k] == r;
    }
  }

  function CentroidCol(r: Region): real
  {
    r.centroidCol
  }

  /** `sorted(regions, key=lambda r: r.centroid[1])`: left to right, as a
      permutation of the input. */
  function SortRegionsL2R(rs: seq<Region>): (sorted: seq<Region>)
    ensures multiset(sorted) == multiset(rs)
    ensures forall i, j :: 0 <= i < j < |sorted| ==> sorted[i].centroidCol <= sorted[j].centroidCol
  {
    var s := SortBy(rs, CentroidCol);
    SortBySorted(rs, CentroidCol);
    SortByPermutation(rs, CentroidCol);
    assert forall i, j :: 0 <= i < j < |s| ==> CentroidCol(s[i]) <= CentroidCol(s[j]);
    s
  }

  /** Regions with the same centroid column keep their input order. */
  lemma SortRegionsL2RStable(rs: seq<Region>, col: real)
    ensures WithKey(SortRegionsL2R(rs), CentroidCol, col) == WithKey(rs, CentroidCol, col)
  {
    SortByStable(rs, CentroidCol, col);
  }

  /** `[(labels == r.label) for r in regions_sorted]`: one mask per region,
      in order, true exactly at the pixels carrying that region's label. */
  function RegionsToMasks(labels: seq<nat>, rs: seq<Region>): (masks: seq<Mask>)
    ensures |masks| == |rs| && SameShape(masks, |labels|)
    ensures forall k, p :: 0 <= k < |rs| && 0 <= p < |labels| ==> (masks[k][p] <==> labels[p] == rs[k].id)
  {
    seq(|rs|, k requires 0 <= k < |rs| => LabelMask(labels, rs[k].id))
  }

  /** Masks of regions with distinct labels never share a pixel. */
  lemma RegionMasksDisjoint(labels: seq<nat>, rs: seq<Region>)
    requires DistinctIds(rs)
    ensures var masks := RegionsToMasks(labels, rs);
            forall k, l :: 0 <= k < |masks| && 0 <= l < |masks| && k != l ==> Disjoint(masks[k], masks[l])
  {
    var masks := RegionsToMasks(labels, rs);
    forall k, l | 0 <= k < |masks| && 0 <= l < |masks| && k != l
      ensures Disjoint(masks[k], masks[l])
    {
      assert rs[k].id != rs[l].id by {
        if k < l { assert rs[k].id != rs[l].id; } else { assert rs[l].id != rs[k].id; }
      }
    }
  }

  lemma KeptDistinct(rs: seq<Region>, height: int, minArea: int)
    requires DistinctIds(rs)
    ensures DistinctIds(KeptRegions(rs, height, minArea))
  {
    KeptSubsequence(rs, height, minArea);
    var idx := KeptIndices(rs, height, minArea);
    var out := KeptRegions(rs, height, minArea);
    forall k, l | 0 <= k < l < |out| ensures out[k].id != out[l].id {
      assert idx[k] < idx[l];
    }
  }

  lemma {:induction false} InsertDistinct(x: Region, s: seq<Region>)
    requires DistinctIds(s)
    requires forall r :: r in s ==> r.id != x.id
    ensures DistinctIds(InsertBy(x, s, CentroidCol))
  {
    if !(s == [] || CentroidCol(x) <= CentroidCol(s[0])) {
      var rest := InsertBy(x, s[1..], CentroidCol);
      InsertByAfter(x, s, CentroidCol);
      InsertByPermutation(x, s[1..], CentroidCol);
      InsertDistinct(x, s[1..]);
      forall j | 0 <= j < |rest| ensures s[0].id != rest[j].id {
        assert rest[j] in multiset(rest);
        assert rest[j] == x || rest[j] in multiset(s[1..]);
        if rest[j] != x {
          var i :| 0 <= i < |s[1..]| && s[1..][i] == rest[j];
          assert s[i + 1] == rest[j];
        }
      }
      var r := [s[0]] + rest;
      forall i, j | 0 <= i < j < |r| ensures r[i].id != r[j].id {
        if i > 0 { assert r[i] == rest[i - 1] && r[j] == rest[j - 1]; }
      }
    } else {
      var r := [x] + s;
      InsertByFront(x, s, CentroidCol);
      forall i, j | 0 <= i < j < |r| ensures r[i].id != r[j].id {
        if i == 0 { assert r[j] in s; }
      }
    }
  }

  lemma {:induction false} SortDistinct(rs: seq<Region>)
    requires DistinctIds(rs)
    ensures DistinctIds(SortRegionsL2R(rs))
  {
    if rs != [] {
      assert DistinctIds(rs[1..]);
      SortDistinct(rs[1..]);
      SortByMembers(rs[1..], CentroidCol);
      forall r | r in SortBy(rs[1..], CentroidCol) ensures r.id != rs[0].id {
        var i :| 0 <= i < |rs[1..]| && rs[1..][i] == r;
        assert rs[i + 1] == r;
      }
      InsertDistinct(rs[0], SortBy(rs[1..], CentroidCol));
    }
  }

  /** The whole selection pipeline: the part masks of the kept regions,
      sorted left to right, are pairwise disjoint. */
  lemma PartMasksDisjoint(lab: Labelling, height: int, minArea: int)
    requires DistinctIds(lab.regions)
    ensures var masks := RegionsToMasks(lab.labels, SortRegionsL2R(KeptRegions(lab.regions, height, minArea)));
            forall k, l :: 0 <= k < |masks| && 0 <= l < |masks| && k != l ==> Disjoint(masks[k], masks[l])
  {
    var kept := KeptRegions(lab.regions, height, minArea);
    KeptDistinct(lab.regions, height, minArea);
    SortDistinct(kept);
    RegionMasksDisjoint(lab.labels, SortRegionsL2R(kept));
  }

  /** `compute_background(gray, part_masks)`: part pixels are OR-ed into one
      mask and NaN-marked in a copy of the grey image, whose 70th percentile
      (ignoring NaN) is the threshold; the background is every pixel of the
      copy strictly above it. */
  method ComputeBackground(gray: seq<real>, partMasks: seq<Mask>) returns (bgMask: Mask)
    requires SameShape(partMasks, |gray|)
    ensures bgMask == BackgroundMask(gray, partMasks)
  {
    var partsMask := CombineMasks(|gray|, partMasks);
    var grayNoParts := ExcludeMasked(gray, partsMask);
    var bgThresh := NanPercentile(grayNoParts, BackgroundPercentile);
    bgMask := Greater(grayNoParts, bgThresh);
  }

  /** No part pixel is background, and a non-part pixel is background
      exactly when it is strictly brighter than the 70th percentile of the
      non-part grey values. */
  lemma ComputeBackgroundMeaning(gray: seq<real>, partMasks: seq<Mask>, k: nat, p: nat)
    requires SameShape(partMasks, |gray|) && p < |gray|
    ensures k < |partMasks| && partMasks[k][p] ==> !BackgroundMask(gray, partMasks)[p]
    ensures var v := NonPartValues(gray, partMasks);
            (forall j :: 0 <= j < |partMasks| ==> !partMasks[j][p]) ==>
              (BackgroundMask(gray, partMasks)[p] <==> v != [] && gray[p] > Percentile(v, BackgroundPercentile))
  {
    BackgroundMaskMeaning(gray, partMasks, p);
  }
}
