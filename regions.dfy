/** Connected-component labelling as scikit-image reports it. The labelling
    itself (`skimage.measure.label`, `regionprops`) is a library call and is
    not modelled; its results are inputs, and `LabellingOf` states what the
    library guarantees about them. */
module Regions {
  import opened Masks

  /** One entry of `regionprops`: its label (`id`), its bounding box
      (`bbox` = min row, min column, max row, max column, the maxima
      exclusive), its area in pixels and its centroid (row, column). */
  datatype Region = Region(id: nat, minRow: int, minCol: int, maxRow: int, maxCol: int,
                           area: nat, centroidRow: real, centroidCol: real)

  /** The label grid of `label(mask)` (flattened like every mask) together
      with `regionprops` of it. */
  datatype Labelling = Labelling(labels: seq<nat>, regions: seq<Region>)

  /** No two regions carry the same label. */
  predicate DistinctIds(rs: seq<Region>)
  {
    forall i, j :: 0 <= i < j < |rs| ==> rs[i].id != rs[j].id
  }

  /** `lab` is a labelling of `mask`: label 0 is the unlabelled background,
      every foreground pixel carries a positive label, every label in use is
      reported once as a region, region labels are positive, and a region's
      area is the (positive) number of pixels carrying its label. */
  predicate LabellingOf(lab: Labelling, mask: Mask)
  {
    && |lab.labels| == |mask|
    && (forall p :: 0 <= p < |mask| ==> (lab.labels[p] != 0 <==> mask[p]))
    && (forall k :: 0 <= k < |lab.regions| ==> lab.regions[k].id >= 1)
    && (forall k :: 0 <= k < |lab.regions| ==>
          lab.regions[k].area >= 1 && lab.regions[k].area == Count(LabelMask(lab.labels, lab.regions[k].id)))
    && (forall p :: 0 <= p < |mask| && mask[p] ==>
          exists k :: 0 <= k < |lab.regions| && lab.regions[k].id == lab.labels[p])
    && DistinctIds(lab.regions)
  }
}
