/** Images and masks as numpy's boolean indexing sees them: a height x width
    array flattened in row-major order, so that `values[mask]` lists the
    selected values in that order. A pixel that the source overwrites with
    NaN is `None`; numpy's comparisons with NaN are false, and so are the
    comparisons here. */
module Masks {
  import opened Wrappers
  import opened Stats

  type Mask = seq<bool>

  /** Every mask in `masks` covers `n` pixels. */
  predicate SameShape(masks: seq<Mask>, n: nat)
  {
    forall k :: 0 <= k < |masks| ==> |masks[k]| == n
  }

  /** Number of true pixels (`np.count_nonzero`). */
  function Count(m: Mask): (c: nat)
    ensures c <= |m|
  {
    if m == [] then 0 else (if m[0] then 1 else 0) + Count(m[1..])
  }

  /** `xs[m]`: the values of `xs` where `m` is true, in pixel order. */
  function Select<T>(xs: seq<T>, m: Mask): (r: seq<T>)
    requires |xs| == |m|
    ensures |r| == Count(m)
  {
    if xs == [] then [] else (if m[0] then [xs[0]] else []) + Select(xs[1..], m[1..])
  }

  /** `np.mean(m)` of a boolean mask: the fraction of true pixels. */
  function Fraction(m: Mask): (f: real)
    requires |m| > 0
    ensures 0.0 <= f <= 1.0
  {
    Count(m) as real / |m| as real
  }

  function Or(a: Mask, b: Mask): (m: Mask)
    requires |a| == |b|
    ensures |m| == |a|
  {
    seq(|a|, p requires 0 <= p < |a| => a[p] || b[p])
  }

  function And(a: Mask, b: Mask): (m: Mask)
    requires |a| == |b|
    ensures |m| == |a|
  {
    seq(|a|, p requires 0 <= p < |a| => a[p] && b[p])
  }

  function Not(a: Mask): (m: Mask)
    ensures |m| == |a|
  {
    seq(|a|, p requires 0 <= p < |a| => !a[p])
  }

  /** `xs > c` element-wise. */
  function Above(xs: seq<real>, c: real): (m: Mask)
    ensures |m| == |xs|
  {
    seq(|xs|, p requires 0 <= p < |xs| => xs[p] > c)
  }

  /** `xs < c` element-wise. */
  function Below(xs: seq<real>, c: real): (m: Mask)
    ensures |m| == |xs|
  {
    seq(|xs|, p requires 0 <= p < |xs| => xs[p] < c)
  }

  /** `labels == id` element-wise. */
  function LabelMask(labels: seq<nat>, id: nat): (m: Mask)
    ensures |m| == |labels|
  {
    seq(|labels|, p requires 0 <= p < |labels| => labels[p] == id)
  }

  predicate Disjoint(a: Mask, b: Mask)
    requires |a| == |b|
  {
    forall p :: 0 <= p < |a| ==> !(a[p] && b[p])
  }

  /** The union of the part masks: pixel `p` belongs to some part. */
  function PartsUnion(n: nat, masks: seq<Mask>): (u: Mask)
    requires SameShape(masks, n)
    ensures |u| == n
  {
    seq(n, p requires 0 <= p < n => exists k :: 0 <= k < |masks| && masks[k][p])
  }

  /** `parts_mask = zeros_like(gray, bool); for pm in part_masks: parts_mask |= pm`. */
  method CombineMasks(n: nat, masks: seq<Mask>) returns (partsMask: Mask)
    requires SameShape(masks, n)
    ensures partsMask == PartsUnion(n, masks)
  {
    partsMask := seq(n, p => false);
    for k := 0 to |masks|
      invariant |partsMask| == n
      invariant forall p :: 0 <= p < n ==>
                  (partsMask[p] <==> exists j :: 0 <= j < k && masks[j][p])
    {
      partsMask := Or(partsMask, masks[k]);
    }
  }

  /** `g = gray.copy(); g[mask] = np.nan`: a copy in which masked pixels
      carry no value. The caller's `gray` is a value and stays as it was. */
  function ExcludeMasked(gray: seq<real>, mask: Mask): (g: seq<Option<real>>)
    requires |mask| == |gray|
    ensures |g| == |gray|
  {
    seq(|gray|, p requires 0 <= p < |gray| => if mask[p] then None else Some(gray[p]))
  }

  /** The values that are not NaN, in pixel order. */
  function Present(g: seq<Option<real>>): seq<real>
  {
    if g == [] then []
    else (if g[0].Some? then [g[0].value] else []) + Present(g[1..])
  }

  /** `np.nanpercentile(g, q)`: the percentile of the values that are not
      NaN, and NaN itself (None) when every value is NaN. */
  function NanPercentile(g: seq<Option<real>>, q: real): Option<real>
    requires 0.0 <= q <= 100.0
  {
    var v := Present(g);
    if v == [] then None else Some(Percentile(v, q))
  }

  /** `g > t` element-wise, false wherever either side is NaN. */
  function Greater(g: seq<Option<real>>, t: Option<real>): (m: Mask)
    ensures |m| == |g|
  {
    seq(|g|, p requires 0 <= p < |g| => g[p].Some? && t.Some? && g[p].value > t.value)
  }

  /** `g < t` element-wise, false wherever either side is NaN. */
  function Less(g: seq<Option<real>>, t: Option<real>): (m: Mask)
    ensures |m| == |g|
  {
    seq(|g|, p requires 0 <= p < |g| => g[p].Some? && t.Some? && g[p].value < t.value)
  }

  /** `~np.isnan(g)`. */
  function NotNan(g: seq<Option<real>>): (m: Mask)
    ensures |m| == |g|
  {
    seq(|g|, p requires 0 <= p < |g| => g[p].Some?)
  }

  /** The values left after NaN-marking the masked pixels are exactly the
      unmasked values, in order. */
  lemma {:induction false} PresentAfterExclusion(gray: seq<real>, mask: Mask)
    requires |mask| == |gray|
    ensures Present(ExcludeMasked(gray, mask)) == Select(gray, Not(mask))
  {
    if gray != [] {
      var g := ExcludeMasked(gray, mask);
      assert g[1..] == ExcludeMasked(gray[1..], mask[1..]);
      assert Not(mask)[1..] == Not(mask[1..]);
      PresentAfterExclusion(gray[1..], mask[1..]);
    }
  }

  /** `Select` keeps exactly the selected positions: every selected value
      is the value at some selected pixel, and every selected pixel's value
      is listed. */
  lemma {:induction false} SelectMembers<T>(xs: seq<T>, m: Mask)
    requires |xs| == |m|
    ensures forall v :: v in Select(xs, m) <==> exists p :: 0 <= p < |xs| && m[p] && xs[p] == v
  {
    if xs != [] {
      SelectMembers(xs[1..], m[1..]);
      forall v ensures v in Select(xs, m) <==> exists p :: 0 <= p < |xs| && m[p] && xs[p] == v {
        if v in Select(xs[1..], m[1..]) {
          var p :| 0 <= p < |xs| - 1 && m[1..][p] && xs[1..][p] == v;
          assert m[p + 1] && xs[p + 1] == v;
        }
        if exists p :: 0 <= p < |xs| && m[p] && xs[p] == v {
          var p :| 0 <= p < |xs| && m[p] && xs[p] == v;
          if p > 0 {
            assert m[1..][p - 1] && xs[1..][p - 1] == v;
          }
        }
      }
    }
  }

  /** A mask counts no pixel exactly when it is false everywhere. */
  lemma {:induction false} CountZero(m: Mask)
    ensures Count(m) == 0 <==> forall p :: 0 <= p < |m| ==> !m[p]
  {
    if m != [] {
      CountZero(m[1..]);
      assert forall p :: 1 <= p < |m| ==> m[p] == m[1..][p - 1];
    }
  }
}
