/** The numpy reductions the metrics use: `np.percentile` with its default
    "linear" method, `np.median`, `np.mean` and `np.sum`, over exact reals. */
module Stats {
  import opened Sorting

  function Id(x: real): real { x }

  predicate Sorted(s: seq<real>)
  {
    forall i, j :: 0 <= i < j < |s| ==> s[i] <= s[j]
  }

  /** The ascending arrangement of `xs` (numpy sorts before interpolating). */
  function SortReals(xs: seq<real>): (s: seq<real>)
    ensures |s| == |xs|
  {
    SortBy(xs, Id)
  }

  /** The arrangement is ascending and holds the same values. */
  lemma SortRealsOrdered(xs: seq<real>)
    ensures Sorted(SortReals(xs)) && multiset(SortReals(xs)) == multiset(xs)
  {
    SortBySorted(xs, Id);
    SortByPermutation(xs, Id);
    var s := SortReals(xs);
    forall i, j | 0 <= i < j < |s| ensures s[i] <= s[j] {
      assert Id(s[i]) <= Id(s[j]);
    }
  }

  /** Every value of `xs` minus `c`. */
  function Shift(xs: seq<real>, c: real): (r: seq<real>)
    ensures |r| == |xs|
  {
    seq(|xs|, i requires 0 <= i < |xs| => xs[i] - c)
  }

  lemma MulNonNegative(x: real, y: real)
    requires 0.0 <= x && 0.0 <= y
    ensures 0.0 <= x * y
  {
  }

  /** numpy's linear interpolation from `lo` towards `hi` by fraction `t`. */
  function Lerp(lo: real, hi: real, t: real): (r: real)
    requires 0.0 <= t <= 1.0
    ensures lo <= hi ==> lo <= r <= hi
  {
    if lo <= hi then
      MulNonNegative(t, hi - lo);
      MulNonNegative(1.0 - t, hi - lo);
      lo + t * (hi - lo)
    else
      lo + t * (hi - lo)
  }

  /** The virtual index (n - 1) * q / 100 at which numpy reads the q-th
      percentile of n sorted values. */
  function VirtualIndex(n: nat, q: real): (h: real)
    requires n > 0 && 0.0 <= q <= 100.0
    ensures 0.0 <= h <= (n - 1) as real
    ensures 0 <= h.Floor <= n - 1
  {
    MulNonNegative((n - 1) as real, q / 100.0);
    MulNonNegative((n - 1) as real, 1.0 - q / 100.0);
    (n - 1) as real * (q / 100.0)
  }

  /** numpy's "linear" percentile of a sorted, non-empty sequence: the value
      at the virtual index, interpolated between its two neighbours. */
  function PercentileSorted(s: seq<real>, q: real): real
    requires |s| > 0 && 0.0 <= q <= 100.0
  {
    var h := VirtualIndex(|s|, q);
    var i := h.Floor;
    if i + 1 < |s| then Lerp(s[i], s[i + 1], h - i as real) else s[i]
  }

  /** On sorted data the interpolated value lies between the extremes. */
  lemma PercentileSortedBounds(s: seq<real>, q: real)
    requires |s| > 0 && Sorted(s) && 0.0 <= q <= 100.0
    ensures s[0] <= PercentileSorted(s, q) <= s[|s| - 1]
  {
    var i := VirtualIndex(|s|, q).Floor;
    assert s[0] <= s[i] <= s[|s| - 1];
    if i + 1 < |s| {
      assert s[i] <= s[i + 1] <= s[|s| - 1];
    }
  }

  /** `np.percentile(xs, q)`: undefined (numpy raises) on an empty input. */
  function Percentile(xs: seq<real>, q: real): (r: real)
    requires |xs| > 0 && 0.0 <= q <= 100.0
    ensures SortReals(xs)[0] <= r <= SortReals(xs)[|xs| - 1]
  {
    SortRealsOrdered(xs);
    PercentileSortedBounds(SortReals(xs), q);
    PercentileSorted(SortReals(xs), q)
  }

  /** `np.median(xs)`, which numpy computes as the 50th percentile. */
  function Median(xs: seq<real>): (r: real)
    requires |xs| > 0
    ensures SortReals(xs)[0] <= r <= SortReals(xs)[|xs| - 1]
  {
    Percentile(xs, 50.0)
  }

  function Sum(xs: seq<real>): real
  {
    if xs == [] then 0.0 else xs[0] + Sum(xs[1..])
  }

  /** `np.mean(xs)` of a non-empty sequence. */
  function Mean(xs: seq<real>): real
    requires |xs| > 0
  {
    Sum(xs) / |xs| as real
  }

  /** A percentile lies between two values that occur in the data. */
  lemma PercentileBetweenElements(xs: seq<real>, q: real)
    requires |xs| > 0 && 0.0 <= q <= 100.0
    ensures exists i :: 0 <= i < |xs| && xs[i] <= Percentile(xs, q)
    ensures exists j :: 0 <= j < |xs| && Percentile(xs, q) <= xs[j]
  {
    var s := SortReals(xs);
    SortRealsOrdered(xs);
    PercentileSortedBounds(s, q);
    assert s[0] in multiset(xs) && s[|s| - 1] in multiset(xs);
    assert s[0] in xs && s[|s| - 1] in xs;
  }

  /** Bounds on the data bound every percentile of it; in particular the
      percentile of a constant sequence (or of one value) is that value. */
  lemma PercentileWithin(xs: seq<real>, q: real, lo: real, hi: real)
    requires |xs| > 0 && 0.0 <= q <= 100.0
    requires forall i :: 0 <= i < |xs| ==> lo <= xs[i] <= hi
    ensures lo <= Percentile(xs, q) <= hi
  {
    PercentileBetweenElements(xs, q);
  }

  /** If every value lies strictly below `c`, so does every percentile. */
  lemma PercentileBelow(xs: seq<real>, q: real, c: real)
    requires |xs| > 0 && 0.0 <= q <= 100.0
    requires forall i :: 0 <= i < |xs| ==> xs[i] < c
    ensures Percentile(xs, q) < c
  {
    PercentileBetweenElements(xs, q);
  }

  lemma MedianOfSorted(s: seq<real>)
    requires |s| > 0
    ensures var n := |s|;
            PercentileSorted(s, 50.0)
              == if n % 2 == 1 then s[n / 2] else (s[n / 2 - 1] + s[n / 2]) / 2.0
  {
    var n := |s|;
    var h := (n - 1) as real * (50.0 / 100.0);
    if n % 2 == 1 {
      var k := (n - 1) / 2;
      assert h == k as real + 0.0;
      assert h.Floor == k;
      assert k == n / 2;
    } else {
      var k := n / 2 - 1;
      assert h == k as real + 0.5;
      assert h.Floor == k;
      assert s[k] + 0.5 * (s[k + 1] - s[k]) == (s[k] + s[k + 1]) / 2.0;
    }
  }

  /** The 50th percentile is the textbook median: the middle value of the
      sorted data, or the average of the two middle values. */
  lemma MedianIsMiddle(xs: seq<real>)
    requires |xs| > 0
    ensures var s := SortReals(xs);
            var n := |xs|;
            Median(xs) == if n % 2 == 1 then s[n / 2] else (s[n / 2 - 1] + s[n / 2]) / 2.0
  {
    MedianOfSorted(SortReals(xs));
  }

  lemma ShiftConcat(a: seq<real>, b: seq<real>, c: real)
    ensures Shift(a + b, c) == Shift(a, c) + Shift(b, c)
  {
  }

  lemma ShiftCons(x: real, s: seq<real>, c: real)
    ensures Shift([x] + s, c) == [x - c] + Shift(s, c)
  {
    var r := Shift([x] + s, c);
    assert r[0] == x - c;
    assert r[1..] == Shift(s, c);
  }

  lemma ShiftConsOf(a: seq<real>, b: seq<real>, h: real, rest: seq<real>, c: real)
    requires a == [h - c] + Shift(rest, c) && b == [h] + rest
    ensures a == Shift(b, c)
  {
    ShiftCons(h, rest, c);
  }

  lemma {:induction false} InsertShift(x: real, s: seq<real>, c: real)
    ensures InsertBy(x - c, Shift(s, c), Id) == Shift(InsertBy(x, s, Id), c)
  {
    var sc := Shift(s, c);
    if s == [] || x <= s[0] {
      assert sc != [] ==> sc[0] == s[0] - c;
      InsertByFront(x - c, sc, Id);
      InsertByFront(x, s, Id);
      ShiftConsOf(InsertBy(x - c, sc, Id), InsertBy(x, s, Id), x, s, c);
    } else {
      var t := s[1..];
      assert sc[0] == s[0] - c && sc[1..] == Shift(t, c);
      InsertByAfter(x - c, sc, Id);
      InsertByAfter(x, s, Id);
      InsertShift(x, t, c);
      ShiftConsOf(InsertBy(x - c, sc, Id), InsertBy(x, s, Id), s[0], InsertBy(x, t, Id), c);
    }
  }

  /** Subtracting a constant commutes with sorting. */
  lemma {:induction false} SortShift(xs: seq<real>, c: real)
    ensures SortReals(Shift(xs, c)) == Shift(SortReals(xs), c)
  {
    if xs != [] {
      var xc := Shift(xs, c);
      assert xc[0] == xs[0] - c && xc[1..] == Shift(xs[1..], c);
      SortShift(xs[1..], c);
      InsertShift(xs[0], SortBy(xs[1..], Id), c);
      assert SortBy(xc, Id) == InsertBy(xc[0], SortBy(xc[1..], Id), Id);
      assert SortBy(xs, Id) == InsertBy(xs[0], SortBy(xs[1..], Id), Id);
      assert SortBy(xc[1..], Id) == Shift(SortBy(xs[1..], Id), c);
    }
  }

  /** Percentiles move with a uniform offset of the data: the reason
      subtracting a background reference makes scores lighting-independent. */
  lemma PercentileShift(xs: seq<real>, q: real, c: real)
    requires |xs| > 0 && 0.0 <= q <= 100.0
    ensures Percentile(Shift(xs, c), q) == Percentile(xs, q) - c
  {
    SortShift(xs, c);
    PercentileSortedShift(SortReals(xs), q, c);
  }

  lemma MedianShift(xs: seq<real>, c: real)
    requires |xs| > 0
    ensures Median(Shift(xs, c)) == Median(xs) - c
  {
    PercentileShift(xs, 50.0, c);
  }

  lemma PercentileSortedShift(s: seq<real>, q: real, c: real)
    requires |s| > 0 && 0.0 <= q <= 100.0
    ensures PercentileSorted(Shift(s, c), q) == PercentileSorted(s, q) - c
  {
    var sc := Shift(s, c);
    var h := VirtualIndex(|s|, q);
    var i := h.Floor;
    if i + 1 < |s| {
      assert sc[i + 1] - sc[i] == s[i + 1] - s[i];
    }
  }

  lemma {:induction false} SumShift(xs: seq<real>, c: real)
    ensures Sum(Shift(xs, c)) == Sum(xs) - |xs| as real * c
  {
    if xs != [] {
      assert Shift(xs, c)[1..] == Shift(xs[1..], c);
      SumShift(xs[1..], c);
    }
  }

  lemma MeanShift(xs: seq<real>, c: real)
    requires |xs| > 0
    ensures Mean(Shift(xs, c)) == Mean(xs) - c
  {
    SumShift(xs, c);
    var n := |xs| as real;
    assert (Sum(xs) - n * c) / n == Sum(xs) / n - c;
  }

  lemma {:induction false} SumBounds(xs: seq<real>, lo: real, hi: real)
    requires forall i :: 0 <= i < |xs| ==> lo <= xs[i] <= hi
    ensures |xs| as real * lo <= Sum(xs) <= |xs| as real * hi
  {
    if xs != [] {
      SumBounds(xs[1..], lo, hi);
    }
  }

  /** A mean lies within any bounds on its data. */
  lemma MeanWithin(xs: seq<real>, lo: real, hi: real)
    requires |xs| > 0
    requires forall i :: 0 <= i < |xs| ==> lo <= xs[i] <= hi
    ensures lo <= Mean(xs) <= hi
  {
    SumBounds(xs, lo, hi);
    var n := |xs| as real;
    assert lo == (n * lo) / n && hi == (n * hi) / n;
  }

  lemma {:induction false} SumAbove(xs: seq<real>, c: real)
    requires |xs| > 0
    requires forall i :: 0 <= i < |xs| ==> c < xs[i]
    ensures |xs| as real * c < Sum(xs)
  {
    if |xs| > 1 {
      SumAbove(xs[1..], c);
    }
  }

  /** The mean of values all strictly above `c` is strictly above `c`. */
  lemma MeanAbove(xs: seq<real>, c: real)
    requires |xs| > 0
    requires forall i :: 0 <= i < |xs| ==> c < xs[i]
    ensures c < Mean(xs)
  {
    SumAbove(xs, c);
    var n := |xs| as real;
    assert c == (n * c) / n;
  }
}
