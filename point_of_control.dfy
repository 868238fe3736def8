/** The point of control: `compute_point_of_control` in src/_volume_profile.rs.
    The source reads field `[2]` of every record, which is the bucket's middle,
    so the result is the largest middle among the populated buckets, floored at
    `0.0` by the accumulator's start value. */
module ControlPoint {
  import opened Numeric
  import opened HistogramBuilder

  /** The largest middle among the entries of `h`, or `0.0` when that is larger
      (in particular for an empty histogram). */
  function PointOfControl(h: Histogram): (r: real)
    ensures r >= 0.0
    ensures forall k :: k in h ==> h[k].middle <= r
    ensures r == 0.0 || exists k :: k in h && h[k].middle == r
    ensures h == map[] ==> r == 0.0
    decreases |h|
  {
    if h.Keys == {} then 0.0
    else
      var k := MaxKey(h.Keys);
      var rest := h - {k};
      RemoveKeySize(h, k);
      assert forall j :: j in h && j != k ==> j in rest && rest[j] == h[j];
      Max(h[k].middle, PointOfControl(rest))
  }

  /** The three properties above determine the point of control: any value
      that has them is it. */
  lemma PointOfControlUnique(h: Histogram, r: real)
    requires r >= 0.0
    requires forall k :: k in h ==> h[k].middle <= r
    requires r == 0.0 || exists k :: k in h && h[k].middle == r
    ensures r == PointOfControl(h)
  {
  }

  /** Order independence: whichever entry the scan looks at first, the result
      is the same. */
  lemma PointOfControlAnyKey(h: Histogram, k: nat)
    requires k in h
    ensures PointOfControl(h) == Max(h[k].middle, PointOfControl(h - {k}))
  {
    var rest := h - {k};
    var r := Max(h[k].middle, PointOfControl(rest));
    assert forall j :: j in h && j != k ==> j in rest && rest[j] == h[j];
    if r != 0.0 && r != h[k].middle {
      var j :| j in rest && rest[j].middle == PointOfControl(rest);
      assert j in h && h[j].middle == r;
    }
    PointOfControlUnique(h, r);
  }

  /** `compute_point_of_control`: a running maximum of field `[2]` over the
      keys, visited in an arbitrary order as a `HashMap` does. */
  method ComputePointOfControl(histogram: Histogram) returns (maxMiddle: real)
    ensures maxMiddle == PointOfControl(histogram)
  {
    maxMiddle := 0.0;
    var keys := histogram.Keys;
    while keys != {}
      invariant keys <= histogram.Keys
      invariant maxMiddle >= 0.0
      invariant forall k :: k in histogram && k !in keys ==> histogram[k].middle <= maxMiddle
      invariant maxMiddle == 0.0 || exists k :: k in histogram && k !in keys && histogram[k].middle == maxMiddle
      decreases keys
    {
      var k :| k in keys;
      var freq := histogram[k].middle;
      maxMiddle := Max(maxMiddle, freq);
      keys := keys - {k};
    }
    PointOfControlUnique(histogram, maxMiddle);
  }
}
