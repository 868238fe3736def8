/** The histogram builder: `compute_histogram` in src/_volume_profile.rs.
    Each price of a window slice is put into the first bucket `n` in `1..=bins`
    whose half-open interval `[n*w, (n+1)*w)` holds it, and the sample's volume is
    added to that bucket's record. */
module HistogramBuilder {
  import opened Wrappers

  /** A populated bucket: the four numbers the source stores as
      `vec![lower, upper, middle, volume]`. */
  datatype Bucket = Bucket(lower: real, upper: real, middle: real, volume: real)

  /** A histogram keyed by bucket index. The source keys by a label formatted
      from the interval; distinct populated indices always have distinct labels. */
  type Histogram = map<nat, Bucket>

  // ---------------------------------------------------------------------------
  // Bucket geometry and membership
  // ---------------------------------------------------------------------------

  function BucketLower(n: nat, w: real): real {
    (n as real) * w
  }

  function BucketUpper(n: nat, w: real): real {
    ((n + 1) as real) * w
  }

  function BucketMiddle(n: nat, w: real): real {
    (BucketLower(n, w) + BucketUpper(n, w)) / 2.0
  }

  /** The record the source stores for bucket `n` with accumulated `volume`. */
  function MakeBucket(n: nat, w: real, volume: real): Bucket {
    Bucket(BucketLower(n, w), BucketUpper(n, w), BucketMiddle(n, w), volume)
  }

  /** The membership test of the inner loop: `lower <= p && p < upper`. */
  predicate InBucket(p: real, n: nat, w: real) {
    BucketLower(n, w) <= p < BucketUpper(n, w)
  }

  /** The inner `for n in from..=bins` loop: the first bucket at or after `from`
      that holds `p`, or None when the loop runs out without a `break`. */
  function FirstBucketFrom(p: real, from: nat, bins: nat, w: real): (r: Option<nat>)
    ensures r.Some? ==> from <= r.value <= bins && InBucket(p, r.value, w)
    ensures r.Some? ==> forall m :: from <= m < r.value ==> !InBucket(p, m, w)
    ensures r.None? ==> forall m :: from <= m <= bins ==> !InBucket(p, m, w)
    decreases bins + 1 - from
  {
    if from > bins then None
    else if InBucket(p, from, w) then Some(from)
    else FirstBucketFrom(p, from + 1, bins, w)
  }

  /** The bucket a sample with price `p` is assigned to, if any. */
  function BucketIndex(p: real, bins: nat, w: real): (r: Option<nat>)
    ensures r.Some? ==> 1 <= r.value <= bins && InBucket(p, r.value, w)
    ensures r.None? ==> forall m :: 1 <= m <= bins ==> !InBucket(p, m, w)
  {
    FirstBucketFrom(p, 1, bins, w)
  }

  lemma MulMonotone(a: real, b: real, w: real)
    requires a <= b && 0.0 <= w
    ensures a * w <= b * w
  {
    assert b * w - a * w == (b - a) * w;
  }

  /** A bucket that holds anything has positive width. */
  lemma InBucketWidthPositive(p: real, n: nat, w: real)
    requires InBucket(p, n, w)
    ensures w > 0.0
  {
    assert BucketUpper(n, w) == BucketLower(n, w) + w;
  }

  /** Buckets of one width do not overlap: a price lies in at most one of them. */
  lemma InBucketUnique(p: real, n1: nat, n2: nat, w: real)
    requires InBucket(p, n1, w) && InBucket(p, n2, w)
    ensures n1 == n2
  {
    InBucketWidthPositive(p, n1, w);
    if n1 < n2 {
      MulMonotone((n1 + 1) as real, n2 as real, w);
    } else if n2 < n1 {
      MulMonotone((n2 + 1) as real, n1 as real, w);
    }
  }

  /** Unique assignment: a price is assigned to bucket `n` exactly when `n` is
      among `1..=bins` and its interval holds the price. */
  lemma {:induction false} AssignmentIsUnique(p: real, bins: nat, w: real, n: nat)
    ensures BucketIndex(p, bins, w) == Some(n) <==> 1 <= n <= bins && InBucket(p, n, w)
  {
    var r := BucketIndex(p, bins, w);
    if 1 <= n <= bins && InBucket(p, n, w) {
      assert r.Some?;
      InBucketUnique(p, r.value, n, w);
    }
  }

  /** With a zero (or negative) width no interval holds anything, so every
      sample is dropped. */
  lemma {:induction false} NonPositiveWidthAssignsNothing(p: real, bins: nat, w: real)
    requires w <= 0.0
    ensures BucketIndex(p, bins, w) == None
  {
    var r := BucketIndex(p, bins, w);
    if r.Some? {
      InBucketWidthPositive(p, r.value, w);
    }
  }

  /** With a positive width the buckets cover exactly `[w, (bins+1)*w)`: a price
      below the first bucket or at or above the end of the last is dropped. */
  lemma {:induction false} CoveredPrices(p: real, bins: nat, w: real)
    requires w > 0.0
    ensures BucketIndex(p, bins, w).Some? <==> w <= p < ((bins + 1) as real) * w
  {
    if BucketIndex(p, bins, w).Some? {
      AssignedPriceInRange(p, bins, w);
    }
    if w <= p < ((bins + 1) as real) * w {
      var n := FloorBucket(p, bins, w);
      assert !BucketIndex(p, bins, w).None?;
    }
  }

  lemma AssignedPriceInRange(p: real, bins: nat, w: real)
    requires w > 0.0 && BucketIndex(p, bins, w).Some?
    ensures w <= p < ((bins + 1) as real) * w
  {
    var n := BucketIndex(p, bins, w).value;
    assert InBucket(p, n, w);
    MulMonotone(1.0, n as real, w);
    assert w <= BucketLower(n, w) <= p;
    MulMonotone((n + 1) as real, (bins + 1) as real, w);
    assert p < BucketUpper(n, w) <= ((bins + 1) as real) * w;
  }

  /** The bucket that holds a price in the covered range: the floor of `p / w`. */
  lemma FloorBucket(p: real, bins: nat, w: real) returns (n: nat)
    requires w > 0.0 && w <= p < ((bins + 1) as real) * w
    ensures 1 <= n <= bins && InBucket(p, n, w)
  {
    var q := p / w;
    assert q * w == p;
    assert 1.0 <= q by {
      if q < 1.0 { MulMonotone(q, 1.0, w); }
    }
    assert q < (bins + 1) as real by {
      if q >= (bins + 1) as real { MulMonotone((bins + 1) as real, q, w); }
    }
    n := q.Floor;
    MulMonotone(n as real, q, w);
    assert ((n + 1) as real) * w - q * w == (((n + 1) as real) - q) * w;
    assert (((n + 1) as real) - q) * w > 0.0;
  }

  // ---------------------------------------------------------------------------
  // The histogram as a fold over the slice
  // ---------------------------------------------------------------------------

  /** One iteration of the outer loop: the sample `(p, v)` updates the record of
      its bucket (creating it on first hit) and nothing else. */
  function AddSample(h: Histogram, p: real, v: real, bins: nat, w: real): (r: Histogram)
    ensures BucketIndex(p, bins, w).None? ==> r == h
    ensures forall k :: k in h ==> k in r
    ensures forall k :: k in r && Some(k) != BucketIndex(p, bins, w) ==> k in h && r[k] == h[k]
    ensures BucketIndex(p, bins, w).Some? ==>
      var n := BucketIndex(p, bins, w).value;
      n in r && r[n] == MakeBucket(n, w, (if n in h then h[n].volume else 0.0) + v)
  {
    match BucketIndex(p, bins, w)
    case None => h
    case Some(n) =>
      var total := if n in h then h[n].volume + v else v;
      h[n := MakeBucket(n, w, total)]
  }

  /** The histogram `compute_histogram` returns for a slice: samples are
      processed in slice order. */
  function HistogramOf(close: seq<real>, volume: seq<real>, bins: nat, w: real): (r: Histogram)
    requires |close| == |volume|
    ensures forall n :: n in r ==> 1 <= n <= bins && r[n] == MakeBucket(n, w, r[n].volume)
    decreases |close|
  {
    if |close| == 0 then map[]
    else
      var k := |close| - 1;
      AddSample(HistogramOf(close[..k], volume[..k], bins, w), close[k], volume[k], bins, w)
  }

  /** Some sample of the slice is assigned to bucket `n`. */
  ghost predicate AssignedTo(close: seq<real>, bins: nat, w: real, n: nat) {
    exists i :: 0 <= i < |close| && BucketIndex(close[i], bins, w) == Some(n)
  }

  /** The total volume of the samples assigned to bucket `n`. */
  function AssignedVolume(close: seq<real>, volume: seq<real>, bins: nat, w: real, n: nat): real
    requires |close| == |volume|
    decreases |close|
  {
    if |close| == 0 then 0.0
    else
      var k := |close| - 1;
      AssignedVolume(close[..k], volume[..k], bins, w, n)
        + (if BucketIndex(close[k], bins, w) == Some(n) then volume[k] else 0.0)
  }

  /** The total volume of the samples assigned to any bucket. */
  function AssignedTotal(close: seq<real>, volume: seq<real>, bins: nat, w: real): real
    requires |close| == |volume|
    decreases |close|
  {
    if |close| == 0 then 0.0
    else
      var k := |close| - 1;
      AssignedTotal(close[..k], volume[..k], bins, w)
        + (if BucketIndex(close[k], bins, w).Some? then volume[k] else 0.0)
  }

  /** The total volume of a slice. */
  function SumOf(volume: seq<real>): real
    decreases |volume|
  {
    if |volume| == 0 then 0.0 else SumOf(volume[..|volume| - 1]) + volume[|volume| - 1]
  }

  /** Accumulation: bucket `n` is present exactly when some sample is assigned
      to it, and then its record holds its bounds, its middle and the summed
      volume of those samples. */
  lemma {:induction false} HistogramEntry(close: seq<real>, volume: seq<real>, bins: nat, w: real, n: nat)
    requires |close| == |volume|
    ensures n in HistogramOf(close, volume, bins, w) <==> AssignedTo(close, bins, w, n)
    ensures n in HistogramOf(close, volume, bins, w) ==>
              HistogramOf(close, volume, bins, w)[n] == MakeBucket(n, w, AssignedVolume(close, volume, bins, w, n))
    ensures n !in HistogramOf(close, volume, bins, w) ==> AssignedVolume(close, volume, bins, w, n) == 0.0
    decreases |close|
  {
    if |close| > 0 {
      var k := |close| - 1;
      var c', v' := close[..k], volume[..k];
      HistogramEntry(c', v', bins, w, n);
      var h' := HistogramOf(c', v', bins, w);
      if AssignedTo(c', bins, w, n) {
        var i :| 0 <= i < |c'| && BucketIndex(c'[i], bins, w) == Some(n);
        assert close[i] == c'[i];
      }
      if BucketIndex(close[k], bins, w) != Some(n) && AssignedTo(close, bins, w, n) {
        var i :| 0 <= i < |close| && BucketIndex(close[i], bins, w) == Some(n);
        assert i < k && c'[i] == close[i];
      }
    }
  }

  /** Removing a present key shrinks a map by one. */
  lemma RemoveKeySize(h: Histogram, k: nat)
    requires k in h
    ensures |h - {k}| == |h| - 1
  {
    assert (h - {k}).Keys == h.Keys - {k};
  }

  /** The largest key of a non-empty key set exists. */
  lemma {:induction false} MaxKeyExists(keys: set<nat>)
    requires keys != {}
    ensures exists k :: k in keys && forall j :: j in keys ==> j <= k
    decreases keys
  {
    var x :| x in keys;
    if keys != {x} {
      var rest := keys - {x};
      MaxKeyExists(rest);
      var m :| m in rest && forall j :: j in rest ==> j <= m;
      assert keys == rest + {x};
      if x <= m {
        assert m in keys && forall j :: j in keys ==> j <= m;
      } else {
        assert x in keys && forall j :: j in keys ==> j <= x;
      }
    } else {
      assert forall j :: j in keys ==> j <= x;
    }
  }

  /** The largest key, which fixes a deterministic order for folds over a map. */
  function MaxKey(keys: set<nat>): (k: nat)
    requires keys != {}
    ensures k in keys && forall j :: j in keys ==> j <= k
  {
    MaxKeyExists(keys);
    var k :| k in keys && forall j :: j in keys ==> j <= k; k
  }

  /** The sum of the volume fields over all entries of a histogram. */
  ghost function MapVolume(h: Histogram): real
    decreases |h|
  {
    if h.Keys == {} then 0.0
    else
      var k := MaxKey(h.Keys);
      RemoveKeySize(h, k);
      h[k].volume + MapVolume(h - {k})
  }

  /** The sum over entries does not depend on which entry is taken first. */
  lemma {:induction false} MapVolumeAnyKey(h: Histogram, k: nat)
    requires k in h
    ensures MapVolume(h) == h[k].volume + MapVolume(h - {k})
    decreases |h|
  {
    var m := MaxKey(h.Keys);
    if k != m {
      var h1, h2 := h - {m}, h - {k};
      RemoveKeySize(h, m);
      RemoveKeySize(h, k);
      MapVolumeAnyKey(h1, k);
      MapVolumeAnyKey(h2, m);
      assert h1 - {k} == h2 - {m};
    }
  }

  /** Conservation: the bucket volumes add up to the volume of the samples
      that were assigned to a bucket. */
  lemma {:induction false} Conservation(close: seq<real>, volume: seq<real>, bins: nat, w: real)
    requires |close| == |volume|
    ensures MapVolume(HistogramOf(close, volume, bins, w)) == AssignedTotal(close, volume, bins, w)
    decreases |close|
  {
    if |close| > 0 {
      var k := |close| - 1;
      var c', v' := close[..k], volume[..k];
      Conservation(c', v', bins, w);
      var h', h := HistogramOf(c', v', bins, w), HistogramOf(close, volume, bins, w);
      match BucketIndex(close[k], bins, w)
      case None =>
      case Some(n) =>
        assert n in h;
        MapVolumeAnyKey(h, n);
        assert h - {n} == h' - {n};
        if n in h' {
          MapVolumeAnyKey(h', n);
        } else {
          assert h' - {n} == h';
        }
    }
  }

  /** When every price of the slice falls into some bucket, no volume is lost:
      the assigned total is the whole slice's volume. */
  lemma {:induction false} CoveredSliceConservesAll(close: seq<real>, volume: seq<real>, bins: nat, w: real)
    requires |close| == |volume|
    requires forall i :: 0 <= i < |close| ==> BucketIndex(close[i], bins, w).Some?
    ensures MapVolume(HistogramOf(close, volume, bins, w)) == SumOf(volume)
    decreases |close|
  {
    Conservation(close, volume, bins, w);
    AllAssignedTotal(close, volume, bins, w);
  }

  lemma {:induction false} AllAssignedTotal(close: seq<real>, volume: seq<real>, bins: nat, w: real)
    requires |close| == |volume|
    requires forall i :: 0 <= i < |close| ==> BucketIndex(close[i], bins, w).Some?
    ensures AssignedTotal(close, volume, bins, w) == SumOf(volume)
    decreases |close|
  {
    if |close| > 0 {
      var k := |close| - 1;
      assert forall i :: 0 <= i < k ==> close[..k][i] == close[i];
      AllAssignedTotal(close[..k], volume[..k], bins, w);
    }
  }

  // ---------------------------------------------------------------------------
  // The imperative builder
  // ---------------------------------------------------------------------------

  /** `compute_histogram`: nested loops over the samples and the buckets, with
      the map updated in place (remove, then insert) and a `break` once the
      sample's bucket is found. */
  method ComputeHistogram(closeSlice: seq<real>, volumeSlice: seq<real>, bins: nat, binWidth: real)
    returns (volumeProfile: Histogram)
    requires |closeSlice| == |volumeSlice|
    ensures volumeProfile == HistogramOf(closeSlice, volumeSlice, bins, binWidth)
  {
    volumeProfile := map[];
    for i := 0 to |closeSlice|
      invariant volumeProfile == HistogramOf(closeSlice[..i], volumeSlice[..i], bins, binWidth)
    {
      ghost var before: Histogram := volumeProfile;
      assert closeSlice[..i + 1][..i] == closeSlice[..i];
      assert volumeSlice[..i + 1][..i] == volumeSlice[..i];
      for n := 1 to bins + 1
        invariant volumeProfile == before
        invariant forall m :: 1 <= m < n ==> !InBucket(closeSlice[i], m, binWidth)
      {
        var lower := BucketLower(n, binWidth);
        var upper := BucketUpper(n, binWidth);
        var middle := (lower + upper) / 2.0;
        assert InBucket(closeSlice[i], n, binWidth) <==> lower <= closeSlice[i] < upper;
        if lower <= closeSlice[i] && closeSlice[i] < upper {
          AssignmentIsUnique(closeSlice[i], bins, binWidth, n);
          if n in volumeProfile {
            var existingBin := volumeProfile[n];
            volumeProfile := volumeProfile - {n};
            volumeProfile := volumeProfile[n := Bucket(lower, upper, middle, existingBin.volume + volumeSlice[i])];
            assert volumeProfile == (before - {n})[n := MakeBucket(n, binWidth, before[n].volume + volumeSlice[i])];
            assert volumeProfile == before[n := MakeBucket(n, binWidth, before[n].volume + volumeSlice[i])];
            break;
          } else {
            volumeProfile := volumeProfile[n := Bucket(lower, upper, middle, volumeSlice[i])];
            break;
          }
        }
      }
      assert volumeProfile == AddSample(before, closeSlice[i], volumeSlice[i], bins, binWidth);
    }
    assert closeSlice[..|closeSlice|] == closeSlice;
    assert volumeSlice[..|volumeSlice|] == volumeSlice;
  }
}
