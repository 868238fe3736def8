/** The window scanner and entry point: `compute_volume_profile` in
    src/_volume_profile.rs. It validates its arguments, computes one bucket width
    for the whole series and, for every position `i`, the histogram of the
    trailing slice `[i - window, i)` and its point of control. */
module VolumeProfile {
  import opened Wrappers
  import opened Numeric
  import opened HistogramBuilder
  import opened ControlPoint

  /** The argument errors the source raises, in the order it checks them. */
  datatype ArgError =
    | BinsNotInteger
    | BinsNotPositive
    | WindowNotInteger
    | WindowNotPositive
    | LengthMismatch(closeLen: nat, volumeLen: nat)
    | WindowExceedsClose(window: nat, closeLen: nat)
      /** The guard on `volume.len()`; its message reports `close.len()`. */
    | WindowExceedsVolume(window: nat, closeLen: nat)

  /** `bins` and `window` after the `as usize` casts. */
  datatype Params = Params(bins: nat, window: nat)

  /** Per position: the point of control and the histogram, both None while
      there is not a full window of history. */
  datatype Profile = Profile(pointOfControl: seq<Option<real>>, histograms: seq<Option<Histogram>>)

  predicate BinsValid(bins: real) {
    IsWhole(bins) && bins > 0.0
  }

  predicate WindowValid(window: real) {
    IsWhole(window) && window > 0.0
  }

  // ---------------------------------------------------------------------------
  // Validation
  // ---------------------------------------------------------------------------

  /** The chain of early-return guards at the top of `compute_volume_profile`. */
  function ValidateArguments(bins: real, window: real, closeLen: nat, volumeLen: nat): (r: Result<Params, ArgError>)
    ensures r.Ok? <==>
      BinsValid(bins) && WindowValid(window) && closeLen == volumeLen && window <= closeLen as real
    ensures r.Ok? ==>
      r.value.bins >= 1 && r.value.bins as real == bins && r.value.window >= 1 && r.value.window as real == window
    ensures r == Err(BinsNotInteger) <==> !IsWhole(bins)
    ensures r == Err(BinsNotPositive) <==> IsWhole(bins) && bins <= 0.0
    ensures r == Err(WindowNotInteger) <==> BinsValid(bins) && !IsWhole(window)
    ensures r == Err(WindowNotPositive) <==> BinsValid(bins) && IsWhole(window) && window <= 0.0
    ensures r == Err(LengthMismatch(closeLen, volumeLen)) <==>
      BinsValid(bins) && WindowValid(window) && closeLen != volumeLen
    ensures (r.Err? && r.error.WindowExceedsClose?) <==>
      BinsValid(bins) && WindowValid(window) && closeLen == volumeLen && window > closeLen as real
    ensures r.Err? && r.error.WindowExceedsClose? ==> r.error == WindowExceedsClose(window.Floor, closeLen)
    ensures !(r.Err? && r.error.WindowExceedsVolume?)
  {
    if !IsWhole(bins) then Err(BinsNotInteger)
    else if bins <= 0.0 then Err(BinsNotPositive)
    else if !IsWhole(window) then Err(WindowNotInteger)
    else if window <= 0.0 then Err(WindowNotPositive)
    else
      var b: nat := bins.Floor;
      var n: nat := window.Floor;
      if closeLen != volumeLen then Err(LengthMismatch(closeLen, volumeLen))
      else if n > closeLen then Err(WindowExceedsClose(n, closeLen))
      else if n > volumeLen then Err(WindowExceedsVolume(n, closeLen))
      else Ok(Params(b, n))
  }

  // ---------------------------------------------------------------------------
  // Price range and bucket width
  // ---------------------------------------------------------------------------

  /** The `close_min` accumulator: the smallest price, or `0.0` when every
      price is positive, since the accumulator starts at `0.0`. */
  function RangeMin(s: seq<real>): (m: real)
    ensures m <= 0.0
    ensures forall i :: 0 <= i < |s| ==> m <= s[i]
    ensures m == 0.0 || exists i :: 0 <= i < |s| && s[i] == m
    decreases |s|
  {
    if |s| == 0 then 0.0
    else
      var k := |s| - 1;
      assert forall i :: 0 <= i < k ==> s[..k][i] == s[i];
      Min(RangeMin(s[..k]), s[k])
  }

  /** The `close_max` accumulator: the largest price, or `0.0` when every
      price is negative. */
  function RangeMax(s: seq<real>): (m: real)
    ensures m >= 0.0
    ensures forall i :: 0 <= i < |s| ==> s[i] <= m
    ensures m == 0.0 || exists i :: 0 <= i < |s| && s[i] == m
    decreases |s|
  {
    if |s| == 0 then 0.0
    else
      var k := |s| - 1;
      assert forall i :: 0 <= i < k ==> s[..k][i] == s[i];
      Max(RangeMax(s[..k]), s[k])
  }

  /** The one bucket width used for every window. It is never negative, and it
      is zero exactly when every price is zero. */
  function BinWidth(close: seq<real>, bins: nat): (w: real)
    requires bins >= 1
    ensures w >= 0.0
    ensures w == 0.0 <==> forall i :: 0 <= i < |close| ==> close[i] == 0.0
  {
    var lo, hi := RangeMin(close), RangeMax(close);
    var w := (hi - lo) / (bins as real);
    assert w * (bins as real) == hi - lo;
    assert w == 0.0 ==> hi == lo;
    w
  }

  // ---------------------------------------------------------------------------
  // The window scanner
  // ---------------------------------------------------------------------------

  /** The closure the source maps over `0..close.len()`: position `i` gets the
      histogram of the `window` samples before it, excluding `i` itself. */
  function WindowAt(close: seq<real>, volume: seq<real>, p: Params, w: real, i: nat): (cell: (Option<real>, Option<Histogram>))
    requires |close| == |volume| && i < |close|
    ensures (cell.0.None? <==> i < p.window) && (cell.1.None? <==> i < p.window)
    ensures cell.1.Some? ==> cell.0 == Some(PointOfControl(cell.1.value))
  {
    if i >= p.window then
      var histogram := HistogramOf(close[i - p.window..i], volume[i - p.window..i], p.bins, w);
      (Some(PointOfControl(histogram)), Some(histogram))
    else
      (None, None)
  }

  /** The per-position map and the collect into two aligned sequences. */
  function ScanWindows(close: seq<real>, volume: seq<real>, p: Params, w: real): (r: Profile)
    requires |close| == |volume|
    ensures |r.pointOfControl| == |close| && |r.histograms| == |close|
    ensures forall i :: 0 <= i < |close| ==>
      (r.pointOfControl[i].None? <==> i < p.window) && (r.histograms[i].None? <==> i < p.window)
    ensures forall i :: p.window <= i < |close| ==>
      r.histograms[i] == Some(HistogramOf(close[i - p.window..i], volume[i - p.window..i], p.bins, w))
    ensures forall i :: p.window <= i < |close| ==>
      r.pointOfControl[i] == Some(PointOfControl(r.histograms[i].value))
  {
    var n := |close|;
    var cells := seq(n, i requires 0 <= i < n => WindowAt(close, volume, p, w, i));
    Profile(seq(n, i requires 0 <= i < n => cells[i].0), seq(n, i requires 0 <= i < n => cells[i].1))
  }

  /** `compute_volume_profile`: validation, the min/max accumulator loop over
      the whole series, one bucket width, then the window scan. */
  method ComputeVolumeProfile(close: seq<real>, volume: seq<real>, bins: real, window: real)
    returns (r: Result<Profile, ArgError>)
    ensures match ValidateArguments(bins, window, |close|, |volume|)
      case Err(e) => r == Err(e)
      case Ok(p) => r == Ok(ScanWindows(close, volume, p, BinWidth(close, p.bins)))
  {
    var checked := ValidateArguments(bins, window, |close|, |volume|);
    if checked.Err? {
      return Err(checked.error);
    }
    var p := checked.value;

    var closeMin := 0.0;
    var closeMax := 0.0;
    for j := 0 to |close|
      invariant closeMin == RangeMin(close[..j])
      invariant closeMax == RangeMax(close[..j])
    {
      assert close[..j + 1][..j] == close[..j];
      closeMin := Min(closeMin, close[j]);
      closeMax := Max(closeMax, close[j]);
    }
    assert close[..|close|] == close;
    var binWidth := (closeMax - closeMin) / (p.bins as real);

    r := Ok(ScanWindows(close, volume, p, binWidth));
  }

  // ---------------------------------------------------------------------------
  // Properties of the profile
  // ---------------------------------------------------------------------------

  /** The point of control of a window, stated in terms of its samples: it is
      at least the middle of every bucket a sample is assigned to, and it is
      either `0.0` or the middle of one such bucket. */
  lemma {:induction false} WindowPointOfControl(close: seq<real>, volume: seq<real>, bins: nat, w: real)
    requires |close| == |volume|
    ensures PointOfControl(HistogramOf(close, volume, bins, w)) >= 0.0
    ensures forall i :: 0 <= i < |close| && BucketIndex(close[i], bins, w).Some? ==>
      BucketMiddle(BucketIndex(close[i], bins, w).value, w) <= PointOfControl(HistogramOf(close, volume, bins, w))
    ensures PointOfControl(HistogramOf(close, volume, bins, w)) == 0.0 ||
      exists i :: 0 <= i < |close| && BucketIndex(close[i], bins, w).Some? &&
        BucketMiddle(BucketIndex(close[i], bins, w).value, w) == PointOfControl(HistogramOf(close, volume, bins, w))
  {
    var h := HistogramOf(close, volume, bins, w);
    var r := PointOfControl(h);
    forall i | 0 <= i < |close| && BucketIndex(close[i], bins, w).Some?
      ensures BucketMiddle(BucketIndex(close[i], bins, w).value, w) <= r
    {
      var n := BucketIndex(close[i], bins, w).value;
      HistogramEntry(close, volume, bins, w, n);
    }
    if r != 0.0 {
      var n :| n in h && h[n].middle == r;
      HistogramEntry(close, volume, bins, w, n);
      var i :| 0 <= i < |close| && BucketIndex(close[i], bins, w) == Some(n);
      assert BucketMiddle(BucketIndex(close[i], bins, w).value, w) == r;
    }
  }

  /** A series whose prices are all zero has bucket width zero, so every
      defined position holds an empty histogram and a point of control of `0.0`. */
  lemma {:induction false} FlatSeriesProfile(close: seq<real>, volume: seq<real>, p: Params)
    requires |close| == |volume| && p.bins >= 1
    requires forall i :: 0 <= i < |close| ==> close[i] == 0.0
    ensures forall i :: p.window <= i < |close| ==>
      ScanWindows(close, volume, p, BinWidth(close, p.bins)).histograms[i] == Some(map[]) &&
      ScanWindows(close, volume, p, BinWidth(close, p.bins)).pointOfControl[i] == Some(0.0)
  {
    var w := BinWidth(close, p.bins);
    assert w == 0.0;
    var r := ScanWindows(close, volume, p, w);
    forall i | p.window <= i < |close|
      ensures r.histograms[i] == Some(map[]) && r.pointOfControl[i] == Some(0.0)
    {
      var c, v := close[i - p.window..i], volume[i - p.window..i];
      var h := HistogramOf(c, v, p.bins, w);
      forall n | n in h ensures false {
        HistogramEntry(c, v, p.bins, w, n);
        var j :| 0 <= j < |c| && BucketIndex(c[j], p.bins, w) == Some(n);
        NonPositiveWidthAssignsNothing(c[j], p.bins, w);
      }
      assert h == map[];
    }
  }

  /** Prices 1..10 with volume 10 each, two buckets, a window of five. The
      accumulators start at 0, so the width is (10 - 0) / 2 = 5; at position 5
      the window holds the prices 1..5 and only the price 5 reaches bucket 1. */
  lemma TenPricesExample()
    ensures var close := [1.0, 2.0, 3.0, 4.0, 5.0, 6.0, 7.0, 8.0, 9.0, 10.0];
            var volume := seq(10, _ => 10.0);
            var r := ScanWindows(close, volume, Params(2, 5), BinWidth(close, 2));
            && BinWidth(close, 2) == 5.0
            && r.histograms[5] == Some(map[1 := Bucket(5.0, 10.0, 7.5, 10.0)])
            && r.pointOfControl[5] == Some(7.5)
  {
    var close := [1.0, 2.0, 3.0, 4.0, 5.0, 6.0, 7.0, 8.0, 9.0, 10.0];
    var volume := seq(10, _ => 10.0);
    ExampleWidth(close);
    assert close[0..5] == [1.0, 2.0, 3.0, 4.0, 5.0];
    assert volume[0..5] == seq(5, _ => 10.0);
    ExampleWindow();
  }

  lemma ExampleWidth(close: seq<real>)
    requires close == [1.0, 2.0, 3.0, 4.0, 5.0, 6.0, 7.0, 8.0, 9.0, 10.0]
    ensures BinWidth(close, 2) == 5.0
  {
    assert forall i :: 0 <= i < |close| ==> 1.0 <= close[i] <= 10.0;
    assert RangeMin(close) == 0.0;
    assert RangeMax(close) == 10.0;
  }

  lemma ExampleWindow()
    ensures HistogramOf([1.0, 2.0, 3.0, 4.0, 5.0], seq(5, _ => 10.0), 2, 5.0) == map[1 := Bucket(5.0, 10.0, 7.5, 10.0)]
  {
    var c, v, w := [1.0, 2.0, 3.0, 4.0, 5.0], seq(5, _ => 10.0), 5.0;
    forall j | 0 <= j < 4 ensures BucketIndex(c[j], 2, w) == None {
      AssignmentIsUnique(c[j], 2, w, 1);
      AssignmentIsUnique(c[j], 2, w, 2);
    }
    AssignmentIsUnique(5.0, 2, w, 1);
    var h := HistogramOf(c, v, 2, w);
    forall n: nat ensures n in h <==> n == 1 {
      HistogramEntry(c, v, 2, w, n);
      if n in h {
        var j :| 0 <= j < |c| && BucketIndex(c[j], 2, w) == Some(n);
      }
      assert BucketIndex(c[4], 2, w) == Some(1);
    }
    var c4, v4 := c[..4], v[..4];
    assert forall j :: 0 <= j < 4 ==> c4[j] == c[j];
    HistogramEntry(c4, v4, 2, w, 1);
    assert AssignedVolume(c4, v4, 2, w, 1) == 0.0;
    HistogramEntry(c, v, 2, w, 1);
    assert AssignedVolume(c, v, 2, w, 1) == 10.0;
  }
}
