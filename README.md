# Volume profile — a Dafny model

This project models the core of a volume-profile indicator: `compute_volume_profile`,
`compute_histogram` and `compute_point_of_control` in `src/_volume_profile.rs`. The indicator
takes a series of close prices and traded volumes, a bucket count `bins` and a window length
`window`. It does four things:

- It validates `bins` and `window`, which arrive as floats, and checks that the two series
  have the same length.
- It computes one bucket width for the whole series from a running minimum and maximum.
- For every position `i` it builds a histogram of the `window` samples before `i`. Each sample
  goes into the first bucket `n` in `1..=bins` with `n*w <= price < (n+1)*w`, and its volume is
  added to that bucket's record `[lower, upper, middle, volume]`.
- It reports the histogram's *point of control*.

Prices and volumes are `real` (exact arithmetic). A histogram is a `map<nat, Bucket>` keyed by
bucket index.

Modules, one per component, in `wrappers.dfy`, `numeric.dfy`, `histogram.dfy`,
`point_of_control.dfy` and `volume_profile.dfy`:

- `HistogramBuilder` holds the bucket geometry and the assignment of a price to a bucket. It
  also holds the specification function `HistogramOf` (a fold over the slice, in slice order)
  and the imperative `ComputeHistogram`. That method's nested loops update the map in place:
  remove, insert, `break`. It is proved equal to `HistogramOf`. Lemmas give unique assignment,
  accumulation and conservation of volume.
- `ControlPoint` holds the deterministic specification `PointOfControl` and the running-max
  loop `ComputePointOfControl`. The loop visits the keys in an arbitrary order, as a `HashMap`
  does, and is proved to return `PointOfControl` whatever the order.
- `VolumeProfile` holds the guard chain `ValidateArguments` and the accumulators `RangeMin` /
  `RangeMax`. It also holds `BinWidth`, the pure window scan `ScanWindows` (the parallel
  `map(|i| ...)`/`collect`, taken in index order) and the entry point `ComputeVolumeProfile`.
  The entry point runs the min/max loop itself and is proved against these functions.

The model follows the code, including where its comments suggest otherwise (line 84 says
"maximum frequency"):

- The min/max accumulators start at `0.0`, so the price range always includes 0.
  `RangeMin` is `min(0, min close)` and `RangeMax` is `max(0, max close)`.
- Buckets start at `1*w`, not at the minimum price. With `w > 0` a sample is assigned exactly
  when `w <= price < (bins+1)*w` (`CoveredPrices`). Other prices are dropped. So is every
  price when `w == 0` (`NonPositiveWidthAssignsNothing`). The last bucket is half-open like
  the others.
- So the "bucket volumes sum to the window's volume" property holds only for the volume of
  assigned samples (`Conservation`). The whole window's volume is reached only when every
  price is covered (`CoveredSliceConservesAll`).
- `compute_point_of_control` reads field `[2]` of each record, the *middle*, and not the
  volume. So the point of control is the largest middle among the populated buckets, floored
  at `0.0`. It is `0.0` for an empty histogram, and it does not depend on key order.
- `window == close.len()` is accepted, although the error message says "less than"; every
  position is then undefined.
- The second length guard (`window > volume.len()`) can never fire once the lengths are
  equal (`ValidateArguments` proves it never returns `WindowExceedsVolume`).

## Model

| member | source | states |
|---|---|---|
| `VolumeProfile.ValidateArguments` | src/_volume_profile.rs:15-51 | Succeeds exactly when bins and window are positive whole numbers, the lengths agree and window <= len; otherwise returns the first failing guard's error, in source order; the parameters returned equal the inputs; the `window > volume.len()` error never occurs |
| `VolumeProfile.RangeMin` | src/_volume_profile.rs:54-59 | The close_min accumulator is <= 0, <= every price, and is 0 or one of the prices (min of 0 and the series) |
| `VolumeProfile.RangeMax` | src/_volume_profile.rs:54-59 | The close_max accumulator is >= 0, >= every price, and is 0 or one of the prices (max of 0 and the series) |
| `VolumeProfile.BinWidth` | src/_volume_profile.rs:54-60 | The bucket width is never negative, and is zero exactly when every price is zero |
| `VolumeProfile.WindowAt` | src/_volume_profile.rs:65-78 | Both cells are None iff i < window; when defined, the point of control is that of the histogram |
| `VolumeProfile.ScanWindows` | src/_volume_profile.rs:63-79 | Both outputs have length len; entry i of each is None iff i < window; for i >= window the histogram is that of close[i-window..i], volume[i-window..i] (index i excluded) and the point of control is that histogram's |
| `VolumeProfile.ComputeVolumeProfile` | src/_volume_profile.rs:9-81 | Returns the validation error when there is one; otherwise the window scan with the bucket width derived from the min/max loop over the whole series |
| `VolumeProfile.WindowPointOfControl` | src/_volume_profile.rs:83-91 | A window's point of control is >= 0, at least the middle of every bucket some sample is assigned to, and either 0 or the middle of such a bucket |
| `VolumeProfile.TenPricesExample` | src/_volume_profile.rs:54-91 | For prices 1..10 with volume 10 each, 2 buckets and a window of 5, the width is 5 (the range includes 0) and position 5 holds only bucket 1 = [5, 10, 7.5, 10] with point of control 7.5 |
| `VolumeProfile.FlatSeriesProfile` | src/_volume_profile.rs:54-79 | When every price is 0 the width is 0, so every defined histogram is empty and every defined point of control is 0 |
| `HistogramBuilder.FirstBucketFrom` | src/_volume_profile.rs:101-135 | The inner loop from bucket `from` breaks at a bucket holding the price with no earlier one holding it, or ends with no bucket up to bins holding it |
| `HistogramBuilder.BucketIndex` | src/_volume_profile.rs:101-135 | A sample's bucket, if any, is in 1..=bins and holds its price; none means no bucket in 1..=bins holds it |
| `HistogramBuilder.InBucketUnique` | src/_volume_profile.rs:101-115 | Two buckets of one width never both hold a price |
| `HistogramBuilder.AssignmentIsUnique` | src/_volume_profile.rs:100-136 | A sample is assigned to bucket n iff n is in 1..=bins and n*w <= p < (n+1)*w |
| `HistogramBuilder.NonPositiveWidthAssignsNothing` | src/_volume_profile.rs:101-115 | With width <= 0 no sample is assigned to any bucket |
| `HistogramBuilder.CoveredPrices` | src/_volume_profile.rs:101-115 | With width w > 0 a price is assigned iff w <= p < (bins+1)*w; prices outside are dropped |
| `HistogramBuilder.AddSample` | src/_volume_profile.rs:115-134 | Processing a sample removes no key, leaves every key other than its bucket unchanged, and changes nothing when it has no bucket; when it has bucket n, the record of n carries n's bounds and middle and its previous volume (0 if absent) plus the sample's volume |
| `HistogramBuilder.HistogramOf` | src/_volume_profile.rs:99-138 | Every key is a bucket index in 1..=bins and its record carries that bucket's lower, upper and middle |
| `HistogramBuilder.HistogramEntry` | src/_volume_profile.rs:115-134 | Bucket n is present iff some sample is assigned to it; its record is [n*w, (n+1)*w, middle, sum of the assigned samples' volumes]; an absent bucket has no assigned volume |
| `HistogramBuilder.MapVolumeAnyKey` | src/_volume_profile.rs:99 | The sum of volumes over the map's entries does not depend on which entry is taken first |
| `HistogramBuilder.Conservation` | src/_volume_profile.rs:115-134 | The volumes of all entries add up to the total volume of the samples assigned to a bucket |
| `HistogramBuilder.CoveredSliceConservesAll` | src/_volume_profile.rs:100-134 | When every price of the slice is assigned, the entries' volumes add up to the slice's whole volume |
| `HistogramBuilder.ComputeHistogram` | src/_volume_profile.rs:93-139 | The nested loops with remove/insert/break build exactly HistogramOf of the slice |
| `ControlPoint.PointOfControl` | src/_volume_profile.rs:83-91 | The result is >= 0, >= every entry's middle (field [2]), and is 0 or some entry's middle; 0 for the empty map |
| `ControlPoint.PointOfControlUnique` | src/_volume_profile.rs:85-90 | Any value with those three properties is the point of control |
| `ControlPoint.PointOfControlAnyKey` | src/_volume_profile.rs:86-89 | Whichever key is visited first, the result is the max of its middle and the point of control of the rest |
| `ControlPoint.ComputePointOfControl` | src/_volume_profile.rs:83-91 | The running-max loop over keys in arbitrary order returns PointOfControl of the map |

## Left out

- `src/lib.rs` is not part of this model. It is the Python module registration, with no logic.
- The Python binding types (`PyResult`, `PyValueError`) are left out. Errors are an `ArgError`
  tag carrying the reported numbers instead of a message string.
- rayon's parallel iteration is left out. Every position depends only on read-only inputs, so
  the scan is a sequential map over `0..len` in index order.
- IEEE-754 rounding, NaN and infinities are left out. Prices and volumes are exact reals, so
  `f64::min`/`max` NaN handling and the `fract()` of a NaN or an infinity are not modelled.
  `fract() != 0.0` becomes the `IsWhole` predicate.
- ValidateArguments: the `as usize` casts are taken as exact. The saturation of a value above
  `usize::MAX` is not modelled.
- The interval labels formatted at lines 106-113 are left out. The label is cosmetic, because
  the membership test is the same for every bucket, and buckets are keyed by index.
- The `expect` panic paths are left out. `compute_histogram` always returns `Ok`, and every
  `expect` is unreachable. The builder's precondition that the two slices have equal length
  is always met by the scanner's slicing.
- The four-element `Vec<f64>` record is modelled as a `Bucket` datatype with named fields.
  Field `[2]` is `middle` and field `[3]` (`last()`) is `volume`.
