/** The yield curve: a table of (maturity, rate) knots answering rate queries
    by piecewise-linear interpolation with flat extrapolation at both ends.
    Floating-point numbers are modelled as `real`, so the interpolation
    formula (only + - * /) is exact. */
module YieldCurves {

  /** The error the constructor reports; the source returns it as a static string. */
  const MismatchedLengths: string := "Maturities and rates must have the same length"

  datatype Result<T> = Ok(value: T) | Err(message: string)

  /** The two parallel tables; `maturities[k]` is the knot whose rate is `rates[k]`. */
  datatype YieldCurve = YieldCurve(maturities: seq<real>, rates: seq<real>)

  /** The outcome of a binary search, as in Rust's `binary_search_by`:
      the index of a matching element, or the index where the key would be inserted. */
  datatype SearchResult = Found(index: nat) | NotFound(insertAt: nat)

  predicate StrictlyIncreasing(s: seq<real>) {
    forall i, j :: 0 <= i < j < |s| ==> s[i] < s[j]
  }

  /** What a lookup needs: parallel tables (checked by `New`), at least one
      knot (an empty curve makes the lookup index `rates[0]` and panic), and
      strictly increasing maturities (assumed by the binary search, never checked). */
  predicate WellFormed(c: YieldCurve) {
    |c.maturities| == |c.rates| && |c.maturities| >= 1 && StrictlyIncreasing(c.maturities)
  }

  /** Construction: fails exactly when the lengths differ, otherwise stores both tables unchanged. */
  function New(maturities: seq<real>, rates: seq<real>): (r: Result<YieldCurve>)
    ensures r.Err? <==> |maturities| != |rates|
    ensures r.Err? ==> r.message == MismatchedLengths
    ensures r.Ok? ==> r.value.maturities == maturities && r.value.rates == rates
  {
    if |maturities| != |rates| then Err(MismatchedLengths)
    else Ok(YieldCurve(maturities, rates))
  }

  /** Binary search of `key` in `s[lo..hi]`, knowing that everything left of `lo`
      is below the key and everything from `hi` on is above it. */
  function BinarySearch(s: seq<real>, key: real, lo: nat, hi: nat): (r: SearchResult)
    requires StrictlyIncreasing(s)
    requires lo <= hi <= |s|
    requires forall j :: 0 <= j < lo ==> s[j] < key
    requires forall j :: hi <= j < |s| ==> key < s[j]
    ensures r.Found? ==> lo <= r.index < hi && s[r.index] == key
    ensures r.NotFound? ==> lo <= r.insertAt <= hi
    ensures r.NotFound? ==> forall j :: 0 <= j < r.insertAt ==> s[j] < key
    ensures r.NotFound? ==> forall j :: r.insertAt <= j < |s| ==> key < s[j]
    decreases hi - lo
  {
    if lo == hi then NotFound(lo)
    else
      var mid := lo + (hi - lo) / 2;
      if s[mid] < key then BinarySearch(s, key, mid + 1, hi)
      else if key < s[mid] then BinarySearch(s, key, lo, mid)
      else Found(mid)
  }

  /** Search of the whole sorted table. */
  function Search(s: seq<real>, key: real): (r: SearchResult)
    requires StrictlyIncreasing(s)
    ensures r.Found? <==> key in s
    ensures r.Found? ==> r.index < |s| && s[r.index] == key
    ensures r.NotFound? ==> r.insertAt <= |s|
    ensures r.NotFound? ==> forall j :: 0 <= j < r.insertAt ==> s[j] < key
    ensures r.NotFound? ==> forall j :: r.insertAt <= j < |s| ==> key < s[j]
  {
    BinarySearch(s, key, 0, |s|)
  }

  function Min(a: real, b: real): real { if a <= b then a else b }
  function Max(a: real, b: real): real { if a <= b then b else a }

  /** Linear interpolation between (x1, y1) and (x2, y2), evaluated at `m`;
      the divisor `x2 - x1` is positive. It meets both knots and, between
      them, stays between the two rates. */
  function Interpolate(x1: real, y1: real, x2: real, y2: real, m: real): (r: real)
    requires x1 < x2
    ensures m == x1 ==> r == y1
    ensures m == x2 ==> r == y2
    ensures x1 <= m <= x2 ==> Min(y1, y2) <= r <= Max(y1, y2)
  {
    InterpolationFacts(x1, y1, x2, y2, m);
    y1 + (y2 - y1) * (m - x1) / (x2 - x1)
  }

  lemma InterpolationFacts(x1: real, y1: real, x2: real, y2: real, m: real)
    requires x1 < x2
    ensures var r := y1 + (y2 - y1) * (m - x1) / (x2 - x1);
      (m == x1 ==> r == y1) && (m == x2 ==> r == y2)
      && (x1 <= m <= x2 ==> Min(y1, y2) <= r <= Max(y1, y2))
  {
    var t := (m - x1) / (x2 - x1);
    var r := y1 + (y2 - y1) * (m - x1) / (x2 - x1);
    InterpolationAsFraction(x1, y1, x2, y2, m);
    assert r == y1 + (y2 - y1) * t;
    if m == x1 {
      assert t == 0.0;
    }
    if m == x2 {
      assert m - x1 == x2 - x1;
      assert t == 1.0;
    }
    if x1 <= m <= x2 {
      assert 0.0 <= t <= 1.0;
      BetweenEnds(y1, y2, t);
    }
  }

  /** The interpolated rate is the first rate plus the rate difference times
      the fraction of the bracket covered. */
  lemma InterpolationAsFraction(x1: real, y1: real, x2: real, y2: real, m: real)
    requires x1 < x2
    ensures y1 + (y2 - y1) * (m - x1) / (x2 - x1) == y1 + (y2 - y1) * ((m - x1) / (x2 - x1))
  {
    ScaledQuotient(y2 - y1, m - x1, x2 - x1);
  }

  /** Multiplying before or after the division gives the same value. */
  lemma ScaledQuotient(a: real, b: real, w: real)
    requires w > 0.0
    ensures a * b / w == a * (b / w)
  {
    var t := b / w;
    assert t * w == b;
    assert a * b == (a * t) * w;
  }

  /** A fraction `t` of the way from `y1` to `y2` lies between the two. */
  lemma BetweenEnds(y1: real, y2: real, t: real)
    requires 0.0 <= t <= 1.0
    ensures Min(y1, y2) <= y1 + (y2 - y1) * t <= Max(y1, y2)
  {
    var a := y2 - y1;
    assert a * t + a * (1.0 - t) == a;
    if 0.0 <= a {
      assert 0.0 <= a * t && 0.0 <= a * (1.0 - t);
    } else {
      assert a * t <= 0.0 && a * (1.0 - t) <= 0.0;
    }
  }

  /** The rate at maturity `maturity`: a match on the binary search, as in the source. */
  function GetRate(c: YieldCurve, maturity: real): real
    requires WellFormed(c)
  {
    var xs, ys := c.maturities, c.rates;
    match Search(xs, maturity)
    case Found(index) => ys[index]
    case NotFound(index) =>
      if index == 0 then ys[0]
      else if index == |xs| then ys[|ys| - 1]
      else Interpolate(xs[index - 1], ys[index - 1], xs[index], ys[index], maturity)
  }

  /** Reference definition of the curve, independent of the search: the knot's
      own rate, flat extrapolation on either side, or interpolation on a
      bracketing pair of consecutive knots. */
  ghost predicate RateSpec(c: YieldCurve, m: real, r: real)
    requires WellFormed(c)
  {
    var xs, ys, n := c.maturities, c.rates, |c.maturities|;
    (exists k :: 0 <= k < n && xs[k] == m && r == ys[k])
    || (m < xs[0] && r == ys[0])
    || (xs[n - 1] < m && r == ys[n - 1])
    || (exists k :: 0 < k < n && xs[k - 1] < m < xs[k]
          && r == Interpolate(xs[k - 1], ys[k - 1], xs[k], ys[k], m))
  }

  /** In a strictly increasing table, a knot is found at its own index. */
  lemma SearchKnot(xs: seq<real>, k: nat)
    requires StrictlyIncreasing(xs) && k < |xs|
    ensures Search(xs, xs[k]) == Found(k)
  {
  }

  /** A key strictly between two consecutive knots is inserted after the first. */
  lemma SearchBetween(xs: seq<real>, k: nat, m: real)
    requires StrictlyIncreasing(xs) && 0 < k < |xs| && xs[k - 1] < m < xs[k]
    ensures Search(xs, m) == NotFound(k)
  {
    assert forall j :: 0 <= j < k ==> xs[j] < m by {
      forall j | 0 <= j < k ensures xs[j] < m {
        assert xs[j] <= xs[k - 1];
      }
    }
    assert forall j :: k <= j < |xs| ==> m < xs[j] by {
      forall j | k <= j < |xs| ensures m < xs[j] {
        assert xs[k] <= xs[j];
      }
    }
    assert m !in xs;
  }

  /** A key below the first knot is inserted at the front. */
  lemma SearchBelow(xs: seq<real>, m: real)
    requires StrictlyIncreasing(xs) && 0 < |xs| && m < xs[0]
    ensures Search(xs, m) == NotFound(0)
  {
    assert forall j :: 0 <= j < |xs| ==> m < xs[j] by {
      forall j | 0 <= j < |xs| ensures m < xs[j] {
        assert xs[0] <= xs[j];
      }
    }
    assert m !in xs;
  }

  /** A key above the last knot is inserted at the end. */
  lemma SearchAbove(xs: seq<real>, m: real)
    requires StrictlyIncreasing(xs) && 0 < |xs| && xs[|xs| - 1] < m
    ensures Search(xs, m) == NotFound(|xs|)
  {
    assert forall j :: 0 <= j < |xs| ==> xs[j] < m by {
      forall j | 0 <= j < |xs| ensures xs[j] < m {
        assert xs[j] <= xs[|xs| - 1];
      }
    }
    assert m !in xs;
  }

  /** Exact knot recovery: querying a knot returns that knot's own rate. */
  lemma GetRateAtKnot(c: YieldCurve, k: nat)
    requires WellFormed(c) && k < |c.maturities|
    ensures GetRate(c, c.maturities[k]) == c.rates[k]
  {
    SearchKnot(c.maturities, k);
  }

  /** Flat extrapolation on the left. */
  lemma GetRateBelowFirst(c: YieldCurve, m: real)
    requires WellFormed(c) && m < c.maturities[0]
    ensures GetRate(c, m) == c.rates[0]
  {
    SearchBelow(c.maturities, m);
  }

  /** Flat extrapolation on the right. */
  lemma GetRateAboveLast(c: YieldCurve, m: real)
    requires WellFormed(c) && c.maturities[|c.maturities| - 1] < m
    ensures GetRate(c, m) == c.rates[|c.rates| - 1]
  {
    SearchAbove(c.maturities, m);
  }

  /** Strictly between two consecutive knots, the lookup interpolates on exactly
      that pair; the result lies between the pair's two rates. */
  lemma GetRateBetweenKnots(c: YieldCurve, k: nat, m: real)
    requires WellFormed(c) && 0 < k < |c.maturities|
    requires c.maturities[k - 1] < m < c.maturities[k]
    ensures var xs, ys := c.maturities, c.rates;
      GetRate(c, m) == ys[k - 1] + (ys[k] - ys[k - 1]) * (m - xs[k - 1]) / (xs[k] - xs[k - 1])
    ensures Min(c.rates[k - 1], c.rates[k]) <= GetRate(c, m) <= Max(c.rates[k - 1], c.rates[k])
  {
    SearchBetween(c.maturities, k, m);
  }

  /** The lookup's result satisfies the reference definition. */
  lemma GetRateSatisfiesSpec(c: YieldCurve, m: real)
    requires WellFormed(c)
    ensures RateSpec(c, m, GetRate(c, m))
  {
    var xs, n := c.maturities, |c.maturities|;
    match Search(xs, m)
    case Found(index) =>
    case NotFound(index) =>
      if 0 < index < n {
        assert xs[index - 1] < m < xs[index];
      }
  }

  lemma KnotRateIsLookup(c: YieldCurve, m: real, r: real)
    requires WellFormed(c)
    requires exists k :: 0 <= k < |c.maturities| && c.maturities[k] == m && r == c.rates[k]
    ensures r == GetRate(c, m)
  {
    var k :| 0 <= k < |c.maturities| && c.maturities[k] == m && r == c.rates[k];
    GetRateAtKnot(c, k);
  }

  lemma InterpolatedRateIsLookup(c: YieldCurve, m: real, r: real)
    requires WellFormed(c)
    requires var xs, ys := c.maturities, c.rates;
      exists k :: 0 < k < |xs| && xs[k - 1] < m < xs[k]
        && r == Interpolate(xs[k - 1], ys[k - 1], xs[k], ys[k], m)
    ensures r == GetRate(c, m)
  {
    var xs, ys := c.maturities, c.rates;
    var k :| 0 < k < |xs| && xs[k - 1] < m < xs[k]
             && r == Interpolate(xs[k - 1], ys[k - 1], xs[k], ys[k], m);
    GetRateBetweenKnots(c, k, m);
  }

  /** The reference definition allows no rate other than the lookup's. */
  lemma SpecDeterminesRate(c: YieldCurve, m: real, r: real)
    requires WellFormed(c) && RateSpec(c, m, r)
    ensures r == GetRate(c, m)
  {
    var xs, ys, n := c.maturities, c.rates, |c.maturities|;
    if m < xs[0] && r == ys[0] {
      GetRateBelowFirst(c, m);
    } else if xs[n - 1] < m && r == ys[n - 1] {
      GetRateAboveLast(c, m);
    } else if exists k :: 0 <= k < n && xs[k] == m && r == ys[k] {
      KnotRateIsLookup(c, m, r);
    } else {
      InterpolatedRateIsLookup(c, m, r);
    }
  }

  /** Both directions together: the lookup returns `r` exactly when the
      reference definition allows `r`. */
  lemma GetRateMeetsSpec(c: YieldCurve, m: real, r: real)
    requires WellFormed(c)
    ensures GetRate(c, m) == r <==> RateSpec(c, m, r)
  {
    GetRateSatisfiesSpec(c, m);
    if RateSpec(c, m, r) {
      SpecDeterminesRate(c, m, r);
    }
  }

  /** Smallest element of a non-empty sequence. */
  function MinOf(s: seq<real>): (r: real)
    requires |s| > 0
    ensures r in s
    ensures forall i :: 0 <= i < |s| ==> r <= s[i]
  {
    if |s| == 1 then s[0] else Min(s[0], MinOf(s[1..]))
  }

  /** Largest element of a non-empty sequence. */
  function MaxOf(s: seq<real>): (r: real)
    requires |s| > 0
    ensures r in s
    ensures forall i :: 0 <= i < |s| ==> s[i] <= r
  {
    if |s| == 1 then s[0] else Max(s[0], MaxOf(s[1..]))
  }

  /** Every rate the curve returns lies within the range of its knot rates. */
  lemma GetRateWithinRange(c: YieldCurve, m: real)
    requires WellFormed(c)
    ensures MinOf(c.rates) <= GetRate(c, m) <= MaxOf(c.rates)
  {
    var xs, ys, n := c.maturities, c.rates, |c.maturities|;
    match Search(xs, m)
    case Found(index) =>
    case NotFound(index) =>
      if 0 < index < n {
        GetRateBetweenKnots(c, index, m);
      }
  }

  /** The curve of the source's unit test. */
  function SampleCurve(): (c: YieldCurve)
    ensures WellFormed(c)
  {
    YieldCurve([1.0, 2.0, 3.0, 5.0, 10.0], [0.01, 0.02, 0.025, 0.03, 0.035])
  }

  /** The source's unit-test values at two knots, exact over the reals. */
  lemma SampleCurveKnots()
    ensures GetRate(SampleCurve(), 1.0) == 0.01
    ensures GetRate(SampleCurve(), 2.0) == 0.02
  {
    GetRateAtKnot(SampleCurve(), 0);
    GetRateAtKnot(SampleCurve(), 1);
  }

  /** The source's unit-test values between knots: a midpoint and a wider bracket. */
  lemma SampleCurveInterpolation()
    ensures GetRate(SampleCurve(), 1.5) == 0.015
    ensures GetRate(SampleCurve(), 4.0) == 0.0275
  {
    GetRateBetweenKnots(SampleCurve(), 1, 1.5);
    GetRateBetweenKnots(SampleCurve(), 3, 4.0);
  }

  /** The source's unit-test values on both flat tails. */
  lemma SampleCurveTails()
    ensures GetRate(SampleCurve(), 0.5) == 0.01
    ensures GetRate(SampleCurve(), 15.0) == 0.035
  {
    GetRateBelowFirst(SampleCurve(), 0.5);
    GetRateAboveLast(SampleCurve(), 15.0);
  }

  /** Construction rejects the source's mismatched sample (three maturities, two
      rates) and accepts two empty tables, on which no lookup is possible. */
  lemma NewSamples()
    ensures New([1.0, 2.0, 3.0], [0.01, 0.02]) == Err(MismatchedLengths)
    ensures New([], []).Ok? && !WellFormed(New([], []).value)
  {
  }
}
