# Bond pricing kernel: yield curve and discounted-cash-flow pricer

This project models the two layers of a small bond-pricing kernel and proves
properties of them in Dafny.

**The yield curve** (`yield_curve.dfy`, module `YieldCurves`) holds two parallel
tables: maturities (the knots) and rates.
- `New` rejects tables of different lengths. Otherwise it stores both unchanged.
- `GetRate` runs a binary search over the maturities and matches on the outcome.
  - An exact hit returns the knot's own rate.
  - A maturity below the first knot or above the last one gets that end's rate (flat extrapolation).
  - Anything else is linearly interpolated between the two bracketing knots.
- The curve is an immutable value, so a lookup cannot change either table.

**The pricer** (`bond_pricer.dfy`, module `BondPricing`) is a class `BondPricer`.
It borrows a curve that it never changes. `Price` works as follows:
- It computes the per-period coupon `face * coupon / frequency`.
- The payment count is `maturity * frequency`, rounded half away from zero and then cast to `u32`.
- A loop accumulates each coupon discounted at the curve's rate for payment time `i / frequency`.
- Finally it adds the face value, discounted at the rate read at the maturity itself.

The loop is proved against the specification function `BondPrice`. The lemmas beside it
cover the schedule, the zero-coupon and empty-schedule cases, affinity in the coupon rate,
and the repository's own test cases. `Price` is a function of its arguments and the curve:
its postcondition fixes the result, so identical calls give identical prices.

Modelling choices:
- `f64` is `real`, so the interpolation and the sums are exact.
- `exp(-rate * t)` is not modelled. The pricer takes a discount-factor function
  `discount(rate, t)` at construction and uses it wherever the source calls `exp`.
- The `as u32` cast of the rounded payment count is written out: negative values become 0
  and values above `u32::MAX` saturate.
- A ghost out-parameter `queried` of `Price` records every maturity at which the curve is read, in order.

Behaviour of the code worth noting:
- The count is rounded with `f64::round`, which rounds halves away from zero.
- A zero payment frequency is not rejected with an error. The code divides by `0.0`, and
  the loop then runs zero times.
- `new` accepts two empty tables.
  Querying such a curve panics, so the lookup requires one knot.
- Maturities are never checked to be strictly increasing. The lookup requires it.

## Model

| member | source | states |
|---|---|---|
| YieldCurves.New | src/yield_curve.rs:9-14 | fails exactly when the lengths differ, with the source's message; otherwise stores both tables unchanged |
| YieldCurves.NewSamples | src/yield_curve.rs:53-59 | the mismatched 3/2-length test input is rejected with that message; two empty tables are accepted but do not form a curve a lookup may query |
| YieldCurves.BinarySearch | src/yield_curve.rs:17-19 | on a strictly increasing table, a hit lies in the window and holds the key; otherwise the insertion point splits the table into elements below and above the key |
| YieldCurves.Search | src/yield_curve.rs:17-19 | finds the key exactly when it is in the table, at its index; otherwise returns the insertion point with everything before it below the key and everything after above |
| YieldCurves.SearchKnot | src/yield_curve.rs:17-21 | searching for knot k's maturity finds index k |
| YieldCurves.SearchBetween | src/yield_curve.rs:17-24 | a maturity strictly between knots k-1 and k is not found and would be inserted at k |
| YieldCurves.SearchBelow | src/yield_curve.rs:17-22 | a maturity below the first knot would be inserted at 0 |
| YieldCurves.SearchAbove | src/yield_curve.rs:17-23 | a maturity above the last knot would be inserted at the end |
| YieldCurves.Interpolate | src/yield_curve.rs:24-28 | the line through the two knots meets each knot's rate at its maturity and, between them, stays between the two rates |
| YieldCurves.GetRateAtKnot | src/yield_curve.rs:21 | querying knot k's maturity returns rate k exactly |
| YieldCurves.GetRateBelowFirst | src/yield_curve.rs:22 | a maturity below the first knot returns the first rate |
| YieldCurves.GetRateAboveLast | src/yield_curve.rs:23 | a maturity above the last knot returns the last rate |
| YieldCurves.GetRateBetweenKnots | src/yield_curve.rs:24-28 | strictly between knots k-1 and k the result is y1 + (y2-y1)(m-x1)/(x2-x1) on exactly that pair, and lies between the two rates |
| YieldCurves.GetRateSatisfiesSpec | src/yield_curve.rs:16-31 | every lookup result satisfies the search-free reference definition of the curve |
| YieldCurves.KnotRateIsLookup | src/yield_curve.rs:21 | any rate the reference definition gives at a knot is the lookup's result |
| YieldCurves.InterpolatedRateIsLookup | src/yield_curve.rs:24-28 | any interpolated rate the reference definition gives on a bracketing pair is the lookup's result |
| YieldCurves.SpecDeterminesRate | src/yield_curve.rs:16-31 | the reference definition admits only the lookup's result |
| YieldCurves.GetRateMeetsSpec | src/yield_curve.rs:16-31 | the lookup returns r if and only if r is what the reference definition gives (knot, left tail, right tail or bracketing interpolation) |
| YieldCurves.GetRateWithinRange | src/yield_curve.rs:21-28 | every lookup result lies between the smallest and the largest rate in the table |
| YieldCurves.SampleCurve | src/yield_curve.rs:41-43 | the test curve (knots 1, 2, 3, 5, 10) is a well-formed curve |
| YieldCurves.SampleCurveKnots | src/yield_curve.rs:45-46 | the test curve gives 0.01 at 1.0 and 0.02 at 2.0 |
| YieldCurves.SampleCurveInterpolation | src/yield_curve.rs:47-48 | the test curve gives 0.015 at 1.5 and 0.0275 at 4.0 |
| YieldCurves.SampleCurveTails | src/yield_curve.rs:49-50 | the test curve gives 0.01 at 0.5 and 0.035 at 15.0 |
| BondPricing.RoundHalfAwayFromZero | src/bond_pricer.rs:21 | the result is within one half of the input, and exact halves go away from zero |
| BondPricing.SaturateU32 | src/bond_pricer.rs:21 | the cast to u32 keeps values in range, sends negatives to 0 and saturates at u32::MAX |
| BondPricing.UnsaturatedPaymentCount | src/bond_pricer.rs:21 | when maturity times frequency is within the u32 range, the payment count is the rounded product itself |
| BondPricing.BondPricer.constructor | src/bond_pricer.rs:8-10 | the pricer holds the borrowed curve (and the discount function) |
| BondPricing.BondPricer.Price | src/bond_pricer.rs:12-55 | the result is the discounted coupons over the whole schedule plus the face value discounted at the maturity; the curve is read at 1/f, 2/f, ..., n/f and then at the maturity, in that order |
| BondPricing.BondPricer.DiscountCoupons | src/bond_pricer.rs:19-42 | after the loop, the accumulator is the sum, in payment order, of coupon times discount factor at each payment time, and the curve was read at exactly the schedule's times |
| BondPricing.DiscountedCouponsStep | src/bond_pricer.rs:33-37 | one more payment adds exactly its coupon discounted at the rate read at its own time |
| BondPricing.BondPriceAdds | src/bond_pricer.rs:44-46 | the coupon sum plus the face value discounted at the rate read at maturity is the bond's price |
| BondPricing.ScheduleTimes | src/bond_pricer.rs:32-33 | the k-th entry of the schedule is payment k+1's time (k+1)/f |
| BondPricing.PaymentTimesIncrease | src/bond_pricer.rs:33 | payment times are positive and strictly increasing in the payment index |
| BondPricing.ScheduleAscending | src/bond_pricer.rs:32-34 | the curve is queried at strictly increasing, positive times |
| BondPricing.SumScaledIsScaledSum | src/bond_pricer.rs:36-37 | summing equal coupons times the discount factors is the coupon times the sum of the factors |
| BondPricing.CouponsAsAnnuity | src/bond_pricer.rs:32-37 | the discounted coupon sum is the coupon times the annuity factor (the sum of the discount factors) |
| BondPricing.BondPriceParts | src/bond_pricer.rs:19-46 | the price is coupon times annuity factor plus the discounted face value |
| BondPricing.PriceAffineInCoupon | src/bond_pricer.rs:20-37 | price(c) = price(0) + c * face/f * annuity factor, so the price is affine in the coupon rate |
| BondPricing.ZeroCouponPrice | src/bond_pricer.rs:36-46 | with a zero coupon rate the price is the discounted face value alone |
| BondPricing.EmptySchedulePrice | src/bond_pricer.rs:21-46 | when maturity times frequency is below one half, no payment is scheduled and the price is the discounted face value |
| BondPricing.LastPaymentNearMaturity | src/bond_pricer.rs:21-45 | without saturation, the time of the count-th payment lies within half a period of the maturity |
| BondPricing.SampleZeroCouponBond | src/bond_pricer.rs:71-72 | face 100, zero coupon, one year, annual payments on the test curve is 100 discounted at 1% over one year |
| BondPricing.TwoYearSemiAnnualBond | src/bond_pricer.rs:74 | face 100, 5% coupon, two years, semi-annual payments is four coupons of 2.5 at 0.5, 1.0, 1.5 and 2.0 plus 100 discounted at 2.0 |
| BondPricing.SampleCouponBond | src/bond_pricer.rs:74-76 | on the test curve those four coupons are discounted at 1%, 1%, 1.5% and 2%, and the face at 2% |

## Left out

- `exp` is not modelled. The discount factor is a function value given to the pricer, so the
  numeric test constants 99.0049833 and 105.9249 are stated in terms of it rather than checked.
- IEEE-754 behaviour is not modelled: rounding of each operation, NaN, infinities, and the
  `partial_cmp(..).unwrap_or(Ordering::Equal)` fallback for NaN in the binary search.
- YieldCurves.GetRate: requires strictly increasing maturities. The source never checks this,
  and its search result is unspecified for unsorted or duplicate maturities.
- YieldCurves.GetRate: requires at least one knot. On an empty curve the source panics on `rates[0]`.
- BondPricing.BondPricer.Price: requires a positive payment frequency. Over the reals the
  coupon division by zero is undefined. For a zero frequency the source computes a non-finite
  coupon that the loop never uses and returns the discounted face value alone.
- BondPricing.BondPricer.Price: the rounding of the payment count and the `u32` cast are modelled,
  but the source's `f64` product `maturity * frequency` is taken as exact.
- The `println!` diagnostics in `src/bond_pricer.rs` are output only and do not affect the price.
- The Monte Carlo estimator (`src/monte_carlo.rs`) is not part of this model. It relies on a
  random source and a parallel reduction, and its test is a statistical tolerance.
- `src/main.rs` (a driver that prints sample prices) and `src/lib.rs` (module declarations)
  are not part of this model.
