/** The deterministic discounted-cash-flow pricer. It reads a yield curve
    and sums the discounted coupons of a regular schedule, then adds the face
    value discounted at maturity. Floating point is modelled as `real`. The
    one transcendental step, the continuous-compounding discount factor
    exp(-rate * t), is a function value supplied by the caller. */
module BondPricing {
  import opened YieldCurves

  const U32Max: int := 0xFFFF_FFFF

  /** Rust's `u32`, the type of the payment frequency and of the payment count. */
  type U32 = x: int | 0 <= x <= U32Max

  /** `DF(rate, t)` stands for exp(-rate * t). */
  type DiscountFactor = (real, real) -> real

  /** A maturity-to-rate lookup: the curve as the pricer reads it. */
  type RateLookup = real -> real

  /** `f64::round`: to the nearest integer, halves away from zero. */
  function RoundHalfAwayFromZero(x: real): (n: int)
    ensures n as real - 0.5 <= x <= n as real + 0.5
    ensures x == n as real - 0.5 ==> n > 0
    ensures x == n as real + 0.5 ==> n < 0
  {
    if x >= 0.0 then (x + 0.5).Floor else -((-x + 0.5).Floor)
  }

  /** A float-to-`u32` cast: saturating at both ends. */
  function SaturateU32(n: int): (r: U32)
    ensures 0 <= n <= U32Max ==> r == n
    ensures n < 0 ==> r == 0
    ensures U32Max < n ==> r == U32Max
  {
    if n < 0 then 0 else if n > U32Max then U32Max else n
  }

  /** Number of coupon payments: maturity times frequency, rounded, cast to `u32`. */
  function PaymentCount(maturity: real, paymentsPerYear: U32): U32 {
    SaturateU32(RoundHalfAwayFromZero(maturity * paymentsPerYear as real))
  }

  /** The coupon paid each period: `paymentsPerYear` of them make one year's coupon. */
  function CouponAmount(faceValue: real, couponRate: real, paymentsPerYear: U32): real
    requires paymentsPerYear > 0
  {
    faceValue * couponRate / paymentsPerYear as real
  }

  /** Time in years of payment `i`. */
  function PaymentTime(i: nat, paymentsPerYear: U32): real
    requires paymentsPerYear > 0
  {
    i as real / paymentsPerYear as real
  }

  /** The times of payments 1..n, in order. */
  function Schedule(n: nat, paymentsPerYear: U32): (s: seq<real>)
    requires paymentsPerYear > 0
    ensures |s| == n
  {
    if n == 0 then [] else Schedule(n - 1, paymentsPerYear) + [PaymentTime(n, paymentsPerYear)]
  }

  /** The discount factor at each of the given times, each taken with the
      rate the curve gives for that time. */
  function DiscountFactors(rate: RateLookup, df: DiscountFactor, times: seq<real>): (fs: seq<real>)
    ensures |fs| == |times|
  {
    if times == [] then []
    else
      var t := times[|times| - 1];
      DiscountFactors(rate, df, times[..|times| - 1]) + [df(rate(t), t)]
  }

  /** Running sum of `amount * f` over the factors, added in order. */
  function SumScaled(amount: real, factors: seq<real>): real {
    if factors == [] then 0.0
    else SumScaled(amount, factors[..|factors| - 1]) + amount * factors[|factors| - 1]
  }

  /** Sum of the factors, added in order. */
  function Sum(factors: seq<real>): real {
    if factors == [] then 0.0 else Sum(factors[..|factors| - 1]) + factors[|factors| - 1]
  }

  /** Sum of the discounted coupons of payments 1..n, added in payment order. */
  function DiscountedCoupons(rate: RateLookup, df: DiscountFactor, amount: real,
                             paymentsPerYear: U32, n: nat): real
    requires paymentsPerYear > 0
  {
    SumScaled(amount, DiscountFactors(rate, df, Schedule(n, paymentsPerYear)))
  }

  /** Sum of the discount factors of payments 1..n (the value of a unit annuity). */
  function AnnuityFactor(rate: RateLookup, df: DiscountFactor, paymentsPerYear: U32, n: nat): real
    requires paymentsPerYear > 0
  {
    Sum(DiscountFactors(rate, df, Schedule(n, paymentsPerYear)))
  }

  /** The face value discounted at the maturity itself. */
  function FaceValuePV(rate: RateLookup, df: DiscountFactor, faceValue: real, maturity: real): real {
    faceValue * df(rate(maturity), maturity)
  }

  /** The price the pricer computes: the discounted coupons plus the discounted face value. */
  function BondPrice(rate: RateLookup, df: DiscountFactor, faceValue: real, couponRate: real,
                     maturity: real, paymentsPerYear: U32): real
    requires paymentsPerYear > 0
  {
    DiscountedCoupons(rate, df, CouponAmount(faceValue, couponRate, paymentsPerYear),
                      paymentsPerYear, PaymentCount(maturity, paymentsPerYear))
    + FaceValuePV(rate, df, faceValue, maturity)
  }

  /** The curve as the pricer reads it: a lookup of its rate at any maturity. */
  function CurveLookup(curve: YieldCurve): RateLookup
    requires WellFormed(curve)
  {
    t => GetRate(curve, t)
  }

  /** The pricer borrows a curve it never changes; `discount` stands for `exp`. */
  class BondPricer {
    const curve: YieldCurve
    const discount: DiscountFactor

    constructor (curve: YieldCurve, discount: DiscountFactor)
      ensures this.curve == curve && this.discount == discount
    {
      this.curve := curve;
      this.discount := discount;
    }

    /** Prices the bond. It only reads the curve, and its result is a function of
        its arguments and the curve, so identical calls give identical prices.
        `queried` records, in order, every maturity at which the curve is read. */
    method Price(faceValue: real, couponRate: real, maturity: real, paymentsPerYear: U32)
      returns (price: real, ghost queried: seq<real>)
      requires WellFormed(curve) && paymentsPerYear > 0
      ensures price == BondPrice(CurveLookup(curve), discount, faceValue, couponRate, maturity, paymentsPerYear)
      ensures queried == Schedule(PaymentCount(maturity, paymentsPerYear), paymentsPerYear) + [maturity]
    {
      var couponAmount := faceValue * couponRate / paymentsPerYear as real;
      var totalPayments := PaymentCount(maturity, paymentsPerYear);
      price, queried := DiscountCoupons(couponAmount, totalPayments, paymentsPerYear);

      var yieldAtMaturity := GetRate(curve, maturity);
      var pvFaceValue := faceValue * discount(yieldAtMaturity, maturity);
      BondPriceAdds(CurveLookup(curve), discount, faceValue, couponRate, maturity, paymentsPerYear, price, yieldAtMaturity, pvFaceValue);
      price := price + pvFaceValue;
      queried := queried + [maturity];
    }

    /** The coupon loop of `Price`: payments 1..totalPayments, each discounted at
        the curve's rate for its time and added to the running sum in order. */
    method DiscountCoupons(couponAmount: real, totalPayments: nat, paymentsPerYear: U32)
      returns (sum: real, ghost queried: seq<real>)
      requires WellFormed(curve) && paymentsPerYear > 0
      ensures sum == DiscountedCoupons(CurveLookup(curve), discount, couponAmount, paymentsPerYear, totalPayments)
      ensures queried == Schedule(totalPayments, paymentsPerYear)
    {
      ghost var rate := CurveLookup(curve);
      sum := 0.0;
      queried := [];
      for i := 1 to totalPayments + 1
        invariant sum == DiscountedCoupons(rate, discount, couponAmount, paymentsPerYear, i - 1)
        invariant queried == Schedule(i - 1, paymentsPerYear)
      {
        var t := i as real / paymentsPerYear as real;
        var yieldRate := GetRate(curve, t);
        var discountFactor := discount(yieldRate, t);
        var pvCoupon := couponAmount * discountFactor;
        DiscountedCouponsStep(rate, discount, couponAmount, paymentsPerYear, i, yieldRate, discountFactor);
        sum := sum + pvCoupon;
        queried := queried + [t];
      }
    }
  }

  /** The price is the coupon sum over the whole schedule plus the face value
      discounted at the rate read at maturity. */
  lemma BondPriceAdds(rate: RateLookup, df: DiscountFactor, faceValue: real, couponRate: real,
                      maturity: real, paymentsPerYear: U32, coupons: real, yieldAtMaturity: real, pvFaceValue: real)
    requires paymentsPerYear > 0
    requires coupons == DiscountedCoupons(rate, df, faceValue * couponRate / paymentsPerYear as real,
                                          paymentsPerYear, PaymentCount(maturity, paymentsPerYear))
    requires yieldAtMaturity == rate(maturity)
    requires pvFaceValue == faceValue * df(yieldAtMaturity, maturity)
    ensures coupons + pvFaceValue
         == BondPrice(rate, df, faceValue, couponRate, maturity, paymentsPerYear)
  {
  }

  /** One more payment adds its discounted coupon to the sum: the rate read at
      payment `n`'s time, its discount factor, times the coupon amount. */
  lemma DiscountedCouponsStep(rate: RateLookup, df: DiscountFactor, amount: real,
                              paymentsPerYear: U32, n: nat, yieldRate: real, discountFactor: real)
    requires paymentsPerYear > 0 && n > 0
    requires yieldRate == rate(PaymentTime(n, paymentsPerYear))
    requires discountFactor == df(yieldRate, PaymentTime(n, paymentsPerYear))
    ensures DiscountedCoupons(rate, df, amount, paymentsPerYear, n)
         == DiscountedCoupons(rate, df, amount, paymentsPerYear, n - 1) + amount * discountFactor
  {
    var times := Schedule(n, paymentsPerYear);
    assert times[..n - 1] == Schedule(n - 1, paymentsPerYear);
  }

  /** The k-th entry of the schedule (counting from 0) is payment k + 1's time. */
  lemma {:induction false} ScheduleTimes(n: nat, paymentsPerYear: U32)
    requires paymentsPerYear > 0
    ensures forall k :: 0 <= k < n ==> Schedule(n, paymentsPerYear)[k] == PaymentTime(k + 1, paymentsPerYear)
  {
    if n > 0 {
      ScheduleTimes(n - 1, paymentsPerYear);
    }
  }

  /** Later payments fall strictly later, and every payment falls after time zero. */
  lemma PaymentTimesIncrease(i: nat, j: nat, paymentsPerYear: U32)
    requires paymentsPerYear > 0 && 0 < i < j
    ensures 0.0 < PaymentTime(i, paymentsPerYear) < PaymentTime(j, paymentsPerYear)
  {
    var p := paymentsPerYear as real;
    assert i as real / p < j as real / p;
  }

  /** The schedule is strictly increasing and every time in it is positive, so
      the curve is read at distinct, ascending maturities. */
  lemma ScheduleAscending(n: nat, paymentsPerYear: U32)
    requires paymentsPerYear > 0
    ensures StrictlyIncreasing(Schedule(n, paymentsPerYear))
    ensures forall k :: 0 <= k < n ==> 0.0 < Schedule(n, paymentsPerYear)[k]
  {
    var s := Schedule(n, paymentsPerYear);
    ScheduleTimes(n, paymentsPerYear);
    forall i, j | 0 <= i < j < n
      ensures s[i] < s[j]
    {
      PaymentTimesIncrease(i + 1, j + 1, paymentsPerYear);
    }
    forall k | 0 <= k < n
      ensures 0.0 < s[k]
    {
      PaymentTimesIncrease(k + 1, k + 2, paymentsPerYear);
    }
  }

  /** Scaling every term scales the sum. */
  lemma {:induction false} SumScaledIsScaledSum(amount: real, factors: seq<real>)
    ensures SumScaled(amount, factors) == amount * Sum(factors)
  {
    if factors != [] {
      var rest, x := factors[..|factors| - 1], factors[|factors| - 1];
      SumScaledIsScaledSum(amount, rest);
      assert amount * Sum(rest) + amount * x == amount * (Sum(rest) + x);
    }
  }

  /** The price splits into the coupon amount times the annuity factor plus the discounted face value. */
  lemma BondPriceParts(rate: RateLookup, df: DiscountFactor, faceValue: real, couponRate: real,
                       maturity: real, paymentsPerYear: U32)
    requires paymentsPerYear > 0
    ensures var n := PaymentCount(maturity, paymentsPerYear);
      BondPrice(rate, df, faceValue, couponRate, maturity, paymentsPerYear)
      == CouponAmount(faceValue, couponRate, paymentsPerYear) * AnnuityFactor(rate, df, paymentsPerYear, n)
         + FaceValuePV(rate, df, faceValue, maturity)
  {
    CouponsAsAnnuity(rate, df, CouponAmount(faceValue, couponRate, paymentsPerYear), paymentsPerYear,
                     PaymentCount(maturity, paymentsPerYear));
  }

  /** Equal coupons discounted and summed are the coupon times the annuity factor. */
  lemma CouponsAsAnnuity(rate: RateLookup, df: DiscountFactor, amount: real, paymentsPerYear: U32, n: nat)
    requires paymentsPerYear > 0
    ensures DiscountedCoupons(rate, df, amount, paymentsPerYear, n)
         == amount * AnnuityFactor(rate, df, paymentsPerYear, n)
  {
    SumScaledIsScaledSum(amount, DiscountFactors(rate, df, Schedule(n, paymentsPerYear)));
  }

  lemma AffineArithmetic(faceValue: real, couponRate: real, p: real, annuity: real, face: real)
    requires p > 0.0
    ensures (faceValue * couponRate / p) * annuity + face
         == ((faceValue * 0.0 / p) * annuity + face) + couponRate * (faceValue / p) * annuity
  {
    assert faceValue * 0.0 / p == 0.0;
    assert faceValue * couponRate / p == couponRate * (faceValue / p);
  }

  /** The price is affine in the coupon rate: the zero-coupon price plus the
      coupon rate times the per-period face share times the annuity factor. */
  lemma PriceAffineInCoupon(rate: RateLookup, df: DiscountFactor, faceValue: real, couponRate: real,
                            maturity: real, paymentsPerYear: U32)
    requires paymentsPerYear > 0
    ensures var n := PaymentCount(maturity, paymentsPerYear);
      BondPrice(rate, df, faceValue, couponRate, maturity, paymentsPerYear)
      == BondPrice(rate, df, faceValue, 0.0, maturity, paymentsPerYear)
         + couponRate * (faceValue / paymentsPerYear as real) * AnnuityFactor(rate, df, paymentsPerYear, n)
  {
    BondPriceParts(rate, df, faceValue, couponRate, maturity, paymentsPerYear);
    BondPriceParts(rate, df, faceValue, 0.0, maturity, paymentsPerYear);
    AffineArithmetic(faceValue, couponRate, paymentsPerYear as real,
                     AnnuityFactor(rate, df, paymentsPerYear, PaymentCount(maturity, paymentsPerYear)),
                     FaceValuePV(rate, df, faceValue, maturity));
  }

  /** A zero-coupon bond is worth its discounted face value alone. */
  lemma ZeroCouponPrice(rate: RateLookup, df: DiscountFactor, faceValue: real, maturity: real,
                        paymentsPerYear: U32)
    requires paymentsPerYear > 0
    ensures BondPrice(rate, df, faceValue, 0.0, maturity, paymentsPerYear)
         == FaceValuePV(rate, df, faceValue, maturity)
  {
    var fs := DiscountFactors(rate, df, Schedule(PaymentCount(maturity, paymentsPerYear), paymentsPerYear));
    SumScaledIsScaledSum(CouponAmount(faceValue, 0.0, paymentsPerYear), fs);
  }

  /** When maturity times frequency is below one half (a negative or a very short
      maturity), the schedule is empty and the price is the discounted face value. */
  lemma EmptySchedulePrice(rate: RateLookup, df: DiscountFactor, faceValue: real, couponRate: real,
                           maturity: real, paymentsPerYear: U32)
    requires paymentsPerYear > 0
    requires maturity * paymentsPerYear as real < 0.5
    ensures PaymentCount(maturity, paymentsPerYear) == 0
    ensures BondPrice(rate, df, faceValue, couponRate, maturity, paymentsPerYear)
         == FaceValuePV(rate, df, faceValue, maturity)
  {
    var x := maturity * paymentsPerYear as real;
    assert RoundHalfAwayFromZero(x) <= 0;
  }

  /** Without saturation, the time of the count-th payment lies within half a
      period of the maturity, on either side. */
  lemma LastPaymentNearMaturity(maturity: real, paymentsPerYear: U32)
    requires paymentsPerYear > 0
    requires 0.0 <= maturity * paymentsPerYear as real <= U32Max as real
    ensures var p := paymentsPerYear as real;
      var last := PaymentTime(PaymentCount(maturity, paymentsPerYear), paymentsPerYear);
      maturity - 0.5 / p <= last <= maturity + 0.5 / p
  {
    var p, x := paymentsPerYear as real, maturity * paymentsPerYear as real;
    UnsaturatedPaymentCount(maturity, paymentsPerYear);
    HalfPeriodBounds(RoundHalfAwayFromZero(x) as real, x, p);
    assert x / p == maturity;
  }

  /** Within the u32 range the payment count is the rounded product itself. */
  lemma UnsaturatedPaymentCount(maturity: real, paymentsPerYear: U32)
    requires 0.0 <= maturity * paymentsPerYear as real <= U32Max as real
    ensures PaymentCount(maturity, paymentsPerYear) == RoundHalfAwayFromZero(maturity * paymentsPerYear as real)
  {
    var n := RoundHalfAwayFromZero(maturity * paymentsPerYear as real);
    assert 0 <= n <= U32Max;
  }

  /** A value within half a unit of `n`, divided by `p`, lies within half a
      period `0.5 / p` of `n / p`. */
  lemma HalfPeriodBounds(n: real, x: real, p: real)
    requires n - 0.5 <= x <= n + 0.5 && 0.0 < p
    ensures n / p - 0.5 / p <= x / p <= n / p + 0.5 / p
  {
    assert x / p - (n / p - 0.5 / p) == (x - (n - 0.5)) / p;
    assert (n / p + 0.5 / p) - x / p == ((n + 0.5) - x) / p;
  }

  /** The source's zero-coupon test: face 100, one year, one payment a year on
      the sample curve: a zero coupon plus 100 discounted at 1% over one year. */
  lemma SampleZeroCouponBond(df: DiscountFactor)
    ensures BondPrice(CurveLookup(SampleCurve()), df, 100.0, 0.0, 1.0, 1) == 100.0 * df(0.01, 1.0)
  {
    var rate := CurveLookup(SampleCurve());
    SampleCurveKnots();
    assert rate(1.0) == 0.01;
    ZeroCouponPrice(rate, df, 100.0, 1.0, 1);
  }

  /** Face 100, 5% coupon, two years, paid twice a year, on any curve: four
      coupons of 2.5 at 0.5, 1, 1.5 and 2 years, then the face at 2 years. */
  lemma {:induction false} TwoYearSemiAnnualBond(rate: RateLookup, df: DiscountFactor)
    ensures BondPrice(rate, df, 100.0, 0.05, 2.0, 2)
         == 2.5 * df(rate(0.5), 0.5) + 2.5 * df(rate(1.0), 1.0) + 2.5 * df(rate(1.5), 1.5)
            + 2.5 * df(rate(2.0), 2.0) + 100.0 * df(rate(2.0), 2.0)
  {
    assert PaymentCount(2.0, 2) == 4;
    assert CouponAmount(100.0, 0.05, 2) == 2.5;
    assert PaymentTime(1, 2) == 0.5 && PaymentTime(2, 2) == 1.0;
    assert PaymentTime(3, 2) == 1.5 && PaymentTime(4, 2) == 2.0;
    DiscountedCouponsStep(rate, df, 2.5, 2, 4, rate(2.0), df(rate(2.0), 2.0));
    DiscountedCouponsStep(rate, df, 2.5, 2, 3, rate(1.5), df(rate(1.5), 1.5));
    DiscountedCouponsStep(rate, df, 2.5, 2, 2, rate(1.0), df(rate(1.0), 1.0));
    DiscountedCouponsStep(rate, df, 2.5, 2, 1, rate(0.5), df(rate(0.5), 0.5));
  }

  /** The source's coupon-bond test on the sample curve, whose rates at 0.5, 1,
      1.5 and 2 years are 1%, 1%, 1.5% and 2%. */
  lemma SampleCouponBond(df: DiscountFactor)
    ensures BondPrice(CurveLookup(SampleCurve()), df, 100.0, 0.05, 2.0, 2)
         == 2.5 * df(0.01, 0.5) + 2.5 * df(0.01, 1.0) + 2.5 * df(0.015, 1.5)
            + 2.5 * df(0.02, 2.0) + 100.0 * df(0.02, 2.0)
  {
    var rate := CurveLookup(SampleCurve());
    SampleCurveKnots();
    SampleCurveInterpolation();
    SampleCurveTails();
    GetRateAtKnot(SampleCurve(), 1);
    assert rate(0.5) == 0.01 && rate(1.0) == 0.01 && rate(1.5) == 0.015 && rate(2.0) == 0.02;
    TwoYearSemiAnnualBond(rate, df);
  }
}
