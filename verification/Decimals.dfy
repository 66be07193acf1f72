/** Decimal quantisation and currency conversion (apps/payments/services.py).

    An amount of money is counted in units of 1e-8: an exact `real` before it is quantised,
    an `int` afterwards.  Decimal's default rounding is half-even. */
module Decimals {
  import opened Outcomes

  /** `q` is an integer nearest to `x`, and the even one when two are equally near. */
  predicate IsNearestEven(x: real, q: int) {
    && -0.5 <= x - q as real <= 0.5
    && (x - q as real == 0.5 || x - q as real == -0.5 ==> q % 2 == 0)
  }

  function Quantize(x: real): (q: int)
    ensures IsNearestEven(x, q)
  {
    var low := x.Floor;
    var rest := x - low as real;
    if rest < 0.5 then low
    else if rest > 0.5 then low + 1
    else if low % 2 == 0 then low
    else low + 1
  }

  /** Rounding half to even is determined by its two defining conditions. */
  lemma NearestEvenIsUnique(x: real, p: int, q: int)
    requires IsNearestEven(x, p) && IsNearestEven(x, q)
    ensures p == q
  {
    assert p <= q + 1 && q <= p + 1;
  }

  lemma QuantizeOfInt(n: int)
    ensures Quantize(n as real) == n
  {
    NearestEvenIsUnique(n as real, Quantize(n as real), n);
  }

  lemma QuantizeMonotone(x: real, y: real)
    requires x <= y
    ensures Quantize(x) <= Quantize(y)
  {
    var p, q := Quantize(x), Quantize(y);
    if p > q {
      assert p == q + 1;
      assert x == y;
    }
  }

  datatype ConvertError = RateNotPositive | NoConversionPath

  /** The currency codes that the code names, and any other text in a currency column. */
  datatype Currency = PKR | USD | POINTS | Other(code: string)

  /** The exact amount that `convert` rounds. */
  function Exact(amount: real, source: Currency, target: Currency, rate: real): Result<real, ConvertError> {
    if source == target then Ok(amount)
    else if source == USD && target == PKR then
      if rate <= 0.0 then Err(RateNotPositive) else Ok(amount * rate)
    else if source == PKR && target == USD then
      if rate <= 0.0 then Err(RateNotPositive) else Ok(amount / rate)
    else Err(NoConversionPath)
  }

  /** `convert` with the rate already read (PKR per 1 USD). */
  function Convert(amount: real, source: Currency, target: Currency, rate: real): Result<int, ConvertError> {
    match Exact(amount, source, target, rate)
    case Ok(x) => Ok(Quantize(x))
    case Err(e) => Err(e)
  }

  lemma MulPositive(x: real, y: real)
    requires x > 0.0 && y > 0.0
    ensures x * y > 0.0
  {
  }

  lemma Distribute(m: real, rate: real)
    ensures m * (1.0 - rate) == m - m * rate
  {
  }

  lemma MulMonotone(a: real, b: real, c: real)
    requires a <= b && 0.0 <= c
    ensures a * c <= b * c
  {
    if a < b && 0.0 < c {
      MulPositive(b - a, c);
      assert (b - a) * c == b * c - a * c;
    }
  }

  lemma DivideThenMultiply(a: real, c: real)
    requires c != 0.0
    ensures (a / c) * c == a
  {
  }

  lemma DivMonotone(a: real, b: real, c: real)
    requires a <= b && 0.0 < c
    ensures a / c <= b / c
  {
    var x, y := a / c, b / c;
    DivideThenMultiply(a, c);
    DivideThenMultiply(b, c);
    assert (x - y) * c == a - b;
    if x > y {
      MulPositive(x - y, c);
      assert false;
    }
  }

  lemma ExactMonotone(a: real, b: real, source: Currency, target: Currency, rate: real)
    requires a <= b
    ensures var x, y := Exact(a, source, target, rate), Exact(b, source, target, rate);
            && (x.Ok? <==> y.Ok?)
            && (x.Ok? ==> x.value <= y.value)
  {
    if rate > 0.0 {
      MulMonotone(a, b, rate);
      DivMonotone(a, b, rate);
    }
  }

  /** Conversion keeps order, and whether it succeeds depends on the currencies and the rate only. */
  lemma ConvertMonotone(a: real, b: real, source: Currency, target: Currency, rate: real)
    requires a <= b
    ensures var x, y := Convert(a, source, target, rate), Convert(b, source, target, rate);
            && (x.Ok? <==> y.Ok?)
            && (x.Ok? ==> x.value <= y.value)
  {
    ExactMonotone(a, b, source, target, rate);
    var x, y := Exact(a, source, target, rate), Exact(b, source, target, rate);
    if x.Ok? {
      QuantizeMonotone(x.value, y.value);
    }
  }

  function ToPkr(usd: int, rate: real): (pkr: int)
    requires rate > 0.0
    ensures IsNearestEven(usd as real * rate, pkr)
  {
    Convert(usd as real, USD, PKR, rate).value
  }

  function ToUsd(pkr: int, rate: real): (usd: int)
    requires rate > 0.0
    ensures IsNearestEven(pkr as real / rate, usd)
  {
    Convert(pkr as real, PKR, USD, rate).value
  }

  lemma MultiplyThenDivide(a: real, c: real)
    requires c != 0.0
    ensures (a * c) / c == a
  {
  }

  lemma DivideDifference(x: real, y: real, c: real)
    requires c != 0.0
    ensures x / c - y / c == (x - y) / c
  {
  }

  /** Dividing an error of at most half a unit by a rate above 1 makes it smaller than that. */
  lemma QuotientOfHalf(e: real, c: real)
    requires c > 1.0 && -0.5 <= e <= 0.5
    ensures -0.5 < e / c < 0.5
  {
    var d := e / c;
    DivideThenMultiply(e, c);
    if d >= 0.5 {
      MulMonotone(0.5, d, c);
      assert false;
    }
    if d <= -0.5 {
      MulMonotone(d, -0.5, c);
      assert false;
    }
  }

  lemma HalfUnitDividedBy(x: real, y: real, c: real)
    requires c > 1.0 && -0.5 <= y - x <= 0.5
    ensures -0.5 < y / c - x / c < 0.5
  {
    DivideDifference(y, x, c);
    QuotientOfHalf(y - x, c);
  }

  lemma NearestOfInt(n: int, q: int)
    requires IsNearestEven(n as real, q)
    ensures q == n
  {
    NearestEvenIsUnique(n as real, q, n);
  }

  /** An amount is the nearest one to its own converted amount, converted back. */
  lemma NearOfQuotient(a: real, p: int, rate: real)
    requires rate > 1.0 && IsNearestEven(a * rate, p) && a == a.Floor as real
    ensures IsNearestEven(p as real / rate, a.Floor)
  {
    var x := a * rate;
    HalfUnitDividedBy(x, p as real, rate);
    MultiplyThenDivide(a, rate);
  }

  lemma UsdSurvivesRoundTrip(usd: int, rate: real)
    requires rate >= 1.0
    ensures ToUsd(ToPkr(usd, rate), rate) == usd
  {
    hide ToPkr, ToUsd;
    var a, p := usd as real, ToPkr(usd, rate);
    if rate == 1.0 {
      assert a * rate == a && p as real / rate == p as real;
      NearestOfInt(usd, p);
      NearestOfInt(p, ToUsd(p, rate));
    } else {
      NearOfQuotient(a, p, rate);
      NearestEvenIsUnique(p as real / rate, ToUsd(p, rate), usd);
    }
  }

  /** If every amount up to `n` survived, the rupee amounts would have to be pairwise distinct. */
  lemma {:induction false} SurvivorsSpread(n: nat, rate: real)
    requires 0.0 < rate
    requires forall a: nat | a <= n :: ToUsd(ToPkr(a, rate), rate) == a
    ensures ToPkr(n, rate) >= n
  {
    if n == 0 {
      assert (0 as real) * rate == 0.0;
      QuantizeOfInt(0);
    } else {
      SurvivorsSpread(n - 1, rate);
      ConvertMonotone((n - 1) as real, n as real, USD, PKR, rate);
      assert ToUsd(ToPkr(n, rate), rate) == n;
      assert ToUsd(ToPkr(n - 1, rate), rate) == n - 1;
    }
  }

  lemma ProductsGrow(bound: real, m: real, gap: real)
    requires gap > 0.0 && m > bound
    ensures m * gap > bound * gap
  {
    MulPositive(m - bound, gap);
    assert (m - bound) * gap == m * gap - bound * gap;
  }

  /** Below 1, the products with `rate` eventually fall behind the amounts by more than a unit. */
  lemma SlowMultiples(rate: real) returns (n: nat)
    requires 0.0 < rate < 1.0
    ensures n as real * rate < n as real - 1.0
  {
    var gap := 1.0 - rate;
    var bound := 1.0 / gap;
    DivideThenMultiply(1.0, gap);
    n := NatAbove(bound);
    ProductsGrow(bound, n as real, gap);
    Distribute(n as real, rate);
  }

  lemma NatAbove(bound: real) returns (n: nat)
    ensures n as real > bound
  {
    n := if bound < 0.0 then 0 else bound.Floor + 1;
  }

  lemma RoundTripFailsBelowOne(rate: real) returns (usd: int)
    requires 0.0 < rate < 1.0
    ensures ToUsd(ToPkr(usd, rate), rate) != usd
  {
    var n := SlowMultiples(rate);
    if a: nat :| a <= n && ToUsd(ToPkr(a, rate), rate) != a {
      usd := a;
    } else {
      SurvivorsSpread(n, rate);
      assert false;
    }
  }

  /** USD -> PKR -> USD is the identity on all 8-place amounts exactly when the rate is at least 1. */
  lemma UsdRoundTripIffRateAtLeastOne(rate: real)
    requires rate > 0.0
    ensures (forall usd: int :: ToUsd(ToPkr(usd, rate), rate) == usd) <==> rate >= 1.0
  {
    if rate >= 1.0 {
      forall usd: int ensures ToUsd(ToPkr(usd, rate), rate) == usd {
        UsdSurvivesRoundTrip(usd, rate);
      }
    } else {
      var usd := RoundTripFailsBelowOne(rate);
    }
  }

  lemma ProductOfDifference(u: real, x: real, c: real) returns (ec: real)
    ensures ec == (u - x) * c && ec == u * c - x * c
  {
    ec := (u - x) * c;
  }

  lemma HalfUnitProduct(e: real, c: real) returns (ec: real)
    requires c > 0.0 && -0.5 <= e <= 0.5
    ensures ec == e * c && -(0.5 * c) <= ec <= 0.5 * c
  {
    ec := e * c;
    MulMonotone(-0.5, e, c);
    MulMonotone(e, 0.5, c);
  }

  lemma HalfUnitAround(u: real, x: real, p: real, c: real)
    requires c > 0.0 && x * c == p && -0.5 <= u - x <= 0.5
    ensures -(0.5 * c) <= u * c - p <= 0.5 * c
  {
    var e := HalfUnitProduct(u - x, c);
    var d := ProductOfDifference(u, x, c);
    assert d == e;
  }

  /** PKR -> USD -> PKR loses at most half a unit at the rate, and half a unit more. */
  lemma PkrRoundTripBound(pkr: int, rate: real)
    requires rate > 0.0
    ensures var back := ToPkr(ToUsd(pkr, rate), rate) as real;
            -(0.5 * rate + 0.5) <= back - pkr as real <= 0.5 * rate + 0.5
  {
    hide ToPkr, ToUsd;
    var u, x := ToUsd(pkr, rate), pkr as real / rate;
    DivideThenMultiply(pkr as real, rate);
    HalfUnitAround(u as real, x, pkr as real, rate);
    QuantizedNear(u as real * rate, ToPkr(u, rate), pkr as real, 0.5 * rate);
  }

  lemma QuantizedNear(y: real, q: int, p: real, bound: real)
    requires IsNearestEven(y, q) && -bound <= y - p <= bound
    ensures -(bound + 0.5) <= q as real - p <= bound + 0.5
  {
  }
}
