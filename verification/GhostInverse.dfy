/**
 The inverse clock map: ghost time back to host time, in units of one nanosecond or one
 microsecond. Small slopes are divided by a doubling long division that gives up as soon
 as the quotient can no longer fit a duration.
 */
module GhostInverse {
  import opened Rounding
  import opened GhostXForm

  /** A duration in nanoseconds; Saturated means the exact result lies outside Chrono's limits. */
  datatype Host = InRange(nanos: int) | Saturated(nanos: int)

  // ----- specification -----

  /** Ghost nanoseconds per host unit. */
  function SlopeUnits(slope: Slope, unit: nat): real {
    Value(slope) * unit as real
  }

  /** The host time in units, before any limit is applied. */
  function ExactUnits(slope: Slope, difference: int, unit: nat): int
    requires slope.NonZero() && unit > 0
  {
    ValueNonZero(slope, unit);
    RoundHalfAway(difference as real / SlopeUnits(slope, unit))
  }

  /** Exact when the result is a duration, otherwise the limit on its side. */
  function HostTime(slope: Slope, intercept: int, ghostTime: int, unit: nat): Host
    requires slope.NonZero() && unit > 0
  {
    var exact := ExactUnits(slope, ClampI128(ghostTime - intercept), unit) * unit;
    if InDuration(exact) then InRange(exact) else Saturated(ClampDuration(exact))
  }

  lemma ValueNonZero(slope: Slope, unit: nat)
    requires slope.NonZero() && unit > 0
    ensures SlopeUnits(slope, unit) != 0.0
  {
    hide Pow2;
    var k, d := slope.mantissa * Up(slope.exponent), Down(slope.exponent);
    Positive(slope.mantissa, Up(slope.exponent));
    NonZeroFraction(Signed(slope.negative, k) as real, d as real, unit as real);
  }

  lemma NonZeroFraction(n: real, d: real, u: real)
    requires n != 0.0 && d > 0.0 && u > 0.0
    ensures (n / d) * u != 0.0
  {
    var q := n / d;
    assert q * d == n;
  }

  // ----- the code -----

  /** Division by an integral power of two times the denominator. */
  function ShrinkingUnits(magnitude: nat, denominator: nat, shift: nat): nat
    requires denominator > 0
  {
    DivNat(magnitude, denominator);
    var quotient := magnitude / denominator;
    if shift >= 128 then 0
    else if shift == 0 then quotient + (if magnitude % denominator >= (denominator + 1) / 2 then 1 else 0)
    else Shr(quotient, shift) + Shr(quotient, shift - 1) % 2
  }

  /** Doubling long division; no value is returned once the quotient must exceed the limit. */
  method GrowingUnits(magnitude: nat, denominator: nat, doublings: nat, limit: nat)
    returns (overflow: bool, units: nat)
    requires denominator > 0
    ensures !overflow ==> units == NearestRatio(magnitude * Pow2(doublings), denominator)
    ensures overflow ==> NearestRatio(magnitude * Pow2(doublings), denominator) > limit
  {
    hide Pow2, NearestRatio;
    DivNat(magnitude, denominator);
    var quotient := magnitude / denominator;
    var remainder := magnitude % denominator;
    Pow2Zero();
    var i := 0;
    while i < doublings
      invariant 0 <= i <= doublings
      invariant 0 <= remainder < denominator
      invariant magnitude * Pow2(i) == quotient * denominator + remainder
    {
      if quotient > limit / 2 {
        DoublingExceeds(magnitude, quotient, remainder, denominator, i, doublings, limit);
        return true, 0;
      }
      Pow2Succ(i);
      DoubleQuotient(magnitude, Pow2(i), quotient, remainder, denominator);
      quotient := quotient * 2;
      remainder := remainder * 2;
      if remainder >= denominator {
        remainder := remainder - denominator;
        quotient := quotient + 1;
      }
      i := i + 1;
    }
    RoundQuotient(quotient, remainder, denominator);
    return false, quotient + (if remainder >= (denominator + 1) / 2 then 1 else 0);
  }

  method GhostNanosToHostUnits(slope: Slope, intercept: int, ghostTime: int, unit: nat) returns (host: Host)
    requires slope.Finite() && slope.NonZero()
    requires InDuration(intercept) && InI128(ghostTime)
    requires unit == 1 || unit == 1000
    ensures host == HostTime(slope, intercept, ghostTime, unit)
  {
    hide RoundHalfAway, NearestRatio, Pow2, ShrinkingUnits, ExactUnits, Bounded;
    var difference := ClampI128(ghostTime - intercept);
    if difference == 0 {
      ZeroUnits(slope, unit);
      return InRange(0);
    }
    var denominator := slope.mantissa * unit;
    var magnitude := Abs(difference);
    var negative := (difference < 0) != slope.negative;
    var limit := DURATION_MAX / unit;
    UnitsMagnitude(slope, difference, unit);
    var units: nat;
    if slope.exponent >= 0 {
      ShrinkingExact(magnitude, denominator, slope.exponent);
      units := ShrinkingUnits(magnitude, denominator, slope.exponent);
    } else {
      var overflow, grown := GrowingUnits(magnitude, denominator, -slope.exponent, limit);
      units := grown;
      if overflow {
        LimitReached(negative, NearestRatio(magnitude * Pow2(-slope.exponent), denominator), unit);
        return Saturated(if negative then -DURATION_MAX else DURATION_MAX);
      }
    }
    LimitReached(negative, units, unit);
    host := Bounded(negative, units, unit);
  }

  function Bounded(negative: bool, units: nat, unit: nat): Host
    requires unit > 0
  {
    var limit := DURATION_MAX / unit;
    var duration := ClampDuration(Signed(negative, Min(units, limit) * unit));
    if units > limit then Saturated(duration) else InRange(duration)
  }

  // ----- correctness -----

  lemma DoubleQuotient(magnitude: nat, p: nat, q: nat, r: nat, d: nat)
    requires magnitude * p == q * d + r
    ensures magnitude * (2 * p) == (q * 2) * d + r * 2
    ensures (q * 2 + 1) * d == (q * 2) * d + d
  {
    assert magnitude * (2 * p) == 2 * (magnitude * p);
    assert (q * 2) * d == 2 * (q * d);
  }

  /** The early exit is taken only when one more doubling already passes the limit. */
  lemma DoublingExceeds(magnitude: nat, q: nat, r: nat, d: nat, i: nat, n: nat, limit: nat)
    requires r < d && i < n
    requires magnitude * Pow2(i) == q * d + r
    requires q > limit / 2
    ensures NearestRatio(magnitude * Pow2(n), d) > limit
  {
    hide Pow2, NearestRatio;
    Pow2StrictMono(i, n);
    MulLeMono(2 * Pow2(i), Pow2(n), magnitude);
    assert magnitude * (2 * Pow2(i)) == 2 * (magnitude * Pow2(i));
    var total := magnitude * Pow2(n);
    NearestRatioBounds(total, d);
    var k := NearestRatio(total, d);
    // 2 q d <= total, so the rounded quotient is at least 2 q
    MulStep(k, 2 * q, d);
    assert (2 * q) * d == 2 * (q * d);
    assert (k + 1) * d == k * d + d;
  }

  lemma ShrinkingExact(magnitude: nat, denominator: nat, shift: nat)
    requires denominator > 0 && magnitude <= I128_MAX + 1
    requires shift >= 128 ==> denominator > 1
    ensures denominator * Pow2(shift) > 0
    ensures ShrinkingUnits(magnitude, denominator, shift) == NearestRatio(magnitude, denominator * Pow2(shift))
  {
    hide Pow2, NearestRatio, Shr;
    DivNat(magnitude, denominator);
    Positive(denominator, Pow2(shift));
    if shift >= 128 {
      Pow2WideLiterals();
      Pow2Mono(128, shift);
      MulLeMono(2, denominator, Pow2(shift));
      NotHalf(magnitude, denominator * Pow2(shift));
    } else if shift == 0 {
      Pow2Zero();
      RoundByRemainder(magnitude, denominator);
    } else {
      Pow2Succ(shift - 1);
      RoundAfterFloor(magnitude, denominator, Pow2(shift - 1));
      Rounded(magnitude / denominator, shift);
    }
  }

  lemma NotHalf(n: nat, d: nat)
    requires d > 2 * U128_MAX && n <= I128_MAX + 1
    ensures NearestRatio(n, d) == 0
  {
    RoundTiny(n, d);
  }

  lemma ZeroUnits(slope: Slope, unit: nat)
    requires slope.NonZero() && unit > 0
    ensures ExactUnits(slope, 0, unit) == 0
  {
    ValueNonZero(slope, unit);
    assert 0.0 / SlopeUnits(slope, unit) == 0.0;
  }

  /** difference / (slope * unit) as a sign and a rounded ratio of naturals. */
  lemma UnitsMagnitude(slope: Slope, difference: int, unit: nat)
    requires slope.NonZero() && unit > 0 && difference != 0
    ensures slope.mantissa * unit > 0
    ensures slope.mantissa * unit * Up(slope.exponent) > 0
    ensures ExactUnits(slope, difference, unit)
         == Signed((difference < 0) != slope.negative,
                   NearestRatio(Abs(difference) * Down(slope.exponent), slope.mantissa * unit * Up(slope.exponent)))
  {
    hide RoundHalfAway, NearestRatio, Up, Down;
    var u, d := Up(slope.exponent), Down(slope.exponent);
    var k := slope.mantissa * u;
    UpPositive(slope.exponent);
    Positive(slope.mantissa, u);
    Positive(slope.mantissa, unit);
    Positive(k, unit);
    assert slope.mantissa * unit * u == k * unit;
    var s := Signed(slope.negative, k);
    ValueNonZero(slope, unit);
    InvertFraction(difference, s, d, unit);
    RoundSignedRatio(difference * d, s * unit);
    SignOfProducts(difference, d, slope.negative, k, unit);
    assert Value(slope) == s as real / d as real;
    assert difference as real / SlopeUnits(slope, unit) == (difference * d) as real / (s * unit) as real;
    ExactUnitsUnfolds(slope, difference, unit);
  }

  lemma ExactUnitsUnfolds(slope: Slope, difference: int, unit: nat)
    requires slope.NonZero() && unit > 0
    requires SlopeUnits(slope, unit) != 0.0
    ensures ExactUnits(slope, difference, unit) == RoundHalfAway(difference as real / SlopeUnits(slope, unit))
  {
    ValueNonZero(slope, unit);
  }

  lemma UpPositive(exponent: int)
    ensures Up(exponent) > 0
  {
  }

  lemma SignOfProducts(x: int, d: nat, negative: bool, k: nat, unit: nat)
    requires x != 0 && d > 0 && k > 0 && unit > 0
    ensures Abs(x * d) == Abs(x) * d && (x * d < 0) == (x < 0)
    ensures Abs(Signed(negative, k) * unit) == k * unit > 0
    ensures (Signed(negative, k) * unit < 0) == negative
  {
    Positive(Abs(x), d);
    Positive(k, unit);
    assert x * d == Signed(x < 0, Abs(x) * d);
    assert Signed(negative, k) * unit == Signed(negative, k * unit);
  }

  lemma InvertFraction(x: int, n: int, d: nat, unit: nat)
    requires n != 0 && d > 0 && unit > 0
    requires (n as real / d as real) * unit as real != 0.0
    ensures n * unit != 0
    ensures x as real / ((n as real / d as real) * unit as real) == (x * d) as real / (n * unit) as real
  {
    MulAsReal(x, d);
    MulAsReal(n, unit);
    InvertRealFraction(x as real, n as real, d as real, unit as real);
  }

  lemma InvertRealFraction(x: real, n: real, d: real, u: real)
    requires n != 0.0 && d > 0.0 && u > 0.0
    requires (n / d) * u != 0.0
    ensures n * u != 0.0
    ensures x / ((n / d) * u) == (x * d) / (n * u)
  {
    var q := n / d;
    var v := q * u;
    var z := x / v;
    assert q * d == n;
    assert z * v == x;
    assert v * d == n * u;
    assert z * (v * d) == x * d;
    assert n * u != 0.0;
    QuotientUnique(z, n * u, x * d);
  }

  lemma LimitReached(negative: bool, units: nat, unit: nat)
    requires unit == 1 || unit == 1000
    ensures Bounded(negative, units, unit)
         == (var exact := Signed(negative, units) * unit;
             if InDuration(exact) then InRange(exact) else Saturated(ClampDuration(exact)))
    ensures units > DURATION_MAX / unit ==> Bounded(negative, units, unit) == Saturated(Signed(negative, DURATION_MAX))
  {
  }

  lemma ClampedThousands(k: int)
    ensures ClampDuration(1000 * k) % 1000 == 0
    ensures 1000 * k == k * 1000
  {
  }

  /** The public inverse in whole microseconds, as a duration. */
  function PublicHost(slope: Slope, intercept: int, ghostTime: int): int
    requires slope.NonZero()
  {
    ClampDuration(1000 * ExactUnits(slope, ghostTime - intercept, 1000))
  }

  /** The public inverse keeps the duration and drops the mark. */
  method GhostToHost(slope: Slope, intercept: int, ghostTime: int) returns (host: int)
    requires slope.Finite() && slope.NonZero()
    requires InDuration(intercept) && InDuration(ghostTime)
    ensures InDuration(host) && host % 1000 == 0
    ensures host == PublicHost(slope, intercept, ghostTime)
  {
    hide ExactUnits, RoundHalfAway;
    var result := GhostNanosToHostUnits(slope, intercept, ghostTime, 1000);
    host := result.nanos;
    ClampedThousands(ExactUnits(slope, ghostTime - intercept, 1000));
  }
}
