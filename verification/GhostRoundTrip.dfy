/** What the forward and the inverse clock map promise together, in nanoseconds. */
module GhostRoundTrip {
  import opened Rounding
  import opened GhostXForm
  import opened GhostMicros
  import opened GhostInverse

  /** Neither the mapped offset nor its sum with the intercept leaves i128. */
  predicate Unsaturated(slope: Slope, intercept: int, host: int) {
    InI128(Offset(slope, host)) && InI128(Offset(slope, host) + intercept)
  }

  function ThereAndBack(slope: Slope, intercept: int, host: int): Host
    requires slope.NonZero()
  {
    HostTime(slope, intercept, HostToGhostWideNanos(slope, intercept, host), 1)
  }

  /** The forward map follows the sign of the slope, clamping included. */
  lemma ForwardMonotone(slope: Slope, intercept: int, earlier: int, later: int)
    requires slope.Finite() && InDuration(intercept) && InDuration(earlier) && InDuration(later)
    requires earlier <= later
    ensures if slope.negative
            then HostToGhostWideNanos(slope, intercept, later) <= HostToGhostWideNanos(slope, intercept, earlier)
            else HostToGhostWideNanos(slope, intercept, earlier) <= HostToGhostWideNanos(slope, intercept, later)
  {
    hide Offset, HostToGhostWideNanos;
    ForwardWideIsExact(slope, intercept, earlier);
    ForwardWideIsExact(slope, intercept, later);
    OffsetMonotone(slope, earlier, later);
  }

  lemma OffsetMonotone(slope: Slope, earlier: int, later: int)
    requires earlier <= later
    ensures if slope.negative then Offset(slope, later) <= Offset(slope, earlier)
            else Offset(slope, earlier) <= Offset(slope, later)
  {
    hide RoundHalfAway, Scaled;
    ScaledOrder(slope, earlier, later);
    if slope.negative {
      RoundMono(Scaled(slope, later), Scaled(slope, earlier));
    } else {
      RoundMono(Scaled(slope, earlier), Scaled(slope, later));
    }
  }

  lemma ScaledOrder(slope: Slope, earlier: int, later: int)
    requires earlier <= later
    ensures if slope.negative then Scaled(slope, later) <= Scaled(slope, earlier)
            else Scaled(slope, earlier) <= Scaled(slope, later)
  {
    hide Value;
    ValueSign(slope);
    ProductOrder(Value(slope), earlier as real, later as real);
  }

  lemma ValueSign(slope: Slope)
    ensures if slope.negative then Value(slope) <= 0.0 else Value(slope) >= 0.0
  {
    hide Pow2;
    var k, d := slope.mantissa * Up(slope.exponent), Down(slope.exponent);
    FractionNonNegative(k as real, d as real);
    NegatedFraction(k as real, d as real);
  }

  lemma NegatedFraction(n: real, d: real)
    requires d > 0.0
    ensures (-n) / d == -(n / d)
  {
    var q := n / d;
    assert q * d == n;
    QuotientUnique(-q, d, -n);
  }

  lemma ProductOrder(v: real, x: real, y: real)
    requires x <= y
    ensures v >= 0.0 ==> v * x <= v * y
    ensures v <= 0.0 ==> v * y <= v * x
  {
    if v > 0.0 {
      RealMulStep(x, y, v);
    } else if v < 0.0 {
      RealMulStep(x, y, -v);
      assert (-v) * x == -(v * x) && (-v) * y == -(v * y);
    }
  }

  /** What the inverse computes from an unsaturated forward image. */
  lemma InverseOfForward(slope: Slope, intercept: int, host: int)
    requires slope.Finite() && slope.NonZero() && InDuration(intercept) && InDuration(host)
    requires Unsaturated(slope, intercept, host)
    ensures Value(slope) != 0.0
    ensures ThereAndBack(slope, intercept, host) == Limited(Recovered(slope, host))
  {
    hide RoundHalfAway, HostToGhostWideNanos, Value, Offset;
    ForwardWideIsExact(slope, intercept, host);
    ValueNonZero(slope, 1);
    assert SlopeUnits(slope, 1) == Value(slope);
    ExactUnitsUnfolds(slope, Offset(slope, host), 1);
  }

  /** The forward offset divided by the slope again. */
  function Recovered(slope: Slope, host: int): int
    requires Value(slope) != 0.0
  {
    RoundHalfAway(Offset(slope, host) as real / Value(slope))
  }

  function Limited(nanos: int): Host {
    if InDuration(nanos) then InRange(nanos) else Saturated(ClampDuration(nanos))
  }

  /** A slope of at least one loses nothing. */
  lemma SteepRoundTrip(slope: Slope, intercept: int, host: int)
    requires slope.Finite() && slope.NonZero() && InDuration(intercept) && InDuration(host)
    requires Unsaturated(slope, intercept, host)
    requires AbsReal(Value(slope)) >= 1.0
    ensures ThereAndBack(slope, intercept, host) == InRange(host)
  {
    hide ThereAndBack, Value, Recovered;
    InverseOfForward(slope, intercept, host);
    SteepRecovers(slope, host);
  }

  lemma SteepRecovers(slope: Slope, host: int)
    requires AbsReal(Value(slope)) >= 1.0
    ensures Recovered(slope, host) == host
  {
    hide RoundHalfAway, Value, Offset;
    var v, n := Value(slope), Offset(slope, host);
    OffsetError(slope, host);
    if AbsReal(v) == 1.0 {
      UnitProduct(slope, host);
    }
    InverseError(v, host as real, Scaled(slope, host), n as real);
    RoundUnique(n as real / v, host);
  }

  lemma OffsetError(slope: Slope, host: int)
    ensures AbsReal(Offset(slope, host) as real - Scaled(slope, host)) <= 0.5
  {
    hide RoundHalfAway, Scaled;
    RoundIsNearest(Scaled(slope, host));
  }

  lemma UnitProduct(slope: Slope, host: int)
    requires AbsReal(Value(slope)) == 1.0
    ensures Offset(slope, host) as real == Scaled(slope, host)
  {
    hide RoundHalfAway, Value;
    if Value(slope) == 1.0 {
      assert Scaled(slope, host) == host as real;
      IntegerRounds(host);
    } else {
      assert Scaled(slope, host) == (-host) as real;
      IntegerRounds(-host);
    }
  }

  lemma IntegerRounds(n: int)
    ensures RoundHalfAway(n as real) == n
  {
  }

  /** An error of e in the ghost offset is an error of e / |v| in host time. */
  lemma InverseError(v: real, x: real, s: real, n: real)
    requires v != 0.0 && s == v * x
    requires AbsReal(n - s) <= 0.5
    ensures AbsReal(n / v - x) * AbsReal(v) == AbsReal(n - s)
    ensures AbsReal(v) > 1.0 || (AbsReal(v) == 1.0 && n == s) ==> AbsReal(x - n / v) < 0.5
  {
    var q := n / v;
    var e := q - x;
    assert q * v == n;
    ErrorTimes(q, x, v);
    assert e * v == n - s;
    AbsProduct(e, v);
    assert AbsReal(x - q) == AbsReal(e);
    SmallError(AbsReal(e), AbsReal(v), AbsReal(n - s));
  }

  lemma ErrorTimes(q: real, x: real, v: real)
    ensures (q - x) * v == q * v - v * x
  {
  }

  lemma SmallError(a: real, v: real, e: real)
    requires a >= 0.0 && a * v == e <= 0.5
    ensures v > 1.0 || (v == 1.0 && e == 0.0) ==> a < 0.5
  {
    if v > 1.0 && a >= 0.5 {
      RealMulStep(0.5, a, v);
      assert false;
    }
  }

  /** A flatter slope costs at most half a ghost nanosecond seen from the host, plus the final rounding. */
  lemma FlatRoundTripError(slope: Slope, intercept: int, host: int)
    requires slope.Finite() && slope.NonZero() && InDuration(intercept) && InDuration(host)
    requires Unsaturated(slope, intercept, host)
    ensures Value(slope) != 0.0
    ensures AbsReal(ThereAndBack(slope, intercept, host).nanos as real - host as real)
         <= 0.5 / AbsReal(Value(slope)) + 0.5
  {
    hide ThereAndBack, Value, Recovered;
    InverseOfForward(slope, intercept, host);
    FlatRecovers(slope, host);
    ClampApproaches(Recovered(slope, host), host);
  }

  /** Clamping moves a result towards every host time that is itself a duration. */
  lemma ClampApproaches(r: int, host: int)
    requires InDuration(host)
    ensures AbsReal(ClampDuration(r) as real - host as real) <= AbsReal(r as real - host as real)
  {
  }

  lemma FlatRecovers(slope: Slope, host: int)
    requires Value(slope) != 0.0
    ensures AbsReal(Recovered(slope, host) as real - host as real) <= 0.5 / AbsReal(Value(slope)) + 0.5
  {
    hide RoundHalfAway, Value, Offset;
    OffsetError(slope, host);
    HostError(Value(slope), host as real, Scaled(slope, host), Offset(slope, host) as real);
    RoundIsNearest(Offset(slope, host) as real / Value(slope));
  }

  lemma HostError(v: real, x: real, s: real, n: real)
    requires v != 0.0 && s == v * x
    requires AbsReal(n - s) <= 0.5
    ensures AbsReal(n / v - x) <= 0.5 / AbsReal(v)
  {
    InverseError(v, x, s, n);
    DividedBound(AbsReal(n / v - x), AbsReal(v));
  }

  lemma DividedBound(a: real, v: real)
    requires v > 0.0 && a * v <= 0.5
    ensures a <= 0.5 / v
  {
    var b := 0.5 / v;
    assert b * v == 0.5;
    RealMulStep(b, a, v);
  }

  // ----- slopes below one merge host times -----

  lemma FindCollision(m: nat, d: nat, count: nat) returns (x: nat)
    requires d > 0
    requires NearestRatio(count * m, d) < count
    ensures x < count
    ensures NearestRatio(x * m, d) == NearestRatio((x + 1) * m, d)
    decreases count
  {
    var last := (count - 1) * m;
    MulLeMono(count - 1, count, m);
    assert last + m == count * m;
    NearestMono(last, count * m, d);
    if NearestRatio(last, d) == NearestRatio(count * m, d) {
      x := count - 1;
    } else {
      x := FindCollision(m, d, count - 1);
    }
  }

  /** Below one the significand is at most 1 - 2^-53 of the divisor. */
  lemma FlatShape(slope: Slope)
    requires slope.Finite() && AbsReal(Value(slope)) < 1.0
    ensures slope.exponent <= -53 && slope.mantissa < Down(slope.exponent)
    ensures Down(slope.exponent) >= 0x20_0000_0000_0000
  {
    hide Pow2;
    Pow2Literals();
    var e := slope.exponent;
    var k, d := slope.mantissa * Up(e), Down(e);
    AbsFraction(slope.negative, k, d);
    if e >= 0 {
      MulLeMono(1, Pow2(e), slope.mantissa);
    } else if e > -53 {
      Pow2Mono(-e, 52);
    } else {
      Pow2Mono(53, -e);
    }
  }

  lemma AbsFraction(negative: bool, k: nat, d: nat)
    requires d > 0
    ensures AbsReal(Signed(negative, k) as real / d as real) < 1.0 ==> k < d
  {
    NegatedFraction(k as real, d as real);
    assert Signed(true, k) as real == -(k as real);
    var q := k as real / d as real;
    FractionNonNegative(k as real, d as real);
    assert AbsReal(Signed(negative, k) as real / d as real) == q;
    if q < 1.0 {
      assert q * d as real == k as real;
      RealMulStep(q, 1.0, d as real);
      assert k as real < d as real;
    }
  }

  /** Two neighbouring small host times share one offset. */
  lemma FlatCollision(slope: Slope) returns (x: nat)
    requires slope.Finite() && AbsReal(Value(slope)) < 1.0
    ensures x < 0x40_0000_0000_0000
    ensures Offset(slope, x) == Offset(slope, x + 1) && Abs(Offset(slope, x)) <= x
  {
    hide Offset, NearestRatio, Pow2, Value;
    FlatShape(slope);
    var m, d := slope.mantissa, Down(slope.exponent);
    var n := 0x40_0000_0000_0000;
    FlatBound(n, m, d);
    x := FindCollision(m, d, n);
    ImageOf(slope, x);
    ImageOf(slope, x + 1);
    NearestBelow(x, m, d);
  }

  /** Two neighbouring host times share one ghost time, so no inverse can recover both. */
  lemma FlatSlopeCollides(slope: Slope, intercept: int) returns (host: int)
    requires slope.Finite() && slope.NonZero() && InDuration(intercept)
    requires AbsReal(Value(slope)) < 1.0
    ensures InDuration(host) && InDuration(host + 1)
    ensures Unsaturated(slope, intercept, host) && Unsaturated(slope, intercept, host + 1)
    ensures HostToGhostWideNanos(slope, intercept, host) == HostToGhostWideNanos(slope, intercept, host + 1)
  {
    hide Offset, HostToGhostWideNanos, Value;
    host := FlatCollision(slope);
    ForwardWideIsExact(slope, intercept, host);
    ForwardWideIsExact(slope, intercept, host + 1);
  }

  lemma ImageOf(slope: Slope, host: nat)
    requires slope.exponent < 0
    ensures Offset(slope, host) == Signed(slope.negative, NearestRatio(host * slope.mantissa, Down(slope.exponent)))
  {
    hide RoundHalfAway, NearestRatio, Pow2, Value;
    if host == 0 {
      assert Scaled(slope, 0) == 0.0;
      RoundZero();
      RoundTiny(0, Down(slope.exponent));
    } else {
      ScaledMagnitude(slope, host, 1);
      assert Scaled(slope, host) / 1.0 == Scaled(slope, host);
    }
  }

  /** n * m / d is at least one below n once n reaches twice the divisor's precision. */
  lemma FlatBound(n: nat, m: nat, d: nat)
    requires n == 0x40_0000_0000_0000 && m < d && m < 0x20_0000_0000_0000 && d >= 0x20_0000_0000_0000
    ensures NearestRatio(n * m, d) < n
  {
    hide NearestRatio;
    NearestRatioBounds(n * m, d);
    var q := NearestRatio(n * m, d);
    // n * m <= n * d - 2 * d
    FlatProduct(n, m, d);
    MulStep(n - 1, q, d);
    assert (n - 1) * d == n * d - d;
    assert n * d == (n - 1 + 1) * d;
  }

  lemma FlatProduct(n: nat, m: nat, d: nat)
    requires n == 0x40_0000_0000_0000 && m < d && m < 0x20_0000_0000_0000 && d >= 0x20_0000_0000_0000
    ensures n * m + 2 * d <= n * d
  {
    var c := 0x20_0000_0000_0000;
    // m <= c - 1 and c <= d, so n (d - m) >= 2 c (d - c + 1) >= 2 d
    MulLeMono(c - 1, d - 1, 1);
    assert n * d - n * m == n * (d - m);
    assert d - m >= d - c + 1;
    assert n * (d - m) >= n * (d - c + 1);
    assert n * (d - c + 1) == 2 * c * (d - c) + 2 * c;
    assert 2 * c * (d - c) >= 2 * (d - c);
  }

  lemma NearestBelow(x: nat, m: nat, d: nat)
    requires m < d && x <= 0x40_0000_0000_0000
    ensures NearestRatio(x * m, d) <= x
  {
    hide NearestRatio;
    NearestRatioBounds(x * m, d);
    var q := NearestRatio(x * m, d);
    MulLeMono(m, d, x);
    MulStep(x, q, d);
    assert (x + 1) * d == x * d + d;
  }

  /** The round trip recovers every unsaturated host time exactly when the slope is at least one. */
  lemma RoundTripExactlyWhenSteep(slope: Slope, intercept: int)
    requires slope.Finite() && slope.NonZero() && InDuration(intercept)
    ensures AbsReal(Value(slope)) >= 1.0 <==>
            forall host | InDuration(host) && Unsaturated(slope, intercept, host) ::
              ThereAndBack(slope, intercept, host) == InRange(host)
  {
    hide HostToGhostWideNanos, HostTime, Unsaturated, Value;
    if AbsReal(Value(slope)) >= 1.0 {
      forall host | InDuration(host) && Unsaturated(slope, intercept, host)
        ensures ThereAndBack(slope, intercept, host) == InRange(host)
      {
        SteepRoundTrip(slope, intercept, host);
      }
    } else {
      var host := FlatSlopeCollides(slope, intercept);
      assert ThereAndBack(slope, intercept, host) == ThereAndBack(slope, intercept, host + 1);
    }
  }

  // ----- the public maps, in whole microseconds -----

  /** The public forward map does not clamp. */
  predicate PublicUnsaturated(slope: Slope, intercept: int, micros: int) {
    InDuration(1000 * Offset(slope, micros) + intercept)
  }

  function PublicThereAndBack(slope: Slope, intercept: int, host: int): int
    requires slope.NonZero()
  {
    PublicHost(slope, intercept, HostToGhost(slope, intercept, host))
  }

  /** On whole microseconds the public forward map is the nanosecond map at a larger unit. */
  lemma PublicForward(slope: Slope, intercept: int, micros: int)
    requires slope.Finite() && InDuration(intercept) && InDuration(1000 * micros)
    requires PublicUnsaturated(slope, intercept, micros)
    ensures HostToGhost(slope, intercept, 1000 * micros) == 1000 * Offset(slope, micros) + intercept
  {
    hide RoundHalfAway, HostToGhost, Value;
    ForwardMicrosIsExact(slope, intercept, 1000 * micros);
    assert (1000 * micros) as real == 1000.0 * micros as real;
    ScaledThousands(Value(slope), micros as real);
    assert Scaled(slope, 1000 * micros) / 1000.0 == Scaled(slope, micros);
  }

  lemma ScaledThousands(v: real, x: real)
    ensures v * (1000.0 * x) / 1000.0 == v * x
  {
    assert v * (1000.0 * x) == (v * x) * 1000.0;
    QuotientUnique(v * x, 1000.0, v * (1000.0 * x));
  }

  lemma PublicInverseOfForward(slope: Slope, intercept: int, micros: int)
    requires slope.Finite() && slope.NonZero() && InDuration(intercept) && InDuration(1000 * micros)
    requires PublicUnsaturated(slope, intercept, micros)
    ensures Value(slope) != 0.0
    ensures PublicThereAndBack(slope, intercept, 1000 * micros) == ClampDuration(1000 * Recovered(slope, micros))
  {
    hide RoundHalfAway, HostToGhost, Value, Offset, ClampDuration;
    PublicForward(slope, intercept, micros);
    ValueNonZero(slope, 1);
    assert SlopeUnits(slope, 1) == Value(slope);
    ValueNonZero(slope, 1000);
    var n := Offset(slope, micros);
    ExactUnitsUnfolds(slope, 1000 * n, 1000);
    assert (1000 * n) as real == 1000.0 * n as real;
    CancelThousand(n as real, Value(slope));
  }

  lemma CancelThousand(n: real, v: real)
    requires v != 0.0
    ensures v * 1000.0 != 0.0
    ensures (1000.0 * n) / (v * 1000.0) == n / v
  {
    var z := n / v;
    assert z * v == n;
    assert z * (v * 1000.0) == 1000.0 * (z * v);
    QuotientUnique(z, v * 1000.0, 1000.0 * n);
  }

  /** A slope of at least one returns every whole microsecond; a flatter one is off by its own step at most. */
  lemma PublicRoundTripError(slope: Slope, intercept: int, micros: int)
    requires slope.Finite() && slope.NonZero() && InDuration(intercept) && InDuration(1000 * micros)
    requires PublicUnsaturated(slope, intercept, micros)
    ensures Value(slope) != 0.0
    ensures AbsReal(Value(slope)) >= 1.0 ==> PublicThereAndBack(slope, intercept, 1000 * micros) == 1000 * micros
    ensures AbsReal(PublicThereAndBack(slope, intercept, 1000 * micros) as real - (1000 * micros) as real)
         <= 1000.0 * (0.5 / AbsReal(Value(slope)) + 0.5)
  {
    hide PublicThereAndBack, Value, Recovered;
    PublicInverseOfForward(slope, intercept, micros);
    if AbsReal(Value(slope)) >= 1.0 {
      SteepRecovers(slope, micros);
    }
    FlatRecovers(slope, micros);
    var r := Recovered(slope, micros);
    ClampApproaches(1000 * r, 1000 * micros);
    ThousandTimes(r, micros, 0.5 / AbsReal(Value(slope)) + 0.5);
  }

  lemma ThousandTimes(r: int, x: int, bound: real)
    requires AbsReal(r as real - x as real) <= bound
    ensures AbsReal((1000 * r) as real - (1000 * x) as real) <= 1000.0 * bound
  {
  }

  lemma OffsetNegates(slope: Slope, x: int)
    ensures Offset(slope, -x) == -Offset(slope, x)
  {
    hide RoundHalfAway, Value;
    assert (-x) as real == -(x as real);
    NegatedProduct(Value(slope), x as real);
    assert Scaled(slope, -x) == -Scaled(slope, x);
    RoundNegates(Scaled(slope, x));
  }

  lemma NegatedProduct(v: real, x: real)
    ensures v * -x == -(v * x)
  {
  }

  /** Every whole microsecond survives the public maps exactly when the slope is at least one. */
  lemma PublicRoundTripExactlyWhenSteep(slope: Slope, intercept: int)
    requires slope.Finite() && slope.NonZero() && InDuration(intercept)
    ensures AbsReal(Value(slope)) >= 1.0 <==>
            forall micros | InDuration(1000 * micros) && PublicUnsaturated(slope, intercept, micros) ::
              PublicThereAndBack(slope, intercept, 1000 * micros) == 1000 * micros
  {
    hide PublicUnsaturated, PublicThereAndBack, Value;
    if AbsReal(Value(slope)) >= 1.0 {
      forall micros | InDuration(1000 * micros) && PublicUnsaturated(slope, intercept, micros)
        ensures PublicThereAndBack(slope, intercept, 1000 * micros) == 1000 * micros
      {
        PublicRoundTripError(slope, intercept, micros);
      }
    } else {
      var x, y := PublicCollision(slope, intercept);
      assert 1000 * x != 1000 * y;
    }
  }

  /** Two neighbouring microseconds, on the side of zero that leads away from the intercept's limit. */
  lemma PublicCollision(slope: Slope, intercept: int) returns (x: int, y: int)
    requires slope.Finite() && slope.NonZero() && InDuration(intercept)
    requires AbsReal(Value(slope)) < 1.0
    ensures x != y && InDuration(1000 * x) && InDuration(1000 * y)
    ensures PublicUnsaturated(slope, intercept, x) && PublicUnsaturated(slope, intercept, y)
    ensures PublicThereAndBack(slope, intercept, 1000 * x) == PublicThereAndBack(slope, intercept, 1000 * y)
  {
    hide Offset, HostToGhost, Value, PublicHost;
    var k: int := FlatCollision(slope);
    OffsetNegates(slope, k);
    OffsetNegates(slope, k + 1);
    if (Offset(slope, k) < 0) == (intercept < 0) {
      x, y := -k, -(k + 1);
    } else {
      x, y := k, k + 1;
    }
    PublicForward(slope, intercept, x);
    PublicForward(slope, intercept, y);
  }
}
