/** The public forward map: the scaled offset is rounded to whole microseconds. */
module GhostMicros {
  import opened Rounding
  import opened GhostXForm

  // ----- the code -----

  /** Magnitude of the offset in microseconds from whole = floor(product / 1000) and the rest. */
  function MicrosMagnitude(whole: nat, rest: nat, exponent: int): nat {
    if exponent < 0 then
      var shift := -exponent;
      if shift >= 128 then 0
      else Shr(whole, shift) + (if BitAnd(whole, Pow2(shift) - 1) >= Pow2(shift - 1) then 1 else 0)
    else
      if exponent >= 127 || whole > Shr(I128_MAX, exponent) then I128_MAX
      else
        Min(SaturateU128(Shl128(whole, exponent) + SaturateU128(SaturateU128(rest * Pow2(exponent)) + 500) / 1000),
            I128_MAX)
  }

  /** Dividing before multiplying keeps the product within 128 bits. */
  function OffsetMicros(magnitude: nat, mantissa: nat, exponent: int): nat {
    var fraction := magnitude % 1000 * mantissa;
    var whole := magnitude / 1000 * mantissa + fraction / 1000;
    MicrosMagnitude(whole, fraction % 1000, exponent)
  }

  function HostToGhost(slope: Slope, intercept: int, host: int): int {
    if host == 0 then intercept
    else
      var offset := OffsetMicros(Abs(host), slope.mantissa, slope.exponent);
      ClampDuration(SatAdd(SatMul(Signed((host < 0) != slope.negative, offset), 1000), intercept))
  }

  // ----- correctness -----

  /** One rounding, to the microsecond, of the exact product; then the intercept; then the clamp. */
  lemma ForwardMicrosIsExact(slope: Slope, intercept: int, host: int)
    requires slope.Finite() && InDuration(intercept) && InDuration(host)
    ensures HostToGhost(slope, intercept, host)
         == ClampDuration(1000 * RoundHalfAway(Scaled(slope, host) / 1000.0) + intercept)
  {
    hide RoundHalfAway, NearestRatio, OffsetMicros, Up, Down, SatAdd, SatMul, ClampDuration, Signed, Scaled;
    if host == 0 {
      ZeroProduct(slope);
      InterceptStays(intercept);
      RoundZero();
    } else {
      var a, m := Abs(host), slope.mantissa;
      OffsetExact(a, m, slope.exponent);
      ScaledMagnitude(slope, host, 1000);
      ClampOffset((host < 0) != slope.negative,
                  NearestRatio(a * m * Up(slope.exponent), 1000 * Down(slope.exponent)), intercept);
    }
  }

  lemma ZeroProduct(slope: Slope)
    ensures Scaled(slope, 0) / 1000.0 == 0.0
  {
  }

  lemma InterceptStays(intercept: int)
    requires InDuration(intercept)
    ensures ClampDuration(intercept) == intercept
  {
  }

  lemma OffsetExact(a: nat, m: nat, exponent: int)
    requires 0 < a <= DURATION_MAX && m < 0x20_0000_0000_0000
    requires exponent >= 0 ==> m >= 0x10_0000_0000_0000
    ensures OffsetMicros(a, m, exponent)
         == Min(NearestRatio(a * m * Up(exponent), 1000 * Down(exponent)), I128_MAX)
  {
    hide NearestRatio, MicrosMagnitude, Up, Down;
    DividedProduct(a, m);
    if exponent >= 0 {
      LargeProduct(a, m);
    }
    SmallWhole(a, m);
    var n := a * m;
    MicrosMagnitudeExact(n / 1000, n % 1000, exponent);
  }

  /** Dividing by 1000 before multiplying loses nothing. */
  lemma DividedProduct(a: nat, m: nat)
    ensures a / 1000 * m + a % 1000 * m / 1000 == a * m / 1000
    ensures a % 1000 * m % 1000 == a * m % 1000
  {
    var q, r := a / 1000, a % 1000;
    var f := r * m;
    var w := q * m;
    assert a * m == 1000 * w + f;
  }

  lemma LargeProduct(a: nat, m: nat)
    requires a > 0 && m >= 0x10_0000_0000_0000
    ensures a * m / 1000 >= 0x400_0000_0000
  {
    MulLeMono(1, a, m);
  }

  lemma SmallWhole(a: nat, m: nat)
    requires a <= DURATION_MAX && m < 0x20_0000_0000_0000
    ensures a * m / 1000 < 0x4000_0000_0000_0000_0000_0000_0000_0000
  {
    MulLeMono(a, DURATION_MAX, m);
  }

  lemma ClampOffset(negative: bool, exact: nat, intercept: int)
    requires InDuration(intercept)
    ensures ClampDuration(SatAdd(SatMul(Signed(negative, Min(exact, I128_MAX)), 1000), intercept))
         == ClampDuration(1000 * Signed(negative, exact) + intercept)
  {
  }

  /** The saturations inside never change the result: a normalised significand keeps the shift small. */
  lemma MicrosMagnitudeExact(whole: nat, rest: nat, exponent: int)
    requires rest < 1000 && whole < 0x4000_0000_0000_0000_0000_0000_0000_0000
    requires exponent >= 0 ==> whole >= 0x400_0000_0000
    ensures MicrosMagnitude(whole, rest, exponent)
         == Min(NearestRatio((1000 * whole + rest) * Up(exponent), 1000 * Down(exponent)), I128_MAX)
  {
    hide Pow2, NearestRatio;
    if exponent >= 0 {
      ScaleUp(whole, rest, exponent);
    } else if exponent > -128 {
      ScaleDown(whole, rest, -exponent);
    } else {
      ScaleOut(whole, rest, -exponent);
    }
  }

  lemma MicrosRatio(whole: nat, rest: nat, shift: nat)
    requires shift > 0 && rest < 1000
    ensures NearestRatio(1000 * whole + rest, 1000 * Pow2(shift)) == NearestRatio(whole, Pow2(shift))
  {
    hide Pow2, NearestRatio;
    Pow2Succ(shift - 1);
    RoundAfterFloor(1000 * whole + rest, 1000, Pow2(shift - 1));
    DivUnique(1000 * whole + rest, 1000, whole);
  }

  lemma ScaleDown(whole: nat, rest: nat, shift: nat)
    requires 0 < shift < 128
    requires rest < 1000 && whole < 0x4000_0000_0000_0000_0000_0000_0000_0000
    ensures MicrosMagnitude(whole, rest, 0 - shift)
         == Min(NearestRatio(1000 * whole + rest, 1000 * Pow2(shift)), I128_MAX)
  {
    hide Pow2, NearestRatio, BitAnd;
    MicrosRatio(whole, rest, shift);
    Pow2Succ(shift - 1);
    BitAndMask(whole, shift);
    RoundByRemainder(whole, Pow2(shift));
    DivNat(whole, Pow2(shift));
    MulLeMono(1, Pow2(shift), whole / Pow2(shift));
  }

  lemma ScaleOut(whole: nat, rest: nat, shift: nat)
    requires shift >= 128
    requires rest < 1000 && whole < 0x4000_0000_0000_0000_0000_0000_0000_0000
    ensures MicrosMagnitude(whole, rest, 0 - shift)
         == Min(NearestRatio(1000 * whole + rest, 1000 * Pow2(shift)), I128_MAX)
  {
    hide Pow2, NearestRatio;
    MicrosRatio(whole, rest, shift);
    Pow2WideLiterals();
    Pow2Mono(128, shift);
    RoundTiny(whole, Pow2(shift));
  }

  lemma ScaleUp(whole: nat, rest: nat, shift: nat)
    requires rest < 1000 && whole >= 0x400_0000_0000
    ensures MicrosMagnitude(whole, rest, shift)
         == Min(NearestRatio((1000 * whole + rest) * Pow2(shift), 1000), I128_MAX)
  {
    hide Pow2, NearestRatio;
    var p := Pow2(shift);
    assert (1000 * whole + rest) * p == (whole * p) * 1000 + rest * p;
    RoundWholePart(whole * p, rest * p, 1000);
    NearestThousandth(rest * p);
    Pow2WideLiterals();
    DivNat(I128_MAX, p);
    DivLtIff(I128_MAX, p, whole);
    if shift >= 127 {
      Pow2Mono(127, shift);
      MulLeMono(1, whole, p);
    } else if whole * p <= I128_MAX {
      DivSmall(whole * p, Pow2(128));
      MulLeMono(0x400_0000_0000, whole, p);
      MulLeMono(rest, 1000, p);
    }
  }

  lemma NearestThousandth(x: nat)
    ensures NearestRatio(x, 1000) == (x + 500) / 1000
  {
    NearestRatioUnique(x, 1000, (x + 500) / 1000);
  }

  // ----- the two forward maps -----

  /** Rounding to microseconds moves a mapped time by at most half a microsecond. */
  lemma MapsDifferByHalfMicrosecond(slope: Slope, intercept: int, host: int)
    requires slope.Finite() && InDuration(intercept) && InDuration(host)
    ensures Abs(HostToGhost(slope, intercept, host) - HostToGhostNanos(slope, intercept, host)) <= 500
  {
    hide RoundHalfAway, HostToGhost, HostToGhostWideNanos, Scaled;
    ForwardMicrosIsExact(slope, intercept, host);
    ForwardWideIsExact(slope, intercept, host);
    CoarseRounding(Scaled(slope, host));
  }

  lemma CoarseRounding(x: real)
    ensures Abs(1000 * RoundHalfAway(x / 1000.0) - RoundHalfAway(x)) <= 500
  {
    hide RoundHalfAway;
    var y := x / 1000.0;
    assert x == 1000.0 * y;
    RoundIsNearest(y);
    RoundIsNearest(x);
    var a, b := RoundHalfAway(y), RoundHalfAway(x);
    assert (1000 * a) as real == 1000.0 * a as real;
    assert AbsReal((1000 * a - b) as real) <= 500.5;
  }
}
