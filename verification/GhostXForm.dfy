/**
 The affine map from host time to ghost time, `slope * host + intercept`, with a binary64
 slope and nanosecond times that do not fit the significand.

 Times are integer nanoseconds within Chrono's duration limits. A finite slope is its
 decoded form (section 3.4 of IEEE 754): a sign, a significand below 2^53 and a binary
 exponent, the significand being normalised except at the smallest exponent.
 */
module GhostXForm {
  import opened Rounding

  // ----- data -----

  const U64_MAX: nat := 0xFFFF_FFFF_FFFF_FFFF

  /** Two to the exponent, as a natural numerator over a natural denominator. */
  function Up(exponent: int): nat {
    if exponent >= 0 then Pow2(exponent) else 1
  }

  function Down(exponent: int): (d: nat)
    ensures d > 0
  {
    if exponent >= 0 then 1 else Pow2(-exponent)
  }

  datatype Slope = Slope(negative: bool, mantissa: nat, exponent: int) {
    predicate Finite() {
      && mantissa < 0x20_0000_0000_0000
      && -1075 <= exponent <= 971
      && (exponent > -1075 ==> mantissa >= 0x10_0000_0000_0000)
    }

    predicate NonZero() {
      mantissa > 0
    }
  }

  /** The real number the slope denotes. */
  function Value(slope: Slope): real {
    Signed(slope.negative, slope.mantissa * Up(slope.exponent)) as real / Down(slope.exponent) as real
  }

  /** The real product slope * host. */
  function Scaled(slope: Slope, host: int): real {
    Value(slope) * host as real
  }

  /** The product rounded to the nanosecond. */
  function Offset(slope: Slope, host: int): int {
    RoundHalfAway(Scaled(slope, host))
  }

  // ----- nanosecond forward map: the code -----

  /** The low 128 bits and the rest of magnitude * mantissa, from two 64-bit halves and a carry. */
  function WideProduct(magnitude: nat, mantissa: nat): (nat, nat) {
    var lower := BitAnd(magnitude, U64_MAX) * mantissa;
    var upper := Shr(magnitude, 64) * mantissa;
    var sum := lower + Shl128(upper, 64);
    if sum > U128_MAX then (sum - U128_MAX - 1, Shr(upper, 64) + 1) else (sum, Shr(upper, 64))
  }

  /** The wide product times two to the exponent, rounded, saturating at 128 bits. */
  function ShiftRound(lower: nat, upper: nat, exponent: int): nat {
    if exponent < 0 then
      var shift := -exponent;
      var overflow := shift < 128 && Shr(upper, shift) != 0;
      var whole :=
        if shift <= 127 then BitOr(Shr(lower, shift), Shl128(upper, 128 - shift))
        else if shift == 128 then upper
        else if shift <= 255 then Shr(upper, shift - 128)
        else 0;
      var roundUp :=
        if shift <= 128 then Shr(lower, shift - 1) % 2 != 0
        else if shift <= 256 then Shr(upper, shift - 129) % 2 != 0
        else false;
      if overflow then U128_MAX
      else Min(SaturateU128(whole + (if roundUp then 1 else 0)), U128_MAX)
    else
      if upper != 0 || exponent >= 128 || lower > Shr(U128_MAX, exponent) then U128_MAX
      else Shl128(lower, exponent)
  }

  /** Sign-and-magnitude addition of the intercept, narrowed to i128. */
  function AddIntercept(negative: bool, magnitude: nat, intercept: int): int {
    var (sum, negative) :=
      if negative == (intercept < 0) then (SaturateU128(magnitude + Abs(intercept)), negative)
      else if magnitude >= Abs(intercept) then (magnitude - Abs(intercept), negative)
      else (Abs(intercept) - magnitude, !negative);
    var bounded := Min(sum, I128_MAX + (if negative then 1 else 0));
    if negative then (if bounded > I128_MAX then I128_MIN else -bounded) else bounded
  }

  function HostToGhostWideNanos(slope: Slope, intercept: int, host: int): int {
    if host == 0 then intercept
    else
      var (lower, upper) := WideProduct(Abs(host), slope.mantissa);
      AddIntercept((host < 0) != slope.negative, ShiftRound(lower, upper, slope.exponent), intercept)
  }

  function HostToGhostNanos(slope: Slope, intercept: int, host: int): int {
    ClampDuration(HostToGhostWideNanos(slope, intercept, host))
  }

  // ----- nanosecond forward map: correctness -----

  /** The forward map is the rounded real product plus the intercept, clamped to i128. */
  lemma ForwardWideIsExact(slope: Slope, intercept: int, host: int)
    requires slope.Finite() && InDuration(intercept) && InDuration(host)
    ensures HostToGhostWideNanos(slope, intercept, host)
         == ClampI128(Offset(slope, host) + intercept)
  {
    hide RoundHalfAway, NearestRatio, WideProduct, ShiftRound, AddIntercept, Up, Down;
    if host == 0 {
      assert Scaled(slope, 0) == 0.0;
      RoundZero();
    } else {
      var magnitude, m := Abs(host), slope.mantissa;
      var (lower, upper) := WideProduct(magnitude, m);
      WideProductExact(magnitude, m);
      if slope.exponent >= 128 {
        Positive(magnitude, m);
      }
      ShiftRoundExact(lower, upper, slope.exponent);
      ScaledMagnitude(slope, host, 1);
      assert Scaled(slope, host) / 1.0 == Scaled(slope, host);
      AddInterceptExact((host < 0) != slope.negative,
                        NearestRatio(magnitude * m * Up(slope.exponent), Down(slope.exponent)), intercept);
    }
  }

  lemma RoundZero()
    ensures RoundHalfAway(0.0) == 0
  {
  }

  /** slope * host / unit as a sign and a rounded ratio of naturals. */
  lemma ScaledMagnitude(slope: Slope, host: int, unit: nat)
    requires unit > 0 && host != 0
    ensures unit * Down(slope.exponent) > 0
    ensures RoundHalfAway(Scaled(slope, host) / unit as real)
         == Signed((host < 0) != slope.negative,
                   NearestRatio(Abs(host) * slope.mantissa * Up(slope.exponent), unit * Down(slope.exponent)))
  {
    hide RoundHalfAway, NearestRatio, Up, Down;
    var k, d := slope.mantissa * Up(slope.exponent), Down(slope.exponent);
    var a := Abs(host);
    var negative := (host < 0) != slope.negative;
    Positive(unit, d);
    SignedTimes(slope.negative, k, host);
    ScaleFraction(Signed(slope.negative, k), d, host, unit);
    Reorder(a, slope.mantissa, Up(slope.exponent));
    assert Scaled(slope, host) / unit as real == Signed(negative, k * a) as real / (unit * d) as real;
    RoundSigned(negative, k * a, unit * d);
  }

  lemma Reorder(a: nat, m: nat, u: nat)
    ensures a * m * u == (m * u) * a
  {
  }

  lemma SignedTimes(negative: bool, k: nat, x: int)
    ensures Signed(negative, k) * x == Signed((x < 0) != negative, k * Abs(x))
  {
  }

  lemma ScaleFraction(n: int, d: nat, x: int, unit: nat)
    requires d > 0 && unit > 0
    ensures unit * d > 0
    ensures (n as real / d as real) * x as real / unit as real == (n * x) as real / (unit * d) as real
  {
    MulAsReal(n, x);
    MulAsReal(unit, d);
    Positive(unit, d);
    FractionTimes(n as real, d as real, x as real, unit as real);
  }

  lemma FractionTimes(n: real, d: real, x: real, u: real)
    requires d > 0.0 && u > 0.0
    ensures u * d > 0.0
    ensures (n / d) * x / u == (n * x) / (u * d)
  {
    var q := n / d;
    var z := q * x / u;
    assert q * d == n;
    assert z * u == q * x;
    assert z * (u * d) == (z * u) * d;
    assert (q * x) * d == n * x;
    QuotientUnique(z, u * d, n * x);
  }

  /** Saturating the magnitude first does not change the clamped sum. */
  lemma AddInterceptExact(negative: bool, exact: nat, intercept: int)
    requires InDuration(intercept)
    ensures AddIntercept(negative, Min(exact, U128_MAX), intercept) == ClampI128(Signed(negative, exact) + intercept)
  {
  }

  // ----- the split product -----

  lemma WideProductExact(magnitude: nat, mantissa: nat)
    requires magnitude <= DURATION_MAX && mantissa < 0x20_0000_0000_0000
    ensures WideProduct(magnitude, mantissa).0 <= U128_MAX
    ensures WideProduct(magnitude, mantissa).1 <= U128_MAX
    ensures WideProduct(magnitude, mantissa).1 * (U128_MAX + 1) + WideProduct(magnitude, mantissa).0
         == magnitude * mantissa
  {
    hide Pow2, BitAnd, Shr, Shl128;
    WideHalves(magnitude, mantissa);
    WideSum(BitAnd(magnitude, U64_MAX) * mantissa, Shr(magnitude, 64) * mantissa,
            Shr(Shr(magnitude, 64) * mantissa, 64));
  }

  lemma WideHalves(magnitude: nat, mantissa: nat)
    requires magnitude <= DURATION_MAX && mantissa < 0x20_0000_0000_0000
    ensures BitAnd(magnitude, U64_MAX) * mantissa <= U128_MAX - 0x1_0000_0000_0000_0000
    ensures BitAnd(magnitude, U64_MAX) * mantissa + Shr(magnitude, 64) * mantissa * 0x1_0000_0000_0000_0000
         == magnitude * mantissa
    ensures Shr(Shr(magnitude, 64) * mantissa, 64) < 0x1_0000_0000_0000_0000
    ensures Shl128(Shr(magnitude, 64) * mantissa, 64)
         == (Shr(magnitude, 64) * mantissa - Shr(Shr(magnitude, 64) * mantissa, 64) * 0x1_0000_0000_0000_0000)
            * 0x1_0000_0000_0000_0000
            <= U128_MAX
  {
    hide Pow2, BitAnd;
    Pow2Literals();
    Pow2WideLiterals();
    var w := Pow2(64);
    BitAndMask(magnitude, 64);
    DivNat(magnitude, w);
    DivLtIff(magnitude, w, w);
    var high, low := magnitude / w, magnitude % w;
    MulLeMono(low, w, mantissa);
    CarryExact(high, low, mantissa, w);
    var upper := high * mantissa;
    DivNat(upper, w);
    MulLeMono(high, w, mantissa);
    DivLtIff(upper, w, w);
    Pow2Add(64, 64);
    ShiftedModulus(upper, w);
  }

  lemma WideSum(lower: nat, upper: nat, high: nat)
    requires high < 0x1_0000_0000_0000_0000
    requires lower <= U128_MAX
    ensures lower + (upper - high * 0x1_0000_0000_0000_0000) * 0x1_0000_0000_0000_0000 + high * (U128_MAX + 1)
         == lower + upper * 0x1_0000_0000_0000_0000
  {
  }

  /** Shifting left by a word and truncating to two words keeps the low word. */
  lemma ShiftedModulus(x: nat, w: nat)
    requires w > 0
    ensures w * w > 0
    ensures (x * w) % (w * w) == x % w * w
  {
    DivNat(x, w);
    Positive(w, w);
    ShiftedRemainder(x / w, x % w, w);
  }

  lemma ShiftedRemainder(q: nat, r: nat, w: nat)
    requires r < w
    ensures w * w > 0
    ensures (q * w + r) * w % (w * w) == r * w
  {
    Positive(w, w);
    var ww := w * w;
    MulLtMono(r, w, w);
    assert (q * w + r) * w == q * ww + r * w;
    RemainderUnique(q, r * w, ww);
  }

  lemma RemainderUnique(q: nat, r: nat, d: nat)
    requires r < d
    ensures (q * d + r) % d == r
  {
    assert (q + 1) * d == q * d + d;
    DivUnique(q * d + r, d, q);
    DivNat(q * d + r, d);
  }

  lemma CarryExact(high: nat, low: nat, m: nat, w: nat)
    ensures (high * w + low) * m == high * m * w + low * m
  {
    assert (high * w + low) * m == high * w * m + low * m;
    assert high * w * m == high * m * w;
  }

  // ----- shifting and rounding -----

  lemma ShiftRoundExact(lower: nat, upper: nat, exponent: int)
    requires lower <= U128_MAX && upper <= U128_MAX
    requires exponent >= 128 ==> lower + upper > 0
    ensures ShiftRound(lower, upper, exponent)
         == Min(NearestRatio((upper * (U128_MAX + 1) + lower) * Up(exponent), Down(exponent)), U128_MAX)
  {
    hide Pow2, NearestRatio, ShiftRound;
    if exponent >= 0 {
      NearestOverOne((upper * (U128_MAX + 1) + lower) * Up(exponent));
      ShiftLeftExact(lower, upper, exponent);
    } else if exponent >= -127 {
      ShiftNarrow(lower, upper, -exponent);
    } else if exponent >= -256 {
      ShiftWide(lower, upper, -exponent);
    } else {
      ShiftOut(lower, upper, -exponent);
    }
  }

  lemma ShiftLeftExact(lower: nat, upper: nat, shift: nat)
    requires lower <= U128_MAX
    requires shift >= 128 ==> lower + upper > 0
    ensures ShiftRound(lower, upper, shift) == Min((upper * (U128_MAX + 1) + lower) * Pow2(shift), U128_MAX)
  {
    hide Pow2;
    Pow2WideLiterals();
    var p := upper * (U128_MAX + 1) + lower;
    if upper != 0 {
      MulLeMono(1, Pow2(shift), p);
    } else if shift >= 128 {
      Pow2Mono(128, shift);
      MulLeMono(1, lower, Pow2(shift));
    } else {
      ShiftFits(lower, shift);
    }
  }

  lemma ShiftFits(x: nat, shift: nat)
    ensures x > Shr(U128_MAX, shift) <==> x * Pow2(shift) > U128_MAX
    ensures x * Pow2(shift) <= U128_MAX ==> Shl128(x, shift) == x * Pow2(shift)
  {
    hide Pow2;
    Pow2WideLiterals();
    DivNat(U128_MAX, Pow2(shift));
    DivLtIff(U128_MAX, Pow2(shift), x);
    if x * Pow2(shift) <= U128_MAX {
      DivSmall(x * Pow2(shift), Pow2(128));
    }
  }

  lemma ShiftNarrow(lower: nat, upper: nat, shift: nat)
    requires 1 <= shift <= 127
    requires lower <= U128_MAX && upper <= U128_MAX
    ensures ShiftRound(lower, upper, 0 - shift)
         == Min(NearestRatio(upper * (U128_MAX + 1) + lower, Pow2(shift)), U128_MAX)
  {
    hide Pow2, BitOr, NearestRatio, Shr, Shl128;
    NarrowWhole(lower, upper, shift);
    NarrowBit(lower, upper, shift);
    Rounded(upper * (U128_MAX + 1) + lower, shift);
  }

  lemma Rounded(p: nat, shift: nat)
    requires shift > 0
    ensures NearestRatio(p, Pow2(shift)) == Shr(p, shift) + Shr(p, shift - 1) % 2
  {
    RoundShift(p, shift);
  }

  lemma NarrowBit(lower: nat, upper: nat, shift: nat)
    requires 1 <= shift <= 127
    ensures Shr(upper * (U128_MAX + 1) + lower, shift - 1) % 2 == Shr(lower, shift - 1) % 2
  {
    ShiftedBit(upper, lower, shift);
  }

  lemma NarrowWhole(lower: nat, upper: nat, shift: nat)
    requires 1 <= shift <= 127
    requires lower <= U128_MAX && upper <= U128_MAX
    ensures Shr(upper, shift) != 0 ==> Shr(upper * (U128_MAX + 1) + lower, shift) > U128_MAX
    ensures Shr(upper, shift) == 0 ==>
              BitOr(Shr(lower, shift), Shl128(upper, 128 - shift)) == Shr(upper * (U128_MAX + 1) + lower, shift)
  {
    hide Pow2, BitOr;
    Pow2WideLiterals();
    var s, t := Pow2(shift), Pow2(128 - shift);
    Pow2Add(shift, 128 - shift);
    ShiftedQuotient(upper, lower, s, t);
    DivNat(lower, s);
    DivLtIff(lower, s, t);
    DivNat(upper, s);
    DivLtIff(upper, s, 1);
    if upper < s {
      MulLtMono(upper, s, t);
      DivSmall(upper * t, Pow2(128));
      BitOrDisjoint(lower / s, upper, 128 - shift);
    } else {
      MulLeMono(s, upper, t);
    }
  }

  /** High bits above a shift amount pass through unchanged. */
  lemma ShiftedQuotient(upper: nat, lower: nat, s: nat, t: nat)
    requires s > 0
    ensures upper * (s * t) + lower >= 0
    ensures (upper * (s * t) + lower) / s == upper * t + lower / s
  {
    DivNat(lower, s);
    var q := upper * t + lower / s;
    assert upper * (s * t) == upper * t * s;
    assert q * s == upper * t * s + lower / s * s;
    assert (q + 1) * s == q * s + s;
    DivUnique(upper * (s * t) + lower, s, q);
  }

  lemma ShiftedBit(upper: nat, lower: nat, shift: nat)
    requires 1 <= shift <= 128
    ensures (upper * (U128_MAX + 1) + lower) / Pow2(shift - 1) % 2 == lower / Pow2(shift - 1) % 2
  {
    hide Pow2;
    var s, t := Pow2(shift - 1), Pow2(128 - shift);
    Pow2WideLiterals();
    Pow2Add(shift - 1, 129 - shift);
    Pow2Succ(128 - shift);
    ShiftedQuotient(upper, lower, s, 2 * t);
    DivNat(lower, s);
    EvenPart(upper, t, lower / s);
  }

  lemma EvenPart(upper: nat, t: nat, x: nat)
    ensures (upper * (2 * t) + x) % 2 == x % 2
  {
    var y := upper * t;
    assert upper * (2 * t) == 2 * y;
    assert (2 * y + x) % 2 == x % 2;
  }

  lemma ShiftWide(lower: nat, upper: nat, shift: nat)
    requires 128 <= shift <= 256
    requires lower <= U128_MAX && upper <= U128_MAX
    ensures ShiftRound(lower, upper, 0 - shift)
         == Min(NearestRatio(upper * (U128_MAX + 1) + lower, Pow2(shift)), U128_MAX)
  {
    hide Pow2, BitOr, NearestRatio;
    Pow2WideLiterals();
    var p := upper * (U128_MAX + 1) + lower;
    RoundShift(p, shift);
    HighQuotient(upper, lower, shift);
    if shift == 128 {
      ShiftedBit(upper, lower, 128);
      Pow2Zero();
    } else {
      HighQuotient(upper, lower, shift - 1);
      if shift == 256 {
        DivSmall(upper, Pow2(128));
      }
    }
    DivNat(upper, Pow2(shift - 128));
    MulLeMono(1, Pow2(shift - 128), upper / Pow2(shift - 128));
  }

  lemma Pow2Zero()
    ensures Pow2(0) == 1
  {
  }

  lemma HighQuotient(upper: nat, lower: nat, shift: nat)
    requires shift >= 128 && lower <= U128_MAX
    ensures (upper * (U128_MAX + 1) + lower) / Pow2(shift) == upper / Pow2(shift - 128)
  {
    hide Pow2;
    var w := Pow2(128);
    Pow2WideLiterals();
    Pow2Add(128, shift - 128);
    assert (upper + 1) * w == upper * w + w;
    DivUnique(upper * w + lower, w, upper);
    DivDiv(upper * w + lower, w, Pow2(shift - 128));
  }

  lemma ShiftOut(lower: nat, upper: nat, shift: nat)
    requires shift > 256
    requires lower <= U128_MAX && upper <= U128_MAX
    ensures ShiftRound(lower, upper, 0 - shift)
         == Min(NearestRatio(upper * (U128_MAX + 1) + lower, Pow2(shift)), U128_MAX)
  {
    hide Pow2, BitOr, NearestRatio;
    var w := Pow2(128);
    Pow2WideLiterals();
    Pow2Add(128, 128);
    MulLeMono(upper + 1, w, w);
    assert (upper + 1) * w == upper * w + w;
    Pow2StrictMono(256, shift);
    RoundTiny(upper * w + lower, Pow2(shift));
  }
}
