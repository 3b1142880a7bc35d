/**
 Conversions between microbeats and time at a fixed beat period.

 A tempo enters only through its rounded beat period in microseconds, which may be any
 i128. Each conversion is one correctly rounded multiplication or division followed by a
 clamp; the code reaches it by splitting, saturating and, for numerators that do not fit
 128 bits, by dividing bit by bit.
 */
module Tempo {
  import opened Rounding

  // ----- specifications -----

  /** Microbeats elapsed in `nanos` at a period of `period` microseconds, before narrowing. */
  function ExactMicrobeats(nanos: int, period: int): int
    requires period != 0
  {
    RoundHalfAway((1000 * nanos) as real / period as real)
  }

  /** beats * period / unit, rounded once and clamped. */
  function ScaledTime(beats: int, period: int, unit: nat): int
    requires unit > 0
  {
    ClampI128(RoundHalfAway((beats * period) as real / unit as real))
  }

  // ----- the code -----

  /** Signed division with half-way quotients away from zero; a zero divisor saturates by sign. */
  function RoundRatio(numerator: int, denominator: int): int {
    if denominator == 0 then
      if numerator < 0 then I128_MIN else if numerator == 0 then 0 else I128_MAX
    else
      var quotient := TruncDiv(numerator, denominator);
      var remainder := TruncMod(numerator, denominator);
      if Abs(remainder) >= (Abs(denominator) + 1) / 2 then
        quotient + (if (numerator < 0) == (denominator < 0) then 1 else -1)
      else quotient
  }

  method MicrobeatsFromNanos(nanos: int, period: int) returns (microbeats: int)
    requires InI128(nanos) && InI128(period)
    ensures period == 0 ==> microbeats == if nanos < 0 then I128_MIN else if nanos == 0 then 0 else I128_MAX
    ensures period != 0 ==> microbeats == ClampI128(ExactMicrobeats(nanos, period))
  {
    if period == 0 {
      return RoundRatio(nanos, period);
    }
    var scaled := nanos * 1000;
    if InI128(scaled) {
      RoundRatioRounds(scaled, period);
      FastPathFits(nanos, period);
      return RoundRatio(scaled, period);
    }
    microbeats := DivideWide(nanos, period);
  }

  /** The path taken when 1000 * nanos does not fit; it needs no such numerator for any input. */
  method DivideWide(nanos: int, period: int) returns (microbeats: int)
    requires period != 0
    ensures microbeats == ClampI128(ExactMicrobeats(nanos, period))
  {
    var negative := (nanos < 0) != (period < 0);
    var magnitude := Abs(nanos);
    var denominator := Abs(period);
    DivNat(magnitude, denominator);
    var quotient := magnitude / denominator;
    var fraction, residue := ScaleRemainder(magnitude % denominator, denominator);
    var roundUp := if residue >= (denominator + 1) / 2 then 1 else 0;
    var rounded := SaturateU128(SaturateU128(SaturateU128(quotient * 1000) + fraction) + roundUp);
    microbeats := Narrow(negative, rounded);
    WideQuotient(quotient, magnitude % denominator, denominator, fraction, residue);
    RoundSignedRatio(1000 * nanos, period);
    NarrowSaturated(negative, quotient * 1000, fraction, roundUp);
  }

  /** 1000 * remainder divided by denominator, one bit of 1000 at a time, with no wide product. */
  method ScaleRemainder(remainder: nat, denominator: nat) returns (fraction: nat, residue: nat)
    requires remainder < denominator
    ensures residue < denominator
    ensures remainder * 1000 == fraction * denominator + residue
    ensures fraction <= 1000
  {
    var scale := 1000;
    fraction, residue := 0, 0;
    var bit := 10;
    ScaleBits();
    hide Pow2;
    while bit > 0
      invariant 0 <= bit <= 10
      invariant residue < denominator
      invariant fraction <= scale
      invariant remainder * (scale / Pow2(bit)) == fraction * denominator + residue
    {
      ghost var high := scale / Pow2(bit);
      bit := bit - 1;
      PrefixStep(scale, bit);
      var low := scale / Pow2(bit) % 2;
      ghost var f, r := fraction, residue;
      fraction := fraction * 2;
      if residue >= denominator - residue {
        residue := residue - (denominator - residue);
        fraction := fraction + 1;
      } else {
        residue := residue * 2;
      }
      DoubledRemainder(f, r, fraction, residue, denominator);
      f, r := fraction, residue;
      if low != 0 {
        if residue >= denominator - remainder {
          residue := residue - (denominator - remainder);
          fraction := fraction + 1;
        } else {
          residue := residue + remainder;
        }
        ShiftedRemainder(f, r, fraction, residue, denominator, remainder);
      }
      NextPrefix(remainder, high, low);
      PartialQuotientSmall(remainder, 2 * high + low, fraction, residue, denominator);
    }
  }

  /** A sign and a 128-bit magnitude as an i128; only the minimum has no positive counterpart. */
  function Narrow(negative: bool, rounded: nat): int {
    var bounded := Min(rounded, I128_MAX);
    if negative then (if rounded > I128_MAX then I128_MIN else -bounded) else bounded
  }

  function MicrosFromMicrobeats(beats: int, period: int): int {
    SatAdd(SatAdd(SatMul(TruncDiv(beats, 1_000_000), period),
                  SatMul(TruncMod(beats, 1_000_000), TruncDiv(period, 1_000_000))),
           RoundRatio(TruncMod(beats, 1_000_000) * TruncMod(period, 1_000_000), 1_000_000))
  }

  function NanosFromMicrobeats(beats: int, period: int): int {
    SatAdd(SatAdd(SatMul(TruncDiv(beats, 1000), period),
                  SatMul(TruncMod(beats, 1000), TruncDiv(period, 1000))),
           RoundRatio(TruncMod(beats, 1000) * TruncMod(period, 1000), 1000))
  }

  // ----- correctness of the division -----

  lemma RoundRatioRounds(n: int, d: int)
    requires d != 0
    ensures RoundRatio(n, d) == RoundHalfAway(n as real / d as real)
  {
    RoundSignedRatio(n, d);
    RoundByRemainder(Abs(n), Abs(d));
  }

  /** The fast path cannot overflow: 1000 * nanos is never the one value whose negation does not fit. */
  lemma FastPathFits(nanos: int, period: int)
    requires period != 0 && InI128(1000 * nanos)
    ensures Abs(TruncDiv(1000 * nanos, period)) <= I128_MAX
    ensures InI128(ExactMicrobeats(nanos, period))
  {
    NeverI128Min(nanos);
    var n, d := Abs(1000 * nanos), Abs(period);
    DivNat(n, d);
    QuotientShrinks(n, d);
    RoundSignedRatio(1000 * nanos, period);
  }

  lemma NeverI128Min(nanos: int)
    requires InI128(1000 * nanos)
    ensures Abs(1000 * nanos) <= I128_MAX
  {
  }

  lemma QuotientShrinks(n: nat, d: nat)
    requires d > 0
    ensures n / d <= n
    ensures NearestRatio(n, d) <= n
  {
    DivNat(n, d);
    DivLtIff(n, d, n + 1);
    MulLeMono(1, d, n + 1);
    var q := NearestRatio(n, d);
    NearestRatioBounds(n, d);
    MulStep(n, q, d);
    assert (n + 1) * d == n * d + d;
    MulLeMono(1, d, n);
    if n == 0 {
      RoundTiny(0, d);
    }
  }

  lemma ScaleBits()
    ensures 1000 / Pow2(10) == 0 && 1000 / Pow2(0) == 1000
  {
    Pow2Literals();
  }

  lemma PrefixStep(scale: nat, bit: nat)
    ensures scale / Pow2(bit) == 2 * (scale / Pow2(bit + 1)) + scale / Pow2(bit) % 2
    ensures 0 <= scale / Pow2(bit) <= scale
  {
    DivNat(scale, Pow2(bit));
    DivDiv(scale, Pow2(bit), 2);
    MulLeMono(1, Pow2(bit), scale / Pow2(bit));
    assert Pow2(bit) * 2 == Pow2(bit + 1);
  }

  lemma DoubledRemainder(f: nat, r: nat, f': nat, r': nat, d: nat)
    requires r < d
    requires if r >= d - r then f' == 2 * f + 1 && r' == r - (d - r) else f' == 2 * f && r' == 2 * r
    ensures f' * d + r' == 2 * (f * d + r) && r' < d
  {
  }

  lemma ShiftedRemainder(f: nat, r: nat, f': nat, r': nat, d: nat, remainder: nat)
    requires r < d && remainder < d
    requires if r >= d - remainder then f' == f + 1 && r' == r - (d - remainder) else f' == f && r' == r + remainder
    ensures f' * d + r' == f * d + r + remainder && r' < d
  {
  }

  lemma PartialQuotientSmall(remainder: nat, k: nat, f: nat, r: nat, d: nat)
    requires remainder < d && k <= 1000
    requires remainder * k == f * d + r
    ensures f <= 1000
  {
    MulLeMono(remainder, d, k);
    MulStep(1000, f, d);
    MulLeMono(k, 1000, d);
  }

  lemma NextPrefix(remainder: nat, high: nat, low: nat)
    requires low <= 1
    ensures remainder * (2 * high + low) == 2 * (remainder * high) + (if low != 0 then remainder else 0)
  {
    if low == 0 {
      assert remainder * (2 * high) == 2 * (remainder * high);
    } else {
      assert remainder * (2 * high + 1) == 2 * (remainder * high) + remainder;
    }
  }

  lemma WideQuotient(q: nat, remainder: nat, d: nat, fraction: nat, residue: nat)
    requires residue < d
    requires remainder * 1000 == fraction * d + residue
    ensures NearestRatio(1000 * (q * d + remainder), d)
         == q * 1000 + fraction + (if residue >= (d + 1) / 2 then 1 else 0)
  {
    hide NearestRatio;
    WideNumerator(q, fraction, d);
    RoundQuotient(q * 1000 + fraction, residue, d);
  }

  lemma WideNumerator(q: nat, fraction: nat, d: nat)
    ensures (q * 1000 + fraction) * d == 1000 * (q * d) + fraction * d
  {
  }

  /** Saturating at 128 bits first does not change the value clamped to i128. */
  lemma NarrowSaturated(negative: bool, x: nat, y: nat, z: nat)
    ensures Narrow(negative, SaturateU128(SaturateU128(SaturateU128(x) + y) + z))
         == ClampI128(Signed(negative, x + y + z))
  {
  }

  // ----- split, then round -----

  /**
   The remainders carry the sign of the product, so rounding their small product instead of
   the whole one never moves a tie, and the saturating sums never change the clamped value.
   */
  lemma SplitThenRound(beats: int, period: int, unit: nat)
    requires unit > 0
    ensures SatAdd(SatAdd(SatMul(TruncDiv(beats, unit), period),
                          SatMul(TruncMod(beats, unit), TruncDiv(period, unit))),
                   RoundRatio(TruncMod(beats, unit) * TruncMod(period, unit), unit))
         == ScaledTime(beats, period, unit)
  {
    hide RoundRatio, RoundHalfAway, ClampI128;
    var b, p := Abs(beats), Abs(period);
    DivNat(b, unit);
    DivNat(p, unit);
    SplitSigned(beats < 0, b / unit, b % unit, period < 0, p / unit, p % unit, p, unit);
  }

  lemma SplitSigned(bn: bool, bq: nat, br: nat, pn: bool, pq: nat, pr: nat, p: nat, unit: nat)
    requires br < unit && pr < unit
    requires p == pq * unit + pr
    ensures SatAdd(SatAdd(SatMul(Signed(bn, bq), Signed(pn, p)),
                          SatMul(Signed(bn, br), Signed(pn, pq))),
                   RoundRatio(Signed(bn, br) * Signed(pn, pr), unit))
         == ScaledTime(Signed(bn, bq * unit + br), Signed(pn, p), unit)
  {
    hide RoundRatio, RoundHalfAway, ClampI128, SatAdd, SatMul, Signed, ScaledTime;
    SatMulSigned(bn, bq, pn, p);
    SatMulSigned(bn, br, pn, pq);
    SignedProduct(bn, br, pn, pr);
    SplitProduct(bq, br, pq, pr, p, unit);
    ScaledTimeSigned(bn, bq * unit + br, pn, p, (bq * p + br * pq) * unit + br * pr, unit);
    SplitSum(bn != pn, bq * p, br * pq, br * pr, unit);
  }

  lemma SatMulSigned(n1: bool, m1: nat, n2: bool, m2: nat)
    ensures SatMul(Signed(n1, m1), Signed(n2, m2)) == ClampI128(Signed(n1 != n2, m1 * m2))
  {
    hide ClampI128, Signed;
    SignedProduct(n1, m1, n2, m2);
  }

  lemma ScaledTimeSigned(bn: bool, b: nat, pn: bool, p: nat, total: nat, unit: nat)
    requires unit > 0 && b * p == total
    ensures ScaledTime(Signed(bn, b), Signed(pn, p), unit)
         == ClampI128(RoundHalfAway(Signed(bn != pn, total) as real / unit as real))
  {
    hide ClampI128, RoundHalfAway, Signed;
    SignedProduct(bn, b, pn, p);
  }

  lemma SplitSum(negative: bool, x: nat, y: nat, z: nat, unit: nat)
    requires unit > 0
    ensures SatAdd(SatAdd(ClampI128(Signed(negative, x)), ClampI128(Signed(negative, y))),
                   RoundRatio(Signed(negative, z), unit))
         == ClampI128(RoundHalfAway(Signed(negative, (x + y) * unit + z) as real / unit as real))
  {
    hide RoundRatio, RoundHalfAway, ClampI128, SatAdd, NearestRatio;
    RatioOfSigned(negative, z, unit);
    RoundSigned(negative, (x + y) * unit + z, unit);
    RoundWholePart(x + y, z, unit);
    SameSignSaturation(negative, x, y, NearestRatio(z, unit));
  }

  lemma RatioOfSigned(negative: bool, m: nat, unit: nat)
    requires unit > 0
    ensures RoundRatio(Signed(negative, m), unit) == Signed(negative, NearestRatio(m, unit))
  {
    RoundRatioRounds(Signed(negative, m), unit);
    RoundSigned(negative, m, unit);
  }

  lemma NearestOfZero(unit: nat)
    requires unit > 0
    ensures NearestRatio(0, unit) == 0
  {
    RoundTiny(0, unit);
  }

  lemma SignedProduct(n1: bool, m1: nat, n2: bool, m2: nat)
    ensures Signed(n1, m1) * Signed(n2, m2) == Signed(n1 != n2, m1 * m2)
  {
  }

  lemma SplitProduct(bq: nat, br: nat, pq: nat, pr: nat, p: nat, unit: nat)
    requires p == pq * unit + pr
    ensures (bq * unit + br) * p == (bq * p + br * pq) * unit + br * pr
  {
    assert (bq * unit + br) * p == bq * p * unit + br * p;
    assert br * p == br * pq * unit + br * pr;
    assert (bq * p + br * pq) * unit == bq * p * unit + br * pq * unit;
  }

  lemma SameSignSaturation(negative: bool, x: nat, y: nat, z: nat)
    ensures SatAdd(SatAdd(ClampI128(Signed(negative, x)), ClampI128(Signed(negative, y))), Signed(negative, z))
         == ClampI128(Signed(negative, x + y + z))
  {
  }

  lemma MicrosFromMicrobeatsRounds(beats: int, period: int)
    ensures MicrosFromMicrobeats(beats, period) == ScaledTime(beats, period, 1_000_000)
  {
    SplitThenRound(beats, period, 1_000_000);
  }

  lemma NanosFromMicrobeatsRounds(beats: int, period: int)
    ensures NanosFromMicrobeats(beats, period) == ScaledTime(beats, period, 1000)
  {
    SplitThenRound(beats, period, 1000);
  }

  // ----- round trips -----

  /** From microbeats to nanoseconds and back. */
  function ThereAndBack(beats: int, period: int): int
    requires period != 0
  {
    ClampI128(ExactMicrobeats(NanosFromMicrobeats(beats, period), period))
  }

  lemma BeatsRoundTrip(beats: int, period: int)
    requires Abs(period) >= 1000 && InI128(beats)
    requires InI128(RoundHalfAway((beats * period) as real / 1000.0))
    ensures ThereAndBack(beats, period) == beats
  {
    hide RoundHalfAway, NanosFromMicrobeats;
    NanosFromMicrobeatsRounds(beats, period);
    RoundTripExact(beats, period, RoundHalfAway((beats * period) as real / 1000.0));
  }

  lemma RoundTripExact(beats: int, period: int, n: int)
    requires Abs(period) >= 1000
    requires n == RoundHalfAway((beats * period) as real / 1000.0)
    ensures ExactMicrobeats(n, period) == beats
  {
    hide RoundHalfAway;
    var x := (beats * period) as real / 1000.0;
    RoundIsNearest(x);
    MulAsReal(beats, period);
    var y := (1000 * n) as real / period as real;
    RoundTripError(beats as real, period as real, x, n as real, y);
    if Abs(period) == 1000 {
      PeriodOfThousand(beats, period);
    }
    RoundUnique(y, beats);
  }

  lemma PeriodOfThousand(beats: int, period: int)
    requires Abs(period) == 1000
    ensures RoundHalfAway((beats * period) as real / 1000.0) as real == (beats * period) as real / 1000.0
  {
    if period == 1000 {
      ThousandthOf(beats);
    } else {
      assert beats * -1000 == 1000 * -beats;
      ThousandthOf(-beats);
    }
  }

  lemma ThousandthOf(b: int)
    ensures (1000 * b) as real / 1000.0 == b as real
    ensures RoundHalfAway(b as real) == b
  {
    assert (1000 * b) as real == 1000.0 * b as real;
  }

  lemma RoundTripError(b: real, p: real, x: real, n: real, y: real)
    requires AbsReal(p) >= 1000.0
    requires 1000.0 * x == b * p
    requires AbsReal(n - x) <= 0.5
    requires y == (1000.0 * n) / p
    ensures AbsReal(p) > 1000.0 || n == x ==> AbsReal(b - y) < 0.5
  {
    assert y * p == 1000.0 * n;
    var e := b - y;
    assert e * p == b * p - y * p;
    assert e * p == 1000.0 * (x - n);
    AbsProduct(e, p);
    assert AbsReal(e * p) <= 500.0;
    SmallFactor(AbsReal(b - y), AbsReal(p));
  }

  lemma SmallFactor(a: real, q: real)
    requires a >= 0.0 && q >= 1000.0
    ensures a >= 0.5 ==> a * q >= 0.5 * q >= 500.0
  {
  }

  /** Below a thousand microseconds a step of one nanosecond can jump over a microbeat. */
  lemma FindJump(period: nat, count: nat) returns (n: nat)
    requires 0 < count
    requires period > 0
    requires NearestRatio(1000 * count, period) > count
    ensures n < count
    ensures NearestRatio(1000 * n, period) + 1 < NearestRatio(1000 * (n + 1), period)
    decreases count
  {
    var last := NearestRatio(1000 * (count - 1), period);
    if last + 1 < NearestRatio(1000 * count, period) {
      n := count - 1;
    } else {
      NearestOfZero(period);
      n := FindJump(period, count - 1);
    }
  }

  /** Some microbeat of the first beat is the image of no time at all. */
  lemma SkippedMicrobeat(period: int) returns (beat: int)
    requires 0 < Abs(period) < 1000
    ensures Abs(beat) <= 1000
    ensures forall nanos :: ExactMicrobeats(nanos, period) != beat
  {
    var p := Abs(period);
    RoundWholePart(1000, 0, p);
    NearestOfZero(p);
    var n := FindJump(p, p);
    var missing := NearestRatio(1000 * n, p) + 1;
    NearestMono(1000 * (n + 1), 1000 * p, p);
    beat := Signed(period < 0, missing);
    forall nanos ensures ExactMicrobeats(nanos, period) != beat {
      RoundSignedRatio(1000 * nanos, period);
      if Abs(nanos) <= n {
        NearestMono(1000 * Abs(nanos), 1000 * n, p);
      } else {
        NearestMono(1000 * (n + 1), 1000 * Abs(nanos), p);
      }
    }
  }

  /** The round trip is the identity on every storable beat exactly for periods of at least 1000 us. */
  lemma RoundTripExactlyFrom1000(period: int)
    requires period != 0
    ensures Abs(period) >= 1000 <==>
            forall beats | InI128(beats) && InI128(RoundHalfAway((beats * period) as real / 1000.0)) ::
              ThereAndBack(beats, period) == beats
  {
    if Abs(period) >= 1000 {
      forall beats | InI128(beats) && InI128(RoundHalfAway((beats * period) as real / 1000.0))
        ensures ThereAndBack(beats, period) == beats
      {
        BeatsRoundTrip(beats, period);
      }
    } else {
      hide ExactMicrobeats, RoundHalfAway, NanosFromMicrobeats;
      var beat := SkippedMicrobeat(period);
      BeatFits(beat, period);
      SmallImages(NanosFromMicrobeats(beat, period), period);
      assert ThereAndBack(beat, period) != beat;
    }
  }

  lemma BeatFits(beat: int, period: int)
    requires Abs(beat) <= 1000 && Abs(period) < 1000
    ensures InI128(RoundHalfAway((beat * period) as real / 1000.0))
  {
    hide RoundHalfAway;
    var m := Abs(beat) * Abs(period);
    MulLeMono(Abs(beat), 1000, Abs(period));
    SignedProduct(beat < 0, Abs(beat), period < 0, Abs(period));
    RoundSigned((beat < 0) != (period < 0), m, 1000);
    QuotientShrinks(m, 1000);
  }

  lemma SmallImages(n: int, period: int)
    requires period != 0
    ensures Abs(ClampI128(ExactMicrobeats(n, period))) <= 1000 ==> InI128(ExactMicrobeats(n, period))
  {
  }
}
