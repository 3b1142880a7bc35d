/**
 Rounding, clamping and powers of two: the one-line specifications that the clock and
 tempo arithmetic is compared with, and the integer facts that connect them to shifts.
 */
module Rounding {

  // ----- specifications -----

  /** Nearest integer, half-way values going away from zero. */
  function RoundHalfAway(x: real): int {
    if x >= 0.0 then (x + 0.5).Floor else -((-x + 0.5).Floor)
  }

  function Abs(x: int): nat {
    if x < 0 then -x else x
  }

  function AbsReal(x: real): real {
    if x < 0.0 then -x else x
  }

  function Signed(negative: bool, magnitude: int): int {
    if negative then -magnitude else magnitude
  }

  function Clamp(x: int, lo: int, hi: int): int {
    if x < lo then lo else if x > hi then hi else x
  }

  function Min(a: int, b: int): int {
    if a <= b then a else b
  }

  /** The nearest integer to n/d for naturals, half-way up, by repeated subtraction. */
  function NearestRatio(n: nat, d: nat): nat
    requires d > 0
  {
    if 2 * n < d then 0 else if n < d then 1 else 1 + NearestRatio(n - d, d)
  }

  // ----- machine integers -----

  function Pow2(k: nat): (r: nat)
    ensures r > 0
  {
    if k == 0 then 1 else 2 * Pow2(k - 1)
  }

  const U128_MAX: nat := 0xFFFF_FFFF_FFFF_FFFF_FFFF_FFFF_FFFF_FFFF
  const I128_MAX: int := 0x7FFF_FFFF_FFFF_FFFF_FFFF_FFFF_FFFF_FFFF
  const I128_MIN: int := -0x8000_0000_0000_0000_0000_0000_0000_0000

  predicate InI128(x: int) {
    I128_MIN <= x <= I128_MAX
  }

  function ClampI128(x: int): (r: int)
    ensures InI128(r)
  {
    Clamp(x, I128_MIN, I128_MAX)
  }

  /** Saturating i128 arithmetic. */
  function SatMul(a: int, b: int): int {
    ClampI128(a * b)
  }

  function SatAdd(a: int, b: int): int {
    ClampI128(a + b)
  }

  function SaturateU128(x: nat): nat {
    Min(x, U128_MAX)
  }

  // ----- durations -----

  /** Chrono's largest duration, in nanoseconds; the smallest is its negation. */
  const DURATION_MAX: int := 0x7FFF_FFFF_FFFF_FFFF * 1_000_000

  predicate InDuration(nanos: int) {
    -DURATION_MAX <= nanos <= DURATION_MAX
  }

  function ClampDuration(nanos: int): (r: int)
    ensures InDuration(r)
  {
    Clamp(nanos, -DURATION_MAX, DURATION_MAX)
  }

  /** Integer division of the source language: the quotient is truncated toward zero. */
  function TruncDiv(a: int, b: int): int
    requires b != 0
  {
    Signed((a < 0) != (b < 0), Abs(a) / Abs(b))
  }

  function TruncMod(a: int, b: int): int
    requires b != 0
  {
    Signed(a < 0, Abs(a) % Abs(b))
  }

  /** Right shift. */
  function Shr(x: nat, k: nat): nat {
    DivNat(x, Pow2(k));
    x / Pow2(k)
  }

  /** Left shift of a u128: bits shifted out are lost. */
  function Shl128(x: nat, k: nat): nat {
    DivNat(x * Pow2(k), Pow2(128));
    x * Pow2(k) % Pow2(128)
  }

  /** Bitwise operators on unbounded naturals. */
  function BitOr(a: nat, b: nat): nat
    decreases a + b
  {
    if a == 0 && b == 0 then 0
    else 2 * BitOr(a / 2, b / 2) + (if a % 2 == 1 || b % 2 == 1 then 1 else 0)
  }

  function BitAnd(a: nat, b: nat): nat
    decreases a
  {
    if a == 0 then 0
    else 2 * BitAnd(a / 2, b / 2) + (if a % 2 == 1 && b % 2 == 1 then 1 else 0)
  }

  // ----- division facts -----

  lemma DivUnique(a: int, d: int, q: int)
    requires d > 0
    requires q * d <= a < (q + 1) * d
    ensures a / d == q
  {
    var k := a / d;
    DivBounds(a, d);
    MulStep(k, q, d);
    MulStep(q, k, d);
  }

  lemma MulStep(a: int, b: int, d: int)
    requires d > 0
    ensures a < b ==> (a + 1) * d <= b * d
  {
  }

  lemma DivBounds(a: int, d: int)
    requires d > 0
    ensures (a / d) * d <= a < (a / d + 1) * d
  {
    assert (a / d + 1) * d == (a / d) * d + d;
  }

  lemma MulLeMono(a: int, b: int, c: int)
    requires a <= b && c >= 0
    ensures a * c <= b * c
  {
  }

  lemma MulLtMono(a: int, b: int, c: int)
    requires a < b && c > 0
    ensures a * c < b * c
  {
  }

  /** Dividing twice is dividing by the product. */
  lemma DivDiv(a: nat, b: nat, c: nat)
    requires b > 0 && c > 0
    ensures b * c > 0
    ensures (a / b) / c == a / (b * c)
  {
    DivNat(a, b);
    DivNat(a / b, c);
    Positive(b, c);
    NestedQuotient((a / b) / c, (a / b) % c, a % b, b, c);
  }

  lemma NestedQuotient(q: nat, r: nat, t: nat, b: nat, c: nat)
    requires r < c && t < b
    ensures b * c > 0
    ensures ((q * c + r) * b + t) / (b * c) == q
  {
    MulLeMono(r + 1, c, b);
    Positive(b, c);
    assert (r + 1) * b == r * b + b;
    assert (q * c + r) * b == q * (b * c) + r * b;
    assert (q + 1) * (b * c) == q * (b * c) + b * c;
    DivUnique((q * c + r) * b + t, b * c, q);
  }

  lemma DivNat(a: nat, d: nat)
    requires d > 0
    ensures a / d >= 0 && 0 <= a % d < d
    ensures a == (a / d) * d + a % d
  {
  }

  lemma DivSmall(a: nat, d: nat)
    requires a < d
    ensures a / d == 0 && a % d == a
  {
  }

  lemma DivLtIff(a: nat, d: nat, k: nat)
    requires d > 0
    ensures a / d < k <==> a < k * d
  {
    DivBounds(a, d);
    if a / d < k {
      MulLeMono(a / d + 1, k, d);
    } else {
      MulLeMono(k, a / d, d);
    }
  }

  // ----- powers of two -----

  lemma {:induction false} Pow2Add(a: nat, b: nat)
    ensures Pow2(a + b) == Pow2(a) * Pow2(b)
  {
    if a > 0 {
      Pow2Add(a - 1, b);
      assert Pow2(a + b) == 2 * Pow2(a - 1 + b);
      assert Pow2(a) * Pow2(b) == 2 * (Pow2(a - 1) * Pow2(b));
    }
  }

  lemma Pow2Mono(a: nat, b: nat)
    requires a <= b
    ensures Pow2(a) <= Pow2(b)
  {
    Pow2Add(a, b - a);
    MulLeMono(1, Pow2(b - a), Pow2(a));
  }

  lemma Pow2StrictMono(a: nat, b: nat)
    requires a < b
    ensures 2 * Pow2(a) <= Pow2(b)
  {
    Pow2Mono(a + 1, b);
  }

  lemma Pow2Small()
    ensures Pow2(4) == 0x10 && Pow2(8) == 0x100 && Pow2(10) == 0x400 && Pow2(16) == 0x1_0000
  {
    assert Pow2(4) == 16;
    Pow2Add(4, 4);
    Pow2Add(8, 2);
    Pow2Add(8, 8);
  }

  lemma Pow2Literals()
    ensures Pow2(10) == 0x400
    ensures Pow2(52) == 0x10_0000_0000_0000
    ensures Pow2(53) == 0x20_0000_0000_0000
    ensures Pow2(64) == 0x1_0000_0000_0000_0000
  {
    hide Pow2;
    Pow2Small();
    Pow2Add(16, 16);
    Pow2Add(16, 4);
    Pow2Add(32, 20);
    Pow2Succ(52);
    Pow2Add(32, 32);
  }

  lemma Pow2Succ(k: nat)
    ensures Pow2(k + 1) == 2 * Pow2(k)
  {
  }

  lemma Pow2WideLiterals()
    ensures Pow2(83) == 0x8_0000_0000_0000_0000_0000
    ensures Pow2(127) == I128_MAX + 1 == -I128_MIN
    ensures Pow2(128) == U128_MAX + 1
  {
    Pow2Literals();
    Pow2Add(64, 10);
    Pow2Add(74, 9);
    Pow2Add(64, 64);
    assert Pow2(9) == 512;
  }

  lemma {:induction false} BitOrDisjoint(a: nat, b: nat, k: nat)
    requires a < Pow2(k)
    ensures BitOr(a, b * Pow2(k)) == a + b * Pow2(k)
  {
    if k == 0 {
      BitOrZero(b);
    } else {
      var p := Pow2(k - 1);
      assert b * (2 * p) == 2 * (b * p);
      BitOrDisjoint(a / 2, b, k - 1);
      BitOrStep(a, b * p);
    }
  }

  lemma BitOrStep(a: nat, h: nat)
    requires BitOr(a / 2, h) == a / 2 + h
    ensures BitOr(a, 2 * h) == a + 2 * h
  {
    assert (2 * h) / 2 == h && (2 * h) % 2 == 0;
  }

  lemma {:induction false} BitOrZero(b: nat)
    ensures BitOr(0, b) == b
  {
    if b > 0 {
      BitOrZero(b / 2);
    }
  }

  lemma {:induction false} BitAndMask(a: nat, k: nat)
    ensures BitAnd(a, Pow2(k) - 1) == a % Pow2(k)
  {
    if k == 0 {
      BitAndZero(a);
    } else if a == 0 {
      DivSmall(0, Pow2(k));
    } else {
      BitAndMask(a / 2, k - 1);
      BitAndStep(a, Pow2(k - 1));
    }
  }

  lemma BitAndStep(a: nat, p: nat)
    requires a > 0 && p > 0
    requires BitAnd(a / 2, p - 1) == (a / 2) % p
    ensures BitAnd(a, 2 * p - 1) == a % (2 * p)
  {
    var mask := 2 * p - 1;
    assert mask / 2 == p - 1 && mask % 2 == 1;
    ModDouble(a, p);
  }

  lemma ModDouble(a: nat, p: nat)
    requires p > 0
    ensures a % (2 * p) == 2 * ((a / 2) % p) + a % 2
  {
    var q, r := (a / 2) / p, (a / 2) % p;
    var t := q * p;
    assert a / 2 == t + r;
    assert q * (2 * p) == 2 * t && (q + 1) * (2 * p) == 2 * t + 2 * p;
    DivUnique(a, 2 * p, q);
  }

  lemma {:induction false} BitAndZero(a: nat)
    ensures BitAnd(a, 0) == 0
  {
    if a > 0 {
      BitAndZero(a / 2);
    }
  }

  // ----- rounding facts -----

  lemma RoundNegates(x: real)
    ensures RoundHalfAway(-x) == -RoundHalfAway(x)
  {
  }

  /** The result is within half a unit, and a tie is resolved away from zero. */
  lemma RoundIsNearest(x: real)
    ensures AbsReal(RoundHalfAway(x) as real - x) <= 0.5
    ensures AbsReal(RoundHalfAway(x) as real - x) == 0.5 ==> Abs(RoundHalfAway(x)) as real > AbsReal(x)
  {
  }

  /** An integer closer than half a unit is the rounded value. */
  lemma RoundUnique(x: real, r: int)
    requires AbsReal(r as real - x) < 0.5
    ensures RoundHalfAway(x) == r
  {
  }

  lemma RoundMono(x: real, y: real)
    requires x <= y
    ensures RoundHalfAway(x) <= RoundHalfAway(y)
  {
  }

  lemma {:induction false} NearestRatioBounds(n: nat, d: nat)
    requires d > 0
    ensures 2 * (NearestRatio(n, d) * d) <= 2 * n + d < 2 * (NearestRatio(n, d) * d) + 2 * d
  {
    if n >= d {
      NearestRatioBounds(n - d, d);
      assert (NearestRatio(n - d, d) + 1) * d == NearestRatio(n - d, d) * d + d;
    }
  }

  lemma NearestRatioUnique(n: nat, d: nat, q: nat)
    requires d > 0
    requires 2 * (q * d) <= 2 * n + d < 2 * (q * d) + 2 * d
    ensures NearestRatio(n, d) == q
  {
    hide NearestRatio;
    var k := NearestRatio(n, d);
    NearestRatioBounds(n, d);
    MulStep(k, q, d);
    MulStep(q, k, d);
    assert (k + 1) * d == k * d + d && (q + 1) * d == q * d + d;
  }

  /** The fraction-free form rounds the real quotient. */
  lemma NearestRatioIsRound(n: nat, d: nat)
    requires d > 0
    ensures RoundHalfAway(n as real / d as real) == NearestRatio(n, d)
  {
    hide NearestRatio;
    var q := NearestRatio(n, d);
    NearestRatioBounds(n, d);
    MulAsReal(q, d);
    RealMulShift(q as real, d as real);
    FractionBetween(n as real, d as real, q as real - 0.5, q as real + 0.5);
    FractionNonNegative(n as real, d as real);
  }

  lemma RealMulShift(q: real, d: real)
    ensures (q - 0.5) * d == q * d - 0.5 * d
    ensures (q + 0.5) * d == q * d + 0.5 * d
  {
  }

  lemma FractionNonNegative(n: real, d: real)
    requires d > 0.0 && n >= 0.0
    ensures n / d >= 0.0
  {
  }

  lemma MulAsReal(a: int, b: int)
    ensures (a * b) as real == a as real * b as real
  {
  }

  lemma FractionBetween(n: real, d: real, lo: real, hi: real)
    requires d > 0.0
    requires lo * d <= n < hi * d
    ensures lo <= n / d < hi
  {
    var x := n / d;
    assert x * d == n;
    RealMulStep(x, lo, d);
    RealMulStep(hi, x, d);
  }

  lemma RealMulStep(a: real, b: real, d: real)
    requires d > 0.0
    ensures a < b ==> a * d < b * d
    ensures a <= b ==> a * d <= b * d
  {
  }

  /** Quotient plus one when the remainder reaches half the divisor. */
  lemma RoundByRemainder(n: nat, d: nat)
    requires d > 0
    ensures NearestRatio(n, d) == n / d + (if n % d >= (d + 1) / 2 then 1 else 0)
  {
    DivNat(n, d);
    RoundQuotient(n / d, n % d, d);
  }

  lemma RoundQuotient(q: nat, r: nat, d: nat)
    requires r < d
    ensures NearestRatio(q * d + r, d) == q + (if r >= (d + 1) / 2 then 1 else 0)
  {
    assert (q + 1) * d == q * d + d;
    NearestRatioUnique(q * d + r, d, if r >= (d + 1) / 2 then q + 1 else q);
  }

  /** Splitting off a whole part commutes with rounding. */
  lemma RoundWholePart(w: nat, f: nat, d: nat)
    requires d > 0
    ensures NearestRatio(w * d + f, d) == w + NearestRatio(f, d)
  {
    hide NearestRatio;
    var q := NearestRatio(f, d);
    NearestRatioBounds(f, d);
    assert (w + q) * d == w * d + q * d;
    NearestRatioUnique(w * d + f, d, w + q);
  }

  /** Rounding at an even divisor may first drop the fraction of a finer quotient. */
  lemma RoundAfterFloor(n: nat, c: nat, h: nat)
    requires c > 0 && h > 0
    ensures c * (2 * h) > 0
    ensures NearestRatio(n, c * (2 * h)) == NearestRatio(n / c, 2 * h)
  {
    DivNat(n, c);
    var q := NearestRatio(n / c, 2 * h);
    NearestRatioBounds(n / c, 2 * h);
    Products(q, h, c);
    var t := q * h;
    // only integers are compared here, so the fraction of n / c cannot cross a boundary
    DivScaled(n, c, 2 * t - h, 2 * t + h);
    NearestRatioUnique(n, c * (2 * h), q);
  }

  lemma Products(q: nat, h: nat, c: nat)
    requires c > 0 && h > 0
    ensures q * (2 * h) == 2 * (q * h)
    ensures c * (2 * h) == 2 * (h * c) > 0
    ensures q * (c * (2 * h)) == 2 * ((q * h) * c)
    ensures (2 * (q * h) - h) * c == 2 * ((q * h) * c) - h * c
    ensures (2 * (q * h) + h) * c == 2 * ((q * h) * c) + h * c
  {
    var t := q * h;
    Positive(h, c);
    assert (2 * t - h) * c == 2 * (t * c) - h * c;
    assert (2 * t + h) * c == 2 * (t * c) + h * c;
    assert q * (c * (2 * h)) == 2 * (q * h * c);
  }

  lemma Positive(a: int, b: int)
    requires a > 0 && b > 0
    ensures a * b > 0
  {
  }

  lemma DivScaled(n: nat, c: nat, lo: int, hi: int)
    requires c > 0
    requires lo <= n / c < hi
    ensures lo * c <= n < hi * c
  {
    DivBounds(n, c);
    MulLeMono(lo, n / c, c);
    MulLeMono(n / c + 1, hi, c);
  }

  /** Below half a unit the result is zero. */
  lemma RoundTiny(n: nat, d: nat)
    requires d > 0 && 2 * n < d
    ensures NearestRatio(n, d) == 0
  {
    NearestRatioUnique(n, d, 0);
  }

  lemma NearestMono(a: nat, b: nat, d: nat)
    requires a <= b && d > 0
    ensures NearestRatio(a, d) <= NearestRatio(b, d)
  {
    NearestRatioBounds(a, d);
    NearestRatioBounds(b, d);
    MulStep(NearestRatio(b, d), NearestRatio(a, d), d);
    assert (NearestRatio(b, d) + 1) * d == NearestRatio(b, d) * d + d;
  }

  lemma NearestOverOne(n: nat)
    ensures NearestRatio(n, 1) == n
  {
    NearestRatioUnique(n, 1, n);
  }

  /** Rounding right shift: the quotient plus the bit just below it. */
  lemma RoundShift(n: nat, s: nat)
    requires s > 0
    ensures NearestRatio(n, Pow2(s)) == n / Pow2(s) + (n / Pow2(s - 1)) % 2
  {
    var h := Pow2(s - 1);
    DivNat(n, h);
    RoundAfterFloor(n, h, 1);
    RoundByRemainder(n / h, 2);
    DivDiv(n, h, 2);
    assert h * 2 == Pow2(s);
  }

  /** Signs come out of a rounded quotient. */
  lemma RoundSignedRatio(n: int, d: int)
    requires d != 0
    ensures RoundHalfAway(n as real / d as real)
         == Signed((n < 0) != (d < 0), NearestRatio(Abs(n), Abs(d)))
  {
    var x := Abs(n) as real / Abs(d) as real;
    NearestRatioIsRound(Abs(n), Abs(d));
    QuotientSign(n as real, d as real);
    RoundNegates(x);
  }

  lemma RoundSigned(negative: bool, m: nat, unit: nat)
    requires unit > 0
    ensures RoundHalfAway(Signed(negative, m) as real / unit as real) == Signed(negative, NearestRatio(m, unit))
  {
    RoundSignedRatio(Signed(negative, m), unit);
    RoundTiny(0, unit);
  }

  lemma QuotientSign(n: real, d: real)
    requires d != 0.0
    ensures n / d == if (n < 0.0) == (d < 0.0) then AbsReal(n) / AbsReal(d) else -(AbsReal(n) / AbsReal(d))
  {
    var q := n / d;
    assert q * d == n;
    QuotientUnique(-q, d, -n);
    QuotientUnique(-q, -d, n);
    QuotientUnique(q, -d, -n);
  }

  lemma QuotientUnique(z: real, d: real, n: real)
    requires d != 0.0 && z * d == n
    ensures n / d == z
  {
  }

  lemma AbsProduct(a: real, b: real)
    ensures AbsReal(a * b) == AbsReal(a) * AbsReal(b)
  {
  }
}
