/** Least-squares line through measured points, over exact reals. */
module Regression {

  datatype Point = Point(x: real, y: real)

  datatype Line = Line(slope: real, intercept: real)

  datatype Sums = Sums(x: real, xx: real, xy: real, y: real)

  // ----- the code -----

  function Add(s: Sums, p: Point): Sums {
    Sums(s.x + p.x, s.xx + p.x * p.x, s.xy + p.x * p.y, s.y + p.y)
  }

  /** One pass over the points. */
  function Fold(ps: seq<Point>): Sums {
    if ps == [] then Sums(0.0, 0.0, 0.0, 0.0) else Add(Fold(ps[..|ps| - 1]), ps[|ps| - 1])
  }

  function Denominator(ps: seq<Point>): real {
    |ps| as real * Fold(ps).xx - Fold(ps).x * Fold(ps).x
  }

  function LinearRegression(ps: seq<Point>): Line {
    if |ps| == 0 then Line(0.0, 0.0)
    else
      var n := |ps| as real;
      var s := Fold(ps);
      var slope := if Denominator(ps) == 0.0 then 0.0 else (n * s.xy - s.x * s.y) / Denominator(ps);
      Line(slope, (s.y - slope * s.x) / n)
  }

  // ----- specification -----

  function Height(l: Line, x: real): real {
    l.slope * x + l.intercept
  }

  function Residual(p: Point, l: Line): real {
    Height(l, p.x) - p.y
  }

  function Square(v: real): real {
    v * v
  }

  function SquaredError(ps: seq<Point>, l: Line): real {
    if ps == [] then 0.0 else SquaredError(ps[..|ps| - 1], l) + Square(Residual(ps[|ps| - 1], l))
  }

  /** The same sum for a line alone: how far it is from zero over the abscissae. */
  function Energy(ps: seq<Point>, l: Line): real {
    if ps == [] then 0.0 else Energy(ps[..|ps| - 1], l) + Square(Height(l, ps[|ps| - 1].x))
  }

  /** Half the derivatives of the squared error. */
  function SlopeGradient(s: Sums, l: Line): real {
    l.slope * s.xx + l.intercept * s.x - s.xy
  }

  function InterceptGradient(s: Sums, n: real, l: Line): real {
    l.slope * s.x + n * l.intercept - s.y
  }

  predicate OnLine(p: Point, l: Line) {
    p.y == Height(l, p.x)
  }

  predicate SameX(ps: seq<Point>) {
    forall i, j :: 0 <= i < |ps| && 0 <= j < |ps| ==> ps[i].x == ps[j].x
  }

  // ----- expansion of the squared error -----

  function Minus(m: Line, l: Line): Line {
    Line(m.slope - l.slope, m.intercept - l.intercept)
  }

  /** First-order change of the squared error along a difference of lines. */
  function Cross(d: Line, slopeGradient: real, interceptGradient: real): real {
    2.0 * (d.slope * slopeGradient + d.intercept * interceptGradient)
  }

  lemma CrossAdds(d: Line, g: real, h: real, g': real, h': real)
    ensures Cross(d, g + g', h + h') == Cross(d, g, h) + Cross(d, g', h')
  {
    assert d.slope * (g + g') == d.slope * g + d.slope * g';
    assert d.intercept * (h + h') == d.intercept * h + d.intercept * h';
  }

  lemma CrossZero(d: Line)
    ensures Cross(d, 0.0, 0.0) == 0.0
  {
  }

  function Moment(p: Point, l: Line): real {
    p.x * Residual(p, l)
  }

  lemma PointExcess(p: Point, l: Line, m: Line)
    ensures Square(Residual(p, m))
         == Square(Residual(p, l)) + Square(Height(Minus(m, l), p.x))
          + Cross(Minus(m, l), Moment(p, l), Residual(p, l))
  {
    var d := Minus(m, l);
    var r, v := Residual(p, l), Height(d, p.x);
    assert m.slope * p.x == l.slope * p.x + d.slope * p.x;
    SquareOfSum(r, v);
    CrossOfPoint(d, p.x, r);
  }

  lemma SquareOfSum(r: real, v: real)
    ensures Square(r + v) == Square(r) + Square(v) + 2.0 * (v * r)
  {
  }

  lemma CrossOfPoint(d: Line, x: real, r: real)
    ensures Cross(d, x * r, r) == 2.0 * (Height(d, x) * r)
  {
    assert d.slope * (x * r) == (d.slope * x) * r;
    assert (d.slope * x + d.intercept) * r == (d.slope * x) * r + d.intercept * r;
  }

  lemma SlopeGradientStep(s: Sums, p: Point, l: Line)
    ensures SlopeGradient(Add(s, p), l) == SlopeGradient(s, l) + Moment(p, l)
  {
    MomentExpands(p.x, p.y, l.slope, l.intercept);
    Distributes(l.slope, s.xx, p.x * p.x);
    Distributes(l.intercept, s.x, p.x);
  }

  lemma MomentExpands(x: real, y: real, a: real, b: real)
    ensures x * (a * x + b - y) == a * (x * x) + b * x - x * y
  {
    assert x * (a * x) == a * (x * x);
  }

  lemma Distributes(a: real, x: real, y: real)
    ensures a * (x + y) == a * x + a * y
  {
  }

  lemma InterceptGradientStep(s: Sums, n: real, p: Point, l: Line)
    ensures InterceptGradient(Add(s, p), n + 1.0, l) == InterceptGradient(s, n, l) + Residual(p, l)
  {
    assert l.slope * (s.x + p.x) == l.slope * s.x + l.slope * p.x;
    assert (n + 1.0) * l.intercept == n * l.intercept + l.intercept;
  }

  lemma EmptyGradient(l: Line)
    ensures SlopeGradient(Fold([]), l) == 0.0 && InterceptGradient(Fold([]), 0.0, l) == 0.0
  {
  }

  /** Any line's squared error in terms of another's. */
  lemma {:induction false} Excess(ps: seq<Point>, l: Line, m: Line)
    ensures SquaredError(ps, m)
         == SquaredError(ps, l) + Energy(ps, Minus(m, l))
          + Cross(Minus(m, l), SlopeGradient(Fold(ps), l), InterceptGradient(Fold(ps), |ps| as real, l))
  {
    hide SlopeGradient, InterceptGradient, Residual, Moment, Cross, Square, Height, Minus, Add;
    var d := Minus(m, l);
    if ps == [] {
      EmptyGradient(l);
      CrossZero(d);
    } else {
      var front, p := ps[..|ps| - 1], ps[|ps| - 1];
      var s, n := Fold(front), |front| as real;
      Excess(front, l, m);
      PointExcess(p, l, m);
      SlopeGradientStep(s, p, l);
      InterceptGradientStep(s, n, p, l);
      assert |ps| as real == n + 1.0;
      CrossAdds(d, SlopeGradient(s, l), InterceptGradient(s, n, l), Moment(p, l), Residual(p, l));
    }
  }

  lemma SquareNonNegative(v: real)
    ensures Square(v) >= 0.0
    ensures Square(v) == 0.0 ==> v == 0.0
  {
    if Square(v) == 0.0 && v != 0.0 {
      ZeroFactor(v, v);
    }
  }

  lemma {:induction false} EnergyFacts(ps: seq<Point>, l: Line)
    ensures Energy(ps, l) >= 0.0
    ensures Energy(ps, l) == 0.0 ==> forall i :: 0 <= i < |ps| ==> Height(l, ps[i].x) == 0.0
  {
    hide Square, Height;
    if ps != [] {
      EnergyFacts(ps[..|ps| - 1], l);
      SquareNonNegative(Height(l, ps[|ps| - 1].x));
    }
  }

  /** Sum of squared distances from a mean. */
  function Spread(s: Sums, n: real, mean: real): real {
    s.xx - 2.0 * (mean * s.x) + n * (mean * mean)
  }

  lemma SpreadStep(s: Sums, n: real, p: Point, mean: real)
    ensures Spread(Add(s, p), n + 1.0, mean) == Spread(s, n, mean) + Square(Height(Line(1.0, -mean), p.x))
  {
    var v := p.x - mean;
    assert Height(Line(1.0, -mean), p.x) == v;
    assert v * v == p.x * p.x - 2.0 * (mean * p.x) + mean * mean;
    assert mean * (s.x + p.x) == mean * s.x + mean * p.x;
    assert (n + 1.0) * (mean * mean) == n * (mean * mean) + mean * mean;
  }

  lemma EmptySpread(mean: real)
    ensures Spread(Fold([]), 0.0, mean) == 0.0
  {
  }

  lemma {:induction false} EnergyExpands(ps: seq<Point>, mean: real)
    ensures Energy(ps, Line(1.0, -mean)) == Spread(Fold(ps), |ps| as real, mean)
  {
    hide Spread, Add, Square, Height;
    if ps == [] {
      EmptySpread(mean);
    } else {
      var front, p := ps[..|ps| - 1], ps[|ps| - 1];
      EnergyExpands(front, mean);
      SpreadStep(Fold(front), |front| as real, p, mean);
      assert |ps| as real == |front| as real + 1.0;
    }
  }

  // ----- degenerate abscissae -----

  /** The sums of n points that share one x. */
  predicate SumsAt(s: Sums, n: real, c: real) {
    s.x == n * c && s.xx == n * (c * c) && s.xy == c * s.y
  }

  lemma SumsAtStep(s: Sums, n: real, p: Point, c: real)
    requires SumsAt(s, n, c) && p.x == c
    ensures SumsAt(Add(s, p), n + 1.0, c)
  {
    assert (n + 1.0) * c == n * c + c;
    assert (n + 1.0) * (c * c) == n * (c * c) + c * c;
    assert c * (s.y + p.y) == c * s.y + c * p.y;
  }

  lemma EmptySumsAt(c: real)
    ensures SumsAt(Fold([]), 0.0, c)
  {
  }

  lemma {:induction false} SameXSums(ps: seq<Point>, c: real)
    requires forall i :: 0 <= i < |ps| ==> ps[i].x == c
    ensures SumsAt(Fold(ps), |ps| as real, c)
  {
    hide SumsAt, Add;
    if ps == [] {
      EmptySumsAt(c);
    } else {
      var front, p := ps[..|ps| - 1], ps[|ps| - 1];
      SameXSums(front, c);
      SumsAtStep(Fold(front), |front| as real, p, c);
      assert |ps| as real == |front| as real + 1.0;
    }
  }

  /** The denominator vanishes exactly when no two points differ in x. */
  lemma ZeroDenominatorIffSameX(ps: seq<Point>)
    requires ps != []
    ensures Denominator(ps) == 0.0 <==> SameX(ps)
  {
    if SameX(ps) {
      SameXSums(ps, ps[0].x);
      EqualSquares(|ps| as real, ps[0].x, Fold(ps).x, Fold(ps).xx);
    }
    if Denominator(ps) == 0.0 {
      var mean := Fold(ps).x / |ps| as real;
      ZeroEnergy(ps, mean);
      EnergyFacts(ps, Line(1.0, -mean));
      forall i | 0 <= i < |ps| ensures ps[i].x == mean {
        assert Height(Line(1.0, -mean), ps[i].x) == 0.0;
      }
    }
  }

  lemma EqualSquares(n: real, c: real, sx: real, sxx: real)
    requires sx == n * c && sxx == n * (c * c)
    ensures n * sxx - sx * sx == 0.0
  {
    assert (n * c) * (n * c) == n * (n * (c * c));
  }

  lemma ZeroEnergy(ps: seq<Point>, mean: real)
    requires ps != [] && Denominator(ps) == 0.0
    requires mean == Fold(ps).x / |ps| as real
    ensures Energy(ps, Line(1.0, -mean)) == 0.0
  {
    hide Energy, Fold;
    var n := |ps| as real;
    assert mean * n == Fold(ps).x;
    EnergyExpands(ps, mean);
    ZeroSpread(n, Fold(ps).x, Fold(ps).xx, mean);
  }

  lemma ZeroSpread(n: real, sx: real, sxx: real, mean: real)
    requires n > 0.0 && n * mean == sx
    requires n * sxx - sx * sx == 0.0
    ensures sxx - 2.0 * (mean * sx) + n * (mean * mean) == 0.0
  {
    assert mean * sx == n * (mean * mean);
    assert sx * sx == n * (mean * sx);
    assert n * (sxx - mean * sx) == n * sxx - n * (mean * sx);
    ZeroFactor(n, sxx - mean * sx);
  }

  lemma ZeroFactor(a: real, b: real)
    requires a != 0.0 && a * b == 0.0
    ensures b == 0.0
  {
  }

  // ----- the fit is optimal -----

  lemma NormalEquations(ps: seq<Point>)
    requires ps != []
    ensures SlopeGradient(Fold(ps), LinearRegression(ps)) == 0.0
    ensures InterceptGradient(Fold(ps), |ps| as real, LinearRegression(ps)) == 0.0
  {
    hide Fold;
    var n, s, l := |ps| as real, Fold(ps), LinearRegression(ps);
    TimesQuotient(s.y - l.slope * s.x, n);
    if Denominator(ps) == 0.0 {
      hide Denominator;
      ZeroDenominatorIffSameX(ps);
      SameXSums(ps, ps[0].x);
      FlatGradient(n, ps[0].x, s, l.intercept);
    } else {
      TimesQuotient(n * s.xy - s.x * s.y, Denominator(ps));
      SteepGradient(n, s, l, Denominator(ps));
    }
  }

  lemma TimesQuotient(a: real, b: real)
    requires b != 0.0
    ensures b * (a / b) == a
    ensures (a / b) * b == a
  {
  }

  lemma FlatGradient(n: real, c: real, s: Sums, b: real)
    requires n > 0.0 && n * b == s.y && s.x == n * c && s.xy == c * s.y
    ensures b * s.x - s.xy == 0.0
  {
    assert b * (n * c) == c * (n * b);
  }

  lemma SteepGradient(n: real, s: Sums, l: Line, d: real)
    requires n > 0.0 && n * l.intercept == s.y - l.slope * s.x
    requires d == n * s.xx - s.x * s.x
    requires l.slope * d == n * s.xy - s.x * s.y
    ensures l.slope * s.xx + l.intercept * s.x - s.xy == 0.0
  {
    var a, b := l.slope, l.intercept;
    var g := a * s.xx + b * s.x - s.xy;
    assert n * g == a * (n * s.xx) + (n * b) * s.x - n * s.xy;
    assert (s.y - a * s.x) * s.x == s.x * s.y - a * (s.x * s.x);
    assert a * (n * s.xx - s.x * s.x) == a * (n * s.xx) - a * (s.x * s.x);
    assert n * g == 0.0;
    ZeroFactor(n, g);
  }

  /** No line has a smaller squared error, for any points, coinciding abscissae included. */
  lemma FitMinimises(ps: seq<Point>, m: Line)
    ensures SquaredError(ps, LinearRegression(ps)) <= SquaredError(ps, m)
  {
    if ps != [] {
      hide LinearRegression, SquaredError, Energy, SlopeGradient, InterceptGradient, Cross;
      var l := LinearRegression(ps);
      NormalEquations(ps);
      Excess(ps, l, m);
      CrossZero(Minus(m, l));
      EnergyFacts(ps, Minus(m, l));
    }
  }

  /** With two different abscissae the best line is the only one. */
  lemma FitUnique(ps: seq<Point>, m: Line)
    requires ps != [] && !SameX(ps)
    requires SquaredError(ps, m) <= SquaredError(ps, LinearRegression(ps))
    ensures m == LinearRegression(ps)
  {
    hide LinearRegression, SquaredError, Energy, SlopeGradient, InterceptGradient, Cross, Height;
    var l := LinearRegression(ps);
    var d := Minus(m, l);
    NormalEquations(ps);
    Excess(ps, l, m);
    CrossZero(d);
    EnergyFacts(ps, d);
    var i, j :| 0 <= i < |ps| && 0 <= j < |ps| && ps[i].x != ps[j].x;
    TwoZeros(d, ps[i].x, ps[j].x);
  }

  lemma TwoZeros(d: Line, x: real, y: real)
    requires x != y && Height(d, x) == 0.0 && Height(d, y) == 0.0
    ensures d == Line(0.0, 0.0)
  {
    assert d.slope * (x - y) == d.slope * x - d.slope * y;
    ZeroFactor(x - y, d.slope);
  }

  lemma {:induction false} NoErrorOnLine(ps: seq<Point>, l: Line)
    requires forall i :: 0 <= i < |ps| ==> OnLine(ps[i], l)
    ensures SquaredError(ps, l) == 0.0
  {
    if ps != [] {
      NoErrorOnLine(ps[..|ps| - 1], l);
    }
  }

  lemma {:induction false} SquaredErrorNonNegative(ps: seq<Point>, l: Line)
    ensures SquaredError(ps, l) >= 0.0
  {
    if ps != [] {
      SquaredErrorNonNegative(ps[..|ps| - 1], l);
      SquareNonNegative(Residual(ps[|ps| - 1], l));
    }
  }

  /** Points of one line give that line back. */
  lemma RecoversLine(ps: seq<Point>, l: Line)
    requires ps != [] && !SameX(ps)
    requires forall i :: 0 <= i < |ps| ==> OnLine(ps[i], l)
    ensures LinearRegression(ps) == l
  {
    NoErrorOnLine(ps, l);
    SquaredErrorNonNegative(ps, LinearRegression(ps));
    FitUnique(ps, l);
  }

  lemma {:induction false} LevelSum(ps: seq<Point>, c: real)
    requires forall i :: 0 <= i < |ps| ==> ps[i].y == c
    ensures Fold(ps).y == |ps| as real * c
  {
    if ps != [] {
      LevelSum(ps[..|ps| - 1], c);
      assert |ps| as real == |ps[..|ps| - 1]| as real + 1.0;
      Distributes(c, |ps[..|ps| - 1]| as real, 1.0);
    }
  }

  /** At a single abscissa the fit is level, and meets level points. */
  lemma LevelFit(ps: seq<Point>, c: real)
    requires ps != [] && SameX(ps)
    ensures LinearRegression(ps).slope == 0.0
    ensures (forall i :: 0 <= i < |ps| ==> ps[i].y == c) ==> LinearRegression(ps) == Line(0.0, c)
  {
    ZeroDenominatorIffSameX(ps);
    if forall i :: 0 <= i < |ps| ==> ps[i].y == c {
      LevelSum(ps, c);
      CancelFactor(|ps| as real, c);
      assert LinearRegression(ps).intercept == Fold(ps).y / |ps| as real;
    }
  }

  lemma CancelFactor(n: real, c: real)
    requires n != 0.0
    ensures (n * c) / n == c
  {
    TimesQuotient(n * c, n);
    assert n * ((n * c) / n - c) == n * ((n * c) / n) - n * c;
    ZeroFactor(n, (n * c) / n - c);
  }

  /** Points of one line give that line back exactly when they differ in x or the line is level. */
  lemma RecoversLineExactlyWhen(ps: seq<Point>, l: Line)
    requires ps != []
    requires forall i :: 0 <= i < |ps| ==> OnLine(ps[i], l)
    ensures LinearRegression(ps) == l <==> !SameX(ps) || l.slope == 0.0
  {
    if SameX(ps) {
      LevelFit(ps, l.intercept);
      if l.slope == 0.0 {
        assert forall i :: 0 <= i < |ps| ==> ps[i].y == l.intercept;
      }
    } else {
      RecoversLine(ps, l);
    }
  }
}
