/**
 The straight line fitted to a sweep of measurements, over the reals: it is the line of least squared
 error, and the largest residual reported with it is the largest one it leaves.
 */
module LeastSquares {
  datatype Point = Point(x: real, y: real)

  datatype Line = Line(rate: real, envelope: real) {
    function At(x: real): real {
      rate * x + envelope
    }
  }

  function Sum(points: seq<Point>, f: Point -> real): real {
    if points == [] then 0.0 else Sum(points[..|points| - 1], f) + f(points[|points| - 1])
  }

  function X(p: Point): real { p.x }

  function Y(p: Point): real { p.y }

  function XX(p: Point): real { p.x * p.x }

  function XY(p: Point): real { p.x * p.y }

  function YY(p: Point): real { p.y * p.y }

  function Denominator(points: seq<Point>): real {
    |points| as real * Sum(points, XX) - Sum(points, X) * Sum(points, X)
  }

  function FitLine(points: seq<Point>): Line
    requires points != []
  {
    var n := |points| as real;
    var denominator := Denominator(points);
    var rate :=
      if denominator == 0.0 then 0.0
      else (n * Sum(points, XY) - Sum(points, X) * Sum(points, Y)) / denominator;
    Line(rate, (Sum(points, Y) - rate * Sum(points, X)) / n)
  }

  function Residual(line: Line, p: Point): (r: real)
    ensures r >= 0.0
  {
    var d := p.y - line.At(p.x);
    if d < 0.0 then -d else d
  }

  /** The largest residual, folded from zero. */
  function Worst(points: seq<Point>, line: Line): real {
    if points == [] then 0.0
    else
      var before, last := Worst(points[..|points| - 1], line), Residual(line, points[|points| - 1]);
      if last > before then last else before
  }

  lemma {:induction false} WorstIsSome(points: seq<Point>, line: Line)
    requires points != []
    ensures forall p <- points :: Residual(line, p) <= Worst(points, line)
    ensures exists p <- points :: Residual(line, p) == Worst(points, line)
  {
    hide Residual;
    var front, last := points[..|points| - 1], points[|points| - 1];
    assert points == front + [last];
    if front != [] {
      WorstIsSome(front, line);
    } else {
      assert Worst(front, line) == 0.0;
    }
    assert last in points;
  }

  /** No point lies further above or below the line than the largest residual, and some point lies that far. */
  lemma WorstIsLargest(points: seq<Point>, line: Line)
    requires points != []
    ensures var worst := Worst(points, line);
      && (forall p <- points :: -worst <= p.y - (line.rate * p.x + line.envelope) <= worst)
      && (exists p <- points ::
        p.y - (line.rate * p.x + line.envelope) == worst || p.y - (line.rate * p.x + line.envelope) == -worst)
  {
    hide Worst;
    WorstIsSome(points, line);
    var p :| p in points && Residual(line, p) == Worst(points, line);
  }

  // ---- Squared error ----

  function Squared(r: real): (s: real)
    ensures s >= 0.0
    ensures s == 0.0 <==> r == 0.0
  {
    var size := if r < 0.0 then -r else r;
    SignOfProduct(size, size);
    size * size
  }

  lemma SignOfProduct(a: real, b: real)
    requires a >= 0.0 && b >= 0.0
    ensures a * b >= 0.0
    ensures a * b == 0.0 <==> a == 0.0 || b == 0.0
  {
  }

  lemma SquaredIsProduct(r: real)
    ensures Squared(r) == r * r
  {
  }

  function SquaredError(points: seq<Point>, line: Line): (s: real)
    ensures s >= 0.0
  {
    if points == [] then 0.0
    else SquaredError(points[..|points| - 1], line) + Squared(points[|points| - 1].y - line.At(points[|points| - 1].x))
  }

  /** The sum of the squares of the values a line takes at the points' abscissas. */
  function SquaredValues(points: seq<Point>, line: Line): (s: real)
    ensures s >= 0.0
  {
    if points == [] then 0.0
    else SquaredValues(points[..|points| - 1], line) + Squared(line.At(points[|points| - 1].x))
  }

  datatype Sums = Sums(n: real, x: real, y: real, xx: real, xy: real, yy: real)

  function SumsOf(points: seq<Point>): Sums {
    Sums(|points| as real, Sum(points, X), Sum(points, Y), Sum(points, XX), Sum(points, XY), Sum(points, YY))
  }

  function WithPoint(s: Sums, p: Point): Sums {
    Sums(s.n + 1.0, s.x + p.x, s.y + p.y, s.xx + p.x * p.x, s.xy + p.x * p.y, s.yy + p.y * p.y)
  }

  lemma SumsGrow(points: seq<Point>)
    requires points != []
    ensures SumsOf(points) == WithPoint(SumsOf(points[..|points| - 1]), points[|points| - 1])
  {
  }

  /** The squared error, as a quadratic form in the two coefficients. */
  function ErrorForm(s: Sums, a: real, b: real): real {
    s.yy + a * a * s.xx + s.n * (b * b) - 2.0 * a * s.xy - 2.0 * b * s.y + 2.0 * a * b * s.x
  }

  function ValueForm(s: Sums, a: real, b: real): real {
    a * a * s.xx + s.n * (b * b) + 2.0 * a * b * s.x
  }

  lemma {:induction false} ErrorExpands(points: seq<Point>, line: Line)
    ensures SquaredError(points, line) == ErrorForm(SumsOf(points), line.rate, line.envelope)
  {
    if points != [] {
      hide Squared;
      hide ErrorForm;
      hide SumsOf;
      hide WithPoint;
      var front, last := points[..|points| - 1], points[|points| - 1];
      ErrorExpands(front, line);
      SumsGrow(points);
      ErrorGrows(SumsOf(front), line.rate, line.envelope, last);
    }
  }

  lemma ErrorGrows(s: Sums, a: real, b: real, p: Point)
    ensures ErrorForm(s, a, b) + Squared(p.y - Line(a, b).At(p.x)) == ErrorForm(WithPoint(s, p), a, b)
  {
    hide Squared;
    hide ErrorForm;
    FormGrows(s, a, b, p);
    SquareExpands(a, b, p);
  }

  lemma FormGrows(s: Sums, a: real, b: real, p: Point)
    ensures ErrorForm(WithPoint(s, p), a, b) == ErrorForm(s, a, b) + ErrorForm(OnePoint(p), a, b)
  {
    Distribute(a * a, s.xx, p.x * p.x);
    Distribute(2.0 * a, s.xy, p.x * p.y);
    Distribute(2.0 * b, s.y, p.y);
    Distribute(2.0 * a * b, s.x, p.x);
  }

  function OnePoint(p: Point): Sums {
    Sums(1.0, p.x, p.y, p.x * p.x, p.x * p.y, p.y * p.y)
  }

  lemma SquareExpands(a: real, b: real, p: Point)
    ensures Squared(p.y - Line(a, b).At(p.x)) == ErrorForm(OnePoint(p), a, b)
  {
    SquaredIsProduct(p.y - Line(a, b).At(p.x));
  }

  lemma Distribute(k: real, a: real, b: real)
    ensures k * (a + b) == k * a + k * b
  {
  }

  lemma {:induction false} ValuesExpand(points: seq<Point>, line: Line)
    ensures SquaredValues(points, line) == ValueForm(SumsOf(points), line.rate, line.envelope)
  {
    if points != [] {
      hide Squared;
      hide ValueForm;
      hide SumsOf;
      hide WithPoint;
      var front, last := points[..|points| - 1], points[|points| - 1];
      ValuesExpand(front, line);
      SumsGrow(points);
      ValuesGrow(SumsOf(front), line.rate, line.envelope, last);
    }
  }

  lemma ValuesGrow(s: Sums, a: real, b: real, p: Point)
    ensures ValueForm(s, a, b) + Squared(Line(a, b).At(p.x)) == ValueForm(WithPoint(s, p), a, b)
  {
    Distribute(a * a, s.xx, p.x * p.x);
    Distribute(2.0 * a * b, s.x, p.x);
    SquaredIsProduct(a * p.x + b);
    assert Squared(a * p.x + b) == a * a * (p.x * p.x) + b * b + 2.0 * a * b * p.x;
  }

  lemma {:induction false} ValuesVanish(points: seq<Point>, line: Line)
    ensures SquaredValues(points, line) == 0.0 <==> forall p <- points :: line.At(p.x) == 0.0
  {
    if points != [] {
      var front, last := points[..|points| - 1], points[|points| - 1];
      ValuesVanish(front, line);
      assert points == front + [last];
    }
  }

  predicate Through(line: Line, points: seq<Point>) {
    forall p <- points :: p.y == line.At(p.x)
  }

  lemma {:induction false} ErrorVanishes(points: seq<Point>, line: Line)
    ensures SquaredError(points, line) == 0.0 <==> Through(line, points)
  {
    if points != [] {
      var front, last := points[..|points| - 1], points[|points| - 1];
      ErrorVanishes(front, line);
      assert points == front + [last];
    }
  }

  // ---- The denominator ----

  predicate SameAbscissa(points: seq<Point>) {
    forall p <- points, q <- points :: p.x == q.x
  }

  /** The denominator is never negative, and is zero exactly when all points share one abscissa. */
  lemma {:induction false} DenominatorIsSpread(points: seq<Point>)
    ensures Denominator(points) >= 0.0
    ensures Denominator(points) == 0.0 <==> SameAbscissa(points)
  {
    if points != [] {
      hide Denominator;
      hide SquaredValues;
      var front, last := points[..|points| - 1], points[|points| - 1];
      var offset := Line(1.0, -last.x);
      DenominatorIsSpread(front);
      ValuesVanish(front, offset);
      DenominatorStep(points);
      assert points == front + [last];
      assert SameAbscissa(points) <==> forall p <- front :: p.x == last.x;
    }
  }

  lemma DenominatorStep(points: seq<Point>)
    requires points != []
    ensures var front, last := points[..|points| - 1], points[|points| - 1];
      Denominator(points) == Denominator(front) + SquaredValues(front, Line(1.0, -last.x))
  {
    hide SquaredValues;
    var front, last := points[..|points| - 1], points[|points| - 1];
    ValuesExpand(front, Line(1.0, -last.x));
    DenominatorGrows(|front| as real, Sum(front, X), Sum(front, XX), last.x);
  }

  lemma DenominatorGrows(n: real, sx: real, sxx: real, x: real)
    ensures (n + 1.0) * (sxx + x * x) - (sx + x) * (sx + x)
         == (n * sxx - sx * sx) + (sxx + n * (x * x) - 2.0 * x * sx)
  {
  }

  lemma {:induction false} SharedAbscissaSums(points: seq<Point>, x: real)
    requires forall p <- points :: p.x == x
    ensures Sum(points, X) == |points| as real * x && Sum(points, XX) == x * Sum(points, X)
    ensures Sum(points, XY) == x * Sum(points, Y)
  {
    if points != [] {
      var front, last := points[..|points| - 1], points[|points| - 1];
      SharedAbscissaSums(front, x);
      assert last in points;
      Distribute(x, Sum(front, X), x);
      Distribute(x, Sum(front, Y), last.y);
      Distribute(x, |front| as real, 1.0);
    } else {
      assert Sum(points, X) == 0.0;
    }
  }

  // ---- The fitted line ----

  lemma Solve(n: real, sx: real, sy: real, sxx: real, sxy: real)
    requires n > 0.0 && n * sxx - sx * sx != 0.0
    ensures var rate := (n * sxy - sx * sy) / (n * sxx - sx * sx);
      var envelope := (sy - rate * sx) / n;
      n * envelope + rate * sx == sy && rate * sxx + envelope * sx == sxy
  {
    var d := n * sxx - sx * sx;
    var rate := (n * sxy - sx * sy) / d;
    var envelope := (sy - rate * sx) / n;
    assert n * envelope == sy - rate * sx;
    assert rate * d == n * sxy - sx * sy;
    Scaled(n, sx, sy, sxx, sxy, rate, envelope);
  }

  lemma Scaled(n: real, sx: real, sy: real, sxx: real, sxy: real, rate: real, envelope: real)
    requires n > 0.0 && n * envelope == sy - rate * sx
    requires rate * (n * sxx - sx * sx) == n * sxy - sx * sy
    ensures rate * sxx + envelope * sx == sxy
  {
    calc {
      n * (rate * sxx + envelope * sx);
      rate * (n * sxx) + (n * envelope) * sx;
      rate * (n * sxx) + (sy - rate * sx) * sx;
      rate * (n * sxx - sx * sx) + sy * sx;
      n * sxy;
    }
    Cancel(n, rate * sxx + envelope * sx, sxy);
  }

  lemma Cancel(n: real, a: real, b: real)
    requires n > 0.0 && n * a == n * b
    ensures a == b
  {
    assert n * (a - b) == 0.0;
  }

  /** The residuals of the fitted line balance, and are uncorrelated with the abscissas. */
  lemma NormalEquations(points: seq<Point>)
    requires points != []
    ensures var line := FitLine(points);
      && |points| as real * line.envelope + line.rate * Sum(points, X) == Sum(points, Y)
      && line.rate * Sum(points, XX) + line.envelope * Sum(points, X) == Sum(points, XY)
  {
    hide Sum;
    if Denominator(points) == 0.0 {
      DenominatorIsSpread(points);
      SharedAbscissaSums(points, points[0].x);
      FlatLine(|points| as real, Sum(points, X), Sum(points, Y), points[0].x);
      NoSlope(Sum(points, X), Sum(points, XX));
    } else {
      Solve(|points| as real, Sum(points, X), Sum(points, Y), Sum(points, XX), Sum(points, XY));
    }
  }

  lemma NoSlope(sx: real, sxx: real)
    ensures 0.0 * sx == 0.0 && 0.0 * sxx == 0.0
  {
  }

  lemma FlatLine(n: real, sx: real, sy: real, x: real)
    requires n > 0.0 && sx == n * x
    ensures n * (sy / n) == sy && (sy / n) * sx == x * sy
  {
    var envelope := sy / n;
    assert n * envelope == sy;
    assert envelope * (n * x) == (n * envelope) * x;
  }

  /** With one abscissa for all points the line is flat, through the mean. */
  lemma FlatFit(points: seq<Point>)
    requires points != [] && SameAbscissa(points)
    ensures FitLine(points) == Line(0.0, Sum(points, Y) / |points| as real)
  {
    hide Denominator;
    hide Sum;
    DenominatorIsSpread(points);
    NoSlope(Sum(points, X), 0.0);
  }

  /** What any other line adds to the squared error is the squared distance between the two lines. */
  lemma ErrorAbove(points: seq<Point>, line: Line)
    requires points != []
    ensures var fitted := FitLine(points);
      SquaredError(points, line)
      == SquaredError(points, fitted)
         + SquaredValues(points, Line(line.rate - fitted.rate, line.envelope - fitted.envelope))
  {
    hide Sum;
    hide FitLine;
    hide SquaredError;
    hide SquaredValues;
    var fitted := FitLine(points);
    var difference := Line(line.rate - fitted.rate, line.envelope - fitted.envelope);
    NormalEquations(points);
    ErrorExpands(points, line);
    ErrorExpands(points, fitted);
    ValuesExpand(points, difference);
    CompleteSquares(SumsOf(points), fitted.rate, fitted.envelope, difference.rate, difference.envelope);
  }

  lemma CompleteSquares(s: Sums, a: real, b: real, u: real, v: real)
    requires s.n * b + a * s.x == s.y && a * s.xx + b * s.x == s.xy
    ensures ErrorForm(s, a + u, b + v) == ErrorForm(s, a, b) + ValueForm(s, u, v)
  {
    assert u * s.xy == u * (a * s.xx) + u * (b * s.x);
    assert v * s.y == v * (s.n * b) + v * (a * s.x);
  }

  /**
   The fitted line has the least squared error of all lines, and a line ties with it exactly when the two
   agree at every point.
   */
  lemma FitIsBest(points: seq<Point>, line: Line)
    requires points != []
    ensures SquaredError(points, FitLine(points)) <= SquaredError(points, line)
    ensures SquaredError(points, FitLine(points)) == SquaredError(points, line)
       <==> forall p <- points :: line.At(p.x) == FitLine(points).At(p.x)
  {
    hide FitLine;
    hide SquaredError;
    hide SquaredValues;
    var fitted := FitLine(points);
    var difference := Line(line.rate - fitted.rate, line.envelope - fitted.envelope);
    ErrorAbove(points, line);
    ValuesVanish(points, difference);
    forall p <- points
      ensures difference.At(p.x) == line.At(p.x) - fitted.At(p.x)
    {
    }
  }

  lemma LinesMeetOnce(a: Line, b: Line, x: real, y: real)
    requires x != y && a.At(x) == b.At(x) && a.At(y) == b.At(y)
    ensures a == b
  {
    assert (a.rate - b.rate) * (x - y) == 0.0;
  }

  /** It is the only best line exactly when two points differ in abscissa, which is when the denominator is not zero. */
  lemma FitIsUnique(points: seq<Point>)
    requires points != []
    ensures (forall line: Line :: SquaredError(points, line) <= SquaredError(points, FitLine(points)) ==> line == FitLine(points))
       <==> Denominator(points) != 0.0
  {
    hide FitLine;
    hide SquaredError;
    hide Denominator;
    var fitted := FitLine(points);
    DenominatorIsSpread(points);
    if SameAbscissa(points) {
      var x := points[0].x;
      var other := Line(fitted.rate + 1.0, fitted.envelope - x);
      FitIsBest(points, other);
      assert SquaredError(points, other) <= SquaredError(points, fitted) && other != fitted;
    } else {
      var p, q :| p in points && q in points && p.x != q.x;
      forall line: Line | SquaredError(points, line) <= SquaredError(points, fitted)
        ensures line == fitted
      {
        FitIsBest(points, line);
        LinesMeetOnce(line, fitted, p.x, q.x);
      }
    }
  }

  /** The largest residual is zero exactly when some line passes through every point. */
  lemma ExactFit(points: seq<Point>)
    requires points != []
    ensures Worst(points, FitLine(points)) == 0.0
       <==> exists line: Line :: Through(line, points)
  {
    hide FitLine;
    hide SquaredError;
    hide Worst;
    var fitted := FitLine(points);
    WorstIsLargest(points, fitted);
    ErrorVanishes(points, fitted);
    if Worst(points, fitted) == 0.0 {
      assert Through(fitted, points);
    }
    forall line: Line | Through(line, points)
      ensures Worst(points, fitted) == 0.0
    {
      ErrorVanishes(points, line);
      FitIsBest(points, line);
    }
  }

  /** Points on a line, two of them apart, give that line back. */
  lemma FitRecoversLine(points: seq<Point>, line: Line)
    requires points != [] && !SameAbscissa(points)
    requires Through(line, points)
    ensures FitLine(points) == line && Worst(points, FitLine(points)) == 0.0
  {
    hide FitLine;
    hide SquaredError;
    hide Denominator;
    ExactFit(points);
    ErrorVanishes(points, line);
    DenominatorIsSpread(points);
    FitIsUnique(points);
  }
}
