/** Least squares over the reals; the slope's standard error is kept as its square. */
module Fit {
  import opened Prelude

  datatype Point = Point(x: real, y: real)

  datatype Fit = Fit(slope: real, intercept: real, stderrSquared: real, n: nat, r2: real)

  datatype NoFit = TooFewPoints(distinct: nat) | NoSpread

  // ---------- Distinct sizes: sorted, then deduplicated ----------

  function Insert(x: real, s: seq<real>): seq<real> {
    if s == [] || x <= s[0] then [x] + s else [s[0]] + Insert(x, s[1..])
  }

  function Sort(s: seq<real>): seq<real> {
    if s == [] then [] else Insert(s[0], Sort(s[1..]))
  }

  /** Drop each element equal to the one after it. */
  function Dedup(s: seq<real>): seq<real> {
    if |s| <= 1 then s
    else if s[0] == s[1] then Dedup(s[1..])
    else [s[0]] + Dedup(s[1..])
  }

  function Xs(ps: seq<Point>): (xs: seq<real>)
    ensures |xs| == |ps| && forall i :: 0 <= i < |ps| ==> xs[i] == ps[i].x
  {
    if ps == [] then [] else [ps[0].x] + Xs(ps[1..])
  }

  ghost predicate Sorted(s: seq<real>) {
    forall i, j :: 0 <= i < j < |s| ==> s[i] <= s[j]
  }

  lemma {:induction false} InsertKeeps(x: real, s: seq<real>)
    requires Sorted(s)
    ensures Sorted(Insert(x, s)) && Elements(Insert(x, s)) == Elements(s) + {x}
  {
    hide Sorted, Elements, Insert;
    InsertOne(x, s);
    if s == [] {
      ElementsCons(x, s);
      SortedOne(x);
    } else {
      var head, tail := s[0], s[1..];
      assert s == [head] + tail;
      ElementsCons(head, tail);
      SortedCons(head, tail);
      if x <= head {
        ElementsCons(x, s);
        SortedCons(x, s);
      } else {
        SortedTail(s);
        InsertKeeps(x, tail);
        ElementsCons(head, Insert(x, tail));
        SortedCons(head, Insert(x, tail));
      }
    }
  }

  lemma InsertOne(x: real, s: seq<real>)
    ensures Insert(x, s) == if s == [] || x <= s[0] then [x] + s else [s[0]] + Insert(x, s[1..])
  {
  }

  lemma SortedOne(x: real)
    ensures Sorted([x] + []) && Elements<real>([]) == {}
  {
  }

  lemma SortedTail(s: seq<real>)
    requires Sorted(s) && s != []
    ensures Sorted(s[1..])
  {
  }

  lemma ElementsCons(x: real, s: seq<real>)
    ensures Elements([x] + s) == {x} + Elements(s)
  {
  }

  lemma SortedCons(x: real, s: seq<real>)
    ensures Sorted([x] + s) <==> Sorted(s) && forall y :: y in Elements(s) ==> x <= y
  {
    var longer := [x] + s;
    assert forall k :: 0 <= k < |s| ==> longer[k + 1] == s[k] && s[k] in Elements(s);
    if Sorted(longer) {
      SortedTail(longer);
      assert longer[1..] == s;
      forall y | y in Elements(s) ensures x <= y {
        var k :| 0 <= k < |s| && s[k] == y;
        assert longer[0] <= longer[k + 1];
      }
    }
  }

  lemma {:induction false} SortSorts(s: seq<real>)
    ensures Sorted(Sort(s)) && Elements(Sort(s)) == Elements(s)
  {
    if s != [] {
      SortSorts(s[1..]);
      InsertKeeps(s[0], Sort(s[1..]));
      assert Elements(s) == {s[0]} + Elements(s[1..]);
    }
  }

  lemma {:induction false} DedupKeeps(s: seq<real>)
    requires Sorted(s)
    ensures Elements(Dedup(s)) == Elements(s)
    ensures forall i, j :: 0 <= i < j < |Dedup(s)| ==> Dedup(s)[i] < Dedup(s)[j]
  {
    if |s| > 1 {
      var rest := s[1..];
      DedupKeeps(rest);
      assert Elements(s) == {s[0]} + Elements(rest);
      if s[0] == s[1] {
        assert s[0] == rest[0] && rest[0] in Elements(rest);
      } else {
        forall k | 0 <= k < |Dedup(rest)| ensures s[0] < Dedup(rest)[k] {
          assert Dedup(rest)[k] in Elements(rest);
        }
      }
    }
  }

  /** The different x values. */
  ghost function Sizes(ps: seq<Point>): set<real> {
    set p | p in ps :: p.x
  }

  /** What is counted is the number of different x values. */
  lemma DistinctSizes(ps: seq<Point>)
    ensures |Dedup(Sort(Xs(ps)))| == |Sizes(ps)|
    ensures |Sizes(ps)| <= |ps|
  {
    var xs := Xs(ps);
    SortSorts(xs);
    DedupKeeps(Sort(xs));
    DistinctCardinality(Dedup(Sort(xs)));
    assert Elements(xs) == Sizes(ps) by {
      forall x | x in Elements(xs) ensures exists p :: p in ps && p.x == x {
        var i :| 0 <= i < |xs| && xs[i] == x;
        assert ps[i] in ps;
      }
      forall p | p in ps ensures p.x in xs {
        var i :| 0 <= i < |ps| && ps[i] == p;
        assert xs[i] == p.x;
      }
    }
    ElementsBound(xs);
  }

  lemma {:induction false} ElementsBound(s: seq<real>)
    ensures |Elements(s)| <= |s|
  {
    if s != [] {
      ElementsBound(s[1..]);
      assert Elements(s) == {s[0]} + Elements(s[1..]);
    }
  }

  // ---------- Sums ----------

  function Times(x: real, y: real): real {
    x * y
  }

  function Square(x: real): (r: real)
    ensures r >= 0.0
    ensures if x == 0.0 then r == 0.0 else r > 0.0
  {
    SquareSign(x);
    Times(x, x)
  }

  lemma SquareSign(x: real)
    ensures if x == 0.0 then Times(x, x) == 0.0 else Times(x, x) > 0.0
  {
    TimesNegated(x);
    hide Times;
    if x > 0.0 {
      TimesPositive(x, x);
    } else if x < 0.0 {
      TimesPositive(-x, -x);
    } else {
      TimesZero(x);
    }
  }

  lemma TimesPositive(x: real, y: real)
    requires x > 0.0 && y > 0.0
    ensures Times(x, y) > 0.0
  {
  }

  lemma TimesNegated(x: real)
    ensures Times(-x, -x) == Times(x, x)
  {
  }

  lemma TimesZero(y: real)
    ensures Times(0.0, y) == 0.0
  {
  }

  function SumX(ps: seq<Point>): real {
    if ps == [] then 0.0 else SumX(ps[..|ps| - 1]) + ps[|ps| - 1].x
  }

  function SumY(ps: seq<Point>): real {
    if ps == [] then 0.0 else SumY(ps[..|ps| - 1]) + ps[|ps| - 1].y
  }

  function Sxx(ps: seq<Point>, u: real): real {
    if ps == [] then 0.0
    else Sxx(ps[..|ps| - 1], u) + Square(ps[|ps| - 1].x - u)
  }

  function Sxy(ps: seq<Point>, u: real, v: real): real {
    if ps == [] then 0.0
    else Sxy(ps[..|ps| - 1], u, v) + Times(ps[|ps| - 1].x - u, ps[|ps| - 1].y - v)
  }

  function Syy(ps: seq<Point>, v: real): real {
    if ps == [] then 0.0
    else Syy(ps[..|ps| - 1], v) + Square(ps[|ps| - 1].y - v)
  }

  function Error(p: Point, intercept: real, slope: real): real {
    p.y - (intercept + slope * p.x)
  }

  /** The squared residual sum of a line. */
  function Residual(ps: seq<Point>, intercept: real, slope: real): real {
    if ps == [] then 0.0
    else Residual(ps[..|ps| - 1], intercept, slope) + Square(Error(ps[|ps| - 1], intercept, slope))
  }

  function MeanX(ps: seq<Point>): real
    requires ps != []
  {
    SumX(ps) / |ps| as real
  }

  function MeanY(ps: seq<Point>): real
    requires ps != []
  {
    SumY(ps) / |ps| as real
  }

  // ---------- The fit ----------

  function Slope(ps: seq<Point>): real
    requires ps != [] && Sxx(ps, MeanX(ps)) > 0.0
  {
    Sxy(ps, MeanX(ps), MeanY(ps)) / Sxx(ps, MeanX(ps))
  }

  function Intercept(ps: seq<Point>): real
    requires ps != [] && Sxx(ps, MeanX(ps)) > 0.0
  {
    MeanY(ps) - Slope(ps) * MeanX(ps)
  }

  /** Two degrees of freedom are spent on the line; never fewer than one is left. */
  function Freedom(n: nat): (dof: real)
    ensures dof >= 1.0
  {
    if n as real - 2.0 > 1.0 then n as real - 2.0 else 1.0
  }

  /** The square of the standard error of the slope. */
  function ErrorSquared(res: real, dof: real, sxx: real): real
    requires dof > 0.0 && sxx > 0.0
  {
    res / dof / sxx
  }

  function Determination(res: real, tot: real): real {
    if tot > 0.0 then 1.0 - res / tot else 1.0
  }

  function FitLine(ps: seq<Point>): (r: Result<Fit, NoFit>) {
    var xs := Dedup(Sort(Xs(ps)));
    if |xs| < 3 then Err(TooFewPoints(|xs|))
    else
      DistinctSizes(ps);
      var sxx := Sxx(ps, MeanX(ps));
      if sxx <= 0.0 then Err(NoSpread)
      else
        var res := Residual(ps, Intercept(ps), Slope(ps));
        var r2 := Determination(res, Syy(ps, MeanY(ps)));
        Ok(Fit.Fit(Slope(ps), Intercept(ps), ErrorSquared(res, Freedom(|ps|), sxx), |ps|, r2))
  }

  /** Two standard errors, compared as squares. */
  predicate Distinguishable(f: Fit) {
    Square(f.slope) > 4.0 * f.stderrSquared
  }

  /** Comparing squares is comparing the slope's size with twice the standard error itself. */
  lemma TwoStandardErrors(f: Fit, stderr: real)
    requires stderr >= 0.0 && Square(stderr) == f.stderrSquared
    ensures Distinguishable(f) <==> (if f.slope < 0.0 then -f.slope else f.slope) > 2.0 * stderr
    ensures Verdict(f) ==
      if f.slope > 2.0 * stderr then "positive" else if -f.slope > 2.0 * stderr then "negative" else "flat"
  {
    var size := if f.slope < 0.0 then -f.slope else f.slope;
    assert Square(size) == Square(f.slope) && Square(2.0 * stderr) == 4.0 * Square(stderr);
    DifferenceOfSquares(size, 2.0 * stderr);
  }

  lemma DifferenceOfSquares(x: real, y: real)
    requires x >= 0.0 && y >= 0.0
    ensures Square(x) > Square(y) <==> x > y
  {
    assert Square(x) - Square(y) == Times(x - y, x + y);
    hide Times;
    if x > y {
      TimesPositive(x - y, x + y);
    } else if x < y {
      OppositeSign(x - y, x + y);
    }
  }

  lemma OppositeSign(x: real, y: real)
    requires x < 0.0 && y > 0.0
    ensures Times(x, y) < 0.0
  {
  }

  function Verdict(f: Fit): string {
    if !Distinguishable(f) then "flat" else if f.slope > 0.0 then "positive" else "negative"
  }

  // ---------- The residual of any line, around the means ----------

  /** The residual sum of a line at slope b and height d above the centre, from the centred sums. */
  function Expansion(b: real, d: real, n: real, syy: real, sxx: real, sxy: real, sy: real, sx: real): real {
    syy + b * b * sxx + n * (d * d) - 2.0 * (b * sxy) + 2.0 * (d * sy) - 2.0 * (b * d * sx)
  }

  lemma ExpandSquare(e: real, b: real, d: real, dx: real, dy: real)
    requires e == dy - b * dx + d
    ensures Square(e) == Expansion(b, d, 1.0, Square(dy), Square(dx), Times(dx, dy), dy, dx)
  {
  }

  lemma ExpansionAdds(b: real, d: real, n: real, syy: real, sxx: real, sxy: real, sy: real, sx: real,
                      syy': real, sxx': real, sxy': real, sy': real, sx': real)
    ensures Expansion(b, d, n + 1.0, syy + syy', sxx + sxx', sxy + sxy', sy + sy', sx + sx')
      == Expansion(b, d, n, syy, sxx, sxy, sy, sx) + Expansion(b, d, 1.0, syy', sxx', sxy', sy', sx')
  {
    assert b * b * (sxx + sxx') == b * b * sxx + b * b * sxx';
    assert b * (sxy + sxy') == b * sxy + b * sxy';
    assert d * (sy + sy') == d * sy + d * sy';
    assert b * d * (sx + sx') == b * d * sx + b * d * sx';
    assert (n + 1.0) * (d * d) == n * (d * d) + d * d;
  }

  /** The sum of what lies above a centre. */
  function Off(sum: real, n: nat, centre: real): real {
    sum - n as real * centre
  }

  lemma OffSnoc(sum: real, n: nat, centre: real, x: real)
    ensures Off(sum + x, n + 1, centre) == Off(sum, n, centre) + (x - centre)
  {
  }

  /** How far the centre lies above a line. */
  function Height(mx: real, my: real, a: real, b: real): real {
    my - a - b * mx
  }

  lemma {:induction false} ResidualAround(ps: seq<Point>, a: real, b: real, u: real, v: real, d: real)
    requires d == Height(u, v, a, b)
    ensures Residual(ps, a, b) == Expansion(b, d, |ps| as real, Syy(ps, v), Sxx(ps, u), Sxy(ps, u, v),
                                            Off(SumY(ps), |ps|, v), Off(SumX(ps), |ps|, u))
  {
    hide Square, Times, Height;
    if ps == [] {
      assert Off(0.0, 0, u) == 0.0 && Off(0.0, 0, v) == 0.0;
      assert Expansion(b, d, 0.0, 0.0, 0.0, 0.0, 0.0, 0.0) == 0.0;
    } else {
      var rest, p := ps[..|ps| - 1], ps[|ps| - 1];
      ResidualAround(rest, a, b, u, v, d);
      ErrorAround(p, a, b, u, v, d);
      hide Expansion, Off, Error;
      PointAdds(rest, p, Error(p, a, b), b, u, v, d);
    }
  }

  lemma PointAdds(rest: seq<Point>, p: Point, e: real, b: real, u: real, v: real, d: real)
    requires Square(e) == Expansion(b, d, 1.0, Square(p.y - v), Square(p.x - u), Times(p.x - u, p.y - v), p.y - v, p.x - u)
    ensures Expansion(b, d, (|rest| + 1) as real, Syy(rest, v) + Square(p.y - v), Sxx(rest, u) + Square(p.x - u),
                      Sxy(rest, u, v) + Times(p.x - u, p.y - v),
                      Off(SumY(rest) + p.y, |rest| + 1, v), Off(SumX(rest) + p.x, |rest| + 1, u))
      == Expansion(b, d, |rest| as real, Syy(rest, v), Sxx(rest, u), Sxy(rest, u, v),
                   Off(SumY(rest), |rest|, v), Off(SumX(rest), |rest|, u))
       + Square(e)
  {
    var dx, dy := p.x - u, p.y - v;
    hide Expansion, Square, Off, Times;
    OffSnoc(SumY(rest), |rest|, v, p.y);
    OffSnoc(SumX(rest), |rest|, u, p.x);
    ExpansionAdds(b, d, |rest| as real, Syy(rest, v), Sxx(rest, u), Sxy(rest, u, v),
                  Off(SumY(rest), |rest|, v), Off(SumX(rest), |rest|, u),
                  Square(dy), Square(dx), Times(dx, dy), dy, dx);
  }

  lemma ErrorAround(p: Point, a: real, b: real, u: real, v: real, d: real)
    requires d == Height(u, v, a, b)
    ensures Square(Error(p, a, b)) ==
      Expansion(b, d, 1.0, Square(p.y - v), Square(p.x - u), Times(p.x - u, p.y - v), p.y - v, p.x - u)
  {
    ExpandSquare(Error(p, a, b), b, d, p.x - u, p.y - v);
  }

  lemma MeansCentre(ps: seq<Point>)
    requires ps != []
    ensures Off(SumX(ps), |ps|, MeanX(ps)) == 0.0 && Off(SumY(ps), |ps|, MeanY(ps)) == 0.0
  {
    hide SumX, SumY;
  }

  /** The residual sum of any line, from the fitted slope. */
  lemma ResidualOfAnyLine(ps: seq<Point>, a: real, b: real, slope: real)
    requires ps != []
    requires Sxx(ps, MeanX(ps)) != 0.0 && slope == Sxy(ps, MeanX(ps), MeanY(ps)) / Sxx(ps, MeanX(ps))
    ensures var mx, my := MeanX(ps), MeanY(ps);
      Residual(ps, a, b) == Syy(ps, my) - Square(slope) * Sxx(ps, mx)
        + Sxx(ps, mx) * Square(b - slope) + |ps| as real * Square(Height(mx, my, a, b))
  {
    hide Sxx, Syy, Sxy, Residual, MeanX, MeanY, Off;
    var mx, my := MeanX(ps), MeanY(ps);
    var d := Height(mx, my, a, b);
    ResidualAround(ps, a, b, mx, my, d);
    MeansCentre(ps);
    CompleteTheSquare(b, d, slope, |ps| as real, Syy(ps, my), Sxx(ps, mx), Sxy(ps, mx, my));
  }

  lemma CompleteTheSquare(b: real, d: real, slope: real, n: real, syy: real, sxx: real, sxy: real)
    requires sxx != 0.0 && slope == sxy / sxx
    ensures Expansion(b, d, n, syy, sxx, sxy, 0.0, 0.0) ==
      syy - Square(slope) * sxx + sxx * Square(b - slope) + n * Square(d)
  {
    assert sxy == slope * sxx;
    assert b * sxy == sxx * (b * slope);
    assert Square(b - slope) == b * b - 2.0 * (b * slope) + Square(slope);
    assert sxx * Square(b - slope) == sxx * (b * b) - 2.0 * (sxx * (b * slope)) + sxx * Square(slope);
  }

  // ---------- What the fit is ----------

  lemma {:induction false} SquaresAddUp(ps: seq<Point>, u: real, v: real, a: real, b: real)
    ensures Sxx(ps, u) >= 0.0 && Syy(ps, v) >= 0.0 && Residual(ps, a, b) >= 0.0
  {
    hide Square, Error;
    if ps != [] {
      SquaresAddUp(ps[..|ps| - 1], u, v, a, b);
    }
  }

  /** No spread means one x value. */
  lemma {:induction false} NoSpreadMeansOneX(ps: seq<Point>, u: real)
    requires Sxx(ps, u) <= 0.0
    ensures forall i :: 0 <= i < |ps| ==> ps[i].x == u
  {
    if ps != [] {
      hide Square;
      var rest := ps[..|ps| - 1];
      SquaresAddUp(rest, u, 0.0, 0.0, 0.0);
      NoSpreadMeansOneX(rest, u);
      assert forall i :: 0 <= i < |rest| ==> ps[i] == rest[i];
    }
  }

  /** **A fit is refused exactly when there are fewer than three x values**, and says how many there are;
      no spread is never the reason. */
  lemma RefusedExactlyWhen(ps: seq<Point>)
    ensures FitLine(ps).Err? <==> |Sizes(ps)| < 3
    ensures FitLine(ps).Err? ==> FitLine(ps).error == TooFewPoints(|Sizes(ps)|)
  {
    DistinctSizes(ps);
    if |Sizes(ps)| >= 3 {
      SizesSpread(ps);
    }
  }

  lemma SizesSpread(ps: seq<Point>)
    requires |Sizes(ps)| >= 3
    ensures |ps| >= 3 && Sxx(ps, MeanX(ps)) > 0.0
  {
    DistinctSizes(ps);
    var sizes, mx := Sizes(ps), MeanX(ps);
    if Sxx(ps, mx) <= 0.0 {
      NoSpreadMeansOneX(ps, mx);
      assert sizes <= {mx} by {
        forall p | p in ps ensures p.x == mx {
          var i :| 0 <= i < |ps| && ps[i] == p;
        }
      }
      SubsetCardinality(sizes, {mx});
      assert false;
    }
  }

  /** What a fit is computed from; the bound on the degrees of freedom is never reached. */
  lemma FitParts(ps: seq<Point>) returns (f: Fit)
    requires |Sizes(ps)| >= 3
    ensures |ps| >= 3 && Sxx(ps, MeanX(ps)) > 0.0
    ensures FitLine(ps) == Ok(f) && f.n == |ps| && f.slope == Slope(ps) && f.intercept == Intercept(ps)
    ensures f.stderrSquared == ErrorSquared(Residual(ps, f.intercept, f.slope), |ps| as real - 2.0, Sxx(ps, MeanX(ps)))
    ensures f.r2 == Determination(Residual(ps, f.intercept, f.slope), Syy(ps, MeanY(ps)))
  {
    hide FitLine, Sxx, Syy, Residual, MeanX, MeanY, Slope, Intercept, ErrorSquared, Determination, Freedom, Sizes;
    RefusedExactlyWhen(ps);
    SizesSpread(ps);
    FreedomLeft(|ps|);
    FitFields(ps);
    f := FitLine(ps).value;
  }

  lemma FreedomLeft(n: nat)
    requires n >= 3
    ensures Freedom(n) == n as real - 2.0
  {
  }

  lemma FitFields(ps: seq<Point>)
    requires ps != [] && Sxx(ps, MeanX(ps)) > 0.0
    ensures FitLine(ps).Err? || var res := Residual(ps, Intercept(ps), Slope(ps));
      FitLine(ps).value == Fit.Fit(Slope(ps), Intercept(ps), ErrorSquared(res, Freedom(|ps|), Sxx(ps, MeanX(ps))),
                                   |ps|, Determination(res, Syy(ps, MeanY(ps))))
  {
    hide Dedup, Sort, Xs, Sxx, Syy, Residual, MeanX, MeanY, Slope, Intercept, ErrorSquared, Determination,
         Freedom, Elements, Square, Times;
  }

  /** The fitted line's height above the centre is zero, and its slope is the one that completes the square. */
  lemma FittedResiduals(ps: seq<Point>, a: real, b: real) returns (f: Fit)
    requires |Sizes(ps)| >= 3
    ensures ps != [] && FitLine(ps) == Ok(f)
    ensures var mx, my := MeanX(ps), MeanY(ps);
      && Sxx(ps, mx) > 0.0
      && Height(mx, my, f.intercept, f.slope) == 0.0
      && Residual(ps, f.intercept, f.slope) == Syy(ps, my) - Square(f.slope) * Sxx(ps, mx)
      && Residual(ps, a, b) == Residual(ps, f.intercept, f.slope)
           + (Sxx(ps, mx) * Square(b - f.slope) + |ps| as real * Square(Height(mx, my, a, b)))
  {
    hide FitLine, Sxx, Syy, Sxy, Residual, MeanX, MeanY, Square, Determination, ErrorSquared, Height, Sizes;
    f := FitParts(ps);
    SlopeOfLine(ps, a, b);
    SlopeOfLine(ps, f.intercept, f.slope);
    hide Slope, Intercept;
    assert f.slope - f.slope == 0.0;
    Nothing(Sxx(ps, MeanX(ps)));
    Nothing(|ps| as real);
  }

  lemma Nothing(x: real)
    ensures x * Square(0.0) == 0.0
  {
    hide Square;
  }

  lemma SlopeOfLine(ps: seq<Point>, a: real, b: real)
    requires ps != [] && Sxx(ps, MeanX(ps)) > 0.0
    ensures var mx, my, slope := MeanX(ps), MeanY(ps), Slope(ps);
      && Height(mx, my, Intercept(ps), slope) == 0.0
      && Residual(ps, a, b) == Syy(ps, my) - Square(slope) * Sxx(ps, mx)
           + Sxx(ps, mx) * Square(b - slope) + |ps| as real * Square(Height(mx, my, a, b))
  {
    hide Sxx, Syy, Sxy, Residual, MeanX, MeanY, Square;
    ResidualOfAnyLine(ps, a, b, Slope(ps));
  }

  /** **Least squares**: no line has a smaller squared residual sum, and any other line has a larger one. */
  lemma FitIsLeastSquares(ps: seq<Point>, a: real, b: real)
    requires |Sizes(ps)| >= 3
    ensures FitLine(ps).Ok?
    ensures var f := FitLine(ps).value;
      && Residual(ps, f.intercept, f.slope) <= Residual(ps, a, b)
      && (Residual(ps, f.intercept, f.slope) == Residual(ps, a, b) ==> a == f.intercept && b == f.slope)
  {
    hide FitLine, Sxx, Syy, Sxy, Residual, MeanX, MeanY, Square, Height, Sizes;
    var f := FittedResiduals(ps, a, b);
    var mx, my := MeanX(ps), MeanY(ps);
    WeightedSquares(Sxx(ps, mx), Square(b - f.slope), |ps| as real, Square(Height(mx, my, a, b)));
    SameHeight(mx, my, a, f.intercept, b);
  }

  lemma SameHeight(mx: real, my: real, a: real, a': real, b: real)
    ensures Height(mx, my, a, b) == Height(mx, my, a', b) ==> a == a'
  {
  }

  lemma WeightedSquares(p: real, e: real, n: real, d: real)
    requires p > 0.0 && n > 0.0 && e >= 0.0 && d >= 0.0
    ensures p * e + n * d >= 0.0
    ensures p * e + n * d == 0.0 ==> e == 0.0 && d == 0.0
  {
    Product(p, e);
    Product(n, d);
  }

  lemma Product(p: real, e: real)
    requires p > 0.0 && e >= 0.0
    ensures p * e >= 0.0 && (p * e == 0.0 <==> e == 0.0)
  {
    if e > 0.0 {
      assert p * e > 0.0;
    }
  }

  /** **The variance splits** into what the line explains and what it leaves, so the coefficient of
      determination is the explained share and lies between zero and one. */
  lemma VarianceSplits(ps: seq<Point>)
    requires |Sizes(ps)| >= 3
    ensures ps != [] && FitLine(ps).Ok?
    ensures var f, mx, my := FitLine(ps).value, MeanX(ps), MeanY(ps);
      && Syy(ps, my) == Residual(ps, f.intercept, f.slope) + Square(f.slope) * Sxx(ps, mx)
      && (Syy(ps, my) > 0.0 ==> f.r2 == Square(f.slope) * Sxx(ps, mx) / Syy(ps, my))
      && 0.0 <= f.r2 <= 1.0
  {
    hide FitLine, Sxx, Syy, Sxy, Residual, MeanX, MeanY, Square, Slope, Intercept, ErrorSquared, Sizes;
    var f := FitParts(ps);
    var _ := FittedResiduals(ps, f.intercept, f.slope);
    var mx, my := MeanX(ps), MeanY(ps);
    SquaresAddUp(ps, mx, my, f.intercept, f.slope);
    Product(Sxx(ps, mx), Square(f.slope));
    if Syy(ps, my) > 0.0 {
      Shares(Residual(ps, f.intercept, f.slope), Square(f.slope) * Sxx(ps, mx), Syy(ps, my));
    }
  }

  lemma Shares(res: real, explained: real, tot: real)
    requires tot > 0.0 && res >= 0.0 && explained >= 0.0 && tot == res + explained
    ensures 1.0 - res / tot == explained / tot
    ensures 0.0 <= explained / tot <= 1.0
  {
    assert res / tot + explained / tot == (res + explained) / tot;
  }

  ghost predicate OnLine(ps: seq<Point>, a: real, b: real) {
    forall i :: 0 <= i < |ps| ==> ps[i].y == a + b * ps[i].x
  }

  lemma {:induction false} ZeroResidualExactly(ps: seq<Point>, a: real, b: real)
    ensures Residual(ps, a, b) == 0.0 <==> OnLine(ps, a, b)
  {
    hide Square;
    if ps != [] {
      var rest, p := ps[..|ps| - 1], ps[|ps| - 1];
      ZeroResidualExactly(rest, a, b);
      SquaresAddUp(rest, 0.0, 0.0, a, b);
      assert Error(p, a, b) == 0.0 <==> p.y == a + b * p.x;
      assert forall i :: 0 <= i < |rest| ==> ps[i] == rest[i];
    }
  }

  /** **Points on a line give that line back**, with no standard error and a full explanation; the slope is
      then told from zero exactly when it is not zero. */
  lemma LineIsRecovered(ps: seq<Point>, a: real, b: real)
    requires |Sizes(ps)| >= 3 && OnLine(ps, a, b)
    ensures FitLine(ps).Ok?
    ensures var f := FitLine(ps).value;
      && f.intercept == a && f.slope == b && f.stderrSquared == 0.0 && f.r2 == 1.0
      && Verdict(f) == if b > 0.0 then "positive" else if b < 0.0 then "negative" else "flat"
  {
    hide Residual, Sxx, Sxy, Syy, MeanX, MeanY, FitLine, Square, Slope, Intercept, Sizes, OnLine;
    ZeroResidualExactly(ps, a, b);
    FitIsLeastSquares(ps, a, b);
    var f := FitParts(ps);
    SquaresAddUp(ps, 0.0, 0.0, f.intercept, f.slope);
    ZeroOver(|ps| as real - 2.0, Sxx(ps, MeanX(ps)));
  }

  lemma ZeroOver(dof: real, sxx: real)
    requires dof > 0.0 && sxx > 0.0
    ensures ErrorSquared(0.0, dof, sxx) == 0.0
  {
  }

  /** **The squared standard error of the slope** is the residual sum over two degrees of freedom fewer than
      there are points, over the spread of the sizes. */
  lemma StandardErrorIs(ps: seq<Point>)
    requires |Sizes(ps)| >= 3
    ensures ps != [] && FitLine(ps).Ok?
    ensures var f := FitLine(ps).value;
      f.stderrSquared * ((|ps| as real - 2.0) * Sxx(ps, MeanX(ps))) == Residual(ps, f.intercept, f.slope)
  {
    hide Residual, Sxx, Sxy, Syy, MeanX, MeanY, FitLine, Slope, Intercept, ErrorSquared, Sizes;
    var f := FitParts(ps);
    DividedTwice(Residual(ps, f.intercept, f.slope), |ps| as real - 2.0, Sxx(ps, MeanX(ps)));
  }

  lemma DividedTwice(res: real, dof: real, sxx: real)
    requires dof > 0.0 && sxx > 0.0
    ensures ErrorSquared(res, dof, sxx) * (dof * sxx) == res
  {
    var once := res / dof;
    assert once * dof == res;
    assert once / sxx * sxx == once;
    assert once / sxx * (dof * sxx) == once / sxx * sxx * dof;
  }

  /** The standard error is zero only when every residual is. */
  lemma NoErrorExactlyOnTheLine(ps: seq<Point>)
    requires |Sizes(ps)| >= 3
    ensures FitLine(ps).Ok?
    ensures var f := FitLine(ps).value;
      f.stderrSquared >= 0.0 && (f.stderrSquared == 0.0 <==> OnLine(ps, f.intercept, f.slope))
  {
    hide Residual, Sxx, Sxy, Syy, MeanX, MeanY, FitLine, Slope, Intercept, ErrorSquared, Sizes, OnLine;
    var f := FitParts(ps);
    ZeroResidualExactly(ps, f.intercept, f.slope);
    SquaresAddUp(ps, 0.0, 0.0, f.intercept, f.slope);
    Quotients(Residual(ps, f.intercept, f.slope), |ps| as real - 2.0, Sxx(ps, MeanX(ps)));
  }

  lemma Quotients(res: real, dof: real, sxx: real)
    requires res >= 0.0 && dof > 0.0 && sxx > 0.0
    ensures ErrorSquared(res, dof, sxx) >= 0.0 && (ErrorSquared(res, dof, sxx) == 0.0 <==> res == 0.0)
  {
    assert res / dof == 0.0 <==> res == 0.0 by {
      assert res / dof * dof == res;
    }
    assert res / dof / sxx * sxx == res / dof;
  }
}
