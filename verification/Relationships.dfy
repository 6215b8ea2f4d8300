/** Pairwise correlation of columns, and the relationship graph built on it.  Arithmetic is exact. */
module Relationships {
  import opened Common

  /** A cell either fails to parse as a number or parses to one, possibly not finite. */
  datatype Cell = NotNumeric | Parsed(value: Number)

  datatype Pair = Pair(x: real, y: real)

  // ----- Pairing -----

  function PairOf(row: seq<Cell>, first: nat, second: nat): Option<Pair> {
    if first < |row| && second < |row| && row[first].Parsed? && row[second].Parsed?
       && row[first].value.Finite? && row[second].value.Finite?
    then Some(Pair(row[first].value.value, row[second].value.value)) else None
  }

  function Pairs(rows: seq<seq<Cell>>, first: nat, second: nat): seq<Pair> {
    if rows == [] then []
    else
      var p := PairOf(Last(rows), first, second);
      Pairs(rows[..|rows| - 1], first, second) + if p.Some? then [p.value] else []
  }

  // ----- Sums -----

  function SumX(ps: seq<Pair>): real {
    if ps == [] then 0.0 else SumX(ps[1..]) + ps[0].x
  }

  function SumY(ps: seq<Pair>): real {
    if ps == [] then 0.0 else SumY(ps[1..]) + ps[0].y
  }

  /** The sum of products of deviations from (mx, my). */
  function Products(ps: seq<Pair>, mx: real, my: real): real {
    if ps == [] then 0.0 else Products(ps[1..], mx, my) + Times(ps[0].x - mx, ps[0].y - my)
  }

  function SquaresX(ps: seq<Pair>, mx: real): real {
    if ps == [] then 0.0 else SquaresX(ps[1..], mx) + Times(ps[0].x - mx, ps[0].x - mx)
  }

  function SquaresY(ps: seq<Pair>, my: real): real {
    if ps == [] then 0.0 else SquaresY(ps[1..], my) + Times(ps[0].y - my, ps[0].y - my)
  }

  /** The contract assumed of the square root. */
  ghost predicate IsSqrt(sqrt: real -> real) {
    forall v: real :: v >= 0.0 ==> sqrt(v) >= 0.0 && Times(sqrt(v), sqrt(v)) == v
  }

  /** The coefficient of a list of pairs. */
  function Coefficient(ps: seq<Pair>, sqrt: real -> real): Option<real> {
    if |ps| < 2 then None
    else
      var mx, my := SumX(ps) / |ps| as real, SumY(ps) / |ps| as real;
      var denominator := sqrt(Times(SquaresX(ps, mx), SquaresY(ps, my)));
      if denominator == 0.0 then None else Some(Products(ps, mx, my) / denominator)
  }

  /** `correlation_for_pair`. */
  method CorrelationForPair(rows: seq<seq<Cell>>, first: nat, second: nat, sqrt: real -> real) returns (r: Option<real>)
    requires IsSqrt(sqrt)
    ensures r == Coefficient(Pairs(rows, first, second), sqrt)
    ensures r.Some? ==> -1.0 <= r.value <= 1.0
  {
    var pairs: seq<Pair> := [];
    for i := 0 to |rows|
      invariant pairs == Pairs(rows[..i], first, second)
    {
      assert rows[..i + 1][..i] == rows[..i];
      var row := rows[i];
      if first < |row| && second < |row| && row[first].Parsed? && row[second].Parsed? {
        var a, b := row[first].value, row[second].value;
        if a.Finite? && b.Finite? { pairs := pairs + [Pair(a.value, b.value)]; }
      }
    }
    assert rows[..|rows|] == rows;
    r := Coefficient(pairs, sqrt);
    CoefficientIsBounded(pairs, sqrt);
  }

  // ----- The coefficient is bounded -----

  /** The sum of squares of the combinations s dx + t dy of the deviations. */
  function Combined(ps: seq<Pair>, mx: real, my: real, s: real, t: real): real {
    if ps == [] then 0.0
    else
      var d := Times(s, ps[0].x - mx) + Times(t, ps[0].y - my);
      Combined(ps[1..], mx, my, s, t) + Times(d, d)
  }

  /** p s^2 + 2 q s t + r t^2. */
  function Form(p: real, q: real, r: real, s: real, t: real): real {
    Times(p, Times(s, s)) + 2.0 * Times(q, Times(s, t)) + Times(r, Times(t, t))
  }

  lemma FormGrows(p: real, q: real, r: real, s: real, t: real, a: real, b: real)
    ensures
      var d := Times(s, a) + Times(t, b);
      Form(p + Times(a, a), q + Times(a, b), r + Times(b, b), s, t) == Form(p, q, r, s, t) + Times(d, d)
  {
  }

  lemma SquareIsNonnegative(d: real)
    ensures Times(d, d) >= 0.0
  {
  }

  lemma FormOfZero(s: real, t: real)
    ensures Form(0.0, 0.0, 0.0, s, t) == 0.0
  {
  }

  /** A combination's squares are a quadratic form in its coefficients, never negative. */
  lemma {:induction false} CombinedExpands(ps: seq<Pair>, mx: real, my: real, s: real, t: real)
    ensures Combined(ps, mx, my, s, t) == Form(SquaresX(ps, mx), Products(ps, mx, my), SquaresY(ps, my), s, t)
    ensures Combined(ps, mx, my, s, t) >= 0.0
  {
    hide Times, Form;
    if ps == [] {
      FormOfZero(s, t);
    } else {
      CombinedExpands(ps[1..], mx, my, s, t);
      var a, b := ps[0].x - mx, ps[0].y - my;
      FormGrows(SquaresX(ps[1..], mx), Products(ps[1..], mx, my), SquaresY(ps[1..], my), s, t, a, b);
      SquareIsNonnegative(Times(s, a) + Times(t, b));
    }
  }

  lemma {:induction false} SquaresAreNonnegative(ps: seq<Pair>, m: real)
    ensures SquaresX(ps, m) >= 0.0 && SquaresY(ps, m) >= 0.0
  {
    hide Times;
    if ps != [] {
      SquaresAreNonnegative(ps[1..], m);
      SquareIsNonnegative(ps[0].x - m);
      SquareIsNonnegative(ps[0].y - m);
    }
  }

  /** Adding one term to both sides of the inequality. */
  lemma CauchySchwarzStep(p: real, q: real, r: real, a: real, b: real)
    requires Times(q, q) <= Times(p, r) && Form(p, q, r, b, -a) >= 0.0
    ensures Times(q + Times(a, b), q + Times(a, b)) <= Times(p + Times(a, a), r + Times(b, b))
  {
    assert (p + a * a) * (r + b * b) - (q + a * b) * (q + a * b)
        == (p * r - q * q) + (p * (b * b) + 2.0 * (q * (b * -a)) + r * (-a * -a));
  }

  lemma {:induction false} CauchySchwarz(ps: seq<Pair>, mx: real, my: real)
    ensures Times(Products(ps, mx, my), Products(ps, mx, my)) <= Times(SquaresX(ps, mx), SquaresY(ps, my))
  {
    if ps != [] {
      hide Times, Form;
      CauchySchwarz(ps[1..], mx, my);
      var a, b := ps[0].x - mx, ps[0].y - my;
      CombinedExpands(ps[1..], mx, my, b, -a);
      CauchySchwarzStep(SquaresX(ps[1..], mx), Products(ps[1..], mx, my), SquaresY(ps[1..], my), a, b);
    }
  }

  lemma SquaresAreMonotone(x: real, y: real)
    requires 0.0 <= x < y
    ensures Times(x, x) < Times(y, y)
  {
    ProductOfPositives(y - x, y + x);
    assert (y - x) * (y + x) == y * y - x * x;
  }

  lemma ProductOfPositives(a: real, b: real)
    requires a > 0.0 && b > 0.0
    ensures Times(a, b) > 0.0
  {
  }

  lemma RatioIsBounded(n: real, d: real)
    requires d > 0.0 && Times(n, n) <= Times(d, d)
    ensures -1.0 <= n / d <= 1.0
  {
    assert -d <= n <= d by {
      hide Times;
      if n > d { SquaresAreMonotone(d, n); }
      if n < -d {
        SquaresAreMonotone(d, -n);
        NegationSquares(n);
      }
    }
    assert (n / d) * d == n;
  }

  lemma NegationSquares(n: real)
    ensures Times(-n, -n) == Times(n, n)
  {
  }

  lemma ProductOfNonnegatives(a: real, b: real)
    requires a >= 0.0 && b >= 0.0
    ensures Times(a, b) >= 0.0
  {
  }

  /** Whatever the samples, a coefficient lies between -1 and 1. */
  lemma CoefficientIsBounded(ps: seq<Pair>, sqrt: real -> real)
    requires IsSqrt(sqrt)
    ensures Coefficient(ps, sqrt).Some? ==> -1.0 <= Coefficient(ps, sqrt).value <= 1.0
  {
    hide Times, SumX, SumY, SquaresX, SquaresY, Products;
    if |ps| >= 2 {
      var mx, my := SumX(ps) / |ps| as real, SumY(ps) / |ps| as real;
      var v, w := SquaresX(ps, mx), SquaresY(ps, my);
      SquaresAreNonnegative(ps, mx);
      SquaresAreNonnegative(ps, my);
      ProductOfNonnegatives(v, w);
      CauchySchwarz(ps, mx, my);
      if sqrt(Times(v, w)) != 0.0 { RatioIsBounded(Products(ps, mx, my), sqrt(Times(v, w))); }
    }
  }

  // ----- The coefficient is symmetric and free of units -----

  function Swap(ps: seq<Pair>): (s: seq<Pair>)
    ensures |s| == |ps|
  {
    if ps == [] then [] else [Pair(ps[0].y, ps[0].x)] + Swap(ps[1..])
  }

  lemma Commutes(a: real, b: real)
    ensures Times(a, b) == Times(b, a)
  {
  }

  lemma {:induction false} SwapSums(ps: seq<Pair>, mx: real, my: real)
    ensures SumX(Swap(ps)) == SumY(ps) && SumY(Swap(ps)) == SumX(ps)
    ensures SquaresX(Swap(ps), my) == SquaresY(ps, my) && SquaresY(Swap(ps), mx) == SquaresX(ps, mx)
    ensures Products(Swap(ps), my, mx) == Products(ps, mx, my)
  {
    hide Times;
    if ps != [] {
      SwapSums(ps[1..], mx, my);
      assert Swap(ps)[1..] == Swap(ps[1..]);
      Commutes(ps[0].x - mx, ps[0].y - my);
    }
  }

  /** The order of the two columns does not matter. */
  lemma CoefficientIsSymmetric(ps: seq<Pair>, sqrt: real -> real)
    ensures Coefficient(Swap(ps), sqrt) == Coefficient(ps, sqrt)
  {
    hide Times, SumX, SumY, SquaresX, SquaresY, Products, Swap;
    if |ps| >= 2 {
      var mx, my := SumX(ps) / |ps| as real, SumY(ps) / |ps| as real;
      SwapSums(ps, mx, my);
      Commutes(SquaresX(ps, mx), SquaresY(ps, my));
    }
  }

  /** Every first value x replaced by a x + b. */
  function Rescale(ps: seq<Pair>, a: real, b: real): (s: seq<Pair>)
    ensures |s| == |ps|
  {
    if ps == [] then [] else [Pair(Times(a, ps[0].x) + b, ps[0].y)] + Rescale(ps[1..], a, b)
  }

  lemma Distributes(a: real, x: real, y: real)
    ensures Times(a, x + y) == Times(a, x) + Times(a, y)
    ensures Times(a, 1.0) == a && Times(a, 0.0) == 0.0
  {
  }

  lemma {:induction false} RescaledSum(ps: seq<Pair>, a: real, b: real)
    ensures SumX(Rescale(ps, a, b)) == Times(a, SumX(ps)) + Times(b, |ps| as real)
    ensures SumY(Rescale(ps, a, b)) == SumY(ps)
  {
    hide Times;
    if ps == [] {
      Distributes(a, 0.0, 0.0);
      Distributes(b, 0.0, 0.0);
    } else {
      RescaledSum(ps[1..], a, b);
      assert Rescale(ps, a, b)[1..] == Rescale(ps[1..], a, b);
      Distributes(a, SumX(ps[1..]), ps[0].x);
      Distributes(b, |ps[1..]| as real, 1.0);
      assert |ps| as real == |ps[1..]| as real + 1.0;
    }
  }

  lemma DeviationScales(a: real, b: real, x: real, m: real, e: real)
    ensures
      var d := (Times(a, x) + b) - (Times(a, m) + b);
      Times(d, d) == Times(Times(a, a), Times(x - m, x - m)) && Times(d, e) == Times(a, Times(x - m, e))
  {
    assert (a * x + b) - (a * m + b) == a * (x - m);
  }

  lemma {:induction false} RescaledSquares(ps: seq<Pair>, a: real, b: real, mx: real, my: real)
    ensures SquaresX(Rescale(ps, a, b), Times(a, mx) + b) == Times(Times(a, a), SquaresX(ps, mx))
    ensures SquaresY(Rescale(ps, a, b), my) == SquaresY(ps, my)
    ensures Products(Rescale(ps, a, b), Times(a, mx) + b, my) == Times(a, Products(ps, mx, my))
  {
    hide Times;
    if ps == [] {
      Distributes(a, 0.0, 0.0);
      Distributes(Times(a, a), 0.0, 0.0);
    } else {
      RescaledSquares(ps[1..], a, b, mx, my);
      assert Rescale(ps, a, b)[1..] == Rescale(ps[1..], a, b);
      DeviationScales(a, b, ps[0].x, mx, ps[0].y - my);
      Distributes(Times(a, a), SquaresX(ps[1..], mx), Times(ps[0].x - mx, ps[0].x - mx));
      Distributes(a, Products(ps[1..], mx, my), Times(ps[0].x - mx, ps[0].y - my));
    }
  }

  lemma RescaledMean(sum: real, a: real, b: real, k: real)
    requires k > 0.0
    ensures (Times(a, sum) + Times(b, k)) / k == Times(a, sum / k) + b
  {
    var m := sum / k;
    assert m * k == sum;
    assert a * sum + b * k == (a * m + b) * k;
  }

  lemma RootsAreEqual(x: real, y: real)
    requires x >= 0.0 && y >= 0.0 && Times(x, x) == Times(y, y)
    ensures x == y
  {
    hide Times;
    if x < y { SquaresAreMonotone(x, y); }
    if y < x { SquaresAreMonotone(y, x); }
  }

  lemma AbsoluteScaling(a: real, root: real, v: real)
    requires root >= 0.0 && Times(root, root) == v
    ensures
      var scaled := Times(Abs(a), root);
      scaled >= 0.0 && Times(scaled, scaled) == Times(Times(a, a), v)
  {
    assert (Abs(a) * root) * (Abs(a) * root) == (Abs(a) * Abs(a)) * (root * root);
  }

  /** The root of a scaled square. */
  lemma RootScales(sqrt: real -> real, a: real, v: real)
    requires IsSqrt(sqrt) && v >= 0.0
    ensures sqrt(Times(Times(a, a), v)) == Times(Abs(a), sqrt(v))
  {
    hide Times;
    SquareIsNonnegative(a);
    ProductOfNonnegatives(Times(a, a), v);
    AbsoluteScaling(a, sqrt(v), v);
    RootsAreEqual(sqrt(Times(Times(a, a), v)), Times(Abs(a), sqrt(v)));
  }

  lemma Associates(a: real, b: real, c: real)
    ensures Times(Times(a, b), c) == Times(a, Times(b, c))
  {
  }

  lemma ScaledRatio(a: real, n: real, d: real)
    requires d >= 0.0
    ensures Times(Abs(a), d) == 0.0 <==> a == 0.0 || d == 0.0
    ensures a != 0.0 && d != 0.0 ==> Times(a, n) / Times(Abs(a), d) == if a > 0.0 then n / d else -(n / d)
  {
    if a > 0.0 && d > 0.0 {
      assert (n / d) * d == n;
      assert (n / d) * (a * d) == a * n;
    } else if a < 0.0 && d > 0.0 {
      assert (n / d) * d == n;
      assert (-(n / d)) * (-a * d) == a * n;
    }
  }

  /** Changing the unit of a column leaves the coefficient, up to the sign of the scale; a scale of
      zero leaves none. */
  lemma CoefficientIsUnitFree(ps: seq<Pair>, a: real, b: real, sqrt: real -> real)
    requires IsSqrt(sqrt)
    ensures
      var before, after := Coefficient(ps, sqrt), Coefficient(Rescale(ps, a, b), sqrt);
      if a == 0.0 || before.None? then after.None?
      else after == Some(if a > 0.0 then before.value else -before.value)
  {
    hide Times, SumX, SumY, SquaresX, SquaresY, Products, Rescale, Abs;
    if |ps| >= 2 {
      var k := |ps| as real;
      var mx, my := SumX(ps) / k, SumY(ps) / k;
      var v, w, n := SquaresX(ps, mx), SquaresY(ps, my), Products(ps, mx, my);
      RescaledSum(ps, a, b);
      RescaledMean(SumX(ps), a, b, k);
      RescaledSquares(ps, a, b, mx, my);
      SquaresAreNonnegative(ps, mx);
      SquaresAreNonnegative(ps, my);
      ProductOfNonnegatives(v, w);
      Associates(Times(a, a), v, w);
      RootScales(sqrt, a, Times(v, w));
      ScaledRatio(a, n, sqrt(Times(v, w)));
    }
  }
}
