/** What a correlation coefficient measures: how well the best straight line fits the pairs. */
module CorrelationFit {
  import opened Common
  import opened Relationships

  // ----- Which rows are paired -----

  predicate Comparable(row: seq<Cell>, first: nat, second: nat) {
    && first < |row| && second < |row| && row[first].Parsed? && row[second].Parsed?
    && row[first].value.Finite? && row[second].value.Finite?
  }

  /** The pairs are those of the rows in which both cells are finite numbers, in order. */
  lemma {:induction false} PairsAreComparableRows(rows: seq<seq<Cell>>, first: nat, second: nat) returns (at: seq<nat>)
    ensures Selects(rows, (row: seq<Cell>) => Comparable(row, first, second), at)
    ensures |Pairs(rows, first, second)| == |at|
    ensures forall i :: 0 <= i < |at| ==>
      at[i] < |rows| && Comparable(rows[at[i]], first, second) &&
      Pairs(rows, first, second)[i] == Pair(rows[at[i]][first].value.value, rows[at[i]][second].value.value)
  {
    if rows == [] {
      at := [];
    } else {
      var init := rows[..|rows| - 1];
      at := PairsAreComparableRows(init, first, second);
      SelectsOneMore(rows, (row: seq<Cell>) => Comparable(row, first, second), at);
      at := at + if Comparable(Last(rows), first, second) then [|rows| - 1] else [];
    }
  }

  // ----- When there is a coefficient -----

  predicate VariesX(ps: seq<Pair>) {
    exists i, j :: 0 <= i < |ps| && 0 <= j < |ps| && ps[i].x != ps[j].x
  }

  predicate VariesY(ps: seq<Pair>) {
    exists i, j :: 0 <= i < |ps| && 0 <= j < |ps| && ps[i].y != ps[j].y
  }

  lemma SumIsZero(a: real, b: real)
    requires a >= 0.0 && b >= 0.0 && a + b == 0.0
    ensures a == 0.0 && b == 0.0
  {
  }

  lemma SquareIsZero(d: real)
    ensures Times(d, d) == 0.0 <==> d == 0.0
  {
    if d > 0.0 { ProductOfPositives(d, d); }
    if d < 0.0 {
      ProductOfPositives(-d, -d);
      NegationSquares(d);
    }
  }

  lemma {:induction false} NoSquaresX(ps: seq<Pair>, m: real)
    ensures SquaresX(ps, m) == 0.0 <==> forall i :: 0 <= i < |ps| ==> ps[i].x == m
  {
    if ps != [] {
      hide Times;
      NoSquaresX(ps[1..], m);
      SquaresAreNonnegative(ps[1..], m);
      SquareIsNonnegative(ps[0].x - m);
      SquareIsZero(ps[0].x - m);
      assert (forall i :: 0 <= i < |ps[1..]| ==> ps[1..][i].x == m) && ps[0].x == m <==>
             forall i :: 0 <= i < |ps| ==> ps[i].x == m by {
        assert forall i :: 1 <= i < |ps| ==> ps[i] == ps[1..][i - 1];
      }
    }
  }

  lemma {:induction false} ConstantSumX(ps: seq<Pair>, m: real)
    requires forall i :: 0 <= i < |ps| ==> ps[i].x == m
    ensures SumX(ps) == Times(m, |ps| as real)
  {
    if ps != [] {
      ConstantSumX(ps[1..], m);
      assert |ps| as real == |ps[1..]| as real + 1.0;
    }
  }

  lemma QuotientOfTimes(m: real, k: real)
    requires k > 0.0
    ensures Times(m, k) / k == m
  {
  }

  lemma VariationX(ps: seq<Pair>)
    requires ps != []
    ensures SquaresX(ps, SumX(ps) / |ps| as real) > 0.0 <==> VariesX(ps)
  {
    var m := SumX(ps) / |ps| as real;
    NoSquaresX(ps, m);
    SquaresAreNonnegative(ps, m);
    if !VariesX(ps) {
      ConstantSumX(ps, ps[0].x);
      QuotientOfTimes(ps[0].x, |ps| as real);
    }
  }

  lemma VariationY(ps: seq<Pair>)
    requires ps != []
    ensures SquaresY(ps, SumY(ps) / |ps| as real) > 0.0 <==> VariesY(ps)
  {
    VariationX(Swap(ps));
    SwapSums(ps, 0.0, SumY(ps) / |ps| as real);
    SwapsAt(ps);
    hide SumX, SumY, SquaresX, SquaresY, Swap;
    if VariesY(ps) {
      var i, j :| 0 <= i < |ps| && 0 <= j < |ps| && ps[i].y != ps[j].y;
      assert Swap(ps)[i].x != Swap(ps)[j].x;
    }
    if VariesX(Swap(ps)) {
      var i, j :| 0 <= i < |ps| && 0 <= j < |ps| && Swap(ps)[i].x != Swap(ps)[j].x;
      assert ps[i].y != ps[j].y;
    }
  }

  lemma {:induction false} SwapsAt(ps: seq<Pair>)
    ensures forall i :: 0 <= i < |ps| ==> Swap(ps)[i] == Pair(ps[i].y, ps[i].x)
  {
    if ps != [] { SwapsAt(ps[1..]); }
  }

  lemma RootIsZero(sqrt: real -> real, v: real, w: real)
    requires IsSqrt(sqrt) && v >= 0.0 && w >= 0.0
    ensures sqrt(Times(v, w)) == 0.0 <==> v == 0.0 || w == 0.0
    ensures sqrt(Times(v, w)) >= 0.0 && Times(sqrt(Times(v, w)), sqrt(Times(v, w))) == Times(v, w)
  {
    ProductOfNonnegatives(v, w);
    if v > 0.0 && w > 0.0 { ProductOfPositives(v, w); }
    SquareIsZero(sqrt(Times(v, w)));
  }

  /** There is a coefficient if and only if there are two pairs and neither column is constant. */
  lemma CoefficientExists(ps: seq<Pair>, sqrt: real -> real)
    requires IsSqrt(sqrt)
    ensures Coefficient(ps, sqrt).Some? <==> |ps| >= 2 && VariesX(ps) && VariesY(ps)
  {
    if |ps| >= 2 {
      VariationX(ps);
      VariationY(ps);
      var mx, my := SumX(ps) / |ps| as real, SumY(ps) / |ps| as real;
      SquaresAreNonnegative(ps, mx);
      SquaresAreNonnegative(ps, my);
      hide SumX, SumY, SquaresX, SquaresY, Products, VariesX, VariesY, Times;
      RootIsZero(sqrt, SquaresX(ps, mx), SquaresY(ps, my));
    }
  }

  // ----- The best line -----

  /** The squared vertical distances from the line y = a x + b. */
  function Residuals(ps: seq<Pair>, a: real, b: real): real {
    if ps == [] then 0.0
    else
      var e := ps[0].y - (Times(a, ps[0].x) + b);
      Residuals(ps[1..], a, b) + Times(e, e)
  }

  predicate OnLine(ps: seq<Pair>, a: real, b: real) {
    forall i :: 0 <= i < |ps| ==> ps[i].y == Times(a, ps[i].x) + b
  }

  lemma {:induction false} NoResiduals(ps: seq<Pair>, a: real, b: real)
    ensures Residuals(ps, a, b) >= 0.0 && (Residuals(ps, a, b) == 0.0 <==> OnLine(ps, a, b))
  {
    if ps != [] {
      hide Times;
      NoResiduals(ps[1..], a, b);
      var e := ps[0].y - (Times(a, ps[0].x) + b);
      SquareIsNonnegative(e);
      SquareIsZero(e);
      assert OnLine(ps, a, b) <==> OnLine(ps[1..], a, b) && e == 0.0 by {
        assert forall i :: 1 <= i < |ps| ==> ps[i] == ps[1..][i - 1];
      }
    }
  }

  /** How far the line passes from the centre, and what the deviations from the centre add up to along it. */
  function Gap(a: real, b: real, mx: real, my: real): real {
    my - Times(a, mx) - b
  }

  function Drift(ps: seq<Pair>, a: real, mx: real, my: real): real {
    SumY(ps) - Times(my, |ps| as real) - Times(a, SumX(ps) - Times(mx, |ps| as real))
  }

  lemma ResidualStep(a: real, b: real, mx: real, my: real, x: real, y: real)
    ensures
      var e, g := y - (Times(a, x) + b), Gap(a, b, mx, my);
      var d := Times(-a, x - mx) + Times(1.0, y - my);
      Times(e, e) == Times(d, d) + 2.0 * Times(g, y - my - Times(a, x - mx)) + Times(g, g)
  {
    var e, g, d := y - (a * x + b), my - a * mx - b, y - my - a * (x - mx);
    assert e == d + g;
    assert e * e == d * d + 2.0 * (g * d) + g * g;
    assert -a * (x - mx) + 1.0 * (y - my) == d;
  }

  lemma DriftStep(ps: seq<Pair>, a: real, mx: real, my: real)
    requires ps != []
    ensures Drift(ps, a, mx, my) ==
            Drift(ps[1..], a, mx, my) + (ps[0].y - my - Times(a, ps[0].x - mx))
  {
    hide SumX, SumY;
    var k, n := |ps[1..]| as real, |ps| as real;
    assert n == k + 1.0;
    assert SumX(ps) == SumX(ps[1..]) + ps[0].x && SumY(ps) == SumY(ps[1..]) + ps[0].y by { SumsStep(ps); }
    DriftAlgebra(SumX(ps[1..]), SumY(ps[1..]), ps[0].x, ps[0].y, a, mx, my, k);
  }

  lemma SumsStep(ps: seq<Pair>)
    requires ps != []
    ensures SumX(ps) == SumX(ps[1..]) + ps[0].x && SumY(ps) == SumY(ps[1..]) + ps[0].y
  {
  }

  lemma DriftAlgebra(sx: real, sy: real, x: real, y: real, a: real, mx: real, my: real, k: real)
    ensures (sy + y) - Times(my, k + 1.0) - Times(a, (sx + x) - Times(mx, k + 1.0)) ==
            sy - Times(my, k) - Times(a, sx - Times(mx, k)) + (y - my - Times(a, x - mx))
  {
    assert a * ((sx + x) - mx * (k + 1.0)) == a * (sx - mx * k) + a * (x - mx);
  }

  lemma CountStep(k: real, g: real, d: real, e: real)
    ensures Times(k + 1.0, Times(g, g)) == Times(k, Times(g, g)) + Times(g, g)
    ensures Times(g, d + e) == Times(g, d) + Times(g, e)
  {
  }

  /** Residuals in terms of deviations from any centre. */
  lemma {:induction false} ResidualsExpand(ps: seq<Pair>, a: real, b: real, mx: real, my: real)
    ensures
      var g := Gap(a, b, mx, my);
      Residuals(ps, a, b) ==
        Combined(ps, mx, my, -a, 1.0) + 2.0 * Times(g, Drift(ps, a, mx, my)) + Times(|ps| as real, Times(g, g))
  {
    var g := Gap(a, b, mx, my);
    if ps == [] {
      assert Drift(ps, a, mx, my) == 0.0;
    } else {
      ResidualsExpand(ps[1..], a, b, mx, my);
      ResidualStep(a, b, mx, my, ps[0].x, ps[0].y);
      DriftStep(ps, a, mx, my);
      assert |ps| as real == |ps[1..]| as real + 1.0;
      CountStep(|ps[1..]| as real, g, Drift(ps[1..], a, mx, my), ps[0].y - my - Times(a, ps[0].x - mx));
      hide Times, Drift, Gap;
    }
  }

  lemma MeanTimes(sum: real, k: real)
    requires k > 0.0
    ensures Times(sum / k, k) == sum
  {
  }

  lemma NoDrift(ps: seq<Pair>, a: real)
    requires ps != []
    ensures Drift(ps, a, SumX(ps) / |ps| as real, SumY(ps) / |ps| as real) == 0.0
  {
    MeanTimes(SumX(ps), |ps| as real);
    MeanTimes(SumY(ps), |ps| as real);
  }

  /** Completing the square, with the coefficient r = n / d and d the root of v w. */
  lemma FormCompletes(v: real, n: real, w: real, d: real, a: real)
    requires v > 0.0 && d > 0.0 && Times(d, d) == Times(v, w)
    ensures
      var r, q := n / d, n / v;
      Form(v, n, w, -a, 1.0) == Times(v, Times(a - q, a - q)) + Times(1.0 - Times(r, r), w)
  {
    var r, q := n / d, n / v;
    assert r * d == n && q * v == n;
    assert (r * d) * (r * d) == (q * v) * (q * v);
    assert (r * r) * (v * w) == v * (v * (q * q)) by {
      assert (r * d) * (r * d) == (r * r) * (d * d);
      assert (q * v) * (q * v) == v * (v * (q * q));
    }
    assert v * ((r * r) * w - v * (q * q)) == 0.0;
    assert (r * r) * w == v * (q * q);
    assert v * ((a - q) * (a - q)) == v * (a * a) - 2.0 * (q * v) * a + v * (q * q);
  }

  lemma RatioSign(n: real, d: real)
    requires d > 0.0
    ensures (n / d > 0.0 <==> n > 0.0) && (n / d < 0.0 <==> n < 0.0)
  {
    assert (n / d) * d == n;
  }

  /** The residuals of any line, in terms of the coefficient r: the part no line explains, and what the line
      loses by its slope and by missing the centre. */
  lemma ResidualsOf(ps: seq<Pair>, sqrt: real -> real, slope: real, a: real, b: real)
    requires IsSqrt(sqrt) && Coefficient(ps, sqrt).Some?
    requires
      var mx, my := SumX(ps) / |ps| as real, SumY(ps) / |ps| as real;
      SquaresX(ps, mx) != 0.0 ==> slope == Products(ps, mx, my) / SquaresX(ps, mx)
    ensures
      var r := Coefficient(ps, sqrt).value;
      var mx, my := SumX(ps) / |ps| as real, SumY(ps) / |ps| as real;
      && SquaresX(ps, mx) > 0.0 && SquaresY(ps, my) > 0.0
      && (slope > 0.0 <==> r > 0.0) && (slope < 0.0 <==> r < 0.0)
      && Residuals(ps, a, b) ==
           Times(1.0 - Times(r, r), SquaresY(ps, my)) + Times(SquaresX(ps, mx), Times(a - slope, a - slope))
             + Times(|ps| as real, Times(my - Times(a, mx) - b, my - Times(a, mx) - b))
  {
    var mx, my := SumX(ps) / |ps| as real, SumY(ps) / |ps| as real;
    var v, n, w := SquaresX(ps, mx), Products(ps, mx, my), SquaresY(ps, my);
    var d := sqrt(Times(v, w));
    CoefficientExists(ps, sqrt);
    VariationX(ps);
    VariationY(ps);
    hide SumX, SumY, SquaresX, SquaresY, Products, Residuals, Combined, Drift, VariesX, VariesY, Times, Form;
    RootIsZero(sqrt, v, w);
    ResidualsExpand(ps, a, b, mx, my);
    NoDrift(ps, a);
    CombinedExpands(ps, mx, my, -a, 1.0);
    FormCompletes(v, n, w, d, a);
    RatioSign(n, v);
    RatioSign(n, d);
    TimesZero(my - Times(a, mx) - b);
  }

  lemma TimesZero(g: real)
    ensures Times(g, 0.0) == 0.0 && Times(0.0, g) == 0.0
  {
  }

  /** The variation of the second column about its mean. */
  function Variation(ps: seq<Pair>): real
    requires ps != []
  {
    SquaresY(ps, SumY(ps) / |ps| as real)
  }

  /** No line leaves less than the part 1 - r^2 of the variation unexplained. */
  lemma NoLineFitsBetter(ps: seq<Pair>, sqrt: real -> real, a: real, b: real)
    requires IsSqrt(sqrt) && Coefficient(ps, sqrt).Some?
    ensures
      var r := Coefficient(ps, sqrt).value;
      Residuals(ps, a, b) >= Times(1.0 - Times(r, r), Variation(ps))
  {
    var mx, my := SumX(ps) / |ps| as real, SumY(ps) / |ps| as real;
    CoefficientExists(ps, sqrt);
    VariationX(ps);
    var slope := Products(ps, mx, my) / SquaresX(ps, mx);
    hide SumX, SumY, SquaresX, SquaresY, Products, Residuals, Times, Coefficient, VariesX, VariesY;
    ResidualsOf(ps, sqrt, slope, a, b);
    SquareIsNonnegative(a - slope);
    SquareIsNonnegative(my - Times(a, mx) - b);
    ProductOfNonnegatives(SquaresX(ps, mx), Times(a - slope, a - slope));
    ProductOfNonnegatives(|ps| as real, Times(my - Times(a, mx) - b, my - Times(a, mx) - b));
  }

  /** Some line leaves exactly that, and it rises or falls as the coefficient is positive or negative. */
  lemma BestLine(ps: seq<Pair>, sqrt: real -> real) returns (a: real, b: real)
    requires IsSqrt(sqrt) && Coefficient(ps, sqrt).Some?
    ensures
      var r := Coefficient(ps, sqrt).value;
      && Residuals(ps, a, b) == Times(1.0 - Times(r, r), Variation(ps))
      && (a > 0.0 <==> r > 0.0) && (a < 0.0 <==> r < 0.0)
  {
    var mx, my := SumX(ps) / |ps| as real, SumY(ps) / |ps| as real;
    CoefficientExists(ps, sqrt);
    VariationX(ps);
    a := Products(ps, mx, my) / SquaresX(ps, mx);
    b := my - Times(a, mx);
    hide SumX, SumY, SquaresX, SquaresY, Products, Residuals, Times, Coefficient, VariesX, VariesY;
    ResidualsOf(ps, sqrt, a, a, b);
    TimesZero(0.0);
    TimesZero(SquaresX(ps, mx));
    TimesZero(|ps| as real);
  }

  lemma UnitSquare(r: real)
    requires -1.0 <= r <= 1.0
    ensures Times(r, r) <= 1.0 && (Times(r, r) == 1.0 <==> r == 1.0 || r == -1.0)
  {
    if r >= 0.0 { assert (1.0 - r) * (1.0 + r) >= 0.0; }
    assert (1.0 - r) * (1.0 + r) == 1.0 - r * r;
    if Times(r, r) == 1.0 && r != 1.0 && r != -1.0 { ProductOfPositives(1.0 - r, 1.0 + r); }
  }

  /** Two lines through pairs of different first values are one. */
  lemma SameLine(ps: seq<Pair>, a: real, b: real, c: real, d: real)
    requires OnLine(ps, a, b) && OnLine(ps, c, d) && VariesX(ps)
    ensures a == c
  {
    hide Times;
    var i, j :| 0 <= i < |ps| && 0 <= j < |ps| && ps[i].x != ps[j].x;
    LinesMeetOnce(a, b, c, d, ps[i].x, ps[j].x);
  }

  lemma LinesMeetOnce(a: real, b: real, c: real, d: real, x: real, z: real)
    requires Times(a, x) + b == Times(c, x) + d && Times(a, z) + b == Times(c, z) + d && x != z
    ensures a == c
  {
    assert (a - c) * (x - z) == 0.0;
    if a != c { NoZeroProduct(a - c, x - z); }
  }

  lemma NoZeroProduct(s: real, t: real)
    requires s != 0.0 && t != 0.0
    ensures s * t != 0.0
  {
    assert (s * t) / t == s;
  }

  lemma LineVaries(ps: seq<Pair>, a: real, b: real)
    requires OnLine(ps, a, b) && VariesX(ps) && a != 0.0
    ensures |ps| >= 2 && VariesY(ps)
  {
    hide Times;
    var i, j :| 0 <= i < |ps| && 0 <= j < |ps| && ps[i].x != ps[j].x;
    LineMoves(a, b, ps[i].x, ps[j].x);
  }

  lemma LineMoves(a: real, b: real, x: real, z: real)
    requires a != 0.0 && x != z
    ensures Times(a, x) + b != Times(a, z) + b
  {
    NoZeroProduct(a, x - z);
    assert a * (x - z) == a * x - a * z;
  }

  /** The coefficient is 1, or -1, if and only if the first column is not constant and all pairs lie on one rising,
      or falling, line. */
  lemma PerfectFit(ps: seq<Pair>, sqrt: real -> real)
    requires IsSqrt(sqrt)
    ensures Coefficient(ps, sqrt) == Some(1.0) <==> VariesX(ps) && exists a, b :: a > 0.0 && OnLine(ps, a, b)
    ensures Coefficient(ps, sqrt) == Some(-1.0) <==> VariesX(ps) && exists a, b :: a < 0.0 && OnLine(ps, a, b)
  {
    CoefficientExists(ps, sqrt);
    CoefficientIsBounded(ps, sqrt);
    hide Coefficient, VariesX, VariesY, OnLine, Residuals, Times, Variation;
    if Coefficient(ps, sqrt).Some? {
      var r := Coefficient(ps, sqrt).value;
      UnitSquare(r);
      PerfectLine(ps, sqrt);
    }
    forall a, b | VariesX(ps) && a != 0.0 && OnLine(ps, a, b)
      ensures Coefficient(ps, sqrt).Some? && Coefficient(ps, sqrt).value == if a > 0.0 then 1.0 else -1.0
    {
      LineVaries(ps, a, b);
      LineDecides(ps, sqrt, a, b);
    }
  }

  lemma VariationIsPositive(ps: seq<Pair>)
    requires ps != [] && VariesY(ps)
    ensures Variation(ps) > 0.0
  {
    VariationY(ps);
  }

  /** A coefficient of 1 or -1 has its line. */
  lemma PerfectLine(ps: seq<Pair>, sqrt: real -> real)
    requires IsSqrt(sqrt) && Coefficient(ps, sqrt).Some?
    ensures Coefficient(ps, sqrt).value == 1.0 ==> exists a, b :: a > 0.0 && OnLine(ps, a, b)
    ensures Coefficient(ps, sqrt).value == -1.0 ==> exists a, b :: a < 0.0 && OnLine(ps, a, b)
  {
    var r := Coefficient(ps, sqrt).value;
    var a, b := BestLine(ps, sqrt);
    NoResiduals(ps, a, b);
    if r == 1.0 || r == -1.0 {
      assert Times(r, r) == 1.0;
      TimesZero(Variation(ps));
      hide Coefficient, Variation, Times, Residuals;
      assert OnLine(ps, a, b);
    }
  }

  lemma FactorIsNotPositive(e: real, v: real)
    requires v > 0.0
    ensures Times(e, v) <= 0.0 ==> e <= 0.0
  {
    if e > 0.0 { ProductOfPositives(e, v); }
  }

  /** A rising or falling line through all pairs makes it 1 or -1. */
  lemma LineDecides(ps: seq<Pair>, sqrt: real -> real, a: real, b: real)
    requires IsSqrt(sqrt) && Coefficient(ps, sqrt).Some? && VariesX(ps) && VariesY(ps) && a != 0.0 && OnLine(ps, a, b)
    ensures Coefficient(ps, sqrt).value == if a > 0.0 then 1.0 else -1.0
  {
    var r := Coefficient(ps, sqrt).value;
    assert ps != [];
    hide Coefficient, VariesX, VariesY, OnLine, Residuals, Times, Variation;
    CoefficientIsBounded(ps, sqrt);
    UnitSquare(r);
    NoLineFitsBetter(ps, sqrt, a, b);
    NoResiduals(ps, a, b);
    VariationIsPositive(ps);
    FactorIsNotPositive(1.0 - Times(r, r), Variation(ps));
    var c, d := BestLine(ps, sqrt);
    TimesZero(Variation(ps));
    NoResiduals(ps, c, d);
    SameLine(ps, a, b, c, d);
  }
}
