/** The evidence vector as the engine builds it from underlying scores, and what more of any score does to
    the escalation state.  The chain without intermediate rounding is called exact. */
module EscalationScores {
  import opened Common
  import opened Rounding
  import opened Relationships
  import opened EscalationDecision

  const TINY := 0.000001

  // ----- From scores to evidence -----

  datatype Scores = Scores(
    stateDrift: real, correlationDrift: real, varianceGrowth: real, entropyGrowth: real, acceleration: real,
    mutualInformationDrift: real, lagDrift: real, changePoints: nat)

  /** Up to three change points count, each for a third. */
  function RegimeScore(changePoints: nat): real {
    Round6(Clip((if changePoints < 3 then changePoints else 3) as real / 3.0))
  }

  /** The nine components: relationship drift and topology propagation are mixtures. */
  function EvidenceOf(s: Scores): Evidence {
    Evidence(
      Clip(s.stateDrift),
      Clip(s.correlationDrift * 0.7 + s.mutualInformationDrift * 0.3),
      Clip(s.varianceGrowth),
      Clip(s.entropyGrowth),
      Clip(s.acceleration),
      s.mutualInformationDrift,
      s.lagDrift,
      RegimeScore(s.changePoints),
      Clip(s.lagDrift * 0.65 + RegimeScore(s.changePoints) * 0.35))
  }

  predicate InRange(s: Scores) {
    && InUnit(s.stateDrift) && InUnit(s.correlationDrift) && InUnit(s.varianceGrowth) && InUnit(s.entropyGrowth)
    && InUnit(s.acceleration) && InUnit(s.mutualInformationDrift) && InUnit(s.lagDrift)
  }

  /** No score of `a` exceeds that of `b`. */
  predicate MoreScores(a: Scores, b: Scores) {
    && a.stateDrift <= b.stateDrift && a.correlationDrift <= b.correlationDrift && a.varianceGrowth <= b.varianceGrowth
    && a.entropyGrowth <= b.entropyGrowth && a.acceleration <= b.acceleration
    && a.mutualInformationDrift <= b.mutualInformationDrift && a.lagDrift <= b.lagDrift
    && a.changePoints <= b.changePoints
  }

  lemma RegimeSteps(points: nat)
    ensures RegimeScore(points) ==
            if points == 0 then 0.0 else if points == 1 then 0.333333 else if points == 2 then 0.666667 else 1.0
  {
    var n := if points < 3 then points else 3;
    assert (n as real / 3.0 * 1000000.0).Floor == (n * 1000000) / 3;
  }

  // ----- The exact chain -----

  function ExactConfidence(e: Evidence, trigger: real, sufficiency: real, sqrt: real -> real): real {
    RawConfidence(RawScore(Indicators(e), trigger), sufficiency, Consistency(Values(e), sqrt))
  }

  function ExactIndex(e: Evidence, trigger: real, sufficiency: real, sqrt: real -> real): real {
    RawIndex(e, ExactConfidence(e, trigger, sufficiency, sqrt))
  }

  // ----- Spread -----

  function Spread(xs: seq<real>, sqrt: real -> real): real
    requires xs != []
  {
    sqrt(Deviations(xs, Mean(xs)) / |xs| as real)
  }

  function Zip(xs: seq<real>, ys: seq<real>): (ps: seq<Pair>)
    requires |xs| == |ys|
    ensures |ps| == |xs| && forall i :: 0 <= i < |xs| ==> ps[i] == Pair(xs[i], ys[i])
  {
    seq(|xs|, i requires 0 <= i < |xs| => Pair(xs[i], ys[i]))
  }

  function Increases(xs: seq<real>, ys: seq<real>): (ds: seq<real>)
    requires |xs| == |ys|
    ensures |ds| == |xs| && forall i :: 0 <= i < |xs| ==> ds[i] == ys[i] - xs[i]
  {
    seq(|xs|, i requires 0 <= i < |xs| => ys[i] - xs[i])
  }

  lemma {:induction false} ZipSums(xs: seq<real>, ys: seq<real>, a: real, b: real)
    requires |xs| == |ys|
    ensures SquaresX(Zip(xs, ys), a) == Deviations(xs, a) && SquaresY(Zip(xs, ys), b) == Deviations(ys, b)
  {
    hide Times;
    if xs != [] {
      ZipSums(xs[1..], ys[1..], a, b);
      assert Zip(xs, ys)[1..] == Zip(xs[1..], ys[1..]);
    }
  }

  lemma {:induction false} SumOfIncreases(xs: seq<real>, ys: seq<real>)
    requires |xs| == |ys|
    ensures Sum(ys) == Sum(xs) + Sum(Increases(xs, ys))
  {
    if xs != [] {
      SumOfIncreases(xs[1..], ys[1..]);
      assert Increases(xs, ys)[1..] == Increases(xs[1..], ys[1..]);
    }
  }

  lemma UnitTimes(x: real)
    ensures Times(1.0, x) == x
  {
  }

  lemma {:induction false} DeviationsAfterIncrease(xs: seq<real>, ys: seq<real>, a: real, b: real)
    requires |xs| == |ys|
    ensures Deviations(ys, a + b) == Combined(Zip(xs, Increases(xs, ys)), a, b, 1.0, 1.0)
  {
    hide Times;
    if xs != [] {
      var ds := Increases(xs, ys);
      DeviationsAfterIncrease(xs[1..], ys[1..], a, b);
      assert ds[1..] == Increases(xs[1..], ys[1..]);
      assert Zip(xs, ds)[1..] == Zip(xs[1..], ds[1..]);
      UnitTimes(xs[0] - a);
      UnitTimes(ds[0] - b);
      assert ys[0] - (a + b) == (xs[0] - a) + (ds[0] - b);
    }
  }

  lemma DeviationStep(x: real, c: real)
    ensures Times(x - c, x - c) == Times(x, x) - 2.0 * Times(c, x) + Times(c, c)
  {
  }

  lemma {:induction false} DeviationsExpand(xs: seq<real>, c: real)
    ensures Deviations(xs, c) == Deviations(xs, 0.0) - 2.0 * Times(c, Sum(xs)) + Times(|xs| as real, Times(c, c))
  {
    if xs == [] {
      assert Times(c, 0.0) == 0.0 && Times(0.0, Times(c, c)) == 0.0;
    } else {
      DeviationsExpand(xs[1..], c);
      DeviationStep(xs[0], c);
      TimesAdds(c, xs[0], Sum(xs[1..]));
      TimesAdds(Times(c, c), 1.0, |xs[1..]| as real);
      Commutes(Times(c, c), |xs| as real);
      Commutes(Times(c, c), |xs[1..]| as real);
      UnitTimes(Times(c, c));
      Commutes(Times(c, c), 1.0);
      assert xs[0] - 0.0 == xs[0];
      hide Times;
    }
  }

  lemma TimesAdds(a: real, x: real, y: real)
    ensures Times(a, x + y) == Times(a, x) + Times(a, y)
  {
  }

  lemma {:induction false} SquaresBelowSquare(ds: seq<real>)
    requires forall d :: d in ds ==> d >= 0.0
    ensures Sum(ds) >= 0.0 && Deviations(ds, 0.0) <= Times(Sum(ds), Sum(ds))
  {
    if ds == [] {
      assert Times(0.0, 0.0) == 0.0;
    } else {
      assert ds[0] in ds && forall d :: d in ds[1..] ==> d in ds;
      SquaresBelowSquare(ds[1..]);
      SquareOfSum(ds[0], Sum(ds[1..]));
      hide Times;
      assert ds[0] - 0.0 == ds[0];
    }
  }

  lemma SquareOfSum(x: real, y: real)
    requires x >= 0.0 && y >= 0.0
    ensures Times(x + y, x + y) >= Times(x, x) + Times(y, y)
  {
    assert x * y >= 0.0;
  }

  /** Nonnegative numbers spread no wider than their sum. */
  lemma DeviationsBelowSquare(ds: seq<real>)
    requires ds != [] && forall d :: d in ds ==> d >= 0.0
    ensures 0.0 <= Deviations(ds, Mean(ds)) <= Times(Sum(ds), Sum(ds)) && Sum(ds) >= 0.0
  {
    var c, n := Mean(ds), |ds| as real;
    MeanTimesCount(ds);
    hide Sum, Deviations, Mean, Times;
    DeviationsExpand(ds, c);
    SquaresBelowSquare(ds);
    DeviationsAreNonnegative(ds, c);
    MeanSquare(c, n, Sum(ds));
  }

  lemma MeanTimesCount(xs: seq<real>)
    requires xs != []
    ensures Sum(xs) == Times(Mean(xs), |xs| as real)
  {
    hide Sum;
  }

  lemma MeanOfNine(xs: seq<real>)
    requires |xs| == 9
    ensures Sum(xs) == 9.0 * Mean(xs)
  {
    hide Sum;
  }

  lemma MeanSquare(c: real, n: real, s: real)
    requires s == Times(c, n) && n > 0.0
    ensures Times(c, s) == Times(n, Times(c, c)) >= 0.0
  {
    assert c * (c * n) == n * (c * c);
    SquareIsNonnegative(c);
  }

  lemma {:induction false} DeviationsAreNonnegative(xs: seq<real>, c: real)
    ensures Deviations(xs, c) >= 0.0
  {
    hide Times;
    if xs != [] {
      DeviationsAreNonnegative(xs[1..], c);
      SquareIsNonnegative(xs[0] - c);
    }
  }

  // ----- Spread grows no faster than three times the mean -----

  lemma ProductBound(p: real, a: real, b: real, s: real, d: real)
    requires Times(p, p) <= Times(a, b) && a == 9.0 * Times(s, s) && 0.0 <= b <= 81.0 * Times(d, d)
    requires s >= 0.0 && d >= 0.0
    ensures p <= 27.0 * Times(s, d)
  {
    var q := 27.0 * Times(s, d);
    assert Times(s, d) >= 0.0 && Times(s, s) >= 0.0;
    assert Times(a, b) <= a * (81.0 * Times(d, d)) by { LargerFactor(a, b, 81.0 * Times(d, d)); }
    assert a * (81.0 * Times(d, d)) == Times(q, q) by { SquareOfProduct(s, d); }
    if p > q { SquaresAreMonotone(q, p); }
  }

  lemma LargerFactor(a: real, b: real, c: real)
    requires a >= 0.0 && b <= c
    ensures Times(a, b) <= a * c
  {
  }

  lemma SquareOfProduct(s: real, d: real)
    ensures 9.0 * Times(s, s) * (81.0 * Times(d, d)) == Times(27.0 * Times(s, d), 27.0 * Times(s, d))
  {
    assert (s * d) * (s * d) == (s * s) * (d * d);
  }

  lemma SquareOfGrown(s: real, d: real)
    ensures Times(s + 3.0 * d, s + 3.0 * d) == Times(s, s) + 6.0 * Times(s, d) + 9.0 * Times(d, d)
  {
  }

  lemma RootAtMost(sqrt: real -> real, v: real, r: real)
    requires IsSqrt(sqrt) && v >= 0.0 && r >= 0.0 && v <= Times(r, r)
    ensures 0.0 <= sqrt(v) <= r
  {
    hide Times;
    if sqrt(v) > r { SquaresAreMonotone(r, sqrt(v)); }
  }

  /** If no value falls, the spread of nine rises by at most three times what their mean does. */
  lemma SpreadGrows(xs: seq<real>, ys: seq<real>, sqrt: real -> real)
    requires IsSqrt(sqrt) && |xs| == |ys| == 9 && Pointwise(xs, ys)
    ensures 0.0 <= Spread(xs, sqrt) && Mean(xs) <= Mean(ys)
    ensures 0.0 <= Spread(ys, sqrt) <= Spread(xs, sqrt) + 3.0 * (Mean(ys) - Mean(xs))
  {
    var ds := Increases(xs, ys);
    SumOfIncreases(xs, ys);
    MeanOfNine(xs);
    MeanOfNine(ys);
    MeanOfNine(ds);
    hide Sum, Mean, Deviations, Times;
    var mx, md := Mean(xs), Mean(ds);
    assert Mean(ys) == mx + md;
    DeviationsBelowSquare(ds);
    var ps := Zip(xs, ds);
    var a, b, p := Deviations(xs, mx), Deviations(ds, md), Products(ps, mx, md);
    ZipSums(xs, ds, mx, md);
    CauchySchwarz(ps, mx, md);
    CombinedExpands(ps, mx, md, 1.0, 1.0);
    FormOfOnes(a, p, b);
    DeviationsAfterIncrease(xs, ys, mx, md);
    DeviationsAreNonnegative(xs, mx);
    assert Sum(ds) == 9.0 * md;
    GrownRoot(sqrt, a, b, p, md);
  }

  lemma FormOfOnes(p: real, q: real, r: real)
    ensures Form(p, q, r, 1.0, 1.0) == p + 2.0 * q + r
  {
  }

  lemma GrownRoot(sqrt: real -> real, a: real, b: real, p: real, md: real)
    requires IsSqrt(sqrt) && a >= 0.0 && a + 2.0 * p + b >= 0.0 && md >= 0.0
    requires 0.0 <= b <= Times(9.0 * md, 9.0 * md) && Times(p, p) <= Times(a, b)
    ensures 0.0 <= sqrt(a / 9.0) && 0.0 <= sqrt((a + 2.0 * p + b) / 9.0) <= sqrt(a / 9.0) + 3.0 * md
  {
    var s := sqrt(a / 9.0);
    assert Times(s, s) == a / 9.0;
    assert Times(9.0 * md, 9.0 * md) == 81.0 * Times(md, md);
    hide Times;
    ProductBound(p, a, b, s, md);
    SquareOfGrown(s, md);
    RootAtMost(sqrt, (a + 2.0 * p + b) / 9.0, s + 3.0 * md);
  }

  // ----- The index bounds the mean from below -----

  /** The weights of the index, in the order of the nine values. */
  const WEIGHTS := [0.26, 0.15, 0.16, 0.14, 0.11, 0.0, 0.0, 0.0, 0.05]

  function Dot(xs: seq<real>, ys: seq<real>): real
    requires |xs| == |ys|
  {
    if xs == [] then 0.0 else Times(xs[0], ys[0]) + Dot(xs[1..], ys[1..])
  }

  lemma ProductStep(x: real, y: real, a: real, b: real)
    ensures Times(x - a, y - b) == Times(x, y) - Times(a, y) - Times(b, x) + Times(a, b)
  {
  }

  lemma ZipTail(xs: seq<real>, ys: seq<real>)
    requires |xs| == |ys| > 0
    ensures Zip(xs, ys)[1..] == Zip(xs[1..], ys[1..])
  {
  }

  lemma {:induction false} ProductsExpand(xs: seq<real>, ys: seq<real>, a: real, b: real)
    requires |xs| == |ys|
    ensures Products(Zip(xs, ys), a, b) ==
            Dot(xs, ys) - Times(a, Sum(ys)) - Times(b, Sum(xs)) + Times(Times(a, b), |xs| as real)
  {
    if xs == [] {
      ScaledProduct(a, 0.0);
      ScaledProduct(b, 0.0);
      ScaledProduct(Times(a, b), 0.0);
    } else {
      hide Times;
      ZipTail(xs, ys);
      assert Products(Zip(xs, ys), a, b) == Products(Zip(xs[1..], ys[1..]), a, b) + Times(xs[0] - a, ys[0] - b);
      assert Sum(xs) == xs[0] + Sum(xs[1..]) && Sum(ys) == ys[0] + Sum(ys[1..]);
      assert Dot(xs, ys) == Times(xs[0], ys[0]) + Dot(xs[1..], ys[1..]);
      hide Products, Sum, Dot;
      ProductsExpand(xs[1..], ys[1..], a, b);
      ProductStep(xs[0], ys[0], a, b);
      TimesAdds(a, ys[0], Sum(ys[1..]));
      TimesAdds(b, xs[0], Sum(xs[1..]));
      TimesAdds(Times(a, b), 1.0, |xs[1..]| as real);
      ScaledProduct(Times(a, b), 1.0);
    }
  }

  lemma DotFrom(xs: seq<real>, ys: seq<real>, i: nat)
    requires |xs| == |ys| && i < |xs|
    ensures Dot(xs[i..], ys[i..]) == Times(xs[i], ys[i]) + Dot(xs[i + 1..], ys[i + 1..])
  {
    hide Times;
    assert xs[i..][1..] == xs[i + 1..] && ys[i..][1..] == ys[i + 1..];
  }

  lemma DotEnds(xs: seq<real>, ys: seq<real>)
    requires |xs| == |ys|
    ensures Dot(xs[0..], ys[0..]) == Dot(xs, ys) && Dot(xs[|xs|..], ys[|xs|..]) == 0.0
  {
    assert xs[0..] == xs && ys[0..] == ys;
  }

  lemma DotOfFirstFour(xs: seq<real>, ys: seq<real>)
    requires |xs| == |ys| == 9
    ensures Dot(xs, ys) == Times(xs[0], ys[0]) + Times(xs[1], ys[1]) + Times(xs[2], ys[2]) + Times(xs[3], ys[3])
                           + Dot(xs[4..], ys[4..])
  {
    hide Dot, Times;
    DotEnds(xs, ys);
    DotFrom(xs, ys, 0);
    DotFrom(xs, ys, 1);
    DotFrom(xs, ys, 2);
    DotFrom(xs, ys, 3);
  }

  lemma DotOfLastFive(xs: seq<real>, ys: seq<real>)
    requires |xs| == |ys| == 9
    ensures Dot(xs[4..], ys[4..]) == Times(xs[4], ys[4]) + Times(xs[5], ys[5]) + Times(xs[6], ys[6])
                                     + Times(xs[7], ys[7]) + Times(xs[8], ys[8])
  {
    hide Dot, Times;
    DotFrom(xs, ys, 4);
    DotFrom(xs, ys, 5);
    DotFrom(xs, ys, 6);
    DotFrom(xs, ys, 7);
    DotFrom(xs, ys, 8);
    DotEnds(xs, ys);
  }

  lemma DotOfNine(xs: seq<real>, ys: seq<real>)
    requires |xs| == |ys| == 9
    ensures Dot(xs, ys) == Times(xs[0], ys[0]) + Times(xs[1], ys[1]) + Times(xs[2], ys[2]) + Times(xs[3], ys[3])
                           + Times(xs[4], ys[4]) + Times(xs[5], ys[5]) + Times(xs[6], ys[6]) + Times(xs[7], ys[7])
                           + Times(xs[8], ys[8])
  {
    hide Dot, Times;
    DotOfFirstFour(xs, ys);
    DotOfLastFive(xs, ys);
  }

  function Weighted(xs: seq<real>): real
    requires |xs| == 9
  {
    0.26 * xs[0] + 0.15 * xs[1] + 0.16 * xs[2] + 0.14 * xs[3] + 0.11 * xs[4] + 0.05 * xs[8]
  }

  /** The weights add up to 0.87; their squared deviations from the mean weight to less than 0.0659. */
  lemma WeightsSpread()
    ensures Sum(WEIGHTS) == 0.87 && 0.0 <= Deviations(WEIGHTS, 0.87 / 9.0) <= 0.0659
  {
    SumOfNine(WEIGHTS, 0.87 / 9.0);
    DeviationsAreNonnegative(WEIGHTS, 0.87 / 9.0);
    hide Sum, Deviations;
  }

  lemma WeightedIsDot(xs: seq<real>)
    requires |xs| == 9
    ensures Dot(WEIGHTS, xs) == Weighted(xs)
  {
    DotOfNine(WEIGHTS, xs);
  }

  lemma CenteredSum(m: real)
    ensures Times(0.87 / 9.0, 9.0 * m) == 0.87 * m && Times(m, 0.87) == 0.87 * m
    ensures Times(Times(0.87 / 9.0, m), 9.0) == 0.87 * m
  {
  }

  /** By Cauchy-Schwarz the weighted sum stays within 0.7702 spreads of 0.87 means. */
  lemma WeightedIsBounded(xs: seq<real>, sqrt: real -> real)
    requires IsSqrt(sqrt) && |xs| == 9
    ensures Spread(xs, sqrt) >= 0.0 && Weighted(xs) <= 0.87 * Mean(xs) + 0.7702 * Spread(xs, sqrt)
  {
    var m, w := Mean(xs), 0.87 / 9.0;
    hide *;
    WeightsSpread();
    WeightedIsCentered(xs);
    SpreadIsRoot(xs, sqrt);
    ZipSums(WEIGHTS, xs, w, m);
    CauchySchwarz(Zip(WEIGHTS, xs), w, m);
    DeviationsAreNonnegative(xs, m);
    SpreadBoundsProduct(sqrt, Weighted(xs) - 0.87 * m, Deviations(WEIGHTS, w), Deviations(xs, m));
  }

  lemma SpreadIsRoot(xs: seq<real>, sqrt: real -> real)
    requires |xs| == 9
    ensures Spread(xs, sqrt) == sqrt(Deviations(xs, Mean(xs)) / 9.0)
  {
    hide Deviations, Mean;
  }

  /** The weighted sum, less 0.87 means, is the sum of the centred products. */
  lemma WeightedIsCentered(xs: seq<real>)
    requires |xs| == 9
    ensures |WEIGHTS| == 9 && Products(Zip(WEIGHTS, xs), 0.87 / 9.0, Mean(xs)) == Weighted(xs) - 0.87 * Mean(xs)
  {
    var m := Mean(xs);
    MeanOfNine(xs);
    WeightsSpread();
    WeightedIsDot(xs);
    assert |WEIGHTS| == 9;
    hide Sum, Mean, Dot, Weighted, WEIGHTS, Times, Products;
    ProductsExpand(WEIGHTS, xs, 0.87 / 9.0, m);
    CenteredSum(m);
  }

  lemma SpreadBoundsProduct(sqrt: real -> real, p: real, v: real, a: real)
    requires IsSqrt(sqrt) && a >= 0.0 && 0.0 <= v <= 0.0659 && Times(p, p) <= Times(v, a)
    ensures sqrt(a / 9.0) >= 0.0 && p <= 0.7702 * sqrt(a / 9.0)
  {
    var s := sqrt(a / 9.0);
    assert Times(s, s) == a / 9.0;
    var q := 0.7702 * s;
    assert Times(v, a) <= 0.0659 * a by { assert (0.0659 - v) * a >= 0.0; }
    assert Times(q, q) == 0.7702 * 0.7702 * Times(s, s);
    if p > q { SquaresAreMonotone(q, p); }
  }

  // ----- An index near a threshold needs a large mean or a large spread -----

  /** The dispersion: the spread relative to the mean. */
  function Variation(xs: seq<real>, sqrt: real -> real): real
    requires xs != [] && Mean(xs) > TINY
  {
    Spread(xs, sqrt) / (Mean(xs) + TINY)
  }

  lemma ConsistencyOf(xs: seq<real>, sqrt: real -> real)
    requires |xs| == 9 && IsSqrt(sqrt)
    ensures InUnit(Consistency(xs, sqrt))
    ensures Mean(xs) > TINY ==> Consistency(xs, sqrt) == Clip(1.0 - Variation(xs, sqrt) / 2.0)
  {
    hide Mean, Deviations;
  }

  lemma SumsOfValues(e: Evidence)
    ensures
      var xs := Values(e);
      && Sum(xs) == e.stateDrift + e.relationshipDrift + e.varianceGrowth + e.entropyGrowth + e.acceleration
                    + e.mutualInformationDrift + e.lagRelationshipDrift + e.regimeShift + e.topologyPropagation
      && Sum(Indicators(e)) == Sum(xs) - e.topologyPropagation
      && Weighted(xs) == 0.26 * e.stateDrift + 0.15 * e.relationshipDrift + 0.16 * e.varianceGrowth
                         + 0.14 * e.entropyGrowth + 0.11 * e.acceleration + 0.05 * e.topologyPropagation
  {
    SumOfNine(Values(e), 0.0);
    SumAppend(Indicators(e), e.topologyPropagation);
    hide Sum;
  }

  lemma SoundComponents(e: Evidence)
    requires Sound(e)
    ensures InUnit(e.stateDrift) && InUnit(e.relationshipDrift) && InUnit(e.varianceGrowth) && InUnit(e.entropyGrowth)
    ensures InUnit(e.acceleration) && InUnit(e.mutualInformationDrift) && InUnit(e.lagRelationshipDrift)
    ensures InUnit(e.regimeShift) && InUnit(e.topologyPropagation)
  {
    var xs := Indicators(e);
    assert forall i :: 0 <= i < 8 ==> xs[i] in xs;
    assert InUnit(xs[0]) && InUnit(xs[1]) && InUnit(xs[2]) && InUnit(xs[3]) && InUnit(xs[4]) && InUnit(xs[5])
           && InUnit(xs[6]) && InUnit(xs[7]);
  }

  /** On sound evidence nothing is clamped: the index is the weighted sum plus the confidence's share. */
  lemma IndexIsWeighted(e: Evidence, trigger: real, sufficiency: real, sqrt: real -> real)
    requires Sound(e) && InUnit(sufficiency) && IsSqrt(sqrt)
    ensures
      var score, cons := RawScore(Indicators(e), trigger), Consistency(Values(e), sqrt);
      && InUnit(score) && InUnit(cons)
      && ExactConfidence(e, trigger, sufficiency, sqrt) == 0.15 + score * 0.45 + sufficiency * 0.25 + cons * 0.15
      && InUnit(ExactConfidence(e, trigger, sufficiency, sqrt))
      && ExactIndex(e, trigger, sufficiency, sqrt)
         == Weighted(Values(e)) + 0.13 * (0.15 + score * 0.45 + sufficiency * 0.25 + cons * 0.15)
  {
    SoundComponents(e);
    ConsistencyOf(Values(e), sqrt);
    SumsOfValues(e);
    ScoreOfEight(e, trigger);
    hide Sum, Count, Consistency, RawScore, Indicators, Values, Weighted, Sound;
  }

  lemma ScoreOfEight(e: Evidence, trigger: real)
    requires Sound(e)
    ensures
      var score, mean := RawScore(Indicators(e), trigger), Sum(Indicators(e)) / 8.0;
      0.0 <= mean * 0.3 <= score <= 0.7 + mean * 0.3 <= 1.0
  {
    SumOfUnits(Indicators(e));
    hide Sum, Count;
  }

  lemma IndexBound(e: Evidence, trigger: real, sufficiency: real, sqrt: real -> real)
    requires Sound(e) && InUnit(sufficiency) && IsSqrt(sqrt)
    ensures
      var m, s, cons := Mean(Values(e)), Spread(Values(e), sqrt), Consistency(Values(e), sqrt);
      && InUnit(m) && s >= 0.0 && InUnit(cons)
      && ExactIndex(e, trigger, sufficiency, sqrt) <=
        0.87 * m + 0.7702 * s + 0.13 * (0.865 + 0.151875 * m) - 0.0195 * (1.0 - cons)
  {
    SoundComponents(e);
    IndexIsWeighted(e, trigger, sufficiency, sqrt);
    WeightedIsBounded(Values(e), sqrt);
    SumsOfValues(e);
    MeanOfNine(Values(e));
    ScoreOfEight(e, trigger);
    hide Sum, Mean, Consistency, RawScore, Spread, Weighted, ExactIndex, Values, Indicators, Sound, ExactConfidence;
  }

  lemma LargerProduct(v: real, x: real, y: real)
    requires v >= 0.0
    ensures x <= y ==> Times(v, x) <= Times(v, y)
  {
    if x <= y { assert v * (y - x) >= 0.0; }
  }

  lemma LinearProduct(v: real, a: real, b: real)
    ensures Times(v, a - b * v) == a * v - b * Times(v, v)
  {
  }

  lemma SquareAbove(v: real)
    ensures Times(v, v) >= 1.8 * v - 0.81
  {
    assert (v - 0.9) * (v - 0.9) >= 0.0;
  }

  lemma ScaledProduct(v: real, k: real)
    ensures Times(v, k) == k * v
  {
  }

  /** Near the lowest threshold, little variation leaves only a large mean. */
  lemma MeanIsLarge(m: real, s: real, v: real)
    requires 0.0 <= m <= 1.0 && s == Times(v, m + TINY) && 0.0 <= v <= 2.0
    requires 0.3199 <= 0.87 * m + 0.7702 * s + 0.13 * (0.865 + 0.151875 * m) - 0.00975 * v
    ensures m >= 0.18 - 0.055 * v
  {
    var r := 0.18 - 0.055 * v;
    TimesAdds(v, m, TINY);
    ScaledProduct(v, TINY);
    LargerProduct(v, m, r);
    LinearProduct(v, 0.18, 0.055);
    SquareAbove(v);
    hide Times;
  }

  /** If the spread grows by no more than three times what the mean does, so much does the variation. */
  lemma VariationGrows(sx: real, sy: real, mx: real, my: real, vx: real, vy: real)
    requires TINY < mx <= my && 0.0 <= sx && 0.0 <= sy <= sx + 3.0 * (my - mx)
    requires vx == sx / (mx + TINY) && vy == sy / (my + TINY)
    ensures vx >= 0.0 && vy >= 0.0 && sx == Times(vx, mx + TINY)
    ensures Times(vy - vx, my + TINY) <= Times(my - mx, 3.0 - vx)
  {
    assert vx * (mx + TINY) == sx && vy * (my + TINY) == sy;
    assert (vy - vx) * (my + TINY) == sy - sx - vx * (my - mx);
  }

  lemma Regroup(g: real, d: real, z: real)
    ensures Times(d, g * z) == Times(g * d, z)
  {
  }

  /** So much consistency can be lost against so much gain. */
  lemma LossIsCovered(loss: real, mx: real, my: real, v: real, gain: real, jumped: bool)
    requires 0.0 <= v <= 2.0 && mx >= 0.18 - 0.055 * v && mx <= my
    requires Times(loss, my + TINY) <= 0.00975 * Times(my - mx, 3.0 - v)
    requires gain >= if jumped then 0.1305 * (my - mx) else 0.189 * (my - mx)
    requires jumped ==> my - mx >= 0.0499
    ensures loss <= gain
  {
    var d, g := my - mx, if jumped then 0.1305 else 0.189;
    LargerProduct(d, 0.00975 * (3.0 - v), g * (my + TINY));
    Regroup(g, d, my + TINY);
    Regroup(0.00975, d, 3.0 - v);
    ScaleOut(0.00975, d, 3.0 - v);
    assert 0.00975 * (3.0 - v) <= g * (my + TINY);
    hide Times;
    TimesCancels(loss, g * d, my + TINY);
  }

  lemma ScaleOut(k: real, d: real, z: real)
    ensures Times(k * d, z) == k * Times(d, z)
  {
  }

  // ----- More of any score never lowers the exact index -----

  lemma EvidenceIsSound(s: Scores)
    requires InRange(s)
    ensures Sound(EvidenceOf(s))
    ensures
      var e := EvidenceOf(s);
      && e.relationshipDrift == s.correlationDrift * 0.7 + s.mutualInformationDrift * 0.3
      && e.topologyPropagation == s.lagDrift * 0.65 + e.regimeShift * 0.35
  {
    RegimeSteps(s.changePoints);
    hide Round6;
  }

  lemma EvidenceRises(a: Scores, b: Scores)
    requires InRange(a) && InRange(b) && MoreScores(a, b)
    ensures Raised(EvidenceOf(a), EvidenceOf(b)) && Pointwise(Values(EvidenceOf(a)), Values(EvidenceOf(b)))
    ensures
      var p, q := EvidenceOf(a).regimeShift, EvidenceOf(b).regimeShift;
      p == q || p + 0.333333 <= q
  {
    RegimeSteps(a.changePoints);
    RegimeSteps(b.changePoints);
    EvidenceIsSound(a);
    EvidenceIsSound(b);
    hide Round6, RegimeScore;
  }

  /** What the weighted sum and the accumulated mean gain, against the sum of all nine increases. */
  lemma Gain(a: Scores, b: Scores)
    requires InRange(a) && InRange(b) && MoreScores(a, b)
    ensures
      var e, f := EvidenceOf(a), EvidenceOf(b);
      var gain := Weighted(Values(f)) - Weighted(Values(e)) + 0.00219375 * (Sum(Indicators(f)) - Sum(Indicators(e)));
      var md := Mean(Values(f)) - Mean(Values(e));
      if e.regimeShift == f.regimeShift then gain >= 0.189 * md >= 0.0 else gain >= 0.1305 * md && md >= 0.0499
  {
    var e, f := EvidenceOf(a), EvidenceOf(b);
    EvidenceIsSound(a);
    EvidenceIsSound(b);
    EvidenceRises(a, b);
    SumsOfValues(e);
    SumsOfValues(f);
    MeanOfNine(Values(e));
    MeanOfNine(Values(f));
    EvidenceKeepsScores(a);
    EvidenceKeepsScores(b);
    hide EvidenceOf, Values, Indicators, Sum, Mean, Weighted, RegimeScore, Round6, Sound, Raised, Pointwise;
  }

  lemma EvidenceKeepsScores(s: Scores)
    requires InRange(s)
    ensures
      var e := EvidenceOf(s);
      && e.stateDrift == s.stateDrift && e.varianceGrowth == s.varianceGrowth && e.entropyGrowth == s.entropyGrowth
      && e.acceleration == s.acceleration && e.mutualInformationDrift == s.mutualInformationDrift
      && e.lagRelationshipDrift == s.lagDrift
  {
    hide Round6, RegimeScore;
  }

  /** Whatever an increase of the scores costs in consistency, the rest of the index makes up for it. */
  /** Half the rise of the variation is what consistency loses. */
  lemma LossFromVariation(cx: real, cy: real, vx: real, vy: real, mx: real, my: real, gain: real, jumped: bool)
    requires vx >= 0.0 && vy >= 0.0 && cx == Clip(1.0 - vx / 2.0) && cy == Clip(1.0 - vy / 2.0)
    requires vx <= 2.0 ==> mx >= 0.18 - 0.055 * vx
    requires mx <= my && Times(vy - vx, my + TINY) <= Times(my - mx, 3.0 - vx)
    requires gain >= if jumped then 0.1305 * (my - mx) else 0.189 * (my - mx)
    requires jumped ==> my - mx >= 0.0499
    ensures 0.0195 * (cx - cy) <= gain
  {
    if vx <= 2.0 {
      ScaleOut(0.00975, vy - vx, my + TINY);
      hide Times;
      LossIsCovered(0.00975 * (vy - vx), mx, my, vx, gain, jumped);
    }
  }

  lemma ConsistencyLossIsCovered(a: Scores, b: Scores, trigger: real, sufficiency: real, sqrt: real -> real)
    requires InRange(a) && InRange(b) && MoreScores(a, b) && InUnit(sufficiency) && IsSqrt(sqrt)
    requires ExactIndex(EvidenceOf(a), trigger, sufficiency, sqrt) >= 0.3199
    ensures
      var e, f := EvidenceOf(a), EvidenceOf(b);
      0.0195 * (Consistency(Values(e), sqrt) - Consistency(Values(f), sqrt))
        <= Weighted(Values(f)) - Weighted(Values(e)) + 0.00219375 * (Sum(Indicators(f)) - Sum(Indicators(e)))
  {
    var e, f := EvidenceOf(a), EvidenceOf(b);
    var xs, ys := Values(e), Values(f);
    EvidenceIsSound(a);
    EvidenceRises(a, b);
    Gain(a, b);
    SpreadGrows(xs, ys, sqrt);
    MeanIsNotTiny(e, trigger, sufficiency, sqrt);
    ConsistencyOf(xs, sqrt);
    ConsistencyOf(ys, sqrt);
    hide *;
    VariationsGrow(xs, ys, sqrt);
    var vx, vy := Variation(xs, sqrt), Variation(ys, sqrt);
    if vx <= 2.0 { VariedMeanIsLarge(e, trigger, sufficiency, sqrt); }
    LossFromVariation(Consistency(xs, sqrt), Consistency(ys, sqrt), vx, vy, Mean(xs), Mean(ys),
                      Weighted(ys) - Weighted(xs) + 0.00219375 * (Sum(Indicators(f)) - Sum(Indicators(e))),
                      e.regimeShift != f.regimeShift);
  }

  lemma MeanIsNotTiny(e: Evidence, trigger: real, sufficiency: real, sqrt: real -> real)
    requires Sound(e) && InUnit(sufficiency) && IsSqrt(sqrt) && ExactIndex(e, trigger, sufficiency, sqrt) >= 0.3199
    ensures Mean(Values(e)) > TINY
  {
    IndexBound(e, trigger, sufficiency, sqrt);
    SoundComponents(e);
    SpreadBelowMean(Values(e), sqrt);
    hide Values, Mean, Spread, Consistency, ExactIndex, Sound;
  }

  lemma VariedMeanIsLarge(e: Evidence, trigger: real, sufficiency: real, sqrt: real -> real)
    requires Sound(e) && InUnit(sufficiency) && IsSqrt(sqrt) && ExactIndex(e, trigger, sufficiency, sqrt) >= 0.3199
    requires Mean(Values(e)) > TINY && 0.0 <= Variation(Values(e), sqrt) <= 2.0
    ensures Mean(Values(e)) >= 0.18 - 0.055 * Variation(Values(e), sqrt)
  {
    var xs := Values(e);
    var m, s, v := Mean(xs), Spread(xs, sqrt), Variation(xs, sqrt);
    IndexBound(e, trigger, sufficiency, sqrt);
    ConsistencyOf(xs, sqrt);
    QuotientTimes(s, m + TINY);
    assert s == Times(v, m + TINY);
    hide Values, Mean, Spread, Consistency, Variation, ExactIndex, Sound, Times;
    MeanIsLarge(m, s, v);
  }

  lemma QuotientTimes(s: real, z: real)
    requires z > 0.0
    ensures Times(s / z, z) == s
  {
  }

  lemma VariationsGrow(xs: seq<real>, ys: seq<real>, sqrt: real -> real)
    requires |xs| == |ys| == 9 && TINY < Mean(xs) <= Mean(ys)
    requires 0.0 <= Spread(xs, sqrt) && 0.0 <= Spread(ys, sqrt) <= Spread(xs, sqrt) + 3.0 * (Mean(ys) - Mean(xs))
    ensures
      var vx, vy := Variation(xs, sqrt), Variation(ys, sqrt);
      && vx >= 0.0 && vy >= 0.0 && Spread(xs, sqrt) == Times(vx, Mean(xs) + TINY)
      && Times(vy - vx, Mean(ys) + TINY) <= Times(Mean(ys) - Mean(xs), 3.0 - vx)
  {
    hide Spread, Mean;
    VariationGrows(Spread(xs, sqrt), Spread(ys, sqrt), Mean(xs), Mean(ys), Variation(xs, sqrt), Variation(ys, sqrt));
  }

  /** The spread of nine nonnegative values is at most three times their mean. */
  lemma SpreadBelowMean(xs: seq<real>, sqrt: real -> real)
    requires |xs| == 9 && IsSqrt(sqrt) && forall x :: x in xs ==> x >= 0.0
    ensures 0.0 <= Mean(xs) && 0.0 <= Spread(xs, sqrt) <= 3.0 * Mean(xs)
  {
    DeviationsBelowSquare(xs);
    MeanOfNine(xs);
    var m, d := Mean(xs), Deviations(xs, Mean(xs));
    hide Sum, Mean, Deviations;
    assert Times(Sum(xs), Sum(xs)) == 9.0 * Times(3.0 * m, 3.0 * m);
    RootAtMost(sqrt, d / 9.0, 3.0 * m);
  }

  /** More of any underlying score never lowers the exact index, from the lowest threshold up. */
  lemma MoreScoresNeverLowerTheIndex(a: Scores, b: Scores, trigger: real, sufficiency: real, sqrt: real -> real)
    requires InRange(a) && InRange(b) && MoreScores(a, b) && InUnit(sufficiency) && IsSqrt(sqrt)
    requires ExactIndex(EvidenceOf(a), trigger, sufficiency, sqrt) >= 0.3199
    ensures ExactIndex(EvidenceOf(b), trigger, sufficiency, sqrt)
            >= ExactIndex(EvidenceOf(a), trigger, sufficiency, sqrt)
  {
    var e, f := EvidenceOf(a), EvidenceOf(b);
    EvidenceIsSound(a);
    EvidenceIsSound(b);
    EvidenceRises(a, b);
    IndexIsWeighted(e, trigger, sufficiency, sqrt);
    IndexIsWeighted(f, trigger, sufficiency, sqrt);
    ConsistencyLossIsCovered(a, b, trigger, sufficiency, sqrt);
    ScoreGains(e, f, trigger);
    hide EvidenceOf, Values, Indicators, Sum, Weighted, Consistency, ExactIndex, RawScore, Sound, Raised, Pointwise,
         ExactConfidence;
  }

  lemma ScoreGains(e: Evidence, f: Evidence, trigger: real)
    requires Raised(e, f)
    ensures RawScore(Indicators(f), trigger) - RawScore(Indicators(e), trigger)
            >= 0.0375 * (Sum(Indicators(f)) - Sum(Indicators(e)))
  {
    CountRises(Indicators(e), Indicators(f), trigger);
    hide Count, Sum, Pointwise, Indicators;
  }

  // ----- The state -----

  function ExactState(e: Evidence, trigger: real, sufficiency: real, sqrt: real -> real): State {
    var accumulated := Accumulate(Indicators(e), trigger);
    DecisionState(ExactIndex(e, trigger, sufficiency, sqrt), accumulated.active, accumulated.persistence)
  }

  /** Without intermediate rounding the state is monotone in the underlying scores, for all inputs. */
  lemma ExactStateIsMonotone(a: Scores, b: Scores, trigger: real, sufficiency: real, sqrt: real -> real)
    requires InRange(a) && InRange(b) && MoreScores(a, b) && InUnit(sufficiency) && IsSqrt(sqrt)
    ensures Rank(ExactState(EvidenceOf(a), trigger, sufficiency, sqrt)) <=
            Rank(ExactState(EvidenceOf(b), trigger, sufficiency, sqrt))
  {
    var e, f := EvidenceOf(a), EvidenceOf(b);
    EvidenceRises(a, b);
    CountRises(Indicators(e), Indicators(f), Higher(trigger, PERSISTENCE_FLOOR));
    DecisionIsExact(e, trigger, ExactIndex(e, trigger, sufficiency, sqrt));
    DecisionIsExact(f, trigger, ExactIndex(f, trigger, sufficiency, sqrt));
    hide EvidenceOf, Accumulate, Indicators, ExactIndex, DecisionState, Raised, Pointwise, Count, Higher;
    if ExactIndex(e, trigger, sufficiency, sqrt) >= 0.32 {
      MoreScoresNeverLowerTheIndex(a, b, trigger, sufficiency, sqrt);
    }
  }

  lemma ClipIsClose(x: real, y: real, d: real)
    requires x - d <= y <= x + d
    ensures Clip(x) - d <= Clip(y) <= Clip(x) + d
  {
  }

  /** The reported index is within 0.0000006 of the exact one. */
  lemma ReportedIsClose(e: Evidence, trigger: real, samples: nat, features: nat, sqrt: real -> real)
    requires Sound(e) && IsSqrt(sqrt)
    ensures
      var reported := Assess(e, trigger, samples, features, sqrt).index;
      var exact := ExactIndex(e, trigger, Sufficiency(samples, features), sqrt);
      exact - 0.0000006 <= reported <= exact + 0.0000006 && InUnit(exact)
  {
    var sufficiency, cons := Sufficiency(samples, features), Consistency(Values(e), sqrt);
    IndexIsWeighted(e, trigger, sufficiency, sqrt);
    var raw := RawScore(Indicators(e), trigger);
    hide Round6, Consistency, RawScore, Indicators, Values, Sufficiency, Weighted, Sound;
    Round6IsClose(raw);
    var score := Round6(raw);
    var exact := ExactConfidence(e, trigger, sufficiency, sqrt);
    var c := RawConfidence(score, sufficiency, cons);
    ClipIsClose(exact, c, 0.000000225);
    Round6IsClose(Clip(c));
    var conf := Round6(Clip(c));
    ClipIsClose(exact, conf, 0.000000725);
    var index := RawIndex(e, conf);
    assert RawIndex(e, exact) - 0.000000095 <= index <= RawIndex(e, exact) + 0.000000095;
    ExactIsUnit(e, trigger, sufficiency, sqrt);
    ClipIsClose(RawIndex(e, exact), index, 0.000000095);
    Round6IsClose(Clip(index));
  }

  lemma ExactIsUnit(e: Evidence, trigger: real, sufficiency: real, sqrt: real -> real)
    requires Sound(e) && InUnit(sufficiency) && IsSqrt(sqrt)
    ensures InUnit(ExactIndex(e, trigger, sufficiency, sqrt))
  {
    SoundComponents(e);
    IndexIsWeighted(e, trigger, sufficiency, sqrt);
    SumsOfValues(e);
    hide Sum, Weighted, Consistency, RawScore, Values, Indicators, Sound, ExactIndex;
  }

  lemma GridStep(x: real, y: real)
    requires Round6(y) >= Round6(x) - 0.0000012
    ensures Round6(y) >= Round6(x) - 0.000001
  {
    hide Nearest;
  }

  function Threshold(rank: nat): real {
    if rank == 1 then 0.32 else if rank == 2 then 0.52 else if rank == 3 then 0.70 else 0.85
  }

  predicate AtThreshold(x: real, y: real, t: real) {
    x == t && y == x - 0.000001
  }

  /** With the rounding of the code, more of any score costs the reported index at most its last digit, and
      lowers the state exactly when the index stood at its state's threshold and lost that digit: never when it
      stood elsewhere. */
  lemma StateFallsOnlyByTheLastDigit(a: Scores, b: Scores, trigger: real, samples: nat, features: nat,
                                     sqrt: real -> real)
    requires InRange(a) && InRange(b) && MoreScores(a, b) && IsSqrt(sqrt)
    ensures
      var p := Assess(EvidenceOf(a), trigger, samples, features, sqrt);
      var q := Assess(EvidenceOf(b), trigger, samples, features, sqrt);
      && (p.index >= 0.32 ==> q.index >= p.index - 0.000001)
      && (Rank(q.state) < Rank(p.state) <==>
            Rank(p.state) > 0 && AtThreshold(p.index, q.index, Threshold(Rank(p.state))))
      && (p.index != Threshold(Rank(p.state)) ==> Rank(q.state) >= Rank(p.state))
  {
    var e, f := EvidenceOf(a), EvidenceOf(b);
    var p, q := Assess(e, trigger, samples, features, sqrt), Assess(f, trigger, samples, features, sqrt);
    EvidenceRises(a, b);
    CountRises(Indicators(e), Indicators(f), Higher(trigger, PERSISTENCE_FLOOR));
    DecisionIsExact(e, trigger, p.index);
    DecisionIsExact(f, trigger, q.index);
    if p.index >= 0.32 { LastDigit(a, b, trigger, samples, features, sqrt); }
    hide EvidenceOf, Accumulate, Indicators, DecisionState, Raised, Pointwise, Count, Higher, Consistency, Confidence,
         Sufficiency, Round6, Clip, RawIndex, Threshold, Rank;
    ThresholdsOnGrid(
      Clip(RawIndex(e, Confidence(p.accumulated.score, Sufficiency(samples, features), p.consistency))),
      Clip(RawIndex(f, Confidence(q.accumulated.score, Sufficiency(samples, features), q.consistency))));
    FallsAtThreshold(p.index, q.index, Hits(Indicators(e), trigger), Hits(Indicators(f), trigger), Rank(p.state),
                     Rank(q.state));
  }

  /** Rounded values a last digit apart can lie on both sides of a threshold only by standing at it. */
  lemma ThresholdsOnGrid(x: real, y: real)
    ensures Round6(x) - 0.000001 <= Round6(y) < 0.32 <= Round6(x) ==> AtThreshold(Round6(x), Round6(y), 0.32)
    ensures Round6(x) - 0.000001 <= Round6(y) < 0.52 <= Round6(x) ==> AtThreshold(Round6(x), Round6(y), 0.52)
    ensures Round6(x) - 0.000001 <= Round6(y) < 0.70 <= Round6(x) ==> AtThreshold(Round6(x), Round6(y), 0.70)
    ensures Round6(x) - 0.000001 <= Round6(y) < 0.85 <= Round6(x) ==> AtThreshold(Round6(x), Round6(y), 0.85)
  {
    hide Nearest;
  }

  lemma FallsAtThreshold(x: real, y: real, m: nat, n: nat, r: nat, s: nat)
    requires m <= n && r <= 4 && s <= 4 && (x >= 0.32 ==> y >= x - 0.000001)
    requires (r >= 4 <==> x >= 0.85 && m >= 5) && (s >= 4 <==> y >= 0.85 && n >= 5)
    requires (r >= 3 <==> x >= 0.70 && m >= 4) && (s >= 3 <==> y >= 0.70 && n >= 4)
    requires (r >= 2 <==> x >= 0.52 && m >= 3) && (s >= 2 <==> y >= 0.52 && n >= 3)
    requires (r >= 1 <==> x >= 0.32) && (s >= 1 <==> y >= 0.32)
    requires x - 0.000001 <= y < 0.32 <= x ==> AtThreshold(x, y, 0.32)
    requires x - 0.000001 <= y < 0.52 <= x ==> AtThreshold(x, y, 0.52)
    requires x - 0.000001 <= y < 0.70 <= x ==> AtThreshold(x, y, 0.70)
    requires x - 0.000001 <= y < 0.85 <= x ==> AtThreshold(x, y, 0.85)
    ensures s < r <==> r > 0 && AtThreshold(x, y, Threshold(r))
  {
  }

  lemma LastDigit(a: Scores, b: Scores, trigger: real, samples: nat, features: nat, sqrt: real -> real)
    requires InRange(a) && InRange(b) && MoreScores(a, b) && IsSqrt(sqrt)
    requires Assess(EvidenceOf(a), trigger, samples, features, sqrt).index >= 0.32
    ensures Assess(EvidenceOf(b), trigger, samples, features, sqrt).index
         >= Assess(EvidenceOf(a), trigger, samples, features, sqrt).index - 0.000001
  {
    var e, f, s := EvidenceOf(a), EvidenceOf(b), Sufficiency(samples, features);
    EvidenceIsSound(a);
    EvidenceIsSound(b);
    ReportedIsClose(e, trigger, samples, features, sqrt);
    ReportedIsClose(f, trigger, samples, features, sqrt);
    hide EvidenceOf, ExactIndex, Accumulate, Consistency, Sufficiency, Confidence, Indicators, Sound, Round6, RawIndex,
         Clip;
    MoreScoresNeverLowerTheIndex(a, b, trigger, s, sqrt);
    var p, q := Assess(e, trigger, samples, features, sqrt), Assess(f, trigger, samples, features, sqrt);
    GridStep(
      Clip(RawIndex(e, Confidence(p.accumulated.score, s, p.consistency))),
      Clip(RawIndex(f, Confidence(q.accumulated.score, s, q.consistency))));
  }

  // ----- It does happen -----

  const BEFORE := Scores(0.207619327, 0.02, 0.284, 0.284, 0.284, 0.749011, 0.25, 0)
  const AFTER := BEFORE.(mutualInformationDrift := 0.749012)

  lemma ValuesOf(s: Scores, mi: real)
    requires s == BEFORE.(mutualInformationDrift := mi) && InUnit(mi)
    ensures InRange(s) && EvidenceOf(s) ==
            Evidence(0.207619327, 0.014 + 0.3 * mi, 0.284, 0.284, 0.284, mi, 0.25, 0.0, 0.1625)
  {
    RegimeSteps(0);
    hide Round6;
  }

  lemma ConsistencyBefore(sqrt: real -> real)
    requires IsSqrt(sqrt)
    ensures Consistency(Values(EvidenceOf(BEFORE)), sqrt) >= 0.6552269
  {
    var xs := Values(EvidenceOf(BEFORE));
    ValuesOf(BEFORE, 0.749011);
    SumOfNine(xs, 2.459833627 / 9.0);
    assert Mean(xs) == 2.459833627 / 9.0;
    var v := Deviations(xs, Mean(xs)) / 9.0;
    assert 0.0 <= v <= Times(0.18846389, 0.18846389);
    hide Sum, Mean, Deviations, Times, EvidenceOf;
    RootAtMost(sqrt, v, 0.18846389);
    ConsistencyOf(xs, sqrt);
    QuotientRises(Spread(xs, sqrt), 0.18846389, 2.459833627 / 9.0 + TINY);
    assert 0.18846389 / (2.459833627 / 9.0 + TINY) <= 0.6895462;
  }

  lemma ConsistencyAfter(sqrt: real -> real)
    requires IsSqrt(sqrt)
    ensures Consistency(Values(EvidenceOf(AFTER)), sqrt) <= 0.65522662
  {
    var xs := Values(EvidenceOf(AFTER));
    ValuesOf(AFTER, 0.749012);
    SumOfNine(xs, 2.459834927 / 9.0);
    assert Mean(xs) == 2.459834927 / 9.0;
    var v := Deviations(xs, Mean(xs)) / 9.0;
    assert v >= Times(0.188464158, 0.188464158) >= 0.0;
    hide Sum, Mean, Deviations, Times, EvidenceOf;
    RootIsAtLeast(sqrt, v, 0.188464158);
    ConsistencyOf(xs, sqrt);
    QuotientRises(0.188464158, Spread(xs, sqrt), 2.459834927 / 9.0 + TINY);
    assert 0.188464158 / (2.459834927 / 9.0 + TINY) >= 0.68954676;
  }

  lemma CountFrom(xs: seq<real>, threshold: real, i: nat)
    requires i < |xs|
    ensures Count(xs[i..], threshold) == (if xs[i] >= threshold then 1 else 0) + Count(xs[i + 1..], threshold)
  {
    assert xs[i..][1..] == xs[i + 1..];
  }

  lemma CountOfSeven(xs: seq<real>, threshold: real)
    requires |xs| == 8 && xs[7] < threshold && forall i :: 0 <= i < 7 ==> xs[i] >= threshold
    ensures Count(xs, threshold) == 7
  {
    assert xs[0..] == xs && Count(xs[8..], threshold) == 0;
    hide Count;
    CountFrom(xs, threshold, 0);
    CountFrom(xs, threshold, 1);
    CountFrom(xs, threshold, 2);
    CountFrom(xs, threshold, 3);
    CountFrom(xs, threshold, 4);
    CountFrom(xs, threshold, 5);
    CountFrom(xs, threshold, 6);
    CountFrom(xs, threshold, 7);
  }

  lemma RoundedValues()
    ensures Round6(0.6986500110125) == 0.69865 && Round6(0.6986500597625) == 0.69865
    ensures Round6(0.812676535) == 0.812677 && Round6(0.812676493) == 0.812676
    ensures Round6(0.31999953002) == 0.32 && Round6(0.31999944502) == 0.319999 && Round6(0.4) == 0.4
  {
  }

  lemma ScoreOf(s: Scores, mi: real)
    requires s == BEFORE.(mutualInformationDrift := mi) && (mi == 0.749011 || mi == 0.749012)
    ensures Accumulate(Indicators(EvidenceOf(s)), 0.15).score == 0.69865
  {
    ValuesOf(s, mi);
    var e := EvidenceOf(s);
    CountOfSeven(Indicators(e), 0.15);
    SumsOfValues(e);
    RoundedValues();
    hide Count, Sum, Round6, EvidenceOf, Weighted;
    assert RawScore(Indicators(e), 0.15) == if mi == 0.749011 then 0.6986500110125 else 0.6986500597625;
  }

  /** What rounding makes of the index, given the consistency. */
  lemma IndexOf(s: Scores, mi: real, sqrt: real -> real)
    requires s == BEFORE.(mutualInformationDrift := mi) && (mi == 0.749011 || mi == 0.749012) && IsSqrt(sqrt)
    ensures
      var cons, index := Consistency(Values(EvidenceOf(s)), sqrt), Assess(EvidenceOf(s), 0.15, 240, 24, sqrt).index;
      && (mi == 0.749011 && cons >= 0.6552269 ==> 0.32 <= index <= 0.4)
      && (mi == 0.749012 && cons <= 0.65522662 ==> index <= 0.319999)
  {
    ValuesOf(s, mi);
    ScoreOf(s, mi);
    RoundedValues();
    var e := EvidenceOf(s);
    ConsistencyOf(Values(e), sqrt);
    var cons := Consistency(Values(e), sqrt);
    hide Round6, EvidenceOf, Consistency, Accumulate, Indicators;
    assert Sufficiency(240, 24) == 1.0;
    var raw := RawConfidence(0.69865, 1.0, cons);
    assert raw == 0.7143925 + cons * 0.15;
    var conf := Round6(Clip(raw));
    Round6KeepsUnit(Clip(raw));
    if cons >= 0.6552269 { Round6IsMonotone(0.812676535, Clip(raw)); }
    if cons <= 0.65522662 { Round6IsMonotone(Clip(raw), 0.812676493); }
    var index := RawIndex(e, conf);
    assert index == 0.21435152002 + 0.045 * (mi - 0.749011) + conf * 0.13;
    if conf >= 0.812677 { Round6IsMonotone(0.31999953002, Clip(index)); }
    if conf <= 0.812676 { Round6IsMonotone(Clip(index), 0.31999944502); }
    Round6IsMonotone(Clip(index), 0.4);
  }

  /** One more digit of mutual information takes an index at its threshold from Watch to Normal: the
      exception in StateFallsOnlyByTheLastDigit is real. */
  lemma TheLastDigitCanFall(sqrt: real -> real)
    requires IsSqrt(sqrt)
    ensures
      var p := Assess(EvidenceOf(BEFORE), 0.15, 240, 24, sqrt);
      var q := Assess(EvidenceOf(AFTER), 0.15, 240, 24, sqrt);
      && InRange(BEFORE) && InRange(AFTER) && MoreScores(BEFORE, AFTER)
      && p.state == Watch && p.index == 0.32 && q.state == Normal && q.index == 0.319999
  {
    hide EvidenceOf, Consistency, Accumulate, Indicators, Confidence, InstabilityIndex, Sufficiency, Values,
         DecisionState;
    ValuesOf(BEFORE, 0.749011);
    ValuesOf(AFTER, 0.749012);
    ConsistencyBefore(sqrt);
    ConsistencyAfter(sqrt);
    IndexOf(BEFORE, 0.749011, sqrt);
    IndexOf(AFTER, 0.749012, sqrt);
    StateFallsOnlyByTheLastDigit(BEFORE, AFTER, 0.15, 240, 24, sqrt);
    var p, q := Assess(EvidenceOf(BEFORE), 0.15, 240, 24, sqrt), Assess(EvidenceOf(AFTER), 0.15, 240, 24, sqrt);
    LowStates(p.index, p.accumulated.active, p.accumulated.persistence);
    LowStates(q.index, q.accumulated.active, q.accumulated.persistence);
  }

  lemma LowStates(index: real, active: nat, persistence: real)
    requires index < 0.52
    ensures DecisionState(index, active, persistence) == if index >= 0.32 then Watch else Normal
  {
  }
}
