/** From nine indicators to an escalation state: accumulation, confidence, index and thresholds. */
module EscalationDecision {
  import opened Common
  import opened Rounding
  import opened Relationships

  const PERSISTENCE_FLOOR := 0.22
  const CONSISTENCY_WEIGHT := 0.15
  const CAUSAL_WEIGHT := 0.13

  datatype Evidence = Evidence(
    stateDrift: real,
    relationshipDrift: real,
    varianceGrowth: real,
    entropyGrowth: real,
    acceleration: real,
    mutualInformationDrift: real,
    lagRelationshipDrift: real,
    regimeShift: real,
    topologyPropagation: real)

  /** The eight indicators that are counted, in the order of the evidence vector. */
  function Indicators(e: Evidence): (xs: seq<real>)
    ensures |xs| == 8
  {
    [e.stateDrift, e.relationshipDrift, e.varianceGrowth, e.entropyGrowth, e.acceleration,
     e.mutualInformationDrift, e.lagRelationshipDrift, e.regimeShift]
  }

  function Clip(x: real): real {
    if x < 0.0 then 0.0 else if x > 1.0 then 1.0 else x
  }

  function Count(xs: seq<real>, threshold: real): (n: nat)
    ensures n <= |xs|
  {
    if xs == [] then 0 else (if xs[0] >= threshold then 1 else 0) + Count(xs[1..], threshold)
  }

  function Sum(xs: seq<real>): real {
    if xs == [] then 0.0 else xs[0] + Sum(xs[1..])
  }

  function Mean(xs: seq<real>): real {
    if xs == [] then 0.0 else Sum(xs) / |xs| as real
  }

  // ----- Accumulation -----

  datatype Accumulated = Accumulated(score: real, active: nat, persistence: real)

  function Higher(a: real, b: real): real {
    if a < b then b else a
  }

  /** The indicators under sustained pressure. */
  function Hits(xs: seq<real>, trigger: real): nat {
    Count(xs, Higher(trigger, PERSISTENCE_FLOOR))
  }

  function RawScore(xs: seq<real>, trigger: real): real {
    Count(xs, trigger) as real / Max(|xs|, 1) as real * 0.7 + Mean(xs) * 0.3
  }

  function Accumulate(xs: seq<real>, trigger: real): Accumulated {
    Accumulated(
      Round6(Clip(RawScore(xs, trigger))),
      Count(xs, trigger),
      Round6(Clip(Hits(xs, trigger) as real / Max(|xs|, 1) as real)))
  }

  // ----- Consistency, confidence and the index -----

  function Deviations(xs: seq<real>, mean: real): real {
    if xs == [] then 0.0 else Times(xs[0] - mean, xs[0] - mean) + Deviations(xs[1..], mean)
  }

  /** One minus half the relative spread of the nine values. */
  function Consistency(xs: seq<real>, sqrt: real -> real): real {
    var mean := Mean(xs);
    if |xs| <= 1 || mean <= 0.000001 then 0.5
    else Clip(1.0 - sqrt(Deviations(xs, mean) / |xs| as real) / (mean + 0.000001) / 2.0)
  }

  function Sufficiency(samples: nat, features: nat): real {
    Clip(samples as real / 240.0 * 0.7 + features as real / 24.0 * 0.3)
  }

  function RawConfidence(score: real, sufficiency: real, consistency: real): real {
    0.15 + score * 0.45 + sufficiency * 0.25 + Clip(consistency) * CONSISTENCY_WEIGHT
  }

  function Confidence(score: real, sufficiency: real, consistency: real): real {
    Round6(Clip(RawConfidence(score, sufficiency, consistency)))
  }

  function RawIndex(e: Evidence, confidence: real): real {
    Clip(e.stateDrift) * 0.26 + Clip(e.relationshipDrift) * 0.15 + Clip(e.entropyGrowth) * 0.14
    + Clip(e.varianceGrowth) * 0.16 + Clip(e.acceleration) * 0.11 + Clip(confidence) * CAUSAL_WEIGHT
    + Clip(e.topologyPropagation) * 0.05
  }

  function InstabilityIndex(e: Evidence, confidence: real): real {
    Round6(Clip(RawIndex(e, confidence)))
  }

  // ----- The decision -----

  datatype State = Normal | Watch | Investigate | Act | Critical

  function Rank(s: State): nat {
    match s
    case Normal => 0
    case Watch => 1
    case Investigate => 2
    case Act => 3
    case Critical => 4
  }

  function DecisionState(score: real, active: nat, persistence: real): State {
    if persistence < 0.28 then (if score >= 0.32 then Watch else Normal)
    else if active < 2 then (if score >= 0.32 then Watch else Normal)
    else if score >= 0.85 && active >= 4 && persistence >= 0.55 then Critical
    else if score >= 0.70 && active >= 3 && persistence >= 0.42 then Act
    else if score >= 0.52 && active >= 2 && persistence >= 0.32 then Investigate
    else if score >= 0.32 then Watch
    else Normal
  }

  datatype Assessment = Assessment(accumulated: Accumulated, consistency: real, index: real, state: State)

  /** The whole chain, as the engine calls it. */
  function Assess(e: Evidence, trigger: real, samples: nat, features: nat, sqrt: real -> real): Assessment {
    var accumulated := Accumulate(Indicators(e), trigger);
    var consistency := Consistency(Indicators(e) + [e.topologyPropagation], sqrt);
    var index := InstabilityIndex(e, Confidence(accumulated.score, Sufficiency(samples, features), consistency));
    Assessment(accumulated, consistency, index, DecisionState(index, accumulated.active, accumulated.persistence))
  }

  // ----- Theorems -----

  lemma {:induction false} CountIsOfReaching(xs: seq<real>, threshold: real) returns (at: seq<nat>)
    ensures Selects(xs, (x: real) => x >= threshold, at) && Count(xs, threshold) == |at|
  {
    if xs == [] {
      at := [];
    } else {
      var init, last := xs[..|xs| - 1], Last(xs);
      at := CountIsOfReaching(init, threshold);
      assert xs == init + [last];
      CountAppend(init, last, threshold);
      SelectsOneMore(xs, (x: real) => x >= threshold, at);
      hide *;
      at := at + if last >= threshold then [|xs| - 1] else [];
    }
  }

  lemma {:induction false} CountAppend(xs: seq<real>, x: real, threshold: real)
    ensures Count(xs + [x], threshold) == Count(xs, threshold) + if x >= threshold then 1 else 0
  {
    if xs == [] {
      assert [] + [x] == [x] && [x][1..] == [];
    } else {
      CountAppend(xs[1..], x, threshold);
      assert (xs + [x])[1..] == xs[1..] + [x];
    }
  }

  /** The indicators that count towards a state are those that reach both the trigger and 0.22; the active ones are
      those that reach the trigger. */
  lemma HitsReachBoth(e: Evidence, trigger: real) returns (hits: seq<nat>, active: seq<nat>)
    ensures Selects(Indicators(e), (x: real) => x >= trigger && x >= 0.22, hits)
    ensures Selects(Indicators(e), (x: real) => x >= trigger, active)
    ensures Hits(Indicators(e), trigger) == |hits| && Accumulate(Indicators(e), trigger).active == |active|
  {
    hits := CountIsOfReaching(Indicators(e), Higher(trigger, PERSISTENCE_FLOOR));
    active := CountIsOfReaching(Indicators(e), trigger);
    hide Count, Indicators;
  }

  /** In integers: data suffice in full from 7 samples + 30 features >= 2400 on, and below that in proportion. */
  lemma SufficiencyInIntegers(samples: nat, features: nat)
    ensures
      var points := 7 * samples + 30 * features;
      Sufficiency(samples, features) == if points >= 2400 then 1.0 else points as real / 2400.0
  {
    assert samples as real / 240.0 * 0.7 == 7.0 * samples as real / 2400.0;
    assert features as real / 24.0 * 0.3 == 30.0 * features as real / 2400.0;
    assert (7 * samples + 30 * features) as real == 7.0 * samples as real + 30.0 * features as real;
  }

  /** With nothing observed the consistency is the neutral half, nothing is active and the state is normal. */
  lemma NothingObservedIsNormal(e: Evidence, trigger: real, samples: nat, features: nat, sqrt: real -> real)
    requires e == Evidence(0.0, 0.0, 0.0, 0.0, 0.0, 0.0, 0.0, 0.0, 0.0) && trigger > 0.0
    ensures
      var a := Assess(e, trigger, samples, features, sqrt);
      && a.consistency == 0.5 && a.accumulated == Accumulated(0.0, 0, 0.0) && a.state == Normal
      && a.index <= 0.13 && a.index == InstabilityIndex(e, Round6(0.225 + 0.25 * Sufficiency(samples, features)))
  {
    var zeros := [0.0, 0.0, 0.0, 0.0, 0.0, 0.0, 0.0, 0.0];
    assert Indicators(e) == zeros;
    NothingAccumulates(zeros, trigger);
    NoSum(zeros + [0.0], trigger);
    var suff := Sufficiency(samples, features);
    assert Consistency(zeros + [0.0], sqrt) == 0.5 && RawConfidence(0.0, suff, 0.5) == 0.225 + 0.25 * suff;
    SufficiencyIsUnit(samples, features);
    hide Count, Sum, Round6, Sufficiency, Consistency, Accumulate, InstabilityIndex, RawConfidence, Indicators;
    QuietIndex(e, Round6(0.225 + 0.25 * suff));
  }

  lemma NothingAccumulates(zeros: seq<real>, trigger: real)
    requires |zeros| == 8 && trigger > 0.0 && forall i :: 0 <= i < 8 ==> zeros[i] == 0.0
    ensures Accumulate(zeros, trigger) == Accumulated(0.0, 0, 0.0)
  {
    NoSum(zeros, trigger);
    NoSum(zeros, Higher(trigger, PERSISTENCE_FLOOR));
    Round6OfZero();
    hide Count, Sum, Round6;
  }

  lemma QuietIndex(e: Evidence, confidence: real)
    requires e == Evidence(0.0, 0.0, 0.0, 0.0, 0.0, 0.0, 0.0, 0.0, 0.0)
    ensures InstabilityIndex(e, confidence) <= 0.13
  {
    hide Round6;
    Round6IsMonotone(Clip(RawIndex(e, confidence)), 0.13);
    Round6Thirteen();
  }

  lemma {:induction false} NoSum(xs: seq<real>, t: real)
    requires t > 0.0 && forall i :: 0 <= i < |xs| ==> xs[i] == 0.0
    ensures Sum(xs) == 0.0 && Count(xs, t) == 0
  {
    if xs != [] { NoSum(xs[1..], t); }
  }

  lemma Round6OfZero()
    ensures Round6(0.0) == 0.0
  {
  }

  lemma Round6Thirteen()
    ensures Round6(0.13) == 0.13
  {
  }

  lemma SufficiencyIsUnit(samples: nat, features: nat)
    ensures 0.0 <= Sufficiency(samples, features) <= 1.0
  {
  }

  /** Neither guard in front of the thresholds ever changes the outcome, for any inputs: the thresholds
      alone read the same. */
  lemma GuardsNeverDecide(score: real, active: nat, persistence: real)
    ensures DecisionState(score, active, persistence) ==
            if score >= 0.85 && active >= 4 && persistence >= 0.55 then Critical
            else if score >= 0.70 && active >= 3 && persistence >= 0.42 then Act
            else if score >= 0.52 && active >= 2 && persistence >= 0.32 then Investigate
            else if score >= 0.32 then Watch
            else Normal
  {
  }

  lemma DecisionIsMonotone(s: real, t: real, m: nat, n: nat, p: real, q: real)
    requires s <= t && m <= n && p <= q
    ensures Rank(DecisionState(s, m, p)) <= Rank(DecisionState(t, n, q))
  {
  }

  lemma {:induction false} CountFallsWithThreshold(xs: seq<real>, low: real, high: real)
    requires low <= high
    ensures Count(xs, high) <= Count(xs, low)
  {
    if xs != [] { CountFallsWithThreshold(xs[1..], low, high); }
  }

  lemma PersistenceOfEight(hits: nat)
    requires hits <= 8
    ensures Round6(Clip(hits as real / 8.0)) == hits as real / 8.0
  {
    assert (hits as real / 8.0 * 1000000.0) == (hits * 125000) as real;
    assert (hits as real / 8.0 * 1000000.0).Floor == hits * 125000;
  }

  /** The state is decided by the index and the number of indicators at or above the larger of the
      trigger and 0.22: three of eight to investigate, four to act, five to be critical. The count of
      merely active indicators never matters. */
  lemma DecisionIsExact(e: Evidence, trigger: real, score: real)
    ensures
      var a := Accumulate(Indicators(e), trigger);
      var rank, hits := Rank(DecisionState(score, a.active, a.persistence)), Hits(Indicators(e), trigger);
      && hits <= a.active
      && (rank >= 4 <==> score >= 0.85 && hits >= 5)
      && (rank >= 3 <==> score >= 0.70 && hits >= 4)
      && (rank >= 2 <==> score >= 0.52 && hits >= 3)
      && (rank >= 1 <==> score >= 0.32)
  {
    var xs := Indicators(e);
    CountFallsWithThreshold(xs, trigger, Higher(trigger, PERSISTENCE_FLOOR));
    PersistenceOfEight(Hits(xs, trigger));
    hide Round6, Count, RawScore, DecisionState, Rank, Clip;
    DecisionOfCounts(score, Count(xs, trigger), Hits(xs, trigger));
  }

  lemma DecisionOfCounts(score: real, active: nat, hits: nat)
    requires hits <= active && hits <= 8
    ensures
      var rank := Rank(DecisionState(score, active, hits as real / 8.0));
      && (rank >= 4 <==> score >= 0.85 && hits >= 5)
      && (rank >= 3 <==> score >= 0.70 && hits >= 4)
      && (rank >= 2 <==> score >= 0.52 && hits >= 3)
      && (rank >= 1 <==> score >= 0.32)
  {
  }

  predicate InUnit(x: real) {
    0.0 <= x <= 1.0
  }

  predicate Sound(e: Evidence) {
    InUnit(e.topologyPropagation) && forall x :: x in Indicators(e) ==> InUnit(x)
  }

  lemma {:induction false} SumOfUnits(xs: seq<real>)
    requires forall x :: x in xs ==> InUnit(x)
    ensures 0.0 <= Sum(xs) <= |xs| as real
  {
    if xs != [] {
      assert xs[0] in xs && forall x :: x in xs[1..] ==> x in xs;
      SumOfUnits(xs[1..]);
    }
  }

  /** With indicators between 0 and 1 no clamp in the chain ever acts: every weighted sum is already
      between 0 and 1. */
  lemma ClampsNeverAct(e: Evidence, trigger: real, sufficiency: real, consistency: real)
    requires Sound(e) && InUnit(sufficiency) && InUnit(consistency)
    ensures
      var score := Accumulate(Indicators(e), trigger).score;
      var confidence := Confidence(score, sufficiency, consistency);
      && InUnit(RawScore(Indicators(e), trigger)) && InUnit(score)
      && 0.15 <= RawConfidence(score, sufficiency, consistency) <= 1.0 && InUnit(confidence)
      && InUnit(RawIndex(e, confidence)) && InUnit(InstabilityIndex(e, confidence))
  {
    var xs := Indicators(e);
    SumOfUnits(xs);
    assert InUnit(RawScore(xs, trigger));
    Round6KeepsUnit(RawScore(xs, trigger));
    var score := Accumulate(xs, trigger).score;
    hide Round6, Count, Sum;
    Round6KeepsUnit(RawConfidence(score, sufficiency, consistency));
    var confidence := Confidence(score, sufficiency, consistency);
    assert forall i :: 0 <= i < 8 ==> xs[i] in xs;
    assert InUnit(xs[0]) && InUnit(xs[1]) && InUnit(xs[2]) && InUnit(xs[3]) && InUnit(xs[4]);
    Round6KeepsUnit(RawIndex(e, confidence));
  }

  /** No critical state without state drift of at least 0.423 and variance growth of at least 0.0624,
      whatever the other indicators and the confidence. */
  lemma CriticalNeedsDriftAndVariance(e: Evidence, confidence: real, active: nat, persistence: real)
    requires DecisionState(InstabilityIndex(e, confidence), active, persistence) == Critical
    ensures e.stateDrift >= 0.423 && e.varianceGrowth >= 0.0624
  {
    var raw := RawIndex(e, confidence);
    hide Round6;
    Round6IsClose(Clip(raw));
    assert raw >= 0.8499995;
    hide Clip;
    ClipBounds(e.stateDrift);
    ClipBounds(e.relationshipDrift);
    ClipBounds(e.entropyGrowth);
    ClipBounds(e.varianceGrowth);
    ClipBounds(e.acceleration);
    ClipBounds(confidence);
    ClipBounds(e.topologyPropagation);
  }

  lemma ClipBounds(x: real)
    ensures 0.0 <= Clip(x) <= 1.0 && (Clip(x) > 0.0 ==> Clip(x) <= x)
  {
  }

  // ----- More evidence -----

  lemma ClipRises(x: real, y: real)
    requires x <= y
    ensures 0.0 <= Clip(x) <= Clip(y) <= 1.0
  {
  }

  ghost predicate Pointwise(xs: seq<real>, ys: seq<real>) {
    |xs| == |ys| && forall i :: 0 <= i < |xs| ==> xs[i] <= ys[i]
  }

  /** No component of `e` exceeds that of `f`. */
  ghost predicate Raised(e: Evidence, f: Evidence) {
    e.topologyPropagation <= f.topologyPropagation && Pointwise(Indicators(e), Indicators(f))
  }

  lemma {:induction false} CountRises(xs: seq<real>, ys: seq<real>, threshold: real)
    requires Pointwise(xs, ys)
    ensures Count(xs, threshold) <= Count(ys, threshold)
  {
    if xs != [] { CountRises(xs[1..], ys[1..], threshold); }
  }

  lemma {:induction false} SumRises(xs: seq<real>, ys: seq<real>)
    requires Pointwise(xs, ys)
    ensures Sum(xs) <= Sum(ys)
  {
    if xs != [] { SumRises(xs[1..], ys[1..]); }
  }

  lemma ScoreRises(xs: seq<real>, ys: seq<real>, trigger: real)
    requires Pointwise(xs, ys)
    ensures RawScore(xs, trigger) <= RawScore(ys, trigger)
  {
    CountRises(xs, ys, trigger);
    SumRises(xs, ys);
    hide Count, Sum;
    var n := Max(|xs|, 1) as real;
    QuotientRises(Count(xs, trigger) as real, Count(ys, trigger) as real, n);
    QuotientRises(Sum(xs), Sum(ys), n);
  }

  lemma ReportedRises(x: real, y: real)
    requires x <= y
    ensures Round6(Clip(x)) <= Round6(Clip(y))
  {
    Round6IsMonotone(Clip(x), Clip(y));
  }

  lemma PersistenceRises(m: nat, n: nat, k: nat)
    requires m <= n && k > 0
    ensures Round6(Clip(m as real / k as real)) <= Round6(Clip(n as real / k as real))
  {
    hide Round6, Clip;
    QuotientRises(m as real, n as real, k as real);
    ReportedRises(m as real / k as real, n as real / k as real);
  }

  lemma AccumulationRises(xs: seq<real>, ys: seq<real>, trigger: real)
    requires Pointwise(xs, ys)
    ensures
      var a, b := Accumulate(xs, trigger), Accumulate(ys, trigger);
      a.score <= b.score && a.active <= b.active && a.persistence <= b.persistence
  {
    hide Round6, Count, Sum, Clip, RawScore, Higher;
    CountRises(xs, ys, trigger);
    CountRises(xs, ys, Higher(trigger, PERSISTENCE_FLOOR));
    ScoreRises(xs, ys, trigger);
    ReportedRises(RawScore(xs, trigger), RawScore(ys, trigger));
    PersistenceRises(Hits(xs, trigger), Hits(ys, trigger), Max(|xs|, 1));
  }

  /** Raising indicators cannot lower the index, except through the confidence. */
  lemma ComponentsRise(e: Evidence, f: Evidence, c: real, d: real)
    requires Raised(e, f)
    ensures RawIndex(f, d) >= RawIndex(e, c) + (Clip(d) - Clip(c)) * CAUSAL_WEIGHT
  {
    var xs, ys := Indicators(e), Indicators(f);
    assert xs[0] <= ys[0] && xs[1] <= ys[1] && xs[2] <= ys[2] && xs[3] <= ys[3] && xs[4] <= ys[4];
    hide Clip;
    ClipRises(e.stateDrift, f.stateDrift);
    ClipRises(e.relationshipDrift, f.relationshipDrift);
    ClipRises(e.varianceGrowth, f.varianceGrowth);
    ClipRises(e.entropyGrowth, f.entropyGrowth);
    ClipRises(e.acceleration, f.acceleration);
    ClipRises(e.topologyPropagation, f.topologyPropagation);
  }

  lemma IndexRises(e: Evidence, f: Evidence, c: real, d: real)
    requires Raised(e, f) && c <= d
    ensures InstabilityIndex(e, c) <= InstabilityIndex(f, d)
  {
    hide Round6, Clip, Indicators;
    ComponentsRise(e, f, c, d);
    ClipRises(c, d);
    ClipRises(RawIndex(e, c), RawIndex(f, d));
    Round6IsMonotone(Clip(RawIndex(e, c)), Clip(RawIndex(f, d)));
  }

  /** More evidence never lowers the state, as long as it is no less consistent. */
  lemma ConsistentEvidenceNeverLowersTheState(
    e: Evidence, f: Evidence, trigger: real, samples: nat, features: nat, sqrt: real -> real)
    requires Raised(e, f)
    requires Assess(e, trigger, samples, features, sqrt).consistency <=
             Assess(f, trigger, samples, features, sqrt).consistency
    ensures Rank(Assess(e, trigger, samples, features, sqrt).state) <=
            Rank(Assess(f, trigger, samples, features, sqrt).state)
    ensures Assess(e, trigger, samples, features, sqrt).index <= Assess(f, trigger, samples, features, sqrt).index
  {
    var a, b := Assess(e, trigger, samples, features, sqrt), Assess(f, trigger, samples, features, sqrt);
    var s := Sufficiency(samples, features);
    AccumulationRises(Indicators(e), Indicators(f), trigger);
    hide Round6, Count, Sum, Indicators, Accumulate, Consistency, Sufficiency, InstabilityIndex;
    Round6IsMonotone(
      Clip(RawConfidence(a.accumulated.score, s, a.consistency)),
      Clip(RawConfidence(b.accumulated.score, s, b.consistency)));
    IndexRises(e, f, Confidence(a.accumulated.score, s, a.consistency),
               Confidence(b.accumulated.score, s, b.consistency));
    DecisionIsMonotone(
      a.index, b.index, a.accumulated.active, b.accumulated.active,
      a.accumulated.persistence, b.accumulated.persistence);
  }

  lemma ReportedDrops(x: real, y: real, k: real)
    requires k >= 0.0 && y >= x - k
    ensures Round6(Clip(y)) >= Round6(Clip(x)) - k - 0.000001
  {
    Round6IsClose(Clip(x));
    Round6IsClose(Clip(y));
  }

  lemma ConfidenceDropsLittle(score: real, higher: real, sufficiency: real, c: real, d: real)
    requires score <= higher
    ensures Confidence(higher, sufficiency, d) >= Confidence(score, sufficiency, c) - 0.150001
  {
    hide Round6;
    ReportedDrops(RawConfidence(score, sufficiency, c), RawConfidence(higher, sufficiency, d), CONSISTENCY_WEIGHT);
  }

  lemma IndexDropsLittle(e: Evidence, f: Evidence, c: real, d: real)
    requires Raised(e, f) && d >= c - 0.150001
    ensures InstabilityIndex(f, d) >= InstabilityIndex(e, c) - 0.0196
  {
    hide Round6, Indicators;
    ComponentsRise(e, f, c, d);
    assert Clip(d) >= Clip(c) - 0.150001;
    hide Clip, RawIndex;
    ReportedDrops(RawIndex(e, c), RawIndex(f, d), 0.150001 * CAUSAL_WEIGHT);
  }

  /** Whatever happens to the consistency, more evidence costs the index at most 0.0196. */
  lemma MoreEvidenceCostsLittle(
    e: Evidence, f: Evidence, trigger: real, samples: nat, features: nat, sqrt: real -> real)
    requires Raised(e, f)
    ensures Assess(f, trigger, samples, features, sqrt).index
            >= Assess(e, trigger, samples, features, sqrt).index - 0.0196
  {
    hide Accumulate, Consistency, Sufficiency, Confidence, InstabilityIndex, Indicators;
    var a, b := Assess(e, trigger, samples, features, sqrt), Assess(f, trigger, samples, features, sqrt);
    var s := Sufficiency(samples, features);
    AccumulationRises(Indicators(e), Indicators(f), trigger);
    ConfidenceDropsLittle(a.accumulated.score, b.accumulated.score, s, a.consistency, b.consistency);
    IndexDropsLittle(
      e, f, Confidence(a.accumulated.score, s, a.consistency), Confidence(b.accumulated.score, s, b.consistency));
  }

  /** More evidence lowers the state by one step at most. */
  lemma MoreEvidenceLowersTheStateByOneStepAtMost(
    e: Evidence, f: Evidence, trigger: real, samples: nat, features: nat, sqrt: real -> real)
    requires Raised(e, f)
    ensures Rank(Assess(f, trigger, samples, features, sqrt).state)
            >= Rank(Assess(e, trigger, samples, features, sqrt).state) - 1
  {
    hide Accumulate, Consistency, Sufficiency, Confidence, InstabilityIndex, Indicators, DecisionState, Count, Higher;
    var a, b := Assess(e, trigger, samples, features, sqrt), Assess(f, trigger, samples, features, sqrt);
    MoreEvidenceCostsLittle(e, f, trigger, samples, features, sqrt);
    CountRises(Indicators(e), Indicators(f), Higher(trigger, PERSISTENCE_FLOOR));
    DecisionIsExact(e, trigger, a.index);
    DecisionIsExact(f, trigger, b.index);
  }

  // ----- The nine values -----

  function Values(e: Evidence): (xs: seq<real>)
    ensures |xs| == 9
  {
    Indicators(e) + [e.topologyPropagation]
  }

  lemma {:induction false} SumOfEqual(xs: seq<real>, level: real)
    requires forall x :: x in xs ==> x == level
    ensures Sum(xs) == |xs| as real * level
    ensures Deviations(xs, level) == 0.0
  {
    if xs != [] {
      assert xs[0] in xs && forall x :: x in xs[1..] ==> x in xs;
      SumOfEqual(xs[1..], level);
      assert Times(0.0, 0.0) == 0.0;
    }
  }

  /** Indicators that all agree are fully consistent. */
  lemma EqualValuesAreConsistent(xs: seq<real>, level: real, sqrt: real -> real)
    requires IsSqrt(sqrt) && |xs| > 1 && level > 0.000001
    requires forall x :: x in xs ==> x == level
    ensures Consistency(xs, sqrt) == 1.0
  {
    SumOfEqual(xs, level);
    assert Mean(xs) == level;
    RootsAreEqual(sqrt(0.0), 0.0);
  }

  lemma SumOfNine(xs: seq<real>, mean: real)
    requires |xs| == 9
    ensures Sum(xs) == xs[0] + xs[1] + xs[2] + xs[3] + xs[4] + xs[5] + xs[6] + xs[7] + xs[8]
    ensures Deviations(xs, mean) ==
            Times(xs[0] - mean, xs[0] - mean) + Times(xs[1] - mean, xs[1] - mean) + Times(xs[2] - mean, xs[2] - mean)
            + Times(xs[3] - mean, xs[3] - mean) + Times(xs[4] - mean, xs[4] - mean) + Times(xs[5] - mean, xs[5] - mean)
            + Times(xs[6] - mean, xs[6] - mean) + Times(xs[7] - mean, xs[7] - mean) + Times(xs[8] - mean, xs[8] - mean)
  {
    hide Sum, Deviations, Times;
    assert xs[0..] == xs;
    SumFrom(xs, mean, 0);
    SumFrom(xs, mean, 1);
    SumFrom(xs, mean, 2);
    SumFrom(xs, mean, 3);
    SumFrom(xs, mean, 4);
    SumFrom(xs, mean, 5);
    SumFrom(xs, mean, 6);
    SumFrom(xs, mean, 7);
    SumFrom(xs, mean, 8);
  }

  lemma SumFrom(xs: seq<real>, mean: real, i: nat)
    requires i < |xs|
    ensures Sum(xs[i..]) == xs[i] + (if i + 1 == |xs| then 0.0 else Sum(xs[i + 1..]))
    ensures Deviations(xs[i..], mean) ==
            Times(xs[i] - mean, xs[i] - mean) + (if i + 1 == |xs| then 0.0 else Deviations(xs[i + 1..], mean))
  {
    hide Times;
    assert xs[i..][1..] == xs[i + 1..];
  }

  lemma {:induction false} SumAppend(xs: seq<real>, x: real)
    ensures Sum(xs + [x]) == Sum(xs) + x
  {
    if xs == [] {
      assert xs + [x] == [x];
    } else {
      assert (xs + [x])[1..] == xs[1..] + [x];
      SumAppend(xs[1..], x);
    }
  }

  lemma RootIsAtLeast(sqrt: real -> real, v: real, r: real)
    requires IsSqrt(sqrt) && v >= 0.0 && r >= 0.0 && Times(r, r) <= v
    ensures sqrt(v) >= r
  {
    hide Times;
    if sqrt(v) < r { SquaresAreMonotone(sqrt(v), r); }
  }
}
