/** The structural replay: frames laid out along the canonical flow, and the validator that grades them. */
module ReplayTimeline {
  import opened Common
  import opened Rounding

  datatype Phase =
    | StableTopology
    | RelationshipWeakening
    | PressureMigration
    | ArchetypeEmergence
    | PropagationActivation
    | StructuralFragmentation
    | ContinuationPathways
    | RecoveryOrEscalation

  const CANONICAL_FLOW := [
    StableTopology, RelationshipWeakening, PressureMigration, ArchetypeEmergence,
    PropagationActivation, StructuralFragmentation, ContinuationPathways, RecoveryOrEscalation]

  /** Four minutes, in microseconds. */
  const FRAME_SPACING := 240000000

  /** What the validator and the range queries read of a frame; a supplied frame may lack a phase. */
  datatype Frame = Frame(timestamp: int, phase: Option<Phase>, drift: real, tier: string)

  // ----- The layout of a timeline -----

  /** `min(7, int(t * 8))`. */
  function PhaseIndex(t: real): (k: nat)
    requires t >= 0.0
    ensures k < 8
  {
    if (t * 8.0).Floor < 7 then (t * 8.0).Floor else 7
  }

  function Progress(index: nat, intervals: int): (t: real)
    requires index < intervals
    ensures 0.0 <= t <= 1.0
  {
    index as real / (if intervals - 1 > 1 then intervals - 1 else 1) as real
  }

  function DriftIndex(t: real): real {
    Round4(if 0.12 + t * 0.88 < 1.0 then 0.12 + t * 0.88 else 1.0)
  }

  function FrameAt(base: int, index: nat, intervals: int, compression: int, tier: string): Frame
    requires index < intervals
  {
    var t := Progress(index, intervals);
    Frame(base - (intervals - index) * compression * FRAME_SPACING,
          Some(CANONICAL_FLOW[PhaseIndex(t)]), DriftIndex(t), tier)
  }

  /** The timeline of `intervals` frames before `base`; empty when `intervals` is not positive. */
  function Timeline(base: int, intervals: int, compression: int, tier: string): (frames: seq<Frame>)
    ensures |frames| == if intervals < 0 then 0 else intervals
    ensures forall i :: 0 <= i < |frames| ==> frames[i] == FrameAt(base, i, intervals, compression, tier)
  {
    seq(if intervals < 0 then 0 else intervals,
        i requires 0 <= i < intervals => FrameAt(base, i, intervals, compression, tier))
  }

  /** `_frames_from_intelligence`. */
  method FramesFromIntelligence(base: int, intervals: int, compression: int, tier: string) returns (frames: seq<Frame>)
    ensures frames == Timeline(base, intervals, compression, tier)
  {
    frames := [];
    var index := 0;
    while index < intervals
      invariant 0 <= index && (index <= intervals || index == 0)
      invariant |frames| == index
      invariant forall i :: 0 <= i < index ==> frames[i] == FrameAt(base, i, intervals, compression, tier)
    {
      frames := frames + [FrameAt(base, index, intervals, compression, tier)];
      index := index + 1;
    }
  }

  /** `max(6, min(intervals, 80))`. */
  function SafeIntervals(intervals: int): (n: int)
    ensures 6 <= n <= 80
    ensures 6 <= intervals <= 80 ==> n == intervals
  {
    if intervals > 80 then 80 else if intervals < 6 then 6 else intervals
  }

  method BuildTimeline(base: int, intervals: int, compression: int, tier: string) returns (frames: seq<Frame>)
    ensures frames == Timeline(base, SafeIntervals(intervals), if compression < 1 then 1 else compression, tier)
  {
    frames := FramesFromIntelligence(base, SafeIntervals(intervals), if compression < 1 then 1 else compression, tier);
  }

  // ----- The validator -----

  datatype Consistency = High | Moderate | Low
  datatype Continuity = StableContinuity | ModerateContinuity | LowContinuity
  datatype Tracking = CoherentTracking | PartialTracking | InconsistentTracking | Unavailable

  function Phases(timeline: seq<Frame>): set<Phase> {
    set f | f in timeline && f.phase.Some? :: f.phase.value
  }

  function ReplayConsistency(timeline: seq<Frame>): Consistency {
    if |Phases(timeline)| >= 6 then High
    else if |Phases(timeline)| >= 4 then Moderate
    else Low
  }

  /** The frames whose confidence tier differs from the one before. */
  function TierShifts(timeline: seq<Frame>): seq<nat> {
    Picks((i: nat) => 1 <= i < |timeline| && timeline[i].tier != timeline[i - 1].tier, |timeline|)
  }

  function ContinuityOf(timeline: seq<Frame>): Continuity {
    if |TierShifts(timeline)| <= 4 then StableContinuity
    else if |TierShifts(timeline)| <= 8 then ModerateContinuity
    else LowContinuity
  }

  /** The frames whose drift is no lower than the one before. */
  function Ascents(timeline: seq<Frame>): seq<nat> {
    Picks((i: nat) => 1 <= i < |timeline| && timeline[i].drift >= timeline[i - 1].drift, |timeline|)
  }

  function TopologyTracking(timeline: seq<Frame>): Tracking {
    if timeline == [] then Unavailable
    else
      var ratio := |Ascents(timeline)| as real / Max(|timeline| - 1, 1) as real;
      if ratio >= 0.75 then CoherentTracking
      else if ratio >= 0.5 then PartialTracking
      else InconsistentTracking
  }

  // ----- Time and phase move forward -----

  lemma ProgressRises(i: nat, j: nat, intervals: int)
    requires i <= j < intervals
    ensures Progress(i, intervals) <= Progress(j, intervals)
  {
    QuotientRises(i as real, j as real, (if intervals - 1 > 1 then intervals - 1 else 1) as real);
  }

  lemma SpacingScales(a: int, b: int, compression: int)
    requires a < b && compression >= 1
    ensures a * compression < b * compression
  {
  }

  /** Timestamps strictly increase and all lie before the base instant; phases never step back along the
      canonical flow; the drift never falls. */
  lemma TimelineMovesForward(base: int, intervals: int, compression: int, tier: string, i: nat, j: nat)
    requires i < j < intervals && compression >= 1
    ensures
      var frames := Timeline(base, intervals, compression, tier);
      && frames[i].timestamp < frames[j].timestamp < base
      && PhaseIndex(Progress(i, intervals)) <= PhaseIndex(Progress(j, intervals))
      && frames[i].drift <= frames[j].drift
  {
    ProgressRises(i, j, intervals);
    hide Round4, Progress;
    SpacingScales(intervals - j, intervals - i, compression);
    SpacingScales(0, intervals - j, compression);
    var t, u := Progress(i, intervals), Progress(j, intervals);
    Round4IsMonotone(
      if 0.12 + t * 0.88 < 1.0 then 0.12 + t * 0.88 else 1.0, if 0.12 + u * 0.88 < 1.0 then 0.12 + u * 0.88 else 1.0);
  }

  /** A timeline of two or more frames runs from the first phase at drift 0.12 to the last at drift 1, and
      ends one frame spacing before the base instant. */
  lemma TimelineSpansTheFlow(base: int, intervals: int, compression: int, tier: string)
    requires intervals >= 2
    ensures
      var frames := Timeline(base, intervals, compression, tier);
      && frames[0].phase == Some(StableTopology) && frames[0].drift == 0.12
      && Last(frames).phase == Some(RecoveryOrEscalation) && Last(frames).drift == 1.0
      && Last(frames).timestamp == base - compression * FRAME_SPACING
  {
    RatioOfEquals((intervals - 1) as real);
    assert Progress(0, intervals) == 0.0 && Progress(intervals - 1, intervals) == 1.0;
    assert (0.12 * 10000.0).Floor == 1200 && (1.0 * 10000.0).Floor == 10000 && (8.0).Floor == 8;
    hide Progress;
  }

  // ----- How many phases appear -----

  /** In integers: frame i of n shows phase 8i / (n - 1), capped at the last. */
  lemma PhaseInIntegers(i: nat, n: int)
    requires i < n && n >= 2
    ensures PhaseIndex(Progress(i, n)) == if 8 * i / (n - 1) < 7 then 8 * i / (n - 1) else 7
  {
    FloorOfQuotient(8 * i, n - 1);
    assert Progress(i, n) * 8.0 == (8 * i) as real / (n - 1) as real;
  }

  lemma FloorOfQuotient(a: nat, m: nat)
    requires m > 0
    ensures (a as real / m as real).Floor == a / m
  {
    var q, r := a / m, a % m;
    assert a == q * m + r;
    RealForm(a, q, m, r);
  }

  lemma RealForm(a: nat, q: nat, m: nat, r: nat)
    requires r < m && a == q * m + r
    ensures q as real <= a as real / m as real < q as real + 1.0
  {
    var k := m as real;
    QuotientRises(q as real * k, a as real, k);
    QuotientBelow(a as real, q as real + 1.0, k);
  }

  lemma QuotientBelow(a: real, b: real, k: real)
    requires k > 0.0 && a < b * k
    ensures a / k < b
  {
    var gap := b - a / k;
    assert gap * k == b * k - a;
    assert gap * k > 0.0;
    Positive(gap, k);
  }

  lemma Positive(gap: real, k: real)
    requires k > 0.0 && gap * k > 0.0
    ensures gap > 0.0
  {
  }

  /** Frame i of n shows at least phase k exactly from this index on. */
  lemma PhaseReached(i: nat, n: int, k: nat)
    requires i < n && n >= 2 && k <= 7
    ensures PhaseIndex(Progress(i, n)) >= k <==> 8 * i >= k * (n - 1)
  {
    PhaseInIntegers(i, n);
    QuotientAtLeast(8 * i, n - 1, k);
  }

  lemma QuotientAtLeast(a: nat, m: nat, k: nat)
    requires m > 0
    ensures a / m >= k <==> a >= k * m
  {
    var q := a / m;
    assert q * m <= a < (q + 1) * m;
    if q >= k { ProductsRise(k, q, m); } else { ProductsRise(q + 1, k, m); }
  }

  lemma ProductsRise(a: nat, b: nat, m: nat)
    requires a <= b
    ensures a * m <= b * m
  {
  }

  /** A timeline of n frames shows min(n, 8) phases: with up to eight frames every frame enters a new
      one, with eight or more none is skipped. */
  lemma DistinctPhases(base: int, intervals: int, compression: int, tier: string)
    ensures |Phases(Timeline(base, intervals, compression, tier))| ==
            if intervals < 0 then 0 else if intervals < 8 then intervals else 8
  {
    var frames := Timeline(base, intervals, compression, tier);
    if intervals >= 8 {
      forall k: nat | k < 8
        ensures CANONICAL_FLOW[k] in Phases(frames)
      {
        var i := FirstFrameOf(intervals, k);
        assert frames[i] in frames;
      }
      AllPhases(Phases(frames));
    } else if intervals >= 0 {
      assert frames[..intervals] == frames;
      EachFrameIsNew(base, intervals, compression, tier, intervals);
    }
  }

  /** The first frame of phase k, in a timeline that skips none. */
  lemma FirstFrameOf(n: int, k: nat) returns (i: nat)
    requires n >= 8 && k <= 7
    ensures i < n && PhaseIndex(Progress(i, n)) == k
  {
    i := (k * (n - 1) + 7) / 8;
    assert k * (n - 1) <= 8 * i <= k * (n - 1) + 7;
    ProductsRise(k, 7, n - 1);
    PhaseReached(i, n, k);
    assert n == 8 ==> i == k;
    if k < 7 {
      assert (k + 1) * (n - 1) == k * (n - 1) + n - 1;
      PhaseReached(i, n, k + 1);
    }
  }

  lemma AllPhases(shown: set<Phase>)
    requires forall k: nat :: k < 8 ==> CANONICAL_FLOW[k] in shown
    ensures |shown| == 8
  {
    assert CANONICAL_FLOW[0] in shown && CANONICAL_FLOW[1] in shown && CANONICAL_FLOW[2] in shown
           && CANONICAL_FLOW[3] in shown;
    assert CANONICAL_FLOW[4] in shown && CANONICAL_FLOW[5] in shown && CANONICAL_FLOW[6] in shown
           && CANONICAL_FLOW[7] in shown;
    var all := {StableTopology, RelationshipWeakening, PressureMigration, ArchetypeEmergence,
                PropagationActivation, StructuralFragmentation, ContinuationPathways, RecoveryOrEscalation};
    forall p: Phase
      ensures p in shown && p in all
    {
      match p
      case StableTopology =>
      case RelationshipWeakening =>
      case PressureMigration =>
      case ArchetypeEmergence =>
      case PropagationActivation =>
      case StructuralFragmentation =>
      case ContinuationPathways =>
      case RecoveryOrEscalation =>
    }
    assert |all| == 8;
    assert shown == all;
  }

  lemma StepsForward(i: nat, n: int)
    requires i + 1 < n < 8
    ensures PhaseIndex(Progress(i, n)) < PhaseIndex(Progress(i + 1, n))
  {
    hide PhaseIndex, Progress;
    var p := PhaseIndex(Progress(i, n));
    PhaseReached(i, n, p);
    PhaseReached(i, n, 7);
    assert (p + 1) * (n - 1) == p * (n - 1) + n - 1;
    PhaseReached(i + 1, n, if p < 7 then p + 1 else 7);
  }

  lemma PhasesAppend(frames: seq<Frame>, f: Frame)
    requires f.phase.Some?
    ensures Phases(frames + [f]) == Phases(frames) + {f.phase.value}
  {
    assert f in frames + [f];
    assert forall g :: g in frames + [f] <==> g in frames || g == f;
  }

  lemma FlowIsInjective(j: nat, k: nat)
    requires j < 8 && k < 8 && CANONICAL_FLOW[j] == CANONICAL_FLOW[k]
    ensures j == k
  {
  }

  /** The phase of the i-th of n frames. */
  function PhaseOf(i: nat, n: int): Phase
    requires i < n
  {
    CANONICAL_FLOW[PhaseIndex(Progress(i, n))]
  }

  lemma PhasesDiffer(i: nat, j: nat, n: int)
    requires i < j < n < 8
    ensures PhaseOf(i, n) != PhaseOf(j, n)
  {
    hide PhaseIndex, Progress;
    StepsForward(j - 1, n);
    PhasesRise(i, j - 1, n);
    if PhaseOf(i, n) == PhaseOf(j, n) {
      FlowIsInjective(PhaseIndex(Progress(i, n)), PhaseIndex(Progress(j, n)));
    }
  }

  lemma PhasesRise(i: nat, j: nat, n: int)
    requires i <= j < n
    ensures PhaseIndex(Progress(i, n)) <= PhaseIndex(Progress(j, n))
  {
    ProgressRises(i, j, n);
  }

  lemma PhaseIsNew(base: int, n: int, compression: int, tier: string, i: nat)
    requires i < n < 8
    ensures PhaseOf(i, n) !in Phases(Timeline(base, n, compression, tier)[..i])
  {
    var frames := Timeline(base, n, compression, tier);
    forall f | f in frames[..i]
      ensures f.phase != Some(PhaseOf(i, n))
    {
      var j :| 0 <= j < i && frames[j] == f;
      PhaseOfFrame(base, n, compression, tier, j);
      hide PhaseOf, FrameAt;
      PhasesDiffer(j, i, n);
    }
  }

  lemma PhaseOfFrame(base: int, n: int, compression: int, tier: string, i: nat)
    requires i < n
    ensures Timeline(base, n, compression, tier)[i].phase == Some(PhaseOf(i, n))
  {
  }

  lemma PhasesOneMore(base: int, n: int, compression: int, tier: string, i: nat)
    requires i < n
    ensures
      var frames := Timeline(base, n, compression, tier);
      Phases(frames[..i + 1]) == Phases(frames[..i]) + {PhaseOf(i, n)}
  {
    var frames := Timeline(base, n, compression, tier);
    PhaseOfFrame(base, n, compression, tier, i);
    hide PhaseOf, FrameAt, Phases;
    assert frames[..i + 1] == frames[..i] + [frames[i]];
    PhasesAppend(frames[..i], frames[i]);
  }

  lemma NoPhases(frames: seq<Frame>)
    ensures Phases(frames[..0]) == {}
  {
  }

  lemma {:induction false} EachFrameIsNew(base: int, n: int, compression: int, tier: string, shown: nat)
    requires shown <= n < 8
    ensures |Phases(Timeline(base, n, compression, tier)[..shown])| == shown
  {
    NoPhases(Timeline(base, n, compression, tier));
    hide PhaseOf, FrameAt, Phases, Timeline;
    if shown > 0 {
      EachFrameIsNew(base, n, compression, tier, shown - 1);
      PhaseIsNew(base, n, compression, tier, shown - 1);
      PhasesOneMore(base, n, compression, tier, shown - 1);
    }
  }

  /** Frame i of n: four minutes apart times the compression, ending one spacing before the base, each showing the
      phase of its eighth of the canonical flow, in the tier given. */
  lemma FrameIsLaidOut(base: int, intervals: int, compression: int, tier: string, i: nat)
    requires i < intervals
    ensures
      var frame := Timeline(base, intervals, compression, tier)[i];
      var eighth := if intervals == 1 then 0 else 8 * i / (intervals - 1);
      && frame.timestamp == base - (intervals - i) * compression * (4 * 60 * 1_000_000) && frame.tier == tier
      && frame.phase == Some([StableTopology, RelationshipWeakening, PressureMigration, ArchetypeEmergence,
                              PropagationActivation, StructuralFragmentation, ContinuationPathways,
                              RecoveryOrEscalation][if eighth > 7 then 7 else eighth])
  {
    if intervals > 1 { PhaseInIntegers(i, intervals); }
    hide DriftIndex;
  }

  /** The drift rises in a straight line from 0.12 at the first frame to 1 at the last, up to rounding to four
      decimals. */
  lemma DriftIsLinear(base: int, intervals: int, compression: int, tier: string, i: nat)
    requires i < intervals
    ensures
      var drift := Timeline(base, intervals, compression, tier)[i].drift;
      var line := 0.12 + 0.88 * (if intervals == 1 then 0.0 else i as real / (intervals - 1) as real);
      line - 0.00005 <= drift <= line + 0.00005
  {
    var t := Progress(i, intervals);
    assert 0.12 + t * 0.88 <= 1.0;
    Round4IsClose(0.12 + t * 0.88);
    hide PhaseIndex, Round4;
  }

  // ----- The grades -----

  /** The grades of any timeline, by counting: `ups` are the frames no lower in drift than the one before, `shifts`
      those of another tier. */
  lemma GradesByCounting(frames: seq<Frame>) returns (ups: seq<nat>, shifts: seq<nat>)
    ensures forall a, b :: 0 <= a < b < |ups| ==> ups[a] < ups[b]
    ensures forall i: nat :: i in ups <==> 1 <= i < |frames| && frames[i].drift >= frames[i - 1].drift
    ensures forall a, b :: 0 <= a < b < |shifts| ==> shifts[a] < shifts[b]
    ensures forall i: nat :: i in shifts <==> 1 <= i < |frames| && frames[i].tier != frames[i - 1].tier
    ensures ContinuityOf(frames) ==
            if |shifts| <= 4 then StableContinuity else if |shifts| <= 8 then ModerateContinuity else LowContinuity
    ensures
      var steps := if |frames| <= 1 then 1 else |frames| - 1;
      TopologyTracking(frames) ==
        if frames == [] then Unavailable
        else if 4 * |ups| >= 3 * steps then CoherentTracking
        else if 2 * |ups| >= steps then PartialTracking
        else InconsistentTracking
  {
    ups, shifts := Ascents(frames), TierShifts(frames);
    AscentsExact(frames);
    TierShiftsExact(frames);
    TrackingInIntegers(frames);
    hide Ascents, TierShifts, TopologyTracking;
  }

  lemma AscentsExact(frames: seq<Frame>)
    ensures forall a, b :: 0 <= a < b < |Ascents(frames)| ==> Ascents(frames)[a] < Ascents(frames)[b]
    ensures forall i: nat :: i in Ascents(frames) <==> 1 <= i < |frames| && frames[i].drift >= frames[i - 1].drift
  {
    hide Picks;
    PicksExact((i: nat) => 1 <= i < |frames| && frames[i].drift >= frames[i - 1].drift, |frames|);
  }

  lemma TierShiftsExact(frames: seq<Frame>)
    ensures forall a, b :: 0 <= a < b < |TierShifts(frames)| ==> TierShifts(frames)[a] < TierShifts(frames)[b]
    ensures forall i: nat :: i in TierShifts(frames) <==> 1 <= i < |frames| && frames[i].tier != frames[i - 1].tier
  {
    hide Picks;
    PicksExact((i: nat) => 1 <= i < |frames| && frames[i].tier != frames[i - 1].tier, |frames|);
  }

  lemma TrackingInIntegers(frames: seq<Frame>)
    ensures
      var steps := if |frames| <= 1 then 1 else |frames| - 1;
      TopologyTracking(frames) ==
        if frames == [] then Unavailable
        else if 4 * |Ascents(frames)| >= 3 * steps then CoherentTracking
        else if 2 * |Ascents(frames)| >= steps then PartialTracking
        else InconsistentTracking
  {
    hide Ascents;
    RatioInIntegers(|Ascents(frames)|, if |frames| <= 1 then 1 else |frames| - 1);
  }

  lemma RatioInIntegers(a: nat, n: nat)
    requires n >= 1
    ensures a as real / n as real >= 0.75 <==> 4 * a >= 3 * n
    ensures a as real / n as real >= 0.5 <==> 2 * a >= n
  {
    RatioReaches(a as real, n as real, 0.75);
    RatioReaches(a as real, n as real, 0.5);
  }

  lemma RatioReaches(a: real, n: real, share: real)
    requires n > 0.0
    ensures a / n >= share <==> a >= share * n
  {
    assert (a / n) * n == a;
    assert (a / n - share) * n == a - share * n;
  }

  lemma {:induction false} PicksAllButFirst(p: nat -> bool, n: nat)
    requires n >= 1 && !p(0) && forall i: nat :: 1 <= i < n ==> p(i)
    ensures |Picks(p, n)| == n - 1
  {
    if n > 1 { PicksAllButFirst(p, n - 1); }
  }

  lemma NoTierShifts(base: int, intervals: int, compression: int, tier: string)
    ensures TierShifts(Timeline(base, intervals, compression, tier)) == []
  {
    hide PhaseIndex, Progress, DriftIndex;
    var frames := Timeline(base, intervals, compression, tier);
    PicksNothing((i: nat) => 1 <= i < |frames| && frames[i].tier != frames[i - 1].tier, |frames|);
  }

  lemma EveryFrameAscends(frames: seq<Frame>)
    requires frames != []
    requires forall i :: 1 <= i < |frames| ==> frames[i].drift >= frames[i - 1].drift
    ensures |Ascents(frames)| == |frames| - 1
  {
    PicksAllButFirst((i: nat) => 1 <= i < |frames| && frames[i].drift >= frames[i - 1].drift, |frames|);
  }

  lemma TrackingOf(frames: seq<Frame>)
    requires frames != [] && |Ascents(frames)| == |frames| - 1
    ensures TopologyTracking(frames) == if |frames| == 1 then InconsistentTracking else CoherentTracking
  {
    hide Ascents;
    if |frames| > 1 { RatioOfEquals((|frames| - 1) as real); }
  }

  lemma RatioOfEquals(x: real)
    requires x > 0.0
    ensures x / x == 1.0
  {
  }

  /** The grade of every timeline, whatever the number of frames asked for. */
  lemma GradesAreExact(base: int, intervals: int, compression: int, tier: string)
    requires compression >= 1
    ensures
      var frames := Timeline(base, intervals, compression, tier);
      && ReplayConsistency(frames) == (if intervals >= 6 then High else if intervals >= 4 then Moderate else Low)
      && TopologyTracking(frames) ==
         (if intervals <= 0 then Unavailable else if intervals == 1 then InconsistentTracking else CoherentTracking)
      && ContinuityOf(frames) == StableContinuity
  {
    hide FrameAt, Phases, Ascents, TierShifts;
    DistinctPhases(base, intervals, compression, tier);
    NoTierShifts(base, intervals, compression, tier);
    if intervals >= 1 {
      var frames := Timeline(base, intervals, compression, tier);
      forall i | 1 <= i < intervals
        ensures frames[i].drift >= frames[i - 1].drift
      {
        TimelineMovesForward(base, intervals, compression, tier, i - 1, i);
      }
      EveryFrameAscends(frames);
      hide TopologyTracking;
      TrackingOf(frames);
    }
  }

  /** Whatever intervals and compression are asked for, the built timeline gets every top grade, and shows
      the whole canonical flow once eight frames are asked for. */
  lemma BuiltTimelinesPass(base: int, intervals: int, compression: int, tier: string)
    ensures
      var frames := Timeline(base, SafeIntervals(intervals), if compression < 1 then 1 else compression, tier);
      && ReplayConsistency(frames) == High
      && TopologyTracking(frames) == CoherentTracking
      && ContinuityOf(frames) == StableContinuity
      && (|Phases(frames)| == 8 <==> intervals >= 8)
  {
    var n, c := SafeIntervals(intervals), if compression < 1 then 1 else compression;
    GradesAreExact(base, n, c, tier);
    DistinctPhases(base, n, c, tier);
  }

  // ----- Queries by time -----

  function Distance(a: int, b: int): nat {
    if a < b then b - a else a - b
  }

  /** The first of the frames nearest in time. */
  ghost predicate IsNearest(frames: seq<Frame>, timestamp: int, k: nat) {
    && k < |frames|
    && (forall i :: 0 <= i < |frames| ==>
        Distance(frames[k].timestamp, timestamp) <= Distance(frames[i].timestamp, timestamp))
    && (forall i :: 0 <= i < k ==> Distance(frames[k].timestamp, timestamp) < Distance(frames[i].timestamp, timestamp))
  }

  /** `frame_at_timestamp`: no frame is the error of an empty timeline. */
  method FrameAtTimestamp(base: int, timestamp: int, intervals: int, tier: string) returns (found: Option<Frame>)
    ensures found.None? <==> intervals <= 0
    ensures
      var frames := Timeline(base, intervals, 1, tier);
      found.Some? ==> exists k: nat :: IsNearest(frames, timestamp, k) && found.value == frames[k]
  {
    var frames := FramesFromIntelligence(base, intervals, 1, tier);
    if frames == [] { return None; }
    var k := 0;
    for j := 1 to |frames|
      invariant 0 <= k < j
      invariant forall i :: 0 <= i < j ==>
                Distance(frames[k].timestamp, timestamp) <= Distance(frames[i].timestamp, timestamp)
      invariant forall i :: 0 <= i < k ==>
                Distance(frames[k].timestamp, timestamp) < Distance(frames[i].timestamp, timestamp)
    {
      if Distance(frames[j].timestamp, timestamp) < Distance(frames[k].timestamp, timestamp) { k := j; }
    }
    assert IsNearest(frames, timestamp, k);
    return Some(frames[k]);
  }

  /** Asking for a frame's own timestamp finds that frame and no other. */
  lemma OwnTimestampFindsTheFrame(base: int, intervals: int, tier: string, i: nat, k: nat)
    requires i < intervals
    requires
      var frames := Timeline(base, intervals, 1, tier);
      IsNearest(frames, frames[i].timestamp, k)
    ensures k == i
  {
    if k < i { TimelineMovesForward(base, intervals, 1, tier, k, i); }
    if i < k { TimelineMovesForward(base, intervals, 1, tier, i, k); }
  }

  predicate Between(f: Frame, start: int, end: int) {
    start <= f.timestamp <= end || end <= f.timestamp <= start
  }

  /** The frames between the two instants are those from low up to high. */
  ghost predicate IsStretch(frames: seq<Frame>, start: int, end: int, low: nat, high: nat) {
    && low <= high <= |frames|
    && forall i :: 0 <= i < |frames| ==> (Between(frames[i], start, end) <==> low <= i < high)
  }

  ghost predicate Chronological(frames: seq<Frame>) {
    forall i, j :: 0 <= i < j < |frames| ==> frames[i].timestamp < frames[j].timestamp
  }

  lemma TimelineIsChronological(base: int, intervals: int, compression: int, tier: string)
    requires compression >= 1
    ensures Chronological(Timeline(base, intervals, compression, tier))
  {
    hide FrameAt;
    forall i: nat, j: nat | i < j < intervals
      ensures Timeline(base, intervals, compression, tier)[i].timestamp
              < Timeline(base, intervals, compression, tier)[j].timestamp
    {
      TimelineMovesForward(base, intervals, compression, tier, i, j);
    }
  }

  /** `frame_range`: in either order of the ends, exactly the frames between them, one contiguous stretch
      of the timeline. */
  method FrameRange(base: int, start: int, end: int, intervals: int, tier: string) returns (selected: seq<Frame>)
    ensures
      var frames := Timeline(base, intervals, 1, tier);
      exists low: nat, high: nat :: IsStretch(frames, start, end, low, high) && selected == frames[low..high]
    ensures forall f :: f in selected <==>
      f in Timeline(base, intervals, 1, tier) && (start <= f.timestamp <= end || end <= f.timestamp <= start)
  {
    var frames := FramesFromIntelligence(base, intervals, 1, tier);
    TimelineIsChronological(base, intervals, 1, tier);
    selected := SelectBetween(frames, start, end);
    StretchHolds(frames, start, end, selected);
  }

  lemma StretchHolds(frames: seq<Frame>, start: int, end: int, selected: seq<Frame>)
    requires exists low: nat, high: nat :: IsStretch(frames, start, end, low, high) && selected == frames[low..high]
    ensures forall f :: f in selected <==>
      f in frames && (start <= f.timestamp <= end || end <= f.timestamp <= start)
  {
    var low: nat, high: nat :| IsStretch(frames, start, end, low, high) && selected == frames[low..high];
    forall f | f in frames && (start <= f.timestamp <= end || end <= f.timestamp <= start)
      ensures f in selected
    {
      var i :| 0 <= i < |frames| && frames[i] == f;
      assert selected[i - low] == f;
    }
  }

  method SelectBetween(frames: seq<Frame>, start: int, end: int) returns (selected: seq<Frame>)
    requires Chronological(frames)
    ensures exists low: nat, high: nat :: IsStretch(frames, start, end, low, high) && selected == frames[low..high]
  {
    var first, last := start, end;
    if last < first { first, last := last, first; }
    selected := [];
    ghost var low, high := 0, 0;
    for i := 0 to |frames|
      invariant low <= high <= i && selected == frames[low..high]
      invariant forall j :: 0 <= j < i ==> (Between(frames[j], start, end) <==> low <= j < high)
      invariant low == high ==> low == i
      invariant high < i ==> frames[high].timestamp > last
    {
      assert Between(frames[i], start, end) <==> first <= frames[i].timestamp <= last;
      assert high < i ==> frames[i].timestamp > last;
      assert low < high ==> Between(frames[high - 1], start, end) && frames[high - 1].timestamp < frames[i].timestamp;
      if first <= frames[i].timestamp <= last {
        selected := selected + [frames[i]];
        high := i + 1;
      } else if low == high {
        low, high := i + 1, i + 1;
      }
    }
    assert IsStretch(frames, start, end, low, high);
  }
}
