/** The recurrence reducer: one call takes the caller's state and one time window, and returns the
    evidence and the next state. */
module RelationshipRecurrence {
  import opened Common
  import opened RecurrenceEpisodes

  const MINIMUM_EPISODES := 3
  const MAXIMUM_AGE: int := 30 * 24 * 60 * 60 * 1_000_000 // thirty days in microseconds
  const MAXIMUM_OBSERVATIONS: nat := 256

  /** A bound is None when the instant does not parse. */
  datatype Edge = Edge(
    start: Option<int>, end: Option<int>, delta: Number, confidence: real, quality: real,
    eligible: bool, detail: string)

  datatype State = State(
    version: int, identity: string, observations: seq<Observation>,
    requiresInitialReturn: bool, overflowUntil: Option<int>)

  datatype Status = Limited | Supported | Unconfirmed

  datatype Reason = InvalidOrNonchronologicalWindow | ObservationCapacityExceeded
                  | OppositeDirectionEpisode | InsufficientEvidence

  datatype Evidence = Evidence(
    status: Status, supported: bool, direction: int, episodeCount: nat, veto: bool,
    episodes: seq<Episode>, evaluatedAt: Option<int>, reason: Option<Reason>)

  // ----- What one call means -----

  function Fresh(identity: string): State {
    State(1, identity, [], false, None)
  }

  /** The state a call works from: the caller's, if it has this version and identity. */
  function Incoming(previous: Option<State>, identity: string): State {
    if previous.Some? && previous.value.version == 1 && previous.value.identity == identity
    then previous.value
    else Fresh(identity)
  }

  function Observe(edge: Edge, f: Floors): Observation
    requires edge.start.Some? && edge.end.Some?
  {
    var o := Observation(edge.start.value, edge.end.value, edge.delta, edge.confidence, edge.quality,
                         edge.eligible, true, edge.detail);
    o.(acceptable := Acceptable(o, f))
  }

  /** Whether a resubmitted observation is the retained one: a not-a-number delta is unequal to a
      separately supplied one. */
  predicate Identical(a: Observation, b: Observation) {
    a == b && !a.delta.NotANumber?
  }

  /** A repetition of the newest retained window's end. */
  predicate IsRetry(s: State, o: Observation) {
    s.observations != [] && Last(s.observations).end == o.end
  }

  predicate Accepts(s: State, o: Observation) {
    && o.start < o.end
    && Chronological(s.observations)
    && (s.observations != [] ==>
          if IsRetry(s, o) then Identical(o, Last(s.observations)) else Last(s.observations).end <= o.start)
  }

  predicate AcceptsEdge(s: State, edge: Edge, f: Floors) {
    edge.start.Some? && edge.end.Some? && Accepts(s, Observe(edge, f))
  }

  function Candidates(s: State, o: Observation): seq<Observation> {
    if IsRetry(s, o) then s.observations else s.observations + [o]
  }

  /** The windows that start no earlier than the cutoff, in order. */
  function Retain(obs: seq<Observation>, cutoff: int): (kept: seq<Observation>)
    ensures |kept| <= |obs|
  {
    if obs == [] then []
    else (if obs[0].start >= cutoff then [obs[0]] else []) + Retain(obs[1..], cutoff)
  }

  /** The state after accepting o with room for `cap` windows; no cap is the unbounded reducer. */
  function Advance(s: State, o: Observation, cap: Option<nat>): State {
    var candidates := Candidates(s, o);
    var retained := Retain(candidates, o.end - MAXIMUM_AGE);
    var dropped := cap.Some? && |retained| > cap.value;
    var overflow := if dropped then Some(retained[|retained| - cap.value - 1].end + MAXIMUM_AGE) else s.overflowUntil;
    State(s.version, s.identity,
          if dropped then LastOf(retained, cap.value) else retained,
          s.requiresInitialReturn || |retained| != |candidates| || dropped,
          if overflow.Some? && o.end <= overflow.value then overflow else None)
  }

  const REJECTION := Evidence(Limited, false, 0, 0, false, [], None, Some(InvalidOrNonchronologicalWindow))

  function Silence(end: int): Evidence {
    REJECTION.(evaluatedAt := Some(end), reason := Some(ObservationCapacityExceeded))
  }

  /** The verdict over the retained windows.  `acceptable` is that of the window just submitted. */
  ghost function Verdict(obs: seq<Observation>, f: Floors, armed: bool, acceptable: bool, end: int): Evidence {
    var episodes := AllEpisodes(obs, f, armed);
    var signs := AllSustained(obs, f);
    var veto := |signs| > 1;
    var direction := if 1 in signs && !veto then 1 else if -1 in signs && !veto then -1 else 0;
    var supported := |episodes| >= MINIMUM_EPISODES && direction != 0 && acceptable;
    Evidence(if supported then Supported else Unconfirmed, supported, direction, |episodes|, veto, episodes, Some(end),
             if veto then Some(OppositeDirectionEpisode) else if supported then None else Some(InsufficientEvidence))
  }

  ghost function Judge(s: State, f: Floors, o: Observation): Evidence {
    if s.overflowUntil.Some? then Silence(o.end)
    else Verdict(s.observations, f, !s.requiresInitialReturn, o.acceptable, o.end)
  }

  ghost function NextState(s: State, edge: Edge, f: Floors, cap: Option<nat>): State {
    if AcceptsEdge(s, edge, f) then Advance(s, Observe(edge, f), cap) else s
  }

  ghost function NextEvidence(s: State, edge: Edge, f: Floors, cap: Option<nat>): Evidence {
    if AcceptsEdge(s, edge, f)
    then Judge(Advance(s, Observe(edge, f), cap), f, Observe(edge, f))
    else REJECTION
  }

  // ----- The reducer -----

  lemma SustainedSignsAre(obs: seq<Observation>, f: Floors)
    ensures AllSustained(obs, f) <= {1, -1}
  {
  }

  lemma SingleSign(signs: set<int>)
    requires signs <= {1, -1}
    ensures |signs| > 1 <==> signs == {1, -1}
    ensures |signs| == 1 <==> signs == {1} || signs == {-1}
  {
    assert signs == {} || signs == {1} || signs == {-1} || signs == {1, -1} by {
      if 1 in signs { if -1 in signs { assert signs == {1, -1}; } else { assert signs == {1}; } }
    }
  }

  /** The values the fold keeps, before the first window. */
  lemma BeforeFold(obs: seq<Observation>, r: seq<Reading>, armed: bool)
    requires |obs| == |r|
    ensures Opening(r, 0) == -1 && Episodes(obs, r, armed, 0) == [] && SustainedSigns(r, 0) == {}
    ensures Support(obs, r, 0, 0) == [] && SignsIn(r, 0, 0) == {} && RunLength(r, 0) == LongestRun(r, 0, 0) == 0
  {
  }

  /** The test made at a return, in terms of the values kept, decides whether it closes an episode. */
  lemma ClosesAsCounted(r: seq<Reading>, armed: bool, i: nat, lo: nat)
    requires i < |r| && r[i].Return? && lo == Opening(r, i) + 1
    ensures Closes(r, armed, i) <==>
            (armed || lo > 0) && |SignsIn(r, lo, i)| == 1 && LongestRun(r, lo, i) >= MINIMUM_SUPPORT
    ensures Closes(r, armed, i) ==> SignsIn(r, lo, i) == {LastSign(r, lo, i)}
  {
    LongestRunSustains(r, lo, i);
    if HasSustained(r, lo, i) { OneSignIsOneSided(r, lo, i); }
  }

  /** What one more return does to the values the fold keeps: everything but the episodes starts afresh. */
  lemma AfterReturn(obs: seq<Observation>, r: seq<Reading>, armed: bool, i: nat, lo: nat)
    requires |obs| == |r| && i < |r| && r[i].Return? && lo == Opening(r, i) + 1
    ensures Opening(r, i + 1) == i && RunLength(r, i + 1) == 0
    ensures SustainedSigns(r, i + 1) == SustainedSigns(r, i)
    ensures SignsIn(r, i + 1, i + 1) == {} && Support(obs, r, i + 1, i + 1) == [] && LongestRun(r, i + 1, i + 1) == 0
  {
    hide HasSustained, OneSided;
    SustainedStep(r, i);
  }

  /** And the episodes gain the segment it closes, if the counts call for one. */
  lemma EpisodesAfterReturn(obs: seq<Observation>, r: seq<Reading>, armed: bool, i: nat, lo: nat)
    requires |obs| == |r| && i < |r| && r[i].Return? && lo == Opening(r, i) + 1
    ensures
      if (armed || lo > 0) && |SignsIn(r, lo, i)| == 1 && LongestRun(r, lo, i) >= MINIMUM_SUPPORT then
        && Support(obs, r, lo, i) != [] && SignsIn(r, lo, i) == {LastSign(r, lo, i)}
        && Episodes(obs, r, armed, i + 1) == Episodes(obs, r, armed, i) + [SegmentEpisode(obs, r, lo, i)]
      else Episodes(obs, r, armed, i + 1) == Episodes(obs, r, armed, i)
  {
    ClosesAsCounted(r, armed, i, lo);
    EpisodesStep(obs, r, armed, i);
    if Closes(r, armed, i) { ClosingHasSupport(obs, r, armed, i); }
    hide Closes, SegmentEpisode, Episodes, SignsIn, LongestRun, Support, LastSign, Opening;
  }

  lemma ClosingHasSupport(obs: seq<Observation>, r: seq<Reading>, armed: bool, j: nat)
    requires |obs| == |r| && Closes(r, armed, j)
    ensures Support(obs, r, Opening(r, j) + 1, j) != []
    ensures EpisodeAt(obs, r, armed, j) == SegmentEpisode(obs, r, Opening(r, j) + 1, j)
  {
    hide SegmentEpisode;
  }

  lemma EpisodesStep(obs: seq<Observation>, r: seq<Reading>, armed: bool, i: nat)
    requires |obs| == |r| && i < |r|
    ensures Episodes(obs, r, armed, i + 1) ==
            Episodes(obs, r, armed, i) + if Closes(r, armed, i) then [EpisodeAt(obs, r, armed, i)] else []
  {
    hide Closes, EpisodeAt;
  }

  lemma SustainedStep(r: seq<Reading>, i: nat)
    requires i < |r|
    ensures SustainedSigns(r, i + 1) ==
            SustainedSigns(r, i) + if i > 0 && SustainedAt(r, i - 1) then {r[i].sign} else {}
  {
    var step := if i > 0 && SustainedAt(r, i - 1) then {r[i].sign} else {};
    forall s | s in SustainedSigns(r, i) + step
      ensures s in SustainedSigns(r, i + 1)
    {
      if s in SustainedSigns(r, i) {
        var k :| 0 <= k < i - 1 && SustainedAt(r, k) && r[k].sign == s;
      } else {
        assert r[i - 1].sign == s;
      }
    }
  }

  /** What one more displaced window does to them. */
  lemma AfterDisplaced(obs: seq<Observation>, r: seq<Reading>, armed: bool, i: nat, lo: nat, direction: int)
    requires |obs| == |r| && i < |r| && r[i] == Displaced(direction) && lo == Opening(r, i) + 1
    ensures Opening(r, i + 1) + 1 == lo
    ensures Episodes(obs, r, armed, i + 1) == Episodes(obs, r, armed, i)
    ensures SignsIn(r, lo, i + 1) == SignsIn(r, lo, i) + {direction}
    ensures Support(obs, r, lo, i + 1) == Support(obs, r, lo, i) + [obs[i]]
    ensures SustainedSigns(r, i + 1) ==
            SustainedSigns(r, i) + if RunLength(r, i + 1) >= MINIMUM_SUPPORT then {direction} else {}
    ensures LongestRun(r, lo, i + 1) == Max(LongestRun(r, lo, i), RunLength(r, i + 1))
    ensures RunLength(r, i + 1) == if i > 0 && r[i - 1] == r[i] then RunLength(r, i) + 1 else 1
  {
    SustainedStep(r, i);
  }

  /** What one more unknown window does to them: it breaks the run. */
  lemma AfterUnknown(obs: seq<Observation>, r: seq<Reading>, armed: bool, i: nat, lo: nat)
    requires |obs| == |r| && i < |r| && r[i].Unknown? && lo == Opening(r, i) + 1
    ensures Opening(r, i + 1) + 1 == lo && RunLength(r, i + 1) == 0
    ensures Episodes(obs, r, armed, i + 1) == Episodes(obs, r, armed, i)
    ensures SignsIn(r, lo, i + 1) == SignsIn(r, lo, i) && Support(obs, r, lo, i + 1) == Support(obs, r, lo, i)
    ensures SustainedSigns(r, i + 1) == SustainedSigns(r, i) && LongestRun(r, lo, i + 1) == LongestRun(r, lo, i)
  {
    SustainedStep(r, i);
  }

  /** A return closes the segment before it into an episode, if the counts call for one. */
  method CloseSegment(episodes: seq<Episode>, armed: bool, opening: Option<Observation>, support: seq<Observation>,
                      directions: set<int>, maximumRun: nat, item: Observation,
                      ghost observations: seq<Observation>, ghost r: seq<Reading>, ghost initiallyArmed: bool,
                      ghost i: nat, ghost lo: nat)
    returns (closed: seq<Episode>)
    requires |observations| == |r| && i < |r| && r[i].Return? && lo == Opening(r, i) + 1 && item == observations[i]
    requires armed == (initiallyArmed || lo > 0) && opening == if lo > 0 then Some(observations[lo - 1]) else None
    requires support == Support(observations, r, lo, i) && directions == SignsIn(r, lo, i)
             && maximumRun == LongestRun(r, lo, i)
    requires episodes == Episodes(observations, r, initiallyArmed, i)
    ensures closed == Episodes(observations, r, initiallyArmed, i + 1)
  {
    hide Opening, Episodes, Support, SignsIn, LongestRun, LastSign;
    EpisodesAfterReturn(observations, r, initiallyArmed, i, lo);
    closed := episodes;
    if armed && |directions| == 1 && maximumRun >= MINIMUM_SUPPORT {
      var sign :| sign in directions;
      closed := closed + [Episode(sign, |support|, maximumRun, support[0].start, Last(support).end,
                                  item.end, support, opening, item)];
    }
  }

  lemma AfterFold(obs: seq<Observation>, f: Floors, armed: bool)
    ensures AllEpisodes(obs, f, armed) == Episodes(obs, ReadAll(obs, f), armed, |obs|)
    ensures AllSustained(obs, f) == SustainedSigns(ReadAll(obs, f), |obs|)
  {
  }

  lemma ReadsAs(item: Observation, f: Floors)
    ensures Acceptable(item, f) ==> item.delta.Finite?
    ensures Read(item, f) ==
            if !Acceptable(item, f) then Unknown
            else if Abs(item.delta.value) < MINIMUM_DISPLACEMENT then Return
            else Displaced(if item.delta.value > 0.0 then 1 else -1)
  {
  }

  /** One pass over the retained windows finds exactly their episodes and sustained signs. */
  method FoldEpisodes(observations: seq<Observation>, f: Floors, initiallyArmed: bool)
    returns (episodes: seq<Episode>, supportedDirections: set<int>)
    ensures episodes == AllEpisodes(observations, f, initiallyArmed)
    ensures supportedDirections == AllSustained(observations, f)
  {
    hide *;
    AfterFold(observations, f, initiallyArmed);
    episodes, supportedDirections := [], {};
    var armed := initiallyArmed;
    var opening: Option<Observation> := None;
    var support: seq<Observation> := [];
    var directions: set<int> := {};
    var runDirection, runCount: nat, maximumRun: nat := 0, 0, 0;
    ghost var r := ReadAll(observations, f);
    ghost var lo: nat := 0;
    BeforeFold(observations, r, initiallyArmed);
    for i := 0 to |observations|
      invariant lo == Opening(r, i) + 1
      invariant episodes == Episodes(observations, r, initiallyArmed, i)
      invariant supportedDirections == SustainedSigns(r, i)
      invariant armed == (initiallyArmed || lo > 0)
      invariant opening == if lo > 0 then Some(observations[lo - 1]) else None
      invariant support == Support(observations, r, lo, i)
      invariant directions == SignsIn(r, lo, i)
      invariant runDirection == if i > 0 && r[i - 1].Displaced? then r[i - 1].sign else 0
      invariant runCount == RunLength(r, i)
      invariant maximumRun == LongestRun(r, lo, i)
    {
      var item := observations[i];
      ReadsAs(item, f);
      var valid := Acceptable(item, f);
      var neutral := valid && Abs(item.delta.value) < MINIMUM_DISPLACEMENT;
      var direction := if valid && !neutral then (if item.delta.value > 0.0 then 1 else -1) else 0;
      if neutral {
        AfterReturn(observations, r, initiallyArmed, i, lo);
        episodes := CloseSegment(episodes, armed, opening, support, directions, maximumRun, item,
                                 observations, r, initiallyArmed, i, lo);
        armed, opening := true, Some(item);
        support, directions := [], {};
        runDirection, runCount, maximumRun := 0, 0, 0;
        lo := i + 1;
      } else {
        if direction != 0 {
          AfterDisplaced(observations, r, initiallyArmed, i, lo, direction);
          directions := directions + {direction};
          support := support + [item];
          runCount := if runDirection == direction then runCount + 1 else 1;
          runDirection := direction;
          maximumRun := Max(maximumRun, runCount);
          if runCount >= MINIMUM_SUPPORT {
            supportedDirections := supportedDirections + {direction};
          }
        } else {
          AfterUnknown(observations, r, initiallyArmed, i, lo);
          runDirection, runCount := 0, 0;
        }
      }
    }
  }

  /** The verdict over the retained windows. */
  method Conclude(observations: seq<Observation>, f: Floors, armed: bool, acceptable: bool, end: int)
    returns (evidence: Evidence)
    ensures evidence == Verdict(observations, f, armed, acceptable, end)
  {
    hide AllEpisodes, AllSustained;
    var episodes, supportedDirections := FoldEpisodes(observations, f, armed);
    SustainedSignsAre(observations, f);
    SingleSign(supportedDirections);
    var veto := |supportedDirections| > 1;
    var direction := 0;
    if |supportedDirections| == 1 {
      var sign :| sign in supportedDirections;
      direction := sign;
    }
    var supported := |episodes| >= MINIMUM_EPISODES && direction != 0 && !veto && acceptable;
    evidence := Evidence(
      if supported then Supported else Unconfirmed, supported, direction, |episodes|, veto, episodes, Some(end),
      if veto then Some(OppositeDirectionEpisode) else if supported then None else Some(InsufficientEvidence));
  }

  /** The walk over a caller's windows: each starts before it ends, and not before its predecessor ends. */
  method RetainedAreChronological(observations: seq<Observation>) returns (chronological: bool)
    ensures chronological == Chronological(observations)
  {
    var lastEnd: Option<int> := None;
    for i := 0 to |observations|
      invariant lastEnd == if i == 0 then None else Some(observations[i - 1].end)
      invariant Chronological(observations[..i])
    {
      var item := observations[i];
      if item.start >= item.end || (lastEnd.Some? && item.start < lastEnd.value) { return false; }
      lastEnd := Some(item.end);
    }
    assert observations[..|observations|] == observations;
    return true;
  }

  /** Chronology checks on a window: is it the next one, or the newest one again? */
  method Admit(state: State, o: Observation) returns (admitted: bool, candidates: seq<Observation>)
    requires o.start < o.end
    ensures admitted == Accepts(state, o)
    ensures admitted ==> candidates == Candidates(state, o)
  {
    hide Chronological;
    candidates := state.observations;
    admitted := RetainedAreChronological(candidates);
    if admitted {
      if candidates != [] && o.end == Last(candidates).end {
        admitted := Identical(o, Last(candidates));
      } else if candidates != [] && o.start < Last(candidates).end {
        admitted := false;
      } else {
        candidates := candidates + [o];
      }
    }
  }

  /** Ageing, the cap and the overflow marker. */
  method Store(previous: State, candidates: seq<Observation>, o: Observation) returns (state: State)
    requires candidates == Candidates(previous, o)
    ensures state == Advance(previous, o, Some(MAXIMUM_OBSERVATIONS))
    ensures state.version == previous.version && state.identity == previous.identity
  {
    hide Retain;
    state := previous;
    var retained := Retain(candidates, o.end - MAXIMUM_AGE);
    if |retained| != |candidates| {
      state := state.(requiresInitialReturn := true);
    }
    if |retained| > MAXIMUM_OBSERVATIONS {
      state := state.(overflowUntil := Some(retained[|retained| - MAXIMUM_OBSERVATIONS - 1].end + MAXIMUM_AGE));
      state := state.(requiresInitialReturn := true);
    }
    state := state.(observations := LastOf(retained, MAXIMUM_OBSERVATIONS));
    if state.overflowUntil.Some? && o.end <= state.overflowUntil.value { return; }
    state := state.(overflowUntil := None);
  }

  /** `relationship_recurrence_evidence`. */
  method RelationshipRecurrenceEvidence(edge: Edge, previous: Option<State>, identity: string, f: Floors)
    returns (evidence: Evidence, state: State)
    ensures state == NextState(Incoming(previous, identity), edge, f, Some(MAXIMUM_OBSERVATIONS))
    ensures evidence == NextEvidence(Incoming(previous, identity), edge, f, Some(MAXIMUM_OBSERVATIONS))
    ensures state.version == 1 && state.identity == identity
    ensures
      var known := previous.Some? && previous.value.version == 1 && previous.value.identity == identity;
      var carried := if known then previous.value else State(1, identity, [], false, None);
      && state == NextState(carried, edge, f, Some(256))
      && evidence == NextEvidence(carried, edge, f, Some(256))
  {
    hide Verdict, Advance, Acceptable, Candidates;
    state := Fresh(identity);
    if previous.Some? && previous.value.version == 1 && previous.value.identity == identity {
      state := previous.value;
    }
    evidence := REJECTION;
    if edge.start.None? || edge.end.None? { return; }
    var observation := Observe(edge, f);
    if observation.start >= observation.end { return; }
    var admitted, candidates := Admit(state, observation);
    if !admitted { return; }
    state := Store(state, candidates, observation);
    if state.overflowUntil.Some? {
      evidence := Silence(observation.end);
      return;
    }
    evidence := Conclude(state.observations, f, !state.requiresInitialReturn, observation.acceptable, observation.end);
  }
}
