/** The persistence reducer: at most eight windows vote for their displacement from one baseline. */
module RelationshipChange {
  import opened Common

  const MAXIMUM_OBSERVATIONS: nat := 8
  const MINIMUM_SUPPORTING := 6
  const MINIMUM_AGREEMENT := 0.75
  const MINIMUM_DISPLACEMENT := 0.15
  const MAXIMUM_AGE: int := 30 * 24 * 60 * 60 * 1_000_000 // thirty days in microseconds

  /** A window bound: not supplied, supplied but unreadable, or an instant. */
  datatype Stamp = Absent | Unreadable | At(time: int)

  datatype Edge = Edge(start: Stamp, end: Stamp, delta: Number, confidence: real, quality: real, eligible: bool,
                       detail: string)

  /** `detail` stands for the remaining compared fields. */
  datatype Observation = Observation(
    observedAt: Option<int>, delta: Number, confidence: real, quality: real, eligible: bool, acceptable: bool,
    detail: string)

  datatype Floors = Floors(confidence: real, quality: real)

  datatype State = State(version: int, identity: string, observations: seq<Observation>)

  datatype Status = Supported | Unconfirmed | Limited

  datatype Evidence = Evidence(
    observations: nat, direction: int, agreement: real, supported: bool, status: Status, supporting: seq<Observation>)

  // ----- What one call means -----

  function Incoming(previous: Option<State>, identity: string): State {
    State(1, identity,
          if previous.Some? && previous.value.version == 1 && previous.value.identity == identity
          then LastOf(previous.value.observations, MAXIMUM_OBSERVATIONS) else [])
  }

  function Observe(edge: Edge, f: Floors): Observation {
    Observation(if edge.end.At? then Some(edge.end.time) else None,
                edge.delta, edge.confidence, edge.quality, edge.eligible,
                edge.eligible && edge.delta.Finite? && edge.confidence >= f.confidence && edge.quality >= f.quality,
                edge.detail)
  }

  predicate Increasing(obs: seq<Observation>) {
    && (forall i :: 0 <= i < |obs| ==> obs[i].observedAt.Some?)
    && (forall i, j :: 0 <= i < j < |obs| ==> obs[i].observedAt.value < obs[j].observedAt.value)
  }

  predicate ReadableWindow(edge: Edge) {
    edge.end.At? && !edge.start.Unreadable? && (edge.start.At? ==> edge.start.time <= edge.end.time)
  }

  predicate Identical(a: Observation, b: Observation) {
    a == b && !a.delta.NotANumber?
  }

  predicate IsRetry(obs: seq<Observation>, o: Observation) {
    obs != [] && Last(obs).observedAt == o.observedAt
  }

  predicate Accepts(obs: seq<Observation>, edge: Edge, o: Observation) {
    && ReadableWindow(edge)
    && o.observedAt == Some(edge.end.time)
    && Increasing(obs)
    && (obs != [] ==> if IsRetry(obs, o) then Identical(o, Last(obs)) else Last(obs).observedAt.value < edge.end.time)
  }

  /** The observations no more than thirty days older than `now`, in order. */
  function Recent(obs: seq<Observation>, now: int): (kept: seq<Observation>)
    requires forall o :: o in obs ==> o.observedAt.Some?
    ensures forall o :: o in kept ==> o in obs
    ensures |kept| <= |obs|
  {
    if obs == [] then []
    else (if now - obs[0].observedAt.value <= MAXIMUM_AGE then [obs[0]] else []) + Recent(obs[1..], now)
  }

  function Candidates(obs: seq<Observation>, o: Observation): seq<Observation> {
    if IsRetry(obs, o) then obs else obs + [o]
  }

  function Advance(obs: seq<Observation>, o: Observation): seq<Observation>
    requires o.observedAt.Some? && forall w :: w in obs ==> w.observedAt.Some?
  {
    LastOf(Recent(Candidates(obs, o), o.observedAt.value), MAXIMUM_OBSERVATIONS)
  }

  function Vote(o: Observation, f: Floors): (v: int)
    ensures -1 <= v <= 1
  {
    if o.eligible && o.acceptable && o.confidence >= f.confidence && o.quality >= f.quality
       && o.delta.Finite? && Abs(o.delta.value) >= MINIMUM_DISPLACEMENT
    then (if o.delta.value > 0.0 then 1 else -1) else 0
  }

  function VotingFor(obs: seq<Observation>, f: Floors, d: int): (s: seq<Observation>)
    ensures |s| <= |obs|
  {
    if obs == [] then []
    else (if Vote(obs[0], f) == d then [obs[0]] else []) + VotingFor(obs[1..], f, d)
  }

  function Count(obs: seq<Observation>, f: Floors, d: int): nat {
    |VotingFor(obs, f, d)|
  }

  function Majority(obs: seq<Observation>, f: Floors): int {
    if Count(obs, f, 1) > Count(obs, f, -1) then 1 else if Count(obs, f, -1) > Count(obs, f, 1) then -1 else 0
  }

  function Judge(obs: seq<Observation>, f: Floors, o: Observation): Evidence {
    var direction := Majority(obs, f);
    var supporting := if direction != 0 then VotingFor(obs, f, direction) else [];
    var agreement := |supporting| as real / Max(1, |obs|) as real;
    var supported := |supporting| >= MINIMUM_SUPPORTING && agreement >= MINIMUM_AGREEMENT && Vote(o, f) == direction;
    Evidence(|obs|, direction, agreement, supported, if supported then Supported else Unconfirmed, supporting)
  }

  const REJECTION := Evidence(0, 0, 0.0, false, Limited, [])

  function NextState(s: State, edge: Edge, f: Floors): State {
    var o := Observe(edge, f);
    if Accepts(s.observations, edge, o) then s.(observations := Advance(s.observations, o)) else s
  }

  function NextEvidence(s: State, edge: Edge, f: Floors): Evidence {
    var o := Observe(edge, f);
    if Accepts(s.observations, edge, o) then Judge(Advance(s.observations, o), f, o) else REJECTION
  }

  // ----- The reducer -----

  lemma IncreasingIsDated(obs: seq<Observation>)
    requires Increasing(obs)
    ensures forall o :: o in obs ==> o.observedAt.Some?
  {
  }

  lemma EmptyIsIncreasing()
    ensures Increasing([])
  {
  }

  /** Chronology checks on a window: is it the next one, or the newest one again? */
  method Admit(edge: Edge, observation: Observation, observations: seq<Observation>)
    returns (chronological: bool, candidates: seq<Observation>)
    requires edge.end.At? ==> observation.observedAt == Some(edge.end.time)
    ensures chronological == Accepts(observations, edge, observation)
    ensures chronological ==>
      edge.end.At? && Increasing(observations) && candidates == Candidates(observations, observation)
    ensures chronological ==> forall o :: o in candidates ==> o.observedAt.Some?
  {
    chronological, candidates := edge.end.At? && !edge.start.Unreadable?, observations;
    if edge.start.At? && edge.end.At? && edge.start.time > edge.end.time {
      chronological := false;
    }
    if chronological && observations != [] {
      if !Increasing(observations) {
        chronological := false;
      } else if edge.end.time < Last(observations).observedAt.value {
        chronological := false;
      } else if edge.end.time == Last(observations).observedAt.value {
        chronological := Identical(observation, Last(observations));
      } else {
        candidates := observations + [observation];
      }
    } else if chronological {
      candidates := [observation];
      assert observations + [observation] == [observation];
    }
  }

  /** `relationship_temporal_evidence`. */
  method RelationshipTemporalEvidence(edge: Edge, previous: Option<State>, identity: string, f: Floors)
    returns (evidence: Evidence, state: State)
    ensures state == NextState(Incoming(previous, identity), edge, f)
    ensures evidence == NextEvidence(Incoming(previous, identity), edge, f)
    ensures state.version == 1 && state.identity == identity
    ensures
      var known := previous.Some? && previous.value.version == 1 && previous.value.identity == identity;
      var carried := State(1, identity, if known then LastOf(previous.value.observations, 8) else []);
      state == NextState(carried, edge, f) && evidence == NextEvidence(carried, edge, f)
  {
    hide Recent, VotingFor, Vote, Increasing, Majority, LastOf, Accepts, Candidates;
    state := State(1, identity, []);
    if previous.Some? && previous.value.version == 1 && previous.value.identity == identity {
      state := state.(observations := LastOf(previous.value.observations, MAXIMUM_OBSERVATIONS));
    }
    var observations := state.observations;
    var observation := Observe(edge, f);
    var chronological, candidates := Admit(edge, observation, observations);
    if !chronological { return REJECTION, state; }
    observations := LastOf(Recent(candidates, edge.end.time), MAXIMUM_OBSERVATIONS);
    state := state.(observations := observations);
    var direction := Majority(observations, f);
    var supporting := if direction != 0 then VotingFor(observations, f, direction) else [];
    var agreement := |supporting| as real / Max(1, |observations|) as real;
    var supported := |supporting| >= MINIMUM_SUPPORTING && agreement >= MINIMUM_AGREEMENT
      && Vote(observation, f) == direction;
    evidence := Evidence(|observations|, direction, agreement, supported,
                         if supported then Supported else Unconfirmed, supporting);
  }

  // ----- Ageing and votes -----

  predicate Dated(obs: seq<Observation>) {
    forall o :: o in obs ==> o.observedAt.Some?
  }

  lemma {:induction false} RecentKeepsAll(obs: seq<Observation>, now: int)
    requires Increasing(obs) && (obs != [] ==> now - obs[0].observedAt.value <= MAXIMUM_AGE)
    ensures Recent(obs, now) == obs
  {
    if obs != [] { RecentKeepsAll(obs[1..], now); }
  }

  lemma TailIncreasing(obs: seq<Observation>)
    requires Increasing(obs) && obs != []
    ensures Increasing(obs[1..]) && forall o :: o in obs ==> o.observedAt.Some?
  {
  }

  /** Windows in time order age out from the front: those kept are recent, the newest dropped is not. */
  lemma {:induction false} RecentIsSuffix(obs: seq<Observation>, now: int)
    requires Increasing(obs)
    ensures IsSuffix(Recent(obs, now), obs)
    ensures Recent(obs, now) != [] ==> now - Recent(obs, now)[0].observedAt.value <= MAXIMUM_AGE
    ensures
      var kept := |Recent(obs, now)|;
      kept < |obs| ==>
        obs[|obs| - kept - 1].observedAt.Some? && now - obs[|obs| - kept - 1].observedAt.value > MAXIMUM_AGE
  {
    if obs != [] {
      TailIncreasing(obs);
      hide Increasing;
      if now - obs[0].observedAt.value <= MAXIMUM_AGE {
        hide Recent;
        RecentKeepsAll(obs, now);
      } else {
        var tail := obs[1..];
        IncreasingIsDated(tail);
        var kept := Recent(tail, now);
        assert Recent(obs, now) == kept && obs[0].observedAt.Some?;
        hide *;
        RecentIsSuffix(tail, now);
        SuffixOfTail(kept, obs);
        if |kept| < |tail| { assert obs[|obs| - |kept| - 1] == tail[|tail| - |kept| - 1]; }
      }
    }
  }

  lemma SuffixIncreasing(obs: seq<Observation>, cut: nat)
    requires Increasing(obs) && cut <= |obs|
    ensures Increasing(obs[cut..])
    ensures 0 < cut < |obs| ==> obs[0].observedAt.value < obs[cut].observedAt.value
  {
  }

  lemma {:induction false} RecentTail(obs: seq<Observation>, cut: nat, now: int)
    requires Increasing(obs) && cut <= |obs|
    ensures Recent(obs[cut..], now) == LastOf(Recent(obs, now), |obs| - cut)
  {
    if cut == 0 {
      assert obs[0..] == obs;
      hide Increasing;
      IncreasingIsDated(obs);
    } else if now - obs[0].observedAt.value <= MAXIMUM_AGE {
      hide Recent, Increasing;
      SuffixIncreasing(obs, cut);
      IncreasingIsDated(obs);
      IncreasingIsDated(obs[cut..]);
      RecentKeepsAll(obs, now);
      RecentKeepsAll(obs[cut..], now);
    } else {
      hide Increasing;
      TailIncreasing(obs);
      IncreasingIsDated(obs[1..]);
      assert Recent(obs, now) == Recent(obs[1..], now);
      hide *;
      RecentTail(obs[1..], cut - 1, now);
      assert obs[1..][cut - 1..] == obs[cut..];
    }
  }

  lemma RecentHead(obs: seq<Observation>, now: int)
    requires Dated(obs) && obs != []
    ensures obs[0].observedAt.Some? && Dated(obs[1..])
    ensures Recent(obs, now) ==
            (if now - obs[0].observedAt.value <= MAXIMUM_AGE then [obs[0]] else []) + Recent(obs[1..], now)
  {
  }

  lemma DatedAppend(obs: seq<Observation>, o: Observation)
    requires Dated(obs) && o.observedAt.Some?
    ensures Dated(obs + [o])
  {
  }

  lemma {:induction false} RecentAppend(obs: seq<Observation>, o: Observation, now: int)
    requires Dated(obs) && o.observedAt.Some?
    ensures Dated(obs + [o])
    ensures Recent(obs + [o], now) == Recent(obs, now) + if now - o.observedAt.value <= MAXIMUM_AGE then [o] else []
  {
    DatedAppend(obs, o);
    if obs == [] {
      assert [o][1..] == [];
    } else {
      RecentHead(obs, now);
      RecentHead(obs + [o], now);
      hide Recent, Dated;
      assert (obs + [o])[1..] == obs[1..] + [o];
      RecentAppend(obs[1..], o, now);
      Associative(if now - obs[0].observedAt.value <= MAXIMUM_AGE then [obs[0]] else [], Recent(obs[1..], now),
                  if now - o.observedAt.value <= MAXIMUM_AGE then [o] else []);
    }
  }

  lemma {:induction false} RecentTwice(obs: seq<Observation>, now: int, later: int)
    requires Dated(obs) && now <= later
    ensures Recent(Recent(obs, now), later) == Recent(obs, later)
  {
    if obs != [] {
      RecentTwice(obs[1..], now, later);
      if now - obs[0].observedAt.value <= MAXIMUM_AGE {
        assert Recent(obs, now)[1..] == Recent(obs[1..], now);
      } else {
        assert Recent(obs, now) == Recent(obs[1..], now);
        assert Recent(obs, later) == Recent(obs[1..], later);
      }
    }
  }

  lemma {:induction false} CountConcat(a: seq<Observation>, b: seq<Observation>, f: Floors, d: int)
    ensures Count(a + b, f, d) == Count(a, f, d) + Count(b, f, d)
  {
    if a == [] {
      assert a + b == b;
    } else {
      CountConcat(a[1..], b, f, d);
      assert (a + b)[1..] == a[1..] + b;
    }
  }

  lemma CountSuffix(tail: seq<Observation>, obs: seq<Observation>, f: Floors, d: int)
    requires IsSuffix(tail, obs)
    ensures Count(tail, f, d) <= Count(obs, f, d)
  {
    var front := obs[..|obs| - |tail|];
    assert obs == front + tail;
    CountConcat(front, tail, f, d);
  }

  lemma {:induction false} CountsAreDisjoint(obs: seq<Observation>, f: Floors)
    ensures Count(obs, f, 1) + Count(obs, f, -1) <= |obs|
  {
    if obs != [] { CountsAreDisjoint(obs[1..], f); }
  }

  // ----- Invariants of one step -----

  lemma AcceptedIsDated(obs: seq<Observation>, edge: Edge, o: Observation)
    requires Accepts(obs, edge, o)
    ensures Dated(obs) && Increasing(obs + if IsRetry(obs, o) then [] else [o])
  {
    assert obs + [] == obs;
  }

  /** Every accepted window leaves at most eight observations, in strictly increasing time order, the
      newest being the one submitted and none over thirty days older than it. */
  lemma AdvanceKeepsInvariant(obs: seq<Observation>, edge: Edge, o: Observation)
    requires Accepts(obs, edge, o)
    ensures Dated(obs)
    ensures
      var kept := Advance(obs, o);
      && Increasing(kept) && kept != [] && |kept| <= MAXIMUM_OBSERVATIONS && Last(kept) == o
      && o.observedAt.value - kept[0].observedAt.value <= MAXIMUM_AGE
      && IsSuffix(kept, obs + if IsRetry(obs, o) then [] else [o])
  {
    AcceptedIsDated(obs, edge, o);
    var candidates := if IsRetry(obs, o) then obs else obs + [o];
    assert candidates == obs + if IsRetry(obs, o) then [] else [o];
    assert Last(candidates) == o;
    hide Recent, Increasing, Accepts, IsRetry, LastOf, IsSuffix;
    NewestAreKept(candidates, o);
  }

  lemma NewestAreKept(obs: seq<Observation>, o: Observation)
    requires Increasing(obs) && obs != [] && Last(obs) == o && o.observedAt.Some?
    ensures Dated(obs)
    ensures
      var kept := LastOf(Recent(obs, o.observedAt.value), MAXIMUM_OBSERVATIONS);
      && Increasing(kept) && kept != [] && |kept| <= MAXIMUM_OBSERVATIONS && Last(kept) == o
      && o.observedAt.value - kept[0].observedAt.value <= MAXIMUM_AGE
      && IsSuffix(kept, obs)
  {
    IncreasingIsDated(obs);
    hide Recent, Increasing, LastOf, IsSuffix;
    var recent := Recent(obs, o.observedAt.value);
    var kept := LastOf(recent, MAXIMUM_OBSERVATIONS);
    RecentKeepsNewest(obs, o);
    RecentIsSuffix(obs, o.observedAt.value);
    IncreasingSuffix(recent, obs);
    LastOfIsSuffix(recent, MAXIMUM_OBSERVATIONS);
    LastOfNewest(recent, MAXIMUM_OBSERVATIONS);
    IncreasingSuffix(kept, recent);
    SuffixTransitive(kept, recent, obs);
    FirstIsOldest(recent, |recent| - |kept|);
    FirstIsOldest(kept, 0);
  }

  lemma RecentKeepsNewest(obs: seq<Observation>, o: Observation)
    requires Dated(obs) && obs != [] && Last(obs) == o && o.observedAt.Some?
    ensures Recent(obs, o.observedAt.value) != [] && Last(Recent(obs, o.observedAt.value)) == o
  {
    var front := obs[..|obs| - 1];
    assert obs == front + [o];
    RecentAppend(front, o, o.observedAt.value);
  }

  lemma FirstIsOldest(obs: seq<Observation>, i: nat)
    requires Increasing(obs) && i < |obs|
    ensures obs[0].observedAt.Some? && obs[i].observedAt.Some? && obs[0].observedAt.value <= obs[i].observedAt.value
  {
  }

  lemma IncreasingSuffix(tail: seq<Observation>, obs: seq<Observation>)
    requires IsSuffix(tail, obs) && Increasing(obs)
    ensures Increasing(tail)
  {
    assert forall i :: 0 <= i < |tail| ==> tail[i] == obs[|obs| - |tail| + i];
  }

  /** Resubmitting the identical newest window changes neither state nor, if its delta is a number,
      evidence; a not-a-number delta is unequal to a separately supplied one, and refused. */
  lemma RetryIsIdempotent(s: State, edge: Edge, f: Floors)
    requires Accepts(s.observations, edge, Observe(edge, f))
    ensures
      var after := NextState(s, edge, f);
      && NextState(after, edge, f) == after
      && (NextEvidence(after, edge, f) == NextEvidence(s, edge, f) <==> !edge.delta.NotANumber?)
  {
    hide Recent, VotingFor, Vote;
    var o := Observe(edge, f);
    AdvanceKeepsInvariant(s.observations, edge, o);
    var kept := Advance(s.observations, o);
    RecentKeepsAll(kept, o.observedAt.value);
  }

  // ----- Runs -----

  function StateAfter(previous: Option<State>, edges: seq<Edge>, identity: string, f: Floors): State {
    if edges == [] then Incoming(previous, identity)
    else NextState(Incoming(Some(StateAfter(previous, edges[..|edges| - 1], identity, f)), identity), Last(edges), f)
  }

  function EvidenceAfter(previous: Option<State>, edges: seq<Edge>, identity: string, f: Floors): Evidence
    requires edges != []
  {
    NextEvidence(StateAfter(previous, edges[..|edges| - 1], identity, f), Last(edges), f)
  }

  predicate NewlyAccepts(s: State, edge: Edge, f: Floors) {
    Accepts(s.observations, edge, Observe(edge, f)) && !IsRetry(s.observations, Observe(edge, f))
  }

  /** How many of the calls from the i-th on accepted a new window. */
  function NewWindows(previous: Option<State>, edges: seq<Edge>, identity: string, f: Floors, i: nat): nat {
    if |edges| <= i then 0
    else
      var before := edges[..|edges| - 1];
      NewWindows(previous, before, identity, f, i) +
        if NewlyAccepts(StateAfter(previous, before, identity, f), Last(edges), f) then 1 else 0
  }

  /** The carried state passes through the next call's truncation unchanged. */
  lemma {:induction false} CarriedUnchanged(previous: Option<State>, edges: seq<Edge>, identity: string, f: Floors)
    ensures
      var s := StateAfter(previous, edges, identity, f);
      |s.observations| <= MAXIMUM_OBSERVATIONS && Incoming(Some(s), identity) == s
  {
    if edges != [] {
      var before := edges[..|edges| - 1];
      CarriedUnchanged(previous, before, identity, f);
      var s := StateAfter(previous, before, identity, f);
      hide Recent, Increasing;
      if Accepts(s.observations, Last(edges), Observe(Last(edges), f)) {
        AdvanceKeepsInvariant(s.observations, Last(edges), Observe(Last(edges), f));
      }
    }
  }

  /** One call adds at most one vote for a direction, and only by accepting a new window. */
  lemma StepAddsOneVote(s: State, edge: Edge, f: Floors, d: int)
    ensures Count(NextState(s, edge, f).observations, f, d)
            <= Count(s.observations, f, d) + if NewlyAccepts(s, edge, f) then 1 else 0
  {
    hide Recent, VotingFor, Vote, Increasing;
    var o := Observe(edge, f);
    if Accepts(s.observations, edge, o) {
      AdvanceKeepsInvariant(s.observations, edge, o);
      var added := if IsRetry(s.observations, o) then [] else [o];
      CountSuffix(Advance(s.observations, o), s.observations + added, f, d);
      CountConcat(s.observations, added, f, d);
      CountIsBounded(added, f, d);
    }
  }

  lemma CountIsBounded(obs: seq<Observation>, f: Floors, d: int)
    ensures Count(obs, f, d) <= |obs|
  {
  }

  lemma {:induction false} VotesGrowWithNewWindows(previous: Option<State>, edges: seq<Edge>, identity: string,
                                                   f: Floors, i: nat, d: int)
    requires i <= |edges|
    ensures Count(StateAfter(previous, edges, identity, f).observations, f, d) <=
            Count(StateAfter(previous, edges[..i], identity, f).observations, f, d)
              + NewWindows(previous, edges, identity, f, i)
  {
    hide Count, NextState, NewlyAccepts;
    if i == |edges| {
      assert edges[..i] == edges;
    } else {
      var before := edges[..|edges| - 1];
      assert before[..i] == edges[..i];
      VotesGrowWithNewWindows(previous, before, identity, f, i, d);
      CarriedUnchanged(previous, before, identity, f);
      StepAddsOneVote(StateAfter(previous, before, identity, f), Last(edges), f, d);
    }
  }

  /** The agreement floor never decides: over at most eight windows a verdict is supported exactly when
      six of them vote one way and the current window is with them. */
  lemma SupportIsSixOfEight(obs: seq<Observation>, f: Floors, o: Observation)
    requires |obs| <= MAXIMUM_OBSERVATIONS
    ensures Judge(obs, f, o).supported <==>
            exists d :: d in {1, -1} && Count(obs, f, d) >= MINIMUM_SUPPORTING && Vote(o, f) == d
    ensures Judge(obs, f, o).supported ==> Judge(obs, f, o).direction == Vote(o, f)
  {
    CountsAreDisjoint(obs, f);
    hide VotingFor, Vote;
    var direction := Majority(obs, f);
    if direction != 0 && Count(obs, f, direction) >= MINIMUM_SUPPORTING {
      AgreementOfSix(Count(obs, f, direction), |obs|);
      assert direction in {1, -1};
    }
  }

  lemma AgreementOfSix(votes: nat, windows: nat)
    requires MINIMUM_SUPPORTING <= votes && 1 <= windows <= MAXIMUM_OBSERVATIONS
    ensures votes as real / windows as real >= MINIMUM_AGREEMENT
  {
    assert votes as real >= 0.75 * windows as real;
    QuotientRises(0.75 * windows as real, votes as real, windows as real);
  }

  lemma EvidenceJudgesState(previous: Option<State>, edges: seq<Edge>, identity: string, f: Floors)
    requires edges != [] && EvidenceAfter(previous, edges, identity, f).supported
    ensures
      var s, e := StateAfter(previous, edges, identity, f), EvidenceAfter(previous, edges, identity, f);
      && |s.observations| <= MAXIMUM_OBSERVATIONS
      && (e.direction == 1 || e.direction == -1)
      && Count(s.observations, f, e.direction) >= MINIMUM_SUPPORTING
  {
    hide Recent, VotingFor, Vote, Increasing;
    CarriedUnchanged(previous, edges[..|edges| - 1], identity, f);
    CarriedUnchanged(previous, edges, identity, f);
  }

  /** Hysteresis.  Between a supported verdict and a later one in the other direction at least four
      new windows have been accepted, whatever was retried, rejected or aged out in between. */
  lemma ReversalNeedsFourNewWindows(previous: Option<State>, edges: seq<Edge>, identity: string, f: Floors, i: nat)
    requires 0 < i <= |edges|
    requires EvidenceAfter(previous, edges[..i], identity, f).supported
    requires EvidenceAfter(previous, edges, identity, f).supported
    requires EvidenceAfter(previous, edges[..i], identity, f).direction
             != EvidenceAfter(previous, edges, identity, f).direction
    ensures NewWindows(previous, edges, identity, f, i) >= 4
  {
    hide Count, NextState, NextEvidence, NewWindows, StateAfter, EvidenceAfter;
    var d := EvidenceAfter(previous, edges, identity, f).direction;
    EvidenceJudgesState(previous, edges[..i], identity, f);
    EvidenceJudgesState(previous, edges, identity, f);
    CountsAreDisjoint(StateAfter(previous, edges[..i], identity, f).observations, f);
    VotesGrowWithNewWindows(previous, edges, identity, f, i, d);
  }

  // ----- What the retained windows are, and that four is the best bound -----

  /** Every window accepted in a run (retries are not new windows). */
  function Accepted(edges: seq<Edge>, identity: string, f: Floors): seq<Observation> {
    if edges == [] then []
    else
      var before := edges[..|edges| - 1];
      Accepted(before, identity, f) +
        if NewlyAccepts(StateAfter(None, before, identity, f), Last(edges), f) then [Observe(Last(edges), f)] else []
  }

  ghost predicate HoldsLastEight(obs: seq<Observation>, log: seq<Observation>) {
    && Increasing(log)
    && (log == [] ==> obs == [])
    && (log != [] ==> obs != [] && Last(obs) == Last(log) &&
                      obs == LastOf(Recent(log, Last(log).observedAt.value), MAXIMUM_OBSERVATIONS))
  }

  lemma LastOfTail<T>(r: seq<T>, whole: seq<T>, n: nat)
    requires |whole| <= |r| + 1
    ensures LastOf(LastOf(whole, |LastOf(r, n)| + 1), n) == LastOf(whole, n)
  {
  }

  lemma LastOfAppend<T>(r: seq<T>, n: nat, x: T)
    ensures LastOf(r, n) + [x] == (r + [x])[|r| - |LastOf(r, n)|..]
  {
  }

  lemma LastEightAfterNew(obs: seq<Observation>, log: seq<Observation>, o: Observation)
    requires HoldsLastEight(obs, log) && o.observedAt.Some?
    requires log != [] ==> Last(log).observedAt.value < o.observedAt.value
    ensures Dated(obs + [o]) && Increasing(log + [o])
    ensures LastOf(Recent(obs + [o], o.observedAt.value), MAXIMUM_OBSERVATIONS)
         == LastOf(Recent(log + [o], o.observedAt.value), MAXIMUM_OBSERVATIONS)
  {
    IncreasingAppend(log, o);
    if log != [] {
      var now, later := Last(log).observedAt.value, o.observedAt.value;
      hide Recent, Increasing;
      RecentIsSuffix(log, now);
      IncreasingSuffix(Recent(log, now), log);
      RecentKeepsNewest(log, Last(log));
      RecentTwice(log, now, later);
      RecentAppend(log, o, later);
      TailAfterNew(Recent(log, now), o);
    }
  }

  /** Ageing the newest part of a list with one more window. */
  lemma RecentOfNewest(r: seq<Observation>, o: Observation, n: nat)
    requires Increasing(r + [o]) && o.observedAt.Some?
    ensures
      var kept := LastOf(r, n);
      && |kept| <= |r| && Dated(kept + [o]) && Dated(r + [o])
      && Recent(kept + [o], o.observedAt.value) == LastOf(Recent(r + [o], o.observedAt.value), |kept| + 1)
  {
    var kept, whole := LastOf(r, n), r + [o];
    assert |kept| <= |r|;
    var cut := |r| - |kept|;
    LastOfAppend(r, n, o);
    SuffixIncreasing(whole, cut);
    IncreasingIsDated(whole);
    IncreasingIsDated(whole[cut..]);
    hide Recent, Increasing, LastOf;
    RecentTail(whole, cut, o.observedAt.value);
  }

  lemma TailAfterNew(r: seq<Observation>, o: Observation)
    requires Increasing(r) && o.observedAt.Some? && (r != [] ==> Last(r).observedAt.value < o.observedAt.value)
    ensures
      var tail := LastOf(r, MAXIMUM_OBSERVATIONS) + [o];
      Dated(tail) && Dated(r) &&
      LastOf(Recent(tail, o.observedAt.value), MAXIMUM_OBSERVATIONS)
        == LastOf(Recent(r, o.observedAt.value) + [o], MAXIMUM_OBSERVATIONS)
  {
    IncreasingAppend(r, o);
    hide Recent, Increasing, LastOf;
    RecentOfNewest(r, o, MAXIMUM_OBSERVATIONS);
    RecentAppend(r, o, o.observedAt.value);
    LastOfTail(r, Recent(r + [o], o.observedAt.value), MAXIMUM_OBSERVATIONS);
  }

  lemma IncreasingAppend(obs: seq<Observation>, o: Observation)
    requires Increasing(obs) && o.observedAt.Some? && (obs != [] ==> Last(obs).observedAt.value < o.observedAt.value)
    ensures Increasing(obs + [o]) && Dated(obs)
  {
  }

  /** At every point of every run the reducer holds exactly the newest eight of the windows it ever
      accepted, among those no more than thirty days older than the newest. */
  lemma {:induction false} MemoryIsTheLastEight(edges: seq<Edge>, identity: string, f: Floors)
    ensures HoldsLastEight(StateAfter(None, edges, identity, f).observations, Accepted(edges, identity, f))
  {
    if edges != [] {
      var before, edge := edges[..|edges| - 1], Last(edges);
      MemoryIsTheLastEight(before, identity, f);
      CarriedUnchanged(None, before, identity, f);
      var s, log, o := StateAfter(None, before, identity, f), Accepted(before, identity, f), Observe(edge, f);
      assert log + [] == log;
      if Accepts(s.observations, edge, o) {
        AdvanceKeepsInvariant(s.observations, edge, o);
        hide Recent, Increasing;
        if IsRetry(s.observations, o) {
          RecentKeepsAll(s.observations, o.observedAt.value) by { RetryHorizon(s.observations, log); }
        } else {
          LastEightAfterNew(s.observations, log, o);
        }
      }
    }
  }

  lemma RetryHorizon(obs: seq<Observation>, log: seq<Observation>)
    requires HoldsLastEight(obs, log) && log != []
    ensures Increasing(obs) && Last(log).observedAt.value - obs[0].observedAt.value <= MAXIMUM_AGE
  {
    var r := Recent(log, Last(log).observedAt.value);
    RecentIsSuffix(log, Last(log).observedAt.value);
    IncreasingSuffix(r, log);
    IncreasingSuffix(obs, r);
    FirstIsOldest(r, |r| - |obs|);
  }

  /** At every point of every run from a fresh state, a window is accepted exactly when it is readable and
      either ends later than everything retained or repeats the newest window unaltered, with a delta that
      is a number.  A refused window changes nothing and supports nothing. */
  lemma OnlyALaterWindowIsAccepted(edges: seq<Edge>, identity: string, f: Floors, edge: Edge)
    ensures
      var s, o := StateAfter(None, edges, identity, f), Observe(edge, f);
      && (Accepts(s.observations, edge, o) <==>
            && ReadableWindow(edge)
            && (|| s.observations == []
                || (Last(s.observations).observedAt.Some? && Last(s.observations).observedAt.value < edge.end.time)
                || (o == Last(s.observations) && !edge.delta.NotANumber?)))
      && (!Accepts(s.observations, edge, o) <==> NextEvidence(s, edge, f).status == Limited)
      && (!Accepts(s.observations, edge, o) ==> NextState(s, edge, f) == s && !NextEvidence(s, edge, f).supported)
  {
    hide Advance, VotingFor, Vote;
    var s, log := StateAfter(None, edges, identity, f), Accepted(edges, identity, f);
    MemoryIsTheLastEight(edges, identity, f);
    if log != [] { RetryHorizon(s.observations, log); }
    hide StateAfter, Accepted, HoldsLastEight, Recent;
  }

  /** A run of readable, spaced windows within thirty days: every one is new and is accepted. */
  predicate Spaced(edges: seq<Edge>) {
    && (forall i :: 0 <= i < |edges| ==> edges[i].end.At? && edges[i].start.Absent?)
    && (forall i, j :: 0 <= i < j < |edges| ==> 0 < edges[j].end.time - edges[i].end.time <= MAXIMUM_AGE)
  }

  function ObserveAll(edges: seq<Edge>, f: Floors): (obs: seq<Observation>)
    ensures |obs| == |edges| && forall i :: 0 <= i < |edges| ==> obs[i] == Observe(edges[i], f)
  {
    seq(|edges|, i requires 0 <= i < |edges| => Observe(edges[i], f))
  }

  /** A later window, all others within thirty days of it, is a new one, and nothing ages out. */
  lemma AdvanceInSpan(before: seq<Observation>, edge: Edge, o: Observation)
    requires Increasing(before) && ReadableWindow(edge) && o.observedAt == Some(edge.end.time)
    requires before != [] ==> Last(before).observedAt.value < edge.end.time <= before[0].observedAt.value + MAXIMUM_AGE
    ensures
      var obs := LastOf(before, MAXIMUM_OBSERVATIONS);
      && Dated(obs) && Accepts(obs, edge, o) && !IsRetry(obs, o)
      && Advance(obs, o) == LastOf(before + [o], MAXIMUM_OBSERVATIONS)
  {
    hide Recent, Increasing;
    var obs := LastOf(before, MAXIMUM_OBSERVATIONS);
    IncreasingSuffix(obs, before);
    TailAfterNew(before, o);
    RecentKeepsAll(before, o.observedAt.value);
    DatedPrefix(obs, o);
  }

  lemma SpacedStep(edges: seq<Edge>, f: Floors)
    requires Spaced(edges) && edges != []
    ensures
      var obs, o := LastOf(ObserveAll(edges[..|edges| - 1], f), MAXIMUM_OBSERVATIONS), Observe(Last(edges), f);
      && Dated(obs) && Accepts(obs, Last(edges), o) && !IsRetry(obs, o)
      && Advance(obs, o) == LastOf(ObserveAll(edges, f), MAXIMUM_OBSERVATIONS)
  {
    hide Recent, Accepts, IsRetry, Advance;
    var n := |edges| - 1;
    var before, o := ObserveAll(edges[..n], f), Observe(edges[n], f);
    assert ObserveAll(edges, f) == before + [o];
    assert edges[n].end.At? && edges[n].start.Absent?;
    if n > 0 {
      assert before[0] == Observe(edges[0], f) && Last(before) == Observe(edges[n - 1], f);
      assert 0 < edges[n].end.time - edges[n - 1].end.time && edges[n].end.time - edges[0].end.time <= MAXIMUM_AGE;
    }
    SpacedPrefix(edges, n);
    SpacedIsIncreasing(edges[..n], f);
    AdvanceInSpan(before, edges[n], o);
  }

  lemma DatedPrefix(obs: seq<Observation>, o: Observation)
    requires Dated(obs + [o])
    ensures Dated(obs)
  {
    assert forall w :: w in obs ==> w in obs + [o];
  }

  lemma SpacedIsIncreasing(edges: seq<Edge>, f: Floors)
    requires Spaced(edges)
    ensures Increasing(ObserveAll(edges, f))
  {
  }

  lemma {:induction false} SpacedRun(edges: seq<Edge>, identity: string, f: Floors, i: nat)
    requires Spaced(edges) && i <= |edges|
    ensures StateAfter(None, edges, identity, f).observations == LastOf(ObserveAll(edges, f), MAXIMUM_OBSERVATIONS)
    ensures NewWindows(None, edges, identity, f, i) == |edges| - i
    ensures edges != [] ==>
      EvidenceAfter(None, edges, identity, f) ==
        Judge(StateAfter(None, edges, identity, f).observations, f, Observe(Last(edges), f))
  {
    hide Advance, Accepts, IsRetry, Judge, Spaced;
    if edges != [] {
      var before := edges[..|edges| - 1];
      assert Spaced(before) by { SpacedPrefix(edges, |edges| - 1); }
      SpacedRun(before, identity, f, if i < |edges| then i else i - 1);
      CarriedUnchanged(None, before, identity, f);
      SpacedStep(edges, f);
    }
  }

  lemma SpacedPrefix(edges: seq<Edge>, n: nat)
    requires Spaced(edges) && n <= |edges|
    ensures Spaced(edges[..n])
  {
  }

  predicate AllVote(obs: seq<Observation>, f: Floors, v: int) {
    forall k :: 0 <= k < |obs| ==> Vote(obs[k], f) == v
  }

  lemma {:induction false} UniformVotes(obs: seq<Observation>, f: Floors, v: int, d: int)
    requires AllVote(obs, f, v)
    ensures Count(obs, f, d) == if d == v then |obs| else 0
  {
    if obs != [] {
      UniformVotes(obs[1..], f, v, d);
    }
  }

  lemma BlockVotes(a: seq<Observation>, b: seq<Observation>, c: seq<Observation>, e: seq<Observation>, f: Floors,
                   d: int)
    requires AllVote(a, f, 1) && AllVote(b, f, -1) && AllVote(c, f, 1) && AllVote(e, f, -1)
    requires d == 1 || d == -1
    ensures Count(a + b + c + e, f, d) == if d == 1 then |a| + |c| else |b| + |e|
  {
    hide Count;
    UniformVotes(a, f, 1, d);
    UniformVotes(b, f, -1, d);
    UniformVotes(c, f, 1, d);
    UniformVotes(e, f, -1, d);
    CountConcat(a + b + c, e, f, d);
    CountConcat(a + b, c, f, d);
    CountConcat(a, b, f, d);
  }

  /** The window at instant k of the reversing run: positive except at 5, 6 and from 8 on. */
  function ReversingEdge(k: nat, f: Floors): Edge {
    Edge(Absent, At(k), Finite(if k < 5 || k == 7 then 0.2 else -0.2), f.confidence, f.quality, true, "")
  }

  function ReversingRun(f: Floors): (edges: seq<Edge>)
    ensures |edges| == 12 && forall k :: 0 <= k < 12 ==> edges[k] == ReversingEdge(k, f)
  {
    seq(12, k requires 0 <= k < 12 => ReversingEdge(k, f))
  }

  lemma ReversingVotes(f: Floors, d: int)
    requires d == 1 || d == -1
    ensures
      var obs := ObserveAll(ReversingRun(f), f);
      && Count(obs[..8], f, d) == (if d == 1 then 6 else 2)
      && Count(obs[4..], f, d) == (if d == 1 then 2 else 6)
  {
    var obs := ObserveAll(ReversingRun(f), f);
    assert |obs| == 12;
    forall k | 0 <= k < 12
      ensures Vote(obs[k], f) == if k < 5 || k == 7 then 1 else -1
    {
    }
    hide *;
    Slice(obs, f, 0, 5, 1);
    Slice(obs, f, 4, 5, 1);
    Slice(obs, f, 5, 7, -1);
    Slice(obs, f, 7, 8, 1);
    Slice(obs, f, 8, 8, -1);
    Slice(obs, f, 8, 12, -1);
    FourParts(obs, 0, 5, 7, 8, 8);
    BlockVotes(obs[0..5], obs[5..7], obs[7..8], obs[8..8], f, d);
    FourParts(obs, 4, 5, 7, 8, 12);
    BlockVotes(obs[4..5], obs[5..7], obs[7..8], obs[8..12], f, d);
    assert obs[..8] == obs[0..8] && obs[4..] == obs[4..12];
  }

  lemma Slice(obs: seq<Observation>, f: Floors, a: nat, b: nat, v: int)
    requires a <= b <= |obs| && forall k :: a <= k < b ==> Vote(obs[k], f) == v
    ensures AllVote(obs[a..b], f, v)
  {
    hide Vote;
  }

  lemma FourParts<T>(xs: seq<T>, a: nat, b: nat, c: nat, d: nat, e: nat)
    requires a <= b <= c <= d <= e <= |xs|
    ensures xs[a..e] == xs[a..b] + xs[b..c] + xs[c..d] + xs[d..e]
  {
    Joins(xs, a, b, c);
    Joins(xs, a, c, d);
    Joins(xs, a, d, e);
  }

  lemma Joins<T>(xs: seq<T>, a: nat, b: nat, c: nat)
    requires a <= b <= c <= |xs|
    ensures xs[a..b] + xs[b..c] == xs[a..c]
  {
  }

  /** Four is the best possible: here is a run supported one way after eight windows and the other
      way four windows later. */
  lemma ReversalInFour(identity: string, f: Floors)
    ensures
      var edges := ReversingRun(f);
      var before, after := EvidenceAfter(None, edges[..8], identity, f), EvidenceAfter(None, edges, identity, f);
      && before.supported && before.direction == 1
      && after.supported && after.direction == -1
      && NewWindows(None, edges, identity, f, 8) == 4
  {
    var edges := ReversingRun(f);
    var obs := ObserveAll(edges, f);
    assert ObserveAll(edges[..8], f) == obs[..8];
    assert Spaced(edges);
    assert Vote(Observe(edges[7], f), f) == 1 && Vote(Observe(edges[11], f), f) == -1;
    ReversingVotes(f, 1);
    ReversingVotes(f, -1);
    JudgeByCounts(obs[..8], f, Observe(edges[7], f), 1);
    JudgeByCounts(obs[4..], f, Observe(edges[11], f), -1);
    hide Count, Vote, Judge, Observe, StateAfter, EvidenceAfter, NewWindows, Spaced;
    SpacedPrefix(edges, 8);
    SpacedRun(edges, identity, f, 8);
    SpacedRun(edges[..8], identity, f, 8);
  }

  lemma JudgeByCounts(obs: seq<Observation>, f: Floors, o: Observation, d: int)
    requires |obs| == MAXIMUM_OBSERVATIONS && (d == 1 || d == -1)
    requires Count(obs, f, d) == 6 && Count(obs, f, -d) == 2 && Vote(o, f) == d
    ensures Judge(obs, f, o).supported && Judge(obs, f, o).direction == d
  {
    hide VotingFor, Vote;
    assert Max(1, |obs|) == 8;
  }
}
