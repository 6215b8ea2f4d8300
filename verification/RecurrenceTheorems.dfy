/** What a verdict of the recurrence reducer is worth, call by call and over whole runs. */
module RecurrenceTheorems {
  import opened Common
  import opened RecurrenceEpisodes
  import opened RecurrenceVariations
  import opened RelationshipRecurrence
  import opened RecurrenceRuns

  // ----- Soundness of a supported verdict -----

  /** Two adjacent retained windows displaced against the direction d. */
  ghost predicate OpposedSomewhere(obs: seq<Observation>, f: Floors, d: int) {
    exists k :: SustainedAt(ReadAll(obs, f), k) && ReadAll(obs, f)[k].sign == -d
  }

  /** A verdict supports a direction only on at least three episodes of that direction, each sound and
      separated in time from the next, with no two adjacent windows anywhere opposing it. */
  lemma SupportedVerdictIsSound(s: State, f: Floors, o: Observation)
    requires Chronological(s.observations)
    ensures
      var v := Judge(s, f, o);
      v.supported ==>
        && o.acceptable && s.overflowUntil.None? && (v.direction == 1 || v.direction == -1)
        && v.episodeCount == |v.episodes| >= MINIMUM_EPISODES
        && (forall i :: 0 <= i < |v.episodes| ==>
              v.episodes[i].direction == v.direction && SoundEpisode(v.episodes[i], s.observations))
        && (forall i, j :: 0 <= i < j < |v.episodes| ==> v.episodes[i].closedAt <= v.episodes[j].startedAt)
        && !OpposedSomewhere(s.observations, f, v.direction)
  {
    var v, armed, obs := Judge(s, f, o), !s.requiresInitialReturn, s.observations;
    if v.supported {
      SustainedSignsAre(obs, f);
      SingleSign(AllSustained(obs, f));
      hide Acceptable, Closes, SoundEpisode, EpisodeAt, Chronological, AllEpisodes, AllSustained, OpposedSomewhere;
      EpisodesAreSound(obs, f, armed, v.direction);
      SignsAreOpposed(obs, f, 1);
      SignsAreOpposed(obs, f, -1);
    }
  }

  lemma EpisodesAreSound(obs: seq<Observation>, f: Floors, armed: bool, d: int)
    requires Chronological(obs) && AllSustained(obs, f) == {d}
    ensures
      var es := AllEpisodes(obs, f, armed);
      && (forall i :: 0 <= i < |es| ==> es[i].direction == d && SoundEpisode(es[i], obs))
      && (forall i, j :: 0 <= i < j < |es| ==> es[i].closedAt <= es[j].startedAt)
  {
    hide Acceptable, Closes, SoundEpisode, EpisodeAt, Chronological, AllSustained;
    var es := AllEpisodes(obs, f, armed);
    forall i | 0 <= i < |es|
      ensures es[i].direction == d && SoundEpisode(es[i], obs)
    {
      EpisodeDirectionSustained(obs, f, armed, i);
      EpisodeIsSound(obs, f, armed, Closings(ReadAll(obs, f), armed, |obs|)[i]);
    }
    forall i, j | 0 <= i < j < |es|
      ensures es[i].closedAt <= es[j].startedAt
    {
      EpisodesDoNotOverlap(obs, f, armed, i, j);
    }
  }

  /** And it withholds support only for want of one of these: the converse, with the veto spelled out. */
  lemma SupportIsWithheldOnlyForCause(s: State, f: Floors, o: Observation)
    requires s.overflowUntil.None? && o.acceptable
    requires |AllEpisodes(s.observations, f, !s.requiresInitialReturn)| >= MINIMUM_EPISODES
    ensures !Judge(s, f, o).supported <==>
            OpposedSomewhere(s.observations, f, 1) && OpposedSomewhere(s.observations, f, -1)
  {
    var obs, armed := s.observations, !s.requiresInitialReturn;
    var signs := AllSustained(obs, f);
    SustainedSignsAre(obs, f);
    SingleSign(signs);
    EpisodeDirectionSustained(obs, f, armed, 0);
    SignsAreOpposed(obs, f, 1);
    SignsAreOpposed(obs, f, -1);
  }

  lemma SignsAreOpposed(obs: seq<Observation>, f: Floors, d: int)
    ensures -d in AllSustained(obs, f) <==> OpposedSomewhere(obs, f, d)
  {
    var r := ReadAll(obs, f);
    if -d in AllSustained(obs, f) {
      var k :| 0 <= k < |r| - 1 && SustainedAt(r, k) && r[k].sign == -d;
    }
  }

  // ----- Bounded memory never invents evidence, over runs -----

  lemma SpokenEvidence(edges: seq<Edge>, identity: string, f: Floors)
    requires edges != []
    requires AcceptsEdge(StateAfter(edges[..|edges| - 1], identity, f, None), Last(edges), f)
    requires |StateAfter(edges, identity, f, None).observations| <= MAXIMUM_OBSERVATIONS
    ensures
      var u := StateAfter(edges, identity, f, None);
      && StateAfter(edges, identity, f, Some(MAXIMUM_OBSERVATIONS)) == u
      && EvidenceAfter(edges, identity, f, Some(MAXIMUM_OBSERVATIONS)).episodes ==
        AllEpisodes(u.observations, f, !u.requiresInitialReturn)
  {
    hide AllEpisodes, AllSustained, StateAfter, Advance, Accepts, Chronological, Acceptable;
    CappedRefinesUnbounded(edges, identity, f, MAXIMUM_OBSERVATIONS);
    CappedEvidenceIsUnboundedOrSilent(edges, identity, f);
    LastStep(edges, identity, f, None);
  }

  /** Whenever the capped reducer speaks, the episodes it reports are the final episodes of the whole
      history accepted since the last restart, and its directions are among that history's. */
  lemma RunsReportTheLastEpisodes(edges: seq<Edge>, identity: string, f: Floors)
    requires edges != []
    requires AcceptsEdge(StateAfter(edges[..|edges| - 1], identity, f, None), Last(edges), f)
    requires |StateAfter(edges, identity, f, None).observations| <= MAXIMUM_OBSERVATIONS
    ensures
      var history := SinceRestart(Accepted(edges, identity, f));
      var c := StateAfter(edges, identity, f, Some(MAXIMUM_OBSERVATIONS));
      && IsSuffix(EvidenceAfter(edges, identity, f, Some(MAXIMUM_OBSERVATIONS)).episodes, AllEpisodes(history, f, true))
      && AllSustained(c.observations, f) <= AllSustained(history, f)
  {
    hide AllEpisodes, AllSustained, Retain, Acceptable, Chronological, Accepted, StateAfter, Advance, SinceRestart;
    hide IsSuffix, EvidenceAfter, AcceptsEdge, LastOf;
    var log := Accepted(edges, identity, f);
    var history := SinceRestart(log);
    var u := StateAfter(edges, identity, f, None);
    SpokenEvidence(edges, identity, f);
    MemoryIsTheHorizon(edges, identity, f);
    SinceRestartFits(log);
    if log == [] {
      assert history == [] && u.observations == [];
      EverythingEndsItself(AllEpisodes(history, f, true));
    } else {
      RetainIsSuffix(history, Last(log).end - MAXIMUM_AGE);
      var older := SuffixSplits(u.observations, history);
      TruncationInventsNothing(older, u.observations, f, true);
      if !u.requiresInitialReturn {
        assert |older| == 0;
        assert u.observations == history;
        EverythingEndsItself(AllEpisodes(history, f, true));
      }
    }
  }

  lemma EverythingEndsItself<T>(xs: seq<T>)
    ensures IsSuffix(xs, xs)
  {
  }

  // ----- Retries -----

  /** Submitting the same window again leaves the state as it is, and repeats the evidence exactly
      unless its delta is not a number (which is unequal to a separately supplied one). */
  lemma RetryIsIdempotent(s: State, edge: Edge, f: Floors, cap: nat)
    requires cap > 0 && AcceptsEdge(s, edge, f)
    ensures
      var after := NextState(s, edge, f, Some(cap));
      && NextState(after, edge, f, Some(cap)) == after
      && (NextEvidence(after, edge, f, Some(cap)) == NextEvidence(s, edge, f, Some(cap)) <==>
          !(edge.delta.NotANumber? && !Overlong(Observe(edge, f))))
  {
    hide Retain, Chronological, Acceptable, AllEpisodes, AllSustained;
    var o := Observe(edge, f);
    var after := Advance(s, o, Some(cap));
    AdvanceKeepsInvariant(s, o, Some(cap));
    var cutoff := o.end - MAXIMUM_AGE;
    NewestSurvives(s, o, cap);
    if Overlong(o) {
      RetainNone([o], cutoff);
      assert [] + [o] == [o];
    } else {
      RetainAll(after.observations, cutoff);
    }
  }

  /** At every point of every run a window is accepted exactly when it is readable, starts before it
      ends, and either starts no earlier than everything retained has ended or repeats the newest window
      unaltered, with a delta that is a number.  A refused window changes nothing and supports nothing. */
  lemma OnlyTheNextWindowIsAccepted(edges: seq<Edge>, identity: string, f: Floors, edge: Edge)
    ensures
      var cap := Some(MAXIMUM_OBSERVATIONS);
      var s := StateAfter(edges, identity, f, cap);
      && (AcceptsEdge(s, edge, f) <==>
            && edge.start.Some? && edge.end.Some? && edge.start.value < edge.end.value
            && (|| s.observations == []
                || Last(s.observations).end <= edge.start.value
                || (Observe(edge, f) == Last(s.observations) && !edge.delta.NotANumber?)))
      && (!AcceptsEdge(s, edge, f) <==> NextEvidence(s, edge, f, cap).reason == Some(InvalidOrNonchronologicalWindow))
      && (!AcceptsEdge(s, edge, f) ==> NextState(s, edge, f, cap) == s && !NextEvidence(s, edge, f, cap).supported)
  {
    hide StateAfter, Chronological, Advance, AllEpisodes, AllSustained, Acceptable;
    var c, u := StateAfter(edges, identity, f, Some(MAXIMUM_OBSERVATIONS)), StateAfter(edges, identity, f, None);
    CappedRefinesUnbounded(edges, identity, f, MAXIMUM_OBSERVATIONS);
    SuffixChronological(c.observations, u.observations);
  }

  lemma NewestSurvives(s: State, o: Observation, cap: nat)
    requires cap > 0 && Accepts(s, o)
    ensures var kept := Advance(s, o, Some(cap)).observations;
      if Overlong(o) then kept == [] else kept != [] && Last(kept) == Last(Candidates(s, o))
    ensures Last(Candidates(s, o)) == o
  {
    hide Chronological, Retain;
    CandidatesChronological(s, o);
    var candidates, cutoff := Candidates(s, o), o.end - MAXIMUM_AGE;
    assert Last(candidates) == o;
    hide Accepts, Candidates;
    if Overlong(o) {
      NothingOutlives(candidates, cutoff);
    } else {
      RetainLast(candidates, cutoff);
    }
  }

  lemma NothingOutlives(obs: seq<Observation>, cutoff: int)
    requires Chronological(obs) && obs != [] && Last(obs).start < cutoff
    ensures Retain(obs, cutoff) == []
  {
    hide Chronological;
    forall o | o in obs
      ensures o.start < cutoff
    {
      var i :| 0 <= i < |obs| && obs[i] == o;
      Order(obs, i, |obs| - 1);
    }
    RetainNone(obs, cutoff);
  }

  // ----- Negating every delta -----

  function NegateEdge(e: Edge): Edge {
    e.(delta := NegateNumber(e.delta))
  }

  function NegateEdges(edges: seq<Edge>): (n: seq<Edge>)
    ensures |n| == |edges| && forall i :: 0 <= i < |edges| ==> n[i] == NegateEdge(edges[i])
  {
    seq(|edges|, i requires 0 <= i < |edges| => NegateEdge(edges[i]))
  }

  function NegateState(s: State): State {
    s.(observations := NegateAll(s.observations))
  }

  ghost predicate NegatedEvidence(n: Evidence, e: Evidence) {
    && n == e.(direction := -e.direction, episodes := n.episodes)
    && |n.episodes| == |e.episodes|
    && forall i :: 0 <= i < |e.episodes| ==> n.episodes[i] == NegateEpisode(e.episodes[i])
  }

  lemma {:induction false} NegatedRetain(obs: seq<Observation>, cutoff: int)
    ensures Retain(NegateAll(obs), cutoff) == NegateAll(Retain(obs, cutoff))
  {
    if obs != [] {
      NegatedRetain(obs[1..], cutoff);
      assert NegateAll(obs)[1..] == NegateAll(obs[1..]);
    }
  }

  lemma NegatedAccepts(s: State, o: Observation)
    ensures Accepts(NegateState(s), Negate(o)) <==> Accepts(s, o)
    ensures IsRetry(NegateState(s), Negate(o)) <==> IsRetry(s, o)
    ensures Candidates(NegateState(s), Negate(o)) == NegateAll(Candidates(s, o))
  {
    assert Chronological(NegateAll(s.observations)) <==> Chronological(s.observations);
    if s.observations != [] { NegatedIdentical(o, Last(s.observations)); }
  }

  lemma NegatedIdentical(a: Observation, b: Observation)
    ensures Identical(Negate(a), Negate(b)) <==> Identical(a, b)
  {
    NegateTwice(a.delta);
    NegateTwice(b.delta);
  }

  lemma NegateTwice(x: Number)
    ensures NegateNumber(NegateNumber(x)) == x
  {
  }

  lemma NegatedLastOf(obs: seq<Observation>, n: nat)
    ensures LastOf(NegateAll(obs), n) == NegateAll(LastOf(obs, n))
  {
  }

  lemma NegatedAdvance(s: State, o: Observation, cap: Option<nat>)
    ensures Advance(NegateState(s), Negate(o), cap) == NegateState(Advance(s, o, cap))
  {
    NegatedAccepts(s, o);
    hide Retain, Candidates, LastOf, Accepts, IsRetry;
    NegatedRetain(Candidates(s, o), o.end - MAXIMUM_AGE);
    if cap.Some? { NegatedLastOf(Retain(Candidates(s, o), o.end - MAXIMUM_AGE), cap.value); }
  }

  lemma NegatedVerdict(obs: seq<Observation>, f: Floors, armed: bool, acceptable: bool, end: int)
    ensures NegatedEvidence(Verdict(NegateAll(obs), f, armed, acceptable, end), Verdict(obs, f, armed, acceptable, end))
  {
    hide AllEpisodes, AllSustained;
    NegationOnlyFlipsDirections(obs, f, armed);
    SustainedSignsAre(obs, f);
    SustainedSignsAre(NegateAll(obs), f);
    SingleSign(AllSustained(obs, f));
    SingleSign(AllSustained(NegateAll(obs), f));
  }

  /** One call on negated data gives the negated state and the evidence with its directions flipped. */
  lemma NegatedStep(s: State, edge: Edge, f: Floors, cap: Option<nat>)
    ensures NextState(NegateState(s), NegateEdge(edge), f, cap) == NegateState(NextState(s, edge, f, cap))
    ensures NegatedEvidence(NextEvidence(NegateState(s), NegateEdge(edge), f, cap), NextEvidence(s, edge, f, cap))
  {
    hide Verdict, Advance, Accepts;
    if edge.start.Some? && edge.end.Some? {
      var o := Observe(edge, f);
      assert Observe(NegateEdge(edge), f) == Negate(o);
      NegatedAccepts(s, o);
      NegatedAdvance(s, o, cap);
      var after := Advance(s, o, cap);
      NegatedVerdict(after.observations, f, !after.requiresInitialReturn, o.acceptable, o.end);
    }
  }

  /** Over whole runs, negating every delta negates the directions reported and nothing else. */
  lemma {:induction false} NegatedRun(edges: seq<Edge>, identity: string, f: Floors, cap: Option<nat>)
    ensures StateAfter(NegateEdges(edges), identity, f, cap) == NegateState(StateAfter(edges, identity, f, cap))
    ensures edges != [] ==>
      NegatedEvidence(EvidenceAfter(NegateEdges(edges), identity, f, cap), EvidenceAfter(edges, identity, f, cap))
  {
    if edges != [] {
      var before := edges[..|edges| - 1];
      assert NegateEdges(edges)[..|edges| - 1] == NegateEdges(before);
      assert Last(NegateEdges(edges)) == NegateEdge(Last(edges));
      LastStep(edges, identity, f, cap);
      LastStep(NegateEdges(edges), identity, f, cap);
      hide StateAfter, NextState, NextEvidence, NegatedEvidence, NegateState, NegateEdges, NegateEdge;
      NegatedRun(before, identity, f, cap);
      NegatedStep(StateAfter(before, identity, f, cap), Last(edges), f, cap);
    }
  }
}
