/** What a verdict of the persistence reducer says, told on the retained windows themselves. */
module ChangeVerdicts {
  import opened Common
  import opened RelationshipChange

  /** The window is displaced in direction d, and nothing speaks against counting it. */
  predicate Backs(o: Observation, f: Floors, d: int) {
    && o.eligible && o.acceptable && o.confidence >= f.confidence && o.quality >= f.quality
    && o.delta.Finite? && if d == 1 then o.delta.value >= 0.15 else d == -1 && o.delta.value <= -0.15
  }

  /** What is kept of a submitted window: its end, its values, and whether it meets the floors. */
  predicate Records(o: Observation, edge: Edge, f: Floors) {
    && edge.end.At? && o.observedAt == Some(edge.end.time)
    && o.delta == edge.delta && o.confidence == edge.confidence && o.quality == edge.quality
    && o.eligible == edge.eligible && o.detail == edge.detail
    && (o.acceptable <==>
          edge.eligible && edge.delta.Finite? && edge.confidence >= f.confidence && edge.quality >= f.quality)
  }

  lemma {:induction false} VotersAre(obs: seq<Observation>, f: Floors, d: int) returns (at: seq<nat>)
    requires d == 1 || d == -1
    ensures Selects(obs, (o: Observation) => Backs(o, f, d), at) && TakenAt(VotingFor(obs, f, d), obs, at)
  {
    if obs == [] {
      at := [];
    } else {
      var init, last := obs[..|obs| - 1], Last(obs);
      at := VotersAre(init, f, d);
      assert obs == init + [last];
      VotingConcat(init, last, f, d);
      VoteIsBacking(last, f, d);
      SelectsOneMore(obs, (o: Observation) => Backs(o, f, d), at);
      TakenOneMore(VotingFor(init, f, d), obs, at, Backs(last, f, d));
      hide *;
      at := at + if Backs(last, f, d) then [|obs| - 1] else [];
    }
  }

  lemma VoteIsBacking(o: Observation, f: Floors, d: int)
    requires d == 1 || d == -1
    ensures Vote(o, f) == d <==> Backs(o, f, d)
  {
  }

  lemma {:induction false} VotingConcat(obs: seq<Observation>, o: Observation, f: Floors, d: int)
    ensures VotingFor(obs + [o], f, d) == VotingFor(obs, f, d) + if Vote(o, f) == d then [o] else []
  {
    if obs == [] {
      assert [] + [o] == [o] && [o][1..] == [];
    } else {
      assert (obs + [o])[1..] == obs[1..] + [o];
      VotingHead(obs, f, d);
      VotingHead(obs + [o], f, d);
      hide VotingFor, Vote;
      VotingConcat(obs[1..], o, f, d);
      Associative(if Vote(obs[0], f) == d then [obs[0]] else [], VotingFor(obs[1..], f, d),
                  if Vote(o, f) == d then [o] else []);
    }
  }

  lemma VotingHead(obs: seq<Observation>, f: Floors, d: int)
    requires obs != []
    ensures VotingFor(obs, f, d) == (if Vote(obs[0], f) == d then [obs[0]] else []) + VotingFor(obs[1..], f, d)
  {
  }

  /** A verdict in terms of the windows behind it: `up` and `down` are the positions of the retained windows
      displaced either way. */
  ghost predicate Tells(e: Evidence, obs: seq<Observation>, up: seq<nat>, down: seq<nat>)
    requires obs != []
  {
    var at := if e.direction == 1 then up else if e.direction == -1 then down else [];
    && e.observations == |obs|
    && e.direction == (if |up| > |down| then 1 else if |down| > |up| then -1 else 0)
    && TakenAt(e.supporting, obs, at)
    && e.agreement == |at| as real / |obs| as real
    && (e.supported <==> |at| >= 6 && |obs| - 1 in at)
    && e.status == (if e.supported then Supported else Unconfirmed)
  }

  /** The verdict on an accepted window: a direction is supported if and only if at least six of the retained
      windows, the submitted one among them, are eligible, acceptable, at or above both floors and displaced
      that way by at least 0.15; and the supporting windows are exactly those, in order. */
  lemma VerdictIsExact(s: State, edge: Edge, f: Floors) returns (up: seq<nat>, down: seq<nat>)
    requires Accepts(s.observations, edge, Observe(edge, f))
    ensures
      var e, obs := NextEvidence(s, edge, f), NextState(s, edge, f).observations;
      && 0 < |obs| <= 8 && Records(Last(obs), edge, f)
      && Selects(obs, (o: Observation) => Backs(o, f, 1), up) && Selects(obs, (o: Observation) => Backs(o, f, -1), down)
      && Tells(e, obs, up, down)
  {
    var o := Observe(edge, f);
    assert Records(o, edge, f);
    AdvanceKeepsInvariant(s.observations, edge, o);
    var obs := Advance(s.observations, o);
    assert NextState(s, edge, f).observations == obs && NextEvidence(s, edge, f) == Judge(obs, f, o);
    hide *;
    up, down := JudgementTells(obs, f, o);
  }

  lemma VotersWithLast(obs: seq<Observation>, f: Floors, d: int) returns (at: seq<nat>)
    requires obs != [] && (d == 1 || d == -1)
    ensures Selects(obs, (w: Observation) => Backs(w, f, d), at) && TakenAt(VotingFor(obs, f, d), obs, at)
    ensures |at| == Count(obs, f, d) && (|obs| - 1 in at <==> Vote(Last(obs), f) == d)
  {
    at := VotersAre(obs, f, d);
    VoteIsBacking(Last(obs), f, d);
    hide Vote, VotingFor, Backs;
  }

  lemma JudgementTells(obs: seq<Observation>, f: Floors, o: Observation) returns (up: seq<nat>, down: seq<nat>)
    requires 0 < |obs| <= MAXIMUM_OBSERVATIONS && Last(obs) == o
    ensures Selects(obs, (w: Observation) => Backs(w, f, 1), up)
    ensures Selects(obs, (w: Observation) => Backs(w, f, -1), down)
    ensures Tells(Judge(obs, f, o), obs, up, down)
  {
    hide Vote, VotingFor, Backs, Selects, TakenAt;
    up := VotersWithLast(obs, f, 1);
    down := VotersWithLast(obs, f, -1);
    CountsAreDisjoint(obs, f);
    NothingTaken(obs);
    var votes := |VotingFor(obs, f, Majority(obs, f))|;
    if votes >= 6 { AgreementOfSix(votes, |obs|); }
  }

  /** The windows that end no more than thirty days before `now`. */
  function NoOlderThanThirtyDays(now: int): Observation -> bool {
    (o: Observation) => o.observedAt.Some? && now - o.observedAt.value <= 30 * 24 * 60 * 60 * 1_000_000
  }

  lemma {:induction false} RecentAt(obs: seq<Observation>, now: int) returns (at: seq<nat>)
    requires Dated(obs)
    ensures Selects(obs, NoOlderThanThirtyDays(now), at)
    ensures TakenAt(Recent(obs, now), obs, at)
  {
    if obs == [] {
      at := [];
    } else {
      var init, last := obs[..|obs| - 1], Last(obs);
      RecentOneMore(obs, now);
      assert NoOlderThanThirtyDays(now)(last) <==> now - last.observedAt.value <= 30 * 24 * 60 * 60 * 1_000_000;
      hide *;
      at := RecentAt(init, now);
      SelectsOneMore(obs, NoOlderThanThirtyDays(now), at);
      TakenOneMore(Recent(init, now), obs, at, now - last.observedAt.value <= 30 * 24 * 60 * 60 * 1_000_000);
      at := at + if now - last.observedAt.value <= 30 * 24 * 60 * 60 * 1_000_000 then [|obs| - 1] else [];
    }
  }

  lemma RecentOneMore(obs: seq<Observation>, now: int)
    requires Dated(obs) && obs != []
    ensures Dated(obs[..|obs| - 1]) && Last(obs).observedAt.Some?
    ensures Recent(obs, now) ==
            Recent(obs[..|obs| - 1], now)
              + if now - Last(obs).observedAt.value <= 30 * 24 * 60 * 60 * 1_000_000 then [Last(obs)] else []
  {
    var init, last := obs[..|obs| - 1], Last(obs);
    assert obs == init + [last] && last in obs;
    hide Recent;
    RecentAppend(init, last, now);
  }

  /** What an accepted window leaves in memory: of the carried windows and, unless it repeats the newest, itself, the
      newest eight of those no more than thirty days older. */
  lemma MemoryIsExact(s: State, edge: Edge, f: Floors) returns (at: seq<nat>)
    requires Accepts(s.observations, edge, Observe(edge, f))
    ensures
      var next, now := NextState(s, edge, f), edge.end.time;
      var again := s.observations != [] && Last(s.observations).observedAt == Some(now);
      var all := if again then s.observations else s.observations + [Observe(edge, f)];
      && Selects(all, NoOlderThanThirtyDays(now), at)
      && next.version == s.version && next.identity == s.identity
      && TakenAt(next.observations, all, if |at| > 8 then at[|at| - 8..] else at)
  {
    var o := Observe(edge, f);
    var all := Candidates(s.observations, o);
    AcceptedIsDated(s.observations, edge, o);
    assert Dated(all);
    at := RecentAt(all, edge.end.time);
    hide Recent, Accepts, Selects, Dated;
  }

  /** A window is accepted if and only if its bounds are readable and in order, the carried windows are dated in
      increasing order, and it ends later than all of them or is the newest of them again, unaltered. */
  lemma AcceptedExactly(obs: seq<Observation>, edge: Edge, f: Floors)
    ensures Accepts(obs, edge, Observe(edge, f)) <==>
      && edge.end.At? && (edge.start.Absent? || (edge.start.At? && edge.start.time <= edge.end.time))
      && (forall i :: 0 <= i < |obs| ==> obs[i].observedAt.Some?)
      && (forall i, j :: 0 <= i < j < |obs| ==> obs[i].observedAt.value < obs[j].observedAt.value)
      && (obs != [] ==>
            || Last(obs).observedAt.value < edge.end.time
            || (Records(Last(obs), edge, f) && !edge.delta.NotANumber?))
  {
  }

  /** On a window that is not accepted it says nothing, and the carried windows stay. */
  lemma RefusalSaysNothing(s: State, edge: Edge, f: Floors)
    requires !Accepts(s.observations, edge, Observe(edge, f))
    ensures NextState(s, edge, f) == s && NextEvidence(s, edge, f) == Evidence(0, 0, 0.0, false, Limited, [])
  {
  }
}
