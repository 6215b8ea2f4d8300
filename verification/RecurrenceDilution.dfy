/** Whole runs of the recurrence reducer with one unacceptable window put in. */
module RecurrenceDilution {
  import opened Common
  import opened RecurrenceEpisodes
  import opened RecurrenceVariations
  import opened RelationshipRecurrence
  import opened RecurrenceRuns

  /** How the unbounded state x of the run with the window o stands to that, u, of the run without it: u holds
      `older` and `newer`, and x the newest part of them with o in between, marked if it has lost any. */
  ghost predicate Diluted(x: State, u: State, o: Observation, older: seq<Observation>, newer: seq<Observation>) {
    && u.observations == older + newer
    && Chronological(older + [o] + newer)
    && IsSuffix(x.observations, older + [o] + newer)
    && (|x.observations| < |older| + 1 + |newer| ==> x.requiresInitialReturn)
    && (u.requiresInitialReturn ==> x.requiresInitialReturn)
    && (newer != [] ==> x.observations != [])
    && x.overflowUntil.None? && u.overflowUntil.None?
  }

  lemma {:induction false} AllIsRetained(obs: seq<Observation>, cutoff: int)
    requires |Retain(obs, cutoff)| == |obs|
    ensures Retain(obs, cutoff) == obs
  {
    if obs != [] {
      AllIsRetained(obs[1..], cutoff);
      assert [obs[0]] + obs[1..] == obs;
    }
  }

  lemma OneRetained(o: Observation, cutoff: int)
    ensures Retain([o], cutoff) == if o.start >= cutoff then [o] else []
  {
    assert [o][1..] == [];
  }

  /** Later parts of what comes before a window and after it are in order around it. */
  lemma AroundStaysInOrder(older: seq<Observation>, o: Observation, newer: seq<Observation>,
                           before: seq<Observation>, after: seq<Observation>)
    requires Chronological(older + [o] + newer) && IsSuffix(before, older) && IsSuffix(after, newer)
    ensures Chronological(before + [o] + after)
  {
    var all, some := older + [o] + newer, before + [o] + after;
    var a, b := |older| - |before|, |all| - |some|;
    assert forall i :: 0 <= i <= |before| ==> some[i] == all[i + a];
    assert forall i :: |before| < i < |some| ==> some[i] == all[i + b];
  }

  lemma WithoutOneStaysInOrder(older: seq<Observation>, o: Observation, newer: seq<Observation>)
    requires Chronological(older + [o] + newer)
    ensures Chronological(older + newer)
    ensures forall p :: p in older ==> p.start < p.end <= o.start
    ensures forall p :: p in newer ==> o.end <= p.start
  {
    var all, some := older + [o] + newer, older + newer;
    assert forall i :: 0 <= i < |older| ==> some[i] == all[i];
    assert forall i :: |older| <= i < |some| ==> some[i] == all[i + 1];
    assert all[|older|] == o;
    forall p | p in older
      ensures p.start < p.end <= o.start
    {
      var i :| 0 <= i < |older| && older[i] == p;
      assert all[i] == p;
    }
    forall p | p in newer
      ensures o.end <= p.start
    {
      var i :| 0 <= i < |newer| && newer[i] == p;
      assert all[|older| + 1 + i] == p;
    }
  }

  /** Both runs give a later window the same answer. */
  lemma SameAnswer(x: State, u: State, o: Observation, older: seq<Observation>, newer: seq<Observation>, y: Observation)
    requires Diluted(x, u, o, older, newer) && o.end <= y.start
    ensures Accepts(x, y) <==> Accepts(u, y)
    ensures Accepts(u, y) ==> (IsRetry(x, y) <==> IsRetry(u, y))
    ensures Accepts(u, y) && !IsRetry(u, y) ==> Last(older + [o] + newer).end <= y.start
    ensures Accepts(u, y) && IsRetry(u, y) ==> newer != []
  {
    var all := older + [o] + newer;
    SuffixChronological(x.observations, all);
    WithoutOneStaysInOrder(older, o, newer);
    assert x.observations != [] ==> Last(x.observations) == Last(all);
    hide Chronological, IsSuffix;
    if newer != [] {
      assert Last(all) == Last(newer) == Last(u.observations);
    } else {
      assert Last(all) == o && all[|older|] == o;
      assert u.observations == older;
      if older != [] { assert Last(older) in older; }
    }
  }

  /** What the run without the window keeps after a new one. */
  lemma KeptWithout(older: seq<Observation>, o: Observation, newer: seq<Observation>, y: Observation)
    requires Chronological(older + [o] + newer) && Last(older + [o] + newer).end <= y.start < y.end
    ensures
      var cutoff := y.end - MAXIMUM_AGE;
      var before, after := Retain(older, cutoff), Retain(newer + [y], cutoff);
      && Retain(older + newer + [y], cutoff) == before + after
      && (o.start < cutoff ==> before == [])
      && Chronological(before + [o] + after)
  {
    var cutoff := y.end - MAXIMUM_AGE;
    WithoutOneStaysInOrder(older, o, newer);
    hide Retain, Chronological;
    if o.start < cutoff { RetainNone(older, cutoff); }
    OlderAndNewer(older, o, newer, y, cutoff);
    Associative(older, newer, [y]);
    RetainConcat(older, newer + [y], cutoff);
  }

  /** What the run with the window keeps after a new one. */
  lemma KeptWith(xs: seq<Observation>, older: seq<Observation>, o: Observation, newer: seq<Observation>, y: Observation)
    requires Chronological(older + [o] + newer) && Last(older + [o] + newer).end <= y.start < y.end
    requires IsSuffix(xs, older + [o] + newer)
    ensures
      var cutoff := y.end - MAXIMUM_AGE;
      var kept, after := Retain(xs + [y], cutoff), Retain(newer + [y], cutoff);
      && IsSuffix(kept, Retain(older, cutoff) + (if o.start >= cutoff then [o] else []) + after)
      && (after != [] ==> kept != [])
  {
    var cutoff := y.end - MAXIMUM_AGE;
    if y.start < cutoff { NewestFirstOut(older, o, newer, y, cutoff); }
    SuffixAppend(xs, older + [o] + newer, y);
    hide Retain, Chronological, IsSuffix;
    Associative(older + [o], newer, [y]);
    SuffixIsRetained(xs + [y], older + [o] + (newer + [y]), cutoff);
    RetainAround(older, o, newer + [y], cutoff);
    if y.start >= cutoff { RetainAppend(xs, y, cutoff); }
  }

  lemma SuffixAppend<T>(tail: seq<T>, xs: seq<T>, y: T)
    requires IsSuffix(tail, xs)
    ensures IsSuffix(tail + [y], xs + [y])
  {
  }

  lemma SuffixIsRetained(tail: seq<Observation>, obs: seq<Observation>, cutoff: int)
    requires IsSuffix(tail, obs)
    ensures IsSuffix(Retain(tail, cutoff), Retain(obs, cutoff))
  {
    var front := SuffixSplits(tail, obs);
    hide Retain;
    RetainConcat(front, tail, cutoff);
    ConcatHasSuffix(Retain(front, cutoff), Retain(tail, cutoff));
  }

  lemma ConcatHasSuffix<T>(front: seq<T>, tail: seq<T>)
    ensures IsSuffix(tail, front + tail)
  {
  }

  lemma RetainAround(older: seq<Observation>, o: Observation, rest: seq<Observation>, cutoff: int)
    ensures Retain(older + [o] + rest, cutoff) ==
            Retain(older, cutoff) + (if o.start >= cutoff then [o] else []) + Retain(rest, cutoff)
  {
    hide Retain;
    RetainConcat(older + [o], rest, cutoff);
    RetainConcat(older, [o], cutoff);
    OneRetained(o, cutoff);
  }

  lemma OlderAndNewer(older: seq<Observation>, o: Observation, newer: seq<Observation>, y: Observation, cutoff: int)
    requires Chronological(older + [o] + newer) && Last(older + [o] + newer).end <= y.start < y.end
    ensures Chronological(older + [o] + (newer + [y]))
    ensures Chronological(Retain(older, cutoff) + [o] + Retain(newer + [y], cutoff))
  {
    hide Retain, Chronological;
    ChronologicalAppend(older + [o] + newer, y);
    assert older + [o] + newer + [y] == older + [o] + (newer + [y]);
    WithoutOneStaysInOrder(older, o, newer + [y]);
    var all := older + (newer + [y]);
    TailChronological(all, |older|);
    assert all[|older|..] == newer + [y];
    RetainIsSuffix(newer + [y], cutoff);
    FrontChronological(all, |older|);
    assert all[..|older|] == older;
    RetainIsSuffix(older, cutoff);
    AroundStaysInOrder(older, o, newer + [y], Retain(older, cutoff), Retain(newer + [y], cutoff));
  }

  lemma FrontChronological(obs: seq<Observation>, n: nat)
    requires Chronological(obs) && n <= |obs|
    ensures Chronological(obs[..n])
  {
  }

  /** A window that is itself too old leaves nothing. */
  lemma NewestFirstOut(older: seq<Observation>, o: Observation, newer: seq<Observation>, y: Observation, cutoff: int)
    requires Chronological(older + [o] + newer) && Last(older + [o] + newer).end <= y.start < cutoff
    ensures Retain(newer + [y], cutoff) == []
  {
    var all := older + [o] + newer;
    forall p | p in newer + [y]
      ensures p.start < cutoff
    {
      if p in newer {
        var i :| 0 <= i < |newer| && newer[i] == p;
        assert all[|older| + 1 + i] == p;
        Order(all, |older| + 1 + i, |all| - 1);
      }
    }
    RetainNone(newer + [y], cutoff);
  }

  /** A new window keeps the two runs in step. */
  lemma StaysDiluted(x: State, u: State, o: Observation, older: seq<Observation>, newer: seq<Observation>,
                     y: Observation)
    returns (before: seq<Observation>, after: seq<Observation>)
    requires Diluted(x, u, o, older, newer) && Last(older + [o] + newer).end <= y.start < y.end
    requires !IsRetry(x, y) && !IsRetry(u, y)
    ensures Diluted(Advance(x, y, None), Advance(u, y, None), o, before, after)
  {
    var cutoff := y.end - MAXIMUM_AGE;
    before, after := Retain(older, cutoff), Retain(newer + [y], cutoff);
    KeptWithout(older, o, newer, y);
    KeptWith(x.observations, older, o, newer, y);
    LossIsMarked(x, u, o, older, newer, y);
    NewestKept(before, o, after, Retain(x.observations + [y], cutoff), cutoff);
    MarkedIsKept(x, u, y);
    hide Retain, Chronological, IsSuffix, Advance;
  }

  lemma WholeSuffix<T>(tail: seq<T>, xs: seq<T>)
    requires IsSuffix(tail, xs) && |tail| >= |xs|
    ensures tail == xs
  {
  }

  lemma NewestKept(before: seq<Observation>, o: Observation, after: seq<Observation>, kept: seq<Observation>,
                   cutoff: int)
    requires IsSuffix(kept, before + (if o.start >= cutoff then [o] else []) + after)
             && (o.start < cutoff ==> before == [])
    ensures IsSuffix(kept, before + [o] + after)
  {
  }

  lemma MarkedIsKept(x: State, u: State, y: Observation)
    requires !IsRetry(x, y) && !IsRetry(u, y) && x.overflowUntil.None? && u.overflowUntil.None?
    ensures
      var cutoff := y.end - MAXIMUM_AGE;
      && Advance(x, y, None).observations == Retain(x.observations + [y], cutoff)
      && Advance(u, y, None).observations == Retain(u.observations + [y], cutoff)
      && Advance(x, y, None).overflowUntil.None? && Advance(u, y, None).overflowUntil.None?
  {
    hide Retain;
  }

  /** What the run with the window has lost it has marked. */
  lemma LossIsMarked(x: State, u: State, o: Observation, older: seq<Observation>, newer: seq<Observation>,
                     y: Observation)
    requires Diluted(x, u, o, older, newer) && !IsRetry(x, y) && !IsRetry(u, y)
    ensures
      var cutoff := y.end - MAXIMUM_AGE;
      !Advance(x, y, None).requiresInitialReturn ==>
        && !Advance(u, y, None).requiresInitialReturn
        && |Advance(x, y, None).observations| == |Retain(older, cutoff)| + 1 + |Retain(newer + [y], cutoff)|
  {
    var cutoff := y.end - MAXIMUM_AGE;
    hide Retain, Chronological;
    MarkedIsKept(x, u, y);
    if !Advance(x, y, None).requiresInitialReturn {
      WholeSuffix(x.observations, older + [o] + newer);
      hide IsSuffix;
      Associative(older + [o], newer, [y]);
      Associative(older, newer, [y]);
      RetainAround(older, o, newer + [y], cutoff);
      RetainConcat(older, newer + [y], cutoff);
    }
  }

  /** Right after the window. */
  lemma FirstDilution(first: seq<Edge>, edge: Edge, identity: string, f: Floors) returns (older: seq<Observation>)
    requires AcceptsEdge(StateAfter(first, identity, f, None), edge, f)
    requires !IsRetry(StateAfter(first, identity, f, None), Observe(edge, f))
    ensures Diluted(StateAfter(first + [edge], identity, f, None), StateAfter(first, identity, f, None),
                    Observe(edge, f), older, [])
  {
    var s, o := StateAfter(first, identity, f, None), Observe(edge, f);
    older := s.observations;
    assert (first + [edge])[..|first|] == first && Last(first + [edge]) == edge;
    LastStep(first + [edge], identity, f, None);
    CappedRefinesUnbounded(first, identity, f, 1);
    hide StateAfter, Refines;
    assert s.overflowUntil.None? by { RefinesUnmarked(StateAfter(first, identity, f, Some(1)), s); }
    DilutedAtOnce(s, o);
  }

  lemma RefinesUnmarked(c: State, u: State)
    requires Refines(c, u, 1)
    ensures u.overflowUntil.None?
  {
  }

  lemma DilutedAtOnce(s: State, o: Observation)
    requires Accepts(s, o) && !IsRetry(s, o) && s.overflowUntil.None?
    ensures Diluted(Advance(s, o, None), s, o, s.observations, [])
  {
    var older, next := s.observations, Advance(s, o, None);
    assert next.observations == Retain(Candidates(s, o), o.end - MAXIMUM_AGE) && next.overflowUntil.None?;
    assert next.requiresInitialReturn <==> s.requiresInitialReturn || |next.observations| != |Candidates(s, o)|;
    assert older + [o] + [] == older + [o] && older + [] == older;
    hide Retain, Chronological, Accepts, IsRetry, IsSuffix, Candidates, Advance;
    CandidatesChronological(s, o);
    CandidatesAreNew(s, o);
    RetainIsSuffix(older + [o], o.end - MAXIMUM_AGE);
  }

  /** And after one more of the windows that follow. */
  lemma OneMoreDilution(first: seq<Edge>, edge: Edge, rest: seq<Edge>, identity: string, f: Floors,
                        o: Observation, older: seq<Observation>, newer: seq<Observation>)
    returns (before: seq<Observation>, after: seq<Observation>)
    requires rest != [] && (Last(rest).start.Some? && Last(rest).end.Some? ==> o.end <= Last(rest).start.value)
    requires
      var init := rest[..|rest| - 1];
      Diluted(StateAfter(first + [edge] + init, identity, f, None), StateAfter(first + init, identity, f, None),
              o, older, newer)
    ensures Diluted(StateAfter(first + [edge] + rest, identity, f, None), StateAfter(first + rest, identity, f, None),
                    o, before, after)
  {
    var init, last := rest[..|rest| - 1], Last(rest);
    StepOfRun(first + [edge], rest, identity, f);
    StepOfRun(first, rest, identity, f);
    CappedRefinesUnbounded(first + [edge] + init, identity, f, 1);
    CappedRefinesUnbounded(first + init, identity, f, 1);
    var x, u := StateAfter(first + [edge] + init, identity, f, None), StateAfter(first + init, identity, f, None);
    hide Diluted, StateAfter, Accepts, IsRetry, Refines, Advance;
    before, after := older, newer;
    if last.start.Some? && last.end.Some? {
      var y := Observe(last, f);
      SameAnswer(x, u, o, older, newer, y);
      if Accepts(u, y) {
        AcceptedIsForward(u, y);
        if IsRetry(u, y) {
          RefinesRetry(StateAfter(first + [edge] + init, identity, f, Some(1)), x, 1, y);
          RefinesRetry(StateAfter(first + init, identity, f, Some(1)), u, 1, y);
        } else {
          before, after := StaysDiluted(x, u, o, older, newer, y);
        }
      }
    }
  }

  lemma AcceptedIsForward(u: State, y: Observation)
    requires Accepts(u, y)
    ensures y.start < y.end
  {
  }

  lemma StepOfRun(first: seq<Edge>, rest: seq<Edge>, identity: string, f: Floors)
    requires rest != []
    ensures StateAfter(first + rest, identity, f, None) ==
            NextState(StateAfter(first + rest[..|rest| - 1], identity, f, None), Last(rest), f, None)
  {
    assert (first + rest)[..|first + rest| - 1] == first + rest[..|rest| - 1];
    LastStep(first + rest, identity, f, None);
  }

  /** Two runs that differ by the window, up to the same point. */
  lemma {:induction false} RunsStayDiluted(first: seq<Edge>, edge: Edge, rest: seq<Edge>, identity: string, f: Floors)
    returns (older: seq<Observation>, newer: seq<Observation>)
    requires AcceptsEdge(StateAfter(first, identity, f, None), edge, f)
    requires !IsRetry(StateAfter(first, identity, f, None), Observe(edge, f))
    requires forall y :: y in rest && y.start.Some? && y.end.Some? ==> edge.end.value <= y.start.value
    ensures Diluted(StateAfter(first + [edge] + rest, identity, f, None), StateAfter(first + rest, identity, f, None),
                    Observe(edge, f), older, newer)
    decreases |rest|
  {
    var o := Observe(edge, f);
    if rest == [] {
      assert first + [edge] + [] == first + [edge] && first + [] == first;
      older := FirstDilution(first, edge, identity, f);
      newer := [];
    } else {
      var init := rest[..|rest| - 1];
      assert Last(rest) in rest && forall y :: y in init ==> y in rest;
      hide StateAfter, Diluted;
      older, newer := RunsStayDiluted(first, edge, init, identity, f);
      older, newer := OneMoreDilution(first, edge, rest, identity, f, o, older, newer);
    }
  }

  // ----- What the two runs report -----

  /** Of two verdicts after the same window, the one reached with the unacceptable window reports no more
      episodes and no other direction; it can support where the other does not only by sparing it a veto. */
  ghost predicate NoHelp(with: Evidence, without: Evidence) {
    && with.episodeCount <= without.episodeCount
    && (with.veto ==> without.veto)
    && (with.supported ==> without.veto || (without.supported && with.direction == without.direction))
  }

  lemma DilutedFinds(x: State, u: State, o: Observation, older: seq<Observation>, newer: seq<Observation>, f: Floors)
    requires Diluted(x, u, o, older, newer) && !Acceptable(o, f)
    ensures |AllEpisodes(x.observations, f, !x.requiresInitialReturn)| <=
            |AllEpisodes(u.observations, f, !u.requiresInitialReturn)|
    ensures AllSustained(x.observations, f) <= AllSustained(u.observations, f)
  {
    var armed := !u.requiresInitialReturn;
    UnknownNeverHelps(older, o, newer, f, armed);
    var front := SuffixSplits(x.observations, older + [o] + newer);
    TruncationInventsNothing(front, x.observations, f, armed);
    if !x.requiresInitialReturn { assert x.observations == older + [o] + newer; }
    hide AllEpisodes, AllSustained, Acceptable, Chronological;
  }

  lemma VerdictsCompare(x: seq<Observation>, u: seq<Observation>, f: Floors, armedX: bool, armedU: bool,
                        acceptable: bool, end: int)
    requires |AllEpisodes(x, f, armedX)| <= |AllEpisodes(u, f, armedU)| && AllSustained(x, f) <= AllSustained(u, f)
    ensures NoHelp(Verdict(x, f, armedX, acceptable, end), Verdict(u, f, armedU, acceptable, end))
  {
    hide AllEpisodes, AllSustained;
    SustainedSignsAre(x, f);
    SustainedSignsAre(u, f);
    SingleSign(AllSustained(x, f));
    SingleSign(AllSustained(u, f));
  }

  /** Every readable window of `rest` starts no earlier than `edge` ends. */
  ghost predicate ComesBefore(edge: Edge, rest: seq<Edge>) {
    edge.end.Some? ==>
      forall y :: y in rest && y.start.Some? && y.end.Some? ==> edge.end.value <= y.start.value
  }

  predicate Uninformative(edge: Edge, f: Floors) {
    edge.start.None? || edge.end.None? || !Acceptable(Observe(edge, f), f)
  }

  lemma {:induction false} SameFromHere(a: seq<Edge>, b: seq<Edge>, rest: seq<Edge>, identity: string, f: Floors)
    requires StateAfter(a, identity, f, None) == StateAfter(b, identity, f, None)
    ensures StateAfter(a + rest, identity, f, None) == StateAfter(b + rest, identity, f, None)
    decreases |rest|
  {
    if rest == [] {
      assert a + [] == a && b + [] == b;
    } else {
      SameFromHere(a, b, rest[..|rest| - 1], identity, f);
      StepOfRun(a, rest, identity, f);
      StepOfRun(b, rest, identity, f);
    }
  }

  lemma EvidenceStep(first: seq<Edge>, rest: seq<Edge>, identity: string, f: Floors)
    requires rest != []
    ensures EvidenceAfter(first + rest, identity, f, None) ==
            NextEvidence(StateAfter(first + rest[..|rest| - 1], identity, f, None), Last(rest), f, None)
  {
    assert (first + rest)[..|first + rest| - 1] == first + rest[..|rest| - 1];
    hide NextEvidence, StateAfter;
  }

  /** A window that is refused, or repeats the newest, leaves no trace. */
  lemma RefusedChangesNothing(first: seq<Edge>, edge: Edge, rest: seq<Edge>, identity: string, f: Floors)
    requires rest != []
    requires
      var s := StateAfter(first, identity, f, None);
      !AcceptsEdge(s, edge, f) || IsRetry(s, Observe(edge, f))
    ensures EvidenceAfter(first + [edge] + rest, identity, f, None) == EvidenceAfter(first + rest, identity, f, None)
  {
    var s := StateAfter(first, identity, f, None);
    assert (first + [edge])[..|first|] == first && Last(first + [edge]) == edge;
    LastStep(first + [edge], identity, f, None);
    if AcceptsEdge(s, edge, f) {
      CappedRefinesUnbounded(first, identity, f, 1);
      RefinesRetry(StateAfter(first, identity, f, Some(1)), s, 1, Observe(edge, f));
    }
    hide StateAfter, AcceptsEdge, IsRetry, NextEvidence, Advance;
    SameFromHere(first + [edge], first, rest[..|rest| - 1], identity, f);
    EvidenceStep(first + [edge], rest, identity, f);
    EvidenceStep(first, rest, identity, f);
  }

  lemma DilutedRunsCompare(first: seq<Edge>, edge: Edge, rest: seq<Edge>, identity: string, f: Floors)
    requires rest != [] && ComesBefore(edge, rest) && Uninformative(edge, f)
    requires AcceptsEdge(StateAfter(first, identity, f, None), edge, f)
    requires !IsRetry(StateAfter(first, identity, f, None), Observe(edge, f))
    ensures NoHelp(EvidenceAfter(first + [edge] + rest, identity, f, None),
                   EvidenceAfter(first + rest, identity, f, None))
  {
    var init, last, o := rest[..|rest| - 1], Last(rest), Observe(edge, f);
    assert last in rest && forall y :: y in init ==> y in rest;
    hide IsRetry, StateAfter, Diluted, NoHelp, Accepts, Verdict, Advance, Acceptable;
    var older, newer := RunsStayDiluted(first, edge, init, identity, f);
    var older2, newer2 := RunsStayDiluted(first, edge, rest, identity, f);
    EvidenceStep(first + [edge], rest, identity, f);
    EvidenceStep(first, rest, identity, f);
    StepOfRun(first + [edge], rest, identity, f);
    StepOfRun(first, rest, identity, f);
    var x, u := StateAfter(first + [edge] + init, identity, f, None), StateAfter(first + init, identity, f, None);
    if last.start.Some? && last.end.Some? { SameAnswer(x, u, o, older, newer, Observe(last, f)); }
    if AcceptsEdge(u, last, f) {
      JudgementsCompare(StateAfter(first + [edge] + rest, identity, f, None),
                        StateAfter(first + rest, identity, f, None),
                        o, older2, newer2, f, Observe(last, f));
    } else {
      RejectionsCompare();
    }
  }

  lemma RejectionsCompare()
    ensures NoHelp(REJECTION, REJECTION)
  {
  }

  lemma JudgementsCompare(x: State, u: State, o: Observation, older: seq<Observation>, newer: seq<Observation>,
                          f: Floors, y: Observation)
    requires Diluted(x, u, o, older, newer) && !Acceptable(o, f)
    ensures NoHelp(Judge(x, f, y), Judge(u, f, y))
  {
    DilutedFinds(x, u, o, older, newer, f);
    VerdictsCompare(x.observations, u.observations, f, !x.requiresInitialReturn, !u.requiresInitialReturn, y.acceptable,
                    y.end);
    hide Verdict, NoHelp, AllEpisodes, AllSustained;
  }

  predicate IsSilent(e: Evidence) {
    e.reason == Some(ObservationCapacityExceeded)
  }

  /** A window that fails the floors, submitted anywhere in a run, never helps: whenever the run without it is
      not silent about a later window, the run with it reports no more episodes, no other direction and no new
      veto, and supports only what the other supports or vetoes.  The windows that follow must start no earlier
      than it ends: one that overlaps it would be refused for its sake. */
  lemma UnknownNeverHelpsARun(first: seq<Edge>, edge: Edge, rest: seq<Edge>, identity: string, f: Floors)
    requires rest != [] && ComesBefore(edge, rest) && Uninformative(edge, f)
    ensures
      var cap := Some(MAXIMUM_OBSERVATIONS);
      var with := EvidenceAfter(first + [edge] + rest, identity, f, cap);
      var without := EvidenceAfter(first + rest, identity, f, cap);
      IsSilent(without) || NoHelp(with, without)
  {
    var with, without := first + [edge] + rest, first + rest;
    CappedEvidenceIsUnboundedOrSilent(with, identity, f);
    CappedEvidenceIsUnboundedOrSilent(without, identity, f);
    hide EvidenceAfter, StateAfter, AcceptsEdge, IsRetry, Acceptable;
    var s := StateAfter(first, identity, f, None);
    if AcceptsEdge(s, edge, f) && !IsRetry(s, Observe(edge, f)) {
      DilutedRunsCompare(first, edge, rest, identity, f);
    } else {
      RefusedChangesNothing(first, edge, rest, identity, f);
      EqualIsNoHelp(EvidenceAfter(without, identity, f, None));
    }
  }

  lemma EqualIsNoHelp(e: Evidence)
    ensures NoHelp(e, e)
  {
  }
}
