/** Whole runs of the recurrence reducer: one identity, fixed floors, any sequence of edges. */
module RecurrenceRuns {
  import opened Common
  import opened RecurrenceEpisodes
  import opened RelationshipRecurrence

  ghost function StateAfter(edges: seq<Edge>, identity: string, f: Floors, cap: Option<nat>): (s: State)
    ensures s.version == 1 && s.identity == identity
  {
    if edges == [] then Fresh(identity)
    else NextState(StateAfter(edges[..|edges| - 1], identity, f, cap), Last(edges), f, cap)
  }

  /** The evidence returned by the last call of a run. */
  ghost function EvidenceAfter(edges: seq<Edge>, identity: string, f: Floors, cap: Option<nat>): Evidence
    requires edges != []
  {
    NextEvidence(StateAfter(edges[..|edges| - 1], identity, f, cap), Last(edges), f, cap)
  }

  // ----- Windows in time order -----

  lemma Order(obs: seq<Observation>, i: nat, j: nat)
    requires Chronological(obs) && i <= j < |obs|
    ensures obs[i].start < obs[i].end
    ensures obs[i].start <= obs[j].start && obs[i].end <= obs[j].end
    ensures i < j ==> obs[i].end <= obs[j].start
  {
    assert i < j ==> obs[i].end <= obs[j].start;
    assert obs[j].start < obs[j].end;
  }

  lemma SuffixChronological(tail: seq<Observation>, obs: seq<Observation>)
    requires IsSuffix(tail, obs) && Chronological(obs)
    ensures Chronological(tail)
  {
    assert forall i :: 0 <= i < |tail| ==> tail[i] == obs[|obs| - |tail| + i];
  }

  lemma CandidatesChronological(s: State, o: Observation)
    requires Accepts(s, o)
    ensures Chronological(Candidates(s, o))
    ensures Candidates(s, o) != [] && Last(Candidates(s, o)).end == o.end
  {
  }

  // ----- Ageing -----

  lemma {:induction false} RetainAll(obs: seq<Observation>, cutoff: int)
    requires Chronological(obs) && (obs != [] ==> obs[0].start >= cutoff)
    ensures Retain(obs, cutoff) == obs
  {
    if obs != [] {
      RetainAll(obs[1..], cutoff);
      assert [obs[0]] + obs[1..] == obs;
    }
  }

  lemma TailChronological(obs: seq<Observation>, cut: nat)
    requires Chronological(obs) && cut <= |obs|
    ensures Chronological(obs[cut..])
  {
  }

  /** Windows in time order age out from the front. */
  lemma {:induction false} RetainIsSuffix(obs: seq<Observation>, cutoff: int)
    requires Chronological(obs)
    ensures IsSuffix(Retain(obs, cutoff), obs)
    ensures Retain(obs, cutoff) != [] ==> Retain(obs, cutoff)[0].start >= cutoff
    ensures |Retain(obs, cutoff)| < |obs| ==> obs[|obs| - |Retain(obs, cutoff)| - 1].start < cutoff
  {
    hide Chronological;
    if obs != [] {
      if obs[0].start >= cutoff {
        hide Retain;
        RetainAll(obs, cutoff);
      } else {
        var tail, kept := obs[1..], Retain(obs[1..], cutoff);
        assert Retain(obs, cutoff) == kept;
        hide *;
        TailChronological(obs, 1);
        RetainIsSuffix(tail, cutoff);
        SuffixOfTail(kept, obs);
        if |kept| < |tail| { assert obs[|obs| - |kept| - 1] == tail[|tail| - |kept| - 1]; }
      }
    }
  }

  lemma {:induction false} RetainTwice(obs: seq<Observation>, cutoff: int, later: int)
    requires cutoff <= later
    ensures Retain(Retain(obs, cutoff), later) == Retain(obs, later)
  {
    if obs != [] {
      RetainTwice(obs[1..], cutoff, later);
      if obs[0].start >= cutoff {
        assert Retain(obs, cutoff)[1..] == Retain(obs[1..], cutoff);
      } else {
        assert Retain(obs, cutoff) == Retain(obs[1..], cutoff);
        assert Retain(obs, later) == Retain(obs[1..], later);
      }
    }
  }

  /** Ageing the final part of a list keeps the final part of what ageing the list keeps. */
  lemma {:induction false} RetainTail(obs: seq<Observation>, cut: nat, cutoff: int)
    requires Chronological(obs) && cut <= |obs|
    ensures Retain(obs[cut..], cutoff) == LastOf(Retain(obs, cutoff), |obs| - cut)
  {
    hide Chronological;
    if cut == 0 {
      assert obs[0..] == obs;
    } else if obs[0].start >= cutoff {
      RetainAll(obs, cutoff);
      if cut < |obs| { Order(obs, 0, cut); }
      TailChronological(obs, cut);
      RetainAll(obs[cut..], cutoff);
    } else {
      assert Retain(obs, cutoff) == Retain(obs[1..], cutoff);
      assert obs[1..][cut - 1..] == obs[cut..];
      hide Retain;
      TailChronological(obs, 1);
      RetainTail(obs[1..], cut - 1, cutoff);
    }
  }

  /** Nothing starts over thirty days before `end`, and nothing ends after it. */
  ghost predicate WithinHorizon(obs: seq<Observation>, end: int) {
    forall i :: 0 <= i < |obs| ==> obs[i].start >= end - MAXIMUM_AGE && obs[i].end <= end
  }

  /** What every accepted window leaves behind: windows in time order, the newest part of the
      candidates, within the cap, none that starts over thirty days before the current end. */
  lemma AdvanceKeepsInvariant(s: State, o: Observation, cap: Option<nat>)
    requires Accepts(s, o)
    ensures
      var kept := Advance(s, o, cap).observations;
      && Chronological(kept)
      && IsSuffix(kept, Candidates(s, o))
      && (cap.Some? ==> |kept| <= cap.value)
      && WithinHorizon(kept, o.end)
  {
    hide Retain, Chronological, Acceptable, Candidates, Accepts, WithinHorizon;
    var candidates := Candidates(s, o);
    CandidatesChronological(s, o);
    var retained := Retain(candidates, o.end - MAXIMUM_AGE);
    RetainedWithinHorizon(candidates, o.end);
    CapKeepsTheNewest(s, o, cap);
    hide IsSuffix, Advance;
    var kept := Advance(s, o, cap).observations;
    SuffixTransitive(kept, retained, candidates);
    SuffixChronological(kept, candidates);
    SuffixWithinHorizon(kept, retained, o.end);
  }

  lemma CapKeepsTheNewest(s: State, o: Observation, cap: Option<nat>)
    ensures
      var kept := Advance(s, o, cap).observations;
      IsSuffix(kept, Retain(Candidates(s, o), o.end - MAXIMUM_AGE)) && (cap.Some? ==> |kept| <= cap.value)
  {
    hide Retain, Candidates;
  }

  lemma RetainedWithinHorizon(obs: seq<Observation>, end: int)
    requires Chronological(obs) && obs != [] && Last(obs).end == end
    ensures IsSuffix(Retain(obs, end - MAXIMUM_AGE), obs)
    ensures WithinHorizon(Retain(obs, end - MAXIMUM_AGE), end)
  {
    hide Chronological, Retain;
    var retained := Retain(obs, end - MAXIMUM_AGE);
    RetainIsSuffix(obs, end - MAXIMUM_AGE);
    SuffixChronological(retained, obs);
    forall i | 0 <= i < |retained|
      ensures retained[i].start >= end - MAXIMUM_AGE && retained[i].end <= end
    {
      Order(retained, 0, i);
      Order(obs, |obs| - |retained| + i, |obs| - 1);
    }
  }

  lemma SuffixWithinHorizon(kept: seq<Observation>, retained: seq<Observation>, end: int)
    requires IsSuffix(kept, retained) && WithinHorizon(retained, end)
    ensures WithinHorizon(kept, end)
  {
    forall i | 0 <= i < |kept|
      ensures kept[i].start >= end - MAXIMUM_AGE && kept[i].end <= end
    {
      assert kept[i] == retained[|retained| - |kept| + i];
    }
  }

  // ----- The capped memory refines the unbounded one -----

  /** How the capped state c stands to the unbounded state u. */
  ghost predicate Refines(c: State, u: State, cap: nat) {
    && Chronological(u.observations)
    && u.overflowUntil.None?
    && c.version == u.version && c.identity == u.identity
    && (u.observations != [] ==> u.observations[0].start >= Last(u.observations).end - MAXIMUM_AGE)
    && if |u.observations| <= cap then c == u else
         && c.observations == LastOf(u.observations, cap)
         && c.requiresInitialReturn
         && c.overflowUntil == Some(u.observations[|u.observations| - cap - 1].end + MAXIMUM_AGE)
  }

  lemma RefinesAccepts(c: State, u: State, cap: nat, o: Observation)
    requires cap > 0 && Refines(c, u, cap)
    ensures Accepts(c, o) <==> Accepts(u, o)
    ensures IsRetry(c, o) <==> IsRetry(u, o)
  {
    SuffixChronological(c.observations, u.observations);
  }

  lemma RefinesRetry(c: State, u: State, cap: nat, o: Observation)
    requires cap > 0 && Refines(c, u, cap) && Accepts(u, o) && IsRetry(u, o)
    ensures Advance(u, o, None) == u && Advance(c, o, Some(cap)) == c
  {
    hide Retain, Chronological, Acceptable, Identical;
    RefinesAccepts(c, u, cap, o);
    hide Accepts;
    RetryAdvances(u, o, None);
    if |u.observations| > cap {
      var first := |u.observations| - cap - 1;
      Order(u.observations, 0, first);
      Order(u.observations, first, first + 1);
      SuffixChronological(c.observations, u.observations);
    }
    RetryAdvances(c, o, Some(cap));
  }

  /** A window that repeats the newest ages nothing. */
  lemma RetryAdvances(s: State, o: Observation, cap: Option<nat>)
    requires IsRetry(s, o) && Chronological(s.observations) && s.observations[0].start >= o.end - MAXIMUM_AGE
    requires cap.Some? ==> |s.observations| <= cap.value
    requires s.overflowUntil.Some? ==> o.end <= s.overflowUntil.value
    ensures Advance(s, o, cap) == s
  {
    hide Retain, Chronological;
    RetainAll(s.observations, o.end - MAXIMUM_AGE);
  }

  lemma SameDrop<T>(kept: seq<T>, tail: seq<T>, cap: nat)
    requires |kept| > cap && (tail == kept || tail == LastOf(kept, cap + 1))
    ensures |tail| > cap && LastOf(tail, cap) == LastOf(kept, cap)
    ensures tail[|tail| - cap - 1] == kept[|kept| - cap - 1]
  {
  }

  /** What the two reducers keep of their candidates after a new window. */
  lemma KeptByBoth(c: State, u: State, cap: nat, o: Observation)
    requires cap > 0 && Refines(c, u, cap) && Accepts(u, o) && !IsRetry(u, o)
    ensures
      var cutoff := o.end - MAXIMUM_AGE;
      var kept, tail := Retain(u.observations + [o], cutoff), Retain(c.observations + [o], cutoff);
      && Chronological(kept) && |kept| <= |u.observations| + 1
      && (kept != [] ==> kept[0].start >= cutoff && Last(kept) == o)
      && (if |u.observations| <= cap then tail == kept else tail == LastOf(kept, cap + 1))
  {
    hide Retain, Chronological, Acceptable, Identical;
    var us, cs, cutoff := u.observations + [o], c.observations + [o], o.end - MAXIMUM_AGE;
    CandidatesChronological(u, o);
    RetainIsSuffix(us, cutoff);
    SuffixChronological(Retain(us, cutoff), us);
    if |u.observations| > cap {
      var cut := |us| - cap - 1;
      assert us[cut..] == u.observations[cut..] + [o];
      RetainTail(us, cut, cutoff);
    }
  }

  /** When the unbounded horizon shrinks back to the cap, the overflow marker has expired. */
  lemma MarkerExpires(u: State, cap: nat, o: Observation)
    requires Accepts(u, o) && !IsRetry(u, o) && |u.observations| > cap > 0
    requires |Retain(u.observations + [o], o.end - MAXIMUM_AGE)| <= cap
    ensures u.observations[|u.observations| - cap - 1].end + MAXIMUM_AGE < o.end
  {
    hide Retain, Chronological, Acceptable, Identical;
    var us, cutoff := u.observations + [o], o.end - MAXIMUM_AGE;
    CandidatesChronological(u, o);
    RetainIsSuffix(us, cutoff);
    var gone := |us| - |Retain(us, cutoff)| - 1;
    var next := |us| - cap - 1;
    Order(us, next - 1, next);
    Order(us, next, gone);
    assert us[next - 1] == u.observations[|u.observations| - cap - 1];
  }

  /** After a new window that leaves more in the horizon than fits, the capped list is the newest part. */
  lemma RefinesFull(c: State, u: State, cap: nat, o: Observation)
    requires cap > 0 && Refines(c, u, cap) && Accepts(u, o) && !IsRetry(u, o)
    requires |Retain(u.observations + [o], o.end - MAXIMUM_AGE)| > cap
    ensures Refines(Advance(c, o, Some(cap)), Advance(u, o, None), cap)
  {
    hide Retain, Acceptable, Identical, Accepts, IsRetry, Chronological;
    RefinesAccepts(c, u, cap, o);
    KeptByBoth(c, u, cap, o);
    var cutoff := o.end - MAXIMUM_AGE;
    var kept, tail := Retain(u.observations + [o], cutoff), Retain(c.observations + [o], cutoff);
    SameDrop(kept, tail, cap);
    Order(kept, 0, |kept| - cap - 1);
    var c2, u2 := Advance(c, o, Some(cap)), Advance(u, o, None);
    assert u2.observations == kept && u2.overflowUntil.None?;
    assert c2.observations == LastOf(tail, cap) && c2.requiresInitialReturn;
    hide Advance, LastOf;
  }

  /** After one that leaves no more than fits, the two states are equal. */
  lemma RefinesFits(c: State, u: State, cap: nat, o: Observation)
    requires cap > 0 && Refines(c, u, cap) && Accepts(u, o) && !IsRetry(u, o)
    requires |Retain(u.observations + [o], o.end - MAXIMUM_AGE)| <= cap
    ensures Refines(Advance(c, o, Some(cap)), Advance(u, o, None), cap)
  {
    hide Retain, Acceptable, Identical, Accepts, IsRetry, Chronological;
    RefinesAccepts(c, u, cap, o);
    KeptByBoth(c, u, cap, o);
    if |u.observations| > cap { MarkerExpires(u, cap, o); }
    var c2, u2 := Advance(c, o, Some(cap)), Advance(u, o, None);
    assert u2.observations == Retain(u.observations + [o], o.end - MAXIMUM_AGE) && u2.overflowUntil.None?;
    assert c2 == u2;
    hide Advance;
  }

  lemma RefinesNew(c: State, u: State, cap: nat, o: Observation)
    requires cap > 0 && Refines(c, u, cap) && Accepts(u, o) && !IsRetry(u, o)
    ensures Refines(Advance(c, o, Some(cap)), Advance(u, o, None), cap)
  {
    hide Retain, Refines, Advance, Accepts, IsRetry;
    if |Retain(u.observations + [o], o.end - MAXIMUM_AGE)| > cap {
      RefinesFull(c, u, cap, o);
    } else {
      RefinesFits(c, u, cap, o);
    }
  }

  /** The cap is unobservable except as silence.  At every point of every run the capped list is the
      newest part of the unbounded one; while the unbounded horizon fits, the two states are equal. */
  lemma {:induction false} CappedRefinesUnbounded(edges: seq<Edge>, identity: string, f: Floors, cap: nat)
    requires cap > 0
    ensures Refines(StateAfter(edges, identity, f, Some(cap)), StateAfter(edges, identity, f, None), cap)
  {
    if edges != [] {
      var before, edge := edges[..|edges| - 1], Last(edges);
      CappedRefinesUnbounded(before, identity, f, cap);
      var c, u := StateAfter(before, identity, f, Some(cap)), StateAfter(before, identity, f, None);
      if edge.start.Some? && edge.end.Some? {
        var o := Observe(edge, f);
        RefinesAccepts(c, u, cap, o);
        if Accepts(u, o) {
          if IsRetry(u, o) { RefinesRetry(c, u, cap, o); } else { RefinesNew(c, u, cap, o); }
        }
      }
    }
  }

  /** The capped reducer answers what the unbounded one answers, except that it says nothing exactly
      when more windows are in the horizon than it has room for. */
  lemma CappedEvidenceIsUnboundedOrSilent(edges: seq<Edge>, identity: string, f: Floors)
    requires edges != []
    ensures
      var cap := MAXIMUM_OBSERVATIONS;
      var unbounded := StateAfter(edges, identity, f, None);
      var accepted := AcceptsEdge(StateAfter(edges[..|edges| - 1], identity, f, None), Last(edges), f);
      EvidenceAfter(edges, identity, f, Some(cap)) ==
        if accepted && |unbounded.observations| > cap then Silence(Last(edges).end.value)
        else EvidenceAfter(edges, identity, f, None)
  {
    hide Advance, Verdict, Acceptable, Retain, Chronological, StateAfter;
    var before, edge, cap := edges[..|edges| - 1], Last(edges), MAXIMUM_OBSERVATIONS;
    var c, u := StateAfter(before, identity, f, Some(cap)), StateAfter(before, identity, f, None);
    CappedRefinesUnbounded(before, identity, f, cap);
    CappedRefinesUnbounded(edges, identity, f, cap);
    LastStep(edges, identity, f, None);
    LastStep(edges, identity, f, Some(cap));
    if edge.start.Some? && edge.end.Some? { RefinesAccepts(c, u, cap, Observe(edge, f)); }
  }

  lemma LastStep(edges: seq<Edge>, identity: string, f: Floors, cap: Option<nat>)
    requires edges != []
    ensures StateAfter(edges, identity, f, cap) ==
            NextState(StateAfter(edges[..|edges| - 1], identity, f, cap), Last(edges), f, cap)
  {
  }

  // ----- What the retained windows are, in terms of everything accepted -----

  /** Every window accepted in a run (retries are not new windows). */
  ghost function Accepted(edges: seq<Edge>, identity: string, f: Floors): seq<Observation> {
    if edges == [] then []
    else
      var before, edge := edges[..|edges| - 1], Last(edges);
      var s := StateAfter(before, identity, f, None);
      Accepted(before, identity, f) +
        if AcceptsEdge(s, edge, f) && !IsRetry(s, Observe(edge, f)) then [Observe(edge, f)] else []
  }

  predicate Overlong(o: Observation) {
    o.end - o.start > MAXIMUM_AGE
  }

  /** The accepted windows after the last one longer than the horizon. */
  function SinceRestart(log: seq<Observation>): seq<Observation> {
    if log == [] || Overlong(Last(log)) then []
    else SinceRestart(log[..|log| - 1]) + [Last(log)]
  }

  ghost predicate HoldsHorizon(u: State, log: seq<Observation>) {
    && Chronological(SinceRestart(log))
    && (log == [] ==> u.observations == [] && !u.requiresInitialReturn)
    && (log != [] ==> u.observations == Retain(SinceRestart(log), Last(log).end - MAXIMUM_AGE))
    && |u.observations| <= |log|
    && (u.requiresInitialReturn <==> |u.observations| < |log|)
  }

  lemma {:induction false} SinceRestartFits(log: seq<Observation>)
    ensures |SinceRestart(log)| <= |log|
    ensures |SinceRestart(log)| == |log| ==> SinceRestart(log) == log
    ensures forall o :: o in SinceRestart(log) ==> !Overlong(o) && o in log
    ensures SinceRestart(log) != [] ==> Last(SinceRestart(log)) == Last(log)
  {
    if log != [] && !Overlong(Last(log)) { SinceRestartFits(log[..|log| - 1]); }
  }

  lemma {:induction false} RetainNone(obs: seq<Observation>, cutoff: int)
    requires forall o :: o in obs ==> o.start < cutoff
    ensures Retain(obs, cutoff) == []
  {
    if obs != [] { RetainNone(obs[1..], cutoff); }
  }

  lemma HorizonAfterNew(u: State, log: seq<Observation>, o: Observation)
    requires HoldsHorizon(u, log) && Accepts(u, o) && !IsRetry(u, o)
    ensures HoldsHorizon(Advance(u, o, None), log + [o])
  {
    hide Retain, Chronological, Acceptable, Identical, Accepts, IsRetry, Overlong, SinceRestart;
    SinceRestartFits(log);
    SinceRestartStep(log, o);
    CandidatesAreNew(u, o);
    var next := Advance(u, o, None);
    assert next.observations == Retain(u.observations + [o], o.end - MAXIMUM_AGE);
    assert next.requiresInitialReturn <==> u.requiresInitialReturn || |next.observations| != |u.observations| + 1;
    hide Advance, Candidates;
    if Overlong(o) {
      OverlongForgetsAll(u, o);
      EmptyIsChronological();
    } else {
      NewWindowExtendsHorizon(u, log, o);
    }
  }

  lemma EmptyIsChronological()
    ensures Chronological([])
  {
  }

  lemma CandidatesAreNew(u: State, o: Observation)
    requires Accepts(u, o) && !IsRetry(u, o)
    ensures Candidates(u, o) == u.observations + [o]
  {
  }

  lemma SinceRestartStep(log: seq<Observation>, o: Observation)
    ensures SinceRestart(log + [o]) == if Overlong(o) then [] else SinceRestart(log) + [o]
  {
    assert (log + [o])[..|log|] == log;
  }

  lemma OverlongForgetsAll(u: State, o: Observation)
    requires Accepts(u, o) && !IsRetry(u, o) && Overlong(o)
    ensures Retain(u.observations + [o], o.end - MAXIMUM_AGE) == []
    ensures Retain([], o.end - MAXIMUM_AGE) == []
  {
    RetainNone(u.observations + [o], o.end - MAXIMUM_AGE);
  }

  lemma NewWindowExtendsHorizon(u: State, log: seq<Observation>, o: Observation)
    requires HoldsHorizon(u, log) && Accepts(u, o) && !IsRetry(u, o)
    ensures Chronological(SinceRestart(log) + [o])
    ensures Retain(u.observations + [o], o.end - MAXIMUM_AGE) == Retain(SinceRestart(log) + [o], o.end - MAXIMUM_AGE)
  {
    hide Retain, Chronological, Accepts, IsRetry, Overlong, SinceRestart;
    var h := SinceRestart(log);
    SinceRestartFits(log);
    NewFollows(u, o);
    EmptyIsChronological();
    RetainAppend(u.observations, o, o.end - MAXIMUM_AGE);
    RetainAppend(h, o, o.end - MAXIMUM_AGE);
    if h != [] {
      LastIsRetained(u, log);
      RetainTwice(h, Last(log).end - MAXIMUM_AGE, o.end - MAXIMUM_AGE);
    } else if log != [] {
      RetainNone(h, Last(log).end - MAXIMUM_AGE);
    }
    ChronologicalAppend(h, o);
  }

  lemma NewFollows(u: State, o: Observation)
    requires Accepts(u, o) && !IsRetry(u, o)
    ensures o.start < o.end && (u.observations != [] ==> Last(u.observations).end <= o.start)
  {
  }

  lemma LastIsRetained(u: State, log: seq<Observation>)
    requires HoldsHorizon(u, log) && SinceRestart(log) != []
    ensures u.observations != [] && Last(u.observations) == Last(SinceRestart(log)) == Last(log)
  {
    var h := SinceRestart(log);
    SinceRestartFits(log);
    assert Last(h) in h;
    hide Retain, Chronological, SinceRestart;
    RetainLast(h, Last(log).end - MAXIMUM_AGE);
  }

  lemma ChronologicalAppend(obs: seq<Observation>, o: Observation)
    requires Chronological(obs) && o.start < o.end && (obs != [] ==> Last(obs).end <= o.start)
    ensures Chronological(obs + [o])
  {
  }

  lemma RetainHead(obs: seq<Observation>, cutoff: int)
    requires obs != []
    ensures Retain(obs, cutoff) == (if obs[0].start >= cutoff then [obs[0]] else []) + Retain(obs[1..], cutoff)
  {
  }

  /** Ageing two lists one after the other is ageing each. */
  lemma {:induction false} RetainConcat(a: seq<Observation>, b: seq<Observation>, cutoff: int)
    ensures Retain(a + b, cutoff) == Retain(a, cutoff) + Retain(b, cutoff)
  {
    if a == [] {
      assert a + b == b;
    } else {
      hide Retain;
      RetainConcat(a[1..], b, cutoff);
      assert (a + b)[1..] == a[1..] + b;
      RetainHead(a, cutoff);
      RetainHead(a + b, cutoff);
      Associative(if a[0].start >= cutoff then [a[0]] else [], Retain(a[1..], cutoff), Retain(b, cutoff));
    }
  }

  lemma RetainAppend(obs: seq<Observation>, o: Observation, cutoff: int)
    ensures Retain(obs + [o], cutoff) == Retain(obs, cutoff) + if o.start >= cutoff then [o] else []
  {
    RetainConcat(obs, [o], cutoff);
    assert [o][1..] == [];
  }

  lemma RetainLast(obs: seq<Observation>, cutoff: int)
    requires obs != [] && Last(obs).start >= cutoff
    ensures Retain(obs, cutoff) != [] && Last(Retain(obs, cutoff)) == Last(obs)
  {
    var init := obs[..|obs| - 1];
    assert obs == init + [Last(obs)];
    RetainAppend(init, Last(obs), cutoff);
  }

  /** At every point of every run the unbounded memory is exactly the accepted windows that start
      within thirty days of the current end (a window longer than that wipes the history and
      restarts chronology), and it asks for an initial return exactly when something has aged out. */
  lemma {:induction false} MemoryIsTheHorizon(edges: seq<Edge>, identity: string, f: Floors)
    ensures HoldsHorizon(StateAfter(edges, identity, f, None), Accepted(edges, identity, f))
  {
    if edges != [] {
      var before, edge := edges[..|edges| - 1], Last(edges);
      MemoryIsTheHorizon(before, identity, f);
      var u, log := StateAfter(before, identity, f, None), Accepted(before, identity, f);
      AcceptedStep(edges, identity, f);
      LastStep(edges, identity, f, None);
      hide Retain, Chronological, Acceptable, Accepts, IsRetry, Accepted, StateAfter, Advance;
      if AcceptsEdge(u, edge, f) {
        var o := Observe(edge, f);
        if IsRetry(u, o) {
          CappedRefinesUnbounded(before, identity, f, 1);
          RefinesRetry(StateAfter(before, identity, f, Some(1)), u, 1, o);
        } else {
          HorizonAfterNew(u, log, o);
        }
      }
      assert log + [] == log;
    }
  }

  lemma AcceptedStep(edges: seq<Edge>, identity: string, f: Floors)
    requires edges != []
    ensures
      var before, edge := edges[..|edges| - 1], Last(edges);
      var s := StateAfter(before, identity, f, None);
      Accepted(edges, identity, f) == Accepted(before, identity, f) +
        if AcceptsEdge(s, edge, f) && !IsRetry(s, Observe(edge, f)) then [Observe(edge, f)] else []
  {
  }

  lemma {:induction false} NoRestart(log: seq<Observation>)
    requires forall o :: o in log ==> !Overlong(o)
    ensures SinceRestart(log) == log
  {
    hide Overlong;
    if log != [] {
      var init := log[..|log| - 1];
      assert Last(log) in log && forall o :: o in init ==> o in log;
      assert init + [Last(log)] == log;
      NoRestart(init);
    }
  }

  /** With no window longer than thirty days: whenever the capped reducer is not silent, what it
      retains is every window it ever accepted that starts within thirty days of the current end. */
  lemma RetainedIsEverythingRecent(edges: seq<Edge>, identity: string, f: Floors)
    requires forall o :: o in Accepted(edges, identity, f) ==> !Overlong(o)
    requires Accepted(edges, identity, f) != []
    ensures
      var c := StateAfter(edges, identity, f, Some(MAXIMUM_OBSERVATIONS));
      var log := Accepted(edges, identity, f);
      var recent := Retain(log, Last(log).end - MAXIMUM_AGE);
      && (c.overflowUntil.Some? <==> |recent| > MAXIMUM_OBSERVATIONS)
      && c.observations == LastOf(recent, MAXIMUM_OBSERVATIONS)
      && (c.overflowUntil.None? ==> (c.requiresInitialReturn <==> |recent| < |log|))
  {
    hide Retain, Chronological, StateAfter, Accepted;
    CappedRefinesUnbounded(edges, identity, f, MAXIMUM_OBSERVATIONS);
    MemoryIsTheHorizon(edges, identity, f);
    NoRestart(Accepted(edges, identity, f));
  }

  lemma {:induction false} SinceRestartEnds(log: seq<Observation>)
    ensures IsSuffix(SinceRestart(log), log)
  {
    hide Overlong;
    if log != [] && !Overlong(Last(log)) {
      SinceRestartEnds(log[..|log| - 1]);
    }
  }

  lemma {:induction false} RetainNothing(obs: seq<Observation>, cutoff: int)
    ensures Retain(obs, cutoff) == [] <==> forall k :: 0 <= k < |obs| ==> obs[k].start < cutoff
  {
    if obs != [] {
      RetainNothing(obs[1..], cutoff);
      assert forall k :: 1 <= k < |obs| ==> obs[k] == obs[1..][k - 1];
    }
  }

  /** Every window accepted up to the last over-long one starts before the cutoff. */
  predicate NothingLost(log: seq<Observation>, cutoff: int) {
    forall k :: 0 <= k < |log| - |SinceRestart(log)| ==> log[k].start < cutoff
  }

  /** What the horizon holds of the whole history is what it holds since the restart, exactly when
      nothing before the restart would still be in it. */
  lemma RecentSinceRestart(log: seq<Observation>, cutoff: int)
    ensures |SinceRestart(log)| <= |log|
    ensures
      var gone := Retain(log[..|log| - |SinceRestart(log)|], cutoff);
      Retain(log, cutoff) == gone + Retain(SinceRestart(log), cutoff) && (gone == [] <==> NothingLost(log, cutoff))
  {
    SinceRestartEnds(log);
    SinceRestartFits(log);
    hide Retain, SinceRestart, IsSuffix, NothingLost;
    var since := SinceRestart(log);
    var before := SuffixSplits(since, log);
    RetainConcat(before, since, cutoff);
    NothingRetained(log, cutoff);
  }

  lemma NothingRetained(log: seq<Observation>, cutoff: int)
    requires |SinceRestart(log)| <= |log|
    ensures Retain(log[..|log| - |SinceRestart(log)|], cutoff) == [] <==> NothingLost(log, cutoff)
  {
    hide Retain, SinceRestart;
    RetainNothing(log[..|log| - |SinceRestart(log)|], cutoff);
  }

  lemma TailOfLonger<T>(front: seq<T>, tail: seq<T>, n: nat)
    ensures LastOf(tail, n) == LastOf(front + tail, n) <==> |LastOf(tail, n)| == n || front == []
  {
    if front == [] { assert front + tail == tail; }
  }

  /** With windows of any length: at every point of every run, the unbounded list is every window ever
      accepted that starts inside the horizon if and only if nothing accepted before the last restart
      does; and the capped list is the newest of them if and only if, besides, it may be full. */
  lemma RetainedIsEverythingRecentExactly(edges: seq<Edge>, identity: string, f: Floors)
    requires Accepted(edges, identity, f) != []
    ensures
      var u, c := StateAfter(edges, identity, f, None), StateAfter(edges, identity, f, Some(MAXIMUM_OBSERVATIONS));
      var log := Accepted(edges, identity, f);
      var cutoff := Last(log).end - MAXIMUM_AGE;
      && (u.observations == Retain(log, cutoff) <==> NothingLost(log, cutoff))
      && (c.observations == LastOf(Retain(log, cutoff), MAXIMUM_OBSERVATIONS) <==>
            |c.observations| == MAXIMUM_OBSERVATIONS || NothingLost(log, cutoff))
  {
    hide Retain, Chronological, StateAfter, Accepted, SinceRestart, NothingLost, LastOf;
    var log := Accepted(edges, identity, f);
    var cutoff := Last(log).end - MAXIMUM_AGE;
    var u := StateAfter(edges, identity, f, None);
    MemoryIsTheHorizon(edges, identity, f);
    RecentSinceRestart(log, cutoff);
    var gone := Retain(log[..|log| - |SinceRestart(log)|], cutoff);
    CappedIsNewest(edges, identity, f);
    TailOfLonger(gone, u.observations, MAXIMUM_OBSERVATIONS);
    assert u.observations == gone + u.observations <==> gone == [];
  }

  lemma CappedIsNewest(edges: seq<Edge>, identity: string, f: Floors)
    ensures StateAfter(edges, identity, f, Some(MAXIMUM_OBSERVATIONS)).observations
         == LastOf(StateAfter(edges, identity, f, None).observations, MAXIMUM_OBSERVATIONS)
  {
    hide StateAfter;
    CappedRefinesUnbounded(edges, identity, f, MAXIMUM_OBSERVATIONS);
  }

  /** It can fail: after a 31-day window a window from before all others is accepted,
      and the retained list then misses an accepted window that starts inside the horizon. */
  lemma OverlongWindowLosesHistory(f: Floors, identity: string)
    ensures
      var day := MAXIMUM_AGE / 30;
      var at := (from: int, to: int) =>
        Edge(Some(from * day), Some(to * day), Finite(0.0), f.confidence, f.quality, true, "");
      var edges := [at(10, 11), at(11, 42), at(1, 2)];
      var log := Accepted(edges, identity, f);
      StateAfter(edges, identity, f, Some(MAXIMUM_OBSERVATIONS)).observations
      != Retain(log, Last(edges).end.value - MAXIMUM_AGE)
  {
    var day := MAXIMUM_AGE / 30;
    var at := (from: int, to: int) =>
      Edge(Some(from * day), Some(to * day), Finite(0.0), f.confidence, f.quality, true, "");
    var a, b, c := at(10, 11), at(11, 42), at(1, 2);
    var oc := Observe(c, f);
    var cap := Some(MAXIMUM_OBSERVATIONS);
    assert [a, b, c][..2] == [a, b];
    OverlongPrefix(f, identity, a, b, cap);
    OverlongPrefix(f, identity, a, b, None);
    var s := StateAfter([a, b], identity, f, cap);
    LastStep([a, b, c], identity, f, cap);
    AcceptedStep([a, b, c], identity, f);
    hide StateAfter, Accepted, Acceptable;
    RestartStep(s, c, f, cap);
    var log := [Observe(a, f)] + [Observe(b, f)];
    assert Accepted([a, b, c], identity, f) == log + [oc];
    assert Retain(log + [oc], oc.end - MAXIMUM_AGE)[0] == Observe(a, f);
  }

  /** On an emptied memory any window in order is accepted. */
  lemma RestartStep(s: State, c: Edge, f: Floors, cap: Option<nat>)
    requires s.observations == [] && s.overflowUntil.None? && cap in {None, Some(MAXIMUM_OBSERVATIONS)}
    requires c.start.Some? && c.end.Some? && c.start.value < c.end.value && !Overlong(Observe(c, f))
    ensures AcceptsEdge(s, c, f) && !IsRetry(s, Observe(c, f))
    ensures NextState(s, c, f, cap).observations == [Observe(c, f)]
  {
    var o := Observe(c, f);
    assert [] + [o] == [o] && [o][1..] == [];
    assert Retain([o], o.end - MAXIMUM_AGE) == [o];
  }

  lemma AcceptsLater(s: State, oa: Observation, b: Edge, f: Floors)
    requires s.observations == [oa] && oa.start < oa.end
    requires b.start.Some? && b.end.Some? && oa.end <= b.start.value < b.end.value
    ensures AcceptsEdge(s, b, f) && !IsRetry(s, Observe(b, f))
  {
  }

  lemma OverlongStep(s: State, b: Edge, f: Floors, cap: Option<nat>)
    requires AcceptsEdge(s, b, f) && !IsRetry(s, Observe(b, f)) && Overlong(Observe(b, f)) && s.overflowUntil.None?
    ensures NextState(s, b, f, cap).observations == [] && NextState(s, b, f, cap).overflowUntil.None?
  {
    var o := Observe(b, f);
    OverlongForgetsAll(s, o);
    CandidatesAreNew(s, o);
    hide Candidates, Retain, Accepts, IsRetry, Overlong, Observe;
  }

  lemma OverlongPrefix(f: Floors, identity: string, a: Edge, b: Edge, cap: Option<nat>)
    requires a.start.Some? && a.end.Some? && b.start.Some? && b.end.Some? && cap in {None, Some(MAXIMUM_OBSERVATIONS)}
    requires a.start.value < a.end.value <= b.start.value < b.end.value
    requires !Overlong(Observe(a, f)) && Overlong(Observe(b, f))
    ensures var s := StateAfter([a, b], identity, f, cap); s.observations == [] && s.overflowUntil.None?
    ensures Accepted([a, b], identity, f) == [Observe(a, f)] + [Observe(b, f)]
  {
    var s := State(1, identity, [Observe(a, f)], false, None);
    AcceptsLater(s, Observe(a, f), b, f);
    OverlongStep(s, b, f, cap);
    FirstWindow(f, identity, a, cap);
    FirstWindow(f, identity, a, None);
    hide StateAfter, Accepted, NextState, AcceptsEdge, IsRetry, Overlong, Observe;
    assert [a, b][..1] == [a];
    LastStep([a, b], identity, f, cap);
    AcceptedStep([a, b], identity, f);
  }

  lemma FirstWindow(f: Floors, identity: string, a: Edge, cap: Option<nat>)
    requires a.start.Some? && a.end.Some? && cap in {None, Some(MAXIMUM_OBSERVATIONS)}
    requires a.start.value < a.end.value && !Overlong(Observe(a, f))
    ensures StateAfter([a], identity, f, cap) == State(1, identity, [Observe(a, f)], false, None)
    ensures Accepted([a], identity, f) == [Observe(a, f)]
  {
    var oa := Observe(a, f);
    assert [a][..0] == [] && [oa][1..] == [];
    assert Retain([oa], oa.end - MAXIMUM_AGE) == [oa];
  }
}
