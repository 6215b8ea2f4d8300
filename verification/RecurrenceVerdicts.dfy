/** What a verdict of the recurrence reducer says, told on the retained windows themselves. */
module RecurrenceVerdicts {
  import opened Common
  import opened RecurrenceEpisodes
  import opened RelationshipRecurrence
  import opened RecurrenceRuns

  /** Nothing speaks against reading the window. */
  predicate Counts(o: Observation, f: Floors) {
    o.eligible && o.acceptable && o.delta.Finite? && o.confidence >= f.confidence && o.quality >= f.quality
  }

  /** It is back at the baseline. */
  predicate Rests(o: Observation, f: Floors) {
    Counts(o, f) && -0.15 < o.delta.value < 0.15
  }

  /** It is displaced in direction d. */
  predicate Goes(o: Observation, f: Floors, d: int) {
    Counts(o, f) && if d == 1 then o.delta.value >= 0.15 else d == -1 && o.delta.value <= -0.15
  }

  /** Two adjacent windows go the same way d. */
  ghost predicate Sustains(obs: seq<Observation>, f: Floors, d: int, from: nat, to: nat) {
    exists k :: from <= k && k + 1 < to <= |obs| && Goes(obs[k], f, d) && Goes(obs[k + 1], f, d)
  }

  /** Window j at rest ends an excursion in direction d that began after window i at rest, or, if i is -1, at
      an armed beginning: no window between them rests or goes the other way, and two adjacent ones go d. */
  ghost predicate Excursion(obs: seq<Observation>, f: Floors, armed: bool, i: int, d: int, j: nat) {
    && -1 <= i < j < |obs| && (d == 1 || d == -1)
    && Rests(obs[j], f) && (if i < 0 then armed else Rests(obs[i], f))
    && (forall k :: i < k < j ==> !Rests(obs[k], f) && !Goes(obs[k], f, -d))
    && Sustains(obs, f, d, i + 1, j)
  }

  /** `at` lists the windows between i and j that go d, in order. */
  ghost predicate Steps(obs: seq<Observation>, f: Floors, i: int, d: int, j: nat, at: seq<nat>) {
    && (forall a, b :: 0 <= a < b < |at| ==> at[a] < at[b])
    && (forall k: nat :: k in at <==> i < k < j && k < |obs| && Goes(obs[k], f, d))
  }

  ghost predicate AllGo(obs: seq<Observation>, f: Floors, d: int, from: nat, to: nat) {
    to <= |obs| && forall k :: from <= k < to ==> Goes(obs[k], f, d)
  }

  /** n is the length of the longest unbroken run in direction d between i and j. */
  ghost predicate LongestStretch(obs: seq<Observation>, f: Floors, i: int, d: int, j: nat, n: nat) {
    && (exists from: nat, to: nat :: i < from <= to <= j && to - from == n && AllGo(obs, f, d, from, to))
    && (forall from: nat, to: nat :: i < from < to <= j && AllGo(obs, f, d, from, to) ==> to - from <= n)
  }

  /** The record tells the excursion from i to j. */
  ghost predicate Tells(e: Episode, obs: seq<Observation>, f: Floors, i: int, d: int, j: nat, at: seq<nat>) {
    && -1 <= i < j < |obs| && at != [] && Steps(obs, f, i, d, j, at)
    && e.direction == d && e.closing == obs[j] && e.closedAt == obs[j].end
    && e.opening == (if i < 0 then None else Some(obs[i]))
    && TakenAt(e.supporting, obs, at) && e.supportCount == |at|
    && e.startedAt == e.supporting[0].start && e.lastSupportedAt == Last(e.supporting).end
    && LongestStretch(obs, f, i, d, j, e.maximumConsecutive)
  }

  /** It tells an excursion that window j ends. */
  ghost predicate Told(e: Episode, obs: seq<Observation>, f: Floors, armed: bool, j: nat) {
    exists i, d, at :: Excursion(obs, f, armed, i, d, j) && Tells(e, obs, f, i, d, j, at)
  }

  // ----- Readings and windows -----

  lemma ReadsRaw(o: Observation, f: Floors)
    ensures Read(o, f) ==
            if Rests(o, f) then Return
            else if Goes(o, f, 1) then Displaced(1)
            else if Goes(o, f, -1) then Displaced(-1)
            else Unknown
    ensures !(Goes(o, f, 1) && Goes(o, f, -1))
  {
  }

  lemma AllReadRaw(obs: seq<Observation>, f: Floors)
    ensures
      var r := ReadAll(obs, f);
      forall k :: 0 <= k < |obs| ==>
        && (r[k].Return? <==> Rests(obs[k], f))
        && (r[k] == Displaced(1) <==> Goes(obs[k], f, 1)) && (r[k] == Displaced(-1) <==> Goes(obs[k], f, -1))
        && (r[k].Displaced? ==> r[k].sign == 1 || r[k].sign == -1)
  {
    forall k | 0 <= k < |obs|
      ensures ReadAll(obs, f)[k] == Read(obs[k], f)
    {
      ReadsRaw(obs[k], f);
    }
    forall k | 0 <= k < |obs|
      ensures Read(obs[k], f) == Return <==> Rests(obs[k], f)
      ensures Read(obs[k], f) == Displaced(1) <==> Goes(obs[k], f, 1)
      ensures Read(obs[k], f) == Displaced(-1) <==> Goes(obs[k], f, -1)
      ensures Read(obs[k], f).Displaced? ==> Read(obs[k], f).sign == 1 || Read(obs[k], f).sign == -1
    {
      ReadsRaw(obs[k], f);
    }
  }

  lemma SustainedRaw(obs: seq<Observation>, f: Floors, d: int, k: nat)
    requires k + 1 < |obs| && (d == 1 || d == -1)
    ensures SustainedAt(ReadAll(obs, f), k) && ReadAll(obs, f)[k].sign == d <==>
            Goes(obs[k], f, d) && Goes(obs[k + 1], f, d)
  {
    AllReadRaw(obs, f);
    hide Goes, Rests, ReadAll;
  }

  lemma SegmentRaw(obs: seq<Observation>, f: Floors, armed: bool, i: int, d: int, j: nat)
    requires d == 1 || d == -1
    ensures j < |obs| && ReadAll(obs, f)[j].Return? && IsSegment(ReadAll(obs, f), armed, i, d, j) <==>
            Excursion(obs, f, armed, i, d, j)
  {
    var r := ReadAll(obs, f);
    AllReadRaw(obs, f);
    hide Goes, Rests, ReadAll;
    if j < |obs| && r[j].Return? && IsSegment(r, armed, i, d, j) {
      var k :| i + 1 <= k && k + 1 < j && SustainedAt(r, k);
      assert Goes(obs[k], f, d) && Goes(obs[k + 1], f, d);
    }
    if Excursion(obs, f, armed, i, d, j) {
      var k :| i + 1 <= k && k + 1 < j && Goes(obs[k], f, d) && Goes(obs[k + 1], f, d);
      assert SustainedAt(r, k);
      forall x | i < x < j
        ensures !r[x].Return? && (r[x].Displaced? ==> r[x] == Displaced(d))
      {
        assert !Rests(obs[x], f) && !Goes(obs[x], f, -d);
      }
    }
  }

  /** Which windows close an episode. */
  lemma ClosesRaw(obs: seq<Observation>, f: Floors, armed: bool, j: nat)
    ensures Closes(ReadAll(obs, f), armed, j) <==> exists i, d :: Excursion(obs, f, armed, i, d, j)
  {
    var r := ReadAll(obs, f);
    AllReadRaw(obs, f);
    hide Excursion, Goes, Rests, ReadAll;
    if Closes(r, armed, j) {
      ClosesReadsAsSegment(r, armed, j);
      var i, d :| IsSegment(r, armed, i, d, j);
      SegmentSign(r, armed, i, d, j);
      SegmentRaw(obs, f, armed, i, d, j);
    }
    forall i, d | Excursion(obs, f, armed, i, d, j)
      ensures Closes(r, armed, j)
    {
      ExcursionSign(obs, f, armed, i, d, j);
      SegmentRaw(obs, f, armed, i, d, j);
      ClosesReadsAsSegment(r, armed, j);
    }
  }

  lemma SegmentSign(r: seq<Reading>, armed: bool, i: int, d: int, j: nat)
    requires IsSegment(r, armed, i, d, j) && forall k :: 0 <= k < |r| && r[k].Displaced? ==> r[k].sign in {1, -1}
    ensures d == 1 || d == -1
  {
  }

  lemma ExcursionSign(obs: seq<Observation>, f: Floors, armed: bool, i: int, d: int, j: nat)
    requires Excursion(obs, f, armed, i, d, j)
    ensures -1 <= i < j < |obs| && (d == 1 || d == -1)
  {
  }

  /** The support of a stretch in which all displaced windows go d. */
  lemma {:induction false} SupportSteps(obs: seq<Observation>, f: Floors, i: int, d: int, j: nat) returns (at: seq<nat>)
    requires -1 <= i < j <= |obs| && (d == 1 || d == -1)
    requires forall k :: i < k < j ==> !Goes(obs[k], f, -d)
    ensures TakenAt(Support(obs, ReadAll(obs, f), i + 1, j), obs, at) && Steps(obs, f, i, d, j, at)
    decreases j
  {
    if j == i + 1 {
      at := [];
    } else {
      SupportOneMore(obs, f, i, d, j);
      var before := SupportSteps(obs, f, i, d, j - 1);
      hide *;
      StepsOneMore(obs, f, i, d, j, before);
      TakenPlus(Support(obs, ReadAll(obs, f), i + 1, j - 1), obs, before, j - 1);
      at := before + if Goes(obs[j - 1], f, d) then [j - 1] else [];
    }
  }

  lemma StepsOneMore(obs: seq<Observation>, f: Floors, i: int, d: int, j: nat, at: seq<nat>)
    requires -1 <= i && i + 1 < j <= |obs| && Steps(obs, f, i, d, j - 1, at)
    ensures Steps(obs, f, i, d, j, at + if Goes(obs[j - 1], f, d) then [j - 1] else [])
  {
    hide Goes;
    assert forall a :: 0 <= a < |at| ==> at[a] in at;
  }

  lemma SupportOneMore(obs: seq<Observation>, f: Floors, i: int, d: int, j: nat)
    requires -1 <= i && i + 1 < j <= |obs| && (d == 1 || d == -1) && !Goes(obs[j - 1], f, -d)
    ensures Support(obs, ReadAll(obs, f), i + 1, j) ==
            Support(obs, ReadAll(obs, f), i + 1, j - 1) + if Goes(obs[j - 1], f, d) then [obs[j - 1]] else []
  {
    AllReadRaw(obs, f);
    hide Goes, Rests, ReadAll;
  }

  lemma StretchRaw(obs: seq<Observation>, f: Floors, d: int, from: nat, to: nat)
    requires from < to <= |obs| && (d == 1 || d == -1)
    requires forall k :: from <= k < to ==> !Goes(obs[k], f, -d)
    ensures Agreeing(ReadAll(obs, f), from, to) <==> AllGo(obs, f, d, from, to)
  {
    AllReadRaw(obs, f);
    hide Goes, Rests, ReadAll;
  }

  lemma LongestRaw(obs: seq<Observation>, f: Floors, i: int, d: int, j: nat)
    requires -1 <= i < j < |obs| && (d == 1 || d == -1) && (i >= 0 ==> Rests(obs[i], f))
    requires forall k :: i < k < j ==> !Goes(obs[k], f, -d)
    ensures LongestStretch(obs, f, i, d, j, LongestRun(ReadAll(obs, f), i + 1, j))
  {
    var r, lo := ReadAll(obs, f), i + 1;
    AllReadRaw(obs, f);
    hide Goes, Rests, ReadAll, LongestRun, AllGo, Agreeing;
    LongestRunIsMaximal(r, lo, j);
    var from, to :| lo <= from <= to <= j && to - from == LongestRun(r, lo, j) && Agreeing(r, from, to);
    if from < to { StretchRaw(obs, f, d, from, to); } else { EmptyStretch(obs, f, d, from); }
    forall a: nat, b: nat | i < a < b <= j && AllGo(obs, f, d, a, b)
      ensures b - a <= LongestRun(r, lo, j)
    {
      StretchRaw(obs, f, d, a, b);
    }
  }

  lemma EmptyStretch(obs: seq<Observation>, f: Floors, d: int, from: nat)
    requires from <= |obs|
    ensures AllGo(obs, f, d, from, from)
  {
  }

  /** The record of a closed segment tells its excursion. */
  lemma EpisodeTells(obs: seq<Observation>, f: Floors, armed: bool, j: nat) returns (i: int, d: int, at: seq<nat>)
    requires Closes(ReadAll(obs, f), armed, j)
    ensures Excursion(obs, f, armed, i, d, j) && Tells(EpisodeAt(obs, ReadAll(obs, f), armed, j), obs, f, i, d, j, at)
  {
    var r := ReadAll(obs, f);
    hide ReadAll, Closes, Excursion, Tells, SegmentEpisode;
    ClosesRaw(obs, f, armed, j);
    i, d :| Excursion(obs, f, armed, i, d, j);
    ClosesAtSegment(obs, r, armed, j);
    hide *;
    ExcursionOpens(obs, f, armed, i, d, j);
    at := SegmentTells(obs, f, armed, i, d, j);
  }

  lemma ClosesAtSegment(obs: seq<Observation>, r: seq<Reading>, armed: bool, j: nat)
    requires |obs| == |r| && Closes(r, armed, j)
    ensures Support(obs, r, Opening(r, j) + 1, j) != []
    ensures EpisodeAt(obs, r, armed, j) == SegmentEpisode(obs, r, Opening(r, j) + 1, j)
  {
    hide SegmentEpisode;
  }

  lemma ExcursionOpens(obs: seq<Observation>, f: Floors, armed: bool, i: int, d: int, j: nat)
    requires Excursion(obs, f, armed, i, d, j)
    ensures -1 <= i < j < |obs| && Opening(ReadAll(obs, f), j) == i && (d == 1 || d == -1)
    ensures LastSign(ReadAll(obs, f), i + 1, j) == d
  {
    var r := ReadAll(obs, f);
    SegmentRaw(obs, f, armed, i, d, j);
    hide ReadAll, Excursion;
    OpeningIs(r, i, j);
    var k :| i + 1 <= k && k + 1 < j && SustainedAt(r, k);
    LastSignIs(r, i + 1, j, d, k);
  }

  lemma SegmentTells(obs: seq<Observation>, f: Floors, armed: bool, i: int, d: int, j: nat) returns (at: seq<nat>)
    requires Excursion(obs, f, armed, i, d, j)
    ensures -1 <= i < j < |obs| && Support(obs, ReadAll(obs, f), i + 1, j) != []
    ensures Tells(SegmentEpisode(obs, ReadAll(obs, f), i + 1, j), obs, f, i, d, j, at)
  {
    ExcursionOpens(obs, f, armed, i, d, j);
    ExcursionIsOneSided(obs, f, armed, i, d, j);
    hide Goes, Rests, LastSign, LongestRun, Support, ReadAll, LongestStretch, Excursion, Tells, TakenAt;
    at := SupportSteps(obs, f, i, d, j);
    LongestRaw(obs, f, i, d, j);
    var k: nat :| i < k < j && Goes(obs[k], f, d);
    assert k in at;
    RecordTells(obs, f, i, d, j, at, Support(obs, ReadAll(obs, f), i + 1, j), LongestRun(ReadAll(obs, f), i + 1, j));
  }

  lemma RecordTells(obs: seq<Observation>, f: Floors, i: int, d: int, j: nat, at: seq<nat>,
                    support: seq<Observation>, longest: nat)
    requires -1 <= i < j < |obs| && at != [] && Steps(obs, f, i, d, j, at) && TakenAt(support, obs, at)
    requires LongestStretch(obs, f, i, d, j, longest)
    ensures support != []
    ensures Tells(Episode(d, |support|, longest, support[0].start, Last(support).end, obs[j].end, support,
                          if i < 0 then None else Some(obs[i]), obs[j]), obs, f, i, d, j, at)
  {
    hide Steps, LongestStretch;
  }

  lemma ExcursionIsOneSided(obs: seq<Observation>, f: Floors, armed: bool, i: int, d: int, j: nat)
    requires Excursion(obs, f, armed, i, d, j)
    ensures (i >= 0 ==> Rests(obs[i], f)) && forall k :: i < k < j ==> !Goes(obs[k], f, -d)
    ensures exists k: nat :: i < k < j && Goes(obs[k], f, d)
  {
    hide Goes, Rests;
  }

  /** The episodes of a list are its excursions, in the order they end. */
  lemma EpisodesAreExcursions(obs: seq<Observation>, f: Floors, armed: bool) returns (ends: seq<nat>)
    ensures forall a, b :: 0 <= a < b < |ends| ==> ends[a] < ends[b]
    ensures forall j: nat :: j in ends <==> exists i, d :: Excursion(obs, f, armed, i, d, j)
    ensures |AllEpisodes(obs, f, armed)| == |ends|
    ensures forall n :: 0 <= n < |ends| ==> Told(AllEpisodes(obs, f, armed)[n], obs, f, armed, ends[n])
  {
    var r := ReadAll(obs, f);
    ends := Closings(r, armed, |obs|);
    PicksExact((j: nat) => Closes(r, armed, j), |obs|);
    hide Closes, Excursion, Tells, ReadAll, Closings, EpisodeAt;
    forall j: nat
      ensures j in ends <==> exists i, d :: Excursion(obs, f, armed, i, d, j)
    {
      ClosesRaw(obs, f, armed, j);
      forall i, d | Excursion(obs, f, armed, i, d, j) ensures j < |obs| { ExcursionSign(obs, f, armed, i, d, j); }
    }
    forall n | 0 <= n < |ends|
      ensures Told(AllEpisodes(obs, f, armed)[n], obs, f, armed, ends[n])
    {
      var i, d, at := EpisodeTells(obs, f, armed, ends[n]);
    }
  }

  lemma SignsRaw(obs: seq<Observation>, f: Floors, d: int)
    requires d == 1 || d == -1
    ensures d in AllSustained(obs, f) <==> Sustains(obs, f, d, 0, |obs|)
  {
    var r := ReadAll(obs, f);
    hide Goes, ReadAll;
    if d in AllSustained(obs, f) {
      var k :| 0 <= k < |r| - 1 && SustainedAt(r, k) && r[k].sign == d;
      SustainedRaw(obs, f, d, k);
    }
    if Sustains(obs, f, d, 0, |obs|) {
      var k: nat :| k + 1 < |obs| && Goes(obs[k], f, d) && Goes(obs[k + 1], f, d);
      SustainedRaw(obs, f, d, k);
    }
  }

  // ----- The verdict -----

  /** What is kept of a submitted window. */
  predicate Records(o: Observation, edge: Edge, f: Floors) {
    && edge.start == Some(o.start) && edge.end == Some(o.end)
    && o.delta == edge.delta && o.confidence == edge.confidence && o.quality == edge.quality
    && o.eligible == edge.eligible && o.detail == edge.detail
    && (o.acceptable <==>
          edge.eligible && edge.delta.Finite? && edge.confidence >= f.confidence && edge.quality >= f.quality)
  }

  /** `ends` lists the windows that end an excursion, in order. */
  ghost predicate EndsExcursions(obs: seq<Observation>, f: Floors, armed: bool, ends: seq<nat>) {
    && (forall a, b :: 0 <= a < b < |ends| ==> ends[a] < ends[b])
    && (forall j: nat :: j in ends <==> exists i, d :: Excursion(obs, f, armed, i, d, j))
  }

  /** A verdict in terms of the retained windows and of whether the submitted one is acceptable. */
  ghost predicate Judges(e: Evidence, obs: seq<Observation>, f: Floors, armed: bool, ends: seq<nat>, acceptable: bool) {
    var up, down := Sustains(obs, f, 1, 0, |obs|), Sustains(obs, f, -1, 0, |obs|);
    && |e.episodes| == e.episodeCount == |ends|
    && (forall n :: 0 <= n < |ends| ==> Told(e.episodes[n], obs, f, armed, ends[n]))
    && (e.veto <==> up && down)
    && e.direction == (if up && !down then 1 else if down && !up then -1 else 0)
    && (e.supported <==> |ends| >= 3 && up != down && acceptable)
    && e.status == (if e.supported then Supported else Unconfirmed)
    && e.reason == (if e.veto then Some(OppositeDirectionEpisode) else if e.supported then None
                    else Some(InsufficientEvidence))
  }

  lemma VerdictJudges(obs: seq<Observation>, f: Floors, armed: bool, acceptable: bool, end: int)
    returns (ends: seq<nat>)
    ensures EndsExcursions(obs, f, armed, ends)
    ensures Judges(Verdict(obs, f, armed, acceptable, end), obs, f, armed, ends, acceptable)
  {
    ends := EpisodesAreExcursions(obs, f, armed);
    SignsRaw(obs, f, 1);
    SignsRaw(obs, f, -1);
    SustainedSignsAre(obs, f);
    SingleSign(AllSustained(obs, f));
    hide Excursion, Told, Sustains, AllEpisodes, AllSustained;
  }

  /** The verdict on an accepted window, when nothing was dropped for want of room: the episodes are the
      excursions of the retained windows; both directions sustained anywhere veto; and a direction is supported if
      and only if there are three excursions, it alone is sustained, and the submitted window meets the floors. */
  lemma VerdictIsExact(s: State, edge: Edge, f: Floors, cap: Option<nat>) returns (ends: seq<nat>)
    requires AcceptsEdge(s, edge, f) && NextState(s, edge, f, cap).overflowUntil.None?
    ensures
      var e, next := NextEvidence(s, edge, f, cap), NextState(s, edge, f, cap);
      var armed := !next.requiresInitialReturn;
      && EndsExcursions(next.observations, f, armed, ends) && Records(Observe(edge, f), edge, f)
      && Judges(e, next.observations, f, armed, ends, Observe(edge, f).acceptable)
      && e.evaluatedAt == edge.end
  {
    var next, o := NextState(s, edge, f, cap), Observe(edge, f);
    assert Records(o, edge, f);
    assert NextEvidence(s, edge, f, cap) ==
           Verdict(next.observations, f, !next.requiresInitialReturn, o.acceptable, o.end);
    assert NextEvidence(s, edge, f, cap).evaluatedAt == edge.end;
    hide *;
    ends := VerdictJudges(next.observations, f, !next.requiresInitialReturn, o.acceptable, o.end);
  }

  // ----- The memory -----

  function StartsFrom(cutoff: int): Observation -> bool {
    (o: Observation) => o.start >= cutoff
  }

  lemma {:induction false} RetainedAt(obs: seq<Observation>, cutoff: int) returns (at: seq<nat>)
    ensures Selects(obs, StartsFrom(cutoff), at) && TakenAt(Retain(obs, cutoff), obs, at)
  {
    if obs == [] {
      at := [];
    } else {
      var init, last := obs[..|obs| - 1], Last(obs);
      at := RetainedAt(init, cutoff);
      assert obs == init + [last];
      RetainAppend(init, last, cutoff);
      SelectsOneMore(obs, StartsFrom(cutoff), at);
      TakenOneMore(Retain(init, cutoff), obs, at, last.start >= cutoff);
      hide *;
      at := at + if last.start >= cutoff then [|obs| - 1] else [];
    }
  }

  /** `next` remembers, of `all` the windows at hand, those listed in `at`, or the newest of them there is room for.
      Anything lost calls for an initial return; what was dropped for want of room is marked with the instant it would
      have aged out, and the mark stays until that has passed. */
  ghost predicate Remembers(next: State, s: State, all: seq<Observation>, at: seq<nat>, cap: Option<nat>, end: int) {
    && (forall i :: 0 <= i < |at| ==> at[i] < |all|)
    && var dropped := if cap.Some? && |at| > cap.value then |at| - cap.value else 0;
       var mark := if dropped > 0 then Some(all[at[dropped - 1]].end + 30 * 24 * 60 * 60 * 1_000_000)
                   else s.overflowUntil;
       && TakenAt(next.observations, all, at[dropped..])
       && next.version == s.version && next.identity == s.identity
       && (next.requiresInitialReturn <==> s.requiresInitialReturn || |next.observations| < |all|)
       && next.overflowUntil == if mark.Some? && end <= mark.value then mark else None
  }

  /** What an accepted window leaves in memory: of the carried windows and, unless it repeats the newest, itself,
      those that start within thirty days of its end. */
  lemma MemoryIsExact(s: State, edge: Edge, f: Floors, cap: Option<nat>) returns (at: seq<nat>)
    requires AcceptsEdge(s, edge, f)
    ensures
      var end := edge.end.value;
      var again := s.observations != [] && Last(s.observations).end == end;
      var all := if again then s.observations else s.observations + [Observe(edge, f)];
      && Selects(all, StartsFrom(end - 30 * 24 * 60 * 60 * 1_000_000), at)
      && Remembers(NextState(s, edge, f, cap), s, all, at, cap, end)
  {
    hide *;
    StepAdvances(s, edge, f, cap);
    var o := Observe(edge, f);
    var all := Candidates(s, o);
    at := RetainedAt(all, o.end - MAXIMUM_AGE);
    AgeInMicroseconds();
    AdvanceRemembers(s, o, cap, all, at);
  }

  lemma StepAdvances(s: State, edge: Edge, f: Floors, cap: Option<nat>)
    requires AcceptsEdge(s, edge, f)
    ensures edge.start.Some? && edge.end.Some? && Observe(edge, f).end == edge.end.value
    ensures NextState(s, edge, f, cap) == Advance(s, Observe(edge, f), cap)
    ensures Candidates(s, Observe(edge, f)) ==
            if s.observations != [] && Last(s.observations).end == edge.end.value then s.observations
            else s.observations + [Observe(edge, f)]
  {
    hide Advance, Accepts;
  }

  lemma AgeInMicroseconds()
    ensures MAXIMUM_AGE == 30 * 24 * 60 * 60 * 1_000_000
  {
  }

  lemma AdvanceRemembers(s: State, o: Observation, cap: Option<nat>, all: seq<Observation>, at: seq<nat>)
    requires all == Candidates(s, o) && TakenAt(Retain(all, o.end - MAXIMUM_AGE), all, at)
    ensures Remembers(Advance(s, o, cap), s, all, at, cap, o.end)
  {
    var retained := Retain(all, o.end - MAXIMUM_AGE);
    hide *;
    TakenIsFit(retained, all, at);
    var dropped := if cap.Some? && |at| > cap.value then |at| - cap.value else 0;
    var kept := if dropped > 0 then LastOf(retained, cap.value) else retained;
    if dropped > 0 { NewestTaken(retained, all, at, cap.value); } else { assert at[0..] == at; }
    AdvanceFields(s, o, cap, all, retained);
    RemembersFields(Advance(s, o, cap), s, all, at, cap, o.end, dropped, retained, kept);
  }

  lemma TakenIsFit<T>(ys: seq<T>, xs: seq<T>, at: seq<nat>)
    requires TakenAt(ys, xs, at)
    ensures |ys| == |at| && forall i :: 0 <= i < |at| ==> at[i] < |xs| && ys[i] == xs[at[i]]
  {
  }

  lemma AdvanceFields(s: State, o: Observation, cap: Option<nat>, all: seq<Observation>, retained: seq<Observation>)
    requires all == Candidates(s, o) && retained == Retain(all, o.end - MAXIMUM_AGE)
    ensures
      var next, dropped := Advance(s, o, cap), cap.Some? && |retained| > cap.value;
      var mark := if dropped then Some(retained[|retained| - cap.value - 1].end + MAXIMUM_AGE) else s.overflowUntil;
      && next.observations == (if dropped then LastOf(retained, cap.value) else retained)
      && next.version == s.version && next.identity == s.identity
      && (next.requiresInitialReturn <==> s.requiresInitialReturn || |retained| != |all| || dropped)
      && next.overflowUntil == (if mark.Some? && o.end <= mark.value then mark else None)
      && |retained| <= |all| && (dropped ==> |next.observations| == cap.value)
  {
    hide Retain, Candidates;
  }

  lemma RemembersFields(next: State, s: State, all: seq<Observation>, at: seq<nat>, cap: Option<nat>, end: int,
                        dropped: nat, retained: seq<Observation>, kept: seq<Observation>)
    requires |retained| == |at| && |retained| <= |all|
    requires forall i :: 0 <= i < |at| ==> at[i] < |all| && retained[i] == all[at[i]]
    requires dropped == if cap.Some? && |at| > cap.value then |at| - cap.value else 0
    requires next.observations == kept && TakenAt(kept, all, at[dropped..]) && (dropped > 0 ==> |kept| == cap.value)
    requires dropped == 0 ==> kept == retained
    requires next.version == s.version && next.identity == s.identity
    requires next.requiresInitialReturn <==> s.requiresInitialReturn || |retained| != |all| || dropped > 0
    requires
      var mark := if dropped > 0 then Some(retained[dropped - 1].end + MAXIMUM_AGE) else s.overflowUntil;
      next.overflowUntil == if mark.Some? && end <= mark.value then mark else None
    ensures Remembers(next, s, all, at, cap, end)
  {
    hide TakenAt;
  }

  /** A window is accepted if and only if its bounds are readable and in order, the carried windows are in order
      without overlap, and it starts no earlier than they end or is the newest of them again, unaltered. */
  lemma AcceptedExactly(s: State, edge: Edge, f: Floors)
    ensures AcceptsEdge(s, edge, f) <==>
      var obs := s.observations;
      && edge.start.Some? && edge.end.Some? && edge.start.value < edge.end.value
      && (forall i :: 0 <= i < |obs| ==> obs[i].start < obs[i].end)
      && (forall i, j :: 0 <= i < j < |obs| ==> obs[i].end <= obs[j].start)
      && (obs != [] ==>
            || Last(obs).end <= edge.start.value
            || (Records(Last(obs), edge, f) && !edge.delta.NotANumber?))
  {
  }

  /** A window that is not accepted changes and says nothing. */
  lemma RefusalSaysNothing(s: State, edge: Edge, f: Floors, cap: Option<nat>)
    requires !AcceptsEdge(s, edge, f)
    ensures NextState(s, edge, f, cap) == s
    ensures NextEvidence(s, edge, f, cap) ==
            Evidence(Limited, false, 0, 0, false, [], None, Some(InvalidOrNonchronologicalWindow))
  {
  }
}
