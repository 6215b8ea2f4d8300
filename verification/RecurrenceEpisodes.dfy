/** The episodes held by a list of windows, read declaratively.

    Every retained window is one of three things to the recurrence fold: an acceptable neutral
    window (a return), an acceptable displaced window, or an unknown.  This module defines what an
    episode of such a list is without reference to any loop, and proves how episodes behave when
    the list is cut, mirrored or diluted. */
module RecurrenceEpisodes {
  import opened Common

  const MINIMUM_SUPPORT := 2
  const MINIMUM_DISPLACEMENT := 0.15

  /** `detail` stands for the remaining compared fields (raw window text, rows, dataset, health). */
  datatype Observation = Observation(
    start: int, end: int, delta: Number, confidence: real, quality: real,
    eligible: bool, acceptable: bool, detail: string)

  datatype Floors = Floors(confidence: real, quality: real)

  datatype Reading = Return | Displaced(sign: int) | Unknown

  datatype Episode = Episode(
    direction: int, supportCount: nat, maximumConsecutive: nat,
    startedAt: int, lastSupportedAt: int, closedAt: int,
    supporting: seq<Observation>, opening: Option<Observation>, closing: Observation)

  predicate Acceptable(o: Observation, f: Floors) {
    o.eligible && o.acceptable && o.delta.Finite? && o.confidence >= f.confidence && o.quality >= f.quality
  }

  function Read(o: Observation, f: Floors): Reading {
    if !Acceptable(o, f) then Unknown
    else if Abs(o.delta.value) < MINIMUM_DISPLACEMENT then Return
    else Displaced(if o.delta.value > 0.0 then 1 else -1)
  }

  function ReadAll(obs: seq<Observation>, f: Floors): (r: seq<Reading>)
    ensures |r| == |obs|
    ensures forall k :: 0 <= k < |obs| ==> r[k] == Read(obs[k], f)
  {
    seq(|obs|, k requires 0 <= k < |obs| => Read(obs[k], f))
  }

  /** The last return before position n, or -1. */
  function Opening(r: seq<Reading>, n: nat): (i: int)
    requires n <= |r|
    ensures -1 <= i < n
    ensures i >= 0 ==> r[i].Return?
    ensures forall k :: i < k < n ==> !r[k].Return?
  {
    if n == 0 then -1
    else if r[n - 1].Return? then n - 1
    else Opening(r, n - 1)
  }

  /** Windows k and k+1 are displaced the same way. */
  predicate SustainedAt(r: seq<Reading>, k: int) {
    0 <= k && k + 1 < |r| && r[k].Displaced? && r[k + 1] == r[k]
  }

  predicate HasSustained(r: seq<Reading>, lo: nat, hi: nat) {
    exists k :: lo <= k && k + 1 < hi && SustainedAt(r, k)
  }

  /** The sign of the newest displaced window of a stretch, or 0. */
  function LastSign(r: seq<Reading>, lo: nat, hi: nat): int
    requires hi <= |r|
  {
    if hi <= lo then 0
    else if r[hi - 1].Displaced? then r[hi - 1].sign
    else LastSign(r, lo, hi - 1)
  }

  /** All displaced windows of a stretch carry one sign, that of the newest. */
  predicate OneSided(r: seq<Reading>, lo: nat, hi: nat)
    requires hi <= |r|
  {
    forall k :: lo <= k < hi && r[k].Displaced? ==> r[k].sign == LastSign(r, lo, hi)
  }

  /** A return at j closes an episode: its segment starts at a return or at an armed beginning, its
      displaced windows all point one way and two adjacent ones agree. */
  predicate Closes(r: seq<Reading>, armed: bool, j: nat) {
    && j < |r|
    && r[j].Return?
    && (armed || Opening(r, j) >= 0)
    && OneSided(r, Opening(r, j) + 1, j)
    && HasSustained(r, Opening(r, j) + 1, j)
  }

  /** The displaced windows of a stretch, oldest first. */
  function Support(obs: seq<Observation>, r: seq<Reading>, lo: nat, hi: nat): (s: seq<Observation>)
    requires |obs| == |r| && hi <= |r|
    ensures |s| <= hi
    ensures (exists k :: lo <= k < hi && r[k].Displaced?) ==> s != []
  {
    if hi <= lo then []
    else if r[hi - 1].Displaced? then Support(obs, r, lo, hi - 1) + [obs[hi - 1]]
    else Support(obs, r, lo, hi - 1)
  }

  /** The number of agreeing displaced windows ending at position n - 1. */
  function RunLength(r: seq<Reading>, n: nat): (len: nat)
    requires n <= |r|
    ensures len <= n
    ensures forall k :: n - len <= k < n ==> r[k].Displaced? && r[k] == r[n - 1]
    ensures len >= 2 <==> SustainedAt(r, n - 2)
    ensures len >= 1 <==> n > 0 && r[n - 1].Displaced?
  {
    if n == 0 || !r[n - 1].Displaced? then 0
    else if n >= 2 && r[n - 2] == r[n - 1] then RunLength(r, n - 1) + 1
    else 1
  }

  function LongestRun(r: seq<Reading>, lo: nat, hi: nat): (len: nat)
    requires hi <= |r|
  {
    if hi <= lo then 0 else Max(LongestRun(r, lo, hi - 1), RunLength(r, hi))
  }

  /** Which signs are sustained by two adjacent windows before position n. */
  function SustainedSigns(r: seq<Reading>, n: nat): set<int>
    requires n <= |r|
  {
    set k | 0 <= k < n - 1 && SustainedAt(r, k) :: r[k].sign
  }

  /** The record of the segment from lo up to its closing return j. */
  function SegmentEpisode(obs: seq<Observation>, r: seq<Reading>, lo: nat, j: nat): Episode
    requires |obs| == |r| && lo <= j < |r| && Support(obs, r, lo, j) != []
  {
    var support := Support(obs, r, lo, j);
    Episode(LastSign(r, lo, j), |support|, LongestRun(r, lo, j), support[0].start, Last(support).end,
            obs[j].end, support, if lo > 0 then Some(obs[lo - 1]) else None, obs[j])
  }

  function EpisodeAt(obs: seq<Observation>, r: seq<Reading>, armed: bool, j: nat): Episode
    requires |obs| == |r| && Closes(r, armed, j)
  {
    SegmentEpisode(obs, r, Opening(r, j) + 1, j)
  }

  /** The returns before position n that close an episode, in order. */
  ghost function Closings(r: seq<Reading>, armed: bool, n: nat): seq<nat> {
    Picks((j: nat) => Closes(r, armed, j), n)
  }

  ghost function Episodes(obs: seq<Observation>, r: seq<Reading>, armed: bool, n: nat): (es: seq<Episode>)
    requires |obs| == |r| && n <= |r|
    ensures |es| == |Closings(r, armed, n)|
    ensures forall i :: 0 <= i < |es| ==> es[i] == EpisodeAt(obs, r, armed, Closings(r, armed, n)[i])
  {
    var cs := Closings(r, armed, n);
    seq(|cs|, i requires 0 <= i < |cs| => EpisodeAt(obs, r, armed, cs[i]))
  }

  ghost function AllEpisodes(obs: seq<Observation>, f: Floors, armed: bool): seq<Episode> {
    Episodes(obs, ReadAll(obs, f), armed, |obs|)
  }

  ghost function AllSustained(obs: seq<Observation>, f: Floors): set<int> {
    SustainedSigns(ReadAll(obs, f), |obs|)
  }

  // ----- What the longest run measures -----

  ghost predicate Agreeing(r: seq<Reading>, from: nat, to: nat)
    requires to <= |r|
  {
    forall k :: from <= k < to ==> r[k].Displaced? && r[k] == r[from]
  }

  lemma {:induction false} AgreeingFitsRunLength(r: seq<Reading>, from: nat, to: nat)
    requires from < to <= |r| && Agreeing(r, from, to)
    ensures RunLength(r, to) >= to - from
  {
    if from + 1 < to {
      AgreeingFitsRunLength(r, from, to - 1);
    }
  }

  /** Within a segment the reported maximum is the length of its longest agreeing stretch: such a
      stretch exists and no longer one does. */
  lemma {:induction false} LongestRunIsMaximal(r: seq<Reading>, lo: nat, hi: nat)
    requires lo <= hi <= |r|
    requires lo > 0 ==> r[lo - 1].Return?
    ensures exists from, to :: lo <= from <= to <= hi && to - from == LongestRun(r, lo, hi) && Agreeing(r, from, to)
    ensures forall from, to :: lo <= from < to <= hi && Agreeing(r, from, to) ==> to - from <= LongestRun(r, lo, hi)
  {
    if lo == hi {
      assert Agreeing(r, lo, lo);
    } else {
      LongestRunIsMaximal(r, lo, hi - 1);
      var len := LongestRun(r, lo, hi);
      if len == RunLength(r, hi) {
        assert hi - len >= lo by {
          assert lo > 0 ==> r[lo - 1].Return?;
        }
        assert Agreeing(r, hi - len, hi);
      }
      forall from, to | lo <= from < to <= hi && Agreeing(r, from, to)
        ensures to - from <= len
      {
        if to == hi { AgreeingFitsRunLength(r, from, to); }
      }
    }
  }

  lemma {:induction false} LongestRunSustains(r: seq<Reading>, lo: nat, hi: nat)
    requires lo <= hi <= |r|
    requires lo > 0 ==> r[lo - 1].Return?
    ensures LongestRun(r, lo, hi) >= MINIMUM_SUPPORT <==> HasSustained(r, lo, hi)
  {
    LongestRunIsMaximal(r, lo, hi);
    if LongestRun(r, lo, hi) >= MINIMUM_SUPPORT {
      var from, to :| lo <= from <= to <= hi && to - from == LongestRun(r, lo, hi) && Agreeing(r, from, to);
      assert SustainedAt(r, from);
    }
    if HasSustained(r, lo, hi) {
      var k :| lo <= k && k + 1 < hi && SustainedAt(r, k);
      assert Agreeing(r, k, k + 2);
    }
  }

  lemma {:induction false} RunFitsSupport(obs: seq<Observation>, r: seq<Reading>, lo: nat, hi: nat)
    requires |obs| == |r| && lo <= hi <= |r|
    requires lo > 0 ==> r[lo - 1].Return?
    ensures RunLength(r, hi) <= |Support(obs, r, lo, hi)|
  {
    if lo < hi && r[hi - 1].Displaced? { RunFitsSupport(obs, r, lo, hi - 1); }
  }

  lemma {:induction false} LongestRunFitsSupport(obs: seq<Observation>, r: seq<Reading>, lo: nat, hi: nat)
    requires |obs| == |r| && lo <= hi <= |r|
    requires lo > 0 ==> r[lo - 1].Return?
    ensures LongestRun(r, lo, hi) <= |Support(obs, r, lo, hi)|
  {
    if lo < hi {
      LongestRunFitsSupport(obs, r, lo, hi - 1);
      RunFitsSupport(obs, r, lo, hi);
    }
  }

  /** The signs seen in a stretch. */
  function SignsIn(r: seq<Reading>, lo: nat, hi: nat): set<int>
    requires hi <= |r|
  {
    set k | lo <= k < hi && r[k].Displaced? :: r[k].sign
  }

  lemma {:induction false} LastSignSeen(r: seq<Reading>, lo: nat, hi: nat)
    requires hi <= |r| && SignsIn(r, lo, hi) != {}
    ensures LastSign(r, lo, hi) in SignsIn(r, lo, hi)
  {
    if r[hi - 1].Displaced? {
    } else {
      assert SignsIn(r, lo, hi - 1) == SignsIn(r, lo, hi);
      LastSignSeen(r, lo, hi - 1);
    }
  }

  /** One sign in a stretch is what "all displaced windows agree" means. */
  lemma OneSignIsOneSided(r: seq<Reading>, lo: nat, hi: nat)
    requires hi <= |r| && HasSustained(r, lo, hi)
    ensures |SignsIn(r, lo, hi)| == 1 <==> OneSided(r, lo, hi)
    ensures OneSided(r, lo, hi) ==> SignsIn(r, lo, hi) == {LastSign(r, lo, hi)}
  {
    var k :| lo <= k && k + 1 < hi && SustainedAt(r, k);
    var signs := SignsIn(r, lo, hi);
    assert r[k].sign in signs;
    LastSignSeen(r, lo, hi);
    var last := LastSign(r, lo, hi);
    if |signs| == 1 {
      assert |signs - {last}| == 0;
      forall s | s in signs ensures s == last {
        assert s !in signs - {last};
      }
    }
    assert OneSided(r, lo, hi) ==> signs == {last};
    if |signs| == 1 {
      forall j | lo <= j < hi && r[j].Displaced? ensures r[j].sign == last { assert r[j].sign in signs; }
    }
  }

  /** The stretch from position i (a return, or -1 for an armed beginning) up to j: no return in it,
      displaced windows of one sign only, two of them adjacent. */
  ghost predicate IsSegment(r: seq<Reading>, armed: bool, i: int, sign: int, j: nat) {
    && -1 <= i < j < |r| && (if i < 0 then armed else r[i].Return?)
    && (forall k :: i < k < j ==> !r[k].Return? && (r[k].Displaced? ==> r[k] == Displaced(sign)))
    && HasSustained(r, i + 1, j)
  }

  lemma OpeningIs(r: seq<Reading>, i: int, j: nat)
    requires -1 <= i < j <= |r| && (i >= 0 ==> r[i].Return?) && forall k :: i < k < j ==> !r[k].Return?
    ensures Opening(r, j) == i
  {
    var o := Opening(r, j);
  }

  lemma {:induction false} LastSignIs(r: seq<Reading>, lo: nat, hi: nat, sign: int, k: nat)
    requires lo <= k < hi <= |r| && r[k].Displaced?
    requires forall x :: lo <= x < hi && r[x].Displaced? ==> r[x] == Displaced(sign)
    ensures LastSign(r, lo, hi) == sign
  {
    if k < hi - 1 && !r[hi - 1].Displaced? { LastSignIs(r, lo, hi - 1, sign, k); }
  }

  lemma SegmentCloses(r: seq<Reading>, armed: bool, i: int, sign: int, j: nat)
    requires j < |r| && r[j].Return? && IsSegment(r, armed, i, sign, j)
    ensures Closes(r, armed, j)
  {
    OpeningIs(r, i, j);
    var k :| i + 1 <= k && k + 1 < j && SustainedAt(r, k);
    LastSignIs(r, i + 1, j, sign, k);
  }

  lemma ClosesIsSegment(r: seq<Reading>, armed: bool, j: nat)
    requires Closes(r, armed, j)
    ensures IsSegment(r, armed, Opening(r, j), LastSign(r, Opening(r, j) + 1, j), j)
  {
    hide HasSustained;
    var o := Opening(r, j);
    forall k | o < k < j
      ensures !r[k].Return? && (r[k].Displaced? ==> r[k] == Displaced(LastSign(r, o + 1, j)))
    {
    }
  }

  /** What closes an episode, spelled out on the list itself: the segment from the previous return
      (or from an armed beginning) holds displaced windows of one sign only, two of them adjacent. */
  lemma ClosesReadsAsSegment(r: seq<Reading>, armed: bool, j: nat)
    requires j < |r|
    ensures Closes(r, armed, j) <==> r[j].Return? && exists i, sign :: IsSegment(r, armed, i, sign, j)
  {
    if Closes(r, armed, j) { ClosesIsSegment(r, armed, j); }
    hide Closes, IsSegment;
    if r[j].Return? {
      forall i, sign | IsSegment(r, armed, i, sign, j)
        ensures Closes(r, armed, j)
      {
        SegmentCloses(r, armed, i, sign, j);
      }
    }
    ReturnCloses(r, armed, j);
  }

  lemma ReturnCloses(r: seq<Reading>, armed: bool, j: nat)
    ensures Closes(r, armed, j) ==> j < |r| && r[j].Return?
  {
  }

  // ----- Episodes of a list of windows in time order -----

  predicate Chronological(obs: seq<Observation>) {
    && (forall i :: 0 <= i < |obs| ==> obs[i].start < obs[i].end)
    && (forall i, j :: 0 <= i < j < |obs| ==> obs[i].end <= obs[j].start)
  }

  /** What one episode record asserts about the windows it was cut from. */
  ghost predicate SoundEpisode(e: Episode, obs: seq<Observation>) {
    && e.supportCount == |e.supporting| >= e.maximumConsecutive >= MINIMUM_SUPPORT
    && e.startedAt < e.lastSupportedAt <= e.closing.start < e.closedAt
    && e.closing in obs
    && (e.opening.Some? ==> e.opening.value in obs && e.opening.value.end <= e.startedAt)
    && (forall o :: o in e.supporting ==> o in obs && o.delta.Finite? && Abs(o.delta.value) >= MINIMUM_DISPLACEMENT
                                          && (if o.delta.value > 0.0 then 1 else -1) == e.direction)
  }

  lemma {:induction false} SupportMember(obs: seq<Observation>, r: seq<Reading>, lo: nat, hi: nat, o: Observation)
    returns (k: nat)
    requires |obs| == |r| && hi <= |r| && o in Support(obs, r, lo, hi)
    ensures lo <= k < hi && r[k].Displaced? && obs[k] == o
  {
    if r[hi - 1].Displaced? && o == obs[hi - 1] { k := hi - 1; } else { k := SupportMember(obs, r, lo, hi - 1, o); }
  }

  lemma {:induction false} SupportInOrder(obs: seq<Observation>, r: seq<Reading>, lo: nat, hi: nat)
    requires Chronological(obs) && |obs| == |r| && hi <= |r|
    requires Support(obs, r, lo, hi) != []
    ensures Support(obs, r, lo, hi)[0].start < Last(Support(obs, r, lo, hi)).end
  {
    if r[hi - 1].Displaced? {
      var before := Support(obs, r, lo, hi - 1);
      if before != [] { var k := SupportMember(obs, r, lo, hi - 1, before[0]); }
    } else {
      SupportInOrder(obs, r, lo, hi - 1);
    }
  }

  lemma SupportIsSigned(obs: seq<Observation>, f: Floors, lo: nat, hi: nat, o: Observation)
    requires hi <= |obs| && OneSided(ReadAll(obs, f), lo, hi)
    requires o in Support(obs, ReadAll(obs, f), lo, hi)
    ensures o in obs && o.delta.Finite? && Abs(o.delta.value) >= MINIMUM_DISPLACEMENT
    ensures (if o.delta.value > 0.0 then 1 else -1) == LastSign(ReadAll(obs, f), lo, hi)
  {
    var k := SupportMember(obs, ReadAll(obs, f), lo, hi, o);
  }

  /** The bounds of a segment are in time order. */
  lemma SegmentInOrder(obs: seq<Observation>, r: seq<Reading>, lo: nat, j: nat)
    requires Chronological(obs) && |obs| == |r| && lo <= j < |r| && Support(obs, r, lo, j) != []
    ensures
      var support := Support(obs, r, lo, j);
      && support[0].start < Last(support).end <= obs[j].start < obs[j].end
      && (lo > 0 ==> obs[lo - 1].end <= support[0].start)
  {
    var support := Support(obs, r, lo, j);
    SupportInOrder(obs, r, lo, j);
    hide Support;
    var first := SupportMember(obs, r, lo, j, support[0]);
    var last := SupportMember(obs, r, lo, j, Last(support));
  }

  lemma SegmentIsSound(obs: seq<Observation>, f: Floors, lo: nat, j: nat)
    requires Chronological(obs) && lo <= j < |obs| && OneSided(ReadAll(obs, f), lo, j)
    requires Support(obs, ReadAll(obs, f), lo, j) != []
    requires |Support(obs, ReadAll(obs, f), lo, j)| >= LongestRun(ReadAll(obs, f), lo, j) >= MINIMUM_SUPPORT
    ensures SoundEpisode(SegmentEpisode(obs, ReadAll(obs, f), lo, j), obs)
  {
    var r := ReadAll(obs, f);
    assert obs[j] in obs && (lo > 0 ==> obs[lo - 1] in obs);
    hide RunLength, LongestRun, LastSign, Support, Chronological, OneSided, ReadAll;
    SegmentInOrder(obs, r, lo, j);
    forall o | o in Support(obs, r, lo, j)
      ensures o in obs && o.delta.Finite? && Abs(o.delta.value) >= MINIMUM_DISPLACEMENT
      ensures (if o.delta.value > 0.0 then 1 else -1) == LastSign(r, lo, j)
    {
      SupportIsSigned(obs, f, lo, j, o);
    }
  }

  /** What an episode's record says is so. */
  lemma EpisodeIsSound(obs: seq<Observation>, f: Floors, armed: bool, j: nat)
    requires Chronological(obs) && Closes(ReadAll(obs, f), armed, j)
    ensures SoundEpisode(EpisodeAt(obs, ReadAll(obs, f), armed, j), obs)
  {
    var r := ReadAll(obs, f);
    var lo := Opening(r, j) + 1;
    assert j < |r| && OneSided(r, lo, j) && HasSustained(r, lo, j);
    assert Support(obs, r, lo, j) != [] && EpisodeAt(obs, r, armed, j) == SegmentEpisode(obs, r, lo, j);
    hide *;
    LongestRunSustains(r, lo, j);
    LongestRunFitsSupport(obs, r, lo, j);
    SegmentIsSound(obs, f, lo, j);
  }

  /** Episodes are separated in time: each closes no later than the next one starts. */
  lemma EpisodesDoNotOverlap(obs: seq<Observation>, f: Floors, armed: bool, a: nat, b: nat)
    requires Chronological(obs) && a < b < |AllEpisodes(obs, f, armed)|
    ensures AllEpisodes(obs, f, armed)[a].closedAt <= AllEpisodes(obs, f, armed)[b].startedAt
  {
    var r := ReadAll(obs, f);
    var cs := Closings(r, armed, |obs|);
    PicksExact((j: nat) => Closes(r, armed, j), |obs|);
    ClosingsSeparated(obs, r, armed, cs[a], cs[b]);
  }

  lemma ClosingsSeparated(obs: seq<Observation>, r: seq<Reading>, armed: bool, a: nat, b: nat)
    requires Chronological(obs) && |obs| == |r| && a < b < |r| && r[a].Return? && Closes(r, armed, b)
    ensures obs[a].end <= EpisodeAt(obs, r, armed, b).startedAt
  {
    var lo := Opening(r, b) + 1;
    var k := SupportMember(obs, r, lo, b, EpisodeAt(obs, r, armed, b).supporting[0]);
  }

  /** Every episode's direction is among the sustained signs of the same list. */
  lemma EpisodeDirectionSustained(obs: seq<Observation>, f: Floors, armed: bool, i: nat)
    requires i < |AllEpisodes(obs, f, armed)|
    ensures AllEpisodes(obs, f, armed)[i].direction in AllSustained(obs, f)
  {
    var r := ReadAll(obs, f);
  }

  // ----- Cutting old windows off -----

  lemma {:induction false} OpeningShift(r: seq<Reading>, cut: nat, n: nat)
    requires cut <= |r| && n <= |r| - cut
    ensures Opening(r[cut..], n) >= 0 ==> Opening(r, cut + n) == cut + Opening(r[cut..], n)
    ensures Opening(r[cut..], n) < 0 ==> Opening(r, cut + n) < cut
  {
    if n > 0 && !r[cut + n - 1].Return? { OpeningShift(r, cut, n - 1); }
  }

  lemma {:induction false} SupportShift(obs: seq<Observation>, r: seq<Reading>, cut: nat, lo: nat, hi: nat)
    requires |obs| == |r| && cut <= |r| && hi <= |r| - cut
    ensures Support(obs, r, cut + lo, cut + hi) == Support(obs[cut..], r[cut..], lo, hi)
  {
    if lo < hi { SupportShift(obs, r, cut, lo, hi - 1); }
  }

  lemma {:induction false} RunLengthShift(r: seq<Reading>, cut: nat, n: nat)
    requires cut <= |r| && n <= |r| - cut && Opening(r[cut..], n) >= 0
    ensures RunLength(r, cut + n) == RunLength(r[cut..], n)
  {
    if r[cut + n - 1].Displaced? { RunLengthShift(r, cut, n - 1); }
  }

  lemma {:induction false} LongestRunShift(r: seq<Reading>, cut: nat, lo: nat, hi: nat)
    requires cut <= |r| && 0 < lo <= |r| - cut && hi <= |r| - cut && r[cut..][lo - 1].Return?
    ensures LongestRun(r, cut + lo, cut + hi) == LongestRun(r[cut..], lo, hi)
  {
    if lo < hi {
      LongestRunShift(r, cut, lo, hi - 1);
      assert Opening(r[cut..], hi) >= lo - 1;
      RunLengthShift(r, cut, hi);
    }
  }

  lemma {:induction false} LastSignShift(r: seq<Reading>, cut: nat, lo: nat, hi: nat)
    requires cut <= |r| && hi <= |r| - cut
    ensures LastSign(r, cut + lo, cut + hi) == LastSign(r[cut..], lo, hi)
  {
    if lo < hi { LastSignShift(r, cut, lo, hi - 1); }
  }

  lemma SustainedShift(r: seq<Reading>, cut: nat, lo: nat, hi: nat)
    requires cut <= |r| && hi <= |r| - cut
    ensures HasSustained(r, cut + lo, cut + hi) <==> HasSustained(r[cut..], lo, hi)
  {
    var t := r[cut..];
    if HasSustained(r, cut + lo, cut + hi) {
      var k :| cut + lo <= k && k + 1 < cut + hi && SustainedAt(r, k);
      assert SustainedAt(t, k - cut);
    }
    if HasSustained(t, lo, hi) {
      var k :| lo <= k && k + 1 < hi && SustainedAt(t, k);
      assert SustainedAt(r, cut + k);
    }
  }

  lemma OneSidedShift(r: seq<Reading>, cut: nat, lo: nat, hi: nat)
    requires cut <= |r| && hi <= |r| - cut
    ensures OneSided(r, cut + lo, cut + hi) <==> OneSided(r[cut..], lo, hi)
  {
    LastSignShift(r, cut, lo, hi);
    var t := r[cut..];
    assert forall k :: cut + lo <= k < cut + hi ==> r[k] == t[k - cut];
  }

  lemma ClosesShift(r: seq<Reading>, cut: nat, armed: bool, j: nat)
    requires cut <= |r| && j < |r| - cut
    ensures Closes(r[cut..], false, j) <==> Opening(r[cut..], j) >= 0 && Closes(r, armed, cut + j)
  {
    OpeningShift(r, cut, j);
    var lo := Opening(r[cut..], j) + 1;
    SustainedShift(r, cut, lo, j);
    OneSidedShift(r, cut, lo, j);
  }

  lemma EpisodeAtShift(obs: seq<Observation>, r: seq<Reading>, cut: nat, armed: bool, j: nat)
    requires |obs| == |r| && cut <= |r| && Closes(r[cut..], false, j) && Closes(r, armed, cut + j)
    ensures EpisodeAt(obs[cut..], r[cut..], false, j) == EpisodeAt(obs, r, armed, cut + j)
  {
    OpeningShift(r, cut, j);
    var i := Opening(r[cut..], j);
    SupportShift(obs, r, cut, i + 1, j);
    LongestRunShift(r, cut, i + 1, j);
    LastSignShift(r, cut, i + 1, j);
  }

  /** The first position below n with a return before it, or n. */
  function FirstOpened(r: seq<Reading>, n: nat): (first: nat)
    requires n <= |r|
    ensures first <= n
    ensures forall j :: 0 <= j < first ==> Opening(r, j) < 0
    ensures forall j :: first <= j < n ==> Opening(r, j) >= 0
  {
    if n > 0 && Opening(r, n - 1) >= 0 then FirstOpened(r, n - 1) else n
  }

  lemma CuttingKeepsTheLastClosings(r: seq<Reading>, cut: nat, armed: bool, n: nat)
    requires cut <= |r| && n <= |r| - cut
    ensures IsSuffix(ShiftAll(Closings(r[cut..], false, n), cut), Closings(r, armed, cut + n))
  {
    var t := r[cut..];
    forall j: nat | j < n
      ensures Closes(t, false, j) <==> Opening(t, j) >= 0 && Closes(r, armed, cut + j)
    {
      ClosesShift(r, cut, armed, j);
    }
    PicksShift((j: nat) => Closes(r, armed, j), (j: nat) => Closes(t, false, j), cut, FirstOpened(t, n), n);
  }

  lemma CuttingKeepsASuffix(obs: seq<Observation>, r: seq<Reading>, cut: nat, armed: bool, n: nat)
    requires |obs| == |r| && cut <= |r| && n <= |r| - cut
    ensures IsSuffix(Episodes(obs[cut..], r[cut..], false, n), Episodes(obs, r, armed, cut + n))
  {
    hide EpisodeAt, Closes;
    CuttingKeepsTheLastClosings(r, cut, armed, n);
    var kept, whole := Closings(r[cut..], false, n), Closings(r, armed, cut + n);
    var skipped := |whole| - |kept|;
    forall i | 0 <= i < |kept|
      ensures Episodes(obs[cut..], r[cut..], false, n)[i] == Episodes(obs, r, armed, cut + n)[skipped + i]
    {
      assert whole[skipped + i] == ShiftAll(kept, cut)[i];
      EpisodeAtShift(obs, r, cut, armed, kept[i]);
    }
  }

  /** Dropping the oldest windows and starting un-armed invents nothing: the episodes found are a
      suffix of those in the whole list, and no new direction becomes sustained. */
  lemma TruncationInventsNothing(older: seq<Observation>, kept: seq<Observation>, f: Floors, armed: bool)
    ensures IsSuffix(AllEpisodes(kept, f, false), AllEpisodes(older + kept, f, armed))
    ensures AllSustained(kept, f) <= AllSustained(older + kept, f)
  {
    var obs := older + kept;
    var r := ReadAll(obs, f);
    assert obs[|older|..] == kept;
    assert r[|older|..] == ReadAll(kept, f);
    CuttingKeepsASuffix(obs, r, |older|, armed, |kept|);
    forall s | s in AllSustained(kept, f)
      ensures s in AllSustained(obs, f)
    {
      var k :| 0 <= k < |kept| - 1 && SustainedAt(ReadAll(kept, f), k) && ReadAll(kept, f)[k].sign == s;
      assert SustainedAt(r, |older| + k) && r[|older| + k].sign == s;
    }
  }
}
