/** How the episodes of a list respond when the list is diluted with a window that says nothing,
    and when every displacement changes sign. */
module RecurrenceVariations {
  import opened Common
  import opened RecurrenceEpisodes

  // ----- Inserting a window that is not acceptable -----

  /** `diluted` is `plain` with one unknown put in at position a. */
  ghost predicate Dilutes(plain: seq<Reading>, diluted: seq<Reading>, a: nat) {
    && a <= |plain|
    && |diluted| == |plain| + 1
    && diluted[a].Unknown?
    && (forall k :: 0 <= k < a ==> diluted[k] == plain[k])
    && (forall k :: a < k < |diluted| ==> diluted[k] == plain[k - 1])
  }

  lemma {:induction false} OpeningBeforeDilution(plain: seq<Reading>, diluted: seq<Reading>, a: nat, n: nat)
    requires Dilutes(plain, diluted, a) && n <= a
    ensures Opening(diluted, n) == Opening(plain, n)
  {
    if n > 0 { OpeningBeforeDilution(plain, diluted, a, n - 1); }
  }

  lemma {:induction false} OpeningAfterDilution(plain: seq<Reading>, diluted: seq<Reading>, a: nat, n: nat)
    requires Dilutes(plain, diluted, a) && a <= n <= |plain|
    ensures Opening(diluted, n + 1) == if Opening(plain, n) >= a then Opening(plain, n) + 1 else Opening(plain, n)
  {
    if n == a {
      OpeningBeforeDilution(plain, diluted, a, a);
    } else {
      OpeningAfterDilution(plain, diluted, a, n - 1);
    }
  }

  lemma {:induction false} LastSignAcrossDilution(plain: seq<Reading>, diluted: seq<Reading>, a: nat, lo: nat, hi: nat)
    requires Dilutes(plain, diluted, a) && hi <= |plain|
    ensures hi <= a ==> LastSign(diluted, lo, hi) == LastSign(plain, lo, hi)
    ensures a <= hi && lo <= a ==> LastSign(diluted, lo, hi + 1) == LastSign(plain, lo, hi)
    ensures a < lo ==> LastSign(diluted, lo + 1, hi + 1) == LastSign(plain, lo, hi)
  {
    if lo < hi { LastSignAcrossDilution(plain, diluted, a, lo, hi - 1); }
  }

  lemma SustainedBeforeDilution(plain: seq<Reading>, diluted: seq<Reading>, a: nat, k: nat)
    requires Dilutes(plain, diluted, a) && SustainedAt(diluted, k)
    ensures k + 1 < a || a < k
    ensures k < a ==> SustainedAt(plain, k) && plain[k] == diluted[k]
    ensures a < k ==> SustainedAt(plain, k - 1) && plain[k - 1] == diluted[k]
  {
    assert k != a && k + 1 != a;
  }

  lemma ClosesAfterDilution(plain: seq<Reading>, diluted: seq<Reading>, a: nat, armed: bool, n: nat)
    requires Dilutes(plain, diluted, a) && a <= n < |plain|
    ensures Closes(diluted, armed, n + 1) ==> Closes(plain, armed, n)
  {
    OpeningAfterDilution(plain, diluted, a, n);
    var lo := Opening(plain, n) + 1;
    LastSignAcrossDilution(plain, diluted, a, lo, n);
    if Closes(diluted, armed, n + 1) {
      var k :| Opening(diluted, n + 1) + 1 <= k && k + 1 < n + 1 && SustainedAt(diluted, k);
      SustainedBeforeDilution(plain, diluted, a, k);
      assert HasSustained(plain, lo, n);
      forall x | lo <= x < n && plain[x].Displaced?
        ensures plain[x].sign == LastSign(plain, lo, n)
      {
        assert diluted[if x < a then x else x + 1] == plain[x];
      }
    }
  }

  lemma ClosesBeforeDilution(plain: seq<Reading>, diluted: seq<Reading>, a: nat, armed: bool, n: nat)
    requires Dilutes(plain, diluted, a) && n < a
    ensures Closes(diluted, armed, n) ==> Closes(plain, armed, n)
  {
    OpeningBeforeDilution(plain, diluted, a, n);
    LastSignAcrossDilution(plain, diluted, a, Opening(plain, n) + 1, n);
    if Closes(diluted, armed, n) {
      var k :| Opening(diluted, n) + 1 <= k && k + 1 < n && SustainedAt(diluted, k);
      assert SustainedAt(plain, k);
      forall x | Opening(plain, n) + 1 <= x < n && plain[x].Displaced?
        ensures plain[x].sign == LastSign(plain, Opening(plain, n) + 1, n)
      {
        assert diluted[x] == plain[x];
      }
    }
  }

  lemma {:induction false} ClosingsBeforeDilution(plain: seq<Reading>, diluted: seq<Reading>, a: nat, armed: bool,
                                                  n: nat)
    requires Dilutes(plain, diluted, a) && n <= a
    ensures |Closings(diluted, armed, n)| <= |Closings(plain, armed, n)|
  {
    if n > 0 {
      ClosingsBeforeDilution(plain, diluted, a, armed, n - 1);
      ClosesBeforeDilution(plain, diluted, a, armed, n - 1);
    }
  }

  lemma {:induction false} ClosingsAfterDilution(plain: seq<Reading>, diluted: seq<Reading>, a: nat, armed: bool,
                                                 n: nat)
    requires Dilutes(plain, diluted, a) && a <= n <= |plain|
    ensures |Closings(diluted, armed, n + 1)| <= |Closings(plain, armed, n)|
  {
    if n == a {
      ClosingsBeforeDilution(plain, diluted, a, armed, a);
    } else {
      ClosingsAfterDilution(plain, diluted, a, armed, n - 1);
      ClosesAfterDilution(plain, diluted, a, armed, n - 1);
    }
  }

  /** A window that fails the floors, wherever it lands, can only lower the number of episodes and
      the set of sustained directions. */
  lemma UnknownNeverHelps(before: seq<Observation>, unknown: Observation, after: seq<Observation>, f: Floors,
                          armed: bool)
    requires !Acceptable(unknown, f)
    ensures |AllEpisodes(before + [unknown] + after, f, armed)| <= |AllEpisodes(before + after, f, armed)|
    ensures AllSustained(before + [unknown] + after, f) <= AllSustained(before + after, f)
  {
    var plain, diluted := ReadAll(before + after, f), ReadAll(before + [unknown] + after, f);
    assert Dilutes(plain, diluted, |before|);
    ClosingsAfterDilution(plain, diluted, |before|, armed, |plain|);
    forall s | s in SustainedSigns(diluted, |diluted|)
      ensures s in SustainedSigns(plain, |plain|)
    {
      var k :| 0 <= k < |diluted| - 1 && SustainedAt(diluted, k) && diluted[k].sign == s;
      SustainedBeforeDilution(plain, diluted, |before|, k);
    }
  }

  // ----- Negating every displacement -----

  function NegateNumber(x: Number): Number {
    match x
    case Finite(v) => Finite(-v)
    case Infinite(p) => Infinite(!p)
    case NotANumber => NotANumber
  }

  function Negate(o: Observation): Observation {
    o.(delta := NegateNumber(o.delta))
  }

  function NegateAll(obs: seq<Observation>): (n: seq<Observation>)
    ensures |n| == |obs| && forall k :: 0 <= k < |obs| ==> n[k] == Negate(obs[k])
  {
    seq(|obs|, k requires 0 <= k < |obs| => Negate(obs[k]))
  }

  function NegateEpisode(e: Episode): Episode {
    e.(direction := -e.direction, supporting := NegateAll(e.supporting), closing := Negate(e.closing),
       opening := if e.opening.Some? then Some(Negate(e.opening.value)) else None)
  }

  ghost predicate Mirrors(r: seq<Reading>, m: seq<Reading>) {
    |r| == |m| &&
    forall k :: 0 <= k < |r| ==> m[k] == if r[k].Displaced? then Displaced(-r[k].sign) else r[k]
  }

  lemma NegatedReadingsMirror(obs: seq<Observation>, f: Floors)
    ensures Mirrors(ReadAll(obs, f), ReadAll(NegateAll(obs), f))
  {
  }

  lemma {:induction false} MirrorSegment(obs: seq<Observation>, r: seq<Reading>, m: seq<Reading>, lo: nat, hi: nat)
    requires Mirrors(r, m) && |obs| == |r| && hi <= |r|
    ensures LastSign(m, lo, hi) == -LastSign(r, lo, hi)
    ensures RunLength(m, hi) == RunLength(r, hi)
    ensures LongestRun(m, lo, hi) == LongestRun(r, lo, hi)
    ensures Opening(m, hi) == Opening(r, hi)
    ensures Support(NegateAll(obs), m, lo, hi) == NegateAll(Support(obs, r, lo, hi))
  {
    if hi > 0 { MirrorSegment(obs, r, m, lo, hi - 1); }
  }

  lemma MirrorCloses(r: seq<Reading>, m: seq<Reading>, armed: bool, j: nat)
    requires Mirrors(r, m) && j < |r| && Opening(m, j) == Opening(r, j)
    requires LastSign(m, Opening(r, j) + 1, j) == -LastSign(r, Opening(r, j) + 1, j)
    ensures Closes(m, armed, j) <==> Closes(r, armed, j)
  {
    var lo := Opening(r, j) + 1;
    assert forall k :: SustainedAt(m, k) <==> SustainedAt(r, k);
    assert HasSustained(m, lo, j) <==> HasSustained(r, lo, j);
    assert forall k :: lo <= k < j ==> (m[k].Displaced? <==> r[k].Displaced?);
  }

  lemma MirrorSegmentEpisode(obs: seq<Observation>, r: seq<Reading>, m: seq<Reading>, lo: nat, j: nat)
    requires Mirrors(r, m) && |obs| == |r| && lo <= j < |r|
    requires Support(obs, r, lo, j) != [] && Support(NegateAll(obs), m, lo, j) != []
    ensures SegmentEpisode(NegateAll(obs), m, lo, j) == NegateEpisode(SegmentEpisode(obs, r, lo, j))
  {
    MirrorSegment(obs, r, m, lo, j);
    hide Support, LongestRun, LastSign, Mirrors;
  }

  lemma MirrorClosings(obs: seq<Observation>, r: seq<Reading>, m: seq<Reading>, armed: bool)
    requires Mirrors(r, m) && |obs| == |r|
    ensures Closings(m, armed, |m|) == Closings(r, armed, |r|)
  {
    forall j: nat | j < |r|
      ensures Closes(m, armed, j) <==> Closes(r, armed, j)
    {
      MirrorSegment(obs, r, m, 0, j);
      MirrorSegment(obs, r, m, Opening(r, j) + 1, j);
      MirrorCloses(r, m, armed, j);
    }
    PicksAgree((j: nat) => Closes(m, armed, j), (j: nat) => Closes(r, armed, j), |r|);
  }

  lemma MirrorEpisode(obs: seq<Observation>, r: seq<Reading>, m: seq<Reading>, armed: bool, i: nat)
    requires Mirrors(r, m) && |obs| == |r|
    requires Closings(m, armed, |m|) == Closings(r, armed, |r|)
    requires i < |Closings(r, armed, |r|)|
    ensures Episodes(NegateAll(obs), m, armed, |m|)[i] == NegateEpisode(Episodes(obs, r, armed, |r|)[i])
  {
    var j := Closings(r, armed, |r|)[i];
    assert Closes(r, armed, j) && Closes(m, armed, j);
    hide Closings, Closes, Mirrors, EpisodeAt, NegateEpisode;
    MirrorEpisodeAt(obs, r, m, armed, j);
  }

  lemma MirrorEpisodeAt(obs: seq<Observation>, r: seq<Reading>, m: seq<Reading>, armed: bool, j: nat)
    requires Mirrors(r, m) && |obs| == |r| && Closes(r, armed, j) && Closes(m, armed, j)
    ensures EpisodeAt(NegateAll(obs), m, armed, j) == NegateEpisode(EpisodeAt(obs, r, armed, j))
  {
    assert j < |r| == |m|;
    hide *;
    MirrorSegment(obs, r, m, 0, j);
    var lo := Opening(r, j) + 1;
    ClosingEpisode(obs, r, armed, j, lo);
    ClosingEpisode(NegateAll(obs), m, armed, j, lo);
    MirrorSegmentEpisode(obs, r, m, lo, j);
  }

  lemma ClosingEpisode(obs: seq<Observation>, r: seq<Reading>, armed: bool, j: nat, lo: nat)
    requires |obs| == |r| && Closes(r, armed, j) && lo == Opening(r, j) + 1
    ensures Support(obs, r, lo, j) != [] && EpisodeAt(obs, r, armed, j) == SegmentEpisode(obs, r, lo, j)
  {
    hide SegmentEpisode;
  }

  /** Changing the sign of every displacement changes the directions reported and nothing else. */
  lemma NegationOnlyFlipsDirections(obs: seq<Observation>, f: Floors, armed: bool)
    ensures |AllEpisodes(NegateAll(obs), f, armed)| == |AllEpisodes(obs, f, armed)|
    ensures forall i :: 0 <= i < |AllEpisodes(obs, f, armed)| ==>
      AllEpisodes(NegateAll(obs), f, armed)[i] == NegateEpisode(AllEpisodes(obs, f, armed)[i])
    ensures forall s :: s in AllSustained(NegateAll(obs), f) <==> -s in AllSustained(obs, f)
  {
    var r, m := ReadAll(obs, f), ReadAll(NegateAll(obs), f);
    NegatedReadingsMirror(obs, f);
    MirrorClosings(obs, r, m, armed);
    forall i | 0 <= i < |AllEpisodes(obs, f, armed)|
      ensures AllEpisodes(NegateAll(obs), f, armed)[i] == NegateEpisode(AllEpisodes(obs, f, armed)[i])
    {
      MirrorEpisode(obs, r, m, armed, i);
    }
    forall s
      ensures s in AllSustained(NegateAll(obs), f) <==> -s in AllSustained(obs, f)
    {
      assert forall k :: SustainedAt(m, k) <==> SustainedAt(r, k);
      if -s in AllSustained(obs, f) {
        var k :| 0 <= k < |r| - 1 && SustainedAt(r, k) && r[k].sign == -s;
        assert SustainedAt(m, k) && m[k].sign == s;
      }
      if s in AllSustained(NegateAll(obs), f) {
        var k :| 0 <= k < |r| - 1 && SustainedAt(m, k) && m[k].sign == s;
        assert SustainedAt(r, k) && r[k].sign == -s;
      }
    }
  }
}
