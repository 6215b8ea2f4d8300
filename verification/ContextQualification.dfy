/** Which records of a valid context basis apply, and why the others do not. */
module ContextQualification {
  import opened Common
  import opened GovernanceContext

  datatype Reason = ScopeMismatch | Superseded | Invalid | OutsideEffectiveInterval | ConditionsUnsatisfied
                  | NotExternalQualification | VerificationLimited

  datatype Finding = Finding(id: Text, reason: Option<Reason>)

  datatype Qualification = Qualification(
    accepted: seq<Text>, rejected: seq<Text>, reasons: seq<Finding>, statuses: map<Text, Verification>)

  const QUALIFYING_KINDS :=
    {EngineeringConstraint, CommissioningReference, MaintenanceEvent, CalibrationEvent, SetpointChange, ExternalAnchor}

  /** Half-open effective intervals. */
  predicate Covers(from: int, to: Option<int>, at: int) {
    from <= at && (to.None? || at < to.value)
  }

  /** The first reason that applies, in the order they are tried. */
  function QualificationReason(item: Record, b: Basis, isLatest: bool, externalOnly: bool): Option<Reason> {
    if item.scope != b.scope then Some(ScopeMismatch)
    else if !isLatest then Some(Superseded)
    else if item.verification == Invalidated then Some(Invalid)
    else if !Covers(item.effectiveFrom, item.effectiveTo, b.relevantAt) then Some(OutsideEffectiveInterval)
    else if exists k :: k in item.conditions && (k !in b.facts || b.facts[k] != item.conditions[k])
    then Some(ConditionsUnsatisfied)
    else if externalOnly && item.kind !in QUALIFYING_KINDS then Some(NotExternalQualification)
    else if item.verification != Verified then Some(VerificationLimited)
    else None
  }

  /** No version of the same chain is newer. */
  ghost predicate IsHead(r: Record, rs: seq<Record>) {
    forall q :: q in rs && SameChain(q, r) ==> q.version <= r.version
  }

  ghost function Why(r: Record, b: Basis, externalOnly: bool): Option<Reason> {
    QualificationReason(r, b, IsHead(r, b.records), externalOnly)
  }

  predicate Ascending(ids: seq<Text>) {
    forall i, j :: 0 <= i < j < |ids| ==> ids[i] < ids[j]
  }

  predicate AscendingReasons(rs: seq<Finding>) {
    forall i, j :: 0 <= i < j < |rs| ==> rs[i].id < rs[j].id
  }

  /** What a qualification of b is: the three lists in identifier order, accepted and rejected told
      apart by whether there is a reason, and each record with its reason and status. */
  ghost predicate Qualifies(b: Basis, externalOnly: bool, q: Qualification) {
    && Ascending(q.accepted) && Ascending(q.rejected) && AscendingReasons(q.reasons)
    && (forall id :: id in q.accepted <==> exists r :: r in b.records && r.id == id && Why(r, b, externalOnly).None?)
    && (forall id :: id in q.rejected <==> exists r :: r in b.records && r.id == id && Why(r, b, externalOnly).Some?)
    && (forall p :: p in q.reasons <==> exists r :: r in b.records && p == Finding(r.id, Why(r, b, externalOnly)))
    && q.statuses.Keys == Ids(b.records)
    && (forall r :: r in b.records ==> r.id in q.statuses && q.statuses[r.id] == r.verification)
  }

  // ----- Ordering by identifier -----

  function InsertById(r: Record, rs: seq<Record>): seq<Record> {
    if rs == [] || r.id <= rs[0].id then [r] + rs else [rs[0]] + InsertById(r, rs[1..])
  }

  function SortById(rs: seq<Record>): seq<Record> {
    if rs == [] then [] else InsertById(rs[0], SortById(rs[1..]))
  }

  predicate ById(rs: seq<Record>) {
    forall i, j :: 0 <= i < j < |rs| ==> rs[i].id < rs[j].id
  }

  lemma {:induction false} InsertByIdOrders(r: Record, rs: seq<Record>)
    requires ById(rs) && forall x :: x in rs ==> x.id != r.id
    ensures ById(InsertById(r, rs)) && forall x :: x in InsertById(r, rs) <==> x == r || x in rs
  {
    if rs != [] && r.id > rs[0].id {
      InsertByIdOrders(r, rs[1..]);
      var tail := InsertById(r, rs[1..]);
      forall i | 0 <= i < |tail| ensures rs[0].id < tail[i].id {
        assert tail[i] in tail;
      }
    }
  }

  lemma {:induction false} SortByIdOrders(rs: seq<Record>)
    requires forall i, j :: 0 <= i < j < |rs| ==> rs[i].id != rs[j].id
    ensures ById(SortById(rs)) && forall x :: x in SortById(rs) <==> x in rs
  {
    if rs != [] {
      SortByIdOrders(rs[1..]);
      InsertByIdOrders(rs[0], SortById(rs[1..]));
    }
  }

  // ----- Qualification -----

  /** The newest record of every chain. */
  method LatestVersions(records: seq<Record>) returns (latest: map<(Text, Text), Record>)
    ensures forall r :: r in records ==> ChainKey(r) in latest
    ensures forall k :: k in latest ==> latest[k] in records && ChainKey(latest[k]) == k && IsHead(latest[k], records)
  {
    latest := map[];
    for i := 0 to |records|
      invariant forall r :: r in records[..i] ==> ChainKey(r) in latest
      invariant forall k :: k in latest ==>
                latest[k] in records[..i] && ChainKey(latest[k]) == k && IsHead(latest[k], records[..i])
    {
      var item := records[i];
      var k := ChainKey(item);
      assert records[..i + 1] == records[..i] + [item];
      if k !in latest || item.version > latest[k].version {
        latest := latest[k := item];
      }
    }
    assert records[..|records|] == records;
  }

  lemma HeadIsUnique(b: Basis, head: Record, r: Record)
    requires Valid(b) && head in b.records && r in b.records && SameChain(head, r) && IsHead(head, b.records)
    ensures head == r <==> IsHead(r, b.records)
  {
    if IsHead(r, b.records) { assert Placed(r, Members(b.records)); }
  }

  /** The lists after the records seen so far. */
  ghost predicate SortedOut(b: Basis, externalOnly: bool, done: seq<Record>,
                            accepted: seq<Text>, rejected: seq<Text>, reasons: seq<Finding>) {
    && Ascending(accepted) && Ascending(rejected) && AscendingReasons(reasons)
    && (forall id :: id in accepted <==> exists r :: r in done && r.id == id && Why(r, b, externalOnly).None?)
    && (forall id :: id in rejected <==> exists r :: r in done && r.id == id && Why(r, b, externalOnly).Some?)
    && (forall p :: p in reasons <==> exists r :: r in done && p == Finding(r.id, Why(r, b, externalOnly)))
  }

  lemma SortOutOneMore(b: Basis, externalOnly: bool, done: seq<Record>, item: Record,
                       accepted: seq<Text>, rejected: seq<Text>, reasons: seq<Finding>)
    requires SortedOut(b, externalOnly, done, accepted, rejected, reasons)
    requires forall r :: r in done ==> r.id < item.id
    ensures
      var why := Why(item, b, externalOnly);
      SortedOut(b, externalOnly, done + [item], accepted + (if why.None? then [item.id] else []),
                rejected + (if why.Some? then [item.id] else []), reasons + [Finding(item.id, why)])
  {
    hide Why;
    var why := Why(item, b, externalOnly);
    var all := done + [item];
    assert item in all && forall r :: r in all <==> r in done || r == item;
    forall i | 0 <= i < |accepted| ensures accepted[i] < item.id { assert accepted[i] in accepted; }
    forall i | 0 <= i < |rejected| ensures rejected[i] < item.id { assert rejected[i] in rejected; }
    forall i | 0 <= i < |reasons| ensures reasons[i].id < item.id { assert reasons[i] in reasons; }
  }

  /** The classification loop, over the records in identifier order. */
  method SortOut(b: Basis, externalOnly: bool, latest: map<(Text, Text), Record>, ordered: seq<Record>)
    returns (accepted: seq<Text>, rejected: seq<Text>, reasons: seq<Finding>)
    requires Valid(b) && ById(ordered)
    requires forall r :: r in ordered ==> r in b.records && ChainKey(r) in latest
    requires forall k :: k in latest ==>
             latest[k] in b.records && ChainKey(latest[k]) == k && IsHead(latest[k], b.records)
    ensures SortedOut(b, externalOnly, ordered, accepted, rejected, reasons)
  {
    hide Valid, SortedOut, QualificationReason, Why, IsHead, ById;
    accepted, rejected, reasons := [], [], [];
    NothingSortedOut(b, externalOnly);
    assert ordered[..0] == [];
    for i := 0 to |ordered|
      invariant SortedOut(b, externalOnly, ordered[..i], accepted, rejected, reasons)
    {
      var item := ordered[i];
      var reason := QualificationReason(item, b, latest[ChainKey(item)] == item, externalOnly);
      ReasonByLatest(b, externalOnly, item, latest[ChainKey(item)]);
      EarlierIds(ordered, i);
      SortOutOneMore(b, externalOnly, ordered[..i], item, accepted, rejected, reasons);
      assert ordered[..i + 1] == ordered[..i] + [item];
      accepted := accepted + (if reason.None? then [item.id] else []);
      rejected := rejected + (if reason.Some? then [item.id] else []);
      reasons := reasons + [Finding(item.id, reason)];
    }
    assert ordered[..|ordered|] == ordered;
  }

  /** `qualify_context`. */
  method QualifyContext(b: Basis, externalOnly: bool) returns (q: Qualification)
    requires Valid(b)
    ensures Qualifies(b, externalOnly, q)
  {
    ValidHasDistinctIds(b);
    SortByIdOrders(b.records);
    hide Valid, Qualifies, SortedOut, IsHead, ById, SortById;
    var latest := LatestVersions(b.records);
    var ordered := SortById(b.records);
    var accepted, rejected, reasons := SortOut(b, externalOnly, latest, ordered);
    var statuses := Statuses(b.records);
    q := Qualification(accepted, rejected, reasons, statuses);
    QualifiesFromParts(b, externalOnly, ordered, q);
  }

  /** Comparing with the newest version of the chain decides what being its head decides. */
  lemma ReasonByLatest(b: Basis, externalOnly: bool, item: Record, newest: Record)
    requires Valid(b) && item in b.records && newest in b.records && ChainKey(newest) == ChainKey(item)
             && IsHead(newest, b.records)
    ensures QualificationReason(item, b, newest == item, externalOnly) == Why(item, b, externalOnly)
  {
    HeadIsUnique(b, newest, item);
  }

  lemma NothingSortedOut(b: Basis, externalOnly: bool)
    ensures SortedOut(b, externalOnly, [], [], [], [])
  {
  }

  lemma EarlierIds(rs: seq<Record>, i: nat)
    requires ById(rs) && i < |rs|
    ensures forall r :: r in rs[..i] ==> r.id < rs[i].id
  {
  }

  lemma ValidHasDistinctIds(b: Basis)
    requires Valid(b)
    ensures |Ids(b.records)| == |b.records|
    ensures forall i, j :: 0 <= i < j < |b.records| ==> b.records[i].id != b.records[j].id
  {
    DistinctIds(b.records);
  }

  method Statuses(records: seq<Record>) returns (statuses: map<Text, Verification>)
    requires forall i, j :: 0 <= i < j < |records| ==> records[i].id != records[j].id
    ensures statuses.Keys == Ids(records)
    ensures forall r :: r in records ==> r.id in statuses && statuses[r.id] == r.verification
  {
    statuses := map[];
    for i := 0 to |records|
      invariant statuses.Keys == Ids(records[..i])
      invariant forall j :: 0 <= j < i ==>
                records[j].id in statuses && statuses[records[j].id] == records[j].verification
    {
      assert records[..i + 1] == records[..i] + [records[i]];
      statuses := statuses[records[i].id := records[i].verification];
    }
    assert records[..|records|] == records;
  }

  lemma QualifiesFromParts(b: Basis, externalOnly: bool, ordered: seq<Record>, q: Qualification)
    requires forall x :: x in ordered <==> x in b.records
    requires SortedOut(b, externalOnly, ordered, q.accepted, q.rejected, q.reasons)
    requires q.statuses.Keys == Ids(b.records)
    requires forall r :: r in b.records ==> r.id in q.statuses && q.statuses[r.id] == r.verification
    ensures Qualifies(b, externalOnly, q)
  {
    hide Why;
  }

  // ----- What a qualification guarantees -----

  lemma SameIdSameRecord(b: Basis, r: Record, s: Record)
    requires Valid(b) && r in b.records && s in b.records && r.id == s.id
    ensures r == s
  {
    ValidHasDistinctIds(b);
  }

  /** Every record is accepted or rejected, never both, and has exactly one entry among the reasons. */
  lemma QualificationIsAPartition(b: Basis, externalOnly: bool, q: Qualification, r: Record)
    requires Valid(b) && Qualifies(b, externalOnly, q) && r in b.records
    ensures r.id in q.accepted <==> Why(r, b, externalOnly).None?
    ensures r.id in q.rejected <==> r.id !in q.accepted
    ensures Finding(r.id, Why(r, b, externalOnly)) in q.reasons
    ensures forall p :: p in q.reasons && p.id == r.id ==> p.reason == Why(r, b, externalOnly)
  {
    hide Valid, Why;
    forall s | s in b.records && s.id == r.id ensures s == r {
      SameIdSameRecord(b, r, s);
    }
  }

  /** The number of records is that of accepted and rejected together. */
  lemma NothingIsLost(b: Basis, externalOnly: bool, q: Qualification)
    requires Valid(b) && Qualifies(b, externalOnly, q)
    ensures |q.accepted| + |q.rejected| == |b.records|
  {
    var accepted, rejected := set id | id in q.accepted, set id | id in q.rejected;
    hide Valid, Qualifies, Why, Ascending;
    QualificationAscends(b, externalOnly, q);
    AscendingSize(q.accepted);
    AscendingSize(q.rejected);
    ValidHasDistinctIds(b);
    forall id
      ensures id in accepted ==> id in Ids(b.records) && id !in rejected
      ensures id in rejected ==> id in Ids(b.records)
      ensures id in Ids(b.records) ==> id in accepted || id in rejected
    {
      EachIdOnce(b, externalOnly, q, id);
    }
    DisjointUnionSize(accepted, rejected, Ids(b.records));
  }

  lemma QualificationAscends(b: Basis, externalOnly: bool, q: Qualification)
    requires Qualifies(b, externalOnly, q)
    ensures Ascending(q.accepted) && Ascending(q.rejected)
  {
  }

  lemma DisjointUnionSize(x: set<Text>, y: set<Text>, all: set<Text>)
    requires x + y <= all && x !! y && all <= x + y
    ensures |x| + |y| == |all|
  {
    assert x + y == all;
  }

  lemma EachIdOnce(b: Basis, externalOnly: bool, q: Qualification, id: Text)
    requires Valid(b) && Qualifies(b, externalOnly, q)
    ensures id in q.accepted ==> id in Ids(b.records) && id !in q.rejected
    ensures id in q.rejected ==> id in Ids(b.records)
    ensures id in Ids(b.records) ==> id in q.accepted || id in q.rejected
  {
    hide Valid, Why;
    if id in Ids(b.records) {
      var r :| r in b.records && r.id == id;
      QualificationIsAPartition(b, externalOnly, q, r);
    }
  }

  lemma {:induction false} AscendingSize(ids: seq<Text>)
    requires Ascending(ids)
    ensures |set id | id in ids| == |ids|
  {
    if ids != [] {
      var init := ids[..|ids| - 1];
      AscendingSize(init);
      assert (set id | id in ids) == (set id | id in init) + {Last(ids)};
    }
  }

  lemma {:induction false} VersionExists(s: set<Record>, r: Record, v: nat) returns (p: Record)
    requires Complete(s) && r in s && 1 <= v <= r.version
    ensures p in s && SameChain(p, r) && p.version == v
    decreases r.version
  {
    assert Placed(r, s);
    if v == r.version {
      p := r;
    } else {
      var q :| q in s && Precedes(q, r);
      p := VersionExists(s, q, v);
    }
  }

  function UpTo(s: set<Record>, r: Record, k: nat): set<Record> {
    set q | q in s && SameChain(q, r) && q.version <= k
  }

  lemma UpToNone(s: set<Record>, r: Record)
    requires Complete(s)
    ensures UpTo(s, r, 0) == {}
  {
    forall q | q in s ensures q.version >= 1 { assert Placed(q, s); }
  }

  lemma UpToOneMore(s: set<Record>, r: Record, p: Record)
    requires Complete(s) && p in s && SameChain(p, r) && p.version >= 1
    ensures UpTo(s, r, p.version) == UpTo(s, r, p.version - 1) + {p}
  {
    forall q | q in UpTo(s, r, p.version)
      ensures q in UpTo(s, r, p.version - 1) || q == p
    {
      assert Placed(q, s);
    }
  }

  lemma {:induction false} ChainSize(s: set<Record>, r: Record, k: nat)
    requires Complete(s) && r in s && k <= r.version
    ensures |UpTo(s, r, k)| == k
  {
    hide Complete;
    if k == 0 {
      UpToNone(s, r);
    } else {
      ChainSize(s, r, k - 1);
      var p := VersionExists(s, r, k);
      UpToOneMore(s, r, p);
    }
  }

  lemma AcceptedIsHead(b: Basis, externalOnly: bool, r: Record)
    requires Why(r, b, externalOnly).None?
    ensures IsHead(r, b.records) && r.scope == b.scope && r.verification == Verified
  {
  }

  /** At most one record of a chain is accepted, and it is the head: its version is the number of
      versions the chain has, and its scope is the basis's own. */
  lemma OneWinnerPerKey(b: Basis, externalOnly: bool, q: Qualification, r: Record, other: Record)
    requires Valid(b) && Qualifies(b, externalOnly, q)
    requires r in b.records && other in b.records && SameChain(r, other)
    requires r.id in q.accepted && other.id in q.accepted
    ensures r == other && r.scope == b.scope && r.verification == Verified
    ensures r.version == |set x | x in Members(b.records) && SameChain(x, r)|
  {
    hide Qualifies, Why, Complete;
    QualificationIsAPartition(b, externalOnly, q, r);
    QualificationIsAPartition(b, externalOnly, q, other);
    AcceptedIsHead(b, externalOnly, r);
    AcceptedIsHead(b, externalOnly, other);
    HeadIsUnique(b, r, other);
    ChainSize(Members(b.records), r, r.version);
    HeadBoundsChain(b.records, r);
  }

  lemma HeadBoundsChain(rs: seq<Record>, r: Record)
    requires IsHead(r, rs)
    ensures (set x | x in Members(rs) && SameChain(x, r)) == UpTo(Members(rs), r, r.version)
  {
  }

  // ----- What is accepted and why the rest is not -----

  /** What rules a record out, one reason at a time. */
  ghost predicate RuledOut(r: Record, b: Basis, externalOnly: bool, reason: Reason) {
    match reason
    case ScopeMismatch => r.scope != b.scope
    case Superseded => exists s :: s in b.records && s.scope == r.scope && s.key == r.key && s.version > r.version
    case Invalid => r.verification == Invalidated
    case OutsideEffectiveInterval =>
      b.relevantAt < r.effectiveFrom || (r.effectiveTo.Some? && r.effectiveTo.value <= b.relevantAt)
    case ConditionsUnsatisfied =>
      exists k :: k in r.conditions && !(k in b.facts && b.facts[k] == r.conditions[k])
    case NotExternalQualification =>
      externalOnly && !(r.kind in {EngineeringConstraint, CommissioningReference, MaintenanceEvent, CalibrationEvent,
                                   SetpointChange, ExternalAnchor})
    case VerificationLimited => r.verification != Verified
  }

  /** The place of a reason in the order they are tried. */
  function Precedence(reason: Reason): nat {
    match reason
    case ScopeMismatch => 0
    case Superseded => 1
    case Invalid => 2
    case OutsideEffectiveInterval => 3
    case ConditionsUnsatisfied => 4
    case NotExternalQualification => 5
    case VerificationLimited => 6
  }

  /** A record is accepted if and only if nothing rules it out: it is of the basis's scope, the newest of its chain,
      verified, in force at the relevant time, its conditions are met by the facts, and it is of a qualifying kind
      where only those count. */
  lemma AcceptedExactly(b: Basis, externalOnly: bool, q: Qualification, r: Record)
    requires Valid(b) && Qualifies(b, externalOnly, q) && r in b.records
    ensures r.id in q.accepted <==>
      && r.scope == b.scope && r.verification == Verified
      && (forall s :: s in b.records && s.scope == r.scope && s.key == r.key ==> s.version <= r.version)
      && r.effectiveFrom <= b.relevantAt && (r.effectiveTo.Some? ==> b.relevantAt < r.effectiveTo.value)
      && (forall k :: k in r.conditions ==> k in b.facts && b.facts[k] == r.conditions[k])
      && (externalOnly ==> r.kind in {EngineeringConstraint, CommissioningReference, MaintenanceEvent, CalibrationEvent,
                                      SetpointChange, ExternalAnchor})
  {
    hide *;
    QualificationIsAPartition(b, externalOnly, q, r);
    WhyNone(r, b, externalOnly);
  }

  lemma WhyNone(r: Record, b: Basis, externalOnly: bool)
    ensures Why(r, b, externalOnly).None? <==>
      && r.scope == b.scope && r.verification == Verified
      && (forall s :: s in b.records && s.scope == r.scope && s.key == r.key ==> s.version <= r.version)
      && r.effectiveFrom <= b.relevantAt && (r.effectiveTo.Some? ==> b.relevantAt < r.effectiveTo.value)
      && (forall k :: k in r.conditions ==> k in b.facts && b.facts[k] == r.conditions[k])
      && (externalOnly ==> r.kind in {EngineeringConstraint, CommissioningReference, MaintenanceEvent, CalibrationEvent,
                                      SetpointChange, ExternalAnchor})
  {
  }

  /** A record is rejected for a reason if and only if that rules it out and no reason tried earlier does. */
  lemma RejectedExactly(b: Basis, externalOnly: bool, q: Qualification, r: Record, reason: Reason)
    requires Valid(b) && Qualifies(b, externalOnly, q) && r in b.records
    ensures Finding(r.id, Some(reason)) in q.reasons <==>
      && RuledOut(r, b, externalOnly, reason)
      && forall earlier :: Precedence(earlier) < Precedence(reason) ==> !RuledOut(r, b, externalOnly, earlier)
    ensures Finding(r.id, None) in q.reasons <==> r.id in q.accepted
    ensures r.id in q.accepted <==> forall any :: !RuledOut(r, b, externalOnly, any)
  {
    hide *;
    QualificationIsAPartition(b, externalOnly, q, r);
    WhyIsFirst(r, b, externalOnly, reason);
  }

  lemma WhyIsFirst(r: Record, b: Basis, externalOnly: bool, reason: Reason)
    ensures Why(r, b, externalOnly) == Some(reason) <==>
      && RuledOut(r, b, externalOnly, reason)
      && forall earlier :: Precedence(earlier) < Precedence(reason) ==> !RuledOut(r, b, externalOnly, earlier)
    ensures Why(r, b, externalOnly).None? <==> forall any :: !RuledOut(r, b, externalOnly, any)
  {
    RuledOutByHead(r, b, externalOnly);
    hide RuledOut, IsHead, Covers;
    forall any | Why(r, b, externalOnly).None?
      ensures !RuledOut(r, b, externalOnly, any)
    {
      match any
      case ScopeMismatch =>
      case Superseded =>
      case Invalid =>
      case OutsideEffectiveInterval =>
      case ConditionsUnsatisfied =>
      case NotExternalQualification =>
      case VerificationLimited =>
    }
    if forall any :: !RuledOut(r, b, externalOnly, any) {
      assert !RuledOut(r, b, externalOnly, ScopeMismatch) && !RuledOut(r, b, externalOnly, Superseded);
      assert !RuledOut(r, b, externalOnly, Invalid) && !RuledOut(r, b, externalOnly, OutsideEffectiveInterval);
      assert !RuledOut(r, b, externalOnly, ConditionsUnsatisfied);
      assert !RuledOut(r, b, externalOnly, NotExternalQualification)
             && !RuledOut(r, b, externalOnly, VerificationLimited);
    }
  }

  lemma RuledOutByHead(r: Record, b: Basis, externalOnly: bool)
    ensures RuledOut(r, b, externalOnly, ScopeMismatch) <==> r.scope != b.scope
    ensures RuledOut(r, b, externalOnly, Superseded) <==> !IsHead(r, b.records)
    ensures RuledOut(r, b, externalOnly, Invalid) <==> r.verification == Invalidated
    ensures RuledOut(r, b, externalOnly, OutsideEffectiveInterval) <==>
            !Covers(r.effectiveFrom, r.effectiveTo, b.relevantAt)
    ensures RuledOut(r, b, externalOnly, ConditionsUnsatisfied) <==>
            exists k :: k in r.conditions && (k !in b.facts || b.facts[k] != r.conditions[k])
    ensures RuledOut(r, b, externalOnly, NotExternalQualification) <==> externalOnly && r.kind !in QUALIFYING_KINDS
    ensures RuledOut(r, b, externalOnly, VerificationLimited) <==> r.verification != Verified
  {
  }

  // ----- Independence of the order of supply -----

  lemma {:induction false} AscendingIsUnique(a: seq<Text>, b: seq<Text>)
    requires Ascending(a) && Ascending(b) && forall id :: id in a <==> id in b
    ensures a == b
  {
    if a == [] || b == [] {
      if a != [] { SharedIds(a, b); }
      if b != [] { SharedIds(b, a); }
    } else {
      assert a[0] in b && b[0] in a;
      forall id
        ensures id in a[1..] <==> id in b[1..]
      {
        if id in a[1..] { assert id in b && id != b[0]; }
        if id in b[1..] { assert id in a && id != a[0]; }
      }
      AscendingIsUnique(a[1..], b[1..]);
    }
  }

  lemma SharedIds(a: seq<Text>, b: seq<Text>)
    requires a != [] && forall id :: id in a <==> id in b
    ensures b != []
  {
    var id := a[0];
    assert id in a;
    assert id in b;
  }

  lemma SharedReasons(a: seq<Finding>, b: seq<Finding>)
    requires a != [] && forall p :: p in a <==> p in b
    ensures b != []
  {
    assert a[0] in a;
    assert a[0] in b;
  }

  lemma {:induction false} ReasonsAreUnique(a: seq<Finding>, b: seq<Finding>)
    requires AscendingReasons(a) && AscendingReasons(b) && forall p :: p in a <==> p in b
    ensures a == b
  {
    if a == [] || b == [] {
      if a != [] { SharedReasons(a, b); }
      if b != [] { SharedReasons(b, a); }
    } else {
      assert a[0] in b && b[0] in a;
      forall p
        ensures p in a[1..] <==> p in b[1..]
      {
        if p in a[1..] { assert p in b && p != b[0]; }
        if p in b[1..] { assert p in a && p != a[0]; }
      }
      ReasonsAreUnique(a[1..], b[1..]);
    }
  }

  /** A basis has one qualification. */
  lemma QualificationIsDetermined(b: Basis, externalOnly: bool, p: Qualification, q: Qualification)
    requires Qualifies(b, externalOnly, p) && Qualifies(b, externalOnly, q)
    ensures p == q
  {
    hide Why;
    AscendingIsUnique(p.accepted, q.accepted);
    AscendingIsUnique(p.rejected, q.rejected);
    ReasonsAreUnique(p.reasons, q.reasons);
    forall id | id in p.statuses ensures p.statuses[id] == q.statuses[id] {
      var r :| r in b.records && r.id == id;
    }
  }

  lemma {:induction false} SortedStrictly(rs: seq<Record>)
    requires WeaklySorted(rs) && Complete(Members(rs)) && NoRepeats(rs)
    ensures StrictlySorted(rs)
  {
    forall i, j | 0 <= i < j < |rs| ensures Before(rs[i], rs[j]) {
      assert rs[i] in Members(rs) && Placed(rs[i], Members(rs)) && rs[j] in Members(rs);
    }
  }

  /** Supplying the same records in another order makes the same basis, or the same refusal. */
  lemma SupplyOrderIsIrrelevant(b: Basis, supplied: seq<Record>)
    requires |supplied| == |b.records| && forall r :: r in supplied <==> r in b.records
    ensures Make(b.(records := supplied)) == Make(b)
  {
    hide Complete, Sort;
    SortSorts(supplied);
    SortSorts(b.records);
    var x, y := Sort(supplied), Sort(b.records);
    SameMembers(x, y);
    if |y| == |Ids(y)| && Complete(Members(y)) {
      SortedOneWay(x, y);
    }
  }

  lemma SameMembers(x: seq<Record>, y: seq<Record>)
    requires forall r :: r in x <==> r in y
    ensures Members(x) == Members(y) && Ids(x) == Ids(y)
  {
  }

  lemma SortedOneWay(x: seq<Record>, y: seq<Record>)
    requires WeaklySorted(x) && WeaklySorted(y) && |x| == |Ids(x)| && |y| == |Ids(y)|
    requires Complete(Members(x)) && Complete(Members(y)) && forall r :: r in x <==> r in y
    ensures x == y
  {
    DistinctIds(x);
    DistinctIds(y);
    hide Complete, WeaklySorted, StrictlySorted;
    SortedStrictly(x);
    SortedStrictly(y);
    SortedIsUnique(x, y);
  }
}
