/** Context bases: version chains, what was knowable when, and qualification. */
module GovernanceContext {
  import opened Common

  // ----- Data -----

  /** Identifiers, scopes and keys, compared only for equality and for their sort order. */
  type Text = int

  datatype Verification = Verified | PartiallyVerified | Unverified | Invalidated

  datatype Kind = InfrastructureIdentity | OperatingContext | EngineeringConstraint | CommissioningReference
                | MaintenanceEvent | CalibrationEvent | SetpointChange
                | ModelHistory | BaselineHistory | AdaptationEvent | ExternalAnchor

  datatype Record = Record(
    id: Text, scope: Text, key: Text, kind: Kind, verification: Verification, effectiveFrom: int,
    effectiveTo: Option<int>, created: int, version: nat, supersedes: Option<Text>,
    conditions: map<string, string>, detail: string)

  datatype Basis = Basis(
    scope: Text, evaluatedAt: int, relevantAt: int, records: seq<Record>, facts: map<string, string>,
    factsAvailableAt: int, detail: string)

  datatype Defect = FutureFacts | FutureKnowledge | DuplicateVersion | IncompleteHistory

  // ----- Ordering -----

  predicate SameChain(a: Record, b: Record) {
    a.scope == b.scope && a.key == b.key
  }

  /** The order of records in a basis: scope, key, version. */
  predicate Before(a: Record, b: Record) {
    a.scope < b.scope || (a.scope == b.scope && (a.key < b.key || (a.key == b.key && a.version < b.version)))
  }

  predicate StrictlySorted(rs: seq<Record>) {
    forall i, j :: 0 <= i < j < |rs| ==> Before(rs[i], rs[j])
  }

  predicate WeaklySorted(rs: seq<Record>) {
    forall i, j :: 0 <= i < j < |rs| ==> !Before(rs[j], rs[i])
  }

  function Insert(r: Record, rs: seq<Record>): seq<Record> {
    if rs == [] || !Before(rs[0], r) then [r] + rs else [rs[0]] + Insert(r, rs[1..])
  }

  /** A stable sort by scope, key and version. */
  function Sort(rs: seq<Record>): seq<Record> {
    if rs == [] then [] else Insert(rs[0], Sort(rs[1..]))
  }

  predicate NoRepeats(rs: seq<Record>) {
    forall i, j :: 0 <= i < j < |rs| ==> rs[i] != rs[j]
  }

  lemma {:induction false} InsertSorts(r: Record, rs: seq<Record>)
    requires WeaklySorted(rs)
    ensures WeaklySorted(Insert(r, rs)) && |Insert(r, rs)| == |rs| + 1
    ensures forall x :: x in Insert(r, rs) <==> x == r || x in rs
    ensures NoRepeats(rs) && r !in rs ==> NoRepeats(Insert(r, rs))
  {
    if rs == [] || !Before(rs[0], r) {
      forall i | 0 <= i < |rs| ensures !Before(rs[i], r) {
        assert i > 0 ==> !Before(rs[i], rs[0]);
      }
    } else {
      InsertSorts(r, rs[1..]);
      var tail := Insert(r, rs[1..]);
      forall i | 0 <= i < |tail|
        ensures !Before(tail[i], rs[0])
        ensures NoRepeats(rs) && r !in rs ==> tail[i] != rs[0]
      {
        assert tail[i] in tail;
      }
      assert r !in rs ==> r !in rs[1..];
    }
  }

  /** Sorting orders the records and keeps exactly them. */
  lemma {:induction false} SortSorts(rs: seq<Record>)
    ensures WeaklySorted(Sort(rs)) && |Sort(rs)| == |rs|
    ensures forall x :: x in Sort(rs) <==> x in rs
    ensures NoRepeats(rs) ==> NoRepeats(Sort(rs))
  {
    if rs != [] {
      SortSorts(rs[1..]);
      InsertSorts(rs[0], Sort(rs[1..]));
    }
  }

  lemma {:induction false} SortOfSorted(rs: seq<Record>)
    requires StrictlySorted(rs)
    ensures Sort(rs) == rs
  {
    if rs != [] {
      SortOfSorted(rs[1..]);
      if |rs| > 1 { assert Before(rs[0], rs[1]); }
    }
  }

  lemma HasMember(a: seq<Record>)
    ensures a != [] ==> exists r :: r in a
  {
    if a != [] { assert a[0] in a; }
  }

  /** A strictly sorted list is determined by its members. */
  lemma {:induction false} SortedIsUnique(a: seq<Record>, b: seq<Record>)
    requires StrictlySorted(a) && StrictlySorted(b)
    requires forall r :: r in a <==> r in b
    ensures a == b
  {
    if a == [] || b == [] {
      HasMember(a);
      HasMember(b);
    } else {
      assert a[0] in b && b[0] in a;
      assert a[0] == b[0];
      forall r
        ensures r in a[1..] <==> r in b[1..]
      {
        if r in a[1..] { assert r in b && r != b[0]; }
        if r in b[1..] { assert r in a && r != a[0]; }
      }
      SortedIsUnique(a[1..], b[1..]);
    }
  }

  // ----- Version chains -----

  function Members(rs: seq<Record>): set<Record> {
    set r | r in rs
  }

  predicate Precedes(p: Record, r: Record) {
    SameChain(p, r) && p.version + 1 == r.version && r.supersedes == Some(p.id) && p.created <= r.created
  }

  /** A record has its place in a set of records: it is the only one of its version, and either the
      first of its chain or linked to a predecessor that is there. */
  ghost predicate Placed(r: Record, s: set<Record>) {
    && r.version >= 1
    && (forall b :: b in s && SameChain(r, b) && r.version == b.version ==> r == b)
    && (r.version > 1 ==> exists p :: p in s && Precedes(p, r))
  }

  /** Every chain is complete and does not branch: no version occurs twice, and each but the first
      supersedes its predecessor, which is there and was created no later. */
  ghost predicate Complete(s: set<Record>) {
    forall r :: r in s ==> Placed(r, s)
  }

  function Ids(rs: seq<Record>): set<Text> {
    set r | r in rs :: r.id
  }

  /** What is wrong with a basis, in the order the checks are made. */
  ghost function DefectOf(b: Basis): Option<Defect> {
    if b.relevantAt > b.evaluatedAt || b.factsAvailableAt > b.evaluatedAt then Some(FutureFacts)
    else if exists r :: r in b.records && r.created > b.evaluatedAt then Some(FutureKnowledge)
    else if |b.records| != |Ids(b.records)| then Some(DuplicateVersion)
    else if !Complete(Members(b.records)) then Some(IncompleteHistory)
    else None
  }

  /** A basis as its validators leave it. */
  ghost predicate Valid(b: Basis) {
    StrictlySorted(b.records) && DefectOf(b).None?
  }

  /** Constructing a basis: order the records, then check. */
  ghost function Make(b: Basis): Result<Basis, Defect> {
    var ordered := b.(records := Sort(b.records));
    if DefectOf(ordered).Some? then Err(DefectOf(ordered).value) else Ok(ordered)
  }

  /** A chain listed from version 1 on, each linked to the one before. */
  predicate Linked(chain: seq<Record>) {
    forall i :: 0 <= i < |chain| ==> chain[i].version == i + 1 && (i > 0 ==> Precedes(chain[i - 1], chain[i]))
  }

  predicate OneChain(chain: seq<Record>) {
    forall i, j :: 0 <= i < |chain| && 0 <= j < |chain| ==> SameChain(chain[i], chain[j])
  }

  lemma LinkedIsComplete(chain: seq<Record>)
    requires OneChain(chain) && Linked(chain)
    ensures Complete(Members(chain))
  {
    forall r | r in Members(chain) && r.version > 1
      ensures exists p :: p in Members(chain) && Precedes(p, r)
    {
      var i :| 0 <= i < |chain| && chain[i] == r;
      assert Precedes(chain[i - 1], r) && chain[i - 1] in Members(chain);
    }
  }

  lemma VersionsAscend(chain: seq<Record>)
    requires OneChain(chain) && WeaklySorted(chain)
    ensures forall i, j :: 0 <= i <= j < |chain| ==> chain[i].version <= chain[j].version
  {
    forall i, j | 0 <= i < j < |chain| ensures chain[i].version <= chain[j].version {
      assert !Before(chain[j], chain[i]) && SameChain(chain[i], chain[j]);
    }
  }

  /** In a complete chain sorted by version the versions are 1, 2, 3 and so on. */
  lemma {:induction false} CompleteIsLinked(chain: seq<Record>, i: nat)
    requires OneChain(chain) && WeaklySorted(chain) && NoRepeats(chain) && Complete(Members(chain)) && i < |chain|
    ensures chain[i].version == i + 1 && (i > 0 ==> Precedes(chain[i - 1], chain[i]))
  {
    var r := chain[i];
    assert r in Members(chain);
    VersionsAscend(chain);
    if i > 0 {
      CompleteIsLinked(chain, i - 1);
      assert chain[i - 1] in Members(chain) && !Before(r, chain[i - 1]) && SameChain(r, chain[i - 1]);
    }
    if r.version > 1 {
      var p :| p in Members(chain) && Precedes(p, r);
      var j :| 0 <= j < |chain| && chain[j] == p;
    }
  }

  // ----- The availability check -----

  method ChainIsLinked(chain: seq<Record>) returns (linked: bool)
    requires OneChain(chain)
    ensures linked == Linked(chain)
  {
    for index := 0 to |chain|
      invariant Linked(chain[..index])
    {
      var item := chain[index];
      if item.version != index + 1
         || (index > 0 && (item.supersedes != Some(chain[index - 1].id) || item.created < chain[index - 1].created)) {
        return false;
      }
      assert index > 0 ==> chain[..index][index - 1] == chain[index - 1] && chain[index - 1].version == index;
    }
    assert chain[..|chain|] == chain;
    return true;
  }

  function ChainKey(r: Record): (Text, Text) {
    (r.scope, r.key)
  }

  /** The records of one chain, in the order given. */
  function ChainOf(rs: seq<Record>, k: (Text, Text)): (c: seq<Record>)
    ensures forall r :: r in c <==> r in rs && ChainKey(r) == k
  {
    if rs == [] then []
    else ChainOf(rs[..|rs| - 1], k) + if ChainKey(Last(rs)) == k then [Last(rs)] else []
  }

  lemma {:induction false} ChainOfNoRepeats(rs: seq<Record>, k: (Text, Text))
    requires NoRepeats(rs)
    ensures NoRepeats(ChainOf(rs, k))
  {
    if rs != [] {
      var init := rs[..|rs| - 1];
      ChainOfNoRepeats(init, k);
      assert Last(rs) !in init;
    }
  }

  lemma {:induction false} DistinctIds(rs: seq<Record>)
    ensures |Ids(rs)| <= |rs|
    ensures |Ids(rs)| == |rs| ==> forall i, j :: 0 <= i < j < |rs| ==> rs[i].id != rs[j].id
  {
    if rs != [] {
      var init := rs[..|rs| - 1];
      DistinctIds(init);
      assert Ids(rs) == Ids(init) + {Last(rs).id};
      if |Ids(rs)| == |rs| {
        assert Last(rs).id !in Ids(init);
        forall i | 0 <= i < |init| ensures rs[i].id != Last(rs).id {
          assert init[i] in init;
        }
      }
    }
  }

  lemma PlacedInChain(r: Record, rs: seq<Record>)
    ensures Placed(r, Members(rs)) <==> Placed(r, Members(ChainOf(rs, ChainKey(r))))
  {
    var all, c := Members(rs), Members(ChainOf(rs, ChainKey(r)));
    assert forall b :: b in c <==> b in all && SameChain(r, b);
    if Placed(r, all) && r.version > 1 {
      var p :| p in all && Precedes(p, r);
      assert p in c;
    }
  }

  /** Completeness is a property of each chain by itself. */
  lemma ChainInheritsCompleteness(rs: seq<Record>, k: (Text, Text))
    ensures Complete(Members(rs)) ==> Complete(Members(ChainOf(rs, k)))
  {
    hide Placed;
    forall r | r in Members(ChainOf(rs, k))
      ensures Placed(r, Members(rs)) ==> Placed(r, Members(ChainOf(rs, k)))
    {
      PlacedInChain(r, rs);
    }
  }

  lemma CompleteByChain(rs: seq<Record>)
    requires forall r :: r in rs ==> Complete(Members(ChainOf(rs, ChainKey(r))))
    ensures Complete(Members(rs))
  {
    hide Placed;
    forall r | r in Members(rs)
      ensures Placed(r, Members(rs))
    {
      PlacedInChain(r, rs);
      assert r in Members(ChainOf(rs, ChainKey(r)));
    }
  }

  lemma SortedChainDecides(chain: seq<Record>)
    requires OneChain(chain) && NoRepeats(chain)
    ensures OneChain(Sort(chain)) && (Linked(Sort(chain)) <==> Complete(Members(chain)))
  {
    hide Complete, Linked, Sort;
    SortSorts(chain);
    var sorted := Sort(chain);
    assert Members(sorted) == Members(chain);
    OneChainMembers(chain, sorted);
    LinkedIffComplete(sorted);
  }

  lemma OneChainMembers(a: seq<Record>, b: seq<Record>)
    requires OneChain(a) && forall x :: x in b ==> x in a
    ensures OneChain(b)
  {
    forall i, j | 0 <= i < |b| && 0 <= j < |b| ensures SameChain(b[i], b[j]) {
      assert b[i] in a && b[j] in a;
    }
  }

  lemma LinkedIffComplete(chain: seq<Record>)
    requires OneChain(chain) && WeaklySorted(chain) && NoRepeats(chain)
    ensures Linked(chain) <==> Complete(Members(chain))
  {
    if Linked(chain) { LinkedIsComplete(chain); }
    if Complete(Members(chain)) {
      forall i | 0 <= i < |chain|
        ensures chain[i].version == i + 1 && (i > 0 ==> Precedes(chain[i - 1], chain[i]))
      {
        CompleteIsLinked(chain, i);
      }
    }
  }

  /** The grouping loop: the records of each chain, in order. */
  method Chains(records: seq<Record>) returns (chains: map<(Text, Text), seq<Record>>)
    ensures forall k :: if k in chains then chains[k] == ChainOf(records, k) else ChainOf(records, k) == []
  {
    chains := map[];
    for i := 0 to |records|
      invariant forall k ::
                  if k in chains then chains[k] == ChainOf(records[..i], k) else ChainOf(records[..i], k) == []
    {
      var item := records[i];
      var k := ChainKey(item);
      ChainOfStep(records, i);
      chains := chains[k := (if k in chains then chains[k] else []) + [item]];
    }
    assert records[..|records|] == records;
  }

  lemma ChainOfStep(rs: seq<Record>, i: nat)
    requires i < |rs|
    ensures forall k :: ChainOf(rs[..i + 1], k) == ChainOf(rs[..i], k) + if ChainKey(rs[i]) == k then [rs[i]] else []
  {
    assert rs[..i + 1][..i] == rs[..i];
  }

  lemma ChainOfIsOneChain(rs: seq<Record>, k: (Text, Text))
    ensures OneChain(ChainOf(rs, k))
  {
    var c := ChainOf(rs, k);
    forall i, j | 0 <= i < |c| && 0 <= j < |c| ensures SameChain(c[i], c[j]) {
      assert c[i] in c && c[j] in c;
    }
  }

  lemma EmptyIsComplete()
    ensures Complete(Members([]))
  {
  }

  /** The check of every chain. */
  method ChainsAreComplete(records: seq<Record>) returns (complete: bool)
    requires NoRepeats(records)
    ensures complete == Complete(Members(records))
  {
    hide Complete, Members, NoRepeats, Linked, OneChain;
    var chains := Chains(records);
    var left := chains.Keys;
    EmptyIsComplete();
    while left != {}
      invariant left <= chains.Keys
      invariant forall k :: k in chains && k !in left ==> Complete(Members(ChainOf(records, k)))
    {
      var k :| k in left;
      ChainOfNoRepeats(records, k);
      ChainOfIsOneChain(records, k);
      SortedChainDecides(chains[k]);
      var linked := ChainIsLinked(Sort(chains[k]));
      if !linked {
        ChainInheritsCompleteness(records, k);
        return false;
      }
      left := left - {k};
    }
    CompleteByChain(records);
    return true;
  }

  /** `ContextBasis.available`: the defect reported is the first of those the declarative reading lists. */
  method Available(b: Basis) returns (defect: Option<Defect>)
    ensures defect == DefectOf(b)
  {
    if b.relevantAt > b.evaluatedAt || b.factsAvailableAt > b.evaluatedAt { return Some(FutureFacts); }
    if exists r :: r in b.records && r.created > b.evaluatedAt { return Some(FutureKnowledge); }
    if |b.records| != |Ids(b.records)| { return Some(DuplicateVersion); }
    DistinctIds(b.records);
    var complete := ChainsAreComplete(b.records);
    return if complete then None else Some(IncompleteHistory);
  }

  // ----- What an accepted basis is -----

  lemma {:induction false} IdsAreCounted(rs: seq<Record>)
    requires forall i, j :: 0 <= i < j < |rs| ==> rs[i].id != rs[j].id
    ensures |Ids(rs)| == |rs|
  {
    if rs != [] {
      var init := rs[..|rs| - 1];
      IdsAreCounted(init);
      assert Ids(rs) == Ids(init) + {Last(rs).id};
    }
  }

  predicate DistinctIdentifiers(rs: seq<Record>) {
    forall i, j :: 0 <= i < j < |rs| ==> rs[i].id != rs[j].id
  }

  /** Every version but the first supersedes the one before it, which is there, was created no later and is the
      only one of its number. */
  ghost predicate Succession(rs: seq<Record>) {
    forall r :: r in rs ==>
      && r.version >= 1
      && (forall s :: s in rs && s.scope == r.scope && s.key == r.key && s.version == r.version ==> s == r)
      && (r.version > 1 ==> exists p :: p in rs && p.scope == r.scope && p.key == r.key && p.version == r.version - 1
                                        && r.supersedes == Some(p.id) && p.created <= r.created)
  }

  /** Ordered by scope, then key, then version. */
  predicate InOrder(rs: seq<Record>) {
    forall i, j :: 0 <= i < j < |rs| ==>
      || rs[i].scope < rs[j].scope
      || (rs[i].scope == rs[j].scope && rs[i].key < rs[j].key)
      || (rs[i].scope == rs[j].scope && rs[i].key == rs[j].key && rs[i].version < rs[j].version)
  }

  lemma CompleteIsSuccession(rs: seq<Record>)
    ensures Complete(Members(rs)) <==> Succession(rs)
  {
    var all := Members(rs);
    if Complete(all) {
      forall r | r in rs
        ensures r.version > 1 ==> exists p :: p in rs && p.scope == r.scope && p.key == r.key
                                    && p.version == r.version - 1 && r.supersedes == Some(p.id)
                                    && p.created <= r.created
      {
        assert Placed(r, all);
        if r.version > 1 {
          var p :| p in all && Precedes(p, r);
          assert p in rs;
        }
      }
      assert forall r :: r in rs ==> Placed(r, all);
    }
    if Succession(rs) {
      forall r | r in all
        ensures Placed(r, all)
      {
        if r.version > 1 {
          var p :| p in rs && p.scope == r.scope && p.key == r.key && p.version == r.version - 1
            && r.supersedes == Some(p.id) && p.created <= r.created;
          assert p in all && Precedes(p, r);
        }
      }
    }
  }

  /** What a basis must meet, check by check. */
  ghost predicate Meets(b: Basis, d: Defect) {
    match d
    case FutureFacts => b.relevantAt <= b.evaluatedAt && b.factsAvailableAt <= b.evaluatedAt
    case FutureKnowledge => forall r :: r in b.records ==> r.created <= b.evaluatedAt
    case DuplicateVersion => DistinctIdentifiers(b.records)
    case IncompleteHistory => Succession(b.records)
  }

  lemma DefectIsFirstUnmet(b: Basis)
    ensures DefectOf(b) ==
            if !Meets(b, FutureFacts) then Some(FutureFacts)
            else if !Meets(b, FutureKnowledge) then Some(FutureKnowledge)
            else if !Meets(b, DuplicateVersion) then Some(DuplicateVersion)
            else if !Meets(b, IncompleteHistory) then Some(IncompleteHistory)
            else None
  {
    CompleteIsSuccession(b.records);
    DistinctIds(b.records);
    if DistinctIdentifiers(b.records) { IdsAreCounted(b.records); }
    hide Complete, Succession;
  }

  lemma SameRecordsMeetTheSame(b: Basis, ordered: seq<Record>, d: Defect)
    requires |ordered| == |b.records| && forall r :: r in ordered <==> r in b.records
    ensures Meets(b.(records := ordered), d) <==> Meets(b, d)
  {
    var o := b.(records := ordered);
    assert Ids(ordered) == Ids(b.records);
    DistinctIds(b.records);
    DistinctIds(ordered);
    if DistinctIdentifiers(b.records) { IdsAreCounted(b.records); }
    if DistinctIdentifiers(ordered) { IdsAreCounted(ordered); }
    assert Members(ordered) == Members(b.records);
    CompleteIsSuccession(b.records);
    CompleteIsSuccession(ordered);
    hide Complete, Succession;
  }

  /** A basis is accepted if and only if its facts were available and its relevant time reached by its evaluation, no
      record was created later, no identifier occurs twice and every chain is a succession; the first of these it
      fails is its defect.  Accepting it orders the records and changes nothing else. */
  lemma BasisIsAcceptedExactly(b: Basis)
    ensures Make(b).Ok? <==> forall d :: Meets(b, d)
    ensures forall d :: Make(b) == Err(d) ==> !Meets(b, d)
    ensures Make(b) == Err(FutureFacts) <==> !Meets(b, FutureFacts)
    ensures Make(b) == Err(FutureKnowledge) <==> Meets(b, FutureFacts) && !Meets(b, FutureKnowledge)
    ensures Make(b) == Err(DuplicateVersion) <==>
            Meets(b, FutureFacts) && Meets(b, FutureKnowledge) && !Meets(b, DuplicateVersion)
    ensures Make(b).Ok? ==>
      && Make(b).value == b.(records := Make(b).value.records) && InOrder(Make(b).value.records)
      && |Make(b).value.records| == |b.records| && forall r :: r in Make(b).value.records <==> r in b.records
  {
    var ordered := Sort(b.records);
    SortSorts(b.records);
    DefectIsFirstUnmet(b.(records := ordered));
    SameRecordsMeetTheSame(b, ordered, FutureFacts);
    SameRecordsMeetTheSame(b, ordered, FutureKnowledge);
    SameRecordsMeetTheSame(b, ordered, DuplicateVersion);
    SameRecordsMeetTheSame(b, ordered, IncompleteHistory);
    assert (forall d :: Meets(b, d)) <==> Meets(b, FutureFacts) && Meets(b, FutureKnowledge)
                                          && Meets(b, DuplicateVersion) && Meets(b, IncompleteHistory);
    if Make(b).Ok? { SuccessionIsInOrder(ordered); }
    hide Meets, Sort, DefectOf;
  }

  lemma SuccessionIsInOrder(rs: seq<Record>)
    requires WeaklySorted(rs)
    ensures DistinctIdentifiers(rs) && Succession(rs) ==> InOrder(rs)
  {
    if DistinctIdentifiers(rs) && Succession(rs) {
      forall i, j | 0 <= i < j < |rs|
        ensures Before(rs[i], rs[j])
      {
        assert !Before(rs[j], rs[i]);
        assert rs[i] in rs && rs[j] in rs;
      }
    }
  }

  // ----- Historical reconstruction -----

  /** The records created no later than t, in order. */
  function KnownBy(rs: seq<Record>, t: int): (known: seq<Record>)
    ensures forall r :: r in known <==> r in rs && r.created <= t
  {
    if rs == [] then [] else (if rs[0].created <= t then [rs[0]] else []) + KnownBy(rs[1..], t)
  }

  /** What an earlier basis must have been, judged from a later one. */
  ghost function Reconstruct(later: Basis, original: Basis): Result<Basis, Defect> {
    Make(original.(records := KnownBy(later.records, original.evaluatedAt)))
  }

  /** `validate_historical_basis` accepts. */
  ghost predicate ValidatesHistory(later: Basis, original: Basis) {
    Reconstruct(later, original) == Ok(original)
  }

  lemma {:induction false} KnownIsSorted(rs: seq<Record>, t: int)
    requires StrictlySorted(rs)
    ensures StrictlySorted(KnownBy(rs, t))
  {
    if rs != [] {
      KnownIsSorted(rs[1..], t);
      var tail := KnownBy(rs[1..], t);
      forall i | 0 <= i < |tail| ensures Before(rs[0], tail[i]) {
        assert tail[i] in rs[1..];
      }
    }
  }

  /** Along a chain creation times do not decrease with the version. */
  lemma {:induction false} ChainAges(s: set<Record>, a: Record, b: Record)
    requires Complete(s) && a in s && b in s && SameChain(a, b) && a.version <= b.version
    ensures a.created <= b.created
    decreases b.version
  {
    assert Placed(a, s) && Placed(b, s);
    if a.version < b.version {
      var p :| p in s && Precedes(p, b);
      ChainAges(s, a, p);
    }
  }

  /** What was known at t is a prefix of every version chain: with a version, all before it. */
  lemma KnownIsChainPrefix(rs: seq<Record>, t: int, a: Record, b: Record)
    requires Complete(Members(rs)) && a in rs && b in KnownBy(rs, t) && SameChain(a, b) && a.version <= b.version
    ensures a in KnownBy(rs, t)
  {
    ChainAges(Members(rs), a, b);
  }

  lemma KnownIsComplete(rs: seq<Record>, t: int)
    requires Complete(Members(rs))
    ensures Complete(Members(KnownBy(rs, t)))
  {
    var all, known := Members(rs), Members(KnownBy(rs, t));
    forall r | r in known
      ensures Placed(r, known)
    {
      assert Placed(r, all);
      if r.version > 1 {
        var p :| p in all && Precedes(p, r);
        assert p in known;
      }
    }
  }

  lemma KnownKeepsDistinctIds(rs: seq<Record>, t: int)
    requires |Ids(rs)| == |rs| && StrictlySorted(rs)
    ensures |Ids(KnownBy(rs, t))| == |KnownBy(rs, t)|
  {
    var known := KnownBy(rs, t);
    DistinctIds(rs);
    KnownIsSorted(rs, t);
    forall i, j | 0 <= i < j < |known|
      ensures known[i].id != known[j].id
    {
      assert known[i] in rs && known[j] in rs && Before(known[i], known[j]);
    }
    IdsAreCounted(known);
  }

  /** Reconstruction of the past never produces a malformed basis. */
  lemma ReconstructionIsWellFormed(later: Basis, original: Basis)
    requires Valid(later) && Valid(original)
    ensures Reconstruct(later, original) == Ok(original.(records := KnownBy(later.records, original.evaluatedAt)))
    ensures Valid(Reconstruct(later, original).value)
  {
    hide Complete;
    var t := original.evaluatedAt;
    KnownIsSorted(later.records, t);
    SortOfSorted(KnownBy(later.records, t));
    KnownIsComplete(later.records, t);
    KnownKeepsDistinctIds(later.records, t);
  }

  lemma {:induction false} KnownTwice(rs: seq<Record>, early: int, late: int)
    requires early <= late
    ensures KnownBy(KnownBy(rs, late), early) == KnownBy(rs, early)
  {
    if rs != [] {
      KnownTwice(rs[1..], early, late);
      var tail := KnownBy(rs[1..], late);
      if rs[0].created <= late { assert ([rs[0]] + tail)[1..] == tail; } else { assert KnownBy(rs, late) == tail; }
      if rs[0].created > early { assert KnownBy(rs, early) == KnownBy(rs[1..], early); }
    }
  }

  lemma {:induction false} KnownAll(rs: seq<Record>, t: int)
    requires forall r :: r in rs ==> r.created <= t
    ensures KnownBy(rs, t) == rs
  {
    if rs != [] { KnownAll(rs[1..], t); }
  }

  /** Validation of history composes: if C vouches for B and B for A, then C vouches for A exactly when
      C holds nothing that appeared after B was evaluated and no later than A. */
  lemma HistoryComposes(c: Basis, b: Basis, a: Basis)
    requires Valid(c) && Valid(b) && Valid(a)
    requires ValidatesHistory(c, b) && ValidatesHistory(b, a)
    ensures ValidatesHistory(c, a) <==> forall r :: r in c.records ==> !(b.evaluatedAt < r.created <= a.evaluatedAt)
    ensures a.evaluatedAt <= b.evaluatedAt ==> ValidatesHistory(c, a)
  {
    hide Valid, Complete, Make;
    ReconstructionIsWellFormed(c, b);
    ReconstructionIsWellFormed(b, a);
    ReconstructionIsWellFormed(c, a);
    assert b.records == KnownBy(c.records, b.evaluatedAt) && a.records == KnownBy(b.records, a.evaluatedAt);
    if a.evaluatedAt <= b.evaluatedAt {
      KnownTwice(c.records, a.evaluatedAt, b.evaluatedAt);
    } else {
      KnownAll(b.records, a.evaluatedAt);
      KnownTwice(c.records, b.evaluatedAt, a.evaluatedAt);
      if forall r :: r in c.records ==> !(b.evaluatedAt < r.created <= a.evaluatedAt) {
        KnownAll(KnownBy(c.records, a.evaluatedAt), b.evaluatedAt);
      }
    }
  }

  /** A valid basis vouches for itself, and for no other basis that differs only in its records. */
  lemma HistoryIsDetermined(c: Basis, a: Basis, other: seq<Record>)
    requires Valid(c) && Valid(a) && Valid(a.(records := other))
    requires ValidatesHistory(c, a) && ValidatesHistory(c, a.(records := other))
    ensures other == a.records && ValidatesHistory(c, c)
  {
    ReconstructionIsWellFormed(c, a);
    ReconstructionIsWellFormed(c, a.(records := other));
    ReconstructionIsWellFormed(c, c);
    KnownAll(c.records, c.evaluatedAt);
  }
}
