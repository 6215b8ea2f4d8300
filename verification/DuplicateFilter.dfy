/** The duplicate-message filter: a bounded dictionary of last-pass times, pruned by age and then
    evicted in insertion order. */
module DuplicateFilter {
  import opened Common

  const ERROR := 40

  datatype Key = Key(logger: string, level: int, message: string)

  datatype Entry = Entry(key: Key, time: real)

  /** One low-level emission: a rendered message and the clock reading it sees. */
  datatype Event = Event(key: Key, now: real)

  datatype Config = Config(window: real, capacity: nat)

  // ----- An insertion-ordered dictionary -----

  function Get(seen: seq<Entry>, key: Key): Option<real> {
    if seen == [] then None
    else if seen[0].key == key then Some(seen[0].time)
    else Get(seen[1..], key)
  }

  /** No key occurs twice. */
  predicate Distinct(seen: seq<Entry>) {
    seen == [] || (Get(seen[1..], seen[0].key).None? && Distinct(seen[1..]))
  }

  /** Assigning an existing key keeps its position; a new key goes last. */
  function Put(seen: seq<Entry>, key: Key, now: real): seq<Entry> {
    if seen == [] then [Entry(key, now)]
    else if seen[0].key == key then [Entry(key, now)] + seen[1..]
    else [seen[0]] + Put(seen[1..], key, now)
  }

  function Unexpired(seen: seq<Entry>, cutoff: real): (s: seq<Entry>)
    ensures |s| <= |seen|
  {
    if seen == [] then [] else (if seen[0].time >= cutoff then [seen[0]] else []) + Unexpired(seen[1..], cutoff)
  }

  // ----- What one emission means -----

  predicate Exempt(c: Config, key: Key) {
    key.level >= ERROR || c.window <= 0.0
  }

  predicate Passes(c: Config, seen: seq<Entry>, e: Event) {
    Exempt(c, e.key) || var last := Get(seen, e.key); last.None? || e.now - last.value >= c.window
  }

  function Next(c: Config, seen: seq<Entry>, e: Event): seq<Entry> {
    if Exempt(c, e.key) || !Passes(c, seen, e) then seen
    else
      var recorded := Put(seen, e.key, e.now);
      if |recorded| <= c.capacity then recorded
      else LastOf(Unexpired(recorded, e.now - c.window), c.capacity)
  }

  class DuplicateMessageFilter {
    const config: Config
    var seen: seq<Entry>

    ghost predicate Valid()
      reads this
    {
      config.window >= 0.0 && config.capacity >= 1 && Distinct(seen) && |seen| <= config.capacity
    }

    constructor (windowSeconds: real, maxEntries: int)
      ensures Valid() && seen == []
      ensures config == Config(if windowSeconds < 0.0 then 0.0 else windowSeconds,
                               if maxEntries < 1 then 1 else maxEntries)
    {
      config := Config(if windowSeconds < 0.0 then 0.0 else windowSeconds, if maxEntries < 1 then 1 else maxEntries);
      seen := [];
    }

    /** `DuplicateMessageFilter.filter`; true lets the record through. */
    method Filter(key: Key, now: real) returns (pass: bool)
      requires Valid()
      modifies this`seen
      ensures Valid()
      ensures pass == Passes(config, old(seen), Event(key, now))
      ensures seen == Next(config, old(seen), Event(key, now))
      ensures pass && !Exempt(config, key) ==> Get(seen, key) == Some(now)
      ensures !pass ==> seen == old(seen)
    {
      hide Get, Put, Unexpired, Distinct;
      if key.level >= ERROR || config.window <= 0.0 { return true; }
      var lastSeen := Get(seen, key);
      if lastSeen.Some? && now - lastSeen.value < config.window { return false; }
      NextIsValid(config, seen, Event(key, now));
      seen := Put(seen, key, now);
      if |seen| > config.capacity {
        var cutoff := now - config.window;
        seen := Unexpired(seen, cutoff);
        ghost var unexpired := seen;
        while |seen| > config.capacity
          invariant |seen| >= config.capacity || seen == unexpired
          invariant LastOf(seen, config.capacity) == LastOf(unexpired, config.capacity)
        {
          seen := seen[1..];
        }
      }
      return true;
    }
  }

  // ----- The dictionary operations -----

  /** After an assignment the key has the new time and every other key what it had. */
  lemma {:induction false} GetAfterPut(seen: seq<Entry>, key: Key, now: real, k: Key)
    ensures Get(Put(seen, key, now), k) == if k == key then Some(now) else Get(seen, k)
  {
    if seen != [] && seen[0].key != key { GetAfterPut(seen[1..], key, now, k); }
  }

  lemma {:induction false} PutShape(seen: seq<Entry>, key: Key, now: real)
    ensures Get(seen, key).None? ==> Put(seen, key, now) == seen + [Entry(key, now)]
    ensures Get(seen, key).Some? ==> |Put(seen, key, now)| == |seen|
    ensures Distinct(seen) ==> Distinct(Put(seen, key, now))
  {
    if seen != [] {
      if seen[0].key != key {
        PutShape(seen[1..], key, now);
        GetAfterPut(seen[1..], key, now, seen[0].key);
        assert [seen[0]] + (seen[1..] + [Entry(key, now)]) == seen + [Entry(key, now)];
      }
    }
  }

  /** Pruning forgets exactly the keys whose times lie before the cutoff. */
  lemma {:induction false} GetAfterPruning(seen: seq<Entry>, cutoff: real, k: Key)
    requires Distinct(seen)
    ensures
      var t := Get(seen, k);
      Get(Unexpired(seen, cutoff), k) == if t.Some? && t.value >= cutoff then t else None
  {
    if seen != [] {
      GetAfterPruning(seen[1..], cutoff, k);
      if seen[0].time < cutoff { assert Unexpired(seen, cutoff) == Unexpired(seen[1..], cutoff); }
    }
  }

  lemma {:induction false} PruningKeepsDistinct(seen: seq<Entry>, cutoff: real)
    requires Distinct(seen)
    ensures Distinct(Unexpired(seen, cutoff))
  {
    if seen != [] {
      PruningKeepsDistinct(seen[1..], cutoff);
      GetAfterPruning(seen[1..], cutoff, seen[0].key);
      if seen[0].time < cutoff { assert Unexpired(seen, cutoff) == Unexpired(seen[1..], cutoff); }
    }
  }

  lemma PruningHead(seen: seq<Entry>, cutoff: real)
    requires seen != []
    ensures Unexpired(seen, cutoff) == (if seen[0].time >= cutoff then [seen[0]] else []) + Unexpired(seen[1..], cutoff)
  {
  }

  lemma {:induction false} UnexpiredConcat(seen: seq<Entry>, e: Entry, cutoff: real)
    ensures Unexpired(seen + [e], cutoff) == Unexpired(seen, cutoff) + if e.time >= cutoff then [e] else []
  {
    if seen == [] {
      assert [] + [e] == [e] && [e][1..] == [];
    } else {
      assert (seen + [e])[1..] == seen[1..] + [e];
      PruningHead(seen, cutoff);
      PruningHead(seen + [e], cutoff);
      hide Unexpired;
      UnexpiredConcat(seen[1..], e, cutoff);
      Associative(if seen[0].time >= cutoff then [seen[0]] else [], Unexpired(seen[1..], cutoff),
                  if e.time >= cutoff then [e] else []);
    }
  }

  /** Evicting from the front forgets keys and changes none. */
  lemma {:induction false} GetAfterEviction(seen: seq<Entry>, n: nat, k: Key)
    requires Distinct(seen)
    ensures Distinct(LastOf(seen, n))
    ensures Get(LastOf(seen, n), k).Some? ==> Get(LastOf(seen, n), k) == Get(seen, k)
  {
    if |seen| > n {
      assert LastOf(seen, n) == LastOf(seen[1..], n);
      GetAfterEviction(seen[1..], n, k);
    }
  }

  lemma {:induction false} GetLast(seen: seq<Entry>)
    requires Distinct(seen) && seen != []
    ensures Get(seen, Last(seen).key) == Some(Last(seen).time)
  {
    if |seen| > 1 {
      assert Last(seen) == Last(seen[1..]);
      GetLast(seen[1..]);
    }
  }

  // ----- One step -----

  /** What the dictionary knows after a step: for each key its new last-pass time, or nothing. */
  lemma GetAfterNext(c: Config, seen: seq<Entry>, e: Event, k: Key)
    requires Distinct(seen) && c.window >= 0.0 && Passes(c, seen, e) && !Exempt(c, e.key)
    ensures
      var t := Get(Next(c, seen, e), k);
      t.Some? ==> t == if k == e.key then Some(e.now) else Get(seen, k)
  {
    var recorded, cutoff := Put(seen, e.key, e.now), e.now - c.window;
    GetAfterPut(seen, e.key, e.now, k);
    PutShape(seen, e.key, e.now);
    GetAfterPruning(recorded, cutoff, k);
    PruningKeepsDistinct(recorded, cutoff);
    GetAfterEviction(Unexpired(recorded, cutoff), c.capacity, k);
  }

  /** The dictionary stays within its capacity, and what was just recorded is never evicted. */
  lemma NextIsValid(c: Config, seen: seq<Entry>, e: Event)
    requires Distinct(seen) && |seen| <= c.capacity && c.capacity >= 1 && c.window >= 0.0
    ensures Distinct(Next(c, seen, e)) && |Next(c, seen, e)| <= c.capacity
    ensures Passes(c, seen, e) && !Exempt(c, e.key) ==> Get(Next(c, seen, e), e.key) == Some(e.now)
  {
    if !Exempt(c, e.key) && Passes(c, seen, e) {
      var recorded, cutoff, entry := Put(seen, e.key, e.now), e.now - c.window, Entry(e.key, e.now);
      PutShape(seen, e.key, e.now);
      GetAfterPut(seen, e.key, e.now, e.key);
      if |recorded| > c.capacity {
        PruningKeepsDistinct(recorded, cutoff);
        UnexpiredConcat(seen, entry, cutoff);
        GetAfterEviction(Unexpired(recorded, cutoff), c.capacity, e.key);
        GetLast(Next(c, seen, e));
      }
    }
  }

  // ----- The unbounded filter, and runs -----

  /** The same filter with a dictionary that never forgets. */
  predicate PassesUnbounded(c: Config, known: map<Key, real>, e: Event) {
    Exempt(c, e.key) || e.key !in known || e.now - known[e.key] >= c.window
  }

  function Learn(c: Config, known: map<Key, real>, e: Event, pass: bool): map<Key, real> {
    if pass && !Exempt(c, e.key) then known[e.key := e.now] else known
  }

  function SeenAfter(c: Config, events: seq<Event>): seq<Entry> {
    if events == [] then [] else Next(c, SeenAfter(c, events[..|events| - 1]), Last(events))
  }

  /** Whether the bounded filter lets the n-th event through. */
  predicate PassesAt(c: Config, events: seq<Event>, n: nat)
    requires n < |events|
  {
    Passes(c, SeenAfter(c, events[..n]), events[n])
  }

  function KnownAfter(c: Config, events: seq<Event>): map<Key, real> {
    if events == [] then map[]
    else
      var before := KnownAfter(c, events[..|events| - 1]);
      Learn(c, before, Last(events), PassesUnbounded(c, before, Last(events)))
  }

  predicate PassesUnboundedAt(c: Config, events: seq<Event>, n: nat)
    requires n < |events|
  {
    PassesUnbounded(c, KnownAfter(c, events[..n]), events[n])
  }

  ghost predicate Nondecreasing(events: seq<Event>) {
    forall i, j :: 0 <= i < j < |events| ==> events[i].now <= events[j].now
  }

  predicate ValidConfig(c: Config) {
    c.window >= 0.0 && c.capacity >= 1
  }

  lemma {:induction false} SeenIsValid(c: Config, events: seq<Event>)
    requires ValidConfig(c)
    ensures Distinct(SeenAfter(c, events)) && |SeenAfter(c, events)| <= c.capacity
  {
    if events != [] {
      SeenIsValid(c, events[..|events| - 1]);
      NextIsValid(c, SeenAfter(c, events[..|events| - 1]), Last(events));
    }
  }

  /** What the bounded filter remembers of a key is when it last let that key through. */
  lemma {:induction false} RememberedWasPassed(c: Config, events: seq<Event>, key: Key) returns (i: nat)
    requires ValidConfig(c) && Get(SeenAfter(c, events), key).Some?
    ensures i < |events| && events[i].key == key && PassesAt(c, events, i)
    ensures Get(SeenAfter(c, events), key) == Some(events[i].now)
  {
    hide Next, Passes, Exempt;
    var n := |events| - 1;
    var before := SeenAfter(c, events[..n]);
    SeenIsValid(c, events[..n]);
    StepRemembers(c, before, events[n], key);
    if Get(SeenAfter(c, events), key) == Get(before, key) {
      i := RememberedWasPassed(c, events[..n], key);
      assert events[..n][..i] == events[..i];
    } else {
      i := n;
    }
  }

  lemma StepRemembers(c: Config, seen: seq<Entry>, e: Event, key: Key)
    requires ValidConfig(c) && Distinct(seen) && Get(Next(c, seen, e), key).Some?
    ensures
      || Get(Next(c, seen, e), key) == Get(seen, key)
      || (Passes(c, seen, e) && key == e.key && Get(Next(c, seen, e), key) == Some(e.now))
  {
    if !Exempt(c, e.key) && Passes(c, seen, e) { GetAfterNext(c, seen, e, key); }
  }

  /** Whatever the traffic, a suppressed message repeats one that was let through less than a window
      earlier. */
  lemma SuppressedWasPassedRecently(c: Config, events: seq<Event>, n: nat) returns (i: nat)
    requires ValidConfig(c) && n < |events| && !PassesAt(c, events, n)
    ensures i < n && events[i].key == events[n].key && PassesAt(c, events, i)
    ensures events[n].now - events[i].now < c.window
  {
    i := RememberedWasPassed(c, events[..n], events[n].key);
    assert events[..n][..i] == events[..i];
  }

  // ----- Agreement with the unbounded filter -----

  /** The keys let through no more than one window ago. */
  function Recent(c: Config, known: map<Key, real>, now: real): set<Key> {
    set k | k in known && known[k] >= now - c.window
  }

  /** The keys whose repetition would be suppressed. */
  function Live(c: Config, known: map<Key, real>, now: real): set<Key> {
    set k | k in known && now - known[k] < c.window
  }

  /** The dictionary is part of what is known, and holds every live key. */
  ghost predicate Agrees(c: Config, seen: seq<Entry>, known: map<Key, real>, now: real) {
    && (forall k :: Get(seen, k).Some? ==> k in known && Get(seen, k).value == known[k])
    && (forall k :: k in Live(c, known, now) ==> Get(seen, k).Some?)
  }

  lemma {:induction false} KeysAreCounted(seen: seq<Entry>, keys: set<Key>)
    requires Distinct(seen) && forall k :: Get(seen, k).Some? ==> k in keys
    ensures |seen| <= |keys|
  {
    if seen != [] {
      var rest := keys - {seen[0].key};
      forall k | Get(seen[1..], k).Some?
        ensures k in rest
      {
        assert k != seen[0].key && Get(seen, k) == Get(seen[1..], k);
      }
      assert seen[0].key in keys by { assert Get(seen, seen[0].key).Some?; }
      KeysAreCounted(seen[1..], rest);
    }
  }

  /** Letting e through pushes k, still unexpired, out of the front of the full dictionary. */
  ghost predicate Evicts(c: Config, seen: seq<Entry>, e: Event, k: Key) {
    && !Exempt(c, e.key) && Passes(c, seen, e)
    && var recorded := Put(seen, e.key, e.now);
       var pruned := Unexpired(recorded, e.now - c.window);
       |recorded| > c.capacity && Get(pruned, k).Some? && Get(LastOf(pruned, c.capacity), k).None?
  }

  /** What recording e leaves, before any eviction. */
  lemma AfterRecording(c: Config, seen: seq<Entry>, known: map<Key, real>, before: real, e: Event, k: Key)
    requires ValidConfig(c) && Distinct(seen) && before <= e.now && Agrees(c, seen, known, before)
    ensures
      var recorded, learned := Put(seen, e.key, e.now), known[e.key := e.now];
      var pruned := Unexpired(recorded, e.now - c.window);
      && Distinct(pruned)
      && (Get(pruned, k).Some? ==> k in Recent(c, learned, e.now) && Get(pruned, k).value == learned[k])
      && (Get(recorded, k).Some? ==> k in learned && Get(recorded, k).value == learned[k])
      && (k in Live(c, learned, e.now) ==> Get(recorded, k).Some? && Get(pruned, k).Some?)
  {
    var recorded, learned := Put(seen, e.key, e.now), known[e.key := e.now];
    PutShape(seen, e.key, e.now);
    PruningKeepsDistinct(recorded, e.now - c.window);
    GetAfterPut(seen, e.key, e.now, k);
    GetAfterPruning(recorded, e.now - c.window, k);
    assert k != e.key && k in Live(c, learned, e.now) ==> k in Live(c, known, before);
  }

  /** One step keeps the two in agreement exactly when it evicts no key whose repetition would be
      suppressed; a key exactly one window old may go. */
  lemma AgreementIsKeptExactly(c: Config, seen: seq<Entry>, known: map<Key, real>, before: real, e: Event)
    requires ValidConfig(c) && Distinct(seen) && before <= e.now && Agrees(c, seen, known, before)
    ensures Passes(c, seen, e) <==> PassesUnbounded(c, known, e)
    ensures
      var learned := Learn(c, known, e, PassesUnbounded(c, known, e));
      Agrees(c, Next(c, seen, e), learned, e.now) <==>
        forall k :: Evicts(c, seen, e, k) ==> k !in Live(c, learned, e.now)
  {
    SameDecision(c, seen, known, before, e);
    if !Exempt(c, e.key) && Passes(c, seen, e) {
      var learned := known[e.key := e.now];
      forall k
        ensures Get(Next(c, seen, e), k).Some? ==> k in learned && Get(Next(c, seen, e), k).value == learned[k]
        ensures k in Live(c, learned, e.now) ==> (Get(Next(c, seen, e), k).Some? <==> !Evicts(c, seen, e, k))
      {
        KeyStaysInAgreement(c, seen, known, before, e, k);
      }
      hide Next, Passes, Evicts, Put, Unexpired, Live, Get;
    } else {
      NothingLearned(c, seen, known, before, e.now);
    }
  }

  /** What the step leaves of one key: the time learned or nothing, and nothing of a live key only if it
      was evicted. */
  lemma KeyStaysInAgreement(c: Config, seen: seq<Entry>, known: map<Key, real>, before: real, e: Event, k: Key)
    requires ValidConfig(c) && Distinct(seen) && before <= e.now && Agrees(c, seen, known, before)
    requires !Exempt(c, e.key) && Passes(c, seen, e)
    ensures
      var next, learned := Get(Next(c, seen, e), k), known[e.key := e.now];
      && (next.Some? ==> k in learned && next.value == learned[k])
      && (k in Live(c, learned, e.now) ==> (next.Some? <==> !Evicts(c, seen, e, k)))
  {
    AfterRecording(c, seen, known, before, e, k);
    GetAfterEviction(Unexpired(Put(seen, e.key, e.now), e.now - c.window), c.capacity, k);
    hide Put, Unexpired, Get, Live, Distinct;
  }

  lemma NothingLearned(c: Config, seen: seq<Entry>, known: map<Key, real>, before: real, now: real)
    requires before <= now && Agrees(c, seen, known, before)
    ensures Agrees(c, seen, known, now)
  {
    forall k | k in Live(c, known, now)
      ensures Get(seen, k).Some?
    {
      assert k in Live(c, known, before);
    }
  }

  /** A step that leaves no more recent keys than there is room for keeps the two in agreement. */
  lemma AgreementIsKept(c: Config, seen: seq<Entry>, known: map<Key, real>, before: real, e: Event)
    requires ValidConfig(c) && Distinct(seen) && before <= e.now && Agrees(c, seen, known, before)
    requires |Recent(c, Learn(c, known, e, PassesUnbounded(c, known, e)), e.now)| <= c.capacity
    ensures Passes(c, seen, e) <==> PassesUnbounded(c, known, e)
    ensures Agrees(c, Next(c, seen, e), Learn(c, known, e, PassesUnbounded(c, known, e)), e.now)
  {
    AgreementIsKeptExactly(c, seen, known, before, e);
    if !Exempt(c, e.key) && Passes(c, seen, e) {
      var learned := known[e.key := e.now];
      var pruned := Unexpired(Put(seen, e.key, e.now), e.now - c.window);
      AfterRecording(c, seen, known, before, e, e.key);
      forall k
        ensures Get(pruned, k).Some? ==> k in Recent(c, learned, e.now)
      {
        AfterRecording(c, seen, known, before, e, k);
      }
      KeysAreCounted(pruned, Recent(c, learned, e.now));
    }
  }

  lemma SameDecision(c: Config, seen: seq<Entry>, known: map<Key, real>, before: real, e: Event)
    requires Agrees(c, seen, known, before) && before <= e.now
    ensures Passes(c, seen, e) <==> PassesUnbounded(c, known, e)
  {
    if e.key in known && e.now - known[e.key] < c.window {
      assert e.key in Live(c, known, before);
    }
  }

  ghost predicate RoomForAll(c: Config, events: seq<Event>) {
    forall n :: 0 <= n < |events| ==> |Recent(c, KnownAfter(c, events[..n + 1]), events[n].now)| <= c.capacity
  }

  lemma {:induction false} RunsAgree(c: Config, events: seq<Event>, now: real)
    requires ValidConfig(c) && Nondecreasing(events) && RoomForAll(c, events)
    requires events != [] ==> now == Last(events).now
    ensures Agrees(c, SeenAfter(c, events), KnownAfter(c, events), now)
  {
    if events != [] {
      hide Next, Passes, PassesUnbounded, Learn, Recent, Agrees;
      var n := |events| - 1;
      assert events[..n + 1] == events;
      assert RoomForAll(c, events[..n]) by { RoomForPrefix(c, events, n); }
      var before := if n == 0 then events[0].now else events[n - 1].now;
      RunsAgree(c, events[..n], before);
      SeenIsValid(c, events[..n]);
      AgreementIsKept(c, SeenAfter(c, events[..n]), KnownAfter(c, events[..n]), before, events[n]);
    }
  }

  lemma RoomForPrefix(c: Config, events: seq<Event>, n: nat)
    requires RoomForAll(c, events) && n <= |events|
    ensures RoomForAll(c, events[..n])
  {
    forall m | 0 <= m < n
      ensures |Recent(c, KnownAfter(c, events[..n][..m + 1]), events[..n][m].now)| <= c.capacity
    {
      assert events[..n][..m + 1] == events[..m + 1];
    }
  }

  /** If never more keys than fit have been let through within the last window, the bounded filter
      makes every decision the unbounded one makes. */
  lemma BoundedFilterIsExact(c: Config, events: seq<Event>, n: nat)
    requires ValidConfig(c) && Nondecreasing(events) && RoomForAll(c, events) && n < |events|
    ensures PassesAt(c, events, n) <==> PassesUnboundedAt(c, events, n)
  {
    RoomForPrefix(c, events, n);
    var before := if n == 0 then events[0].now else events[n - 1].now;
    RunsAgree(c, events[..n], before);
    SameDecision(c, SeenAfter(c, events[..n]), KnownAfter(c, events[..n]), before, events[n]);
  }

  // ----- Exactly when the two filters cannot be told apart -----

  /** No step of the traffic evicts a key whose repetition would then be suppressed. */
  ghost predicate NeverEvictsLive(c: Config, events: seq<Event>) {
    forall n, k :: 0 <= n < |events| && Evicts(c, SeenAfter(c, events[..n]), events[n], k) ==>
      k !in Live(c, KnownAfter(c, events[..n + 1]), events[n].now)
  }

  ghost predicate DecidedAlike(c: Config, events: seq<Event>, probe: Event) {
    Passes(c, SeenAfter(c, events), probe) <==> PassesUnbounded(c, KnownAfter(c, events), probe)
  }

  /** After every part of the traffic, any message whatever would be decided alike by both filters. */
  ghost predicate Indistinguishable(c: Config, events: seq<Event>) {
    forall n, probe: Event ::
      0 <= n <= |events| && (n > 0 ==> events[n - 1].now <= probe.now) ==> DecidedAlike(c, events[..n], probe)
  }

  lemma {:induction false} AgreesWithoutEviction(c: Config, events: seq<Event>, n: nat, now: real)
    requires ValidConfig(c) && Nondecreasing(events) && NeverEvictsLive(c, events) && n <= |events|
    requires n > 0 ==> now == events[n - 1].now
    ensures Agrees(c, SeenAfter(c, events[..n]), KnownAfter(c, events[..n]), now)
  {
    if n > 0 {
      var m := n - 1;
      assert events[..n][..m] == events[..m];
      SeenIsValid(c, events[..m]);
      var before := if m == 0 then events[0].now else events[m - 1].now;
      AgreesWithoutEviction(c, events, m, before);
      AgreementIsKeptExactly(c, SeenAfter(c, events[..m]), KnownAfter(c, events[..m]), before, events[m]);
      assert KnownAfter(c, events[..n]) ==
             Learn(c, KnownAfter(c, events[..m]), events[m], PassesUnbounded(c, KnownAfter(c, events[..m]), events[m]));
      hide Next, Passes, PassesUnbounded, Learn, Agrees, Evicts, Live;
    }
  }

  lemma EvictionIsSeen(c: Config, events: seq<Event>, n: nat, k: Key)
    requires ValidConfig(c) && n < |events| && Evicts(c, SeenAfter(c, events[..n]), events[n], k)
    requires k in Live(c, KnownAfter(c, events[..n + 1]), events[n].now)
    ensures !DecidedAlike(c, events[..n + 1], Event(k, events[n].now))
  {
    assert events[..n + 1][..n] == events[..n];
    KnownIsNeverExempt(c, events[..n + 1]);
  }

  /** The exact condition: under a nondecreasing clock no message could tell the bounded filter from the
      unbounded one, at any point, if and only if no live key was ever evicted. */
  lemma ExactUnlessLiveKeysAreEvicted(c: Config, events: seq<Event>)
    requires ValidConfig(c) && Nondecreasing(events)
    ensures Indistinguishable(c, events) <==> NeverEvictsLive(c, events)
  {
    hide Evicts, Passes, PassesUnbounded, SeenAfter, KnownAfter, Live, Agrees, DecidedAlike;
    if NeverEvictsLive(c, events) {
      forall n, probe: Event | 0 <= n <= |events| && (n > 0 ==> events[n - 1].now <= probe.now)
        ensures DecidedAlike(c, events[..n], probe)
      {
        var now := if n == 0 then probe.now else events[n - 1].now;
        AgreesWithoutEviction(c, events, n, now);
        AgreementDecidesAlike(c, events[..n], now, probe);
      }
    } else {
      var n, k :| 0 <= n < |events| && Evicts(c, SeenAfter(c, events[..n]), events[n], k)
        && k in Live(c, KnownAfter(c, events[..n + 1]), events[n].now);
      EvictionIsSeen(c, events, n, k);
    }
  }

  lemma AgreementDecidesAlike(c: Config, events: seq<Event>, now: real, probe: Event)
    requires Agrees(c, SeenAfter(c, events), KnownAfter(c, events), now) && now <= probe.now
    ensures DecidedAlike(c, events, probe)
  {
    SameDecision(c, SeenAfter(c, events), KnownAfter(c, events), now, probe);
  }

  /** And the bound is needed: with more live keys than fit, some live key has been evicted, and its
      repetition is let through by the bounded filter and suppressed by the unbounded one. */
  lemma OverloadIsObservable(c: Config, events: seq<Event>, now: real) returns (repeated: Event)
    requires ValidConfig(c) && |Live(c, KnownAfter(c, events), now)| > c.capacity
    ensures repeated.now == now && repeated.key in Live(c, KnownAfter(c, events), now)
    ensures Passes(c, SeenAfter(c, events), repeated)
    ensures !PassesUnbounded(c, KnownAfter(c, events), repeated)
  {
    var seen, live := SeenAfter(c, events), Live(c, KnownAfter(c, events), now);
    SeenIsValid(c, events);
    KnownIsNeverExempt(c, events);
    if forall k :: k in live ==> Get(seen, k).Some? {
      KeysAreHeld(seen, live);
      assert false;
    }
    var k :| k in live && Get(seen, k).None?;
    repeated := Event(k, now);
  }

  lemma {:induction false} KnownIsNeverExempt(c: Config, events: seq<Event>)
    ensures forall k :: k in KnownAfter(c, events) ==> !Exempt(c, k)
  {
    if events != [] { KnownIsNeverExempt(c, events[..|events| - 1]); }
  }

  lemma {:induction false} KeysAreHeld(seen: seq<Entry>, keys: set<Key>)
    requires forall k :: k in keys ==> Get(seen, k).Some?
    ensures |keys| <= |seen|
  {
    if seen == [] {
      assert keys == {};
    } else {
      KeysAreHeld(seen[1..], keys - {seen[0].key});
    }
  }

  // ----- The decision and the memory, told on levels, times and entries -----

  lemma {:induction false} GetIsRecorded(seen: seq<Entry>, key: Key)
    requires Distinct(seen)
    ensures forall i :: 0 <= i < |seen| && seen[i].key == key ==> Get(seen, key) == Some(seen[i].time)
    ensures Get(seen, key).Some? ==> exists i :: 0 <= i < |seen| && seen[i].key == key
  {
    if seen != [] {
      GetIsRecorded(seen[1..], key);
      GetIsRecorded(seen[1..], seen[0].key);
      assert forall i :: 1 <= i < |seen| ==> seen[i] == seen[1..][i - 1];
      if Get(seen[1..], key).Some? {
        var i :| 0 <= i < |seen[1..]| && seen[1..][i].key == key;
        assert seen[i + 1].key == key;
      }
    }
  }

  /** A message passes if and only if it is an error or worse, the window is closed, or no remembered pass of the
      same message is less than a window old; the first two leave no trace. */
  lemma PassesExactly(c: Config, seen: seq<Entry>, e: Event)
    requires Distinct(seen)
    ensures Passes(c, seen, e) <==>
      || e.key.level >= 40 || c.window <= 0.0
      || forall i :: 0 <= i < |seen| && seen[i].key == e.key ==> e.now - seen[i].time >= c.window
    ensures e.key.level >= 40 || c.window <= 0.0 ==> Next(c, seen, e) == seen
  {
    GetIsRecorded(seen, e.key);
  }

  /** Once a lesser message has passed, its repetition passes if and only if a window has gone by. */
  lemma RepetitionIsSuppressed(c: Config, seen: seq<Entry>, e: Event, later: real)
    requires ValidConfig(c) && Distinct(seen) && |seen| <= c.capacity && Passes(c, seen, e)
    requires e.key.level < 40 && c.window > 0.0
    ensures Passes(c, Next(c, seen, e), Event(e.key, later)) <==> later - e.now >= c.window
  {
    NextIsValid(c, seen, e);
  }

  /** `recorded` is the memory with the message's time set: in its place if it is there, else at the end. */
  ghost predicate Notes(seen: seq<Entry>, e: Event, recorded: seq<Entry>) {
    if exists i :: 0 <= i < |seen| && seen[i].key == e.key then
      |recorded| == |seen| && forall i :: 0 <= i < |seen| ==>
        recorded[i] == Entry(seen[i].key, if seen[i].key == e.key then e.now else seen[i].time)
    else recorded == seen + [Entry(e.key, e.now)]
  }

  lemma {:induction false} PutNotes(seen: seq<Entry>, e: Event)
    requires Distinct(seen)
    ensures Notes(seen, e, Put(seen, e.key, e.now))
  {
    if seen != [] {
      var rest := seen[1..];
      GetIsRecorded(rest, seen[0].key);
      assert forall i :: 1 <= i < |seen| ==> seen[i] == rest[i - 1];
      assert forall i :: 0 <= i < |rest| ==> rest[i] == seen[i + 1];
      if seen[0].key != e.key {
        PutNotes(rest, e);
        var put := Put(rest, e.key, e.now);
        assert Put(seen, e.key, e.now) == [seen[0]] + put;
        hide *;
        NotesBehind(seen, e, put);
      }
    }
  }

  lemma NotesBehind(seen: seq<Entry>, e: Event, put: seq<Entry>)
    requires seen != [] && seen[0].key != e.key && Notes(seen[1..], e, put)
    ensures Notes(seen, e, [seen[0]] + put)
  {
    var rest, all := seen[1..], [seen[0]] + put;
    assert forall i :: 1 <= i < |seen| ==> seen[i] == rest[i - 1];
    if i :| 0 <= i < |rest| && rest[i].key == e.key {
      assert seen[i + 1].key == e.key;
      forall k | 0 <= k < |seen|
        ensures all[k] == Entry(seen[k].key, if seen[k].key == e.key then e.now else seen[k].time)
      {
        assert k > 0 ==> all[k] == put[k - 1] && seen[k] == rest[k - 1];
      }
    } else {
      assert put == rest + [Entry(e.key, e.now)];
      assert seen == [seen[0]] + rest;
      Associative([seen[0]], rest, [Entry(e.key, e.now)]);
    }
  }

  /** The entries no older than a window. */
  function Younger(now: real, window: real): Entry -> bool {
    (x: Entry) => now - x.time <= window
  }

  lemma {:induction false} UnexpiredAt(seen: seq<Entry>, now: real, window: real) returns (at: seq<nat>)
    ensures Selects(seen, Younger(now, window), at) && TakenAt(Unexpired(seen, now - window), seen, at)
  {
    if seen == [] {
      at := [];
    } else {
      var init, last := seen[..|seen| - 1], Last(seen);
      at := UnexpiredAt(init, now, window);
      assert seen == init + [last];
      UnexpiredConcat(init, last, now - window);
      SelectsOneMore(seen, Younger(now, window), at);
      TakenOneMore(Unexpired(init, now - window), seen, at, now - last.time <= window);
      hide *;
      at := at + if now - last.time <= window then [|seen| - 1] else [];
    }
  }

  lemma NextAfterPass(c: Config, seen: seq<Entry>, e: Event)
    requires Passes(c, seen, e) && e.key.level < 40 && c.window > 0.0
    ensures
      var recorded := Put(seen, e.key, e.now);
      Next(c, seen, e) ==
        if |recorded| <= c.capacity then recorded else LastOf(Unexpired(recorded, e.now - c.window), c.capacity)
  {
    hide Put, Unexpired, LastOf, Get;
  }

  /** What is remembered after a lesser message has passed: with room for it everything, else the entries no older
      than a window, and of those the ones inserted last. */
  lemma MemoryAfterPass(c: Config, seen: seq<Entry>, e: Event) returns (recorded: seq<Entry>, at: seq<nat>)
    requires ValidConfig(c) && Distinct(seen) && Passes(c, seen, e) && e.key.level < 40 && c.window > 0.0
    ensures Notes(seen, e, recorded)
    ensures |recorded| <= c.capacity ==> Next(c, seen, e) == recorded
    ensures |recorded| > c.capacity ==>
      && Selects(recorded, Younger(e.now, c.window), at)
      && TakenAt(Next(c, seen, e), recorded, if |at| <= c.capacity then at else at[|at| - c.capacity..])
  {
    recorded := Put(seen, e.key, e.now);
    NextAfterPass(c, seen, e);
    hide *;
    PutNotes(seen, e);
    at := UnexpiredAt(recorded, e.now, c.window);
    NewestTaken(Unexpired(recorded, e.now - c.window), recorded, at, c.capacity);
  }

  /** The reference in its own words: under a nondecreasing clock the filter that never forgets lets a lesser message
      through if and only if no earlier pass of the same message is less than a window old. */
  lemma UnboundedPassesExactly(c: Config, events: seq<Event>, n: nat)
    requires n < |events| && Nondecreasing(events)
    ensures PassesUnboundedAt(c, events, n) <==>
      || events[n].key.level >= 40 || c.window <= 0.0
      || forall m: nat :: m < n && events[m].key == events[n].key && PassesUnboundedAt(c, events, m) ==>
           events[n].now - events[m].now >= c.window
  {
    var e := events[n];
    if !Exempt(c, e.key) {
      KnownIsLastPass(c, events, n, e.key);
      hide KnownAfter, PassesUnboundedAt;
      assert PassesUnboundedAt(c, events, n) <==>
             PassesUnbounded(c, KnownAfter(c, events[..n]), e) by { PassesAtIs(c, events, n); }
    }
  }

  lemma PassesAtIs(c: Config, events: seq<Event>, n: nat)
    requires n < |events|
    ensures PassesUnboundedAt(c, events, n) <==> PassesUnbounded(c, KnownAfter(c, events[..n]), events[n])
  {
  }

  /** What is known of a message is its latest pass. */
  lemma {:induction false} KnownIsLastPass(c: Config, events: seq<Event>, n: nat, key: Key)
    requires n <= |events| && Nondecreasing(events) && !Exempt(c, key)
    ensures
      var known := KnownAfter(c, events[..n]);
      && (key in known ==> exists m: nat :: m < n && events[m].key == key && PassesUnboundedAt(c, events, m)
                                            && known[key] == events[m].now)
      && forall m: nat :: m < n && events[m].key == key && PassesUnboundedAt(c, events, m) ==>
           key in known && events[m].now <= known[key]
  {
    if n > 0 {
      assert events[..n][..n - 1] == events[..n - 1] && Last(events[..n]) == events[n - 1];
      KnownIsLastPass(c, events, n - 1, key);
      PassesAtIs(c, events, n - 1);
      var before := KnownAfter(c, events[..n - 1]);
      assert KnownAfter(c, events[..n]) == Learn(c, before, events[n - 1], PassesUnbounded(c, before, events[n - 1]));
      hide KnownAfter, PassesUnboundedAt, PassesUnbounded;
    }
  }
}
