/** The page loop around the request loop, and the whole fetch. */
module HttpsFetch {
  import opened Common
  import opened HttpsTelemetry
  import opened HttpsPages

  // ----- Where a fetch stands, told from its journal -----

  /** A fetch about to read a page, done, or stopped by what a page held. */
  datatype Progress = Reading(url: string, acc: Walked) | Finished(acc: Walked) | Stopped(failure: Failure)

  /** Where the body delivered for `url` takes a fetch that has taken `acc`. */
  function Advance(c: Config, url: string, acc: Walked, body: Body): (p: Progress)
    ensures p.Reading? ==> p.acc.pages < c.limits.maxPages
    ensures p.Stopped? ==> p.failure.kind in {Budget, Payload, Configuration} && !p.failure.retryable
    ensures p.Finished? ==> p.acc.next.None? || p.acc.pages >= c.limits.maxPages
  {
    var page := Take(c, acc, body);
    if page.Err? then Stopped(page.error)
    else
      var taken := Append(acc, page.value);
      if taken.next.None? || taken.pages >= c.limits.maxPages then Finished(taken)
      else
        match NextUrl(c, url, taken.next.value)
        case Ok(next) => Reading(next, taken)
        case Err(failure) => Stopped(failure)
  }

  /** Where a fetch that began at `start` stands after the given requests. */
  ghost function ProgressOf(c: Config, reply: (nat, string) -> Reply, calls: seq<Call>, start: string): (p: Progress)
    requires ValidConfig(c)
    ensures p.Reading? ==> p.acc.pages < c.limits.maxPages
    ensures p.Stopped? ==> p.failure.kind in {Budget, Payload, Configuration} && !p.failure.retryable
    ensures p.Finished? ==> p.acc.next.None? || p.acc.pages >= c.limits.maxPages
  {
    if calls == [] then Reading(start, NOTHING)
    else
      var before := ProgressOf(c, reply, calls[..|calls| - 1], start);
      var answer := reply(|calls| - 1, Last(calls).url);
      if before.Reading? && Delivers(answer) then Advance(c, before.url, before.acc, answer.body.value) else before
  }

  ghost predicate Awaits(p: Progress, url: string) {
    p.Reading? && p.url == url
  }

  /** Every request was for the page the fetch had got to. */
  ghost predicate FollowsLinks(c: Config, reply: (nat, string) -> Reply, calls: seq<Call>, start: string)
    requires ValidConfig(c)
  {
    forall i :: 0 <= i < |calls| ==> Awaits(ProgressOf(c, reply, calls[..i], start), calls[i].url)
  }

  lemma PrefixFollowsLinks(c: Config, reply: (nat, string) -> Reply, calls: seq<Call>, start: string)
    requires ValidConfig(c) && calls != [] && FollowsLinks(c, reply, calls, start)
    ensures FollowsLinks(c, reply, calls[..|calls| - 1], start)
    ensures Awaits(ProgressOf(c, reply, calls[..|calls| - 1], start), Last(calls).url)
  {
    var before := calls[..|calls| - 1];
    forall i | 0 <= i < |before|
      ensures Awaits(ProgressOf(c, reply, before[..i], start), before[i].url)
    {
      assert before[..i] == calls[..i];
    }
  }

  /** The requests for one page leave the fetch where it was until the last brings the page. */
  lemma {:induction false} TriedAdvancesOnce(c: Config, reply: (nat, string) -> Reply, before: seq<Call>,
                                             after: seq<Call>, start: string, url: string)
    requires ValidConfig(c) && Tried(reply, before, after, url)
    requires FollowsLinks(c, reply, before, start) && Awaits(ProgressOf(c, reply, before, start), url)
    ensures FollowsLinks(c, reply, after, start)
    ensures
      var p := ProgressOf(c, reply, before, start);
      ProgressOf(c, reply, after, start) ==
        if |after| > |before| && Delivers(reply(|after| - 1, url))
        then Advance(c, url, p.acc, reply(|after| - 1, url).body.value) else p
    decreases |after|
  {
    if |after| == |before| {
      assert after == before;
    } else {
      TriedOneFewer(reply, before, after, url);
      hide Advance, Delivers, Tried, FollowsLinks;
      var shorter := after[..|after| - 1];
      TriedAdvancesOnce(c, reply, before, shorter, start, url);
      FollowsOneMore(c, reply, after, start);
    }
  }

  lemma TriedOneFewer(reply: (nat, string) -> Reply, before: seq<Call>, after: seq<Call>, url: string)
    requires |after| > |before| && Tried(reply, before, after, url)
    ensures Tried(reply, before, after[..|after| - 1], url) && Last(after).url == url
    ensures |after| - 1 > |before| ==> !Delivers(reply(|after| - 2, url))
  {
    if |after| - 1 > |before| { AskingIsNoDelivery(reply(|after| - 2, url)); }
    hide Delivers, AsksAgain;
  }

  lemma FollowsOneMore(c: Config, reply: (nat, string) -> Reply, calls: seq<Call>, start: string)
    requires ValidConfig(c) && calls != [] && FollowsLinks(c, reply, calls[..|calls| - 1], start)
    requires Awaits(ProgressOf(c, reply, calls[..|calls| - 1], start), Last(calls).url)
    ensures FollowsLinks(c, reply, calls, start)
  {
    hide ProgressOf, Awaits;
    var before := calls[..|calls| - 1];
    forall i | 0 <= i < |calls|
      ensures Awaits(ProgressOf(c, reply, calls[..i], start), calls[i].url)
    {
      if i < |before| { assert before[i] == calls[i] && before[..i] == calls[..i]; }
    }
  }

  /** A fetch that has come to an end on a page has just been brought that page. */
  lemma EndedOnDelivery(c: Config, reply: (nat, string) -> Reply, calls: seq<Call>, start: string)
    requires ValidConfig(c) && FollowsLinks(c, reply, calls, start) && !ProgressOf(c, reply, calls, start).Reading?
    ensures calls != [] && Delivers(reply(|calls| - 1, Last(calls).url))
  {
    PrefixFollowsLinks(c, reply, calls, start);
  }

  // ----- What the delivered bodies amount to -----

  /** The bodies brought, in order. */
  ghost function DeliveredBodies(reply: (nat, string) -> Reply, calls: seq<Call>): seq<Body> {
    if calls == [] then []
    else
      var answer := reply(|calls| - 1, Last(calls).url);
      DeliveredBodies(reply, calls[..|calls| - 1]) + if Delivers(answer) then [answer.body.value] else []
  }

  function AllRecords(bodies: seq<Body>): seq<Record> {
    if bodies == [] then []
    else AllRecords(bodies[..|bodies| - 1]) + if Last(bodies).records.Some? then Last(bodies).records.value else []
  }

  function TotalSize(bodies: seq<Body>): nat {
    if bodies == [] then 0 else TotalSize(bodies[..|bodies| - 1]) + Last(bodies).size
  }

  /** The pagination field that counts in this mode. */
  function LinkField(c: Config, b: Body): Field {
    if c.mode.PathMode? then b.nextPath else if c.mode.CursorMode? then b.nextCursor else Empty
  }

  /** The page's cursor is its pagination field, marked with the mode it is for. */
  predicate Points(c: Config, b: Body, next: Option<Cursor>) {
    match LinkField(c, b)
    case Empty => next.None?
    case Invalid => false
    case Value(text) => next == Some(if c.mode.PathMode? then PathCursor(text) else QueryCursor(text))
  }

  /** The pages taken are these bodies: their records in page and record order, issues numbered through all of
      them, the pages and bytes they come to, and the cursor of the last. */
  ghost predicate Gathers(c: Config, a: Walked, bodies: seq<Body>) {
    && (forall b :: b in bodies ==> b.records.Some?)
    && ListsInOrder(AllRecords(bodies), 0, a.observations, a.issues)
    && a.pages == |bodies| && a.bytes == TotalSize(bodies)
    && if bodies == [] then a.next.None? else Points(c, Last(bodies), a.next)
  }

  ghost predicate Sums(a: Walked, bodies: seq<Body>) {
    && (forall b :: b in bodies ==> b.records.Some?)
    && a.observations == Observations(AllRecords(bodies)) && a.issues == Issues(AllRecords(bodies), 0)
    && a.pages == |bodies| && a.bytes == TotalSize(bodies)
  }

  lemma TakenSums(c: Config, acc: Walked, body: Body, page: Walked, bodies: seq<Body>)
    requires Sums(acc, bodies) && Take(c, acc, body) == Ok(page)
    ensures Sums(Append(acc, page), bodies + [body]) && Points(c, body, page.next)
  {
    var before, records := AllRecords(bodies), body.records.value;
    assert (bodies + [body])[..|bodies|] == bodies && Last(bodies + [body]) == body;
    assert AllRecords(bodies + [body]) == before + records
           && TotalSize(bodies + [body]) == TotalSize(bodies) + body.size;
    hide Observations, Issues, AllRecords, TotalSize, Take;
    RecordsAreSplit(before, 0);
    RecordsConcat(before, records, 0);
  }

  ghost predicate EndsAt(c: Config, a: Walked, bodies: seq<Body>) {
    Sums(a, bodies) && if bodies == [] then a.next.None? else Points(c, Last(bodies), a.next)
  }

  lemma AdvanceSums(c: Config, url: string, acc: Walked, body: Body, bodies: seq<Body>)
    requires EndsAt(c, acc, bodies)
    ensures
      var p := Advance(c, url, acc, body);
      !p.Stopped? ==> EndsAt(c, p.acc, bodies + [body])
  {
    var page := Take(c, acc, body);
    if page.Ok? {
      hide Sums, Points, Take, NextUrl;
      TakenSums(c, acc, body, page.value, bodies);
    }
  }

  lemma {:induction false} ProgressSums(c: Config, reply: (nat, string) -> Reply, calls: seq<Call>, start: string)
    requires ValidConfig(c) && FollowsLinks(c, reply, calls, start)
    ensures
      var p := ProgressOf(c, reply, calls, start);
      !p.Stopped? ==> EndsAt(c, p.acc, DeliveredBodies(reply, calls))
    decreases |calls|
  {
    if calls != [] {
      var init := calls[..|calls| - 1];
      PrefixFollowsLinks(c, reply, calls, start);
      ProgressSums(c, reply, init, start);
      var before := ProgressOf(c, reply, init, start);
      hide EndsAt, FollowsLinks, Delivers, Advance;
      var answer := reply(|calls| - 1, Last(calls).url);
      if Delivers(answer) {
        AdvanceSums(c, before.url, before.acc, answer.body.value, DeliveredBodies(reply, init));
      } else {
        assert DeliveredBodies(reply, calls) == DeliveredBodies(reply, init);
      }
    }
  }

  /** Wherever a fetch stands that was not stopped, what it holds is what the bodies brought amount to. */
  lemma JournalGathers(c: Config, reply: (nat, string) -> Reply, calls: seq<Call>, start: string)
    requires ValidConfig(c) && FollowsLinks(c, reply, calls, start)
    ensures
      var p := ProgressOf(c, reply, calls, start);
      !p.Stopped? ==> Gathers(c, p.acc, DeliveredBodies(reply, calls))
  {
    ProgressSums(c, reply, calls, start);
    var p := ProgressOf(c, reply, calls, start);
    hide FollowsLinks, ProgressOf, Observations, Issues, Lists, Points;
    if !p.Stopped? {
      var usable, unusable := RecordsAreListed(AllRecords(DeliveredBodies(reply, calls)), 0);
    }
  }

  // ----- Where each request goes -----

  /** The body leads from `url` to `next`. */
  predicate LeadsTo(c: Config, url: string, body: Body, next: string) {
    match LinkField(c, body)
    case Value(text) => (if c.mode.PathMode? then c.paginate(url, text) else c.build(Some(text))) == Some(next)
    case _ => false
  }

  /** A request that brought a page is followed by one for the page it leads to; one that did not, by another for the
      same page, and only if the reply asks for it. */
  ghost predicate GoesWhereLed(c: Config, reply: (nat, string) -> Reply, calls: seq<Call>) {
    forall i :: 0 <= i < |calls| - 1 ==> Steps(c, reply(i, calls[i].url), calls[i].url, calls[i + 1].url)
  }

  predicate Steps(c: Config, answer: Reply, url: string, next: string) {
    if Delivers(answer) then LeadsTo(c, url, answer.body.value, next) else next == url && AsksAgain(answer)
  }

  ghost predicate RepeatsWhenAsked(reply: (nat, string) -> Reply, calls: seq<Call>) {
    forall i :: 0 <= i < |calls| - 1 ==> Delivers(reply(i, calls[i].url)) || AsksAgain(reply(i, calls[i].url))
  }

  lemma TriedRepeatsWhenAsked(reply: (nat, string) -> Reply, before: seq<Call>, after: seq<Call>, url: string)
    requires RepeatsWhenAsked(reply, before) && Tried(reply, before, after, url)
    requires before != [] ==> Delivers(reply(|before| - 1, Last(before).url))
    ensures RepeatsWhenAsked(reply, after)
  {
    hide Delivers, AsksAgain;
    forall i | 0 <= i < |after| - 1
      ensures Delivers(reply(i, after[i].url)) || AsksAgain(reply(i, after[i].url))
    {
      if i < |before| { assert before[i] == after[i]; }
    }
  }

  lemma AdvanceLeads(c: Config, url: string, acc: Walked, body: Body)
    ensures
      var p := Advance(c, url, acc, body);
      p.Reading? ==> LeadsTo(c, url, body, p.url)
  {
    hide Observations, Issues, Fits;
  }

  lemma LinksAreFollowed(c: Config, reply: (nat, string) -> Reply, calls: seq<Call>, start: string)
    requires ValidConfig(c) && FollowsLinks(c, reply, calls, start) && RepeatsWhenAsked(reply, calls)
    ensures GoesWhereLed(c, reply, calls) && (calls != [] ==> calls[0].url == start)
  {
    forall i | 0 <= i < |calls| - 1
      ensures Steps(c, reply(i, calls[i].url), calls[i].url, calls[i + 1].url)
    {
      var before, after := calls[..i], calls[..i + 1];
      assert after[..|after| - 1] == before && Last(after) == calls[i];
      assert Awaits(ProgressOf(c, reply, before, start), calls[i].url);
      assert Awaits(ProgressOf(c, reply, after, start), calls[i + 1].url);
      var p, answer := ProgressOf(c, reply, before, start), reply(i, calls[i].url);
      hide Delivers, AsksAgain, LeadsTo, Advance, FollowsLinks;
      if Delivers(answer) { AdvanceLeads(c, p.url, p.acc, answer.body.value); }
    }
    if calls != [] {
      assert calls[..0] == [];
      assert Awaits(ProgressOf(c, reply, calls[..0], start), calls[0].url);
    }
  }

  // ----- The journal and the walk -----

  /** Every page brought is what the server serves. */
  ghost predicate Serves(reply: (nat, string) -> Reply, calls: seq<Call>, server: string -> Body) {
    forall i :: 0 <= i < |calls| ==>
      Delivers(reply(i, calls[i].url)) ==> reply(i, calls[i].url).body == Some(server(calls[i].url))
  }

  /** The URL a page leads to, if it does. */
  function Link(c: Config, body: Body, url: string): Option<string> {
    var page := PageOf(c, body, 0);
    if page.None? || page.value.next.None? then None
    else
      var next := NextUrl(c, url, page.value.next.value);
      if next.Ok? then Some(next.value) else None
  }

  /** The URL of page number k of the walk from `start`. */
  function UrlAt(c: Config, server: string -> Body, start: string, k: nat): Option<string> {
    if k == 0 then Some(start)
    else
      var url := UrlAt(c, server, start, k - 1);
      if url.None? then None else Link(c, server(url.value), url.value)
  }

  /** The walk from `start` may read this URL. */
  ghost predicate Visits(c: Config, server: string -> Body, start: string, url: string) {
    exists k: nat :: k < c.limits.maxPages && UrlAt(c, server, start, k) == Some(url)
  }

  /** The walk from the start cannot be completed within the run limits. */
  ghost predicate OutOfReach(c: Config, server: string -> Body, start: string)
    requires ValidConfig(c)
  {
    var whole := Walk(c, server, start, c.limits.maxPages, 0);
    whole.None? || !Fits(c, whole.value)
  }

  /** The pages taken and those still to come from `url` are the walk from the start, and `url` is its next. */
  ghost predicate OnTrack(c: Config, server: string -> Body, start: string, acc: Walked, url: string) {
    && acc.pages < c.limits.maxPages && UrlAt(c, server, start, acc.pages) == Some(url)
    && Walk(c, server, start, c.limits.maxPages, 0)
       == Continue(c, server, acc, url, c.limits.maxPages - acc.pages, RecordCount(acc))
  }

  /** A fetch against this server stands where the walk over its pages says. */
  ghost predicate Accords(c: Config, server: string -> Body, start: string, p: Progress)
    requires ValidConfig(c)
  {
    match p
    case Reading(url, acc) => OnTrack(c, server, start, acc, url) && Visits(c, server, start, url)
    case Finished(acc) => Walk(c, server, start, c.limits.maxPages, 0) == Some(acc)
    case Stopped(_) => OutOfReach(c, server, start)
  }

  lemma AppendCounts(a: Walked, b: Walked)
    ensures Append(a, b).pages == a.pages + b.pages && Append(a, b).next == b.next
    ensures Append(a, b).bytes == a.bytes + b.bytes
  {
  }

  lemma LastPage(c: Config, server: string -> Body, acc: Walked, url: string, n: nat, offset: nat, page: Walked)
    requires n >= 1 && PageOf(c, server(url), offset) == Some(page)
    requires n == 1 || page.next.None?
    ensures Continue(c, server, acc, url, n, offset) == Some(Append(acc, page))
  {
  }

  lemma WalkStops(c: Config, server: string -> Body, acc: Walked, url: string, n: nat, offset: nat, page: Walked)
    requires n >= 2 && PageOf(c, server(url), offset) == Some(page)
    requires page.next.Some? && NextUrl(c, url, page.next.value).Err?
    ensures Continue(c, server, acc, url, n, offset).None?
  {
  }

  /** A walk holds at least its first page. */
  lemma ContinueCounts(c: Config, server: string -> Body, acc: Walked, url: string, n: nat, offset: nat)
    requires n >= 1 && PageOf(c, server(url), offset).Some?
    ensures
      var page, whole := PageOf(c, server(url), offset).value, Continue(c, server, acc, url, n, offset);
      whole.Some? ==>
        RecordCount(whole.value) >= RecordCount(acc) + RecordCount(page) && whole.value.bytes >= acc.bytes + page.bytes
  {
    hide PageOf, NextUrl;
  }

  lemma LinkIsNext(c: Config, body: Body, url: string, offset: nat)
    requires PageOf(c, body, offset).Some? && PageOf(c, body, offset).value.next.Some?
    requires NextUrl(c, url, PageOf(c, body, offset).value.next.value).Ok?
    ensures Link(c, body, url) == Some(NextUrl(c, url, PageOf(c, body, offset).value.next.value).value)
  {
  }

  /** Reading a page and following its cursor keeps a fetch on the walk from the start, completes the walk,
      or stops where it cannot be completed. */
  lemma StaysOnTrack(c: Config, server: string -> Body, start: string, acc: Walked, url: string)
    requires ValidConfig(c) && OnTrack(c, server, start, acc, url)
    ensures Accords(c, server, start, Advance(c, url, acc, server(url)))
  {
    var page := PageOf(c, server(url), RecordCount(acc));
    if page.Some? {
      AppendCounts(acc, page.value);
      hide PageOf, Append, OutOfReach, OnTrack, Visits, Fits, Take;
      if !Fits(c, Append(acc, page.value)) {
        StopsOverLimit(c, server, start, acc, url, page.value);
      } else if page.value.next.None? || acc.pages + 1 == c.limits.maxPages {
        EndsOnTrack(c, server, start, acc, url, page.value);
      } else {
        GoesOn(c, server, start, acc, url, page.value);
      }
    } else {
      hide PageOf, NextUrl;
    }
  }

  lemma StopsOverLimit(c: Config, server: string -> Body, start: string, acc: Walked, url: string, page: Walked)
    requires ValidConfig(c) && OnTrack(c, server, start, acc, url)
             && PageOf(c, server(url), RecordCount(acc)) == Some(page)
    requires !Fits(c, Append(acc, page))
    ensures OutOfReach(c, server, start)
  {
    hide Walk, PageOf, Continue;
    ContinueCounts(c, server, acc, url, c.limits.maxPages - acc.pages, RecordCount(acc));
  }

  lemma EndsOnTrack(c: Config, server: string -> Body, start: string, acc: Walked, url: string, page: Walked)
    requires ValidConfig(c) && OnTrack(c, server, start, acc, url)
             && PageOf(c, server(url), RecordCount(acc)) == Some(page)
    requires page.next.None? || acc.pages + 1 == c.limits.maxPages
    ensures Walk(c, server, start, c.limits.maxPages, 0) == Some(Append(acc, page))
  {
    hide Walk, PageOf, Continue, Append;
    LastPage(c, server, acc, url, c.limits.maxPages - acc.pages, RecordCount(acc), page);
  }

  lemma GoesOn(c: Config, server: string -> Body, start: string, acc: Walked, url: string, page: Walked)
    requires ValidConfig(c) && OnTrack(c, server, start, acc, url)
             && PageOf(c, server(url), RecordCount(acc)) == Some(page)
    requires page.next.Some? && acc.pages + 1 < c.limits.maxPages && page.pages == 1
    ensures
      match NextUrl(c, url, page.next.value)
      case Ok(next) => OnTrack(c, server, start, Append(acc, page), next) && Visits(c, server, start, next)
      case Err(_) => OutOfReach(c, server, start)
  {
    var left, offset := c.limits.maxPages - acc.pages, RecordCount(acc);
    AppendCounts(acc, page);
    hide Walk, PageOf, NextUrl, Continue, Append, Link, Visits;
    if NextUrl(c, url, page.next.value).Ok? {
      WalkOneMore(c, server, acc, url, left, offset, page);
      LinkIsNext(c, server(url), url, offset);
      VisitsNext(c, server, start, acc.pages, url);
    } else {
      WalkStops(c, server, acc, url, left, offset, page);
    }
  }

  lemma VisitsNext(c: Config, server: string -> Body, start: string, k: nat, url: string)
    requires k + 1 < c.limits.maxPages && UrlAt(c, server, start, k) == Some(url) && Link(c, server(url), url).Some?
    ensures UrlAt(c, server, start, k + 1) == Link(c, server(url), url)
    ensures Visits(c, server, start, Link(c, server(url), url).value)
  {
    hide Link;
    assert UrlAt(c, server, start, k + 1) == Link(c, server(url), url);
  }

  lemma StartsOnTrack(c: Config, server: string -> Body, start: string)
    requires ValidConfig(c)
    ensures Accords(c, server, start, Reading(start, NOTHING))
  {
    ContinueFromNothing(c, server, start, c.limits.maxPages);
    hide Walk, Continue;
    assert UrlAt(c, server, start, 0) == Some(start);
  }

  /** Any fetch that follows the links of a server's pages stands where the walk over them says. */
  lemma {:induction false} JournalFollowsTheWalk(c: Config, reply: (nat, string) -> Reply, calls: seq<Call>,
                                                 start: string, server: string -> Body)
    requires ValidConfig(c) && FollowsLinks(c, reply, calls, start) && Serves(reply, calls, server)
    ensures Accords(c, server, start, ProgressOf(c, reply, calls, start))
    decreases |calls|
  {
    if calls == [] {
      StartsOnTrack(c, server, start);
    } else {
      PrefixFollowsLinks(c, reply, calls, start);
      var before := ProgressOf(c, reply, calls[..|calls| - 1], start);
      PrefixServes(reply, calls, server);
      JournalFollowsTheWalk(c, reply, calls[..|calls| - 1], start, server);
      hide Advance, OnTrack, Visits, FollowsLinks, Serves, Delivers;
      StaysOnTrack(c, server, start, before.acc, before.url);
    }
  }

  lemma PrefixServes(reply: (nat, string) -> Reply, calls: seq<Call>, server: string -> Body)
    requires calls != [] && Serves(reply, calls, server)
    ensures Serves(reply, calls[..|calls| - 1], server)
    ensures
      var answer := reply(|calls| - 1, Last(calls).url);
      Delivers(answer) ==> answer.body == Some(server(Last(calls).url))
  {
  }

  lemma ServesOneMore(reply: (nat, string) -> Reply, calls: seq<Call>, server: string -> Body)
    requires calls != [] && Serves(reply, calls[..|calls| - 1], server)
    requires
      var answer := reply(|calls| - 1, Last(calls).url);
      Delivers(answer) ==> answer.body == Some(server(Last(calls).url))
    ensures Serves(reply, calls, server)
  {
    var before := calls[..|calls| - 1];
    hide Delivers;
    forall i | 0 <= i < |before| && Delivers(reply(i, calls[i].url))
      ensures reply(i, calls[i].url).body == Some(server(calls[i].url))
    {
      assert before[i] == calls[i];
    }
  }

  // ----- The page loop -----

  ghost function LastBody(w: World): Body
    requires w.calls != [] && Delivers(w.LastReply())
    reads w`calls
  {
    w.LastReply().body.value
  }

  /** Request one page and take it. */
  method FetchPage(c: Config, url: string, secret: Option<Secret>, acc: Walked, budget: FetchBudget, w: World)
    returns (r: Result<(Walked, nat, Option<Secret>), Failure>)
    requires ValidConfig(c) && budget.Balanced(c, w)
    requires w.calls == [] || Delivers(w.LastReply())
    modifies budget, w
    ensures budget.Bounded(c, w) && budget.retriesUsed >= old(budget.retriesUsed) && w.readings >= old(w.readings)
    ensures w.attempts - old(w.attempts) <= budget.Paid() - old(budget.Paid()) + 1
    ensures Tried(w.reply, old(w.calls), w.calls, url) && CarriesSecret(c, w, w.calls, |old(w.calls)|, secret)
    ensures r.Ok? ==>
      && budget.Balanced(c, w) && !w.Late(budget.deadline)
      && w.attempts - old(w.attempts) == budget.Paid() - old(budget.Paid()) + 1
      && r.value.1 == budget.retriesUsed - old(budget.retriesUsed)
      && |w.calls| > |old(w.calls)| && Delivers(w.LastReply()) && Last(w.calls).secret == r.value.2
      && Take(c, acc, LastBody(w)) == Ok(r.value.0)
    ensures r.Err? ==>
      || (r.error == ELAPSED && w.Late(budget.deadline))
      || (RequestFailed(c, w, budget.deadline, secret, url, r.error) && Fruitless(w, old(w.calls)))
      || (|w.calls| > |old(w.calls)| && Delivers(w.LastReply()) && Take(c, acc, LastBody(w)) == Err(r.error))
  {
    hide Take, Total, Orderly, RequestFailed, Tried, CarriesSecret;
    var reply := RequestJson(url, c, secret, budget, w);
    if reply.Err? { return Err(reply.error); }
    var page := TakePage(c, reply.value.0, acc, budget, w);
    if page.Err? { return Err(page.error); }
    return Ok((page.value, reply.value.1, reply.value.2));
  }

  /** The bounds one fetch keeps on everything it did, however it ends: each request and each sleep is
      measured against the deadline. */
  ghost predicate WithinBudget(c: Config, w: World, deadline: real)
    reads w
  {
    && w.attempts == |w.calls| <= c.limits.maxPages + c.maxRetries + 1
    && w.refreshes <= 1
    && |w.sleeps| <= c.maxRetries
    && Total(w.sleeps) <= c.maxRetryAfter
    && Orderly(c, w, deadline)
  }

  /** What the pages read say of the fetch: every attempt was a page, a counted retry or the one
      refresh, every counted retry slept once, and the run limits were kept. */
  ghost predicate Accounts(c: Config, w: World, a: Walked, retries: nat)
    reads w
  {
    && w.attempts == a.pages + retries + w.refreshes
    && |w.sleeps| == retries
    && 1 <= a.pages <= c.limits.maxPages && Fits(c, a)
  }

  /** Where the fetch stands now. */
  ghost function Standing(c: Config, w: World, start: string): Progress
    requires ValidConfig(c)
    reads w`calls
  {
    ProgressOf(c, w.reply, w.calls, start)
  }

  /** Every way a fetch that got its first URL can fail: out of time, by the request for the page it had got
      to, or by what the last page held. */
  ghost predicate FetchFailed(c: Config, w: World, deadline: real, secret: Option<Secret>, start: string, f: Failure)
    requires ValidConfig(c)
    reads w
  {
    (f == ELAPSED && w.Late(deadline)) ||
    match Standing(c, w, start)
    case Reading(url, _) => RequestFailed(c, w, deadline, secret, url, f)
    case Finished(_) => false
    case Stopped(failure) => f == failure
  }

  lemma LastIsUsable(c: Config, w: World, deadline: real)
    requires Orderly(c, w, deadline) && w.calls != []
    ensures !LacksCredentials(c, Last(w.calls).secret)
  {
  }

  /** Credentials that have served are not a later request's failure. */
  lemma FailsWithFirstSecret(c: Config, w: World, deadline: real, held: Option<Secret>, secret: Option<Secret>,
                             url: string, f: Failure)
    requires ValidConfig(c) && RequestFailed(c, w, deadline, held, url, f)
             && (held == secret || !LacksCredentials(c, held))
    ensures RequestFailed(c, w, deadline, secret, url, f)
  {
    hide ReplyFailed, MetUnreadableDelay, LacksCredentials;
  }

  lemma TriedIsLast(w: World, before: seq<Call>, url: string)
    requires Tried(w.reply, before, w.calls, url)
    ensures |w.calls| >= |before|
    ensures |w.calls| > |before| ==> Last(w.calls).url == url
  {
  }

  /** What one page's requests, and the page if they brought one, make of the fetch. */
  lemma PageTried(c: Config, w: World, before: seq<Call>, start: string, acc: Walked, url: string)
    requires ValidConfig(c) && Tried(w.reply, before, w.calls, url)
    requires FollowsLinks(c, w.reply, before, start) && ProgressOf(c, w.reply, before, start) == Reading(url, acc)
    ensures FollowsLinks(c, w.reply, w.calls, start)
    ensures Fruitless(w, before) ==> Standing(c, w, start) == Reading(url, acc)
    ensures |w.calls| > |before| && Delivers(w.LastReply()) ==>
            Standing(c, w, start) == Advance(c, url, acc, LastBody(w))
  {
    TriedIsLast(w, before, url);
    hide Advance, FollowsLinks, ProgressOf, Delivers, Tried;
    TriedAdvancesOnce(c, w.reply, before, w.calls, start, url);
  }

  /** Credentials that brought one page serve for the next. */
  lemma SecretCarriesOn(c: Config, w: World, before: seq<Call>, url: string, secret: Option<Secret>,
                        held: Option<Secret>)
    requires Tried(w.reply, before, w.calls, url) && CarriesSecret(c, w, before, 0, secret)
    requires CarriesSecret(c, w, w.calls, |before|, held)
    requires held == if before == [] then secret else Last(before).secret
    requires before != [] ==> Delivers(w.reply(|before| - 1, Last(before).url))
    ensures CarriesSecret(c, w, w.calls, 0, secret)
  {
    hide Delivers;
    forall i | 0 <= i < |w.calls|
      ensures w.calls[i].secret == SecretFor(c, w, w.calls, 0, secret, i)
    {
      assert 0 < i <= |before| ==> w.calls[i - 1] == before[i - 1];
      assert i < |before| ==> w.calls[i] == before[i];
    }
  }

  /** Why a page could not be had, in terms of the whole fetch. */
  lemma PageFailed(c: Config, w: World, deadline: real, held: Option<Secret>, secret: Option<Secret>, before: seq<Call>,
                   start: string, acc: Walked, url: string, f: Failure)
    requires ValidConfig(c) && (held == secret || !LacksCredentials(c, held))
    requires Fruitless(w, before) ==> Standing(c, w, start) == Reading(url, acc)
    requires |w.calls| > |before| && Delivers(w.LastReply()) ==>
             Standing(c, w, start) == Advance(c, url, acc, LastBody(w))
    requires
      || (f == ELAPSED && w.Late(deadline))
      || (RequestFailed(c, w, deadline, held, url, f) && Fruitless(w, before))
      || (|w.calls| > |before| && Delivers(w.LastReply()) && Take(c, acc, LastBody(w)) == Err(f))
    ensures FetchFailed(c, w, deadline, secret, start, f)
  {
    hide LacksCredentials, RequestFailed, Standing, Take, Delivers;
    if RequestFailed(c, w, deadline, held, url, f) && Fruitless(w, before) {
      FailsWithFirstSecret(c, w, deadline, held, secret, url, f);
    }
  }

  /** The page loop, from its first URL. */
  method FetchFrom(c: Config, start: string, secret: Option<Secret>, budget: FetchBudget, w: World)
    returns (r: Result<Walked, Failure>, totalRetries: nat)
    requires ValidConfig(c) && budget.Balanced(c, w) && w.calls == [] && budget.Paid() == 0
    modifies budget, w
    ensures WithinBudget(c, w, budget.deadline) && w.readings >= old(w.readings)
    ensures FollowsLinks(c, w.reply, w.calls, start) && CarriesSecret(c, w, w.calls, 0, secret)
    ensures RepeatsWhenAsked(w.reply, w.calls)
    ensures r.Ok? ==> Accounts(c, w, r.value, totalRetries) && !w.Late(budget.deadline) && !MetUnreadableDelay(w)
    ensures r.Ok? ==> Standing(c, w, start) == Finished(r.value)
    ensures r.Err? ==> FetchFailed(c, w, budget.deadline, secret, start, r.error)
  {
    hide NextUrl, Total, Append, WithinBudget, Accounts, RequestFailed, Take, Fits, Delivers;
    hide Orderly, LacksCredentials, FollowsLinks, Tried, MetUnreadableDelay, CarriesSecret, RepeatsWhenAsked;
    var url, held, acc := start, secret, NOTHING;
    totalRetries := 0;
    NothingFollowed(c, w.reply, start);
    NothingTried(c, w, start, secret);
    NothingRepeated(w.reply);
    while true
      invariant budget.Balanced(c, w) && w.readings >= old(w.readings)
      invariant FollowsLinks(c, w.reply, w.calls, start) && Standing(c, w, start) == Reading(url, acc)
      invariant w.attempts == acc.pages + budget.Paid()
      invariant totalRetries == budget.retriesUsed && acc.pages < c.limits.maxPages
      invariant w.calls == [] || Delivers(w.LastReply())
      invariant held == secret || !LacksCredentials(c, held)
      invariant CarriesSecret(c, w, w.calls, 0, secret) && RepeatsWhenAsked(w.reply, w.calls)
      invariant held == if w.calls == [] then secret else Last(w.calls).secret
      decreases c.limits.maxPages - acc.pages
    {
      ghost var before := w.calls;
      var fetched := FetchPage(c, url, held, acc, budget, w);
      PageTried(c, w, before, start, acc, url);
      SecretCarriesOn(c, w, before, url, secret, held);
      TriedRepeatsWhenAsked(w.reply, before, w.calls, url);
      BoundedIsWithinBudget(c, budget, w);
      if fetched.Err? {
        PageFailed(c, w, budget.deadline, held, secret, before, start, acc, url, fetched.error);
        return Err(fetched.error), totalRetries;
      }
      var page := fetched.value.0;
      held, totalRetries := fetched.value.2, totalRetries + fetched.value.1;
      LastIsUsable(c, w, budget.deadline);
      TakenCounts(c, acc, LastBody(w), page);
      acc := Append(acc, page);
      if page.next.None? || acc.pages >= c.limits.maxPages {
        AccountsHold(c, acc, budget, w);
        return Ok(acc), totalRetries;
      }
      var next := NextUrl(c, url, page.next.value);
      if next.Err? { return Err(next.error), totalRetries; }
      url := next.value;
    }
  }

  lemma NothingRepeated(reply: (nat, string) -> Reply)
    ensures RepeatsWhenAsked(reply, [])
  {
  }

  lemma NothingFollowed(c: Config, reply: (nat, string) -> Reply, start: string)
    requires ValidConfig(c)
    ensures FollowsLinks(c, reply, [], start) && ProgressOf(c, reply, [], start) == Reading(start, NOTHING)
  {
  }

  lemma TakenCounts(c: Config, acc: Walked, body: Body, page: Walked)
    requires Take(c, acc, body) == Ok(page)
    ensures Append(acc, page).pages == acc.pages + 1 <= c.limits.maxPages && Append(acc, page).next == page.next
    ensures Fits(c, Append(acc, page))
  {
    hide Take, Fits;
  }

  lemma AccountsHold(c: Config, a: Walked, budget: FetchBudget, w: World)
    requires budget.Balanced(c, w) && w.attempts == a.pages + budget.Paid()
    requires 1 <= a.pages <= c.limits.maxPages && Fits(c, a) && w.calls != [] && Delivers(w.LastReply())
    ensures Accounts(c, w, a, budget.retriesUsed) && !MetUnreadableDelay(w)
  {
    hide Fits, Orderly, Total;
  }

  lemma BoundedIsWithinBudget(c: Config, budget: FetchBudget, w: World)
    requires budget.Bounded(c, w)
    requires w.attempts <= c.limits.maxPages + c.maxRetries + 1
    ensures WithinBudget(c, w, budget.deadline)
  {
  }

  // ----- The whole fetch -----

  /** A page the walk may read is not denied, and every request for it brings what the server serves. */
  ghost predicate Available(w: World, server: string -> Body, url: string) {
    forall n: nat :: !w.denied(n, url) && Delivers(w.reply(n, url)) && w.reply(n, url).body == Some(server(url))
  }

  /** Nothing stood in the fetch's way: no clock reading from number `from` on reached the deadline, the
      credentials will do, and every page of the walk was to be had. */
  ghost predicate Cooperates(c: Config, w: World, from: nat, deadline: real, secret: Option<Secret>,
                             server: string -> Body, checkpoint: Checkpoint)
    reads w`readings
  {
    && (forall i :: from <= i < w.readings ==> w.clock(i) < deadline)
    && (c.authenticated ==> secret.Some? && secret.value.complete)
    && var start := StartUrl(c, checkpoint.cursor);
       start.Ok? ==> forall url :: Visits(c, server, start.value, url) ==> Available(w, server, url)
  }

  /** It takes no more than a policy and a server that know the pages reached by links: whatever else is denied
      or fails, the pages of the walk are to be had. */
  lemma {:induction false} LinkedPagesSuffice(c: Config, w: World, server: string -> Body, start: string,
                                              pages: iset<string>)
    requires start in pages && forall url :: url in pages ==> Available(w, server, url)
    requires forall url :: url in pages && Link(c, server(url), url).Some? ==> Link(c, server(url), url).value in pages
    ensures forall url :: Visits(c, server, start, url) ==> Available(w, server, url)
  {
    hide Link, Available;
    forall k: nat
      ensures UrlAt(c, server, start, k).Some? ==> UrlAt(c, server, start, k).value in pages
    {
      UrlIsLinked(c, server, start, pages, k);
    }
  }

  lemma {:induction false} UrlIsLinked(c: Config, server: string -> Body, start: string, pages: iset<string>, k: nat)
    requires start in pages
    requires forall url :: url in pages && Link(c, server(url), url).Some? ==> Link(c, server(url), url).value in pages
    ensures UrlAt(c, server, start, k).Some? ==> UrlAt(c, server, start, k).value in pages
  {
    hide Link;
    if k > 0 { UrlIsLinked(c, server, start, pages, k - 1); }
  }

  /** Every way a fetch can fail. */
  ghost predicate Explained(c: Config, w: World, deadline: real, checkpoint: Checkpoint, secret: Option<Secret>,
                            f: Failure)
    requires ValidConfig(c)
    reads w
  {
    var start := StartUrl(c, checkpoint.cursor);
    if start.Err? then f == start.error && w.calls == []
    else if c.authenticated && secret.None? then f == CredentialFailure(None) && w.calls == []
    else FetchFailed(c, w, deadline, secret, start.value, f)
  }

  lemma NothingSent(c: Config, w: World, deadline: real)
    requires w.Idle() && ValidConfig(c)
    ensures WithinBudget(c, w, deadline) && !MetUnreadableDelay(w) && Orderly(c, w, deadline)
    ensures Total(w.sleeps) == 0.0
  {
  }

  /** A cooperating world serves the pages it is asked for. */
  lemma {:induction false} CooperationServes(c: Config, w: World, calls: seq<Call>, start: string,
                                             server: string -> Body)
    requires ValidConfig(c) && FollowsLinks(c, w.reply, calls, start)
    requires forall url :: Visits(c, server, start, url) ==> Available(w, server, url)
    ensures Serves(w.reply, calls, server)
    decreases |calls|
  {
    if calls != [] {
      PrefixFollowsLinks(c, w.reply, calls, start);
      CooperationServes(c, w, calls[..|calls| - 1], start, server);
      JournalFollowsTheWalk(c, w.reply, calls[..|calls| - 1], start, server);
      hide Visits, OnTrack, FollowsLinks, ProgressOf, Serves, Delivers;
      assert Available(w, server, Last(calls).url);
      ServesOneMore(w.reply, calls, server);
    }
  }

  /** The request for an available page does not fail while there is time. */
  lemma RequestsSucceed(c: Config, w: World, deadline: real, secret: Option<Secret>, server: string -> Body,
                        url: string, f: Failure)
    requires ValidConfig(c) && !w.Late(deadline) && !LacksCredentials(c, secret) && Available(w, server, url)
    ensures !RequestFailed(c, w, deadline, secret, url, f)
  {
    hide RetryFailed;
    if w.calls != [] && Last(w.calls).url == url { assert Delivers(w.reply(|w.calls| - 1, url)); }
  }

  /** Where nothing stands in its way, a fetch fails only if the walk cannot be completed. */
  lemma CooperationFails(c: Config, w: World, from: nat, deadline: real, secret: Option<Secret>, server: string -> Body,
                         checkpoint: Checkpoint, f: Failure)
    requires ValidConfig(c) && w.readings > from && StartUrl(c, checkpoint.cursor).Ok?
    requires FollowsLinks(c, w.reply, w.calls, StartUrl(c, checkpoint.cursor).value)
    requires FetchFailed(c, w, deadline, secret, StartUrl(c, checkpoint.cursor).value, f)
    requires Cooperates(c, w, from, deadline, secret, server, checkpoint)
    ensures OutOfReach(c, server, StartUrl(c, checkpoint.cursor).value)
  {
    var start := StartUrl(c, checkpoint.cursor).value;
    CooperationServes(c, w, w.calls, start, server);
    JournalFollowsTheWalk(c, w.reply, w.calls, start, server);
    hide RequestFailed, OutOfReach, Visits, OnTrack, FollowsLinks, ProgressOf, Available, StartUrl;
    assert !w.Late(deadline);
    var p := Standing(c, w, start);
    if p.Reading? { RequestsSucceed(c, w, deadline, secret, server, p.url, f); }
  }

  /** What a failed fetch's failure says. */
  lemma FailureIsExact(c: Config, w: World, deadline: real, secret: Option<Secret>, start: string, f: Failure)
    requires ValidConfig(c) && |w.sleeps| <= c.maxRetries && FollowsLinks(c, w.reply, w.calls, start)
    requires FetchFailed(c, w, deadline, secret, start, f)
    ensures f.kind.Unhandled? <==> MetUnreadableDelay(w) && |w.sleeps| < c.maxRetries && !w.Late(deadline)
    ensures f.retryable ==>
      |w.sleeps| == c.maxRetries && w.calls != [] && Judge(w.LastReply(), c.maxRetryAfter).TryAgain?
    ensures f.kind.Authentication? ==>
      || (c.authenticated && !(secret.Some? && secret.value.complete))
      || (w.calls != [] && Judge(w.LastReply(), c.maxRetryAfter).Refresh? && (!c.refreshable || w.refreshes == 1))
  {
    var p := Standing(c, w, start);
    hide RequestFailed, LacksCredentials, Judge, FollowsLinks, ProgressOf;
    if f == ELAPSED && w.Late(deadline) {
    } else if p.Reading? {
      UnhandledExactly(c, w, deadline, secret, p.url, f);
      if f.retryable { RetryableMeansExhausted(c, w, deadline, secret, p.url, f); }
      if f.kind.Authentication? { AuthenticationMeansRefused(c, w, deadline, secret, p.url, f); }
    } else {
      EndedOnDelivery(c, w.reply, w.calls, start);
      DeliveredIsReadable(w);
    }
  }

  lemma DeliveredIsReadable(w: World)
    requires w.calls != [] && Delivers(w.LastReply())
    ensures !MetUnreadableDelay(w)
  {
  }

  /** `_fetch`.  `server` names, for the contract only, what a deterministic server serves. */
  method Fetch(c: Config, checkpoint: Checkpoint, secret: Option<Secret>, w: World, ghost server: string -> Body)
    returns (r: Result<Page, Failure>)
    requires ValidConfig(c) && w.Idle()
    modifies w
    ensures WithinBudget(c, w, w.clock(old(w.readings)) + c.limits.timeout)
    ensures
      var start := StartUrl(c, checkpoint.cursor);
      if start.Err? then w.calls == []
      else
        && FollowsLinks(c, w.reply, w.calls, start.value) && CarriesSecret(c, w, w.calls, 0, secret)
        && GoesWhereLed(c, w.reply, w.calls) && (w.calls != [] ==> StartsAt(c, checkpoint.cursor, w.calls[0].url))
        && (Serves(w.reply, w.calls, server) ==> Accords(c, server, start.value, Standing(c, w, start.value)))
    ensures r.Ok? ==>
      && StartUrl(c, checkpoint.cursor).Ok?
      && var p := Standing(c, w, StartUrl(c, checkpoint.cursor).value);
         p.Finished? && r.value == PageFrom(p.acc, checkpoint, r.value.retryCount)
    ensures r.Ok? ==> Reports(c, r.value, checkpoint, DeliveredBodies(w.reply, w.calls))
    ensures r.Ok? ==>
      && w.attempts == r.value.pagesRead + r.value.retryCount + w.refreshes
      && |w.sleeps| == r.value.retryCount
      && 1 <= r.value.pagesRead <= c.limits.maxPages && PageFits(c, r.value)
      && !w.Late(w.clock(old(w.readings)) + c.limits.timeout)
    ensures r.Ok? && Serves(w.reply, w.calls, server) ==>
      FetchPages(c, server, checkpoint, c.limits.maxPages) == Some(r.value.(retryCount := 0))
    ensures r.Err? ==> Explained(c, w, w.clock(old(w.readings)) + c.limits.timeout, checkpoint, secret, r.error)
    ensures r.Err? && r.error.kind.Unhandled? <==>
            MetUnreadableDelay(w) && |w.sleeps| < c.maxRetries && !w.Late(w.clock(old(w.readings)) + c.limits.timeout)
    ensures r.Err? && r.error.retryable ==>
      |w.sleeps| == c.maxRetries && w.calls != [] && Judge(w.LastReply(), c.maxRetryAfter).TryAgain?
    ensures r.Err? && r.error.kind.Authentication? ==>
      || (c.authenticated && !(secret.Some? && secret.value.complete))
      || (w.calls != [] && Judge(w.LastReply(), c.maxRetryAfter).Refresh? && (!c.refreshable || w.refreshes == 1))
    ensures Cooperates(c, w, old(w.readings), w.clock(old(w.readings)) + c.limits.timeout, secret, server,
                       checkpoint) ==>
      var whole := FetchPages(c, server, checkpoint, c.limits.maxPages);
      r.Ok? <==> whole.Some? && PageFits(c, whole.value)
  {
    hide Serves, Walk, Orderly, Total, FetchFailed, MetUnreadableDelay, Cooperates, Judge, FollowsLinks, ProgressOf,
         OnTrack;
    hide Visits, StartUrl, LacksCredentials, CarriesSecret, RepeatsWhenAsked, GoesWhereLed, Reports, StartsAt;
    ghost var from := w.readings;
    NothingSent(c, w, w.clock(from) + c.limits.timeout);
    var start := StartUrl(c, checkpoint.cursor);
    StartIsExact(c, checkpoint.cursor);
    if start.Err? { return Err(start.error); }
    NothingFollowed(c, w.reply, start.value);
    NothingRepeated(w.reply);
    LinksAreFollowed(c, w.reply, [], start.value);
    NothingTried(c, w, start.value, secret);
    var now := w.Monotonic();
    var budget := new FetchBudget(now + c.limits.timeout, c.maxRetries, c.maxRetryAfter);
    if c.authenticated && secret.None? {
      StartsOnTrack(c, server, start.value);
      WithoutSecretNoCooperation(c, w, from, budget.deadline, secret, server, checkpoint);
      return Err(CredentialFailure(None));
    }
    var walked, totalRetries := FetchFrom(c, start.value, secret, budget, w);
    JournalOfTheFetch(c, w, from, budget.deadline, secret, server, checkpoint);
    LinksAreFollowed(c, w.reply, w.calls, start.value);
    if walked.Err? {
      FailureIsExact(c, w, budget.deadline, secret, start.value, walked.error);
      if Cooperates(c, w, from, budget.deadline, secret, server, checkpoint) {
        CooperationFails(c, w, from, budget.deadline, secret, server, checkpoint, walked.error);
      }
      return Err(walked.error);
    }
    PageReports(c, w, start.value, walked.value, checkpoint, totalRetries);
    r := Ok(PageFrom(walked.value, checkpoint, totalRetries));
  }

  /** The page reported, told on the bodies delivered: their records in page and record order, and the cursor that
      the last body holds, which is left only for want of further pages allowed. */
  ghost predicate Reports(c: Config, page: Page, checkpoint: Checkpoint, bodies: seq<Body>) {
    && bodies != [] && ListsInOrder(AllRecords(bodies), 0, page.observations, page.issues)
    && page.pagesRead == |bodies| && page.bytes == TotalSize(bodies)
    && match LinkField(c, Last(bodies))
       case Invalid => false
       case Empty => !page.hasMore && page.next == Checkpoint(None, checkpoint.highWater)
       case Value(text) =>
         && page.hasMore && page.pagesRead == c.limits.maxPages
         && page.next == Checkpoint(Some(if c.mode.PathMode? then PathCursor(text) else QueryCursor(text)), None)
  }

  lemma PageReports(c: Config, w: World, start: string, a: Walked, checkpoint: Checkpoint, retries: nat)
    requires ValidConfig(c) && FollowsLinks(c, w.reply, w.calls, start) && Standing(c, w, start) == Finished(a)
    requires 1 <= a.pages <= c.limits.maxPages
    ensures Reports(c, PageFrom(a, checkpoint, retries), checkpoint, DeliveredBodies(w.reply, w.calls))
  {
    JournalGathers(c, w.reply, w.calls, start);
    hide FollowsLinks, ProgressOf, ListsInOrder, DeliveredBodies, AllRecords, TotalSize;
  }

  lemma WithoutSecretNoCooperation(c: Config, w: World, from: nat, deadline: real, secret: Option<Secret>,
                                   server: string -> Body, checkpoint: Checkpoint)
    requires c.authenticated && secret.None?
    ensures !Cooperates(c, w, from, deadline, secret, server, checkpoint)
  {
  }

  lemma JournalOfTheFetch(c: Config, w: World, from: nat, deadline: real, secret: Option<Secret>,
                          server: string -> Body, checkpoint: Checkpoint)
    requires ValidConfig(c) && StartUrl(c, checkpoint.cursor).Ok?
    requires FollowsLinks(c, w.reply, w.calls, StartUrl(c, checkpoint.cursor).value)
    ensures
      var start := StartUrl(c, checkpoint.cursor).value;
      Serves(w.reply, w.calls, server) ==> Accords(c, server, start, Standing(c, w, start))
    ensures Cooperates(c, w, from, deadline, secret, server, checkpoint) ==> Serves(w.reply, w.calls, server)
  {
    var start := StartUrl(c, checkpoint.cursor).value;
    hide Accords, FollowsLinks, ProgressOf, Visits, Available, StartUrl;
    if Cooperates(c, w, from, deadline, secret, server, checkpoint) {
      CooperationServes(c, w, w.calls, start, server);
    }
    hide Serves;
    if Serves(w.reply, w.calls, server) { JournalFollowsTheWalk(c, w.reply, w.calls, start, server); }
  }
}
