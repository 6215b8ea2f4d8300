/** Resuming a fetch from its checkpoint against fetching everything at once. */
module HttpsResume {
  import opened Common
  import opened HttpsTelemetry
  import opened HttpsPages
  import opened TelemetryEgress

  function ShiftIssues(issues: seq<Issue>, offset: nat): (s: seq<Issue>)
    ensures |s| == |issues| && forall i :: 0 <= i < |issues| ==>
            s[i] == Issue(issues[i].recordIndex + offset, issues[i].code)
  {
    seq(|issues|, i requires 0 <= i < |issues| => Issue(issues[i].recordIndex + offset, issues[i].code))
  }

  function ShiftWalked(a: Walked, offset: nat): Walked {
    a.(issues := ShiftIssues(a.issues, offset))
  }

  lemma {:induction false} IssuesShift(records: seq<Record>, offset: nat, more: nat)
    ensures Issues(records, offset + more) == ShiftIssues(Issues(records, offset), more)
  {
    if records != [] { IssuesShift(records[..|records| - 1], offset, more); }
  }

  lemma PageShift(c: Config, server: string -> Body, url: string, offset: nat, more: nat)
    ensures PageAt(c, server, url, offset + more) ==
            if PageAt(c, server, url, offset).None? then None
            else Some(ShiftWalked(PageAt(c, server, url, offset).value, more))
  {
    if server(url).records.Some? { IssuesShift(server(url).records.value, offset, more); }
  }

  lemma AppendShift(a: Walked, b: Walked, more: nat)
    ensures ShiftWalked(Append(a, b), more) == Append(ShiftWalked(a, more), ShiftWalked(b, more))
  {
  }

  /** Numbering records from later on changes the issue indexes by that much and nothing else. */
  lemma {:induction false} WalkShift(c: Config, server: string -> Body, url: string, n: nat, offset: nat, more: nat)
    requires n >= 1
    ensures Walk(c, server, url, n, offset + more) ==
            if Walk(c, server, url, n, offset).None? then None
            else Some(ShiftWalked(Walk(c, server, url, n, offset).value, more))
    decreases n
  {
    hide PageAt, NextUrl;
    PageShift(c, server, url, offset, more);
    var page := PageAt(c, server, url, offset);
    if page.Some? && page.value.next.Some? && n > 1 {
      var next := NextUrl(c, url, page.value.next.value);
      if next.Ok? {
        WalkShift(c, server, next.value, n - 1, offset + RecordCount(page.value), more);
        var rest := Walk(c, server, next.value, n - 1, offset + RecordCount(page.value));
        if rest.Some? { AppendShift(page.value, rest.value, more); }
      }
    }
  }

  /** The URL of the last page a walk reads. */
  function LastUrl(c: Config, server: string -> Body, url: string, n: nat): string
    requires n >= 1
    decreases n
  {
    var page := PageAt(c, server, url, 0);
    if page.None? || page.value.next.None? || n == 1 then url
    else
      var next := NextUrl(c, url, page.value.next.value);
      if next.Err? then url else LastUrl(c, server, next.value, n - 1)
  }

  /** A walk of m + n pages is a walk of m, and then, from where its last page points, one of n. */
  lemma {:induction false} WalkSplits(c: Config, server: string -> Body, url: string, m: nat, n: nat, offset: nat)
    requires m >= 1 && n >= 1
    ensures
      var first := Walk(c, server, url, m, offset);
      Walk(c, server, url, m + n, offset) ==
        if first.None? || first.value.next.None? then first
        else
          var next := NextUrl(c, LastUrl(c, server, url, m), first.value.next.value);
          if next.Err? then None else Continue(c, server, first.value, next.value, n, offset + RecordCount(first.value))
    decreases m
  {
    hide NextUrl, PageAt;
    PageShift(c, server, url, 0, offset);
    var page := PageAt(c, server, url, offset);
    if page.Some? && page.value.next.Some? && m > 1 {
      var next := NextUrl(c, url, page.value.next.value);
      if next.Ok? {
        var after := offset + RecordCount(page.value);
        WalkSplits(c, server, next.value, m - 1, n, after);
        var rest := Walk(c, server, next.value, m - 1, after);
        if rest.Some? && rest.value.next.Some? {
          assert RecordCount(Append(page.value, rest.value)) == RecordCount(page.value) + RecordCount(rest.value);
          var further := NextUrl(c, LastUrl(c, server, next.value, m - 1), rest.value.next.value);
          if further.Ok? {
            var tail := Walk(c, server, further.value, n, after + RecordCount(rest.value));
            if tail.Some? { AppendIsAssociative(page.value, rest.value, tail.value); }
          }
        }
      }
    }
  }

  /** What the two parts of an interrupted fetch amount to: the second's records are numbered after
      the first's, and its checkpoint is the final one. */
  function Join(a: Page, b: Page): Page {
    Page(a.observations + b.observations, a.issues + ShiftIssues(b.issues, |a.observations| + |a.issues|),
         b.next, b.hasMore, a.pagesRead + b.pagesRead, a.bytes + b.bytes, a.retryCount + b.retryCount)
  }

  function WithoutHighWater(p: Page): Page {
    p.(next := p.next.(highWater := None))
  }

  /** The resumption law: after a first fetch of m pages that leaves more, a second fetch of up to n from its
      checkpoint reads exactly what one fetch of m + n pages would have gone on to read, and meets a malformed
      page or a refused link exactly when that one does.  The limits of a run are counted by each fetch for
      itself (`ResumptionSplitsTheLimits`), and a mid-pagination checkpoint carries no high-water mark
      (`ResumeLosesHighWater`). */
  ghost predicate ResumesFaithfully(c: Config, server: string -> Body, checkpoint: Checkpoint, m: nat, n: nat)
    requires m >= 1 && n >= 1
  {
    var first := FetchPages(c, server, checkpoint, m);
    var whole := FetchPages(c, server, checkpoint, m + n);
    if first.None? || !first.value.hasMore then whole == first
    else
      var second := FetchPages(c, server, first.value.next, n);
      && (second.None? <==> whole.None?)
      && (second.Some? ==> WithoutHighWater(Join(first.value, second.value)) == WithoutHighWater(whole.value))
  }

  /** The checkpoint is resolved against the configured URL; the one long fetch resolves the same
      cursor against the URL of the page that named it.  When these agree, resumption is faithful. */
  lemma ResumeWhenTargetsAgree(c: Config, server: string -> Body, checkpoint: Checkpoint, m: nat, n: nat)
    requires m >= 1 && n >= 1
    requires
      var first := FetchPages(c, server, checkpoint, m);
      first.Some? && first.value.hasMore ==>
        StartUrl(c, first.value.next.cursor) ==
        NextUrl(c, LastUrl(c, server, StartUrl(c, checkpoint.cursor).value, m), first.value.next.cursor.value)
    ensures ResumesFaithfully(c, server, checkpoint, m, n)
  {
    hide NextUrl, PageAt, StartUrl, Walk, LastUrl;
    var start := StartUrl(c, checkpoint.cursor);
    if start.Ok? {
      WalkSplits(c, server, start.value, m, n, 0);
      var first := Walk(c, server, start.value, m, 0);
      if first.Some? && first.value.next.Some? {
        var next := StartUrl(c, first.value.next);
        if next.Ok? {
          WalkShift(c, server, next.value, n, 0, RecordCount(first.value));
        }
      }
    }
  }

  lemma {:induction false} CursorsFollowTheMode(c: Config, server: string -> Body, url: string, n: nat, offset: nat)
    requires n >= 1 && Walk(c, server, url, n, offset).Some? && Walk(c, server, url, n, offset).value.next.Some?
    ensures
      var cursor := Walk(c, server, url, n, offset).value.next.value;
      (c.mode.CursorMode? && cursor.QueryCursor?) || (c.mode.PathMode? && cursor.PathCursor?)
    decreases n
  {
    var page := PageAt(c, server, url, offset);
    if page.value.next.Some? && n > 1 {
      var next := NextUrl(c, url, page.value.next.value);
      CursorsFollowTheMode(c, server, next.value, n - 1, offset + RecordCount(page.value));
    }
  }

  /** In cursor mode a fetch of m pages and then n more from its checkpoint read what one of m + n reads. */
  lemma ResumeInCursorMode(c: Config, server: string -> Body, checkpoint: Checkpoint, m: nat, n: nat)
    requires m >= 1 && n >= 1 && c.mode.CursorMode?
    ensures ResumesFaithfully(c, server, checkpoint, m, n)
  {
    hide PageAt, Walk, LastUrl;
    var start := StartUrl(c, checkpoint.cursor);
    if start.Ok? {
      var first := Walk(c, server, start.value, m, 0);
      if first.Some? && first.value.next.Some? { CursorsFollowTheMode(c, server, start.value, m, 0); }
    }
    ResumeWhenTargetsAgree(c, server, checkpoint, m, n);
  }

  // ----- The limits of a run -----

  function RecordsOf(p: Page): nat {
    |p.observations| + |p.issues|
  }

  /** The one long fetch keeps the limits on records and bytes if and only if its two parts do so together,
      and then each of them does. */
  lemma ResumptionSplitsTheLimits(c: Config, server: string -> Body, checkpoint: Checkpoint, m: nat, n: nat)
    requires m >= 1 && n >= 1 && ResumesFaithfully(c, server, checkpoint, m, n)
    requires FetchPages(c, server, checkpoint, m).Some? && FetchPages(c, server, checkpoint, m).value.hasMore
    requires FetchPages(c, server, FetchPages(c, server, checkpoint, m).value.next, n).Some?
    ensures
      var first, whole := FetchPages(c, server, checkpoint, m).value, FetchPages(c, server, checkpoint, m + n);
      var second := FetchPages(c, server, first.next, n).value;
      && whole.Some?
      && (PageFits(c, whole.value) <==>
            && RecordsOf(first) + RecordsOf(second) <= c.limits.maxRecords
            && first.bytes + second.bytes <= c.limits.maxResponseBytes)
      && (PageFits(c, whole.value) ==> PageFits(c, first) && PageFits(c, second))
  {
    hide FetchPages;
  }

  /** A page leading to a second and last one, each with one record. */
  function TwoPages(base: string, page: string, cursor: string): string -> Body {
    (url: string) => Body(Some([Usable(url)]), Empty, if url == base && base != page then Value(cursor) else Empty, 1)
  }

  lemma OneUsable(text: string, offset: nat)
    ensures Observations([Usable(text)]) == [text] && Issues([Usable(text)], offset) == []
  {
    var records := [Usable(text)];
    assert records[..|records| - 1] == [] && Last(records) == Usable(text);
    assert Observations([]) == [] && Issues([], offset) == [];
    assert Observations(records) == Observations([]) + [text];
    assert Issues(records, offset) == Issues([], offset) + [];
  }

  /** Each part may fit where the one long fetch does not: with room for one record, two pages of one record
      each can be had one at a time only. */
  lemma PartsFitWhereTheWholeDoesNot(c: Config, base: string, page: string, cursor: string)
    requires c.mode.CursorMode? && c.limits.maxRecords == 1 && c.limits.maxResponseBytes >= 2
    requires c.build(None) == Some(base) && c.build(Some(cursor)) == Some(page) && base != page
    ensures
      var server, start := TwoPages(base, page, cursor), Checkpoint(None, None);
      var first, whole := FetchPages(c, server, start, 1), FetchPages(c, server, start, 2);
      && first.Some? && first.value.hasMore && PageFits(c, first.value)
      && var second := FetchPages(c, server, first.value.next, 1);
         second.Some? && PageFits(c, second.value) && whole.Some? && !PageFits(c, whole.value)
  {
    var server := TwoPages(base, page, cursor);
    OneUsable(base, 0);
    OneUsable(page, 0);
    hide Observations, Issues;
    assert PageAt(c, server, base, 0) == Some(Walked([base], [], 1, 1, Some(QueryCursor(cursor))));
    assert PageAt(c, server, page, 0) == Some(Walked([page], [], 1, 1, None));
    hide PageAt;
    ResumeInCursorMode(c, server, Checkpoint(None, None), 1, 1);
    ResumptionSplitsTheLimits(c, server, Checkpoint(None, None), 1, 1);
  }

  // ----- Path mode: exactly when resumption is faithful -----

  /** The server points only to targets among the given ones. */
  ghost predicate Sends(server: string -> Body, targets: iset<string>) {
    forall url :: server(url).nextPath.Value? ==> server(url).nextPath.text in targets
  }

  /** The checkpoint may have come from a server that does. */
  ghost predicate Issued(checkpoint: Checkpoint, targets: iset<string>) {
    checkpoint.cursor.Some? && checkpoint.cursor.value.PathCursor? ==> checkpoint.cursor.value.target in targets
  }

  /** Every page one target away from the configured URL resolves every target as the configured URL does. */
  ghost predicate TargetsResolveAlike(c: Config, base: string, targets: iset<string>) {
    forall s, t :: s in targets && t in targets && c.paginate(base, s).Some? ==>
      c.paginate(c.paginate(base, s).value, t) == c.paginate(base, t)
  }

  ghost predicate AlwaysResumes(c: Config, targets: iset<string>) {
    forall server: string -> Body, checkpoint: Checkpoint, m: nat, n: nat ::
      m >= 1 && n >= 1 && Sends(server, targets) && Issued(checkpoint, targets) ==>
      ResumesFaithfully(c, server, checkpoint, m, n)
  }

  /** The page resolves the targets as the configured URL does. */
  ghost predicate LikeBase(c: Config, base: string, targets: iset<string>, url: string) {
    forall t :: t in targets ==> c.paginate(url, t) == c.paginate(base, t)
  }

  lemma NextIsLikeBase(c: Config, base: string, targets: iset<string>, url: string, target: string)
    requires TargetsResolveAlike(c, base, targets) && LikeBase(c, base, targets, url) && target in targets
    requires c.paginate(url, target).Some?
    ensures LikeBase(c, base, targets, c.paginate(url, target).value)
  {
  }

  /** Every page a walk reads resolves the targets alike, and the walk's cursor is one of them. */
  lemma {:induction false} WalkStaysLikeBase(c: Config, server: string -> Body, base: string, targets: iset<string>,
                                             url: string, n: nat, offset: nat)
    requires n >= 1 && c.mode.PathMode? && Sends(server, targets)
    requires TargetsResolveAlike(c, base, targets) && LikeBase(c, base, targets, url)
    ensures LikeBase(c, base, targets, LastUrl(c, server, url, n))
    ensures
      var walked := Walk(c, server, url, n, offset);
      walked.Some? && walked.value.next.Some? ==>
        walked.value.next.value.PathCursor? && walked.value.next.value.target in targets
    decreases n
  {
    PageShift(c, server, url, 0, offset);
    var page := PageAt(c, server, url, offset);
    if page.Some? && page.value.next.Some? && n > 1 {
      var next := NextUrl(c, url, page.value.next.value);
      if next.Ok? {
        TargetIsSent(server, targets, url);
        hide TargetsResolveAlike, LikeBase, Sends;
        NextIsLikeBase(c, base, targets, url, page.value.next.value.target);
        WalkStaysLikeBase(c, server, base, targets, next.value, n - 1, offset + RecordCount(page.value));
      }
    } else {
      TargetIsSent(server, targets, url);
    }
  }

  lemma TargetIsSent(server: string -> Body, targets: iset<string>, url: string)
    requires Sends(server, targets)
    ensures server(url).nextPath.Value? ==> server(url).nextPath.text in targets
  {
  }

  lemma ResumesWhenAlike(c: Config, base: string, targets: iset<string>, server: string -> Body, checkpoint: Checkpoint,
                         m: nat, n: nat)
    requires m >= 1 && n >= 1 && c.mode.PathMode? && c.build(None) == Some(base)
    requires Sends(server, targets) && Issued(checkpoint, targets) && TargetsResolveAlike(c, base, targets)
    ensures ResumesFaithfully(c, server, checkpoint, m, n)
  {
    var start := StartUrl(c, checkpoint.cursor);
    assert LikeBase(c, base, targets, base);
    if start.Ok? {
      if checkpoint.cursor.Some? { NextIsLikeBase(c, base, targets, base, checkpoint.cursor.value.target); }
      WalkStaysLikeBase(c, server, base, targets, start.value, m, 0);
      hide Walk, LastUrl, Sends, Issued, TargetsResolveAlike, ResumesFaithfully;
    }
    ResumeWhenTargetsAgree(c, server, checkpoint, m, n);
  }

  /** In path mode, for any set of targets: resumption is faithful for every server that sends only these,
      every checkpoint and every split, if and only if pages reached from the configured URL resolve them
      as the configured URL does. */
  lemma ResumeInPathModeExactly(c: Config, base: string, targets: iset<string>)
    requires c.mode.PathMode? && c.build(None) == Some(base)
    ensures AlwaysResumes(c, targets) <==> TargetsResolveAlike(c, base, targets)
  {
    hide ResumesFaithfully;
    if TargetsResolveAlike(c, base, targets) {
      forall server: string -> Body, checkpoint: Checkpoint, m: nat, n: nat |
        m >= 1 && n >= 1 && Sends(server, targets) && Issued(checkpoint, targets)
        ensures ResumesFaithfully(c, server, checkpoint, m, n)
      {
        ResumesWhenAlike(c, base, targets, server, checkpoint, m, n);
      }
    } else {
      var first, second :| first in targets && second in targets && c.paginate(base, first).Some?
        && c.paginate(c.paginate(base, first).value, second) != c.paginate(base, second);
      ResumeFailsWhenBaseMatters(c, first, second);
      EchoSends(base, c.paginate(base, first).value, first, second, targets);
    }
  }

  /** The server whose every page holds its own URL as its one observation: the configured page leads
      to `first`, the page there to `second`, and all others end the sequence. */
  function EchoServer(base: string, page: string, first: string, second: string): string -> Body {
    (url: string) =>
      Body(Some([Usable(url)]),
           if url == base then Value(first) else if url == page then Value(second) else Empty, Empty, 1)
  }

  lemma EchoSends(base: string, page: string, first: string, second: string, targets: iset<string>)
    requires first in targets && second in targets
    ensures Sends(EchoServer(base, page, first, second), targets) && Issued(Checkpoint(None, None), targets)
  {
  }

  /** Otherwise it need not be: whenever some target met on the second page resolves differently there,
      some server shows the difference after two pages and a resumption. */
  lemma ResumeFailsWhenBaseMatters(c: Config, first: string, second: string)
    requires c.mode.PathMode? && c.build(None).Some?
    requires
      var base := c.build(None).value;
      var page := c.paginate(base, first);
      page.Some? && c.paginate(page.value, second) != c.paginate(base, second)
    ensures
      var base := c.build(None).value;
      !ResumesFaithfully(c, EchoServer(base, c.paginate(base, first).value, first, second),
                         Checkpoint(None, None), 2, 1)
  {
    var base := c.build(None).value;
    var page := c.paginate(base, first).value;
    var onward, resumed := c.paginate(page, second), c.paginate(base, second);
    hide FetchPages, EchoServer;
    EchoFirst(c, base, page, first, second);
    EchoWhole(c, base, page, first, second);
    EchoSecond(c, base, page, first, second);
    if onward.Some? && resumed.Some? {
      assert ([base, page] + [onward.value])[2] != ([base, page] + [resumed.value])[2];
    }
  }

  /** The fetch of two pages. */
  lemma EchoFirst(c: Config, base: string, page: string, first: string, second: string)
    requires c.mode.PathMode? && c.build(None) == Some(base) && page != base && c.paginate(base, first) == Some(page)
    ensures FetchPages(c, EchoServer(base, page, first, second), Checkpoint(None, None), 2)
         == Some(Page([base, page], [], Checkpoint(Some(PathCursor(second)), None), true, 2, 2, 0))
  {
    EchoTwoPages(c, base, page, first, second);
    hide Walk, EchoServer;
  }

  /** The fetch of three, whose third page is found from the second. */
  lemma EchoWhole(c: Config, base: string, page: string, first: string, second: string)
    requires c.mode.PathMode? && c.build(None) == Some(base) && page != base && c.paginate(base, first) == Some(page)
    ensures
      var whole := FetchPages(c, EchoServer(base, page, first, second), Checkpoint(None, None), 3);
      var onward := c.paginate(page, second);
      if onward.None? then whole.None? else whole.Some? && whole.value.observations == [base, page] + [onward.value]
  {
    var server := EchoServer(base, page, first, second);
    EchoTwoPages(c, base, page, first, second);
    WalkSplits(c, server, base, 2, 1, 0);
    EchoLastUrl(c, base, page, first, second);
    var onward := c.paginate(page, second);
    if onward.Some? { EchoOnePage(c, base, page, first, second, onward.value, 2); }
    hide Walk, EchoServer, LastUrl;
  }

  /** The resumed fetch, whose page is found from the configured URL. */
  lemma EchoSecond(c: Config, base: string, page: string, first: string, second: string)
    requires c.mode.PathMode? && c.build(None) == Some(base)
    ensures
      var part := FetchPages(c, EchoServer(base, page, first, second), Checkpoint(Some(PathCursor(second)), None), 1);
      var resumed := c.paginate(base, second);
      if resumed.None? then part.None? else part.Some? && part.value.observations == [resumed.value]
  {
    var resumed := c.paginate(base, second);
    if resumed.Some? { EchoOnePage(c, base, page, first, second, resumed.value, 0); }
    hide Walk, EchoServer;
  }

  lemma EchoTwoPages(c: Config, base: string, page: string, first: string, second: string)
    requires c.mode.PathMode? && page != base && c.paginate(base, first) == Some(page)
    ensures Walk(c, EchoServer(base, page, first, second), base, 2, 0)
         == Some(Walked([base, page], [], 2, 2, Some(PathCursor(second))))
  {
    EchoPage(c, base, page, first, second, base, 0);
    EchoPage(c, base, page, first, second, page, 1);
    assert Walk(c, EchoServer(base, page, first, second), page, 1, 1) ==
           PageAt(c, EchoServer(base, page, first, second), page, 1);
    assert [base] + [page] == [base, page];
  }

  lemma EchoOnePage(c: Config, base: string, page: string, first: string, second: string, url: string, offset: nat)
    requires c.mode.PathMode?
    ensures Walk(c, EchoServer(base, page, first, second), url, 1, offset).Some?
    ensures Walk(c, EchoServer(base, page, first, second), url, 1, offset).value.observations == [url]
  {
    EchoPage(c, base, page, first, second, url, offset);
  }

  lemma EchoPage(c: Config, base: string, page: string, first: string, second: string, url: string, offset: nat)
    requires c.mode.PathMode?
    ensures
      var b := EchoServer(base, page, first, second)(url);
      PageAt(c, EchoServer(base, page, first, second), url, offset) ==
        Some(Walked([url], [], 1, 1, if b.nextPath.Value? then Some(PathCursor(b.nextPath.text)) else None))
  {
    OneUsable(url, offset);
  }

  lemma EchoLastUrl(c: Config, base: string, page: string, first: string, second: string)
    requires c.mode.PathMode? && c.paginate(base, first) == Some(page)
    ensures LastUrl(c, EchoServer(base, page, first, second), base, 2) == page
  {
    EchoPage(c, base, page, first, second, base, 0);
    assert LastUrl(c, EchoServer(base, page, first, second), page, 1) == page;
  }

  // ----- Path mode: which targets meet the condition -----

  /** How URLs and targets are written: None for text that cannot be read, or a target that names a scheme,
      an authority or a fragment. */
  datatype Text = Text(url: string -> Option<Url>, write: Url -> string, target: string -> Option<Target>)

  function Paginated(x: Text, allows: Url -> bool, current: string, target: string): Option<string> {
    var u, t := x.url(current), x.target(target);
    if u.None? || t.None? then None
    else
      var page := PaginationUrl(allows, u.value, t.value);
      if page.Some? then Some(x.write(page.value)) else None
  }

  /** The configured resolution of targets is the policy's. */
  ghost predicate ResolvesPaths(c: Config, x: Text, allows: Url -> bool) {
    && (forall u :: Normalize(allows, u) == Some(u) ==> x.url(x.write(u)) == Some(u))
    && forall current, target :: c.paginate(current, target) == Paginated(x, allows, current, target)
  }

  predicate PlaceKept(base: Url, page: Url, t: Target)
    requires base.path != [] && page.path != []
  {
    || IsAbsolute(t)
    || (t.path != [""] && Directory(page) == Directory(base))
    || (t.query != "" && page.path == base.path)
  }

  /** From a page that one target leads to, every target with a relative path finds the directory it finds at
      the configured URL, and every bare query the path. */
  ghost predicate KeepsPlace(x: Text, allows: Url -> bool, base: Url, targets: iset<string>) {
    forall s, t :: s in targets && t in targets && x.target(s).Some? && x.target(t).Some? ==>
      var page := PaginationUrl(allows, base, x.target(s).value);
      page.Some? ==> PlaceKept(base, page.value, x.target(t).value)
  }

  /** Such targets resolve alike, so that with them resumption is always faithful. */
  lemma TargetsThatKeepPlaceResume(c: Config, x: Text, allows: Url -> bool, base: Url, targets: iset<string>)
    requires c.mode.PathMode? && ResolvesPaths(c, x, allows) && Normalize(allows, base) == Some(base)
    requires c.build(None) == Some(x.write(base)) && KeepsPlace(x, allows, base, targets)
    ensures TargetsResolveAlike(c, x.write(base), targets) && AlwaysResumes(c, targets)
  {
    hide AlwaysResumes;
    forall s, t | s in targets && t in targets && c.paginate(x.write(base), s).Some?
      ensures c.paginate(c.paginate(x.write(base), s).value, t) == c.paginate(x.write(base), t)
    {
      if x.target(t).Some? {
        var page := PaginationUrl(allows, base, x.target(s).value);
        assert x.url(x.write(page.value)) == page;
        ResolvesAlike(allows, page.value, base, x.target(t).value);
      }
    }
    ResumeInPathModeExactly(c, x.write(base), targets);
  }

  /** Targets of any of these three kinds do: absolute paths, bare queries, names without a slash. */
  lemma TargetsOfOneKindResume(c: Config, x: Text, allows: Url -> bool, base: Url, targets: iset<string>)
    requires c.mode.PathMode? && ResolvesPaths(c, x, allows) && Normalize(allows, base) == Some(base)
    requires c.build(None) == Some(x.write(base))
    requires
      || (forall t :: t in targets && x.target(t).Some? ==> IsAbsolute(x.target(t).value))
      || (forall t :: t in targets && x.target(t).Some? ==>
          x.target(t).value.path == [""] && x.target(t).value.query != "")
      || (IsTidy(base) && forall t :: t in targets && x.target(t).Some? ==> IsSibling(x.target(t).value))
    ensures AlwaysResumes(c, targets)
  {
    forall s, t | s in targets && t in targets && x.target(s).Some? && x.target(t).Some?
      && PaginationUrl(allows, base, x.target(s).value).Some?
      ensures PlaceKept(base, PaginationUrl(allows, base, x.target(s).value).value, x.target(t).value)
    {
      var from, to := x.target(s).value, x.target(t).value;
      if IsAbsolute(to) {
      } else if to.path == [""] {
        QueryKeepsPath(allows, base, from);
      } else {
        SiblingKeepsDirectory(allows, base, from);
      }
    }
    hide PlaceKept, ResolvesPaths, AlwaysResumes;
    TargetsThatKeepPlaceResume(c, x, allows, base, targets);
  }

  /** Among relative paths of names, resumption is always faithful if and only if none changes directory:
      from /a/b the target x/y leads to /a/x/y, but from there to /a/x/x/y. */
  lemma RelativePathsResumeExactly(c: Config, x: Text, allows: Url -> bool, base: Url, targets: iset<string>)
    requires c.mode.PathMode? && ResolvesPaths(c, x, allows) && Normalize(allows, base) == Some(base) && IsTidy(base)
    requires c.build(None) == Some(x.write(base))
    requires forall t :: t in targets ==>
      x.target(t).Some? && AreNames(x.target(t).value.path) && PaginationUrl(allows, base, x.target(t).value).Some?
    ensures AlwaysResumes(c, targets) <==> forall t :: t in targets ==> IsSibling(x.target(t).value)
  {
    hide AlwaysResumes, IsTidy, PaginationUrl;
    if t :| t in targets && !IsSibling(x.target(t).value) {
      var target := x.target(t).value;
      var page := PaginationUrl(allows, base, target).value;
      assert IsName(target.path[0]);
      DescendsTwice(allows, base, target);
      assert x.url(x.write(base)) == Some(base) && x.url(x.write(page)) == Some(page);
      var again := PaginationUrl(allows, page, target);
      if again.Some? { assert x.url(x.write(again.value)) == again; }
      assert c.paginate(x.write(page), t) != c.paginate(x.write(base), t);
      ResumeInPathModeExactly(c, x.write(base), targets);
    } else {
      hide ResolvesPaths;
      TargetsOfOneKindResume(c, x, allows, base, targets);
    }
  }

  /** The high-water mark survives a faithful resumption exactly when there was none to lose or the whole
      fetch is itself still unfinished. */
  lemma ResumeLosesHighWater(c: Config, server: string -> Body, checkpoint: Checkpoint, m: nat, n: nat)
    requires m >= 1 && n >= 1 && ResumesFaithfully(c, server, checkpoint, m, n)
    requires FetchPages(c, server, checkpoint, m).Some? && FetchPages(c, server, checkpoint, m).value.hasMore
    requires FetchPages(c, server, checkpoint, m + n).Some?
    ensures
      var whole := FetchPages(c, server, checkpoint, m + n).value;
      var second := FetchPages(c, server, FetchPages(c, server, checkpoint, m).value.next, n);
      second.Some? && (second.value.next.highWater == whole.next.highWater <==>
                       checkpoint.highWater.None? || whole.hasMore)
  {
    hide PageAt, Walk, StartUrl;
  }
}
