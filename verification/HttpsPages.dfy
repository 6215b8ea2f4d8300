/** The pages of a fetch: what one holds, where it leads, and the walk from page to page. */
module HttpsPages {
  import opened Common
  import opened HttpsTelemetry

  // ----- Pages, as a function of what the server serves -----

  function Observations(records: seq<Record>): seq<string> {
    if records == [] then []
    else Observations(records[..|records| - 1]) + if Last(records).Usable? then [Last(records).observation] else []
  }

  function Issues(records: seq<Record>, offset: nat): seq<Issue> {
    if records == [] then []
    else Issues(records[..|records| - 1], offset) +
         if Last(records).Unusable? then [Issue(offset + |records| - 1, Last(records).code)] else []
  }

  /** `_pagination_checkpoint`. */
  function PaginationCheckpoint(b: Body, m: Mode): Result<Option<Cursor>, Failure> {
    var field := match m { case Unpaged => Empty case PathMode => b.nextPath case CursorMode => b.nextCursor };
    match field
    case Empty => Ok(None)
    case Invalid => Err(Failure("pagination_value_invalid", Payload, false))
    case Value(text) => Ok(Some(if m.PathMode? then PathCursor(text) else QueryCursor(text)))
  }

  /** The URL of the page after `current`, given its cursor. */
  function NextUrl(c: Config, current: string, cursor: Cursor): Result<string, Failure> {
    var url := match cursor
      case PathCursor(target) => c.paginate(current, target)
      case QueryCursor(value) => c.build(Some(value))
      case OtherCursor => None;
    if url.Some? then Ok(url.value) else Err(DENIED)
  }

  /** The URL a fetch begins at: the configured one, or the one the stored cursor leads to from it. */
  function StartUrl(c: Config, cursor: Option<Cursor>): (url: Result<string, Failure>)
    ensures url.Err? ==> url.error.kind.Configuration? && !url.error.retryable
  {
    var base := c.build(None);
    if base.None? then Err(DENIED)
    else if cursor.None? then Ok(base.value)
    else if cursor.value.OtherCursor? || (cursor.value.QueryCursor? && !c.mode.CursorMode?)
    then Err(ConfigurationFailure("checkpoint_cursor_invalid"))
    else NextUrl(c, base.value, cursor.value)
  }

  /** The page a fetch begins at, told on the configuration and the stored cursor: the configured page, or the one a
      stored path leads to from it, or the one built for a stored cursor value. */
  predicate StartsAt(c: Config, cursor: Option<Cursor>, url: string) {
    && c.build(None).Some?
    && match cursor
       case None => c.build(None) == Some(url)
       case Some(PathCursor(target)) => c.paginate(c.build(None).value, target) == Some(url)
       case Some(QueryCursor(value)) => c.mode.CursorMode? && c.build(Some(value)) == Some(url)
       case Some(OtherCursor) => false
  }

  /** A stored cursor that is of no use in this mode is a configuration failure of its own; else what has no URL is
      denied. */
  lemma StartIsExact(c: Config, cursor: Option<Cursor>)
    ensures forall url :: StartUrl(c, cursor) == Ok(url) <==> StartsAt(c, cursor, url)
    ensures StartUrl(c, cursor) == Err(ConfigurationFailure("checkpoint_cursor_invalid")) <==>
            c.build(None).Some? && cursor.Some? && !cursor.value.PathCursor?
              && (cursor.value.OtherCursor? || !c.mode.CursorMode?)
  {
  }

  datatype Walked = Walked(observations: seq<string>, issues: seq<Issue>, pages: nat, bytes: nat, next: Option<Cursor>)

  const NOTHING := Walked([], [], 0, 0, None)

  function Append(a: Walked, b: Walked): Walked {
    Walked(a.observations + b.observations, a.issues + b.issues, a.pages + b.pages, a.bytes + b.bytes, b.next)
  }

  /** A page's part of the result, its records numbered from `offset`; None if it is malformed. */
  function PageOf(c: Config, b: Body, offset: nat): Option<Walked> {
    if b.records.None? || PaginationCheckpoint(b, c.mode).Err? then None
    else Some(Walked(Observations(b.records.value), Issues(b.records.value, offset), 1, b.size,
                     PaginationCheckpoint(b, c.mode).value))
  }

  function PageAt(c: Config, server: string -> Body, url: string, offset: nat): Option<Walked> {
    PageOf(c, server(url), offset)
  }

  function RecordCount(a: Walked): nat {
    |a.observations| + |a.issues|
  }

  /** The pages met from `url` on, at most n of them; None if one is malformed or refused. */
  function Walk(c: Config, server: string -> Body, url: string, n: nat, offset: nat): Option<Walked>
    requires n >= 1
    decreases n
  {
    var page := PageAt(c, server, url, offset);
    if page.None? || page.value.next.None? || n == 1 then page
    else
      var next := NextUrl(c, url, page.value.next.value);
      if next.Err? then None
      else
        var rest := Walk(c, server, next.value, n - 1, offset + RecordCount(page.value));
        if rest.None? then None else Some(Append(page.value, rest.value))
  }

  /** `acc` followed by the pages from `url` on. */
  function Continue(c: Config, server: string -> Body, acc: Walked, url: string, n: nat, offset: nat): Option<Walked>
    requires n >= 1
  {
    var rest := Walk(c, server, url, n, offset);
    if rest.None? then None else Some(Append(acc, rest.value))
  }

  function PageFrom(a: Walked, checkpoint: Checkpoint, retries: nat): Page {
    Page(a.observations, a.issues,
         if a.next.Some? then Checkpoint(a.next, None) else Checkpoint(None, checkpoint.highWater),
         a.next.Some?, a.pages, a.bytes, retries)
  }

  /** The result of a fetch from a checkpoint, against a server, if nothing cuts it short. */
  function FetchPages(c: Config, server: string -> Body, checkpoint: Checkpoint, maxPages: nat): Option<Page>
    requires maxPages >= 1
  {
    var url := StartUrl(c, checkpoint.cursor);
    if url.Err? then None
    else
      var walked := Walk(c, server, url.value, maxPages, 0);
      if walked.None? then None else Some(PageFrom(walked.value, checkpoint, 0))
  }

  // ----- Records in order -----

  /** The observations are the usable records, in order, and the issues the others, each with its own code and
      numbered from `offset`: `usable` and `unusable` are their positions. */
  ghost predicate Lists(records: seq<Record>, offset: nat, observations: seq<string>, issues: seq<Issue>,
                        usable: seq<nat>, unusable: seq<nat>) {
    && Selects(records, (r: Record) => r.Usable?, usable) && |observations| == |usable|
    && (forall i :: 0 <= i < |usable| ==>
          usable[i] < |records| && records[usable[i]].Usable? && observations[i] == records[usable[i]].observation)
    && Selects(records, (r: Record) => r.Unusable?, unusable) && |issues| == |unusable|
    && (forall i :: 0 <= i < |unusable| ==>
          unusable[i] < |records| && records[unusable[i]].Unusable?
          && issues[i] == Issue(unusable[i] + offset, records[unusable[i]].code))
  }

  ghost predicate ListsInOrder(records: seq<Record>, offset: nat, observations: seq<string>, issues: seq<Issue>) {
    exists usable, unusable :: Lists(records, offset, observations, issues, usable, unusable)
  }

  lemma {:induction false} UsableAreListed(records: seq<Record>) returns (at: seq<nat>)
    ensures Selects(records, (r: Record) => r.Usable?, at) && |Observations(records)| == |at|
    ensures forall i :: 0 <= i < |at| ==>
      at[i] < |records| && records[at[i]].Usable? && Observations(records)[i] == records[at[i]].observation
  {
    if records == [] {
      at := [];
    } else {
      at := UsableAreListed(records[..|records| - 1]);
      SelectsOneMore(records, (r: Record) => r.Usable?, at);
      hide Selects;
      at := at + if Last(records).Usable? then [|records| - 1] else [];
    }
  }

  lemma {:induction false} UnusableAreListed(records: seq<Record>, offset: nat) returns (at: seq<nat>)
    ensures Selects(records, (r: Record) => r.Unusable?, at) && |Issues(records, offset)| == |at|
    ensures forall i :: 0 <= i < |at| ==>
      at[i] < |records| && records[at[i]].Unusable?
      && Issues(records, offset)[i] == Issue(at[i] + offset, records[at[i]].code)
  {
    if records == [] {
      at := [];
    } else {
      at := UnusableAreListed(records[..|records| - 1], offset);
      SelectsOneMore(records, (r: Record) => r.Unusable?, at);
      hide Selects;
      at := at + if Last(records).Unusable? then [|records| - 1] else [];
    }
  }

  lemma RecordsAreListed(records: seq<Record>, offset: nat) returns (usable: seq<nat>, unusable: seq<nat>)
    ensures Lists(records, offset, Observations(records), Issues(records, offset), usable, unusable)
  {
    usable := UsableAreListed(records);
    unusable := UnusableAreListed(records, offset);
    hide Observations, Issues, Selects;
  }

  lemma {:induction false} RecordsConcat(a: seq<Record>, b: seq<Record>, offset: nat)
    ensures Observations(a + b) == Observations(a) + Observations(b)
    ensures Issues(a + b, offset) == Issues(a, offset) + Issues(b, offset + |a|)
  {
    if b == [] {
      assert a + b == a;
    } else {
      var init, last := b[..|b| - 1], Last(b);
      assert (a + b)[..|a + b| - 1] == a + init && Last(a + b) == last;
      RecordsConcat(a, init, offset);
      assert Observations(b) == Observations(init) + if last.Usable? then [last.observation] else [];
      assert Observations(a + b) == Observations(a + init) + if last.Usable? then [last.observation] else [];
    }
  }

  // ----- One delivered page -----

  method ReadRecords(records: seq<Record>, offset: nat) returns (observations: seq<string>, issues: seq<Issue>)
    ensures observations == Observations(records) && issues == Issues(records, offset)
    ensures ListsInOrder(records, offset, observations, issues)
  {
    ghost var usable, unusable := RecordsAreListed(records, offset);
    hide Lists;
    observations, issues := [], [];
    for i := 0 to |records|
      invariant observations == Observations(records[..i]) && issues == Issues(records[..i], offset)
    {
      assert records[..i + 1][..i] == records[..i];
      match records[i]
      case Usable(o) => observations := observations + [o];
      case Unusable(code) => issues := issues + [Issue(offset + i, code)];
    }
    assert records[..|records|] == records;
  }

  /** `require_request_budget`. */
  function RequestBudget(limits: Limits, pages: nat, records: nat, bytes: nat): Option<Failure> {
    if pages > limits.maxPages then Some(BudgetFailure("page_budget_exceeded"))
    else if records > limits.maxRecords then Some(BudgetFailure("record_budget_exceeded"))
    else if bytes > limits.maxResponseBytes then Some(BudgetFailure("response_budget_exceeded"))
    else None
  }

  lemma {:induction false} RecordsAreSplit(records: seq<Record>, offset: nat)
    ensures |Observations(records)| + |Issues(records, offset)| == |records|
  {
    if records != [] { RecordsAreSplit(records[..|records| - 1], offset); }
  }

  lemma AppendIsAssociative(a: Walked, b: Walked, d: Walked)
    ensures Append(Append(a, b), d) == Append(a, Append(b, d))
    ensures Append(NOTHING, d) == d
  {
  }

  lemma WalkOneMore(c: Config, server: string -> Body, acc: Walked, url: string, n: nat, offset: nat, page: Walked)
    requires n >= 2 && PageOf(c, server(url), offset) == Some(page)
    requires page.next.Some? && NextUrl(c, url, page.next.value).Ok?
    ensures Continue(c, server, acc, url, n, offset) ==
            Continue(c, server, Append(acc, page), NextUrl(c, url, page.next.value).value, n - 1,
                     RecordCount(page) + offset)
    ensures RecordCount(Append(acc, page)) == RecordCount(acc) + RecordCount(page)
  {
    var rest := Walk(c, server, NextUrl(c, url, page.next.value).value, n - 1, offset + RecordCount(page));
    if rest.Some? { AppendIsAssociative(acc, page, rest.value); }
  }

  lemma ContinueFromNothing(c: Config, server: string -> Body, url: string, n: nat)
    requires n >= 1
    ensures Continue(c, server, NOTHING, url, n, 0) == Walk(c, server, url, n, 0)
  {
    var rest := Walk(c, server, url, n, 0);
    if rest.Some? { AppendIsAssociative(NOTHING, NOTHING, rest.value); }
  }

  predicate Fits(c: Config, a: Walked) {
    RecordCount(a) <= c.limits.maxRecords && a.bytes <= c.limits.maxResponseBytes
  }

  predicate PageFits(c: Config, p: Page) {
    |p.observations| + |p.issues| <= c.limits.maxRecords && p.bytes <= c.limits.maxResponseBytes
  }

  /** What a delivered body adds to the pages taken so far, or why it is not taken. */
  function Take(c: Config, acc: Walked, body: Body): (r: Result<Walked, Failure>)
    ensures r.Ok? <==>
      var page := PageOf(c, body, RecordCount(acc));
      page.Some? && acc.pages + 1 <= c.limits.maxPages && Fits(c, Append(acc, page.value))
    ensures r.Ok? ==> PageOf(c, body, RecordCount(acc)) == Some(r.value)
    ensures r.Err? ==> r.error.kind in {Budget, Payload} && !r.error.retryable
  {
    if body.records.None? then Err(Failure("payload_records_invalid", Payload, false))
    else
      var records := body.records.value;
      var over := RequestBudget(c.limits, acc.pages + 1, RecordCount(acc) + |records|, acc.bytes + body.size);
      RecordsAreSplit(records, RecordCount(acc));
      if over.Some? then Err(over.value)
      else
        var pagination := PaginationCheckpoint(body, c.mode);
        if pagination.Err? then Err(pagination.error) else Ok(PageOf(c, body, RecordCount(acc)).value)
  }

  /** Why a body is not taken, in the order the checks are made. */
  lemma RefusalIsExact(c: Config, acc: Walked, body: Body)
    ensures
      var r := Take(c, acc, body);
      if body.records.None? then r == Err(Failure("payload_records_invalid", Payload, false))
      else
        var records := |acc.observations| + |acc.issues| + |body.records.value|;
        if acc.pages + 1 > c.limits.maxPages then r == Err(Failure("page_budget_exceeded", Budget, false))
        else if records > c.limits.maxRecords then r == Err(Failure("record_budget_exceeded", Budget, false))
        else if acc.bytes + body.size > c.limits.maxResponseBytes then
          r == Err(Failure("response_budget_exceeded", Budget, false))
        else if (c.mode.PathMode? && body.nextPath.Invalid?) || (c.mode.CursorMode? && body.nextCursor.Invalid?) then
          r == Err(Failure("pagination_value_invalid", Payload, false))
        else r.Ok?
  {
  }

  /** Accept one delivered page, within the record and byte budgets and before the deadline. */
  method TakePage(c: Config, body: Body, acc: Walked, budget: FetchBudget, w: World)
    returns (r: Result<Walked, Failure>)
    requires budget.Balanced(c, w)
    modifies w`readings
    ensures budget.Balanced(c, w) && w.readings >= old(w.readings)
    ensures r == Take(c, acc, body) || (r == Err(ELAPSED) && w.Late(budget.deadline))
    ensures r.Ok? ==> w.readings > old(w.readings) && !w.Late(budget.deadline)
  {
    hide Observations, Issues, Total, Orderly;
    if body.records.None? { return Err(Failure("payload_records_invalid", Payload, false)); }
    var records := body.records.value;
    var offset := RecordCount(acc);
    var over := RequestBudget(c.limits, acc.pages + 1, offset + |records|, acc.bytes + body.size);
    if over.Some? { return Err(over.value); }
    var observations, issues := ReadRecords(records, offset);
    var left := budget.RemainingSeconds(w);
    if left.Err? { return Err(left.error); }
    var pagination := PaginationCheckpoint(body, c.mode);
    if pagination.Err? { return Err(pagination.error); }
    return Ok(Walked(observations, issues, 1, body.size, pagination.value));
  }
}
