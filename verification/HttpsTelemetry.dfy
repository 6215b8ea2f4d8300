/** The HTTPS telemetry fetch: a page loop around a request loop, sharing one budget for retries,
    backoff, elapsed time and credential refresh. */
module HttpsTelemetry {
  import opened Common

  // ----- Data -----

  datatype FailureKind = Configuration | Budget | Network | Authentication
                       | RateLimited | Provider | Payload | Unhandled

  datatype Failure = Failure(code: string, kind: FailureKind, retryable: bool)

  /** A record of a page: an observation, or the code of the reason it is not one. */
  datatype Record = Usable(observation: string) | Unusable(code: string)

  datatype Issue = Issue(recordIndex: nat, code: string)

  /** A pagination field of a response body: absent or empty, of the wrong type or size, or a value. */
  datatype Field = Empty | Invalid | Value(text: string)

  /** A decoded response body; no records means the record list is missing or malformed. */
  datatype Body = Body(records: Option<seq<Record>>, nextPath: Field, nextCursor: Field, size: nat)

  datatype RetryHeader = NoDelay | Delay(seconds: Number)

  /** What one HTTP attempt ends in. */
  datatype Reply =
    | Unreachable                       // connect or read timeout, connect error
    | TransportFailure                  // any other transport error
    | Refused(tooLarge: bool)           // the body exceeded its bound, or declared a bad length
    | Response(status: int, retryAfter: RetryHeader, body: Option<Body>)

  datatype Secret = Secret(complete: bool)

  datatype Mode = Unpaged | PathMode | CursorMode

  datatype Cursor = PathCursor(target: string) | QueryCursor(value: string) | OtherCursor

  datatype Checkpoint = Checkpoint(cursor: Option<Cursor>, highWater: Option<int>)

  datatype Limits = Limits(timeout: real, maxResponseBytes: nat, maxPages: nat, maxRecords: nat)

  /** `build` is the request URL for an optional cursor value and `paginate` the resolution of a
      relative target; None is a refusal by the egress policy. */
  datatype Config = Config(
    mode: Mode, limits: Limits, maxRetries: nat, maxRetryAfter: real, authenticated: bool, refreshable: bool,
    build: Option<string> -> Option<string>, paginate: (string, string) -> Option<string>)

  predicate ValidConfig(c: Config) {
    c.limits.maxPages >= 1 && c.maxRetryAfter >= 0.0
  }

  datatype Page = Page(
    observations: seq<string>, issues: seq<Issue>, next: Checkpoint, hasMore: bool, pagesRead: nat, bytes: nat,
    retryCount: nat)

  /** A request sent, and a sleep completed; `reading` counts the clock readings before it, so that the
      latest of them is number reading - 1. */
  datatype Call = Call(url: string, secret: Option<Secret>, timeout: real, reading: nat)
  datatype Sleep = Sleep(delay: real, reading: nat)

  function BudgetFailure(code: string): Failure { Failure(code, Budget, false) }

  function ConfigurationFailure(code: string): Failure { Failure(code, Configuration, false) }

  function CredentialFailure(secret: Option<Secret>): Failure {
    Failure(if secret.None? then "credentials_unavailable" else "credential_field_missing", Authentication, false)
  }

  const ELAPSED := BudgetFailure("elapsed_time_budget_exceeded")
  const NO_BACKOFF := BudgetFailure("retry_backoff_budget_exceeded")
  const DENIED := ConfigurationFailure("egress_denied")
  const AUTHENTICATION_FAILED := Failure("authentication_failed", Authentication, false)
  /** Raised by the sleep itself, not by the connector. */
  const SLEEP_ERROR := Failure("sleep_value_error", Unhandled, false)

  // ----- The environment of one fetch -----

  /** Everything a fetch meets, chosen in advance by an adversary, and a journal of what it did.
      No contract is assumed of the clock, the server or the jitter. */
  class World {
    const clock: nat -> real
    const reply: (nat, string) -> Reply
    const jitter: (nat, real) -> real
    const denied: (nat, string) -> bool
    const renewed: nat -> Option<Secret>
    var readings: nat
    var draws: nat
    var refreshes: nat
    ghost var calls: seq<Call>
    ghost var sleeps: seq<Sleep>
    var attempts: nat

    constructor (clock: nat -> real, reply: (nat, string) -> Reply, jitter: (nat, real) -> real,
                 denied: (nat, string) -> bool, renewed: nat -> Option<Secret>)
      ensures this.clock == clock && this.reply == reply && this.jitter == jitter
      ensures this.denied == denied && this.renewed == renewed && Idle()
    {
      this.clock, this.reply, this.jitter, this.denied, this.renewed := clock, reply, jitter, denied, renewed;
      readings, attempts, draws, refreshes, sleeps, calls := 0, 0, 0, 0, [], [];
    }

    ghost predicate Idle()
      reads this
    {
      attempts == refreshes == 0 && sleeps == [] && calls == []
    }

    method Monotonic() returns (t: real)
      modifies this`readings
      ensures t == clock(old(readings)) && readings == old(readings) + 1
    {
      t := clock(readings);
      readings := readings + 1;
    }

    method Jitter(ceiling: real) returns (t: real)
      modifies this`draws
      ensures t == jitter(old(draws), ceiling) && draws == old(draws) + 1
    {
      t := jitter(draws, ceiling);
      draws := draws + 1;
    }

    method Execute(url: string, secret: Option<Secret>, timeout: real) returns (r: Reply)
      modifies this`attempts, this`calls
      ensures r == reply(old(attempts), url)
      ensures attempts == old(attempts) + 1 && calls == old(calls) + [Call(url, secret, timeout, readings)]
    {
      r := reply(attempts, url);
      attempts := attempts + 1;
      calls := calls + [Call(url, secret, timeout, readings)];
    }

    method Renew() returns (s: Option<Secret>)
      modifies this`refreshes
      ensures s == renewed(old(refreshes)) && refreshes == old(refreshes) + 1
    {
      s := renewed(refreshes);
      refreshes := refreshes + 1;
    }

    method DoSleep(delay: real)
      modifies this`sleeps
      ensures sleeps == old(sleeps) + [Sleep(delay, readings)]
    {
      sleeps := sleeps + [Sleep(delay, readings)];
    }

    /** The latest clock reading is at or past the deadline. */
    ghost predicate Late(deadline: real)
      reads this`readings
    {
      readings > 0 && clock(readings - 1) >= deadline
    }

    /** The answer to the latest request. */
    ghost function LastReply(): Reply
      requires calls != []
      reads this`calls
    {
      reply(|calls| - 1, Last(calls).url)
    }
  }

  // ----- What a fetch may have done -----

  ghost function Total(sleeps: seq<Sleep>): real {
    if sleeps == [] then 0.0 else Total(sleeps[..|sleeps| - 1]) + Last(sleeps).delay
  }

  predicate LacksCredentials(c: Config, secret: Option<Secret>) {
    c.authenticated && (secret.None? || !secret.value.complete)
  }

  /** Every request was sent with credentials if they are called for, past the egress policy, and with
      exactly the time then left to the deadline. */
  ghost predicate SentInOrder(c: Config, calls: seq<Call>, clock: nat -> real, denied: (nat, string) -> bool,
                              deadline: real) {
    forall i :: 0 <= i < |calls| ==>
      && (c.authenticated ==> calls[i].secret.Some? && calls[i].secret.value.complete) && !denied(i, calls[i].url)
      && calls[i].reading > 0 && calls[i].timeout == deadline - clock(calls[i].reading - 1) > 0.0
  }

  /** Every sleep was within the backoff maximum and shorter than the time then left to the deadline. */
  ghost predicate SleptInTime(c: Config, sleeps: seq<Sleep>, clock: nat -> real, deadline: real) {
    forall i :: 0 <= i < |sleeps| ==>
      && 0.0 <= sleeps[i].delay <= c.maxRetryAfter
      && sleeps[i].reading > 0 && sleeps[i].delay < deadline - clock(sleeps[i].reading - 1)
  }

  ghost predicate Orderly(c: Config, w: World, deadline: real)
    reads w`calls, w`sleeps
  {
    && SentInOrder(c, w.calls, w.clock, w.denied, deadline)
    && SleptInTime(c, w.sleeps, w.clock, deadline)
  }

  lemma SentOneMore(c: Config, calls: seq<Call>, next: Call, clock: nat -> real, denied: (nat, string) -> bool,
                    deadline: real)
    requires SentInOrder(c, calls, clock, denied, deadline)
    requires !LacksCredentials(c, next.secret) && !denied(|calls|, next.url)
    requires next.reading > 0 && next.timeout == deadline - clock(next.reading - 1) > 0.0
    ensures SentInOrder(c, calls + [next], clock, denied, deadline)
  {
  }

  lemma SleptOneMore(c: Config, sleeps: seq<Sleep>, next: Sleep, clock: nat -> real, deadline: real)
    requires SleptInTime(c, sleeps, clock, deadline)
    requires 0.0 <= next.delay <= c.maxRetryAfter
    requires next.reading > 0 && next.delay < deadline - clock(next.reading - 1)
    ensures SleptInTime(c, sleeps + [next], clock, deadline) && Total(sleeps + [next]) == Total(sleeps) + next.delay
  {
    assert (sleeps + [next])[..|sleeps|] == sleeps;
  }

  // ----- The shared budget -----

  function One(b: bool): nat {
    if b then 1 else 0
  }

  class FetchBudget {
    const deadline: real
    const maxRetries: nat
    const maxBackoff: real
    var retriesUsed: nat
    var backoffSeconds: real
    var authRefreshed: bool

    constructor (deadline: real, maxRetries: nat, maxBackoff: real)
      ensures this.deadline == deadline && this.maxRetries == maxRetries && this.maxBackoff == maxBackoff
      ensures retriesUsed == 0 && backoffSeconds == 0.0 && !authRefreshed
    {
      this.deadline, this.maxRetries, this.maxBackoff := deadline, maxRetries, maxBackoff;
      retriesUsed, backoffSeconds, authRefreshed := 0, 0.0, false;
    }

    /** The attempts paid for: one by each retry used and one by the refresh. */
    ghost function Paid(): nat
      reads this`retriesUsed, this`authRefreshed
    {
      retriesUsed + One(authRefreshed)
    }

    /** The journal and the budget tell the same story, and nothing is overspent. */
    ghost predicate Balanced(c: Config, w: World)
      reads this, w
    {
      && maxRetries == c.maxRetries && maxBackoff == c.maxRetryAfter
      && |w.sleeps| == retriesUsed <= maxRetries
      && Total(w.sleeps) == backoffSeconds <= maxBackoff
      && w.refreshes == One(authRefreshed) && w.attempts == |w.calls|
      && Orderly(c, w, deadline)
    }

    /** What holds however the fetch ends: nothing shared was overspent. */
    ghost predicate Bounded(c: Config, w: World)
      reads this, w
    {
      && maxRetries == c.maxRetries && maxBackoff == c.maxRetryAfter
      && retriesUsed <= |w.sleeps| <= maxRetries
      && Total(w.sleeps) == backoffSeconds <= maxBackoff
      && w.refreshes <= 1 && w.attempts == |w.calls|
      && Orderly(c, w, deadline)
    }

    /** `remaining_seconds`. */
    method RemainingSeconds(w: World) returns (r: Result<real, Failure>)
      modifies w`readings
      ensures w.readings == old(w.readings) + 1
      ensures
        var left := deadline - w.clock(old(w.readings));
        r == if left <= 0.0 then Err(ELAPSED) else Ok(left)
      ensures r.Err? <==> w.Late(deadline)
    {
      var now := w.Monotonic();
      if deadline - now <= 0.0 { return Err(ELAPSED); }
      return Ok(deadline - now);
    }

    /** `reserve_backoff`. */
    method ReserveBackoff(delay: real, w: World) returns (refused: Option<Failure>)
      modifies this`backoffSeconds, w`readings
      ensures w.readings == old(w.readings) + 1
      ensures
        var left := deadline - w.clock(old(w.readings));
        refused == if left <= 0.0 then Some(ELAPSED)
                   else if old(backoffSeconds) + delay > maxBackoff || delay >= left then Some(NO_BACKOFF)
                   else None
      ensures backoffSeconds == old(backoffSeconds) + if refused.None? then delay else 0.0
    {
      var left := RemainingSeconds(w);
      if left.Err? { return Some(left.error); }
      if backoffSeconds + delay > maxBackoff || delay >= left.value { return Some(NO_BACKOFF); }
      backoffSeconds := backoffSeconds + delay;
      return None;
    }
  }

  // ----- Backoff -----

  /** `min(max(x, 0.0), maximum)` in Python's comparison order: not-a-number survives it. */
  function Clamp(x: Number, maximum: real): (y: Number)
    ensures y.NotANumber? <==> x.NotANumber?
    ensures maximum >= 0.0 && !x.NotANumber? ==> y.Finite? && 0.0 <= y.value <= maximum
  {
    match x
    case NotANumber => NotANumber
    case Infinite(positive) => Finite(if positive then maximum else 0.0)
    case Finite(v) => Finite(if v < 0.0 then 0.0 else if maximum < v then maximum else v)
  }

  /** `_retry_after_seconds`: no header or an unreadable one gives no delay. */
  function RetryAfterSeconds(h: RetryHeader, maximum: real): Option<Number> {
    if h.NoDelay? then None else Some(Clamp(h.seconds, maximum))
  }

  function PowerOfTwo(n: nat): (p: nat)
    ensures p >= 1
  {
    if n == 0 then 1 else 2 * PowerOfTwo(n - 1)
  }

  /** Half a second doubled with every retry used, up to the maximum. */
  function Ceiling(c: Config, attempt: nat): real {
    var power := PowerOfTwo(attempt) as real * 0.5;
    if c.maxRetryAfter < power then c.maxRetryAfter else power
  }

  /** The delay called for: the server's, or a draw of jitter below the ceiling. */
  function Wanted(c: Config, jitter: (nat, real) -> real, draw: nat, attempt: nat,
                  retryAfter: Option<Number>): (d: Number)
    requires ValidConfig(c)
    ensures d.NotANumber? <==> retryAfter == Some(NotANumber)
    ensures !d.NotANumber? ==> d.Finite? && 0.0 <= d.value <= c.maxRetryAfter
  {
    Clamp(if retryAfter.Some? then retryAfter.value else Finite(jitter(draw, Ceiling(c, attempt))), c.maxRetryAfter)
  }

  /** The jitter's ceiling: half a second at the first retry and twice as much at each further one, up to the
      maximum. */
  lemma CeilingDoubles(c: Config, attempt: nat)
    requires ValidConfig(c)
    ensures attempt == 0 ==> Ceiling(c, attempt) == if c.maxRetryAfter < 0.5 then c.maxRetryAfter else 0.5
    ensures attempt > 0 ==>
      var doubled := 2.0 * Ceiling(c, attempt - 1);
      Ceiling(c, attempt) == if c.maxRetryAfter < doubled then c.maxRetryAfter else doubled
  {
    assert attempt == 0 ==> PowerOfTwo(attempt) == 1;
    assert attempt > 0 ==> PowerOfTwo(attempt) == 2 * PowerOfTwo(attempt - 1);
  }

  /** The delay wanted lies between zero and the maximum, and is what the server asks or the jitter draws wherever
      that does; a header that says nothing draws. */
  lemma DelayIsExact(c: Config, jitter: (nat, real) -> real, draw: nat, attempt: nat, header: RetryHeader)
    requires ValidConfig(c)
    ensures
      var d := Wanted(c, jitter, draw, attempt, RetryAfterSeconds(header, c.maxRetryAfter));
      var asked := if header.NoDelay? then Finite(jitter(draw, Ceiling(c, attempt))) else header.seconds;
      match asked
      case NotANumber => d.NotANumber?
      case Infinite(positive) => d == Finite(if positive then c.maxRetryAfter else 0.0)
      case Finite(v) =>
        && d.Finite? && 0.0 <= d.value <= c.maxRetryAfter
        && (0.0 <= v <= c.maxRetryAfter ==> d.value == v)
        && (v < 0.0 ==> d.value == 0.0) && (v > c.maxRetryAfter ==> d.value == c.maxRetryAfter)
  {
    hide Ceiling;
  }

  /** The delay for this retry, drawing jitter only without one from the server. */
  method ChooseDelay(attempt: nat, retryAfter: Option<Number>, c: Config, w: World) returns (d: Number)
    requires ValidConfig(c)
    modifies w`draws
    ensures w.draws == old(w.draws) + One(retryAfter.None?)
    ensures d == Wanted(c, w.jitter, old(w.draws), attempt, retryAfter)
  {
    var power := PowerOfTwo(attempt) as real * 0.5;
    var ceiling := if c.maxRetryAfter < power then c.maxRetryAfter else power;
    if retryAfter.Some? { return Clamp(retryAfter.value, c.maxRetryAfter); }
    var drawn := w.Jitter(ceiling);
    return Clamp(Finite(drawn), c.maxRetryAfter);
  }

  /** `_backoff`.  A delay that is not a number passes the reservation and is refused by the sleep itself. */
  method Backoff(attempt: nat, retryAfter: Option<Number>, c: Config, budget: FetchBudget, w: World)
    returns (failed: Option<Failure>)
    requires ValidConfig(c) && attempt == budget.retriesUsed < budget.maxRetries && budget.Balanced(c, w)
    modifies budget`backoffSeconds, w`readings, w`draws, w`sleeps
    ensures w.draws == old(w.draws) + One(retryAfter.None?) && w.readings > old(w.readings) && budget.Bounded(c, w)
    ensures
      var d := Wanted(c, w.jitter, old(w.draws), attempt, retryAfter);
      var left := budget.deadline - w.clock(old(w.readings));
      if left <= 0.0 || d.NotANumber? || old(budget.backoffSeconds) + d.value > c.maxRetryAfter || d.value >= left then
        && w.sleeps == old(w.sleeps) && budget.backoffSeconds == old(budget.backoffSeconds)
        && w.readings == old(w.readings) + 1
        && failed == Some(if left <= 0.0 then ELAPSED else if d.NotANumber? then SLEEP_ERROR else NO_BACKOFF)
      else
        && w.sleeps == old(w.sleeps) + [Sleep(d.value, old(w.readings) + 1)]
        && failed == if w.Late(budget.deadline) then Some(ELAPSED) else None
    ensures failed.Some? && failed.value.kind.Unhandled? <==>
            retryAfter == Some(NotANumber) && budget.deadline - w.clock(old(w.readings)) > 0.0
  {
    hide SentInOrder, SleptInTime, Total, Wanted;
    var bounded := ChooseDelay(attempt, retryAfter, c, w);
    if bounded.NotANumber? {
      var left := budget.RemainingSeconds(w);
      return Some(if left.Err? then left.error else SLEEP_ERROR);
    }
    var refused := budget.ReserveBackoff(bounded.value, w);
    if refused.Some? { return refused; }
    w.DoSleep(bounded.value);
    SleptOneMore(c, old(w.sleeps), Last(w.sleeps), w.clock, budget.deadline);
    var left := budget.RemainingSeconds(w);
    return if left.Err? then Some(left.error) else None;
  }

  // ----- One page: the request loop -----

  predicate Retryable(status: int) {
    status in {408, 429, 500, 502, 503, 504}
  }

  predicate Delivers(r: Reply) {
    r.Response? && 200 <= r.status < 300 && r.body.Some?
  }

  /** What an attempt's reply calls for. */
  datatype Verdict = Deliver | Stop(failure: Failure) | Refresh
                   | TryAgain(retryAfter: Option<Number>, exhausted: Failure)

  /** A connection that failed or timed out, or a status that says to try again later. */
  predicate WorthRetrying(reply: Reply) {
    reply.Unreachable? || (reply.Response? && reply.status in {408, 429, 500, 502, 503, 504})
  }

  /** Or credentials were refused, which a refresh may cure. */
  predicate AsksAgain(reply: Reply) {
    WorthRetrying(reply) || (reply.Response? && reply.status in {401, 403})
  }

  function Judge(reply: Reply, maximum: real): (v: Verdict)
    ensures v.Deliver? <==> Delivers(reply)
    ensures v.Stop? ==> !v.failure.retryable && v.failure.kind in {Network, Budget, Payload, Configuration, Provider}
    ensures v.TryAgain? ==> v.exhausted.retryable && v.exhausted.kind in {Network, RateLimited, Provider}
    ensures v.TryAgain? <==> WorthRetrying(reply)
    ensures v.TryAgain? ==>
      v.exhausted.kind == if reply.Unreachable? then Network else if reply.status == 429 then RateLimited else Provider
    ensures v.Refresh? <==> reply.Response? && reply.status in {401, 403}
    ensures v.Stop? ==>
      v.failure.kind ==
        match reply
        case TransportFailure => Network
        case Refused(tooLarge) => if tooLarge then Budget else Payload
        case Response(status, _, _) =>
          if 300 <= status < 400 then Configuration else if 200 <= status < 300 then Payload else Provider
        case Unreachable => Network
    ensures v.TryAgain? && v.retryAfter == Some(NotANumber) <==>
            reply.Response? && Retryable(reply.status) && reply.retryAfter == Delay(NotANumber)
  {
    match reply
    case Unreachable => TryAgain(None, Failure("network_retry_exhausted", Network, true))
    case TransportFailure => Stop(Failure("network_request_failed", Network, false))
    case Refused(tooLarge) =>
      Stop(if tooLarge then BudgetFailure("response_budget_exceeded")
           else Failure("content_length_invalid", Payload, false))
    case Response(status, retryHeader, body) =>
      if 300 <= status < 400 then Stop(ConfigurationFailure("redirect_not_allowed"))
      else if status == 401 || status == 403 then Refresh
      else if Retryable(status) then
        TryAgain(RetryAfterSeconds(retryHeader, maximum),
                 Failure("provider_retry_exhausted", if status == 429 then RateLimited else Provider, true))
      else if status < 200 || status >= 300 then Stop(Failure("provider_request_rejected", Provider, false))
      else if body.None? then Stop(Failure("payload_invalid_json", Payload, false))
      else Deliver
  }

  /** The latest reply asks for another attempt after a delay that is not a number. */
  ghost predicate MetUnreadableDelay(w: World)
    reads w`calls
  {
    w.calls != [] && w.LastReply().Response? && Retryable(w.LastReply().status)
    && w.LastReply().retryAfter == Delay(NotANumber)
  }

  /** The journal has grown by requests for `url`, each but the last of which met a reply that asks again. */
  ghost predicate Tried(reply: (nat, string) -> Reply, before: seq<Call>, after: seq<Call>, url: string) {
    && before <= after
    && (forall i :: |before| <= i < |after| ==> after[i].url == url)
    && (forall i :: |before| <= i < |after| - 1 ==> AsksAgain(reply(i, url)))
  }

  /** The credentials called for after the request just made: renewed ones after a refusal of the old. */
  ghost function SecretAfter(c: Config, reply: Reply, renewed: Option<Secret>, secret: Option<Secret>): Option<Secret> {
    if Judge(reply, c.maxRetryAfter).Refresh? then renewed else secret
  }

  /** The credentials for request number i, when requests from number `from` on began with `secret`. */
  ghost function SecretFor(c: Config, w: World, calls: seq<Call>, from: nat, secret: Option<Secret>,
                           i: nat): Option<Secret>
    requires from <= i <= |calls|
  {
    if i == from then secret else SecretAfter(c, w.reply(i - 1, calls[i - 1].url), w.renewed(0), calls[i - 1].secret)
  }

  /** The requests from number `from` on carry the given credentials, and the renewed ones after a refusal. */
  ghost predicate CarriesSecret(c: Config, w: World, calls: seq<Call>, from: nat, secret: Option<Secret>) {
    forall i :: from <= i < |calls| ==> calls[i].secret == SecretFor(c, w, calls, from, secret, i)
  }

  ghost predicate MetRefusal(w: World, before: seq<Call>)
    reads w`calls
  {
    |w.calls| > |before| ==> AsksAgain(w.LastReply())
  }

  ghost predicate Fruitless(w: World, before: seq<Call>)
    reads w`calls
  {
    |w.calls| > |before| ==> !Delivers(w.LastReply())
  }

  /** One attempt, with the checks before and after it. */
  method Attempt(url: string, c: Config, secret: Option<Secret>, budget: FetchBudget, w: World)
    returns (r: Result<Reply, Failure>)
    requires budget.Balanced(c, w)
    modifies w`readings, w`attempts, w`calls
    ensures budget.Balanced(c, w) && w.readings > old(w.readings)
    ensures Tried(w.reply, old(w.calls), w.calls, url)
    ensures |w.calls| <= |old(w.calls)| + 1 && (|w.calls| > |old(w.calls)| ==> Last(w.calls).secret == secret)
    ensures r.Ok? ==>
      && |w.calls| == |old(w.calls)| + 1 && Last(w.calls).url == url
      && r.value == w.LastReply() && !w.Late(budget.deadline) && !LacksCredentials(c, secret)
    ensures r.Err? ==>
      || (r.error == ELAPSED && w.Late(budget.deadline) && w.attempts <= old(w.attempts) + 1)
      || (r.error == CredentialFailure(secret) && LacksCredentials(c, secret) && w.calls == old(w.calls))
      || (r.error == DENIED && w.denied(w.attempts, url) && w.calls == old(w.calls))
  {
    hide SentInOrder, SleptInTime, LacksCredentials, Total, CredentialFailure;
    var left := budget.RemainingSeconds(w);
    if left.Err? { return Err(left.error); }
    if LacksCredentials(c, secret) { return Err(CredentialFailure(secret)); }
    if w.denied(w.attempts, url) { return Err(DENIED); }
    left := budget.RemainingSeconds(w);
    if left.Err? { return Err(left.error); }
    var reply := w.Execute(url, secret, left.value);
    SentOneMore(c, old(w.calls), Last(w.calls), w.clock, w.denied, budget.deadline);
    if reply.Response? {
      left := budget.RemainingSeconds(w);
      if left.Err? { return Err(left.error); }
    }
    return Ok(reply);
  }

  /** The delay wanted after the latest reply does not fit the backoff budget or the time left. */
  ghost predicate NoRoom(c: Config, w: World, deadline: real, retryAfter: Option<Number>)
    requires ValidConfig(c)
    reads w
  {
    && (retryAfter.Some? || w.draws > 0) && w.readings > 0
    && var d := Wanted(c, w.jitter, w.draws - One(retryAfter.None?), |w.sleeps|, retryAfter);
       !d.NotANumber? && (Total(w.sleeps) + d.value > c.maxRetryAfter || d.value >= deadline - w.clock(w.readings - 1))
  }

  /** Why a retry was not made. */
  ghost predicate RetryFailed(c: Config, w: World, deadline: real, retryAfter: Option<Number>, exhausted: Failure,
                              f: Failure)
    requires ValidConfig(c)
    reads w
  {
    if |w.sleeps| >= c.maxRetries then f == exhausted
    else if retryAfter == Some(NotANumber) then f == SLEEP_ERROR
    else f == NO_BACKOFF && NoRoom(c, w, deadline, retryAfter)
  }

  /** Spend one retry and sleep, or report why not. */
  method Retry(retryAfter: Option<Number>, exhausted: Failure, c: Config, budget: FetchBudget, w: World)
    returns (failed: Option<Failure>)
    requires ValidConfig(c) && budget.Balanced(c, w) && !w.Late(budget.deadline)
    modifies budget`backoffSeconds, budget`retriesUsed, w`readings, w`draws, w`sleeps
    ensures w.readings >= old(w.readings)
    ensures failed.None? ==>
      && budget.Balanced(c, w) && !w.Late(budget.deadline)
      && budget.retriesUsed == old(budget.retriesUsed) + 1 && retryAfter != Some(NotANumber)
    ensures failed.Some? ==>
      && budget.Bounded(c, w) && budget.retriesUsed == old(budget.retriesUsed)
      && if w.Late(budget.deadline) then failed == Some(ELAPSED)
         else RetryFailed(c, w, budget.deadline, retryAfter, exhausted, failed.value)
  {
    hide Wanted, Orderly;
    if budget.retriesUsed >= budget.maxRetries { return Some(exhausted); }
    failed := Backoff(budget.retriesUsed, retryAfter, c, budget, w);
    if failed.None? { budget.retriesUsed := budget.retriesUsed + 1; }
  }

  // ----- Why a request fails -----

  /** The failure that the latest reply, in time and for `url`, amounts to. */
  ghost predicate ReplyFailed(c: Config, w: World, deadline: real, url: string, f: Failure)
    requires ValidConfig(c)
    reads w
  {
    w.calls != [] && Last(w.calls).url == url &&
    match Judge(w.LastReply(), c.maxRetryAfter)
    case Deliver => false
    case Stop(failure) => f == failure
    case Refresh => f == AUTHENTICATION_FAILED && (!c.refreshable || w.refreshes == 1)
    case TryAgain(retryAfter, exhausted) => RetryFailed(c, w, deadline, retryAfter, exhausted, f)
  }

  /** Every way a request for `url` with the given credentials can fail, told from where it ended. */
  ghost predicate RequestFailed(c: Config, w: World, deadline: real, initial: Option<Secret>, url: string, f: Failure)
    requires ValidConfig(c)
    reads w
  {
    || (f == ELAPSED && w.Late(deadline))
    || (f == DENIED && w.denied(w.attempts, url) && !MetUnreadableDelay(w))
    || (f == CredentialFailure(initial) && LacksCredentials(c, initial) && !MetUnreadableDelay(w))
    || (f == CredentialFailure(w.renewed(0)) && LacksCredentials(c, w.renewed(0)) && w.refreshes == 1
        && w.calls != [] && Last(w.calls).url == url && Judge(w.LastReply(), c.maxRetryAfter).Refresh?)
    || (!w.Late(deadline) && ReplyFailed(c, w, deadline, url, f))
  }

  /** The one refresh of the credentials: None if it is not to be had, or brings nothing. */
  method RefreshSecret(c: Config, budget: FetchBudget, w: World) returns (s: Option<Secret>)
    requires budget.Balanced(c, w)
    modifies budget`authRefreshed, w`refreshes
    ensures budget.Bounded(c, w)
    ensures s.None? ==> budget.authRefreshed == old(budget.authRefreshed) && (!c.refreshable || w.refreshes == 1)
    ensures s.Some? ==>
      && budget.Balanced(c, w) && !old(budget.authRefreshed) && budget.authRefreshed
      && s == w.renewed(0) && w.refreshes == 1
  {
    hide Orderly, Total;
    if budget.authRefreshed || !c.refreshable { return None; }
    s := w.Renew();
    if s.Some? { budget.authRefreshed := true; }
  }

  /** What one turn of the request loop comes to: a page, a failure, or another turn. */
  datatype Turn = Brought(body: Body) | Failed(failure: Failure) | Again(secret: Option<Secret>)

  /** The credentials in hand: the initial ones, or the renewed ones, unusable only if just obtained. */
  ghost predicate Held(c: Config, w: World, url: string, initial: Option<Secret>, secret: Option<Secret>)
    reads w`calls, w`refreshes
  {
    || secret == initial
    || (secret == w.renewed(0) && w.refreshes == 1
        && (LacksCredentials(c, secret) ==>
              w.calls != [] && Last(w.calls).url == url && Judge(w.LastReply(), c.maxRetryAfter).Refresh?))
  }

  /** One turn: an attempt and what its reply calls for. */
  method TakeTurn(url: string, c: Config, ghost initial: Option<Secret>, secret: Option<Secret>, budget: FetchBudget,
                  w: World)
    returns (t: Turn)
    requires ValidConfig(c) && budget.Balanced(c, w)
    requires !MetUnreadableDelay(w) && Held(c, w, url, initial, secret)
    modifies budget, w
    ensures budget.Bounded(c, w) && w.readings >= old(w.readings) && Tried(w.reply, old(w.calls), w.calls, url)
    ensures |w.calls| <= |old(w.calls)| + 1 && (|w.calls| > |old(w.calls)| ==> Last(w.calls).secret == secret)
    ensures budget.retriesUsed >= old(budget.retriesUsed) && (old(budget.authRefreshed) ==> budget.authRefreshed)
    ensures t.Brought? ==>
      && budget.Balanced(c, w) && !w.Late(budget.deadline) && budget.Paid() == old(budget.Paid())
      && |w.calls| == |old(w.calls)| + 1
      && Delivers(w.LastReply()) && w.LastReply().body == Some(t.body)
    ensures t.Failed? ==>
      && w.attempts <= old(w.attempts) + 1 && budget.Paid() == old(budget.Paid())
      && RequestFailed(c, w, budget.deadline, initial, url, t.failure)
      && (Fruitless(w, old(w.calls)) || (t.failure == ELAPSED && w.Late(budget.deadline)))
    ensures t.Again? ==>
      && budget.Balanced(c, w) && budget.Paid() == old(budget.Paid()) + 1
      && |w.calls| == |old(w.calls)| + 1 && AsksAgain(w.LastReply())
      && !MetUnreadableDelay(w) && Held(c, w, url, initial, t.secret)
      && t.secret == SecretAfter(c, w.LastReply(), w.renewed(0), secret)
  {
    hide Total, Orderly, RequestFailed, MetUnreadableDelay, LacksCredentials, CredentialFailure, Judge, Tried, Held;
    HeldIsKnown(c, w, url, initial, secret);
    var attempt := Attempt(url, c, secret, budget, w);
    if attempt.Err? {
      AttemptFails(c, w, budget.deadline, initial, secret, url, attempt.error);
      return Failed(attempt.error);
    }
    var verdict := Judge(attempt.value, c.maxRetryAfter);
    if verdict.Deliver? { return Brought(attempt.value.body.value); }
    t := Answer(verdict, url, c, initial, secret, budget, w);
  }

  /** What a reply that brought no page leads to. */
  method Answer(verdict: Verdict, url: string, c: Config, ghost initial: Option<Secret>, secret: Option<Secret>,
                budget: FetchBudget, w: World) returns (t: Turn)
    requires ValidConfig(c) && budget.Balanced(c, w) && !w.Late(budget.deadline)
    requires w.calls != [] && Last(w.calls).url == url && verdict == Judge(w.LastReply(), c.maxRetryAfter)
    requires !verdict.Deliver? && !LacksCredentials(c, secret)
    requires secret == initial || (secret == w.renewed(0) && w.refreshes == 1)
    modifies budget, w`readings, w`draws, w`sleeps, w`refreshes
    ensures budget.Bounded(c, w) && w.readings >= old(w.readings)
    ensures budget.retriesUsed >= old(budget.retriesUsed) && (old(budget.authRefreshed) ==> budget.authRefreshed)
    ensures t.Failed? ==>
      budget.Paid() == old(budget.Paid()) && RequestFailed(c, w, budget.deadline, initial, url, t.failure)
    ensures t.Again? ==>
      && budget.Balanced(c, w) && budget.Paid() == old(budget.Paid()) + 1
      && !MetUnreadableDelay(w) && Held(c, w, url, initial, t.secret)
      && AsksAgain(w.LastReply())
      && t.secret == SecretAfter(c, w.LastReply(), w.renewed(0), secret)
    ensures !t.Brought?
  {
    hide Total, Orderly, RequestFailed, RetryFailed, MetUnreadableDelay, LacksCredentials, Judge, Held;
    match verdict
    case Stop(failure) =>
      ReplyFails(c, w, budget.deadline, initial, url, failure);
      return Failed(failure);
    case Refresh =>
      var renewed := RefreshSecret(c, budget, w);
      if renewed.None? {
        ReplyFails(c, w, budget.deadline, initial, url, AUTHENTICATION_FAILED);
        return Failed(AUTHENTICATION_FAILED);
      }
      RefreshIsReadable(c, w, url, initial, renewed);
      return Again(renewed);
    case TryAgain(retryAfter, exhausted) =>
      var failed := Retry(retryAfter, exhausted, c, budget, w);
      if failed.Some? {
        ReplyFails(c, w, budget.deadline, initial, url, failed.value);
        return Failed(failed.value);
      }
      RetryIsReadable(c, w, url, initial, secret);
      return Again(secret);
  }

  /** `_request_json`.  Every attempt but the last is paid for by a retry or by the one refresh, and every
      failure has its cause. */
  method RequestJson(url: string, c: Config, initial: Option<Secret>, budget: FetchBudget, w: World)
    returns (r: Result<(Body, nat, Option<Secret>), Failure>)
    requires ValidConfig(c) && budget.Balanced(c, w)
    requires w.calls == [] || Delivers(w.LastReply())
    modifies budget, w
    ensures budget.Bounded(c, w) && w.readings >= old(w.readings)
    ensures budget.retriesUsed >= old(budget.retriesUsed) && (old(budget.authRefreshed) ==> budget.authRefreshed)
    ensures w.attempts - old(w.attempts) <= budget.Paid() - old(budget.Paid()) + 1
    ensures Tried(w.reply, old(w.calls), w.calls, url) && CarriesSecret(c, w, w.calls, |old(w.calls)|, initial)
    ensures r.Ok? ==>
      && budget.Balanced(c, w) && !w.Late(budget.deadline)
      && w.attempts - old(w.attempts) == budget.Paid() - old(budget.Paid()) + 1
      && r.value.1 == budget.retriesUsed - old(budget.retriesUsed)
      && |w.calls| > |old(w.calls)| && Last(w.calls).secret == r.value.2
      && Delivers(w.LastReply()) && w.LastReply().body == Some(r.value.0)
    ensures r.Err? ==>
      && RequestFailed(c, w, budget.deadline, initial, url, r.error)
      && (Fruitless(w, old(w.calls)) || (r.error == ELAPSED && w.Late(budget.deadline)))
  {
    hide Total, Orderly, RequestFailed, MetUnreadableDelay, Held, Delivers, Tried, CarriesSecret;
    hide SecretAfter;
    var retriesAtStart := budget.retriesUsed;
    var secret := initial;
    StartsReadable(c, w, url, initial);
    NothingTried(c, w, url, initial);
    while true
      invariant budget.Balanced(c, w) && budget.retriesUsed >= retriesAtStart && w.readings >= old(w.readings)
      invariant old(budget.authRefreshed) ==> budget.authRefreshed
      invariant |w.calls| >= |old(w.calls)| && Tried(w.reply, old(w.calls), w.calls, url)
      invariant MetRefusal(w, old(w.calls))
      invariant !MetUnreadableDelay(w) && Held(c, w, url, initial, secret)
      invariant CarriesSecret(c, w, w.calls, |old(w.calls)|, initial)
      invariant secret == SecretFor(c, w, w.calls, |old(w.calls)|, initial, |w.calls|)
      invariant w.attempts - old(w.attempts) == budget.Paid() - old(budget.Paid())
      decreases budget.maxRetries + 1 - budget.Paid()
    {
      ghost var before := w.calls;
      var turn := TakeTurn(url, c, initial, secret, budget, w);
      TriedMore(w, old(w.calls), before, url);
      CarriesOn(c, w, before, |old(w.calls)|, initial);
      match turn
      case Brought(body) => return Ok((body, budget.retriesUsed - retriesAtStart, secret));
      case Failed(failure) => return Err(failure);
      case Again(next) => secret := next;
    }
  }

  lemma NothingTried(c: Config, w: World, url: string, secret: Option<Secret>)
    ensures Tried(w.reply, w.calls, w.calls, url) && CarriesSecret(c, w, w.calls, |w.calls|, secret)
  {
  }

  lemma AskingIsNoDelivery(reply: Reply)
    requires AsksAgain(reply)
    ensures !Delivers(reply)
  {
  }

  lemma CarriesOn(c: Config, w: World, before: seq<Call>, from: nat, initial: Option<Secret>)
    requires before <= w.calls && from <= |before| && |w.calls| <= |before| + 1
             && CarriesSecret(c, w, before, from, initial)
    requires |w.calls| > |before| ==> Last(w.calls).secret == SecretFor(c, w, before, from, initial, |before|)
    ensures CarriesSecret(c, w, w.calls, from, initial)
  {
    forall i | from <= i < |w.calls|
      ensures w.calls[i].secret == SecretFor(c, w, w.calls, from, initial, i)
    {
      SecretForPrefix(c, w, before, from, initial, i);
      hide SecretFor;
      if i < |before| { assert w.calls[i] == before[i]; }
    }
  }

  lemma SecretForPrefix(c: Config, w: World, before: seq<Call>, from: nat, secret: Option<Secret>, i: nat)
    requires before <= w.calls && from <= i <= |before|
    ensures SecretFor(c, w, w.calls, from, secret, i) == SecretFor(c, w, before, from, secret, i)
  {
    hide SecretAfter;
    if i > from { assert w.calls[i - 1] == before[i - 1]; }
  }

  lemma TriedMore(w: World, before: seq<Call>, middle: seq<Call>, url: string)
    requires Tried(w.reply, before, middle, url) && Tried(w.reply, middle, w.calls, url)
    requires |middle| > |before| ==> AsksAgain(w.reply(|middle| - 1, Last(middle).url))
    ensures |before| <= |middle| <= |w.calls| && middle <= w.calls && Tried(w.reply, before, w.calls, url)
    ensures Fruitless(w, middle) ==> Fruitless(w, before)
  {
    hide Delivers, AsksAgain;
    if |middle| > |before| && |w.calls| == |middle| { AskingIsNoDelivery(w.reply(|middle| - 1, Last(middle).url)); }
    assert middle == w.calls[..|middle|];
  }

  lemma HeldIsKnown(c: Config, w: World, url: string, initial: Option<Secret>, secret: Option<Secret>)
    requires Held(c, w, url, initial, secret)
    ensures secret == initial || (secret == w.renewed(0) && w.refreshes == 1)
  {
  }

  lemma StartsReadable(c: Config, w: World, url: string, initial: Option<Secret>)
    requires w.calls == [] || Delivers(w.LastReply())
    ensures !MetUnreadableDelay(w) && Held(c, w, url, initial, initial)
  {
  }

  lemma RefreshIsReadable(c: Config, w: World, url: string, initial: Option<Secret>, secret: Option<Secret>)
    requires w.calls != [] && Last(w.calls).url == url && Judge(w.LastReply(), c.maxRetryAfter).Refresh?
    requires secret == w.renewed(0) && w.refreshes == 1
    ensures !MetUnreadableDelay(w) && Held(c, w, url, initial, secret)
  {
  }

  lemma RetryIsReadable(c: Config, w: World, url: string, initial: Option<Secret>, secret: Option<Secret>)
    requires w.calls != [] && !LacksCredentials(c, secret)
             && (secret == initial || (secret == w.renewed(0) && w.refreshes == 1))
    requires Judge(w.LastReply(), c.maxRetryAfter).TryAgain?
             && Judge(w.LastReply(), c.maxRetryAfter).retryAfter != Some(NotANumber)
    ensures !MetUnreadableDelay(w) && Held(c, w, url, initial, secret)
  {
    hide Retryable;
  }

  lemma AttemptFails(c: Config, w: World, deadline: real, initial: Option<Secret>, secret: Option<Secret>, url: string,
                     f: Failure)
    requires ValidConfig(c)
    requires
      || (f == ELAPSED && w.Late(deadline))
      || (!MetUnreadableDelay(w) && Held(c, w, url, initial, secret) && f == CredentialFailure(secret)
          && LacksCredentials(c, secret))
      || (!MetUnreadableDelay(w) && f == DENIED && w.denied(w.attempts, url))
    ensures RequestFailed(c, w, deadline, initial, url, f)
  {
    hide MetUnreadableDelay, ReplyFailed;
  }

  lemma ReplyFails(c: Config, w: World, deadline: real, initial: Option<Secret>, url: string, f: Failure)
    requires ValidConfig(c) && w.calls != [] && Last(w.calls).url == url
    requires
      var verdict := Judge(w.LastReply(), c.maxRetryAfter);
      || (verdict.Stop? && f == verdict.failure && !w.Late(deadline))
      || (verdict.Refresh? && f == AUTHENTICATION_FAILED && (!c.refreshable || w.refreshes == 1) && !w.Late(deadline))
      || (verdict.TryAgain? && if w.Late(deadline) then f == ELAPSED
                               else RetryFailed(c, w, deadline, verdict.retryAfter, verdict.exhausted, f))
    ensures RequestFailed(c, w, deadline, initial, url, f)
  {
    hide MetUnreadableDelay, Judge, RetryFailed;
  }

  /** The connector's own errors are escaped exactly when, with retries and time left, the latest reply
      asks for a retry after a delay that is not a number. */
  lemma UnhandledExactly(c: Config, w: World, deadline: real, initial: Option<Secret>, url: string, f: Failure)
    requires ValidConfig(c) && |w.sleeps| <= c.maxRetries && RequestFailed(c, w, deadline, initial, url, f)
    ensures f.kind.Unhandled? <==> MetUnreadableDelay(w) && |w.sleeps| < c.maxRetries && !w.Late(deadline)
  {
    hide Retryable, NoRoom;
  }

  /** A request that ends on a reply worth retrying, with retries and time left, has tried to go on: the delay was not
      a number or found no room, or the next attempt was denied or lacked credentials. */
  lemma RetryIsMade(c: Config, w: World, deadline: real, initial: Option<Secret>, url: string, f: Failure)
    requires ValidConfig(c) && RequestFailed(c, w, deadline, initial, url, f)
    requires w.calls != [] && Last(w.calls).url == url && WorthRetrying(w.LastReply())
    requires |w.sleeps| < c.maxRetries && !w.Late(deadline)
    ensures
      || (f == SLEEP_ERROR && w.LastReply().Response? && w.LastReply().retryAfter == Delay(NotANumber))
      || (f == NO_BACKOFF && NoRoom(c, w, deadline, Judge(w.LastReply(), c.maxRetryAfter).retryAfter))
      || (f == DENIED && w.denied(w.attempts, url))
      || (f == CredentialFailure(initial) && LacksCredentials(c, initial))
  {
    hide Retryable, NoRoom, Wanted;
  }

  /** A failure worth retrying has used up the retries, on replies that asked for them. */
  lemma RetryableMeansExhausted(c: Config, w: World, deadline: real, initial: Option<Secret>, url: string, f: Failure)
    requires ValidConfig(c) && RequestFailed(c, w, deadline, initial, url, f) && f.retryable
    ensures |w.sleeps| >= c.maxRetries && w.calls != [] && Judge(w.LastReply(), c.maxRetryAfter).TryAgain?
  {
    hide Retryable, NoRoom;
  }

  /** An authentication failure means unusable credentials, or a refusal that no refresh is left to cure. */
  lemma AuthenticationMeansRefused(c: Config, w: World, deadline: real, initial: Option<Secret>, url: string,
                                   f: Failure)
    requires ValidConfig(c) && RequestFailed(c, w, deadline, initial, url, f) && f.kind.Authentication?
    ensures
      || (c.authenticated && !(initial.Some? && initial.value.complete))
      || (w.calls != [] && Judge(w.LastReply(), c.maxRetryAfter).Refresh? && (!c.refreshable || w.refreshes == 1))
  {
    hide Retryable, NoRoom;
  }
}
