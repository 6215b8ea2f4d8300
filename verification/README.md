# Verification models of the telemetry and structural-intelligence backend

A Dafny project that models the stateful and arithmetic cores of the backend and proves what they are for.
`dafny verify dfyconfig.toml` checks all of it.

| file | what it models |
|---|---|
| `RecurrenceEpisodes.dfy`, `RecurrenceVariations.dfy` | what an episode of a list of windows is, without a loop; cutting, diluting and negating a list |
| `RelationshipRecurrence.dfy`, `RecurrenceVerdicts.dfy` | the recurrence reducer: chronology, ageing, cap and overflow, the one-pass episode fold, veto and verdict; the verdict told on the windows themselves |
| `RecurrenceRuns.dfy`, `RecurrenceTheorems.dfy`, `RecurrenceDilution.dfy` | whole runs of it: the capped memory against an unbounded one, what a verdict is worth, retries, one unacceptable window more |
| `RelationshipChange.dfy`, `ChangeVerdicts.dfy` | the persistence reducer: eight voting windows, and its hysteresis over runs; the verdict told on the windows themselves |
| `HttpsTelemetry.dfy`, `HttpsPages.dfy`, `HttpsFetch.dfy`, `HttpsResume.dfy` | the HTTPS fetch: the request loop and its shared budget, its pages and the walk over them, the page loop, resumption from a checkpoint |
| `TelemetryEgress.dfy` | the resolution of pagination targets by the egress policy |
| `DuplicateFilter.dfy` | the bounded duplicate-message filter against one that never forgets |
| `GovernanceContext.dfy`, `ContextQualification.dfy` | version chains, reconstruction of what was knowable, qualification of records |
| `Relationships.dfy`, `CorrelationFit.dfy`, `RelationshipGraph.dfy` | Pearson correlation, what it measures, and the graph summary built on it |
| `HistogramBinning.dfy` | the specialised histogram behind the column entropy |
| `EscalationDecision.dfy`, `EscalationScores.dfy` | indicators to accumulation, confidence, index and escalation state; the indicators from the underlying scores |
| `ReplayTimeline.dfy` | the replay timeline and the validator that grades it |
| `Common.dfy`, `Rounding.dfy` | shared datatypes, order-preserving selection, rounding half to even |

## How the code is read

- Code that changes state is a method or a class here, proved against a function of its inputs or old state; the
  theorems are lemmas about that function and about runs of it.
- Instants are integers in microseconds; a bound that does not parse is its own case. Identifiers and scopes are
  values compared for equality and order only. Record fields that are only carried along and compared are one
  `detail` field.
- Arithmetic is over exact reals. Floating-point inputs that are not finite are tagged (`Number`). Rounding of
  reported values is modelled where it feeds a decision (`Rounding.dfy`).
- A not-a-number delta never equals a separately supplied one, so a window carrying it is refused when it is
  submitted again.
- The square root is a parameter with the contract `IsSqrt`. The clock, the server, jitter, egress decisions and
  credential renewal are unconstrained choices made by `HttpsTelemetry.World`, which also keeps a journal of every
  request and sleep with the clock reading it followed; nothing is assumed of the choices, so jitter outside
  `[0, ceiling]` is covered too. A server is deterministic only where a clause says `Serves` (of the pages it
  delivered) or `Cooperates` (of the pages of one walk). `HttpsFetch.ProgressOf` tells from the journal alone where a
  fetch stands.
- A URL of the permitted origin is its path, cut at the slashes, and its query; how it is written is a parameter
  (`HttpsResume.Text`), and so is what the policy asks of its length, characters and query. Relative references
  resolve as in section 5.2 of RFC 3986, in the variant of Python's `urljoin`; path parameters after a semicolon are
  part of their segment.
- A run of a reducer is a sequence of calls with one identity and fixed floors, the state carried from call to call.

## Where the code differs from what one would expect

- Recurrence: a window longer than thirty days ages out everything, itself included, and chronology starts again
  (`relationship_recurrence.py` line 89). That the capped reducer refines the uncapped one holds regardless. That
  memory is everything recent holds exactly as long as nothing accepted before such a restart would still be in the
  horizon (`RetainedIsEverythingRecentExactly`).
- Persistence: six votes among at most eight windows already are three quarters, so the agreement floor never decides
  (`SupportIsSixOfEight`).
- Fetch: in path mode a stored target is resolved against the configured URL and not the page it was found on
  (lines 455 and 537). Resumption is faithful for every server exactly when the targets it sends resolve alike from
  every page they lead to (`ResumeInPathModeExactly`): absolute paths, bare queries and single names do
  (`TargetsOfOneKindResume`), relative paths that change directory do not (`RelativePathsResumeExactly`). A checkpoint
  taken between pages carries no high-water mark (lines 904, 915 and 526-529; `ResumeLosesHighWater`).
- Fetch: the run limits on records and bytes (lines 500-509) are counted anew by every fetch, so an interrupted fetch
  can succeed in parts where the uninterrupted one fails (`PartsFitWhereTheWholeDoesNot`), and exactly when the parts
  exceed a limit together (`ResumptionSplitsTheLimits`).
- Fetch: a `Retry-After` header (section 10.2.3 of RFC 9110) whose value reads as not-a-number passes both clamps and
  every budget comparison, and the sleep itself raises an error that is none of the connector's own; it is the
  failure kind `Unhandled` here, and `Fetch` says exactly when it occurs.
- Escalation: both guardrails are implied by the thresholds behind them (`GuardsNeverDecide`), and the count of
  active indicators never decides (`DecisionIsExact`). More of any underlying score never lowers the state except by
  rounding: the index can lose its last reported digit, and the state falls when that digit was its threshold's
  (`StateFallsOnlyByTheLastDigit`, `TheLastDigitCanFall`).
- Replay: timelines of fewer than six frames, possible through the range queries only, do not reach the top
  consistency grade (`GradesAreExact`).

## Model

| member | source | states |
|---|---|---|
| `RelationshipRecurrence.RelationshipRecurrenceEvidence` | backend/app/engine/relationship_recurrence.py:25-155 | one call returns exactly the next state and evidence of the declarative step; the state is of this version and the identity asked for, a carried state of another identity or version counts for nothing, and a matching one is continued |
| `RecurrenceVerdicts.VerdictIsExact` | backend/app/engine/relationship_recurrence.py:108-155 | told on the retained windows: the episodes are the excursions of displaced windows of one direction, two of them adjacent, between windows at rest; both directions sustained anywhere veto; a direction is supported if and only if there are three, it alone is sustained and the submitted window meets both floors |
| `RecurrenceVerdicts.EpisodesAreExcursions` | backend/app/engine/relationship_recurrence.py:31-143 | there is one episode for each window that ends an excursion, in order, and its record gives the direction, the windows that went that way in order, where it opened and closed, and the longest unbroken run |
| `RecurrenceVerdicts.AcceptedExactly` | backend/app/engine/relationship_recurrence.py:67-87 | a window is accepted if and only if its bounds are readable and in order, the carried windows follow each other, and it follows them all or repeats the newest unaltered |
| `RecurrenceVerdicts.MemoryIsExact` | backend/app/engine/relationship_recurrence.py:88-104 | an accepted window leaves the carried windows and itself that start within thirty days of its end, or the newest of them there is room for; any loss calls for an initial return, a drop for want of room is marked until it would have aged out |
| `RecurrenceVerdicts.RefusalSaysNothing` | backend/app/engine/relationship_recurrence.py:41-87 | a refused window leaves the state and gets the empty limited answer |
| `RelationshipRecurrence.FoldEpisodes` | backend/app/engine/relationship_recurrence.py:108-143 | the single pass over the retained windows, with its seven loop variables, finds exactly the closed segments and the sustained directions of the declarative reading |
| `RelationshipRecurrence.Conclude` | backend/app/engine/relationship_recurrence.py:145-155 | the veto, the direction and the verdict follow from the episodes and the sustained directions of the retained windows |
| `RelationshipRecurrence.RetainedAreChronological` | backend/app/engine/relationship_recurrence.py:73-80 | the walk over carried windows accepts a list if and only if every window starts before it ends and no two of them overlap |
| `RelationshipRecurrence.Admit` | backend/app/engine/relationship_recurrence.py:69-87 | a window is admitted if and only if the carried list is chronological and the window follows it or repeats its newest member unaltered |
| `RelationshipRecurrence.Store` | backend/app/engine/relationship_recurrence.py:88-104 | ageing by start, the newest 256, the initial-return flag and the overflow marker with its expiry |
| `RecurrenceRuns.RetainIsSuffix` | backend/app/engine/relationship_recurrence.py:89-89 | ageing keeps the newest part of a chronological list: everything kept starts inside the horizon, the newest window dropped does not |
| `RelationshipRecurrence.ClosesAsCounted` | backend/app/engine/relationship_recurrence.py:121-121 | the counters tested at a neutral window decide exactly whether its segment is one-sided, armed and holds two adjacent agreeing windows |
| `RelationshipRecurrence.AfterReturn` | backend/app/engine/relationship_recurrence.py:131-133 | a neutral window restarts every value the fold keeps |
| `RelationshipRecurrence.EpisodesAfterReturn` | backend/app/engine/relationship_recurrence.py:120-130 | a neutral window adds exactly the episode of the segment it closes, if the counters call for one |
| `RelationshipRecurrence.CloseSegment` | backend/app/engine/relationship_recurrence.py:120-130 | the record appended at a neutral window is that of the closed segment |
| `RelationshipRecurrence.AfterDisplaced` | backend/app/engine/relationship_recurrence.py:134-141 | what a displaced window does to every value the fold keeps |
| `RelationshipRecurrence.AfterUnknown` | backend/app/engine/relationship_recurrence.py:142-143 | an unknown window breaks the run and changes nothing else |
| `RecurrenceEpisodes.ClosesReadsAsSegment` | backend/app/engine/relationship_recurrence.py:115-133 | an episode closes at a neutral window if and only if the stretch back to the previous neutral window (or to an armed beginning) has displaced windows of one sign only, two of them adjacent with nothing between |
| `RecurrenceEpisodes.LongestRunIsMaximal` | backend/app/engine/relationship_recurrence.py:137-139 | the reported maximum run is the length of the longest agreeing stretch of the segment: one of that length exists, none longer does |
| `RecurrenceEpisodes.LongestRunSustains` | backend/app/engine/relationship_recurrence.py:121-121 | the maximum run reaches two if and only if two adjacent windows agree |
| `RecurrenceEpisodes.OneSignIsOneSided` | backend/app/engine/relationship_recurrence.py:121-123 | one collected direction means that all displaced windows of the segment agree, and it is theirs |
| `RecurrenceEpisodes.EpisodeIsSound` | backend/app/engine/relationship_recurrence.py:122-130 | every episode has support count at least its maximum run, at least two, instants in order, and only supporting windows of its own direction taken from the list |
| `RecurrenceEpisodes.EpisodesDoNotOverlap` | backend/app/engine/relationship_recurrence.py:122-132 | an episode closes no later than any later one starts |
| `RecurrenceEpisodes.EpisodeDirectionSustained` | backend/app/engine/relationship_recurrence.py:123-141 | every episode points in one of the sustained directions |
| `RecurrenceEpisodes.CuttingKeepsASuffix` | backend/app/engine/relationship_recurrence.py:99-143 | the episodes of the newest part of a list, read un-armed, are the last episodes of the whole list, record for record |
| `RecurrenceEpisodes.TruncationInventsNothing` | backend/app/engine/relationship_recurrence.py:88-143 | forgetting any older history yields a suffix of the episodes and a subset of the sustained directions |
| `RecurrenceVariations.UnknownNeverHelps` | backend/app/engine/relationship_recurrence.py:31-34 | inserting a window that fails the floors anywhere never raises the episode count nor adds a sustained direction |
| `RecurrenceVariations.NegationOnlyFlipsDirections` | backend/app/engine/relationship_recurrence.py:115-143 | negating every delta flips each episode's direction and every sustained direction, and changes nothing else |
| `RecurrenceRuns.AdvanceKeepsInvariant` | backend/app/engine/relationship_recurrence.py:88-104 | every accepted window leaves a chronological list, the newest part of the candidates, within the cap and the thirty-day rule |
| `RecurrenceRuns.CappedRefinesUnbounded` | backend/app/engine/relationship_recurrence.py:88-104 | at every point of every run the capped list is the newest part of the uncapped one; while the uncapped one fits, the two states are equal; otherwise the overflow marker is when the newest dropped window ages out |
| `RecurrenceRuns.CappedEvidenceIsUnboundedOrSilent` | backend/app/engine/relationship_recurrence.py:101-103 | every answer of the capped reducer equals the uncapped one's, except that it is silent exactly when more windows lie in the horizon than it holds |
| `RecurrenceRuns.MemoryIsTheHorizon` | backend/app/engine/relationship_recurrence.py:88-99 | over every run the uncapped memory is the accepted windows since the last over-long one that start within thirty days of the current end, and the initial-return flag says whether anything was lost |
| `RecurrenceRuns.RetainedIsEverythingRecent` | backend/app/engine/relationship_recurrence.py:88-104 | with no window over thirty days: the retained list is every accepted window that starts inside the horizon unless there are more than 256, which is exactly when the reducer is silent |
| `RecurrenceRuns.RetainedIsEverythingRecentExactly` | backend/app/engine/relationship_recurrence.py:88-104 | with windows of any length: the uncapped list is every accepted window that starts inside the horizon if and only if nothing accepted before the last restart does; the capped list is the newest of them if and only if, besides, it may be full |
| `RecurrenceRuns.OverlongWindowLosesHistory` | backend/app/engine/relationship_recurrence.py:88-99 | the exception happens: three concrete windows after which the retained list misses an accepted one inside the horizon |
| `RecurrenceTheorems.SupportedVerdictIsSound` | backend/app/engine/relationship_recurrence.py:120-155 | a supported verdict rests on at least three sound, time-separated episodes of its direction, an acceptable current window, and no two adjacent opposing windows anywhere |
| `RecurrenceTheorems.SupportIsWithheldOnlyForCause` | backend/app/engine/relationship_recurrence.py:145-148 | with three episodes and an acceptable window, support is withheld if and only if both directions are sustained somewhere in the horizon |
| `RecurrenceTheorems.RunsReportTheLastEpisodes` | backend/app/engine/relationship_recurrence.py:88-155 | whenever the capped reducer speaks, its episodes are the last episodes of the whole accepted history since the last restart |
| `RecurrenceTheorems.RetryIsIdempotent` | backend/app/engine/relationship_recurrence.py:81-83 | submitting the accepted window again leaves the state, and repeats the evidence if and only if the delta is a number (or the window wiped the memory); a not-a-number delta is unequal to a separately supplied one |
| `RecurrenceTheorems.OnlyTheNextWindowIsAccepted` | backend/app/engine/relationship_recurrence.py:67-87 | at every point of every run the acceptable windows are exactly those that follow everything retained or repeat the newest unaltered; any other changes and supports nothing |
| `RecurrenceTheorems.NewestSurvives` | backend/app/engine/relationship_recurrence.py:88-99 | the window just accepted is retained as the newest, unless it is itself longer than thirty days, when nothing is |
| `RecurrenceTheorems.NegatedRun` | backend/app/engine/relationship_recurrence.py:25-155 | over whole runs, negating every delta negates the reported directions and leaves states, counts, vetoes and reasons |
| `RecurrenceDilution.UnknownNeverHelpsARun` | backend/app/engine/relationship_recurrence.py:25-155 | submitting a window that fails the floors at any point of a run, later windows not overlapping it, never raises the episode count of a later answer nor adds a direction or a veto, and it can win support only where a veto is spared; unless the run without it is silent |
| `RecurrenceDilution.RunsStayDiluted` | backend/app/engine/relationship_recurrence.py:25-155 | the two runs stay in step: the one with the window holds the newest part of the other's windows with it in between, and has marked whatever it lost |
| `RelationshipChange.RelationshipTemporalEvidence` | backend/app/engine/relationship_change.py:61-167 | one call returns exactly the next state and evidence of the declarative step; the state is of this version and the identity asked for, a carried state of another identity or version counts for nothing, and of a matching one the newest eight are continued |
| `ChangeVerdicts.VerdictIsExact` | backend/app/engine/relationship_change.py:136-167 | a direction is supported if and only if at least six of the retained windows, the submitted one among them, are eligible, acceptable, finite, at or above both floors and displaced that way by at least 0.15; the supporting windows are exactly those, in order; direction and agreement follow from the counts |
| `ChangeVerdicts.AcceptedExactly` | backend/app/engine/relationship_change.py:111-127 | a window is accepted if and only if its bounds are readable and in order, the carried windows increase, and it ends later than all of them or repeats the newest unaltered |
| `ChangeVerdicts.MemoryIsExact` | backend/app/engine/relationship_change.py:128-132 | an accepted window leaves the newest eight of the carried windows and itself that are no more than thirty days older |
| `ChangeVerdicts.RefusalSaysNothing` | backend/app/engine/relationship_change.py:134-153 | a refused window leaves the carried windows and gets the empty limited answer |
| `RelationshipChange.Admit` | backend/app/engine/relationship_change.py:111-127 | a window is admitted if and only if it is readable, the carried list increases, and the window ends later or repeats the newest unaltered |
| `RelationshipChange.RecentIsSuffix` | backend/app/engine/relationship_change.py:129-131 | ageing keeps the newest part of a chronological list: everything kept is at most thirty days old, the newest window dropped is older |
| `RelationshipChange.AdvanceKeepsInvariant` | backend/app/engine/relationship_change.py:112-132 | every accepted window leaves at most eight observations with strictly increasing instants, the newest being the one submitted, none over thirty days older |
| `RelationshipChange.RetryIsIdempotent` | backend/app/engine/relationship_change.py:122-123 | submitting the accepted window again leaves the state, and repeats the evidence if and only if the delta is a number; a not-a-number delta is unequal to a separately supplied one |
| `RelationshipChange.OnlyALaterWindowIsAccepted` | backend/app/engine/relationship_change.py:111-134 | at every point of every run the acceptable windows are exactly the readable ones that end later than everything retained or repeat the newest unaltered; any other changes and supports nothing |
| `RelationshipChange.MemoryIsTheLastEight` | backend/app/engine/relationship_change.py:112-132 | over every run the memory is the newest eight of all windows ever accepted that are no more than thirty days older than the newest |
| `RelationshipChange.VotesGrowWithNewWindows` | backend/app/engine/relationship_change.py:136-147 | over any stretch of a run the votes for a direction grow by at most the number of newly accepted windows |
| `RelationshipChange.ReversalNeedsFourNewWindows` | backend/app/engine/relationship_change.py:111-153 | hysteresis: between a supported verdict and a later one in the other direction lie at least four newly accepted windows, whatever is retried, refused or aged out |
| `RelationshipChange.SupportIsSixOfEight` | backend/app/engine/relationship_change.py:145-153 | over at most eight windows a verdict is supported if and only if six vote one way and the current window is with them; the agreement floor never decides |
| `RelationshipChange.SpacedRun` | backend/app/engine/relationship_change.py:112-153 | a run of spaced readable windows within thirty days is accepted whole, window by window |
| `RelationshipChange.ReversalInFour` | backend/app/engine/relationship_change.py:111-153 | four is the best bound: a concrete run reverses in four windows |
| `HttpsFetch.Fetch` | backend/app/connectors/https_telemetry.py:413-558 | however a fetch ends: attempts are at most pages + retries + 1, one refresh at most, every request was for the page the fetch had got to, the first where the stored cursor says, with the credentials then due, past the policy and with exactly the time then left to start + timeout; none was repeated unless the reply asked for it; every sleep was within the backoff budget and shorter than the time left; a success accounts for every attempt, is not late and reports the delivered bodies: their usable records in page and record order, the issues numbered through all of them, and the last body's cursor; a failure is the deadline, that of the request for the very page then due, or the refusal of what the last page held; the connector's own errors are escaped if and only if the last reply asked for a retry after not-a-number with retries and time left; a retryable failure has used up the retries, an authentication failure the credentials or the refresh; and where no reading is late, the credentials will do and the pages of the walk are to be had, it succeeds if and only if the walk exists and fits the run limits |
| `HttpsFetch.PageReports` | backend/app/connectors/https_telemetry.py:498-558 | the page reported is told by the delivered bodies: records in page and record order, pages, bytes, whether more is left and the checkpoint |
| `HttpsFetch.JournalGathers` | backend/app/connectors/https_telemetry.py:486-531 | wherever the page loop stands, what it holds is what the bodies brought amount to |
| `HttpsFetch.LinksAreFollowed` | backend/app/connectors/https_telemetry.py:486-548 | a request that brought a page is followed by one for the page its body leads to in this mode; one that did not, by another for the same page, only if the reply asks for it |
| `HttpsPages.StartIsExact` | backend/app/connectors/https_telemetry.py:449-470 | the first URL is the configured one, the one a stored path leads to from it, or the one built for a stored cursor value in cursor mode; a stored cursor of no use is a failure of its own |
| `HttpsFetch.FetchFrom` | backend/app/connectors/https_telemetry.py:486-548 | the page loop keeps the shared budgets, asks only for the page it has got to, ends with exactly what the delivered bodies add up to, and fails only late, by the request for the page then due, or by what the last page held |
| `HttpsFetch.FetchPage` | backend/app/connectors/https_telemetry.py:487-531 | one page costs one attempt plus the retries and the refresh it used, all for its own URL, and adds exactly the delivered body's records; a failure is the deadline, that of a request which brought no page, or the refusal of the body |
| `HttpsPages.TakePage` | backend/app/connectors/https_telemetry.py:498-531 | the decision on a delivered body, refused for a missing record list, a run limit or a bad pagination value in that order, and made before the deadline or answered by the deadline |
| `HttpsPages.Take` | backend/app/connectors/https_telemetry.py:498-531 | a body is taken if and only if it is well-formed and keeps the page, record and byte limits; otherwise the refusal is final |
| `HttpsPages.RefusalIsExact` | backend/app/connectors/https_telemetry.py:498-525 | the checks on a delivered body and their order: record list, page, record and byte limits, pagination value |
| `HttpsFetch.TriedAdvancesOnce` | backend/app/connectors/https_telemetry.py:486-548 | the requests for one page leave the fetch where it was until the last of them brings the page, and then move it exactly as that body says |
| `HttpsFetch.JournalFollowsTheWalk` | backend/app/connectors/https_telemetry.py:486-548 | any journal that follows the links of a server's pages stands where the walk over them says: on its way with the rest of the walk to come, finished with the whole walk, or stopped where no walk can be completed |
| `HttpsFetch.CooperationServes` | backend/app/connectors/https_telemetry.py:486-548 | if the pages of the walk are to be had, the fetch is only ever sent what the server serves |
| `HttpsFetch.LinkedPagesSuffice` | backend/app/connectors/https_telemetry.py:486-548 | for the pages of a walk to be had it is enough that the policy allows and the server answers the pages its links lead to, whatever else is denied or fails |
| `HttpsFetch.RequestsSucceed` | backend/app/connectors/https_telemetry.py:582-699 | the request for an available page does not fail while there is time and the credentials will do |
| `HttpsFetch.CooperationFails` | backend/app/connectors/https_telemetry.py:413-558 | where no reading was late, the credentials will do and the pages of the walk alone are allowed and delivered, a fetch fails only if the walk breaks off or exceeds a run limit |
| `HttpsFetch.FailureIsExact` | backend/app/connectors/https_telemetry.py:582-699 | what an unhandled, a retryable and an authentication failure of a fetch each mean |
| `HttpsTelemetry.RequestJson` | backend/app/connectors/https_telemetry.py:582-699 | the request loop terminates; every attempt is for the one URL, and every one but the last is paid for by a retry or the one refresh; credentials change exactly after a refusal; delivery is of the last reply and in time; every failure is told from where it ended |
| `HttpsTelemetry.TakeTurn` | backend/app/connectors/https_telemetry.py:592-699 | one turn of the request loop: a page in time, a failure with its cause, or another turn paid for by one retry or the refresh, with the credentials then due |
| `HttpsTelemetry.Answer` | backend/app/connectors/https_telemetry.py:609-697 | a reply without a page either fails with its cause or is paid for once, renewed credentials following a refusal and none other |
| `HttpsTelemetry.RefreshSecret` | backend/app/connectors/https_telemetry.py:637-657 | one refresh at most, only if the connector has a refresher; a failed one is final |
| `HttpsTelemetry.UnhandledExactly` | backend/app/connectors/https_telemetry.py:658-684 | a request's failure escapes the connector's errors if and only if the last reply asks for a retry after a delay that is not a number, with retries and time left |
| `HttpsTelemetry.RetryableMeansExhausted` | backend/app/connectors/https_telemetry.py:609-676 | a failure worth retrying has used up the retries on replies that asked for them |
| `HttpsTelemetry.RetryIsMade` | backend/app/connectors/https_telemetry.py:608-684 | a request that ends on a failed connection or a status worth retrying, with retries and time left, tried to go on: its delay was not a number or found no room, or the next attempt was barred |
| `HttpsTelemetry.AuthenticationMeansRefused` | backend/app/connectors/https_telemetry.py:637-657 | an authentication failure means unusable credentials or a refusal no refresh is left to cure |
| `HttpsTelemetry.Attempt` | backend/app/connectors/https_telemetry.py:593-607 | a request is sent only before the deadline, with usable credentials and not denied; otherwise the failure says which of these was missing |
| `HttpsTelemetry.Judge` | backend/app/connectors/https_telemetry.py:608-697 | by reply and status: delivered are 2xx with a readable body, refreshed 401 and 403, retried failed connections and 408, 429, 500, 502, 503, 504, the rest final, each with its kind of failure; only exhaustion is retryable; a not-a-number delay comes exactly from a retried status with that header |
| `HttpsTelemetry.Retry` | backend/app/connectors/https_telemetry.py:609-623 | a retry is counted exactly when its sleep was completed in time; otherwise retries were exhausted, the delay was not a number, or it did not fit |
| `HttpsTelemetry.ChooseDelay` | backend/app/connectors/https_telemetry.py:751-757 | the server's delay, or one draw of jitter below the doubled ceiling, clamped to the maximum |
| `HttpsTelemetry.CeilingDoubles` | backend/app/connectors/https_telemetry.py:760-760 | the jitter's ceiling is half a second at the first retry and doubles with each further one, up to the maximum |
| `HttpsTelemetry.DelayIsExact` | backend/app/connectors/https_telemetry.py:751-764 | the delay lies between zero and the maximum and is what the server asks, or the jitter draws, wherever that does |
| `HttpsTelemetry.Backoff` | backend/app/connectors/https_telemetry.py:751-764 | the delay slept is the server's or the draw, clamped; it is slept if and only if it is a number that fits the backoff budget and is shorter than the time left; the sleep itself fails if and only if it is not a number and time is left |
| `HttpsTelemetry.FetchBudget.constructor` | backend/app/connectors/https_telemetry.py:246-255 | a fresh budget is unspent |
| `HttpsTelemetry.FetchBudget.RemainingSeconds` | backend/app/connectors/https_telemetry.py:257-261 | the deadline less the reading made, or a failure exactly when that is not positive |
| `HttpsTelemetry.FetchBudget.ReserveBackoff` | backend/app/connectors/https_telemetry.py:263-275 | a reservation is refused exactly when no time is left, the backoff total would exceed its maximum or the delay reaches the time left; a refusal spends nothing |
| `HttpsPages.ReadRecords` | backend/app/connectors/https_telemetry.py:510-520 | each record becomes an observation or an issue carrying its own code and index, in order |
| `HttpsPages.RecordsAreListed` | backend/app/connectors/https_telemetry.py:510-520 | observation i is the i-th usable record, issue i the i-th unusable one, with its own code and its index plus the offset |
| `HttpsPages.RecordsAreSplit` | backend/app/connectors/https_telemetry.py:510-520 | observations and issues together are as many as the records |
| `HttpsFetch.StaysOnTrack` | backend/app/connectors/https_telemetry.py:523-548 | taking a page and following its cursor keeps a fetch on the walk from the start, completes it, or shows that it cannot be completed |
| `HttpsResume.WalkShift` | backend/app/connectors/https_telemetry.py:499-516 | numbering records from a later offset shifts the issue indexes and nothing else |
| `HttpsResume.WalkSplits` | backend/app/connectors/https_telemetry.py:486-548 | a walk of m + n pages is a walk of m continued from where its last page points |
| `HttpsResume.ResumeWhenTargetsAgree` | backend/app/connectors/https_telemetry.py:451-469 | resumption completes a fetch exactly as one long fetch would whenever the checkpoint leads to the same URL from the configured one as from the last page |
| `HttpsResume.ResumeInCursorMode` | backend/app/connectors/https_telemetry.py:458-465 | in cursor mode m pages and then n more from the checkpoint read what m + n pages at once read: the same observations, issues with shifted indexes, cursor and counts, and nothing exactly when the one walk breaks off; the run limits are the next row |
| `HttpsResume.ResumptionSplitsTheLimits` | backend/app/connectors/https_telemetry.py:500-509 | given both parts, the one long fetch keeps the record and byte limits if and only if the parts do so together, and then each of them does |
| `HttpsResume.PartsFitWhereTheWholeDoesNot` | backend/app/connectors/https_telemetry.py:500-509 | the converse fails: with room for one record, two pages of one record each fit singly and not together |
| `HttpsResume.ResumeInPathModeExactly` | backend/app/connectors/https_telemetry.py:453-537 | in path mode, for any set of targets: every server that sends only these resumes faithfully, for every checkpoint and every split, if and only if the pages they lead to from the configured URL resolve them as the configured URL does |
| `HttpsResume.WalkStaysLikeBase` | backend/app/connectors/https_telemetry.py:535-537 | under that condition every page of a walk resolves the targets as the configured URL does |
| `HttpsResume.ResumeFailsWhenBaseMatters` | backend/app/connectors/https_telemetry.py:455-537 | for any two targets whose resolution depends on the page, some server shows the difference after two pages |
| `HttpsResume.TargetsThatKeepPlaceResume` | backend/app/services/telemetry_egress.py:258-270 | with the policy's own resolution, targets resolve alike, and resumption is always faithful, if from each page they lead to every relative target finds the directory it finds at the configured URL and every bare query the path |
| `HttpsResume.TargetsOfOneKindResume` | backend/app/services/telemetry_egress.py:258-270 | so it is for absolute paths, for bare queries, and for single names beside a tidy configured URL |
| `HttpsResume.RelativePathsResumeExactly` | backend/app/services/telemetry_egress.py:258-270 | among relative paths of names, resumption is always faithful if and only if none changes directory |
| `TelemetryEgress.PaginationUrl` | backend/app/services/telemetry_egress.py:258-270 | a page reached by a target is normal: resolving from it starts from itself |
| `TelemetryEgress.NormalExactly` | backend/app/services/telemetry_egress.py:136-172 | a URL is accepted if and only if the policy allows it and its path is empty or begins with one slash; an empty path becomes the root |
| `TelemetryEgress.PageReachedIsAllowed` | backend/app/services/telemetry_egress.py:258-270 | a page reached is allowed by the policy and has one leading slash; a target with two, or a page not allowed, leads nowhere |
| `TelemetryEgress.AbsolutePathStands` | backend/app/services/telemetry_egress.py:258-270 | an absolute path without dots is read as it stands, with its query |
| `TelemetryEgress.EmptyPathStays` | backend/app/services/telemetry_egress.py:258-270 | the empty target is the page itself, a bare query the same path with that query |
| `TelemetryEgress.DotIsTheDirectory` | backend/app/services/telemetry_egress.py:258-270 | the target of one dot is the directory of the page |
| `TelemetryEgress.TwoDotsAreTheOneAbove` | backend/app/services/telemetry_egress.py:258-270 | and that of two dots the one above |
| `TelemetryEgress.DotsStepBack` | backend/app/services/telemetry_egress.py:258-270 | a dot changes nothing and two dots take back the name before them |
| `TelemetryEgress.ResolvesAlike` | backend/app/services/telemetry_egress.py:258-270 | an absolute path resolves alike from everywhere, a relative one from pages of one directory, a bare query from pages of one path |
| `TelemetryEgress.NamesFollowDirectory` | backend/app/services/telemetry_egress.py:258-270 | a path of names takes the place of the last segment of the current path |
| `TelemetryEgress.DescendsTwice` | backend/app/services/telemetry_egress.py:258-270 | followed twice, a path of two or more names does not lead to the same page |
| `HttpsResume.ResumeLosesHighWater` | backend/app/connectors/https_telemetry.py:526-532 | a faithfully resumed fetch, in either mode, reports the original high-water mark if and only if there was none or the whole fetch is unfinished too |
| `DuplicateFilter.DuplicateMessageFilter.constructor` | backend/app/core/logging_config.py:115-119 | an empty memory, with window and capacity clamped to at least 0 and 1 |
| `DuplicateFilter.DuplicateMessageFilter.Filter` | backend/app/core/logging_config.py:122-145 | the decision and the new memory; the capacity and key uniqueness are kept, a passed key is remembered with its time, a suppressed one changes nothing |
| `DuplicateFilter.PassesExactly` | backend/app/core/logging_config.py:122-135 | a message passes if and only if it is an error or worse, the window is closed, or no remembered pass of it is less than a window old; the first two leave no trace |
| `DuplicateFilter.RepetitionIsSuppressed` | backend/app/core/logging_config.py:132-135 | once a lesser message has passed, its repetition passes if and only if a window has gone by |
| `DuplicateFilter.MemoryAfterPass` | backend/app/core/logging_config.py:135-144 | after a pass everything is remembered if there is room, else the entries no older than a window and of those the last inserted; a known message keeps its place |
| `DuplicateFilter.UnboundedPassesExactly` | backend/app/core/logging_config.py:132-135 | the reference: under a nondecreasing clock a lesser message passes if and only if no earlier pass of it is less than a window old |
| `DuplicateFilter.GetAfterPut` | backend/app/core/logging_config.py:135-135 | recording a key sets its time and no other |
| `DuplicateFilter.GetAfterPruning` | backend/app/core/logging_config.py:137-142 | pruning forgets exactly the keys last passed before the cutoff |
| `DuplicateFilter.NextIsValid` | backend/app/core/logging_config.py:135-144 | the memory never exceeds its capacity and never evicts the key just recorded |
| `DuplicateFilter.RememberedWasPassed` | backend/app/core/logging_config.py:132-135 | a remembered time is that of an earlier passed message with the same key |
| `DuplicateFilter.SuppressedWasPassedRecently` | backend/app/core/logging_config.py:132-134 | for any traffic and clock, a suppressed message repeats one that was let through less than a window earlier |
| `DuplicateFilter.AgreementIsKeptExactly` | backend/app/core/logging_config.py:122-145 | one step keeps the bounded memory in agreement with the unbounded one if and only if it evicts no key whose repetition would be suppressed |
| `DuplicateFilter.AgreementIsKept` | backend/app/core/logging_config.py:122-145 | while the recent keys fit, it does |
| `DuplicateFilter.BoundedFilterIsExact` | backend/app/core/logging_config.py:122-145 | under a nondecreasing clock, if the keys passed within the last window always fit, every decision is the unbounded filter's |
| `DuplicateFilter.ExactUnlessLiveKeysAreEvicted` | backend/app/core/logging_config.py:122-145 | under a nondecreasing clock no message could tell the bounded filter from the unbounded one, at any point, if and only if no live key was ever evicted; keys exactly one window old may be |
| `DuplicateFilter.OverloadIsObservable` | backend/app/core/logging_config.py:143-144 | with more suppressible keys than fit, some repetition is let through that the unbounded filter suppresses |
| `GovernanceContext.SortSorts` | backend/app/governance/context.py:96-99 | ordering a basis sorts by scope, key and version and keeps exactly the records |
| `GovernanceContext.SortedIsUnique` | backend/app/governance/context.py:96-99 | a strictly ordered record list is determined by its members |
| `GovernanceContext.ChainIsLinked` | backend/app/governance/context.py:114-121 | the loop over a chain accepts it if and only if versions run 1, 2, 3 and each supersedes the one before, created no earlier |
| `GovernanceContext.CompleteIsLinked` | backend/app/governance/context.py:115-121 | a complete non-branching chain, ordered by version, is such a linked list |
| `GovernanceContext.Chains` | backend/app/governance/context.py:111-113 | grouping yields for each scope and key exactly its records |
| `GovernanceContext.ChainsAreComplete` | backend/app/governance/context.py:110-121 | all chains pass if and only if every record is the only one of its version and its predecessor is present and no younger |
| `GovernanceContext.Available` | backend/app/governance/context.py:101-122 | the defect reported is the first of the declarative list: future facts, future knowledge, duplicate identifiers, incomplete history |
| `GovernanceContext.BasisIsAcceptedExactly` | backend/app/governance/context.py:96-122 | a basis is accepted if and only if its facts were available and its relevant time reached by its evaluation, no record was created later, identifiers are distinct and every version but the first supersedes its predecessor; otherwise the defect is the first of these it fails; accepting only orders the records |
| `GovernanceContext.ChainAges` | backend/app/governance/context.py:117-120 | along a chain creation times never decrease with the version |
| `GovernanceContext.KnownIsChainPrefix` | backend/app/governance/context.py:91-91 | what was knowable at an instant is a prefix of every version chain |
| `GovernanceContext.ReconstructionIsWellFormed` | backend/app/governance/context.py:87-92 | reconstructing an earlier basis from a later one never fails and gives the records known then |
| `GovernanceContext.HistoryComposes` | backend/app/governance/context.py:87-94 | if C validates B and B validates A, C validates A if and only if nothing in C was created after B's evaluation and up to A's; always so when A was evaluated no later than B |
| `GovernanceContext.HistoryIsDetermined` | backend/app/governance/context.py:87-94 | a basis validates itself, and at most one record list for each earlier basis |
| `ContextQualification.LatestVersions` | backend/app/governance/context.py:161-165 | the loop finds for every chain a member no version of which is newer |
| `ContextQualification.SortOut` | backend/app/governance/context.py:166-174 | the classification loop lists accepted and rejected identifiers and one reason each, in identifier order |
| `ContextQualification.QualifyContext` | backend/app/governance/context.py:159-178 | the whole result meets its declarative description |
| `ContextQualification.AcceptedExactly` | backend/app/governance/context.py:139-175 | a record is accepted if and only if it is of the basis's scope, the newest of its chain, verified, in force at the relevant time (half-open), has every condition met by the facts, and is of a qualifying kind where only those count |
| `ContextQualification.RejectedExactly` | backend/app/governance/context.py:139-156 | it is rejected for a reason if and only if that rules it out and no reason tried earlier does |
| `ContextQualification.QualificationIsAPartition` | backend/app/governance/context.py:166-177 | every record is accepted or rejected, never both, with exactly one reason entry |
| `ContextQualification.NothingIsLost` | backend/app/governance/context.py:166-175 | accepted and rejected together are as many as the records |
| `ContextQualification.OneWinnerPerKey` | backend/app/governance/context.py:139-156 | at most one record of a chain is accepted; it is verified, in scope, and its version is the number of versions of its chain |
| `ContextQualification.QualificationIsDetermined` | backend/app/governance/context.py:159-178 | the description admits one result |
| `ContextQualification.SupplyOrderIsIrrelevant` | backend/app/governance/context.py:96-122 | supplying the same records in any order makes the same basis or the same refusal |
| `Relationships.CorrelationForPair` | backend/app/engine/relationships.py:118-147 | the pairing loop computes the coefficient of exactly the paired finite cells, and it lies between -1 and 1 |
| `CorrelationFit.PerfectFit` | backend/app/engine/relationships.py:138-147 | the coefficient is 1 (or -1) if and only if all pairs lie on one rising (or falling) line and the first column is not constant |
| `CorrelationFit.NoLineFitsBetter` | backend/app/engine/relationships.py:138-147 | no straight line leaves less than the part 1 - r^2 of the second column's variation as squared residuals |
| `CorrelationFit.BestLine` | backend/app/engine/relationships.py:138-147 | some line leaves exactly that, and rises or falls with the sign of r |
| `CorrelationFit.CoefficientExists` | backend/app/engine/relationships.py:129-147 | there is a coefficient if and only if there are two pairs and neither column is constant |
| `CorrelationFit.PairsAreComparableRows` | backend/app/engine/relationships.py:118-128 | the pairs are those of the rows in which both cells are finite numbers, in order |
| `Relationships.CauchySchwarz` | backend/app/engine/relationships.py:138-144 | the squared sum of products is at most the product of the sums of squares |
| `Relationships.CoefficientIsBounded` | backend/app/engine/relationships.py:138-147 | over all samples a coefficient lies between -1 and 1 |
| `Relationships.CoefficientIsSymmetric` | backend/app/engine/relationships.py:138-147 | exchanging the columns changes nothing |
| `Relationships.CoefficientIsUnitFree` | backend/app/engine/relationships.py:138-147 | rescaling a column keeps the coefficient, negates it for a negative scale, and leaves none for a zero scale |
| `RelationshipGraph.ReviewPairs` | backend/app/engine/relationships.py:44-79 | n(n-1)/2 pairs are attempted, comparable and skipped ones add up to that, and no edge weighs more than 2 |
| `RelationshipGraph.CombinationsAreThePairs` | backend/app/engine/relationships.py:47-47 | every unordered pair of distinct columns is met, once |
| `RelationshipGraph.EdgesAreTheComparablePairs` | backend/app/engine/relationships.py:47-75 | the edges are exactly the pairs with a coefficient in both windows, each weighing its change |
| `RelationshipGraph.EdgeWeighsTheChange` | backend/app/engine/relationships.py:47-75 | a pair has an edge if and only if both windows give it a coefficient, and it weighs the change of that to four decimals |
| `RelationshipGraph.ChangedAreHeavy` | backend/app/engine/relationships.py:189-189 | the changed edges are those that weigh at least 0.5, in order |
| `RelationshipGraph.SubsystemTotals` | backend/app/engine/relationships.py:190-193 | every subsystem of a changed edge, in the order met, gets the total weight of its edges |
| `RelationshipGraph.BuildSummary` | backend/app/engine/relationships.py:179-211 | counts, the three heaviest subsystems by the total weight of their changed edges, the five heaviest edges, and the clamped and rounded deformation and rounded density |
| `RelationshipGraph.HeaviestAreHeaviest` | backend/app/engine/relationships.py:194-195 | the n first of a list sorted by falling weight: nothing left out is ahead of anything listed, and equal weights keep the order of the list |
| `RelationshipGraph.DeformationFollowsDensity` | backend/app/engine/relationships.py:196-202 | before clamping and rounding, half the density is at most the deformation, and that at most twice the density |
| `HistogramBinning.BinIsUnique` | backend/app/engine/temporal_math.py:303-312 | no value lies in two bins |
| `HistogramBinning.FindBin` | backend/app/engine/temporal_math.py:303-312 | every value between the outer edges lies in some bin |
| `HistogramBinning.CorrectIndexes` | backend/app/engine/temporal_math.py:307-311 | clamp, decrement and increment in place take every guess within one of the true bin to the true bin, the last bin closed |
| `HistogramBinning.LowerIndexes` | backend/app/engine/temporal_math.py:307-309 | clamp and decrement, in place, index by index |
| `HistogramBinning.RaiseIndexes` | backend/app/engine/temporal_math.py:310-311 | increment, in place, index by index |
| `HistogramBinning.CountBins` | backend/app/engine/temporal_math.py:312-312 | counting correct indexes gives every bin its direct count and loses nothing |
| `HistogramBinning.GuessIsNear` | backend/app/engine/temporal_math.py:303-306 | the truncated fraction of the range is within one of the true bin |
| `HistogramBinning.ColumnHistogram` | backend/app/engine/temporal_math.py:295-312 | for every column and bin count the specialised histogram equals the direct count of every bin and sums to the sample size |
| `HistogramBinning.RangeOfColumn` | backend/app/engine/temporal_math.py:295-301 | the range is from least to greatest value, or half a unit to either side of a constant column |
| `HistogramBinning.LinspaceIsEven` | backend/app/engine/temporal_math.py:302-302 | the bin edges span the range evenly |
| `HistogramBinning.CountIsOfValuesBetween` | backend/app/engine/temporal_math.py:307-312 | a bin's count is that of the values from its lower edge up to its upper one, which only the last bin includes |
| `EscalationDecision.DecisionIsExact` | backend/app/engine/temporal_math.py:415-494 | through the accumulation of eight indicators the state is at least Watch, Investigate, Act or Critical if and only if the index reaches its threshold and 0, 3, 4 or 5 indicators reach the larger of the trigger and 0.22; the count of active ones never matters |
| `EscalationDecision.HitsReachBoth` | backend/app/engine/temporal_math.py:415-425 | active indicators reach the trigger; those that count towards a state reach 0.22 as well |
| `EscalationDecision.SufficiencyInIntegers` | backend/app/engine/temporal_math.py:433-433 | data suffice in full from 7 samples + 30 features >= 2400 on, and below that in proportion |
| `EscalationDecision.NothingObservedIsNormal` | backend/app/engine/temporal_math.py:516-524 | with nothing observed the consistency is the neutral half and the state normal |
| `EscalationDecision.GuardsNeverDecide` | backend/app/engine/temporal_math.py:479-494 | neither guardrail in front of the thresholds changes the outcome for any input |
| `EscalationDecision.DecisionIsMonotone` | backend/app/engine/temporal_math.py:479-494 | the state is monotone in score, count and persistence |
| `EscalationDecision.CriticalNeedsDriftAndVariance` | backend/app/engine/temporal_math.py:457-494 | no critical state without state drift of 0.423 and variance growth of 0.0624, whatever else is observed |
| `EscalationDecision.ClampsNeverAct` | backend/app/engine/temporal_math.py:415-476 | for indicators between 0 and 1 every weighted sum of the chain is already between 0 and 1 |
| `EscalationDecision.AccumulationRises` | backend/app/engine/temporal_math.py:415-429 | raising indicators raises score, count and persistence |
| `EscalationScores.MoreScoresNeverLowerTheIndex` | backend/app/engine/temporal_math.py:86-118 | over the evidence as the engine builds it, raising any underlying scores never lowers the exact index from 0.3199 up: the weighted sum always makes up for the consistency lost |
| `EscalationScores.ExactStateIsMonotone` | backend/app/engine/temporal_math.py:86-118 | so without intermediate rounding the state is monotone in the underlying scores, for all inputs |
| `EscalationScores.ReportedIsClose` | backend/app/engine/temporal_math.py:415-476 | the reported index is within 0.0000006 of the exact one |
| `EscalationScores.StateFallsOnlyByTheLastDigit` | backend/app/engine/temporal_math.py:86-118 | with the code's rounding the state falls if and only if the index stood exactly at its state's threshold and lost its last digit, which is the most it can lose; so never when the index stood elsewhere |
| `EscalationScores.TheLastDigitCanFall` | backend/app/engine/temporal_math.py:86-118 | that happens: concrete scores of the default lag search, one digit of mutual information apart, take Watch to Normal |
| `EscalationScores.SpreadGrows` | backend/app/engine/temporal_math.py:523-523 | if no value falls, the standard deviation of nine rises by at most three times what their mean does |
| `EscalationScores.WeightedIsBounded` | backend/app/engine/temporal_math.py:467-475 | by Cauchy-Schwarz the weighted sum of the components stays within 0.7702 standard deviations of 0.87 means |
| `EscalationScores.VariedMeanIsLarge` | backend/app/engine/temporal_math.py:457-476 | an index near the lowest threshold bounds the mean of the nine values from below, the more so the less they vary |
| `EscalationScores.EvidenceIsSound` | backend/app/engine/temporal_math.py:86-105 | the mixtures stay between 0 and 1, so no component is clamped |
| `EscalationScores.RegimeSteps` | backend/app/engine/temporal_math.py:405-406 | the regime score takes four values |
| `EscalationDecision.MoreEvidenceCostsLittle` | backend/app/engine/temporal_math.py:432-476 | for any nine components, whatever the consistency does, raising them costs the index at most 0.0196 |
| `EscalationDecision.MoreEvidenceLowersTheStateByOneStepAtMost` | backend/app/engine/temporal_math.py:95-118 | and the state at most one step |
| `EscalationDecision.EqualValuesAreConsistent` | backend/app/engine/temporal_math.py:516-524 | indicators that all agree have consistency 1 |
| `Rounding.Round6IsMonotone` | backend/app/engine/temporal_math.py:424-476 | rounding a reported value to six decimals keeps order |
| `Rounding.RoundedIsNearest` | backend/app/engine/temporal_math.py:424-476 | a rounded value is the nearest number of units of its last place, the even one of two |
| `ReplayTimeline.FramesFromIntelligence` | backend/replay/structural_replay_engine.py:121-173 | the frame loop lays out exactly the described timeline, empty when no frames are asked for |
| `ReplayTimeline.FrameIsLaidOut` | backend/replay/structural_replay_engine.py:122-137 | frame i of n: four minutes times the compression apart, ending one spacing before the base, each in the phase of its eighth of the flow |
| `ReplayTimeline.DriftIsLinear` | backend/replay/structural_replay_engine.py:131-131 | the drift rises in a straight line from 0.12 to 1, to four decimals |
| `ReplayTimeline.BuildTimeline` | backend/replay/structural_replay_engine.py:35-59 | the number of frames is clamped to 6..80 and the compression to at least 1 |
| `ReplayTimeline.TimelineMovesForward` | backend/replay/structural_replay_engine.py:122-137 | instants strictly increase and precede the base, phases never step back along the flow, the drift never falls |
| `ReplayTimeline.TimelineSpansTheFlow` | backend/replay/structural_replay_engine.py:122-137 | a timeline of two or more frames runs from the first phase at drift 0.12 to the last at drift 1 and ends one spacing before the base |
| `ReplayTimeline.PhaseInIntegers` | backend/replay/structural_replay_engine.py:207-210 | frame i of n shows phase 8i / (n - 1), capped at the last |
| `ReplayTimeline.DistinctPhases` | backend/replay/structural_replay_engine.py:122-125 | a timeline of n frames shows exactly min(n, 8) phases |
| `ReplayTimeline.GradesAreExact` | backend/validation/cognition_validation_framework.py:98-128 | the three grades of a timeline of every length: HIGH from 6 frames, MODERATE from 4, LOW below; coherent tracking from 2; continuity always stable |
| `ReplayTimeline.GradesByCounting` | backend/validation/cognition_validation_framework.py:109-128 | on any timeline, supplied ones included: continuity by the number of tier changes, tracking by the share of frames no lower in drift than the one before |
| `ReplayTimeline.BuiltTimelinesPass` | backend/validation/cognition_validation_framework.py:98-128 | every built timeline gets all three top grades, and shows the whole flow if and only if eight frames are asked for |
| `ReplayTimeline.FrameAtTimestamp` | backend/replay/structural_replay_engine.py:61-72 | the first of the frames nearest in time, or the error of an empty timeline |
| `ReplayTimeline.OwnTimestampFindsTheFrame` | backend/replay/structural_replay_engine.py:61-72 | asking for a frame's own instant finds that frame |
| `ReplayTimeline.FrameRange` | backend/replay/structural_replay_engine.py:74-93 | in either order of its ends a range is one contiguous stretch of the timeline, exactly the frames between them |

## Left out

- `relationship_change_type` and `relationship_change_promotable`: threshold branches on four numbers with no state.
- Identity and policy echoes, evidence labels and derived display fields of both reducers, including `persistence_factor`.
- States a caller corrupted so that fields are missing or of the wrong type: the reducers' error branch for those.
- Naive and aware instants compared with each other, and all parsing of instants.
- HTTP transport, TLS, address checks, header construction and JSON decoding: only their outcomes are modelled.
- Reading and checking the connector configuration, the central egress limits, backfill ranges, and the length and
  prefix handling of cursor strings.
- Turning a record into an observation envelope: a record is usable or carries its failure code.
- Rendering and redaction of log messages, and the lock around the filter.
- The governance registry, its storage, and the canonical encoding in which condition values are compared.
- The choice of the baseline and recent row windows, early exits and messages of `evaluate_relationships`.
- The entropy computed from the histogram, mutual information, lag search, regime detection and the numeric series
  behind the underlying scores, including how change points and state drift constrain each other.
- IEEE rounding inside sums, products and quotients: `HistogramBinning.GuessIsNear` proves the one-off bound of the
  first guess in exact arithmetic, while `HistogramBinning.CorrectIndexes` assumes no more than that bound.
- Frame contents other than instant, phase, drift and confidence tier, and the other grades of the validator.
