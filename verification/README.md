# Verified model of the research service

A Dafny model of the coordination protocols and of the text, stream and vector transformations of
the multi-tenant research service, with proofs over every reachable state, every run and every
input. Language models, executors, embedding providers and the network are oracles: their answers
are inputs, and the lemmas hold for all of them.

| part | modules |
|---|---|
| durable jobs | `Database` (rows and statements), `Leases` (validity intervals), `DurableJobs` (the step relation), `DurableSafety`, `DurableExclusion`, `DurableProgress` (theorems), `JobManager` (task tracking), `Reports` |
| Redis coordination | `Redis`, `Idempotency`, `RateLimiter`, `ResultCache` |
| circuit breaker | `CircuitBreaker` |
| workflow control | `Workflow` (the eight nodes), `Reflection`, `Scouts`, `Writer` |
| text and streams | `Citations`, `Markers` (scanning and replacing), `Rendering`, `SseParser`, `ProgressStream` |
| vectors | `Chunking`, `Indexing`, `VectorStore` |
| shared | `Evidence`, `Text`, `Sorting`, `InsertionOrder` (Python dictionaries), `Histories` (runs of a machine) |

Assumptions: one non-decreasing clock; each SQL statement, SQL transaction and Lua script is one
atomic step; lease and lock tokens are fresh; SHA-256 (a parameter `digest` where it matters) and
the JSON encoding it is applied to are injective; arithmetic on scores and vectors is exact.
`str.casefold` and the square root are function parameters.

Results that differ from what one might expect of the code:

- `DurableExclusion.SharesExactlyWithoutCover`: up to a given time a second task can be inside a task's
  run exactly if the task holds no lease that outlives that time (or the run was shared already).
  `LateWorkerSharesRun` is such a history: a worker that misses its renewal goes on beside its successor.
- `DurableExclusion.SharedExactlyWithADirectCall`: punctual renewal is not enough either. A synchronous
  call takes no lease, so a worker that recovers its run shares it (`DirectCallSharesRun`), and among
  punctual workers that is the only way: one worker and one direct call at most (`AtMostOneExecutes`).
- `Idempotency.AnswersTwiceExactlyIfUnsettled`: after any history, an idempotency key can come to be
  answered with two runs exactly if some caller still needs a lock it has lost without having been told,
  is executing beside a record, or answers with another run than the recorded one; and a key becomes so
  exactly when a needed lock expires (`SettledExactlyWhileLocksLast`). A caller whose renewal is refused
  never answers (`RefusedNeverAnswers`). `ExpiredLockAnswersTwice` is a history with two answers.
- `JobManager.RunningTaskIsMissedExactly`: cancelling a run misses a task of the run that is still running
  exactly if the run was scheduled again, or the manager finished closing, after the task was scheduled
  (`CancelMissesTheOlderTask` is such an order of events).
- `RateLimiter.IntervalBound`: an interval of the window's length lets through at most
  `2 * limit - 1` requests, and that many for some trace (`IntervalBoundIsTight`).
- `SseParser.IndependentOfCutsIff`: the incremental parser depends on how the network cuts the text
  exactly when the text contains two carriage returns before a line feed.
- `ResultCache.EmptyScopeSharesAKey`: the cache key of an empty document scope is also the key of a
  scope with one blank id; keys.py itself only tells a missing scope from an empty one. The API passes
  ids resolved from UUIDs, so only a direct caller of the cache can give a blank id.
  `ResultCache.KeysAgreeExactly` says exactly which requests share a key.
- `Reflection.RaisesExactlyOnShortTopics`: reflection fails exactly when a gap that was not attempted
  has a topic of fewer than three characters once stripped, even if the model could have answered; a gap
  its own schema accepts can have one (`ValidGapRaises`).
- `Rendering.RenderedIsBodyAndReferences`: rendering fails exactly when a listed paper's first author is
  blank (`BlankAuthorFails`).
- `Writer.CountsRightExactlyForTwo`: the stored number of attempts is right for all answers exactly if at
  most two attempts are allowed, which is the default; with three or more it can be wrong
  (`MiscountedAttempts`).

## Model

| member | source | states |
|---|---|---|
| Database.Repository.ClaimLease | app/db/repositories/durability.py:124-174 | a claim succeeds only without a live lease; it takes over an expired one with a new token and the next attempt number, and changes nothing else |
| Database.Repository.RenewLease | app/db/repositories/durability.py:176-213 | only the current, unexpired token of the same worker on an active run extends the lease; otherwise nothing changes |
| Database.Repository.ReleaseLease | app/db/repositories/durability.py:215-235 | only the current token of the same worker deletes the lease row |
| Database.Repository.ListRecoverableRuns | app/db/repositories/durability.py:237-267 | sorts the eligible runs oldest first and takes the first `limit`, for any scan order of the table |
| Database.RecoveredIsOldestFirst | app/db/repositories/durability.py:237-267 | a run is listed exactly when it is active, not under a live lease, and fewer than `limit` such runs are older; the list is oldest first |
| Database.RecoveredAreTheOldest | app/db/repositories/durability.py:237-267 | the listing holds queued or running runs without a live lease, each once, by rising creation time and id, and leaves one out only when it is full of older ones |
| Database.RecoverableOrOwned | app/db/repositories/durability.py:145-173 | at any time an active run is either recoverable, and then every claim is granted, or owned, and then every claim is refused and exactly one token renews |
| Database.ClaimAnswersExactly | app/db/repositories/durability.py:124-174 | when a claim is refused, when it is an error, and the granted row with its times and attempt number |
| Database.ListedUnlessLimited | app/db/repositories/durability.py:248-267 | with room under the limit, exactly the recoverable runs are listed |
| Database.SupersededTokenIsInert | app/db/repositories/durability.py:191-235 | renewing or releasing with a token that is not the row's changes nothing |
| Database.Repository.MarkRunning | app/db/repositories/research_runs.py:107-138 | only a queued run starts running |
| Database.Repository.MarkFailed | app/db/repositories/research_runs.py:172-216 | only an active run fails, with a stripped message |
| Database.Repository.MarkCancelled | app/services/research/postgres.py:178-194 | only an active run is cancelled |
| Database.Repository.MarkCompleted | app/services/research/postgres.py:133-157 | the status change and the report row are one step: both or neither |
| Reports.CreateFromState | app/db/repositories/reports.py:17-84 | the report's columns with their defaults, one row per source with its score and `cited` flag, nothing without a report, rejection on a missing score or a repeated id |
| Reports.RejectedExactly | app/db/repositories/reports.py:28-58 | nothing is stored exactly without a report; rejection exactly without audit or reflection, for an unscored source, or for two sources with one id |
| Reports.RowSaysTheState | app/db/repositories/reports.py:36-53 | every column of the report row, with the defaults of status and attempts |
| Reports.RowsAreTheSources | app/db/repositories/reports.py:55-84 | the stored rows are the evidence sources in order, each with a score computed for it |
| Reports.CitedRowsAreTheCitedIds | app/db/repositories/reports.py:55-81 | the flagged rows are exactly the cited ids if and only if every cited id is in the pool |
| Leases.ClaimKeepsBook | app/db/repositories/durability.py:124-174 | a claim keeps the validity intervals of all tokens of a run disjoint |
| Leases.RenewKeepsBook | app/db/repositories/durability.py:176-213 | so does a renewal, which extends one interval |
| Leases.ReleaseKeepsBook | app/db/repositories/durability.py:215-235 | so does a release, which ends one early |
| Leases.LiveExactlyInSpan | app/db/repositories/durability.py:145-213 | a token is live in the table exactly during its interval |
| DurableSafety.Reachable | app/services/research/jobs.py:204-313 | every state of every interleaving of workers, direct calls, crashes, cancels and ticks satisfies the protocol's invariant |
| DurableSafety.LeasesNeverOverlap | app/db/repositories/durability.py:124-235 | in every reachable state two tokens of one run are valid in disjoint intervals |
| DurableSafety.LeasesNeverAlternate | app/db/repositories/durability.py:124-235 | once another token of the run was live, an earlier one is never live again |
| DurableSafety.SupersededIsInert | app/db/repositories/durability.py:191-235 | from the moment a token lost its row, every renewal and release with it changes nothing, for ever |
| DurableSafety.ActiveRunsAreRecoverableOrOwned | app/db/repositories/durability.py:145-267 | in every reachable state each active run is in exactly one of the two classes |
| DurableSafety.EndedForever | app/db/repositories/research_runs.py:107-245 | a run that has ended keeps its whole row for ever |
| DurableSafety.EndsAtMostOnce | app/db/repositories/research_runs.py:140-245 | at most one terminal transition of a run succeeds, for any interleaving with stale workers |
| DurableSafety.RunChangesExactly | app/db/repositories/research_runs.py:107-245 | what every step does to an active run: it fails exactly by a task's failure with an acceptable message, which becomes its error; it is cancelled exactly by a cancellation, completed exactly by a completion of a running run with a storable state, started exactly by a task that is not resuming; and the times recorded |
| DurableSafety.RunStartsQueued | app/db/repositories/research_runs.py:52-105 | runs come into being only by being queued, with the time of that step and nothing else |
| DurableSafety.EndedByAStep | app/db/repositories/research_runs.py:140-245 | every ended run was ended by one step, at its time, in the status and with the error that step says |
| DurableSafety.LeaseChangesExactly | app/db/repositories/durability.py:124-235 | what every step does to the lease row of a run: a claim writes it, a heartbeat of its holder extends it, a release by its holder removes it, and nothing else touches it |
| DurableSafety.ReturnsAtMostOnce | app/services/research/execution.py:468-597 | `execute_queued` returns normally at most once per run, called with or without a lease |
| DurableSafety.RefusedNeverReturns | app/services/research/jobs.py:291-313 | a worker whose heartbeat is refused inside `execute_queued` never gets a result from it, in any later state |
| DurableSafety.ReportsMatchCompletions | app/services/research/postgres.py:133-157 | a report row exists exactly when the run completed with a report in its final state, and it is that state's report |
| DurableExclusion.SharesExactlyWithoutCover | app/services/research/jobs.py:204-313 | after any history: by a given time a second task can be inside an executing task's run if and only if one has been, or the task's lease row does not outlive that time |
| DurableExclusion.TakeOver | app/services/research/jobs.py:86-114 | whenever the run of an executing task is recoverable, a worker started for it as `start` does can claim it and reach the workflow while that task stays inside the run |
| DurableExclusion.LoneRow | app/services/research/jobs.py:204-313 | in every history the lease row of an executing task's run is its own, or the run was shared |
| DurableExclusion.SharedExactlyWithADirectCall | app/services/research/execution.py:376-400 | among punctual workers a run comes to be shared if and only if it has been, or a call without a lease is inside it |
| DurableExclusion.AtMostOneExecutes | app/services/research/jobs.py:204-313 | if every worker renews before its expiry, two tasks inside one active run are one worker and one call without a lease |
| DurableExclusion.DirectCallWasThere | app/services/research/execution.py:376-400 | a call without a lease that is inside a run has been inside it since the run was queued |
| DurableExclusion.DirectCallSharesRun | app/services/research/jobs.py:86-114 | a history of punctual workers in which a recovering worker shares the run of a synchronous call |
| DurableExclusion.HeartbeatsLand | app/services/research/jobs.py:291-313 | and every heartbeat of an executing worker is accepted |
| DurableExclusion.LateWorkerSharesRun | app/services/research/jobs.py:204-313 | a history in which a worker that slept through its lease starts the run its successor has claimed |
| DurableProgress.UndisturbedWorkerCompletes | app/services/research/jobs.py:204-313 | from every reachable state a recoverable run can be completed with any storable result by one worker, however long it works, if its heartbeats come in time: result, report row and time are recorded, the result is returned, and the lease is given back |
| DurableProgress.WorkerKeepsBeating | app/services/research/jobs.py:291-313 | every heartbeat that comes before the last one's lease expires is accepted, and the worker keeps its place |
| DurableProgress.FailingWorkerLeaves | app/services/research/jobs.py:253-289 | a worker whose workflow raises leaves a failed run with its message, or, with a message that cannot be stored, a run that is recoverable at once |
| DurableProgress.CancelledWorkerLeaves | app/services/research/jobs.py:144-163 | a cancellation under a worker ends the run as cancelled, and the lease is given back |
| JobManager.Manager.Schedule | app/services/research/jobs.py:133-142 | the new task is tracked in all three structures and becomes its run's task |
| JobManager.StartSchedulesEach | app/services/research/jobs.py:98-111 | starting schedules every listed run, one after the other |
| JobManager.Manager.TaskCompleted | app/services/research/jobs.py:184-202 | the finished task leaves all structures; its run's entry only if it is still its own |
| JobManager.Manager.EndClose | app/services/research/jobs.py:165-182 | closing empties the structures |
| JobManager.ClosedExactly | app/services/research/jobs.py:165-168 | the manager is closed exactly after a `close` has begun |
| JobManager.AlwaysConsistent | app/services/research/jobs.py:133-202 | the three structures agree after any order of schedules, completions, cancels and closes |
| JobManager.OlderNeverEvictsNewer | app/services/research/jobs.py:184-202 | an older task of a run finishing never removes the newer one |
| JobManager.CancelFindsExactly | app/services/research/jobs.py:144-163 | after any order of events cancelling a run interrupts a task if and only if it is the unfinished task of the run's last schedule and the manager has not finished closing since |
| JobManager.RunningTaskIsMissedExactly | app/services/research/jobs.py:133-202 | a task that still runs is missed if and only if its run was scheduled again or the manager finished closing since |
| JobManager.CancelMissesTheOlderTask | app/services/research/jobs.py:133-202 | an order of events in which cancelling a run finds nothing although a task of it runs |
| JobManager.TracksExactly | app/services/research/jobs.py:133-202 | the structures hold exactly the tasks scheduled and not yet called back or closed over |
| JobManager.QuiescentIsEmpty | app/services/research/jobs.py:165-202 | when all tasks are done all three are empty |
| Redis.Client.SetIfAbsent | app/services/cache/redis.py:248-274 | stores only over an absent or expired key |
| Redis.Client.DeleteIfValue | app/services/cache/redis.py:276-307 | deletes only the live expected value |
| Redis.Client.ExtendIfValue | app/services/cache/redis.py:309-345 | extends only the live expected value |
| Redis.DeleteIsRead | app/services/cache/redis.py:11-16 | afterwards the key reads as absent exactly if it read as the expected value, and every other key as before |
| Redis.ExtendIsRead | app/services/cache/redis.py:18-23 | the value lives for the whole lifetime from now on exactly if it was live |
| Redis.SetIsRead | app/services/cache/redis.py:219-246 | the key reads as the value for its lifetime |
| Redis.Counters.IncrementWithTtl | app/services/cache/redis.py:347-398 | counts, and attaches the lifetime with the increment that creates the counter |
| Redis.IncrementIsRead | app/services/cache/redis.py:25-32 | a counter counts from one within a lifetime that its first increment fixes |
| Idempotency.FingerprintIdentifies | app/services/cache/idempotency.py:17-65 | fingerprints are equal exactly for the same stripped query, provider, user and document scope up to order and padding |
| Idempotency.OneRunPerKey | app/services/research/idempotency.py:158-214 | while no lock of the key expires under a caller that needs it, all successful answers for the key come from one fingerprint and carry one run, for any number of callers and any failures |
| Idempotency.OneRecordPerKey | app/services/research/idempotency.py:282-306 | and at most one record is ever stored for it |
| Idempotency.AnswersTwiceExactlyIfUnsettled | app/services/research/idempotency.py:117-280 | after any history whatsoever, two runs can come to be answered for a key without a further lock expiring if and only if the key is not settled |
| Idempotency.SettledExactlyWhileLocksLast | app/services/research/idempotency.py:117-280 | a step unsettles a key if and only if it lets a lock expire that a caller still needs |
| Idempotency.LapsedHolderAnswersTwice | app/services/cache/locks.py:40-89 | from any state in which a caller that has not been refused a renewal still needs a lock it has lost, and there is no record, two runs can be answered |
| Idempotency.RefusedNeverAnswers | app/services/research/idempotency.py:227-280 | a caller whose renewal is refused is cancelled: in every later state it has failed and stored nothing |
| Idempotency.RefusalSettlesTheCaller | app/services/research/idempotency.py:255-280 | after a refused renewal the key is settled if and only if all the other callers of the key are |
| Idempotency.ExpiredLockAnswersTwice | app/services/cache/locks.py:40-89 | such a history exists, even for two different requests |
| Idempotency.Service.RenewPeriodically | app/services/research/idempotency.py:255-280 | the lock is kept exactly while every answered renewal finds it live and its own; a renewal without an answer is passed over |
| Idempotency.Service.ExecuteLocked | app/services/research/idempotency.py:216-253 | a result is recorded only while the lock is kept, and before it is released |
| Idempotency.Service.Execute | app/services/research/idempotency.py:117-214 | the whole call: reply, stored record with its lifetime, and lock for every case, and when the arguments are refused |
| Idempotency.ExecuteTwice | app/services/research/idempotency.py:282-306 | after a successful call, while its record lives, the same request is answered with the same run and any other request with a conflict |
| Idempotency.UndisturbedCallIsProtocol | app/services/research/idempotency.py:117-280 | from any reachable state, the steps of one caller whom nobody disturbs, renewals included, end in the reply and the record of `Execute` |
| Idempotency.DecidedExactly | app/services/research/idempotency.py:282-394 | the exact causes of each reply: a record of the same or of another request, a live lock, an outage while looking, locking or storing, a failed, cancelled or abandoned execution |
| Idempotency.EveryReplyWasDecided | app/services/research/idempotency.py:117-280 | along every history each reply has such a cause at one step and is not changed after it |
| Idempotency.HandedOutExactly | app/services/research/idempotency.py:164-202 | which replies are handed out at once and which only after the release of the lock, whether or not the release succeeds |
| RateLimiter.Limiter.Check | app/services/cache/rate_limits.py:59-93 | one increment, and the decision for the new count and the seconds its window has left |
| RateLimiter.CheckAll | app/services/cache/rate_limits.py:59-93 | a client's requests one after the other are answered as `Decisions` lists |
| RateLimiter.DecisionsAreAllowed | app/services/cache/rate_limits.py:78-93 | a request is answered "allowed" exactly as it is counted, over every trace |
| RateLimiter.AnswersInNewWindow | app/services/cache/rate_limits.py:78-93 | the i-th request of a window, from zero, is allowed exactly if i < limit, with max(limit - i - 1, 0) remaining and a reset after 1 second at least and the window at most |
| RateLimiter.AnswersInWindow | app/services/cache/rate_limits.py:78-93 | likewise in a window some requests were counted in already |
| RateLimiter.TenantsAreIsolated | app/services/cache/rate_limits.py:59-93 | a tenant's counter depends only on its own requests |
| RateLimiter.ExactWithinWindow | app/services/cache/redis.py:24-31 | within a window exactly the requests up to the limit pass |
| RateLimiter.DecidedPerWindow | app/services/cache/rate_limits.py:59-93 | the decisions on any trace are those of the windows it falls into, the first `limit` requests of each allowed |
| RateLimiter.EveryWindowAllowsExactly | app/services/cache/rate_limits.py:59-93 | min(n, limit) of the n requests of a window pass, wherever in a trace it opens |
| RateLimiter.AllowedOfSplit | app/services/cache/rate_limits.py:59-93 | a trace is decided part by part, each part from the window the one before left |
| RateLimiter.IntervalBound | app/services/cache/rate_limits.py:59-93 | at most 2 * limit - 1 requests pass in any interval of the window's length, for every trace |
| RateLimiter.IntervalBoundIsTight | app/services/cache/rate_limits.py:59-93 | that bound is reached for every limit and window |
| CircuitBreaker.Circuit.BeforeCall | app/core/circuit_breaker.py:80-100 | who is admitted and the new state |
| CircuitBreaker.AdmittedExactly | app/core/circuit_breaker.py:80-122 | after any events a call is let through if and only if fewer than `threshold` failures finished since the last success, or the last failure is a reset timeout ago and no trial has begun since |
| CircuitBreaker.Circuit.OnSuccess | app/core/circuit_breaker.py:102-107 | a success closes the circuit and clears all counters, in whatever state the call finishes |
| CircuitBreaker.Circuit.OnFailure | app/core/circuit_breaker.py:109-122 | a failure re-opens a half-open circuit or counts towards the threshold |
| CircuitBreaker.AlwaysConsistent | app/core/circuit_breaker.py:80-122 | closed iff failures below the threshold, half-open iff the trial flag is set, opening time set iff not closed, for any interleaving of begins and finishes |
| CircuitBreaker.ClosedIffFewFailures | app/core/circuit_breaker.py:102-122 | closed exactly while fewer than `threshold` failures finished since the last success |
| CircuitBreaker.AdmissionsAreSpaced | app/core/circuit_breaker.py:80-122 | without a success, admissions after opening are at least a reset timeout apart |
| CircuitBreaker.AdmissionsAreBounded | app/core/circuit_breaker.py:80-122 | so at most floor(L / reset) + 1 get through in length L |
| CircuitBreaker.OneAdmissionPerEpisode | app/core/circuit_breaker.py:91-100 | a half-open episode admits one call |
| Workflow.WebScoutNode | app/workflow/graph.py:596-644 | outcomes and MCP error messages appended, web and MCP pools merged, statuses as decided from the outcomes |
| Workflow.WebScoutReports | app/workflow/graph.py:597-633 | each web status exactly from the tasks, outcomes and sources; outcomes appended; the pool's ids are the old and the found ones |
| Workflow.McpScoutReports | app/workflow/graph.py:607-624 | the same for the MCP servers, which are asked exactly if there are any and there is a task |
| Workflow.LocalScoutNode | app/workflow/graph.py:654-690 | private pool merged, errors appended; refused without a tenant |
| Workflow.LocalScoutReports | app/workflow/graph.py:662-690 | the same for the local scout |
| Workflow.ReflectNode | app/workflow/graph.py:755-789 | reflection's decision under the round budget, with the queries recorded as attempted |
| Workflow.ReflectionLeadsExactly | app/workflow/graph.py:755-802 | when reflection fails, when it starts a supplementary round and when it goes on to write |
| Workflow.RouteAndPlanAreKept | app/workflow/graph.py:908-918 | the route and the planned tasks are what later nodes work with, and no other node changes them |
| Workflow.JudgementsAreKept | app/workflow/graph.py:700-753 | the same for what the judge and the analyst answer |
| Workflow.RunLengthIsBounded | app/workflow/graph.py:883-989 | every run takes at most 6 * max_iterations + 8 node steps, whatever the agents answer |
| Workflow.SupplementaryRoundsAreBounded | app/workflow/graph.py:750-802 | at most max_iterations supplementary rounds |
| Workflow.RoundsAreWhole | app/workflow/graph.py:958-987 | no run skips a node: reflection always follows a plan or a dispatch, both scouts in either order, the judge and the analyst, and a further round or the writer follows reflection |
| Workflow.WritingEnds | app/workflow/graph.py:813-859 | the writer fails the run exactly when its loop does, and otherwise finishes it with the loop's outcome |
| Workflow.WriterComesLast | app/workflow/graph.py:969-989 | the writer runs at most once and last |
| Workflow.FinishedByWriterOrAnswer | app/workflow/graph.py:947-989 | a finished run ended with a direct answer or with the writer, and only the latter leaves a report |
| Workflow.RoundQueriesAreNew | app/workflow/graph.py:755-789 | every query a round adds differs, up to stripping and case, from everything attempted at any earlier point |
| Workflow.RoundsNeverRepeat | app/workflow/graph.py:755-789 | no two rounds of a run share a query |
| Workflow.EveryQueryIsScouted | app/workflow/graph.py:535-553 | every supplementary query becomes a task of each scout its preference names, at least one |
| Workflow.PoolsOnlyGrow | app/workflow/graph.py:556-692 | over a run the web, MCP and private pools never lose an id and keep the earlier ids' order |
| Workflow.ScoutsCommute | app/workflow/graph.py:590-692 | the scouts' updates give the same state in either order, the one computed from the state the round began with |
| Workflow.ExchangingScouts | app/workflow/graph.py:969-986 | exchanging the scouts of a round changes no other state of the run |
| Workflow.CompletedRunsAreSound | app/workflow/graph.py:813-859 | a run that ends with a completed report ends with a sound one, and its stored rows flag exactly the cited ids |
| Reflection.Reflect | app/agents/reflection.py:33-104 | the loop keeps exactly the queries that repeat neither an attempted one nor an earlier one, falls back to the gaps without a valid reply, and ignores the status the model asks for |
| Reflection.FallbackFollowUp | app/agents/reflection.py:107-139 | the loop turns the gaps that were not attempted into at most six stripped queries, or fails on one that is too short |
| Reflection.FallbackAsksForGaps | app/agents/reflection.py:107-139 | every fallback query asks for a gap, with its stripped topic, preference and reason, and every new gap is asked for unless there are six queries |
| Reflection.ValidRepliesAreFollowed | app/agents/reflection.py:67-104 | a reply within the schema's bounds is followed: its new queries, all of them and only them |
| Reflection.OtherRepliesAreIgnored | app/agents/reflection.py:57-73 | any other reply leaves the decision to the gaps |
| Reflection.NovelIsNew | app/agents/reflection.py:74-92 | the kept queries were not attempted and differ from one another |
| Reflection.NovelIsComplete | app/agents/reflection.py:74-92 | no new query is dropped |
| Reflection.ContinuesOnlyWithNewQueries | app/agents/reflection.py:33-139 | a round has one to six queries, all new, whatever the model answers |
| Reflection.WritesExactlyWhenNothingNew | app/agents/reflection.py:33-139 | it decides to write exactly when nothing is missing or nothing new was proposed |
| Reflection.RaisesExactlyOnShortTopics | app/agents/reflection.py:107-130 | it fails exactly on a new gap whose stripped topic is shorter than the query schema allows |
| Reflection.ValidGapRaises | app/schemas/workflow.py:23-30 | the gap schema accepts such a topic, as it counts characters before stripping |
| Scouts.EveryQueryReachesAScout | app/workflow/graph.py:535-553 | each query becomes a numbered task of exactly the scouts its preference names |
| Scouts.FollowUpsAreWanted | app/workflow/graph.py:535-553 | and a scout gets no other follow-up task |
| Scouts.ScoutsGetExactly | app/workflow/graph.py:535-553 | a scout's tasks are the plan's, or in a supplementary round exactly the numbered queries that do not prefer the other scout |
| Scouts.MergeSources | app/workflow/graph.py:556-565 | the loop files both lists in an insertion-ordered dictionary keyed by id |
| Scouts.MergeExtends | app/workflow/graph.py:556-587 | merging keeps every earlier id in place, adds exactly the new ids, repeats none |
| Scouts.MergeKeepsTheLatest | app/workflow/graph.py:556-587 | for each id the last source given is kept |
| Writer.Review | app/agents/reflection.py:141-210 | the quality gate: reasons, count, average, verdict, human review |
| Writer.ApprovedIffNothingWrong | app/agents/reflection.py:141-210 | approved exactly when the pool is large and good enough, the audit is clean, and a top-scored private source is cited |
| Writer.DecisionMeasures | app/agents/reflection.py:149-210 | a decision counts its scores and averages them: zero for none, the score for one, and parts weighed by their counts; it asks for a human exactly in a high-risk domain |
| Writer.ReasonsAreExact | app/agents/reflection.py:157-187 | each reason is given exactly when its condition holds; the private source named is the first with the highest score |
| Writer.AverageIsBounded | app/agents/reflection.py:150-155 | the average lies between any bounds on the scores |
| Writer.WriteNode | app/workflow/graph.py:813-859 | the loop stops at the first approved attempt or after max_attempts, or raises when the model fails or writes a blank text |
| Writer.RaisesExactly | app/workflow/graph.py:820-841 | the loop fails exactly if an attempt leaves no report before one was approved |
| Writer.WriteFromStopsAtTheFirstApproved | app/workflow/graph.py:820-841 | report, audit and decision come from the same attempt, every earlier one was rejected, at most max_attempts are made and fewer only after an approval |
| Writer.GivesUpOnlyAfterEveryAttempt | app/workflow/graph.py:820-859 | an uncompleted result means every attempt was made and rejected |
| Writer.DraftIsTheLastRejected | app/workflow/graph.py:840-848 | the draft is the last rejected report, or the report when none was rejected |
| Writer.CountsRightExactlyForTwo | app/workflow/graph.py:820-854 | the reported number of attempts is the real one for all evidence and all answers if and only if max_attempts is at most two |
| Writer.MiscountedAttempts | app/workflow/graph.py:820-854 | for every larger max_attempts, evidence that satisfies the default policy and two answers for which it is wrong |
| Writer.CompletedMeansSound | app/workflow/graph.py:813-859 | a completed report cites something, only sources of the pool, in every claim paragraph, and a top-scored private source |
| Writer.StoredRowsAreTheCitedIds | app/db/repositories/reports.py:55-81 | the rows stored for it flag exactly the ids its text cites |
| Citations.CitationsAreMarkers | app/services/evidence/citations.py:6 | the citation pattern matches bracketed text without whitespace, recognised by its own characters |
| Citations.CitationsExactly | app/services/evidence/citations.py:6 | a text begins with a citation exactly if it begins with one of the four kinds of source id in square brackets |
| Citations.ClaimsExactly | app/services/evidence/citations.py:46-55 | a claim is a stripped paragraph of 20 characters at least that begins neither with # nor, in any case, with "sources:" |
| Citations.AuditSaysExactly | app/services/evidence/citations.py:20-41 | unknown are the cited ids outside the pool, uncited the claims without a citation |
| Citations.CoverageIsTheShare | app/services/evidence/citations.py:30-42 | the coverage is the share of claims with a citation, or one without claims |
| Citations.ClaimCitationsAreCited | app/services/evidence/citations.py:12-55 | a claim paragraph's citations are citations of the report |
| Citations.ValidMeansCovered | app/services/evidence/citations.py:12-43 | an audit is valid exactly when the report cites something, only the pool, and the pool in every claim paragraph |
| Markers.FindsIffOccurs | app/services/evidence/citations.py:30-34 | a scan finds something exactly when some position starts a marker |
| Markers.MarkersSurviveCutting | app/services/evidence/citations.py:46-55 | cutting at blank lines neither loses nor breaks nor invents a marker |
| Markers.ParagraphsAreCutAtGaps | app/services/evidence/citations.py:46-55 | paragraphs contain no blank line, and the text is the paragraphs with blank lines between them |
| Markers.ReplaceLeavesTheKept | app/services/research/report_rendering.py:31-45 | replacing never creates, merges or loses a marker: a scan of the result finds exactly the kept ones in order |
| Markers.Substitute | app/services/research/report_rendering.py:29-45 | one pass replaces every marker and collects the known ids, each once |
| Rendering.RenderReportContent | app/services/research/report_rendering.py:11-62 | the two loops produce the body with every known citation replaced by its number and, unless nothing known is cited, the reference list below it |
| Rendering.BodyKeepsUnknownCitations | app/services/research/report_rendering.py:31-45 | scanning the rewritten body yields exactly the unknown citations in their order |
| Rendering.CitationsAreReplacedBy | app/services/research/report_rendering.py:31-43 | a known citation becomes its number in brackets, an unknown one stays |
| Rendering.ReferencesAreTheKnownCitations | app/services/research/report_rendering.py:47-62 | the references are exactly the known cited ids, in strictly ascending number |
| Rendering.NumberIsLastPlace | app/services/research/report_rendering.py:25-28 | a source's number is its last place in the list, counted from one |
| Rendering.LinesListTheSources | app/services/research/report_rendering.py:53-61 | the i-th line is the i-th listed source's, under the number used inline |
| Rendering.InlineIdentifies | app/services/research/report_rendering.py:31-43 | two known citations are rendered alike exactly when they cite the same source |
| Rendering.RenderedIsBodyAndReferences | app/services/research/report_rendering.py:45-75 | the text itself when nothing known is cited, otherwise body then references; failure exactly on a listed paper whose first author is blank |
| Rendering.RenderedReads | app/services/research/report_rendering.py:45-62 | the whole text: body, heading, and one line per reference, each listing its source |
| Rendering.BlankAuthorFails | app/services/research/report_rendering.py:67-75 | a report and a source list on which it fails |
| SseParser.ReadsParseAsTheWhole | frontend/src/lib/research-api.ts:93-140 | however the text is cut into reads, the chunks and the remainder are those of the whole |
| SseParser.IndependentOfCutsIff | frontend/src/lib/research-api.ts:93-140 | that holds exactly for texts without two carriage returns before a line feed |
| SseParser.SplittingIsExact | frontend/src/lib/research-api.ts:97-99 | the chunks with their separators and the remainder give back the normalized buffer, and no chunk could have ended earlier |
| SseParser.ParsingIsFeeding | frontend/src/lib/research-api.ts:97-99 | normalizing and splitting a buffer is one pass over its characters |
| ProgressStream.ParseSseFrames | frontend/src/lib/research-api.ts:93-116 | the loops produce one frame per chunk with data (last event name, data lines joined) and leave the text after the last blank line |
| ProgressStream.FieldsOfLine | frontend/src/lib/research-api.ts:104-110 | the last event line names the event, every data line adds to the data, other lines say nothing |
| ProgressStream.DataLinesAreJoined | frontend/src/lib/research-api.ts:100-113 | data lines without an event name make a frame named "message" of the joined lines |
| ProgressStream.StreamResearchProgress | frontend/src/lib/research-api.ts:118-155 | the client delivers the progress frames of all reads in order and stops at the first error frame, as if it had parsed all reads with their remainders carried over |
| ProgressStream.ResearchProgressEvents | app/api/research.py:152-211 | the server sends what changed, a keepalive after too long a silence, and stops at a terminal status or an error |
| ProgressStream.SendsExactly | app/api/research.py:195-211 | at every poll of a run in progress the server sends a new payload, or a keepalive exactly if nothing was sent for the heartbeat interval |
| ProgressStream.FeedFrame | app/api/research.py:195-205 | a written frame comes out of the parser as the chunk that went in |
| ProgressStream.EndToEnd | app/api/research.py:152-211 | for all polls and all cuts the callback gets the polled payloads with adjacent repeats removed, keepalives disappear, and an error is raised exactly when polling ended in one |
| ProgressStream.BrokenConnection | frontend/src/lib/research-api.ts:118-155 | a connection broken at any point has delivered a prefix of that |
| Chunking.ChunkDocument | app/services/knowledge/chunking.py:9-63 | bad settings, a chunk too long for its schema, or exactly the chunks |
| Chunking.ChunkHoldsItsWords | app/services/knowledge/chunking.py:36-57 | a chunk carries its document's fields and the text of exactly the words it says it holds |
| Chunking.FitsExactly | app/services/knowledge/chunking.py:45-57 | a document is refused exactly for a chunk of more than 20,000 characters |
| Chunking.ChunksTile | app/services/knowledge/chunking.py:33-61 | first word to last word, exact overlap, a new word in every chunk, and the count |
| Chunking.ChunksGiveBackTheWords | app/services/knowledge/chunking.py:33-61 | the words of the chunks' texts without their overlaps are the document's words |
| Chunking.ChunkIdsIdentify | app/services/knowledge/chunking.py:41-48 | chunk ids are equal exactly for the same document, position and text |
| Text.WordsOfJoin | app/services/knowledge/chunking.py:39 | splitting undoes joining words with spaces |
| Indexing.EmbedAll | app/services/knowledge/indexing.py:72-102 | the loop collects the vectors of all batches in order, or gives up on the first reply with a wrong count or dimension |
| Indexing.GoodExactly | app/services/knowledge/indexing.py:72-98 | every batch, started at a multiple of the batch size, must be answered by one vector per text, each of the right dimensions |
| Indexing.WritesAllInPairs | app/services/knowledge/indexing.py:64-118 | something is written exactly when every batch and every vector is good, and then one record per chunk, the i-th with the i-th vector, for every batch size |
| Indexing.BatchSizeDoesNotMatter | app/services/knowledge/indexing.py:72-102 | for a provider that embeds text by text the batch size makes no difference |
| Indexing.EveryChunkIsStored | app/services/knowledge/indexing.py:104-118 | afterwards every chunk is stored under its own key with its own vector |
| Indexing.OtherKeysAreUntouched | app/services/knowledge/indexing.py:104-118 | and every other key is as it was |
| Indexing.KnowledgeIndexer.IndexDocument | app/services/knowledge/indexing.py:58-118 | all records or none, and the store's new contents |
| VectorStore.InMemoryVectorStore.Upsert | app/services/vector_store/memory.py:34-59 | validates all records, then writes all or none |
| VectorStore.AcceptedExactly | app/services/vector_store/memory.py:145-173 | a vector is accepted, and then kept as it is, exactly if it has the dimensions asked for, only numbers, and not only zeros |
| VectorStore.InMemoryVectorStore.Search | app/services/vector_store/memory.py:61-109 | when a search is rejected and what it returns otherwise |
| VectorStore.InMemoryVectorStore.DeleteDocument | app/services/vector_store/memory.py:111-140 | removes exactly the tenant's records of the document and counts them |
| VectorStore.SearchIgnoresHistory | app/services/vector_store/memory.py:89-109 | results depend only on the contents, not on insertion order or history |
| VectorStore.SearchIsTopRanked | app/services/vector_store/memory.py:89-109 | a record is returned exactly when it is eligible and fewer than `limit` eligible ones rank before it by (score descending, chunk id) |
| VectorStore.SearchStaysInScope | app/services/vector_store/memory.py:89-109 | every match is a chunk stored for the tenant and the documents asked for, with the cosine of its vector, and with fewer than `limit` matches all of those are returned |
| VectorStore.HitsAreOrdered | app/services/vector_store/memory.py:103-109 | matches come by falling score, equal scores by rising chunk id |
| VectorStore.LeftOutComesBehind | app/services/vector_store/memory.py:103-109 | a chunk in scope that is left out comes behind every match of a full result |
| VectorStore.NothingBetterIsLeftOut | app/services/vector_store/memory.py:103-109 | what is left out ranks behind everything returned, and only a full result leaves anything out |
| VectorStore.CauchySchwarz | app/services/vector_store/memory.py:175-190 | the inequality behind the score's range |
| VectorStore.ScoresAreBounded | app/schemas/source.py:90-93 | every score is in [-1, 1] |
| VectorStore.ScoreIsTheCosine | app/services/vector_store/memory.py:175-190 | the score times both magnitudes is the inner product, so it has its sign |
| ResultCache.KeysIdentify | app/services/cache/keys.py:15-58 | two requests with any document ids share a key exactly when tenant, provider and hashed text agree: no part of a key runs into the next |
| ResultCache.KeyReads | app/services/cache/keys.py:31-58 | which requests have a key, and its text: the stripped ids go into it as often as given and in rising order |
| ResultCache.KeysIdentifyRequests | app/services/cache/keys.py:15-58 | for ids without separators: exactly when their canonical forms agree |
| ResultCache.GetFindsWhatWasSet | app/services/cache/research_results.py:34-96 | for ids without separators: after a result was set for one request, it is found for exactly the requests with the same canonical form, until it expires, and every other request finds what it did before |
| ResultCache.KeysAgreeExactly | app/services/cache/keys.py:15-58 | tenant, provider and stripped query equal and scopes equal as multisets, None apart; the one exception is an empty scope against a single blank id |
| ResultCache.EmptyScopeSharesAKey | app/services/cache/keys.py:22-49 | that exception occurs |
| ResultCache.SeparatorInAnIdSharesAKey | app/services/cache/keys.py:44-49 | ids containing a comma could not be told apart |
| ResultCache.RedisResearchResultCache.Get | app/services/cache/research_results.py:34-73 | the string-keyed cache answers as a map from what its keys tell apart, for all requests; a garbled entry or another provider's is deleted |
| ResultCache.RedisResearchResultCache.Set | app/services/cache/research_results.py:75-96 | and is updated as that map |
| ResultCache.RedisResearchResultCache.Delete | app/services/cache/research_results.py:98-117 | likewise for deletion |

## Left out

- ResultCache.KeysIdentifyRequests: for document ids whose stripped form has no comma and no line feed (the API only accepts UUIDs); see `SeparatorInAnIdSharesAKey`. `ResultCache.KeysIdentify` has no such condition.
- SseParser.ReadsParseAsTheWhole: works on decoded text; splitting of UTF-8 sequences across reads is left to the browser's decoder.
- ProgressStream.EndToEnd: payloads are JSON object texts without line breaks, as the serializer writes them; parsing them back is not modelled.
- Chunking.ChunkIdsIdentify: the 64-bit truncation of the digest is covered by taking the truncated digest as injective.
- VectorStore.ScoresAreBounded: over exact reals; floating-point rounding is not modelled.
- ProgressStream.StreamResearchProgress: starts from the text of a successful response; the check of the response and the JSON parsing of payloads are not modelled.
- Writer.Review: averages and coverage are exact, not rounded to four decimals; the texts of the reasons and of the human-review notice are tags.
- Reports.CreateFromState: the human-review text, the venue and the ids of tenant and run are not columns of the model.
- Redis.Client.SetIfAbsent: blank or padded keys, lifetimes below one and a lost connection are errors the model's method does not raise; what a lost reply does to callers is a step of `Idempotency` (`AcquireUnavailable`).
- Redis.Client.DeleteIfValue: the same (`ReleaseUnavailable`), and a blank expected value.
- Redis.Client.ExtendIfValue: the same (`Beat.Lost`), and a blank expected value.
- Redis.Counters.IncrementWithTtl: the same, and replies of the wrong shape; the lifetime in whole seconds is Redis's own rounding.
- RateLimiter.Limiter.Check: the error for an unreachable Redis.
- DurableExclusion.AtMostOneExecutes: under the condition that executing workers renew in time; `SharesExactlyWithoutCover` is the exact statement without it.
- DurableExclusion.SharesExactlyWithoutCover: counts a worker that was refused a heartbeat as inside the run until its cancellation has taken it out of `execute_queued`, which closes the workflow first.
- Idempotency.Service.ExecuteLocked: with Redis in reach except for renewals; failures to store and to release are steps of the protocol above it (`StoreUnavailable`, `ReleaseUnavailable`).
- Idempotency.Service.Execute: the same; malformed stored records, which the code deletes and reads as absent, are not modelled, and the result of the provider's normalization is an argument.
- Idempotency.OneRunPerKey: covers the time while the key's record is live; the expiry of records is modelled in `Service` only.
- DurableJobs: what one worker does (`_execute_owned`, `_heartbeat`, `execute_queued`) is a set of steps of a relation, because their interleavings are the point; the rows and the manager's fields they change are updated in place in `Database` and `JobManager`.
- Workflow: an exception in a node ends the run; what the graph keeps of a half-done round is not modelled.
- Fencing of status writes: `mark_failed` and `mark_completed` do not check the lease token, so no claim is made that only the current owner changes a status.
- Checkpoint numbering, checkpoint and audit rows, agent-step traces, progress publishing.
- Reports submitted through MCP.
- Liveness of the circuit breaker: a cancelled half-open trial is never recorded.
- Equality of replayed or cached results with the original ones beyond the run id: both drop fields.
- Distinctness of the queries within one round taken from the gaps: the code filters them only against attempted queries.
- The Evidence Judge's own scoring and deduplication: its result is arbitrary in the model.
- The older three-agent graph, the planner's and analyst's prompts, URL handling, search, MCP, Milvus, S3 and PDF clients, routing, sessions, views.
- Concurrent deletion and re-indexing of one document.
