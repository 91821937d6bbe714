# Verified models of Axiomify's stateful core

A Dafny 4.11 project that models the parts of the Axiomify repository whose correctness is not
visible from one function body, and proves what they promise. `dafny verify dfyconfig.toml` checks
all of it.

- **Distributed job queue.** `RedisQueue*.dfy` treats every Redis command as one atomic step of a
  protocol run by any number of workers, with stale candidate lists and a stale index.
  `Scheduler.dfy` is the worker loop on the event loop. `MemoryJobs.dfy`, `JobWorker.dfy`,
  `JobRuns.dfy` and `JobTheorems.dfy` are the in-memory store, the worker, and whole runs of jobs
  with retries, dead letters and purges; `Saga.dfy` puts compensations on top.
- **Trie router.** `RouterSpec.dfy` says what a lookup means over the list of registrations;
  `RouterTrie.dfy` and `Router.dfy` are the mutable trie with its shared accumulator, and
  `RouterTheorems.dfy` is about the specification. The preference among parameters is by age of
  their trie node, and a node is made by any registration attempt that walks through it, also one
  that is then rejected. So a rejected attempt changes no lookup by itself, but can change which of
  two later routes is preferred. `RouterTraces.dfy` and `RouterClaims.dfy` prove exactly when. In the
  warning mode: when some request reaches a parameter node that the attempt made and no preferred
  route answers it; a collision never does harm, and neither does an attempt that made no new
  parameter node. In the default mode, where conflicts throw: when two further routes that conflict
  with nothing contend for such a node. In the default mode the rejected path also keeps its
  normalized form, so a later renaming of its parameters is refused for a conflict; the attempt goes
  unnoticed by every later registration and lookup exactly when it was itself refused for a conflict,
  or its path had been attempted before, or it has no parameter. A concrete input fails in the
  default mode.
- **GraphQL cost analysis.** `GraphQLCost.dfy` compares the memoised analysis with full inlining;
  `GraphQLRule.dfy` is the rule with its memo and visited set. The analysis terminates for every
  document. `GraphQLCycles.dfy` proves for which documents its answer does not depend on the
  operations analysed before: exactly those in which fragments that lead to each other lead to no
  field. So a fragment that spreads itself does no harm, and two fragments that spread each other do
  as soon as one of them has a field; one lemma exhibits such a document.
- **Sliding-window rate limiter.** `RateLimitSpec.dfy`, `RateLimitMemory.dfy` and
  `RateLimitRedis.dfy`: one specification, two stores. They agree if and only if the window is
  positive.
- **RESP2 client.** `Resp.dfy` (printing and parsing), `RespStream.dfy` (chunks and waiting
  commands), `MiniRedis.dfy` (the object and its loops).
- **Response cache.** `CacheStore.dfy` and `CacheHistory.dfy` (the LRU store), `CacheProtocol.dfy`
  (requests, stale-while-revalidate, refresh claims), `Query.dfy`, `QueryParser.dfy`,
  `UriComponent.dfy` and `CacheKey.dfy` (canonical queries and keys).
- **Cookies.** `CookieText.dfy`, `Cookies.dfy`, `CookieRoundTrip.dfy`, `CookieCode.dfy`. The
  documented round trip of a value fails for exactly one family: a value made only of characters
  that need no encoding, with at least one percent sign and only valid percent escapes, is written
  unchanged and read decoded. `%41` comes back as `A`; `%41%zz` survives, because one malformed escape
  keeps the whole value from being decoded.
- **Circuit breaker** (`CircuitBreaker.dfy`) and **refresh-token rotation** (`RefreshTokens.dfy`).

The functions on values that the methods are proved against have their meaning proved in terms of
the data alone, so that a wrong branch in function and method alike does not pass. Larger such
proofs have a file of their own: `RedisAcquire.dfy`, `RedisSteps.dfy`, `JobStoreMeaning.dfy`,
`JobTiming.dfy`, `JobCounts.dfy`, `RouterMeaning.dfy`, `GraphQLCounts.dfy`, `RateLimitDecision.dfy`,
`RespMeaning.dfy`, `CacheService.dfy`, `CacheContents.dfy`, `QueryMeaning.dfy` and `CookieMeaning.dfy`.

Code that changes state is modelled by classes whose methods are proved against functions on
values; protocols that interleave at awaits are state machines over their steps, and the theorems
quantify over every run. Strings are sequences of Unicode scalar values; RESP works on bytes. The
clock, random ids, handlers, the network and the HMAC are parameters: ids are new, handlers succeed
or fail arbitrarily, and of the HMAC only that its base64url text has no dot is used.

## Model

| member | source | states |
|---|---|---|
| RedisQueueProof.InvNext | packages/jobs/src/storage.ts:511-691 | every single Redis command of every worker, and every outside step, keeps the protocol invariant |
| RedisQueueProof.InvRun | packages/jobs/src/storage.ts:511-691 | the invariant holds in every state of every interleaving |
| RedisQueueTheorems.RunningExactlyWhenOwned | packages/jobs/src/storage.ts:602-691 | a record is `running` exactly when one worker owns the job, and then exactly one; a record that is not running has no owner |
| RedisQueueTheorems.HistoryRecordsOwnership | packages/jobs/src/storage.ts:617-691 | the event log is faithful: ownership begins and ends exactly at the commands that log it |
| RedisQueueTheorems.NoSecondAcquireWithoutRetry | packages/jobs/src/storage.ts:555-691 | between two acquisitions of one job lies the retry of the first owner |
| RedisQueueTheorems.FinishedIsFinal | packages/jobs/src/storage.ts:652-691 | a completed or failed record is never written again |
| RedisQueueTheorems.NoPendingJobLost | packages/jobs/src/storage.ts:511-691 | a pending record is in its queue's index, or its writer stands between the SET and the ZADD |
| RedisQueueTheorems.StaleEntryIsNeverAcquired | packages/jobs/src/storage.ts:602-615 | the lock script passes over an index entry whose record is not pending and due |
| RedisQueueTheorems.DueJobIsVisible | packages/jobs/src/storage.ts:562-580 | with one retry delay, a due indexed job is in every reply to the next range query, whatever late ZADDs did to its score |
| RedisAcquire.CandidatesAreTheReadyOnes | packages/jobs/src/storage.ts:566-590 | in every run, after MGET the candidates are exactly the pending due records of the reply, each once: highest priority first, earliest runAt among equals |
| RedisAcquire.ScriptLocksExactlyWhenReady | packages/jobs/src/storage.ts:602-615 | the lock script acquires the candidate it was called for if and only if the stored record is then pending and due; otherwise it changes nothing and the next candidate is tried |
| RedisAcquire.AcquiresTheBestStillReady | packages/jobs/src/storage.ts:617-650 | in every run the job a worker acquires was among the best-first candidates of one MGET and is pending and due again, each candidate before it was tried since and found no longer so, and its record becomes running, locked for the given time, and leaves the index |
| RedisAcquire.CompletionWrites | packages/jobs/src/storage.ts:652-661 | completing is about to write the record as completed with its lock time dropped and nothing else changed |
| RedisAcquire.FailureIsRouted | packages/jobs/src/scheduler.ts:382-406 | a failed job goes to the dead-letter queue, to a final failure or to a retry, by its attempts and the options alone |
| RedisAcquire.FailureWrites | packages/jobs/src/storage.ts:663-691 | what a failure is about to write: one more attempt, the error, pending after the delay exactly when a retry was asked for and attempts remain |
| RedisAcquire.SavingBegins | packages/jobs/src/storage.ts:511-533 | a save first takes a record of the same id in another queue off that queue's list and index; a record with a lock end is saved with it as its lock time |
| RedisAcquire.SavingWrites | packages/jobs/src/storage.ts:534-546 | the record is written, listed for all and for its queue, and put on the queue's index with its time if it is pending, off it otherwise, no other entry touched |
| RedisAcquire.OutcomeWrites | packages/jobs/src/storage.ts:659-689 | complete and fail write the record first and the queue's index last, no other entry touched |
| RedisSteps.RangeMeans | packages/jobs/src/storage.ts:562-563 | a range reply lists exactly the indexed ids scored up to the worker's clock reading, each once, in score order; the worker stops if it is empty |
| RedisSteps.NoWorkerIsStuck | packages/jobs/src/storage.ts:511-691 | in every state every worker has a next step, whatever the others did |
| RedisSteps.OperationsEnd | packages/jobs/src/storage.ts:511-691 | in every run a save, an acquisition, a completion and a failure each end after a bounded number of the worker's own commands, however the others interleave |
| StableSort.SortHead | packages/jobs/src/storage.ts:46-52 | the head of the stable sort is the earliest of the least elements |
| JobRecord.FailedAttempt | packages/jobs/src/storage.ts:75-84 | one more attempt; pending again exactly when a retry was asked for and attempts remain |
| MemoryJobs.TakenIsPicked | packages/jobs/src/storage.ts:41-60 | the job acquired is due, of the highest priority in its queue, and the earliest inserted of those; none is acquired exactly when none is due |
| MemoryJobs.KeptInOrder | packages/jobs/src/storage.ts:104-116 | a purge keeps the order of the jobs it keeps |
| JobStoreMeaning.AcquireMeans | packages/jobs/src/storage.ts:41-60 | said of the records' fields: the pending due job of the queue with the highest priority, the earliest inserted among equals, is handed out running and locked, and nothing else changes; nothing happens exactly when there is none |
| JobStoreMeaning.FailMeans | packages/jobs/src/storage.ts:70-87 | attempts, error, status and time after a failed attempt; no other record changes |
| JobStoreMeaning.PurgeMeans | packages/jobs/src/storage.ts:104-116 | a purge removes exactly the finished jobs whose time lies at least that long back (all finished ones without a limit) and keeps the others and their order |
| MemoryJobs.MemoryJobStorage.DoSave | packages/jobs/src/storage.ts:37-39 | a new id goes to the end, a known one keeps its place |
| MemoryJobs.MemoryJobStorage.AcquireNext | packages/jobs/src/storage.ts:41-60 | the filter loop and the sort compute the specified acquisition |
| MemoryJobs.MemoryJobStorage.DoComplete | packages/jobs/src/storage.ts:62-68 | marks a stored job completed, ignores an unknown id |
| MemoryJobs.MemoryJobStorage.DoFail | packages/jobs/src/storage.ts:70-87 | one failed attempt of a stored job, nothing for an unknown id |
| MemoryJobs.MemoryJobStorage.Purge | packages/jobs/src/storage.ts:104-116 | removes exactly the finished jobs old enough, and counts them |
| JobWorker.HandleJobFailure | packages/jobs/src/scheduler.ts:382-406 | writes the retry, the final failure or the dead-letter record the run model assumes |
| JobWorker.ExecuteJob | packages/jobs/src/scheduler.ts:313-380 | completion, failure, or failure without a start when no handler exists |
| JobRuns.InvRun | packages/jobs/src/scheduler.ts:313-406 | in every run of schedulers, workers and purges, records, copies held by workers and counts agree |
| JobTheorems.HandlerStartsAreBounded | packages/jobs/src/scheduler.ts:313-406 | handler starts never exceed max(1, maxAttempts); stored attempts equal the failures; failed exactly when they are used up; at most one worker holds a job |
| JobCounts.CountsAreTrue | packages/jobs/src/scheduler.ts:313-406 | in every run the counts of a job's handler starts and failures are the numbers of such events before, and a job counts as acquired exactly if an event handed it out |
| JobCounts.HandlersStartAtMost | packages/jobs/src/scheduler.ts:313-406 | in every run, counting events: at most max(1, maxAttempts) starts; the attempts of the record are the failures; failed exactly when they have reached that number |
| JobTheorems.FinishedIsFinal | packages/jobs/src/storage.ts:62-87 | a completed or failed record stays as it is until a purge removes it |
| JobTheorems.DeadLettersAreTheExhaustedJobs | packages/jobs/src/scheduler.ts:382-406 | with a dead-letter queue a stored job is in it exactly when its attempts are exhausted; without one no job changes queue |
| JobTheorems.FirstAcquiredInOrder | packages/jobs/src/storage.ts:41-60 | jobs enqueued alike are first acquired in the order they were enqueued, whatever else shares the queue |
| JobTiming.RetryWaitsItsDelay | packages/jobs/src/scheduler.ts:402-404 | in every run a retried job is pending with its failure time plus the retry delay until it is acquired, no acquisition before that time takes it, and one from then on finds it due |
| JobTiming.NewJobWaitsItsDelay | packages/jobs/src/storage.ts:41-60 | in every run a new job waits in the same way for its own time |
| JobTiming.ExhaustedJobFails | packages/jobs/src/scheduler.ts:383-401 | a failure that uses up the attempts ends in the dead-letter queue or in a final failure, never in a retry |
| Saga.SagaCoordinator.AddStep | packages/jobs/src/scheduler.ts:509-523 | every step has a registered compensation handler |
| Saga.SagaCoordinator.Execute | packages/jobs/src/scheduler.ts:529-568 | on a failure at step k exactly the compensations k-1 down to 0 are enqueued, once each, skipping only enqueues that throw |
| Saga.SagaCoordinator.RollBack | packages/jobs/src/scheduler.ts:543-561 | the compensation loop over the completed steps, last first |
| Saga.ContextMeans | packages/jobs/src/scheduler.ts:535-539 | a completed step's name maps to the result of its last completed occurrence, every other name to its initial value |
| Saga.CompensationsStartInReverse | packages/jobs/src/scheduler.ts:543-561 | in every run the first acquisitions of the compensations follow the reverse order |
| Scheduler.TickReservesEverySlot | packages/jobs/src/scheduler.ts:264-311 | after a tick every slot is reserved, and a poll is armed only if all workers are busy and nothing is on its way |
| Scheduler.NeverOverTheLimit | packages/jobs/src/scheduler.ts:264-311 | active workers and pending acquisitions together never exceed maxConcurrency |
| Scheduler.AlwaysAWakeUp | packages/jobs/src/scheduler.ts:264-311 | while running something will tick again, and with a free slot a tick is armed that fills it |
| Scheduler.StopIssuesNothing | packages/jobs/src/scheduler.ts:241-265 | after stop nothing is acquired; the jobs that still start are at most the acquisitions then pending |
| Scheduler.SlotsMean | packages/jobs/src/scheduler.ts:282-306 | what each event does to the workers and pending acquisitions, as sets and numbers |
| Scheduler.AFinishedWorkersSlotIsFilled | packages/jobs/src/scheduler.ts:290-311 | in every run a worker that is done leaves the active workers, a tick stays armed for it, and when that fires while running every slot is filled again |
| Scheduler.EveryReplyIsTaken | packages/jobs/src/scheduler.ts:283-306 | every run with an acquisition on its way goes on with either reply to it |
| Scheduler.JobScheduler.DoTick | packages/jobs/src/scheduler.ts:264-311 | the recursion over free slots computes the specified tick and terminates |
| Scheduler.JobScheduler.DoStart | packages/jobs/src/scheduler.ts:235-239 | start, a no-op while running |
| Scheduler.JobScheduler.DoStop | packages/jobs/src/scheduler.ts:245-249 | stop clears the last timer only |
| Scheduler.JobScheduler.OnAcquired | packages/jobs/src/scheduler.ts:285-301 | a job occupies a worker, nothing arms a poll |
| Scheduler.JobScheduler.OnAcquireError | packages/jobs/src/scheduler.ts:302-306 | a failed acquisition frees its slot and arms a poll |
| Scheduler.JobScheduler.OnWorkerDone | packages/jobs/src/scheduler.ts:290-294 | a finished worker frees its slot and arms an immediate tick |
| RouterSpec.JoinSegments | packages/core/src/router.ts:240-243 | the raw rest of a path that a wildcard binds is its remaining segments |
| RouterTheorems.AnswerIsUnique | packages/core/src/router.ts:151-179 | the specification fixes the route, the bindings and the allowed methods |
| RouterMeaning.LookupMeans | packages/core/src/router.ts:151-291 | the specification said in patterns alone: a found route is the one registered for the method at the best matching pattern, or for GET where the method is HEAD and has none there; the bindings are the matched segments; otherwise the allowed methods are those of the matching patterns, HEAD with GET |
| RouterMeaning.TableIsGenuine | packages/core/src/router.ts:128-133 | in every registry a method and pattern map to a registered route with that method and that pattern |
| RouterMeaning.MatchesMeans | packages/core/src/router.ts:202-255 | a pattern matches segment by segment, a wildcard the rest |
| RouterMeaning.BetterMeans | packages/core/src/router.ts:208-255 | one matching pattern is preferred to another by the first place where they differ: literal, then parameter by age, then wildcard |
| RouterMeaning.ParamsMean | packages/core/src/router.ts:195-199 | a name is bound to the segment at its last place in the pattern, other names keep what they had |
| RouterMeaning.OutcomeMeans | packages/core/src/router.ts:63-132 | in the default mode a registration ends in a conflict exactly if the first attempt with the same method and the same path up to parameter names had another path; otherwise a misplaced wildcard or a taken pattern rejects it |
| RouterMeaning.PatternMeans | packages/core/src/router.ts:82-126 | which segments of a path are literals, parameters and wildcards |
| RouterMeaning.NormMeans | packages/core/src/router.ts:64-70 | two routes have the same normalized form exactly if they differ in parameter names only |
| RouterTheorems.RecordedAlways | packages/core/src/router.ts:63-134 | every registered pattern was walked through the trie |
| RouterTheorems.ThrowingRegistrationChangesNoAnswer | packages/core/src/router.ts:63-134 | a registration that throws changes no lookup result |
| RouterTraces.RejectionIsTracelessExactlyWhen | packages/core/src/router.ts:63-134 | in both conflict modes, after a rejected registration every later lookup answers as without it, whatever is registered in between (renamings of the rejected path aside in the default mode), if and only if it made no parameter node that two admissible routes contend for |
| RouterTraces.RejectedAttemptReordersLaterRoutes | packages/core/src/router.ts:86-113 | otherwise two routes registered later are preferred the other way round |
| RouterTraces.NotTellingIsTraceless | packages/core/src/router.ts:63-134 | without such a node every later answer is the same, with the same bindings and allowed methods |
| RouterClaims.TracelessInWarnModeExactlyWhen | packages/core/src/router.ts:63-134 | where conflicts only warn: if and only if every request that reaches a parameter node the attempt made is answered by a route preferred to that node |
| RouterClaims.UnnoticedInDefaultModeExactlyWhen | packages/core/src/router.ts:63-79 | where conflicts throw: no later registration ends otherwise and no later lookup answers otherwise, if and only if the attempt was refused for a conflict, its path had claimed its normalized form before, or it has no parameter |
| RouterClaims.RenamingIsRefused | packages/core/src/router.ts:71-79 | in the default mode a rejected path makes a later renaming of it end in a conflict, which it would not have without the attempt |
| RouterClaims.NoNewNodeNoTrace | packages/core/src/router.ts:86-132 | a conflict, a collision, or a wildcard error whose parameter nodes all existed before leaves no trace |
| RouterClaims.CoveredNodeLeavesNoTrace | packages/core/src/router.ts:218-241 | even a new parameter node is harmless where an older parameter route and an older wildcard route answer every request that reaches it |
| RouterClaims.WellFormedRoutesRenameNothing | packages/core/src/router.ts:64-72 | a route with no misplaced wildcard is never a renaming of one rejected for its wildcard |
| RouterClaims.FailingInputInDefaultMode | packages/core/src/router.ts:94-113 | the failing side: three registrations in the default mode, the first rejected for its wildcard, and a request that goes to another route because of it |
| Router.Router.RegisterRoute | packages/core/src/router.ts:63-134 | grows the trie in place and agrees with the specified registry, errors included |
| Router.Router.Walk | packages/core/src/router.ts:82-126 | the segment loop reaches the node of the pattern, or stops at a misplaced wildcard |
| Router.Router.Descend | packages/core/src/router.ts:94-123 | finds or creates one child, keeping the trie a picture of the registry |
| Router.Router.Push | packages/core/src/router.ts:225-227 | adds one binding to the shared accumulator |
| Router.Router.Rewind | packages/core/src/router.ts:237 | backtracking forgets exactly the bindings above the saved length |
| Router.Router.Emit | packages/core/src/router.ts:190-200 | offers the node's route, HEAD falling back to GET, and writes the bindings out |
| Router.Router.LookupNode | packages/core/src/router.ts:181-258 | finds the preferred candidate below a node with its bindings, or none and no binding left behind |
| Router.Router.LookupParams | packages/core/src/router.ts:222-257 | parameters in insertion order, then the wildcard |
| Router.Router.CollectAllowed | packages/core/src/router.ts:260-291 | exactly the methods of the patterns that match the path |
| Router.Router.Lookup | packages/core/src/router.ts:151-179 | the answer is the specified one: route and bindings, allowed methods plus HEAD, or nothing |
| GraphQLCost.InlinedIsSpreadFree | packages/graphql/src/index.ts:92-159 | the reference: inlining leaves no spread |
| GraphQLCost.InlinedIsUnique | packages/graphql/src/index.ts:92-159 | the inlined operation does not depend on the topological order chosen |
| GraphQLCost.MemoAgreesWithInlining | packages/graphql/src/index.ts:102-159 | for acyclic fragments the memoised depth, field and alias counts are those of the inlined operation, whatever was analysed before |
| GraphQLCounts.MetricsCountTheFields | packages/graphql/src/index.ts:123-159 | for acyclic fragments, with the inlined operation listed field by field: fields is the length of the list, aliases the number of entries with an alias, depth the deepest level |
| GraphQLCounts.ComplaintsMean | packages/graphql/src/index.ts:165-190 | each complaint if and only if its limit is set and the list has more fields, more aliases or a deeper entry |
| GraphQLCost.EachFragmentEnteredOnce | packages/graphql/src/index.ts:105-121 | for every document, cyclic ones included, each fragment body is entered at most once and each selection looked at once |
| GraphQLCost.CyclicAnswerDependsOnOrder | packages/graphql/src/index.ts:105-121 | the failing side: a document of two fragments in a cycle, and an operation whose metrics change when another is analysed before it |
| GraphQLCycles.OrderFreeExactlyWhenMutualCyclesAreFieldless | packages/graphql/src/index.ts:102-159 | for every document: the metrics of operations do not depend on the operations analysed before if and only if fragments that lead to each other lead to no field |
| GraphQLCycles.MemoAgreesWithPruning | packages/graphql/src/index.ts:102-159 | where that holds, the metrics are those of the operation with every spread inlined, spreads of a fragment inside itself and fragments without fields left out |
| GraphQLCycles.SelfSpreadsAreOrderFree | packages/graphql/src/index.ts:105-121 | fragments that spread themselves but form no other cycle never make the order matter |
| GraphQLCycles.TwoFragmentsInACycle | packages/graphql/src/index.ts:105-121 | for two fragments that spread each other the order does not matter if and only if neither has a field |
| GraphQLRule.AbusePreventionRule.GetFragmentMetrics | packages/graphql/src/index.ts:105-121 | the memo and visited set updated in place compute the specified metrics |
| GraphQLRule.AbusePreventionRule.AnalyzeSelectionSet | packages/graphql/src/index.ts:123-159 | the running totals compute the specified metrics, and the recursion terminates |
| GraphQLRule.AbusePreventionRule.CheckOperation | packages/graphql/src/index.ts:162-191 | reports exactly the limits the metrics exceed |
| GraphQLRule.AbusePreventionRule.CheckDocument | packages/graphql/src/index.ts:92-194 | for an acyclic document each operation is reported exactly as its inlined form deserves |
| RateLimitSpec.LiveIsWindow | packages/rate-limit/src/index.ts:259-283 | what is kept is the requests of the current window and nothing else |
| RateLimitSpec.CountIsWindowCount | packages/rate-limit/src/index.ts:283 | the count is the number of requests less than one window old |
| RateLimitSpec.AtMostMaxPerWindow | packages/rate-limit/src/index.ts:425-435 | among requests within less than one window of each other at most max were allowed |
| RateLimitDecision.DecisionMeans | packages/rate-limit/src/index.ts:425-435 | on the request log: a request is refused if and only if more than max requests, itself included, are less than one window old; remaining is what is left of max, the reset the first full second at which the oldest counted request has left the window, Retry-After the window in seconds |
| RateLimitDecision.NoReadingNoDecision | packages/rate-limit/src/index.ts:416-424 | a store that fails is answered 503, never 429 |
| RateLimitDecision.UpToMaxAllPass | packages/rate-limit/src/index.ts:431-435 | the first max requests of a key, and any with fewer than max others in its window, pass |
| RateLimitDecision.NoMoreThanMaxPass | packages/rate-limit/src/index.ts:431-435 | of the requests within one window no more than max pass |
| RateLimitRedis.ScriptStep | packages/rate-limit/src/index.ts:17-30 | one run of the script, expiry of the key included, answers as the live list does |
| RateLimitRedis.ScriptMeans | packages/rate-limit/src/index.ts:17-30 | one run of the script: with a positive window the members less than one window old, the new one among them, and the second at which the oldest leaves; with any other the key is deleted first and none is counted |
| RateLimitRedis.StoresAgree | packages/rate-limit/src/index.ts:17-30 | with a positive window both stores give the same counts and reset times, request by request |
| RateLimitRedis.StoresAgreeExactlyForPositiveWindows | packages/rate-limit/src/index.ts:17-30 | the stores agree if and only if the window is positive |
| RateLimitMemory.MemoryStore.Advance | packages/rate-limit/src/index.ts:261-266 | moving the start pointer drops exactly the expired entries |
| RateLimitMemory.MemoryStore.Compact | packages/rate-limit/src/index.ts:268-271 | compaction changes no live entry and bounds the dead prefix |
| RateLimitMemory.MemoryStore.Prune | packages/rate-limit/src/index.ts:233-252 | each entry is cut back to its unexpired rest or dropped; every key stays exact, and the keys left are those with a live request |
| RateLimitMemory.MemoryStore.Increment | packages/rate-limit/src/index.ts:254-288 | count and reset time are those of the request log as long as no more keys are live than the map may hold, pruning at the cap included; the number of keys is bounded |
| RateLimitMemory.MemoryStore.MakeRoom | packages/rate-limit/src/index.ts:274-281 | over the cap: prune, the entry of the request followed; no key is evicted, and every key stays exact, when the live keys fit |
| RateLimitMemory.MemoryStore.Evict | packages/rate-limit/src/index.ts:276-280 | evicts keys only while the map is over its cap |
| Resp.NumberRoundTrip | test-helpers/mini-redis.ts:50-69 | a printed number reads back |
| Resp.ParseEncoded | test-helpers/mini-redis.ts:45-85 | an encoded reply, whatever follows it, parses to its value and ends exactly where it ends |
| Resp.ParseCut | test-helpers/mini-redis.ts:45-63 | every proper prefix of an encoded reply is recognised as incomplete |
| RespMeaning.WireForm | test-helpers/mini-redis.ts:45-85 | the bytes of each kind of reply and the value it stands for, lengths and numbers in decimal |
| RespMeaning.NumberMeans | test-helpers/mini-redis.ts:57-69 | a line is a number exactly if it is an optional sign and decimal digits, and then the one they spell |
| RespMeaning.OtherTypesAreRejected | test-helpers/mini-redis.ts:46-83 | without a line end nothing is parsed; a line of another type throws |
| RespStream.ChunkingIsInvisible | test-helpers/mini-redis.ts:137-147 | however a well-formed stream is cut, the complete replies are dispatched in order and exactly the unfinished tail is kept |
| RespStream.CommandsAreAnsweredInOrder | test-helpers/mini-redis.ts:137-180 | in every interleaving of commands, a switch to subscriber mode and chunks, the i-th command is settled by the i-th answer, pushes aside; the mode when a value is dispatched decides which it is |
| RespMeaning.HeardGoesWhereItBelongs | test-helpers/mini-redis.ts:149-161 | in every run each value heard goes to one place: an array that begins with `message`, heard in subscriber mode, to the listeners in order; any other to the command sent as many after the first as such values came before |
| RespStream.CommandRoundTrip | test-helpers/mini-redis.ts:32-85 | an encoded command followed by anything gives back its arguments and its end, CRLF in arguments included |
| MiniRedis.EncodeCommand | test-helpers/mini-redis.ts:32-39 | the loop prints the array of bulk strings |
| MiniRedis.ParseReply | test-helpers/mini-redis.ts:45-85 | the parser agrees with the specification, incomplete and rejected input included |
| MiniRedis.ParseElements | test-helpers/mini-redis.ts:66-79 | the cursor loop over an array's elements |
| MiniRedis.MiniRedis.Send | test-helpers/mini-redis.ts:172-180 | queues the waiter and writes the encoded command |
| MiniRedis.MiniRedis.Subscribe | test-helpers/mini-redis.ts:240-243 | subscriber mode is on before the command is sent |
| MiniRedis.MiniRedis.DispatchReply | test-helpers/mini-redis.ts:149-161 | a push goes to the listeners, any other reply settles the oldest waiter |
| MiniRedis.MiniRedis.OnData | test-helpers/mini-redis.ts:137-147 | appends, dispatches every complete reply, keeps the rest; an exception leaves the buffer whole |
| CacheStore.EvictKeepsLongestFittingSuffix | packages/cache/src/store.ts:174-182 | eviction keeps exactly the longest most-recently-used suffix that fits |
| CacheStore.AcceptedEntryStays | packages/cache/src/store.ts:150-172 | with room for one entry the accepted one survives its own eviction |
| CacheStore.SetFits | packages/cache/src/store.ts:150-172 | both limits hold after every set |
| CacheContents.WriteMeans | packages/cache/src/store.ts:150-182 | after any history: an entry too large by its body, key and overhead changes nothing; any other is written, and as many of the least recently used records go as must for the rest to be within both limits, not one more |
| CacheContents.RemovalMeans | packages/cache/src/store.ts:136-233 | after any history, which records a read, a deletion, a prefix deletion, a sweep and a clear leave |
| CacheContents.LockMeans | packages/cache/src/store.ts:206-233 | a refresh lock is granted unless one is held that has not run out, and then held for its time; a sweep drops exactly the locks that have run out |
| CacheStore.MemoryCacheStore.DoGet | packages/cache/src/store.ts:136-148 | drops an expired record, renews a live one, keeps the byte count |
| CacheStore.MemoryCacheStore.DoSet | packages/cache/src/store.ts:150-172 | refuses an oversized entry untouched, otherwise replaces and evicts |
| CacheStore.MemoryCacheStore.EvictOldest | packages/cache/src/store.ts:174-182 | the eviction loop computes the specified suffix |
| CacheStore.MemoryCacheStore.Delete | packages/cache/src/store.ts:184-189 | removes the key and its bytes |
| CacheStore.MemoryCacheStore.DeleteByPrefix | packages/cache/src/store.ts:197-204 | removes exactly the keys with the prefix |
| CacheStore.MemoryCacheStore.AcquireRefreshLock | packages/cache/src/store.ts:206-215 | granted exactly when no unexpired lock is held |
| CacheStore.MemoryCacheStore.Sweep | packages/cache/src/store.ts:222-233 | removes exactly the expired records and locks |
| CacheHistory.LimitsHoldAfterEveryHistory | packages/cache/src/store.ts:136-233 | after every sequence of operations both limits hold and the tracked keys are distinct |
| CacheHistory.GetAgreesWithTheUnboundedTable | packages/cache/src/store.ts:136-172 | on the keys still held, a read answers as an unbounded table with expiry would |
| CacheHistory.OnlyLessRecentlyUsedKeysAreEvicted | packages/cache/src/store.ts:136-182 | over whole histories a key that was lost was used earlier than every key still held |
| CacheProtocol.InvRun | packages/cache/src/plugin.ts:358-551 | in every run stored records, entries in flight and served answers all come from logged responses |
| CacheProtocol.ServedWasStored | packages/cache/src/plugin.ts:250-551 | a hit or stale answer is body, status, content type and tag of an earlier response with the same key and varying headers that passed the gate, young enough when judged |
| CacheService.DecisionMeans | packages/cache/src/plugin.ts:518-551 | a matching entry within its ttl is served as exactly one Hit and the request is done; within ttl + swr the request takes the claim exactly if no unexpired one is held; anything else goes to the handler |
| CacheService.ResumptionMeans | packages/cache/src/plugin.ts:536-543 | with the claim the request goes to the handler as the revalidator; without it, it is served Stale, once, and is done |
| CacheService.LookUpMeans | packages/cache/src/store.ts:136-148 | a look-up finds the record whenever the store holds an unexpired one for the key, and nothing otherwise |
| CacheService.FreshEntryIsServed | packages/cache/src/plugin.ts:522-534 | in every run: a request whose look-up found a matching entry that is fresh when it is judged is answered from it, with status, body, type and tag, and runs no handler |
| CacheService.ServedRepeatsASentResponse | packages/cache/src/plugin.ts:277-302 | in every run what is served from the cache repeats status, body, type and tag of a response that an earlier request of the same key and varying headers finished with, which the gate let pass and which was young enough when judged |
| CacheService.LogIsHistory | packages/cache/src/plugin.ts:386-457 | in every run each logged response is one that a request finished with before and that the gate let pass |
| CacheService.GateMeans | packages/cache/src/plugin.ts:358-384 | a response is stored if and only if the request is anonymous or private caching is on, the status is listed, no cookie, encoding, no-store or private stands against it, the route is opted in by mark or prefix, and the lifetime is positive |
| CacheService.CompletionMeans | packages/cache/src/plugin.ts:386-457 | a finished response is stored exactly when the gate lets it pass and it is not answered with 304, and then as the most recent record, to expire after its lifetime and stale grace, unless it alone exceeds the limits; otherwise nothing is written |
| CacheService.UpkeepMeans | packages/cache/src/plugin.ts:553-578 | what invalidation, clearing, sweeping, giving a claim back and a handler without an answer leave of records and claims |
| CacheService.ServeMeans | packages/cache/src/plugin.ts:277-302 | a served entry: status and body, 304 and no body for a matching tag, no body for HEAD |
| CacheService.ArrivalMeans | packages/cache/src/plugin.ts:513-522 | a request with credentials goes to the handler, any other looks up first |
| CacheProtocol.OneRevalidatorOthersServedStale | packages/cache/src/plugin.ts:513-551 | within the lock lifetime and without clear, one request holds the claim and any other that judges a stale entry is served it |
| CacheProtocol.KeptRun | packages/cache/src/store.ts:150-182 | in every run of requests the store holds no key twice and stays within both limits |
| CacheProtocol.ClaimReleasedAfterStoring | packages/cache/src/plugin.ts:421-457 | in every run, a claim is given back only after its holder finished, was held from then on, and a storable response was in the store when it finished, unless its entry alone exceeds the limits |
| UriComponent.DecodeEncode | packages/native/src/query.ts:28-34 | decoding undoes percent encoding for every string |
| UriComponent.DecodeMeans | packages/native/src/query.ts:28-34 | decoding succeeds exactly on spellings of a string: characters for themselves and escapes of the bytes of their UTF-8 form (RFC 3629), so no overlong form, no surrogate and nothing cut short |
| UriComponent.UnreservedMeans | packages/native/src/query.ts:28-34 | the ASCII characters that encoding escapes |
| Query.CanonicalHoldsThePairs | packages/cache/src/key.ts:21-44 | the canonical pairs are the pairs of the query, each as often |
| Query.CanonicalIsOrdered | packages/cache/src/key.ts:25-41 | they are sorted by key and value in UTF-16 order |
| QueryParser.SameTextIffSamePairs | packages/cache/src/key.ts:21-44 | two queries have the same canonical text if and only if they hold the same multiset of pairs |
| QueryParser.TextRoundTrip | packages/native/src/query.ts:68-118 | the text of a list of pairs splits and decodes to the same list |
| QueryParser.ParseRecoversTheQuery | packages/native/src/query.ts:68-118 | the parser recovers the query from its canonical text if and only if fewer than maxKeys keys have values, or exactly maxKeys with a single value for the last |
| QueryParser.LastKeyKeepsOneValue | packages/native/src/query.ts:97-111 | the failing side: at the limit a last key with two values keeps only the first |
| QueryParser.RecoversBelowTheLimit | packages/native/src/query.ts:68-118 | in particular for every query with fewer than maxKeys keys |
| QueryParser.FastParseQuery | packages/native/src/query.ts:68-118 | the single pass with its indices computes the specified parse for every input text |
| QueryMeaning.ParseMeans | packages/native/src/query.ts:68-118 | for every text: the maximal non-empty stretches between ampersands, split at the first equals sign, plus signs as blanks, decoded or left as they stand, are tabulated in order, strings for one value and arrays for more, up to the pair that brings the number of keys to the limit |
| QueryMeaning.SpansAreFields | packages/native/src/query.ts:80-88 | the fields read are all of them, each once, from left to right |
| QueryMeaning.FieldMeans | packages/native/src/query.ts:89-97 | what one field gives as key and value |
| QueryMeaning.CollectMeans | packages/native/src/query.ts:99-108 | which pairs are read, and the record they make |
| QueryParser.AddField | packages/native/src/query.ts:83-111 | one field: decode, add or append, stop at the key limit |
| QueryParser.ReplacePlus | packages/native/src/query.ts:40-47 | plus signs become spaces |
| CacheKey.NormalizeQuery | packages/cache/src/key.ts:21-44 | the loops over keys and items print the canonical text |
| CacheKey.BuildCacheKey | packages/cache/src/key.ts:68-81 | the key is built segment by segment |
| CacheKey.PrefixMatchesExactlyThePath | packages/cache/src/key.ts:89-91 | a path's prefix begins exactly the keys of that method and path |
| CacheKey.InvalidatePathIsExact | packages/cache/src/plugin.ts:561-573 | deleting by that prefix removes exactly the records of that method and path |
| CacheKey.SameKeyIffSameRequest | packages/cache/src/key.ts:94-106 | two requests share a key if and only if method, path, query pairs and varying headers agree |
| Cookies.ValueRoundTrip | packages/core/src/cookies.ts:106-108 | a value survives if and only if it is not a plain value whose percent signs all start valid escapes |
| Cookies.AnAmbiguousValue | packages/core/src/cookies.ts:106-108 | the failing side: `%41` is sent as it is and read as `A` |
| Cookies.AMalformedEscapeSurvives | packages/core/src/cookies.ts:51-86 | a value with a malformed escape beside a valid one survives |
| CookieRoundTrip.SetCookieRoundTrip | packages/testing/src/set-cookie.ts:30-107 | parseSetCookie inverts serializeCookie for every accepted name, value and option set, the value under that same condition |
| CookieRoundTrip.HeaderRoundTrip | packages/core/src/cookies.ts:51-86 | a header of cookies reads back as exactly its names, each with its first value |
| CookieMeaning.RefusalMeans | packages/core/src/cookies.ts:100-159 | each refusal for exactly its cause, the first in this order: name, SameSite=None without Secure, domain, path, Partitioned without Secure |
| CookieMeaning.LineSays | packages/core/src/cookies.ts:112-157 | what the written line tells its reader, option by option, with the defaults path /, HttpOnly and SameSite=Lax |
| CookieMeaning.SetCookieMeans | packages/testing/src/set-cookie.ts:30-107 | for every line: the name, the value, and of each attribute the last usable value; flags by their presence; names in any case, unknown ones ignored |
| CookieMeaning.HeaderMeans | packages/core/src/cookies.ts:51-86 | for every header: a name has a value exactly if some field with an equals sign gives it one, and then that of the first such field |
| CookieMeaning.ValueMeans | packages/core/src/cookies.ts:65-81 | trimmed, one pair of quotes off, decoded if spelled correctly, else as it stands |
| CookieMeaning.EncodedMeans | packages/core/src/cookies.ts:106-108 | a value without blanks, quotes, commas, semicolons, backslashes, controls and non-ASCII is written as it is, any other percent-encoded |
| CookieMeaning.FullExample | packages/core/src/cookies.ts:95-159 | a line with all attributes as it is written |
| CookieText.TrimFixesExactlyTrimmed | packages/testing/src/set-cookie.ts:66 | attribute values come back unchanged exactly when they have no surrounding white space |
| CookieCode.SerializeCookie | packages/core/src/cookies.ts:95-159 | the line built step by step is the specified one, refusals in the order of the checks |
| CookieCode.ParseSetCookieLine | packages/testing/src/set-cookie.ts:30-107 | the attribute loop computes the specified cookie |
| CookieCode.ParseHeader | packages/core/src/cookies.ts:51-86 | the scan from semicolon to semicolon computes the specified record |
| CookieCode.Unsign | packages/core/src/cookies.ts:198-224 | accepts a value if and only if one of the secrets signed it, empty and dotted values included |
| CookieCode.SignedShape | packages/core/src/cookies.ts:181-184 | the last dot separates the value from a code without dots |
| CircuitBreaker.FailureCount | packages/sdk-runtime/src/circuit-breaker.ts:56-77 | closed: the count is of the failures since the last success or closing, below the threshold; not closed: it has reached it |
| CircuitBreaker.NoCallDuringACooldown | packages/sdk-runtime/src/circuit-breaker.ts:47-77 | a failure seen while not closed, or reaching the threshold, arms a full cooldown during which no call is admitted |
| CircuitBreaker.ClosesOnlyAfterAllProbes | packages/sdk-runtime/src/circuit-breaker.ts:56-67 | closing needs the full count of successes and no failure since half open was entered |
| CircuitBreaker.CallsAreLetThrough | packages/sdk-runtime/src/circuit-breaker.ts:28-54 | in every run a call that begins while closed or half open is admitted; one that begins while open is admitted, and makes the breaker half open, exactly if more than the cooldown has passed since the last failure |
| CircuitBreaker.ProbesDecide | packages/sdk-runtime/src/circuit-breaker.ts:56-77 | half open: the success that completes the count closes, any failure opens again |
| CircuitBreaker.FailuresTrip | packages/sdk-runtime/src/circuit-breaker.ts:64-77 | closed: a success forgets the failures, the failure that reaches the threshold opens |
| CircuitBreaker.ChangesAreDated | packages/sdk-runtime/src/circuit-breaker.ts:79-87 | the date is that of the last change of mode, or of a later failure while open |
| CircuitBreaker.CircuitBreaker.BeginCall | packages/sdk-runtime/src/circuit-breaker.ts:28-35 | check the clock, then refuse or admit |
| CircuitBreaker.CircuitBreaker.OnSuccess | packages/sdk-runtime/src/circuit-breaker.ts:56-67 | a success in each state |
| CircuitBreaker.CircuitBreaker.OnFailure | packages/sdk-runtime/src/circuit-breaker.ts:69-77 | a failure in each state |
| CircuitBreaker.CircuitBreaker.TransitionTo | packages/sdk-runtime/src/circuit-breaker.ts:79-87 | the new state and the counters it resets |
| RefreshTokens.InvRun | packages/auth/src/index.ts:246-333 | in every interleaving, with any store call failing, every id that was live is live or handed over to a newer one |
| RefreshTokens.SomeDescendantIsAlwaysLive | packages/auth/src/index.ts:287-326 | once an id is live, some id descended from it is live at every later moment, and it is one a client has been given if the first was |
| RefreshTokens.SuccessMeansTheNewIdIsLive | packages/auth/src/index.ts:310-332 | a 200 answer carries an id that is in the store, issued for the one presented |
| RefreshTokens.RefusalLeavesTheOldIdLive | packages/auth/src/index.ts:301-317 | a lone request refused after its check leaves the presented id live |
| RefreshTokens.ARotatedIdIsRefused | packages/auth/src/index.ts:274-326 | in every run, a rotation whose revocation took effect leaves the presented id out of the store for good, and any later check of it ends in a refusal |
| RefreshTokens.RotationMeans | packages/auth/src/index.ts:274-332 | each step of a rotation: what it does to the store and how the request goes on |
| RefreshTokens.MemoryTokenStore.Save | packages/auth/src/index.ts:114-116 | adds the id for its lifetime and touches no other |
| RefreshTokens.MemoryTokenStore.Exists | packages/auth/src/index.ts:118-126 | answers membership, and dropping an expired id changes no later answer |
| RefreshTokens.MemoryTokenStore.RevokeToken | packages/auth/src/index.ts:128-130 | removes the id at once |
| RefreshTokens.MemoryTokenStore.Prune | packages/auth/src/index.ts:107-112 | changes no answer and leaves nothing expired |

## Left out

- `SQLJobStorage`: its logic is SQL text run by a client that is not part of this model.
- Crashes of workers and lost Redis replies: the adapter has no recovery code, so every issued command is assumed to take effect and be answered.
- The Redis sets of all job ids and of ids per queue are written by the model's steps, but nothing is proved about the listing they serve; `clear` and SCAN deletion are not modelled.
- Corrupt JSON in Redis and the parse errors it causes: records are values.
- Cron schedules and their locks, job timeouts as such (a timeout is a failed attempt), tracing.
- `Scheduler.JobScheduler.DoStop`: the loop in which `stop` then waits for active workers is left out; it changes no state of the scheduler.
- `RouterTraces.RejectionIsTracelessExactlyWhen`: in the default mode later registrations that rename the parameters of the rejected path are set aside here; `RouterClaims.UnnoticedInDefaultModeExactlyWhen` has them all.
- A bound on outstanding poll timers: each empty acquisition arms its own, so there is none.
- `RateLimitMemory.MemoryStore.Increment`: agreement with the request log is stated as long as no more keys are live than the cap allows, so that none is evicted; an evicted key forgets its window.
- GraphQL error messages and source locations: a report is the set of limits exceeded.
- RESP replies with lengths or numbers that are not decimal integers are rejected as a whole in the model; the source would compute with NaN. Decoding of reply bytes as UTF-8 text is not modelled.
- `failAll`, reconnection and the socket of the RESP client.
- The cache plugin is a state machine on values over the steps between its awaits; wrapping of response methods, the serializer, header case folding and binary bodies are inputs of those steps. Stores other than the in-memory one, and store calls that throw, are not modelled there.
- `CacheProtocol.OneRevalidatorOthersServedStale`: assumes, as the code does, that revalidators finish within the lock lifetime and that nobody clears the cache.
- `CookieCode.SerializeCookie`: leaves out `Expires` and the refusal of a `maxAge` that is not finite.
- `CookieCode.ParseSetCookieLine`: leaves out `Expires` and number syntaxes other than a decimal integer.
- `CookieRoundTrip.SetCookieRoundTrip`: leaves out `Expires`, whose text is a Date's own; a non-finite `maxAge`, numbers that JavaScript prints with an exponent, and other number syntaxes on the reading side are not modelled.
- Query values that are not strings or arrays of strings, lone surrogates, and the `Error` that encoding them throws.
- Query strings are parsed into a map: the key order of the resulting object is not modelled.
- Token expiry and explicit logout in `RefreshTokens` runs, JWT verification and signing beyond success or failure.
- `CircuitBreaker` thresholds of zero: the count theorems need a threshold and a probe limit of at least one.
- Easy members: CORS, helmet, fingerprint, logger, pagination, retry helpers, session stores, CLI, Studio, OpenAPI, module ordering, the SSE client, native transports and clustering.
