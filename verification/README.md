# Channel policy router: a verified model

This project models the command router's state machine and proves properties of it. The state is
an insertion-ordered table of commands, a table of incident events and a table of leases. The steps
are submit, cancel, override, dispatch, reconcile, the single deadline check, the deadline batch, the
delivery batch, and taking and giving back a lease. Reissue is a read followed by a submit step.

There are two layers. On values, `UseCases` holds what each use case decides from the rows its
queries return, `CommandTable` and `Pipeline` hold the queries and the batches, and `Runs` puts them
together as one step function and defines runs, records of states and steps; the other modules prove
properties of every step and of whole runs from the empty store. On objects, `InMemory` and `Router` are classes whose methods change a shared
store in place, with the loops of the original, and each is proved to make the step that those
properties are about. `Postgres` gives the second repository as what its SQL allows, ties left open
and leases that outlive their batch included, and reuses the same decisions; `Backends` puts the two
side by side over whole runs, and proves exactly when they hold the same commands.

| file | content |
|---|---|
| Common, Entities | result types, counting; the records, the settings ranges and the policy matrix |
| Ranking, CommandTable | stable sorting of the rows that match a query; the command table and its queries |
| UseCases, Pipeline, Runs | decisions, batches, and the step function with runs |
| Lifecycle, Outcomes, Deadlines | what a step may do to a row; what each call answers and changes, and when; time stamps |
| Scheduler, ServiceOrder, Waiting | the queueing invariant; drain order and FIFO; bounded waiting and conservation |
| Dedup | sliding windows for idempotency keys and correlation ids |
| Incidents, SlaEquivalence, BackoffSchedule, Delivery | exactly-once incidents; batch laws; retry schedule |
| BatchOutcomes | what the deadline checks and the delivery batch answer and change |
| Leases | mutual exclusion over interleavings, for both repositories |
| Postgres, PostgresBatch, PostgresSteps | the SQL statements; the deadline batch and ties; one step on both repositories |
| Backends, Divergence | agreement of the two repositories over runs; concrete runs on which they part |
| InMemory, Router | the classes |

Assumptions:

- Each use case call is one atomic step. Reissue, whose read and submission are two transactions, and
  the lease steps are the exceptions.
- Time is an integer number of microseconds, read by each call and passed in. The clock may run
  backwards unless a property says otherwise.
- Random ids are passed in. A valid step draws command and event ids that are not in the tables;
  drawn keys may be anything. A deadline batch is given at least as many event ids as its limit, and
  the k-th row it takes is given the k-th of them.
- Settings are in the ranges `src/channel_policy_router/settings.py` enforces.
- A Python dict keeps an overwritten entry in its place, so a row's position identifies it.
- A payload is the two entries the router reads or writes, and an unread rest.

What the code does that its documentation does not say:

- A command that finds its point empty takes the accepted slot and is dispatched before any safety
  command queued after it (`ServiceOrder.NextUpIsHead`); the priority rule is among queued commands.
- A reissue of a safety critical command can never succeed (`Outcomes.ReissueOfSafetyRejected`).
- A retry inside the window can be answered with another command than the original, if a submission
  in between read a clock past the end of that window (`Dedup.RetryNeedsForwardClock`). Without such a
  submission it never is, even if the clock slips back (`Dedup.RetryReturnsOriginal`);
  `Dedup.RetryExactly` gives the exact condition, for any clock.
- A renewal may end a lease earlier than the grant it renews, and then two workers can hold it
  (`Leases.ShorterRenewalOverlaps`); with a clock that runs forward nothing else lets
  them (`Leases.LeaseExclusion`).
- On PostgreSQL a batch does not give its lease back: the DELETE comes after the last commit and is lost
  with the connection, though `docs/architecture-deep-dive.md` says that the lease is released after
  batch execution. The next batch is refused until the lease expires, and commands that are failed in
  memory stay as they are there (`Divergence.LeaseOutlivesBatch`).
- A deadline batch that gets its lease on PostgreSQL may fail other commands than in memory when its
  limit cuts between equal deadlines (`Divergence.TieAcrossLimit`). These two are the only ways the
  command tables can part (`Backends.BackendsAgreeExactly`).

## Model

| member | source | states |
|---|---|---|
| `Scheduler.ReachableScheduled` | src/channel_policy_router/application/use_cases.py:108-127 | In every reachable state: at most one accepted or dispatched command per point, accepted inserted before queued, sequence numbers of the queued strictly rising with insertion although they are reused, and pending commands within the depth limit |
| `Scheduler.StepKeepsScheduled` | src/channel_policy_router/application/use_cases.py:199-349 | Every step of the state machine keeps that joint invariant |
| `Scheduler.AppendKeeps` | src/channel_policy_router/application/use_cases.py:108-156 | Admission keeps it: a command accepted only on an empty point, queued only behind everything queued |
| `Scheduler.DispatchKeeps` | src/channel_policy_router/application/use_cases.py:272-298 | Dispatch keeps it: the picked command is the only one holding its point |
| `ServiceOrder.NextUpIsHead` | src/channel_policy_router/application/use_cases.py:279-286 | Dispatch picks the head of a reference order that knows no sequence numbers: accepted, then safety commands, then others, each in submission order; it finds nothing exactly when that order is empty |
| `ServiceOrder.DispatchIsFifo` | src/channel_policy_router/adapters/outbound/in_memory.py:128-139 | When a command is picked, no earlier command of its priority at its point is accepted or queued |
| `ServiceOrder.DispatchOrderFollowsSubmission` | src/channel_policy_router/application/use_cases.py:115-127 | Over a whole run, commands of one priority at one point are dispatched in submission order, through whichever slot they went |
| `ServiceOrder.DrainFollowsServiceOrder` | src/channel_policy_router/application/use_cases.py:272-324 | Alternating dispatch and reconcile emits exactly a prefix of the reference order, and after it is used up dispatch reports that nothing is dispatchable |
| `ServiceOrder.ReachablePointDrains` | src/channel_policy_router/application/use_cases.py:272-324 | From any reachable state with nothing in flight, k pending commands take exactly k rounds, in the reference order |
| `ServiceOrder.ServiceOrderIsEveryPending` | src/channel_policy_router/adapters/outbound/in_memory.py:86-92 | With nothing in flight the reference order lists every pending command at the point once, as many as the pending count says |
| `Waiting.DispatchesUseUpAhead` | src/channel_policy_router/application/use_cases.py:272-298 | While a safety command stays queued, every dispatch at its point uses up one command that was ahead of it, whatever else happens in the run |
| `Waiting.AheadBelowDepth` | src/channel_policy_router/application/use_cases.py:108-113 | Fewer commands than the depth limit are ever ahead of a queued safety command |
| `Waiting.SafetyWaitBounded` | src/channel_policy_router/application/use_cases.py:108-127 | Fewer than queue_max_depth_per_point dispatches pass a queued safety command, from any point of any run |
| `Waiting.StepConserves` | src/channel_policy_router/adapters/outbound/in_memory.py:86-92 | Each step changes the pending count of a point by exactly what its reply says was created, canceled, reconciled or breached there, item by item for a batch |
| `Waiting.PendingConserved` | src/channel_policy_router/adapters/outbound/in_memory.py:86-92 | Over any run: pending = created - canceled - reconciled - breached, and at most the depth limit |
| `Outcomes.SubmitOutcomes` | src/channel_policy_router/application/use_cases.py:74-113 | When a submission is invalid, a duplicate, a conflict, an overflow or admitted, each if and only if, with each key's own window spelled out; and what each answers: the newest command with the key, the newest with the correlation id, the depth and the seconds to wait |
| `Outcomes.SubmitEffect` | src/channel_policy_router/application/use_cases.py:115-164 | An admitted submission adds its row at the end, described column by column: accepted exactly when its point has nothing pending, and otherwise queued with the next number; any other submission changes nothing |
| `Outcomes.RetryAfterWindow` | src/channel_policy_router/application/use_cases.py:86-98 | Over any run, past the end of a command's window a submission with its site and key is a duplicate if and only if a later command has the key inside its own window |
| `Outcomes.SubmissionKeys` | src/channel_policy_router/application/use_cases.py:79-98 | A reply, of a new command or a duplicate, gives exactly the keys that were drawn |
| `Outcomes.DispatchOutcomes` | src/channel_policy_router/application/use_cases.py:272-298 | Dispatch is refused exactly while a command is in flight, finds nothing exactly when nothing is pending, and otherwise starts the head of the service order |
| `Outcomes.DispatchEffect` | src/channel_policy_router/application/use_cases.py:287-298 | A successful dispatch changes three columns of the head of the service order and nothing else; any other dispatch changes nothing |
| `Outcomes.CancelOutcomes` | src/channel_policy_router/application/use_cases.py:199-216 | A cancel succeeds if and only if its command is accepted or queued, and is not found if and only if no row has the id; it changes two columns of that row and nothing else, and a refusal nothing |
| `Outcomes.ReconcileOutcomes` | src/channel_policy_router/application/use_cases.py:300-324 | The same for reconcile, if and only if the command is dispatched, with the four columns it sets |
| `Outcomes.ReissueOutcomes` | src/channel_policy_router/application/use_cases.py:218-239 | A reissue is let through if and only if the role may, there is a reason and the command has failed or was canceled, with the error of each other case, and what it then asks for |
| `Outcomes.ReissueOfSafetyRejected` | src/channel_policy_router/application/use_cases.py:229-239 | A reissue is turned away as invalid exactly when the command is safety critical, since it brings no keys |
| `Outcomes.OverrideOutcomes` | src/channel_policy_router/application/use_cases.py:241-270 | An override succeeds if and only if the role may, there is a reason and a row has the id, with the error of each other case; it sets the asked channel, the reason and updated_at of that row and nothing else |
| `Outcomes.OverrideIsInert` | src/channel_policy_router/application/use_cases.py:255-270 | An override changes no command's progress, no other row, no pending count and no service order |
| `Lifecycle.StepCases` | src/channel_policy_router/application/use_cases.py:199-349 | A step adds one row at the end, or retires rows, or starts the one command dispatch picks; nothing else happens to the table |
| `Lifecycle.StepMoves` | src/channel_policy_router/application/use_cases.py:199-349 | Every row keeps its place and identity and moves only along the life cycle |
| `Lifecycle.TerminalIsFinal` | src/channel_policy_router/application/use_cases.py:199-349 | Once terminal, a command's status, dispatched_at, completed_at and result_reason never change |
| `Lifecycle.ReachableConsistent` | src/channel_policy_router/application/use_cases.py:300-324 | In every reachable state the outcome columns of every row fit its status |
| `Lifecycle.PotentialRises` | src/channel_policy_router/application/use_cases.py:199-349 | Each status change raises the summed rank accepted/queued < dispatched < terminal |
| `Lifecycle.LifecycleBound` | src/channel_policy_router/application/use_cases.py:199-349 | Over any run n commands go through at most 2n status changes |
| `Lifecycle.ReissueGapHarmless` | src/channel_policy_router/application/use_cases.py:218-239 | Whatever runs between a reissue's read and its submission, the parent is still failed or canceled and unchanged, and the child has its organization, site, point and class, and its payload with the new reissue reason in it |
| `Lifecycle.ReissueWalkEnds` | src/channel_policy_router/application/use_cases.py:229-239 | Walking parent links made by reissue falls in position at every link, so it ends |
| `Dedup.ReachableSpaced` | src/channel_policy_router/adapters/outbound/in_memory.py:52-84 | Commands on a site sharing an idempotency key (a correlation id) are more than the key's window apart, in every reachable state, even if the clock runs backwards |
| `Dedup.RecentIsLast` | src/channel_policy_router/adapters/outbound/in_memory.py:52-67 | The window lookup returns a row inside the window if and only if no later row has its key |
| `Dedup.RetryReturnsOriginal` | src/channel_policy_router/application/use_cases.py:86-98 | A valid resubmission up to the end of the window returns the original as duplicate_of and changes nothing, whatever ran in between, if no submission since has read a clock past that end |
| `Dedup.RetryExactly` | src/channel_policy_router/application/use_cases.py:86-98 | For any clock: a retry up to the end of the window is answered with the original if and only if no later command has its site and key |
| `Dedup.RetryNeedsForwardClock` | src/channel_policy_router/application/use_cases.py:86-98 | Without that clock condition it fails: a concrete run in which the retry is answered with another command |
| `Deadlines.StepStamps` | src/channel_policy_router/application/use_cases.py:199-349 | Every change of a row carries the clock of the step that made it, and only overdue commands breach |
| `Deadlines.ReachableOnDeadline` | src/channel_policy_router/application/use_cases.py:145-149 | Every command's deadline is its class's allowance plus the offset after creation, and none was failed for it before it had passed |
| `Incidents.ReachableExactlyOnce` | src/channel_policy_router/application/use_cases.py:443-487 | In every reachable state the incidents are in bijection with the safety commands failed for their deadline |
| `Incidents.BreachKeepsExactlyOnce` | src/channel_policy_router/application/use_cases.py:443-487 | Failing one pending command pairs it with exactly the incident it leaves, if any |
| `Deadlines.ReachableIncidentsDescribe` | src/channel_policy_router/application/use_cases.py:463-485 | Every incident carries its command's place, payload and deadline, and was raised at the moment the command was failed |
| `Incidents.BatchTakesMostOverdue` | src/channel_policy_router/adapters/outbound/in_memory.py:141-154 | A limited batch takes the commands with the earliest deadlines, ties by insertion |
| `Incidents.SplitSlaBatch` | src/channel_policy_router/application/use_cases.py:351-383 | In memory, at one time, a batch of a and then a batch of b leave the whole store as a batch of a + b |
| `SlaEquivalence.FullBatchIsCheckEach` | src/channel_policy_router/application/use_cases.py:326-383 | A batch that gets its lease, with a limit that covers everything overdue, equals check_sla on every command in any order: same commands, same incidents up to order and drawn ids, and its own lease given back |
| `SlaEquivalence.BatchClearsOverdue` | src/channel_policy_router/application/use_cases.py:351-383 | A batch leaves nothing overdue if and only if nothing was, or it gets its lease and its limit covers all that was |
| `BatchOutcomes.CheckSlaOutcomes` | src/channel_policy_router/application/use_cases.py:326-349 | check_sla is not found if and only if no row has the id, and breaches if and only if that row is accepted, queued or dispatched past its deadline; alert and manual action are required if and only if it raised an incident, which is if and only if a safety command breached; it replies with the row now in the table, and each column changed is given |
| `BatchOutcomes.SlaBatchOutcomes` | src/channel_policy_router/application/use_cases.py:351-383 | A deadline batch gets its lease if and only if it is free, its own or expired; it then fails exactly the rows with fewer than limit late ones before them, its items are those rows in that order with their flags, and each safety row among them, and no other, leaves its incident |
| `BatchOutcomes.AlertsAreRaised` | src/channel_policy_router/application/use_cases.py:443-487 | An item of a batch requires an alert if and only if the step raised an incident for its command |
| `BatchOutcomes.DeliveryOutcomes` | src/channel_policy_router/application/use_cases.py:385-437 | A delivery batch handles exactly the incidents with fewer than limit waiting ones before them: one marked to fail gets one more attempt and is put off by min(base * 2^attempts, max) from now, any other is delivered now; delivered_count and failed_count are the numbers of incidents that became delivered and that gained an attempt |
| `BatchOutcomes.FailuresSpaced` | src/channel_policy_router/application/use_cases.py:413-422 | Over any run, two failed attempts of one incident are at least the first one's delay apart, whatever the clock does |
| `Delivery.DeliveryCounts` | src/channel_policy_router/application/use_cases.py:404-437 | delivered_count + failed_count = min(limit, due), and the due list shrinks by exactly that |
| `Delivery.BatchTakesFirstDue` | src/channel_policy_router/adapters/outbound/in_memory.py:170-182 | A limited batch takes the incidents due first, ties by insertion |
| `Delivery.SplitDeliveryBatch` | src/channel_policy_router/application/use_cases.py:385-437 | In memory, at one time, a batch of a and then a batch of b leave the whole store as a batch of a + b |
| `Delivery.BatchesDrain` | src/channel_policy_router/application/use_cases.py:385-437 | In memory, m batches leave nothing due if and only if m * limit covers all that was due |
| `Delivery.ReachableOnSchedule` | src/channel_policy_router/application/use_cases.py:407-427 | next_attempt_at is never before created_at plus the sum of all delays so far, whatever the clock does; no delivery is early; failing incidents are never delivered and carry their last error |
| `BackoffSchedule.DoublingsReach` | src/channel_policy_router/application/use_cases.py:413-417 | An attempt's delay is uncapped exactly for the first so many attempts |
| `BackoffSchedule.BackoffClosedForm` | src/channel_policy_router/application/use_cases.py:413-417 | The delays sum to base * (2^n - 1) up to the cap and grow linearly in max after it |
| `BackoffSchedule.DelaysFit` | src/channel_policy_router/application/use_cases.py:413-417 | n delays fit in the given seconds if and only if, up to the cap, 2^n is at most seconds / base + 1, and after the cap the delays past it are at most the seconds left over max |
| `Delivery.AttemptsBoundedByElapsed` | src/channel_policy_router/application/use_cases.py:407-424 | The number of failed attempts since an incident was raised is at most what fits in the elapsed seconds: logarithmic up to the cap, one for every max seconds after it |
| `Delivery.AttemptsCountFailures` | src/channel_policy_router/application/use_cases.py:418-424 | attempt_count grows by exactly the failures a run records, and a delivered incident never changes again |
| `Leases.LeaseOutcomes` | src/channel_policy_router/adapters/outbound/in_memory.py:213-239 | An acquire is granted exactly when the lease is free, its own or expired, until its ttl is over; a release removes exactly the owner's lease; neither touches another lease |
| `Leases.LeaseKept` | src/channel_policy_router/adapters/outbound/in_memory.py:233-239 | While a grant is neither released by its owner, cut short by its own renewal nor expired, the table names that owner: no stale release or other step removes it |
| `Leases.LeaseExclusion` | src/channel_policy_router/adapters/outbound/in_memory.py:213-239 | Of two grants of one lease to different owners, with a forward clock and no renewal cutting the earlier short, the [granted, min(released, expires)) intervals are disjoint in every interleaving, whether or not releases last |
| `Leases.RouterLeaseExclusion` | src/channel_policy_router/adapters/outbound/in_memory.py:213-239 | So in every run of the router with one ttl per lease and a forward clock, grants to different owners have disjoint intervals |
| `Leases.ShorterRenewalOverlaps` | src/channel_policy_router/adapters/outbound/in_memory.py:227-230 | That no renewal cuts a grant short is needed: a concrete run with a shorter renewal in which two owners overlap |
| `Leases.LeaseLapses` | src/channel_policy_router/adapters/outbound/in_memory.py:221-231 | A lease that is never given back, or whose release is lost, is open to anybody one ttl after the last step |
| `Ranking.RankedIsRanking` | src/channel_policy_router/adapters/outbound/in_memory.py:128-139 | The model of filter-then-sort returns exactly the matching rows, by key, ties in insertion order |
| `Ranking.RankingUnique` | src/channel_policy_router/adapters/outbound/in_memory.py:128-139 | A stable sort has one possible answer |
| `Ranking.RankedDrop` | src/channel_policy_router/adapters/outbound/in_memory.py:146-154 | Taking the front rows out of a query leaves the rest in the same order |
| `CommandTable.NextQueueSeq` | src/channel_policy_router/adapters/outbound/in_memory.py:117-126 | One more than the largest number still queued at the point, and 1 when none is |
| `CommandTable.FindInflightForPoint` | src/channel_policy_router/adapters/outbound/in_memory.py:94-102 | None exactly when no command at the point is dispatched; otherwise the first such command in insertion order |
| `Postgres.WellKeptNoChoice` | src/channel_policy_router/adapters/outbound/postgres.py:225-344 | Window spacing, single flight and queue order leave no ORDER BY of the repository a tie, but the one of the deadline batch |
| `Postgres.SelectOneAgrees` | src/channel_policy_router/adapters/outbound/postgres.py:225-282 | Where nothing ties, ORDER BY ... LIMIT 1 can only answer what the in-memory lookup does |
| `Postgres.QueueAgrees` | src/channel_policy_router/adapters/outbound/postgres.py:331-344 | The queue comes out of the database exactly in the in-memory order |
| `Postgres.CountAgrees` | src/channel_policy_router/adapters/outbound/postgres.py:269-282 | count(*) over the pending rows equals the in-memory pending count |
| `Postgres.NextSeqAgrees` | src/channel_policy_router/adapters/outbound/postgres.py:316-329 | COALESCE(max(queue_seq), 0) + 1 equals the in-memory next sequence number |
| `Postgres.UpdateRepresents` | src/channel_policy_router/adapters/outbound/postgres.py:136-162 | The seven-column UPDATE equals replacing the row, for every later version of the row |
| `PostgresSteps.LeaseStepAgrees` | src/channel_policy_router/adapters/outbound/postgres.py:479-514 | Whatever the upsert and the DELETE leave in the lease table is what a step of the lease protocol may leave there when a batch's release does not last |
| `Backends.PgLeaseExclusion` | src/channel_policy_router/adapters/outbound/postgres.py:479-514 | Over any run on the database, grants of one lease to different owners, those to batches among them, have disjoint intervals |
| `Backends.PgBatchesApart` | src/channel_policy_router/application/use_cases.py:351-437 | On the database two batches of one kind granted to different owners are at least a ttl apart |
| `Postgres.SubmitAgrees` | src/channel_policy_router/adapters/outbound/postgres.py:225-329 | Whatever the database answers, a submission replies as in memory, and the table still holds the same rows after it |
| `Postgres.RowReplyAgrees` | src/channel_policy_router/adapters/outbound/postgres.py:284-344 | Whatever the database answers, cancel, override, dispatch and reconcile reply as in memory |
| `PostgresBatch.BatchAgreesExactly` | src/channel_policy_router/adapters/outbound/postgres.py:346-364 | Whatever order the database takes equal deadlines in, its batch leaves the in-memory commands, if and only if no tie runs across the limit |
| `PostgresBatch.CleanCuts` | src/channel_policy_router/adapters/outbound/postgres.py:346-364 | That is so when the limit covers everything overdue, or no two overdue commands share a deadline |
| `PostgresSteps.BatchStepAgreesExactly` | src/channel_policy_router/adapters/outbound/postgres.py:346-364 | After a deadline batch the database holds the in-memory commands, whatever it answers, if and only if the batch has nothing to do, or gets its lease alike on both with no tie across its limit |
| `PostgresSteps.DatabaseAnswers` | src/channel_policy_router/adapters/outbound/postgres.py:225-364 | The database can answer every valid step, whatever its leases, and end on the in-memory commands unless a batch with something to do gets its lease on one of the two only |
| `Runs.RunExtends` | src/channel_policy_router/application/use_cases.py:56-437 | Any valid call can follow any run, so the reachable states are closed under every step |
| `Backends.GrantTold` | src/channel_policy_router/application/use_cases.py:351-383 | On the database a deadline batch gets its lease if and only if every batch before it that got it was at least a ttl earlier |
| `Backends.AllGetLease` | src/channel_policy_router/application/use_cases.py:351-383 | So all batches get it if and only if each two are at least a ttl apart |
| `Backends.MemoryLeaseFree` | src/channel_policy_router/application/use_cases.py:380-381 | In memory every such batch finds the lease free, since each gives it back |
| `Backends.RunMirrored` | src/channel_policy_router/adapters/outbound/postgres.py:75-364 | The database has a run of the same steps that holds the in-memory commands throughout, if every deadline batch with something to do gets its lease there, as told from the calls |
| `Backends.AgreeWhileSame` | src/channel_policy_router/adapters/outbound/postgres.py:75-364 | Over any run, whoever takes leases and whatever the database answers, the two hold the same commands as long as each deadline batch finds the same to do on both |
| `Backends.BackendsAgreeExactly` | src/channel_policy_router/adapters/outbound/postgres.py:75-364 | For any run in which only batches take the deadline lease: the two hold the same commands at every point, whatever the database answers, if and only if each deadline batch has nothing to do, or comes a ttl after every one that got its lease, with no tie across its limit |
| `Backends.SpacedBatchesAgree` | src/channel_policy_router/adapters/outbound/postgres.py:75-364 | In particular if the deadline batches are a ttl apart and cut cleanly |
| `Divergence.LeaseOutlivesBatch` | src/channel_policy_router/application/use_cases.py:379-381 | A concrete run of three calls after which no run of the database holds the in-memory commands, though it has runs of those calls |
| `Divergence.TieAcrossLimit` | src/channel_policy_router/adapters/outbound/postgres.py:346-364 | A concrete run that reaches two equal deadlines with a limit of one, after which the database may hold other commands |
| `InMemory.InMemoryCommandRepository.CountPending` | src/channel_policy_router/adapters/outbound/in_memory.py:86-92 | The loop counts the pending rows at the point |
| `InMemory.InMemoryCommandRepository.FindInflight` | src/channel_policy_router/adapters/outbound/in_memory.py:94-102 | The scan returns the first dispatched row at the point |
| `InMemory.InMemoryCommandRepository.NextSeq` | src/channel_policy_router/adapters/outbound/in_memory.py:117-126 | The loop returns a number above every one still queued at the point |
| `InMemory.InMemoryCommandRepository.Update` | src/channel_policy_router/adapters/outbound/in_memory.py:24-26 | Overwrites the row in its place |
| `InMemory.InMemoryIncidentHookRepository.MarkDelivered` | src/channel_policy_router/adapters/outbound/in_memory.py:184-188 | Sets delivered_at and clears last_error of one event in its place |
| `InMemory.InMemoryIncidentHookRepository.MarkDeliveryFailed` | src/channel_policy_router/adapters/outbound/in_memory.py:190-206 | Writes attempt count, next attempt and error of one event in its place |
| `InMemory.InMemoryBatchLockRepository.TryAcquire` | src/channel_policy_router/adapters/outbound/in_memory.py:213-231 | Grants exactly a free, own or expired lease, and writes it only then |
| `InMemory.InMemoryBatchLockRepository.Release` | src/channel_policy_router/adapters/outbound/in_memory.py:233-239 | Removes the lease only for its owner |
| `Router.CommandRouterUseCases.SubmitCommand` | src/channel_policy_router/application/use_cases.py:56-164 | The method makes the submission step of the state machine, gives its reply, and leaves the object fit for the next call |
| `Router.CommandRouterUseCases.CancelCommand` | src/channel_policy_router/application/use_cases.py:199-216 | The same for cancel |
| `Router.CommandRouterUseCases.ReissueCommand` | src/channel_policy_router/application/use_cases.py:218-239 | The same for reissue run without interruption: a read, then a submission of what was read |
| `Router.CommandRouterUseCases.OverrideChannel` | src/channel_policy_router/application/use_cases.py:241-270 | The same for override |
| `Router.CommandRouterUseCases.DispatchNext` | src/channel_policy_router/application/use_cases.py:272-298 | The same for dispatch |
| `Router.CommandRouterUseCases.ReconcileCommand` | src/channel_policy_router/application/use_cases.py:300-324 | The same for reconcile |
| `Router.CommandRouterUseCases.MarkFailedForSla` | src/channel_policy_router/application/use_cases.py:443-487 | Fails the row as it was read, and raises its incident if it is a safety command |
| `Router.CommandRouterUseCases.CheckSla` | src/channel_policy_router/application/use_cases.py:326-349 | The same for the single deadline check |
| `Router.CommandRouterUseCases.EvaluateSlaBatch` | src/channel_policy_router/application/use_cases.py:351-383 | The loop over listed rows makes the batch step, under its lease, and reports each breach in listed order |
| `Router.CommandRouterUseCases.DeliverIncidentHooksBatch` | src/channel_policy_router/application/use_cases.py:385-437 | The loop over due incidents makes the batch step, under its lease, with the right two counts |
| `Router.BatchRow` | src/channel_policy_router/application/use_cases.py:369-370 | A row listed before the loop is still what the table holds when the loop reaches it |
| `Router.ReachableValid` | src/channel_policy_router/application/use_cases.py:443-487 | Ids stay distinct in every reachable state, as the in-place writes need |

## Left out

- HTTP routes, schemas, token verification, settings loading, scripts and migrations.
- The reads `list_commands`, `get_governance_snapshot`, `list_incident_hooks`,
  `list_point_queue` and `class_policy`.
- Threads and SQL isolation: the reads and the write inside one use case are not locked in the
  original; the model makes them one step.
- The PostgreSQL connection, its transactions and its schema set-up. That repository is modelled on
  values, as relations between what a statement is asked and what it may answer, not as a class, so
  what a crash between statements leaves is not captured.
- The incident table on PostgreSQL: its LIMIT leaves the order of equal due times open.
- `Backends.BackendsAgreeExactly`: runs in which some other worker takes or gives back the deadline
  lease, or two batches draw one owner id, which the router never does. `Backends.AgreeWhileSame` covers
  those, in terms of what the two lease tables hold.
- The other columns of the policy matrix (timeouts, attempts, fallback), which no use case reads.
- The severity, reason and manual action flag of an incident, which are the same on every incident.
- Overflow of datetime arithmetic.
- Python's built-in sort is a function of its input here (`Ranking.Ranked`), not a loop in place.
