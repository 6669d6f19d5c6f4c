# The mesh work protocol, verified

A Dafny 4.11 model of the mission-control backend's work protocol and of four
smaller mechanisms beside it, with proofs that hold for every input and every
run. `dafny verify dfyconfig.toml` checks all of it.

## What is modelled

**The work protocol** (`Model`, `Graph`, `Protocol`, `WorkStores`). Tasks of a
kluster form a dependency graph. They are claimed by agents under leases of 120
seconds, held by heartbeats, sent to review through gates, finished, failed,
cancelled and retried. `Protocol` gives each endpoint as a function on the
store; `WorkStores.WorkStore` is the store as the program keeps it, whose
methods rewrite rows with the program's own loops and are proved equal to those
functions; the table below lists the handlers whose loops make that a theorem,
and the loop-free others follow their function line by line. A run
(`Protocol.Run`) is any finite sequence of the eighteen events from the empty
store: the three ways a task is made, both halves of a claim, the holder's
calls, the operator's overrides, the gate calls, the lease sweep of a listing,
the watchdog's tick and the dispatcher's tick.

An exclusive claim is two events. `BeginClaimE` reads the row without a lock and
remembers its version; `CommitClaimE` selects the row if it is still ready and
swaps on the version. Any number of claims may be open between the two, and any
other events may come there. `rowLocked` is the outcome of SKIP LOCKED. On SQLite
a process lock makes the second event follow the first at once
(`Fencing.SerialClaim`).

On top of it stand theorems about whole runs. `Rows` and `Invariants` say what
one step can do to one row and what every step keeps. `Answers` pins every
request in every reachable state on the columns of the rows: when it is
accepted, with which code it is refused, what moves, and that nothing else does.
`Fencing` is about claims and leases, with every override allowed. `Ordering` is
about dependency order. `Review` is about gates. `Wakeup` says which tasks are
woken and which are left behind. `LeaseTiming` is about expiry. `Alias` shows
that `pending` and `blocked` are one status. `ProgressLog` is about numbering
and replay.

**Beside it**: the sliding-window rate limiter with its keys and policies
(`RateLimit`), the event triggers and their cooldown, which add tasks to the same
store (`Triggers`), reading a growing table through a cursor in pages of a
hundred (`Replay`), and the searched tree of missions, klusters and tasks
(`Explorer`).

**Inputs.** Ids drawn from uuid4 come from one supply of fresh numbers. Time is an
integer number of seconds read once per request (a real number in the limiter).
Whether a kluster exists, whether a row is locked and whether publishing an event
raises are inputs. A lease id of the empty text counts as no lease, as in the
program.

## What turned out not to hold

- Readiness does not survive every manual override (`Ordering.EarlyUnblock`).
  `Ordering.ReadinessIff` gives the exact condition: it holds throughout if and only if no override unblocked a
  task with unfinished dependencies or moved a finished task that others count on.
- A rejected gate does not stop a completion (`Review.RejectedGateFinishes`). A
  completion finishes its task exactly when no gate is undecided
  (`Review.CompletionFinishesIff`).
- Wake-ups can be lost. A task created, retried or blocked after its dependencies
  finished waits on nothing (`Wakeup.LateCreationIsStuck`), although the comment
  in `create_task` says blocked "until all deps finish". `Wakeup.LateStartIff`
  says from the call and the store before it when a wait starts that way, and
  `Wakeup.StuckIff` when a task is in that state, in any run.
- The migration's column comment says the lease id is null when a task is not
  claimed. A swept row keeps its lease (`LeaseTiming.LapsedKeepsLease`).
  `LeaseTiming.LeaseIdIff` is exact: a row has a lease if and only if a claim of it
  was granted and the watchdog has not taken it back since. Fencing holds all the
  same.
- The invariant that the migration's comment leaves to the application, that a
  held row has an owner and a lease, fails for a running broadcast task, and only
  there (`LeaseTiming.ClaimInvariantIff`, `LeaseTiming.BroadcastBreaksInvariant`).
- The same migration describes the version counter as rising on every claim and
  release. In the code only a granted exclusive claim raises it
  (`Fencing.VersionCountsGrants`); the release in `LeaseTiming.LapsedKeepsLease`
  leaves it at 1.
- Two callers can share a rate-limit bucket when a path holds a colon
  (`RateLimit.AddressMeetsSubject`); `RateLimit.KeysApart` says exactly when.
- A call that presents no lease is not fenced (`LeaseTiming.LeaselessFinishes`:
  one finishes the task under its next holder), nor is any call on a broadcast
  task. `Fencing.LeasesFence` is an if-and-only-if that includes these cases.
  Progress is not fenced at all: a stranger's event starts the holder's claim and
  is recorded as the holder's (`ProgressLog.StrangerStartsClaim`,
  `ProgressLog.ProgressUnfenced`).

## Model

| member | source | states |
|---|---|---|
| Graph.DetectCycle | backend/app/routers/work.py:691-718 | The three-colour search answers true if and only if some path from the new task comes back to a node it has visited, for every adjacency map, dangling ids included; it terminates. |
| Graph.CycleFinder.Dfs | backend/app/routers/work.py:707-716 | One recursive call: true only with a cycle reachable from the first grey node; otherwise every node met stands in a list in which each node comes after all its successors. |
| Graph.LayeredIsAcyclic | backend/app/routers/work.py:694-696 | Such a list certifies that no cycle is reachable from any of its nodes. |
| Ordering.CreationNeverCycles | backend/app/routers/work.py:261-281 | In every reachable store validated dependencies close no cycle, so on both creation paths a creation in a known kluster succeeds if and only if its dependencies are rows of that kluster and its policy is a listed one. |
| Rows.HandleMoves | backend/app/routers/work.py:350-640 | What a step may do: to an existing row only one of seventeen named changes, from the statuses that change allows, and nothing else. When it must do so is said by the rows of `Answers`. |
| Rows.HandleNewRow | backend/app/routers/work.py:284-305 | A row appears only as the created task under the next fresh id; nothing else appears. |
| Rows.HandleGates | backend/app/routers/work.py:1118-1171 | A gate never changes owner or task, its status changes only by its owner's decision on it, and a new gate is undecided and made by its task's creator. |
| Rows.HandleRest | backend/app/routers/work.py:516-535 | Gates, log and id supply move exactly as the answer says: one id for each creation or grant, one log entry for each recorded event. |
| Answers.CycleIff | backend/app/routers/work.py:691-718 | On any store, sound or not, a creation is refused for a cycle if and only if the edges of the kluster's rows with the proposed ones lead from the new task back to a task already visited. |
| Answers.CreationExact | backend/app/routers/work.py:248-310 | Through REST or MCP a task is created if and only if the kluster is known, the policy listed and each dependency a row of the kluster; otherwise 404 or 400 and no change. The new row is ready without dependencies and blocked or pending with any, and is the only change. |
| Answers.SpawnExact | backend/app/services/agent_scheduler.py:34-55 | A trigger's or job's task is always created, ready and without dependencies, under a fresh id. |
| Answers.BeginExact | backend/app/routers/work.py:404-427 | A broadcast claim is accepted if and only if the task is ready or running, whoever asks and however often, and renews the expiry by 120 seconds; any other claim notes the version and changes no row. |
| Answers.BroadcastStaysOpen | backend/app/routers/work.py:412-427 | A running broadcast task accepts every further claim, and no sweep takes it back, until a call that ends its run is accepted. |
| Answers.CommitExact | backend/app/routers/work.py:428-480 | 423 if and only if the row is locked or not ready, 409 if and only if it is ready and was claimed since this request's latest read; otherwise whoever made that read gets it for 120 seconds under the next version and a fresh lease. |
| Answers.HolderRefusals | backend/app/routers/work.py:483-606 | A heartbeat, completion or failure gets 404 for an unknown task, 409 for a status that does not admit it or for another lease than the row's, and is accepted otherwise. |
| Answers.HeartbeatExact | backend/app/routers/work.py:495-500 | An accepted heartbeat sets the expiry to 120 seconds from now and moves nothing else. |
| Answers.ProgressExact | backend/app/routers/work.py:503-545 | An event on an existing task is always recorded, under the number of events before it; it starts a claimed task and touches no task in another status. |
| Answers.CompleteExact | backend/app/routers/work.py:559-593 | An accepted completion names exactly the task's undecided gates and moves it to review, or, without any, finishes it with its artifact and frees exactly the blocked and pending tasks of the kluster for which it was the last unfinished dependency; no other row moves. |
| Answers.FailExact | backend/app/routers/work.py:607-614 | An accepted failure clears the expiry and keeps owner, lease and version. |
| Answers.CancelExact | backend/app/routers/work.py:350-362 | A cancel is accepted if and only if the task exists and is neither finished nor cancelled; work in progress can be cancelled, and owner, lease, expiry and version stay. |
| Answers.RetryExact | backend/app/routers/work.py:365-379 | A retry is accepted if and only if the task failed or was cancelled; it clears owner and expiry, keeps lease and version, and makes the task wait if it has dependencies, finished or not. |
| Answers.OverrideExact | backend/app/routers/work.py:617-640 | A block or unblock is accepted for every existing task, whatever its status, and moves the status alone. |
| Answers.CreateGateExact | backend/app/routers/work.py:1118-1139 | A gate is created if and only if the caller created the task; it is undecided, and its new id is the answer. |
| Answers.ResolveRecords | backend/app/routers/work.py:1157-1171 | A resolution is accepted if and only if it is well formed and the gate exists, is the caller's and is one of the named task; it writes the decision on that gate alone, decided before or not. |
| Answers.ResolveSettles | backend/app/routers/work.py:1176-1192 | On the gates as they stand after it, an accepted resolution fails a task in review if and only if one of its gates is rejected, finishes it if and only if all are approved, and otherwise changes no task; a task not in review keeps its row. |
| Answers.SweepTakes | backend/app/routers/work.py:671-688 | A sweep takes back exactly the exclusive tasks held past their expiry, a listing in its kluster and leaving the lease, the watchdog everywhere and clearing it. |
| Answers.DispatchTakes | backend/app/services/mesh_dispatcher.py:31-79 | A dispatcher tick readies, and answers with, exactly the blocked and pending tasks that depend on nothing unfinished. |
| Invariants.StepDag | backend/app/routers/work.py:261-268 | Every step keeps: each dependency exists, lies in the same kluster and was created strictly earlier. |
| Invariants.StepClaimFields | backend/app/routers/work.py:447-460 | Every step keeps: an exclusive task in work has an owner and a lease, a held task has an expiry, a broadcast task never has a lease, a version above zero or the status claimed. |
| Invariants.StepSnapshots | backend/app/routers/work.py:406-467 | Every step keeps: an open claim was read from an exclusive row whose version has not fallen since. |
| Invariants.StepGatesOwned | backend/app/routers/work.py:1118-1139 | Every step keeps: each gate's owner is its task's creator, and no gate is ever marked expired. |
| Invariants.RunSound | backend/app/routers/work.py:248-688 | All these invariants hold in every state of every run, overrides included. |
| Fencing.LeasesFence | backend/app/routers/work.py:483-500 | A heartbeat, completion or failure is accepted if and only if the status admits it and, if it presents a lease for an exclusive task, that lease came from the latest granted claim and the task has stayed in work ever since; refused, it changes nothing. |
| Fencing.ActiveIsHeld | backend/app/routers/work.py:548-558 | An exclusive task in work was granted to someone, has been in work ever since that latest grant, and its row carries that grant's lease and claimer, although expiry, retry and cancel leave old leases on rows. |
| Fencing.StaleLeaseRefused | backend/app/routers/work.py:596-606 | Once a task has left work or been claimed anew, every later call with the old lease is refused and changes nothing. |
| Fencing.LeasesRise | backend/app/routers/work.py:442-443 | No lease is ever issued twice, for any task. |
| Fencing.DeniedChangesNothing | backend/app/routers/work.py:404-464 | Any request that is refused leaves the whole store as it was. |
| Fencing.ClaimsExclude | backend/app/routers/work.py:382-480 | Under any interleaving of reads and commits, two granted claims of a task each found it ready, won different versions from reads of different versions, got different leases, and between them the task left work. |
| Fencing.VersionCountsGrants | backend/app/routers/work.py:443-460 | In every reachable state the version counter is the number of exclusive claims granted on the task. |
| Fencing.CommitIff | backend/app/routers/work.py:428-467 | A commit is granted if and only if the row is not locked, the task is ready, and no claim of it was granted since this request's own latest read, whatever else happened in between. |
| Fencing.SnapshotWasRead | backend/app/routers/work.py:406 | What an open claim remembers is what its request's latest read found on that row; no later read or commit of the request came between. |
| Fencing.SerialClaim | backend/app/routers/work.py:402-438 | With the commit right after its read, a claim is granted if and only if the task is ready, and otherwise answered 423 with nothing changed. |
| Ordering.ReadinessIff | backend/app/routers/work.py:617-640 | Throughout a run every task that is not waiting or cancelled has all its dependencies finished, if and only if no override unblocked a task too early or moved a finished task that others count on. |
| Ordering.EarlyUnblock | backend/app/routers/work.py:630-640 | A concrete run whose unblock leaves a ready task with an unfinished dependency. |
| Ordering.StepReadiness | backend/app/routers/work.py:643-668 | One step keeps readiness of all tasks if and only if it is not such an override. |
| Ordering.Readiness | backend/app/routers/work.py:350-379 | Without overrides readiness holds in every state, retries and late creations included. |
| Ordering.TopologicalOrder | backend/app/routers/work.py:382-593 | As long as no override was harmful, a task is claimed, joined or finished only after the finish of every task a dependency path leads to, and all of these are still finished then. |
| Ordering.FinishesInOrder | backend/app/routers/work.py:579-586 | As long as no override was harmful, and none moved the task since its finish, every finish of a dependency comes before the task's own. |
| Ordering.FinishedStays | backend/app/routers/work.py:350-373 | A finished task stays finished until an override of that very task. |
| Review.OwnerFilterHidesNothing | backend/app/routers/work.py:559-566 | The owner-filtered query of a completion sees exactly the task's undecided gates. |
| Review.ReviewIsOpen | backend/app/routers/work.py:568-578 | In every reachable state a task in review has an undecided gate. |
| Review.ReviewSafety | backend/app/routers/work.py:1157-1192 | A task leaves review as finished only by its creator's resolution of one of its gates, after which every gate of the task is approved, each by a decision of the creator. |
| Review.GateWasDecided | backend/app/routers/work.py:1158-1171 | A gate that is approved or rejected was decided so by its owner, and that is the last decision made on it. |
| Review.CompleteKeepsReview | backend/app/routers/work.py:552-578 | A completion never takes a task out of review. |
| Review.CompletionFinishesIff | backend/app/routers/work.py:559-583 | An accepted completion finishes the task if and only if no gate of it is undecided; otherwise the task goes to review. |
| Review.RejectedGateFinishes | backend/app/routers/work.py:560-583 | A concrete run in which a task finishes with a rejected gate. |
| Wakeup.WakeupExact | backend/app/routers/work.py:643-668 | On either finishing path the waiting tasks that turn ready are exactly those that name the finished task and now have every dependency finished; every other waiting row is untouched. |
| Wakeup.LastFinishWakes | backend/app/routers/work.py:585-586 | The step that finishes the last unfinished dependency of a waiting task wakes it. |
| Wakeup.NothingNewlyStuck | backend/app/routers/work.py:1186-1190 | Only a creation, a retry or a block can leave a task waiting on nothing; no finish of a dependency is missed. |
| Wakeup.LateStartIff | backend/app/routers/work.py:365-373 | A step starts a wait on nothing if and only if, in the store before it, the call is an acceptable creation on finished dependencies, a retry of a failed or cancelled task with such dependencies, or a block of a task with nothing to wait for. |
| Wakeup.StuckIff | backend/app/routers/work.py:284-373 | In any run a task waits on nothing if and only if it was created, retried or blocked on finished dependencies and since then no dispatcher tick, no cancel or unblock of it and no override of a dependency came. |
| Wakeup.WaitsIffUnfinished | backend/app/routers/work.py:643-668 | As long as no override was harmful, a task that is not cancelled waits if and only if some dependency is unfinished, or it was created, retried or blocked on finished dependencies and nothing has ended that wait since. |
| Wakeup.LateCreationIsStuck | backend/app/routers/work.py:283-284 | A concrete run in which a task created after its dependency finished is left waiting. |
| Wakeup.DispatcherClears | backend/app/services/mesh_dispatcher.py:31-79 | After a dispatcher tick no task waits on nothing, whatever came before it, overrides included. |
| LeaseTiming.ExpiryIsLastRenewal | backend/app/routers/work.py:495-499 | The expiry of a held exclusive task is the time of its latest claim or heartbeat plus 120 seconds, and it has been held since. |
| LeaseTiming.ReclaimedIff | backend/app/routers/work.py:671-688 | With a monotone clock a step takes a held task back if and only if it is a sweep over its kluster and every claim or heartbeat of the task is more than 120 seconds old. |
| LeaseTiming.PunctualHolderKeeps | backend/app/routers/work.py:483-500 | A holder that sends a heartbeat within 120 seconds before each sweep keeps the task, its name on it and its lease, whatever other calls come, as long as each completion, failure, cancel, block or unblock of the task is refused; that its heartbeats are accepted is part of the conclusion. |
| LeaseTiming.HolderIsFenced | backend/app/routers/work.py:483-606 | Such a holder keeps the task against every caller that presents another lease: nobody cancelling or overriding the task, all those completions and failures are refused, whatever their number and order. |
| LeaseTiming.SweepExact | backend/app/services/work_watchdog.py:25-51 | After a sweep at `now` no exclusive held task it covers has an expiry before `now`; other klusters, broadcast rows and rows with time left are untouched; what is taken back was held and is ready, unowned and of the same version. |
| LeaseTiming.HeldHasFields | backend/alembic/versions/20260420_0021_claim_lease_hardening.py:46-53 | In every reachable state a held exclusive task has an owner, a lease and an expiry. |
| LeaseTiming.LeaseIdIff | backend/alembic/versions/20260420_0021_claim_lease_hardening.py:28-34 | In every reachable state a row has a lease if and only if some claim of it was granted and no watchdog tick has taken it back since. |
| LeaseTiming.LapsedKeepsLease | backend/app/routers/work.py:682-688 | A concrete run whose listing leaves a ready, unowned row with its old lease and its version as it was. |
| LeaseTiming.LeaselessFinishes | backend/app/routers/work.py:548-583 | A concrete run in which a completion without a lease finishes a task that another claimer holds under a fresh one. |
| LeaseTiming.ClaimInvariantIff | backend/alembic/versions/20260420_0021_claim_lease_hardening.py:46-53 | In every reachable state a row meets the invariant left to the application if and only if it is not a running broadcast task. |
| LeaseTiming.BroadcastBreaksInvariant | backend/app/routers/work.py:412-427 | A concrete run whose broadcast claim leaves a row that breaks that invariant. |
| Alias.StepAlike | backend/app/models.py:792-795 | Stores equal up to swapping pending and blocked stay so under every event and give the same answers. |
| Alias.RunsAlike | backend/app/routers/work.py:643-653 | Two runs of the same requests, each creation through REST or MCP at will, are answered the same throughout and pass through stores equal up to that swap. |
| Alias.CreationsAlike | backend/app/routers/mcp.py:3538-3593 | The two creation paths accept and refuse the same requests, although they check in a different order, and make the same row up to that swap. |
| Alias.AnswerCanon | backend/app/routers/work.py:410-438 | No request, claims included, is answered differently for pending than for blocked. |
| ProgressLog.RunNumbered | backend/app/routers/work.py:516-545 | In every reachable state the events of each task are numbered 0, 1, 2 and so on in the order they came, and each call is answered with the number of events before it. |
| ProgressLog.ProgressUnfenced | backend/app/routers/work.py:503-535 | An event is recorded whenever the task exists and starts a claimed task, whoever sends it; it bears the caller's name if and only if the row has no owner or the caller is the owner, and on an exclusive task in work the name of the latest claim's claimer. |
| ProgressLog.StrangerStartsClaim | backend/app/routers/work.py:511-527 | A concrete run in which a stranger's event starts the holder's claim and is recorded as the holder's. |
| ProgressLog.ReplayExact | backend/app/routers/work.py:1014-1024 | The replay query has exactly one possible answer: the task's events after the given number, in the order they came. |
| Protocol.NextSeq | backend/app/routers/work.py:516-522 | The number given out lies above every number of the task, and directly above the highest. |
| WorkStores.WorkStore.CheckDeps | backend/app/routers/work.py:261-268 | The validation loop accepts if and only if every named dependency is a row of the kluster. |
| WorkStores.WorkStore.CheckCycle | backend/app/routers/work.py:270-273 | True if and only if the kluster's edges with the proposed ones added let the new task reach a cycle. |
| WorkStores.WorkStore.CreateTask | backend/app/routers/work.py:248-310 | Checks in the program's order, then adds the row; refines the protocol's creation. |
| WorkStores.WorkStore.SubmitTask | backend/app/routers/mcp.py:3538-3593 | The MCP creation, which checks the policy first and makes waiting tasks pending. |
| WorkStores.WorkStore.UnblockDependents | backend/app/routers/work.py:643-668 | Going through the candidates in any order and rewriting rows on the way still wakes exactly the set fixed beforehand, each task once. |
| WorkStores.WorkStore.Complete | backend/app/routers/work.py:548-593 | Refuses, sends to review with the undecided gates, or finishes and wakes. |
| WorkStores.WorkStore.ResolveGate | backend/app/routers/work.py:1157-1202 | Meets the protocol's resolution, whose answer and effect `Answers.ResolveRecords` and `Answers.ResolveSettles` fix. |
| WorkStores.WorkStore.ExpireStaleLeases | backend/app/routers/work.py:671-688 | The loop takes back exactly the stale rows of one kluster, leaving their lease ids. |
| WorkStores.WorkStore.WatchdogTick | backend/app/services/work_watchdog.py:25-80 | The loop takes back exactly the stale rows of all klusters, clears their lease ids, and answers how many. |
| WorkStores.WorkStore.DispatcherTick | backend/app/services/mesh_dispatcher.py:31-79 | The loop readies exactly the waiting tasks whose dependency rows are finished, each once, although it rewrites rows on the way. |
| Replay.Follow | integrations/mc-mesh/crates/mc-mesh/src/task_loop.rs:327-349 | Whatever arrives between polls and whichever polls fail, what the loop has delivered followed by what lies after its cursor is exactly what was asked for, in order. |
| Replay.ExactlyOnce | backend/app/routers/ai.py:368-392 | The same for the reader's history as a function of its polls. |
| Replay.DeliveredExactly | backend/app/routers/ai.py:373-384 | So the delivered rows are in id order, each once, and are exactly the wanted rows after the start and up to the cursor. |
| Replay.ResumesAnywhere | backend/app/routers/ai.py:368-384 | A stream cut anywhere leaves a point to resume from: after any delivered row, the rows got so far and those after its id are exactly what was asked for. |
| Replay.ReconnectKeeps | backend/app/routers/ai.py:361-392 | A reader that comes back with the last id it got, to a table that has grown, gets in both sittings together what one uninterrupted reader gets. |
| Replay.QuietPollsDrain | backend/app/routers/work.py:977-990 | Once appends stop, each successful poll takes a hundred rows off what is left, until nothing is left and everything was delivered. |
| Replay.PendingAfter | backend/app/routers/work.py:981-989 | Moving the cursor to the k-th pending row leaves exactly the rows after it. |
| Replay.PendingExact | backend/app/routers/work.py:981-989 | The query lists exactly the rows after the cursor that are addressed to the agent or to nobody, or that belong to the session, in id order. |
| Replay.WantedExactly | backend/app/routers/work.py:981-989 | An agent is sent the messages that name it and those that name nobody, a session's reader the events of that session, past the cursor and nothing else. |
| Replay.PageExact | backend/app/routers/work.py:987-989 | A page is the first hundred pending rows; a shorter page leaves nothing pending. |
| Replay.PollExact | integrations/mc-mesh/crates/mc-mesh/src/task_loop.rs:330-349 | A failed poll delivers nothing and keeps the cursor; any other delivers the first hundred rows pending by then and moves the cursor to the last of them. |
| RateLimit.LimiterIsExact | backend/app/main.py:471-481 | Over any interleaving of keys with a clock that does not go back, a request passes if and only if fewer than its policy's capacity passed with its key in the window before it, and no window ever holds more than the capacity. |
| RateLimit.InMemoryRateLimiter.Allow | backend/app/main.py:159-171 | The popping loop and the append change the caller's bucket as the limiter's step says and no other bucket. |
| RateLimit.DequeInStep | backend/app/main.py:163-171 | The pruned deque is the end of the full accepted history and forgets only what lies outside the window. |
| RateLimit.HistorySpaced | backend/app/main.py:168-169 | Accepted times that are capacity places apart are at least a window apart. |
| RateLimit.WindowHolds | backend/app/main.py:154-171 | Any half-open window of the policy's length holds at most capacity accepted requests. |
| RateLimit.KeysAreSeparate | backend/app/main.py:160-164 | What other keys do never touches a key's bucket or its decisions. |
| RateLimit.NamedLimits | backend/app/main.py:194-202 | Whatever follows in the path: approvals and governance pass by the approval policy's capacity and window, search and explorer by the search policy's, writing verbs elsewhere by the write policy's and the rest by the default's, and none is ever overrun. |
| RateLimit.SameKeySamePolicy | backend/app/main.py:194-218 | Requests with equal bucket keys come under equal policies, although paths and subjects may contain colons. |
| RateLimit.KeysApart | backend/app/main.py:470-481 | Two requests share a bucket if and only if their verbs agree and path and caller read the same when joined; on one path, and between paths without colons, if and only if verb, path and caller all agree. |
| RateLimit.AddressMeetsSubject | backend/app/main.py:480 | A concrete pair of requests, from an address on a path with a colon and from a subject on another path, with one key. |
| RateLimit.CallersApart | backend/app/main.py:205-218 | Two callers count as one if and only if both have the same subject, or neither has one and both count under the same address; a subject never counts as an address. |
| RateLimit.AddressExact | backend/app/main.py:211-218 | A caller without a subject counts under the first forwarded address, trimmed, if it comes through a trusted proxy that names one, and otherwise under its own. |
| RateLimit.ForwardedIsIgnored | backend/app/main.py:213-217 | What a caller forwards changes nothing unless it comes through a trusted proxy and has no subject. |
| Triggers.Evaluator.EvaluateTriggers | backend/app/services/agent_scheduler.py:227-270 | The loop leaves exactly the board and the store that `Triggers.FiringExact` and `Triggers.EachAddIsItsOwn` describe trigger by trigger, in order. |
| Triggers.FiringExact | backend/app/services/agent_scheduler.py:222-265 | A trigger is stamped if and only if it is active, the event is of its type, its cooldown is over, its condition reads and each listed pair is the event's value, and its action ends well; it adds a row if and only if the same holds and its spec makes a task. |
| Triggers.AddedCounts | backend/app/services/agent_scheduler.py:242-257 | The rows one event adds number the triggers that answer it with a task. |
| Triggers.SwitchedOffIsSilent | backend/app/services/agent_scheduler.py:234-239 | From the moment it is switched off a trigger is never stamped and never adds a row, whatever turns come. |
| Triggers.EachAddIsATask | backend/app/services/agent_scheduler.py:34-65 | One event adds as many rows as triggers add, each ready, without dependencies and owned by the owner of one of them, and changes no other row, gate or log entry. |
| Triggers.EachAddIsItsOwn | backend/app/services/agent_scheduler.py:34-53 | Each adding trigger has a new row of its own, numbered by the adding triggers before it, with that trigger's kluster, policy and owner. |
| Triggers.HistoryAdds | backend/app/services/agent_scheduler.py:227-270 | Over any history of events, registrations and switch-offs the rows added, all ready and without dependencies, number the recorded fires of the triggers that make tasks, summed trigger by trigger, plus the rows whose publishing raised after the commit; with no raise there are none of the latter. |
| Triggers.FiresAreSpaced | backend/app/services/agent_scheduler.py:243-247 | Consecutive recorded fires of a trigger are at least its cooldown apart, even if the clock steps back, and the stamp is the last fire. |
| Triggers.CooldownBound | backend/app/services/agent_scheduler.py:242-247 | A closed interval of length T holds at most T / c + 1 recorded fires, in whole division. |
| Explorer.Search.MatchesQuery | backend/app/routers/explorer.py:24-28 | True if and only if there is no search text or some present field contains it once lower-cased. |
| Explorer.BuildTree | backend/app/routers/explorer.py:121-227 | The builder over grouped indexes gives exactly the tree of plain filtering; its totals are the sums over missions and unassigned klusters, and equal the number of kluster rows and of task rows that stand in the tree, each counted once. |
| Explorer.GroupTasks | backend/app/routers/explorer.py:121-123 | The index gives for every kluster, named in it or not, exactly its tasks in order. |
| Explorer.GroupKlusters | backend/app/routers/explorer.py:125-127 | The index gives for every mission, and for none, exactly its klusters in order. |
| Explorer.BuildClusterSummary | backend/app/routers/explorer.py:39-71 | One pass of counters gives for each status the number of tasks in it, lists no other status, and keeps the first tasks up to the limit. |
| Explorer.CountsAddUp | backend/app/routers/explorer.py:44-46 | The status counts of a summary sum to its task count. |
| Explorer.IncludedCount | backend/app/routers/explorer.py:130-222 | The set of included kluster ids has as many members as klusters are shown: none is counted twice. |
| Explorer.ShownIff | backend/app/routers/explorer.py:151-168 | A kluster is shown if and only if its mission, itself or one of its tasks matches, with all its tasks in the first two cases and the matching ones otherwise. |
| Explorer.IdShownIff | backend/app/routers/explorer.py:182-206 | The same for the ids summarised for one mission or for none. |
| Explorer.KeptIff | backend/app/routers/explorer.py:132-180 | In the tree for a search text a mission's kluster occurs if and only if the mission, the kluster or one of its tasks matches, and never among the unassigned. |
| Explorer.KlustersCountedOnce | backend/app/routers/explorer.py:121-222 | The klusters of the tree are exactly the rows without a mission, or of a listed one, for which the mission, the kluster or a task matches. |
| Explorer.TasksCountedOnce | backend/app/routers/explorer.py:209-222 | The task total is the number of task rows under such a kluster for which the mission, the kluster or the task itself matches. |
| Explorer.TasksInOrder | backend/app/routers/explorer.py:121-123 | A kluster's tasks are the rows that name it, in the order of the query and each once. |
| Explorer.KlustersInOrder | backend/app/routers/explorer.py:125-127 | So are the klusters of one mission, or of none. |
| Explorer.ShownInOrder | backend/app/routers/explorer.py:151-160 | A shown kluster has its tasks in order and each once: all when its mission or itself matches, else the matching ones. |
| Explorer.SummariesInOrder | backend/app/routers/explorer.py:141-172 | The klusters shown of a mission stand in the order of their rows, each once. |
| Explorer.MissionsInOrder | backend/app/routers/explorer.py:132-196 | The missions shown, those that match or show a kluster, stand in the order of their rows, each once. |
| Explorer.MissionExact | backend/app/routers/explorer.py:174-190 | A mission's totals are the number of klusters listed under it and of task rows shown there. |
| Explorer.SummaryExact | backend/app/routers/explorer.py:39-71 | A summary has the number of tasks, for each status that occurs the number of tasks in it, and the first tasks up to the limit. |
| Explorer.ColumnsSearched | backend/app/routers/explorer.py:133-158 | A mission or kluster matches by name, description, tags or owners, a task by title, description, owner or status, and by nothing else. |
| Explorer.SubTree | backend/app/routers/explorer.py:79-180 | Every mission of a searched tree is in the unsearched one with every kluster under it, and no kluster has more tasks, in all or of any status. |
| Explorer.UnassignedWithin | backend/app/routers/explorer.py:182-206 | The unassigned klusters of a searched tree are in the unsearched one in the same way. |

## Left out

- HTTP, authentication, pydantic, ORM sessions, the JSON text of `depends_on`, websockets, MQTT and event publishing, except that publishing may raise under a trigger.
- Fields that nothing in the protocol reads back: titles, priorities, required capabilities, inputs, error texts and the like.
- Rows are values in table maps that the handlers replace; two session objects for one row, and what an ORM keeps in its identity map beyond the version an open claim has read, are not captured.
- Each request other than an exclusive claim is one atomic step; isolation anomalies between transactions are not modelled.
- The status filter of a task listing, which can still tell pending from blocked; only the lease sweep of a listing is modelled.
- The status shown when a task is read and the status named in the texts of refusals (409), which also tell pending from blocked; answers here are codes and effects.
- The message lists of missions and klusters, ordered by creation time.
- Replay takes rows to appear in id order; ids of concurrent transactions that commit out of order are not modelled.
- The explorer's access selection, its row limits and its mission and status filters, which decide the rows the tree is built from; lower-casing is a parameter.
- How the limiter trims and lower-cases texts (parameters here) and where the principal and the list of trusted proxies come from; that an HTTP method contains no colon is taken as given; floating-point rounding of the limiter's clock.
- A trigger spec whose row the database refuses at the commit, with the rollback that follows for the triggers after it; here every readable spec of fields commits.
- Where a reader starts, which is 0 for the relay and never below 0 for the stream, and the stream's end after 30 seconds; the start is an input and a reader may stop after any row.
- JSON values in trigger conditions other than null, texts and whole numbers; the cron side of scheduled jobs; AI session triggers.
- Runtime leases, approvals, remote launches, profiles, sign-in and the remaining CRUD routers: few guards, or single-use flags that one branch settles.
- Embedding vectors, which are floating-point normalisation.
