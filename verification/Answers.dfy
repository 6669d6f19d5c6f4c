/** What every request answers and what it leaves behind, in any state of any run,
    said on the columns of the rows: when it is accepted, with which code it is
    refused, which columns move, and that nothing else does. */
module Answers {
  import opened Model
  import opened Protocol
  import opened Rows
  import opened Graph
  import opened Invariants
  import opened Fencing
  import opened Ordering
  import opened Review
  import opened ProgressLog

  ghost function Before(r: Run, n: nat): Store
    requires n < |r.states|
  {
    r.states[n].store
  }

  /** The answer to step `n` and the store after it. */
  ghost function Result(r: Run, n: nat): (Store, Outcome)
    requires IsRun(r) && n < |r.events|
  {
    (r.states[n + 1].store, AnswerAt(r, n))
  }

  /** The store with one row rewritten. */
  ghost function With(s: Store, id: TaskId, row: Task): Store {
    s.(tasks := s.tasks[id := row])
  }

  ghost predicate OneLease(t: Task, presented: Option<LeaseId>) {
    t.leaseId == None || presented == None || t.leaseId == presented
  }

  // ---------------------------------------------------------------- creation

  /** A path of dependency edges that starts at the proposed task and comes back
      to a task it has visited. */
  ghost predicate ClosesCycle(s: Store, kluster: KlusterId, deps: seq<TaskId>, p: seq<TaskId>) {
    && |p| > 1 && p[0] == s.nextId
    && (forall i {:trigger p[i]} | 0 <= i < |p| - 1 :: DependsOn(s, kluster, deps, p[i], p[i + 1]))
    && exists i :: 0 <= i < |p| - 1 && p[i] == p[|p| - 1]
  }

  /** An edge of the kluster's tasks or a proposed one. */
  ghost predicate DependsOn(s: Store, kluster: KlusterId, deps: seq<TaskId>, a: TaskId, b: TaskId) {
    if a == s.nextId then b in deps
    else a in s.tasks && s.tasks[a].kluster == kluster && b in s.tasks[a].dependsOn
  }

  /** The cycle check, on any store, sound or not: a creation is refused for a cycle
      exactly when the kluster's rows and the proposed edges hold one the new task
      can reach. */
  lemma CycleIff(s: Store, kluster: KlusterId, deps: seq<TaskId>)
    ensures WouldCycle(s, kluster, deps) <==> exists p :: ClosesCycle(s, kluster, deps, p)
  {
    var adj := Adjacency(s, kluster, s.nextId, deps);
    forall p ensures Lasso(adj, s.nextId, p) <==> ClosesCycle(s, kluster, deps, p) {
      forall i | 0 <= i < |p| - 1
        ensures p[i + 1] in Succ(adj, p[i]) <==> DependsOn(s, kluster, deps, p[i], p[i + 1])
      {
      }
    }
  }

  ghost function StartStatus(e: Event, deps: seq<TaskId>): Status {
    if deps == [] then Ready else if e.CreateTaskE? then Blocked else Pending
  }

  /** A creation through REST or MCP succeeds exactly in a known kluster, under a
      listed policy and on dependencies that are rows of that kluster; it adds one
      row and nothing else. */
  lemma CreationExact(r: Run, n: nat)
    requires IsRun(r) && n < |r.events| && (r.events[n].CreateTaskE? || r.events[n].SubmitTaskE?)
    ensures var s, e, (s', o) := Before(r, n), r.events[n], Result(r, n);
      if !e.klusterExists then o == Denied(404) && s' == s
      else if e.policy in {Assigned, FirstClaim, Broadcast}
           && forall d | d in e.deps :: d in s.tasks && s.tasks[d].kluster == e.kluster
      then o == Created(s.nextId) && s.nextId !in s.tasks
           && s' == s.(nextId := s.nextId + 1, tasks := s.tasks[s.nextId :=
                Task(e.kluster, e.deps, e.policy, StartStatus(e, e.deps), None, None, None, 0, None, e.subject, e.now)])
      else o == Denied(400) && s' == s
  {
    var y, e := r.states[n], r.events[n];
    RunSound(r, n);
    CreationNeverCycles(r, n, e.subject, e.kluster, e.deps, e.policy, e.now);
    assert r.states[n + 1] == Step(y, e);
  }

  lemma SpawnExact(r: Run, n: nat)
    requires IsRun(r) && n < |r.events| && r.events[n].SpawnTaskE?
    ensures var s, e, (s', o) := Before(r, n), r.events[n], Result(r, n);
      && o == Created(s.nextId) && s.nextId !in s.tasks
      && s' == s.(nextId := s.nextId + 1, tasks := s.tasks[s.nextId :=
           Task(e.kluster, [], e.policy, Ready, None, None, None, 0, None, e.subject, e.now)])
  {
    RunSound(r, n);
    assert r.states[n + 1] == Step(r.states[n], r.events[n]);
  }

  // ------------------------------------------------------------------ claims

  /** The first half of a claim. On a broadcast task it is accepted exactly while
      the task is ready or running, whoever asks and however often, and renews the
      expiry. On any other task it only takes note of the version. */
  lemma BeginExact(r: Run, n: nat)
    requires IsRun(r) && n < |r.events| && r.events[n].BeginClaimE?
    ensures var s, e, (s', o) := Before(r, n), r.events[n], Result(r, n);
      var noted, noted' := r.states[n].inFlight, r.states[n + 1].inFlight;
      if e.id !in s.tasks then o == Denied(404) && s' == s && noted' == noted - {e.req}
      else
        var t := s.tasks[e.id];
        if t.policy != Broadcast then
          o == Accepted && s' == s && noted' == noted[e.req := Snapshot(e.id, t.version, e.subject)]
        else if t.status in {Ready, Running} then
          && o == Accepted && noted' == noted - {e.req}
          && s' == With(s, e.id, t.(status := Running, leaseExpiresAt := Some(e.now + 120), updatedAt := e.now))
        else o == Denied(409) && s' == s && noted' == noted - {e.req}
  {
    assert r.states[n + 1] == Step(r.states[n], r.events[n]);
  }

  /** The event ends a broadcast task's run if it is accepted. */
  predicate Stops(e: Event, id: TaskId) {
    (e.CompleteE? || e.FailE? || e.CancelE? || e.BlockE? || e.UnblockE?) && e.id == id
  }

  lemma RunsOn(y: System, e: Event, id: TaskId)
    requires IdsDrawn(y.store) && id in y.store.tasks && (Stops(e, id) ==> Answer(y, e).Denied?)
    requires y.store.tasks[id].policy == Broadcast && y.store.tasks[id].status == Running
    requires Snapshots(y)
    ensures id in Step(y, e).store.tasks
    ensures Step(y, e).store.tasks[id].policy == Broadcast && Step(y, e).store.tasks[id].status == Running
  {
    hide Handle, Step;
    StepRow(y, e, id);
    if Answer(y, e).Denied? {
      DeniedChangesNothing(y, e);
    }
    GrantIsClaim(y.store, e, Committing(y, e), id);
  }

  /** A broadcast task once claimed stays open to everybody: until a call that ends its
      run is accepted, every further claim is, and no sweep takes it back. */
  lemma {:induction false} BroadcastStaysOpen(r: Run, g: nat, n: nat, id: TaskId)
    requires IsRun(r) && g <= n < |r.states|
    requires Exists(r, g, id) && RowAt(r, g, id).policy == Broadcast && RowAt(r, g, id).status == Running
    requires forall k | g <= k < n && Stops(r.events[k], id) :: AnswerAt(r, k).Denied?
    ensures Exists(r, n, id) && RowAt(r, n, id).policy == Broadcast && RowAt(r, n, id).status == Running
    ensures n < |r.events| && r.events[n].BeginClaimE? && r.events[n].id == id ==>
      AnswerAt(r, n) == Accepted && RowAt(r, n + 1, id).leaseExpiresAt == Some(r.events[n].now + 120)
    decreases n
  {
    hide Handle, Step;
    if g < n {
      BroadcastStaysOpen(r, g, n - 1, id);
      RunSound(r, n - 1);
      RunsOn(r.states[n - 1], r.events[n - 1], id);
    }
    if n < |r.events| && r.events[n].BeginClaimE? {
      BeginExact(r, n);
    }
  }

  /** The second half of a claim, code by code: 423 for a task that is locked or not
      ready, 409 for one that was claimed since this request's latest read, and
      otherwise the task goes to whoever made that read. */
  lemma CommitExact(r: Run, n: nat) returns (b: nat)
    requires IsRun(r) && n < |r.events| && r.events[n].CommitClaimE? && r.events[n].req in r.states[n].inFlight
    ensures LatestRead(r, b, n, r.events[n].req) && r.events[b].id in Before(r, n).tasks
    ensures var s, e, (s', o) := Before(r, n), r.events[n], Result(r, n);
      var id := r.events[b].id;
      var t := s.tasks[id];
      if e.rowLocked || t.status != Ready then o == Denied(423) && s' == s
      else if exists k :: b <= k < n && GrantAt(r, k, id) then o == Denied(409) && s' == s
      else
        && o == Granted(id, s.nextId, t.version + 1)
        && s' == With(s, id, t.(status := Claimed, claimedBy := Some(r.events[b].subject), leaseId := Some(s.nextId),
                                version := t.version + 1, leaseExpiresAt := Some(e.now + 120), updatedAt := e.now))
                 .(nextId := s.nextId + 1)
    ensures r.states[n + 1].inFlight == r.states[n].inFlight - {r.events[n].req}
  {
    hide Handle, ChangeOf;
    var y, e := r.states[n], r.events[n];
    var snap := y.inFlight[e.req];
    RunSound(r, n);
    b := SnapshotWasRead(r, n, e.req);
    VersionCountsGrants(r, snap.task, b);
    VersionCountsGrants(r, snap.task, n);
    NoGrantsBetween(r, snap.task, b, n);
    CommitAnswers(y, e, snap);
  }

  lemma CommitAnswers(y: System, e: Event, snap: Snapshot)
    requires e.CommitClaimE? && e.req in y.inFlight && y.inFlight[e.req] == snap && snap.task in y.store.tasks
    ensures Step(y, e).inFlight == y.inFlight - {e.req}
    ensures var s, t, s', o := y.store, y.store.tasks[snap.task], Step(y, e).store, Answer(y, e);
      if e.rowLocked || t.status != Ready then o == Denied(423) && s' == s
      else if t.version != snap.version then o == Denied(409) && s' == s
      else
        && o == Granted(snap.task, s.nextId, t.version + 1)
        && s' == With(s, snap.task,
                   t.(status := Claimed, claimedBy := Some(snap.subject), leaseId := Some(s.nextId),
                      version := t.version + 1, leaseExpiresAt := Some(e.now + 120), updatedAt := e.now))
                 .(nextId := s.nextId + 1)
  {
  }

  // ------------------------------------------------------- the holder's calls

  /** The statuses in which a holder's call is admitted. */
  function Admits(e: Event): set<Status> {
    if e.HeartbeatE? then {Claimed, Running} else {Claimed, Running, WaitingReview}
  }

  /** 404 for an unknown task, 409 for a status that does not admit the call or a
      lease other than the row's, and accepted otherwise. */
  lemma HolderRefusals(r: Run, n: nat)
    requires IsRun(r) && n < |r.events| && (r.events[n].HeartbeatE? || r.events[n].CompleteE? || r.events[n].FailE?)
    ensures var s, e, (s', o) := Before(r, n), r.events[n], Result(r, n);
      if e.id !in s.tasks then o == Denied(404) && s' == s
      else if s.tasks[e.id].status in Admits(e) && OneLease(s.tasks[e.id], e.lease) then !o.Denied?
      else o == Denied(409) && s' == s
  {
    assert r.states[n + 1] == Step(r.states[n], r.events[n]);
  }

  lemma HeartbeatExact(r: Run, n: nat)
    requires IsRun(r) && n < |r.events| && r.events[n].HeartbeatE? && !AnswerAt(r, n).Denied?
    ensures var s, e, (s', o) := Before(r, n), r.events[n], Result(r, n);
      && o == Accepted && e.id in s.tasks
      && s' == With(s, e.id, s.tasks[e.id].(leaseExpiresAt := Some(e.now + 120), updatedAt := e.now))
  {
    assert r.states[n + 1] == Step(r.states[n], r.events[n]);
  }

  /** An event is appended under the next number of its task, starts a claimed task and
      moves nothing else. */
  lemma ProgressExact(r: Run, n: nat)
    requires IsRun(r) && n < |r.events| && r.events[n].ProgressE?
    ensures var s, e, (s', o) := Before(r, n), r.events[n], Result(r, n);
      if e.id !in s.tasks then o == Denied(404) && s' == s
      else
        var t, k := s.tasks[e.id], |OfTask(s.progress, e.id)|;
        && o == Recorded(k)
        && s' == With(s, e.id, if t.status == Claimed then t.(status := Running, updatedAt := e.now) else t)
                 .(progress := s.progress
                     + [Progress(e.id, if t.claimedBy.Some? then t.claimedBy.value else e.subject, k)])
  {
    assert r.states[n + 1] == Step(r.states[n], r.events[n]);
    RunNumbered(r, n);
  }

  /** A failure gives the lease's time up and keeps owner, lease and version. */
  lemma FailExact(r: Run, n: nat)
    requires IsRun(r) && n < |r.events| && r.events[n].FailE? && !AnswerAt(r, n).Denied?
    ensures var s, e, (s', o) := Before(r, n), r.events[n], Result(r, n);
      && o == Accepted && e.id in s.tasks
      && s' == With(s, e.id, s.tasks[e.id].(status := Failed, leaseExpiresAt := None, updatedAt := e.now))
  {
    assert r.states[n + 1] == Step(r.states[n], r.events[n]);
  }

  /** The tasks that finishing `id` frees: blocked or pending ones of its kluster that
      depend on it and on nothing else that is unfinished. */
  ghost function Freed(s: Store, id: TaskId): set<TaskId>
    requires id in s.tasks
  {
    set c | c in s.tasks && Frees(s, id, c)
  }

  ghost predicate Frees(s: Store, id: TaskId, c: TaskId)
    requires id in s.tasks && c in s.tasks
  {
    && c != id && s.tasks[c].kluster == s.tasks[id].kluster && s.tasks[c].status in {Blocked, Pending}
    && id in s.tasks[c].dependsOn
    && forall d | d in s.tasks[c].dependsOn :: d == id || (d in s.tasks && s.tasks[d].status == Finished)
  }

  /** Between the stores task `id` turned into `row`, those in `woken` turned ready,
      and no other task moved. */
  ghost predicate Finishing(s: Store, s': Store, id: TaskId, row: Task, woken: set<TaskId>, now: int) {
    && s'.tasks.Keys == s.tasks.Keys && id in s.tasks && s'.tasks[id] == row
    && forall c | c in s.tasks && c != id ::
         s'.tasks[c] == if c in woken then s.tasks[c].(status := Ready, updatedAt := now) else s.tasks[c]
  }

  lemma FinishingIs(s: Store, id: TaskId, row: Task, now: int)
    requires IdsDrawn(s) && Dag(s) && id in s.tasks && row.status == Finished
    requires row.kluster == s.tasks[id].kluster && row.dependsOn == s.tasks[id].dependsOn
    ensures id in s.Put(id, row).tasks
    ensures var (s', woken) := WakeDependents(s.Put(id, row), id, now);
      && woken == Freed(s, id) && Finishing(s, s', id, row, woken, now)
      && s'.gates == s.gates && s'.progress == s.progress && s'.nextId == s.nextId
  {
    var done := s.Put(id, row);
    var woken := WakeDependents(done, id, now).1;
    forall c | c in s.tasks ensures c in woken <==> c in Freed(s, id) {
      assert done.tasks[c] == if c == id then row else s.tasks[c];
      FreesIff(s, id, row, c);
    }
    assert woken == Freed(s, id);
  }

  lemma FreesIff(s: Store, id: TaskId, row: Task, c: TaskId)
    requires Dag(s) && id in s.tasks && c in s.tasks && row.status == Finished
    requires row.kluster == s.tasks[id].kluster
    ensures id in s.Put(id, row).tasks
    ensures Wakes(s.Put(id, row), id, c) <==> Frees(s, id, c)
  {
    var done := s.Put(id, row);
    if c != id {
      forall d | d in s.tasks[c].dependsOn
        ensures d in s.tasks && (done.tasks[d].status == Finished <==> d == id || s.tasks[d].status == Finished)
      {
      }
    }
  }

  /** Every gate of the task that is still undecided, whoever owns it. */
  ghost function OpenGates(s: Store, id: TaskId): set<GateId> {
    set g | g in s.gates && s.gates[g].task == id && s.gates[g].status == Undecided
  }

  /** An accepted completion names exactly the undecided gates and only moves the
      status to review, or, when there are none, finishes the task, stores its
      artifact and frees exactly the tasks that waited for it last. */
  lemma CompleteExact(r: Run, n: nat)
    requires IsRun(r) && n < |r.events| && r.events[n].CompleteE? && !AnswerAt(r, n).Denied?
    ensures var s, e, (s', o) := Before(r, n), r.events[n], Result(r, n);
      && e.id in s.tasks
      && var t := s.tasks[e.id];
      if OpenGates(s, e.id) != {} then
        && o == InReview(OpenGates(s, e.id))
        && s' == With(s, e.id, t.(status := WaitingReview, updatedAt := e.now))
      else
        && o == Completed(Freed(s, e.id)) && s' == s.(tasks := s'.tasks)
        && Finishing(s, s', e.id,
                     t.(status := Finished, artifact := e.artifact, leaseExpiresAt := None, updatedAt := e.now),
                     Freed(s, e.id), e.now)
  {
    hide Freed, Finishing, WakeDependents;
    var y, e := r.states[n], r.events[n];
    var s := y.store;
    RunSound(r, n);
    CompletesWhen(s, e);
    OwnerFilterHidesNothing(s, e.id);
    assert s.UndecidedGates(e.id) == OpenGates(s, e.id);
    FinishingIs(s, e.id, FinishedRow(s, e), e.now);
  }

  ghost function FinishedRow(s: Store, e: Event): Task
    requires e.CompleteE? && e.id in s.tasks
  {
    s.tasks[e.id].(status := Finished, artifact := e.artifact, leaseExpiresAt := None, updatedAt := e.now)
  }

  lemma CompletesWhen(s: Store, e: Event)
    requires e.CompleteE? && !Handle(s, e, None).1.Denied?
    ensures e.id in s.tasks
    ensures var (s', o) := Handle(s, e, None);
      if s.UndecidedGates(e.id) != {} then
        && o == InReview(s.UndecidedGates(e.id))
        && s' == With(s, e.id, s.tasks[e.id].(status := WaitingReview, updatedAt := e.now))
      else
        var (after, woken) := WakeDependents(s.Put(e.id, FinishedRow(s, e)), e.id, e.now);
        o == Completed(woken) && s' == after
  {
    hide WakeDependents;
  }

  // ------------------------------------------------------ operator overrides

  /** A cancel is refused only for a task that is finished or cancelled already; work
      in progress can be cancelled, and owner, lease, expiry and version stay. */
  lemma CancelExact(r: Run, n: nat)
    requires IsRun(r) && n < |r.events| && r.events[n].CancelE?
    ensures var s, e, (s', o) := Before(r, n), r.events[n], Result(r, n);
      if e.id !in s.tasks then o == Denied(404) && s' == s
      else if s.tasks[e.id].status in {Finished, Cancelled} then o == Denied(409) && s' == s
      else o == Accepted && s' == With(s, e.id, s.tasks[e.id].(status := Cancelled, updatedAt := e.now))
  {
    assert r.states[n + 1] == Step(r.states[n], r.events[n]);
  }

  /** Only a failed or cancelled task is retried: it is offered at once without
      dependencies and waits with any, finished or not; its old lease and its
      version stay. */
  lemma RetryExact(r: Run, n: nat)
    requires IsRun(r) && n < |r.events| && r.events[n].RetryE?
    ensures var s, e, (s', o) := Before(r, n), r.events[n], Result(r, n);
      if e.id !in s.tasks then o == Denied(404) && s' == s
      else if s.tasks[e.id].status in {Failed, Cancelled} then
        && o == Accepted
        && s' == With(s, e.id, s.tasks[e.id].(status := if s.tasks[e.id].dependsOn == [] then Ready else Pending,
                                              claimedBy := None, leaseExpiresAt := None, updatedAt := e.now))
      else o == Denied(409) && s' == s
  {
    assert r.states[n + 1] == Step(r.states[n], r.events[n]);
  }

  /** A block or unblock is refused only for an unknown task. */
  lemma OverrideExact(r: Run, n: nat)
    requires IsRun(r) && n < |r.events| && (r.events[n].BlockE? || r.events[n].UnblockE?)
    ensures var s, e, (s', o) := Before(r, n), r.events[n], Result(r, n);
      if e.id !in s.tasks then o == Denied(404) && s' == s
      else
        && o == Accepted
        && s' == With(s, e.id, s.tasks[e.id].(status := if e.BlockE? then Blocked else Ready, updatedAt := e.now))
  {
    assert r.states[n + 1] == Step(r.states[n], r.events[n]);
  }

  // ------------------------------------------------------------ review gates

  /** Anybody but the task's creator is told that there is no such task. */
  lemma CreateGateExact(r: Run, n: nat)
    requires IsRun(r) && n < |r.events| && r.events[n].CreateGateE?
    ensures var s, e, (s', o) := Before(r, n), r.events[n], Result(r, n);
      if e.id in s.tasks && s.tasks[e.id].createdBy == e.subject then
        && o == Created(s.nextId) && s.nextId !in s.gates
        && s' == s.(gates := s.gates[s.nextId := Gate(e.subject, e.id, Undecided)], nextId := s.nextId + 1)
      else o == Denied(404) && s' == s
  {
    RunSound(r, n);
    assert r.states[n + 1] == Step(r.states[n], r.events[n]);
  }

  /** The gate exists, belongs to the caller and is one of the named task. */
  ghost predicate MayResolve(s: Store, e: Event)
    requires e.ResolveGateE?
  {
    e.gate in s.gates && s.gates[e.gate].owner == e.subject && s.gates[e.gate].task == e.id
  }

  ghost predicate SomeRejected(s: Store, id: TaskId) {
    exists g :: g in s.gates && s.gates[g].task == id && s.gates[g].status == Rejected
  }

  ghost predicate AllApproved(s: Store, id: TaskId) {
    forall g | g in s.gates && s.gates[g].task == id :: s.gates[g].status == Approved
  }

  /** A resolution is accepted exactly when it is well formed and the gate is one of
      the named task and the caller's own. It then records the decision on that gate
      alone, as often as it is made, on a task in any status. */
  lemma ResolveRecords(r: Run, n: nat)
    requires IsRun(r) && n < |r.events| && r.events[n].ResolveGateE?
    ensures var s, e, (s', o) := Before(r, n), r.events[n], Result(r, n);
      if e.decision == Malformed then o == Denied(422) && s' == s
      else if !MayResolve(s, e) then o == Denied(404) && s' == s
      else
        && !o.Denied? && e.id in s.tasks
        && s' == s.(tasks := s'.tasks, gates := s.gates[e.gate :=
             Gate(e.subject, e.id, if e.decision == Approve then Approved else Rejected)])
  {
    var y, e := r.states[n], r.events[n];
    RunSound(r, n);
    HandleRest(y.store, e, None);
    ResolvesWhen(y.store, e);
  }

  lemma ResolvesWhen(s: Store, e: Event)
    requires e.ResolveGateE?
    ensures var (s', o) := Handle(s, e, None);
      if e.decision == Malformed then o == Denied(422) && s' == s
      else if !MayResolve(s, e) then o == Denied(404) && s' == s
      else !o.Denied?
  {
  }

  /** How an accepted resolution settles a task in review, on the gates as they stand
      after it: one rejected gate fails the task; all approved finish it and free
      exactly the tasks that waited for it last; anything else leaves every task as it
      was. A task that is not in review is never touched. */
  lemma ResolveSettles(r: Run, n: nat)
    requires IsRun(r) && n < |r.events| && r.events[n].ResolveGateE? && !AnswerAt(r, n).Denied?
    ensures var s, e, (s', o) := Before(r, n), r.events[n], Result(r, n);
      && e.id in s.tasks
      && var t := s.tasks[e.id];
      if t.status != WaitingReview then o == Accepted && s'.tasks == s.tasks
      else if SomeRejected(s', e.id) then
        o == ReviewFailed && s'.tasks == s.tasks[e.id := t.(status := Failed, updatedAt := e.now)]
      else if AllApproved(s', e.id) then
        && o == Completed(Freed(s, e.id))
        && Finishing(s, s', e.id, t.(status := Finished, updatedAt := e.now), Freed(s, e.id), e.now)
      else o == Accepted && s'.tasks == s.tasks
  {
    hide Freed, Finishing, SomeRejected, AllApproved, Handle, Step;
    var y, e := r.states[n], r.events[n];
    RunSound(r, n);
    RunSound(r, n + 1);
    SettledStore(r, n);
    var s1 := Decided(y.store, e);
    var t := s1.tasks[e.id];
    GatesRead(s1, e.id);
    SameGates(s1, r.states[n + 1].store, e.id);
    if t.status == WaitingReview {
      FinishingIs(s1, e.id, t.(status := Finished, updatedAt := e.now), e.now);
      SameTasks(y.store, s1, r.states[n + 1].store, e.id, t.(status := Finished, updatedAt := e.now), e.now);
    }
  }

  /** The store with the decision on its gate. */
  ghost function Decided(s: Store, e: Event): Store
    requires e.ResolveGateE? && e.gate in s.gates
  {
    s.(gates := s.gates[e.gate := s.gates[e.gate].(status := if e.decision == Approve then Approved else Rejected)])
  }

  lemma SettledStore(r: Run, n: nat)
    requires IsRun(r) && n < |r.events| && r.events[n].ResolveGateE? && !AnswerAt(r, n).Denied?
    requires Sound(r.states[n])
    ensures var s, e, (s', o) := Before(r, n), r.events[n], Result(r, n);
      && e.gate in s.gates && e.id in s.tasks && MayResolve(s, e)
      && var s1 := Decided(s, e);
      var t := s1.tasks[e.id];
      && s'.gates == s1.gates
      && if t.status != WaitingReview then o == Accepted && s' == s1
         else if SomeGate(s1, e.id, Rejected) then
           o == ReviewFailed && s' == With(s1, e.id, t.(status := Failed, updatedAt := e.now))
         else if AllGatesPassed(s1, e.id) then
           var (after, woken) := WakeDependents(s1.Put(e.id, t.(status := Finished, updatedAt := e.now)), e.id, e.now);
           o == Completed(woken) && s' == after
         else o == Accepted && s' == s1
  {
    hide SomeGate, AllGatesPassed;
    assert r.states[n + 1] == Step(r.states[n], r.events[n]);
  }

  lemma GatesRead(s: Store, id: TaskId)
    requires forall g | g in s.gates :: s.gates[g].status != Expired
    ensures SomeGate(s, id, Rejected) <==> SomeRejected(s, id)
    ensures AllGatesPassed(s, id) <==> AllApproved(s, id)
  {
    if SomeRejected(s, id) {
      var g :| g in s.gates && s.gates[g].task == id && s.gates[g].status == Rejected;
      assert s.GateOf(g, id, Rejected);
    }
  }

  lemma SameGates(a: Store, b: Store, id: TaskId)
    requires a.gates == b.gates
    ensures SomeRejected(a, id) <==> SomeRejected(b, id)
    ensures AllApproved(a, id) <==> AllApproved(b, id)
  {
  }

  lemma SameTasks(a: Store, b: Store, c: Store, id: TaskId, row: Task, now: int)
    requires a.tasks == b.tasks && id in a.tasks
    ensures Freed(a, id) == Freed(b, id)
    ensures Finishing(a, c, id, row, Freed(a, id), now) <==> Finishing(b, c, id, row, Freed(b, id), now)
  {
  }

  // -------------------------------------------------------------- the sweeps

  /** What a sweep at `now` takes: an exclusive task held past its expiry. */
  ghost predicate Overdue(t: Task, now: int) {
    && t.policy != Broadcast && t.status in {Claimed, Running}
    && t.leaseExpiresAt.Some? && t.leaseExpiresAt.value < now
  }

  /** A listing takes back what is overdue in its kluster and leaves the old leases; a
      watchdog tick takes back everything overdue and clears them. */
  lemma SweepTakes(r: Run, n: nat)
    requires IsRun(r) && n < |r.events| && (r.events[n].ListTasksE? || r.events[n].WatchdogE?)
    ensures var s, e, (s', o) := Before(r, n), r.events[n], Result(r, n);
      && o == Accepted && s' == s.(tasks := s'.tasks) && s'.tasks.Keys == s.tasks.Keys
      && forall c | c in s.tasks ::
           var t := s.tasks[c];
           s'.tasks[c] ==
             if Overdue(t, e.now) && (e.ListTasksE? ==> t.kluster == e.kluster) then
               t.(status := Ready, claimedBy := None, leaseId := if e.ListTasksE? then t.leaseId else None,
                  leaseExpiresAt := None, updatedAt := e.now)
             else t
  {
    assert r.states[n + 1] == Step(r.states[n], r.events[n]);
  }

  /** A dispatcher tick readies exactly the blocked and pending tasks that depend on
      nothing unfinished, answers with them, and moves nothing else. */
  lemma DispatchTakes(r: Run, n: nat)
    requires IsRun(r) && n < |r.events| && r.events[n].DispatchE?
    ensures var s, e, (s', o) := Before(r, n), r.events[n], Result(r, n);
      && o.Completed? && s' == s.(tasks := s'.tasks) && s'.tasks.Keys == s.tasks.Keys
      && (forall c :: c in o.woken <==> c in s.tasks && s.tasks[c].status in {Blocked, Pending} && s.DepsFinished(c))
      && forall c | c in s.tasks ::
           s'.tasks[c] == if c in o.woken then s.tasks[c].(status := Ready, updatedAt := e.now) else s.tasks[c]
  {
    RunSound(r, n);
    assert r.states[n + 1] == Step(r.states[n], r.events[n]);
  }
}
