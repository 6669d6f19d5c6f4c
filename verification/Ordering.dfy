/** Dependencies over runs without the manual overrides: nothing is offered,
    claimed or finished before everything it depends on is finished, and no
    creation is ever refused as a cycle. */
module Ordering {
  import opened Model
  import opened Protocol
  import opened Rows
  import opened Invariants
  import opened Fencing
  import opened Graph

  /** Past waiting and not cancelled means every dependency is finished. */
  ghost predicate Readied(s: Store, id: TaskId)
    requires id in s.tasks
  {
    s.tasks[id].Waiting() || s.tasks[id].status == Cancelled || s.DepsFinished(id)
  }

  ghost predicate AllReadied(s: Store) {
    forall t | t in s.tasks :: Readied(s, t)
  }

  /** A row is woken only when the rows of all its dependencies are finished. */
  lemma WakeSeesFinished(s: Store, e: Event, snap: Option<Snapshot>, id: TaskId)
    requires id in s.tasks && IdsDrawn(s) && Dag(s)
    requires ChangeOf(s, e, Handle(s, e, snap).1, snap, id).Wake?
    ensures id in Handle(s, e, snap).0.tasks && Handle(s, e, snap).0.DepsFinished(id)
  {
    var (s', o) := Handle(s, e, snap);
    match e
    case CompleteE(x, lease, artifact, now) =>
      var row := s.tasks[x].(status := Finished, artifact := artifact, leaseExpiresAt := None, updatedAt := now);
      var done := s.Put(x, row);
      WakeKeepsFinished(done, x, now, id);
    case ResolveGateE(x, g, subject, decision, now) =>
      var s1 := s.(gates := s.gates[g := s.gates[g].(status := if decision == Approve then Approved else Rejected)]);
      WakeKeepsFinished(s1.Put(x, s.tasks[x].(status := Finished, updatedAt := now)), x, now, id);
    case DispatchE(now) =>
    case _ =>
  }

  lemma WakeKeepsFinished(s: Store, fin: TaskId, now: int, c: TaskId)
    requires fin in s.tasks && Wakes(s, fin, c)
    requires forall d | d in s.tasks[c].dependsOn :: d in s.tasks
    ensures c in WakeDependents(s, fin, now).0.tasks && WakeDependents(s, fin, now).0.DepsFinished(c)
  {
  }

  lemma StepFinishedStays(y: System, e: Event, id: TaskId)
    requires IdsDrawn(y.store) && id in y.store.tasks && y.store.tasks[id].status == Finished && !Override(e)
    ensures id in Step(y, e).store.tasks && Step(y, e).store.tasks[id].status == Finished
  {
    StepRow(y, e, id);
  }

  /** Only a wake-up, an override or a dependency-free retry moves a waiting or
      cancelled row anywhere else. */
  lemma LeavesWaiting(t: Task, c: Change)
    requires c.From(t) && (t.Waiting() || t.status == Cancelled)
    ensures c.To(t).Waiting() || c.To(t).status == Cancelled || c.Wake? || c.Park? || c.Release?
         || (c.Joined? && t.status == Ready) || (c.Again? && t.dependsOn == [])
  {
  }

  lemma OverridesOnly(y: System, e: Event, id: TaskId)
    requires id in y.store.tasks && !Override(e)
    ensures !ChangeAt(y, e, id).Park? && !ChangeAt(y, e, id).Release?
  {
  }

  lemma DepsStayFinished(y: System, e: Event, id: TaskId)
    requires IdsDrawn(y.store) && id in y.store.tasks && y.store.DepsFinished(id) && !Override(e)
    ensures id in Step(y, e).store.tasks && Step(y, e).store.DepsFinished(id)
  {
    StepRow(y, e, id);
    forall d | d in y.store.tasks[id].dependsOn
      ensures d in Step(y, e).store.tasks && Step(y, e).store.tasks[d].status == Finished
    {
      StepFinishedStays(y, e, d);
    }
  }

  lemma StepReadied(y: System, e: Event, id: TaskId)
    requires Sound(y) && id in y.store.tasks && Readied(y.store, id) && !Override(e)
    ensures id in Step(y, e).store.tasks && Readied(Step(y, e).store, id)
  {
    StepRow(y, e, id);
    OverridesOnly(y, e, id);
    if y.store.DepsFinished(id) {
      DepsStayFinished(y, e, id);
    } else {
      LeavesWaiting(y.store.tasks[id], ChangeAt(y, e, id));
      if ChangeAt(y, e, id).Wake? {
        WakeSeesFinished(y.store, e, Committing(y, e), id);
      }
    }
  }

  /** The override pulls a finished task from under one that counts on it, or
      offers a task before its dependencies are finished. */
  ghost predicate Harmful(y: System, e: Event) {
    && Override(e) && e.id in y.store.tasks
    && (|| (e.UnblockE? && !y.store.DepsFinished(e.id))
        || (y.store.tasks[e.id].status == Finished && CountedOn(y.store, e.id)))
  }

  ghost predicate CountedOn(s: Store, d: TaskId) {
    exists t :: t in s.tasks && d in s.tasks[t].dependsOn && !s.tasks[t].Waiting() && s.tasks[t].status != Cancelled
  }

  /** What an override does to the rows. */
  lemma OverrideRows(y: System, e: Event, t: TaskId)
    requires Override(e) && t in y.store.tasks
    ensures t in Step(y, e).store.tasks
    ensures Step(y, e).store.tasks[t] == if t == e.id
      then y.store.tasks[t].(status := if e.BlockE? then Blocked else Ready, updatedAt := e.now) else y.store.tasks[t]
    ensures Step(y, e).store.tasks.Keys == y.store.tasks.Keys
  {
  }

  lemma HarmBreaks(y: System, e: Event)
    requires Sound(y) && Harmful(y, e)
    ensures !AllReadied(Step(y, e).store)
  {
    hide Handle, Step;
    var s, s' := y.store, Step(y, e).store;
    OverrideRows(y, e, e.id);
    if e.UnblockE? && !s.DepsFinished(e.id) {
      var d :| d in s.tasks[e.id].dependsOn && !(d in s.tasks && s.tasks[d].status == Finished);
      assert d in s.tasks && d != e.id;
      OverrideRows(y, e, d);
      assert !Readied(s', e.id);
    } else {
      var t :| t in s.tasks && e.id in s.tasks[t].dependsOn && !s.tasks[t].Waiting() && s.tasks[t].status != Cancelled;
      assert e.id < t;
      OverrideRows(y, e, t);
      assert !Readied(s', t);
    }
  }

  lemma HarmlessKeeps(y: System, e: Event, t: TaskId)
    requires Sound(y) && AllReadied(y.store) && Override(e) && !Harmful(y, e) && t in y.store.tasks
    ensures t in Step(y, e).store.tasks && Readied(Step(y, e).store, t)
  {
    hide Handle, Step;
    var s, s' := y.store, Step(y, e).store;
    OverrideRows(y, e, t);
    assert Readied(s, t);
    forall d | d in s.tasks[t].dependsOn && s.tasks[d].status == Finished && d != e.id
      ensures d in s'.tasks && s'.tasks[d].status == Finished
    {
      OverrideRows(y, e, d);
    }
  }

  /** One step keeps the readiness of all tasks if and only if it is not a
      harmful override. */
  lemma StepReadiness(y: System, e: Event)
    requires Sound(y) && AllReadied(y.store)
    ensures AllReadied(Step(y, e).store) <==> !Harmful(y, e)
  {
    hide Handle, Step, Harmful;
    if Harmful(y, e) {
      HarmBreaks(y, e);
    } else {
      forall t | t in Step(y, e).store.tasks ensures Readied(Step(y, e).store, t) {
        if t in y.store.tasks {
          if Override(e) {
            HarmlessKeeps(y, e, t);
          } else {
            assert Readied(y.store, t);
            StepReadied(y, e, t);
          }
        } else {
          NewRowReadied(y, e, t);
        }
      }
    }
  }

  lemma NewRowReadied(y: System, e: Event, t: TaskId)
    requires t !in y.store.tasks && t in Step(y, e).store.tasks
    ensures Readied(Step(y, e).store, t)
  {
    HandleGrows(y.store, e, Committing(y, e));
  }

  /** None of the first `n` events was a harmful override. */
  ghost predicate Harmless(r: Run, n: nat) {
    forall i: nat {:trigger Harmful(r.states[i], r.events[i])} | i < n && i < |r.events| && i < |r.states| ::
      !Harmful(r.states[i], r.events[i])
  }

  /** Readiness, exactly: up to any point of any run, every task that is not
      waiting or cancelled has all its dependencies finished throughout, if and
      only if no override so far was harmful. */
  lemma {:induction false} ReadinessIff(r: Run, n: nat)
    requires IsRun(r) && n < |r.states|
    ensures (forall m: nat | m <= n :: AllReadied(r.states[m].store))
      <==> Harmless(r, n)
  {
    hide Handle, Step, AllReadied, Harmful;
    if n > 0 {
      ReadinessIff(r, n - 1);
      RunSound(r, n - 1);
      if AllReadied(r.states[n - 1].store) {
        StepReadiness(r.states[n - 1], r.events[n - 1]);
      }
    } else {
      NothingReadied();
    }
  }

  lemma NothingReadied()
    ensures AllReadied(INITIAL.store)
  {
  }

  ghost predicate Quiet(r: Run, n: nat) {
    forall i | 0 <= i < n && i < |r.events| :: !Override(r.events[i])
  }

  /** In particular it holds in every state reached without overrides. */
  lemma Readiness(r: Run, n: nat)
    requires IsRun(r) && n < |r.states| && Quiet(r, n)
    ensures AllReadied(r.states[n].store)
  {
    ReadinessIff(r, n);
  }

  ghost predicate FinishedAt(r: Run, n: nat, id: TaskId) {
    Exists(r, n, id) && RowAt(r, n, id).status == Finished
  }

  /** Step `i` finishes the task. */
  ghost predicate Finishes(r: Run, i: nat, id: TaskId) {
    i + 1 < |r.states| && !FinishedAt(r, i, id) && FinishedAt(r, i + 1, id)
  }

  /** The event is a manual override of this task. */
  predicate Overrides(e: Event, id: TaskId) {
    Override(e) && e.id == id
  }

  /** Finished is absorbing as long as the task itself is not overridden. */
  lemma {:induction false} FinishedStays(r: Run, i: nat, j: nat, id: TaskId)
    requires IsRun(r) && i <= j < |r.states| && FinishedAt(r, i, id)
    requires forall k | i <= k < j :: !Overrides(r.events[k], id)
    ensures FinishedAt(r, j, id)
    decreases j
  {
    if i < j {
      FinishedStays(r, i, j - 1, id);
      var c := RowStep(r, j - 1, id);
    }
  }

  lemma {:induction false} FinishedWasFinished(r: Run, n: nat, id: TaskId) returns (i: nat)
    requires IsRun(r) && FinishedAt(r, n, id)
    ensures i < n && Finishes(r, i, id)
  {
    if n == 0 {
      assert false;
    } else if FinishedAt(r, n - 1, id) {
      i := FinishedWasFinished(r, n - 1, id);
    } else {
      i := n - 1;
    }
  }

  /** The dependency graph of a state. */
  ghost function Deps(s: Store): Adj {
    map t | t in s.tasks :: s.tasks[t].dependsOn
  }

  /** Along a dependency path everything after a readied start is finished. */
  lemma {:induction false} PathFinished(s: Store, p: seq<TaskId>, i: nat)
    requires Dag(s) && AllReadied(s) && IsPath(Deps(s), p)
    requires 0 < i < |p| && p[0] in s.tasks && s.DepsFinished(p[0])
    ensures p[i] in s.tasks && s.tasks[p[i]].status == Finished
  {
    assert p[i] in Succ(Deps(s), p[i - 1]);
    if i > 1 {
      PathFinished(s, p, i - 1);
    }
  }

  /** Step `i` hands the task out: it grants an exclusive claim, joins a
      broadcast one, or finishes the task. */
  ghost predicate Advances(r: Run, i: nat, id: TaskId)
    requires IsRun(r)
  {
    && i < |r.events| && Exists(r, i, id)
    && (GrantAt(r, i, id) || ChangeAt(r.states[i], r.events[i], id).Joined? || Finishes(r, i, id))
  }

  lemma AdvanceNeedsDeps(r: Run, n: nat, id: TaskId)
    requires IsRun(r) && n < |r.events| && AllReadied(r.states[n].store) && Advances(r, n, id)
    ensures r.states[n].store.DepsFinished(id)
  {
    var c := RowStep(r, n, id);
    assert Readied(r.states[n].store, id);
  }

  /** Work follows the graph: as long as no override was harmful, a task is claimed
      or finished only after the finish of every task a dependency path leads to. */
  lemma TopologicalOrder(r: Run, n: nat, p: seq<TaskId>, k: nat) returns (i: nat)
    requires IsRun(r) && n < |r.events| && 0 < k < |p|
    requires Harmless(r, n) && Advances(r, n, p[0]) && IsPath(Deps(r.states[n].store), p)
    ensures i < n && Finishes(r, i, p[k])
    ensures FinishedAt(r, n, p[k])
  {
    ReadinessIff(r, n);
    assert AllReadied(r.states[n].store);
    RunSound(r, n);
    AdvanceNeedsDeps(r, n, p[0]);
    PathFinished(r.states[n].store, p, k);
    i := FinishedWasFinished(r, n, p[k]);
  }

  /** Finishes happen in dependency order: as long as no override was harmful, a
      task that finished and is not overridden sees no dependency finish again. */
  lemma FinishesInOrder(r: Run, i: nat, j: nat, id: TaskId, d: TaskId)
    requires IsRun(r) && i < |r.events| && j < |r.events|
    requires Harmless(r, i) && Harmless(r, j)
    requires forall k | j < k < i :: !Overrides(r.events[k], id)
    requires Finishes(r, j, id) && Exists(r, j, id) && d in RowAt(r, j, id).dependsOn && Finishes(r, i, d)
    ensures i < j
  {
    hide Handle, Step, ChangeOf, Harmful, Harmless;
    var p := [id, d];
    assert IsPath(Deps(r.states[j].store), p);
    var k := TopologicalOrder(r, j, p, 1);
    if j < i {
      var c := RowStep(r, j, id);
      FinishedStays(r, j + 1, i, id);
      DepsOfFinished(r, j, i, id, d);
    }
  }

  lemma DepsOfFinished(r: Run, j: nat, i: nat, id: TaskId, d: TaskId)
    requires IsRun(r) && j < i < |r.events| && Exists(r, j, id) && d in RowAt(r, j, id).dependsOn
    requires Harmless(r, i) && FinishedAt(r, i, id)
    ensures FinishedAt(r, i, d)
  {
    hide Harmful;
    ReadinessIff(r, i);
    assert AllReadied(r.states[i].store);
    assert Readied(r.states[i].store, id);
    DepsFixed(r, j, i, id);
  }

  lemma {:induction false} DepsFixed(r: Run, i: nat, j: nat, id: TaskId)
    requires IsRun(r) && i <= j < |r.states| && Exists(r, i, id)
    ensures Exists(r, j, id) && RowAt(r, j, id).dependsOn == RowAt(r, i, id).dependsOn
    decreases j
  {
    if i < j {
      DepsFixed(r, i, j - 1, id);
      var c := RowStep(r, j - 1, id);
    }
  }

  /** Dependencies of a reachable state run strictly down the ids, so the
      proposed edges of a fresh task close no cycle. */
  lemma {:induction false} DepsDescend(adj: Adj, p: seq<Node>, i: nat)
    requires IsPath(adj, p) && i < |p|
    requires forall t, d | t in adj && d in adj[t] :: d < t
    ensures p[i] <= p[0]
    ensures i > 0 ==> p[i] < p[0]
  {
    if i > 0 {
      assert p[i] in Succ(adj, p[i - 1]);
      DepsDescend(adj, p, i - 1);
    }
  }

  lemma DescendingIsAcyclic(adj: Adj, root: Node)
    requires forall t, d | t in adj && d in adj[t] :: d < t
    ensures !CycleFrom(adj, root)
  {
    forall p | Lasso(adj, root, p) ensures false {
      var i: nat :| i < |p| - 1 && p[i] == p[|p| - 1];
      SuffixPath(adj, p, i);
      var q := p[i..];
      DepsDescend(adj, q, |q| - 1);
    }
  }

  lemma AdjacencyDescends(s: Store, kluster: KlusterId, deps: seq<TaskId>)
    requires IdsDrawn(s) && Dag(s) && DepsKnown(s, kluster, deps)
    ensures var adj := Adjacency(s, kluster, s.nextId, deps); forall t, d | t in adj && d in adj[t] :: d < t
  {
    var adj := Adjacency(s, kluster, s.nextId, deps);
    forall t, d | t in adj && d in adj[t] ensures d < t {
      assert d in s.tasks;
    }
  }

  /** The cycle check never refuses a creation whose dependencies passed
      validation: on either path a creation in a known kluster succeeds exactly
      when its dependencies are known and its policy is a listed one. */
  lemma CreationNeverCycles(r: Run, n: nat, subject: Subject, kluster: KlusterId, deps: seq<TaskId>,
                            policy: Policy, now: int)
    requires IsRun(r) && n < |r.states|
    ensures var s := r.states[n].store;
      && (DepsKnown(s, kluster, deps) ==> !WouldCycle(s, kluster, deps))
      && (CreateTask(s, subject, kluster, true, deps, policy, now).1.Created?
          <==> DepsKnown(s, kluster, deps) && !policy.Other?)
      && (SubmitTask(s, subject, kluster, true, deps, policy, now).1.Created?
          <==> DepsKnown(s, kluster, deps) && !policy.Other?)
  {
    var s := r.states[n].store;
    RunSound(r, n);
    if DepsKnown(s, kluster, deps) {
      AdjacencyDescends(s, kluster, deps);
      DescendingIsAcyclic(Adjacency(s, kluster, s.nextId, deps), s.nextId);
    }
  }

  /** A run that creates a task and one that depends on it. */
  lemma TwoTasks() returns (r: Run)
    ensures IsRun(r) && Last(r).store == Store(map[
      0 := NewTask(0, [], FirstClaim, Ready, "ann", 0),
      1 := NewTask(0, [0], FirstClaim, Blocked, "ann", 1)], map[], [], 2)
  {
    r := Run([INITIAL], []);
    r := Then(r, CreateTaskE("ann", 0, true, [], FirstClaim, 0));
    assert Last(r).store == Store(map[0 := NewTask(0, [], FirstClaim, Ready, "ann", 0)], map[], [], 1);
    CreationNeverCycles(r, |r.events|, "ann", 0, [0], FirstClaim, 1);
    r := Then(r, CreateTaskE("ann", 0, true, [0], FirstClaim, 1));
  }

  /** A manual unblock offers a task whose dependency is not finished. */
  lemma EarlyUnblock() returns (r: Run)
    ensures IsRun(r) && Exists(r, |r.events|, 1) && RowAt(r, |r.events|, 1).status == Ready
    ensures !Last(r).store.DepsFinished(1) && !AllReadied(Last(r).store)
  {
    hide IsRun;
    r := TwoTasks();
    r := Then(r, UnblockE(1, 2));
    assert 0 in Last(r).store.tasks[1].dependsOn;
    assert !Readied(Last(r).store, 1);
  }
}
