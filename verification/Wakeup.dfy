/** Waking dependents: the scan wakes exactly the right tasks on both finishing
    paths, and when a task can be left waiting on nothing. */
module Wakeup {
  import opened Model
  import opened Protocol
  import opened Rows
  import opened Invariants
  import opened Fencing
  import opened Ordering
  import opened Review

  /** A step that finishes a task is a completion or a resolution of it, answers
      with the tasks it woke, and finishes no other task. */
  lemma FinishingEvents(y: System, e: Event, x: TaskId)
    requires IdsDrawn(y.store) && x in y.store.tasks && y.store.tasks[x].status != Finished
    requires x in Step(y, e).store.tasks && Step(y, e).store.tasks[x].status == Finished
    ensures (e.CompleteE? || e.ResolveGateE?) && e.id == x && Answer(y, e).Completed?
    ensures forall d | d in y.store.tasks && d != x ::
      d in Step(y, e).store.tasks
      && (Step(y, e).store.tasks[d].status == Finished <==> y.store.tasks[d].status == Finished)
  {
    StepRow(y, e, x);
    forall d | d in y.store.tasks && d != x
      ensures d in Step(y, e).store.tasks
      ensures Step(y, e).store.tasks[d].status == Finished <==> y.store.tasks[d].status == Finished
    {
      StepRow(y, e, d);
    }
  }

  /** The answer's set is exact: waiting tasks of the finished task's kluster
      that name it and whose dependency rows are all finished afterwards. */
  lemma WokenExactly(s: Store, e: Event, snap: Option<Snapshot>, c: TaskId)
    requires (e.CompleteE? || e.ResolveGateE?) && Handle(s, e, snap).1.Completed? && c in s.tasks && c != e.id
    ensures e.id in s.tasks && c in Handle(s, e, snap).0.tasks
    ensures c in Handle(s, e, snap).1.woken <==>
      && s.tasks[c].kluster == s.tasks[e.id].kluster && s.tasks[c].Waiting()
      && e.id in s.tasks[c].dependsOn && Handle(s, e, snap).0.DepRowsFinished(c)
  {
    match e
    case CompleteE(x, lease, artifact, now) =>
      var row := s.tasks[x].(status := Finished, artifact := artifact, leaseExpiresAt := None, updatedAt := now);
      ScanExact(s.Put(x, row), x, now, c);
    case ResolveGateE(x, g, subject, decision, now) =>
      var s1 := s.(gates := s.gates[g := s.gates[g].(status := if decision == Approve then Approved else Rejected)]);
      ScanExact(s1.Put(x, s.tasks[x].(status := Finished, updatedAt := now)), x, now, c);
  }

  lemma ScanExact(s: Store, fin: TaskId, now: int, c: TaskId)
    requires fin in s.tasks && s.tasks[fin].status == Finished && c in s.tasks
    ensures var (s', woken) := WakeDependents(s, fin, now);
      && (c in woken <==> Wakes(s, fin, c))
      && s'.DepRowsFinished(c) == s.DepRowsFinished(c)
      && s'.tasks[c] == if c in woken then s.tasks[c].(status := Ready, updatedAt := now) else s.tasks[c]
  {
    var (s', woken) := WakeDependents(s, fin, now);
    forall d | d in s.tasks ensures s'.tasks[d].status == Finished <==> s.tasks[d].status == Finished {
    }
  }

  ghost predicate WaitingAt(r: Run, n: nat, id: TaskId) {
    Exists(r, n, id) && RowAt(r, n, id).Waiting()
  }

  ghost predicate DepsDoneAt(r: Run, n: nat, id: TaskId) {
    Exists(r, n, id) && r.states[n].store.DepsFinished(id)
  }

  lemma RowsAreDeps(s: Store, id: TaskId)
    requires Dag(s) && id in s.tasks
    ensures s.DepRowsFinished(id) <==> s.DepsFinished(id)
  {
  }

  /** On a finishing step a waiting row is woken or kept, as the answer says. */
  lemma WakesOrKeeps(y: System, e: Event, c: TaskId)
    requires (e.CompleteE? || e.ResolveGateE?) && Answer(y, e).Completed? && c in y.store.tasks && c != e.id
    ensures ChangeAt(y, e, c).Wake? <==> c in Answer(y, e).woken
    ensures ChangeAt(y, e, c).Wake? || ChangeAt(y, e, c).Kept?
  {
  }

  /** Whichever way a task finishes, the waiting tasks that turn ready are
      exactly those that depend on it and now have every dependency finished;
      every other waiting row is left as it was. */
  lemma WakeupExact(r: Run, n: nat, x: TaskId, c: TaskId)
    requires IsRun(r) && n < |r.events| && Finishes(r, n, x) && WaitingAt(r, n, c)
    ensures Exists(r, n + 1, c)
    ensures RowAt(r, n + 1, c).status == Ready <==>
      x in RowAt(r, n, c).dependsOn && DepsDoneAt(r, n + 1, c)
    ensures RowAt(r, n + 1, c).status != Ready ==> RowAt(r, n + 1, c) == RowAt(r, n, c)
  {
    hide Handle, ChangeOf;
    var y, e := r.states[n], r.events[n];
    RunSound(r, n);
    RunSound(r, n + 1);
    if !Exists(r, n, x) {
      RowBorn(r, n, x);
    }
    FinishingEvents(y, e, x);
    var change := RowStep(r, n, c);
    FinishedRowsActive(y, e, x);
    WokenExactly(y.store, e, Committing(y, e), c);
    WakesOrKeeps(y, e, c);
    RowsAreDeps(r.states[n + 1].store, c);
  }

  lemma FinishedRowsActive(y: System, e: Event, x: TaskId)
    requires IdsDrawn(y.store) && x in y.store.tasks && (e.CompleteE? || e.ResolveGateE?) && e.id == x
    requires Answer(y, e).Completed?
    ensures y.store.tasks[x].Active()
  {
  }

  /** A waiting task with nothing left to wait for. */
  ghost predicate Stuck(s: Store, id: TaskId) {
    id in s.tasks && s.tasks[id].Waiting() && s.DepsFinished(id)
  }

  /** The event puts the task into waiting. */
  ghost predicate Parks(y: System, e: Event, id: TaskId) {
    || ((e.CreateTaskE? || e.SubmitTaskE?) && Answer(y, e) == Created(id))
    || (e.RetryE? && e.id == id && !Answer(y, e).Denied?)
    || (e.BlockE? && e.id == id)
  }

  lemma UnfinishedDep(s: Store, s': Store, id: TaskId) returns (x: TaskId)
    requires Dag(s) && id in s.tasks && !s.DepsFinished(id)
    requires id in s'.tasks && s'.DepsFinished(id) && s'.tasks[id].dependsOn == s.tasks[id].dependsOn
    ensures x in s.tasks[id].dependsOn && x in s.tasks && s.tasks[x].status != Finished
    ensures x in s'.tasks && s'.tasks[x].status == Finished
    ensures x != id && s.tasks[x].kluster == s.tasks[id].kluster && s'.DepRowsFinished(id)
  {
    x :| x in s.tasks[id].dependsOn && s.tasks[x].status != Finished;
  }

  /** When the last unfinished dependency of a waiting task is finished, the
      task is woken in the same step. */
  lemma LastFinishWakes(y: System, e: Event, id: TaskId)
    requires Drawn(y.store) && Dag(y.store) && id in y.store.tasks && id in Step(y, e).store.tasks
    requires y.store.tasks[id].Waiting() && !y.store.DepsFinished(id) && Step(y, e).store.DepsFinished(id)
    ensures ChangeAt(y, e, id).Wake?
  {
    hide Handle;
    StepRow(y, e, id);
    var x := UnfinishedDep(y.store, Step(y, e).store, id);
    FinishingEvents(y, e, x);
    WokenExactly(y.store, e, Committing(y, e), id);
  }

  lemma StartsWaiting(y: System, e: Event, id: TaskId)
    requires id in y.store.tasks && !y.store.tasks[id].Waiting() && ChangeAt(y, e, id).To(y.store.tasks[id]).Waiting()
    ensures Parks(y, e, id)
  {
  }

  /** Only parking a task whose dependencies are all finished already can make
      it stuck; no finish of a dependency is ever missed. */
  lemma NothingNewlyStuck(y: System, e: Event, id: TaskId)
    requires Sound(y) && Stuck(Step(y, e).store, id)
    ensures Stuck(y.store, id) || Parks(y, e, id)
  {
    hide Handle, ChangeOf, Step, Parks;
    if id !in y.store.tasks {
      NewRowCreated(y, e, id);
    } else {
      StepRow(y, e, id);
      if !y.store.tasks[id].Waiting() {
        StartsWaiting(y, e, id);
      } else if !y.store.DepsFinished(id) {
        LastFinishWakes(y, e, id);
      }
    }
  }

  lemma NewRowCreated(y: System, e: Event, id: TaskId)
    requires id !in y.store.tasks && id in Step(y, e).store.tasks && Step(y, e).store.tasks[id].Waiting()
    ensures Parks(y, e, id)
  {
  }

  /** A dispatcher tick leaves nothing stuck, whatever happened before it. */
  lemma DispatcherClears(r: Run, n: nat, id: TaskId)
    requires IsRun(r) && n < |r.events| && r.events[n].DispatchE?
    ensures !Stuck(r.states[n + 1].store, id)
  {
    var y, e := r.states[n], r.events[n];
    RunSound(r, n);
    if Stuck(r.states[n + 1].store, id) {
      NothingNewlyStuck(y, e, id);
      StepRow(y, e, id);
      RowsAreDeps(y.store, id);
    }
  }

  /** The call starts a wait of task `id` although nothing is left to wait for:
      a creation whose dependencies are all finished rows of its kluster, a retry
      of a failed or cancelled task with such dependencies, or a block. */
  ghost predicate LateStart(s: Store, e: Event, id: TaskId) {
    || ((e.CreateTaskE? || e.SubmitTaskE?) && id == s.nextId && e.klusterExists && !e.policy.Other? && e.deps != []
        && forall d | d in e.deps ::
             d in s.tasks && s.tasks[d].kluster == e.kluster && s.tasks[d].status == Finished)
    || (e.RetryE? && e.id == id && id in s.tasks && s.tasks[id].status in {Failed, Cancelled}
        && s.tasks[id].dependsOn != [] && s.DepsFinished(id))
    || (e.BlockE? && e.id == id && id in s.tasks && s.DepsFinished(id))
  }

  lemma CreationStartsIff(y: System, e: Event, id: TaskId)
    requires Sound(y) && (e.CreateTaskE? || e.SubmitTaskE?)
    ensures id !in y.store.tasks && Stuck(Step(y, e).store, id) <==> LateStart(y.store, e, id)
  {
    var s := y.store;
    if DepsKnown(s, e.kluster, e.deps) {
      AdjacencyDescends(s, e.kluster, e.deps);
      DescendingIsAcyclic(Adjacency(s, e.kluster, s.nextId, e.deps), s.nextId);
    }
  }

  lemma RetryStartsIff(y: System, e: Event, id: TaskId)
    requires Sound(y) && e.RetryE? && id in y.store.tasks
    ensures !y.store.tasks[id].Waiting() && Stuck(Step(y, e).store, id) <==> LateStart(y.store, e, id)
  {
    hide Handle, Step;
    StepRow(y, e, id);
    RetryMoves(y, e, id);
    DepsKeptByRetry(y, e, id);
  }

  lemma RetryMoves(y: System, e: Event, id: TaskId)
    requires e.RetryE? && id in y.store.tasks
    ensures ChangeAt(y, e, id).Again? <==> e.id == id && y.store.tasks[id].status in {Failed, Cancelled}
    ensures ChangeAt(y, e, id).Again? || ChangeAt(y, e, id).Kept?
  {
  }

  lemma DepsKeptByRetry(y: System, e: Event, id: TaskId)
    requires Sound(y) && e.RetryE? && id in y.store.tasks
    ensures id in Step(y, e).store.tasks && (Step(y, e).store.DepsFinished(id) <==> y.store.DepsFinished(id))
  {
    hide Handle, Step;
    StepRow(y, e, id);
    forall d | d in y.store.tasks[id].dependsOn
      ensures d in Step(y, e).store.tasks
      ensures Step(y, e).store.tasks[d].status == Finished <==> y.store.tasks[d].status == Finished
    {
      StepRow(y, e, d);
      RetryMoves(y, e, d);
    }
  }

  lemma BlockStartsIff(y: System, e: Event, id: TaskId)
    requires Sound(y) && e.BlockE? && e.id == id
    ensures Stuck(Step(y, e).store, id) <==> LateStart(y.store, e, id)
  {
    hide Handle, Step;
    if id in y.store.tasks {
      forall t | t in y.store.tasks ensures t in Step(y, e).store.tasks {
        OverrideRows(y, e, t);
      }
      OverrideRows(y, e, id);
      forall d | d in y.store.tasks[id].dependsOn
        ensures Step(y, e).store.tasks[d] == y.store.tasks[d]
      {
        OverrideRows(y, e, d);
      }
    } else {
      BlockNeedsRow(y, e);
    }
  }

  lemma BlockNeedsRow(y: System, e: Event)
    requires e.BlockE? && e.id !in y.store.tasks
    ensures Step(y, e).store == y.store
  {
  }

  /** A step makes a task that was not waiting wait on nothing, or blocks one that
      has nothing to wait for, exactly when it is a late start; the store before
      the step and the call show which it is. */
  lemma LateStartIff(y: System, e: Event, id: TaskId)
    requires Sound(y)
    ensures Stuck(Step(y, e).store, id)
            && (!(id in y.store.tasks && y.store.tasks[id].Waiting()) || (e.BlockE? && e.id == id))
       <==> LateStart(y.store, e, id)
  {
    hide Handle, ChangeOf, Step;
    if e.CreateTaskE? || e.SubmitTaskE? {
      CreationStartsIff(y, e, id);
      if id in y.store.tasks {
        StepRow(y, e, id);
        CreationKeeps(y, e, id);
      }
    } else if e.RetryE? && id in y.store.tasks {
      RetryStartsIff(y, e, id);
    } else if e.BlockE? && e.id == id {
      BlockStartsIff(y, e, id);
    } else if Stuck(Step(y, e).store, id) && !(id in y.store.tasks && y.store.tasks[id].Waiting()) {
      NothingNewlyStuck(y, e, id);
      RetryNeedsRow(y, e, id);
    }
  }

  lemma CreationKeeps(y: System, e: Event, id: TaskId)
    requires (e.CreateTaskE? || e.SubmitTaskE?) && id in y.store.tasks
    ensures ChangeAt(y, e, id).Kept?
  {
  }

  lemma RetryNeedsRow(y: System, e: Event, id: TaskId)
    requires id !in y.store.tasks
    ensures e.RetryE? && e.id == id ==> Answer(y, e).Denied?
  {
  }

  ghost predicate LateStartAt(r: Run, k: nat, id: TaskId) {
    k < |r.events| && k < |r.states| && LateStart(r.states[k].store, r.events[k], id)
  }

  /** What can end a wait on nothing: a dispatcher tick, a cancel or unblock of the
      task, or an override of one of its dependencies. */
  ghost predicate EndsWait(s: Store, e: Event, id: TaskId) {
    || e.DispatchE?
    || ((e.CancelE? || e.UnblockE?) && e.id == id)
    || (Override(e) && id in s.tasks && e.id in s.tasks[id].dependsOn)
  }

  lemma DepsStay(y: System, e: Event, id: TaskId)
    requires Sound(y) && id in y.store.tasks && y.store.DepsFinished(id) && !EndsWait(y.store, e, id)
    ensures id in Step(y, e).store.tasks && Step(y, e).store.DepsFinished(id)
  {
    hide Handle, Step;
    if Override(e) {
      OverrideRows(y, e, id);
      forall d | d in y.store.tasks[id].dependsOn
        ensures d in Step(y, e).store.tasks && Step(y, e).store.tasks[d].status == Finished
      {
        OverrideRows(y, e, d);
      }
    } else {
      DepsStayFinished(y, e, id);
    }
  }

  lemma StuckStays(y: System, e: Event, id: TaskId)
    requires Sound(y) && Stuck(y.store, id) && !EndsWait(y.store, e, id)
    ensures Stuck(Step(y, e).store, id)
  {
    DepsStay(y, e, id);
    StepRow(y, e, id);
    if ChangeAt(y, e, id).Wake? {
      FinishedRowsActive(y, e, e.id);
      WokenExactly(y.store, e, Committing(y, e), id);
    }
  }

  lemma EndsStuck(y: System, e: Event, id: TaskId)
    requires Sound(y) && Stuck(y.store, id) && EndsWait(y.store, e, id) && !e.DispatchE?
    ensures !Stuck(Step(y, e).store, id)
  {
    StepRow(y, e, id);
    if Override(e) && e.id in y.store.tasks[id].dependsOn {
      OverrideRows(y, e, e.id);
    }
  }

  /** Step `k` started the task's wait late, and nothing has ended it since. */
  ghost predicate LateSince(r: Run, id: TaskId, k: nat, n: nat) {
    && k < n <= |r.events| && n < |r.states| && LateStartAt(r, k, id)
    && forall m | k < m < n :: !EndsWait(r.states[m].store, r.events[m], id)
  }

  lemma StuckCameFrom(r: Run, n: nat, id: TaskId)
    requires IsRun(r) && 0 < n < |r.states| && Stuck(r.states[n].store, id)
    ensures LateStartAt(r, n - 1, id)
         || (Stuck(r.states[n - 1].store, id) && !EndsWait(r.states[n - 1].store, r.events[n - 1], id))
  {
    hide Handle, ChangeOf, Step, Stuck, LateStart, EndsWait, Parks;
    var y, e := r.states[n - 1], r.events[n - 1];
    RunSound(r, n - 1);
    NothingNewlyStuck(y, e, id);
    LateStartIff(y, e, id);
    if Stuck(y.store, id) {
      if e.DispatchE? {
        DispatcherClears(r, n - 1, id);
      } else if EndsWait(y.store, e, id) {
        EndsStuck(y, e, id);
      }
    } else {
      ParkingStarts(y, e, id);
    }
  }

  lemma ParkingStarts(y: System, e: Event, id: TaskId)
    requires IdsDrawn(y.store) && Parks(y, e, id)
    ensures !(id in y.store.tasks && y.store.tasks[id].Waiting()) || (e.BlockE? && e.id == id)
  {
  }

  /** The exact lost wake-ups, overrides included: a task waits on nothing if and
      only if some call created, retried or blocked it when its dependencies were
      all finished, and since then there was no dispatcher tick, no cancel or
      unblock of it and no override of a dependency. */
  lemma {:induction false} StuckIff(r: Run, n: nat, id: TaskId)
    requires IsRun(r) && n < |r.states|
    ensures Stuck(r.states[n].store, id) <==> exists k :: LateSince(r, id, k, n)
  {
    hide Handle, ChangeOf, Step, LateStartAt, Stuck, EndsWait;
    if n > 0 {
      StuckIff(r, n - 1, id);
      if Stuck(r.states[n].store, id) {
        StuckCameFrom(r, n, id);
        if LateStartAt(r, n - 1, id) {
          assert LateSince(r, id, n - 1, n);
        } else {
          var k :| LateSince(r, id, k, n - 1);
          assert LateSince(r, id, k, n);
        }
      } else {
        forall k: nat | LateSince(r, id, k, n) ensures false {
          assert k < n - 1 ==> LateSince(r, id, k, n - 1);
          LateOneBack(r, n, id, k);
        }
      }
    } else {
      NothingStuckAtFirst(id);
    }
  }

  lemma NothingStuckAtFirst(id: TaskId)
    ensures !Stuck(INITIAL.store, id)
  {
  }

  lemma LateOneBack(r: Run, n: nat, id: TaskId, k: nat)
    requires IsRun(r) && n < |r.states| && LateSince(r, id, k, n)
    requires k < n - 1 ==> Stuck(r.states[n - 1].store, id)
    ensures Stuck(r.states[n].store, id)
  {
    hide Handle, ChangeOf, Step, Stuck, EndsWait;
    var y, e := r.states[n - 1], r.events[n - 1];
    RunSound(r, n - 1);
    if k < n - 1 {
      StuckStays(y, e, id);
    } else {
      LateStartIff(y, e, id);
    }
  }

  /** No other lost wake-ups: as long as no override was harmful, a task that is not
      cancelled waits if and only if one of its dependencies is unfinished or its
      wait started late and nothing has ended it since. */
  lemma WaitsIffUnfinished(r: Run, n: nat, id: TaskId)
    requires IsRun(r) && Exists(r, n, id) && RowAt(r, n, id).status != Cancelled
    requires Harmless(r, n)
    ensures WaitingAt(r, n, id) <==> !DepsDoneAt(r, n, id) || exists k :: LateSince(r, id, k, n)
  {
    ReadinessIff(r, n);
    assert AllReadied(r.states[n].store);
    assert Readied(r.states[n].store, id);
    StuckIff(r, n, id);
  }

  /** A run that finishes its one task. */
  lemma OneFinish() returns (r: Run)
    ensures IsRun(r) && Quiet(r, |r.events|)
    ensures Last(r).store == Store(
      map[0 := Task(0, [], FirstClaim, Finished, Some("bot"), Some(1), None, 1, None, "ann", 3)], map[], [], 2)
  {
    r := OneClaim();
    assert Last(r).store.UndecidedGates(0) == {};
    r := Then(r, CompleteE(0, Some(1), None, 3));
  }

  /** A task created after its dependency finished starts out stuck. */
  lemma LateCreationIsStuck() returns (r: Run)
    ensures IsRun(r) && Quiet(r, |r.events|) && Stuck(Last(r).store, 2)
  {
    r := OneFinish();
    CreationNeverCycles(r, |r.events|, "ann", 0, [0], FirstClaim, 4);
    r := Then(r, CreateTaskE("ann", 0, true, [0], FirstClaim, 4));
  }
}
