/** Review gates over whole runs: a task under review waits for an open gate and
    leaves review as finished only through approvals by its creator. */
module Review {
  import opened Model
  import opened Protocol
  import opened Rows
  import opened Invariants
  import opened Fencing
  import opened Ordering

  /** A task in review still has an undecided gate. */
  ghost predicate ReviewOpen(s: Store, id: TaskId)
    requires id in s.tasks
  {
    s.tasks[id].status == WaitingReview ==> SomeGate(s, id, Undecided)
  }

  /** With every gate owned by its task's creator, the owner filter of
      `complete_task` hides no undecided gate. */
  lemma OwnerFilterHidesNothing(s: Store, id: TaskId)
    requires GatesOwned(s) && id in s.tasks
    ensures s.UndecidedGates(id) == set g | g in s.gates && s.GateOf(g, id, Undecided)
    ensures s.UndecidedGates(id) != {} <==> SomeGate(s, id, Undecided)
  {
    if SomeGate(s, id, Undecided) {
      var g :| g in s.gates && s.GateOf(g, id, Undecided);
      assert g in s.UndecidedGates(id);
    }
  }

  /** Sending a task to review shows undecided gates; they are still there after. */
  lemma SubmitIsOpen(s: Store, e: Event, snap: Option<Snapshot>, id: TaskId)
    requires id in s.tasks && IdsDrawn(s)
    requires ChangeOf(s, e, Handle(s, e, snap).1, snap, id).Submit?
    ensures SomeGate(Handle(s, e, snap).0, id, Undecided)
  {
    var g :| g in s.UndecidedGates(id);
    assert Handle(s, e, snap).0.GateOf(g, id, Undecided);
  }

  /** A gate resolution leaves a task in review only with an undecided gate. */
  lemma ResolutionLeavesOpen(s: Store, e: Event, id: TaskId)
    requires e.ResolveGateE? && id in s.tasks && GatesOwned(s) && s.tasks[id].status == WaitingReview
    requires SomeGate(s, id, Undecided)
    requires Handle(s, e, None).0.tasks[id].status == WaitingReview
    ensures SomeGate(Handle(s, e, None).0, id, Undecided)
  {
    var s' := Handle(s, e, None).0;
    var h :| h in s.gates && s.GateOf(h, id, Undecided);
    if h != e.gate || Handle(s, e, None).1.Denied? {
      assert s'.GateOf(h, id, Undecided);
    } else if e.id == id {
      var g :| g in s'.gates && s'.gates[g].task == id && s'.gates[g].status !in {Approved, Expired};
      assert s'.GateOf(g, id, Undecided) || s'.GateOf(g, id, Rejected);
    }
  }

  lemma StepReviewOpen(y: System, e: Event, id: TaskId)
    requires Sound(y) && id in y.store.tasks && ReviewOpen(y.store, id)
    ensures id in Step(y, e).store.tasks && ReviewOpen(Step(y, e).store, id)
  {
    hide Handle, ChangeOf;
    var s, s' := y.store, Step(y, e).store;
    StepRow(y, e, id);
    if s'.tasks[id].status == WaitingReview {
      if ChangeAt(y, e, id).Submit? {
        SubmitIsOpen(s, e, Committing(y, e), id);
      } else if e.ResolveGateE? {
        ResolutionLeavesOpen(s, e, id);
      } else {
        var h :| h in s.gates && s.GateOf(h, id, Undecided);
        GatesKept(s, e, Committing(y, e), h);
        assert s'.GateOf(h, id, Undecided);
      }
    }
  }

  lemma GatesKept(s: Store, e: Event, snap: Option<Snapshot>, g: GateId)
    requires g in s.gates && !e.ResolveGateE? && forall h | h in s.gates :: h < s.nextId
    ensures g in Handle(s, e, snap).0.gates && Handle(s, e, snap).0.gates[g] == s.gates[g]
  {
    HandleGates(s, e, snap, g);
  }

  lemma NewbornIsOpen(s: Store, id: TaskId)
    requires id in s.tasks && Newborn(s.tasks[id])
    ensures ReviewOpen(s, id)
  {
  }

  /** In every reachable state a task in review has an undecided gate. */
  lemma {:induction false} ReviewIsOpen(r: Run, n: nat, id: TaskId)
    requires IsRun(r) && Exists(r, n, id)
    ensures ReviewOpen(r.states[n].store, id)
  {
    hide Handle, Step, ChangeOf, ReviewOpen;
    if n > 0 {
      if Exists(r, n - 1, id) {
        ReviewIsOpen(r, n - 1, id);
        RunSound(r, n - 1);
        StepReviewOpen(r.states[n - 1], r.events[n - 1], id);
      } else {
        RowBorn(r, n - 1, id);
        NewbornIsOpen(r.states[n].store, id);
      }
    } else {
      assert false;
    }
  }

  /** Step `i` is its owner's decision on the gate. */
  ghost predicate DecidedAt(r: Run, i: nat, id: TaskId, g: GateId, owner: Subject, d: Decision) {
    i < |r.events| && r.events[i] == ResolveGateE(id, g, owner, d, r.events[i].now)
  }

  ghost predicate GateAt(r: Run, n: nat, g: GateId) {
    n < |r.states| && g in r.states[n].store.gates
  }

  ghost function GateRow(r: Run, n: nat, g: GateId): Gate
    requires GateAt(r, n, g)
  {
    r.states[n].store.gates[g]
  }

  lemma GateStep(r: Run, n: nat, g: GateId)
    requires IsRun(r) && n < |r.events| && GateAt(r, n + 1, g)
    ensures GateAt(r, n, g) && GateRow(r, n + 1, g) != GateRow(r, n, g) ==>
      var gate := GateRow(r, n + 1, g);
      && gate.status in {Approved, Rejected}
      && DecidedAt(r, n, gate.task, g, gate.owner, if gate.status == Approved then Approve else Reject)
    ensures !GateAt(r, n, g) ==> GateRow(r, n + 1, g).status == Undecided
  {
    var y, e := r.states[n], r.events[n];
    RunSound(r, n);
    HandleGates(y.store, e, Committing(y, e), g);
    if e.ResolveGateE? && e.decision == Malformed {
      assert Handle(y.store, e, Committing(y, e)).0 == y.store;
    }
  }

  /** A gate that is approved or rejected was decided so by its owner, and that
      decision is the last one made on it. */
  lemma {:induction false} GateWasDecided(r: Run, n: nat, g: GateId) returns (i: nat)
    requires IsRun(r) && GateAt(r, n, g) && GateRow(r, n, g).status != Undecided
    ensures var gate := GateRow(r, n, g);
      && i < n && gate.status in {Approved, Rejected}
      && DecidedAt(r, i, gate.task, g, gate.owner, if gate.status == Approved then Approve else Reject)
    ensures forall k | i < k <= n :: GateAt(r, k, g) && GateRow(r, k, g) == GateRow(r, n, g)
  {
    if n == 0 {
      assert false;
    } else {
      GateStep(r, n - 1, g);
      if GateAt(r, n - 1, g) && GateRow(r, n - 1, g) == GateRow(r, n, g) {
        i := GateWasDecided(r, n - 1, g);
      } else {
        i := n - 1;
      }
    }
  }

  lemma CompletionWaits(s: Store, e: Event, snap: Option<Snapshot>)
    requires e.CompleteE? && e.id in s.tasks && s.UndecidedGates(e.id) != {}
    ensures Handle(s, e, snap).1.Denied? || Handle(s, e, snap).1.InReview?
  {
  }

  lemma ResolutionPasses(s: Store, e: Event, snap: Option<Snapshot>)
    requires e.ResolveGateE? && Handle(s, e, snap).1.Completed?
    ensures e.gate in s.gates && e.subject == s.gates[e.gate].owner && s.gates[e.gate].task == e.id
    ensures AllGatesPassed(Handle(s, e, snap).0, e.id)
  {
  }

  lemma FinishChanges(s: Store, e: Event, o: Outcome, snap: Option<Snapshot>, id: TaskId)
    requires id in s.tasks
    ensures ChangeOf(s, e, o, snap, id).Finish? ==> e.CompleteE? && e.id == id && !o.Denied? && !o.InReview?
    ensures ChangeOf(s, e, o, snap, id).PassReview? ==> e.ResolveGateE? && e.id == id && o.Completed?
  {
  }

  /** Finishing a task under review takes a resolution; all its gates passed. */
  lemma PassShowsGates(y: System, e: Event, id: TaskId)
    requires Sound(y) && id in y.store.tasks && y.store.tasks[id].status == WaitingReview
    requires SomeGate(y.store, id, Undecided)
    requires id in Step(y, e).store.tasks && Step(y, e).store.tasks[id].status == Finished
    ensures e.ResolveGateE? && e.id == id && e.gate in y.store.gates && e.subject == y.store.gates[e.gate].owner
    ensures y.store.gates[e.gate].task == id && AllGatesPassed(Step(y, e).store, id)
  {
    hide Handle, ChangeOf, SomeGate, AllGatesPassed;
    StepRow(y, e, id);
    OwnerFilterHidesNothing(y.store, id);
    FinishChanges(y.store, e, Answer(y, e), Committing(y, e), id);
    if ChangeAt(y, e, id).Finish? {
      CompletionWaits(y.store, e, Committing(y, e));
    } else {
      ResolutionPasses(y.store, e, Committing(y, e));
    }
  }

  /** Review safety: a task leaves review as finished only by its creator's
      resolution of one of its gates, after which every gate of the task stands
      approved, each by the creator's own last decision. */
  lemma ReviewSafety(r: Run, n: nat, id: TaskId)
    requires IsRun(r) && n < |r.events| && Exists(r, n, id)
    requires RowAt(r, n, id).status == WaitingReview && FinishedAt(r, n + 1, id)
    ensures r.events[n].ResolveGateE? && r.events[n].id == id && r.events[n].subject == RowAt(r, n, id).createdBy
    ensures var after := r.states[n + 1].store; forall g | g in after.gates && after.gates[g].task == id ::
      && after.gates[g].status == Approved
      && exists i :: 0 <= i <= n && DecidedAt(r, i, id, g, RowAt(r, n, id).createdBy, Approve)
  {
    hide Handle, ChangeOf, Step;
    var y, e := r.states[n], r.events[n];
    RunSound(r, n);
    RunSound(r, n + 1);
    ReviewIsOpen(r, n, id);
    var c := RowStep(r, n, id);
    PassShowsGates(y, e, id);
    var after := r.states[n + 1].store;
    forall g | g in after.gates && after.gates[g].task == id
      ensures after.gates[g].status == Approved
      ensures exists i :: 0 <= i <= n && DecidedAt(r, i, id, g, RowAt(r, n, id).createdBy, Approve)
    {
      var i := GateWasDecided(r, n + 1, g);
    }
  }

  /** A completion never finishes a task that is in review. */
  lemma CompleteKeepsReview(r: Run, n: nat, id: TaskId)
    requires IsRun(r) && n < |r.events| && Exists(r, n, id) && r.events[n].CompleteE?
    requires RowAt(r, n, id).status == WaitingReview
    ensures RowAt(r, n + 1, id).status == WaitingReview
  {
    var c := RowStep(r, n, id);
    if RowAt(r, n + 1, id).status != WaitingReview {
      ReviewIsOpen(r, n, id);
      OwnerFilterHidesNothing(r.states[n].store, id);
    }
  }

  /** An accepted completion finishes its task exactly when no gate of the task
      is undecided; gates rejected before do not stop it. */
  lemma CompletionFinishesIff(r: Run, n: nat, id: TaskId)
    requires IsRun(r) && n < |r.events| && Exists(r, n, id)
    requires r.events[n].CompleteE? && r.events[n].id == id && !AnswerAt(r, n).Denied?
    ensures FinishedAt(r, n + 1, id) <==> !SomeGate(r.states[n].store, id, Undecided)
    ensures !FinishedAt(r, n + 1, id) ==> RowAt(r, n + 1, id).status == WaitingReview
  {
    RunSound(r, n);
    OwnerFilterHidesNothing(r.states[n].store, id);
    var c := RowStep(r, n, id);
  }

  /** A run that creates one task and claims it. */
  lemma OneClaim() returns (r: Run)
    ensures IsRun(r) && Quiet(r, |r.events|)
    ensures Last(r).store == Store(
      map[0 := Task(0, [], FirstClaim, Claimed, Some("bot"), Some(1), Some(121), 1, None, "ann", 1)], map[], [], 2)
  {
    r := Run([INITIAL], []);
    r := Then(r, CreateTaskE("ann", 0, true, [], FirstClaim, 0));
    assert Last(r).store == Store(map[0 := NewTask(0, [], FirstClaim, Ready, "ann", 0)], map[], [], 1);
    r := Then(r, BeginClaimE(0, 0, "bot", 1));
    assert Last(r).inFlight[0] == Snapshot(0, 0, "bot");
    r := Then(r, CommitClaimE(0, false, 1));
  }

  /** The creator rejects a gate while the task is still being worked on. */
  lemma EarlyRejection() returns (r: Run)
    ensures IsRun(r)
    ensures Last(r).store == Store(
      map[0 := Task(0, [], FirstClaim, Claimed, Some("bot"), Some(1), Some(121), 1, None, "ann", 1)],
      map[2 := Gate("ann", 0, Rejected)], [], 3)
  {
    r := OneClaim();
    r := Then(r, CreateGateE(0, "ann", 1));
    r := Then(r, ResolveGateE(0, 2, "ann", Reject, 2));
  }

  /** A rejected gate does not by itself keep its task from finishing. */
  lemma RejectedGateFinishes() returns (r: Run)
    ensures IsRun(r) && FinishedAt(r, |r.events|, 0) && SomeGate(Last(r).store, 0, Rejected)
  {
    r := EarlyRejection();
    assert Last(r).store.UndecidedGates(0) == {};
    r := Then(r, CompleteE(0, Some(1), None, 3));
    assert Last(r).store.GateOf(2, 0, Rejected);
  }
}
