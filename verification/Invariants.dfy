/** What every step of the protocol keeps, and its lift to whole runs. */
module Invariants {
  import opened Model
  import opened Protocol
  import opened Rows

  /** Ids on rows, gates and leases were all drawn from the supply. */
  ghost predicate Drawn(s: Store) {
    && IdsDrawn(s)
    && (forall t | t in s.tasks && s.tasks[t].leaseId.Some? :: s.tasks[t].leaseId.value < s.nextId)
    && (forall g | g in s.gates :: g < s.nextId)
  }

  /** A row as a creation makes it. */
  ghost predicate Newborn(t: Task) {
    && (if t.dependsOn == [] then t.status == Ready else t.Waiting())
    && t.leaseId == None && t.version == 0
  }

  /** No row is removed; at most one row is new, it takes the next id, and its
      dependencies are rows of its kluster. */
  ghost predicate Grows(s: Store, s': Store) {
    && s.nextId <= s'.nextId
    && (forall t | t in s.tasks :: t in s'.tasks)
    && (forall t | t in s'.tasks && t !in s.tasks ::
          t == s.nextId < s'.nextId && Newborn(s'.tasks[t])
          && DepsKnown(s, s'.tasks[t].kluster, s'.tasks[t].dependsOn))
  }

  lemma HandleGrows(s: Store, e: Event, snap: Option<Snapshot>)
    ensures Grows(s, Handle(s, e, snap).0)
  {
    match e
    case CompleteE(_, _, _, _) =>
    case ResolveGateE(_, _, _, _, _) =>
    case _ =>
  }

  ghost function ChangeAt(y: System, e: Event, id: TaskId): Change
    requires id in y.store.tasks
  {
    ChangeOf(y.store, e, Answer(y, e), Committing(y, e), id)
  }

  /** The row after a step is the row before it under its change. */
  lemma StepRow(y: System, e: Event, id: TaskId)
    requires IdsDrawn(y.store) && id in y.store.tasks
    ensures id in Step(y, e).store.tasks
    ensures ChangeAt(y, e, id).From(y.store.tasks[id])
    ensures Step(y, e).store.tasks[id] == ChangeAt(y, e, id).To(y.store.tasks[id])
  {
    HandleMoves(y.store, e, Committing(y, e), id);
  }

  /** A lease is granted only as the next fresh id, and only by a claim. */
  lemma LeasesAreFresh(s: Store, e: Event, snap: Option<Snapshot>, id: TaskId)
    requires id in s.tasks && ChangeOf(s, e, Handle(s, e, snap).1, snap, id).Claim?
    ensures ChangeOf(s, e, Handle(s, e, snap).1, snap, id).lease == s.nextId < Handle(s, e, snap).0.nextId
    ensures snap.Some? && snap.value.task == id && snap.value.version == s.tasks[id].version
  {
  }

  lemma StepDrawn(y: System, e: Event)
    requires Drawn(y.store)
    ensures Drawn(Step(y, e).store)
  {
    var s, s' := y.store, Step(y, e).store;
    var snap := Committing(y, e);
    HandleGrows(s, e, snap);
    forall t | t in s'.tasks && s'.tasks[t].leaseId.Some?
      ensures s'.tasks[t].leaseId.value < s'.nextId
    {
      if t in s.tasks {
        StepRow(y, e, t);
        if ChangeAt(y, e, t).Claim? {
          LeasesAreFresh(s, e, snap, t);
        }
      }
    }
    GatesDrawn(s, e, snap);
  }

  lemma GatesDrawn(s: Store, e: Event, snap: Option<Snapshot>)
    requires forall g | g in s.gates :: g < s.nextId
    ensures forall g | g in Handle(s, e, snap).0.gates :: g < Handle(s, e, snap).0.nextId
  {
  }

  /** Dependencies are rows of the same kluster, created strictly earlier. */
  ghost predicate Dag(s: Store) {
    forall t, d | t in s.tasks && d in s.tasks[t].dependsOn ::
      d in s.tasks && d < t && s.tasks[d].kluster == s.tasks[t].kluster
  }

  lemma GrowsDag(s: Store, s': Store)
    requires IdsDrawn(s) && Dag(s) && Grows(s, s')
    requires forall t | t in s.tasks ::
      s'.tasks[t].kluster == s.tasks[t].kluster && s'.tasks[t].dependsOn == s.tasks[t].dependsOn
    ensures Dag(s')
  {
    forall t | t in s'.tasks
      ensures forall d | d in s'.tasks[t].dependsOn ::
        d in s'.tasks && d < t && s'.tasks[d].kluster == s'.tasks[t].kluster
    {
      if t !in s.tasks {
        assert DepsKnown(s, s'.tasks[t].kluster, s'.tasks[t].dependsOn);
      }
    }
  }

  lemma StepDag(y: System, e: Event)
    requires Drawn(y.store) && Dag(y.store)
    ensures Dag(Step(y, e).store)
  {
    hide Handle, ChangeOf, Grows, Dag;
    var s, s' := y.store, Step(y, e).store;
    HandleGrows(s, e, Committing(y, e));
    forall t | t in s.tasks
      ensures t in s'.tasks && s'.tasks[t].kluster == s.tasks[t].kluster
      ensures s'.tasks[t].dependsOn == s.tasks[t].dependsOn
    {
      StepRow(y, e, t);
    }
    GrowsDag(s, s');
  }

  /** What the claim fields of a row say about its status. */
  ghost predicate ClaimFields(t: Task) {
    && (!t.Exclusive() ==> t.leaseId == None && t.version == 0 && t.status != Claimed)
    && (t.Exclusive() && t.Active() ==> t.leaseId.Some? && t.claimedBy.Some?)
    && (t.Held() ==> t.leaseExpiresAt.Some?)
  }

  ghost predicate AllClaimFields(s: Store) {
    forall t | t in s.tasks :: ClaimFields(s.tasks[t])
  }

  lemma ChangeKeepsClaimFields(t: Task, c: Change)
    requires ClaimFields(t) && c.From(t) && (c.Claim? ==> t.Exclusive())
    ensures ClaimFields(c.To(t))
  {
  }

  /** A claim in flight was read from an exclusive row, which may have moved on. */
  ghost predicate Snapshots(y: System) {
    forall q | q in y.inFlight ::
      var snap := y.inFlight[q];
      && snap.task in y.store.tasks
      && y.store.tasks[snap.task].Exclusive()
      && snap.version <= y.store.tasks[snap.task].version
  }

  lemma StepClaimFields(y: System, e: Event)
    requires Drawn(y.store) && AllClaimFields(y.store) && Snapshots(y)
    ensures AllClaimFields(Step(y, e).store)
  {
    hide Handle, ChangeOf;
    var s, s' := y.store, Step(y, e).store;
    HandleGrows(s, e, Committing(y, e));
    forall t | t in s'.tasks ensures ClaimFields(s'.tasks[t]) {
      if t in s.tasks {
        StepRow(y, e, t);
        if ChangeAt(y, e, t).Claim? {
          LeasesAreFresh(s, e, Committing(y, e), t);
          CommitIsExclusive(y, e, t);
        }
        ChangeKeepsClaimFields(s.tasks[t], ChangeAt(y, e, t));
      }
    }
  }

  lemma CommitIsExclusive(y: System, e: Event, id: TaskId)
    requires Snapshots(y) && Committing(y, e).Some? && Committing(y, e).value.task == id
    ensures id in y.store.tasks && y.store.tasks[id].Exclusive()
  {
  }

  lemma StepSnapshots(y: System, e: Event)
    requires Drawn(y.store) && Snapshots(y)
    ensures Snapshots(Step(y, e))
  {
    hide Handle, ChangeOf;
    var y' := Step(y, e);
    forall q | q in y'.inFlight
      ensures y'.inFlight[q].task in y'.store.tasks
      ensures y'.store.tasks[y'.inFlight[q].task].Exclusive()
      ensures y'.inFlight[q].version <= y'.store.tasks[y'.inFlight[q].task].version
    {
      StepRow(y, e, y'.inFlight[q].task);
    }
  }

  /** Every gate belongs to its task's creator, and nothing marks a gate expired. */
  ghost predicate GatesOwned(s: Store) {
    forall g | g in s.gates ::
      && s.gates[g].task in s.tasks
      && s.gates[g].owner == s.tasks[s.gates[g].task].createdBy
      && s.gates[g].status != Expired
  }

  lemma StepGatesOwned(y: System, e: Event)
    requires Drawn(y.store) && GatesOwned(y.store)
    ensures GatesOwned(Step(y, e).store)
  {
    hide Handle, ChangeOf;
    var s, s' := y.store, Step(y, e).store;
    forall g | g in s'.gates
      ensures s'.gates[g].task in s'.tasks
      ensures s'.gates[g].owner == s'.tasks[s'.gates[g].task].createdBy
      ensures s'.gates[g].status != Expired
    {
      HandleGates(s, e, Committing(y, e), g);
      StepRow(y, e, s'.gates[g].task);
    }
  }

  ghost predicate Sound(y: System) {
    && Drawn(y.store) && Dag(y.store) && AllClaimFields(y.store)
    && Snapshots(y) && GatesOwned(y.store)
  }

  lemma StepSound(y: System, e: Event)
    requires Sound(y)
    ensures Sound(Step(y, e))
  {
    StepDrawn(y, e);
    StepDag(y, e);
    StepClaimFields(y, e);
    StepSnapshots(y, e);
    StepGatesOwned(y, e);
  }

  /** Every state of every run is sound. */
  lemma {:induction false} RunSound(r: Run, n: nat)
    requires IsRun(r) && n < |r.states|
    ensures Sound(r.states[n])
  {
    if n > 0 {
      RunSound(r, n - 1);
      StepSound(r.states[n - 1], r.events[n - 1]);
    }
  }
}
