/** The life of one row: the seventeen things a step can do to a task that
    exists, and the proof that no step does anything else. */
module Rows {
  import opened Model
  import opened Protocol

  datatype Change =
    | Kept
    | Joined(now: int)                                     // broadcast claim
    | Claim(subject: Subject, lease: LeaseId, now: int)    // exclusive claim
    | Renew(now: int)
    | Start(now: int)
    | Submit(now: int)                                     // to review
    | Finish(artifact: Option<string>, now: int)
    | PassReview(now: int)
    | FailReview(now: int)
    | GiveUp(now: int)
    | Drop(now: int)                                       // cancel
    | Again(now: int)                                      // retry
    | Park(now: int)                                       // block
    | Release(now: int)                                    // unblock
    | Wake(now: int)
    | Lapse(now: int)                                      // lease sweep of a listing
    | Reclaim(now: int)                                    // lease sweep of the watchdog
  {
    function To(t: Task): Task {
      match this
      case Kept => t
      case Joined(now) => t.(status := Running, leaseExpiresAt := Some(now + LEASE_TTL_SECONDS), updatedAt := now)
      case Claim(who, lease, now) =>
        t.(status := Claimed, claimedBy := Some(who), leaseId := Some(lease), version := t.version + 1,
           leaseExpiresAt := Some(now + LEASE_TTL_SECONDS), updatedAt := now)
      case Renew(now) => t.(leaseExpiresAt := Some(now + LEASE_TTL_SECONDS), updatedAt := now)
      case Start(now) => t.(status := Running, updatedAt := now)
      case Submit(now) => t.(status := WaitingReview, updatedAt := now)
      case Finish(artifact, now) =>
        t.(status := Finished, artifact := artifact, leaseExpiresAt := None, updatedAt := now)
      case PassReview(now) => t.(status := Finished, updatedAt := now)
      case FailReview(now) => t.(status := Failed, updatedAt := now)
      case GiveUp(now) => t.(status := Failed, leaseExpiresAt := None, updatedAt := now)
      case Drop(now) => t.(status := Cancelled, updatedAt := now)
      case Again(now) =>
        t.(status := if t.dependsOn == [] then Ready else Pending,
           claimedBy := None, leaseExpiresAt := None, updatedAt := now)
      case Park(now) => t.(status := Blocked, updatedAt := now)
      case Release(now) => t.(status := Ready, updatedAt := now)
      case Wake(now) => t.(status := Ready, updatedAt := now)
      case Lapse(now) => t.(status := Ready, claimedBy := None, leaseExpiresAt := None, updatedAt := now)
      case Reclaim(now) =>
        t.(status := Ready, claimedBy := None, leaseId := None, leaseExpiresAt := None, updatedAt := now)
    }

    /** When the change may happen to a row, seen from the row alone. */
    predicate From(t: Task) {
      match this
      case Kept => true
      case Joined(_) => !t.Exclusive() && (t.status == Ready || t.status == Running)
      case Claim(_, _, _) => t.status == Ready
      case Renew(_) => t.Held()
      case Start(_) => t.status == Claimed
      case Submit(_) => t.Active()
      case Finish(_, _) => t.Active()
      case PassReview(_) => t.status == WaitingReview
      case FailReview(_) => t.status == WaitingReview
      case GiveUp(_) => t.Active()
      case Drop(_) => t.status != Finished && t.status != Cancelled
      case Again(_) => t.status == Failed || t.status == Cancelled
      case Park(_) => true
      case Release(_) => true
      case Wake(_) => t.Waiting()
      case Lapse(now) => t.Stale(now)
      case Reclaim(now) => t.Stale(now)
    }
  }

  /** The change event `e` with answer `o` makes to row `id`. */
  function ChangeOf(s: Store, e: Event, o: Outcome, snap: Option<Snapshot>, id: TaskId): Change
    requires id in s.tasks
  {
    if o.Denied? then Kept else
    match e
    case BeginClaimE(_, x, _, now) => if x == id && !s.tasks[id].Exclusive() then Joined(now) else Kept
    case CommitClaimE(_, _, now) =>
      if snap.Some? && o.Granted? && o.task == id then Claim(snap.value.subject, o.lease, now) else Kept
    case HeartbeatE(x, _, now) => if x == id then Renew(now) else Kept
    case ProgressE(x, _, now) => if x == id && s.tasks[id].status == Claimed then Start(now) else Kept
    case CompleteE(x, _, artifact, now) =>
      if x == id then (if o.InReview? then Submit(now) else Finish(artifact, now))
      else if o.Completed? && id in o.woken then Wake(now) else Kept
    case FailE(x, _, now) => if x == id then GiveUp(now) else Kept
    case CancelE(x, now) => if x == id then Drop(now) else Kept
    case RetryE(x, now) => if x == id then Again(now) else Kept
    case BlockE(x, now) => if x == id then Park(now) else Kept
    case UnblockE(x, now) => if x == id then Release(now) else Kept
    case ResolveGateE(x, _, _, _, now) =>
      if o.ReviewFailed? && x == id then FailReview(now)
      else if o.Completed? && x == id then PassReview(now)
      else if o.Completed? && id in o.woken then Wake(now)
      else Kept
    case ListTasksE(k, now) => if s.tasks[id].kluster == k && s.tasks[id].Stale(now) then Lapse(now) else Kept
    case WatchdogE(now) => if s.tasks[id].Stale(now) then Reclaim(now) else Kept
    case DispatchE(now) => if o.Completed? && id in o.woken then Wake(now) else Kept
    case _ => Kept
  }

  ghost predicate IdsDrawn(s: Store) {
    forall t | t in s.tasks :: t < s.nextId
  }

  /** A step does to an existing row exactly its change, which the row allows. */
  ghost predicate Moves(s: Store, e: Event, snap: Option<Snapshot>, id: TaskId)
    requires id in s.tasks
  {
    var (s', o) := Handle(s, e, snap);
    var c := ChangeOf(s, e, o, snap, id);
    id in s'.tasks && s'.tasks[id] == c.To(s.tasks[id]) && c.From(s.tasks[id])
  }

  lemma HolderMoves(s: Store, e: Event, snap: Option<Snapshot>, id: TaskId)
    requires IdsDrawn(s) && id in s.tasks
    requires e.BeginClaimE? || e.CommitClaimE? || e.HeartbeatE? || e.ProgressE? || e.FailE?
    ensures Moves(s, e, snap, id)
  {
  }

  lemma CompletionMoves(s: Store, e: Event, snap: Option<Snapshot>, id: TaskId)
    requires IdsDrawn(s) && id in s.tasks && e.CompleteE?
    ensures Moves(s, e, snap, id)
  {
  }

  lemma OperatorMoves(s: Store, e: Event, snap: Option<Snapshot>, id: TaskId)
    requires IdsDrawn(s) && id in s.tasks
    requires e.CancelE? || e.RetryE? || e.CreateGateE?
    ensures Moves(s, e, snap, id)
  {
  }

  lemma OverrideMoves(s: Store, e: Event, snap: Option<Snapshot>, id: TaskId)
    requires IdsDrawn(s) && id in s.tasks && Override(e)
    ensures Moves(s, e, snap, id)
  {
  }

  lemma ResolutionMoves(s: Store, e: Event, snap: Option<Snapshot>, id: TaskId)
    requires IdsDrawn(s) && id in s.tasks && e.ResolveGateE?
    ensures Moves(s, e, snap, id)
  {
  }

  lemma HandleMoves(s: Store, e: Event, snap: Option<Snapshot>, id: TaskId)
    requires IdsDrawn(s) && id in s.tasks
    ensures Moves(s, e, snap, id)
  {
    if e.BeginClaimE? || e.CommitClaimE? || e.HeartbeatE? || e.ProgressE? || e.FailE? {
      HolderMoves(s, e, snap, id);
    } else if e.CompleteE? {
      CompletionMoves(s, e, snap, id);
    } else if e.CancelE? || e.RetryE? || e.CreateGateE? {
      OperatorMoves(s, e, snap, id);
    } else if Override(e) {
      OverrideMoves(s, e, snap, id);
    } else if e.ResolveGateE? {
      ResolutionMoves(s, e, snap, id);
    }
  }

  /** A gate keeps its owner and its task; only its resolution changes its
      status; a new one is undecided and made by its task's creator. */
  ghost predicate GateMoves(s: Store, s': Store, e: Event, g: GateId) {
    && g in s'.gates
    && if g in s.gates then
         && s'.gates[g].owner == s.gates[g].owner && s'.gates[g].task == s.gates[g].task
         && (s'.gates[g] == s.gates[g]
             || (e.ResolveGateE? && e.gate == g && e.id == s.gates[g].task && e.subject == s.gates[g].owner
                 && s'.gates[g].status == if e.decision == Approve then Approved else Rejected))
       else
         && g == s.nextId && s'.gates[g].status == Undecided
         && s'.gates[g].task in s.tasks && s.tasks[s'.gates[g].task].createdBy == s'.gates[g].owner
  }

  lemma HandleGates(s: Store, e: Event, snap: Option<Snapshot>, g: GateId)
    requires forall h | h in s.gates :: h < s.nextId
    requires g in s.gates || g in Handle(s, e, snap).0.gates
    ensures GateMoves(s, Handle(s, e, snap).0, e, g)
  {
    match e
    case ResolveGateE(_, _, _, _, _) =>
    case _ =>
  }

  // ------------------------------------------- the rest of a step's effect

  /** The row an accepted creation adds. */
  function AddedRow(e: Event, o: Outcome): Option<Task> {
    if !o.Created? then None else
    match e
    case CreateTaskE(subject, k, _, deps, policy, now) =>
      Some(NewTask(k, deps, policy, if deps == [] then Ready else Blocked, subject, now))
    case SubmitTaskE(subject, k, _, deps, policy, now) =>
      Some(NewTask(k, deps, policy, if deps == [] then Ready else Pending, subject, now))
    case SpawnTaskE(subject, k, policy, now) => Some(NewTask(k, [], policy, Ready, subject, now))
    case _ => None
  }

  function GatesAfter(s: Store, e: Event, o: Outcome): map<GateId, Gate> {
    if o.Denied? then s.gates
    else if e.CreateGateE? then s.gates[s.nextId := Gate(e.subject, e.id, Undecided)]
    else if e.ResolveGateE? && e.gate in s.gates then
      s.gates[e.gate := s.gates[e.gate].(status := if e.decision == Approve then Approved else Rejected)]
    else s.gates
  }

  function LogAfter(s: Store, e: Event, o: Outcome): seq<Progress> {
    if o.Recorded? && e.ProgressE? && e.id in s.tasks then
      var agent := s.tasks[e.id].claimedBy;
      s.progress + [Progress(e.id, if agent.Some? then agent.value else e.subject, o.seqNo)]
    else s.progress
  }

  ghost predicate RestMoves(s: Store, e: Event, snap: Option<Snapshot>) {
    var (s', o) := Handle(s, e, snap);
    && s'.nextId == s.nextId + (if o.Created? || o.Granted? then 1 else 0)
    && s'.gates == GatesAfter(s, e, o)
    && s'.progress == LogAfter(s, e, o)
  }

  lemma FinishingRest(s: Store, e: Event, snap: Option<Snapshot>)
    requires e.CompleteE? || e.ResolveGateE?
    ensures RestMoves(s, e, snap)
  {
  }

  lemma HolderRest(s: Store, e: Event, snap: Option<Snapshot>)
    requires e.BeginClaimE? || e.CommitClaimE? || e.HeartbeatE? || e.ProgressE? || e.FailE?
    ensures RestMoves(s, e, snap)
  {
  }

  /** Beside the rows that exist, a step adds at most the created row, draws one
      id per creation or grant, and moves gates and log as its answer says. */
  lemma HandleRest(s: Store, e: Event, snap: Option<Snapshot>)
    ensures RestMoves(s, e, snap)
  {
    if e.CompleteE? || e.ResolveGateE? {
      FinishingRest(s, e, snap);
    } else if e.BeginClaimE? || e.CommitClaimE? || e.HeartbeatE? || e.ProgressE? || e.FailE? {
      HolderRest(s, e, snap);
    }
  }

  lemma HandleNewRow(s: Store, e: Event, snap: Option<Snapshot>, t: TaskId)
    requires t !in s.tasks
    ensures var (s', o) := Handle(s, e, snap);
      && (t in s'.tasks <==> t == s.nextId && AddedRow(e, o).Some?)
      && (t in s'.tasks ==> Some(s'.tasks[t]) == AddedRow(e, o))
  {
    match e
    case CompleteE(_, _, _, _) =>
    case ResolveGateE(_, _, _, _, _) =>
    case _ =>
  }
}
