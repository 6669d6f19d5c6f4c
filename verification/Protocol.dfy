/** Every endpoint of the work protocol as a function on the store, the two
    background sweeps, and the runs that interleave them.

    An exclusive claim takes two steps: an unlocked read of the row, then a
    locked "still ready" select with a compare-and-swap on the version. Any
    number of claims may be between the two. */
module Protocol {
  import opened Model
  import opened Graph

  // ---------------------------------------------------------------- creation

  /** Every named dependency is a row of this kluster. */
  predicate DepsKnown(s: Store, kluster: KlusterId, deps: seq<TaskId>) {
    forall d | d in deps :: d in s.tasks && s.tasks[d].kluster == kluster
  }

  /** The dependency edges of one kluster with the proposed edges added. */
  function Adjacency(s: Store, kluster: KlusterId, id: TaskId, deps: seq<TaskId>): map<TaskId, seq<TaskId>> {
    (map t | t in s.tasks && s.tasks[t].kluster == kluster :: s.tasks[t].dependsOn)[id := deps]
  }

  ghost predicate WouldCycle(s: Store, kluster: KlusterId, deps: seq<TaskId>) {
    CycleFrom(Adjacency(s, kluster, s.nextId, deps), s.nextId)
  }

  function NewTask(kluster: KlusterId, deps: seq<TaskId>, policy: Policy, status: Status,
                   subject: Subject, now: int): Task
  {
    Task(kluster, deps, policy, status, None, None, None, 0, None, subject, now)
  }

  function AddTask(s: Store, row: Task): (Store, Outcome) {
    (s.Put(s.nextId, row).(nextId := s.nextId + 1), Created(s.nextId))
  }

  /** POST /klusters/{id}/tasks */
  ghost function CreateTask(s: Store, subject: Subject, kluster: KlusterId, klusterExists: bool,
                            deps: seq<TaskId>, policy: Policy, now: int): (Store, Outcome)
  {
    if !klusterExists then (s, Denied(404))
    else if !DepsKnown(s, kluster, deps) then (s, Denied(400))
    else if deps != [] && WouldCycle(s, kluster, deps) then (s, Denied(400))
    else if policy.Other? then (s, Denied(400))
    else AddTask(s, NewTask(kluster, deps, policy, if deps == [] then Ready else Blocked, subject, now))
  }

  /** The MCP tool submit_mesh_task. */
  ghost function SubmitTask(s: Store, subject: Subject, kluster: KlusterId, klusterExists: bool,
                            deps: seq<TaskId>, policy: Policy, now: int): (Store, Outcome)
  {
    if !klusterExists then (s, Denied(404))
    else if policy.Other? then (s, Denied(400))
    else if !DepsKnown(s, kluster, deps) then (s, Denied(400))
    else if deps != [] && WouldCycle(s, kluster, deps) then (s, Denied(400))
    else AddTask(s, NewTask(kluster, deps, policy, if deps == [] then Ready else Pending, subject, now))
  }

  /** A trigger or a scheduled job makes a task from its stored spec. */
  function SpawnTask(s: Store, owner: Subject, kluster: KlusterId, policy: Policy, now: int): (Store, Outcome) {
    AddTask(s, NewTask(kluster, [], policy, Ready, owner, now))
  }

  // ------------------------------------------------------------------ claims

  /** First half of a claim. A broadcast claim is finished here; an exclusive
      claim only remembers what it read. */
  function BeginClaim(s: Store, id: TaskId, subject: Subject, now: int): (Store, Outcome, Option<Snapshot>) {
    if id !in s.tasks then (s, Denied(404), None)
    else
      var t := s.tasks[id];
      if t.policy == Broadcast then
        if t.status != Ready && t.status != Running then (s, Denied(409), None)
        else (s.Put(id, t.(status := Running, leaseExpiresAt := Some(now + LEASE_TTL_SECONDS), updatedAt := now)),
              Accepted, None)
      else (s, Accepted, Some(Snapshot(id, t.version, subject)))
  }

  /** Second half of an exclusive claim. `rowLocked` says that another
      transaction holds the row, which SKIP LOCKED turns into no row. */
  function CommitClaim(s: Store, snap: Snapshot, rowLocked: bool, now: int): (Store, Outcome) {
    var id := snap.task;
    if rowLocked || id !in s.tasks || s.tasks[id].status != Ready then (s, Denied(423))
    else if s.tasks[id].version != snap.version then (s, Denied(409))
    else
      var t := s.tasks[id];
      (s.Put(id, t.(status := Claimed, claimedBy := Some(snap.subject), leaseId := Some(s.nextId),
                    version := snap.version + 1, leaseExpiresAt := Some(now + LEASE_TTL_SECONDS),
                    updatedAt := now)).(nextId := s.nextId + 1),
       Granted(id, s.nextId, snap.version + 1))
  }

  // ------------------------------------------------------- the holder's calls

  function Heartbeat(s: Store, id: TaskId, lease: Option<LeaseId>, now: int): (Store, Outcome) {
    if id !in s.tasks then (s, Denied(404))
    else
      var t := s.tasks[id];
      if !t.Held() then (s, Denied(409))
      else if t.LeaseMismatch(lease) then (s, Denied(409))
      else (s.Put(id, t.(leaseExpiresAt := Some(now + LEASE_TTL_SECONDS), updatedAt := now)), Accepted)
  }

  /** The sequence number after the highest one this task has. */
  function NextSeq(log: seq<Progress>, id: TaskId): (n: nat)
    ensures forall p | p in log && p.task == id :: p.seqNo < n
    ensures n == 0 || exists p :: p in log && p.task == id && p.seqNo == n - 1
  {
    if log == [] then 0
    else
      var p := log[|log| - 1];
      var rest := NextSeq(log[..|log| - 1], id);
      assert forall q | q in log :: q in log[..|log| - 1] || q == p;
      if p.task == id && p.seqNo >= rest then p.seqNo + 1 else rest
  }

  function AppendProgress(s: Store, id: TaskId, subject: Subject, now: int): (Store, Outcome) {
    if id !in s.tasks then (s, Denied(404))
    else
      var t := s.tasks[id];
      var row := if t.status == Claimed then t.(status := Running, updatedAt := now) else t;
      var n := NextSeq(s.progress, id);
      var agent := if t.claimedBy.Some? then t.claimedBy.value else subject;
      (s.Put(id, row).(progress := s.progress + [Progress(id, agent, n)]), Recorded(n))
  }

  /** `c` is a waiting task of the finished task's kluster that names it and
      whose dependency rows are all finished. */
  predicate Wakes(s: Store, fin: TaskId, c: TaskId)
    requires fin in s.tasks
  {
    && c in s.tasks
    && s.tasks[c].kluster == s.tasks[fin].kluster
    && s.tasks[c].Waiting()
    && fin in s.tasks[c].dependsOn
    && s.DepRowsFinished(c)
  }

  function MakeReady(s: Store, ids: set<TaskId>, now: int): Store {
    s.(tasks := map t | t in s.tasks ::
         if t in ids then s.tasks[t].(status := Ready, updatedAt := now) else s.tasks[t])
  }

  /** _unblock_dependents, for a task already marked finished in `s`. */
  function WakeDependents(s: Store, fin: TaskId, now: int): (Store, set<TaskId>)
    requires fin in s.tasks
  {
    var woken := set c | c in s.tasks && Wakes(s, fin, c);
    (MakeReady(s, woken, now), woken)
  }

  function Complete(s: Store, id: TaskId, lease: Option<LeaseId>, artifact: Option<string>, now: int): (Store,
                    Outcome)
  {
    if id !in s.tasks then (s, Denied(404))
    else
      var t := s.tasks[id];
      if !t.Active() then (s, Denied(409))
      else if t.LeaseMismatch(lease) then (s, Denied(409))
      else
        var undecided := s.UndecidedGates(id);
        if undecided != {} then
          (s.Put(id, t.(status := WaitingReview, updatedAt := now)), InReview(undecided))
        else
          var done := s.Put(id, t.(status := Finished, artifact := artifact, leaseExpiresAt := None, updatedAt := now));
          var (after, woken) := WakeDependents(done, id, now);
          (after, Completed(woken))
  }

  function Fail(s: Store, id: TaskId, lease: Option<LeaseId>, now: int): (Store, Outcome) {
    if id !in s.tasks then (s, Denied(404))
    else
      var t := s.tasks[id];
      if !t.Active() then (s, Denied(409))
      else if t.LeaseMismatch(lease) then (s, Denied(409))
      else (s.Put(id, t.(status := Failed, leaseExpiresAt := None, updatedAt := now)), Accepted)
  }

  // ------------------------------------------------------ operator overrides

  function Cancel(s: Store, id: TaskId, now: int): (Store, Outcome) {
    if id !in s.tasks then (s, Denied(404))
    else
      var t := s.tasks[id];
      if t.status == Finished || t.status == Cancelled then (s, Denied(409))
      else (s.Put(id, t.(status := Cancelled, updatedAt := now)), Accepted)
  }

  function Retry(s: Store, id: TaskId, now: int): (Store, Outcome) {
    if id !in s.tasks then (s, Denied(404))
    else
      var t := s.tasks[id];
      if t.status != Failed && t.status != Cancelled then (s, Denied(409))
      else (s.Put(id, t.(status := if t.dependsOn == [] then Ready else Pending,
                         claimedBy := None, leaseExpiresAt := None, updatedAt := now)), Accepted)
  }

  function Block(s: Store, id: TaskId, now: int): (Store, Outcome) {
    if id !in s.tasks then (s, Denied(404))
    else (s.Put(id, s.tasks[id].(status := Blocked, updatedAt := now)), Accepted)
  }

  function Unblock(s: Store, id: TaskId, now: int): (Store, Outcome) {
    if id !in s.tasks then (s, Denied(404))
    else (s.Put(id, s.tasks[id].(status := Ready, updatedAt := now)), Accepted)
  }

  // ------------------------------------------------------------ review gates

  function CreateGate(s: Store, id: TaskId, subject: Subject): (Store, Outcome) {
    if id !in s.tasks || s.tasks[id].createdBy != subject then (s, Denied(404))
    else (s.(gates := s.gates[s.nextId := Gate(subject, id, Undecided)], nextId := s.nextId + 1), Created(s.nextId))
  }

  datatype Decision = Approve | Reject | Malformed

  predicate SomeGate(s: Store, id: TaskId, status: GateStatus) {
    exists g | g in s.gates :: s.GateOf(g, id, status)
  }

  predicate AllGatesPassed(s: Store, id: TaskId) {
    forall g | g in s.gates && s.gates[g].task == id :: s.gates[g].status in {Approved, Expired}
  }

  function ResolveGate(s: Store, id: TaskId, g: GateId, subject: Subject, decision: Decision,
                       now: int): (Store, Outcome)
  {
    if decision == Malformed then (s, Denied(422))
    else if g !in s.gates || s.gates[g].owner != subject then (s, Denied(404))
    else if s.gates[g].task != id then (s, Denied(404))
    else
      var s1 := s.(gates := s.gates[g := s.gates[g].(status := if decision == Approve then Approved else Rejected)]);
      if id in s1.tasks && s1.tasks[id].status == WaitingReview then
        var t := s1.tasks[id];
        if SomeGate(s1, id, Rejected) then
          (s1.Put(id, t.(status := Failed, updatedAt := now)), ReviewFailed)
        else if AllGatesPassed(s1, id) then
          var (after, woken) := WakeDependents(s1.Put(id, t.(status := Finished, updatedAt := now)), id, now);
          (after, Completed(woken))
        else (s1, Accepted)
      else (s1, Accepted)
  }

  // -------------------------------------------------------------- the sweeps

  /** _expire_stale_leases, run by every task listing of a kluster. */
  function ExpireKluster(s: Store, kluster: KlusterId, now: int): Store {
    s.(tasks := map t | t in s.tasks ::
         if s.tasks[t].kluster == kluster && s.tasks[t].Stale(now)
         then s.tasks[t].(status := Ready, claimedBy := None, leaseExpiresAt := None, updatedAt := now)
         else s.tasks[t])
  }

  /** The watchdog's tick: every kluster, and the lease id is cleared too. */
  function WatchdogTick(s: Store, now: int): Store {
    s.(tasks := map t | t in s.tasks ::
         if s.tasks[t].Stale(now)
         then s.tasks[t].(status := Ready, claimedBy := None, leaseId := None, leaseExpiresAt := None, updatedAt := now)
         else s.tasks[t])
  }

  /** Waiting tasks whose dependency rows are all finished. */
  function Promotable(s: Store): set<TaskId> {
    set c | c in s.tasks && s.tasks[c].Waiting() && s.DepRowsFinished(c)
  }

  /** The dispatcher's tick. */
  function DispatcherTick(s: Store, now: int): (Store, set<TaskId>) {
    (MakeReady(s, Promotable(s), now), Promotable(s))
  }

  // --------------------------------------------------------------- the system

  type RequestId = nat

  datatype System = System(store: Store, inFlight: map<RequestId, Snapshot>)

  const INITIAL := System(EMPTY_STORE, map[])

  datatype Event =
    | CreateTaskE(subject: Subject, kluster: KlusterId, klusterExists: bool, deps: seq<TaskId>,
                  policy: Policy, now: int)
    | SubmitTaskE(subject: Subject, kluster: KlusterId, klusterExists: bool, deps: seq<TaskId>,
                  policy: Policy, now: int)
    | SpawnTaskE(subject: Subject, kluster: KlusterId, policy: Policy, now: int)
    | BeginClaimE(req: RequestId, id: TaskId, subject: Subject, now: int)
    | CommitClaimE(req: RequestId, rowLocked: bool, now: int)
    | HeartbeatE(id: TaskId, lease: Option<LeaseId>, now: int)
    | ProgressE(id: TaskId, subject: Subject, now: int)
    | CompleteE(id: TaskId, lease: Option<LeaseId>, artifact: Option<string>, now: int)
    | FailE(id: TaskId, lease: Option<LeaseId>, now: int)
    | CancelE(id: TaskId, now: int)
    | RetryE(id: TaskId, now: int)
    | BlockE(id: TaskId, now: int)
    | UnblockE(id: TaskId, now: int)
    | CreateGateE(id: TaskId, subject: Subject, now: int)
    | ResolveGateE(id: TaskId, gate: GateId, subject: Subject, decision: Decision, now: int)
    | ListTasksE(kluster: KlusterId, now: int)
    | WatchdogE(now: int)
    | DispatchE(now: int)

  /** What an event does to the store, with the snapshot a claim commits. */
  ghost function Handle(s: Store, e: Event, snap: Option<Snapshot>): (Store, Outcome) {
    match e
    case CreateTaskE(subject, k, known, deps, policy, now) => CreateTask(s, subject, k, known, deps, policy, now)
    case SubmitTaskE(subject, k, known, deps, policy, now) => SubmitTask(s, subject, k, known, deps, policy, now)
    case SpawnTaskE(subject, k, policy, now) => SpawnTask(s, subject, k, policy, now)
    case BeginClaimE(_, id, subject, now) => var r := BeginClaim(s, id, subject, now); (r.0, r.1)
    case CommitClaimE(_, rowLocked, now) =>
      if snap.Some? then CommitClaim(s, snap.value, rowLocked, now) else (s, Denied(404))
    case HeartbeatE(id, lease, now) => Heartbeat(s, id, lease, now)
    case ProgressE(id, subject, now) => AppendProgress(s, id, subject, now)
    case CompleteE(id, lease, artifact, now) => Complete(s, id, lease, artifact, now)
    case FailE(id, lease, now) => Fail(s, id, lease, now)
    case CancelE(id, now) => Cancel(s, id, now)
    case RetryE(id, now) => Retry(s, id, now)
    case BlockE(id, now) => Block(s, id, now)
    case UnblockE(id, now) => Unblock(s, id, now)
    case CreateGateE(id, subject, now) => CreateGate(s, id, subject)
    case ResolveGateE(id, g, subject, decision, now) => ResolveGate(s, id, g, subject, decision, now)
    case ListTasksE(k, now) => (ExpireKluster(s, k, now), Accepted)
    case WatchdogE(now) => (WatchdogTick(s, now), Accepted)
    case DispatchE(now) => var r := DispatcherTick(s, now); (r.0, Completed(r.1))
  }

  function Pick(m: map<RequestId, Snapshot>, req: RequestId): Option<Snapshot> {
    if req in m then Some(m[req]) else None
  }

  /** The snapshot an event commits, if it is a commit. */
  function Committing(y: System, e: Event): Option<Snapshot> {
    if e.CommitClaimE? then Pick(y.inFlight, e.req) else None
  }

  ghost function Answer(y: System, e: Event): Outcome {
    Handle(y.store, e, Committing(y, e)).1
  }

  ghost function Step(y: System, e: Event): System {
    System(
      Handle(y.store, e, Committing(y, e)).0,
      match e
      case BeginClaimE(req, id, subject, now) =>
        var snap := BeginClaim(y.store, id, subject, now).2;
        if snap.Some? then y.inFlight[req := snap.value] else y.inFlight - {req}
      case CommitClaimE(req, _, _) => y.inFlight - {req}
      case _ => y.inFlight)
  }

  /** A finite run from the empty store. */
  datatype Run = Run(states: seq<System>, events: seq<Event>)

  ghost predicate IsRun(r: Run) {
    && |r.states| == |r.events| + 1
    && r.states[0] == INITIAL
    && forall i {:trigger r.events[i]} | 0 <= i < |r.events| :: r.states[i + 1] == Step(r.states[i], r.events[i])
  }

  /** A run with one more event. */
  ghost function Then(r: Run, e: Event): (r': Run)
    requires IsRun(r)
    ensures IsRun(r') && |r'.events| == |r.events| + 1
    ensures r'.states[|r'.events|] == Step(r.states[|r.events|], e)
  {
    var r' := Run(r.states + [Step(r.states[|r.events|], e)], r.events + [e]);
    assert forall i | 0 <= i < |r.events| :: r'.events[i] == r.events[i];
    r'
  }

  ghost function Last(r: Run): System
    requires IsRun(r)
  {
    r.states[|r.events|]
  }

  ghost function AnswerAt(r: Run, i: nat): Outcome
    requires IsRun(r) && i < |r.events|
  {
    Answer(r.states[i], r.events[i])
  }

  /** The manual status overrides. */
  predicate Override(e: Event) {
    e.BlockE? || e.UnblockE?
  }
}
