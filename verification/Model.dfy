/** The rows of the mesh work model and the store that holds them.

    Identifiers that the program draws from uuid4 come from one supply of fresh
    numbers here; time is an integer number of seconds. */
module Model {

  datatype Option<+T> = None | Some(value: T)

  type TaskId = nat
  type GateId = nat
  type LeaseId = nat
  type KlusterId = nat
  type Subject = string

  /** Seconds a claim or a heartbeat keeps a task. */
  const LEASE_TTL_SECONDS: int := 120

  datatype Status =
    | Blocked | Pending | Ready | Claimed | Running | WaitingReview
    | Finished | Failed | Cancelled

  /** REST and MCP accept only the three named policies; a task made from a
      trigger or a job spec may carry any text. */
  datatype Policy = Assigned | FirstClaim | Broadcast | Other(name: string)

  datatype Task = Task(
    kluster: KlusterId,
    dependsOn: seq<TaskId>,
    policy: Policy,
    status: Status,
    claimedBy: Option<Subject>,
    leaseId: Option<LeaseId>,
    leaseExpiresAt: Option<int>,
    version: nat,
    artifact: Option<string>,
    createdBy: Subject,
    updatedAt: int)
  {
    /** blocked and pending: the task still waits for its dependencies. */
    predicate Waiting() {
      status == Blocked || status == Pending
    }

    predicate Held() {
      status == Claimed || status == Running
    }

    /** A claim is being worked on or reviewed. */
    predicate Active() {
      Held() || status == WaitingReview
    }

    predicate Exclusive() {
      policy != Broadcast
    }

    /** A caller that presents no lease, or a row that has none, is let through. */
    predicate LeaseMismatch(presented: Option<LeaseId>) {
      leaseId.Some? && presented.Some? && leaseId != presented
    }

    /** What a lease sweep at `now` takes back. */
    predicate Stale(now: int) {
      Held() && Exclusive() && leaseExpiresAt.Some? && leaseExpiresAt.value < now
    }
  }

  datatype GateStatus = Undecided | Approved | Rejected | Expired

  datatype Gate = Gate(owner: Subject, task: TaskId, status: GateStatus)

  datatype Progress = Progress(task: TaskId, agent: Subject, seqNo: nat)

  datatype Store = Store(
    tasks: map<TaskId, Task>,
    gates: map<GateId, Gate>,
    progress: seq<Progress>,
    nextId: nat)
  {
    function Put(id: TaskId, row: Task): Store {
      this.(tasks := tasks[id := row])
    }

    /** `all(...)` over the rows a query by the dependency ids returns: ids
        without a row are not looked at. */
    predicate DepRowsFinished(id: TaskId)
      requires id in tasks
    {
      forall d | d in tasks[id].dependsOn && d in tasks :: tasks[d].status == Finished
    }

    ghost predicate DepsFinished(id: TaskId)
      requires id in tasks
    {
      forall d | d in tasks[id].dependsOn :: d in tasks && tasks[d].status == Finished
    }

    predicate GateOf(g: GateId, id: TaskId, status: GateStatus) {
      g in gates && gates[g].task == id && gates[g].status == status
    }

    /** The gates `complete_task` asks for: undecided and owned by the task's creator. */
    function UndecidedGates(id: TaskId): set<GateId>
      requires id in tasks
    {
      set g | g in gates && GateOf(g, id, Undecided) && gates[g].owner == tasks[id].createdBy
    }
  }

  const EMPTY_STORE := Store(map[], map[], [], 0)

  /** What a request answers. `Denied` carries the HTTP code. */
  datatype Outcome =
    | Denied(code: nat)
    | Accepted
    | Created(id: nat)
    | Granted(task: TaskId, lease: LeaseId, version: nat)
    | InReview(gates: set<GateId>)
    | Completed(woken: set<TaskId>)
    | ReviewFailed
    | Recorded(seqNo: nat)

  /** What an exclusive claimer remembers from its unlocked read of the row. */
  datatype Snapshot = Snapshot(task: TaskId, version: nat, subject: Subject)
}
