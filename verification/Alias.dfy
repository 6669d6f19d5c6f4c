/** `pending` is only an alias of `blocked`: the protocol cannot tell stores
    apart that differ in nothing else, so tasks made through REST and through
    MCP live the same life. */
module Alias {
  import opened Model
  import opened Protocol
  import opened Rows
  import opened Invariants

  function Canon(t: Task): Task {
    if t.status == Pending then t.(status := Blocked) else t
  }

  function CanonStore(s: Store): Store {
    s.(tasks := map t | t in s.tasks :: Canon(s.tasks[t]))
  }

  function CanonSystem(y: System): System {
    y.(store := CanonStore(y.store))
  }

  /** A submission through MCP reads as the creation through REST. */
  function CanonEvent(e: Event): Event {
    match e
    case SubmitTaskE(subject, k, known, deps, policy, now) => CreateTaskE(subject, k, known, deps, policy, now)
    case _ => e
  }

  /** Equal up to swapping the two statuses. */
  ghost predicate Alike(a: System, b: System) {
    CanonSystem(a) == CanonSystem(b)
  }

  lemma PutCanon(s: Store, id: TaskId, row: Task)
    ensures CanonStore(s.Put(id, row)) == CanonStore(s).Put(id, Canon(row))
  {
  }

  lemma ScanCanon(s: Store, fin: TaskId, now: int)
    requires fin in s.tasks
    ensures fin in CanonStore(s).tasks
    ensures WakeDependents(CanonStore(s), fin, now).1 == WakeDependents(s, fin, now).1
  {
    var c := CanonStore(s);
    forall x | x in s.tasks ensures Wakes(c, fin, x) <==> Wakes(s, fin, x) {
      DepRowsCanon(s, x);
    }
  }

  lemma DepRowsCanon(s: Store, id: TaskId)
    requires id in s.tasks
    ensures id in CanonStore(s).tasks && (CanonStore(s).DepRowsFinished(id) <==> s.DepRowsFinished(id))
  {
    var c := CanonStore(s);
    forall d | d in s.tasks ensures c.tasks[d].status == Finished <==> s.tasks[d].status == Finished {
    }
  }

  lemma CreationCanon(s: Store, kluster: KlusterId, deps: seq<TaskId>)
    ensures DepsKnown(CanonStore(s), kluster, deps) <==> DepsKnown(s, kluster, deps)
    ensures WouldCycle(CanonStore(s), kluster, deps) <==> WouldCycle(s, kluster, deps)
  {
    assert Adjacency(CanonStore(s), kluster, s.nextId, deps) == Adjacency(s, kluster, s.nextId, deps);
  }

  /** The two creation paths answer alike and make the same row up to the alias. */
  lemma CreationsAlike(s: Store, subject: Subject, k: KlusterId, known: bool, deps: seq<TaskId>,
                       policy: Policy, now: int)
    ensures var (a, o), (b, p) := CreateTask(s, subject, k, known, deps, policy, now),
                                  SubmitTask(s, subject, k, known, deps, policy, now);
      o == p && CanonStore(a) == CanonStore(b)
  {
  }

  lemma CompleteCanon(s: Store, id: TaskId, lease: Option<LeaseId>, artifact: Option<string>, now: int)
    ensures Complete(CanonStore(s), id, lease, artifact, now).1 == Complete(s, id, lease, artifact, now).1
  {
    if id in s.tasks && s.tasks[id].Active() {
      assert CanonStore(s).UndecidedGates(id) == s.UndecidedGates(id);
      var row := s.tasks[id].(status := Finished, artifact := artifact, leaseExpiresAt := None, updatedAt := now);
      PutCanon(s, id, row);
      ScanCanon(s.Put(id, row), id, now);
    }
  }

  lemma ResolveCanon(s: Store, id: TaskId, g: GateId, subject: Subject, decision: Decision, now: int)
    ensures ResolveGate(CanonStore(s), id, g, subject, decision, now).1
         == ResolveGate(s, id, g, subject, decision, now).1
  {
    if g in s.gates && id in s.tasks && s.tasks[id].status == WaitingReview {
      var s1 := s.(gates := s.gates[g := s.gates[g].(status := if decision == Approve then Approved else Rejected)]);
      var row := s.tasks[id].(status := Finished, updatedAt := now);
      PutCanon(s1, id, row);
      ScanCanon(s1.Put(id, row), id, now);
      GatesCanon(s1, id);
    }
  }

  lemma GatesCanon(s: Store, id: TaskId)
    ensures SomeGate(CanonStore(s), id, Rejected) <==> SomeGate(s, id, Rejected)
    ensures AllGatesPassed(CanonStore(s), id) <==> AllGatesPassed(s, id)
  {
    var c := CanonStore(s);
    forall g ensures c.GateOf(g, id, Rejected) <==> s.GateOf(g, id, Rejected) {
    }
  }

  /** Requests whose answer hangs on more than the row they name. */
  predicate LooksAround(e: Event) {
    e.CreateTaskE? || e.SubmitTaskE? || e.CompleteE? || e.ResolveGateE? || e.DispatchE?
  }

  lemma LocalAnswerCanon(s: Store, e: Event, snap: Option<Snapshot>)
    requires !LooksAround(e)
    ensures Handle(CanonStore(s), e, snap).1 == Handle(s, e, snap).1
  {
    if e.BeginClaimE? || e.CommitClaimE? || e.HeartbeatE? || e.ProgressE? || e.FailE? {
      HolderAnswerCanon(s, e, snap);
    }
  }

  lemma HolderAnswerCanon(s: Store, e: Event, snap: Option<Snapshot>)
    requires e.BeginClaimE? || e.CommitClaimE? || e.HeartbeatE? || e.ProgressE? || e.FailE?
    ensures Handle(CanonStore(s), e, snap).1 == Handle(s, e, snap).1
  {
  }

  /** Every request is answered the same on a store and on its canonical form. */
  lemma AnswerCanon(s: Store, e: Event, snap: Option<Snapshot>)
    ensures Handle(CanonStore(s), CanonEvent(e), snap).1 == Handle(s, e, snap).1
  {
    match e
    case CreateTaskE(subject, k, known, deps, policy, now) => CreationCanon(s, k, deps);
    case SubmitTaskE(subject, k, known, deps, policy, now) =>
      CreationCanon(s, k, deps);
      CreationsAlike(s, subject, k, known, deps, policy, now);
    case CompleteE(id, lease, artifact, now) => CompleteCanon(s, id, lease, artifact, now);
    case ResolveGateE(id, g, subject, decision, now) => ResolveCanon(s, id, g, subject, decision, now);
    case DispatchE(now) => PromotableCanon(s);
    case _ => LocalAnswerCanon(s, e, snap);
  }

  lemma PromotableCanon(s: Store)
    ensures Promotable(CanonStore(s)) == Promotable(s)
  {
    forall x | x in s.tasks ensures x in Promotable(CanonStore(s)) <==> x in Promotable(s) {
      DepRowsCanon(s, x);
    }
  }

  /** A change does the same to a row and to its canonical form. */
  lemma ChangeCanon(t: Task, c: Change)
    ensures Canon(c.To(Canon(t))) == Canon(c.To(t))
  {
  }

  lemma ChangeOfCanon(s: Store, e: Event, o: Outcome, snap: Option<Snapshot>, id: TaskId)
    requires id in s.tasks
    ensures id in CanonStore(s).tasks
    ensures ChangeOf(CanonStore(s), CanonEvent(e), o, snap, id) == ChangeOf(s, e, o, snap, id)
  {
  }

  /** Apart from the rows that exist, the two stores move identically: same
      gates, log and supply, and the same new row up to the alias. */
  ghost predicate RestAlike(s: Store, a: Store, b: Store, t: TaskId) {
    && a.gates == b.gates && a.progress == b.progress && a.nextId == b.nextId
    && (t !in s.tasks ==>
          && (t in a.tasks <==> t in b.tasks)
          && (t in a.tasks ==> Canon(a.tasks[t]) == Canon(b.tasks[t])))
  }

  lemma RestCanon(s: Store, e: Event, snap: Option<Snapshot>, t: TaskId)
    ensures RestAlike(s, Handle(s, e, snap).0, Handle(CanonStore(s), CanonEvent(e), snap).0, t)
  {
    hide Handle;
    var c, f := CanonStore(s), CanonEvent(e);
    AnswerCanon(s, e, snap);
    HandleRest(s, e, snap);
    HandleRest(c, f, snap);
    if t !in s.tasks {
      HandleNewRow(s, e, snap, t);
      HandleNewRow(c, f, snap, t);
    }
  }

  lemma HandleCanon(s: Store, e: Event, snap: Option<Snapshot>)
    requires IdsDrawn(s)
    ensures CanonStore(Handle(s, e, snap).0) == CanonStore(Handle(CanonStore(s), CanonEvent(e), snap).0)
  {
    var c, f := CanonStore(s), CanonEvent(e);
    var a, b := Handle(s, e, snap).0, Handle(c, f, snap).0;
    RestCanon(s, e, snap, 0);
    AnswerCanon(s, e, snap);
    forall t: TaskId
      ensures t in a.tasks <==> t in b.tasks
      ensures t in a.tasks ==> Canon(a.tasks[t]) == Canon(b.tasks[t])
    {
      RestCanon(s, e, snap, t);
      if t in s.tasks {
        HandleMoves(s, e, snap, t);
        HandleMoves(c, f, snap, t);
        ChangeOfCanon(s, e, Handle(s, e, snap).1, snap, t);
        ChangeCanon(s.tasks[t], ChangeOf(s, e, Handle(s, e, snap).1, snap, t));
      }
    }
  }

  lemma StepCanon(y: System, e: Event)
    requires IdsDrawn(y.store)
    ensures Answer(CanonSystem(y), CanonEvent(e)) == Answer(y, e)
    ensures CanonSystem(Step(CanonSystem(y), CanonEvent(e))) == CanonSystem(Step(y, e))
  {
    AnswerCanon(y.store, e, Committing(y, e));
    HandleCanon(y.store, e, Committing(y, e));
  }

  /** Systems alike stay alike under every step, and answer alike. */
  lemma StepAlike(a: System, b: System, e: Event, f: Event)
    requires IdsDrawn(a.store) && IdsDrawn(b.store) && Alike(a, b) && CanonEvent(e) == CanonEvent(f)
    ensures Alike(Step(a, e), Step(b, f)) && Answer(a, e) == Answer(b, f)
  {
    StepCanon(a, e);
    StepCanon(b, f);
  }

  lemma RunStepAlike(a: Run, b: Run, n: nat)
    requires IsRun(a) && IsRun(b) && |a.events| == |b.events| && n < |a.events|
    requires CanonEvent(a.events[n]) == CanonEvent(b.events[n]) && Alike(a.states[n], b.states[n])
    ensures Alike(a.states[n + 1], b.states[n + 1]) && AnswerAt(a, n) == AnswerAt(b, n)
  {
    hide Handle, Step, Alike;
    RunSound(a, n);
    RunSound(b, n);
    StepAlike(a.states[n], b.states[n], a.events[n], b.events[n]);
  }

  /** Two runs of the same requests, each creation through either path, are
      answered the same throughout and pass through stores equal up to the alias. */
  lemma {:induction false} RunsAlike(a: Run, b: Run, n: nat)
    requires IsRun(a) && IsRun(b) && |a.events| == |b.events| && n < |a.states|
    requires forall i | 0 <= i < |a.events| :: CanonEvent(a.events[i]) == CanonEvent(b.events[i])
    ensures Alike(a.states[n], b.states[n])
    ensures n < |a.events| ==> AnswerAt(a, n) == AnswerAt(b, n)
  {
    hide Handle, Step, Alike;
    if n > 0 {
      RunsAlike(a, b, n - 1);
      RunStepAlike(a, b, n - 1);
    } else {
      InitialAlike();
    }
    if n < |a.events| {
      RunStepAlike(a, b, n);
    }
  }

  lemma InitialAlike()
    ensures Alike(INITIAL, INITIAL)
  {
  }
}
