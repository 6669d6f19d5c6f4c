/** The store as the program keeps it: tables whose rows the handlers rewrite in
    place, loops and all, each handler proved against its function. */
module WorkStores {
  import opened Model
  import opened Graph
  import P = Protocol

  function Elements(ids: seq<TaskId>): set<TaskId> {
    set c | c in ids
  }

  class WorkStore {
    var tasks: map<TaskId, Task>
    var gates: map<GateId, Gate>
    var progress: seq<Progress>
    var nextId: nat

    function State(): Store
      reads this
    {
      Store(tasks, gates, progress, nextId)
    }

    constructor ()
      ensures State() == EMPTY_STORE
    {
      tasks, gates, progress, nextId := map[], map[], [], 0;
    }

    method FreshId() returns (id: nat)
      modifies this`nextId
      ensures id == old(nextId) && nextId == old(nextId) + 1
    {
      id := nextId;
      nextId := nextId + 1;
    }

    /** The validation loop: the first dependency that is not a row of the
        kluster ends it. */
    method CheckDeps(kluster: KlusterId, deps: seq<TaskId>) returns (known: bool)
      ensures known <==> P.DepsKnown(State(), kluster, deps)
    {
      for i := 0 to |deps|
        invariant forall d | d in deps[..i] :: d in tasks && tasks[d].kluster == kluster
      {
        if deps[i] !in tasks || tasks[deps[i]].kluster != kluster {
          return false;
        }
        assert deps[..i + 1] == deps[..i] + [deps[i]];
      }
      assert deps[..|deps|] == deps;
      return true;
    }

    method CheckCycle(kluster: KlusterId, deps: seq<TaskId>) returns (found: bool)
      ensures found <==> P.WouldCycle(State(), kluster, deps)
    {
      found := DetectCycle(P.Adjacency(State(), kluster, nextId, deps), nextId);
    }

    method AddTask(kluster: KlusterId, deps: seq<TaskId>, policy: Policy, status: Status, subject: Subject, now: int)
      returns (o: Outcome)
      modifies this
      ensures (State(), o) == P.AddTask(old(State()), P.NewTask(kluster, deps, policy, status, subject, now))
    {
      var id := FreshId();
      tasks := tasks[id := Task(kluster, deps, policy, status, None, None, None, 0, None, subject, now)];
      o := Created(id);
    }

    method CreateTask(subject: Subject, kluster: KlusterId, klusterExists: bool, deps: seq<TaskId>,
                      policy: Policy, now: int) returns (o: Outcome)
      modifies this
      ensures (State(), o) == P.CreateTask(old(State()), subject, kluster, klusterExists, deps, policy, now)
    {
      if !klusterExists {
        return Denied(404);
      }
      var known := CheckDeps(kluster, deps);
      if !known {
        return Denied(400);
      }
      if deps != [] {
        var cyclic := CheckCycle(kluster, deps);
        if cyclic {
          return Denied(400);
        }
      }
      if policy.Other? {
        return Denied(400);
      }
      o := AddTask(kluster, deps, policy, if deps == [] then Ready else Blocked, subject, now);
    }

    method SubmitTask(subject: Subject, kluster: KlusterId, klusterExists: bool, deps: seq<TaskId>,
                      policy: Policy, now: int) returns (o: Outcome)
      modifies this
      ensures (State(), o) == P.SubmitTask(old(State()), subject, kluster, klusterExists, deps, policy, now)
    {
      if !klusterExists {
        return Denied(404);
      }
      if policy.Other? {
        return Denied(400);
      }
      var known := CheckDeps(kluster, deps);
      if !known {
        return Denied(400);
      }
      if deps != [] {
        var cyclic := CheckCycle(kluster, deps);
        if cyclic {
          return Denied(400);
        }
      }
      o := AddTask(kluster, deps, policy, if deps == [] then Ready else Pending, subject, now);
    }

    method SpawnTask(owner: Subject, kluster: KlusterId, policy: Policy, now: int) returns (o: Outcome)
      modifies this
      ensures (State(), o) == P.SpawnTask(old(State()), owner, kluster, policy, now)
    {
      o := AddTask(kluster, [], policy, Ready, owner, now);
    }

    method BeginClaim(id: TaskId, subject: Subject, now: int) returns (o: Outcome, snap: Option<Snapshot>)
      modifies this
      ensures (State(), o, snap) == P.BeginClaim(old(State()), id, subject, now)
    {
      if id !in tasks {
        return Denied(404), None;
      }
      var row := tasks[id];
      if row.policy == Broadcast {
        if row.status != Ready && row.status != Running {
          return Denied(409), None;
        }
        tasks := tasks[id := row.(
            status := Running, leaseExpiresAt := Some(now + LEASE_TTL_SECONDS), updatedAt := now)];
        return Accepted, None;
      }
      return Accepted, Some(Snapshot(id, row.version, subject));
    }

    method CommitClaim(snap: Snapshot, rowLocked: bool, now: int) returns (o: Outcome)
      modifies this
      ensures (State(), o) == P.CommitClaim(old(State()), snap, rowLocked, now)
    {
      if rowLocked || snap.task !in tasks || tasks[snap.task].status != Ready {
        return Denied(423);
      }
      if tasks[snap.task].version != snap.version {
        return Denied(409);
      }
      var lease := FreshId();
      tasks := tasks[snap.task := tasks[snap.task].(
          status := Claimed, claimedBy := Some(snap.subject), leaseId := Some(lease), version := snap.version + 1,
          leaseExpiresAt := Some(now + LEASE_TTL_SECONDS), updatedAt := now)];
      return Granted(snap.task, lease, snap.version + 1);
    }

    method Heartbeat(id: TaskId, lease: Option<LeaseId>, now: int) returns (o: Outcome)
      modifies this
      ensures (State(), o) == P.Heartbeat(old(State()), id, lease, now)
    {
      if id !in tasks {
        return Denied(404);
      }
      var row := tasks[id];
      if !row.Held() || row.LeaseMismatch(lease) {
        return Denied(409);
      }
      tasks := tasks[id := row.(leaseExpiresAt := Some(now + LEASE_TTL_SECONDS), updatedAt := now)];
      return Accepted;
    }

    method AppendProgress(id: TaskId, subject: Subject, now: int) returns (o: Outcome)
      modifies this
      ensures (State(), o) == P.AppendProgress(old(State()), id, subject, now)
    {
      if id !in tasks {
        return Denied(404);
      }
      var row := tasks[id];
      if row.status == Claimed {
        tasks := tasks[id := row.(status := Running, updatedAt := now)];
      }
      var n := P.NextSeq(progress, id);
      progress := progress + [Progress(id, if row.claimedBy.Some? then row.claimedBy.value else subject, n)];
      assert tasks == old(tasks)[id := tasks[id]];
      return Recorded(n);
    }

    /** Rewrites one row to ready. */
    method SetReady(id: TaskId, now: int)
      requires id in tasks
      modifies this`tasks
      ensures tasks == old(tasks)[id := old(tasks)[id].(status := Ready, updatedAt := now)]
    {
      tasks := tasks[id := tasks[id].(status := Ready, updatedAt := now)];
    }

    /** _unblock_dependents: goes through the candidates in any order, rewriting
        rows as it goes, and still wakes exactly the set computed up front. */
    method UnblockDependents(fin: TaskId, now: int) returns (newlyReady: seq<TaskId>)
      requires fin in tasks
      modifies this`tasks
      ensures (State(), Elements(newlyReady)) == P.WakeDependents(old(State()), fin, now)
      ensures Distinct(newlyReady)
    {
      hide Partly, Scanning, Elements, Distinct, P.MakeReady;
      ghost var before := State();
      ghost var woken := P.WakeDependents(before, fin, now).1;
      var candidates := set c | c in tasks && tasks[c].kluster == tasks[fin].kluster && tasks[c].Waiting();
      ghost var all := candidates;
      newlyReady := [];
      ScanStarts(before, woken, candidates, now);
      while candidates != {}
        invariant candidates <= all && State() == before.(tasks := tasks)
        invariant Scanning(before, woken, candidates, newlyReady)
        invariant Partly(before, State(), Elements(newlyReady), now)
      {
        var c :| c in candidates;
        ScanGoesOn(before, State(), woken, candidates, newlyReady, now, c);
        candidates := candidates - {c};
        if fin in tasks[c].dependsOn && State().DepRowsFinished(c) {
          SetReady(c, now);
          newlyReady := newlyReady + [c];
        }
      }
      ScanEnds(before, State(), woken, newlyReady, now);
    }

    static ghost predicate Distinct(ids: seq<TaskId>) {
      forall i, j | 0 <= i < j < |ids| :: ids[i] != ids[j]
    }

    /** Of the waiting rows to wake, those not in `todo` any more have been found. */
    static ghost predicate Scanning(s: Store, wanted: set<TaskId>, todo: set<TaskId>, found: seq<TaskId>) {
      && todo <= s.tasks.Keys
      && (forall c | c in wanted :: c in s.tasks && s.tasks[c].Waiting())
      && Elements(found) == wanted - todo && Distinct(found)
    }

    /** Between the stores lies the waking of `done`. */
    static ghost predicate Partly(s: Store, s': Store, done: set<TaskId>, now: int) {
      && s' == s.(tasks := s'.tasks) && s'.tasks.Keys == s.tasks.Keys
      && (forall c | c in done :: c in s.tasks && s.tasks[c].Waiting())
      && forall c | c in s.tasks ::
           s'.tasks[c] == if c in done then s.tasks[c].(status := Ready, updatedAt := now) else s.tasks[c]
    }

    static lemma ScanStarts(s: Store, wanted: set<TaskId>, todo: set<TaskId>, now: int)
      requires todo <= s.tasks.Keys && wanted <= todo && forall c | c in wanted :: s.tasks[c].Waiting()
      ensures Scanning(s, wanted, todo, []) && Partly(s, s, Elements([]), now)
    {
      assert Elements([]) == {};
    }

    /** Candidate `c` is as it was, its dependencies look as they did, and waking it
        if it is wanted goes on with the scan. */
    static lemma ScanGoesOn(s: Store, s': Store, wanted: set<TaskId>, todo: set<TaskId>, found: seq<TaskId>,
                            now: int, c: TaskId)
      requires Scanning(s, wanted, todo, found) && Partly(s, s', Elements(found), now) && c in todo
      ensures c in s.tasks && c in s'.tasks && s'.tasks[c] == s.tasks[c]
      ensures s'.DepRowsFinished(c) <==> s.DepRowsFinished(c)
      ensures c in wanted ==>
        && Scanning(s, wanted, todo - {c}, found + [c])
        && Partly(s, s'.Put(c, s'.tasks[c].(status := Ready, updatedAt := now)), Elements(found + [c]), now)
      ensures c !in wanted ==> Scanning(s, wanted, todo - {c}, found)
    {
      assert c !in Elements(found);
      assert Elements(found + [c]) == Elements(found) + {c};
      forall d | d in s.tasks ensures s'.tasks[d].status == Finished <==> s.tasks[d].status == Finished {
      }
    }

    static lemma ScanEnds(s: Store, s': Store, wanted: set<TaskId>, found: seq<TaskId>, now: int)
      requires Scanning(s, wanted, {}, found) && Partly(s, s', Elements(found), now)
      ensures Elements(found) == wanted && Distinct(found) && s' == P.MakeReady(s, wanted, now)
    {
      assert s'.tasks == P.MakeReady(s, wanted, now).tasks;
    }

    method Complete(id: TaskId, lease: Option<LeaseId>, artifact: Option<string>, now: int) returns (o: Outcome)
      modifies this
      ensures (State(), o) == P.Complete(old(State()), id, lease, artifact, now)
    {
      if id !in tasks {
        return Denied(404);
      }
      var row := tasks[id];
      if !row.Active() || row.LeaseMismatch(lease) {
        return Denied(409);
      }
      var undecided := State().UndecidedGates(id);
      if undecided != {} {
        tasks := tasks[id := row.(status := WaitingReview, updatedAt := now)];
        return InReview(undecided);
      }
      tasks := tasks[id := row.(status := Finished, artifact := artifact, leaseExpiresAt := None, updatedAt := now)];
      var newlyReady := UnblockDependents(id, now);
      return Completed(Elements(newlyReady));
    }

    method Fail(id: TaskId, lease: Option<LeaseId>, now: int) returns (o: Outcome)
      modifies this
      ensures (State(), o) == P.Fail(old(State()), id, lease, now)
    {
      if id !in tasks {
        return Denied(404);
      }
      var row := tasks[id];
      if !row.Active() || row.LeaseMismatch(lease) {
        return Denied(409);
      }
      tasks := tasks[id := row.(status := Failed, leaseExpiresAt := None, updatedAt := now)];
      return Accepted;
    }

    method Cancel(id: TaskId, now: int) returns (o: Outcome)
      modifies this
      ensures (State(), o) == P.Cancel(old(State()), id, now)
    {
      if id !in tasks {
        return Denied(404);
      }
      if tasks[id].status == Finished || tasks[id].status == Cancelled {
        return Denied(409);
      }
      tasks := tasks[id := tasks[id].(status := Cancelled, updatedAt := now)];
      return Accepted;
    }

    method Retry(id: TaskId, now: int) returns (o: Outcome)
      modifies this
      ensures (State(), o) == P.Retry(old(State()), id, now)
    {
      if id !in tasks {
        return Denied(404);
      }
      var row := tasks[id];
      if row.status != Failed && row.status != Cancelled {
        return Denied(409);
      }
      tasks := tasks[id := row.(status := if row.dependsOn == [] then Ready else Pending,
                                claimedBy := None, leaseExpiresAt := None, updatedAt := now)];
      return Accepted;
    }

    method Block(id: TaskId, now: int) returns (o: Outcome)
      modifies this
      ensures (State(), o) == P.Block(old(State()), id, now)
    {
      if id !in tasks {
        return Denied(404);
      }
      tasks := tasks[id := tasks[id].(status := Blocked, updatedAt := now)];
      return Accepted;
    }

    method Unblock(id: TaskId, now: int) returns (o: Outcome)
      modifies this
      ensures (State(), o) == P.Unblock(old(State()), id, now)
    {
      if id !in tasks {
        return Denied(404);
      }
      SetReady(id, now);
      return Accepted;
    }

    method CreateGate(id: TaskId, subject: Subject) returns (o: Outcome)
      modifies this
      ensures (State(), o) == P.CreateGate(old(State()), id, subject)
    {
      if id !in tasks || tasks[id].createdBy != subject {
        return Denied(404);
      }
      var g := FreshId();
      gates := gates[g := Gate(subject, id, Undecided)];
      return Created(g);
    }

    method ResolveGate(id: TaskId, g: GateId, subject: Subject, decision: P.Decision, now: int) returns (o: Outcome)
      modifies this
      ensures (State(), o) == P.ResolveGate(old(State()), id, g, subject, decision, now)
    {
      if decision == P.Malformed {
        return Denied(422);
      }
      if g !in gates || gates[g].owner != subject || gates[g].task != id {
        return Denied(404);
      }
      gates := gates[g := gates[g].(status := if decision == P.Approve then Approved else Rejected)];
      if id in tasks && tasks[id].status == WaitingReview {
        if P.SomeGate(State(), id, Rejected) {
          tasks := tasks[id := tasks[id].(status := Failed, updatedAt := now)];
          return ReviewFailed;
        }
        if P.AllGatesPassed(State(), id) {
          tasks := tasks[id := tasks[id].(status := Finished, updatedAt := now)];
          var newlyReady := UnblockDependents(id, now);
          return Completed(Elements(newlyReady));
        }
      }
      return Accepted;
    }

    /** _expire_stale_leases. */
    method ExpireStaleLeases(kluster: KlusterId, now: int)
      modifies this`tasks
      ensures State() == P.ExpireKluster(old(State()), kluster, now)
    {
      var stale := set t | t in tasks && tasks[t].kluster == kluster && tasks[t].Stale(now);
      var todo := stale;
      while todo != {}
        invariant todo <= stale && tasks.Keys == old(tasks).Keys
        invariant forall t | t in tasks ::
          tasks[t] == if t in stale - todo
            then old(tasks)[t].(status := Ready, claimedBy := None, leaseExpiresAt := None, updatedAt := now)
            else old(tasks)[t]
      {
        var t :| t in todo;
        tasks := tasks[t := tasks[t].(status := Ready, claimedBy := None, leaseExpiresAt := None, updatedAt := now)];
        todo := todo - {t};
      }
    }

    /** The watchdog's tick; answers how many tasks it freed. */
    method WatchdogTick(now: int) returns (freed: nat)
      modifies this`tasks
      ensures State() == P.WatchdogTick(old(State()), now)
      ensures freed == |set t | t in old(tasks) && old(tasks)[t].Stale(now)|
    {
      hide P.WatchdogTick;
      ghost var before := State();
      var stale := set t | t in tasks && tasks[t].Stale(now);
      var todo := stale;
      freed := 0;
      while todo != {}
        invariant todo <= stale && tasks.Keys == old(tasks).Keys && freed + |todo| == |stale|
        invariant forall t | t in tasks ::
          tasks[t] == if t in stale - todo
            then old(tasks)[t].(status := Ready, claimedBy := None, leaseId := None,
                                leaseExpiresAt := None, updatedAt := now)
            else old(tasks)[t]
      {
        var t :| t in todo;
        tasks := tasks[t := tasks[t].(status := Ready, claimedBy := None, leaseId := None,
                                      leaseExpiresAt := None, updatedAt := now)];
        todo := todo - {t};
        freed := freed + 1;
      }
      SweepEnds(before, State(), stale, now);
    }

    static lemma SweepEnds(s: Store, s': Store, stale: set<TaskId>, now: int)
      requires stale == set t | t in s.tasks && s.tasks[t].Stale(now)
      requires s' == s.(tasks := s'.tasks) && s'.tasks.Keys == s.tasks.Keys
      requires forall t | t in s'.tasks :: s'.tasks[t] == if t in stale
        then s.tasks[t].(status := Ready, claimedBy := None, leaseId := None, leaseExpiresAt := None, updatedAt := now)
        else s.tasks[t]
      ensures s' == P.WatchdogTick(s, now)
    {
      assert s'.tasks == P.WatchdogTick(s, now).tasks;
    }

    /** The dispatcher's tick. */
    method DispatcherTick(now: int) returns (promoted: seq<TaskId>)
      modifies this`tasks
      ensures (State(), Elements(promoted)) == P.DispatcherTick(old(State()), now)
      ensures Distinct(promoted)
    {
      hide Partly, Scanning, Elements, Distinct, P.MakeReady;
      ghost var before := State();
      var candidates := set c | c in tasks && tasks[c].Waiting();
      ghost var all := candidates;
      promoted := [];
      ScanStarts(before, P.Promotable(before), candidates, now);
      while candidates != {}
        invariant candidates <= all && State() == before.(tasks := tasks)
        invariant Scanning(before, P.Promotable(before), candidates, promoted)
        invariant Partly(before, State(), Elements(promoted), now)
      {
        var c :| c in candidates;
        ScanGoesOn(before, State(), P.Promotable(before), candidates, promoted, now, c);
        candidates := candidates - {c};
        if tasks[c].dependsOn == [] || State().DepRowsFinished(c) {
          SetReady(c, now);
          promoted := promoted + [c];
        }
      }
      ScanEnds(before, State(), P.Promotable(before), promoted, now);
    }
  }
}
