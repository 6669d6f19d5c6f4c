/** Claims and leases over whole runs, with every override allowed: one holder
    at a time, one claim per version, and leases that work as fencing tokens. */
module Fencing {
  import opened Model
  import opened Protocol
  import opened Rows
  import opened Invariants

  ghost predicate Exists(r: Run, n: nat, id: TaskId) {
    n < |r.states| && id in r.states[n].store.tasks
  }

  ghost function RowAt(r: Run, n: nat, id: TaskId): Task
    requires Exists(r, n, id)
  {
    r.states[n].store.tasks[id]
  }

  /** Step `i` grants an exclusive claim on the task. */
  ghost predicate GrantAt(r: Run, i: nat, id: TaskId)
    requires IsRun(r)
  {
    i < |r.events| && AnswerAt(r, i).Granted? && AnswerAt(r, i).task == id
  }

  ghost predicate ActiveAt(r: Run, n: nat, id: TaskId) {
    Exists(r, n, id) && RowAt(r, n, id).Active()
  }

  /** `g` is the latest grant before state `n` and the task stayed in claimed,
      running or waiting_review ever since. */
  ghost predicate HeldSince(r: Run, id: TaskId, g: nat, n: nat)
    requires IsRun(r)
  {
    && g < n && GrantAt(r, g, id)
    && (forall k | g < k < n :: !GrantAt(r, k, id))
    && (forall k | g < k <= n :: ActiveAt(r, k, id))
  }

  /** One step of a run, seen from one row. */
  lemma RowStep(r: Run, n: nat, id: TaskId) returns (c: Change)
    requires IsRun(r) && n < |r.events| && Exists(r, n, id)
    ensures Sound(r.states[n]) && Exists(r, n + 1, id)
    ensures c == ChangeAt(r.states[n], r.events[n], id)
    ensures c.From(RowAt(r, n, id)) && RowAt(r, n + 1, id) == c.To(RowAt(r, n, id))
    ensures c.Claim? <==> GrantAt(r, n, id)
    ensures c.Claim? ==> RowAt(r, n, id).Exclusive() && c.lease == AnswerAt(r, n).lease
    ensures c.Claim? ==> c.lease == r.states[n].store.nextId < r.states[n + 1].store.nextId
    ensures c.Claim? ==> AnswerAt(r, n).version == RowAt(r, n, id).version + 1 && c.subject == Claimer(r, n, id)
  {
    var y, e := r.states[n], r.events[n];
    RunSound(r, n);
    StepRow(y, e, id);
    c := ChangeAt(y, e, id);
    GrantIsClaim(y.store, e, Committing(y, e), id);
  }

  lemma GrantIsClaim(s: Store, e: Event, snap: Option<Snapshot>, id: TaskId)
    requires id in s.tasks
    ensures
      var o := Handle(s, e, snap).1;
      var c := ChangeOf(s, e, o, snap, id);
      && (c.Claim? <==> o.Granted? && o.task == id)
      && (c.Claim? ==>
            && snap.Some? && snap.value.task == id && e.CommitClaimE?
            && c.subject == snap.value.subject
            && c.lease == o.lease == s.nextId < Handle(s, e, snap).0.nextId
            && o.version == s.tasks[id].version + 1)
  {
  }

  /** A row that is not in a state appears in the next one only newly made. */
  lemma RowBorn(r: Run, n: nat, id: TaskId)
    requires IsRun(r) && n < |r.events| && !Exists(r, n, id) && Exists(r, n + 1, id)
    ensures Newborn(RowAt(r, n + 1, id)) && !GrantAt(r, n, id)
  {
    var y, e := r.states[n], r.events[n];
    HandleGrows(y.store, e, Committing(y, e));
    GrantNeedsRow(y.store, e, Committing(y, e), id);
  }

  lemma GrantNeedsRow(s: Store, e: Event, snap: Option<Snapshot>, id: TaskId)
    requires id !in s.tasks
    ensures var o := Handle(s, e, snap).1; !(o.Granted? && o.task == id)
  {
  }

  /** Without a claim an exclusive row is in work only if it was, under the same lease. */
  lemma OnlyClaimsActivate(t: Task, c: Change)
    requires c.From(t) && !c.Claim? && c.To(t).Active() && c.To(t).Exclusive()
    ensures t.Active() && t.Exclusive() && t.leaseId == c.To(t).leaseId && t.claimedBy == c.To(t).claimedBy
  {
  }

  lemma ClaimActivates(t: Task, c: Change)
    requires c.Claim?
    ensures c.To(t).leaseId == Some(c.lease) && c.To(t).claimedBy == Some(c.subject)
  {
  }

  /** Who asked for the claim that step `g` granted. */
  ghost function Claimer(r: Run, g: nat, id: TaskId): Subject
    requires IsRun(r) && GrantAt(r, g, id)
  {
    GrantCommits(r, g, id);
    r.states[g].inFlight[r.events[g].req].subject
  }

  /** An exclusive task in work was claimed, has been in work ever since, and
      its row carries the lease and the name of that claim. */
  lemma {:induction false} ActiveIsHeld(r: Run, n: nat, id: TaskId) returns (g: nat)
    requires IsRun(r) && ActiveAt(r, n, id) && RowAt(r, n, id).Exclusive()
    ensures HeldSince(r, id, g, n)
    ensures RowAt(r, n, id).leaseId == Some(AnswerAt(r, g).lease)
    ensures RowAt(r, n, id).claimedBy == Some(Claimer(r, g, id))
  {
    hide Handle, Step, ChangeOf, Change.To, Change.From, Claimer;
    if n == 0 {
      assert false;
    } else if !Exists(r, n - 1, id) {
      RowBorn(r, n - 1, id);
    } else {
      var c := RowStep(r, n - 1, id);
      if c.Claim? {
        ClaimActivates(RowAt(r, n - 1, id), c);
        g := n - 1;
      } else {
        OnlyClaimsActivate(RowAt(r, n - 1, id), c);
        g := ActiveIsHeld(r, n - 1, id);
      }
    }
  }

  lemma LatestGrantUnique(r: Run, id: TaskId, g: nat, h: nat, n: nat)
    requires IsRun(r) && HeldSince(r, id, g, n) && HeldSince(r, id, h, n)
    ensures g == h
  {
  }

  /** A heartbeat, a completion or a failure report: the calls a lease fences. */
  predicate HolderCall(e: Event, id: TaskId) {
    (e.HeartbeatE? || e.CompleteE? || e.FailE?) && e.id == id
  }

  /** The task's status admits the call. */
  predicate InPlay(e: Event, t: Task) {
    if e.HeartbeatE? then t.Held() else t.Active()
  }

  /** Lease fencing, exactly: a holder's call is accepted if and only if the
      status admits it and, when it presents a lease for an exclusive task, that
      lease came from the latest claim and the task has been in work ever since;
      refused, it changes nothing. A call without a lease, or on a broadcast
      task, is not fenced. */
  lemma LeasesFence(r: Run, n: nat, id: TaskId)
    requires IsRun(r) && n < |r.events| && HolderCall(r.events[n], id) && Exists(r, n, id)
    ensures !AnswerAt(r, n).Denied? <==>
      && InPlay(r.events[n], RowAt(r, n, id))
      && (r.events[n].lease.Some? && RowAt(r, n, id).Exclusive() ==>
            exists g :: HeldSince(r, id, g, n) && AnswerAt(r, g).lease == r.events[n].lease.value)
    ensures AnswerAt(r, n).Denied? ==> r.states[n + 1] == r.states[n]
  {
    RunSound(r, n);
    assert ClaimFields(RowAt(r, n, id));
    AnswersLease(r.states[n].store, r.events[n], id);
    if ActiveAt(r, n, id) && RowAt(r, n, id).Exclusive() {
      var g := ActiveIsHeld(r, n, id);
      forall h | HeldSince(r, id, h, n) ensures h == g {
        LatestGrantUnique(r, id, g, h, n);
      }
    }
    if AnswerAt(r, n).Denied? {
      DeniedChangesNothing(r.states[n], r.events[n]);
    }
  }

  lemma AnswersLease(s: Store, e: Event, id: TaskId)
    requires HolderCall(e, id) && id in s.tasks
    ensures !Handle(s, e, None).1.Denied? <==> InPlay(e, s.tasks[id]) && !s.tasks[id].LeaseMismatch(e.lease)
  {
  }

  /** A refused request leaves the store as it was. */
  lemma DeniedChangesNothing(y: System, e: Event)
    requires Answer(y, e).Denied?
    ensures Step(y, e).store == y.store
    ensures !e.BeginClaimE? && !e.CommitClaimE? ==> Step(y, e) == y
  {
  }

  /** Leases are never reissued, for any task. */
  lemma LeasesRise(r: Run, i: nat, j: nat, a: TaskId, b: TaskId)
    requires IsRun(r) && i < j && GrantAt(r, i, a) && GrantAt(r, j, b)
    ensures AnswerAt(r, i).lease < AnswerAt(r, j).lease
  {
    GrantFound(r, i, a);
    GrantFound(r, j, b);
    SupplyRises(r, i + 1, j);
  }

  lemma GrantFound(r: Run, i: nat, id: TaskId)
    requires IsRun(r) && GrantAt(r, i, id)
    ensures Exists(r, i, id) && RowAt(r, i, id).status == Ready && RowAt(r, i, id).Exclusive()
    ensures AnswerAt(r, i).lease == r.states[i].store.nextId < r.states[i + 1].store.nextId
    ensures AnswerAt(r, i).version == RowAt(r, i, id).version + 1
  {
    if !Exists(r, i, id) {
      GrantNeedsRow(r.states[i].store, r.events[i], Committing(r.states[i], r.events[i]), id);
    } else {
      var c := RowStep(r, i, id);
    }
  }

  lemma {:induction false} SupplyRises(r: Run, i: nat, j: nat)
    requires IsRun(r) && i <= j < |r.states|
    ensures r.states[i].store.nextId <= r.states[j].store.nextId
    decreases j
  {
    if i < j {
      SupplyRises(r, i, j - 1);
      var y, e := r.states[j - 1], r.events[j - 1];
      HandleGrows(y.store, e, Committing(y, e));
    }
  }

  lemma {:induction false} RowLives(r: Run, i: nat, j: nat, id: TaskId)
    requires IsRun(r) && i <= j < |r.states| && Exists(r, i, id)
    ensures Exists(r, j, id) && RowAt(r, j, id).policy == RowAt(r, i, id).policy
    decreases j
  {
    if i < j {
      RowLives(r, i, j - 1, id);
      var c := RowStep(r, j - 1, id);
    }
  }

  /** A lease is dead for good once its task has left work or been claimed anew. */
  lemma StaleLeaseRefused(r: Run, g: nat, k: nat, n: nat, id: TaskId)
    requires IsRun(r) && GrantAt(r, g, id) && g < k <= n < |r.events|
    requires !ActiveAt(r, k, id) || (k < n && GrantAt(r, k, id))
    requires HolderCall(r.events[n], id) && r.events[n].lease == Some(AnswerAt(r, g).lease)
    ensures AnswerAt(r, n).Denied? && r.states[n + 1] == r.states[n]
  {
    hide Handle, Step, ChangeOf;
    GrantFound(r, g, id);
    RowLives(r, g, n, id);
    LeasesFence(r, n, id);
    if !AnswerAt(r, n).Denied? {
      var h: nat :| HeldSince(r, id, h, n) && AnswerAt(r, h).lease == AnswerAt(r, g).lease;
      if h < g {
        LeasesRise(r, h, g, id, id);
      } else if g < h {
        LeasesRise(r, g, h, id, id);
      }
    }
  }

  /** How many exclusive claims on the task the first `n` steps granted. */
  ghost function Grants(r: Run, id: TaskId, n: nat): nat
    requires IsRun(r) && n <= |r.events|
  {
    if n == 0 then 0 else Grants(r, id, n - 1) + if GrantAt(r, n - 1, id) then 1 else 0
  }

  /** The version counter counts the successful exclusive claims. */
  lemma {:induction false} VersionCountsGrants(r: Run, id: TaskId, n: nat)
    requires IsRun(r) && n < |r.states|
    ensures Exists(r, n, id) ==> RowAt(r, n, id).version == Grants(r, id, n)
    ensures !Exists(r, n, id) ==> Grants(r, id, n) == 0
  {
    if n > 0 {
      VersionCountsGrants(r, id, n - 1);
      if Exists(r, n - 1, id) {
        var c := RowStep(r, n - 1, id);
      } else if Exists(r, n, id) {
        RowBorn(r, n - 1, id);
      } else {
        GrantNeedsRow(r.states[n - 1].store, r.events[n - 1], Committing(r.states[n - 1], r.events[n - 1]), id);
      }
    } else {
      assert r.states[0] == INITIAL;
    }
  }

  lemma {:induction false} GrantsRise(r: Run, id: TaskId, i: nat, j: nat)
    requires IsRun(r) && i <= j <= |r.events|
    ensures Grants(r, id, i) <= Grants(r, id, j)
    decreases j
  {
    if i < j {
      GrantsRise(r, id, i, j - 1);
    }
  }

  /** Step `k` takes the task out of work. */
  ghost predicate LeavesWork(r: Run, k: nat, id: TaskId) {
    ActiveAt(r, k, id) && k + 1 < |r.states| && !ActiveAt(r, k + 1, id)
  }

  lemma {:induction false} WorkEnds(r: Run, i: nat, j: nat, id: TaskId) returns (k: nat)
    requires IsRun(r) && i < j < |r.states| && ActiveAt(r, i, id) && !ActiveAt(r, j, id)
    ensures i <= k < j && LeavesWork(r, k, id)
    decreases j
  {
    if ActiveAt(r, j - 1, id) {
      k := j - 1;
    } else {
      k := WorkEnds(r, i, j - 1, id);
    }
  }

  /** Claim mutual exclusion, under any interleaving of reads and commits by any
      number of claimers: a claim is granted only on a ready task; two granted
      claims of a task won different versions, from reads of different versions,
      with different leases; and between them the task left work. */
  lemma ClaimsExclude(r: Run, i: nat, j: nat, id: TaskId) returns (k: nat)
    requires IsRun(r) && i < j && GrantAt(r, i, id) && GrantAt(r, j, id)
    ensures RowAt(r, i, id).status == Ready && RowAt(r, j, id).status == Ready
    ensures AnswerAt(r, i).version == Grants(r, id, i + 1)
    ensures AnswerAt(r, i).version < AnswerAt(r, j).version
    ensures AnswerAt(r, i).lease < AnswerAt(r, j).lease
    ensures r.events[i].CommitClaimE? && r.events[j].CommitClaimE?
    ensures r.events[i].req in r.states[i].inFlight && r.events[j].req in r.states[j].inFlight
    ensures r.states[i].inFlight[r.events[i].req].version < r.states[j].inFlight[r.events[j].req].version
    ensures i < k < j && LeavesWork(r, k, id)
  {
    hide Handle, Step, ChangeOf;
    GrantFound(r, i, id);
    GrantFound(r, j, id);
    VersionCountsGrants(r, id, i);
    VersionCountsGrants(r, id, j);
    GrantsRise(r, id, i + 1, j);
    LeasesRise(r, i, j, id, id);
    GrantCommits(r, i, id);
    GrantCommits(r, j, id);
    var c := RowStep(r, i, id);
    k := WorkEnds(r, i + 1, j, id);
  }

  lemma GrantCommits(r: Run, i: nat, id: TaskId)
    requires IsRun(r) && GrantAt(r, i, id)
    ensures r.events[i].CommitClaimE? && r.events[i].req in r.states[i].inFlight
    ensures r.states[i].inFlight[r.events[i].req].version + 1 == AnswerAt(r, i).version
  {
  }

  /** The event reads for request `q` anew or commits it. */
  predicate Handles(e: Event, q: RequestId) {
    (e.BeginClaimE? || e.CommitClaimE?) && e.req == q
  }

  /** Step `b` is the request's latest read: none later, and no commit, before `n`. */
  ghost predicate LatestRead(r: Run, b: nat, n: nat, q: RequestId) {
    && b < n <= |r.events| && r.events[b].BeginClaimE? && r.events[b].req == q
    && forall k | b < k < n :: !Handles(r.events[k], q)
  }

  /** What a claim in flight remembers is what its latest read found: no later
      read or commit of the request replaced it. */
  lemma {:induction false} SnapshotWasRead(r: Run, n: nat, q: RequestId) returns (b: nat)
    requires IsRun(r) && n < |r.states| && q in r.states[n].inFlight
    ensures LatestRead(r, b, n, q)
    ensures var snap := r.states[n].inFlight[q];
      && r.events[b].id == snap.task && r.events[b].subject == snap.subject
      && Exists(r, b, snap.task) && RowAt(r, b, snap.task).version == snap.version
    decreases n
  {
    if n == 0 {
      assert false;
    } else {
      var y, e := r.states[n - 1], r.events[n - 1];
      if e.BeginClaimE? && e.req == q {
        b := n - 1;
      } else {
        b := SnapshotWasRead(r, n - 1, q);
      }
    }
  }

  lemma {:induction false} NoGrantsBetween(r: Run, id: TaskId, b: nat, n: nat)
    requires IsRun(r) && b <= n <= |r.events|
    ensures Grants(r, id, b) == Grants(r, id, n) <==> forall k | b <= k < n :: !GrantAt(r, k, id)
    decreases n
  {
    hide Handle, Step, ChangeOf;
    if b < n {
      NoGrantsBetween(r, id, b, n - 1);
      GrantsRise(r, id, b, n - 1);
    }
  }

  /** The compare-and-swap, exactly: a commit is granted if and only if the row is
      not locked, the task is ready, and no claim of the task was granted since
      the claimer's own latest read, whatever else happened in between. */
  lemma CommitIff(r: Run, n: nat) returns (b: nat)
    requires IsRun(r) && n < |r.events| && r.events[n].CommitClaimE? && r.events[n].req in r.states[n].inFlight
    ensures var id := r.states[n].inFlight[r.events[n].req].task;
      && LatestRead(r, b, n, r.events[n].req) && r.events[b].id == id && Exists(r, n, id)
      && (AnswerAt(r, n).Granted? <==>
            && !r.events[n].rowLocked && RowAt(r, n, id).status == Ready
            && forall k | b <= k < n :: !GrantAt(r, k, id))
  {
    var y, e := r.states[n], r.events[n];
    var snap := y.inFlight[e.req];
    RunSound(r, n);
    b := SnapshotWasRead(r, n, e.req);
    VersionCountsGrants(r, snap.task, b);
    VersionCountsGrants(r, snap.task, n);
    NoGrantsBetween(r, snap.task, b, n);
  }

  /** On a database that serialises claims, where the commit follows its read
      at once, a claim is granted if and only if the task is ready, and the
      compare-and-swap never fails. */
  lemma SerialClaim(r: Run, n: nat, id: TaskId)
    requires IsRun(r) && n + 1 < |r.events| && Exists(r, n, id) && RowAt(r, n, id).Exclusive()
    requires r.events[n].BeginClaimE? && r.events[n].id == id
    requires r.events[n + 1] == CommitClaimE(r.events[n].req, false, r.events[n + 1].now)
    ensures AnswerAt(r, n + 1).Granted? <==> RowAt(r, n, id).status == Ready
    ensures !AnswerAt(r, n + 1).Granted? ==>
      AnswerAt(r, n + 1) == Denied(423) && r.states[n + 2].store == r.states[n].store
  {
    var y := r.states[n + 1];
    assert y == Step(r.states[n], r.events[n]);
    assert r.states[n + 2] == Step(y, r.events[n + 1]);
    assert y.inFlight[r.events[n].req] == Snapshot(id, RowAt(r, n, id).version, r.events[n].subject);
  }
}
