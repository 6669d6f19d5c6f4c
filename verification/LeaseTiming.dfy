/** Lease expiry over whole runs: when exactly a held task is taken back. */
module LeaseTiming {
  import opened Model
  import opened Protocol
  import opened Rows
  import opened Invariants
  import opened Fencing
  import opened Review

  ghost predicate HeldAt(r: Run, n: nat, id: TaskId) {
    Exists(r, n, id) && RowAt(r, n, id).Exclusive() && RowAt(r, n, id).Held()
  }

  /** Step `k` renews the task's lease: a granted claim or an accepted heartbeat. */
  ghost predicate RenewsAt(r: Run, k: nat, id: TaskId) {
    && k < |r.events| && Exists(r, k, id)
    && var c := ChangeAt(r.states[k], r.events[k], id); c.Claim? || c.Renew?
  }

  /** Step `n` takes the task back from its holder. */
  ghost predicate ReclaimsAt(r: Run, n: nat, id: TaskId) {
    && n < |r.events| && Exists(r, n, id)
    && var c := ChangeAt(r.states[n], r.events[n], id); c.Lapse? || c.Reclaim?
  }

  /** A listing of the kluster, or a watchdog tick. */
  predicate Sweeps(e: Event, kluster: KlusterId) {
    e.WatchdogE? || (e.ListTasksE? && e.kluster == kluster)
  }

  lemma RenewalTimes(y: System, e: Event, id: TaskId)
    requires id in y.store.tasks
    ensures ChangeAt(y, e, id).Claim? || ChangeAt(y, e, id).Renew? ==> ChangeAt(y, e, id).now == e.now
    ensures ChangeAt(y, e, id).Lapse? || ChangeAt(y, e, id).Reclaim? <==>
      Sweeps(e, y.store.tasks[id].kluster) && y.store.tasks[id].Stale(e.now)
  {
  }

  /** The expiry of a held task is its last claim or heartbeat plus 120 seconds. */
  lemma {:induction false} ExpiryIsLastRenewal(r: Run, n: nat, id: TaskId) returns (k: nat)
    requires IsRun(r) && HeldAt(r, n, id)
    ensures k < n && RenewsAt(r, k, id)
    ensures RowAt(r, n, id).leaseExpiresAt == Some(r.events[k].now + LEASE_TTL_SECONDS)
    ensures forall m: nat | k < m < n :: HeldAt(r, m, id) && !RenewsAt(r, m, id)
  {
    hide Handle, Step, ChangeOf;
    if n == 0 {
      assert false;
    } else if !Exists(r, n - 1, id) {
      RowBorn(r, n - 1, id);
    } else {
      var c := RowStep(r, n - 1, id);
      RenewalTimes(r.states[n - 1], r.events[n - 1], id);
      if RenewsAt(r, n - 1, id) {
        k := n - 1;
      } else {
        k := ExpiryIsLastRenewal(r, n - 1, id);
      }
    }
  }

  ghost predicate MonotoneClock(r: Run) {
    forall i, j | 0 <= i < j < |r.events| :: r.events[i].now <= r.events[j].now
  }

  /** With a monotone clock, a step takes a held task back if and only if it is a
      sweep over the task's kluster and every claim or heartbeat of the task so
      far is more than 120 seconds old. */
  lemma ReclaimedIff(r: Run, n: nat, id: TaskId)
    requires IsRun(r) && MonotoneClock(r) && n < |r.events| && HeldAt(r, n, id)
    ensures ReclaimsAt(r, n, id) <==>
      && Sweeps(r.events[n], RowAt(r, n, id).kluster)
      && forall k | 0 <= k < n && RenewsAt(r, k, id) :: r.events[k].now + LEASE_TTL_SECONDS < r.events[n].now
  {
    hide Handle, Step, ChangeOf;
    var last := ExpiryIsLastRenewal(r, n, id);
    RenewalTimes(r.states[n], r.events[n], id);
    forall k: nat | k < n && RenewsAt(r, k, id) ensures r.events[k].now <= r.events[last].now {
      assert k <= last;
    }
  }

  /** A call that ends a hold if it is accepted. */
  predicate EndsHold(e: Event, id: TaskId) {
    (e.CompleteE? || e.FailE? || e.CancelE? || e.BlockE? || e.UnblockE?) && e.id == id
  }

  /** The holder of `lease` sends a heartbeat, with the lease or without one. */
  predicate SendsHeartbeat(e: Event, id: TaskId, lease: LeaseId) {
    e.HeartbeatE? && e.id == id && (e.lease == None || e.lease == Some(lease))
  }

  /** Within 120 seconds before each sweep of its kluster the holder was granted
      the task or sent a heartbeat. */
  ghost predicate Punctual(r: Run, g: nat, n: nat, id: TaskId, lease: LeaseId, kluster: KlusterId)
    requires IsRun(r) && n <= |r.events|
  {
    forall m: nat | g < m < n && Sweeps(r.events[m], kluster) ::
      exists k: nat :: g <= k < m && (k == g || SendsHeartbeat(r.events[k], id, lease))
        && r.events[m].now <= r.events[k].now + LEASE_TTL_SECONDS
  }

  /** Every call that would end the hold was refused. */
  ghost predicate Undisturbed(r: Run, g: nat, n: nat, id: TaskId)
    requires IsRun(r) && n <= |r.events|
  {
    forall m: nat | g < m < n && EndsHold(r.events[m], id) :: AnswerAt(r, m).Denied?
  }

  /** The holder `who` still has the task of this kluster under `lease`. */
  ghost predicate Keeps(r: Run, n: nat, id: TaskId, who: Subject, lease: LeaseId, kluster: KlusterId) {
    && HeldAt(r, n, id) && RowAt(r, n, id).leaseId == Some(lease)
    && RowAt(r, n, id).claimedBy == Some(who) && RowAt(r, n, id).kluster == kluster
  }

  /** The change takes the row from its holder by a call. */
  predicate GivesUp(c: Change) {
    c.Submit? || c.Finish? || c.GiveUp? || c.Drop? || c.Park? || c.Release?
  }

  lemma GivesUpOnCall(y: System, e: Event, id: TaskId)
    requires id in y.store.tasks && (EndsHold(e, id) ==> Answer(y, e).Denied?)
    ensures !GivesUp(ChangeAt(y, e, id))
  {
  }

  lemma HeldGoesOn(t: Task, c: Change)
    requires t.Held() && t.Exclusive() && c.From(t) && !GivesUp(c) && !c.Lapse? && !c.Reclaim?
    ensures c.To(t).Held() && c.To(t).Exclusive() && c.To(t).kluster == t.kluster
    ensures c.To(t).leaseId == t.leaseId && c.To(t).claimedBy == t.claimedBy
  {
  }

  lemma HoldGoesOn(r: Run, m: nat, n: nat, id: TaskId, who: Subject, lease: LeaseId, kluster: KlusterId)
    requires IsRun(r) && n == m + 1 <= |r.events| && Keeps(r, m, id, who, lease, kluster)
    requires EndsHold(r.events[m], id) ==> AnswerAt(r, m).Denied?
    requires !ReclaimsAt(r, m, id)
    ensures Keeps(r, n, id, who, lease, kluster)
  {
    hide Handle, Step, ChangeOf, GivesUp, Change.To, Change.From;
    var c := RowStep(r, m, id);
    GivesUpOnCall(r.states[m], r.events[m], id);
    HeldGoesOn(RowAt(r, m, id), c);
  }

  /** A heartbeat of the holder is accepted and renews. */
  lemma HeartbeatRenews(r: Run, k: nat, id: TaskId, who: Subject, lease: LeaseId, kluster: KlusterId)
    requires IsRun(r) && k < |r.events| && Keeps(r, k, id, who, lease, kluster)
    requires SendsHeartbeat(r.events[k], id, lease)
    ensures RenewsAt(r, k, id)
  {
  }

  lemma GrantStartsHold(r: Run, g: nat, id: TaskId)
    requires IsRun(r) && GrantAt(r, g, id)
    ensures Exists(r, g, id) && RenewsAt(r, g, id)
    ensures Keeps(r, g + 1, id, Claimer(r, g, id), AnswerAt(r, g).lease, RowAt(r, g, id).kluster)
  {
    GrantFound(r, g, id);
    var c := RowStep(r, g, id);
  }

  /** A punctual holder keeps the task, its name on it and its lease: whatever
      else happens, and whoever else calls, as long as every call that would end
      the hold is refused. */
  lemma {:induction false} PunctualHolderKeeps(r: Run, g: nat, n: nat, id: TaskId, lease: LeaseId, kluster: KlusterId)
    requires IsRun(r) && MonotoneClock(r) && GrantAt(r, g, id) && g < n < |r.states|
    requires Exists(r, g, id) && lease == AnswerAt(r, g).lease && kluster == RowAt(r, g, id).kluster
    requires Punctual(r, g, n, id, lease, kluster) && Undisturbed(r, g, n, id)
    ensures Keeps(r, n, id, Claimer(r, g, id), lease, kluster)
    decreases n
  {
    hide Handle, Step, ChangeOf, Punctual, Keeps, HeldAt, GrantAt, Claimer;
    GrantStartsHold(r, g, id);
    var who := Claimer(r, g, id);
    if n > g + 1 {
      var m := n - 1;
      ShorterSpan(r, g, m, n, id, lease, kluster);
      PunctualHolderKeeps(r, g, m, id, lease, kluster);
      if Sweeps(r.events[m], kluster) {
        var k := LastCall(r, g, m, n, id, lease, kluster);
        if k > g {
          ShorterSpan(r, g, k, n, id, lease, kluster);
          PunctualHolderKeeps(r, g, k, id, lease, kluster);
          HeartbeatRenews(r, k, id, who, lease, kluster);
        }
        NotReclaimed(r, m, id, k, who, lease, kluster);
      } else {
        NotSwept(r, m, id, who, lease, kluster);
      }
      HoldGoesOn(r, m, n, id, who, lease, kluster);
    }
  }

  /** Nobody overrides or cancels the task, and every completion or failure of it
      presents some other lease. */
  ghost predicate OnlyOthersCall(r: Run, g: nat, n: nat, id: TaskId, lease: LeaseId)
    requires IsRun(r) && n <= |r.events|
  {
    forall m: nat | g < m < n && EndsHold(r.events[m], id) ::
      (r.events[m].CompleteE? || r.events[m].FailE?) && r.events[m].lease.Some? && r.events[m].lease != Some(lease)
  }

  lemma OtherIsRefused(r: Run, m: nat, id: TaskId, who: Subject, lease: LeaseId, kluster: KlusterId)
    requires IsRun(r) && m < |r.events| && Keeps(r, m, id, who, lease, kluster)
    requires HolderCall(r.events[m], id) && r.events[m].lease.Some? && r.events[m].lease != Some(lease)
    ensures AnswerAt(r, m).Denied?
  {
    hide Handle, Step;
    AnswersLease(r.states[m].store, r.events[m], id);
  }

  /** Fencing at work: against callers with other leases a holder that sends its
      heartbeats in time keeps the task, whatever they try. */
  lemma {:induction false} HolderIsFenced(r: Run, g: nat, n: nat, id: TaskId, lease: LeaseId, kluster: KlusterId)
    requires IsRun(r) && MonotoneClock(r) && GrantAt(r, g, id) && g < n < |r.states|
    requires Exists(r, g, id) && lease == AnswerAt(r, g).lease && kluster == RowAt(r, g, id).kluster
    requires Punctual(r, g, n, id, lease, kluster) && OnlyOthersCall(r, g, n, id, lease)
    ensures Undisturbed(r, g, n, id) && Keeps(r, n, id, Claimer(r, g, id), lease, kluster)
    decreases n
  {
    hide Handle, Step, ChangeOf, Punctual, Keeps, HeldAt, GrantAt, Claimer;
    if n > g + 1 {
      var m := n - 1;
      PunctualBefore(r, g, m, n, id, lease, kluster);
      HolderIsFenced(r, g, m, id, lease, kluster);
      if EndsHold(r.events[m], id) {
        OtherIsRefused(r, m, id, Claimer(r, g, id), lease, kluster);
      }
    }
    PunctualHolderKeeps(r, g, n, id, lease, kluster);
  }

  lemma PunctualBefore(r: Run, g: nat, m: nat, n: nat, id: TaskId, lease: LeaseId, kluster: KlusterId)
    requires IsRun(r) && m <= n <= |r.events| && Punctual(r, g, n, id, lease, kluster)
    ensures Punctual(r, g, m, id, lease, kluster)
  {
    hide Handle, Step, ChangeOf;
  }

  lemma ShorterSpan(r: Run, g: nat, m: nat, n: nat, id: TaskId, lease: LeaseId, kluster: KlusterId)
    requires IsRun(r) && m <= n <= |r.events| && Punctual(r, g, n, id, lease, kluster) && Undisturbed(r, g, n, id)
    ensures Punctual(r, g, m, id, lease, kluster) && Undisturbed(r, g, m, id)
  {
    hide Handle, Step, ChangeOf;
    PunctualBefore(r, g, m, n, id, lease, kluster);
  }

  lemma LastCall(r: Run, g: nat, m: nat, n: nat, id: TaskId, lease: LeaseId, kluster: KlusterId) returns (k: nat)
    requires IsRun(r) && g < m < n <= |r.events| && Punctual(r, g, n, id, lease, kluster)
    requires Sweeps(r.events[m], kluster)
    ensures g <= k < m && (k == g || SendsHeartbeat(r.events[k], id, lease))
    ensures r.events[m].now <= r.events[k].now + LEASE_TTL_SECONDS
  {
    k :| g <= k < m && (k == g || SendsHeartbeat(r.events[k], id, lease))
      && r.events[m].now <= r.events[k].now + LEASE_TTL_SECONDS;
  }

  lemma NotReclaimed(r: Run, m: nat, id: TaskId, k: nat, who: Subject, lease: LeaseId, kluster: KlusterId)
    requires IsRun(r) && MonotoneClock(r) && m < |r.events| && Keeps(r, m, id, who, lease, kluster)
    requires k < m && RenewsAt(r, k, id) && r.events[m].now <= r.events[k].now + LEASE_TTL_SECONDS
    ensures !ReclaimsAt(r, m, id)
  {
    hide Handle, Step, ChangeOf;
    ReclaimedIff(r, m, id);
  }

  lemma NotSwept(r: Run, m: nat, id: TaskId, who: Subject, lease: LeaseId, kluster: KlusterId)
    requires IsRun(r) && m < |r.events| && Keeps(r, m, id, who, lease, kluster) && !Sweeps(r.events[m], kluster)
    ensures !ReclaimsAt(r, m, id)
  {
    hide Handle, Step, ChangeOf;
    RenewalTimes(r.states[m], r.events[m], id);
  }

  /** After a sweep at `now` no exclusive held task it covers has an expiry
      before `now`; rows it does not cover, broadcast rows and rows with time
      left are as they were; what it takes back is ready and unowned. */
  lemma SweepExact(r: Run, n: nat, id: TaskId)
    requires IsRun(r) && n < |r.events| && Exists(r, n, id)
    requires r.events[n].WatchdogE? || r.events[n].ListTasksE?
    ensures Exists(r, n + 1, id)
    ensures var a, b, now := RowAt(r, n, id), RowAt(r, n + 1, id), r.events[n].now;
      && (Sweeps(r.events[n], b.kluster) ==> !b.Stale(now))
      && (!Sweeps(r.events[n], a.kluster) || !a.Exclusive() ==> b == a)
      && (a.Held() && a.leaseExpiresAt.Some? && now <= a.leaseExpiresAt.value ==> b == a)
      && (b != a ==> b.status == Ready && b.claimedBy == None && b.version == a.version && a.Held())
  {
    var c := RowStep(r, n, id);
    RenewalTimes(r.states[n], r.events[n], id);
  }

  /** A held exclusive task has an owner, a lease and an expiry. */
  lemma HeldHasFields(r: Run, n: nat, id: TaskId)
    requires IsRun(r) && HeldAt(r, n, id)
    ensures RowAt(r, n, id).claimedBy.Some? && RowAt(r, n, id).leaseId.Some? && RowAt(r, n, id).leaseExpiresAt.Some?
  {
    RunSound(r, n);
    assert ClaimFields(RowAt(r, n, id));
  }

  /** Step `k` is a watchdog tick that takes the task back. */
  ghost predicate WatchdogTakes(r: Run, k: nat, id: TaskId) {
    && k < |r.events| && r.events[k].WatchdogE?
    && Exists(r, k, id) && RowAt(r, k, id).Stale(r.events[k].now)
  }

  lemma LeaseMoves(r: Run, n: nat, id: TaskId)
    requires IsRun(r) && n < |r.events| && Exists(r, n, id)
    ensures Exists(r, n + 1, id)
    ensures RowAt(r, n + 1, id).leaseId ==
      if GrantAt(r, n, id) then Some(AnswerAt(r, n).lease)
      else if WatchdogTakes(r, n, id) then None
      else RowAt(r, n, id).leaseId
  {
    var c := RowStep(r, n, id);
    assert c.Reclaim? <==> WatchdogTakes(r, n, id);
  }

  /** Granted at step `g`, and not taken by the watchdog since. */
  ghost predicate LeaseLeft(r: Run, g: nat, n: nat, id: TaskId)
    requires IsRun(r)
  {
    g < n && GrantAt(r, g, id) && forall k | g < k < n :: !WatchdogTakes(r, k, id)
  }

  ghost predicate LeaseStands(r: Run, n: nat, id: TaskId)
    requires IsRun(r)
  {
    exists g :: LeaseLeft(r, g, n, id)
  }

  /** A row carries a lease exactly when a claim of it was granted and no watchdog
      tick has taken it back since; nothing else clears the column. */
  lemma {:induction false} LeaseIdIff(r: Run, n: nat, id: TaskId)
    requires IsRun(r) && Exists(r, n, id)
    ensures RowAt(r, n, id).leaseId.Some? <==> LeaseStands(r, n, id)
  {
    hide Handle, Step, ChangeOf, GrantAt, WatchdogTakes;
    if n == 0 {
      assert false;
    } else if !Exists(r, n - 1, id) {
      RowBorn(r, n - 1, id);
      forall g | LeaseLeft(r, g, n, id) ensures false {
        GrantFound(r, g, id);
        RowLives(r, g, n - 1, id);
      }
    } else {
      LeaseIdIff(r, n - 1, id);
      LeaseMoves(r, n - 1, id);
      LeaseStandsMore(r, n, id);
    }
  }

  lemma LeaseStandsMore(r: Run, n: nat, id: TaskId)
    requires IsRun(r) && 0 < n < |r.states|
    ensures LeaseStands(r, n, id) <==>
      GrantAt(r, n - 1, id) || (LeaseStands(r, n - 1, id) && !WatchdogTakes(r, n - 1, id))
  {
    hide Handle, Step, ChangeOf, GrantAt, WatchdogTakes;
    if GrantAt(r, n - 1, id) {
      assert LeaseLeft(r, n - 1, n, id);
    } else if LeaseStands(r, n - 1, id) && !WatchdogTakes(r, n - 1, id) {
      var g :| LeaseLeft(r, g, n - 1, id);
      assert LeaseLeft(r, g, n, id);
    }
    forall g: nat | g < n - 1 && LeaseLeft(r, g, n, id) ensures LeaseLeft(r, g, n - 1, id) {
    }
  }

  /** A listing takes an expired task back; its old lease stays on the row and its
      version does not move. */
  lemma LapsedKeepsLease() returns (r: Run)
    ensures IsRun(r)
    ensures Last(r).store == Store(
      map[0 := Task(0, [], FirstClaim, Ready, None, Some(1), None, 1, None, "ann", 200)], map[], [], 2)
  {
    r := OneClaim();
    r := Then(r, ListTasksE(0, 200));
  }

  /** The swept task is claimed again. */
  lemma EveClaims() returns (r: Run)
    ensures IsRun(r)
    ensures Last(r).store == Store(
      map[0 := Task(0, [], FirstClaim, Claimed, Some("eve"), Some(2), Some(321), 2, None, "ann", 201)], map[], [], 3)
  {
    r := LapsedKeepsLease();
    r := Then(r, BeginClaimE(7, 0, "eve", 201));
    assert Last(r).inFlight[7] == Snapshot(0, 1, "eve");
    r := Then(r, CommitClaimE(7, false, 201));
  }

  /** A call without a lease finishes the task under its new holder. */
  lemma LeaselessFinishes() returns (r: Run, n: nat)
    ensures IsRun(r) && n + 1 == |r.events| && r.events[n] == CompleteE(0, None, None, 202)
    ensures HeldAt(r, n, 0) && RowAt(r, n, 0).claimedBy == Some("eve") && RowAt(r, n, 0).leaseId == Some(2)
    ensures Exists(r, n + 1, 0) && RowAt(r, n + 1, 0).status == Finished
  {
    r := EveClaims();
    n := |r.events|;
    assert Last(r).store.UndecidedGates(0) == {};
    r := Then(r, CompleteE(0, None, None, 202));
  }

  /** What is meant to hold of the claim columns: a held row has an owner and a lease. */
  predicate ClaimInvariant(t: Task) {
    t.Held() ==> t.claimedBy.Some? && t.leaseId.Some?
  }

  /** The invariant is kept by exactly the rows that are not a running broadcast. */
  lemma ClaimInvariantIff(r: Run, n: nat, id: TaskId)
    requires IsRun(r) && Exists(r, n, id)
    ensures ClaimInvariant(RowAt(r, n, id)) <==> RowAt(r, n, id).Exclusive() || RowAt(r, n, id).status != Running
  {
    RunSound(r, n);
    assert ClaimFields(RowAt(r, n, id));
  }

  /** A broadcast claim leaves a row that breaks the invariant. */
  lemma BroadcastBreaksInvariant() returns (r: Run)
    ensures IsRun(r) && Exists(r, |r.events|, 0) && !ClaimInvariant(RowAt(r, |r.events|, 0))
  {
    r := Run([INITIAL], []);
    r := Then(r, CreateTaskE("ann", 0, true, [], Broadcast, 0));
    assert r.states[1].store.tasks == map[0 := NewTask(0, [], Broadcast, Ready, "ann", 0)];
    r := Then(r, BeginClaimE(0, 0, "bot", 1));
  }
}
