/** The progress log over whole runs: each task's events are numbered 0, 1, 2, …
    in the order they came, and a replay from a number is exactly the rest. */
module ProgressLog {
  import opened Model
  import opened Protocol
  import opened Rows
  import opened Fencing
  import opened Review

  /** The events of one task, in the order they were appended. */
  function OfTask(log: seq<Progress>, id: TaskId): seq<Progress> {
    if log == [] then []
    else
      var p := log[|log| - 1];
      OfTask(log[..|log| - 1], id) + if p.task == id then [p] else []
  }

  ghost predicate Numbered(log: seq<Progress>) {
    forall id, k | 0 <= k < |OfTask(log, id)| :: OfTask(log, id)[k].seqNo == k
  }

  lemma {:induction false} OfTaskExact(log: seq<Progress>, id: TaskId)
    ensures forall p :: p in OfTask(log, id) <==> p in log && p.task == id
  {
    if log != [] {
      OfTaskExact(log[..|log| - 1], id);
      assert log == log[..|log| - 1] + [log[|log| - 1]];
    }
  }

  /** In a numbered log the next number of a task is how many events it has. */
  lemma NextSeqCounts(log: seq<Progress>, id: TaskId)
    requires Numbered(log)
    ensures NextSeq(log, id) == |OfTask(log, id)|
  {
    var mine, n := OfTask(log, id), NextSeq(log, id);
    OfTaskExact(log, id);
    if mine != [] {
      assert mine[|mine| - 1] in mine && mine[|mine| - 1].seqNo == |mine| - 1;
    }
    if n > 0 {
      var p :| p in log && p.task == id && p.seqNo == n - 1;
      assert p in mine;
    }
  }

  lemma OfTaskAppend(log: seq<Progress>, p: Progress, id: TaskId)
    ensures OfTask(log + [p], id) == OfTask(log, id) + if p.task == id then [p] else []
  {
    assert (log + [p])[..|log|] == log;
  }

  lemma AppendNumbered(log: seq<Progress>, p: Progress)
    requires Numbered(log) && p.seqNo == |OfTask(log, p.task)|
    ensures Numbered(log + [p])
  {
    forall id, k | 0 <= k < |OfTask(log + [p], id)| ensures OfTask(log + [p], id)[k].seqNo == k {
      OfTaskAppend(log, p, id);
    }
  }

  lemma RecordedIsNext(s: Store, e: Event, snap: Option<Snapshot>)
    requires Handle(s, e, snap).1.Recorded?
    ensures e.ProgressE? && e.id in s.tasks && Handle(s, e, snap).1.seqNo == NextSeq(s.progress, e.id)
  {
  }

  /** In every reachable state each task's events are numbered from 0 up without
      gaps, and every progress call is answered with the number of events before it. */
  lemma {:induction false} RunNumbered(r: Run, n: nat)
    requires IsRun(r) && n < |r.states|
    ensures Numbered(r.states[n].store.progress)
    ensures n < |r.events| && AnswerAt(r, n).Recorded? ==>
      r.events[n].ProgressE? && AnswerAt(r, n).seqNo == |OfTask(r.states[n].store.progress, r.events[n].id)|
  {
    hide Handle, Step;
    if n > 0 {
      RunNumbered(r, n - 1);
      LogStep(r, n - 1);
    } else {
      assert r.states[0].store.progress == [];
    }
    if n < |r.events| && AnswerAt(r, n).Recorded? {
      RecordedIsNext(r.states[n].store, r.events[n], Committing(r.states[n], r.events[n]));
      NextSeqCounts(r.states[n].store.progress, r.events[n].id);
    }
  }

  lemma LogStep(r: Run, n: nat)
    requires IsRun(r) && n < |r.events| && Numbered(r.states[n].store.progress)
    ensures Numbered(r.states[n + 1].store.progress)
  {
    var y, e := r.states[n], r.events[n];
    var s, snap := y.store, Committing(y, e);
    HandleRest(s, e, snap);
    if Answer(y, e).Recorded? {
      RecordedIsNext(s, e, snap);
      NextSeqCounts(s.progress, e.id);
      AppendNumbered(s.progress, LogAfter(s, e, Answer(y, e))[|s.progress|]);
    }
  }

  lemma RecordedRow(s: Store, e: Event, snap: Option<Snapshot>)
    requires e.ProgressE?
    ensures var (s', o) := Handle(s, e, snap);
      && (o.Recorded? <==> e.id in s.tasks)
      && (e.id in s.tasks ==>
            e.id in s'.tasks && s'.tasks[e.id].status ==
              if s.tasks[e.id].status == Claimed then Running else s.tasks[e.id].status)
  {
  }

  /** Progress is not fenced: any caller's event on an existing task is recorded and
      starts the current claim, whatever the status. It bears the owner's name,
      so the caller's own exactly when there is no owner or the caller is it; on
      an exclusive task in work that owner is the one the latest claim named. */
  lemma ProgressUnfenced(r: Run, n: nat, id: TaskId)
    requires IsRun(r) && n < |r.events| && r.events[n].ProgressE? && r.events[n].id == id
    ensures AnswerAt(r, n).Recorded? <==> Exists(r, n, id)
    ensures Exists(r, n, id) ==>
      var log, owner := r.states[n + 1].store.progress, RowAt(r, n, id).claimedBy;
      && Exists(r, n + 1, id) && (RowAt(r, n, id).status == Claimed ==> RowAt(r, n + 1, id).status == Running)
      && |log| == |r.states[n].store.progress| + 1 && log[..|log| - 1] == r.states[n].store.progress
      && log[|log| - 1].task == id
      && (log[|log| - 1].agent == r.events[n].subject <==> owner == None || owner == Some(r.events[n].subject))
      && (ActiveAt(r, n, id) && RowAt(r, n, id).Exclusive() ==>
            exists g :: HeldSince(r, id, g, n) && log[|log| - 1].agent == Claimer(r, g, id))
  {
    hide Handle, Step, Claimer, HeldSince;
    var y, e := r.states[n], r.events[n];
    RecordedRow(y.store, e, Committing(y, e));
    HandleRest(y.store, e, Committing(y, e));
    assert r.states[n + 1].store == Handle(y.store, e, Committing(y, e)).0 by {
      StepHandles(y, e);
    }
    if Exists(r, n, id) {
      var log := r.states[n + 1].store.progress;
      assert log == LogAfter(y.store, e, AnswerAt(r, n));
      if ActiveAt(r, n, id) && RowAt(r, n, id).Exclusive() {
        var g := ActiveIsHeld(r, n, id);
      }
    }
  }

  lemma StepHandles(y: System, e: Event)
    ensures Step(y, e).store == Handle(y.store, e, Committing(y, e)).0
  {
  }

  /** A stranger's event starts the holder's claim and is recorded as the holder's. */
  lemma StrangerStartsClaim() returns (r: Run)
    ensures IsRun(r) && Exists(r, |r.events|, 0) && r.events[|r.events| - 1] == ProgressE(0, "eve", 2)
    ensures RowAt(r, |r.events|, 0).status == Running && Last(r).store.progress == [Progress(0, "bot", 0)]
  {
    r := OneClaim();
    r := Then(r, ProgressE(0, "eve", 2));
  }

  function AfterSeq(events: seq<Progress>, since: int): seq<Progress> {
    if events == [] then []
    else
      var p := events[|events| - 1];
      AfterSeq(events[..|events| - 1], since) + if p.seqNo > since then [p] else []
  }

  /** What the replay query may answer: the task's events past `since`, ordered by number. */
  ghost predicate IsReplay(answer: seq<Progress>, log: seq<Progress>, id: TaskId, since: int) {
    && multiset(answer) == multiset(AfterSeq(OfTask(log, id), since))
    && forall i, j | 0 <= i < j < |answer| :: answer[i].seqNo <= answer[j].seqNo
  }

  function Clip(n: int, length: nat): nat {
    if n < 0 then 0 else if n > length then length else n
  }

  lemma {:induction false} AfterSeqIsSuffix(events: seq<Progress>, since: int)
    requires forall k | 0 <= k < |events| :: events[k].seqNo == k
    ensures AfterSeq(events, since) == events[Clip(since + 1, |events|)..]
  {
    if events != [] {
      var n := |events| - 1;
      var front := events[..n];
      AfterSeqIsSuffix(front, since);
      assert events == front + [events[n]];
      if since >= n {
        assert Clip(since + 1, n + 1) == n + 1 && Clip(since + 1, n) == n;
      } else {
        var k := Clip(since + 1, n);
        assert events[k..] == front[k..] + [events[n]];
      }
    }
  }

  /** Two orderings of the same elements, one of them strict, end alike. */
  lemma SameEnd(a: seq<Progress>, b: seq<Progress>)
    requires forall i, j | 0 <= i < j < |a| :: a[i].seqNo < a[j].seqNo
    requires forall i, j | 0 <= i < j < |b| :: b[i].seqNo <= b[j].seqNo
    requires multiset(a) == multiset(b) && a != []
    ensures |a| == |b| && a[|a| - 1] == b[|b| - 1]
  {
    assert |multiset(a)| == |a| && |multiset(b)| == |b|;
    var n := |a| - 1;
    assert a[n] in multiset(b) && b[n] in multiset(a);
    var i :| 0 <= i < |b| && b[i] == a[n];
    var j :| 0 <= j < |a| && a[j] == b[n];
  }

  lemma DropLast(a: seq<Progress>)
    requires a != []
    ensures multiset(a[..|a| - 1]) == multiset(a) - multiset{a[|a| - 1]}
  {
    assert a == a[..|a| - 1] + [a[|a| - 1]];
  }

  lemma Rejoin(a: seq<Progress>, b: seq<Progress>)
    requires a != [] && |a| == |b| && a[|a| - 1] == b[|b| - 1] && a[..|a| - 1] == b[..|b| - 1]
    ensures a == b
  {
    assert a == a[..|a| - 1] + [a[|a| - 1]];
    assert b == b[..|b| - 1] + [b[|b| - 1]];
  }

  /** A strictly ordered list is the only ordering of its elements. */
  lemma {:induction false} OrderedIsUnique(a: seq<Progress>, b: seq<Progress>)
    requires forall i, j | 0 <= i < j < |a| :: a[i].seqNo < a[j].seqNo
    requires forall i, j | 0 <= i < j < |b| :: b[i].seqNo <= b[j].seqNo
    requires multiset(a) == multiset(b)
    ensures a == b
  {
    if a == [] {
      assert |multiset(b)| == |b|;
    } else {
      SameEnd(a, b);
      DropLast(a);
      DropLast(b);
      OrderedIsUnique(a[..|a| - 1], b[..|b| - 1]);
      Rejoin(a, b);
    }
  }

  /** Replaying from `since` answers exactly the task's events numbered after it,
      in the order they were appended: a reader that passes the last number it
      saw misses nothing and sees nothing twice. */
  lemma ReplayExact(r: Run, n: nat, id: TaskId, since: int, answer: seq<Progress>)
    requires IsRun(r) && n < |r.states|
    ensures var log := r.states[n].store.progress;
      IsReplay(answer, log, id, since) <==> answer == OfTask(log, id)[Clip(since + 1, |OfTask(log, id)|)..]
  {
    hide Handle, Step;
    RunNumbered(r, n);
    var events := OfTask(r.states[n].store.progress, id);
    AfterSeqIsSuffix(events, since);
    if multiset(answer) == multiset(AfterSeq(events, since)) {
      if forall i, j | 0 <= i < j < |answer| :: answer[i].seqNo <= answer[j].seqNo {
        OrderedIsUnique(AfterSeq(events, since), answer);
      }
    }
  }
}
