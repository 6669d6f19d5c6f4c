/** Event triggers: which fire on an event, how far apart, and what each fire
    adds to the work store. */
module Triggers {
  import opened Model
  import opened WorkStores
  import P = Protocol

  /** A JSON value, as far as comparing goes. */
  datatype Value = Null | Text(text: string) | Number(n: int)

  type EventData = map<string, Value>

  /** `event.get(k)` */
  function Get(event: EventData, k: string): Value {
    if k in event then event[k] else Null
  }

  datatype Condition = Always | BadCondition | Pairs(pairs: map<string, Value>)

  /** The stored spec: text that does not parse, JSON that is no object, or the
      fields a task is made from. */
  datatype Spec = Unreadable | NoObject | TaskSpec(kluster: KlusterId, policy: Policy)

  datatype Trigger = Trigger(
    active: bool, eventType: string, condition: Condition, makesTask: bool, spec: Spec,
    owner: Subject, cooldown: int, lastFired: Option<int>)
  {
    predicate Listens(event: EventData) {
      active && Get(event, "event") == Text(eventType)
    }

    predicate Cooling(now: int) {
      lastFired.Some? && cooldown != 0 && now - lastFired.value < cooldown
    }

    predicate Matches(event: EventData) {
      match condition
      case Always => true
      case BadCondition => false
      case Pairs(pairs) => forall k | k in pairs :: Get(event, k) == pairs[k]
    }

    /** The trigger gets as far as its action. */
    predicate Due(event: EventData, now: int) {
      Listens(event) && !Cooling(now) && Matches(event)
    }

    /** The action adds a task row. */
    predicate Adds(event: EventData, now: int) {
      Due(event, now) && makesTask && spec.TaskSpec?
    }

    /** The action ends without an exception, so the fire is recorded. */
    predicate Fires(event: EventData, now: int, publishRaises: bool) {
      Due(event, now) && if makesTask then spec.TaskSpec? && !publishRaises else !spec.Unreadable?
    }

    function After(event: EventData, now: int, publishRaises: bool): Trigger {
      if Fires(event, now, publishRaises) then this.(lastFired := Some(now)) else this
    }
  }

  /** The board after one event; `raises` holds the triggers whose event
      publishing raises after the task row was committed. */
  function Board(ts: seq<Trigger>, event: EventData, now: int, raises: set<nat>): (r: seq<Trigger>)
    ensures |r| == |ts| && forall i: nat | i < |ts| :: r[i] == ts[i].After(event, now, i in raises)
  {
    seq(|ts|, i requires 0 <= i < |ts| => ts[i].After(event, now, i in raises))
  }

  /** The store after the first `n` triggers had their turn. */
  function Stored(s: Store, ts: seq<Trigger>, event: EventData, now: int, n: nat): Store
    requires n <= |ts|
  {
    if n == 0 then s
    else
      var before := Stored(s, ts, event, now, n - 1);
      var t := ts[n - 1];
      if t.Adds(event, now) then P.SpawnTask(before, t.owner, t.spec.kluster, t.spec.policy, now).0 else before
  }

  function Added(ts: seq<Trigger>, event: EventData, now: int, n: nat): nat
    requires n <= |ts|
  {
    if n == 0 then 0 else Added(ts, event, now, n - 1) + if ts[n - 1].Adds(event, now) then 1 else 0
  }

  class Evaluator {
    var triggers: seq<Trigger>
    const store: WorkStore

    constructor (store: WorkStore)
      ensures this.store == store && triggers == []
    {
      this.store := store;
      triggers := [];
    }

    /** _evaluate_triggers: the matching triggers were selected up front; each is
        checked, fired and stamped in turn. */
    method EvaluateTriggers(event: EventData, now: int, raises: set<nat>)
      modifies this`triggers, store
      ensures triggers == Board(old(triggers), event, now, raises)
      ensures store.State() == Stored(old(store.State()), old(triggers), event, now, |old(triggers)|)
    {
      ghost var before, s := triggers, store.State();
      for i := 0 to |triggers|
        invariant |triggers| == |before|
        invariant forall j: nat | j < i :: triggers[j] == before[j].After(event, now, j in raises)
        invariant forall j | i <= j < |before| :: triggers[j] == before[j]
        invariant store.State() == Stored(s, before, event, now, i)
      {
        var t := triggers[i];
        if t.Listens(event) && !t.Cooling(now) && t.Matches(event) && t.spec != Unreadable {
          var raised := false;
          if t.makesTask {
            if t.spec.TaskSpec? {
              var o := store.SpawnTask(t.owner, t.spec.kluster, t.spec.policy, now);
              raised := i in raises;
            } else {
              raised := true;
            }
          }
          if !raised {
            triggers := triggers[i := t.(lastFired := Some(now))];
          }
        }
      }
      assert triggers == Board(before, event, now, raises);
    }
  }

  // ------------------------------------------------------------ what a fire adds

  /** One event adds as many rows as triggers add, each ready, without dependencies
      and owned by the owner of one of them; nothing else changes. */
  lemma {:induction false} EachAddIsATask(s: Store, ts: seq<Trigger>, event: EventData, now: int, n: nat)
    requires n <= |ts| && forall t | t in s.tasks :: t < s.nextId
    ensures var s' := Stored(s, ts, event, now, n);
      && s'.nextId == s.nextId + Added(ts, event, now, n) && |s'.tasks| == |s.tasks| + Added(ts, event, now, n)
      && s' == s.(tasks := s'.tasks, nextId := s'.nextId)
      && (forall t | t in s.tasks :: t in s'.tasks && s'.tasks[t] == s.tasks[t])
      && (forall t | t in s'.tasks && t !in s.tasks ::
            && s.nextId <= t < s'.nextId && s'.tasks[t].status == Ready && s'.tasks[t].dependsOn == []
            && exists i | 0 <= i < n :: ts[i].Adds(event, now) && s'.tasks[t].createdBy == ts[i].owner)
      && (forall t | t in s'.tasks :: t < s'.nextId)
  {
    if n > 0 {
      EachAddIsATask(s, ts, event, now, n - 1);
      if ts[n - 1].Adds(event, now) {
        AddOne(Stored(s, ts, event, now, n - 1), ts[n - 1], now);
      }
    }
  }

  /** Which row comes from which trigger: the `i`th trigger, if it adds, finds its own
      kluster, policy and owner on the row numbered by the adding triggers before it. */
  lemma {:induction false} EachAddIsItsOwn(s: Store, ts: seq<Trigger>, event: EventData, now: int, n: nat, i: nat)
    requires i < n <= |ts| && ts[i].Adds(event, now) && forall t | t in s.tasks :: t < s.nextId
    ensures var s', id := Stored(s, ts, event, now, n), s.nextId + Added(ts, event, now, i);
      && id !in s.tasks && id in s'.tasks && id < s'.nextId
      && s'.tasks[id] == P.NewTask(ts[i].spec.kluster, [], ts[i].spec.policy, Ready, ts[i].owner, now)
  {
    hide P.SpawnTask, P.NewTask, Trigger.Adds;
    StoredDrawn(s, ts, event, now, n - 1);
    if ts[n - 1].Adds(event, now) {
      AddsNext(Stored(s, ts, event, now, n - 1), ts[n - 1], event, now);
    }
    if i < n - 1 {
      EachAddIsItsOwn(s, ts, event, now, n - 1, i);
    }
  }

  lemma StoredDrawn(s: Store, ts: seq<Trigger>, event: EventData, now: int, n: nat)
    requires n <= |ts| && forall t | t in s.tasks :: t < s.nextId
    ensures var s' := Stored(s, ts, event, now, n);
      && s'.nextId == s.nextId + Added(ts, event, now, n) && forall t | t in s'.tasks :: t < s'.nextId
  {
    EachAddIsATask(s, ts, event, now, n);
  }

  lemma AddsNext(s: Store, t: Trigger, event: EventData, now: int)
    requires t.Adds(event, now)
    ensures t.spec.TaskSpec?
    ensures var s' := P.SpawnTask(s, t.owner, t.spec.kluster, t.spec.policy, now).0;
      && s'.nextId == s.nextId + 1
      && s'.tasks == s.tasks[s.nextId := P.NewTask(t.spec.kluster, [], t.spec.policy, Ready, t.owner, now)]
  {
  }

  lemma AddOne(s: Store, t: Trigger, now: int)
    requires (forall id | id in s.tasks :: id < s.nextId) && t.spec.TaskSpec?
    ensures var s' := P.SpawnTask(s, t.owner, t.spec.kluster, t.spec.policy, now).0;
      |s'.tasks| == |s.tasks| + 1
  {
    var s' := P.SpawnTask(s, t.owner, t.spec.kluster, t.spec.policy, now).0;
    assert s'.tasks.Keys == s.tasks.Keys + {s.nextId};
  }

  /** One event: a row is added for each task fire it records and for each task
      trigger whose publishing raised. */
  lemma {:induction false} AddsAreFiresOrRaises(ts: seq<Trigger>, event: EventData, now: int, raises: set<nat>, n: nat)
    requires n <= |ts|
    ensures Added(ts, event, now, n) == TaskFires(ts, event, now, raises, n) + Raised(ts, event, now, raises, n)
    ensures raises == {} ==> Raised(ts, event, now, raises, n) == 0
  {
    if n > 0 {
      AddsAreFiresOrRaises(ts, event, now, raises, n - 1);
    }
  }

  function TaskFires(ts: seq<Trigger>, event: EventData, now: int, raises: set<nat>, n: nat): nat
    requires n <= |ts|
  {
    if n == 0 then 0
    else TaskFires(ts, event, now, raises, n - 1)
         + if ts[n - 1].makesTask && ts[n - 1].Fires(event, now, n - 1 in raises) then 1 else 0
  }

  function Raised(ts: seq<Trigger>, event: EventData, now: int, raises: set<nat>, n: nat): nat
    requires n <= |ts|
  {
    if n == 0 then 0
    else Raised(ts, event, now, raises, n - 1)
         + if ts[n - 1].Adds(event, now) && n - 1 in raises then 1 else 0
  }

  // ------------------------------------------------------------------ cooldown

  /** What happens to the board: an event is evaluated, a trigger is switched
      off, or a new one is registered. */
  datatype Turn = Evaluate(event: EventData, now: int, raises: set<nat>) | Deactivate(i: nat) | Register(t: Trigger)

  function Take(ts: seq<Trigger>, turn: Turn): seq<Trigger> {
    match turn
    case Evaluate(event, now, raises) => Board(ts, event, now, raises)
    case Deactivate(i) => if i < |ts| then ts[i := ts[i].(active := false)] else ts
    case Register(t) => ts + [t]
  }

  function Boards(ts: seq<Trigger>, turns: seq<Turn>): seq<Trigger> {
    if turns == [] then ts else Take(Boards(ts, turns[..|turns| - 1]), turns[|turns| - 1])
  }

  predicate FiresOn(ts: seq<Trigger>, turn: Turn, i: nat) {
    turn.Evaluate? && i < |ts| && ts[i].Fires(turn.event, turn.now, i in turn.raises)
  }

  /** The recorded fire times of one trigger. */
  function FireTimes(ts: seq<Trigger>, turns: seq<Turn>, i: nat): seq<int> {
    if turns == [] then []
    else
      var front, turn := turns[..|turns| - 1], turns[|turns| - 1];
      FireTimes(ts, front, i) + if FiresOn(Boards(ts, front), turn, i) then [turn.now] else []
  }

  ghost predicate SpacedBy(times: seq<int>, c: int) {
    forall j {:trigger times[j]} | 0 < j < |times| :: times[j] - times[j - 1] >= c
  }

  /** Fires are at least the cooldown apart, whatever the clock does between. */
  lemma {:induction false} FiresAreSpaced(ts: seq<Trigger>, turns: seq<Turn>, i: nat)
    requires i < |ts| && ts[i].cooldown > 0
    ensures i < |Boards(ts, turns)| && Boards(ts, turns)[i].cooldown == ts[i].cooldown
    ensures var times := FireTimes(ts, turns, i);
      && Boards(ts, turns)[i].lastFired == (if times == [] then ts[i].lastFired else Some(times[|times| - 1]))
      && SpacedBy(times, ts[i].cooldown)
      && (times != [] && ts[i].lastFired.Some? ==> times[0] - ts[i].lastFired.value >= ts[i].cooldown)
  {
    hide Take, FiresOn, SpacedBy;
    if turns != [] {
      var front, turn := turns[..|turns| - 1], turns[|turns| - 1];
      FiresAreSpaced(ts, front, i);
      TurnKeepsTrigger(Boards(ts, front), turn, i);
      if FiresOn(Boards(ts, front), turn, i) {
        FiresRested(Boards(ts, front), turn, i);
        SpacedMore(FireTimes(ts, front, i), turn.now, ts[i].cooldown);
        assert FireTimes(ts, turns, i) == FireTimes(ts, front, i) + [turn.now];
      } else {
        assert FireTimes(ts, turns, i) == FireTimes(ts, front, i);
      }
    } else {
      NoneSpaced(ts[i].cooldown);
    }
  }

  /** A trigger that fires is not cooling down. */
  lemma FiresRested(ts: seq<Trigger>, turn: Turn, i: nat)
    requires i < |ts| && ts[i].cooldown > 0 && FiresOn(ts, turn, i)
    ensures turn.Evaluate?
    ensures ts[i].lastFired.Some? ==> turn.now - ts[i].lastFired.value >= ts[i].cooldown
  {
  }

  lemma SpacedMore(times: seq<int>, now: int, c: int)
    requires SpacedBy(times, c) && (times != [] ==> now - times[|times| - 1] >= c)
    ensures SpacedBy(times + [now], c)
  {
    var more := times + [now];
    forall j | 0 < j < |more| ensures more[j] - more[j - 1] >= c {
      assert j < |times| ==> more[j] == times[j];
    }
  }

  lemma NoneSpaced(c: int)
    ensures SpacedBy([], c)
  {
  }

  lemma TurnKeepsTrigger(ts: seq<Trigger>, turn: Turn, i: nat)
    requires i < |ts|
    ensures i < |Take(ts, turn)| && Take(ts, turn)[i].cooldown == ts[i].cooldown
    ensures Take(ts, turn)[i].makesTask == ts[i].makesTask
    ensures Take(ts, turn)[i].lastFired == if FiresOn(ts, turn, i) then Some(turn.now) else ts[i].lastFired
  {
  }

  function CountBetween(times: seq<int>, lo: int, hi: int): nat {
    if times == [] then 0
    else
      var t := times[|times| - 1];
      CountBetween(times[..|times| - 1], lo, hi) + if lo <= t <= hi then 1 else 0
  }

  ghost predicate NotAfter(times: seq<int>, hi: int) {
    forall j | 0 <= j < |times| :: times[j] <= hi
  }

  lemma {:induction false} CountNarrows(times: seq<int>, lo: int, hi: int, top: int)
    requires NotAfter(times, top) && top <= hi
    ensures CountBetween(times, lo, hi) == CountBetween(times, lo, top)
    ensures top < lo ==> CountBetween(times, lo, top) == 0
  {
    if times != [] {
      CountNarrows(times[..|times| - 1], lo, hi, top);
    }
  }

  lemma {:induction false} SpacedIsOrdered(times: seq<int>, c: int)
    requires SpacedBy(times, c) && c > 0 && times != []
    ensures NotAfter(times[..|times| - 1], times[|times| - 1] - c)
  {
    var n := |times| - 1;
    if n > 0 {
      SpacedIsOrdered(times[..n], c);
      forall j | 0 <= j < n ensures times[..n][j] <= times[n] - c {
        assert times[n] - times[n - 1] >= c;
        if j < n - 1 {
          assert times[..n][j] == times[..n][..n - 1][j];
        }
      }
    }
  }

  lemma {:induction false} SpacedCount(times: seq<int>, c: int, lo: int, hi: int)
    requires SpacedBy(times, c) && c > 0 && lo <= hi
    ensures CountBetween(times, lo, hi) * c <= hi - lo + c
  {
    if times != [] {
      var n := |times| - 1;
      var front, t := times[..n], times[n];
      if lo <= t <= hi {
        EarlierCount(times, c, lo, hi);
        if lo <= t - c {
          SpacedCount(front, c, lo, t - c);
        }
        OneMoreTimes(CountBetween(front, lo, hi), c);
      } else {
        SpacedCount(front, c, lo, hi);
      }
    }
  }

  lemma EarlierCount(times: seq<int>, c: int, lo: int, hi: int)
    requires SpacedBy(times, c) && c > 0 && times != [] && lo <= times[|times| - 1] <= hi
    ensures var front, top := times[..|times| - 1], times[|times| - 1] - c;
      && CountBetween(front, lo, hi) == CountBetween(front, lo, top)
      && (top < lo ==> CountBetween(front, lo, hi) == 0)
  {
    SpacedIsOrdered(times, c);
    CountNarrows(times[..|times| - 1], lo, hi, times[|times| - 1] - c);
  }

  lemma OneMoreTimes(k: nat, c: int)
    ensures (k + 1) * c == k * c + c
  {
  }

  lemma TimesMonotone(a: int, b: int, c: int)
    requires a <= b && c > 0
    ensures a * c <= b * c
  {
  }

  lemma QuotientBound(n: nat, c: int, length: int)
    requires c > 0 && length >= 0 && n * c <= length + c
    ensures n <= length / c + 1
  {
    var q := length / c;
    assert length < (q + 1) * c;
    OneMoreTimes(q + 1, c);
    if q + 2 <= n {
      TimesMonotone(q + 2, n, c);
    }
  }

  /** Cooldown: within any closed interval of length T a trigger with cooldown c
      records at most T / c + 1 fires, even when the clock steps back. */
  lemma CooldownBound(ts: seq<Trigger>, turns: seq<Turn>, i: nat, lo: int, length: nat)
    requires i < |ts| && ts[i].cooldown > 0
    ensures CountBetween(FireTimes(ts, turns, i), lo, lo + length) <= length / ts[i].cooldown + 1
  {
    hide FireTimes, Boards, CountBetween;
    var times, c := FireTimes(ts, turns, i), ts[i].cooldown;
    FiresAreSpaced(ts, turns, i);
    SpacedCount(times, c, lo, lo + length);
    QuotientBound(CountBetween(times, lo, lo + length), c, length);
  }

  // ------------------------------------------------------ fires over a history

  /** The store after the turns; only evaluations touch it. */
  function History(s: Store, ts: seq<Trigger>, turns: seq<Turn>): Store {
    if turns == [] then s
    else
      var front, turn := turns[..|turns| - 1], turns[|turns| - 1];
      var before, board := History(s, ts, front), Boards(ts, front);
      if turn.Evaluate? then Stored(before, board, turn.event, turn.now, |board|) else before
  }

  /** How many rows the turns added without recording a fire. */
  function RaisedOver(ts: seq<Trigger>, turns: seq<Turn>): nat {
    if turns == [] then 0
    else
      var front, turn := turns[..|turns| - 1], turns[|turns| - 1];
      var board := Boards(ts, front);
      RaisedOver(ts, front)
        + if turn.Evaluate? then Raised(board, turn.event, turn.now, turn.raises, |board|) else 0
  }

  /** The recorded fires of the first `n` triggers, as far as they make tasks. */
  function TaskFireTotal(ts: seq<Trigger>, turns: seq<Turn>, n: nat): nat
    requires n <= |Boards(ts, turns)|
  {
    if n == 0 then 0
    else
      TaskFireTotal(ts, turns, n - 1)
        + if Boards(ts, turns)[n - 1].makesTask then |FireTimes(ts, turns, n - 1)| else 0
  }

  lemma {:induction false} NoFiresBefore(ts: seq<Trigger>, turns: seq<Turn>, i: nat)
    requires i >= |Boards(ts, turns)|
    ensures FireTimes(ts, turns, i) == []
  {
    if turns != [] {
      NoFiresBefore(ts, turns[..|turns| - 1], i);
    }
  }

  /** Counting fires trigger by trigger or turn by turn comes to the same. */
  lemma {:induction false} OneMoreTurn(ts: seq<Trigger>, turns: seq<Turn>, n: nat)
    requires turns != [] && n <= |Boards(ts, turns[..|turns| - 1])|
    ensures n <= |Boards(ts, turns)|
    ensures var front, turn := turns[..|turns| - 1], turns[|turns| - 1];
      TaskFireTotal(ts, turns, n) == TaskFireTotal(ts, front, n)
        + if turn.Evaluate? then TaskFires(Boards(ts, front), turn.event, turn.now, turn.raises, n) else 0
  {
    hide Take;
    if n > 0 {
      OneMoreTurn(ts, turns, n - 1);
      TurnKeepsTrigger(Boards(ts, turns[..|turns| - 1]), turns[|turns| - 1], n - 1);
    }
  }

  lemma WholeTurn(ts: seq<Trigger>, turns: seq<Turn>)
    requires turns != []
    ensures var front, turn := turns[..|turns| - 1], turns[|turns| - 1];
      var board := Boards(ts, front);
      TaskFireTotal(ts, turns, |Boards(ts, turns)|) == TaskFireTotal(ts, front, |board|)
        + if turn.Evaluate? then TaskFires(board, turn.event, turn.now, turn.raises, |board|) else 0
  {
    var board := Boards(ts, turns[..|turns| - 1]);
    OneMoreTurn(ts, turns, |board|);
    if turns[|turns| - 1].Register? {
      NoFiresBefore(ts, turns[..|turns| - 1], |board|);
    }
  }

  /** `s'` is `s` with `n` more rows, each ready and without dependencies. */
  ghost predicate Gains(s: Store, s': Store, n: nat) {
    && s'.nextId == s.nextId + n && |s'.tasks| == |s.tasks| + n
    && s' == s.(tasks := s'.tasks, nextId := s'.nextId)
    && (forall t | t in s.tasks :: t in s'.tasks && s'.tasks[t] == s.tasks[t])
    && (forall t | t in s'.tasks && t !in s.tasks :: s'.tasks[t].status == Ready && s'.tasks[t].dependsOn == [])
    && (forall t | t in s'.tasks :: t < s'.nextId)
  }

  /** Over any history of events, registrations and switch-offs the rows added are,
      trigger by trigger, the recorded fires of the triggers that make tasks, and
      beyond them only the rows whose publishing raised. */
  lemma {:induction false} HistoryAdds(s: Store, ts: seq<Trigger>, turns: seq<Turn>)
    requires forall t | t in s.tasks :: t < s.nextId
    ensures Gains(s, History(s, ts, turns), TaskFireTotal(ts, turns, |Boards(ts, turns)|) + RaisedOver(ts, turns))
    ensures (forall k | 0 <= k < |turns| && turns[k].Evaluate? :: turns[k].raises == {}) ==> RaisedOver(ts, turns) == 0
  {
    if turns != [] {
      var front, turn := turns[..|turns| - 1], turns[|turns| - 1];
      var before, board := History(s, ts, front), Boards(ts, front);
      HistoryAdds(s, ts, front);
      WholeTurn(ts, turns);
      assert (forall k | 0 <= k < |turns| && turns[k].Evaluate? :: turns[k].raises == {}) ==>
        forall k | 0 <= k < |front| && front[k].Evaluate? :: front[k].raises == {};
      if turn.Evaluate? {
        EachAddIsATask(before, board, turn.event, turn.now, |board|);
        AddsAreFiresOrRaises(board, turn.event, turn.now, turn.raises, |board|);
      }
    } else {
      NothingFired(ts, |ts|);
    }
  }

  lemma {:induction false} NothingFired(ts: seq<Trigger>, n: nat)
    requires n <= |ts|
    ensures TaskFireTotal(ts, [], n) == 0
  {
    if n > 0 {
      NothingFired(ts, n - 1);
    }
  }

  // --------------------------------------------------------- who fires, exactly

  /** Switched on, of the event's type, rested, with a condition that reads, and with
      every listed pair in the event; a key the event lacks counts as null. */
  ghost predicate Answers(t: Trigger, event: EventData, now: int) {
    && t.active && "event" in event && event["event"] == Text(t.eventType)
    && (t.lastFired == None || t.cooldown == 0 || t.lastFired.value + t.cooldown <= now)
    && t.condition != BadCondition
    && (t.condition.Pairs? ==> forall k | k in t.condition.pairs ::
          if k in event then event[k] == t.condition.pairs[k] else t.condition.pairs[k] == Null)
  }

  ghost predicate AnswersWithTask(t: Trigger, event: EventData, now: int) {
    Answers(t, event, now) && t.makesTask && t.spec.TaskSpec?
  }

  /** One trigger at one event, both ways: it is stamped if and only if it answers the
      event and its action ends well, and it adds a row if and only if it answers and
      its spec makes a task. */
  lemma FiringExact(ts: seq<Trigger>, event: EventData, now: int, raises: set<nat>, i: nat)
    requires i < |ts|
    ensures var t := ts[i];
      Board(ts, event, now, raises)[i] ==
        if Answers(t, event, now) && (if t.makesTask then t.spec.TaskSpec? && i !in raises else t.spec != Unreadable)
        then t.(lastFired := Some(now)) else t
    ensures Added(ts, event, now, i + 1) ==
      Added(ts, event, now, i) + if AnswersWithTask(ts[i], event, now) then 1 else 0
  {
    AnswersIff(ts[i], event, now);
  }

  lemma AnswersIff(t: Trigger, event: EventData, now: int)
    ensures t.Due(event, now) <==> Answers(t, event, now)
  {
    if t.condition.Pairs? {
      forall k | k in t.condition.pairs
        ensures Get(event, k) == t.condition.pairs[k] <==>
          if k in event then event[k] == t.condition.pairs[k] else t.condition.pairs[k] == Null
      {
      }
    }
  }

  /** The rows one event adds number the triggers that answer it with a task. */
  lemma {:induction false} AddedCounts(ts: seq<Trigger>, event: EventData, now: int, n: nat)
    requires n <= |ts|
    ensures Added(ts, event, now, n) == |set i: nat | i < n && AnswersWithTask(ts[i], event, now)|
  {
    var all := set i: nat | i < n && AnswersWithTask(ts[i], event, now);
    if n > 0 {
      AddedCounts(ts, event, now, n - 1);
      FiringExact(ts, event, now, {}, n - 1);
      var front := set i: nat | i < n - 1 && AnswersWithTask(ts[i], event, now);
      assert all == if AnswersWithTask(ts[n - 1], event, now) then front + {n - 1} else front;
    } else {
      assert all == {};
    }
  }

  /** How many rows one trigger added over the turns. */
  function RowsOf(ts: seq<Trigger>, turns: seq<Turn>, i: nat): nat {
    if turns == [] then 0
    else
      var front, turn := turns[..|turns| - 1], turns[|turns| - 1];
      var board := Boards(ts, front);
      RowsOf(ts, front, i)
        + if turn.Evaluate? && i < |board| && board[i].Adds(turn.event, turn.now) then 1 else 0
  }

  /** A trigger that is switched off is off for good and silent: it is never stamped
      again and never adds a row, whatever comes. */
  lemma {:induction false} SwitchedOffIsSilent(ts: seq<Trigger>, turns: seq<Turn>, i: nat, more: seq<Turn>)
    requires i < |Boards(ts, turns)|
    ensures var off, all := turns + [Deactivate(i)], turns + [Deactivate(i)] + more;
      && i < |Boards(ts, all)| && !Boards(ts, all)[i].active
      && FireTimes(ts, all, i) == FireTimes(ts, turns, i)
      && RowsOf(ts, all, i) == RowsOf(ts, turns, i)
  {
    var off, all := turns + [Deactivate(i)], turns + [Deactivate(i)] + more;
    if more == [] {
      assert all == off && off[..|off| - 1] == turns;
    } else {
      var front := more[..|more| - 1];
      SwitchedOffIsSilent(ts, turns, i, front);
      assert all[..|all| - 1] == off + front && all[|all| - 1] == more[|more| - 1];
      OffStaysOff(Boards(ts, off + front), more[|more| - 1], i);
    }
  }

  lemma OffStaysOff(ts: seq<Trigger>, turn: Turn, i: nat)
    requires i < |ts| && !ts[i].active
    ensures i < |Take(ts, turn)| && !Take(ts, turn)[i].active && !FiresOn(ts, turn, i)
    ensures turn.Evaluate? ==> !ts[i].Adds(turn.event, turn.now)
  {
  }
}
