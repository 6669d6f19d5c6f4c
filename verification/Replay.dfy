/** Reading a growing table through a cursor: the agent inbox, whose reader
    polls it in pages of a hundred, and the AI console's event stream, which
    loops in the same way. Ids are handed out in increasing order. */
module Replay {
  import opened Model

  const PAGE_SIZE: nat := 100

  /** A row and whom it addresses: a message's receiver, if it names one, or an
      event's session. */
  datatype Entry = Entry(id: int, address: Option<string>)

  datatype Scope = Inbox(agent: string) | Session(session: string)
  {
    /** A message without a receiver is meant for every agent. */
    predicate Wants(e: Entry) {
      match this
      case Inbox(agent) => e.address == Some(agent) || e.address == None
      case Session(session) => e.address == Some(session)
    }
  }

  ghost predicate Increasing(table: seq<Entry>) {
    forall i, j | 0 <= i < j < |table| :: table[i].id < table[j].id
  }

  /** The wanted rows after the cursor, in id order. */
  function Pending(table: seq<Entry>, scope: Scope, cursor: int): seq<Entry> {
    if table == [] then []
    else
      var e := table[|table| - 1];
      Pending(table[..|table| - 1], scope, cursor) + if scope.Wants(e) && e.id > cursor then [e] else []
  }

  /** One query: the first hundred of them. */
  function Page(table: seq<Entry>, scope: Scope, cursor: int): seq<Entry> {
    var p := Pending(table, scope, cursor);
    if |p| <= PAGE_SIZE then p else p[..PAGE_SIZE]
  }

  function CursorAfter(page: seq<Entry>, cursor: int): int {
    if page == [] then cursor else page[|page| - 1].id
  }

  /** The rows that appeared before a poll, and whether the poll failed. */
  datatype Poll = Poll(arrived: seq<Entry>, failed: bool)

  function Final(table: seq<Entry>, polls: seq<Poll>): seq<Entry> {
    if polls == [] then table else Final(table, polls[..|polls| - 1]) + polls[|polls| - 1].arrived
  }

  /** `Pending` is exact: it lists the wanted rows after the cursor, each once,
      in the table's order. */
  lemma {:induction false} PendingExact(table: seq<Entry>, scope: Scope, cursor: int)
    requires Increasing(table)
    ensures forall e :: e in Pending(table, scope, cursor) <==> e in table && scope.Wants(e) && e.id > cursor
    ensures Increasing(Pending(table, scope, cursor))
  {
    if table != [] {
      var n := |table| - 1;
      PendingExact(table[..n], scope, cursor);
      assert table == table[..n] + [table[n]];
    }
  }

  lemma {:induction false} PendingAppend(a: seq<Entry>, b: seq<Entry>, scope: Scope, cursor: int)
    ensures Pending(a + b, scope, cursor) == Pending(a, scope, cursor) + Pending(b, scope, cursor)
  {
    if b == [] {
      assert a + b == a;
    } else {
      var n := |b| - 1;
      PendingAppend(a, b[..n], scope, cursor);
      assert (a + b)[..|a + b| - 1] == a + b[..n];
    }
  }

  lemma {:induction false} NothingPending(table: seq<Entry>, scope: Scope, cursor: int)
    requires forall e | e in table :: e.id <= cursor
    ensures Pending(table, scope, cursor) == []
  {
    if table != [] {
      NothingPending(table[..|table| - 1], scope, cursor);
    }
  }

  lemma FrontIsOlder(table: seq<Entry>, e: Entry)
    requires Increasing(table) && table != [] && e in table[..|table| - 1]
    ensures e.id < table[|table| - 1].id
  {
    var i :| 0 <= i < |table| - 1 && table[..|table| - 1][i] == e;
    assert table[i] == e;
  }

  lemma LongerTail(p: seq<Entry>, q: seq<Entry>, k: nat)
    requires k <= |q| <= |p| && p[..|q|] == q
    ensures p[k..] == q[k..] + p[|q|..]
  {
  }

  /** Moving the cursor to the `k`th pending row leaves exactly the rows after it. */
  lemma {:induction false} PendingAfter(table: seq<Entry>, scope: Scope, cursor: int, k: nat)
    requires Increasing(table) && 0 < k <= |Pending(table, scope, cursor)|
    ensures Pending(table, scope, Pending(table, scope, cursor)[k - 1].id) == Pending(table, scope, cursor)[k..]
    decreases |table|
  {
    var front, e := table[..|table| - 1], table[|table| - 1];
    var p, q := Pending(table, scope, cursor), Pending(front, scope, cursor);
    assert p == q || p == q + [e];
    if k <= |q| {
      PendingAfter(front, scope, cursor, k);
      PendingExact(front, scope, cursor);
      assert q[k - 1] in q;
      FrontIsOlder(table, q[k - 1]);
      LongerTail(p, q, k);
    } else {
      forall f | f in front ensures f.id <= e.id {
        FrontIsOlder(table, f);
      }
      NothingPending(front, scope, e.id);
    }
  }

  /** Rows newer than everything the cursor has seen are pending for both. */
  lemma {:induction false} NewRowsPendAlike(more: seq<Entry>, scope: Scope, a: int, b: int)
    requires forall e | e in more :: e.id > a && e.id > b
    ensures Pending(more, scope, a) == Pending(more, scope, b)
  {
    if more != [] {
      var n := |more| - 1;
      assert more[n] in more;
      NewRowsPendAlike(more[..n], scope, a, b);
    }
  }

  /** What was delivered and what is pending make up what was asked for. */
  ghost predicate Delivering(table: seq<Entry>, scope: Scope, start: int, delivered: seq<Entry>, cursor: int) {
    && delivered + Pending(table, scope, cursor) == Pending(table, scope, start)
    && (cursor == start || (start < cursor && exists e :: e in table && e.id == cursor))
  }

  lemma ArrivalsKeep(table: seq<Entry>, more: seq<Entry>, scope: Scope, start: int, delivered: seq<Entry>, cursor: int)
    requires Increasing(table + more) && Delivering(table, scope, start, delivered, cursor)
    ensures Delivering(table + more, scope, start, delivered, cursor)
  {
    PendingAppend(table, more, scope, cursor);
    PendingAppend(table, more, scope, start);
    if cursor != start {
      var i :| 0 <= i < |table| && table[i].id == cursor;
      forall e | e in more ensures e.id > cursor && e.id > start {
        var j :| 0 <= j < |more| && more[j] == e;
        assert (table + more)[i] == table[i] && (table + more)[|table| + j] == e;
      }
      NewRowsPendAlike(more, scope, cursor, start);
      assert table[i] in table + more;
    }
  }

  lemma PageKeeps(table: seq<Entry>, scope: Scope, start: int, delivered: seq<Entry>, cursor: int)
    requires Increasing(table) && Delivering(table, scope, start, delivered, cursor)
    ensures var page := Page(table, scope, cursor);
      Delivering(table, scope, start, delivered + page, CursorAfter(page, cursor))
  {
    hide Pending, Increasing;
    var page := Page(table, scope, cursor);
    if page == [] {
      assert delivered + page == delivered;
    } else {
      PageSplits(table, scope, cursor);
      var next := CursorAfter(page, cursor);
      var rest := Pending(table, scope, next);
      assert delivered + (page + rest) == (delivered + page) + rest;
    }
  }

  /** A page that is not empty and what is pending after it are what was pending. */
  lemma PageSplits(table: seq<Entry>, scope: Scope, cursor: int)
    requires Increasing(table) && Page(table, scope, cursor) != []
    ensures var page := Page(table, scope, cursor);
      var next := CursorAfter(page, cursor);
      && page + Pending(table, scope, next) == Pending(table, scope, cursor)
      && cursor < next && exists e :: e in table && e.id == next
  {
    hide Pending, Increasing;
    var p, page := Pending(table, scope, cursor), Page(table, scope, cursor);
    var k := |page|;
    assert page == p[..k];
    PendingAfter(table, scope, cursor, k);
    PendingExact(table, scope, cursor);
    assert p[k - 1] in p;
  }

  lemma {:induction false} TablesIncrease(table: seq<Entry>, polls: seq<Poll>, n: nat)
    requires n <= |polls| && Increasing(Final(table, polls))
    ensures Increasing(Final(table, polls[..n]))
    decreases |polls|
  {
    if n == |polls| {
      assert polls[..n] == polls;
    } else {
      var front := polls[..|polls| - 1];
      var t := Final(table, front);
      assert forall i | 0 <= i < |t| :: t[i] == Final(table, polls)[i];
      TablesIncrease(table, front, n);
      assert front[..n] == polls[..n];
    }
  }

  /** One page, row by row, with the highest id seen as the new cursor. */
  method Deliver(page: seq<Entry>, sent: seq<Entry>, seen: int) returns (delivered: seq<Entry>, cursor: int)
    requires Increasing(page) && forall e | e in page :: e.id > seen
    ensures delivered == sent + page && cursor == CursorAfter(page, seen)
  {
    delivered, cursor := sent, seen;
    for j := 0 to |page|
      invariant delivered == sent + page[..j]
      invariant cursor == CursorAfter(page[..j], seen)
    {
      assert page[j] in page;
      if page[j].id > cursor {
        cursor := page[j].id;
      }
      delivered := delivered + [page[j]];
      assert page[..j + 1] == page[..j] + [page[j]];
    }
    assert page[..|page|] == page;
  }

  lemma PageIsFresh(table: seq<Entry>, scope: Scope, cursor: int)
    requires Increasing(table)
    ensures Increasing(Page(table, scope, cursor))
    ensures forall e | e in Page(table, scope, cursor) :: e.id > cursor && scope.Wants(e)
  {
    PendingExact(table, scope, cursor);
    assert forall e | e in Page(table, scope, cursor) :: e in Pending(table, scope, cursor);
  }

  /** The reader's loop: poll, deliver the page, and poll again. Whatever arrives
      between polls and whichever polls fail, every wanted row after the start is
      delivered once and in order, up to the cursor; what is not delivered yet is
      what lies after the cursor. */
  method Follow(table: seq<Entry>, scope: Scope, start: int, polls: seq<Poll>)
    returns (delivered: seq<Entry>, cursor: int)
    requires Increasing(Final(table, polls))
    ensures Delivering(Final(table, polls), scope, start, delivered, cursor)
    ensures (delivered, cursor) == Followed(table, scope, start, polls)
  {
    delivered, cursor := [], start;
    var now := table;
    for i := 0 to |polls|
      invariant now == Final(table, polls[..i])
      invariant (delivered, cursor) == Followed(table, scope, start, polls[..i])
    {
      assert polls[..i + 1][..i] == polls[..i];
      TablesIncrease(table, polls, i + 1);
      now := now + polls[i].arrived;
      if !polls[i].failed {
        PageIsFresh(now, scope, cursor);
        delivered, cursor := Deliver(Page(now, scope, cursor), delivered, cursor);
      }
    }
    assert polls[..|polls|] == polls;
    ExactlyOnce(table, scope, start, polls);
  }

  /** What the reader has after the polls. */
  function Followed(table: seq<Entry>, scope: Scope, start: int, polls: seq<Poll>): (seq<Entry>, int) {
    if polls == [] then ([], start)
    else
      var n := |polls| - 1;
      var (delivered, cursor) := Followed(table, scope, start, polls[..n]);
      if polls[n].failed then (delivered, cursor)
      else
        var page := Page(Final(table, polls), scope, cursor);
        (delivered + page, CursorAfter(page, cursor))
  }

  /** Delivery is exactly once and in order, whatever the polls bring. */
  lemma {:induction false} ExactlyOnce(table: seq<Entry>, scope: Scope, start: int, polls: seq<Poll>)
    requires Increasing(Final(table, polls))
    ensures var (delivered, cursor) := Followed(table, scope, start, polls);
      Delivering(Final(table, polls), scope, start, delivered, cursor)
  {
    if polls != [] {
      var n := |polls| - 1;
      TablesIncrease(table, polls, n);
      ExactlyOnce(table, scope, start, polls[..n]);
      var (delivered, cursor) := Followed(table, scope, start, polls[..n]);
      ArrivalsKeep(Final(table, polls[..n]), polls[n].arrived, scope, start, delivered, cursor);
      if !polls[n].failed {
        PageKeeps(Final(table, polls), scope, start, delivered, cursor);
      }
    }
  }

  function Left(table: seq<Entry>, scope: Scope, start: int, polls: seq<Poll>): nat {
    |Pending(Final(table, polls), scope, Followed(table, scope, start, polls).1)|
  }

  ghost predicate QuietPoll(p: Poll) {
    p.arrived == [] && !p.failed
  }

  /** Once appends stop, each successful poll takes a hundred rows off what is
      left, so the reader ends with an empty page and everything delivered. */
  lemma {:induction false} QuietPollsDrain(table: seq<Entry>, scope: Scope, start: int, busy: seq<Poll>,
                                           quiet: seq<Poll>)
    requires Increasing(Final(table, busy + quiet)) && forall p | p in quiet :: QuietPoll(p)
    ensures Left(table, scope, start, busy + quiet) ==
      var before := Left(table, scope, start, busy);
      if before <= |quiet| * PAGE_SIZE then 0 else before - |quiet| * PAGE_SIZE
    ensures Left(table, scope, start, busy) <= |quiet| * PAGE_SIZE ==>
      Followed(table, scope, start, busy + quiet).0 == Pending(Final(table, busy + quiet), scope, start)
    decreases |quiet|
  {
    hide Pending, Increasing, Page, CursorAfter;
    var polls := busy + quiet;
    ExactlyOnce(table, scope, start, polls);
    if quiet == [] {
      assert polls == busy;
    } else {
      var n := |polls| - 1;
      var rest := quiet[..|quiet| - 1];
      assert polls[..n] == busy + rest && polls[n] == quiet[|quiet| - 1];
      TablesIncrease(table, polls, n);
      QuietPollsDrain(table, scope, start, busy, rest);
      OnePoll(Final(table, polls), scope, Followed(table, scope, start, polls[..n]).1);
      assert QuietPoll(polls[n]);
      assert Final(table, polls) == Final(table, polls[..n]);
    }
  }

  lemma OnePoll(table: seq<Entry>, scope: Scope, cursor: int)
    requires Increasing(table)
    ensures var left := |Pending(table, scope, cursor)|;
      |Pending(table, scope, CursorAfter(Page(table, scope, cursor), cursor))|
        == if left <= PAGE_SIZE then 0 else left - PAGE_SIZE
  {
    var page := Page(table, scope, cursor);
    if page != [] {
      PendingAfter(table, scope, cursor, |page|);
    }
  }

  /** What `Delivering` says outright: the delivered rows are, in order and each
      once, exactly the wanted ones after the start and up to the cursor. */
  lemma DeliveredExactly(table: seq<Entry>, scope: Scope, start: int, delivered: seq<Entry>, cursor: int)
    requires Increasing(table) && Delivering(table, scope, start, delivered, cursor)
    ensures Increasing(delivered)
    ensures forall e :: e in delivered <==> e in table && scope.Wants(e) && start < e.id <= cursor
  {
    var all, rest := Pending(table, scope, start), Pending(table, scope, cursor);
    PendingExact(table, scope, start);
    PendingExact(table, scope, cursor);
    forall i, j | 0 <= i < j < |delivered| ensures delivered[i].id < delivered[j].id {
      assert all[i] == delivered[i] && all[j] == delivered[j];
    }
    forall i, j | 0 <= i < |delivered| && 0 <= j < |rest| ensures delivered[i].id < rest[j].id {
      assert all[i] == delivered[i] && all[|delivered| + j] == rest[j];
    }
    forall e ensures e in delivered <==> e in table && scope.Wants(e) && start < e.id <= cursor {
      assert e in all <==> e in delivered || e in rest;
    }
  }

  /** A stream may be cut anywhere: every delivered row is a point to resume from,
      with nothing missed and nothing twice. */
  lemma ResumesAnywhere(table: seq<Entry>, scope: Scope, start: int, delivered: seq<Entry>, cursor: int, k: nat)
    requires Increasing(table) && Delivering(table, scope, start, delivered, cursor) && 0 < k <= |delivered|
    ensures Delivering(table, scope, start, delivered[..k], delivered[k - 1].id)
  {
    var all := Pending(table, scope, start);
    PendingAfter(table, scope, start, k);
    PendingExact(table, scope, start);
    assert all[k - 1] == delivered[k - 1] && all[k - 1] in all;
    assert delivered[..k] == all[..k];
  }

  /** A reader that comes back with the last id it got goes on where it stopped:
      the two deliveries together are what one uninterrupted reader gets. */
  lemma ReconnectKeeps(table: seq<Entry>, more: seq<Entry>, scope: Scope, start: int,
                       first: seq<Entry>, cursor: int, second: seq<Entry>, last: int)
    requires Increasing(table + more)
    requires Delivering(table, scope, start, first, cursor)
    requires Delivering(table + more, scope, cursor, second, last)
    ensures Delivering(table + more, scope, start, first + second, last)
  {
    ArrivalsKeep(table, more, scope, start, first, cursor);
    var rest := Pending(table + more, scope, last);
    assert first + (second + rest) == (first + second) + rest;
  }

  /** What a reader is sent: an agent the messages that name it and those that name
      nobody, a session's reader the events of that session, past the cursor. */
  lemma WantedExactly(table: seq<Entry>, cursor: int, name: string)
    requires Increasing(table)
    ensures forall e :: e in Pending(table, Inbox(name), cursor) <==>
      e in table && e.id > cursor && (e.address == None || e.address == Some(name))
    ensures forall e :: e in Pending(table, Session(name), cursor) <==>
      e in table && e.id > cursor && e.address == Some(name)
  {
    PendingExact(table, Inbox(name), cursor);
    PendingExact(table, Session(name), cursor);
  }

  /** A page holds the first hundred pending rows; a shorter one leaves none behind. */
  lemma PageExact(table: seq<Entry>, scope: Scope, cursor: int)
    requires Increasing(table)
    ensures var page := Page(table, scope, cursor);
      && |page| <= 100 && |page| <= |Pending(table, scope, cursor)| && page == Pending(table, scope, cursor)[..|page|]
      && (|page| < 100 ==> Pending(table, scope, CursorAfter(page, cursor)) == [])
  {
    hide Pending, Increasing;
    var page := Page(table, scope, cursor);
    if page != [] {
      PendingAfter(table, scope, cursor, |page|);
    }
  }

  /** One poll: a failed one delivers nothing and keeps the cursor; any other delivers
      the first hundred rows pending by then and moves the cursor to the last of them. */
  lemma PollExact(table: seq<Entry>, scope: Scope, start: int, polls: seq<Poll>)
    requires polls != []
    ensures var n := |polls| - 1;
      var (sent, cursor), (sent', cursor') :=
        Followed(table, scope, start, polls[..n]), Followed(table, scope, start, polls);
      var pending := Pending(Final(table, polls), scope, cursor);
      var k := if polls[n].failed then 0 else if |pending| < 100 then |pending| else 100;
      && sent' == sent + pending[..k]
      && cursor' == (if k == 0 then cursor else pending[k - 1].id)
  {
    hide Pending;
  }
}
