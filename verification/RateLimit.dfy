/** The sliding-window rate limiter: the pruned deques decide as the full
    history would, no window is ever overrun, and a bucket never mixes policies. */
module RateLimit {
  import opened Model

  datatype RateLimitPolicy = RateLimitPolicy(capacity: int, windowSeconds: real)

  // ----------------------------------------------------------------- one bucket

  /** `while bucket and bucket[0] <= threshold: popleft()` */
  function Prune(bucket: seq<real>, threshold: real): seq<real> {
    if bucket != [] && bucket[0] <= threshold then Prune(bucket[1..], threshold) else bucket
  }

  function Hit(bucket: seq<real>, policy: RateLimitPolicy, now: real): (seq<real>, bool) {
    var kept := Prune(bucket, now - policy.windowSeconds);
    if |kept| >= policy.capacity then (kept, false) else (kept + [now], true)
  }

  class InMemoryRateLimiter {
    var buckets: map<string, seq<real>>

    constructor ()
      ensures buckets == map[]
    {
      buckets := map[];
    }

    method Allow(key: string, policy: RateLimitPolicy, now: real) returns (ok: bool)
      modifies this
      ensures (buckets, ok) == Serve(old(buckets), key, policy, now)
    {
      ghost var before := Bucket(buckets, key);
      if key !in buckets {
        buckets := buckets[key := []];
      }
      var threshold := now - policy.windowSeconds;
      while buckets[key] != [] && buckets[key][0] <= threshold
        invariant key in buckets && buckets == old(buckets)[key := buckets[key]]
        invariant Prune(buckets[key], threshold) == Prune(before, threshold)
        decreases |buckets[key]|
      {
        buckets := buckets[key := buckets[key][1..]];
      }
      assert buckets[key] == Prune(before, threshold);
      if |buckets[key]| >= policy.capacity {
        return false;
      }
      buckets := buckets[key := buckets[key] + [now]];
      assert buckets == old(buckets)[key := buckets[key]];
      return true;
    }
  }

  function Bucket(buckets: map<string, seq<real>>, key: string): seq<real> {
    if key in buckets then buckets[key] else []
  }

  function Serve(buckets: map<string, seq<real>>, key: string, policy: RateLimitPolicy, now: real):
    (map<string, seq<real>>, bool)
  {
    var (bucket, ok) := Hit(Bucket(buckets, key), policy, now);
    (buckets[key := bucket], ok)
  }

  // ------------------------------------------------------------ the two readings

  /** How many of the times lie in the half-open window. */
  function CountIn(times: seq<real>, lo: real, hi: real): nat {
    if times == [] then 0
    else
      var t := times[|times| - 1];
      CountIn(times[..|times| - 1], lo, hi) + if lo < t <= hi then 1 else 0
  }

  /** The accepted times of one bucket when nothing is ever forgotten: a request
      passes when fewer than `capacity` were accepted in the last window. */
  function FullHistory(nows: seq<real>, policy: RateLimitPolicy): seq<real> {
    if nows == [] then [] else Judged(FullHistory(nows[..|nows| - 1], policy), policy, nows[|nows| - 1])
  }

  function Judged(past: seq<real>, policy: RateLimitPolicy, now: real): seq<real> {
    if CountIn(past, now - policy.windowSeconds, now) < policy.capacity then past + [now] else past
  }

  /** The deque after the same requests. */
  function Deque(nows: seq<real>, policy: RateLimitPolicy): seq<real> {
    if nows == [] then [] else Hit(Deque(nows[..|nows| - 1], policy), policy, nows[|nows| - 1]).0
  }

  ghost predicate Nondecreasing(times: seq<real>) {
    forall i, j | 0 <= i < j < |times| :: times[i] <= times[j]
  }

  lemma {:induction false} CountSplit(times: seq<real>, k: nat, lo: real, hi: real)
    requires k <= |times|
    ensures CountIn(times, lo, hi) == CountIn(times[..k], lo, hi) + CountIn(times[k..], lo, hi)
    decreases |times|
  {
    if k == |times| {
      assert times[..k] == times;
    } else {
      var n := |times| - 1;
      CountSplit(times[..n], k, lo, hi);
      assert times[..n][..k] == times[..k] && times[..n][k..] == times[k..][..|times[k..]| - 1];
    }
  }

  ghost predicate AllUpTo(times: seq<real>, hi: real) {
    forall i | 0 <= i < |times| :: times[i] <= hi
  }

  ghost predicate AllAfter(times: seq<real>, lo: real) {
    forall i | 0 <= i < |times| :: times[i] > lo
  }

  lemma {:induction false} CountBounds(times: seq<real>, lo: real, hi: real)
    ensures CountIn(times, lo, hi) <= |times|
    ensures AllUpTo(times, lo) ==> CountIn(times, lo, hi) == 0
    ensures AllAfter(times, lo) && AllUpTo(times, hi) ==> CountIn(times, lo, hi) == |times|
  {
    if times != [] {
      CountBounds(times[..|times| - 1], lo, hi);
    }
  }

  lemma {:induction false} PruneIsSuffix(bucket: seq<real>, threshold: real) returns (k: nat)
    ensures k <= |bucket| && Prune(bucket, threshold) == bucket[k..]
    ensures AllUpTo(bucket[..k], threshold)
    ensures k < |bucket| ==> bucket[k] > threshold
  {
    if bucket != [] && bucket[0] <= threshold {
      var j := PruneIsSuffix(bucket[1..], threshold);
      k := j + 1;
      assert bucket[1..][j..] == bucket[k..];
      forall i | 0 <= i < k ensures bucket[..k][i] <= threshold {
        assert i > 0 ==> bucket[..k][i] == bucket[1..][..j][i - 1];
      }
    } else {
      k := 0;
    }
  }

  /** The deque is the end of the full history: what it has forgotten is no
      later than the threshold. */
  ghost predicate Remembers(deque: seq<real>, full: seq<real>, forgotten: nat, threshold: real) {
    && forgotten <= |full| && deque == full[forgotten..]
    && AllUpTo(full[..forgotten], threshold)
  }

  lemma PruneRemembers(deque: seq<real>, full: seq<real>, forgotten: nat, threshold: real) returns (dropped: nat)
    requires Remembers(deque, full, forgotten, threshold)
    ensures Remembers(Prune(deque, threshold), full, dropped, threshold)
    ensures dropped < |full| ==> full[dropped] > threshold
  {
    var k := PruneIsSuffix(deque, threshold);
    dropped := forgotten + k;
    assert deque[k..] == full[dropped..];
    forall i | 0 <= i < dropped ensures full[..dropped][i] <= threshold {
      if i < forgotten {
        assert full[..forgotten][i] == full[i];
      } else {
        assert deque[..k][i - forgotten] == full[i];
      }
    }
  }

  /** Once pruned, the deque's length is the count the full history gives. */
  lemma RestCounts(full: seq<real>, dropped: nat, threshold: real, now: real)
    requires Nondecreasing(full) && AllUpTo(full, now) && dropped <= |full|
    requires AllUpTo(full[..dropped], threshold) && (dropped < |full| ==> full[dropped] > threshold)
    ensures CountIn(full, threshold, now) == |full| - dropped
  {
    CountSplit(full, dropped, threshold, now);
    CountBounds(full[..dropped], threshold, now);
    CountBounds(full[dropped..], threshold, now);
  }

  /** What the requests up to `last` leave behind. */
  ghost predicate InStep(deque: seq<real>, full: seq<real>, forgotten: nat, last: real, policy: RateLimitPolicy) {
    && Nondecreasing(full) && AllUpTo(full, last)
    && Remembers(deque, full, forgotten, last - policy.windowSeconds)
  }

  /** One request: the deque and the full history decide alike and stay in step. */
  lemma HitInStep(deque: seq<real>, full: seq<real>, forgotten: nat, last: real, policy: RateLimitPolicy, now: real)
    returns (dropped: nat)
    requires InStep(deque, full, forgotten, last, policy) && last <= now
    ensures var (after, ok) := Hit(deque, policy, now);
      && (ok <==> CountIn(full, now - policy.windowSeconds, now) < policy.capacity)
      && InStep(after, if ok then full + [now] else full, dropped, now, policy)
  {
    var threshold := now - policy.windowSeconds;
    RemembersLater(deque, full, forgotten, last - policy.windowSeconds, threshold);
    dropped := PruneRemembers(deque, full, forgotten, threshold);
    OrderedMore(full, last, now);
    RestCounts(full, dropped, threshold, now);
    RemembersMore(Prune(deque, threshold), full, dropped, threshold, now);
  }

  lemma RemembersLater(deque: seq<real>, full: seq<real>, forgotten: nat, a: real, b: real)
    requires Remembers(deque, full, forgotten, a) && a <= b
    ensures Remembers(deque, full, forgotten, b)
  {
  }

  lemma RemembersMore(deque: seq<real>, full: seq<real>, forgotten: nat, threshold: real, now: real)
    requires Remembers(deque, full, forgotten, threshold)
    ensures Remembers(deque + [now], full + [now], forgotten, threshold)
  {
    assert (full + [now])[..forgotten] == full[..forgotten];
    assert (full + [now])[forgotten..] == full[forgotten..] + [now];
  }

  lemma OrderedMore(full: seq<real>, last: real, now: real)
    requires Nondecreasing(full) && AllUpTo(full, last) && last <= now
    ensures Nondecreasing(full + [now]) && AllUpTo(full + [now], now) && AllUpTo(full, now)
  {
  }

  /** With a clock that does not go back, the pruned deque accepts exactly when
      the full history would, request after request. */
  lemma {:induction false} DequeInStep(nows: seq<real>, policy: RateLimitPolicy, last: real) returns (forgotten: nat)
    requires Nondecreasing(nows) && AllUpTo(nows, last)
    ensures InStep(Deque(nows, policy), FullHistory(nows, policy), forgotten, last, policy)
  {
    if nows == [] {
      forgotten := 0;
    } else {
      var n := |nows| - 1;
      var front, now := nows[..n], nows[n];
      var before := DequeInStep(front, policy, now);
      forgotten := OneMoreInStep(nows, policy, before);
      LaterInStep(Deque(nows, policy), FullHistory(nows, policy), forgotten, now, policy, last);
    }
  }

  lemma OneMoreInStep(nows: seq<real>, policy: RateLimitPolicy, before: nat) returns (dropped: nat)
    requires nows != [] && Nondecreasing(nows)
    requires var front, now := nows[..|nows| - 1], nows[|nows| - 1];
      InStep(Deque(front, policy), FullHistory(front, policy), before, now, policy)
    ensures InStep(Deque(nows, policy), FullHistory(nows, policy), dropped, nows[|nows| - 1], policy)
  {
    hide InStep;
    var front, now := nows[..|nows| - 1], nows[|nows| - 1];
    dropped := HitInStep(Deque(front, policy), FullHistory(front, policy), before, now, policy, now);
  }

  lemma LaterInStep(deque: seq<real>, full: seq<real>, forgotten: nat, last: real, policy: RateLimitPolicy, now: real)
    requires InStep(deque, full, forgotten, last, policy) && last <= now
    ensures InStep(deque, full, forgotten, now, policy)
  {
  }

  /** The accepting rule keeps accepted times `capacity` apart a window apart. */
  ghost predicate Spaced(times: seq<real>, policy: RateLimitPolicy) {
    forall i, j | 0 <= i < j < |times| && j - i == policy.capacity :: times[i] <= times[j] - policy.windowSeconds
  }

  lemma {:induction false} HistorySpaced(nows: seq<real>, policy: RateLimitPolicy)
    requires Nondecreasing(nows) && policy.capacity >= 1
    ensures Spaced(FullHistory(nows, policy), policy)
  {
    hide Hit, CountIn, Remembers;
    if nows != [] {
      var n := |nows| - 1;
      HistorySpaced(nows[..n], policy);
      var f := DequeInStep(nows[..n], policy, nows[n]);
      var past, lo := FullHistory(nows[..n], policy), nows[n] - policy.windowSeconds;
      if CountIn(past, lo, nows[n]) < policy.capacity {
        PassedIsLate(past, nows[n], policy);
        SpacedOneMore(past, nows[n], policy);
      }
    }
  }

  /** A time that passes is a window later than the one `capacity` before it. */
  lemma PassedIsLate(past: seq<real>, now: real, policy: RateLimitPolicy)
    requires Nondecreasing(past) && AllUpTo(past, now) && policy.capacity >= 1
    requires CountIn(past, now - policy.windowSeconds, now) < policy.capacity
    ensures |past| >= policy.capacity ==> past[|past| - policy.capacity] <= now - policy.windowSeconds
  {
    var i, lo := |past| - policy.capacity, now - policy.windowSeconds;
    if i >= 0 {
      CountSplit(past, i, lo, now);
      CountBounds(past[i..], lo, now);
      if past[i] > lo {
        OrderedAfter(past, i, lo);
      }
    }
  }

  lemma OrderedAfter(times: seq<real>, i: nat, lo: real)
    requires Nondecreasing(times) && i <= |times| && (i < |times| ==> times[i] > lo)
    ensures AllAfter(times[i..], lo)
  {
  }

  lemma SpacedOneMore(past: seq<real>, now: real, policy: RateLimitPolicy)
    requires Spaced(past, policy) && policy.capacity >= 1
    requires |past| >= policy.capacity ==> past[|past| - policy.capacity] <= now - policy.windowSeconds
    ensures Spaced(past + [now], policy)
  {
  }

  lemma EarlyAndLate(times: seq<real>, k: nat, lo: real, hi: real)
    requires Nondecreasing(times) && 0 < k <= |times| && times[k - 1] <= lo
    ensures CountIn(times, lo, hi) <= |times| - k
  {
    CountSplit(times, k, lo, hi);
    CountBounds(times[..k], lo, hi);
    CountBounds(times[k..], lo, hi);
  }

  /** In spaced, ordered times every half-open window holds at most `capacity`. */
  lemma {:induction false} WindowHolds(times: seq<real>, policy: RateLimitPolicy, a: real)
    requires Nondecreasing(times) && Spaced(times, policy) && policy.capacity >= 1
    ensures CountIn(times, a, a + policy.windowSeconds) <= policy.capacity
  {
    var hi := a + policy.windowSeconds;
    if |times| > policy.capacity {
      var n := |times| - 1;
      if a < times[n] <= hi {
        var k := n - policy.capacity + 1;
        assert times[k - 1] <= times[n] - policy.windowSeconds;
        EarlyAndLate(times, k, a, hi);
      } else {
        WindowHolds(times[..n], policy, a);
      }
    } else {
      CountBounds(times, a, hi);
    }
  }

  // -------------------------------------------------------- keys and policies

  datatype Policies = Policies(approval: RateLimitPolicy, search: RateLimitPolicy,
                               write: RateLimitPolicy, standard: RateLimitPolicy)

  /** A request as the limiter sees it; `who` is the principal or address part of
      its key and may be any text. */
  datatype Request = Request(verb: string, path: string, who: string, now: real)

  predicate StartsWith(text: string, prefix: string) {
    prefix <= text
  }

  function PolicyOf(r: Request, p: Policies): RateLimitPolicy {
    if StartsWith(r.path, "/approvals") || StartsWith(r.path, "/governance") then p.approval
    else if StartsWith(r.path, "/search") || StartsWith(r.path, "/explorer") then p.search
    else if r.verb in {"POST", "PATCH", "PUT", "DELETE"} then p.write
    else p.standard
  }

  function KeyOf(r: Request): string {
    r.verb + ":" + r.path + ":" + r.who
  }

  /** An HTTP method is a token and so has no colon. */
  ghost predicate IsToken(verb: string) {
    ':' !in verb
  }

  /** The part before the first colon is determined by the whole. */
  lemma HeadUnique(a: string, b: string, x: string, y: string)
    requires ':' !in a && ':' !in b && a + ":" + x == b + ":" + y
    ensures a == b && x == y
  {
    var s := a + ":" + x;
    assert s == b + ":" + y;
    assert s[|a|] == ':' && s[|b|] == ':';
    assert forall i | 0 <= i < |a| :: s[i] == a[i] != ':';
    assert forall i | 0 <= i < |b| :: s[i] == b[i] != ':';
    assert a == s[..|a|] && b == s[..|b|];
    assert x == s[|a| + 1..] && y == s[|b| + 1..];
  }

  /** A colon-free prefix of the path is a prefix of the path and what follows. */
  lemma PrefixSeesThrough(path: string, rest: string, prefix: string)
    requires ':' !in prefix
    ensures StartsWith(path, prefix) <==> StartsWith(path + ":" + rest, prefix)
  {
    var s := path + ":" + rest;
    assert s[|path|] == ':';
    assert forall i | 0 <= i < |prefix| :: prefix[i] != ':';
  }

  /** Buckets are policy-consistent: requests with equal keys have equal policies,
      although paths and subjects may contain colons themselves. */
  lemma SameKeySamePolicy(a: Request, b: Request, p: Policies)
    requires IsToken(a.verb) && IsToken(b.verb) && KeyOf(a) == KeyOf(b)
    ensures PolicyOf(a, p) == PolicyOf(b, p)
  {
    var s, t := a.path + ":" + a.who, b.path + ":" + b.who;
    assert KeyOf(a) == a.verb + ":" + s && KeyOf(b) == b.verb + ":" + t;
    HeadUnique(a.verb, b.verb, s, t);
    SamePrefixes(a, b, "/approvals");
    SamePrefixes(a, b, "/governance");
    SamePrefixes(a, b, "/search");
    SamePrefixes(a, b, "/explorer");
  }

  lemma SamePrefixes(a: Request, b: Request, prefix: string)
    requires a.path + ":" + a.who == b.path + ":" + b.who && ':' !in prefix
    ensures StartsWith(a.path, prefix) <==> StartsWith(b.path, prefix)
  {
    PrefixSeesThrough(a.path, a.who, prefix);
    PrefixSeesThrough(b.path, b.who, prefix);
  }

  // -------------------------------------------------------- the whole service

  /** The buckets after a sequence of requests, each under its own policy. */
  function Buckets(rs: seq<Request>, p: Policies): map<string, seq<real>> {
    if rs == [] then map[]
    else
      var r := rs[|rs| - 1];
      Serve(Buckets(rs[..|rs| - 1], p), KeyOf(r), PolicyOf(r, p), r.now).0
  }

  /** The times of the requests with this key. */
  function NowsOf(rs: seq<Request>, key: string): seq<real> {
    if rs == [] then []
    else
      var r := rs[|rs| - 1];
      NowsOf(rs[..|rs| - 1], key) + if KeyOf(r) == key then [r.now] else []
  }

  /** The times of the requests with this key that were let through. */
  function PassedOf(rs: seq<Request>, key: string, p: Policies): seq<real> {
    if rs == [] then []
    else
      var r := rs[|rs| - 1];
      var front := rs[..|rs| - 1];
      PassedOf(front, key, p)
        + if KeyOf(r) == key && Serve(Buckets(front, p), key, PolicyOf(r, p), r.now).1 then [r.now] else []
  }

  ghost predicate Orderly(rs: seq<Request>) {
    && (forall i, j | 0 <= i < j < |rs| :: rs[i].now <= rs[j].now)
    && forall i | 0 <= i < |rs| :: IsToken(rs[i].verb)
  }

  lemma {:induction false} NowsOrdered(rs: seq<Request>, key: string, last: real)
    requires Orderly(rs) && (rs != [] ==> rs[|rs| - 1].now <= last)
    ensures Nondecreasing(NowsOf(rs, key)) && AllUpTo(NowsOf(rs, key), last)
  {
    if rs != [] {
      var n := |rs| - 1;
      NowsOrdered(rs[..n], key, rs[n].now);
    }
  }

  /** All requests with this key come under this policy. */
  ghost predicate OnePolicy(rs: seq<Request>, key: string, policy: RateLimitPolicy, p: Policies) {
    forall i | 0 <= i < |rs| && KeyOf(rs[i]) == key :: PolicyOf(rs[i], p) == policy
  }

  /** Each key's traffic sees one bucket under one policy, whatever other keys do:
      its deque and its passes are those of the key's own requests. */
  lemma {:induction false} KeysAreSeparate(rs: seq<Request>, key: string, policy: RateLimitPolicy, p: Policies)
    requires Orderly(rs) && OnePolicy(rs, key, policy, p)
    ensures Bucket(Buckets(rs, p), key) == Deque(NowsOf(rs, key), policy)
    ensures PassedOf(rs, key, p) == FullHistory(NowsOf(rs, key), policy)
  {
    hide KeyOf, PolicyOf, Hit;
    if rs != [] {
      var n := |rs| - 1;
      var r, front := rs[n], rs[..n];
      KeysAreSeparate(front, key, policy, p);
      if KeyOf(r) == key {
        NowsOrdered(front, key, r.now);
        OwnRequest(Buckets(front, p), key, NowsOf(front, key), policy, r.now);
      } else {
        assert NowsOf(rs, key) == NowsOf(front, key) && PassedOf(rs, key, p) == PassedOf(front, key, p);
        OtherRequest(Buckets(front, p), key, KeyOf(r), PolicyOf(r, p), r.now);
      }
    }
  }

  lemma OtherRequest(buckets: map<string, seq<real>>, key: string, other: string, policy: RateLimitPolicy, now: real)
    requires key != other
    ensures Bucket(Serve(buckets, other, policy, now).0, key) == Bucket(buckets, key)
  {
  }

  lemma AppendDeque(nows: seq<real>, policy: RateLimitPolicy, now: real)
    ensures Deque(nows + [now], policy) == Hit(Deque(nows, policy), policy, now).0
  {
    hide Hit;
    var all := nows + [now];
    assert all[..|all| - 1] == nows;
  }

  lemma AppendHistory(nows: seq<real>, policy: RateLimitPolicy, now: real)
    ensures FullHistory(nows + [now], policy) == Judged(FullHistory(nows, policy), policy, now)
  {
    hide Judged;
    assert (nows + [now])[..|nows|] == nows;
  }

  lemma OwnRequest(buckets: map<string, seq<real>>, key: string, nows: seq<real>, policy: RateLimitPolicy, now: real)
    requires Bucket(buckets, key) == Deque(nows, policy) && Nondecreasing(nows) && AllUpTo(nows, now)
    ensures var (after, ok) := Serve(buckets, key, policy, now);
      && Bucket(after, key) == Deque(nows + [now], policy)
      && FullHistory(nows, policy) + (if ok then [now] else []) == FullHistory(nows + [now], policy)
  {
    hide Hit, CountIn;
    DecidesByHistory(buckets, key, nows, policy, now);
    AppendDeque(nows, policy, now);
    AppendHistory(nows, policy, now);
  }

  lemma DecidesByHistory(buckets: map<string, seq<real>>, key: string, nows: seq<real>,
                         policy: RateLimitPolicy, now: real)
    requires Bucket(buckets, key) == Deque(nows, policy) && Nondecreasing(nows) && AllUpTo(nows, now)
    ensures Serve(buckets, key, policy, now).1 <==>
      CountIn(FullHistory(nows, policy), now - policy.windowSeconds, now) < policy.capacity
  {
    var f := DequeInStep(nows, policy, now);
    var g := HitInStep(Deque(nows, policy), FullHistory(nows, policy), f, now, policy, now);
  }

  lemma KeyHasOnePolicy(rs: seq<Request>, r: Request, p: Policies)
    requires IsToken(r.verb) && forall i | 0 <= i < |rs| :: IsToken(rs[i].verb)
    ensures OnePolicy(rs, KeyOf(r), PolicyOf(r, p), p)
  {
    forall i | 0 <= i < |rs| && KeyOf(rs[i]) == KeyOf(r) ensures PolicyOf(rs[i], p) == PolicyOf(r, p) {
      SameKeySamePolicy(rs[i], r, p);
    }
  }

  /** The limiter over any interleaving of keys, with a clock that does not go
      back: a request passes if and only if fewer than `capacity` requests with
      its key passed in the window before it, and no half-open window of the
      policy's length ever holds more than `capacity` passes of one key. */
  lemma LimiterIsExact(rs: seq<Request>, r: Request, p: Policies, a: real)
    requires Orderly(rs) && IsToken(r.verb) && (rs != [] ==> rs[|rs| - 1].now <= r.now)
    ensures var key, policy := KeyOf(r), PolicyOf(r, p);
      && (Serve(Buckets(rs, p), key, policy, r.now).1 <==>
            CountIn(PassedOf(rs, key, p), r.now - policy.windowSeconds, r.now) < policy.capacity)
      && (policy.capacity >= 1 ==> CountIn(PassedOf(rs, key, p), a, a + policy.windowSeconds) <= policy.capacity)
  {
    hide KeyOf, PolicyOf, Hit, CountIn, Serve, PassedOf, Buckets, NowsOf;
    var key, policy := KeyOf(r), PolicyOf(r, p);
    KeyHasOnePolicy(rs, r, p);
    KeysAreSeparate(rs, key, policy, p);
    NowsOrdered(rs, key, r.now);
    DecidesByHistory(Buckets(rs, p), key, NowsOf(rs, key), policy, r.now);
    if policy.capacity >= 1 {
      HistorySpaced(NowsOf(rs, key), policy);
      var f := DequeInStep(NowsOf(rs, key), policy, r.now);
      WindowHolds(PassedOf(rs, key, p), policy, a);
    }
  }

  // ------------------------------------------------------------ named policies

  ghost predicate Under(path: string, prefix: string) {
    exists rest :: path == prefix + rest
  }

  lemma UnderIsPrefix(path: string, prefix: string)
    ensures StartsWith(path, prefix) <==> Under(path, prefix)
  {
    if prefix <= path {
      assert path == prefix + path[|prefix|..];
    }
  }

  ghost predicate ApprovalPath(path: string) {
    Under(path, "/approvals") || Under(path, "/governance")
  }

  ghost predicate SearchPath(path: string) {
    Under(path, "/search") || Under(path, "/explorer")
  }

  predicate Writes(verb: string) {
    verb == "POST" || verb == "PATCH" || verb == "PUT" || verb == "DELETE"
  }

  function WindowCount(times: seq<real>, a: real, limit: RateLimitPolicy): nat {
    CountIn(times, a, a + limit.windowSeconds)
  }

  /** The next request passes if and only if fewer than `limit.capacity` with its verb,
      path and caller passed in the window of `limit` before it; and no window of that
      length ever holds more than the capacity. */
  ghost predicate LimitedBy(rs: seq<Request>, r: Request, p: Policies, limit: RateLimitPolicy) {
    var passed := PassedOf(rs, KeyOf(r), p);
    && (Serve(Buckets(rs, p), KeyOf(r), PolicyOf(r, p), r.now).1 <==>
          CountIn(passed, r.now - limit.windowSeconds, r.now) < limit.capacity)
    && (limit.capacity >= 1 ==> forall a :: WindowCount(passed, a, limit) <= limit.capacity)
  }

  /** Which limit is whose: approvals and governance under the approval policy, search
      and explorer under the search policy, writes on every other path under the write
      policy, and the rest under the default, whatever the rest of the path. */
  lemma NamedLimits(rs: seq<Request>, r: Request, p: Policies)
    requires Orderly(rs) && IsToken(r.verb) && (rs != [] ==> rs[|rs| - 1].now <= r.now)
    ensures ApprovalPath(r.path) ==> LimitedBy(rs, r, p, p.approval)
    ensures SearchPath(r.path) ==> LimitedBy(rs, r, p, p.search)
    ensures !ApprovalPath(r.path) && !SearchPath(r.path) && Writes(r.verb) ==> LimitedBy(rs, r, p, p.write)
    ensures !ApprovalPath(r.path) && !SearchPath(r.path) && !Writes(r.verb) ==> LimitedBy(rs, r, p, p.standard)
  {
    hide LimitedBy, PolicyOf;
    LimitedByOwn(rs, r, p);
    PolicyByName(r, p);
  }

  lemma LimitedByOwn(rs: seq<Request>, r: Request, p: Policies)
    requires Orderly(rs) && IsToken(r.verb) && (rs != [] ==> rs[|rs| - 1].now <= r.now)
    ensures LimitedBy(rs, r, p, PolicyOf(r, p))
  {
    hide KeyOf, Serve, CountIn, PassedOf, Buckets, PolicyOf;
    var limit, passed := PolicyOf(r, p), PassedOf(rs, KeyOf(r), p);
    LimiterIsExact(rs, r, p, 0.0);
    if limit.capacity >= 1 {
      forall a: real ensures WindowCount(passed, a, limit) <= limit.capacity {
        LimiterIsExact(rs, r, p, a);
      }
    }
  }

  lemma PolicyByName(r: Request, p: Policies)
    ensures ApprovalPath(r.path) ==> PolicyOf(r, p) == p.approval
    ensures SearchPath(r.path) ==> PolicyOf(r, p) == p.search
    ensures !ApprovalPath(r.path) && !SearchPath(r.path) ==>
      PolicyOf(r, p) == if Writes(r.verb) then p.write else p.standard
  {
    UnderIsPrefix(r.path, "/approvals");
    UnderIsPrefix(r.path, "/governance");
    UnderIsPrefix(r.path, "/search");
    UnderIsPrefix(r.path, "/explorer");
    assert !(ApprovalPath(r.path) && SearchPath(r.path)) by {
      assert "/approvals"[1] == 'a' && "/governance"[1] == 'g' && "/search"[1] == 's' && "/explorer"[1] == 'e';
    }
  }

  // ---------------------------------------------------------------- the callers

  /** What a request shows of its caller: the texts of a principal, if it has one, the
      peer's address, and the x-forwarded-for header, empty if there is none. */
  datatype Caller = Caller(principal: Option<Principal>, host: Option<string>, forwarded: string)

  datatype Principal = Principal(email: string, subject: string)

  /** How texts are trimmed and lower-cased. */
  datatype Texts = Texts(strip: string -> string, lower: string -> string)

  /** `text.split(",", 1)[0]` */
  function FirstPart(text: string): string {
    if text == "" || text[0] == ',' then "" else [text[0]] + FirstPart(text[1..])
  }

  function SubjectOf(c: Caller, x: Texts): string {
    if c.principal.None? then ""
    else
      var p := c.principal.value;
      x.lower(x.strip(if p.email != "" then p.email else p.subject))
  }

  /** The peer's address; an empty one counts as none. */
  function HostOf(c: Caller): string {
    if c.host.Some? && c.host.value != "" then c.host.value else "unknown"
  }

  /** _rate_limit_key */
  function WhoOf(c: Caller, trusted: set<string>, x: Texts): string {
    var subject := SubjectOf(c, x);
    if subject != "" then "principal:" + subject
    else if HostOf(c) in trusted && x.strip(c.forwarded) != "" then "ip:" + x.strip(FirstPart(c.forwarded))
    else "ip:" + HostOf(c)
  }

  /** The address a caller without a subject is counted under. */
  ghost predicate CountsAs(c: Caller, trusted: set<string>, x: Texts, ip: string) {
    if HostOf(c) in trusted && x.strip(c.forwarded) != "" then
      exists head, tail ::
        c.forwarded == head + tail && ',' !in head && (tail == "" || tail[0] == ',') && ip == x.strip(head)
    else ip == HostOf(c)
  }

  lemma {:induction false} FirstPartExact(text: string)
    ensures ',' !in FirstPart(text)
    ensures exists tail :: text == FirstPart(text) + tail && (tail == "" || tail[0] == ',')
  {
    if text != "" && text[0] != ',' {
      FirstPartExact(text[1..]);
      var tail :| text[1..] == FirstPart(text[1..]) + tail && (tail == "" || tail[0] == ',');
      assert text == FirstPart(text) + tail;
    } else {
      assert text == FirstPart(text) + text;
    }
  }

  lemma HeadOfSplit(a: string, b: string, x: string, y: string)
    requires a + x == b + y && ',' !in a && ',' !in b
    requires (x == "" || x[0] == ',') && (y == "" || y[0] == ',')
    ensures a == b
  {
    var s := a + x;
    assert s == b + y;
    assert forall i | 0 <= i < |a| :: s[i] == a[i] != ',';
    assert forall i | 0 <= i < |b| :: s[i] == b[i] != ',';
    assert a == s[..|a|] && b == s[..|b|];
  }

  lemma AddressExact(c: Caller, trusted: set<string>, x: Texts, ip: string)
    requires SubjectOf(c, x) == ""
    ensures WhoOf(c, trusted, x) == "ip:" + ip <==> CountsAs(c, trusted, x, ip)
  {
    var head := FirstPart(c.forwarded);
    FirstPartExact(c.forwarded);
    forall h, tail | c.forwarded == h + tail && ',' !in h && (tail == "" || tail[0] == ',') ensures h == head {
      var t :| c.forwarded == head + t && (t == "" || t[0] == ',');
      HeadOfSplit(h, head, tail, t);
    }
    var who := WhoOf(c, trusted, x);
    assert who[..3] == "ip:" && ("ip:" + ip)[3..] == ip;
    assert who == "ip:" + who[3..];
  }

  /** Two callers share a key on one endpoint exactly when both have the same subject,
      or neither has one and both count under the same address: a subject never shares
      with an address. */
  lemma CallersApart(a: Caller, b: Caller, trusted: set<string>, x: Texts)
    ensures WhoOf(a, trusted, x) == WhoOf(b, trusted, x) <==>
      && SubjectOf(a, x) == SubjectOf(b, x)
      && (SubjectOf(a, x) == "" ==> exists ip :: CountsAs(a, trusted, x, ip) && CountsAs(b, trusted, x, ip))
  {
    var u, v := WhoOf(a, trusted, x), WhoOf(b, trusted, x);
    var s, t := SubjectOf(a, x), SubjectOf(b, x);
    if s == "" && t == "" {
      assert u[..3] == "ip:" && v[..3] == "ip:";
      assert u == "ip:" + u[3..] && v == "ip:" + v[3..];
      AddressExact(a, trusted, x, u[3..]);
      AddressExact(b, trusted, x, u[3..]);
      forall ip | CountsAs(a, trusted, x, ip) && CountsAs(b, trusted, x, ip) ensures u == v {
        AddressExact(a, trusted, x, ip);
        AddressExact(b, trusted, x, ip);
      }
    } else if s != "" && t != "" {
      assert u[..10] == "principal:" && u[10..] == s && v[10..] == t;
    } else {
      assert s != "" ==> u[0] == 'p' && v[0] == 'i';
      assert t != "" ==> v[0] == 'p' && u[0] == 'i';
    }
  }

  /** A caller behind an address that is not a trusted proxy cannot choose its bucket by
      what it forwards; nor can one with a subject. */
  lemma ForwardedIsIgnored(c: Caller, forwarded: string, trusted: set<string>, x: Texts)
    requires HostOf(c) !in trusted || SubjectOf(c, x) != ""
    ensures WhoOf(c.(forwarded := forwarded), trusted, x) == WhoOf(c, trusted, x)
  {
  }

  /** Requests share a bucket exactly when their verbs agree and path and caller read
      the same when put together. On one path, and between paths without colons, that
      means the same path and the same caller. */
  lemma KeysApart(a: Request, b: Request)
    requires IsToken(a.verb) && IsToken(b.verb)
    ensures KeyOf(a) == KeyOf(b) <==> a.verb == b.verb && a.path + ":" + a.who == b.path + ":" + b.who
    ensures a.path == b.path ==> (KeyOf(a) == KeyOf(b) <==> a.verb == b.verb && a.who == b.who)
    ensures ':' !in a.path && ':' !in b.path ==>
      (KeyOf(a) == KeyOf(b) <==> a.verb == b.verb && a.path == b.path && a.who == b.who)
  {
    var s, t := a.path + ":" + a.who, b.path + ":" + b.who;
    assert KeyOf(a) == a.verb + ":" + s && KeyOf(b) == b.verb + ":" + t;
    if KeyOf(a) == KeyOf(b) {
      HeadUnique(a.verb, b.verb, s, t);
    }
    if s == t && ':' !in a.path && ':' !in b.path {
      HeadUnique(a.path, b.path, a.who, b.who);
    }
    if a.path == b.path {
      assert s[|a.path| + 1..] == a.who && t[|b.path| + 1..] == b.who;
    }
  }

  /** With a colon in a path two callers on two paths share a bucket. */
  lemma KeysCollide(verb: string, path: string, x: string, y: string, now: real)
    ensures KeyOf(Request(verb, path + ":" + x, y, now)) == KeyOf(Request(verb, path, x + ":" + y, now))
  {
    assert verb + ":" + (path + ":" + x) + ":" + y == verb + ":" + path + ":" + (x + ":" + y);
  }

  /** An address on one path and a subject on another, for instance. */
  lemma AddressMeetsSubject() returns (a: Request, b: Request)
    ensures KeyOf(a) == KeyOf(b) && a.path != b.path && a.who == "ip:1" && b.who == "principal:x" + ":" + "ip:1"
  {
    a := Request("GET", "/a" + ":" + "principal:x", "ip:1", 0.0);
    b := Request("GET", "/a", "principal:x" + ":" + "ip:1", 0.0);
    KeysCollide("GET", "/a", "principal:x", "ip:1", 0.0);
    assert |a.path| != |b.path|;
  }
}
