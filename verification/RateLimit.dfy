/** packages/relayer/src/auth.ts: the per-key request limit, a fixed window that a key's first request opens. */
module RateLimit {
  import opened Wrappers

  const WINDOW_MS: int := 60000

  datatype Bucket = Bucket(windowStart: int, count: nat)

  /** A request of a key, with the limit of its policy, at a time. */
  datatype Request = Request(keyId: string, limit: int, now: int)

  type Buckets = map<string, Bucket>

  /** The bucket a request counts against: the key's own, or a new one once its window has passed. */
  function Current(b: Option<Bucket>, now: int): Bucket {
    if b.None? || now - b.value.windowStart >= WINDOW_MS then Bucket(now, 0) else b.value
  }

  /** One key's state after a request, and whether the request is let through. */
  function Decide(b: Option<Bucket>, limit: int, now: int): (Bucket, bool) {
    var c := Current(b, now);
    if c.count >= limit then (c, false) else (c.(count := c.count + 1), true)
  }

  function Lookup(m: Buckets, key: string): Option<Bucket> {
    if key in m then Some(m[key]) else None
  }

  class Authenticator {
    var buckets: Buckets

    constructor ()
      ensures buckets == map[]
    {
      buckets := map[];
    }

    /** enforceRateLimit: false stands for the thrown 429. A refused request can still open a new window. */
    method EnforceRateLimit(r: Request) returns (ok: bool)
      modifies this
      ensures var (bucket, accepted) := Decide(Lookup(old(buckets), r.keyId), r.limit, r.now);
              ok == accepted && buckets == old(buckets)[r.keyId := bucket]
    {
      var b := Lookup(buckets, r.keyId);
      if b.None? || r.now - b.value.windowStart >= WINDOW_MS {
        b := Some(Bucket(r.now, 0));
        buckets := buckets[r.keyId := b.value];
      }
      if b.value.count >= r.limit {
        assert buckets[r.keyId := b.value] == buckets;
        return false;
      }
      buckets := buckets[r.keyId := b.value.(count := b.value.count + 1)];
      return true;
    }

    /** Serves requests in order. */
    method Serve(requests: seq<Request>) returns (decisions: seq<bool>)
      requires buckets == map[]
      modifies this
      ensures decisions == Decisions(requests) && buckets == After(requests)
    {
      decisions := [];
      for i := 0 to |requests|
        invariant buckets == After(requests[..i]) && decisions == Decisions(requests[..i])
      {
        var ok := EnforceRateLimit(requests[i]);
        assert requests[..i + 1][..i] == requests[..i];
        decisions := decisions + [ok];
      }
      assert requests[..|requests|] == requests;
    }
  }

  function After(requests: seq<Request>): Buckets {
    if requests == [] then map[]
    else
      var before, r := After(requests[..|requests| - 1]), requests[|requests| - 1];
      before[r.keyId := Decide(Lookup(before, r.keyId), r.limit, r.now).0]
  }

  function Decisions(requests: seq<Request>): (d: seq<bool>)
    ensures |d| == |requests|
  {
    if requests == [] then []
    else
      var before, r := requests[..|requests| - 1], requests[|requests| - 1];
      Decisions(before) + [Decide(Lookup(After(before), r.keyId), r.limit, r.now).1]
  }

  // ----- One key does not affect another -----

  /** The requests of one key, in order. */
  function Of(requests: seq<Request>, key: string): seq<Request> {
    if requests == [] then []
    else
      var r := requests[|requests| - 1];
      Of(requests[..|requests| - 1], key) + if r.keyId == key then [r] else []
  }

  /** A key's bucket is the one it would have if no other key had ever asked. */
  lemma {:induction false} BucketIsOwn(requests: seq<Request>, key: string)
    ensures Lookup(After(requests), key) == Lookup(After(Of(requests, key)), key)
  {
    if requests != [] {
      var before, r := requests[..|requests| - 1], requests[|requests| - 1];
      BucketIsOwn(before, key);
      if r.keyId == key {
        assert (Of(before, key) + [r])[..|Of(before, key)|] == Of(before, key);
      } else {
        assert Of(before, key) + [] == Of(before, key);
      }
    }
  }

  /** The decision on a request depends on the earlier requests of its own key only. */
  lemma DecisionIsOwn(requests: seq<Request>, r: Request)
    ensures Decisions(requests + [r])[|requests|] == Decisions(Of(requests, r.keyId) + [r])[|Of(requests, r.keyId)|]
  {
    BucketIsOwn(requests, r.keyId);
    var own := Of(requests, r.keyId);
    assert (requests + [r])[..|requests|] == requests;
    assert (own + [r])[..|own|] == own;
  }

  // ----- Which requests get through -----

  /** The last request of a key before position n. */
  function LastOf(requests: seq<Request>, key: string, n: nat): (j: Option<nat>)
    requires n <= |requests|
    ensures j.Some? ==> j.value < n
  {
    if n == 0 then None
    else if requests[n - 1].keyId == key then Some(n - 1)
    else LastOf(requests, key, n - 1)
  }

  /**
   Which request opened the window that request i falls in: a key's first, and from then on the first one
   a minute or more after the last opener. It depends on nothing but the times.
   */
  function Opener(requests: seq<Request>, i: nat): (o: nat)
    requires i < |requests|
    ensures o <= i
  {
    match LastOf(requests, requests[i].keyId, i)
    case None => i
    case Some(j) =>
      var o := Opener(requests, j);
      if requests[i].now - requests[o].now >= 60000 then i else o
  }

  /** How many of a key's requests from one position up to another get through. */
  function PassedFrom(requests: seq<Request>, decisions: seq<bool>, key: string, first: nat, n: nat): nat
    requires n <= |requests| == |decisions|
  {
    if n <= first then 0
    else PassedFrom(requests, decisions, key, first, n - 1) + if requests[n - 1].keyId == key && decisions[n - 1] then 1 else 0
  }

  /** A key's bucket after n requests: opened by the opener of its last one, with what has passed since. */
  ghost predicate BucketIs(requests: seq<Request>, decisions: seq<bool>, b: Option<Bucket>, key: string, n: nat)
    requires n <= |requests| == |decisions|
  {
    match LastOf(requests, key, n)
    case None => b == None
    case Some(j) =>
      && b.Some?
      && b.value.windowStart == requests[Opener(requests, j)].now
      && b.value.count == PassedFrom(requests, decisions, key, Opener(requests, j), n)
  }

  lemma {:induction false} LastOfIs(requests: seq<Request>, key: string, n: nat)
    requires n <= |requests|
    ensures match LastOf(requests, key, n)
            case None => forall j :: 0 <= j < n ==> requests[j].keyId != key
            case Some(j) => j < n && requests[j].keyId == key && forall k :: j < k < n ==> requests[k].keyId != key
  {
    if n > 0 && requests[n - 1].keyId != key {
      LastOfIs(requests, key, n - 1);
    }
  }

  lemma {:induction false} DecisionAt(requests: seq<Request>, i: nat)
    requires i < |requests|
    ensures Decisions(requests)[i] == Decide(Lookup(After(requests[..i]), requests[i].keyId), requests[i].limit, requests[i].now).1
  {
    var before := requests[..|requests| - 1];
    if i < |before| {
      DecisionAt(before, i);
      assert before[..i] == requests[..i];
    }
  }

  lemma NonePassed(requests: seq<Request>, decisions: seq<bool>, key: string, first: nat, n: nat)
    requires n <= first && n <= |requests| == |decisions|
    ensures PassedFrom(requests, decisions, key, first, n) == 0
  {
  }

  /** A request of another key. */
  lemma OtherKey(requests: seq<Request>, decisions: seq<bool>, b: Option<Bucket>, key: string, n: nat)
    requires n < |requests| == |decisions| && requests[n].keyId != key && BucketIs(requests, decisions, b, key, n)
    ensures BucketIs(requests, decisions, b, key, n + 1)
  {
    LastOfIs(requests, key, n);
  }

  /** A request of the key itself. */
  lemma OwnKey(requests: seq<Request>, decisions: seq<bool>, b: Option<Bucket>, n: nat)
    requires n < |requests| == |decisions| && BucketIs(requests, decisions, b, requests[n].keyId, n)
    requires decisions[n] == Decide(b, requests[n].limit, requests[n].now).1
    ensures BucketIs(requests, decisions, Some(Decide(b, requests[n].limit, requests[n].now).0), requests[n].keyId, n + 1)
    ensures decisions[n] <==> PassedFrom(requests, decisions, requests[n].keyId, Opener(requests, n), n) < requests[n].limit
  {
    NonePassed(requests, decisions, requests[n].keyId, n, n);
  }

  /** A request changes the bucket of its own key only. */
  lemma BucketNext(requests: seq<Request>, key: string, n: nat)
    requires n < |requests|
    ensures requests[n].keyId == key ==>
              Lookup(After(requests[..n + 1]), key)
              == Some(Decide(Lookup(After(requests[..n]), key), requests[n].limit, requests[n].now).0)
    ensures requests[n].keyId != key ==> Lookup(After(requests[..n + 1]), key) == Lookup(After(requests[..n]), key)
  {
    assert requests[..n + 1][..n] == requests[..n];
  }

  /** Over any traffic every key's bucket is what the times and the decisions say. */
  lemma {:induction false} BucketsAre(requests: seq<Request>, key: string, n: nat)
    requires n <= |requests|
    ensures BucketIs(requests, Decisions(requests), Lookup(After(requests[..n]), key), key, n)
  {
    if n > 0 {
      BucketsAre(requests, key, n - 1);
      BucketNext(requests, key, n - 1);
      var before := Lookup(After(requests[..n - 1]), key);
      if requests[n - 1].keyId == key {
        DecisionAt(requests, n - 1);
        OwnKey(requests, Decisions(requests), before, n - 1);
      } else {
        OtherKey(requests, Decisions(requests), before, key, n - 1);
      }
    }
  }

  /**
   A request gets through exactly if fewer than its limit have got through in its window before it, the
   opener included.
   */
  lemma PassesIff(requests: seq<Request>, i: nat)
    requires i < |requests|
    ensures Decisions(requests)[i]
            <==> PassedFrom(requests, Decisions(requests), requests[i].keyId, Opener(requests, i), i) < requests[i].limit
  {
    DecisionAt(requests, i);
    BucketsAre(requests, requests[i].keyId, i);
    OwnKey(requests, Decisions(requests), Lookup(After(requests[..i]), requests[i].keyId), i);
  }

  // ----- How much one key gets through -----

  /** The requests of one key, with a fixed limit, by the times they arrive. */
  function Bucketed(times: seq<int>, limit: int): Option<Bucket> {
    if times == [] then None
    else Some(Decide(Bucketed(times[..|times| - 1], limit), limit, times[|times| - 1]).0)
  }

  function IsAccepted(before: seq<int>, limit: int, now: int): bool {
    Decide(Bucketed(before, limit), limit, now).1
  }

  /** How many requests are let through in the half-open interval from lo to hi. */
  function Accepted(times: seq<int>, limit: int, lo: int, hi: int): nat {
    if times == [] then 0
    else
      var before, now := times[..|times| - 1], times[|times| - 1];
      Accepted(before, limit, lo, hi) + if lo <= now < hi && IsAccepted(before, limit, now) then 1 else 0
  }

  /** The clock does not run backwards. */
  ghost predicate Monotone(times: seq<int>) {
    forall i, j :: 0 <= i < j < |times| ==> times[i] <= times[j]
  }

  lemma {:induction false} AcceptedSplits(times: seq<int>, limit: int, lo: int, mid: int, hi: int)
    requires lo <= mid <= hi
    ensures Accepted(times, limit, lo, hi) == Accepted(times, limit, lo, mid) + Accepted(times, limit, mid, hi)
  {
    if times != [] {
      AcceptedSplits(times[..|times| - 1], limit, lo, mid, hi);
    }
  }

  lemma {:induction false} NoneAtOrAfter(times: seq<int>, limit: int, lo: int, hi: int)
    requires forall i :: 0 <= i < |times| ==> times[i] < lo
    ensures Accepted(times, limit, lo, hi) == 0
  {
    if times != [] {
      NoneAtOrAfter(times[..|times| - 1], limit, lo, hi);
    }
  }

  lemma AcceptedWithin(times: seq<int>, limit: int, lo: int, hi: int, lo': int, hi': int)
    requires lo' <= lo <= hi <= hi'
    ensures Accepted(times, limit, lo, hi) <= Accepted(times, limit, lo', hi')
  {
    AcceptedSplits(times, limit, lo', lo, hi');
    AcceptedSplits(times, limit, lo, hi, hi');
  }

  /**
   What holds of a key's current window: it has let through exactly count requests, at most limit, the
   first of them at its very start; and any stretch before it that is shorter than a window held at most
   limit - 1.
   */
  ghost predicate WindowHolds(times: seq<int>, limit: int, b: Bucket) {
    && times != []
    && (forall i :: 0 <= i < |times| ==> times[i] < b.windowStart + WINDOW_MS)
    && times[|times| - 1] >= b.windowStart
    && 1 <= b.count <= limit
    && Accepted(times, limit, b.windowStart, b.windowStart + WINDOW_MS) == b.count
    && Accepted(times, limit, b.windowStart + 1, b.windowStart + WINDOW_MS) <= b.count - 1
    && forall lo {:trigger Accepted(times, limit, lo, b.windowStart)} :: b.windowStart - WINDOW_MS < lo <= b.windowStart ==>
         Accepted(times, limit, lo, b.windowStart) <= limit - 1
  }

  /** A window that has passed let through at most limit - 1 after its first moment. */
  lemma PassedWindow(times: seq<int>, limit: int, b: Bucket, lo: int, hi: int)
    requires WindowHolds(times, limit, b)
    requires b.windowStart < lo <= hi && b.windowStart + WINDOW_MS <= hi
    ensures Accepted(times, limit, lo, hi) <= limit - 1
  {
    var end := b.windowStart + WINDOW_MS;
    if lo <= end {
      AcceptedSplits(times, limit, lo, end, hi);
      NoneAtOrAfter(times, limit, end, hi);
      AcceptedWithin(times, limit, lo, end, b.windowStart + 1, end);
    } else {
      NoneAtOrAfter(times, limit, lo, hi);
    }
  }

  /** Before a request that opens a new window, and after the first moment of the last one. */
  lemma BeforeNewWindow(before: seq<int>, limit: int, now: int, lo: int)
    requires limit >= 1 && now - WINDOW_MS < lo <= now
    requires before == [] || (WindowHolds(before, limit, Bucketed(before, limit).value)
                              && now - Bucketed(before, limit).value.windowStart >= WINDOW_MS)
    ensures Accepted(before + [now], limit, lo, now) <= limit - 1
  {
    assert (before + [now])[..|before + [now]| - 1] == before;
    if before != [] {
      PassedWindow(before, limit, Bucketed(before, limit).value, lo, now);
    }
  }

  /** A request that opens a new window. */
  lemma NewWindow(before: seq<int>, limit: int, now: int)
    requires limit >= 1
    requires before == [] || (WindowHolds(before, limit, Bucketed(before, limit).value)
                              && now - Bucketed(before, limit).value.windowStart >= WINDOW_MS)
    requires forall i :: 0 <= i < |before| ==> before[i] < now
    ensures Bucketed(before + [now], limit) == Some(Bucket(now, 1))
    ensures WindowHolds(before + [now], limit, Bucket(now, 1))
  {
    var times := before + [now];
    assert times[..|times| - 1] == before;
    NoneAtOrAfter(before, limit, now, now + WINDOW_MS);
    NoneAtOrAfter(before, limit, now + 1, now + WINDOW_MS);
    forall lo | now - WINDOW_MS < lo <= now
      ensures Accepted(times, limit, lo, now) <= limit - 1
    {
      BeforeNewWindow(before, limit, now, lo);
    }
  }

  /** A request inside the current window. */
  lemma SameWindow(before: seq<int>, limit: int, now: int)
    requires before != [] && WindowHolds(before, limit, Bucketed(before, limit).value)
    requires now - Bucketed(before, limit).value.windowStart < WINDOW_MS
    requires before[|before| - 1] <= now
    ensures Bucketed(before + [now], limit).value.windowStart == Bucketed(before, limit).value.windowStart
    ensures WindowHolds(before + [now], limit, Bucketed(before + [now], limit).value)
  {
    var b := Bucketed(before, limit).value;
    var times := before + [now];
    assert times[..|times| - 1] == before;
    forall lo | b.windowStart - WINDOW_MS < lo <= b.windowStart
      ensures Accepted(times, limit, lo, b.windowStart) <= limit - 1
    {
      assert Accepted(before, limit, lo, b.windowStart) <= limit - 1;
    }
  }

  lemma {:induction false} WindowAlwaysHolds(times: seq<int>, limit: int)
    requires limit >= 1 && times != [] && Monotone(times)
    ensures WindowHolds(times, limit, Bucketed(times, limit).value)
  {
    var before, now := times[..|times| - 1], times[|times| - 1];
    assert times == before + [now];
    if before != [] {
      WindowAlwaysHolds(before, limit);
    }
    if before == [] || now - Bucketed(before, limit).value.windowStart >= WINDOW_MS {
      NewWindow(before, limit, now);
    } else {
      SameWindow(before, limit, now);
    }
  }

  /** In any interval of a window's length that the last request falls into, at most 2 * limit - 1 get through. */
  lemma LastInterval(times: seq<int>, limit: int, t: int)
    requires limit >= 1 && times != [] && Monotone(times)
    requires t <= times[|times| - 1] < t + WINDOW_MS
    ensures Accepted(times, limit, t, t + WINDOW_MS) <= 2 * limit - 1
  {
    WindowAlwaysHolds(times, limit);
    var b := Bucketed(times, limit).value;
    var start, end := b.windowStart, b.windowStart + WINDOW_MS;
    if t <= start {
      AcceptedSplits(times, limit, t, start, t + WINDOW_MS);
      AcceptedWithin(times, limit, start, t + WINDOW_MS, start, end);
    } else {
      PassedWindow(times, limit, b, t, t + WINDOW_MS);
    }
  }

  /**
   The limit over any interval, not just over the limiter's own windows: with a clock that does not run
   backwards, a key gets at most 2 * limit - 1 requests through in any half-open stretch of one minute.
   */
  lemma {:induction false} AnyMinute(times: seq<int>, limit: int, t: int)
    requires limit >= 1 && Monotone(times)
    ensures Accepted(times, limit, t, t + 60000) <= 2 * limit - 1
  {
    if times != [] {
      if t <= times[|times| - 1] < t + WINDOW_MS {
        LastInterval(times, limit, t);
      } else {
        AnyMinute(times[..|times| - 1], limit, t);
      }
    }
  }

  /** Without a positive limit nothing gets through at all. */
  lemma {:induction false} NoLimitNothing(times: seq<int>, limit: int, lo: int, hi: int)
    requires limit <= 0
    ensures Accepted(times, limit, lo, hi) == 0
  {
    if times != [] {
      NoLimitNothing(times[..|times| - 1], limit, lo, hi);
    }
  }

  function Burst(now: int, n: nat): (b: seq<int>)
    ensures |b| == n
    ensures forall i {:trigger b[i]} :: 0 <= i < n ==> b[i] == now
  {
    seq(n, _ => now)
  }

  lemma RequestSnoc(before: seq<int>, limit: int, now: int, b: Option<Bucket>, lo: int, hi: int)
    requires Bucketed(before, limit) == b
    ensures Bucketed(before + [now], limit) == Some(Decide(b, limit, now).0)
    ensures Accepted(before + [now], limit, lo, hi)
            == Accepted(before, limit, lo, hi) + if lo <= now < hi && Decide(b, limit, now).1 then 1 else 0
  {
    assert (before + [now])[..|before|] == before;
  }

  /** Requests at one moment of a window get through while there is room. */
  lemma {:induction false} BurstPasses(before: seq<int>, times: seq<int>, limit: int, now: int, b: Bucket, lo: int, hi: int)
    requires before <= times && forall i {:trigger times[i]} :: |before| <= i < |times| ==> times[i] == now
    requires Bucketed(before, limit) == Some(b)
    requires now - b.windowStart < WINDOW_MS && b.count + |times| - |before| <= limit
    requires lo <= now < hi
    ensures Bucketed(times, limit) == Some(Bucket(b.windowStart, b.count + |times| - |before|))
    ensures Accepted(times, limit, lo, hi) == Accepted(before, limit, lo, hi) + |times| - |before|
  {
    if |times| == |before| {
      assert times == before;
    } else {
      BurstPasses(before, times[..|times| - 1], limit, now, b, lo, hi);
    }
  }

  lemma FirstBurst(limit: nat, w: int)
    requires limit >= 1 && w == WINDOW_MS
    ensures var first := [0] + Burst(w - 1, limit - 1);
            && Bucketed(first, limit) == Some(Bucket(0, limit))
            && Accepted(first, limit, w - 1, w - 1 + w) == limit - 1
  {
    RequestSnoc([], limit, 0, None, w - 1, w - 1 + w);
    assert [] + [0] == [0];
    BurstPasses([0], [0] + Burst(w - 1, limit - 1), limit, w - 1, Bucket(0, 1), w - 1, w - 1 + w);
  }

  lemma SecondBurst(first: seq<int>, limit: nat, w: int)
    requires limit >= 1 && w == WINDOW_MS && Bucketed(first, limit) == Some(Bucket(0, limit))
    ensures Accepted(first + [w] + Burst(w, limit - 1), limit, w - 1, w - 1 + w) == Accepted(first, limit, w - 1, w - 1 + w) + limit
  {
    RequestSnoc(first, limit, w, Some(Bucket(0, limit)), w - 1, w - 1 + w);
    var second := first + [w];
    BurstPasses(second, second + Burst(w, limit - 1), limit, w, Bucket(w, 1), w - 1, w - 1 + w);
  }

  lemma TightRun(limit: nat, w: int)
    requires limit >= 1 && w == WINDOW_MS
    ensures var times := ([0] + Burst(w - 1, limit - 1)) + [w] + Burst(w, limit - 1);
            && Monotone(times)
            && Accepted(times, limit, w - 1, w - 1 + w) == 2 * limit - 1
  {
    FirstBurst(limit, w);
    SecondBurst([0] + Burst(w - 1, limit - 1), limit, w);
  }

  /** The bound is attained for every limit: one request, then limit - 1 at the end of its minute, then limit more. */
  lemma AnyMinuteIsTight(limit: nat)
    requires limit >= 1
    ensures var times := ([0] + Burst(59999, limit - 1)) + [60000] + Burst(60000, limit - 1);
            && Monotone(times)
            && Accepted(times, limit, 59999, 59999 + 60000) == 2 * limit - 1
  {
    TightRun(limit, 60000);
  }

  ghost predicate KeepsMinute(times: seq<int>, limit: int, t: int) {
    Accepted(times, limit, t, t + 60000) <= limit
  }

  /** The fixed window keeps the promise of a sliding one, for every run and every minute, only for limits up to one. */
  lemma SlidingIff(limit: nat)
    ensures (forall times, t {:trigger KeepsMinute(times, limit, t)} :: Monotone(times) ==> KeepsMinute(times, limit, t))
            <==> limit <= 1
  {
    if limit <= 1 {
      forall times, t | Monotone(times)
        ensures KeepsMinute(times, limit, t)
      {
        if limit == 1 {
          AnyMinute(times, limit, t);
        } else {
          NoLimitNothing(times, limit, t, t + WINDOW_MS);
        }
      }
    } else {
      AnyMinuteIsTight(limit);
      var times := ([0] + Burst(59999, limit - 1)) + [60000] + Burst(60000, limit - 1);
      assert !KeepsMinute(times, limit, 59999);
    }
  }

  // ----- Whole traffic -----

  /** How many requests of one key get through in an interval, amid everybody's requests. */
  function Passed(requests: seq<Request>, key: string, lo: int, hi: int): nat {
    if requests == [] then 0
    else
      var before, r := requests[..|requests| - 1], requests[|requests| - 1];
      Passed(before, key, lo, hi) + if r.keyId == key && lo <= r.now < hi && Decisions(requests)[|before|] then 1 else 0
  }

  function Times(requests: seq<Request>, key: string): seq<int> {
    if requests == [] then []
    else
      var r := requests[|requests| - 1];
      Times(requests[..|requests| - 1], key) + if r.keyId == key then [r.now] else []
  }

  lemma {:induction false} OwnBucketByTimes(requests: seq<Request>, key: string, limit: int)
    requires forall i :: 0 <= i < |requests| && requests[i].keyId == key ==> requests[i].limit == limit
    ensures Lookup(After(requests), key) == Bucketed(Times(requests, key), limit)
  {
    if requests != [] {
      var before, r := requests[..|requests| - 1], requests[|requests| - 1];
      OwnBucketByTimes(before, key, limit);
      var times := Times(before, key);
      if r.keyId == key {
        assert (times + [r.now])[..|times|] == times;
      } else {
        assert times + [] == times;
      }
    }
  }

  lemma {:induction false} PassedIsAccepted(requests: seq<Request>, key: string, limit: int, lo: int, hi: int)
    requires forall i :: 0 <= i < |requests| && requests[i].keyId == key ==> requests[i].limit == limit
    ensures Passed(requests, key, lo, hi) == Accepted(Times(requests, key), limit, lo, hi)
  {
    if requests != [] {
      var before, r := requests[..|requests| - 1], requests[|requests| - 1];
      PassedIsAccepted(before, key, limit, lo, hi);
      OwnBucketByTimes(before, key, limit);
      var times := Times(before, key);
      if r.keyId == key {
        assert (times + [r.now])[..|times|] == times;
      } else {
        assert times + [] == times;
      }
    }
  }

  lemma {:induction false} TimesMonotone(requests: seq<Request>, key: string)
    requires forall i, j :: 0 <= i < j < |requests| ==> requests[i].now <= requests[j].now
    ensures Monotone(Times(requests, key))
    ensures forall t :: t in Times(requests, key) && requests != [] ==> t <= requests[|requests| - 1].now
  {
    if requests != [] {
      var before := requests[..|requests| - 1];
      TimesMonotone(before, key);
      forall t | t in Times(before, key)
        ensures t <= requests[|requests| - 1].now
      {
        assert before != [] ==> before[|before| - 1].now <= requests[|requests| - 1].now;
      }
      var times, all := Times(before, key), Times(requests, key);
      forall i | 0 <= i < |times|
        ensures all[i] == times[i] <= requests[|requests| - 1].now
      {
        assert times[i] in times;
      }
    }
  }

  /**
   Among any traffic of any keys: with a clock that does not run backwards and a fixed limit of at least
   one, a key gets at most 2 * limit - 1 requests through in any half-open minute.
   */
  lemma AnyMinuteAmidTraffic(requests: seq<Request>, key: string, limit: int, t: int)
    requires limit >= 1
    requires forall i, j :: 0 <= i < j < |requests| ==> requests[i].now <= requests[j].now
    requires forall i :: 0 <= i < |requests| && requests[i].keyId == key ==> requests[i].limit == limit
    ensures Passed(requests, key, t, t + 60000) <= 2 * limit - 1
  {
    PassedIsAccepted(requests, key, limit, t, t + WINDOW_MS);
    TimesMonotone(requests, key);
    AnyMinute(Times(requests, key), limit, t);
  }
}
