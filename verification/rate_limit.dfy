/** The fixed-window rate limiter: what it keeps, how much it lets through, and that keys do
    not affect each other. Times are nanoseconds. */
module RateLimit {
  import opened Arithmetic
  import opened Wrappers

  datatype Limit = Limit(max: U32, window: nat)

  datatype Bucket = Bucket(count: U32, start: int)

  datatype Call = Call(key: string, time: int)

  /** Time elapsed since `start`; none, since a later instant. */
  function Elapsed(now: int, start: int): nat {
    if now >= start then now - start else 0
  }

  /** One call on a bucket, a new one if there is none: whether it is allowed, and the bucket
      after it. */
  function Serve(l: Limit, b: Option<Bucket>, now: int): (bool, Bucket) {
    var b0 := if b.Some? then b.value else Bucket(0, now);
    var b1 := if Elapsed(now, b0.start) >= l.window then Bucket(0, now) else b0;
    if b1.count >= l.max then (false, b1) else (true, Bucket(b1.count + 1, b1.start))
  }

  // --- One key ---

  /** The bucket after calls at `times`. */
  function BucketAfter(l: Limit, times: seq<int>): (b: Option<Bucket>)
    ensures b.Some? <==> times != []
  {
    if times == [] then None else Some(Serve(l, BucketAfter(l, times[..|times| - 1]), times[|times| - 1]).1)
  }

  /** Is the last call at `times` allowed? */
  predicate LastAllowed(l: Limit, times: seq<int>)
    requires times != []
  {
    Serve(l, BucketAfter(l, times[..|times| - 1]), times[|times| - 1]).0
  }

  /** Calls allowed at a time from `lo` on and before `hi`. */
  function AllowedIn(l: Limit, times: seq<int>, lo: int, hi: int): nat {
    if times == [] then 0
    else
      AllowedIn(l, times[..|times| - 1], lo, hi)
      + if lo <= times[|times| - 1] < hi && LastAllowed(l, times) then 1 else 0
  }

  // --- All keys ---

  function Stored(buckets: map<string, Bucket>, key: string): Option<Bucket> {
    if key in buckets then Some(buckets[key]) else None
  }

  /** The stored buckets after `calls`. */
  function Buckets(l: Limit, calls: seq<Call>): map<string, Bucket> {
    if calls == [] then map[]
    else
      var before, c := Buckets(l, calls[..|calls| - 1]), calls[|calls| - 1];
      before[c.key := Serve(l, Stored(before, c.key), c.time).1]
  }

  /** The times of the calls of one key. */
  function TimesOf(calls: seq<Call>, key: string): seq<int> {
    if calls == [] then []
    else
      var c := calls[|calls| - 1];
      TimesOf(calls[..|calls| - 1], key) + if c.key == key then [c.time] else []
  }

  /** What is stored for a key depends on its own calls only. */
  lemma {:induction false} OwnCallsOnly(l: Limit, calls: seq<Call>, key: string)
    ensures Stored(Buckets(l, calls), key) == BucketAfter(l, TimesOf(calls, key))
  {
    if calls != [] {
      var front, c := calls[..|calls| - 1], calls[|calls| - 1];
      OwnCallsOnly(l, front, key);
      if c.key == key {
        assert (TimesOf(front, key) + [c.time])[..|TimesOf(front, key)|] == TimesOf(front, key);
      } else {
        assert TimesOf(front, key) + [] == TimesOf(front, key);
      }
    }
  }

  /** One more call, of `key`. */
  lemma NextCall(l: Limit, calls: seq<Call>, key: string, now: int)
    ensures var calls', served := calls + [Call(key, now)], Serve(l, Stored(Buckets(l, calls), key), now);
            && Buckets(l, calls') == Buckets(l, calls)[key := served.1]
            && TimesOf(calls', key) == TimesOf(calls, key) + [now]
            && LastAllowed(l, TimesOf(calls', key)) == served.0
  {
    var calls', times := calls + [Call(key, now)], TimesOf(calls, key);
    assert calls'[..|calls|] == calls;
    assert (times + [now])[..|times|] == times;
    OwnCallsOnly(l, calls, key);
  }

  class RateLimiter {
    const limit: Limit
    var buckets: map<string, Bucket>
    ghost var calls: seq<Call>

    ghost predicate Valid()
      reads this
    {
      buckets == Buckets(limit, calls)
    }

    constructor (max: U32, window: nat)
      ensures Valid() && limit == Limit(max, window) && calls == []
    {
      limit, buckets, calls := Limit(max, window), map[], [];
    }

    /** Whether the call is allowed is decided by the earlier calls of its key alone. */
    method Allow(key: string, now: int) returns (allowed: bool)
      requires Valid()
      modifies this
      ensures Valid() && calls == old(calls) + [Call(key, now)]
      ensures TimesOf(calls, key) == TimesOf(old(calls), key) + [now]
      ensures allowed == LastAllowed(limit, TimesOf(calls, key))
    {
      hide Buckets, TimesOf, LastAllowed;
      NextCall(limit, calls, key, now);
      calls := calls + [Call(key, now)];
      var bucket := if key in buckets then buckets[key] else Bucket(0, now);
      if Elapsed(now, bucket.start) >= limit.window {
        bucket := Bucket(0, now);
      }
      if bucket.count >= limit.max {
        buckets := buckets[key := bucket];
        return false;
      }
      buckets := buckets[key := Bucket(bucket.count + 1, bucket.start)];
      allowed := true;
    }
  }

  // --- What the count means ---

  /** A clock that does not go back. */
  ghost predicate InOrder(times: seq<int>) {
    forall i, j | 0 <= i < j < |times| :: times[i] <= times[j]
  }

  lemma {:induction false} StartIsPast(l: Limit, times: seq<int>)
    requires InOrder(times) && times != []
    ensures var b := BucketAfter(l, times).value;
            b.start <= times[|times| - 1] && b.count <= l.max
            && (l.max > 0 ==> b.count > 0) && (l.window > 0 ==> times[|times| - 1] - b.start < l.window)
  {
    if |times| > 1 {
      StartIsPast(l, times[..|times| - 1]);
    }
  }

  lemma {:induction false} NoneLater(l: Limit, times: seq<int>, lo: int, hi: int)
    requires forall i | 0 <= i < |times| :: times[i] < lo
    ensures AllowedIn(l, times, lo, hi) == 0
  {
    if times != [] {
      NoneLater(l, times[..|times| - 1], lo, hi);
    }
  }

  /** With a window of some length, the stored count is the number of calls allowed since the
      window started. */
  lemma {:induction false} CountIsAllowedSince(l: Limit, times: seq<int>, hi: int)
    requires InOrder(times) && times != [] && l.window > 0 && times[|times| - 1] < hi
    ensures var b := BucketAfter(l, times).value; b.count == AllowedIn(l, times, b.start, hi)
  {
    var front, now := times[..|times| - 1], times[|times| - 1];
    if front != [] {
      StartIsPast(l, front);
      CountIsAllowedSince(l, front, hi);
      if now - BucketAfter(l, front).value.start >= l.window {
        NoneLater(l, front, now, hi);
      }
    } else {
      assert AllowedIn(l, front, now, hi) == 0;
    }
  }

  /** A budget of no calls lets none through. */
  lemma {:induction false} NoBudgetNoCalls(l: Limit, times: seq<int>, lo: int, hi: int)
    requires l.max == 0
    ensures AllowedIn(l, times, lo, hi) == 0
  {
    if times != [] {
      NoBudgetNoCalls(l, times[..|times| - 1], lo, hi);
    }
  }

  /** A clock that goes back opens no window: a call before the end of the open one, even one
      before its begin, is counted in it, and allowed while the budget lasts. */
  lemma OpenWindowCounts(l: Limit, times: seq<int>, t: int)
    requires times != [] && l.window > 0 && t < BucketAfter(l, times).value.start + l.window
    ensures var b := BucketAfter(l, times).value;
            && (LastAllowed(l, times + [t]) <==> b.count < l.max)
            && BucketAfter(l, times + [t]) == Some(Bucket(if b.count < l.max then b.count + 1 else b.count, b.start))
  {
    assert (times + [t])[..|times|] == times;
  }

  // --- How much gets through ---

  /** One more call, before `hi`: it is counted in the open window, or opens another. */
  lemma OneMoreCall(l: Limit, times: seq<int>, lo: int, hi: int)
    requires InOrder(times) && |times| > 1 && l.window > 0 && l.max > 0 && times[|times| - 1] < hi
    ensures var front, now := times[..|times| - 1], times[|times| - 1];
            var b, b', one := BucketAfter(l, front).value, BucketAfter(l, times).value, if lo <= now then 1 else 0;
            && InOrder(front) && front[|front| - 1] <= now
            && AllowedIn(l, times, lo, hi) == AllowedIn(l, front, lo, hi) + (if b.count < l.max || now - b.start >= l.window then one else 0)
            && b' == if now - b.start >= l.window then Bucket(1, now) else Bucket(if b.count < l.max then b.count + 1 else b.count, b.start)
  {
    StartIsPast(l, times[..|times| - 1]);
  }

  /** Calls allowed from `lo` on, when all calls come before `hi`: the open window accounts for
      its count. If it started before `lo`, its first call is not among them. If not, `k` windows
      that also started from `lo` on were closed before it, each at least a window earlier; and
      if a window that started before `lo` was still open then (`straddled`), it gave all but its
      first call, and the rest came at least a moment later. */
  lemma {:induction false} AllowedSoFar(l: Limit, times: seq<int>, lo: int, hi: int) returns (k: nat, straddled: bool)
    requires InOrder(times) && times != [] && l.window > 0 && l.max > 0
    requires times[|times| - 1] < hi
    ensures var b, a := BucketAfter(l, times).value, AllowedIn(l, times, lo, hi);
            if b.start < lo then a < b.count && (a > 0 ==> lo < b.start + l.window)
            else if straddled then k * l.window < b.start - lo && a < b.count + l.max * k + l.max
            else k * l.window <= b.start - lo && a <= b.count + l.max * k
  {
    hide BucketAfter, AllowedIn, InOrder;
    k, straddled := 0, false;
    var front, now := times[..|times| - 1], times[|times| - 1];
    if front != [] {
      OneMoreCall(l, times, lo, hi);
      StartIsPast(l, front);
      var b := BucketAfter(l, front).value;
      var y, was := AllowedSoFar(l, front, lo, hi);
      if now - b.start < l.window {
        k, straddled := y, was;
      } else if now < lo {
        AllPast(front, lo);
        NoneLater(l, front, lo, hi);
      } else if b.start >= lo {
        k, straddled := y + 1, was;
        MulSucc(l.max, y);
        MulSucc(l.window, y);
      } else {
        straddled := AllowedIn(l, front, lo, hi) > 0;
      }
    } else {
      FirstCall(l, now, lo, hi);
      assert times == [now];
    }
  }

  lemma AllPast(times: seq<int>, lo: int)
    requires InOrder(times) && times != [] && times[|times| - 1] < lo
    ensures forall i | 0 <= i < |times| :: times[i] < lo
  {
  }

  lemma FirstCall(l: Limit, now: int, lo: int, hi: int)
    requires l.window > 0 && l.max > 0 && now < hi
    ensures BucketAfter(l, [now]) == Some(Bucket(1, now)) && AllowedIn(l, [now], lo, hi) == if lo <= now then 1 else 0
  {
    assert [now][..0] == [];
    assert AllowedIn(l, [], lo, hi) == 0;
  }

  /** The bounds below, when all calls come before the end. `closed` is 1 if the span holds both
      of its ends, and 0 if it is half-open. */
  lemma ThroughputSoFar(l: Limit, times: seq<int>, lo: int, hi: int, n: nat, closed: nat)
    requires InOrder(times) && times != [] && l.window > 0 && l.max > 0 && closed <= 1
    requires times[|times| - 1] < hi && lo <= hi <= lo + n * l.window + closed
    ensures AllowedIn(l, times, lo, hi) <= l.max * (n + 1) - 1 + closed
  {
    hide BucketAfter, AllowedIn, InOrder;
    StartIsPast(l, times);
    var k, straddled := AllowedSoFar(l, times, lo, hi);
    MulSucc(l.max, n);
    MulSucc(l.max, k);
    MulMonotone(0, n, l.max);
    if BucketAfter(l, times).value.start >= lo {
      if straddled || closed == 0 {
        FactorLess(k, n, l.window);
        MulMonotone(k + 1, n, l.max);
      } else {
        FactorAtMost(k, n, l.window);
        MulMonotone(k, n, l.max);
      }
    }
  }

  lemma {:induction false} Throughput(l: Limit, times: seq<int>, lo: int, hi: int, n: nat, closed: nat)
    requires InOrder(times) && l.window > 0 && l.max > 0 && closed <= 1
    requires hi <= lo + n * l.window + closed
    ensures AllowedIn(l, times, lo, hi) <= l.max * (n + 1) - 1 + closed
  {
    if times == [] {
      MulSucc(l.max, n);
      MulMonotone(0, n, l.max);
    } else if times[|times| - 1] < hi && lo <= hi {
      ThroughputSoFar(l, times, lo, hi, n, closed);
    } else {
      Throughput(l, times[..|times| - 1], lo, hi, n, closed);
    }
  }

  lemma {:induction false} KeyTimesInOrder(calls: seq<Call>, key: string)
    requires forall i, j | 0 <= i < j < |calls| :: calls[i].time <= calls[j].time
    ensures InOrder(TimesOf(calls, key))
    ensures forall i | 0 <= i < |TimesOf(calls, key)| :: TimesOf(calls, key)[i] <= calls[|calls| - 1].time
  {
    if calls != [] {
      KeyTimesInOrder(calls[..|calls| - 1], key);
    }
  }

  /** In any span of at most `n` windows, both ends included, a key gets at most `max * (n + 1)`
      calls through, whatever other keys do; in a half-open one, `[lo, hi)`, one less. */
  lemma LimiterThroughput(l: Limit, calls: seq<Call>, key: string, lo: int, hi: int, n: nat)
    requires forall i, j | 0 <= i < j < |calls| :: calls[i].time <= calls[j].time
    requires l.window > 0 && hi - lo <= n * l.window
    ensures AllowedIn(l, TimesOf(calls, key), lo, hi + 1) <= l.max * (n + 1)
    ensures l.max > 0 ==> AllowedIn(l, TimesOf(calls, key), lo, hi) <= l.max * (n + 1) - 1
  {
    if l.max == 0 {
      NoBudgetNoCalls(l, TimesOf(calls, key), lo, hi + 1);
    } else {
      KeyTimesInOrder(calls, key);
      Throughput(l, TimesOf(calls, key), lo, hi + 1, n, 1);
      Throughput(l, TimesOf(calls, key), lo, hi, n, 0);
    }
  }

  // --- The bound is reached ---

  function Burst(t: int, m: nat): seq<int> {
    seq(m, _ => t)
  }

  lemma OneFits(l: Limit, times: seq<int>, t: int, lo: int, hi: int)
    requires times != [] && lo <= t < hi
    requires var b := BucketAfter(l, times).value; b.start <= t < b.start + l.window && b.count < l.max
    ensures var b := BucketAfter(l, times).value; BucketAfter(l, times + [t]) == Some(Bucket(b.count + 1, b.start))
    ensures AllowedIn(l, times + [t], lo, hi) == AllowedIn(l, times, lo, hi) + 1
  {
    assert (times + [t])[..|times|] == times;
  }

  /** Calls within what the open window still lets through are all allowed. */
  lemma {:induction false} BurstFits(l: Limit, times: seq<int>, t: int, m: nat, lo: int, hi: int)
    requires times != [] && lo <= t < hi
    requires var b := BucketAfter(l, times).value; b.start <= t < b.start + l.window && b.count + m <= l.max
    ensures var b := BucketAfter(l, times).value;
            BucketAfter(l, times + Burst(t, m)) == Some(Bucket(b.count + m, b.start))
    ensures AllowedIn(l, times + Burst(t, m), lo, hi) == AllowedIn(l, times, lo, hi) + m
    decreases m
  {
    hide BucketAfter, AllowedIn;
    if m == 0 {
      assert times + Burst(t, m) == times;
    } else {
      BurstFits(l, times, t, m - 1, lo, hi);
      var fewer := times + Burst(t, m - 1);
      assert times + Burst(t, m) == fewer + [t];
      OneFits(l, fewer, t, lo, hi);
    }
  }

  lemma OneFresh(l: Limit, times: seq<int>, t: int, lo: int, hi: int)
    requires times != [] && lo <= t < hi && l.max > 0
    requires t >= BucketAfter(l, times).value.start + l.window
    ensures BucketAfter(l, times + [t]) == Some(Bucket(1, t))
    ensures AllowedIn(l, times + [t], lo, hi) == AllowedIn(l, times, lo, hi) + 1
  {
    assert (times + [t])[..|times|] == times;
  }

  /** A full burst once the open window is over. */
  lemma FreshBurst(l: Limit, times: seq<int>, t: int, lo: int, hi: int)
    requires times != [] && lo <= t < hi && l.window > 0 && l.max > 0
    requires t >= BucketAfter(l, times).value.start + l.window
    ensures BucketAfter(l, times + Burst(t, l.max)) == Some(Bucket(l.max, t))
    ensures AllowedIn(l, times + Burst(t, l.max), lo, hi) == AllowedIn(l, times, lo, hi) + l.max
  {
    hide BucketAfter, AllowedIn;
    var first := times + [t];
    OneFresh(l, times, t, lo, hi);
    BurstFits(l, first, t, l.max - 1, lo, hi);
    assert first + Burst(t, l.max - 1) == times + Burst(t, l.max);
  }

  /** One call just before 0, the rest of its window at 0, then a full window at the end of each
      of `n` windows from 0 on. */
  function Bursts(l: Limit, n: nat): seq<int>
    requires l.max > 0
  {
    if n == 0 then [-1] + Burst(0, l.max - 1) else Bursts(l, n - 1) + Burst(n * l.window - 1, l.max)
  }

  lemma {:induction false} BurstsInOrder(l: Limit, n: nat)
    requires l.max > 0 && l.window >= 2
    ensures InOrder(Bursts(l, n))
    ensures forall i | 0 <= i < |Bursts(l, n)| :: Bursts(l, n)[i] <= if n == 0 then 0 else n * l.window - 1
  {
    if n > 0 {
      BurstsInOrder(l, n - 1);
      assert n * l.window == (n - 1) * l.window + l.window;
    }
  }

  lemma FirstBurst(l: Limit, hi: int)
    requires l.max > 0 && l.window >= 2 && 0 < hi
    ensures BucketAfter(l, Bursts(l, 0)) == Some(Bucket(l.max, -1))
    ensures AllowedIn(l, Bursts(l, 0), 0, hi) == l.max - 1
  {
    var first := [-1];
    assert first[..0] == [];
    assert BucketAfter(l, []) == None && AllowedIn(l, [], 0, hi) == 0;
    assert BucketAfter(l, first) == Some(Bucket(1, -1)) && AllowedIn(l, first, 0, hi) == 0;
    BurstFits(l, first, 0, l.max - 1, 0, hi);
  }

  lemma {:induction false} BurstsAllowed(l: Limit, n: nat, hi: int)
    requires l.max > 0 && l.window >= 2 && n * l.window <= hi && 0 < hi
    ensures Bursts(l, n) != [] && BucketAfter(l, Bursts(l, n)) == Some(Bucket(l.max, n * l.window - 1))
    ensures AllowedIn(l, Bursts(l, n), 0, hi) == l.max * (n + 1) - 1
  {
    hide BucketAfter, AllowedIn;
    if n == 0 {
      FirstBurst(l, hi);
    } else {
      MulSucc(l.window, n - 1);
      MulSucc(l.max, n);
      BurstsAllowed(l, n - 1, hi);
      MulMonotone(0, n - 1, l.window);
      FreshBurst(l, Bursts(l, n - 1), n * l.window - 1, 0, hi);
    }
  }

  /** Full bursts at 0 and at the end of each of `n` windows from 0 on. */
  function FullBursts(l: Limit, n: nat): seq<int> {
    if n == 0 then Burst(0, l.max) else FullBursts(l, n - 1) + Burst(n * l.window, l.max)
  }

  lemma {:induction false} FullBurstsInOrder(l: Limit, n: nat)
    ensures InOrder(FullBursts(l, n))
    ensures forall i | 0 <= i < |FullBursts(l, n)| :: FullBursts(l, n)[i] <= n * l.window
  {
    if n > 0 {
      FullBurstsInOrder(l, n - 1);
      MulSucc(l.window, n - 1);
    }
  }

  lemma OpeningBurst(l: Limit, hi: int)
    requires l.max > 0 && l.window > 0 && 0 < hi
    ensures BucketAfter(l, FullBursts(l, 0)) == Some(Bucket(l.max, 0))
    ensures AllowedIn(l, FullBursts(l, 0), 0, hi) == l.max
  {
    var first := [0];
    assert first[..0] == [];
    assert BucketAfter(l, []) == None && AllowedIn(l, [], 0, hi) == 0;
    assert BucketAfter(l, first) == Some(Bucket(1, 0)) && AllowedIn(l, first, 0, hi) == 1;
    BurstFits(l, first, 0, l.max - 1, 0, hi);
    assert first + Burst(0, l.max - 1) == Burst(0, l.max);
  }

  lemma {:induction false} FullBurstsAllowed(l: Limit, n: nat, hi: int)
    requires l.max > 0 && l.window > 0 && n * l.window < hi
    ensures FullBursts(l, n) != [] && BucketAfter(l, FullBursts(l, n)) == Some(Bucket(l.max, n * l.window))
    ensures AllowedIn(l, FullBursts(l, n), 0, hi) == l.max * (n + 1)
  {
    hide BucketAfter, AllowedIn;
    MulMonotone(0, n, l.window);
    if n == 0 {
      OpeningBurst(l, hi);
    } else {
      MulSucc(l.window, n - 1);
      MulSucc(l.max, n);
      FullBurstsAllowed(l, n - 1, hi);
      FreshBurst(l, FullBursts(l, n - 1), n * l.window, 0, hi);
    }
  }

  /** Both bounds are the best there are: for every number of windows some calls reach them. */
  lemma BoundsReached(l: Limit, n: nat) returns (closed: seq<int>, open: seq<int>)
    requires l.max > 0 && l.window > 0
    ensures InOrder(closed) && AllowedIn(l, closed, 0, n * l.window + 1) == l.max * (n + 1)
    ensures l.window >= 2 && n > 0 ==> InOrder(open) && AllowedIn(l, open, 0, n * l.window) == l.max * (n + 1) - 1
  {
    closed, open := FullBursts(l, n), [];
    FullBurstsInOrder(l, n);
    FullBurstsAllowed(l, n, n * l.window + 1);
    if l.window >= 2 && n > 0 {
      open := Bursts(l, n);
      MulSucc(l.window, n - 1);
      MulMonotone(0, n - 1, l.window);
      BurstsInOrder(l, n);
      BurstsAllowed(l, n, n * l.window);
    }
  }

  // --- At most `max` a window ---

  /** Calls allowed in the span of one window from `lo` on. */
  function AllowedInSpan(l: Limit, times: seq<int>, lo: int): nat {
    AllowedIn(l, times, lo, lo + l.window)
  }

  /** In every span of one window at most `max` calls of a key get through. */
  ghost predicate AtMostMaxPerWindow(l: Limit) {
    forall times, lo | InOrder(times) :: AllowedInSpan(l, times, lo) <= l.max
  }

  /** The limit that is promised, `max` calls a window, holds in every span of one window exactly
      when `max` is at most 1, or the window is a single moment or empty. In all other cases some
      span of one window lets `2 * max - 1` calls through. With an empty window the promise says
      nothing, and any number of calls gets through at one moment, unless none ever does. */
  lemma AtMostMaxIff(l: Limit)
    ensures AtMostMaxPerWindow(l) <==> l.max <= 1 || l.window <= 1
    ensures l.max > 1 && l.window > 1 ==>
              exists times :: InOrder(times) && AllowedInSpan(l, times, 0) == 2 * l.max - 1
    ensures l.max > 0 && l.window == 0 ==> forall n: nat :: AllowedIn(l, Burst(0, n), 0, 1) == n
  {
    hide AllowedIn, InOrder;
    if l.max > 0 && l.window == 0 {
      forall n: nat ensures AllowedIn(l, Burst(0, n), 0, 1) == n {
        NoWindowNoLimit(l, n);
      }
    }
    if l.max > 1 && l.window > 1 {
      var _, times := BoundsReached(l, 1);
      assert InOrder(times) && AllowedInSpan(l, times, 0) == 2 * l.max - 1;
    } else {
      forall times, lo | InOrder(times) ensures AllowedInSpan(l, times, lo) <= l.max {
        SmallLimit(l, times, lo);
      }
    }
  }

  lemma {:induction false} NoWindowNoLimit(l: Limit, n: nat)
    requires l.window == 0 && l.max > 0
    ensures AllowedIn(l, Burst(0, n), 0, 1) == n
    decreases n
  {
    if n > 0 {
      assert Burst(0, n)[..n - 1] == Burst(0, n - 1);
      NoWindowNoLimit(l, n - 1);
    }
  }

  lemma {:induction false} NoSpanNoCalls(l: Limit, times: seq<int>, lo: int)
    ensures AllowedIn(l, times, lo, lo) == 0
  {
    if times != [] {
      NoSpanNoCalls(l, times[..|times| - 1], lo);
    }
  }

  lemma SmallLimit(l: Limit, times: seq<int>, lo: int)
    requires InOrder(times) && (l.max <= 1 || l.window <= 1)
    ensures AllowedInSpan(l, times, lo) <= l.max
  {
    hide AllowedIn, InOrder;
    if l.window == 0 {
      NoSpanNoCalls(l, times, lo);
    } else if l.max == 0 {
      NoBudgetNoCalls(l, times, lo, lo + l.window);
    } else if l.max == 1 {
      Throughput(l, times, lo, lo + l.window, 1, 0);
    } else {
      Throughput(l, times, lo, lo + 1, 0, 1);
    }
  }
}
