/**
 The fixed-window limiter with lockout. Times and durations are milliseconds; a guarded call is
 one that `checkLockout` lets through at the same instant.
 */
module RateLimit {
  import opened Wrappers

  datatype Bucket = Bucket(count: nat, resetAt: nat, lockedUntil: Option<nat>)

  datatype Options = Options(limit: nat, window: nat, lockout: nat)

  predicate Locked(b: Option<Bucket>, now: nat) {
    b.Some? && b.value.lockedUntil.Some? && b.value.lockedUntil.value > now
  }

  /** The bucket row after `recordFail`. */
  function Failed(b: Option<Bucket>, o: Options, now: nat): Bucket {
    match b
    case None => Bucket(1, now + o.window, None)
    case Some(r) =>
      var expired := r.resetAt <= now;
      Bucket(if expired then 1 else r.count + 1,
             if expired then now + o.window else r.resetAt,
             if !expired && r.count + 1 >= o.limit then Some(now + o.lockout) else r.lockedUntil)
  }

  class Limiter {
    var buckets: map<string, Bucket>

    function BucketOf(key: string): Option<Bucket>
      reads this
    {
      if key in buckets then Some(buckets[key]) else None
    }

    constructor ()
      ensures buckets == map[]
    {
      buckets := map[];
    }

    /** The wait until the lock ends, when there is a lock. */
    method CheckLockout(key: string, now: nat) returns (retryAfter: Option<nat>)
      ensures retryAfter.Some? <==> Locked(BucketOf(key), now)
      ensures retryAfter.Some? ==> forall t: nat :: now <= t ==>
        (Locked(BucketOf(key), t) <==> t < now + retryAfter.value)
    {
      if key in buckets && buckets[key].lockedUntil.Some? && buckets[key].lockedUntil.value > now {
        retryAfter := Some(buckets[key].lockedUntil.value - now);
      } else {
        retryAfter := None;
      }
    }

    method RecordFail(key: string, o: Options, now: nat) returns (count: nat, lockedUntil: Option<nat>)
      modifies this
      ensures buckets == old(buckets)[key := Failed(old(BucketOf(key)), o, now)]
      ensures count == buckets[key].count && lockedUntil == buckets[key].lockedUntil
    {
      if key !in buckets {
        buckets := buckets[key := Bucket(1, now + o.window, None)];
      } else {
        var r := buckets[key];
        var next := r;
        if r.resetAt <= now {
          next := next.(count := 1, resetAt := now + o.window);
        } else {
          next := next.(count := r.count + 1);
          if r.count + 1 >= o.limit {
            next := next.(lockedUntil := Some(now + o.lockout));
          }
        }
        buckets := buckets[key := next];
      }
      count, lockedUntil := buckets[key].count, buckets[key].lockedUntil;
    }

    method Reset(key: string)
      modifies this
      ensures buckets == old(buckets) - {key}
    {
      buckets := buckets - {key};
    }
  }

  // ----- Histories of one bucket since it was created -----

  /** The bucket after failures at times `ts`. */
  function BucketAfter(o: Options, ts: seq<nat>): Option<Bucket> {
    if ts == [] then None else Some(Failed(BucketAfter(o, ts[..|ts| - 1]), o, ts[|ts| - 1]))
  }

  /** Failures in order of time, each recorded at a moment when the bucket was not locked. */
  predicate Guarded(o: Options, ts: seq<nat>) {
    ts == [] ||
    (var n := |ts| - 1;
     Guarded(o, ts[..n]) && !Locked(BucketAfter(o, ts[..n]), ts[n]) && (n > 0 ==> ts[n - 1] <= ts[n]))
  }

  function CountAfter(o: Options, ts: seq<nat>): nat {
    match BucketAfter(o, ts) case None => 0 case Some(b) => b.count
  }

  lemma {:induction false} GuardedPrefix(o: Options, ts: seq<nat>, n: nat)
    requires Guarded(o, ts) && n <= |ts|
    ensures Guarded(o, ts[..n])
    ensures 0 < n < |ts| ==> !Locked(BucketAfter(o, ts[..n]), ts[n])
  {
    if n == |ts| {
      assert ts[..n] == ts;
    } else {
      assert ts[..|ts| - 1][..n] == ts[..n];
      GuardedPrefix(o, ts[..|ts| - 1], n);
    }
  }

  lemma {:induction false} GuardedOrder(o: Options, ts: seq<nat>, i: nat, j: nat)
    requires Guarded(o, ts) && i <= j < |ts|
    ensures ts[i] <= ts[j]
  {
    var n := |ts| - 1;
    if j < n {
      GuardedOrder(o, ts[..n], i, j);
    } else if i < n {
      GuardedOrder(o, ts[..n], i, n - 1);
    }
  }

  /** The limiter is strict enough for its counter to stop at the limit. */
  predicate Strict(o: Options) {
    o.limit >= 2 && o.lockout >= o.window
  }

  /**
   The bucket in terms of the history: the counted failures are the last `count`, the window
   starts at the first of them, and the bucket is locked from the `limit`-th on.
   */
  lemma {:induction false} BucketShape(o: Options, ts: seq<nat>)
    requires Strict(o) && Guarded(o, ts) && ts != []
    ensures var b := BucketAfter(o, ts).value;
            && 1 <= b.count <= o.limit && b.count <= |ts|
            && b.resetAt == ts[|ts| - b.count] + o.window
            && ts[|ts| - 1] - ts[|ts| - b.count] <= o.window
            && (b.count == o.limit ==> b.lockedUntil == Some(ts[|ts| - 1] + o.lockout))
            && (b.count < o.limit && b.lockedUntil.Some? ==> b.lockedUntil.value <= ts[|ts| - b.count])
  {
    var n := |ts| - 1;
    GuardedPrefix(o, ts, n);
    if n > 0 {
      BucketShape(o, ts[..n]);
      GuardedOrder(o, ts, n - BucketAfter(o, ts[..n]).value.count, n - 1);
    }
  }

  /** The first failure of the window that failure `j` is counted in. */
  function WindowStart(o: Options, ts: seq<nat>, j: nat): int
    requires j < |ts|
  {
    j + 1 - CountAfter(o, ts[..j + 1])
  }

  /** A failure counted 1 comes a window length after the previous window began, and after any lock. */
  lemma RestartGap(o: Options, ts: seq<nat>, s: nat)
    requires Strict(o) && Guarded(o, ts) && 0 < s < |ts| && CountAfter(o, ts[..s + 1]) == 1
    ensures var p := WindowStart(o, ts, s - 1);
            && 0 <= p < s
            && ts[s] >= ts[p] + o.window
            && (s - p == o.limit ==> ts[s] >= ts[s - 1] + o.window)
  {
    var before := ts[..s];
    GuardedOrder(o, ts, s - 1, s);
    assert ts[..s + 1][..s] == before && ts[..s - 1 + 1] == before;
    GuardedPrefix(o, ts, s);
    BucketShape(o, before);
    var b := BucketAfter(o, before).value;
    assert !Locked(Some(b), ts[s]);
    assert before[s - b.count] == ts[s - b.count] && before[s - 1] == ts[s - 1];
  }

  /** A window holds at most `limit` failures and starts where the count is 1. */
  lemma WindowGap(o: Options, ts: seq<nat>, j: nat)
    requires Strict(o) && Guarded(o, ts) && j < |ts|
    ensures 0 <= WindowStart(o, ts, j) <= j
    ensures j - WindowStart(o, ts, j) + 1 <= o.limit
    ensures CountAfter(o, ts[..WindowStart(o, ts, j) + 1]) == 1
  {
    GuardedPrefix(o, ts, j + 1);
    BucketShape(o, ts[..j + 1]);
    WindowOpens(o, ts, j);
  }

  /** The failure that starts a window is counted 1. */
  lemma {:induction false} WindowOpens(o: Options, ts: seq<nat>, j: nat)
    requires Strict(o) && Guarded(o, ts) && j < |ts|
    ensures 0 <= WindowStart(o, ts, j) <= j
    ensures CountAfter(o, ts[..WindowStart(o, ts, j) + 1]) == 1
    decreases j
  {
    GuardedPrefix(o, ts, j + 1);
    BucketShape(o, ts[..j + 1]);
    if CountAfter(o, ts[..j + 1]) > 1 {
      assert ts[..j + 1][..j] == ts[..j];
      WindowOpens(o, ts, j - 1);
      assert WindowStart(o, ts, j - 1) == WindowStart(o, ts, j);
    }
  }

  /** Any half-open interval of one window length holds at most 2 * limit - 2 recorded failures. */
  lemma SlidingBound(o: Options, ts: seq<nat>, i: nat, j: nat)
    requires Strict(o) && Guarded(o, ts)
    requires i <= j < |ts| && ts[j] - ts[i] < o.window
    ensures j - i + 1 <= 2 * o.limit - 2
  {
    WindowGap(o, ts, j);
    var s := WindowStart(o, ts, j);
    if i < s {
      var p := WindowStart(o, ts, s - 1);
      RestartGap(o, ts, s);
      WindowGap(o, ts, s - 1);
      GuardedOrder(o, ts, s, j);
      GuardedOrder(o, ts, i, s - 1);
      if i < p {
        GuardedOrder(o, ts, i, p);
      }
      assert i > p;
    }
  }

  // ----- The bound is reached -----

  /** `n` failures at time 0. */
  function Burst(n: nat): (ts: seq<nat>)
    ensures |ts| == n && (n > 0 ==> ts[n - 1] == 0)
  {
    if n == 0 then [] else Burst(n - 1) + [0]
  }

  /** One failure, `a` more just before its window ends, then `b` at the moment it ends. */
  function Straddle(o: Options, a: nat, b: nat): (ts: seq<nat>)
    requires o.window > 0
    ensures |ts| == 1 + a + b
    ensures ts[|ts| - 1] == if b > 0 then o.window else if a > 0 then o.window - 1 else 0
    ensures |ts| > 1 ==> ts[1] >= o.window - 1
    decreases b, a
  {
    if b > 0 then Straddle(o, a, b - 1) + [o.window]
    else if a > 0 then Straddle(o, a - 1, 0) + [o.window - 1]
    else [0]
  }

  lemma BucketSnoc(o: Options, ts: seq<nat>, t: nat)
    ensures BucketAfter(o, ts + [t]) == Some(Failed(BucketAfter(o, ts), o, t))
  {
    assert (ts + [t])[..|ts|] == ts;
  }

  /** The bucket that `Straddle` leaves behind. */
  function StraddleEnd(o: Options, a: nat, b: nat): Bucket {
    if b == 0 then Bucket(a + 1, o.window, None)
    else Bucket(b, 2 * o.window, if b == o.limit then Some(o.window + o.lockout) else None)
  }

  lemma HistoryStep(o: Options, rest: seq<nat>, t: nat, before: Option<Bucket>, after: Bucket)
    requires Guarded(o, rest) && BucketAfter(o, rest) == before && !Locked(before, t)
    requires rest != [] ==> rest[|rest| - 1] <= t
    requires Failed(before, o, t) == after
    ensures Guarded(o, rest + [t]) && BucketAfter(o, rest + [t]) == Some(after)
  {
    BucketSnoc(o, rest, t);
    assert (rest + [t])[..|rest|] == rest;
  }

  /** The first failures of the second window, up to the lock. */
  lemma AtWindowEnd(o: Options, rest: seq<nat>, a: nat, b: nat)
    requires Strict(o) && o.window > 0 && a <= o.limit - 2 && b < o.limit && rest != []
    requires Guarded(o, rest) && BucketAfter(o, rest) == Some(StraddleEnd(o, a, b)) && rest[|rest| - 1] <= o.window
    ensures Guarded(o, rest + [o.window])
    ensures BucketAfter(o, rest + [o.window]) == Some(StraddleEnd(o, a, b + 1))
  {
    HistoryStep(o, rest, o.window, Some(StraddleEnd(o, a, b)), StraddleEnd(o, a, b + 1));
  }

  /** The failures just before the end of the first window. */
  lemma BeforeWindowEnd(o: Options, rest: seq<nat>, a: nat)
    requires Strict(o) && o.window > 0 && a < o.limit - 2 && rest != []
    requires Guarded(o, rest) && BucketAfter(o, rest) == Some(StraddleEnd(o, a, 0)) && rest[|rest| - 1] <= o.window - 1
    ensures Guarded(o, rest + [o.window - 1])
    ensures BucketAfter(o, rest + [o.window - 1]) == Some(StraddleEnd(o, a + 1, 0))
  {
    HistoryStep(o, rest, o.window - 1, Some(StraddleEnd(o, a, 0)), StraddleEnd(o, a + 1, 0));
  }

  lemma FirstFailure(o: Options, t: nat)
    ensures Guarded(o, [t]) && BucketAfter(o, [t]) == Some(Bucket(1, t + o.window, None))
  {
    HistoryStep(o, [], t, None, Bucket(1, t + o.window, None));
    assert [] + [t] == [t];
  }

  lemma {:induction false} StraddleBucket(o: Options, a: nat, b: nat)
    requires Strict(o) && o.window > 0 && a <= o.limit - 2 && b <= o.limit
    ensures Guarded(o, Straddle(o, a, b)) && BucketAfter(o, Straddle(o, a, b)) == Some(StraddleEnd(o, a, b))
    decreases b, a
  {
    if b > 0 {
      StraddleBucket(o, a, b - 1);
      AtWindowEnd(o, Straddle(o, a, b - 1), a, b - 1);
    } else if a > 0 {
      StraddleBucket(o, a - 1, 0);
      BeforeWindowEnd(o, Straddle(o, a - 1, 0), a - 1);
    } else {
      FirstFailure(o, 0);
    }
  }

  /** For every strict limiter some guarded history reaches 2 * limit - 2 within one window length. */
  lemma SlidingBoundReached(o: Options) returns (ts: seq<nat>)
    requires Strict(o) && o.window > 1
    ensures Guarded(o, ts) && |ts| == 2 * o.limit - 1
    ensures ts[|ts| - 1] - ts[1] < o.window
  {
    ts := Straddle(o, o.limit - 2, o.limit);
    StraddleBucket(o, o.limit - 2, o.limit);
  }

  // ----- When the counter stops at the limit -----

  lemma {:induction false} BurstBucket(o: Options, n: nat)
    requires n >= 1 && o.limit >= 2 && o.window > 0 && n <= o.limit
    ensures Guarded(o, Burst(n))
    ensures BucketAfter(o, Burst(n)) ==
            Some(Bucket(n, o.window, if n == o.limit then Some(o.lockout) else None))
  {
    var rest := Burst(n - 1);
    if n > 1 {
      BurstBucket(o, n - 1);
    }
    HistoryStep(o, rest, 0, if n == 1 then None else Some(Bucket(n - 1, o.window, None)),
                 Bucket(n, o.window, if n == o.limit then Some(o.lockout) else None));
  }

  /** A limit of one locks only from the second failure on. */
  lemma LimitOneOverflows(o: Options)
    requires o.limit == 1 && o.window > 0
    ensures Guarded(o, [0] + [0])
    ensures BucketAfter(o, [0] + [0]) == Some(Bucket(2, o.window, Some(o.lockout)))
  {
    FirstFailure(o, 0);
    HistoryStep(o, [0], 0, Some(Bucket(1, o.window, None)), Bucket(2, o.window, Some(o.lockout)));
  }

  /** A lock shorter than the window ends while the window still counts. */
  lemma ShortLockoutOverflows(o: Options)
    requires o.limit >= 2 && o.lockout < o.window
    ensures Guarded(o, Burst(o.limit) + [o.lockout])
    ensures BucketAfter(o, Burst(o.limit) + [o.lockout]) ==
            Some(Bucket(o.limit + 1, o.window, Some(o.lockout + o.lockout)))
  {
    BurstBucket(o, o.limit);
    HistoryStep(o, Burst(o.limit), o.lockout, Some(Bucket(o.limit, o.window, Some(o.lockout))),
                Bucket(o.limit + 1, o.window, Some(o.lockout + o.lockout)));
  }

  /** A limiter that is not strict lets its counter pass the limit. */
  lemma LaxOverflows(o: Options) returns (ts: seq<nat>)
    requires o.limit >= 1 && o.window > 0 && !Strict(o)
    ensures Guarded(o, ts) && CountAfter(o, ts) == o.limit + 1
  {
    if o.limit == 1 {
      LimitOneOverflows(o);
      ts := [0] + [0];
    } else {
      ShortLockoutOverflows(o);
      ts := Burst(o.limit) + [o.lockout];
    }
  }

  /**
   The counter never exceeds the limit, over all guarded histories, exactly when the limit is at
   least 2 and the lockout is at least as long as the window.
   */
  lemma CountStopsAtLimitIff(o: Options)
    requires o.limit >= 1 && o.window > 0
    ensures (forall ts :: Guarded(o, ts) ==> CountAfter(o, ts) <= o.limit) <==> Strict(o)
  {
    if Strict(o) {
      forall ts | Guarded(o, ts) ensures CountAfter(o, ts) <= o.limit {
        if ts != [] {
          BucketShape(o, ts);
        }
      }
    } else {
      var ts := LaxOverflows(o);
    }
  }
}
