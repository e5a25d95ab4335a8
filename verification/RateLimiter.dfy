/**
 The per-process sliding-window rate limiter: per-key deques with lazy expiry and bulk eviction of
 idle keys, against a reference that remembers every accepted hit. Time is a real number. The clock
 is read before the lock is taken, so calls come in lock order with readings in any order; what
 needs them in clock order says so.
 */
module RateLimiter {
  import opened Options

  /** Above this many keys a hit also evicts every key without a recent accepted hit. */
  const EVICTION_THRESHOLD := 50_000

  /** A call in lock order; `swept` says that it also evicted the idle keys. */
  datatype Call = Call(key: string, now: real, swept: bool)

  // ---------------------------------------------------------------------------------------
  // Reference: the full accepted history
  // ---------------------------------------------------------------------------------------

  /** How many of `times` lie in the half-open interval (lo, hi]. */
  function Count(times: seq<real>, lo: real, hi: real): nat {
    if times == [] then 0
    else Count(times[..|times| - 1], lo, hi) + if lo < times[|times| - 1] <= hi then 1 else 0
  }

  /** A hit is admitted if fewer than `limit` accepted hits lie in the window that ends now. */
  predicate Admits(times: seq<real>, limit: int, window: real, now: real) {
    limit <= 0 || Count(times, now - window, now) < limit
  }

  /** The times of all accepted hits on `key`; nothing is recorded when the limiter is off. */
  function Accepted(calls: seq<Call>, key: string, limit: int, window: real): seq<real> {
    if calls == [] || limit <= 0 then []
    else
      var before := Accepted(calls[..|calls| - 1], key, limit, window);
      var c := calls[|calls| - 1];
      if c.key == key && Admits(before, limit, window, c.now) then before + [c.now] else before
  }

  predicate InClockOrder(calls: seq<Call>) {
    forall i, j | 0 <= i < j < |calls| :: calls[i].now <= calls[j].now
  }

  predicate Sorted(times: seq<real>) {
    forall i, j | 0 <= i < j < |times| :: times[i] <= times[j]
  }

  /** Everything recorded is at or before `now`. */
  predicate UpTo(times: seq<real>, now: real) {
    forall i | 0 <= i < |times| :: times[i] <= now
  }

  lemma {:induction false} AcceptedOrdered(calls: seq<Call>, key: string, limit: int, window: real, now: real)
    requires InClockOrder(calls) && (calls != [] ==> calls[|calls| - 1].now <= now)
    ensures Sorted(Accepted(calls, key, limit, window))
    ensures UpTo(Accepted(calls, key, limit, window), now)
    decreases |calls|
  {
    if calls != [] && limit > 0 {
      AcceptedOrdered(calls[..|calls| - 1], key, limit, window, calls[|calls| - 1].now);
    }
  }

  /** The call adds to the key's history. */
  predicate Records(calls: seq<Call>, c: Call, key: string, limit: int, window: real) {
    limit > 0 && c.key == key && Admits(Accepted(calls, key, limit, window), limit, window, c.now)
  }

  /** Any other call leaves a key's history alone. */
  lemma AcceptedStep(calls: seq<Call>, c: Call, key: string, limit: int, window: real)
    ensures Records(calls, c, key, limit, window) ==>
              Accepted(calls + [c], key, limit, window) == Accepted(calls, key, limit, window) + [c.now]
    ensures !Records(calls, c, key, limit, window) ==>
              Accepted(calls + [c], key, limit, window) == Accepted(calls, key, limit, window)
  {
    assert (calls + [c])[..|calls|] == calls;
  }

  /** In a sorted history up to `now`, the hits in the window are exactly those after its start. */
  lemma {:induction false} CountSuffix(times: seq<real>, k: nat, lo: real, hi: real)
    requires k <= |times| && Sorted(times) && UpTo(times, hi)
    requires forall i | 0 <= i < k :: times[i] <= lo
    requires forall i | k <= i < |times| :: lo < times[i]
    ensures Count(times, lo, hi) == |times| - k
    decreases |times|
  {
    if times != [] {
      var n := |times| - 1;
      CountSuffix(times[..n], if k <= n then k else n, lo, hi);
    }
  }

  /** Hits at or before the start of the window do not count. */
  lemma {:induction false} CountSkips(times: seq<real>, k: nat, lo: real, hi: real)
    requires k <= |times|
    requires forall i | 0 <= i < k :: times[i] <= lo
    ensures Count(times, lo, hi) <= |times| - k
    decreases |times|
  {
    if times != [] {
      var n := |times| - 1;
      CountSkips(times[..n], if k <= n then k else n, lo, hi);
    }
  }

  /** A window that starts no earlier and ends no later holds no more. */
  lemma {:induction false} CountShrinks(times: seq<real>, lo: real, hi: real, lo': real, hi': real)
    requires lo <= lo' && hi' <= hi
    ensures Count(times, lo', hi') <= Count(times, lo, hi)
  {
    if times != [] {
      CountShrinks(times[..|times| - 1], lo, hi, lo', hi');
    }
  }

  lemma CountAppend(times: seq<real>, x: real, lo: real, hi: real)
    ensures Count(times + [x], lo, hi) == Count(times, lo, hi) + if lo < x <= hi then 1 else 0
  {
    assert (times + [x])[..|times|] == times;
  }

  lemma AdmittedKeepsBound(times: seq<real>, now: real, limit: int, window: real, t: real)
    requires limit > 0 && UpTo(times, now) && Admits(times, limit, window, now)
    requires Count(times, t - window, t) <= limit
    ensures Count(times + [now], t - window, t) <= limit
  {
    CountAppend(times, now, t - window, t);
    if t - window < now <= t {
      CountUpTo(times, t - window, t, now);
      CountShrinks(times, now - window, now, t - window, now);
    }
  }

  /**
   The limit holds of every window, not only of those that end at a hit: in every run, every
   half-open interval (t - window, t] holds at most `limit` accepted hits of a key.
   */
  lemma {:induction false} WindowBound(calls: seq<Call>, key: string, limit: int, window: real, t: real)
    requires limit > 0 && InClockOrder(calls)
    ensures Count(Accepted(calls, key, limit, window), t - window, t) <= limit
    decreases |calls|
  {
    if calls != [] {
      var prefix, c := calls[..|calls| - 1], calls[|calls| - 1];
      WindowBound(prefix, key, limit, window, t);
      assert calls == prefix + [c];
      BoundStep(prefix, c, key, limit, window, t);
    }
  }

  lemma {:induction false} BoundStep(prefix: seq<Call>, c: Call, key: string, limit: int, window: real, t: real)
    requires limit > 0 && InClockOrder(prefix) && (prefix != [] ==> prefix[|prefix| - 1].now <= c.now)
    requires Count(Accepted(prefix, key, limit, window), t - window, t) <= limit
    ensures Count(Accepted(prefix + [c], key, limit, window), t - window, t) <= limit
  {
    AcceptedStep(prefix, c, key, limit, window);
    if Records(prefix, c, key, limit, window) {
      AcceptedOrdered(prefix, key, limit, window, c.now);
      AdmittedKeepsBound(Accepted(prefix, key, limit, window), c.now, limit, window, t);
    }
  }

  /** Beyond the last hit the end of the window does not matter. */
  lemma {:induction false} CountUpTo(times: seq<real>, lo: real, hi: real, last: real)
    requires UpTo(times, last) && last <= hi
    ensures Count(times, lo, hi) == Count(times, lo, last)
  {
    if times != [] {
      CountUpTo(times[..|times| - 1], lo, hi, last);
    }
  }

  // ---------------------------------------------------------------------------------------
  // The limiter
  // ---------------------------------------------------------------------------------------

  /** The deque is the history without a stretch of hits that had expired at time `seen`. */
  predicate Tracks(q: seq<real>, times: seq<real>, limit: int, window: real, seen: real) {
    && |q| <= limit
    && Tail(q, times)
    && forall i | 0 <= i < |times| - |q| :: times[i] <= seen - window
  }

  function Deque(hits: map<string, seq<real>>, key: string): seq<real> {
    if key in hits then hits[key] else []
  }

  /** A full deque opens up again exactly when its oldest hit leaves the window. */
  lemma ExpiryOfOldest(times: seq<real>, q: seq<real>, limit: int, window: real, now: real, t: real)
    requires Sorted(times) && UpTo(times, now) && now <= t
    requires Tracks(q, times, limit, window, now) && |q| == limit > 0 && now - window < q[0]
    ensures Admits(times, limit, window, t) <==> q[0] + window <= t
  {
    var k := |times| - |q|;
    assert q[0] == times[k];
    if q[0] + window <= t {
      CountSkips(times, k + 1, t - window, t);
    } else {
      CountSuffix(times, k, t - window, t);
    }
  }

  predicate Live(q: seq<real>, cutoff: real) {
    forall i | 0 <= i < |q| :: cutoff < q[i]
  }

  /** Once expired hits are dropped, the length of the deque decides. */
  lemma {:induction false} DequeDecides(q: seq<real>, times: seq<real>, limit: int, window: real, now: real)
    requires Sorted(times) && UpTo(times, now) && limit > 0
    requires Tracks(q, times, limit, window, now) && Live(q, now - window)
    ensures Admits(times, limit, window, now) <==> |q| < limit
  {
    var k := |times| - |q|;
    forall i | k <= i < |times| ensures now - window < times[i] {
      assert times[i] == q[i - k];
    }
    CountSuffix(times, k, now - window, now);
  }

  /** A key may be dropped when it has no accepted hit after `cutoff`. */
  predicate Idle(q: seq<real>, cutoff: real) {
    q == [] || q[|q| - 1] <= cutoff
  }

  function Evicted(hits: map<string, seq<real>>, cutoff: real): map<string, seq<real>> {
    map k | k in hits && !Idle(hits[k], cutoff) :: hits[k]
  }

  /** Bulk eviction: drops exactly the idle keys. */
  method EvictIdle(hits: map<string, seq<real>>, cutoff: real) returns (kept: map<string, seq<real>>)
    ensures kept == Evicted(hits, cutoff)
  {
    var idle := set k | k in hits && Idle(hits[k], cutoff);
    kept := hits;
    var todo := idle;
    while todo != {}
      invariant todo <= idle
      invariant kept == map k | k in hits && k !in idle - todo :: hits[k]
    {
      var k :| k in todo;
      kept := kept - {k};
      todo := todo - {k};
    }
  }

  /** The deque without its expired front: expired hits behind a live one stay. */
  function Trim(q: seq<real>, cutoff: real): seq<real> {
    if q != [] && q[0] <= cutoff then Trim(q[1..], cutoff) else q
  }

  /** `r` is how `q` ends. */
  predicate Tail(r: seq<real>, q: seq<real>) {
    |r| <= |q| && forall i | 0 <= i < |r| :: r[i] == q[|q| - |r| + i]
  }

  /** What is dropped had expired, and the first one kept has not. */
  lemma {:induction false} TrimIs(q: seq<real>, cutoff: real)
    ensures Tail(Trim(q, cutoff), q)
    ensures forall i | 0 <= i < |q| - |Trim(q, cutoff)| :: q[i] <= cutoff
    ensures Trim(q, cutoff) != [] ==> cutoff < Trim(q, cutoff)[0]
  {
    if q != [] && q[0] <= cutoff {
      var rest := q[1..];
      TrimIs(rest, cutoff);
      assert forall i | 0 < i < |q| :: q[i] == rest[i - 1];
    }
  }

  lemma TailOfTail(r: seq<real>, q: seq<real>, s: seq<real>)
    requires Tail(r, q) && Tail(q, s)
    ensures Tail(r, s)
  {
  }

  lemma TailAppend(q: seq<real>, s: seq<real>, x: real)
    requires Tail(q, s)
    ensures Tail(q + [x], s + [x])
  {
  }

  /** Drops from the front of a deque what has left the window. */
  method Expire(deque: seq<real>, cutoff: real) returns (q: seq<real>)
    ensures q == Trim(deque, cutoff)
  {
    q := deque;
    while q != [] && q[0] <= cutoff
      invariant Trim(q, cutoff) == Trim(deque, cutoff)
      decreases |q|
    {
      q := q[1..];
    }
  }

  // ---------------------------------------------------------------------------------------
  // The deques, for readings in any order and eviction at any call
  // ---------------------------------------------------------------------------------------

  /** What one call makes of one key's deque: expiry, the hit if it passes, and perhaps eviction. */
  function After(q: seq<real>, key: string, c: Call, limit: int, window: real): seq<real> {
    var r := Trim(q, c.now - window);
    Swept(if key != c.key then q else if |r| < limit then r + [c.now] else r, c.now - window, c.swept)
  }

  /** Eviction empties an idle deque. */
  function Swept(kept: seq<real>, cutoff: real, swept: bool): seq<real> {
    if swept && Idle(kept, cutoff) then [] else kept
  }

  /** The key's deque after these calls. */
  function Queue(calls: seq<Call>, key: string, limit: int, window: real): seq<real> {
    if calls == [] then []
    else After(Queue(calls[..|calls| - 1], key, limit, window), key, calls[|calls| - 1], limit, window)
  }

  /** The limiter lets a hit on the key through. */
  predicate Takes(calls: seq<Call>, key: string, now: real, limit: int, window: real) {
    |Trim(Queue(calls, key, limit, window), now - window)| < limit
  }

  /** The hits on the key that the limiter has let through, in lock order. */
  function Passed(calls: seq<Call>, key: string, limit: int, window: real): seq<real> {
    if calls == [] then []
    else
      var front, c := calls[..|calls| - 1], calls[|calls| - 1];
      var before := Passed(front, key, limit, window);
      if c.key == key && Takes(front, key, c.now, limit, window) then before + [c.now] else before
  }

  lemma QueueStep(calls: seq<Call>, c: Call, key: string, limit: int, window: real)
    ensures Queue(calls + [c], key, limit, window) == After(Queue(calls, key, limit, window), key, c, limit, window)
    ensures c.key == key && Takes(calls, key, c.now, limit, window) ==>
              Passed(calls + [c], key, limit, window) == Passed(calls, key, limit, window) + [c.now]
    ensures !(c.key == key && Takes(calls, key, c.now, limit, window)) ==>
              Passed(calls + [c], key, limit, window) == Passed(calls, key, limit, window)
  {
    assert (calls + [c])[..|calls|] == calls;
  }

  lemma TailStep(q: seq<real>, all: seq<real>, key: string, c: Call, limit: int, window: real)
    requires limit > 0 && |q| <= limit && Tail(q, all)
    ensures |After(q, key, c, limit, window)| <= limit
    ensures Tail(After(q, key, c, limit, window),
                 if key == c.key && |Trim(q, c.now - window)| < limit then all + [c.now] else all)
  {
    var r := Trim(q, c.now - window);
    TrimIs(q, c.now - window);
    TailOfTail(r, q, all);
    TailAppend(r, all, c.now);
  }

  /** Every deque is the tail of what has passed, and at most `limit` long, whatever the readings. */
  lemma {:induction false} QueueIsTail(calls: seq<Call>, key: string, limit: int, window: real)
    requires limit > 0
    ensures |Queue(calls, key, limit, window)| <= limit
    ensures Tail(Queue(calls, key, limit, window), Passed(calls, key, limit, window))
  {
    if calls != [] {
      var front, c := calls[..|calls| - 1], calls[|calls| - 1];
      QueueIsTail(front, key, limit, window);
      TailStep(Queue(front, key, limit, window), Passed(front, key, limit, window), key, c, limit, window);
    }
  }

  /** A deque of at most `limit` hits refuses exactly when it is full and its oldest hit is alive. */
  lemma RefusedDeque(q: seq<real>, limit: int, cutoff: real)
    requires 0 < limit && |q| <= limit
    ensures |Trim(q, cutoff)| >= limit <==> |q| == limit && cutoff < q[0]
    ensures |Trim(q, cutoff)| >= limit ==> Trim(q, cutoff) == q
  {
    TrimIs(q, cutoff);
  }

  /**
   The exact decision, for readings in any order: a hit is refused if and only if the last `limit`
   hits that passed are all still in the deque and the oldest of them is in the window.
   */
  lemma RefusedIff(calls: seq<Call>, key: string, now: real, limit: int, window: real)
    requires limit > 0
    ensures var q, all := Queue(calls, key, limit, window), Passed(calls, key, limit, window);
            !Takes(calls, key, now, limit, window) <==>
              |q| == limit && limit <= |all| && now - window < all[|all| - limit]
  {
    var q, all := Queue(calls, key, limit, window), Passed(calls, key, limit, window);
    QueueIsTail(calls, key, limit, window);
    RefusedDeque(q, limit, now - window);
    assert |q| == limit ==> q[0] == all[|all| - limit];
  }

  // A bound that needs no clock order --------------------------------------------------------

  predicate Within(calls: seq<Call>, lo: real, hi: real) {
    forall i | 0 <= i < |calls| :: lo <= calls[i].now <= hi
  }

  /** The last n entries of the deque are at or after `lo`. */
  predicate TailFrom(q: seq<real>, n: nat, lo: real) {
    n <= |q| && forall i | |q| - n <= i < |q| :: lo <= q[i]
  }

  /** Expiry does not reach a hit that is in the window. */
  lemma TrimKeepsTail(q: seq<real>, n: nat, lo: real, cutoff: real)
    requires TailFrom(q, n, lo) && cutoff < lo
    ensures TailFrom(Trim(q, cutoff), n, lo)
  {
    TrimIs(q, cutoff);
  }

  /** What passes during a stretch shorter than the window is still in the deque at its end. */
  lemma {:induction false} StretchIsKept(before: seq<Call>, stretch: seq<Call>, key: string, limit: int, window: real,
                                         lo: real, hi: real)
    requires limit > 0 && Within(stretch, lo, hi) && hi - lo < window
    ensures |Passed(before, key, limit, window)| <= |Passed(before + stretch, key, limit, window)|
    ensures TailFrom(Queue(before + stretch, key, limit, window),
                     |Passed(before + stretch, key, limit, window)| - |Passed(before, key, limit, window)|, lo)
    decreases |stretch|
  {
    if stretch == [] {
      assert before + stretch == before;
    } else {
      var front, c := stretch[..|stretch| - 1], stretch[|stretch| - 1];
      assert before + stretch == before + front + [c];
      StretchIsKept(before, front, key, limit, window, lo, hi);
      QueueStep(before + front, c, key, limit, window);
      var n := |Passed(before + front, key, limit, window)| - |Passed(before, key, limit, window)|;
      CallKeepsTail(Queue(before + front, key, limit, window), c, key, limit, window, n, lo);
    }
  }

  lemma CallKeepsTail(q: seq<real>, c: Call, key: string, limit: int, window: real, n: nat, lo: real)
    requires TailFrom(q, n, lo) && lo <= c.now < lo + window
    ensures TailFrom(After(q, key, c, limit, window),
                     n + if c.key == key && |Trim(q, c.now - window)| < limit then 1 else 0, lo)
  {
    TrimKeepsTail(q, n, lo, c.now - window);
  }

  /**
   The limit for readings in any order: of the calls that take the lock one after another while all
   readings lie within less than one window, at most `limit` pass on each key.
   */
  lemma StretchBound(before: seq<Call>, stretch: seq<Call>, key: string, limit: int, window: real, lo: real, hi: real)
    requires limit > 0 && Within(stretch, lo, hi) && hi - lo < window
    ensures |Passed(before + stretch, key, limit, window)| <= |Passed(before, key, limit, window)| + limit
  {
    StretchIsKept(before, stretch, key, limit, window, lo, hi);
    QueueIsTail(before + stretch, key, limit, window);
  }

  // ---------------------------------------------------------------------------------------
  // Readings in clock order: the store refines the full history
  // ---------------------------------------------------------------------------------------

  /** An idle deque can be forgotten: everything in it had expired. */
  lemma IdleTracksNothing(q: seq<real>, times: seq<real>, limit: int, window: real, now: real)
    requires Sorted(times) && Tracks(q, times, limit, window, now) && Idle(q, now - window)
    ensures Tracks([], times, limit, window, now)
  {
    if q != [] {
      assert times[|times| - 1] == q[|q| - 1];
    }
  }

  /** Expiry only moves forward with the clock. */
  lemma TracksLater(q: seq<real>, times: seq<real>, limit: int, window: real, seen: real, now: real)
    requires Tracks(q, times, limit, window, seen) && (seen <= now || q == times)
    ensures Tracks(q, times, limit, window, now)
  {
  }

  function Seen(calls: seq<Call>): real {
    if calls == [] then 0.0 else calls[|calls| - 1].now
  }

  lemma TracksAppend(q: seq<real>, times: seq<real>, limit: int, window: real, now: real)
    requires Tracks(q, times, limit, window, now) && |q| < limit
    ensures Tracks(q + [now], times + [now], limit, window, now)
  {
    TailAppend(q, times, now);
  }

  lemma {:induction false} TrimTracks(q: seq<real>, times: seq<real>, limit: int, window: real, now: real)
    requires Sorted(times) && Tracks(q, times, limit, window, now)
    ensures Tracks(Trim(q, now - window), times, limit, window, now)
    ensures Live(Trim(q, now - window), now - window)
  {
    var r := Trim(q, now - window);
    TrimIs(q, now - window);
    TailOfTail(r, q, times);
    forall i | 0 <= i < |times| - |r| ensures times[i] <= now - window {
      if i >= |times| - |q| {
        assert q[i - (|times| - |q|)] == times[i];
      }
    }
    forall i | 0 <= i < |r| ensures now - window < r[i] {
      assert r[0] == times[|times| - |r|] && r[i] == times[|times| - |r| + i];
    }
  }

  /** In clock order the expired deque decides as the history does. */
  lemma {:induction false} HitDecides(q: seq<real>, times: seq<real>, limit: int, window: real, now: real)
    requires limit > 0 && Sorted(times) && UpTo(times, now) && Tracks(q, times, limit, window, now)
    ensures |Trim(q, now - window)| < limit <==> Admits(times, limit, window, now)
  {
    TrimTracks(q, times, limit, window, now);
    DequeDecides(Trim(q, now - window), times, limit, window, now);
  }

  lemma {:induction false} PassStep(q: seq<real>, times: seq<real>, limit: int, window: real, now: real, swept: bool)
    requires Sorted(times) && UpTo(times, now) && Tracks(q, times, limit, window, now) && |Trim(q, now - window)| < limit
    ensures Tracks(Swept(Trim(q, now - window) + [now], now - window, swept), times + [now], limit, window, now)
  {
    TrimTracks(q, times, limit, window, now);
    TracksAppend(Trim(q, now - window), times, limit, window, now);
    SortedAppend(times, now);
    SweepStep(Trim(q, now - window) + [now], times + [now], limit, window, now, swept);
  }

  lemma {:induction false} RefuseStep(q: seq<real>, times: seq<real>, limit: int, window: real, now: real, swept: bool)
    requires Sorted(times) && Tracks(q, times, limit, window, now)
    ensures Tracks(Swept(Trim(q, now - window), now - window, swept), times, limit, window, now)
  {
    TrimTracks(q, times, limit, window, now);
    SweepStep(Trim(q, now - window), times, limit, window, now, swept);
  }

  /** Eviction of an idle deque keeps it in step. */
  lemma {:induction false} SweepStep(kept: seq<real>, times: seq<real>, limit: int, window: real, now: real, swept: bool)
    requires Sorted(times) && Tracks(kept, times, limit, window, now)
    ensures Tracks(Swept(kept, now - window, swept), times, limit, window, now)
  {
    if Idle(kept, now - window) {
      IdleTracksNothing(kept, times, limit, window, now);
    }
  }

  /** The history of the key after a call. */
  function Extended(times: seq<real>, key: string, c: Call, limit: int, window: real): seq<real> {
    if key == c.key && Admits(times, limit, window, c.now) then times + [c.now] else times
  }

  /** One call in clock order keeps every key's deque in step with its history, eviction included. */
  lemma {:induction false} DequeStep(q: seq<real>, times: seq<real>, key: string, c: Call, limit: int, window: real)
    requires limit > 0 && Sorted(times) && UpTo(times, c.now) && Tracks(q, times, limit, window, c.now)
    ensures |Trim(q, c.now - window)| < limit <==> Admits(times, limit, window, c.now)
    ensures Tracks(After(q, key, c, limit, window), Extended(times, key, c, limit, window), limit, window, c.now)
  {
    HitDecides(q, times, limit, window, c.now);
    if key != c.key {
      SweepStep(q, times, limit, window, c.now, c.swept);
    } else if |Trim(q, c.now - window)| < limit {
      PassStep(q, times, limit, window, c.now, c.swept);
    } else {
      RefuseStep(q, times, limit, window, c.now, c.swept);
    }
  }

  lemma SortedAppend(times: seq<real>, now: real)
    requires Sorted(times) && UpTo(times, now)
    ensures Sorted(times + [now])
  {
  }

  lemma LastInOrder(calls: seq<Call>, c: Call)
    requires InClockOrder(calls + [c])
    ensures InClockOrder(calls) && (calls != [] ==> Seen(calls) <= c.now)
  {
    var all := calls + [c];
    assert all[|calls|] == c && forall i | 0 <= i < |calls| :: all[i] == calls[i];
  }

  /**
   Refinement: as long as the readings are in clock order, every key's deque agrees with its full
   history, whenever idle keys are evicted, and what the limiter lets through is what the history
   admits.
   */
  lemma {:induction false} QueueRefinesHistory(calls: seq<Call>, key: string, limit: int, window: real)
    requires limit > 0 && InClockOrder(calls)
    ensures Tracks(Queue(calls, key, limit, window), Accepted(calls, key, limit, window), limit, window, Seen(calls))
    ensures Passed(calls, key, limit, window) == Accepted(calls, key, limit, window)
    decreases |calls|
  {
    if calls != [] {
      var front, c := calls[..|calls| - 1], calls[|calls| - 1];
      assert calls == front + [c];
      LastInOrder(front, c);
      QueueRefinesHistory(front, key, limit, window);
      RefinementStep(front, c, key, limit, window);
      QueueStep(front, c, key, limit, window);
    }
  }

  lemma {:induction false} RefinementStep(front: seq<Call>, c: Call, key: string, limit: int, window: real)
    requires limit > 0 && InClockOrder(front + [c])
    requires Tracks(Queue(front, key, limit, window), Accepted(front, key, limit, window), limit, window, Seen(front))
    ensures var q, times := Queue(front, key, limit, window), Accepted(front, key, limit, window);
            && (Takes(front, key, c.now, limit, window) <==> Admits(times, limit, window, c.now))
            && Accepted(front + [c], key, limit, window) == Extended(times, key, c, limit, window)
            && Tracks(After(q, key, c, limit, window), Extended(times, key, c, limit, window), limit, window, c.now)
  {
    var q, times := Queue(front, key, limit, window), Accepted(front, key, limit, window);
    LastInOrder(front, c);
    AcceptedOrdered(front, key, limit, window, c.now);
    TracksLater(q, times, limit, window, Seen(front), c.now);
    DequeStep(q, times, key, c, limit, window);
    AcceptedStep(front, c, key, limit, window);
  }

  /** The decision on the next call in clock order is that of the full history. */
  lemma DecisionInOrder(calls: seq<Call>, c: Call, limit: int, window: real)
    requires limit > 0 && InClockOrder(calls + [c])
    ensures Takes(calls, c.key, c.now, limit, window) <==>
              Admits(Accepted(calls, c.key, limit, window), limit, window, c.now)
  {
    LastInOrder(calls, c);
    QueueRefinesHistory(calls, c.key, limit, window);
    RefinementStep(calls, c, c.key, limit, window);
  }

  class SlidingWindowLimiter {
    const limit: int
    const window: real
    var hits: map<string, seq<real>>
    /** Every call so far, in lock order. */
    ghost var calls: seq<Call>

    constructor (limit: int, window: real)
      ensures this.limit == limit && this.window == window && calls == [] && Valid()
    {
      this.limit, this.window := limit, window;
      hits, calls := map[], [];
    }

    ghost predicate Valid()
      reads this
    {
      limit > 0 ==> forall key :: Deque(hits, key) == Queue(calls, key, limit, window)
    }

    /** The accepted hits of a key over the limiter's whole life. */
    ghost function History(key: string): seq<real>
      reads this
    {
      Accepted(calls, key, limit, window)
    }

    /**
     Records one hit, whatever its reading. A refusal returns the time after which the deque, left
     alone, lets the key through again. While the readings are in clock order, a hit passes exactly
     when the full history admits it, and the time is that of the history and at most the window.
     */
    method Hit(key: string, now: real) returns (wait: Option<real>, ghost swept: bool)
      requires Valid()
      modifies this`hits, this`calls
      ensures Valid() && calls == old(calls) + [Call(key, now, swept)]
      ensures wait.None? <==> limit <= 0 || Takes(old(calls), key, now, limit, window)
      ensures swept <==> limit > 0 && wait.None? && |old(hits).Keys + {key}| > EVICTION_THRESHOLD
      ensures limit > 0 ==> forall k :: k in hits <==>
                k in old(hits).Keys + {key} && !(swept && Forgotten(old(hits), k, key, now, window))
      ensures wait.Some? ==> 0.0 < wait.value && forall t :: Takes(calls, key, t, limit, window) <==> now + wait.value <= t
      ensures InClockOrder(calls) ==> (wait.None? <==> Admits(old(History(key)), limit, window, now))
      ensures InClockOrder(calls) && wait.Some? ==>
                && wait.value <= window
                && forall t | now <= t :: Admits(History(key), limit, window, t) <==> now + wait.value <= t
    {
      if limit <= 0 {
        swept := false;
        calls := calls + [Call(key, now, swept)];
        return None, swept;
      }
      ghost var before := Queue(calls, key, limit, window);
      QueueIsTail(calls, key, limit, window);
      assert Deque(hits, key) == before;
      wait, swept := Record(key, now);
      ghost var c := Call(key, now, swept);
      calls := calls + [c];
      forall k ensures Deque(hits, k) == Queue(calls, k, limit, window) {
        QueueStep(old(calls), c, k, limit, window);
        assert old(Deque(hits, k)) == Queue(old(calls), k, limit, window);
      }
      if wait.Some? {
        forall t ensures Takes(calls, key, t, limit, window) <==> now + wait.value <= t {
          RefusedDeque(before, limit, t - window);
        }
      }
      if InClockOrder(calls) {
        DecisionInOrder(old(calls), c, limit, window);
        if wait.Some? {
          RefusalInOrder(old(calls), c, limit, window, before, wait.value);
        }
      }
    }

    /** The part under the lock: every deque becomes what the call makes of it. */
    method Record(key: string, now: real) returns (wait: Option<real>, ghost swept: bool)
      requires limit > 0 && |Deque(hits, key)| <= limit
      modifies this`hits
      ensures forall k :: Deque(hits, k) == After(old(Deque(hits, k)), k, Call(key, now, swept), limit, window)
      ensures wait.None? <==> |Trim(old(Deque(hits, key)), now - window)| < limit
      ensures swept <==> wait.None? && |old(hits).Keys + {key}| > EVICTION_THRESHOLD
      ensures KeysAre(old(hits), hits, key, now, window, swept)
      ensures wait.Some? ==>
                && Deque(hits, key) == old(Deque(hits, key)) && |Deque(hits, key)| == limit
                && 0.0 < wait.value && now + wait.value == Deque(hits, key)[0] + window
    {
      RefusedDeque(Deque(hits, key), limit, now - window);
      var q := Expire(Deque(hits, key), now - window);
      wait, swept := Enter(key, now, q);
      ghost var kept := if |q| < limit then q + [now] else q;
      forall k ensures Deque(hits, k) == After(old(Deque(hits, k)), k, Call(key, now, swept), limit, window) {
        DequeStored(old(hits), key, kept, now - window, swept, k);
      }
    }

    /** Enters what expiry has left of the key's deque, with the hit if there is room. */
    method Enter(key: string, now: real, q: seq<real>) returns (wait: Option<real>, ghost swept: bool)
      requires limit > 0 && (|q| >= limit ==> now - window < q[0])
      modifies this`hits
      ensures hits == Stored(old(hits), key, if |q| < limit then q + [now] else q, now - window, swept)
      ensures wait.None? <==> |q| < limit
      ensures swept <==> wait.None? && |old(hits).Keys + {key}| > EVICTION_THRESHOLD
      ensures KeysAre(old(hits), hits, key, now, window, swept)
      ensures wait.Some? ==> 0.0 < wait.value && now + wait.value == q[0] + window
    {
      swept := false;
      if |q| >= limit {
        wait := Some(RetryAfter(q[0], window, now));
        KeysUnswept(hits, key, q, now, window);
        hits := hits[key := q];
      } else {
        wait := None;
        KeysUnswept(hits, key, q + [now], now, window);
        KeysSwept(hits, key, q + [now], now, window);
        hits := hits[key := q + [now]];
        if |hits| > EVICTION_THRESHOLD {
          swept := true;
          hits := EvictIdle(hits, now - window);
        }
      }
    }
  }

  /** The key's last hit, where this call adds one to its own key, has left the window that ends now. */
  predicate Forgotten(before: map<string, seq<real>>, k: string, key: string, now: real, window: real) {
    var q := if k == key then [now] else Deque(before, k);
    q == [] || q[|q| - 1] <= now - window
  }

  /** Which keys there are after a call: its own is added, and eviction removes the forgotten ones. */
  ghost predicate KeysAre(before: map<string, seq<real>>, after: map<string, seq<real>>, key: string, now: real,
                          window: real, swept: bool) {
    forall k :: k in after <==> k in before.Keys + {key} && !(swept && Forgotten(before, k, key, now, window))
  }

  /** What a call makes of the dictionary, given what it makes of its own key's deque. */
  function Stored(before: map<string, seq<real>>, key: string, kept: seq<real>, cutoff: real, swept: bool): map<string, seq<real>> {
    if swept then Evicted(before[key := kept], cutoff) else before[key := kept]
  }

  lemma DequeStored(before: map<string, seq<real>>, key: string, kept: seq<real>, cutoff: real, swept: bool, k: string)
    ensures Deque(Stored(before, key, kept, cutoff, swept), k) == Swept(if k == key then kept else Deque(before, k), cutoff, swept)
  {
    var more := before[key := kept];
    assert Deque(more, k) == if k == key then kept else Deque(before, k);
    if swept && k in more {
      assert k in Evicted(more, cutoff) <==> !Idle(more[k], cutoff);
    }
  }

  lemma KeysUnswept(before: map<string, seq<real>>, key: string, q: seq<real>, now: real, window: real)
    ensures KeysAre(before, before[key := q], key, now, window, false)
    ensures |before[key := q]| == |before.Keys + {key}|
  {
    assert before[key := q].Keys == before.Keys + {key};
    assert |before[key := q]| == |before[key := q].Keys|;
  }

  lemma KeysSwept(before: map<string, seq<real>>, key: string, q: seq<real>, now: real, window: real)
    requires q != [] && q[|q| - 1] == now
    ensures KeysAre(before, Evicted(before[key := q], now - window), key, now, window, true)
  {
  }

  /** Seconds until the oldest hit leaves the window. */
  function RetryAfter(oldest: real, window: real, now: real): (wait: real)
    ensures now - window < oldest ==> 0.0 < wait && now + wait == oldest + window
  {
    var w := oldest + window - now;
    if w < 0.0 then 0.0 else w
  }

  /** In clock order the wait of a refusal is at most the window, and exact for the full history. */
  lemma RefusalWait(q: seq<real>, times: seq<real>, limit: int, window: real, now: real, wait: real)
    requires Sorted(times) && UpTo(times, now) && Tracks(q, times, limit, window, now)
    requires |q| == limit > 0 && now - window < q[0] && now + wait == q[0] + window
    ensures wait <= window
    ensures forall t | now <= t :: Admits(times, limit, window, t) <==> now + wait <= t
  {
    assert q[0] == times[|times| - |q|];
    forall t | now <= t ensures Admits(times, limit, window, t) <==> now + wait <= t {
      ExpiryOfOldest(times, q, limit, window, now, t);
    }
  }

  lemma RefusalInOrder(calls: seq<Call>, c: Call, limit: int, window: real, q: seq<real>, wait: real)
    requires limit > 0 && InClockOrder(calls + [c]) && q == Queue(calls, c.key, limit, window)
    requires |q| == limit && c.now - window < q[0] && c.now + wait == q[0] + window
    requires !Takes(calls, c.key, c.now, limit, window)
    ensures wait <= window
    ensures forall t | c.now <= t ::
              Admits(Accepted(calls + [c], c.key, limit, window), limit, window, t) <==> c.now + wait <= t
  {
    var times := Accepted(calls, c.key, limit, window);
    LastInOrder(calls, c);
    QueueRefinesHistory(calls, c.key, limit, window);
    DecisionInOrder(calls, c, limit, window);
    TracksLater(q, times, limit, window, Seen(calls), c.now);
    AcceptedOrdered(calls, c.key, limit, window, c.now);
    RefusalWait(q, times, limit, window, c.now, wait);
    AcceptedStep(calls, c, c.key, limit, window);
  }

  // ---------------------------------------------------------------------------------------
  // What a client that waits gets
  // ---------------------------------------------------------------------------------------

  /** No call of `more` on `key` comes at or after `t`. */
  predicate QuietBefore(more: seq<Call>, key: string, t: real) {
    forall i | 0 <= i < |more| && more[i].key == key :: more[i].now < t
  }

  /**
   The wait is exact over whole runs: if a key is full until `t`, then whatever calls follow, of
   other keys or of this one before `t`, none of this key's is admitted and nothing is recorded,
   so the first hit at or after `t` is admitted.
   */
  lemma {:induction false} RetryIsTight(calls: seq<Call>, more: seq<Call>, key: string, limit: int, window: real,
                                        now: real, t: real)
    requires limit > 0 && InClockOrder(calls + more) && QuietBefore(more, key, t)
    requires forall i | 0 <= i < |more| :: now <= more[i].now
    requires forall u | now <= u :: Admits(Accepted(calls, key, limit, window), limit, window, u) <==> t <= u
    ensures Accepted(calls + more, key, limit, window) == Accepted(calls, key, limit, window)
    ensures forall u | now <= u :: Admits(Accepted(calls + more, key, limit, window), limit, window, u) <==> t <= u
    decreases |more|
  {
    if more == [] {
      assert calls + more == calls;
    } else {
      var n := |more| - 1;
      var prefix := calls + more[..n];
      assert calls + more == prefix + [more[n]];
      assert InClockOrder(prefix) by {
        forall i, j | 0 <= i < j < |prefix| ensures prefix[i].now <= prefix[j].now {
          assert prefix[i] == (calls + more)[i] && prefix[j] == (calls + more)[j];
        }
      }
      RetryIsTight(calls, more[..n], key, limit, window, now, t);
      AcceptedStep(prefix, more[n], key, limit, window);
    }
  }

  /** The middleware's header: `max(1, ceil(wait))`. */
  function RetryAfterCeil(wait: real): int {
    var up := -((-wait).Floor);
    if up < 1 then 1 else up
  }

  /** The message route's header: `max(1, int(wait) + 1)`; `int` truncates toward zero. */
  function RetryAfterNext(wait: real): int {
    var whole := if wait < 0.0 then -((-wait).Floor) else wait.Floor;
    if whole + 1 < 1 then 1 else whole + 1
  }

  /**
   Both headers tell the client to wait at least as long as it must: the first is the least such
   whole number of seconds that is positive, the second at most one second more.
   */
  lemma RetryHeaders(wait: real)
    requires 0.0 < wait
    ensures wait <= RetryAfterCeil(wait) as real < wait + 1.0
    ensures wait < RetryAfterNext(wait) as real <= wait + 1.0
    ensures RetryAfterCeil(wait) <= RetryAfterNext(wait) <= RetryAfterCeil(wait) + 1
  {
    assert (-wait).Floor < 0;
  }
}
