/**
 What the order of the clock readings is worth to the rate limiter: exactly when the full history
 decides every call, and exactly for which limits every window is bounded in every order.
 */
module RateLimiterOrder {
  import opened RateLimiter

  predicate OneKey(calls: seq<Call>, key: string) {
    forall i | 0 <= i < |calls| :: calls[i].key == key
  }

  /** No call of the run evicted idle keys. */
  predicate Unswept(calls: seq<Call>) {
    forall i | 0 <= i < |calls| :: !calls[i].swept
  }

  /** Every call on the key was decided by the hits that had passed in the window up to its reading. */
  predicate DecidedByHistory(calls: seq<Call>, key: string, limit: int, window: real) {
    calls == [] ||
    var front, c := calls[..|calls| - 1], calls[|calls| - 1];
    && DecidedByHistory(front, key, limit, window)
    && (c.key == key ==>
          (Takes(front, key, c.now, limit, window) <==> Admits(Passed(front, key, limit, window), limit, window, c.now)))
  }

  /** The same whatever the limit and the window. */
  ghost predicate HistoryDecides(calls: seq<Call>, key: string) {
    forall limit: int, window: real | limit > 0 :: DecidedByHistory(calls, key, limit, window)
  }

  lemma {:induction false} InOrderIsDecided(calls: seq<Call>, key: string, limit: int, window: real)
    requires limit > 0 && InClockOrder(calls)
    ensures DecidedByHistory(calls, key, limit, window)
  {
    if calls != [] {
      var front, c := calls[..|calls| - 1], calls[|calls| - 1];
      assert calls == front + [c];
      InOrderIsDecided(front, key, limit, window);
      DecisionInOrder(front, c, limit, window);
      QueueRefinesHistory(front, key, limit, window);
    }
  }

  lemma {:induction false} DecidedPrefix(calls: seq<Call>, n: nat, key: string, limit: int, window: real)
    requires n <= |calls| && DecidedByHistory(calls, key, limit, window)
    ensures DecidedByHistory(calls[..n], key, limit, window)
    decreases |calls|
  {
    if n == |calls| {
      assert calls[..n] == calls;
    } else {
      DecidedPrefix(calls[..|calls| - 1], n, key, limit, window);
      assert calls[..|calls| - 1][..n] == calls[..n];
    }
  }

  // ---------------------------------------------------------------------------------------
  // A window wider than the run
  // ---------------------------------------------------------------------------------------

  /** A bound on the readings of a run. */
  function Bound(calls: seq<Call>): (b: real)
    ensures 0.0 <= b && forall i | 0 <= i < |calls| :: -b <= calls[i].now <= b
  {
    if calls == [] then 0.0
    else
      var b, now := Bound(calls[..|calls| - 1]), calls[|calls| - 1].now;
      if now > b then now else if -now > b then -now else b
  }

  function Readings(calls: seq<Call>): (r: seq<real>)
    ensures |r| == |calls| && forall i | 0 <= i < |calls| :: r[i] == calls[i].now
  {
    seq(|calls|, i requires 0 <= i < |calls| => calls[i].now)
  }

  /** Every reading is in the window that ends at any other. */
  predicate Wide(calls: seq<Call>, window: real) {
    forall i, j | 0 <= i < |calls| && 0 <= j < |calls| :: calls[i].now - window < calls[j].now
  }

  lemma {:induction false} TrimNothing(q: seq<real>, cutoff: real)
    requires q != [] ==> cutoff < q[0]
    ensures Trim(q, cutoff) == q
  {
  }

  /** In a window wider than the run, as many calls as the limit all pass and are all kept. */
  lemma {:induction false} WideKeepsAll(calls: seq<Call>, key: string, limit: int, window: real)
    requires OneKey(calls, key) && |calls| <= limit && Wide(calls, window)
    ensures Queue(calls, key, limit, window) == Readings(calls) == Passed(calls, key, limit, window)
    decreases |calls|
  {
    if calls != [] {
      var n := |calls| - 1;
      var front, c := calls[..n], calls[n];
      assert forall i | 0 <= i < n :: front[i] == calls[i];
      WideKeepsAll(front, key, limit, window);
      assert c.now - window < c.now && c.now - window < calls[0].now;
      NextPasses(front, c, Readings(front), limit, window);
      assert calls == front + [c] && Readings(calls) == Readings(front) + [c.now];
    }
  }

  lemma {:induction false} CountMisses(times: seq<real>, i: nat, lo: real, hi: real)
    requires i < |times| && hi < times[i]
    ensures Count(times, lo, hi) <= |times| - 1
  {
    var n := |times| - 1;
    if i < n {
      CountMisses(times[..n], i, lo, hi);
    } else {
      CountSkips(times[..n], 0, lo, hi);
    }
  }

  /** A live deque with a later hit is longer than its own window says. */
  lemma {:induction false} JudgedApart(q: seq<real>, i: nat, now: real, window: real)
    requires i < |q| && now < q[i] && now - window < q[0]
    ensures |Trim(q, now - window)| == |q| && Count(q, now - window, now) < |q|
  {
    CountMisses(q, i, now - window, now);
    TrimNothing(q, now - window);
  }

  /** A deque full of live hits refuses a reading although its own window has room. */
  lemma {:induction false} FullOfLater(front: seq<Call>, key: string, i: nat, now: real, limit: int, window: real)
    requires OneKey(front, key) && i < |front| == limit && Wide(front, window)
    requires now < front[i].now && now - window < front[0].now
    ensures !Takes(front, key, now, limit, window)
    ensures Admits(Passed(front, key, limit, window), limit, window, now)
  {
    JudgedApart(Readings(front), i, now, window);
    WideKeepsAll(front, key, limit, window);
  }

  lemma {:induction false} NotDecided(front: seq<Call>, c: Call, key: string, limit: int, window: real)
    requires c.key == key && !Takes(front, key, c.now, limit, window)
    requires Admits(Passed(front, key, limit, window), limit, window, c.now)
    ensures !DecidedByHistory(front + [c], key, limit, window)
  {
    assert (front + [c])[..|front|] == front;
  }

  /** A reading below an earlier one is misjudged, if the limit and the window are chosen for it. */
  lemma {:induction false} InversionIsMisjudged(calls: seq<Call>, key: string, i: nat, j: nat, window: real)
    requires OneKey(calls, key) && i < j < |calls| && calls[j].now < calls[i].now && Wide(calls, window)
    ensures !DecidedByHistory(calls, key, j, window)
  {
    var front, c := calls[..j], calls[j];
    assert forall k | 0 <= k < j :: front[k] == calls[k];
    FullOfLater(front, key, i, c.now, j, window);
    NotDecided(front, c, key, j, window);
    assert calls[..j + 1] == front + [c];
    if DecidedByHistory(calls, key, j, window) {
      DecidedPrefix(calls, j + 1, key, j, window);
    }
  }

  /**
   The exact condition on the readings of one key, whenever idle keys are evicted: the history
   decides every call, whatever the limit and the window, if and only if they are in clock order.
   */
  lemma {:induction false} HistoryDecidesOneKeyIff(calls: seq<Call>, key: string)
    requires OneKey(calls, key)
    ensures HistoryDecides(calls, key) <==> InClockOrder(calls)
  {
    if InClockOrder(calls) {
      forall limit: int, window: real | limit > 0 ensures DecidedByHistory(calls, key, limit, window) {
        InOrderIsDecided(calls, key, limit, window);
      }
    } else {
      var i, j :| 0 <= i < j < |calls| && calls[j].now < calls[i].now;
      var window := 2.0 * Bound(calls) + 1.0;
      InversionIsMisjudged(calls, key, i, j, window);
    }
  }

  // ---------------------------------------------------------------------------------------
  // Any keys
  // ---------------------------------------------------------------------------------------

  /** The calls on one key. */
  function Only(calls: seq<Call>, key: string): seq<Call> {
    if calls == [] then []
    else
      var c := calls[|calls| - 1];
      Only(calls[..|calls| - 1], key) + if c.key == key then [c] else []
  }

  predicate KeyInOrder(calls: seq<Call>, key: string) {
    forall i, j | 0 <= i < j < |calls| && calls[i].key == key && calls[j].key == key :: calls[i].now <= calls[j].now
  }

  /** Without eviction a key's deque does not notice the calls on other keys. */
  lemma {:induction false} OtherKeysDoNotMatter(calls: seq<Call>, key: string, limit: int, window: real)
    requires Unswept(calls)
    ensures var only := Only(calls, key);
            && Queue(calls, key, limit, window) == Queue(only, key, limit, window)
            && Passed(calls, key, limit, window) == Passed(only, key, limit, window)
            && (DecidedByHistory(calls, key, limit, window) <==> DecidedByHistory(only, key, limit, window))
  {
    if calls != [] {
      var front, c := calls[..|calls| - 1], calls[|calls| - 1];
      OtherKeysDoNotMatter(front, key, limit, window);
      var only := Only(calls, key);
      if c.key == key {
        assert only[..|only| - 1] == Only(front, key) && only[|only| - 1] == c;
      } else {
        assert only == Only(front, key);
      }
    }
  }

  lemma {:induction false} OnlyContents(calls: seq<Call>, key: string, c: Call)
    ensures c in Only(calls, key) <==> c in calls && c.key == key
  {
    if calls != [] {
      OnlyContents(calls[..|calls| - 1], key, c);
      assert calls == calls[..|calls| - 1] + [calls[|calls| - 1]];
    }
  }

  lemma {:induction false} OnlyOneKey(calls: seq<Call>, key: string)
    ensures OneKey(Only(calls, key), key)
  {
    var only := Only(calls, key);
    forall i | 0 <= i < |only| ensures only[i].key == key {
      OnlyContents(calls, key, only[i]);
    }
  }

  predicate NoneLater(calls: seq<Call>, now: real) {
    forall x | x in calls :: x.now <= now
  }

  predicate NoneLaterOn(calls: seq<Call>, key: string, now: real) {
    forall x | x in calls && x.key == key :: x.now <= now
  }

  lemma {:induction false} OnlyNoneLater(calls: seq<Call>, key: string, now: real)
    ensures NoneLater(Only(calls, key), now) <==> NoneLaterOn(calls, key, now)
  {
    forall x ensures x in Only(calls, key) <==> x in calls && x.key == key {
      OnlyContents(calls, key, x);
    }
  }

  lemma {:induction false} OnlyInOrder(calls: seq<Call>, key: string)
    ensures InClockOrder(Only(calls, key)) <==> KeyInOrder(calls, key)
  {
    if calls != [] {
      var front, c := calls[..|calls| - 1], calls[|calls| - 1];
      OnlyInOrder(front, key);
      var only := Only(front, key);
      KeyOrderAppend(front, c, key);
      assert calls == front + [c];
      if c.key == key {
        OrderAppend(only, c);
        OnlyNoneLater(front, key, c.now);
      } else {
        assert only + [] == only;
      }
    }
  }

  lemma {:induction false} OrderAppend(calls: seq<Call>, c: Call)
    ensures InClockOrder(calls + [c]) <==> InClockOrder(calls) && NoneLater(calls, c.now)
  {
    var all := calls + [c];
    assert all[|calls|] == c && forall i | 0 <= i < |calls| :: all[i] == calls[i];
    if InClockOrder(all) {
      forall x | x in calls ensures x.now <= c.now {
        var i :| 0 <= i < |calls| && calls[i] == x;
        assert all[i].now <= all[|calls|].now;
      }
    }
  }

  lemma {:induction false} KeyOrderAppend(calls: seq<Call>, c: Call, key: string)
    ensures KeyInOrder(calls + [c], key) <==>
              KeyInOrder(calls, key) && (c.key == key ==> NoneLaterOn(calls, key, c.now))
  {
    var all := calls + [c];
    assert all[|calls|] == c && forall i | 0 <= i < |calls| :: all[i] == calls[i];
    if KeyInOrder(all, key) && c.key == key {
      forall x | x in calls && x.key == key ensures x.now <= c.now {
        var i :| 0 <= i < |calls| && calls[i] == x;
        assert all[i].now <= all[|calls|].now;
      }
    }
  }

  /**
   The exact condition for calls on any keys while nothing is evicted: the history of a key decides
   all its calls, whatever the limit and the window, if and only if the readings of that key are in
   clock order. The order between keys does not matter.
   */
  lemma {:induction false} HistoryDecidesIff(calls: seq<Call>, key: string)
    requires Unswept(calls)
    ensures HistoryDecides(calls, key) <==> KeyInOrder(calls, key)
  {
    var only := Only(calls, key);
    OnlyOneKey(calls, key);
    OnlyInOrder(calls, key);
    HistoryDecidesOneKeyIff(only, key);
    SameDecisions(calls, key);
  }

  lemma {:induction false} SameDecisions(calls: seq<Call>, key: string)
    requires Unswept(calls)
    ensures HistoryDecides(calls, key) <==> HistoryDecides(Only(calls, key), key)
  {
    var only := Only(calls, key);
    if HistoryDecides(calls, key) {
      forall limit: int, window: real | limit > 0 ensures DecidedByHistory(only, key, limit, window) {
        OtherKeysDoNotMatter(calls, key, limit, window);
      }
    }
    if HistoryDecides(only, key) {
      forall limit: int, window: real | limit > 0 ensures DecidedByHistory(calls, key, limit, window) {
        OtherKeysDoNotMatter(calls, key, limit, window);
      }
    }
  }

  // ---------------------------------------------------------------------------------------
  // The bound on every window, for readings in any order
  // ---------------------------------------------------------------------------------------

  predicate Spaced(times: seq<real>, window: real) {
    forall i, j | 0 <= i < j < |times| :: times[i] + window <= times[j]
  }

  /** A deque of one remembers the last hit that passed, so the next is a window later, in any order. */
  lemma {:induction false} LimitOneSpaces(calls: seq<Call>, key: string, limit: int, window: real)
    requires limit == 1 && window > 0.0 && Unswept(calls)
    ensures Spaced(Passed(calls, key, limit, window), window)
    ensures Queue(calls, key, limit, window) == LastOf(Passed(calls, key, limit, window))
    decreases |calls|
  {
    if calls != [] {
      var front, c := calls[..|calls| - 1], calls[|calls| - 1];
      LimitOneSpaces(front, key, limit, window);
      assert calls == front + [c];
      LimitOneNext(front, c, key, limit, window);
    }
  }

  lemma {:induction false} LimitOneNext(front: seq<Call>, c: Call, key: string, limit: int, window: real)
    requires limit == 1 && window > 0.0 && !c.swept && Spaced(Passed(front, key, limit, window), window)
    requires Queue(front, key, limit, window) == LastOf(Passed(front, key, limit, window))
    ensures Spaced(Passed(front + [c], key, limit, window), window)
    ensures Queue(front + [c], key, limit, window) == LastOf(Passed(front + [c], key, limit, window))
  {
    var all, q := Passed(front, key, limit, window), Queue(front, key, limit, window);
    QueueStep(front, c, key, limit, window);
    LimitOneStep(all, q, key, c, limit, window);
  }

  /** The last of the hits that passed, if there is one. */
  function LastOf(all: seq<real>): seq<real> {
    if all == [] then [] else [all[|all| - 1]]
  }

  lemma {:induction false} LimitOneStep(all: seq<real>, q: seq<real>, key: string, c: Call, limit: int, window: real)
    requires limit == 1 && window > 0.0 && Spaced(all, window) && q == LastOf(all) && !c.swept
    ensures c.key == key && |Trim(q, c.now - window)| < limit ==>
              Spaced(all + [c.now], window) && After(q, key, c, limit, window) == LastOf(all + [c.now])
    ensures !(c.key == key && |Trim(q, c.now - window)| < limit) ==> After(q, key, c, limit, window) == q
  {
    TrimIs(q, c.now - window);
    if c.key == key && |Trim(q, c.now - window)| < limit {
      SpacedAppend(all, window, c.now);
    }
  }

  lemma {:induction false} SpacedAppend(times: seq<real>, window: real, x: real)
    requires window > 0.0 && Spaced(times, window) && (times != [] ==> times[|times| - 1] + window <= x)
    ensures Spaced(times + [x], window)
  {
    forall i | 0 <= i < |times| ensures times[i] + window <= x {
      assert i < |times| - 1 ==> times[i] + window <= times[|times| - 1];
    }
  }

  lemma {:induction false} SpacedCount(times: seq<real>, window: real, t: real)
    requires window > 0.0 && Spaced(times, window)
    ensures Count(times, t - window, t) <= 1
  {
    if times != [] {
      var n := |times| - 1;
      SpacedCount(times[..n], window, t);
      if t - window < times[n] <= t {
        assert forall i | 0 <= i < n :: times[i] + window <= times[n];
        CountSkips(times[..n], n, t - window, t);
      }
    }
  }

  /** The same hit n times. */
  function Hits(key: string, now: real, n: nat): seq<Call> {
    if n == 0 then [] else Hits(key, now, n - 1) + [Call(key, now, false)]
  }

  function Copies(x: real, n: nat): (r: seq<real>)
    ensures |r| == n && forall i | 0 <= i < n :: r[i] == x
  {
    if n == 0 then [] else Copies(x, n - 1) + [x]
  }

  /** As many hits as the limit, at one reading, fill an empty deque. */
  lemma {:induction false} HitsFillUp(calls: seq<Call>, key: string, limit: int, window: real, a: real, n: nat)
    requires Queue(calls, key, limit, window) == [] && n <= limit && window > 0.0
    ensures Queue(calls + Hits(key, a, n), key, limit, window) == Copies(a, n)
    ensures Passed(calls + Hits(key, a, n), key, limit, window) == Passed(calls, key, limit, window) + Copies(a, n)
    decreases n
  {
    if n == 0 {
      assert calls + Hits(key, a, n) == calls;
      assert Passed(calls, key, limit, window) + [] == Passed(calls, key, limit, window);
    } else {
      HitsFillUp(calls, key, limit, window, a, n - 1);
      OneMoreHit(calls, Hits(key, a, n - 1), Call(key, a, false), Copies(a, n - 1), limit, window);
    }
  }

  lemma {:induction false} Regroup(a: seq<real>, b: seq<real>, c: seq<real>)
    ensures a + b + c == a + (b + c)
  {
  }

  lemma {:induction false} OneMoreHit(calls: seq<Call>, hits: seq<Call>, c: Call, q: seq<real>, limit: int, window: real)
    requires Queue(calls + hits, c.key, limit, window) == q && |q| < limit && !c.swept && (q == [] || c.now - window < q[0])
    requires Passed(calls + hits, c.key, limit, window) == Passed(calls, c.key, limit, window) + q
    ensures Queue(calls + (hits + [c]), c.key, limit, window) == q + [c.now]
    ensures Passed(calls + (hits + [c]), c.key, limit, window) == Passed(calls, c.key, limit, window) + (q + [c.now])
  {
    NextPasses(calls + hits, c, q, limit, window);
    assert calls + (hits + [c]) == calls + hits + [c];
    Regroup(Passed(calls, c.key, limit, window), q, [c.now]);
  }

  /** A hit on a key whose deque has room and holds nothing expired at the front. */
  lemma {:induction false} NextPasses(calls: seq<Call>, c: Call, q: seq<real>, limit: int, window: real)
    requires q == Queue(calls, c.key, limit, window) && |q| < limit && (q == [] || c.now - window < q[0])
    requires c.swept ==> window > 0.0
    ensures Queue(calls + [c], c.key, limit, window) == q + [c.now]
    ensures Passed(calls + [c], c.key, limit, window) == Passed(calls, c.key, limit, window) + [c.now]
  {
    QueueStep(calls, c, c.key, limit, window);
    TrimNothing(q, c.now - window);
  }

  /** A hit on a key whose deque has expired altogether. */
  lemma {:induction false} NextStartsOver(calls: seq<Call>, c: Call, q: seq<real>, limit: int, window: real)
    requires q == Queue(calls, c.key, limit, window) && limit > 0 && !c.swept
    requires forall i | 0 <= i < |q| :: q[i] <= c.now - window
    ensures Queue(calls + [c], c.key, limit, window) == [c.now]
    ensures Passed(calls + [c], c.key, limit, window) == Passed(calls, c.key, limit, window) + [c.now]
  {
    QueueStep(calls, c, c.key, limit, window);
    TrimIs(q, c.now - window);
  }

  lemma {:induction false} CopiesCounted(before: seq<real>, x: real, n: nat, lo: real, hi: real)
    requires lo < x <= hi
    ensures Count(before + Copies(x, n), lo, hi) == Count(before, lo, hi) + n
    decreases n
  {
    if n == 0 {
      assert before + Copies(x, n) == before;
    } else {
      CopiesCounted(before, x, n - 1, lo, hi);
      assert before + Copies(x, n) == before + Copies(x, n - 1) + [x];
      CountAppend(before + Copies(x, n - 1), x, lo, hi);
    }
  }

  /** `limit` hits at a, one that reads a window later, and one that had read d before that. */
  function LateReading(key: string, limit: nat, a: real, late: real, d: real): seq<Call> {
    Hits(key, a, limit) + [Call(key, late, false)] + [Call(key, d, false)]
  }

  /**
   Why the order matters, for every limit above 1 and after any history that left the deque empty:
   all the hits of such a run pass, and more than `limit` of them lie in (d - window, d].
   */
  lemma {:induction false} LateReadingBreaksWindow(calls: seq<Call>, key: string, limit: nat, window: real, a: real, late: real, d: real)
    requires limit >= 2 && Queue(calls, key, limit, window) == [] && a <= d < a + window <= late
    ensures var all := Passed(calls + LateReading(key, limit, a, late, d), key, limit, window);
            && all == Passed(calls, key, limit, window) + Copies(a, limit) + [late] + [d]
            && Count(all, d - window, d) > limit
  {
    var full := calls + Hits(key, a, limit);
    var all := Passed(calls, key, limit, window);
    HitsFillUp(calls, key, limit, window, a, limit);
    NextStartsOver(full, Call(key, late, false), Copies(a, limit), limit, window);
    NextPasses(full + [Call(key, late, false)], Call(key, d, false), [late], limit, window);
    assert calls + LateReading(key, limit, a, late, d) == full + [Call(key, late, false)] + [Call(key, d, false)];
    RunCounted(all, a, limit, late, d, window);
  }

  lemma {:induction false} RunCounted(before: seq<real>, a: real, n: nat, late: real, d: real, window: real)
    requires a <= d < a + window
    ensures Count(before + Copies(a, n) + [late] + [d], d - window, d) > n
  {
    CopiesCounted(before, a, n, d - window, d);
    CountAppend(before + Copies(a, n), late, d - window, d);
    CountAppend(before + Copies(a, n) + [late], d, d - window, d);
  }

  lemma {:induction false} HitsAreUnswept(key: string, a: real, n: nat)
    ensures Unswept(Hits(key, a, n))
  {
    if n > 0 {
      HitsAreUnswept(key, a, n - 1);
    }
  }

  /** No window ever holds more than the limit, whatever the order of the readings. */
  ghost predicate BoundedInAnyOrder(key: string, limit: int, window: real) {
    forall calls: seq<Call>, t: real | Unswept(calls) :: BoundedAt(calls, key, limit, window, t)
  }

  /** The window that ends at t holds at most `limit` of the hits that passed. */
  predicate BoundedAt(calls: seq<Call>, key: string, limit: int, window: real, t: real) {
    Count(Passed(calls, key, limit, window), t - window, t) <= limit
  }

  lemma {:induction false} BreakingRun(key: string, limit: nat, window: real, a: real) returns (run: seq<Call>)
    requires limit >= 2 && window > 0.0
    ensures Unswept(run) && !BoundedAt(run, key, limit, window, a)
  {
    var none: seq<Call> := [];
    run := none + LateReading(key, limit, a, a + window, a);
    LateReadingBreaksWindow(none, key, limit, window, a, a + window, a);
    HitsAreUnswept(key, a, limit);
  }

  /**
   The exact condition for the bound: while nothing is evicted, every window holds at most `limit`
   hits whatever the order of the readings, if and only if the limit is 1.
   */
  lemma {:induction false} WindowBoundInAnyOrderIff(key: string, limit: int, window: real)
    requires limit > 0 && window > 0.0
    ensures BoundedInAnyOrder(key, limit, window) <==> limit == 1
  {
    if limit == 1 {
      forall calls: seq<Call>, t: real | Unswept(calls) ensures BoundedAt(calls, key, limit, window, t) {
        LimitOneSpaces(calls, key, limit, window);
        SpacedCount(Passed(calls, key, limit, window), window, t);
      }
    } else {
      var run := BreakingRun(key, limit, window, 0.0);
    }
  }

  /**
   With eviction no limit is safe out of order: a call on another key that reads a window later
   evicts the key, and one more hit at the old reading passes.
   */
  lemma {:induction false} LateEvictionBreaksWindow(key: string, other: string, limit: nat, window: real, a: real)
    requires limit > 0 && window > 0.0 && key != other
    ensures var calls := Hits(key, a, limit) + [Call(other, a + window, true)] + [Call(key, a, false)];
            Count(Passed(calls, key, limit, window), a - window, a) == limit + 1
  {
    var full := Hits(key, a, limit);
    HitsFillUp([], key, limit, window, a, limit);
    assert [] + full == full && [] + Copies(a, limit) == Copies(a, limit);
    var evicted := full + [Call(other, a + window, true)];
    QueueStep(full, Call(other, a + window, true), key, limit, window);
    assert Queue(evicted, key, limit, window) == [];
    NextPasses(evicted, Call(key, a, false), [], limit, window);
    CopiesCounted([], a, limit, a - window, a);
    CountAppend(Copies(a, limit), a, a - window, a);
  }
}
