/** Timestamped dictionaries whose entries are deleted when they are older than a time to live. */
module Expiry {
  predicate Expired(at: real, now: real, ttl: real) {
    now - at > ttl
  }

  /** The entries that are still alive. */
  function Alive(m: map<string, real>, now: real, ttl: real): map<string, real> {
    map k | k in m && !Expired(m[k], now, ttl) :: m[k]
  }

  /** Deletes the expired keys one by one. */
  method Purge(m: map<string, real>, now: real, ttl: real) returns (r: map<string, real>)
    ensures r == Alive(m, now, ttl)
  {
    var expired := set k | k in m && Expired(m[k], now, ttl);
    r := m;
    var todo := expired;
    while todo != {}
      invariant todo <= expired
      invariant r == map k | k in m && k !in expired - todo :: m[k]
    {
      var k :| k in todo;
      r := r - {k};
      todo := todo - {k};
    }
  }
}

/**
 The desktop worker's replay guard: a nonce is accepted once and remembered for five minutes.
 `require_session` runs on a thread pool and reads the wall clock, so the dictionary sees its
 accesses in any order and with any readings. A call looks (purges and tests the nonce) and, if the
 look passes, writes the nonce with the time it read.
 */
module ReplayGuard {
  import opened Options
  import opened Expiry

  const NONCE_TTL_SEC: real := 300.0

  /** One access to the dictionary; a nonce is accepted when it is written. */
  datatype Step = Looked(nonce: string, reading: real) | Wrote(nonce: string, reading: real)

  /** The dictionary after these accesses. */
  function Seen(steps: seq<Step>): map<string, real> {
    if steps == [] then map[]
    else
      var before, s := Seen(steps[..|steps| - 1]), steps[|steps| - 1];
      if s.Looked? then Alive(before, s.reading, NONCE_TTL_SEC) else before[s.nonce := s.reading]
  }

  /** A look finds the nonce unused. */
  predicate Passes(steps: seq<Step>, nonce: string, now: real) {
    nonce !in Alive(Seen(steps), now, NONCE_TTL_SEC)
  }

  /** The latest acceptance of the nonce. */
  function LastWrite(steps: seq<Step>, nonce: string): (r: Option<nat>)
    ensures r.Some? ==> r.value < |steps| && steps[r.value] == Wrote(nonce, steps[r.value].reading)
    ensures forall j | (if r.Some? then r.value + 1 else 0) <= j < |steps| :: !(steps[j].Wrote? && steps[j].nonce == nonce)
  {
    if steps == [] then None
    else
      var n := |steps| - 1;
      if steps[n].Wrote? && steps[n].nonce == nonce then Some(n) else LastWrite(steps[..n], nonce)
  }

  /** No look since position k has read the clock more than the time to live past it. */
  predicate Young(steps: seq<Step>, k: nat)
    requires k < |steps|
  {
    forall j | k < j < |steps| && steps[j].Looked? :: !Expired(steps[k].reading, steps[j].reading, NONCE_TTL_SEC)
  }

  // ---------------------------------------------------------------------------------------
  // Any clock, any threads
  // ---------------------------------------------------------------------------------------

  lemma YoungStep(steps: seq<Step>, s: Step, k: nat)
    requires k < |steps|
    ensures Young(steps + [s], k) <==>
              Young(steps, k) && (s.Looked? ==> !Expired(steps[k].reading, s.reading, NONCE_TTL_SEC))
  {
    var all := steps + [s];
    assert all[|steps|] == s && forall j | 0 <= j < |steps| :: all[j] == steps[j];
  }

  lemma LastWriteStep(steps: seq<Step>, s: Step, nonce: string)
    ensures LastWrite(steps + [s], nonce) ==
              if s.Wrote? && s.nonce == nonce then Some(|steps|) else LastWrite(steps, nonce)
  {
    assert (steps + [s])[..|steps|] == steps;
  }

  /** What is remembered, for every order of accesses and every clock: the latest acceptance while it is young. */
  lemma {:induction false} RememberedIff(steps: seq<Step>, nonce: string)
    ensures nonce in Seen(steps) <==> LastWrite(steps, nonce).Some? && Young(steps, LastWrite(steps, nonce).value)
    ensures nonce in Seen(steps) ==> Seen(steps)[nonce] == steps[LastWrite(steps, nonce).value].reading
  {
    if steps != [] {
      var front, s := steps[..|steps| - 1], steps[|steps| - 1];
      assert steps == front + [s];
      RememberedIff(front, nonce);
      LastWriteStep(front, s, nonce);
      if LastWrite(front, nonce).Some? {
        YoungStep(front, s, LastWrite(front, nonce).value);
      }
    }
  }

  /**
   The exact decision, for every order of accesses and every clock: a look is rejected if and only
   if the nonce has been accepted and no reading since its latest acceptance, this one included,
   is more than the time to live past it.
   */
  lemma RejectedIff(steps: seq<Step>, nonce: string, now: real)
    ensures !Passes(steps, nonce, now) <==>
              && LastWrite(steps, nonce).Some?
              && Young(steps + [Looked(nonce, now)], LastWrite(steps, nonce).value)
  {
    RememberedIff(steps, nonce);
    if LastWrite(steps, nonce).Some? {
      YoungStep(steps, Looked(nonce, now), LastWrite(steps, nonce).value);
    }
  }

  /** The latest acceptance is at most the time to live before `now`. */
  predicate LastIsRecent(steps: seq<Step>, nonce: string, now: real) {
    var r := LastWrite(steps, nonce);
    r.Some? && !Expired(steps[r.value].reading, now, NONCE_TTL_SEC)
  }

  /**
   When the promise holds: a look rejects exactly the nonces whose latest acceptance is recent, if
   and only if no earlier look has outlived that acceptance or this one does.
   */
  lemma PromiseIff(steps: seq<Step>, nonce: string, now: real)
    ensures (!Passes(steps, nonce, now) <==> LastIsRecent(steps, nonce, now))
            <==> (var r := LastWrite(steps, nonce);
                  r.None? || Young(steps, r.value) || Expired(steps[r.value].reading, now, NONCE_TTL_SEC))
  {
    RejectedIff(steps, nonce, now);
    if LastWrite(steps, nonce).Some? {
      YoungStep(steps, Looked(nonce, now), LastWrite(steps, nonce).value);
    }
  }

  /**
   Two calls that overlap: after a look that passed, a second look of the same nonce, not outliving
   any acceptance in between, passes if and only if the first has not written yet.
   */
  lemma OverlapIff(steps: seq<Step>, nonce: string, first: real, more: seq<Step>, second: real)
    requires Passes(steps, nonce, first)
    requires forall i, j | 0 <= i < j < |more| && more[j].Looked? && more[i].Wrote? && more[i].nonce == nonce ::
               !Expired(more[i].reading, more[j].reading, NONCE_TTL_SEC)
    requires forall i | 0 <= i < |more| && more[i].Wrote? && more[i].nonce == nonce ::
               !Expired(more[i].reading, second, NONCE_TTL_SEC)
    ensures Passes(steps + [Looked(nonce, first)] + more, nonce, second) <==>
              forall i | 0 <= i < |more| :: !(more[i].Wrote? && more[i].nonce == nonce)
  {
    var looked := steps + [Looked(nonce, first)];
    var all := looked + more;
    assert forall i | 0 <= i < |more| :: all[|looked| + i] == more[i];
    var r := LastWrite(all, nonce);
    RejectedIff(all, nonce, second);
    if r.Some? && r.value < |looked| {
      NotRememberedAfter(steps, nonce, first, more);
      RememberedIff(all, nonce);
    }
    if r.Some? && r.value >= |looked| {
      assert Young(all + [Looked(nonce, second)], r.value);
    }
  }

  /** A nonce that a look did not find stays unknown until somebody writes it. */
  lemma {:induction false} NotRememberedAfter(steps: seq<Step>, nonce: string, now: real, more: seq<Step>)
    requires Passes(steps, nonce, now)
    requires forall i | 0 <= i < |more| :: !(more[i].Wrote? && more[i].nonce == nonce)
    ensures nonce !in Seen(steps + [Looked(nonce, now)] + more)
    decreases |more|
  {
    var looked := steps + [Looked(nonce, now)];
    if more == [] {
      assert looked + more == looked && looked[..|steps|] == steps;
    } else {
      NotRememberedAfter(steps, nonce, now, more[..|more| - 1]);
      assert (looked + more)[..|looked + more| - 1] == looked + more[..|more| - 1];
    }
  }

  // ---------------------------------------------------------------------------------------
  // Calls one at a time
  // ---------------------------------------------------------------------------------------

  /** Every write comes right after its own look, which passed. */
  predicate OneAtATime(steps: seq<Step>) {
    forall j | 0 <= j < |steps| && steps[j].Wrote? ::
      && j > 0 && steps[j - 1] == Looked(steps[j].nonce, steps[j].reading)
      && Passes(steps[..j - 1], steps[j].nonce, steps[j].reading)
  }

  /** Some look after position i and up to l has read the clock more than the time to live past it. */
  predicate Outlived(steps: seq<Step>, i: nat, l: nat)
    requires i <= l < |steps|
  {
    exists m | i < m <= l :: steps[m].Looked? && Expired(steps[i].reading, steps[m].reading, NONCE_TTL_SEC)
  }

  lemma OutlivedIffNotYoung(steps: seq<Step>, i: nat, l: nat)
    requires i < l < |steps|
    ensures Outlived(steps, i, l) <==> !Young(steps[..l] + [steps[l]], i)
  {
    var upTo := steps[..l] + [steps[l]];
    assert forall m | 0 <= m <= l :: upTo[m] == steps[m];
  }

  /**
   A replay leaves a mark in the readings, whatever the clock does: if a look passes after an
   acceptance of its nonce, then some look in between, or this one, has read the clock more than
   the time to live past that acceptance.
   */
  lemma {:induction false} ReplayNeedsLateReading(steps: seq<Step>, i: nat, l: nat, nonce: string)
    requires OneAtATime(steps) && i < l < |steps|
    requires steps[i].Wrote? && steps[i].nonce == nonce && steps[l].Looked?
    requires Passes(steps[..l], nonce, steps[l].reading) && steps[l].nonce == nonce
    ensures Outlived(steps, i, l)
    decreases l
  {
    var k := LastWriteBefore(steps, i, l, nonce);
    if k == i {
      RejectedIff(steps[..l], nonce, steps[l].reading);
      OutlivedIffNotYoung(steps, i, l);
    } else {
      LookOfWrite(steps, k);
      ReplayNeedsLateReading(steps, i, k - 1, nonce);
      OutlivedLonger(steps, i, k - 1, l);
    }
  }

  lemma LastWriteBefore(steps: seq<Step>, i: nat, l: nat, nonce: string) returns (k: nat)
    requires i < l < |steps| && steps[i].Wrote? && steps[i].nonce == nonce
    ensures LastWrite(steps[..l], nonce) == Some(k) && i <= k < l && steps[k] == Wrote(nonce, steps[k].reading)
  {
    var front := steps[..l];
    assert front[i] == steps[i];
    k := LastWrite(front, nonce).value;
    assert front[k] == steps[k];
  }

  lemma LookOfWrite(steps: seq<Step>, k: nat)
    requires OneAtATime(steps) && k < |steps| && steps[k].Wrote?
    ensures k > 0 && steps[k - 1] == Looked(steps[k].nonce, steps[k].reading)
    ensures Passes(steps[..k - 1], steps[k].nonce, steps[k].reading)
  {
  }

  lemma OutlivedLonger(steps: seq<Step>, i: nat, l: nat, more: nat)
    requires i <= l <= more < |steps| && Outlived(steps, i, l)
    ensures Outlived(steps, i, more)
  {
  }

  predicate InClockOrder(steps: seq<Step>) {
    forall i, j | 0 <= i < j < |steps| :: steps[i].reading <= steps[j].reading
  }

  /** Under a clock that does not step back, any two acceptances of one nonce are more than the time to live apart. */
  lemma AcceptancesAreApart(steps: seq<Step>, i: nat, j: nat)
    requires OneAtATime(steps) && InClockOrder(steps)
    requires i < j < |steps| && steps[i].Wrote? && steps[j].Wrote? && steps[i].nonce == steps[j].nonce
    ensures steps[j].reading - steps[i].reading > 300.0
  {
    ReplayNeedsLateReading(steps, i, j - 1, steps[i].nonce);
  }

  /** Some acceptance of the nonce is at most the time to live ago. */
  predicate Recent(steps: seq<Step>, nonce: string, now: real) {
    exists i | 0 <= i < |steps| ::
      steps[i].Wrote? && steps[i].nonce == nonce && !Expired(steps[i].reading, now, NONCE_TTL_SEC)
  }

  /** Under a clock that does not step back, a nonce is rejected if and only if it was accepted recently. */
  lemma ClockOrderDecides(steps: seq<Step>, nonce: string, now: real)
    requires InClockOrder(steps) && forall i | 0 <= i < |steps| :: steps[i].reading <= now
    ensures !Passes(steps, nonce, now) <==> Recent(steps, nonce, now)
  {
    PromiseIff(steps, nonce, now);
    var r := LastWrite(steps, nonce);
    if Recent(steps, nonce, now) {
      var i :| 0 <= i < |steps| && steps[i].Wrote? && steps[i].nonce == nonce && !Expired(steps[i].reading, now, NONCE_TTL_SEC);
      assert r.Some? && i <= r.value;
    }
  }

  class NonceStore {
    var seen: map<string, real>
    ghost var steps: seq<Step>

    constructor ()
      ensures Valid() && steps == [] && OneAtATime(steps) && InClockOrder(steps)
    {
      seen, steps := map[], [];
    }

    ghost predicate Valid()
      reads this
    {
      seen == Seen(steps)
    }

    /** Purges what has expired and tests the nonce. */
    method Look(nonce: string, now: real) returns (unused: bool)
      requires Valid()
      modifies this
      ensures Valid() && steps == old(steps) + [Looked(nonce, now)]
      ensures unused <==> Passes(old(steps), nonce, now)
    {
      seen := Purge(seen, now, NONCE_TTL_SEC);
      unused := nonce !in seen;
      steps := steps + [Looked(nonce, now)];
      assert steps[..|old(steps)|] == old(steps);
    }

    method Write(nonce: string, now: real)
      requires Valid()
      modifies this
      ensures Valid() && steps == old(steps) + [Wrote(nonce, now)]
    {
      seen := seen[nonce := now];
      steps := steps + [Wrote(nonce, now)];
      assert steps[..|old(steps)|] == old(steps);
    }

    /**
     One call that is not interrupted. It is rejected if and only if the latest acceptance of the
     nonce has not been outlived by a reading; on a clock that has not stepped back that is: if and
     only if it was accepted in the last 300 seconds.
     */
    method CheckNonce(nonce: string, now: real) returns (ok: bool)
      requires Valid()
      modifies this
      ensures Valid() && steps == old(steps) + [Looked(nonce, now)] + if ok then [Wrote(nonce, now)] else []
      ensures old(OneAtATime(steps)) ==> OneAtATime(steps)
      ensures !ok <==>
                && LastWrite(old(steps), nonce).Some?
                && Young(old(steps) + [Looked(nonce, now)], LastWrite(old(steps), nonce).value)
      ensures InClockOrder(old(steps) + [Looked(nonce, now)]) ==> (!ok <==> Recent(old(steps), nonce, now))
    {
      RejectedIff(steps, nonce, now);
      if InClockOrder(steps + [Looked(nonce, now)]) {
        InOrderSoFar(steps, Looked(nonce, now));
        ClockOrderDecides(steps, nonce, now);
      }
      ok := Look(nonce, now);
      if ok {
        Write(nonce, now);
      }
      if old(OneAtATime(steps)) {
        OneMoreCall(old(steps), nonce, now);
      }
    }
  }

  lemma InOrderSoFar(steps: seq<Step>, s: Step)
    ensures InClockOrder(steps + [s]) <==> InClockOrder(steps) && forall i | 0 <= i < |steps| :: steps[i].reading <= s.reading
  {
    var all := steps + [s];
    assert all[|steps|] == s && forall i | 0 <= i < |steps| :: all[i] == steps[i];
  }

  lemma OneMoreStep(steps: seq<Step>, s: Step)
    requires OneAtATime(steps)
    requires s.Wrote? ==>
               && steps != [] && steps[|steps| - 1] == Looked(s.nonce, s.reading)
               && Passes(steps[..|steps| - 1], s.nonce, s.reading)
    ensures OneAtATime(steps + [s])
  {
    var all := steps + [s];
    forall j | 0 <= j < |all| && all[j].Wrote?
      ensures j > 0 && all[j - 1] == Looked(all[j].nonce, all[j].reading) && Passes(all[..j - 1], all[j].nonce, all[j].reading)
    {
      assert j < |steps| ==> all[j] == steps[j];
      assert all[..j - 1] == steps[..j - 1];
    }
  }

  lemma OneMoreCall(steps: seq<Step>, nonce: string, now: real)
    requires OneAtATime(steps)
    ensures OneAtATime(steps + [Looked(nonce, now)])
    ensures Passes(steps, nonce, now) ==> OneAtATime(steps + [Looked(nonce, now)] + [Wrote(nonce, now)])
  {
    var looked := steps + [Looked(nonce, now)];
    OneMoreStep(steps, Looked(nonce, now));
    if Passes(steps, nonce, now) {
      assert looked[..|steps|] == steps;
      OneMoreStep(looked, Wrote(nonce, now));
    }
  }

  /**
   The runs behind it, after any history: a nonce is accepted at `a`, another call reads the clock
   more than the time to live later, and the clock then steps back to a time when the acceptance is
   still recent. The replay passes. With a = 0, late = 301 and now = 200 it is 200 seconds old.
   */
  lemma SteppingClockAcceptsReplay(steps: seq<Step>, nonce: string, a: real, other: string, late: real, now: real)
    requires OneAtATime(steps) && Passes(steps, nonce, a)
    requires Expired(a, late, NONCE_TTL_SEC) && !Expired(a, now, NONCE_TTL_SEC)
    ensures var run := steps + [Looked(nonce, a)] + [Wrote(nonce, a)] + [Looked(other, late)];
            OneAtATime(run) && Recent(run, nonce, now) && Passes(run, nonce, now)
  {
    var accepted := steps + [Looked(nonce, a)] + [Wrote(nonce, a)];
    var run := accepted + [Looked(other, late)];
    OneMoreCall(steps, nonce, a);
    OneMoreStep(accepted, Looked(other, late));
    var k := |steps| + 1;
    assert run[k] == accepted[k] == Wrote(nonce, a);
    LastWriteStep(accepted, Looked(other, late), nonce);
    YoungStep(accepted, Looked(other, late), k);
    RememberedIff(run, nonce);
  }
}

/**
 Approval tokens for sandboxed shell commands: a request stores a token, a command consumes one
 that is at most two minutes old. Nothing is assumed of the clock.
 */
module ShellApproval {
  import opened Options
  import opened Expiry

  const APPROVAL_TTL_SEC: real := 120.0

  datatype Event =
    | Requested(token: string, at: real)
    | Consumed(token: string, at: real, ok: bool)

  /** The position of the token's latest request that has not been consumed since. */
  function Outstanding(trace: seq<Event>, token: string): (r: Option<nat>)
    ensures r.Some? ==> r.value < |trace| && trace[r.value] == Requested(token, trace[r.value].at)
  {
    if trace == [] then None
    else
      var n := |trace| - 1;
      if trace[n].token != token || (trace[n].Consumed? && !trace[n].ok) then Outstanding(trace[..n], token)
      else if trace[n].Requested? then Some(n)
      else None
  }

  /** There is an outstanding request and it is at most two minutes old. */
  predicate Consumable(trace: seq<Event>, token: string, now: real) {
    var r := Outstanding(trace, token);
    r.Some? && !Expired(trace[r.value].at, now, APPROVAL_TTL_SEC)
  }

  /** No consumption since position r, successful or not, has read the clock past its time to live. */
  predicate Fresh(trace: seq<Event>, r: nat)
    requires r < |trace|
  {
    forall j | r < j < |trace| && trace[j].Consumed? :: !Expired(trace[r].at, trace[j].at, APPROVAL_TTL_SEC)
  }

  /** An outstanding request that no reading so far, nor this one, has outlived. */
  predicate Usable(trace: seq<Event>, token: string, now: real) {
    Consumable(trace, token, now) && Fresh(trace, Outstanding(trace, token).value)
  }

  /** Every consumption in the trace succeeded exactly when its token was usable. */
  predicate Decided(trace: seq<Event>) {
    forall i | 0 <= i < |trace| && trace[i].Consumed? ::
      trace[i].ok <==> Usable(trace[..i], trace[i].token, trace[i].at)
  }

  predicate Succeeds(trace: seq<Event>, i: nat) {
    i < |trace| && trace[i].Consumed? && trace[i].ok
  }

  /** The request a successful consumption is matched with. */
  function Match(trace: seq<Event>, i: nat): (r: nat)
    requires Decided(trace) && Succeeds(trace, i)
    ensures r < i && trace[r].Requested? && trace[r].token == trace[i].token
    ensures trace[i].at - trace[r].at <= 120.0
  {
    Outstanding(trace[..i], trace[i].token).value
  }

  /** Nothing consumes an outstanding request between it and now. */
  lemma {:induction false} OutstandingUnconsumed(trace: seq<Event>, token: string, k: nat)
    requires Outstanding(trace, token).Some? && Outstanding(trace, token).value < k < |trace|
    ensures !(trace[k].token == token && trace[k].Consumed? && trace[k].ok)
    ensures !(trace[k].token == token && trace[k].Requested?)
    decreases |trace|
  {
    var n := |trace| - 1;
    if k < n {
      OutstandingUnconsumed(trace[..n], token, k);
    }
  }

  /** Two successful consumptions never share a request. */
  lemma MatchIsOneToOne(trace: seq<Event>, i: nat, j: nat)
    requires Decided(trace) && Succeeds(trace, i) && Succeeds(trace, j) && i < j
    ensures Match(trace, i) != Match(trace, j)
  {
    if Match(trace, i) == Match(trace, j) {
      assert trace[..j][i] == trace[i];
      OutstandingUnconsumed(trace[..j], trace[j].token, i);
    }
  }

  function Requests(trace: seq<Event>): nat {
    if trace == [] then 0
    else Requests(trace[..|trace| - 1]) + if trace[|trace| - 1].Requested? then 1 else 0
  }

  /** The count is that of the requests in the trace. */
  lemma {:induction false} RequestsCounted(trace: seq<Event>)
    ensures Requests(trace) == |set i | 0 <= i < |trace| && trace[i].Requested?|
  {
    if trace != [] {
      var n := |trace| - 1;
      RequestsCounted(trace[..n]);
      var before := set i | 0 <= i < n && trace[..n][i].Requested?;
      var all := set i | 0 <= i < |trace| && trace[i].Requested?;
      assert all == before + if trace[n].Requested? then {n} else {};
    }
  }

  function Successes(trace: seq<Event>): nat {
    if trace == [] then 0
    else Successes(trace[..|trace| - 1]) + if Succeeds(trace, |trace| - 1) then 1 else 0
  }

  /** The tokens that have an outstanding request. */
  function OpenTokens(trace: seq<Event>): set<string> {
    if trace == [] then {}
    else
      var before, e := OpenTokens(trace[..|trace| - 1]), trace[|trace| - 1];
      if e.Requested? then before + {e.token}
      else if e.ok then before - {e.token}
      else before
  }

  lemma {:induction false} OpenIffOutstanding(trace: seq<Event>, token: string)
    ensures token in OpenTokens(trace) <==> Outstanding(trace, token).Some?
  {
    if trace != [] {
      OpenIffOutstanding(trace[..|trace| - 1], token);
    }
  }

  lemma DecidedPrefix(trace: seq<Event>, n: nat)
    requires Decided(trace) && n <= |trace|
    ensures Decided(trace[..n])
  {
    forall i | 0 <= i < n && trace[..n][i].Consumed?
      ensures trace[..n][i].ok <==> Usable(trace[..n][..i], trace[..n][i].token, trace[..n][i].at)
    {
      assert trace[..n][..i] == trace[..i];
      assert trace[..n][i] == trace[i];
    }
  }

  /** Conservation: consumed and still open approvals never exceed the approvals requested. */
  lemma {:induction false} NeverMoreThanRequested(trace: seq<Event>)
    requires Decided(trace)
    ensures Successes(trace) + |OpenTokens(trace)| <= Requests(trace)
  {
    if trace != [] {
      var n := |trace| - 1;
      DecidedPrefix(trace, n);
      NeverMoreThanRequested(trace[..n]);
      if Succeeds(trace, n) {
        OpenIffOutstanding(trace[..n], trace[n].token);
      }
    }
  }

  // ---------------------------------------------------------------------------------------
  // The dictionary
  // ---------------------------------------------------------------------------------------

  /** The dictionary holds exactly the outstanding requests that nothing has outlived, with their times. */
  ghost predicate Tracks(pending: map<string, real>, trace: seq<Event>, token: string) {
    var r := Outstanding(trace, token);
    && (token in pending <==> r.Some? && Fresh(trace, r.value))
    && (token in pending ==> pending[token] == trace[r.value].at)
  }

  ghost predicate AllTrack(pending: map<string, real>, trace: seq<Event>) {
    forall token :: Tracks(pending, trace, token)
  }

  /** What one more event does to the outstanding request of a token. */
  lemma OutstandingStep(trace: seq<Event>, e: Event, token: string)
    ensures var after := Outstanding(trace + [e], token);
            && (e.token != token || (e.Consumed? && !e.ok) ==> after == Outstanding(trace, token))
            && (e.token == token && e.Requested? ==> after == Some(|trace|))
            && (e.token == token && e.Consumed? && e.ok ==> after == None)
  {
    assert (trace + [e])[..|trace|] == trace;
  }

  lemma FreshStep(trace: seq<Event>, e: Event, r: nat)
    requires r < |trace|
    ensures Fresh(trace + [e], r) <==>
              Fresh(trace, r) && (e.Consumed? ==> !Expired(trace[r].at, e.at, APPROVAL_TTL_SEC))
  {
    var all := trace + [e];
    assert all[|trace|] == e && forall j | 0 <= j < |trace| :: all[j] == trace[j];
  }

  /** After the purge a token is pending exactly when it is usable. */
  lemma PurgeDecides(pending: map<string, real>, trace: seq<Event>, now: real, token: string)
    requires AllTrack(pending, trace)
    ensures token in Alive(pending, now, APPROVAL_TTL_SEC) <==> Usable(trace, token, now)
  {
    assert Tracks(pending, trace, token);
  }

  lemma RequestTracks(pending: map<string, real>, trace: seq<Event>, token: string, now: real)
    requires AllTrack(pending, trace)
    ensures AllTrack(pending[token := now], trace + [Requested(token, now)])
  {
    var e := Requested(token, now);
    var after, all := pending[token := now], trace + [e];
    forall other ensures Tracks(after, all, other) {
      assert Tracks(pending, trace, other);
      OutstandingStep(trace, e, other);
      if other != token && Outstanding(trace, other).Some? {
        FreshStep(trace, e, Outstanding(trace, other).value);
      }
    }
  }

  lemma ConsumeTracks(pending: map<string, real>, trace: seq<Event>, token: string, now: real, ok: bool,
                      after: map<string, real>)
    requires AllTrack(pending, trace) && (ok <==> Usable(trace, token, now))
    requires after == Alive(pending, now, APPROVAL_TTL_SEC) - if ok then {token} else {}
    ensures AllTrack(after, trace + [Consumed(token, now, ok)])
  {
    var e := Consumed(token, now, ok);
    var all := trace + [e];
    forall other ensures Tracks(after, all, other) {
      assert Tracks(pending, trace, other);
      OutstandingStep(trace, e, other);
      if Outstanding(trace, other).Some? {
        FreshStep(trace, e, Outstanding(trace, other).value);
      }
    }
  }

  // When age alone decides ------------------------------------------------------------------

  /** While no earlier reading is past this one, the age of the request alone decides. */
  lemma AgeDecidesInOrder(trace: seq<Event>, token: string, now: real)
    requires forall i | 0 <= i < |trace| :: trace[i].at <= now
    ensures Usable(trace, token, now) <==> Consumable(trace, token, now)
  {
    if Consumable(trace, token, now) {
      var r := Outstanding(trace, token).value;
      forall j | r < j < |trace| ensures !Expired(trace[r].at, trace[j].at, APPROVAL_TTL_SEC) {
        assert trace[j].at <= now;
      }
    }
  }

  /** The run behind it: a request 100 seconds old is refused because another call had read 121 seconds. */
  lemma SteppingClockRefuses(token: string, other: string)
    requires token != other
    ensures var trace := [Requested(token, 0.0), Consumed(other, 121.0, false)];
            Decided(trace) && Consumable(trace, token, 100.0) && !Usable(trace, token, 100.0)
  {
    var trace := [Requested(token, 0.0), Consumed(other, 121.0, false)];
    var first := [Requested(token, 0.0)];
    assert trace == first + [trace[1]] && first == [] + [first[0]] && trace[..1] == first;
    OutstandingStep([], first[0], token);
    OutstandingStep([], first[0], other);
    OutstandingStep(first, trace[1], token);
    assert Outstanding(trace, token) == Some(0) && Outstanding(first, other) == None;
    assert Expired(trace[0].at, trace[1].at, APPROVAL_TTL_SEC);
  }

  datatype ExecOutcome = Disabled | NotApproved | OutsideRoots | Started

  class ApprovalStore {
    const enabled: bool
    var pending: map<string, real>
    ghost var trace: seq<Event>
    /** Commands handed to the operating system so far. */
    ghost var commands: nat

    constructor (enabled: bool)
      ensures Valid() && this.enabled == enabled && trace == [] && commands == 0
    {
      this.enabled := enabled;
      pending, trace, commands := map[], [], 0;
    }

    ghost predicate Valid()
      reads this
    {
      Decided(trace) && AllTrack(pending, trace) && commands <= Successes(trace)
    }

    /** The token is minted outside: here it is any string. */
    method RequestApproval(token: string, now: real) returns (ok: bool)
      requires Valid()
      modifies this
      ensures Valid() && commands == old(commands)
      ensures ok == enabled && trace == old(trace) + if ok then [Requested(token, now)] else []
    {
      ok := enabled;
      if enabled {
        RequestTracks(pending, trace, token, now);
        pending := pending[token := now];
        AddEvent(Requested(token, now));
      }
    }

    /**
     Succeeds exactly when the token has an outstanding request that neither this reading nor one
     of an earlier consumption has outlived; so only on a request at most 120 seconds old, and on
     every such request if and only if no earlier reading has outlived it.
     */
    method ConsumeApproval(token: string, now: real) returns (ok: bool)
      requires Valid()
      modifies this
      ensures Valid() && commands == old(commands)
      ensures ok <==> Usable(old(trace), token, now)
      ensures ok ==> Consumable(old(trace), token, now)
      ensures (ok <==> Consumable(old(trace), token, now)) <==>
                (Consumable(old(trace), token, now) ==> Fresh(old(trace), Outstanding(old(trace), token).value))
      ensures trace == old(trace) + [Consumed(token, now, ok)]
      ensures ok ==> commands < Successes(trace)
    {
      PurgeDecides(pending, trace, now, token);
      pending := Purge(pending, now, APPROVAL_TTL_SEC);
      ok := token in pending;
      if ok {
        pending := pending - {token};
      }
      ConsumeTracks(old(pending), trace, token, now, ok, pending);
      AddEvent(Consumed(token, now, ok));
    }

    /** A command starts only after it has consumed an approval of its own. */
    method Execute(token: string, now: real, insideRoots: bool) returns (r: ExecOutcome)
      requires Valid()
      modifies this
      ensures Valid()
      ensures trace == old(trace) + if enabled then [Consumed(token, now, Usable(old(trace), token, now))] else []
      ensures r == Started <==> enabled && Usable(old(trace), token, now) && insideRoots
      ensures r == Disabled <==> !enabled
      ensures r == NotApproved <==> enabled && !Usable(old(trace), token, now)
      ensures commands == old(commands) + if r == Started then 1 else 0
      ensures commands <= Requests(trace)
    {
      if !enabled {
        NeverMoreThanRequested(trace);
        return Disabled;
      }
      var ok := ConsumeApproval(token, now);
      NeverMoreThanRequested(trace);
      if !ok {
        return NotApproved;
      }
      if !insideRoots {
        return OutsideRoots;
      }
      commands := commands + 1;
      return Started;
    }

    /** Adds the event to the trace and restores the invariant. */
    ghost method AddEvent(e: Event)
      requires Decided(trace) && commands <= Successes(trace)
      requires e.Consumed? ==> (e.ok <==> Usable(trace, e.token, e.at))
      requires AllTrack(pending, trace + [e])
      modifies this`trace
      ensures Valid() && trace == old(trace) + [e]
      ensures Successes(trace) == Successes(old(trace)) + if e.Consumed? && e.ok then 1 else 0
    {
      DecidedAppend(trace, e);
      trace := trace + [e];
      assert trace[..|old(trace)|] == old(trace);
    }
  }

  lemma DecidedAppend(trace: seq<Event>, e: Event)
    requires Decided(trace)
    requires e.Consumed? ==> (e.ok <==> Usable(trace, e.token, e.at))
    ensures Decided(trace + [e])
  {
    var all := trace + [e];
    forall i | 0 <= i < |all| && all[i].Consumed?
      ensures all[i].ok <==> Usable(all[..i], all[i].token, all[i].at)
    {
      assert all[..i] == trace[..i];
      assert trace[..|trace|] == trace;
    }
  }
}
