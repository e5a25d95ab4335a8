/**
 Whole runs of one run's event stream: emitters in this process, writers in other processes and
 any number of subscribers, interleaved at the points where the coroutines can be suspended.
 */
module StreamRuns {
  import opened Options
  import opened DurableLog
  import opened StreamSession

  /** `inflight`: events `emit` has stored but not yet put on the subscribers' queues. */
  datatype System = System(log: seq<Event>, inflight: set<Event>, sessions: map<nat, Session>)

  datatype Action =
    | RemoteAppend(e: Event)
    | LocalAppend(e: Event)
    | FanOut(e: Event)
    | Subscribe(sid: nat, cursor: Cursor)
    | Resume(sid: nat, move: Move)
    | Leave(sid: nat)

  predicate Enabled(s: System, a: Action) {
    match a
    case RemoteAppend(e) => Increasing(s.log + [e])
    case LocalAppend(e) => Increasing(s.log + [e])
    case FanOut(e) => e in s.inflight
    case Subscribe(sid, _) => sid !in s.sessions
    case Resume(sid, _) => sid in s.sessions
    case Leave(sid) => sid in s.sessions
  }

  /** One step; an action that is not enabled changes nothing, so every action list is a run. */
  function Apply(s: System, a: Action): System {
    if !Enabled(s, a) then s else
    match a
    case RemoteAppend(e) => s.(log := s.log + [e])
    case LocalAppend(e) => s.(log := s.log + [e], inflight := s.inflight + {e})
    case FanOut(e) =>
      s.(inflight := s.inflight - {e},
         sessions := map sid | sid in s.sessions :: Enqueue(s.sessions[sid], e))
    case Subscribe(sid, c) => s.(sessions := s.sessions[sid := Open(c)])
    case Resume(sid, m) => s.(sessions := s.sessions[sid := Step(s.sessions[sid], s.log, m)])
    case Leave(sid) => s.(sessions := s.sessions[sid := Disconnect(s.sessions[sid])])
  }

  function Run(s: System, actions: seq<Action>): System
    decreases |actions|
  {
    if actions == [] then s else Run(Apply(s, actions[0]), actions[1..])
  }

  /** A process that has just started: a stored log, nothing in flight, nobody connected. */
  function Fresh(log: seq<Event>): System {
    System(log, {}, map[])
  }

  ghost predicate SystemInv(s: System) {
    && Increasing(s.log)
    && (forall e | e in s.inflight :: e in s.log)
    && (forall sid | sid in s.sessions :: SessionInv(s.sessions[sid], s.log))
  }

  lemma ApplyInv(s: System, a: Action)
    requires SystemInv(s)
    ensures SystemInv(Apply(s, a))
  {
    if Enabled(s, a) {
      match a
      case RemoteAppend(e) =>
        forall sid | sid in s.sessions { AppendInv(s.sessions[sid], s.log, e); }
      case LocalAppend(e) =>
        forall sid | sid in s.sessions { AppendInv(s.sessions[sid], s.log, e); }
      case FanOut(e) =>
        forall sid | sid in s.sessions { EnqueueInv(s.sessions[sid], s.log, e); }
      case Subscribe(sid, c) => OpenInv(c, s.log);
      case Resume(sid, m) => StepInv(s.sessions[sid], s.log, m);
      case Leave(sid) => DisconnectInv(s.sessions[sid], s.log);
    }
  }

  lemma {:induction false} RunInv(s: System, actions: seq<Action>)
    requires SystemInv(s)
    ensures SystemInv(Run(s, actions))
    decreases |actions|
  {
    if actions != [] {
      ApplyInv(s, actions[0]);
      RunInv(Apply(s, actions[0]), actions[1..]);
    }
  }

  lemma {:induction false} RunConcat(s: System, a: seq<Action>, b: seq<Action>)
    ensures Run(s, a + b) == Run(Run(s, a), b)
    decreases |a|
  {
    if a == [] {
      assert a + b == b;
    } else {
      assert (a + b)[1..] == a[1..] + b;
      RunConcat(Apply(s, a[0]), a[1..], b);
    }
  }

  // ---------------------------------------------------------------------------------------
  // Safety of every run
  // ---------------------------------------------------------------------------------------

  /**
   In every run, with any writers and any fan-out order: what a subscriber has been sent has
   strictly increasing numbers, all above its cursor, and every item is the log entry that
   carries its number. Nothing is sent twice, whether it came by replay, queue or poll.
   */
  lemma StreamSafety(log: seq<Event>, actions: seq<Action>, sid: nat)
    requires Increasing(log) && sid in Run(Fresh(log), actions).sessions
    ensures var s := Run(Fresh(log), actions);
            var out := s.sessions[sid].out;
            && Increasing(out)
            && (forall i | 0 <= i < |out| :: Above(s.sessions[sid].start, out[i].id))
            && (forall i | 0 <= i < |out| :: out[i] in s.log)
            && (forall i, e | 0 <= i < |out| && e in s.log && e.id == out[i].id :: e == out[i])
  {
    RunInv(Fresh(log), actions);
    var s := Run(Fresh(log), actions);
    var out := s.sessions[sid].out;
    forall i, e | 0 <= i < |out| && e in s.log && e.id == out[i].id ensures e == out[i] {
      SameIdSameEvent(s.log, e, out[i]);
    }
  }

  /** Position `d` is at or past position `c`. */
  predicate AtLeast(c: Cursor, d: Cursor) {
    c.None? || (d.Some? && c.value <= d.value)
  }

  /** A subscriber's output only grows, and only by events above the last one it was sent. */
  predicate Extends(s: Session, t: Session) {
    && s.start == t.start
    && AtLeast(s.last, t.last)
    && s.out <= t.out
    && forall i | |s.out| <= i < |t.out| :: Above(s.last, t.out[i].id)
  }

  lemma {:induction false} ExtendsByStep(s: Session, log: seq<Event>, m: Move)
    requires SessionInv(s, log)
    ensures Extends(s, Step(s, log, m))
  {
    if CanMove(s, m) && m.Deliver? {
      BatchHead(log, s.last, s.batch);
    }
  }

  lemma {:induction false} ExtendsByApply(s: System, a: Action, sid: nat)
    requires SystemInv(s) && sid in s.sessions
    ensures sid in Apply(s, a).sessions && Extends(s.sessions[sid], Apply(s, a).sessions[sid])
  {
    if Enabled(s, a) {
      var ss, tt := s.sessions[sid], Apply(s, a).sessions[sid];
      if a.Resume? && a.sid == sid {
        ExtendsByStep(ss, s.log, a.move);
      } else {
        assert tt.start == ss.start && tt.last == ss.last && tt.out == ss.out;
      }
    }
  }

  lemma ExtendsTransitive(s: Session, t: Session, u: Session)
    requires Extends(s, t) && Extends(t, u)
    ensures Extends(s, u)
  {
    forall i | |s.out| <= i < |u.out| ensures Above(s.last, u.out[i].id) {
      if i < |t.out| {
        assert u.out[i] == t.out[i];
      }
    }
  }

  lemma {:induction false} RunExtends(s: System, actions: seq<Action>, sid: nat)
    requires SystemInv(s) && sid in s.sessions
    ensures sid in Run(s, actions).sessions
    ensures Extends(s.sessions[sid], Run(s, actions).sessions[sid])
    decreases |actions|
  {
    if actions != [] {
      var t := Apply(s, actions[0]);
      ApplyInv(s, actions[0]);
      ExtendsByApply(s, actions[0], sid);
      RunExtends(t, actions[1..], sid);
      ExtendsTransitive(s.sessions[sid], t.sessions[sid], Run(s, actions).sessions[sid]);
    }
  }

  /** An event passed over is lost for good: no continuation of the run ever delivers it. */
  lemma PassedOverIsLost(s: System, actions: seq<Action>, sid: nat, x: Event)
    requires SystemInv(s) && sid in s.sessions
    requires x !in s.sessions[sid].out && !Above(s.sessions[sid].last, x.id)
    ensures sid in Run(s, actions).sessions && x !in Run(s, actions).sessions[sid].out
  {
    RunExtends(s, actions, sid);
  }

  /** Nobody is sent anything after he has left, or after his stream has ended, whatever follows. */
  lemma {:induction false} NothingAfterLeaving(s: System, actions: seq<Action>, sid: nat)
    requires sid in s.sessions && !s.sessions[sid].Registered()
    ensures sid in Run(s, actions).sessions && Run(s, actions).sessions[sid].out == s.sessions[sid].out
    decreases |actions|
  {
    if actions != [] {
      var t := Apply(s, actions[0]);
      assert t.sessions[sid].out == s.sessions[sid].out && !t.sessions[sid].Registered();
      NothingAfterLeaving(t, actions[1..], sid);
    }
  }

  lemma LeavingIsFinal(s: System, actions: seq<Action>, sid: nat)
    requires sid in s.sessions
    ensures var t := Run(Apply(s, Leave(sid)), actions);
            sid in t.sessions && t.sessions[sid].out == s.sessions[sid].out
  {
    NothingAfterLeaving(Apply(s, Leave(sid)), actions, sid);
  }

  // ---------------------------------------------------------------------------------------
  // Gap-freedom of whole runs
  // ---------------------------------------------------------------------------------------

  ghost predicate LosslessNow(s: System, sid: nat) {
    sid in s.sessions ==> Lossless(s.sessions[sid], s.log)
  }

  /** At every moment of the run the subscriber is gap-free and can only continue gap-free. */
  ghost predicate AlwaysLossless(s: System, actions: seq<Action>, sid: nat)
    decreases |actions|
  {
    LosslessNow(s, sid) && (actions != [] ==> AlwaysLossless(Apply(s, actions[0]), actions[1..], sid))
  }

  ghost predicate OvertakingFanOut(s: System, a: Action, sid: nat) {
    a.FanOut? && Enabled(s, a) && sid in s.sessions && FanOutOvertakes(s.sessions[sid], s.log, a.e)
  }

  /** No fan-out of the run puts an envelope ahead of a stored event the subscriber still needs. */
  ghost predicate FanOutsInOrder(s: System, actions: seq<Action>, sid: nat)
    decreases |actions|
  {
    actions != [] ==>
      !OvertakingFanOut(s, actions[0], sid) && FanOutsInOrder(Apply(s, actions[0]), actions[1..], sid)
  }

  ghost predicate Clean(s: System, sid: nat) {
    sid in s.sessions ==> GapFree(s.sessions[sid], s.log) && !Overtakes(s.sessions[sid], s.log)
  }

  lemma {:induction false} ApplyClean(s: System, a: Action, sid: nat)
    requires SystemInv(s) && Clean(s, sid) && !OvertakingFanOut(s, a, sid)
    ensures Clean(Apply(s, a), sid)
  {
    if Enabled(s, a) && sid in s.sessions {
      var ss := s.sessions[sid];
      if a.RemoteAppend? || a.LocalAppend? {
        AppendKeepsHazard(ss, s.log, a.e);
        assert Apply(s, a).sessions[sid] == ss && Apply(s, a).log == s.log + [a.e];
      } else if a.FanOut? {
        FanOutHazard(ss, s.log, a.e);
        assert Apply(s, a).sessions[sid] == Enqueue(ss, a.e);
      } else if a.Resume? && a.sid == sid {
        StepSafe(ss, s.log, a.move);
        assert Apply(s, a).sessions[sid] == Step(ss, s.log, a.move);
      } else if a.Leave? && a.sid == sid {
        assert Apply(s, a).sessions[sid] == Disconnect(ss);
      } else {
        assert Apply(s, a).sessions[sid] == ss;
      }
    }
  }

  lemma {:induction false} AlwaysLosslessFrom(s: System, actions: seq<Action>, sid: nat)
    requires SystemInv(s) && Clean(s, sid)
    ensures AlwaysLossless(s, actions, sid) <==> FanOutsInOrder(s, actions, sid)
    decreases |actions|
  {
    if sid in s.sessions {
      LosslessIffNotOvertaken(s.sessions[sid], s.log);
    }
    if actions != [] {
      var t := Apply(s, actions[0]);
      ApplyInv(s, actions[0]);
      if OvertakingFanOut(s, actions[0], sid) {
        FanOutHazard(s.sessions[sid], s.log, actions[0].e);
        LosslessIffNotOvertaken(t.sessions[sid], t.log);
      } else {
        ApplyClean(s, actions[0], sid);
        AlwaysLosslessFrom(t, actions[1..], sid);
      }
    }
  }

  /**
   The exact condition on a whole run, for every interleaving of any writers: at every moment the
   output is the log after the cursor up to some point and stays so however the subscriber is
   resumed, if and only if no fan-out of the run overtakes.
   */
  lemma GapFreedomIff(log: seq<Event>, actions: seq<Action>, sid: nat)
    requires Increasing(log)
    ensures AlwaysLossless(Fresh(log), actions, sid) <==> FanOutsInOrder(Fresh(log), actions, sid)
  {
    AlwaysLosslessFrom(Fresh(log), actions, sid);
  }

  lemma {:induction false} GapFreeAtEnd(s: System, actions: seq<Action>, sid: nat)
    requires AlwaysLossless(s, actions, sid) && sid in Run(s, actions).sessions
    ensures GapFree(Run(s, actions).sessions[sid], Run(s, actions).log)
    decreases |actions|
  {
    if actions != [] {
      GapFreeAtEnd(Apply(s, actions[0]), actions[1..], sid);
    } else {
      assert Steps(s.sessions[sid], s.log, []) == s.sessions[sid];
    }
  }

  // Two writer disciplines that are enough -------------------------------------------------

  /** Every new event is written by this process and fanned out in sequence order. */
  ghost predicate LocalInOrder(s: System, actions: seq<Action>)
    decreases |actions|
  {
    actions != [] ==>
      && !actions[0].RemoteAppend?
      && (actions[0].FanOut? && Enabled(s, actions[0]) ==> forall f | f in s.inflight :: actions[0].e.id <= f.id)
      && LocalInOrder(Apply(s, actions[0]), actions[1..])
  }

  /** The same, told of the state before every step. */
  lemma {:induction false} LocalInOrderIff(s: System, actions: seq<Action>)
    ensures LocalInOrder(s, actions) <==>
              forall i | 0 <= i < |actions| ::
                && !actions[i].RemoteAppend?
                && (actions[i].FanOut? && actions[i].e in Run(s, actions[..i]).inflight ==>
                      forall f | f in Run(s, actions[..i]).inflight :: actions[i].e.id <= f.id)
    decreases |actions|
  {
    if actions != [] {
      var t, rest := Apply(s, actions[0]), actions[1..];
      LocalInOrderIff(t, rest);
      assert Run(s, actions[..0]) == s;
      forall i | 0 < i < |actions| ensures Run(s, actions[..i]) == Run(t, rest[..i - 1]) && actions[i] == rest[i - 1] {
        assert actions[..i][1..] == rest[..i - 1];
      }
    }
  }

  /** Every new event is written by another process. */
  predicate RemoteOnly(actions: seq<Action>) {
    forall i | 0 <= i < |actions| :: !actions[i].LocalAppend?
  }

  /** What the subscriber still needs is on its queue or about to be put there. */
  ghost predicate Covered(s: System, sid: nat) {
    && sid in s.sessions
    && var ss := s.sessions[sid];
       WillRead(ss) ==>
         forall x | x in s.log && Above(ReadingFrom(ss), x.id) :: x in ss.queue || x in s.inflight
  }

  /** What is still to be fanned out is nothing the subscriber will read from its queue. */
  ghost predicate InflightStale(s: System, sid: nat) {
    && sid in s.sessions
    && var ss := s.sessions[sid];
       WillRead(ss) ==> forall f | f in s.inflight :: !Above(ReadingFrom(ss), f.id)
  }

  lemma DequeueMovesReading(s: Session, log: seq<Event>, x: Event)
    requires CanMove(s, Dequeue) && s.batch == []
    requires Above(ReadingFrom(Step(s, log, Dequeue)), x.id)
    ensures Above(ReadingFrom(s), x.id)
    ensures x in s.queue ==> x in Step(s, log, Dequeue).queue
  {
    assert s.queue == [s.queue[0]] + s.queue[1..];
  }

  /** A resumption moves the reading position forward, past what it takes off the queue. */
  lemma StepMovesReading(s: Session, log: seq<Event>, m: Move, x: Event)
    requires SessionInv(s, log) && x in log
    requires WillRead(Step(s, log, m)) && Above(ReadingFrom(Step(s, log, m)), x.id)
    ensures WillRead(s) && Above(ReadingFrom(s), x.id)
    ensures x in s.queue ==> x in Step(s, log, m).queue
  {
    if !CanMove(s, m) {
      return;
    }
    if m.Replay? {
      CaughtUp(log, s.start, x);
    } else if m.Poll? {
      CaughtUp(log, s.last, x);
    } else if m.Deliver? {
      DeliverKeepsReading(s, log);
    } else if m.Dequeue? {
      DequeueMovesReading(s, log, x);
    }
  }

  lemma ResumeCovered(s: System, ss: Session, tt: Session, m: Move)
    requires SessionInv(ss, s.log) && tt == Step(ss, s.log, m)
    requires WillRead(ss) ==> forall x | x in s.log && Above(ReadingFrom(ss), x.id) :: x in ss.queue || x in s.inflight
    ensures WillRead(tt) ==> forall x | x in s.log && Above(ReadingFrom(tt), x.id) :: x in tt.queue || x in s.inflight
  {
    forall x | x in s.log && WillRead(tt) && Above(ReadingFrom(tt), x.id) ensures x in tt.queue || x in s.inflight {
      StepMovesReading(ss, s.log, m, x);
    }
  }

  lemma {:induction false} ApplyCovered(s: System, a: Action, sid: nat)
    requires SystemInv(s) && Covered(s, sid) && !a.RemoteAppend?
    ensures Covered(Apply(s, a), sid)
  {
    var t := Apply(s, a);
    var ss := s.sessions[sid];
    if !Enabled(s, a) {
      return;
    }
    if a.FanOut? {
      assert t.sessions[sid] == Enqueue(ss, a.e);
    } else if a.Resume? && a.sid == sid {
      ResumeCovered(s, ss, Step(ss, s.log, a.move), a.move);
    } else if a.Leave? && a.sid == sid {
      assert !WillRead(t.sessions[sid]);
    } else {
      assert t.sessions[sid] == ss;
    }
  }

  lemma ApplyStale(s: System, a: Action, sid: nat)
    requires SystemInv(s) && InflightStale(s, sid) && !a.LocalAppend?
    ensures InflightStale(Apply(s, a), sid)
  {
    var t := Apply(s, a);
    var ss := s.sessions[sid];
    if !Enabled(s, a) {
      return;
    }
    if a.FanOut? {
      assert t.sessions[sid] == Enqueue(ss, a.e);
    } else if a.Resume? && a.sid == sid {
      forall f | f in s.inflight && WillRead(t.sessions[sid]) && Above(ReadingFrom(t.sessions[sid]), f.id)
        ensures false
      {
        StepMovesReading(ss, s.log, a.move, f);
      }
    } else if a.Leave? && a.sid == sid {
      assert !WillRead(t.sessions[sid]);
    } else {
      assert t.sessions[sid] == ss;
    }
  }

  lemma {:induction false} LocalInOrderSuffices(s: System, actions: seq<Action>, sid: nat)
    requires SystemInv(s) && Covered(s, sid) && LocalInOrder(s, actions)
    ensures FanOutsInOrder(s, actions, sid)
    decreases |actions|
  {
    if actions != [] {
      ApplyInv(s, actions[0]);
      ApplyCovered(s, actions[0], sid);
      LocalInOrderSuffices(Apply(s, actions[0]), actions[1..], sid);
    }
  }

  lemma {:induction false} RemoteOnlySuffices(s: System, actions: seq<Action>, sid: nat)
    requires SystemInv(s) && InflightStale(s, sid) && RemoteOnly(actions)
    ensures FanOutsInOrder(s, actions, sid)
    decreases |actions|
  {
    if actions != [] {
      ApplyInv(s, actions[0]);
      ApplyStale(s, actions[0], sid);
      RemoteOnlySuffices(Apply(s, actions[0]), actions[1..], sid);
    }
  }

  /**
   Whatever happened before the subscription: if afterwards every new event comes from this
   process and is fanned out in sequence order, or every new event comes from other processes,
   the output is gap-free at every moment of every continuation.
   */
  lemma DisciplinedWriters(log: seq<Event>, before: seq<Action>, sid: nat, c: Cursor, after: seq<Action>)
    requires Increasing(log) && sid !in Run(Fresh(log), before).sessions
    requires var s := Apply(Run(Fresh(log), before), Subscribe(sid, c));
             || (forall i | 0 <= i < |after| :: !after[i].LocalAppend?)
             || (forall i | 0 <= i < |after| ::
                   && !after[i].RemoteAppend?
                   && (after[i].FanOut? && after[i].e in Run(s, after[..i]).inflight ==>
                         forall f | f in Run(s, after[..i]).inflight :: after[i].e.id <= f.id))
    ensures var s := Run(Fresh(log), before + [Subscribe(sid, c)] + after);
            && sid in s.sessions
            && s.sessions[sid].start == c
            && s.sessions[sid].out <= Since(s.log, c)
    ensures AlwaysLossless(Apply(Run(Fresh(log), before), Subscribe(sid, c)), after, sid)
  {
    var s := Apply(Run(Fresh(log), before), Subscribe(sid, c));
    if !RemoteOnly(after) {
      LocalInOrderIff(s, after);
    }
    DisciplinedFrom(log, before, sid, c, after);
  }

  lemma DisciplinedFrom(log: seq<Event>, before: seq<Action>, sid: nat, c: Cursor, after: seq<Action>)
    requires Increasing(log) && sid !in Run(Fresh(log), before).sessions
    requires RemoteOnly(after) || LocalInOrder(Apply(Run(Fresh(log), before), Subscribe(sid, c)), after)
    ensures var s := Run(Fresh(log), before + [Subscribe(sid, c)] + after);
            && sid in s.sessions
            && s.sessions[sid].start == c
            && s.sessions[sid].out <= Since(s.log, c)
    ensures AlwaysLossless(Apply(Run(Fresh(log), before), Subscribe(sid, c)), after, sid)
  {
    var s0 := Run(Fresh(log), before);
    RunInv(Fresh(log), before);
    var s := Apply(s0, Subscribe(sid, c));
    ApplyInv(s0, Subscribe(sid, c));
    if RemoteOnly(after) {
      RemoteOnlySuffices(s, after, sid);
    } else {
      LocalInOrderSuffices(s, after, sid);
    }
    AlwaysLosslessFrom(s, after, sid);
    RunExtends(s, after, sid);
    GapFreeAtEnd(s, after, sid);
    RunConcat(Fresh(log), before, [Subscribe(sid, c)]);
    RunConcat(Fresh(log), before + [Subscribe(sid, c)], after);
    assert Run(s0, [Subscribe(sid, c)]) == s;
  }

  // Runs that lose an event -----------------------------------------------------------------

  const FIRST := Event(1, "message.delta", "a")
  const SECOND := Event(2, "message.delta", "b")

  /** A subscriber connected to an empty log, in the live phase. */
  const CONNECTED: seq<Action> := [Subscribe(0, None), Resume(0, Replay), Resume(0, Finish)]

  /** Another process stores event 1, this process emits event 2, the subscriber reads its queue. */
  const MIXED_WRITERS: seq<Action> :=
    [RemoteAppend(FIRST), LocalAppend(SECOND), FanOut(SECOND), Resume(0, Dequeue)]

  /** Two emitters of this process: the first to store is the last to fan out. */
  const LATE_FAN_OUT: seq<Action> :=
    [LocalAppend(FIRST), LocalAppend(SECOND), FanOut(SECOND), Resume(0, Dequeue), FanOut(FIRST)]

  /** One live subscriber with number 0 that opened the stream without a cursor. */
  function LiveSystem(log: seq<Event>, inflight: set<Event>, queue: seq<Event>, out: seq<Event>): System {
    System(log, inflight, map[0 := Session(None, Live, queue, CursorAfter(None, out), [], [], false, out)])
  }

  lemma RunOne(s: System, a: Action, rest: seq<Action>)
    ensures Run(s, [a] + rest) == Run(Apply(s, a), rest)
  {
    assert ([a] + rest)[1..] == rest;
  }

  lemma ConnectedRun(rest: seq<Action>)
    ensures Run(Fresh([]), CONNECTED + rest) == Run(LiveSystem([], {}, [], []), rest)
  {
    var s1 := Apply(Fresh([]), CONNECTED[0]);
    var s2 := Apply(s1, CONNECTED[1]);
    var s3 := Apply(s2, CONNECTED[2]);
    assert s3.sessions == LiveSystem([], {}, [], []).sessions;
    assert CONNECTED + rest == [CONNECTED[0]] + ([CONNECTED[1]] + ([CONNECTED[2]] + rest));
    RunOne(Fresh([]), CONNECTED[0], [CONNECTED[1]] + ([CONNECTED[2]] + rest));
    RunOne(s1, CONNECTED[1], [CONNECTED[2]] + rest);
    RunOne(s2, CONNECTED[2], rest);
  }

  /** The fan-out of event 2 to the connected subscriber and its delivery. */
  lemma SecondOvertakes(inflight: set<Event>, rest: seq<Action>)
    requires SECOND in inflight
    ensures Run(LiveSystem([FIRST, SECOND], inflight, [], []), [FanOut(SECOND)] + ([Resume(0, Dequeue)] + rest))
         == Run(LiveSystem([FIRST, SECOND], inflight - {SECOND}, [], [SECOND]), rest)
  {
    var s := LiveSystem([FIRST, SECOND], inflight, [], []);
    var t := LiveSystem([FIRST, SECOND], inflight - {SECOND}, [SECOND], []);
    var u := LiveSystem([FIRST, SECOND], inflight - {SECOND}, [], [SECOND]);
    assert Apply(s, FanOut(SECOND)).sessions[0] == t.sessions[0];
    assert Apply(s, FanOut(SECOND)).sessions == t.sessions;
    assert Apply(t, Resume(0, Dequeue)).sessions[0] == u.sessions[0];
    assert Apply(t, Resume(0, Dequeue)).sessions == u.sessions;
    RunOne(s, FanOut(SECOND), [Resume(0, Dequeue)] + rest);
    RunOne(t, Resume(0, Dequeue), rest);
  }

  lemma AppendBoth(a: Action, b: Action, inflight: set<Event>, rest: seq<Action>)
    requires (a == RemoteAppend(FIRST) && inflight == {SECOND}) || (a == LocalAppend(FIRST) && inflight == {FIRST, SECOND})
    requires b == LocalAppend(SECOND)
    ensures Run(LiveSystem([], {}, [], []), [a] + ([b] + rest))
         == Run(LiveSystem([FIRST, SECOND], inflight, [], []), rest)
  {
    var s := LiveSystem([], {}, [], []);
    var t := LiveSystem([FIRST], inflight - {SECOND}, [], []);
    assert [] + [FIRST] == [FIRST];
    assert Apply(s, a) == t;
    assert [FIRST] + [SECOND] == [FIRST, SECOND];
    assert Apply(t, b) == LiveSystem([FIRST, SECOND], inflight, [], []);
    RunOne(s, a, [b] + rest);
    RunOne(t, b, rest);
  }

  lemma FirstIsLost(inflight: set<Event>, rest: seq<Action>)
    requires inflight <= {FIRST, SECOND}
    ensures var s := Run(LiveSystem([FIRST, SECOND], inflight, [], [SECOND]), rest);
            0 in s.sessions && FIRST !in s.sessions[0].out && SECOND in s.sessions[0].out
  {
    var s := LiveSystem([FIRST, SECOND], inflight, [], [SECOND]);
    SinceIsSuffix(s.log, Some(2));
    PassedOverIsLost(s, rest, 0, FIRST);
    RunExtends(s, rest, 0);
    assert s.sessions[0].out[0] == SECOND;
  }

  /**
   The mixed-writer run: event 1 from another process is overtaken by the local event 2, and no
   continuation whatsoever delivers it to the connected subscriber.
   */
  lemma MixedWritersLoseAnEvent(rest: seq<Action>)
    ensures var s := Run(Fresh([]), CONNECTED + MIXED_WRITERS + rest);
            0 in s.sessions && FIRST !in s.sessions[0].out && SECOND in s.sessions[0].out
  {
    var tail := [FanOut(SECOND)] + ([Resume(0, Dequeue)] + rest);
    assert CONNECTED + MIXED_WRITERS + rest
        == CONNECTED + ([RemoteAppend(FIRST)] + ([LocalAppend(SECOND)] + tail));
    ConnectedRun([RemoteAppend(FIRST)] + ([LocalAppend(SECOND)] + tail));
    AppendBoth(RemoteAppend(FIRST), LocalAppend(SECOND), {SECOND}, tail);
    SecondOvertakes({SECOND}, rest);
    FirstIsLost({SECOND} - {SECOND}, rest);
  }

  /**
   The same loss inside one process: `emit` may suspend between storing and fanning out, so a
   later event can be fanned out first; the late envelope is then dropped as a duplicate.
   */
  lemma LateFanOutLosesAnEvent(rest: seq<Action>)
    ensures var s := Run(Fresh([]), CONNECTED + LATE_FAN_OUT + rest);
            0 in s.sessions && FIRST !in s.sessions[0].out && SECOND in s.sessions[0].out
  {
    var tail := [FanOut(SECOND)] + ([Resume(0, Dequeue)] + ([FanOut(FIRST)] + rest));
    assert CONNECTED + LATE_FAN_OUT + rest
        == CONNECTED + ([LocalAppend(FIRST)] + ([LocalAppend(SECOND)] + tail));
    ConnectedRun([LocalAppend(FIRST)] + ([LocalAppend(SECOND)] + tail));
    AppendBoth(LocalAppend(FIRST), LocalAppend(SECOND), {FIRST, SECOND}, tail);
    SecondOvertakes({FIRST, SECOND}, [FanOut(FIRST)] + rest);
    FirstIsLost({FIRST, SECOND} - {SECOND}, [FanOut(FIRST)] + rest);
  }

  // ---------------------------------------------------------------------------------------
  // Resuming and ending
  // ---------------------------------------------------------------------------------------

  lemma JoinIncreasing(a: Session, b: Session, log: seq<Event>, k: nat)
    requires SessionInv(a, log) && SessionInv(b, log)
    requires k < |a.out| && b.start == Some(a.out[k].id)
    ensures Increasing(a.out[..k + 1] + b.out)
  {
    var both := a.out[..k + 1] + b.out;
    forall i, j | 0 <= i < j < |both| ensures both[i].id < both[j].id {
      if i <= k < j {
        assert both[i].id <= a.out[k].id;
        assert Above(b.start, b.out[j - k - 1].id);
      }
    }
  }

  lemma JoinGapFree(a: Session, b: Session, log: seq<Event>, k: nat)
    requires Increasing(log) && GapFree(a, log) && GapFree(b, log)
    requires k < |a.out| && b.start == Some(a.out[k].id)
    ensures a.out[..k + 1] + b.out <= Since(log, a.start)
  {
    var head := a.out[..k + 1];
    ContinueAfterPrefix(log, a.start, head);
    assert CursorAfter(a.start, head) == b.start;
  }

  /** In a run whose fan-outs are in order for the subscriber, its output is gap-free. */
  lemma InOrderIsGapFree(log: seq<Event>, actions: seq<Action>, sid: nat)
    requires Increasing(log) && sid in Run(Fresh(log), actions).sessions && FanOutsInOrder(Fresh(log), actions, sid)
    ensures GapFree(Run(Fresh(log), actions).sessions[sid], Run(Fresh(log), actions).log)
  {
    GapFreedomIff(log, actions, sid);
    GapFreeAtEnd(Fresh(log), actions, sid);
  }

  /**
   Cutting a session after any output and reopening the stream with that event's number: the two
   outputs together are strictly increasing with no repeats, and if no fan-out overtakes either of
   the sessions they are one contiguous piece of the log just after the first cursor.
   */
  lemma ResumeComposes(log: seq<Event>, actions: seq<Action>, first: nat, k: nat, second: nat)
    requires Increasing(log) && {first, second} <= Run(Fresh(log), actions).sessions.Keys
    requires var m := Run(Fresh(log), actions).sessions;
             k < |m[first].out| && m[second].start == Some(m[first].out[k].id)
    ensures var s := Run(Fresh(log), actions);
            var both := s.sessions[first].out[..k + 1] + s.sessions[second].out;
            && Increasing(both)
            && (FanOutsInOrder(Fresh(log), actions, first) && FanOutsInOrder(Fresh(log), actions, second) ==>
                  both <= Since(s.log, s.sessions[first].start))
  {
    RunInv(Fresh(log), actions);
    var s := Run(Fresh(log), actions);
    JoinIncreasing(s.sessions[first], s.sessions[second], s.log, k);
    if FanOutsInOrder(Fresh(log), actions, first) && FanOutsInOrder(Fresh(log), actions, second) {
      InOrderIsGapFree(log, actions, first);
      InOrderIsGapFree(log, actions, second);
      JoinGapFree(s.sessions[first], s.sessions[second], s.log, k);
    }
  }

  // What one uncut session would have been sent ----------------------------------------------

  function Delivers(sid: nat, n: nat): seq<Action> {
    if n == 0 then [] else [Resume(sid, Deliver)] + Delivers(sid, n - 1)
  }

  lemma SentSoFar(out: seq<Event>, batch: seq<Event>, n: nat)
    requires 0 < n <= |batch|
    ensures out + [batch[0]] + batch[1..][..n - 1] == out + batch[..n]
  {
  }

  /** A replaying session that sends n more events; nobody else notices. */
  lemma {:induction false} ReplaySome(s: System, sid: nat, n: nat)
    requires sid in s.sessions && s.sessions[sid].phase.Replaying? && n <= |s.sessions[sid].batch|
    ensures var t := Run(s, Delivers(sid, n));
            && t.log == s.log && t.sessions.Keys == s.sessions.Keys
            && (forall x | x in s.sessions && x != sid :: t.sessions[x] == s.sessions[x])
            && t.sessions[sid].start == s.sessions[sid].start
            && t.sessions[sid].out == s.sessions[sid].out + s.sessions[sid].batch[..n]
    decreases n
  {
    if n > 0 {
      var ss := s.sessions[sid];
      var t := Apply(s, Resume(sid, Deliver));
      assert t == s.(sessions := s.sessions[sid := Step(ss, s.log, Deliver)]);
      RunOne(s, Resume(sid, Deliver), Delivers(sid, n - 1));
      ReplaySome(t, sid, n - 1);
      SentSoFar(ss.out, ss.batch, n);
    } else {
      assert s.sessions[sid].out + s.sessions[sid].batch[..0] == s.sessions[sid].out;
    }
  }

  /** Every piece of the log just after a cursor is what some session is sent. */
  lemma UncutSession(s: System, sid: nat, c: Cursor, piece: seq<Event>) returns (more: seq<Action>)
    requires sid !in s.sessions && piece <= Since(s.log, c)
    ensures var t := Run(s, more);
            && t.log == s.log && t.sessions.Keys == s.sessions.Keys + {sid}
            && (forall x | x in s.sessions :: t.sessions[x] == s.sessions[x])
            && t.sessions[sid].start == c && t.sessions[sid].out == piece
  {
    var s1 := Apply(s, Subscribe(sid, c));
    var s2 := Apply(s1, Resume(sid, Replay));
    var delivers := Delivers(sid, |piece|);
    more := [Subscribe(sid, c)] + ([Resume(sid, Replay)] + delivers);
    RunOne(s, Subscribe(sid, c), [Resume(sid, Replay)] + delivers);
    RunOne(s1, Resume(sid, Replay), delivers);
    ReplaySome(s2, sid, |piece|);
    assert [] + Since(s.log, c)[..|piece|] == piece;
  }

  /**
   Under the gap-freedom condition a cut session is as good as an uncut one: the run can be
   continued by a new session with the first cursor that is sent exactly the two outputs together.
   */
  lemma ResumeEqualsUncut(log: seq<Event>, actions: seq<Action>, first: nat, k: nat, second: nat, uncut: nat)
    returns (more: seq<Action>)
    requires Increasing(log) && {first, second} <= Run(Fresh(log), actions).sessions.Keys
    requires uncut !in Run(Fresh(log), actions).sessions
    requires var m := Run(Fresh(log), actions).sessions;
             k < |m[first].out| && m[second].start == Some(m[first].out[k].id)
    requires FanOutsInOrder(Fresh(log), actions, first) && FanOutsInOrder(Fresh(log), actions, second)
    ensures var m, m' := Run(Fresh(log), actions).sessions, Run(Fresh(log), actions + more).sessions;
            && {first, second, uncut} <= m'.Keys && m'[first] == m[first] && m'[second] == m[second]
            && m'[uncut].start == m[first].start
            && m'[uncut].out == m[first].out[..k + 1] + m[second].out
  {
    ResumeComposes(log, actions, first, k, second);
    var s := Run(Fresh(log), actions);
    more := UncutSession(s, uncut, s.sessions[first].start, s.sessions[first].out[..k + 1] + s.sessions[second].out);
    RunConcat(Fresh(log), actions, more);
  }

  // Reconnecting ------------------------------------------------------------------------------

  /** The route's choice between the query parameter and the `Last-Event-ID` header. */
  function EffectiveCursor(since: Cursor, lastEventId: Cursor): Cursor {
    if since.Some? then since else lastEventId
  }

  /**
   A client that reconnects to the same address and sends the number of the last event it was sent:
   the two outputs compose if and only if the address carries no cursor of its own. Otherwise the
   second session starts over at that cursor and repeats what the first was sent.
   */
  lemma ReconnectComposesIff(log: seq<Event>, actions: seq<Action>, since: Cursor, first: nat, k: nat, second: nat)
    requires Increasing(log) && {first, second} <= Run(Fresh(log), actions).sessions.Keys
    requires var m := Run(Fresh(log), actions).sessions;
             && k < |m[first].out| && m[second].out != []
             && m[first].start == EffectiveCursor(since, None)
             && m[second].start == EffectiveCursor(since, Some(m[first].out[k].id))
    ensures var m := Run(Fresh(log), actions).sessions;
            var both := m[first].out[..k + 1] + m[second].out;
            && (since.None? ==> Increasing(both))
            && (FanOutsInOrder(Fresh(log), actions, first) && FanOutsInOrder(Fresh(log), actions, second) ==>
                  && (Increasing(both) <==> since.None?)
                  && (since.Some? ==> m[second].out[0] == m[first].out[0]))
  {
    var m := Run(Fresh(log), actions).sessions;
    if since.None? {
      ResumeComposes(log, actions, first, k, second);
    } else if FanOutsInOrder(Fresh(log), actions, first) && FanOutsInOrder(Fresh(log), actions, second) {
      InOrderIsGapFree(log, actions, first);
      InOrderIsGapFree(log, actions, second);
      var both := m[first].out[..k + 1] + m[second].out;
      assert both[0] == m[first].out[0] && both[k + 1] == m[second].out[0];
    }
  }

  /**
   A session ends by itself only after a terminal event. Outside replay that event is the last
   one sent and the only terminal one; in replay the rest of the list read from the log is sent
   too. A session whose cursor is at or past every stored terminal event never ends by itself.
   */
  lemma StreamEnd(log: seq<Event>, actions: seq<Action>, sid: nat)
    requires Increasing(log) && sid in Run(Fresh(log), actions).sessions
    ensures var s := Run(Fresh(log), actions);
            var ss := s.sessions[sid];
            && (ss.phase == Ended(false) ==>
                  && ss.out != [] && Terminal(ss.out[|ss.out| - 1])
                  && forall i | 0 <= i < |ss.out| - 1 :: !Terminal(ss.out[i]))
            && (ss.phase == Ended(true) ==>
                  && HasTerminal(ss.out) && ss.out == ss.snapshot && ss.snapshot <= Since(s.log, ss.start))
            && (ss.phase.Live? || ss.phase.Polling? ==> !HasTerminal(ss.out))
            && ((forall e | e in s.log && Terminal(e) :: !Above(ss.start, e.id)) ==> !ss.phase.Ended?)
  {
    RunInv(Fresh(log), actions);
    var s := Run(Fresh(log), actions);
    EndPhases(s.sessions[sid], s.log);
    if s.sessions[sid].phase.Ended? {
      EndedPastCursor(s.sessions[sid], s.log);
    }
  }

  lemma EndPhases(ss: Session, log: seq<Event>)
    requires SessionInv(ss, log)
    ensures ss.phase == Ended(false) ==>
              && ss.out != [] && Terminal(ss.out[|ss.out| - 1])
              && forall i | 0 <= i < |ss.out| - 1 :: !Terminal(ss.out[i])
    ensures ss.phase == Ended(true) ==>
              HasTerminal(ss.out) && ss.out == ss.snapshot && ss.snapshot <= Since(log, ss.start)
    ensures ss.phase.Live? || ss.phase.Polling? ==> !HasTerminal(ss.out)
  {
    if ss.phase == Ended(false) {
      var front := ss.out[..|ss.out| - 1];
      forall i | 0 <= i < |ss.out| - 1 ensures !Terminal(ss.out[i]) {
        assert front[i] == ss.out[i];
      }
    }
  }

  /** A session that has ended was sent a terminal event stored above its cursor. */
  lemma EndedPastCursor(ss: Session, log: seq<Event>)
    requires SessionInv(ss, log) && ss.phase.Ended?
    ensures exists e | e in log :: Terminal(e) && Above(ss.start, e.id)
  {
    EndPhases(ss, log);
    var i :| 0 <= i < |ss.out| && Terminal(ss.out[i]);
    assert ss.out[i] in log && Above(ss.start, ss.out[i].id);
  }
}
