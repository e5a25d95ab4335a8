/**
 One subscriber of a run's event stream, as a value: what `stream_events` holds between two of
 its suspension points (the registered queue, `last_sequence`, the list being replayed or polled)
 and what it has sent so far.
 */
module StreamSession {
  import opened Options
  import opened DurableLog

  const TERMINAL_KINDS: set<string> := {"run.completed", "run.failed", "run.cancelled"}

  predicate Terminal(e: Event) {
    e.kind in TERMINAL_KINDS
  }

  predicate HasTerminal(s: seq<Event>) {
    exists i | 0 <= i < |s| :: Terminal(s[i])
  }

  /**
   `Opening`: queue registered, first `list_since` not answered yet. `Replaying` and `Polling`:
   sending a list obtained from the log. `Live`: waiting for the queue or for the poll timeout.
   `Ended`: the generator returned by itself. `Closed`: the client went away.
   */
  datatype Phase = Opening | Replaying | Live | Polling | Ended(inReplay: bool) | Closed

  datatype Session = Session(
    start: Cursor,
    phase: Phase,
    queue: seq<Event>,
    last: Cursor,
    snapshot: seq<Event>,
    batch: seq<Event>,
    sawTerminal: bool,
    out: seq<Event>)
  {
    /** The queue stays registered with the manager until the generator finishes. */
    predicate Registered() {
      !phase.Ended? && !phase.Closed?
    }
  }

  /** What a subscriber can do when it is resumed. */
  datatype Move = Replay | Deliver | Finish | Dequeue | Poll

  function Open(c: Cursor): Session {
    Session(c, Opening, [], c, [], [], false, [])
  }

  predicate CanMove(s: Session, m: Move) {
    match m
    case Replay => s.phase.Opening?
    case Deliver => (s.phase.Replaying? || s.phase.Polling?) && s.batch != []
    case Finish => (s.phase.Replaying? || s.phase.Polling?) && s.batch == []
    case Dequeue => s.phase.Live? && s.queue != []
    case Poll => s.phase.Live?
  }

  function Send(s: Session, e: Event): Session {
    s.(out := s.out + [e], last := Some(e.id))
  }

  /** One resumption against the current log; a move that is not possible changes nothing. */
  function Step(s: Session, log: seq<Event>, m: Move): Session {
    if !CanMove(s, m) then s else
    match m
    case Replay =>
      var past := Since(log, s.start);
      s.(phase := Replaying, snapshot := past, batch := past)
    case Deliver =>
      var e := s.batch[0];
      if s.phase.Replaying? then
        Send(s, e).(batch := s.batch[1..], sawTerminal := s.sawTerminal || Terminal(e))
      else if Terminal(e) then
        Send(s, e).(batch := [], phase := Ended(false))
      else
        Send(s, e).(batch := s.batch[1..])
    case Finish =>
      s.(phase := if s.phase.Replaying? && s.sawTerminal then Ended(true) else Live)
    case Dequeue =>
      var e := s.queue[0];
      var rest := s.(queue := s.queue[1..]);
      if !Above(s.last, e.id) then rest
      else if Terminal(e) then Send(rest, e).(phase := Ended(false))
      else Send(rest, e)
    case Poll =>
      s.(phase := Polling, batch := Since(log, s.last))
  }

  /** `put_nowait` on the subscriber's queue, if it is still registered. */
  function Enqueue(s: Session, e: Event): Session {
    if s.Registered() then s.(queue := s.queue + [e]) else s
  }

  /** The client goes away: nothing has been sent or received by that, and the queue is given up. */
  function Disconnect(s: Session): (t: Session)
    ensures !t.Registered() && t.start == s.start && t.out == s.out && t.last == s.last
    ensures forall m :: !CanMove(t, m)
    ensures s.phase.Ended? ==> t == s
  {
    if s.phase.Ended? then s else s.(phase := Closed)
  }

  function Steps(s: Session, log: seq<Event>, moves: seq<Move>): Session
    decreases |moves|
  {
    if moves == [] then s else Steps(Step(s, log, moves[0]), log, moves[1..])
  }

  // ---------------------------------------------------------------------------------------
  // What every session keeps
  // ---------------------------------------------------------------------------------------

  /** Every member of `s` is stored in the log. */
  predicate StoredIn(s: seq<Event>, log: seq<Event>) {
    forall i | 0 <= i < |s| :: s[i] in log
  }

  /** The safety part: what has been sent is an increasing selection of the log above the start. */
  predicate Sound(s: Session, log: seq<Event>) {
    && Increasing(s.out)
    && (forall i | 0 <= i < |s.out| :: Above(s.start, s.out[i].id))
    && StoredIn(s.out, log)
    && s.last == CursorAfter(s.start, s.out)
    && StoredIn(s.queue, log)
    && s.batch <= Since(log, s.last)
  }

  /** The bookkeeping part: which phase may have sent a terminal event. */
  predicate PhaseOk(s: Session, log: seq<Event>) {
    match s.phase
    case Opening => s.out == [] && s.batch == [] && !s.sawTerminal
    case Replaying =>
      && s.snapshot == s.out + s.batch
      && s.snapshot <= Since(log, s.start)
      && (s.sawTerminal <==> HasTerminal(s.out))
    case Live => s.batch == [] && !HasTerminal(s.out)
    case Polling => !HasTerminal(s.out)
    case Ended(true) => s.out == s.snapshot && HasTerminal(s.out) && s.snapshot <= Since(log, s.start)
    case Ended(false) =>
      && s.out != [] && Terminal(s.out[|s.out| - 1])
      && !HasTerminal(s.out[..|s.out| - 1])
    case Closed => true
  }

  predicate SessionInv(s: Session, log: seq<Event>) {
    Increasing(log) && Sound(s, log) && PhaseOk(s, log)
  }

  lemma OpenInv(c: Cursor, log: seq<Event>)
    requires Increasing(log)
    ensures SessionInv(Open(c), log)
  {
  }

  lemma HasTerminalAppend(s: seq<Event>, e: Event)
    ensures HasTerminal(s + [e]) <==> HasTerminal(s) || Terminal(e)
  {
    var t := s + [e];
    if HasTerminal(s) {
      var i :| 0 <= i < |s| && Terminal(s[i]);
      assert Terminal(t[i]);
    }
    if Terminal(e) {
      assert Terminal(t[|s|]);
    }
  }

  /** Sending a stored event above the last one keeps the output an increasing selection. */
  lemma SendSound(s: Session, log: seq<Event>, e: Event)
    requires SessionInv(s, log) && e in log && Above(s.last, e.id)
    ensures Sound(Send(s, e).(batch := []), log)
  {
    var t := Send(s, e);
    forall i, j | 0 <= i < j < |t.out| ensures t.out[i].id < t.out[j].id {
      if j == |s.out| && i < |s.out| - 1 {
        assert s.out[i].id < s.out[|s.out| - 1].id;
      }
    }
    if s.out != [] {
      assert Above(s.start, s.out[|s.out| - 1].id);
    }
  }

  /** The head of a list obtained from the log is stored, new, and followed by the rest. */
  lemma BatchHead(log: seq<Event>, c: Cursor, batch: seq<Event>)
    requires Increasing(log) && batch != [] && batch <= Since(log, c)
    ensures batch[0] in log && Above(c, batch[0].id)
    ensures [batch[0]] <= Since(log, c)
    ensures batch[1..] <= Since(log, Some(batch[0].id))
  {
    var e := batch[0];
    assert batch[0] == Since(log, c)[0];
    ContinueAfterPrefix(log, c, [e]);
    SinceMember(log, c, e);
  }

  /** Sending the head of the list keeps the safety part, whatever the phase becomes. */
  lemma DeliverSound(s: Session, log: seq<Event>)
    requires SessionInv(s, log) && CanMove(s, Deliver)
    ensures Sound(Step(s, log, Deliver), log)
  {
    BatchHead(log, s.last, s.batch);
    SendSound(s, log, s.batch[0]);
  }

  lemma DeliverInv(s: Session, log: seq<Event>)
    requires SessionInv(s, log) && CanMove(s, Deliver)
    ensures SessionInv(Step(s, log, Deliver), log)
  {
    DeliverSound(s, log);
    var e := s.batch[0];
    HasTerminalAppend(s.out, e);
    if s.phase.Replaying? {
      assert s.out + s.batch == (s.out + [e]) + s.batch[1..];
    } else {
      assert (s.out + [e])[..|s.out|] == s.out;
    }
  }

  lemma {:induction false} DequeueInv(s: Session, log: seq<Event>)
    requires SessionInv(s, log) && CanMove(s, Dequeue)
    ensures SessionInv(Step(s, log, Dequeue), log)
  {
    var e := s.queue[0];
    if Above(s.last, e.id) {
      SendSound(s, log, e);
      HasTerminalAppend(s.out, e);
      assert (s.out + [e])[..|s.out|] == s.out;
    }
  }

  /** Every resumption keeps the session invariant. */
  lemma StepInv(s: Session, log: seq<Event>, m: Move)
    requires SessionInv(s, log)
    ensures SessionInv(Step(s, log, m), log)
  {
    if CanMove(s, m) {
      match m
      case Replay =>
        assert [] + Since(log, s.start) == Since(log, s.start);
      case Deliver => DeliverInv(s, log);
      case Finish =>
        if s.phase.Replaying? {
          assert s.out + [] == s.out;
        }
      case Dequeue => DequeueInv(s, log);
      case Poll =>
    }
  }

  lemma {:induction false} StepsInv(s: Session, log: seq<Event>, moves: seq<Move>)
    requires SessionInv(s, log)
    ensures SessionInv(Steps(s, log, moves), log)
    decreases |moves|
  {
    if moves != [] {
      StepInv(s, log, moves[0]);
      StepsInv(Step(s, log, moves[0]), log, moves[1..]);
    }
  }

  /** An append to the log, by this process or another one, keeps the session invariant. */
  lemma AppendInv(s: Session, log: seq<Event>, e: Event)
    requires SessionInv(s, log) && Increasing(log + [e])
    ensures SessionInv(s, log + [e])
  {
    SinceGrows(log, [e], s.last);
    SinceGrows(log, [e], s.start);
  }

  lemma EnqueueInv(s: Session, log: seq<Event>, e: Event)
    requires SessionInv(s, log) && e in log
    ensures SessionInv(Enqueue(s, e), log)
  {
  }

  lemma DisconnectInv(s: Session, log: seq<Event>)
    requires SessionInv(s, log)
    ensures SessionInv(Disconnect(s), log)
  {
  }

  // ---------------------------------------------------------------------------------------
  // Gap-freedom and its exact condition
  // ---------------------------------------------------------------------------------------

  /** The output is exactly the log after the start cursor, up to some point. */
  predicate GapFree(s: Session, log: seq<Event>) {
    s.out <= Since(log, s.start)
  }

  /** However the subscriber is resumed from here, with no further writer, nothing is skipped. */
  ghost predicate Lossless(s: Session, log: seq<Event>) {
    forall moves: seq<Move> :: GapFree(Steps(s, log, moves), log)
  }

  /** `x` is stored between the cursor and `e`. */
  predicate Between(log: seq<Event>, c: Cursor, x: Event, e: Event) {
    x in log && Above(c, x.id) && x.id < e.id
  }

  /**
   Some envelope in the queue will be accepted while an event stored before it is missing: it is
   above the cursor, no terminal event that would end the stream is queued before it, and some
   stored event between the cursor and it is not queued before it.
   */
  ghost predicate OvertakesAt(log: seq<Event>, c: Cursor, queue: seq<Event>, i: nat)
  {
    && i < |queue|
    && (forall j | 0 <= j < i :: Above(c, queue[j].id) ==> !Terminal(queue[j]))
    && exists x :: Between(log, c, x, queue[i]) && x !in queue[..i]
  }

  ghost predicate OvertakesFrom(log: seq<Event>, c: Cursor, queue: seq<Event>) {
    exists i: nat :: OvertakesAt(log, c, queue, i)
  }

  /** The session will go on reading its queue once the current list is sent. */
  predicate WillRead(s: Session) {
    match s.phase
    case Live => true
    case Replaying => !s.sawTerminal && !HasTerminal(s.batch)
    case Polling => !HasTerminal(s.batch)
    case _ => false
  }

  /** Where the session will stand when it reads its queue next. */
  function ReadingFrom(s: Session): Cursor {
    CursorAfter(s.last, s.batch)
  }

  ghost predicate Overtakes(s: Session, log: seq<Event>) {
    WillRead(s) && OvertakesFrom(log, ReadingFrom(s), s.queue)
  }

  /** The guard on a fan-out: `e` would be queued ahead of a stored event the reader still needs. */
  ghost predicate FanOutOvertakes(s: Session, log: seq<Event>, e: Event) {
    WillRead(s) && OvertakesAt(log, ReadingFrom(s), s.queue + [e], |s.queue|)
  }

  /** The first log entry above the cursor has nothing stored between. */
  lemma NextInLog(log: seq<Event>, c: Cursor, e: Event)
    requires Increasing(log) && e in log && Above(c, e.id)
    requires forall x :: !Between(log, c, x, e)
    ensures [e] <= Since(log, c)
  {
    SinceMember(log, c, e);
    SinceIncreasing(log, c);
    var rest := Since(log, c);
    var k :| 0 <= k < |rest| && rest[k] == e;
    if k > 0 {
      SinceMember(log, c, rest[0]);
      assert Between(log, c, rest[0], e);
      assert false;
    }
  }

  lemma GapFreeAppend(log: seq<Event>, start: Cursor, out: seq<Event>, e: Event)
    requires Increasing(log) && out <= Since(log, start)
    requires [e] <= Since(log, CursorAfter(start, out))
    ensures out + [e] <= Since(log, start)
  {
    ContinueAfterPrefix(log, start, out);
  }

  /** After a complete read of the log no stored event is new. */
  lemma CaughtUp(log: seq<Event>, c: Cursor, e: Event)
    requires Increasing(log) && e in log
    ensures !Above(CursorAfter(c, Since(log, c)), e.id)
  {
    var all := Since(log, c);
    ContinueAfterPrefix(log, c, all);
    SinceMember(log, CursorAfter(c, all), e);
  }

  lemma CaughtUpDoesNotOvertake(log: seq<Event>, c: Cursor, queue: seq<Event>)
    requires Increasing(log) && StoredIn(queue, log)
    ensures !OvertakesFrom(log, CursorAfter(c, Since(log, c)), queue)
  {
    forall i: nat ensures !OvertakesAt(log, CursorAfter(c, Since(log, c)), queue, i) {
      if i < |queue| {
        CaughtUp(log, c, queue[i]);
      }
    }
  }

  lemma HasTerminalTail(s: seq<Event>)
    requires s != []
    ensures HasTerminal(s) <==> Terminal(s[0]) || HasTerminal(s[1..])
  {
    if HasTerminal(s[1..]) {
      var i :| 0 <= i < |s[1..]| && Terminal(s[1..][i]);
      assert Terminal(s[i + 1]);
    }
    if HasTerminal(s) && !Terminal(s[0]) {
      var i :| 0 <= i < |s| && Terminal(s[i]);
      assert s[1..][i - 1] == s[i];
    }
  }

  /** Sending the head of the list leaves both the reading position and the hazard as they were. */
  lemma DeliverKeepsReading(s: Session, log: seq<Event>)
    requires CanMove(s, Deliver)
    ensures WillRead(Step(s, log, Deliver)) <==> WillRead(s)
    ensures WillRead(s) ==> ReadingFrom(Step(s, log, Deliver)) == ReadingFrom(s)
    ensures Step(s, log, Deliver).queue == s.queue
  {
    HasTerminalTail(s.batch);
  }

  /** Skipping an old envelope shifts the hazard by one place. */
  lemma SkipShifts(log: seq<Event>, c: Cursor, queue: seq<Event>, i: nat)
    requires queue != [] && !Above(c, queue[0].id)
    ensures OvertakesAt(log, c, queue[1..], i) <==> OvertakesAt(log, c, queue, i + 1)
  {
    var tail := queue[1..];
    if i < |tail| {
      assert tail[i] == queue[i + 1];
      assert queue[..i + 1] == [queue[0]] + tail[..i];
      forall x | Between(log, c, x, tail[i]) ensures x in tail[..i] <==> x in queue[..i + 1] {
      }
      if forall j | 0 <= j < i :: Above(c, tail[j].id) ==> !Terminal(tail[j]) {
        forall j | 0 <= j < i + 1 ensures Above(c, queue[j].id) ==> !Terminal(queue[j]) {
          if j > 0 {
            assert tail[j - 1] == queue[j];
          }
        }
      }
      if forall j | 0 <= j < i + 1 :: Above(c, queue[j].id) ==> !Terminal(queue[j]) {
        forall j | 0 <= j < i ensures Above(c, tail[j].id) ==> !Terminal(tail[j]) {
          assert tail[j] == queue[j + 1];
        }
      }
    }
  }

  /** Accepting the next stored event, when it is not terminal, shifts the hazard by one place. */
  lemma AcceptShifts(log: seq<Event>, c: Cursor, queue: seq<Event>, i: nat)
    requires Increasing(log) && StoredIn(queue, log)
    requires queue != [] && Above(c, queue[0].id) && !Terminal(queue[0])
    requires forall x :: !Between(log, c, x, queue[0])
    ensures OvertakesAt(log, Some(queue[0].id), queue[1..], i) <==> OvertakesAt(log, c, queue, i + 1)
  {
    var e, tail, d := queue[0], queue[1..], Some(queue[0].id);
    if i < |tail| {
      assert tail[i] == queue[i + 1];
      assert queue[..i + 1] == [e] + tail[..i];
      forall y | y in log ensures Above(c, y.id) <==> Above(d, y.id) || y == e {
        if Above(c, y.id) && !Above(d, y.id) {
          assert !Between(log, c, y, e);
          SameIdSameEvent(log, y, e);
        }
      }
      if OvertakesAt(log, d, tail, i) {
        var x :| Between(log, d, x, tail[i]) && x !in tail[..i];
        assert Between(log, c, x, queue[i + 1]) && x !in queue[..i + 1];
        forall j | 0 <= j < i + 1 ensures Above(c, queue[j].id) ==> !Terminal(queue[j]) {
          if j > 0 {
            assert tail[j - 1] == queue[j];
          }
        }
      }
      if OvertakesAt(log, c, queue, i + 1) {
        var x :| Between(log, c, x, queue[i + 1]) && x !in queue[..i + 1];
        assert x != e && Between(log, d, x, tail[i]) && x !in tail[..i];
        forall j | 0 <= j < i ensures Above(d, tail[j].id) ==> !Terminal(tail[j]) {
          assert tail[j] == queue[j + 1];
        }
      }
    }
  }

  /** If the head of the queue does not overtake, it is the next stored event. */
  lemma HeadIsNext(s: Session, log: seq<Event>)
    requires SessionInv(s, log) && CanMove(s, Dequeue) && Above(s.last, s.queue[0].id)
    requires !OvertakesAt(log, s.last, s.queue, 0)
    ensures forall x :: !Between(log, s.last, x, s.queue[0])
    ensures [s.queue[0]] <= Since(log, s.last)
  {
    forall x ensures !Between(log, s.last, x, s.queue[0]) {
      assert x !in s.queue[..0];
    }
    NextInLog(log, s.last, s.queue[0]);
  }

  lemma DequeueSafe(s: Session, log: seq<Event>)
    requires SessionInv(s, log) && GapFree(s, log) && !Overtakes(s, log)
    requires CanMove(s, Dequeue)
    ensures GapFree(Step(s, log, Dequeue), log) && !Overtakes(Step(s, log, Dequeue), log)
  {
    var t := Step(s, log, Dequeue);
    assert !OvertakesFrom(log, s.last, s.queue);
    if Above(s.last, s.queue[0].id) {
      assert !OvertakesAt(log, s.last, s.queue, 0);
      HeadIsNext(s, log);
      GapFreeAppend(log, s.start, s.out, s.queue[0]);
      if !Terminal(s.queue[0]) {
        forall i: nat ensures !OvertakesAt(log, t.last, t.queue, i) {
          AcceptShifts(log, s.last, s.queue, i);
          assert !OvertakesAt(log, s.last, s.queue, i + 1);
        }
      }
    } else {
      forall i: nat ensures !OvertakesAt(log, t.last, t.queue, i) {
        SkipShifts(log, s.last, s.queue, i);
        assert !OvertakesAt(log, s.last, s.queue, i + 1);
      }
    }
  }

  lemma DeliverSafe(s: Session, log: seq<Event>)
    requires SessionInv(s, log) && GapFree(s, log) && !Overtakes(s, log)
    requires CanMove(s, Deliver)
    ensures GapFree(Step(s, log, Deliver), log) && !Overtakes(Step(s, log, Deliver), log)
  {
    BatchHead(log, s.last, s.batch);
    GapFreeAppend(log, s.start, s.out, s.batch[0]);
    DeliverKeepsReading(s, log);
  }

  /** Without a hazard in the queue, every resumption keeps the output gap-free and hazard-free. */
  lemma StepSafe(s: Session, log: seq<Event>, m: Move)
    requires SessionInv(s, log) && GapFree(s, log) && !Overtakes(s, log)
    ensures GapFree(Step(s, log, m), log) && !Overtakes(Step(s, log, m), log)
  {
    if CanMove(s, m) {
      match m
      case Replay => CaughtUpDoesNotOvertake(log, s.start, s.queue);
      case Deliver => DeliverSafe(s, log);
      case Finish =>
      case Dequeue => DequeueSafe(s, log);
      case Poll => CaughtUpDoesNotOvertake(log, s.last, s.queue);
    }
  }

  lemma {:induction false} StepsSafe(s: Session, log: seq<Event>, moves: seq<Move>)
    requires SessionInv(s, log) && GapFree(s, log) && !Overtakes(s, log)
    ensures GapFree(Steps(s, log, moves), log)
    decreases |moves|
  {
    if moves != [] {
      StepSafe(s, log, moves[0]);
      StepInv(s, log, moves[0]);
      StepsSafe(Step(s, log, moves[0]), log, moves[1..]);
    }
  }

  lemma StepsCons(s: Session, log: seq<Event>, m: Move, moves: seq<Move>)
    ensures Steps(s, log, [m] + moves) == Steps(Step(s, log, m), log, moves)
  {
    assert ([m] + moves)[1..] == moves;
  }

  /** Accepting the head while a stored event before it is missing leaves a gap. */
  lemma HeadLeavesGap(s: Session, log: seq<Event>, x: Event)
    requires SessionInv(s, log) && CanMove(s, Dequeue)
    requires Above(s.last, s.queue[0].id) && Between(log, s.last, x, s.queue[0])
    ensures !GapFree(Step(s, log, Dequeue), log)
  {
    var t := Step(s, log, Dequeue);
    if GapFree(t, log) {
      assert s.out == t.out[..|s.out|];
      ContinueAfterPrefix(log, s.start, s.out);
      var rest := Since(log, s.last);
      assert t.out[|s.out|] == rest[0];
      SinceMember(log, s.last, x);
      SinceIncreasing(log, s.last);
      assert false;
    }
  }

  /** Reading an envelope that does not overtake brings a hazard behind it one place nearer. */
  lemma DequeueNears(s: Session, log: seq<Event>, i: nat)
    requires SessionInv(s, log) && s.phase.Live? && i > 0 && OvertakesAt(log, s.last, s.queue, i)
    requires !OvertakesAt(log, s.last, s.queue, 0)
    ensures Step(s, log, Dequeue).phase.Live?
    ensures OvertakesAt(log, Step(s, log, Dequeue).last, Step(s, log, Dequeue).queue, i - 1)
  {
    if Above(s.last, s.queue[0].id) {
      HeadIsNext(s, log);
      AcceptShifts(log, s.last, s.queue, i - 1);
    } else {
      SkipShifts(log, s.last, s.queue, i - 1);
    }
  }

  /** Reading the queue up to a hazard loses an event. */
  lemma {:induction false} DrainLoses(s: Session, log: seq<Event>, i: nat) returns (moves: seq<Move>)
    requires SessionInv(s, log) && s.phase.Live? && OvertakesAt(log, s.last, s.queue, i)
    ensures !GapFree(Steps(s, log, moves), log)
    decreases i
  {
    if OvertakesAt(log, s.last, s.queue, 0) {
      var x :| Between(log, s.last, x, s.queue[0]);
      HeadLeavesGap(s, log, x);
      StepsCons(s, log, Dequeue, []);
      moves := [Dequeue] + [];
    } else {
      StepInv(s, log, Dequeue);
      DequeueNears(s, log, i);
      var rest := DrainLoses(Step(s, log, Dequeue), log, i - 1);
      StepsCons(s, log, Dequeue, rest);
      moves := [Dequeue] + rest;
    }
  }

  /** Every hazard can be reached: some way of resuming the subscriber loses an event. */
  lemma {:induction false} OvertakingLoses(s: Session, log: seq<Event>) returns (moves: seq<Move>)
    requires SessionInv(s, log) && Overtakes(s, log)
    ensures !GapFree(Steps(s, log, moves), log)
    decreases if s.phase.Live? then 0 else |s.batch| + 1
  {
    if s.phase.Live? {
      var i: nat :| OvertakesAt(log, ReadingFrom(s), s.queue, i);
      moves := DrainLoses(s, log, i);
    } else {
      var m := if s.batch != [] then Deliver else Finish;
      if m.Deliver? {
        DeliverKeepsReading(s, log);
      }
      StepInv(s, log, m);
      var rest := OvertakingLoses(Step(s, log, m), log);
      StepsCons(s, log, m, rest);
      moves := [m] + rest;
    }
  }

  /**
   The exact condition: a gap-free subscriber stays gap-free however it is resumed, if and only
   if no queued envelope overtakes a stored event it still needs.
   */
  lemma LosslessIffNotOvertaken(s: Session, log: seq<Event>)
    requires SessionInv(s, log) && GapFree(s, log)
    ensures Lossless(s, log) <==> !Overtakes(s, log)
  {
    if Overtakes(s, log) {
      var moves := OvertakingLoses(s, log);
    } else {
      forall moves: seq<Move> ensures GapFree(Steps(s, log, moves), log) {
        StepsSafe(s, log, moves);
      }
    }
  }

  /** Sending a polled list to its end returns to the live phase with the whole list sent. */
  lemma {:induction false} DeliverAll(s: Session, log: seq<Event>) returns (moves: seq<Move>)
    requires s.phase.Polling? && !HasTerminal(s.batch)
    ensures Steps(s, log, moves).out == s.out + s.batch
    ensures Steps(s, log, moves).phase.Live?
    decreases |s.batch|
  {
    if s.batch == [] {
      StepsCons(s, log, Finish, []);
      moves := [Finish] + [];
    } else {
      HasTerminalTail(s.batch);
      var rest := DeliverAll(Step(s, log, Deliver), log);
      StepsCons(s, log, Deliver, rest);
      assert s.out + [s.batch[0]] + s.batch[1..] == s.out + s.batch;
      moves := [Deliver] + rest;
    }
  }

  /** One poll is enough: a gap-free live subscriber can always reach the whole log. */
  lemma PollCatchesUp(s: Session, log: seq<Event>) returns (moves: seq<Move>)
    requires SessionInv(s, log) && GapFree(s, log) && s.phase.Live?
    requires !HasTerminal(Since(log, s.last))
    ensures Steps(s, log, moves).out == Since(log, s.start)
    ensures Steps(s, log, moves).phase.Live?
  {
    ContinueAfterPrefix(log, s.start, s.out);
    var rest := DeliverAll(Step(s, log, Poll), log);
    StepsCons(s, log, Poll, rest);
    moves := [Poll] + rest;
  }

  /** Up to and including the first terminal event. */
  function ThroughTerminal(s: seq<Event>): seq<Event> {
    if s == [] then []
    else if Terminal(s[0]) then [s[0]]
    else [s[0]] + ThroughTerminal(s[1..])
  }

  lemma {:induction false} ThroughTerminalConcat(a: seq<Event>, b: seq<Event>)
    requires !HasTerminal(a)
    ensures ThroughTerminal(a + b) == a + ThroughTerminal(b)
  {
    if a == [] {
      assert a + b == b;
    } else {
      HasTerminalTail(a);
      assert (a + b)[1..] == a[1..] + b;
      ThroughTerminalConcat(a[1..], b);
    }
  }

  /** Sending a polled list that holds a terminal event ends the stream right after that event. */
  lemma {:induction false} DeliverToEnd(s: Session, log: seq<Event>) returns (moves: seq<Move>)
    requires s.phase.Polling? && HasTerminal(s.batch)
    ensures Steps(s, log, moves).out == s.out + ThroughTerminal(s.batch)
    ensures Steps(s, log, moves).phase == Ended(false)
    decreases |s.batch|
  {
    HasTerminalTail(s.batch);
    var rest := [];
    if !Terminal(s.batch[0]) {
      rest := DeliverToEnd(Step(s, log, Deliver), log);
      assert s.out + [s.batch[0]] + ThroughTerminal(s.batch[1..]) == s.out + ([s.batch[0]] + ThroughTerminal(s.batch[1..]));
    }
    StepsCons(s, log, Deliver, rest);
    moves := [Deliver] + rest;
  }

  /**
   If the run has ended, one poll is enough to end the stream: a gap-free live subscriber is sent
   the log after its start cursor up to and including the first terminal event, and no more.
   */
  lemma PollEndsStream(s: Session, log: seq<Event>) returns (moves: seq<Move>)
    requires SessionInv(s, log) && GapFree(s, log) && s.phase.Live?
    requires HasTerminal(Since(log, s.last))
    ensures Steps(s, log, moves).out == ThroughTerminal(Since(log, s.start))
    ensures Steps(s, log, moves).phase == Ended(false)
  {
    ContinueAfterPrefix(log, s.start, s.out);
    ThroughTerminalConcat(s.out, Since(log, s.last));
    var rest := DeliverToEnd(Step(s, log, Poll), log);
    StepsCons(s, log, Poll, rest);
    moves := [Poll] + rest;
  }

  // ---------------------------------------------------------------------------------------
  // What the writers do to a session
  // ---------------------------------------------------------------------------------------

  /** An append alone neither creates nor removes a hazard, whoever writes it. */
  lemma AppendKeepsHazard(s: Session, log: seq<Event>, e: Event)
    requires SessionInv(s, log) && Increasing(log + [e])
    ensures Overtakes(s, log + [e]) <==> Overtakes(s, log)
    ensures GapFree(s, log) ==> GapFree(s, log + [e])
  {
    var all := log + [e];
    forall i | 0 <= i < |s.queue|
      ensures forall x :: Between(all, ReadingFrom(s), x, s.queue[i]) <==> Between(log, ReadingFrom(s), x, s.queue[i])
    {
      var k :| 0 <= k < |log| && log[k] == s.queue[i];
      assert all[k].id < all[|log|].id;
    }
    forall i: nat
      ensures OvertakesAt(all, ReadingFrom(s), s.queue, i) <==> OvertakesAt(log, ReadingFrom(s), s.queue, i)
    {
    }
    SinceGrows(log, [e], s.start);
  }

  /** A fan-out creates a hazard exactly when its guard says so. */
  lemma FanOutHazard(s: Session, log: seq<Event>, e: Event)
    requires !Overtakes(s, log)
    ensures Overtakes(Enqueue(s, e), log) <==> FanOutOvertakes(s, log, e)
  {
    if WillRead(s) {
      var q, c := s.queue + [e], ReadingFrom(s);
      forall i: nat | OvertakesAt(log, c, q, i) ensures i == |s.queue| {
        if i < |s.queue| {
          assert q[..i] == s.queue[..i];
          assert OvertakesAt(log, c, s.queue, i);
        }
      }
    }
  }
}
