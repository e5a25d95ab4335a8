/**
 The in-process event stream manager as it is written: `_queues` lists changed in place by `emit`
 and by the subscribers' generators, against a repository that numbers what it stores. Every
 method is proved to be one step of the interleaving model `StreamRuns`, for its own run only.
 */
module StreamManager {
  import opened Options
  import opened DurableLog
  import opened StreamSession
  import opened StreamRuns

  predicate Distinct<T(==)>(s: seq<T>) {
    forall i, j | 0 <= i < j < |s| :: s[i] != s[j]
  }

  lemma LocalAppendStep(s: System, t: System, e: Event)
    requires Increasing(s.log + [e])
    requires t == StreamRuns.System(s.log + [e], s.inflight + {e}, s.sessions)
    ensures t == Apply(s, LocalAppend(e))
  {
  }

  lemma FanOutStep(s: System, t: System, e: Event)
    requires e in s.inflight
    requires t.log == s.log && t.inflight == s.inflight - {e} && t.sessions.Keys == s.sessions.Keys
    requires forall sid | sid in s.sessions :: t.sessions[sid] == Enqueue(s.sessions[sid], e)
    ensures t == Apply(s, FanOut(e))
  {
    assert t.sessions == Apply(s, FanOut(e)).sessions;
  }

  lemma SubscribeStep(s: System, t: System, sid: nat, c: Cursor)
    requires sid !in s.sessions
    requires t == StreamRuns.System(s.log, s.inflight, s.sessions[sid := Open(c)])
    ensures t == Apply(s, Subscribe(sid, c))
  {
  }

  /** The repository of stored stream events: one global counter, one list per run. */
  class EventStore {
    var counter: int
    var events: map<string, seq<Event>>

    ghost predicate Valid()
      reads this
    {
      forall run | run in events ::
        && Increasing(events[run])
        && forall i | 0 <= i < |events[run]| :: events[run][i].id <= counter
    }

    constructor ()
      ensures Valid() && events == map[] && counter == 0
    {
      counter := 0;
      events := map[];
    }

    function Log(run: string): seq<Event>
      reads this
    {
      if run in events then events[run] else []
    }

    method Append(run: string, kind: string, payload: string) returns (e: Event)
      requires Valid()
      modifies this
      ensures Valid()
      ensures e.kind == kind && e.payload == payload && e.id == counter == old(counter) + 1
      ensures Log(run) == old(Log(run)) + [e]
      ensures forall r | r != run :: Log(r) == old(Log(r))
    {
      counter := counter + 1;
      e := Event(counter, kind, payload);
      events := events[run := Log(run) + [e]];
    }

    method ListSince(run: string, c: Cursor) returns (r: seq<Event>)
      ensures r == Since(Log(run), c)
    {
      var log := Log(run);
      r := [];
      for i := 0 to |log|
        invariant r == Since(log[..i], c)
      {
        assert log[..i + 1] == log[..i] + [log[i]];
        SinceConcat(log[..i], [log[i]], c);
        if Above(c, log[i].id) {
          r := r + [log[i]];
        }
      }
      assert log[..|log|] == log;
    }
  }

  /** The frame of one `stream_events` generator. */
  class Subscription {
    const run: string
    const start: Cursor
    var phase: Phase
    var queue: seq<Event>
    var last: Cursor
    var snapshot: seq<Event>
    var batch: seq<Event>
    var sawTerminal: bool
    var out: seq<Event>

    constructor (run: string, start: Cursor)
      ensures this.run == run && View() == Open(start)
    {
      this.run, this.start := run, start;
      phase, queue, last := Opening, [], start;
      snapshot, batch, sawTerminal, out := [], [], false, [];
    }

    ghost function View(): Session
      reads this
    {
      Session(start, phase, queue, last, snapshot, batch, sawTerminal, out)
    }

    method Send(e: Event)
      modifies this`out, this`last
      ensures View() == StreamSession.Send(old(View()), e)
    {
      out := out + [e];
      last := Some(e.id);
    }

    /** Runs the generator from one suspension point to the next. */
    method Advance(store: EventStore, m: Move)
      requires CanMove(View(), m)
      modifies this
      ensures View() == Step(old(View()), store.Log(run), m)
    {
      match m {
        case Replay =>
          snapshot := store.ListSince(run, start);
          batch := snapshot;
          phase := Replaying;
        case Deliver =>
          var e := batch[0];
          batch := batch[1..];
          Send(e);
          if e.kind in TERMINAL_KINDS {
            if phase.Replaying? {
              sawTerminal := true;
            } else {
              batch := [];
              phase := Ended(false);
            }
          }
        case Finish =>
          phase := if phase.Replaying? && sawTerminal then Ended(true) else Live;
        case Dequeue =>
          var e := queue[0];
          queue := queue[1..];
          if last.None? || last.value < e.id {
            Send(e);
            if e.kind in TERMINAL_KINDS {
              phase := Ended(false);
            }
          }
        case Poll =>
          batch := store.ListSince(run, last);
          phase := Polling;
      }
    }
  }

  class Manager {
    const store: EventStore
    var queues: map<string, seq<Subscription>>
    /** Every subscription ever opened; the position is its number in the interleaving model. */
    ghost var subs: seq<Subscription>
    ghost var inflight: map<string, set<Event>>

    constructor (store: EventStore)
      requires store.Valid()
      ensures Valid() && this.store == store && subs == []
      ensures forall run :: System(run) == Fresh(store.Log(run))
    {
      this.store := store;
      queues := map[];
      subs := [];
      inflight := map[];
    }

    ghost predicate Valid()
      reads this, store, subs
    {
      StoreOk() && QueuesOk() && ListedOk()
    }

    ghost predicate StoreOk()
      reads this`inflight, store
    {
      store.Valid() && forall run :: Inflight(run) <= set e | e in store.Log(run)
    }

    /** Each list holds distinct subscriptions of its own run. */
    ghost predicate QueuesOk()
      reads this`queues, this`subs
    {
      && Distinct(subs)
      && (forall run | run in queues ::
            && Distinct(queues[run])
            && forall s | s in queues[run] :: s in subs && s.run == run)
    }

    /** A queue is in the manager's list exactly while its generator has not finished. */
    ghost predicate ListedOk()
      reads this`queues, this`subs, subs
    {
      forall i | 0 <= i < |subs| :: Listed(subs[i]) <==> subs[i].View().Registered()
    }

    predicate Listed(s: Subscription)
      reads this`queues
    {
      s.run in queues && s in queues[s.run]
    }

    ghost function Inflight(run: string): set<Event>
      reads this`inflight
    {
      if run in inflight then inflight[run] else {}
    }

    ghost function Sessions(run: string): map<nat, Session>
      reads this`subs, subs
    {
      map i: nat | i < |subs| && subs[i].run == run :: subs[i].View()
    }

    /** What the interleaving model sees of one run. */
    ghost function System(run: string): System
      reads this`subs, this`inflight, store, subs
    {
      StreamRuns.System(store.Log(run), Inflight(run), Sessions(run))
    }

    method StartRun(run: string)
      requires Valid()
      modifies this`queues
      ensures Valid()
      ensures forall r :: System(r) == old(System(r))
      ensures queues == if run in old(queues) then old(queues) else old(queues)[run := []]
    {
      if run !in queues {
        queues := queues[run := []];
      }
    }

    /** The first half of `emit`, up to the point where it may be suspended. */
    method EmitStore(run: string, kind: string, payload: string) returns (e: Event)
      requires Valid()
      modifies this`inflight, store
      ensures Valid() && forall r | r != run :: System(r) == old(System(r))
      ensures e.kind == kind && e.payload == payload
      ensures System(run) == Apply(old(System(run)), LocalAppend(e))
    {
      e := store.Append(run, kind, payload);
      inflight := inflight[run := Inflight(run) + {e}];
      HasStored(run, e);
    }

    twostate lemma HasStored(run: string, new e: Event)
      requires old(Valid()) && store.Valid() && queues == old(queues) && subs == old(subs)
      requires store.Log(run) == old(store.Log(run)) + [e]
      requires forall r | r != run :: store.Log(r) == old(store.Log(r))
      requires inflight == old(inflight)[run := old(Inflight(run)) + {e}]
      requires forall i | 0 <= i < |subs| :: subs[i].View() == old(subs[i].View())
      ensures Valid() && forall r | r != run :: System(r) == old(System(r))
      ensures System(run) == Apply(old(System(run)), LocalAppend(e))
    {
      forall r ensures Inflight(r) <= set f | f in store.Log(r) {
        assert old(Inflight(r)) <= set f | f in old(store.Log(r));
      }
      assert Sessions(run) == old(Sessions(run));
      LocalAppendStep(old(System(run)), System(run), e);
      OthersKept(run);
    }

    /** The second half of `emit`: puts the envelope on every queue of the run. */
    method EmitFanOut(run: string, e: Event)
      requires Valid() && e in Inflight(run)
      modifies this`inflight, (if run in queues then set s | s in queues[run] else {})`queue
      ensures Valid() && forall r | r != run :: System(r) == old(System(r))
      ensures System(run) == Apply(old(System(run)), FanOut(e))
    {
      var list := if run in queues then queues[run] else [];
      PutAll(list, e);
      inflight := inflight[run := Inflight(run) - {e}];
      HasFannedOut(run, e);
    }

    twostate lemma HasFannedOut(run: string, new e: Event)
      requires old(Valid()) && e in old(Inflight(run))
      requires queues == old(queues) && subs == old(subs) && unchanged(store)
      requires inflight == old(inflight)[run := old(Inflight(run)) - {e}]
      requires forall i | 0 <= i < |subs| && subs[i].run == run && Listed(subs[i]) ::
                 subs[i].View() == old(subs[i].View()).(queue := old(subs[i].queue) + [e])
      requires forall i | 0 <= i < |subs| && !(subs[i].run == run && Listed(subs[i])) ::
                 subs[i].View() == old(subs[i].View())
      ensures Valid() && forall r | r != run :: System(r) == old(System(r))
      ensures System(run) == Apply(old(System(run)), FanOut(e))
    {
      forall i: nat | i < |subs| && subs[i].run == run
        ensures subs[i].View() == Enqueue(old(subs[i].View()), e)
      {
        assert old(Listed(subs[i])) <==> old(subs[i].View()).Registered();
      }
      FanOutStep(old(System(run)), System(run), e);
      OthersKept(run);
    }

    /** What belongs to other runs has not changed, subscription by subscription; so neither has their system. */
    twostate lemma OthersKept(run: string)
      requires subs == old(subs)
      requires forall r | r != run :: store.Log(r) == old(store.Log(r)) && Inflight(r) == old(Inflight(r))
      requires forall i | 0 <= i < |subs| && subs[i].run != run :: subs[i].View() == old(subs[i].View())
      ensures forall r | r != run :: System(r) == old(System(r))
    {
      forall r | r != run ensures System(r) == old(System(r)) {
        assert Sessions(r) == old(Sessions(r));
      }
    }

    /** The head of `stream_events`: register the queue before reading the log. */
    method OpenStream(run: string, start: Cursor) returns (s: Subscription)
      requires Valid()
      modifies this`queues, this`subs
      ensures Valid() && forall r | r != run :: System(r) == old(System(r))
      ensures fresh(s) && subs == old(subs) + [s]
      ensures System(run) == Apply(old(System(run)), Subscribe(|old(subs)|, start))
    {
      s := new Subscription(run, start);
      Register(s);
      OneAdded(s, run);
      SubscribeStep(old(System(run)), System(run), |old(subs)|, start);
    }

    method Register(s: Subscription)
      requires Valid() && s !in subs && s.View().Registered()
      modifies this`queues, this`subs
      ensures Valid() && subs == old(subs) + [s]
    {
      var list := if s.run in queues then queues[s.run] else [];
      queues := queues[s.run := list + [s]];
      subs := subs + [s];
      forall i | 0 <= i < |old(subs)| ensures Listed(subs[i]) == old(Listed(subs[i])) {
        assert subs[i] != s;
      }
    }

    /** A subscription has been added at the end; the others are as they were. */
    twostate lemma OneAdded(new s: Subscription, run: string)
      requires s.run == run
      requires subs == old(subs) + [s] && inflight == old(inflight) && unchanged(store)
      requires forall i | 0 <= i < |old(subs)| :: subs[i].View() == old(subs[i].View())
      ensures forall r | r != run :: System(r) == old(System(r))
      ensures Sessions(run) == old(Sessions(run))[|old(subs)| := s.View()]
    {
    }

    /** Resumes the k-th generator; when it returns, its `finally` block unregisters the queue. */
    method Resume(s: Subscription, ghost k: nat, m: Move)
      requires Valid() && k < |subs| && subs[k] == s && CanMove(s.View(), m)
      modifies this`queues, s
      ensures Valid() && forall r | r != s.run :: System(r) == old(System(r))
      ensures System(s.run) == Apply(old(System(s.run)), StreamRuns.Resume(k, m))
    {
      s.Advance(store, m);
      if s.phase.Ended? || s.phase.Closed? {
        Unregister(s, k);
      } else {
        assert Listed(s) == old(Listed(s));
      }
      OneChanged(k);
      ResumeStep(old(System(s.run)), System(s.run), k, m);
    }

    /** The client goes away: the generator is closed wherever it is suspended. */
    method Disconnect(s: Subscription, ghost k: nat)
      requires Valid() && k < |subs| && subs[k] == s
      modifies this`queues, s`phase
      ensures Valid() && forall r | r != s.run :: System(r) == old(System(r))
      ensures System(s.run) == Apply(old(System(s.run)), Leave(k))
      ensures !Listed(s) && (s.phase.Ended? || s.phase.Closed?)
    {
      if !s.phase.Ended? {
        s.phase := Closed;
      }
      Unregister(s, k);
      OneChanged(k);
      LeaveStep(old(System(s.run)), System(s.run), k);
    }

    /** Only the k-th subscription has changed. */
    twostate lemma OneChanged(k: nat)
      requires old(Distinct(subs)) && subs == old(subs) && inflight == old(inflight) && unchanged(store)
      requires k < |subs|
      requires forall i | 0 <= i < |subs| && i != k :: subs[i].View() == old(subs[i].View())
      ensures forall r | r != subs[k].run :: System(r) == old(System(r))
      ensures Sessions(subs[k].run) == old(Sessions(subs[k].run))[k := subs[k].View()]
      ensures k in old(Sessions(subs[k].run)) && old(Sessions(subs[k].run)[k]) == old(subs[k].View())
    {
    }

    /** `queue_list.remove(q)` if the queue is still there. */
    method Unregister(s: Subscription, ghost k: nat)
      requires QueuesOk() && k < |subs| && subs[k] == s && !s.View().Registered()
      requires forall i | 0 <= i < |subs| && i != k :: Listed(subs[i]) <==> subs[i].View().Registered()
      modifies this`queues
      ensures QueuesOk() && ListedOk()
    {
      if s.run in queues {
        var rest := Without(queues[s.run], s);
        queues := queues[s.run := rest];
      }
    }
  }

  lemma ResumeStep(s: System, t: System, sid: nat, m: Move)
    requires sid in s.sessions
    requires t == StreamRuns.System(s.log, s.inflight, s.sessions[sid := Step(s.sessions[sid], s.log, m)])
    ensures t == Apply(s, Resume(sid, m))
  {
  }

  lemma LeaveStep(s: System, t: System, sid: nat)
    requires sid in s.sessions
    requires t == StreamRuns.System(s.log, s.inflight, s.sessions[sid := StreamSession.Disconnect(s.sessions[sid])])
    ensures t == Apply(s, Leave(sid))
  {
  }

  /** The list without `x`, which occurs at most once. */
  method Without(list: seq<Subscription>, x: Subscription) returns (r: seq<Subscription>)
    requires Distinct(list)
    ensures x !in list ==> r == list
    ensures forall i | 0 <= i < |list| && list[i] == x :: r == list[..i] + list[i + 1..]
    ensures Distinct(r) && forall y :: y in r <==> y in list && y != x
  {
    for i := 0 to |list|
      invariant forall j | 0 <= j < i :: list[j] != x
    {
      if list[i] == x {
        r := list[..i] + list[i + 1..];
        forall j | 0 <= j < |list| && j != i ensures list[j] in r {
          assert list[j] == r[if j < i then j else j - 1];
        }
        return;
      }
    }
    r := list;
  }

  /** The loop over the queues of a run. */
  method PutAll(list: seq<Subscription>, e: Event)
    requires Distinct(list)
    modifies (set s | s in list)`queue
    ensures forall s | s in list :: s.queue == old(s.queue) + [e]
  {
    for i := 0 to |list|
      invariant forall j | 0 <= j < i :: list[j].queue == old(list[j].queue) + [e]
      invariant forall j | i <= j < |list| :: list[j].queue == old(list[j].queue)
    {
      list[i].queue := list[i].queue + [e];
    }
  }
}
