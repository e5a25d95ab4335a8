/**
 The skill handlers when they overlap: each reads the record, may be suspended, and then saves. An
 update and an evaluation save the whole record they read; a deprecation sets the status of the
 record that is stored by then. History is the order of the saves.
 */
module SkillOverlap {
  import opened Options
  import opened SkillEvaluation
  import opened SkillLifecycle

  datatype Job = Update(body: Patch) | Evaluate(registered: set<string>) | Deprecate

  /** A handler that has read `read` and not saved yet. */
  datatype Task = Task(read: Entry, job: Job)

  datatype State = State(entries: seq<Entry>, trace: seq<Event>, tasks: map<nat, Task>)

  datatype Action =
    | Create(key: Key, spec: SkillSpec)
    | Read(id: nat, workspace: string, name: string, job: Job)
    | Save(id: nat)

  function Stored(entries: seq<Entry>, key: Key): Option<Candidate> {
    var at := FindKey(entries, key);
    if at.Some? then Some(entries[at.value].cand) else None
  }

  predicate Enabled(s: State, a: Action) {
    match a
    case Create(_, _) => true
    case Read(id, workspace, name, _) => id !in s.tasks && Lookup(s.entries, workspace, name).Some?
    case Save(id) => id in s.tasks && Stored(s.entries, s.tasks[id].read.key).Some?
  }

  /** What a task saves, given the record that is stored when it does. */
  function Written(t: Task, now: Candidate): Candidate {
    match t.job
    case Update(body) => t.read.cand.(spec := Patched(t.read.cand.spec, body))
    case Evaluate(registered) => AfterEvaluation(t.read.cand, registered)
    case Deprecate => now.(status := RETIRED)
  }

  function EventOf(t: Task): Event {
    match t.job
    case Update(_) => Updated(t.read.key)
    case Evaluate(registered) => Evaluated(t.read.key, t.read.cand.spec, registered)
    case Deprecate => Deprecated(t.read.key)
  }

  /** The record one action writes and the event it stands for, if it writes. */
  function Effect(s: State, a: Action): Option<(Entry, Event)> {
    if !Enabled(s, a) then None else
    match a
    case Create(key, spec) => Some((Entry(key, Candidate(spec, 0, 0.0, CANDIDATE)), Created(key)))
    case Read(_, _, _, _) => None
    case Save(id) =>
      var t := s.tasks[id];
      Some((Entry(t.read.key, Written(t, Stored(s.entries, t.read.key).value)), EventOf(t)))
  }

  function TasksAfter(s: State, a: Action): map<nat, Task> {
    if !Enabled(s, a) then s.tasks else
    match a
    case Create(_, _) => s.tasks
    case Read(id, workspace, name, job) =>
      s.tasks[id := Task(s.entries[Lookup(s.entries, workspace, name).value], job)]
    case Save(id) => s.tasks - {id}
  }

  /** One step; an action that is not enabled changes nothing. */
  function Apply(s: State, a: Action): State {
    var w := Effect(s, a);
    State(if w.Some? then Saved(s.entries, w.value.0) else s.entries,
          if w.Some? then s.trace + [w.value.1] else s.trace,
          TasksAfter(s, a))
  }

  function Run(s: State, actions: seq<Action>): State
    decreases |actions|
  {
    if actions == [] then s else Run(Apply(s, actions[0]), actions[1..])
  }

  function Start(): State {
    State([], [], map[])
  }

  lemma StoredAfterSave(entries: seq<Entry>, e: Entry, key: Key)
    ensures Stored(Saved(entries, e), key) == if key == e.key then Some(e.cand) else Stored(entries, key)
  {
    var after, at := Saved(entries, e), FindKey(entries, e.key);
    var i := if at.Some? then at.value else |entries|;
    assert after[i] == e && forall j | 0 <= j < |entries| && j != i :: after[j] == entries[j];
    if key == e.key {
      assert FindKey(after, key) == Some(i);
    } else {
      assert FindKey(after, key) == FindKey(entries, key) by {
        var before := FindKey(entries, key);
        assert before.Some? ==> after[before.value].key == key;
        assert before.None? ==> forall j | 0 <= j < |after| :: after[j].key != key;
      }
    }
  }

  // ---------------------------------------------------------------------------------------
  // The cached result against the history
  // ---------------------------------------------------------------------------------------

  /** The stored record of the key, if there is one, is cleared exactly when the history says it is ready. */
  predicate Agrees(s: State, key: Key) {
    var c := Stored(s.entries, key);
    c.Some? ==> Agreed(c.value, s.trace, key)
  }

  /** An update is about to save, and the record it read and the one now stored differ on being cleared. */
  predicate StaleSave(s: State, a: Action, key: Key) {
    && a.Save? && Enabled(s, a)
    && s.tasks[a.id].read.key == key && s.tasks[a.id].job.Update?
    && (Cleared(s.tasks[a.id].read.cand) <==> !Cleared(Stored(s.entries, key).value))
  }

  /** Whatever is written on another key leaves this one alone. */
  lemma OtherKeyAgrees(s: State, a: Action, key: Key)
    requires Effect(s, a).Some? ==> Effect(s, a).value.0.key != key
    ensures Agrees(Apply(s, a), key) <==> Agrees(s, key)
  {
    var w := Effect(s, a);
    if w.Some? {
      StoredAfterSave(s.entries, w.value.0, key);
      LastDecisionStep(s.trace, w.value.1, key);
    }
  }

  /** One step keeps the agreement if and only if it is not a stale save, whatever else is under way. */
  lemma StepAgreesIff(s: State, a: Action, key: Key)
    requires Agrees(s, key)
    ensures Agrees(Apply(s, a), key) <==> !StaleSave(s, a, key)
  {
    var w := Effect(s, a);
    if w.None? || w.value.0.key != key {
      OtherKeyAgrees(s, a, key);
    } else {
      StoredAfterSave(s.entries, w.value.0, key);
      LastDecisionStep(s.trace, w.value.1, key);
    }
  }

  predicate AlwaysAgrees(s: State, actions: seq<Action>, key: Key)
    decreases |actions|
  {
    Agrees(s, key) && (actions != [] ==> AlwaysAgrees(Apply(s, actions[0]), actions[1..], key))
  }

  predicate NoStaleSave(s: State, actions: seq<Action>, key: Key)
    decreases |actions|
  {
    actions != [] ==> !StaleSave(s, actions[0], key) && NoStaleSave(Apply(s, actions[0]), actions[1..], key)
  }

  lemma {:induction false} AlwaysAgreesFrom(s: State, actions: seq<Action>, key: Key)
    requires Agrees(s, key)
    ensures AlwaysAgrees(s, actions, key) <==> NoStaleSave(s, actions, key)
    decreases |actions|
  {
    if actions != [] {
      StepAgreesIff(s, actions[0], key);
      if !StaleSave(s, actions[0], key) {
        AlwaysAgreesFrom(Apply(s, actions[0]), actions[1..], key);
      }
    }
  }

  /**
   The exact condition, for every interleaving of any number of handlers: the cached result agrees
   with the history at every moment if and only if no update saves a record that differs from the
   stored one on being cleared. That is what a compare-and-swap on status and score would check.
   */
  lemma AgreementIff(actions: seq<Action>, key: Key)
    ensures AlwaysAgrees(Start(), actions, key) <==> NoStaleSave(Start(), actions, key)
  {
    AlwaysAgreesFrom(Start(), actions, key);
  }

  // ---------------------------------------------------------------------------------------
  // The promoted spec
  // ---------------------------------------------------------------------------------------

  predicate SpecIsKept(s: State, key: Key) {
    var c := Stored(s.entries, key);
    c.Some? ==> SpecKept(c.value, s.trace, key)
  }

  lemma UpdatedStep(trace: seq<Event>, e: Event, key: Key, i: nat)
    requires i < |trace|
    ensures UpdatedSince(trace + [e], key, i) <==> UpdatedSince(trace, key, i) || e == Updated(key)
  {
    var all := trace + [e];
    assert all[|trace|] == e;
    if UpdatedSince(trace, key, i) {
      var j :| i < j < |trace| && trace[j] == Updated(key);
      assert all[j] == Updated(key);
    }
  }

  /** No overlap, however stale, separates the stored spec from the evaluated one without an update. */
  lemma {:induction false} StepKeepsSpec(s: State, a: Action, key: Key)
    requires SpecIsKept(s, key)
    ensures SpecIsKept(Apply(s, a), key)
  {
    var w := Effect(s, a);
    if w.Some? {
      StoredAfterSave(s.entries, w.value.0, key);
      LastDecisionStep(s.trace, w.value.1, key);
      if LastDecision(s.trace, key).Some? {
        UpdatedStep(s.trace, w.value.1, key, LastDecision(s.trace, key).value);
      }
    }
  }

  lemma {:induction false} RunKeepsSpec(s: State, actions: seq<Action>, key: Key)
    requires SpecIsKept(s, key)
    ensures SpecIsKept(Run(s, actions), key)
    decreases |actions|
  {
    if actions != [] {
      StepKeepsSpec(s, actions[0], key);
      RunKeepsSpec(Apply(s, actions[0]), actions[1..], key);
    }
  }

  lemma {:induction false} AgreesAtEnd(s: State, actions: seq<Action>, key: Key)
    requires AlwaysAgrees(s, actions, key)
    ensures Agrees(Run(s, actions), key)
    decreases |actions|
  {
    if actions != [] {
      AgreesAtEnd(Apply(s, actions[0]), actions[1..], key);
    }
  }

  /**
   A promotion after any interleaving without a stale save: accepted if and only if the latest
   evaluation saved had passed, no deprecation was saved after it, and the capabilities are
   registered; without an update saved since, what is promoted is the evaluated spec.
   */
  lemma PromotionAfter(actions: seq<Action>, key: Key, registered: set<string>)
    requires NoStaleSave(Start(), actions, key)
    requires Stored(Run(Start(), actions).entries, key).Some?
    ensures var s := Run(Start(), actions);
            var c := Stored(s.entries, key).value;
            && (PromotionOf(c, registered).PendingApproval? <==> Ready(s.trace, key) && AllRegistered(c.spec, registered))
            && SpecKept(c, s.trace, key)
  {
    AgreementIff(actions, key);
    AgreesAtEnd(Start(), actions, key);
    RunKeepsSpec(Start(), actions, key);
  }

  // ---------------------------------------------------------------------------------------
  // The updates themselves
  // ---------------------------------------------------------------------------------------

  /** What the candidate's creation and the updates saved since have asked the spec to be. */
  function Intended(s: State, a: Action, key: Key, spec: Option<SkillSpec>): Option<SkillSpec> {
    if !Enabled(s, a) then spec else
    match a
    case Create(k, created) => if k == key then Some(created) else spec
    case Read(_, _, _, _) => spec
    case Save(id) =>
      if s.tasks[id].read.key == key && s.tasks[id].job.Update? && spec.Some?
      then Some(Patched(spec.value, s.tasks[id].job.body))
      else spec
  }

  function StoredSpec(s: State, key: Key): Option<SkillSpec> {
    var c := Stored(s.entries, key);
    if c.Some? then Some(c.value.spec) else None
  }

  /**
   A whole-record save that undoes or misses an update: an evaluation that read another spec than
   the one now stored, or an update that makes of the spec it read something else than of that one.
   */
  predicate LosesUpdate(s: State, a: Action, key: Key) {
    && a.Save? && Enabled(s, a) && s.tasks[a.id].read.key == key
    && var t, now := s.tasks[a.id], Stored(s.entries, key).value.spec;
       match t.job
       case Update(body) => Patched(t.read.cand.spec, body) != Patched(now, body)
       case Evaluate(_) => t.read.cand.spec != now
       case Deprecate => false
  }

  /** One step leaves the spec as intended if and only if it loses no update. */
  lemma StepIntendedIff(s: State, a: Action, key: Key)
    ensures StoredSpec(Apply(s, a), key) == Intended(s, a, key, StoredSpec(s, key)) <==> !LosesUpdate(s, a, key)
  {
    var w := Effect(s, a);
    if w.Some? {
      StoredAfterSave(s.entries, w.value.0, key);
    }
  }

  predicate AlwaysIntended(s: State, actions: seq<Action>, key: Key, spec: Option<SkillSpec>)
    decreases |actions|
  {
    && StoredSpec(s, key) == spec
    && (actions != [] ==> AlwaysIntended(Apply(s, actions[0]), actions[1..], key, Intended(s, actions[0], key, spec)))
  }

  predicate NoLostUpdate(s: State, actions: seq<Action>, key: Key)
    decreases |actions|
  {
    actions != [] ==> !LosesUpdate(s, actions[0], key) && NoLostUpdate(Apply(s, actions[0]), actions[1..], key)
  }

  lemma {:induction false} AlwaysIntendedFrom(s: State, actions: seq<Action>, key: Key)
    ensures AlwaysIntended(s, actions, key, StoredSpec(s, key)) <==> NoLostUpdate(s, actions, key)
    decreases |actions|
  {
    if actions != [] {
      StepIntendedIff(s, actions[0], key);
      AlwaysIntendedFrom(Apply(s, actions[0]), actions[1..], key);
    }
  }

  /**
   The exact condition, for every interleaving: the stored spec is at every moment what the creation
   and the updates saved so far have made of it, if and only if no whole-record save loses one.
   */
  lemma UpdatesKeptIff(actions: seq<Action>, key: Key)
    ensures AlwaysIntended(Start(), actions, key, None) <==> NoLostUpdate(Start(), actions, key)
  {
    AlwaysIntendedFrom(Start(), actions, key);
  }

  /** An evaluation reads, an update reads and saves, the evaluation saves. */
  function StaleEvaluation(key: Key, body: Patch, registered: set<string>): seq<Action> {
    [Read(0, key.workspace, key.candidateId, Evaluate(registered))]
    + ([Read(1, key.workspace, key.candidateId, Update(body))] + ([Save(1)] + ([Save(0)] + [])))
  }

  /** The update saves first, then the evaluation. */
  lemma EvaluationSavesLast(s: State, key: Key)
    requires s.tasks.Keys == {0, 1} && Stored(s.entries, key).Some?
    requires s.tasks[0].read.key == key && s.tasks[0].job.Evaluate?
    requires s.tasks[1].read.key == key && s.tasks[1].job.Update?
    ensures var t := Apply(Apply(s, Save(1)), Save(0));
            && StoredSpec(t, key) == Some(s.tasks[0].read.cand.spec)
            && t.trace == s.trace + [Updated(key)] + [Evaluated(key, s.tasks[0].read.cand.spec, s.tasks[0].job.registered)]
  {
    var s1 := Apply(s, Save(1));
    StoredAfterSave(s.entries, Effect(s, Save(1)).value.0, key);
    StoredAfterSave(s1.entries, Effect(s1, Save(0)).value.0, key);
  }

  /** The run that loses an update, from every state with the record: the old spec is stored again. */
  lemma EvaluationUndoesUpdate(s: State, at: nat, body: Patch, registered: set<string>)
    requires at < |s.entries| && DistinctKeys(s.entries) && s.tasks == map[]
    ensures var key := s.entries[at].key;
            var t := Run(s, StaleEvaluation(key, body, registered));
            && StoredSpec(t, key) == Some(s.entries[at].cand.spec)
            && t.trace == s.trace + [Updated(key)] + [Evaluated(key, s.entries[at].cand.spec, registered)]
  {
    var key := s.entries[at].key;
    var ws, name := key.workspace, key.candidateId;
    var s1 := Apply(s, Read(0, ws, name, Evaluate(registered)));
    var s2 := BothRead(s, at, Evaluate(registered), Update(body));
    var s3 := Apply(s2, Save(1));
    EvaluationSavesLast(s2, key);
    RunOne(s, Read(0, ws, name, Evaluate(registered)), [Read(1, ws, name, Update(body))] + ([Save(1)] + ([Save(0)] + [])));
    RunOne(s1, Read(1, ws, name, Update(body)), [Save(1)] + ([Save(0)] + []));
    RunOne(s2, Save(1), [Save(0)] + []);
    RunOne(s3, Save(0), []);
  }

  // ---------------------------------------------------------------------------------------
  // Handlers that are not interrupted, and a run that fails
  // ---------------------------------------------------------------------------------------

  lemma RunOne(s: State, a: Action, rest: seq<Action>)
    ensures Run(s, [a] + rest) == Run(Apply(s, a), rest)
  {
    assert ([a] + rest)[1..] == rest;
  }

  /** A read followed at once by its save is the atomic handler, and no stale save. */
  lemma Uninterrupted(s: State, id: nat, workspace: string, name: string, job: Job)
    requires id !in s.tasks && Lookup(s.entries, workspace, name).Some? && DistinctKeys(s.entries)
    ensures var at := Lookup(s.entries, workspace, name).value;
            var t := Task(s.entries[at], job);
            && Run(s, [Read(id, workspace, name, job)] + [Save(id)])
            == State(s.entries[at := s.entries[at].(cand := Written(t, s.entries[at].cand))], s.trace + [EventOf(t)], s.tasks)
            && NoStaleSave(s, [Read(id, workspace, name, job)] + [Save(id)], s.entries[at].key)
            && (var c := s.entries[at].cand;
                match job
                case Update(body) => Written(t, c) == c.(spec := Patched(c.spec, body)) && EventOf(t) == Updated(s.entries[at].key)
                case Evaluate(registered) =>
                  Written(t, c) == AfterEvaluation(c, registered) && EventOf(t) == Evaluated(s.entries[at].key, c.spec, registered)
                case Deprecate => Written(t, c) == c.(status := RETIRED) && EventOf(t) == Deprecated(s.entries[at].key))
  {
    var at := Lookup(s.entries, workspace, name).value;
    var read, save := Read(id, workspace, name, job), Save(id);
    var t := Apply(s, read);
    RunOne(s, read, [save]);
    RunOne(t, save, []);
    assert [save] + [] == [save];
    assert FindKey(s.entries, s.entries[at].key) == Some(at);
    assert ([read] + [save])[1..] == [save];
    assert Apply(t, save).tasks == s.tasks;
  }

  /** Two handlers have both read the record of the key. */
  lemma BothRead(s: State, at: nat, job0: Job, job1: Job) returns (t: State)
    requires at < |s.entries| && DistinctKeys(s.entries) && s.tasks == map[]
    ensures var key := s.entries[at].key;
            && t == Apply(Apply(s, Read(0, key.workspace, key.candidateId, job0)),
                          Read(1, key.workspace, key.candidateId, job1))
            && t == State(s.entries, s.trace, map[0 := Task(s.entries[at], job0), 1 := Task(s.entries[at], job1)])
            && Stored(s.entries, key) == Some(s.entries[at].cand)
  {
    var key := s.entries[at].key;
    assert Lookup(s.entries, key.workspace, key.candidateId) == Some(at) && FindKey(s.entries, key) == Some(at);
    var s1 := Apply(s, Read(0, key.workspace, key.candidateId, job0));
    t := Apply(s1, Read(1, key.workspace, key.candidateId, job1));
  }

  /** The deprecation saves first, then the update. */
  lemma UpdateSavesLast(s: State, key: Key)
    requires s.tasks.Keys == {0, 1} && Stored(s.entries, key).Some?
    requires s.tasks[0].read.key == key && s.tasks[0].job.Update?
    requires s.tasks[1].read.key == key && s.tasks[1].job.Deprecate?
    ensures var t := Apply(Apply(s, Save(1)), Save(0));
            && LastDecision(t.trace, key) == Some(|s.trace|) && t.trace[|s.trace|] == Deprecated(key)
            && Stored(t.entries, key) == Some(s.tasks[0].read.cand.(spec := Patched(s.tasks[0].read.cand.spec, s.tasks[0].job.body)))
  {
    var s1 := Apply(s, Save(1));
    StoredAfterSave(s.entries, Effect(s, Save(1)).value.0, key);
    LastDecisionStep(s.trace, Deprecated(key), key);
    StoredAfterSave(s1.entries, Effect(s1, Save(0)).value.0, key);
    LastDecisionStep(s1.trace, Updated(key), key);
  }

  /** Read by the update, read by the deprecation, saved by the deprecation, saved by the update. */
  function StaleUpdate(key: Key, body: Patch): seq<Action> {
    [Read(0, key.workspace, key.candidateId, Update(body))]
    + ([Read(1, key.workspace, key.candidateId, Deprecate)] + ([Save(1)] + ([Save(0)] + [])))
  }

  /**
   The run that fails, from every state with a cleared record: an update reads it, a deprecation
   reads it and saves, the update saves. The candidate is promoted although the latest decision
   about it is its deprecation.
   */
  lemma DeprecatedIsPromoted(s: State, at: nat, body: Patch, registered: set<string>)
    requires at < |s.entries| && DistinctKeys(s.entries) && Cleared(s.entries[at].cand) && s.tasks == map[]
    requires AllRegistered(Patched(s.entries[at].cand.spec, body), registered)
    ensures var key := s.entries[at].key;
            var t := Run(s, StaleUpdate(key, body));
            && LastDecision(t.trace, key).Some? && t.trace[LastDecision(t.trace, key).value] == Deprecated(key)
            && Stored(t.entries, key).Some? && PromotionOf(Stored(t.entries, key).value, registered).PendingApproval?
  {
    var key := s.entries[at].key;
    var ws, name := key.workspace, key.candidateId;
    var s1 := Apply(s, Read(0, ws, name, Update(body)));
    var s2 := BothRead(s, at, Update(body), Deprecate);
    UpdateSavesLast(s2, key);
    RunOne(s, Read(0, ws, name, Update(body)), [Read(1, ws, name, Deprecate)] + ([Save(1)] + ([Save(0)] + [])));
    RunOne(s1, Read(1, ws, name, Deprecate), [Save(1)] + ([Save(0)] + []));
    RunOne(s2, Save(1), [Save(0)] + []);
    RunOne(Apply(s2, Save(1)), Save(0), []);
  }

  /** A handler that reads and saves without interruption. */
  function Call(key: Key, job: Job): seq<Action> {
    [Read(0, key.workspace, key.candidateId, job)] + [Save(0)]
  }

  /** A candidate that is created and evaluated by itself is such a state. */
  lemma CreatedAndEvaluated(key: Key, spec: SkillSpec, registered: set<string>)
    requires WithinBoundary(spec, registered)
    ensures var t := Run(Start(), [Create(key, spec)] + Call(key, Evaluate(registered)));
            && |t.entries| == 1 && t.entries[0].key == key && t.entries[0].cand.spec == spec
            && Cleared(t.entries[0].cand) && t.tasks == map[]
  {
    RunOne(Start(), Create(key, spec), Call(key, Evaluate(registered)));
    var s := Apply(Start(), Create(key, spec));
    assert s.entries == [Entry(key, Candidate(spec, 0, 0.0, CANDIDATE))];
    Uninterrupted(s, 0, key.workspace, key.candidateId, Evaluate(registered));
  }

  lemma {:induction false} RunConcat(s: State, a: seq<Action>, b: seq<Action>)
    ensures Run(s, a + b) == Run(Run(s, a), b)
    decreases |a|
  {
    if a == [] {
      assert a + b == b;
    } else {
      assert (a + b)[1..] == a[1..] + b;
      RunConcat(Apply(s, a[0]), a[1..], b);
    }
  }

  /**
   Even without overlap the cached score can describe another spec than the one promoted. Create,
   evaluate, update: the promotion is accepted if the new capabilities are registered, and what is
   promoted is within the boundary if and only if none of them is prohibited.
   */
  lemma StaleScoreIsPromoted(key: Key, spec: SkillSpec, body: Patch, registered: set<string>)
    requires WithinBoundary(spec, registered) && AllRegistered(Patched(spec, body), registered)
    ensures var t := Run(Start(), [Create(key, spec)] + Call(key, Evaluate(registered)) + Call(key, Update(body)));
            var promoted := Patched(spec, body);
            && Stored(t.entries, key).Some?
            && PromotionOf(Stored(t.entries, key).value, registered) == PendingApproval(promoted)
            && (WithinBoundary(promoted, registered) <==>
                forall i | 0 <= i < |promoted.capabilities| :: !Prohibited(promoted.capabilities[i]))
  {
    var evaluated := Run(Start(), [Create(key, spec)] + Call(key, Evaluate(registered)));
    CreatedAndEvaluated(key, spec, registered);
    RunConcat(Start(), [Create(key, spec)] + Call(key, Evaluate(registered)), Call(key, Update(body)));
    assert Lookup(evaluated.entries, key.workspace, key.candidateId) == Some(0);
    Uninterrupted(evaluated, 0, key.workspace, key.candidateId, Update(body));
  }

  /** Such an update: a registered capability whose name is a prohibited token. */
  lemma PayoutIsPromoted(key: Key, spec: SkillSpec)
    requires spec.capabilities == [] && WithinBoundary(spec, {"payout"})
    ensures var body := Patch(None, None, None, None, None, Some(["payout"]), None);
            var t := Run(Start(), [Create(key, spec)] + Call(key, Evaluate({"payout"})) + Call(key, Update(body)));
            && Stored(t.entries, key).Some?
            && var r := PromotionOf(Stored(t.entries, key).value, {"payout"});
               r.PendingApproval? && !WithinBoundary(r.spec, {"payout"})
  {
    var token := "payout";
    var body := Patch(None, None, None, None, None, Some([token]), None);
    assert Contains(token, token) && token in PROHIBITED_TOKENS && Prohibited(token);
    assert Patched(spec, body).capabilities[0] == token;
    StaleScoreIsPromoted(key, spec, body, {token});
  }
}
