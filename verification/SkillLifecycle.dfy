/** The deterministic boundary check behind `/evaluate` for workspace-custom skills. */
module SkillEvaluation {
  const ALLOWED_CEILINGS: set<string> := {"L0_OBSERVE", "L1_PROPOSE"}
  const ALLOWED_SIDE_EFFECTS: set<string> := {"R", "A"}
  const PROHIBITED_TOKENS: set<string> :=
    {"connector", "payout", "transaction.record", "message.send", "lifecycle", "venture_stage"}

  datatype SkillSpec = SkillSpec(
    id: string,
    version: string,
    name: string,
    description: string,
    instructions: string,
    category: string,
    ceiling: string,
    sideEffect: string,
    capabilities: seq<string>)

  /** Substring containment. */
  predicate Contains(s: string, token: string) {
    token <= s || (s != [] && Contains(s[1..], token))
  }

  /** The token stands at position i of the text. */
  predicate SliceAt(s: string, token: string, i: int) {
    0 <= i && i + |token| <= |s| && s[i..i + |token|] == token
  }

  lemma {:induction false} ContainsIff(s: string, token: string)
    ensures Contains(s, token) <==> exists i :: SliceAt(s, token, i)
  {
    SliceAtHead(s, token);
    if s != [] {
      ContainsIff(s[1..], token);
      if Contains(s[1..], token) {
        var i :| SliceAt(s[1..], token, i);
        SliceFurther(s, token, i);
      }
      if i :| SliceAt(s, token, i) && i > 0 {
        SliceFurther(s, token, i - 1);
      }
    }
  }

  lemma {:induction false} SliceAtHead(s: string, token: string)
    ensures token <= s <==> SliceAt(s, token, 0)
  {
    if |token| <= |s| {
      assert s[0..|token|] == s[..|token|];
    }
  }

  lemma {:induction false} SliceFurther(s: string, token: string, i: nat)
    requires s != []
    ensures SliceAt(s[1..], token, i) <==> SliceAt(s, token, i + 1)
  {
    var tail, n := s[1..], |token|;
    if i + n <= |tail| {
      var a, b := tail[i..i + n], s[i + 1..i + 1 + n];
      forall j | 0 <= j < n ensures a[j] == b[j] {
        assert a[j] == tail[i + j] && b[j] == s[i + 1 + j];
      }
      assert a == b;
    }
  }

  /** A capability is prohibited exactly when one of the tokens stands anywhere in it. */
  lemma ProhibitedIff(capability: string)
    ensures Prohibited(capability) <==> exists token, i | token in PROHIBITED_TOKENS :: SliceAt(capability, token, i)
  {
    forall token ensures Contains(capability, token) <==> exists i :: SliceAt(capability, token, i) {
      ContainsIff(capability, token);
    }
  }

  predicate Prohibited(capability: string) {
    exists token | token in PROHIBITED_TOKENS :: Contains(capability, token)
  }

  predicate CapabilityOk(capability: string, registered: set<string>) {
    capability in registered && !Prohibited(capability)
  }

  /** Every boundary case holds of the spec. */
  predicate WithinBoundary(spec: SkillSpec, registered: set<string>) {
    && spec.ceiling in ALLOWED_CEILINGS
    && spec.sideEffect in ALLOWED_SIDE_EFFECTS
    && forall i | 0 <= i < |spec.capabilities| :: CapabilityOk(spec.capabilities[i], registered)
  }

  /** The boundary, told from the letters of the capabilities. */
  lemma BoundaryMeans(spec: SkillSpec, registered: set<string>)
    ensures WithinBoundary(spec, registered) <==>
              && spec.ceiling in ALLOWED_CEILINGS && spec.sideEffect in ALLOWED_SIDE_EFFECTS
              && (forall k | 0 <= k < |spec.capabilities| :: spec.capabilities[k] in registered)
              && forall k, token, i | 0 <= k < |spec.capabilities| && token in PROHIBITED_TOKENS ::
                   !SliceAt(spec.capabilities[k], token, i)
  {
    forall k | 0 <= k < |spec.capabilities|
      ensures Prohibited(spec.capabilities[k]) <==>
                exists token, i | token in PROHIBITED_TOKENS :: SliceAt(spec.capabilities[k], token, i)
    {
      ProhibitedIff(spec.capabilities[k]);
    }
  }

  /** One case of the report; `rejected` is the good outcome: the violation was turned down. */
  datatype Case = Case(id: CaseId, rejected: bool, detail: string)

  datatype CaseId = CeilingWithinBoundary | SideEffectWithinBoundary | CapabilityRegistered | CapabilityWithinBoundary

  /** The case of one capability: only a registered capability can be reported as out of bounds. */
  function CapabilityCase(capability: string, registered: set<string>): Case {
    var outOfBounds := capability in registered && Prohibited(capability);
    Case(if outOfBounds then CapabilityWithinBoundary else CapabilityRegistered,
         CapabilityOk(capability, registered), capability)
  }

  /** How many cases of a report went wrong. */
  function Accepts(cases: seq<Case>): nat {
    if cases == [] then 0
    else Accepts(cases[..|cases| - 1]) + if cases[|cases| - 1].rejected then 0 else 1
  }

  lemma AcceptsAppend(cases: seq<Case>, c: Case)
    ensures Accepts(cases + [c]) == Accepts(cases) + if c.rejected then 0 else 1
  {
    assert (cases + [c])[..|cases|] == cases;
  }

  lemma {:induction false} NothingAccepted(cases: seq<Case>)
    ensures Accepts(cases) == 0 <==> forall i | 0 <= i < |cases| :: cases[i].rejected
  {
    if cases != [] {
      var n := |cases| - 1;
      NothingAccepted(cases[..n]);
      assert forall i | 0 <= i < n :: cases[..n][i] == cases[i];
    }
  }

  /** The cases of the capabilities, in order. */
  function CaseList(capabilities: seq<string>, registered: set<string>): (r: seq<Case>)
    ensures |r| == |capabilities|
  {
    if capabilities == [] then []
    else
      var n := |capabilities| - 1;
      CaseList(capabilities[..n], registered) + [CapabilityCase(capabilities[n], registered)]
  }

  lemma {:induction false} CaseListAt(capabilities: seq<string>, registered: set<string>, i: nat)
    requires i < |capabilities|
    ensures CaseList(capabilities, registered)[i] == CapabilityCase(capabilities[i], registered)
  {
    var n := |capabilities| - 1;
    if i < n {
      CaseListAt(capabilities[..n], registered, i);
      assert capabilities[..n][i] == capabilities[i];
    }
  }

  /**
   Runs the cases in order and scores 1 or 0. The score is 1 exactly when the spec is within the
   boundary; the report has one case per check, and one failure per case that went wrong.
   */
  method RunEvaluation(spec: SkillSpec, registered: set<string>)
    returns (score: real, cases: seq<Case>, failures: seq<string>)
    ensures score == 1.0 || score == 0.0
    ensures score == 1.0 <==> WithinBoundary(spec, registered)
    ensures score == 1.0 <==>
              && spec.ceiling in ALLOWED_CEILINGS && spec.sideEffect in ALLOWED_SIDE_EFFECTS
              && (forall k | 0 <= k < |spec.capabilities| :: spec.capabilities[k] in registered)
              && forall k, token, i | 0 <= k < |spec.capabilities| && token in PROHIBITED_TOKENS ::
                   !SliceAt(spec.capabilities[k], token, i)
    ensures score == 1.0 <==> failures == []
    ensures |failures| == Accepts(cases)
    ensures |cases| == 2 + |spec.capabilities|
    ensures cases[0] == Case(CeilingWithinBoundary, spec.ceiling in ALLOWED_CEILINGS, spec.ceiling)
    ensures cases[1] == Case(SideEffectWithinBoundary, spec.sideEffect in ALLOWED_SIDE_EFFECTS, spec.sideEffect)
    ensures forall i | 0 <= i < |spec.capabilities| :: cases[2 + i] == CapabilityCase(spec.capabilities[i], registered)
  {
    cases, failures := [], [];
    cases, failures := AddCase(cases, failures, CeilingWithinBoundary, spec.ceiling in ALLOWED_CEILINGS, spec.ceiling);
    cases, failures := AddCase(cases, failures, SideEffectWithinBoundary, spec.sideEffect in ALLOWED_SIDE_EFFECTS, spec.sideEffect);
    ghost var start := cases;
    for i := 0 to |spec.capabilities|
      invariant cases == start + CaseList(spec.capabilities[..i], registered) && |failures| == Accepts(cases)
    {
      assert spec.capabilities[..i + 1][..i] == spec.capabilities[..i];
      cases, failures := AddCapability(cases, failures, spec.capabilities[i], registered);
    }
    assert spec.capabilities[..|spec.capabilities|] == spec.capabilities;
    Verdict(spec, registered, start, cases);
    BoundaryMeans(spec, registered);
    score := if failures == [] then 1.0 else 0.0;
  }

  /** A report without an accepted case is that of a spec within the boundary. */
  lemma Verdict(spec: SkillSpec, registered: set<string>, start: seq<Case>, cases: seq<Case>)
    requires |start| == 2 && cases == start + CaseList(spec.capabilities, registered)
    requires start[0].rejected <==> spec.ceiling in ALLOWED_CEILINGS
    requires start[1].rejected <==> spec.sideEffect in ALLOWED_SIDE_EFFECTS
    ensures Accepts(cases) == 0 <==> WithinBoundary(spec, registered)
    ensures forall i | 0 <= i < |spec.capabilities| :: cases[2 + i] == CapabilityCase(spec.capabilities[i], registered)
  {
    NothingAccepted(start);
    AcceptsConcat(start, CaseList(spec.capabilities, registered));
    CapabilitiesRejected(spec.capabilities, registered);
    forall i | 0 <= i < |spec.capabilities| ensures cases[2 + i] == CapabilityCase(spec.capabilities[i], registered) {
      CaseListAt(spec.capabilities, registered, i);
    }
  }

  lemma {:induction false} AcceptsConcat(a: seq<Case>, b: seq<Case>)
    ensures Accepts(a + b) == Accepts(a) + Accepts(b)
    decreases |b|
  {
    if b == [] {
      assert a + b == a;
    } else {
      assert (a + b)[..|a + b| - 1] == a + b[..|b| - 1];
      AcceptsConcat(a, b[..|b| - 1]);
    }
  }

  lemma CapabilitiesRejected(capabilities: seq<string>, registered: set<string>)
    ensures Accepts(CaseList(capabilities, registered)) == 0 <==>
              forall i | 0 <= i < |capabilities| :: CapabilityOk(capabilities[i], registered)
  {
    var list := CaseList(capabilities, registered);
    NothingAccepted(list);
    forall i | 0 <= i < |capabilities| ensures list[i].rejected <==> CapabilityOk(capabilities[i], registered) {
      CaseListAt(capabilities, registered, i);
    }
  }

  method AddCapability(cases: seq<Case>, failures: seq<string>, capability: string, registered: set<string>)
    returns (cases': seq<Case>, failures': seq<string>)
    requires |failures| == Accepts(cases)
    ensures cases' == cases + [CapabilityCase(capability, registered)] && |failures'| == Accepts(cases')
  {
    if capability !in registered {
      cases', failures' := AddCase(cases, failures, CapabilityRegistered, false, capability);
    } else if Prohibited(capability) {
      cases', failures' := AddCase(cases, failures, CapabilityWithinBoundary, false, capability);
    } else {
      cases', failures' := AddCase(cases, failures, CapabilityRegistered, true, capability);
    }
  }

  method AddCase(cases: seq<Case>, failures: seq<string>, id: CaseId, rejected: bool, detail: string)
    returns (cases': seq<Case>, failures': seq<string>)
    requires |failures| == Accepts(cases)
    ensures cases' == cases + [Case(id, rejected, detail)] && |failures'| == Accepts(cases')
  {
    cases', failures' := cases + [Case(id, rejected, detail)], failures;
    AcceptsAppend(cases, Case(id, rejected, detail));
    if !rejected {
      failures' := failures + [detail];
    }
  }
}

/** The life of a skill candidate: create, evaluate, update, deprecate, promote. */
module SkillLifecycle {
  import opened Options
  import opened SkillEvaluation

  const PROMOTION_EVAL_THRESHOLD: real := 0.8

  datatype Status = DRAFT | CANDIDATE | EVALUATED | APPROVED | PUBLISHED | RETIRED

  datatype Candidate = Candidate(spec: SkillSpec, reports: nat, score: real, status: Status)

  /** Candidates are stored by workspace and candidate id. */
  datatype Key = Key(workspace: string, candidateId: string)

  datatype Entry = Entry(key: Key, cand: Candidate)

  /** The fields an update may carry. */
  datatype Patch = Patch(
    name: Option<string>,
    description: Option<string>,
    instructions: Option<string>,
    domain: Option<string>,
    toolPermissions: Option<seq<string>>,
    requiredCapabilities: Option<seq<string>>,
    version: Option<string>)

  predicate Given(s: Option<string>) {
    s.Some? && s.value != ""
  }

  /** What an update makes of a spec: its id, ceiling and side effect are out of reach. */
  function Patched(spec: SkillSpec, b: Patch): (r: SkillSpec)
    ensures r.id == spec.id && r.ceiling == spec.ceiling && r.sideEffect == spec.sideEffect
  {
    var s1 := if Given(b.name) then spec.(name := b.name.value) else spec;
    var s2 := if b.description.Some? then s1.(description := b.description.value) else s1;
    var s3 := if Given(b.instructions) then s2.(instructions := b.instructions.value) else s2;
    var s4 := if Given(b.domain) then s3.(category := b.domain.value) else s3;
    var s5 := if b.toolPermissions.Some? then s4.(capabilities := b.toolPermissions.value) else s4;
    var s6 := if b.requiredCapabilities.Some? then s5.(capabilities := b.requiredCapabilities.value) else s5;
    if Given(b.version) then s6.(version := b.version.value) else s6
  }

  /** Field by field: an empty name, instruction, domain or version is not a change, an empty description is. */
  lemma PatchedFields(spec: SkillSpec, b: Patch)
    ensures var r := Patched(spec, b);
            && r.name == (if b.name.None? || b.name.value == "" then spec.name else b.name.value)
            && r.description == (if b.description.None? then spec.description else b.description.value)
            && r.instructions == (if b.instructions.None? || b.instructions.value == "" then spec.instructions else b.instructions.value)
            && r.category == (if b.domain.None? || b.domain.value == "" then spec.category else b.domain.value)
            && r.version == (if b.version.None? || b.version.value == "" then spec.version else b.version.value)
            && r.capabilities == (if b.requiredCapabilities.Some? then b.requiredCapabilities.value
                                  else if b.toolPermissions.Some? then b.toolPermissions.value
                                  else spec.capabilities)
  {
  }

  datatype Promotion = NotFound | NotEvaluated | BelowThreshold | UnknownCapabilities | PendingApproval(spec: SkillSpec)

  predicate AllRegistered(spec: SkillSpec, registered: set<string>) {
    forall i | 0 <= i < |spec.capabilities| :: spec.capabilities[i] in registered
  }

  /** The candidate passes the two checks on its cached evaluation. */
  predicate Cleared(c: Candidate) {
    c.status == EVALUATED && c.score >= PROMOTION_EVAL_THRESHOLD
  }

  function PromotionOf(c: Candidate, registered: set<string>): Promotion {
    if c.status != EVALUATED then NotEvaluated
    else if c.score < PROMOTION_EVAL_THRESHOLD then BelowThreshold
    else if !AllRegistered(c.spec, registered) then UnknownCapabilities
    else PendingApproval(c.spec)
  }

  function AfterEvaluation(c: Candidate, registered: set<string>): Candidate {
    var passed := WithinBoundary(c.spec, registered);
    c.(score := if passed then 1.0 else 0.0,
       reports := c.reports + 1,
       status := if passed then EVALUATED else c.status)
  }

  // ---------------------------------------------------------------------------------------
  // What the history says
  // ---------------------------------------------------------------------------------------

  datatype Event =
    | Created(key: Key)
    | Evaluated(key: Key, spec: SkillSpec, registered: set<string>)
    | Updated(key: Key)
    | Deprecated(key: Key)
    | Promoted(key: Key, spec: SkillSpec)

  predicate Decides(e: Event, key: Key) {
    e.key == key && (e.Created? || e.Evaluated? || e.Deprecated?)
  }

  /** The latest creation, evaluation or deprecation of the candidate. */
  function LastDecision(trace: seq<Event>, key: Key): (r: Option<nat>)
    ensures r.Some? ==> r.value < |trace| && Decides(trace[r.value], key)
    ensures r.Some? ==> forall j | r.value < j < |trace| :: !Decides(trace[j], key)
    ensures r.None? ==> forall j | 0 <= j < |trace| :: !Decides(trace[j], key)
  {
    if trace == [] then None
    else if Decides(trace[|trace| - 1], key) then Some(|trace| - 1)
    else LastDecision(trace[..|trace| - 1], key)
  }

  /** The latest evaluation of the candidate passed, and it was not deprecated after it. */
  predicate Ready(trace: seq<Event>, key: Key) {
    var r := LastDecision(trace, key);
    && r.Some? && trace[r.value].Evaluated?
    && WithinBoundary(trace[r.value].spec, trace[r.value].registered)
  }

  predicate UpdatedSince(trace: seq<Event>, key: Key, i: nat) {
    exists j | i < j < |trace| :: trace[j] == Updated(key)
  }

  lemma LastDecisionStep(trace: seq<Event>, e: Event, key: Key)
    ensures LastDecision(trace + [e], key) == if Decides(e, key) then Some(|trace|) else LastDecision(trace, key)
  {
    assert (trace + [e])[..|trace|] == trace;
  }

  /** The cached score and status agree with the history. */
  predicate Agreed(c: Candidate, trace: seq<Event>, key: Key) {
    Cleared(c) <==> Ready(trace, key)
  }

  /** The spec is the evaluated one until it is updated. */
  predicate SpecKept(c: Candidate, trace: seq<Event>, key: Key) {
    Ready(trace, key) ==>
      var i := LastDecision(trace, key).value;
      !UpdatedSince(trace, key, i) ==> c.spec == trace[i].spec
  }

  /** No update touches the ceiling or the side effect. */
  predicate BoundsKept(c: Candidate, trace: seq<Event>, key: Key) {
    Ready(trace, key) ==>
      var i := LastDecision(trace, key).value;
      c.spec.ceiling == trace[i].spec.ceiling && c.spec.sideEffect == trace[i].spec.sideEffect
  }

  predicate EntryOk(e: Entry, trace: seq<Event>) {
    Agreed(e.cand, trace, e.key) && SpecKept(e.cand, trace, e.key) && BoundsKept(e.cand, trace, e.key)
  }

  /** An event of another candidate, or a promotion, changes nothing about this one. */
  lemma OtherEvent(e: Entry, trace: seq<Event>, ev: Event)
    requires EntryOk(e, trace) && (ev.key != e.key || ev.Promoted?)
    ensures EntryOk(e, trace + [ev])
  {
    LastDecisionStep(trace, ev, e.key);
    if Ready(trace, e.key) && UpdatedSince(trace, e.key, LastDecision(trace, e.key).value) {
      var j :| LastDecision(trace, e.key).value < j < |trace| && trace[j] == Updated(e.key);
      assert (trace + [ev])[j] == Updated(e.key);
    }
  }

  lemma EvaluationEvent(e: Entry, trace: seq<Event>, registered: set<string>)
    requires EntryOk(e, trace)
    ensures EntryOk(e.(cand := AfterEvaluation(e.cand, registered)),
                    trace + [Evaluated(e.key, e.cand.spec, registered)])
  {
    LastDecisionStep(trace, Evaluated(e.key, e.cand.spec, registered), e.key);
  }

  lemma UpdateEvent(e: Entry, trace: seq<Event>, b: Patch)
    requires EntryOk(e, trace)
    ensures EntryOk(e.(cand := e.cand.(spec := Patched(e.cand.spec, b))), trace + [Updated(e.key)])
  {
    LastDecisionStep(trace, Updated(e.key), e.key);
    assert (trace + [Updated(e.key)])[|trace|] == Updated(e.key);
  }

  lemma DeprecationEvent(e: Entry, trace: seq<Event>)
    requires EntryOk(e, trace)
    ensures EntryOk(e.(cand := e.cand.(status := RETIRED)), trace + [Deprecated(e.key)])
  {
    LastDecisionStep(trace, Deprecated(e.key), e.key);
  }

  lemma CreationEvent(key: Key, c: Candidate, trace: seq<Event>)
    requires !Cleared(c)
    ensures EntryOk(Entry(key, c), trace + [Created(key)])
  {
    LastDecisionStep(trace, Created(key), key);
  }

  /** What `Ready` says, spelled out. */
  lemma ReadyMeans(trace: seq<Event>, key: Key)
    ensures Ready(trace, key) <==>
              exists i | 0 <= i < |trace| ::
                && trace[i].Evaluated? && trace[i].key == key
                && WithinBoundary(trace[i].spec, trace[i].registered)
                && forall j | i < j < |trace| :: !Decides(trace[j], key)
  {
    forall i | 0 <= i < |trace| && trace[i].Evaluated? && trace[i].key == key
               && forall j | i < j < |trace| :: !Decides(trace[j], key)
      ensures LastDecision(trace, key) == Some(i)
    {
      assert Decides(trace[i], key);
    }
  }

  // ---------------------------------------------------------------------------------------
  // The handlers
  // ---------------------------------------------------------------------------------------

  predicate DistinctKeys(entries: seq<Entry>) {
    forall i, j | 0 <= i < j < |entries| :: entries[i].key != entries[j].key
  }

  function FindKey(entries: seq<Entry>, key: Key): (r: Option<nat>)
    ensures r.Some? ==> r.value < |entries| && entries[r.value].key == key
    ensures r.Some? ==> forall j | 0 <= j < r.value :: entries[j].key != key
    ensures r.None? ==> forall i | 0 <= i < |entries| :: entries[i].key != key
  {
    Search(entries, (e: Entry) => e.key == key)
  }

  /**
   `get_candidate`: never outside the workspace; a candidate id wins over a skill id, and of several
   candidates for a skill the first is taken.
   */
  function Lookup(entries: seq<Entry>, workspace: string, name: string): (r: Option<nat>)
    ensures r.Some? ==> r.value < |entries| && entries[r.value].key.workspace == workspace
    ensures (exists i | 0 <= i < |entries| :: entries[i].key == Key(workspace, name)) ==>
              r.Some? && entries[r.value].key == Key(workspace, name)
    ensures r.Some? && entries[r.value].key != Key(workspace, name) ==>
              && entries[r.value].cand.spec.id == name
              && forall j | 0 <= j < r.value :: !(entries[j].key.workspace == workspace && entries[j].cand.spec.id == name)
    ensures r.None? ==>
              forall j | 0 <= j < |entries| :: !(entries[j].key.workspace == workspace && entries[j].cand.spec.id == name)
  {
    var byKey := FindKey(entries, Key(workspace, name));
    if byKey.Some? then byKey else Search(entries, (e: Entry) => e.key.workspace == workspace && e.cand.spec.id == name)
  }

  /** `save_candidate`: overwrites the entry with this key or adds one at the end. */
  function Saved(entries: seq<Entry>, e: Entry): seq<Entry> {
    var at := FindKey(entries, e.key);
    if at.Some? then entries[at.value := e] else entries + [e]
  }

  class Registry {
    var entries: seq<Entry>
    ghost var trace: seq<Event>

    constructor ()
      ensures Valid() && entries == [] && trace == []
    {
      entries, trace := [], [];
    }

    ghost predicate Valid()
      reads this
    {
      DistinctKeys(entries) && forall i | 0 <= i < |entries| :: EntryOk(entries[i], trace)
    }

    /** Replaces entry i and records the event; everything else keeps agreeing with the history. */
    method Put(i: nat, cand: Candidate, ghost ev: Event)
      requires Valid() && i < |entries| && ev.key == entries[i].key
      requires EntryOk(entries[i].(cand := cand), trace + [ev])
      modifies this
      ensures Valid() && trace == old(trace) + [ev]
      ensures entries == old(entries)[i := old(entries)[i].(cand := cand)]
    {
      forall j | 0 <= j < |entries| && j != i ensures EntryOk(entries[j], trace + [ev]) {
        OtherEvent(entries[j], trace, ev);
      }
      entries := entries[i := entries[i].(cand := cand)];
      trace := trace + [ev];
    }

    /** Only `workspace_custom` candidates can be created; they start unevaluated. */
    method CreateCandidate(key: Key, spec: SkillSpec, scope: string) returns (ok: bool)
      requires Valid()
      modifies this
      ensures Valid()
      ensures ok <==> scope == "" || scope == "workspace_custom"
      ensures !ok ==> entries == old(entries) && trace == old(trace)
      ensures ok ==>
                && trace == old(trace) + [Created(key)]
                && entries == Saved(old(entries), Entry(key, Candidate(spec, 0, 0.0, CANDIDATE)))
    {
      ok := scope == "" || scope == "workspace_custom";
      if !ok {
        return;
      }
      var cand := Candidate(spec, 0, 0.0, CANDIDATE);
      CreationEvent(key, cand, trace);
      var at := FindKey(entries, key);
      if at.Some? {
        Put(at.value, cand, Created(key));
      } else {
        forall j | 0 <= j < |entries| ensures EntryOk(entries[j], trace + [Created(key)]) {
          OtherEvent(entries[j], trace, Created(key));
        }
        entries := entries + [Entry(key, cand)];
        trace := trace + [Created(key)];
      }
    }

    method Evaluate(workspace: string, name: string, registered: set<string>) returns (found: bool, score: real)
      requires Valid()
      modifies this
      ensures Valid()
      ensures var at := Lookup(old(entries), workspace, name);
              && (found <==> at.Some?)
              && (!found ==> entries == old(entries) && trace == old(trace))
              && (found ==>
                    var e := old(entries)[at.value];
                    && (score == 1.0 <==> WithinBoundary(e.cand.spec, registered))
                    && trace == old(trace) + [Evaluated(e.key, e.cand.spec, registered)]
                    && entries == old(entries)[at.value := e.(cand := AfterEvaluation(e.cand, registered))])
    {
      var at := Lookup(entries, workspace, name);
      found, score := at.Some?, 0.0;
      if at.Some? {
        var e := entries[at.value];
        var cases, failures;
        score, cases, failures := RunEvaluation(e.cand.spec, registered);
        var cand := e.cand.(score := score, reports := e.cand.reports + 1);
        if score >= PROMOTION_EVAL_THRESHOLD {
          cand := cand.(status := EVALUATED);
        }
        EvaluationEvent(e, trace, registered);
        Put(at.value, cand, Evaluated(e.key, e.cand.spec, registered));
      }
    }

    method Update(workspace: string, name: string, body: Patch) returns (found: bool)
      requires Valid()
      modifies this
      ensures Valid()
      ensures var at := Lookup(old(entries), workspace, name);
              && (found <==> at.Some?)
              && (!found ==> entries == old(entries) && trace == old(trace))
              && (found ==>
                    var e := old(entries)[at.value];
                    && trace == old(trace) + [Updated(e.key)]
                    && entries == old(entries)[at.value := e.(cand := e.cand.(spec := Patched(e.cand.spec, body)))])
    {
      var at := Lookup(entries, workspace, name);
      found := at.Some?;
      if at.Some? {
        var e := entries[at.value];
        var spec := e.cand.spec;
        if Given(body.name) { spec := spec.(name := body.name.value); }
        if body.description.Some? { spec := spec.(description := body.description.value); }
        if Given(body.instructions) { spec := spec.(instructions := body.instructions.value); }
        if Given(body.domain) { spec := spec.(category := body.domain.value); }
        if body.toolPermissions.Some? { spec := spec.(capabilities := body.toolPermissions.value); }
        if body.requiredCapabilities.Some? { spec := spec.(capabilities := body.requiredCapabilities.value); }
        if Given(body.version) { spec := spec.(version := body.version.value); }
        UpdateEvent(e, trace, body);
        Put(at.value, e.cand.(spec := spec), Updated(e.key));
      }
    }

    method Deprecate(workspace: string, name: string) returns (found: bool)
      requires Valid()
      modifies this
      ensures Valid()
      ensures var at := Lookup(old(entries), workspace, name);
              && (found <==> at.Some?)
              && (!found ==> entries == old(entries) && trace == old(trace))
              && (found ==>
                    var e := old(entries)[at.value];
                    && trace == old(trace) + [Deprecated(e.key)]
                    && entries == old(entries)[at.value := e.(cand := e.cand.(status := RETIRED))])
    {
      var at := Lookup(entries, workspace, name);
      found := at.Some?;
      if at.Some? {
        var e := entries[at.value];
        DeprecationEvent(e, trace);
        Put(at.value, e.cand.(status := RETIRED), Deprecated(e.key));
      }
    }

    /**
     A promotion is accepted if and only if the latest evaluation of the candidate passed, it has
     not been deprecated since, and all its capabilities are registered now. If it has not been
     updated since that evaluation either, the promoted spec is the evaluated one and meets every
     boundary case it was evaluated on. In any case, what is promoted is within the boundary now if
     and only if none of its capabilities is prohibited: the promotion does not look.
     */
    method Promote(workspace: string, name: string, registered: set<string>) returns (r: Promotion)
      requires Valid()
      modifies this`trace
      ensures Valid() && entries == old(entries)
      ensures r.NotFound? <==> Lookup(entries, workspace, name).None?
      ensures !r.NotFound? ==>
                var e := entries[Lookup(entries, workspace, name).value];
                && (r.PendingApproval? <==> Ready(old(trace), e.key) && AllRegistered(e.cand.spec, registered))
                && (r.UnknownCapabilities? <==> Ready(old(trace), e.key) && !AllRegistered(e.cand.spec, registered))
                && (r.NotEvaluated? <==> e.cand.status != EVALUATED)
                && (r.PendingApproval? ==> r.spec == e.cand.spec && trace == old(trace) + [Promoted(e.key, r.spec)])
      ensures r.PendingApproval? ==>
                var e := entries[Lookup(entries, workspace, name).value];
                var i := LastDecision(old(trace), e.key).value;
                !UpdatedSince(old(trace), e.key, i) ==>
                  r.spec == old(trace)[i].spec && WithinBoundary(r.spec, old(trace)[i].registered)
      ensures r.PendingApproval? ==>
                (WithinBoundary(r.spec, registered) <==>
                 forall i | 0 <= i < |r.spec.capabilities| :: !Prohibited(r.spec.capabilities[i]))
      ensures !r.PendingApproval? ==> trace == old(trace)
    {
      var at := Lookup(entries, workspace, name);
      if at.None? {
        return NotFound;
      }
      var e := entries[at.value];
      assert EntryOk(e, trace);
      r := PromotionOf(e.cand, registered);
      if r.PendingApproval? {
        forall j | 0 <= j < |entries| ensures EntryOk(entries[j], trace + [Promoted(e.key, e.cand.spec)]) {
          OtherEvent(entries[j], trace, Promoted(e.key, e.cand.spec));
        }
        trace := trace + [Promoted(e.key, e.cand.spec)];
      }
    }
  }
}
