/**
 The fail-closed checks at startup: agent specs name registered capabilities only, the skills they
 pin need no tool outside them, and advisor overlays stay within the profile they require.
 */
module CapabilityClosure {
  import opened Options

  const L1_PROPOSE := "L1_PROPOSE"
  const ADVISOR_DEFAULT_MODEL_INPUT_REF := "model.input.direct-user-message"

  datatype Pin = Pin(skillId: string, version: string)

  datatype AgentSpec = AgentSpec(
    id: string,
    version: string,
    capabilityRefs: seq<string>,
    pinned: seq<Pin>,
    autonomy: string,
    modelInput: Option<string>)

  datatype Overlay = Overlay(specId: string, specVersion: string, definitionHash: string, requiredProfile: string)

  /** Published skills with the tools they require, and published agent specs with their hashes. */
  datatype SpecRegistry = SpecRegistry(skills: map<Pin, seq<string>>, agents: map<(string, string), string>)

  function Elements(s: seq<string>): (r: set<string>)
    ensures forall x :: x in r <==> exists i | 0 <= i < |s| :: s[i] == x
  {
    set x | x in s
  }

  /** The tools a manifest requires; empty names are ignored. */
  function Tools(required: seq<string>): (r: set<string>)
    ensures forall t :: t in r <==> t != "" && exists i | 0 <= i < |required| :: required[i] == t
  {
    set t | t in required && t != ""
  }

  // ---------------------------------------------------------------------------------------
  // Manifests, keyed by skill id alone
  // ---------------------------------------------------------------------------------------

  function Manifests(reg: SpecRegistry, pins: seq<Pin>): map<string, seq<string>> {
    if pins == [] then map[]
    else
      var before, p := Manifests(reg, pins[..|pins| - 1]), pins[|pins| - 1];
      if p in reg.skills then before[p.skillId := reg.skills[p]] else before
  }

  /** Reads the pinned skills one by one; a later pin of the same skill id replaces an earlier one. */
  method SkillManifests(reg: SpecRegistry, spec: AgentSpec) returns (manifests: map<string, seq<string>>)
    ensures manifests == Manifests(reg, spec.pinned)
  {
    manifests := map[];
    for i := 0 to |spec.pinned|
      invariant manifests == Manifests(reg, spec.pinned[..i])
    {
      var p := spec.pinned[i];
      assert spec.pinned[..i + 1][..i] == spec.pinned[..i];
      if p in reg.skills {
        manifests := manifests[p.skillId := reg.skills[p]];
      }
    }
    assert spec.pinned[..|spec.pinned|] == spec.pinned;
  }

  /** Pin k is the last published pin of its skill id. */
  predicate LastOf(reg: SpecRegistry, pins: seq<Pin>, k: nat) {
    && k < |pins| && pins[k] in reg.skills
    && forall j | k < j < |pins| && pins[j].skillId == pins[k].skillId :: pins[j] !in reg.skills
  }

  /** A manifest comes from the last published pin of its skill id, and every such pin has one. */
  lemma {:induction false} ManifestOrigin(reg: SpecRegistry, pins: seq<Pin>, id: string)
    ensures id in Manifests(reg, pins) ==>
              exists k: nat :: LastOf(reg, pins, k) && pins[k].skillId == id && Manifests(reg, pins)[id] == reg.skills[pins[k]]
    ensures id !in Manifests(reg, pins) ==> forall k | 0 <= k < |pins| && pins[k].skillId == id :: pins[k] !in reg.skills
  {
    if pins != [] {
      var n := |pins| - 1;
      var p := pins[n];
      ManifestOrigin(reg, pins[..n], id);
      if p in reg.skills && p.skillId == id {
        assert LastOf(reg, pins, n);
      } else if id in Manifests(reg, pins) {
        var k: nat :| LastOf(reg, pins[..n], k) && pins[..n][k].skillId == id
                      && Manifests(reg, pins[..n])[id] == reg.skills[pins[..n][k]];
        assert pins[..n][k] == pins[k];
        assert LastOf(reg, pins, k);
      }
    }
  }

  // ---------------------------------------------------------------------------------------
  // The three checks
  // ---------------------------------------------------------------------------------------

  /** Every tool of every manifest of the spec is in `allowed`. */
  predicate ToolsWithin(manifests: map<string, seq<string>>, allowed: set<string>) {
    forall id | id in manifests :: Tools(manifests[id]) <= allowed
  }

  predicate SpecClosed(reg: SpecRegistry, spec: AgentSpec, capabilities: set<string>) {
    var m := Manifests(reg, spec.pinned);
    && (forall i | 0 <= i < |spec.pinned| :: spec.pinned[i].skillId in m)
    && ToolsWithin(m, capabilities)
    && ToolsWithin(m, Elements(spec.capabilityRefs))
  }

  lemma NothingOutside(a: set<string>, b: set<string>)
    ensures a - b == {} <==> a <= b
  {
    if a - b == {} {
      forall x | x in a ensures x in b {
        assert x !in a - b;
      }
    }
  }

  /** The union of the tools of all manifests, gathered key by key. */
  method SkillTools(manifests: map<string, seq<string>>) returns (tools: set<string>)
    ensures forall t :: t in tools <==> t != "" && exists id, i | id in manifests && 0 <= i < |manifests[id]| :: manifests[id][i] == t
    ensures tools == set id, t | id in manifests && t in Tools(manifests[id]) :: t
    ensures forall allowed: set<string> :: tools <= allowed <==> ToolsWithin(manifests, allowed)
  {
    tools := {};
    var todo := manifests.Keys;
    while todo != {}
      invariant todo <= manifests.Keys
      invariant tools == set id, t | id in manifests && id !in todo && t in Tools(manifests[id]) :: t
    {
      var id :| id in todo;
      tools := tools + Tools(manifests[id]);
      todo := todo - {id};
    }
    forall t
      ensures t in tools <==> t != "" && exists id, i | id in manifests && 0 <= i < |manifests[id]| :: manifests[id][i] == t
    {
      if t in tools {
        var id :| id in manifests && t in Tools(manifests[id]);
        assert exists i | 0 <= i < |manifests[id]| :: manifests[id][i] == t;
      }
      if id, i :| t != "" && id in manifests && 0 <= i < |manifests[id]| && manifests[id][i] == t {
        assert t in Tools(manifests[id]);
      }
    }
    forall allowed: set<string> ensures tools <= allowed <==> ToolsWithin(manifests, allowed) {
      if tools <= allowed {
        forall id | id in manifests ensures Tools(manifests[id]) <= allowed {
          assert forall t | t in Tools(manifests[id]) :: t in tools;
        }
      }
    }
  }

  /** Every pinned skill has a manifest, and every tool of every manifest is registered and in the spec's references. */
  predicate EveryToolGranted(spec: AgentSpec, m: map<string, seq<string>>, capabilities: set<string>) {
    && (forall i | 0 <= i < |spec.pinned| :: spec.pinned[i].skillId in m)
    && forall id, i | id in m && 0 <= i < |m[id]| && m[id][i] != "" ::
         m[id][i] in capabilities && m[id][i] in spec.capabilityRefs
  }

  lemma SpecClosedMeans(reg: SpecRegistry, spec: AgentSpec, capabilities: set<string>)
    ensures SpecClosed(reg, spec, capabilities) <==> EveryToolGranted(spec, Manifests(reg, spec.pinned), capabilities)
  {
    var m := Manifests(reg, spec.pinned);
    WithinMeans(m, capabilities);
    WithinMeans(m, Elements(spec.capabilityRefs));
  }

  lemma WithinMeans(m: map<string, seq<string>>, allowed: set<string>)
    ensures ToolsWithin(m, allowed) <==>
              forall id, i | id in m && 0 <= i < |m[id]| && m[id][i] != "" :: m[id][i] in allowed
  {
    if ToolsWithin(m, allowed) {
      forall id, i | id in m && 0 <= i < |m[id]| && m[id][i] != "" ensures m[id][i] in allowed {
        assert m[id][i] in Tools(m[id]);
      }
    }
  }

  method VerifySkillClosure(reg: SpecRegistry, entries: seq<AgentSpec>, capabilities: set<string>) returns (ok: bool)
    ensures ok <==> forall i | 0 <= i < |entries| :: SpecClosed(reg, entries[i], capabilities)
    ensures ok <==> forall i | 0 <= i < |entries| ::
                      EveryToolGranted(entries[i], Manifests(reg, entries[i].pinned), capabilities)
  {
    forall i | 0 <= i < |entries|
      ensures SpecClosed(reg, entries[i], capabilities) <==>
                EveryToolGranted(entries[i], Manifests(reg, entries[i].pinned), capabilities)
    {
      SpecClosedMeans(reg, entries[i], capabilities);
    }
    for i := 0 to |entries|
      invariant forall j | 0 <= j < i :: SpecClosed(reg, entries[j], capabilities)
    {
      var spec := entries[i];
      var manifests := SkillManifests(reg, spec);
      var tools := SkillTools(manifests);
      var missing := exists k | 0 <= k < |spec.pinned| :: spec.pinned[k].skillId !in manifests;
      if missing || !(tools <= capabilities) || !(tools <= Elements(spec.capabilityRefs)) {
        assert !SpecClosed(reg, entries[i], capabilities);
        return false;
      }
    }
    return true;
  }

  datatype Violation =
    | AutonomyExceedsAdvisory
    | CapabilitiesOutsideProfile(extra: set<string>)
    | ModelInputAdded(ref: string)
    | SkillManifestMissing(skillId: string)
    | SkillToolsOutsideOverlay(skillId: string, outside: set<string>)

  predicate PinWithin(p: Pin, manifests: map<string, seq<string>>, overlay: AgentSpec) {
    p.skillId in manifests && Tools(manifests[p.skillId]) <= Elements(overlay.capabilityRefs)
  }

  predicate OverlayAllowed(overlay: AgentSpec, profile: AgentSpec, manifests: Option<map<string, seq<string>>>) {
    && overlay.autonomy == L1_PROPOSE
    && Elements(overlay.capabilityRefs) <= Elements(profile.capabilityRefs)
    && (overlay.modelInput.Some? ==>
          overlay.modelInput.value == ADVISOR_DEFAULT_MODEL_INPUT_REF || overlay.modelInput == profile.modelInput)
    && (manifests.Some? ==>
          forall i | 0 <= i < |overlay.pinned| :: PinWithin(overlay.pinned[i], manifests.value, overlay))
  }

  /** What each violation reports, independently of the order in which violations are found. */
  predicate Reported(v: Violation, overlay: AgentSpec, profile: AgentSpec, manifests: Option<map<string, seq<string>>>) {
    match v
    case AutonomyExceedsAdvisory => overlay.autonomy != L1_PROPOSE
    case CapabilitiesOutsideProfile(extra) =>
      extra != {} && extra == set t | t in overlay.capabilityRefs && t !in profile.capabilityRefs
    case ModelInputAdded(ref) =>
      overlay.modelInput == Some(ref) && ref != ADVISOR_DEFAULT_MODEL_INPUT_REF && profile.modelInput != Some(ref)
    case _ => manifests.Some? && exists i | 0 <= i < |overlay.pinned| :: PinReported(v, overlay.pinned[i], manifests.value, overlay)
  }

  predicate PinReported(v: Violation, p: Pin, manifests: map<string, seq<string>>, overlay: AgentSpec) {
    match v
    case SkillManifestMissing(id) => id == p.skillId && id !in manifests
    case SkillToolsOutsideOverlay(id, outside) =>
      && id == p.skillId && id in manifests
      && outside != {} && outside == set t | t in manifests[id] && t != "" && t !in overlay.capabilityRefs
    case _ => false
  }

  lemma ToolsOutside(required: seq<string>, refs: seq<string>)
    ensures Tools(required) - Elements(refs) == set t | t in required && t != "" && t !in refs
  {
  }

  lemma RefsOutside(refs: seq<string>, granted: seq<string>)
    ensures Elements(refs) - Elements(granted) == set t | t in refs && t !in granted
  {
  }

  /** The violation of one pin, if it has one. */
  function PinViolation(p: Pin, manifests: map<string, seq<string>>, overlay: AgentSpec): (r: Option<Violation>)
    ensures forall v :: r == Some(v) <==> PinReported(v, p, manifests, overlay)
    ensures r.None? <==> PinWithin(p, manifests, overlay)
  {
    if p.skillId !in manifests then Some(SkillManifestMissing(p.skillId))
    else
      var outside := Tools(manifests[p.skillId]) - Elements(overlay.capabilityRefs);
      NothingOutside(Tools(manifests[p.skillId]), Elements(overlay.capabilityRefs));
      assert outside == set t | t in manifests[p.skillId] && t != "" && t !in overlay.capabilityRefs by {
        ToolsOutside(manifests[p.skillId], overlay.capabilityRefs);
      }
      if outside != {} then Some(SkillToolsOutsideOverlay(p.skillId, outside)) else None
  }

  /** The violations that do not depend on the pinned skills. */
  method ValidateGrants(overlay: AgentSpec, profile: AgentSpec) returns (violations: seq<Violation>)
    ensures forall v :: v in violations <==> Reported(v, overlay, profile, None)
    ensures violations == [] <==> OverlayAllowed(overlay, profile, None)
  {
    violations := [];
    if overlay.autonomy != L1_PROPOSE {
      violations := violations + [AutonomyExceedsAdvisory];
    }
    var extra := Elements(overlay.capabilityRefs) - Elements(profile.capabilityRefs);
    RefsOutside(overlay.capabilityRefs, profile.capabilityRefs);
    NothingOutside(Elements(overlay.capabilityRefs), Elements(profile.capabilityRefs));
    if extra != {} {
      violations := violations + [CapabilitiesOutsideProfile(extra)];
    }
    var ref := overlay.modelInput;
    if ref.Some? && ref.value != ADVISOR_DEFAULT_MODEL_INPUT_REF && ref != profile.modelInput {
      violations := violations + [ModelInputAdded(ref.value)];
    }
  }

  /**
   Collects exactly the violations the overlay commits; there are none exactly when the overlay
   stays within its profile.
   */
  method ValidateOverlay(overlay: AgentSpec, profile: AgentSpec, manifests: Option<map<string, seq<string>>>)
    returns (violations: seq<Violation>)
    ensures forall v :: v in violations <==> Reported(v, overlay, profile, manifests)
    ensures violations == [] <==> OverlayAllowed(overlay, profile, manifests)
  {
    violations := ValidateGrants(overlay, profile);
    if manifests.Some? {
      for i := 0 to |overlay.pinned|
        invariant forall v :: v in violations <==>
                    || Reported(v, overlay, profile, None)
                    || exists j | 0 <= j < i :: PinReported(v, overlay.pinned[j], manifests.value, overlay)
        invariant violations == [] <==>
                    && OverlayAllowed(overlay, profile, None)
                    && forall j | 0 <= j < i :: PinWithin(overlay.pinned[j], manifests.value, overlay)
      {
        var found := PinViolation(overlay.pinned[i], manifests.value, overlay);
        if found.Some? {
          violations := violations + [found.value];
        }
      }
    }
  }

  /** The first seeded spec with this id. */
  function FirstSpec(entries: seq<AgentSpec>, id: string): (r: Option<AgentSpec>)
    ensures r.Some? ==> r.value in entries && r.value.id == id
    ensures r.None? ==> forall i | 0 <= i < |entries| :: entries[i].id != id
    ensures r.Some? ==> exists k | 0 <= k < |entries| :: entries[k] == r.value && forall j | 0 <= j < k :: entries[j].id != id
  {
    if entries == [] then None
    else if entries[0].id == id then Some(entries[0])
    else FirstSpec(entries[1..], id)
  }

  predicate OverlayVerified(reg: SpecRegistry, entries: seq<AgentSpec>, profiles: map<string, AgentSpec>, o: Overlay) {
    && (o.specId, o.specVersion) in reg.agents && reg.agents[(o.specId, o.specVersion)] == o.definitionHash
    && o.requiredProfile in profiles
    && var spec := FirstSpec(entries, o.specId);
       && spec.Some?
       && OverlayAllowed(spec.value, profiles[o.requiredProfile], Some(Manifests(reg, spec.value.pinned)))
  }

  method VerifyOverlays(reg: SpecRegistry, entries: seq<AgentSpec>, profiles: map<string, AgentSpec>, overlays: seq<Overlay>)
    returns (ok: bool)
    ensures ok <==> forall i | 0 <= i < |overlays| :: OverlayVerified(reg, entries, profiles, overlays[i])
  {
    for i := 0 to |overlays|
      invariant forall j | 0 <= j < i :: OverlayVerified(reg, entries, profiles, overlays[j])
    {
      var o := overlays[i];
      var key := (o.specId, o.specVersion);
      if key !in reg.agents || reg.agents[key] != o.definitionHash || o.requiredProfile !in profiles {
        assert !OverlayVerified(reg, entries, profiles, overlays[i]);
        return false;
      }
      var spec := FirstSpec(entries, o.specId);
      if spec.None? {
        assert !OverlayVerified(reg, entries, profiles, overlays[i]);
        return false;
      }
      var manifests := SkillManifests(reg, spec.value);
      var violations := ValidateOverlay(spec.value, profiles[o.requiredProfile], Some(manifests));
      if violations != [] {
        assert !OverlayVerified(reg, entries, profiles, overlays[i]);
        return false;
      }
    }
    return true;
  }

  /** The tools of the pinned skills that have a manifest. */
  function PinnedTools(pins: seq<Pin>, manifests: map<string, seq<string>>): set<string> {
    if pins == [] then {}
    else
      var p := pins[|pins| - 1];
      PinnedTools(pins[..|pins| - 1], manifests) + if p.skillId in manifests then Tools(manifests[p.skillId]) else {}
  }

  /** Some pinned skill that has a manifest needs the tool. */
  predicate PinnedSkillNeeds(pins: seq<Pin>, manifests: map<string, seq<string>>, t: string) {
    t != "" && exists k | 0 <= k < |pins| && pins[k].skillId in manifests :: t in manifests[pins[k].skillId]
  }

  lemma {:induction false} PinnedToolsMeans(pins: seq<Pin>, manifests: map<string, seq<string>>, t: string)
    ensures t in PinnedTools(pins, manifests) <==> PinnedSkillNeeds(pins, manifests, t)
  {
    if pins != [] {
      var n := |pins| - 1;
      PinnedToolsMeans(pins[..n], manifests, t);
      assert forall k | 0 <= k < n :: pins[..n][k] == pins[k];
      if PinnedSkillNeeds(pins, manifests, t) && !PinnedSkillNeeds(pins[..n], manifests, t) {
        var k :| 0 <= k < |pins| && pins[k].skillId in manifests && t in manifests[pins[k].skillId];
        assert k == n;
      }
    }
  }

  /** What an agent spec lacks before it can be activated, tool by tool; nothing exactly when it is closed. */
  method CheckReadiness(spec: AgentSpec, available: set<string>, manifests: map<string, seq<string>>)
    returns (missing: set<string>)
    ensures forall t :: t in missing <==>
              || (t in spec.capabilityRefs && t !in available)
              || (PinnedSkillNeeds(spec.pinned, manifests, t) && !(t in available && t in spec.capabilityRefs))
    ensures missing == {} <==>
              && Elements(spec.capabilityRefs) <= available
              && PinnedTools(spec.pinned, manifests) <= available
              && PinnedTools(spec.pinned, manifests) <= Elements(spec.capabilityRefs)
  {
    var refs := Elements(spec.capabilityRefs);
    var needed, missingFromSpec := refs, {};
    for i := 0 to |spec.pinned|
      invariant needed == refs + PinnedTools(spec.pinned[..i], manifests)
      invariant missingFromSpec == PinnedTools(spec.pinned[..i], manifests) - refs
    {
      assert spec.pinned[..i + 1][..i] == spec.pinned[..i];
      if spec.pinned[i].skillId in manifests {
        var tools := Tools(manifests[spec.pinned[i].skillId]);
        needed := needed + tools;
        missingFromSpec := missingFromSpec + (tools - refs);
      }
    }
    assert spec.pinned[..|spec.pinned|] == spec.pinned;
    NothingOutside(needed, available);
    NothingOutside(PinnedTools(spec.pinned, manifests), refs);
    missing := (needed - available) + missingFromSpec;
    forall t ensures t in PinnedTools(spec.pinned, manifests) <==> PinnedSkillNeeds(spec.pinned, manifests, t) {
      PinnedToolsMeans(spec.pinned, manifests, t);
    }
  }

  lemma {:induction false} PinnedToolsWithin(pins: seq<Pin>, manifests: map<string, seq<string>>, allowed: set<string>)
    ensures PinnedTools(pins, manifests) <= allowed <==>
              forall i | 0 <= i < |pins| && pins[i].skillId in manifests :: Tools(manifests[pins[i].skillId]) <= allowed
  {
    if pins != [] {
      var n := |pins| - 1;
      PinnedToolsWithin(pins[..n], manifests, allowed);
      assert forall i | 0 <= i < n :: pins[..n][i] == pins[i];
    }
  }

  /** A manifest is always that of some pin. */
  lemma ManifestKeysArePinned(reg: SpecRegistry, pins: seq<Pin>, id: string)
    requires id in Manifests(reg, pins)
    ensures exists k | 0 <= k < |pins| :: pins[k].skillId == id
  {
    ManifestOrigin(reg, pins, id);
  }

  /** The startup check of a spec agrees with the activation check, given that no manifest is missing. */
  lemma ClosedIffReady(reg: SpecRegistry, spec: AgentSpec, capabilities: set<string>)
    requires Elements(spec.capabilityRefs) <= capabilities
    ensures var m := Manifests(reg, spec.pinned);
            SpecClosed(reg, spec, capabilities) <==>
              && (forall i | 0 <= i < |spec.pinned| :: spec.pinned[i].skillId in m)
              && PinnedTools(spec.pinned, m) <= capabilities
              && PinnedTools(spec.pinned, m) <= Elements(spec.capabilityRefs)
  {
    var m := Manifests(reg, spec.pinned);
    ToolsWithinIffPinned(reg, spec.pinned, capabilities);
    ToolsWithinIffPinned(reg, spec.pinned, Elements(spec.capabilityRefs));
  }

  lemma ToolsWithinIffPinned(reg: SpecRegistry, pins: seq<Pin>, allowed: set<string>)
    ensures ToolsWithin(Manifests(reg, pins), allowed) <==> PinnedTools(pins, Manifests(reg, pins)) <= allowed
  {
    var m := Manifests(reg, pins);
    PinnedToolsWithin(pins, m, allowed);
    if PinnedTools(pins, m) <= allowed {
      forall id | id in m ensures Tools(m[id]) <= allowed {
        ManifestKeysArePinned(reg, pins, id);
      }
    }
  }

  // ---------------------------------------------------------------------------------------
  // What the checks guarantee
  // ---------------------------------------------------------------------------------------

  /** Pins of one skill id are pins of one version. */
  predicate OneVersionEach(pins: seq<Pin>) {
    forall i, j | 0 <= i < |pins| && 0 <= j < |pins| && pins[i].skillId == pins[j].skillId :: pins[i] == pins[j]
  }

  /** Every pinned skill, by id and version, is published and needs only allowed tools. */
  predicate PinsWithin(reg: SpecRegistry, pins: seq<Pin>, allowed: set<string>) {
    forall i | 0 <= i < |pins| :: pins[i] in reg.skills && Tools(reg.skills[pins[i]]) <= allowed
  }

  /** Tool by tool. */
  lemma PinsWithinMeans(reg: SpecRegistry, pins: seq<Pin>, allowed: set<string>)
    requires PinsWithin(reg, pins, allowed)
    ensures forall i, j | 0 <= i < |pins| && 0 <= j < |reg.skills[pins[i]]| && reg.skills[pins[i]][j] != "" ::
              reg.skills[pins[i]][j] in allowed
  {
    forall i, j | 0 <= i < |pins| && 0 <= j < |reg.skills[pins[i]]| && reg.skills[pins[i]][j] != ""
      ensures reg.skills[pins[i]][j] in allowed
    {
      assert reg.skills[pins[i]][j] in Tools(reg.skills[pins[i]]);
    }
  }

  lemma ClosedCoversEveryPin(reg: SpecRegistry, spec: AgentSpec, capabilities: set<string>)
    requires SpecClosed(reg, spec, capabilities) && OneVersionEach(spec.pinned)
    ensures PinsWithin(reg, spec.pinned, capabilities) && PinsWithin(reg, spec.pinned, Elements(spec.capabilityRefs))
  {
    forall i | 0 <= i < |spec.pinned|
      ensures spec.pinned[i] in reg.skills
      ensures Tools(reg.skills[spec.pinned[i]]) <= capabilities * Elements(spec.capabilityRefs)
    {
      ManifestOrigin(reg, spec.pinned, spec.pinned[i].skillId);
    }
  }

  lemma PinsWithinMore(reg: SpecRegistry, pins: seq<Pin>, allowed: set<string>, more: set<string>)
    requires PinsWithin(reg, pins, allowed) && allowed <= more
    ensures PinsWithin(reg, pins, more)
  {
  }

  /**
   Startup closure: if all three checks pass and the overlay's spec pins one version of each skill,
   every tool of every skill it pins lies in the overlay's capabilities, in the required profile's
   capabilities and in the capability registry.
   */
  lemma {:induction false} StartupClosure(reg: SpecRegistry, entries: seq<AgentSpec>, profiles: map<string, AgentSpec>,
                       overlays: seq<Overlay>, capabilities: set<string>, k: nat)
    requires forall i | 0 <= i < |entries| :: forall ref | ref in entries[i].capabilityRefs :: ref in capabilities
    requires forall i | 0 <= i < |entries| :: SpecClosed(reg, entries[i], capabilities)
    requires forall i | 0 <= i < |overlays| :: OverlayVerified(reg, entries, profiles, overlays[i])
    requires k < |overlays|
    ensures var spec := FirstSpec(entries, overlays[k].specId);
            && spec.Some? && overlays[k].requiredProfile in profiles
            && Elements(spec.value.capabilityRefs) <= capabilities
            && (OneVersionEach(spec.value.pinned) ==>
                  && PinsWithin(reg, spec.value.pinned, Elements(spec.value.capabilityRefs))
                  && PinsWithin(reg, spec.value.pinned, Elements(profiles[overlays[k].requiredProfile].capabilityRefs))
                  && PinsWithin(reg, spec.value.pinned, capabilities)
                  && forall i, j | 0 <= i < |spec.value.pinned| && 0 <= j < |reg.skills[spec.value.pinned[i]]| ::
                       var t := reg.skills[spec.value.pinned[i]][j];
                       t != "" ==>
                         && t in spec.value.capabilityRefs && t in profiles[overlays[k].requiredProfile].capabilityRefs
                         && t in capabilities)
  {
    assert OverlayVerified(reg, entries, profiles, overlays[k]);
    var spec := FirstSpec(entries, overlays[k].specId).value;
    var i :| 0 <= i < |entries| && entries[i] == spec;
    assert SpecClosed(reg, entries[i], capabilities);
    if OneVersionEach(spec.pinned) {
      ClosedCoversEveryPin(reg, spec, capabilities);
      var profile := profiles[overlays[k].requiredProfile];
      PinsWithinMore(reg, spec.pinned, Elements(spec.capabilityRefs), Elements(profile.capabilityRefs));
      PinsWithinMeans(reg, spec.pinned, Elements(spec.capabilityRefs));
      PinsWithinMeans(reg, spec.pinned, Elements(profile.capabilityRefs));
      PinsWithinMeans(reg, spec.pinned, capabilities);
    }
  }

  /** A name that is longer than every name in the list. */
  function Outsider(names: seq<string>): (s: string)
    ensures s != "" && forall i | 0 <= i < |names| :: |names[i]| < |s|
  {
    if names == [] then "x"
    else
      var s := Outsider(names[..|names| - 1]);
      s + names[|names| - 1]
  }

  /** Everything pinned is published without tools, except one pin. */
  function OneBadPin(pins: seq<Pin>, bad: Pin, tool: string): SpecRegistry {
    SpecRegistry(map p | p in pins :: if p == bad then [tool] else [], map[])
  }

  /** The check on a spec guarantees nothing about a pin that a later one of its skill id hides. */
  lemma HiddenPinEscapes(spec: AgentSpec, bad: nat, later: nat)
    requires bad < |spec.pinned| && later < |spec.pinned|
    requires spec.pinned[bad].skillId == spec.pinned[later].skillId && spec.pinned[bad] != spec.pinned[later]
    requires forall j | later < j < |spec.pinned| :: spec.pinned[j].skillId != spec.pinned[later].skillId
    ensures var tool := Outsider(spec.capabilityRefs);
            var reg := OneBadPin(spec.pinned, spec.pinned[bad], tool);
            && SpecClosed(reg, spec, {})
            && !PinsWithin(reg, spec.pinned, Elements(spec.capabilityRefs))
  {
    var tool := Outsider(spec.capabilityRefs);
    var reg := OneBadPin(spec.pinned, spec.pinned[bad], tool);
    var m := Manifests(reg, spec.pinned);
    forall i | 0 <= i < |spec.pinned| ensures spec.pinned[i].skillId in m {
      ManifestOrigin(reg, spec.pinned, spec.pinned[i].skillId);
    }
    forall id | id in m ensures Tools(m[id]) == {} {
      ManifestOrigin(reg, spec.pinned, id);
      var k: nat :| LastOf(reg, spec.pinned, k) && spec.pinned[k].skillId == id && m[id] == reg.skills[spec.pinned[k]];
      assert k == later || spec.pinned[k].skillId != spec.pinned[bad].skillId;
    }
    assert tool in Tools(reg.skills[spec.pinned[bad]]);
    assert tool !in Elements(spec.capabilityRefs);
  }

  /** The last position with this skill id. */
  function LastIndex(pins: seq<Pin>, id: string): (k: nat)
    requires exists i | 0 <= i < |pins| :: pins[i].skillId == id
    ensures k < |pins| && pins[k].skillId == id
    ensures forall j | k < j < |pins| :: pins[j].skillId != id
  {
    if pins[|pins| - 1].skillId == id then |pins| - 1
    else
      var front := pins[..|pins| - 1];
      assert exists i | 0 <= i < |front| :: front[i].skillId == id by {
        var i :| 0 <= i < |pins| && pins[i].skillId == id;
        assert front[i] == pins[i];
      }
      LastIndex(front, id)
  }

  /**
   The exact condition: for a given spec, passing the check guarantees every pinned skill, whatever
   is published, if and only if the spec pins one version of each skill. Manifests are keyed by
   skill id alone, so a second version hides the first.
   */
  lemma GuaranteeIffOneVersionEach(spec: AgentSpec)
    ensures (forall reg: SpecRegistry, capabilities: set<string> | SpecClosed(reg, spec, capabilities) ::
               PinsWithin(reg, spec.pinned, Elements(spec.capabilityRefs)))
            <==> OneVersionEach(spec.pinned)
  {
    if OneVersionEach(spec.pinned) {
      forall reg: SpecRegistry, capabilities: set<string> | SpecClosed(reg, spec, capabilities)
        ensures PinsWithin(reg, spec.pinned, Elements(spec.capabilityRefs))
      {
        ClosedCoversEveryPin(reg, spec, capabilities);
      }
    } else {
      var pins := spec.pinned;
      var i, j :| 0 <= i < |pins| && 0 <= j < |pins| && pins[i].skillId == pins[j].skillId && pins[i] != pins[j];
      var last := LastIndex(pins, pins[i].skillId);
      var bad := if pins[i] != pins[last] then i else j;
      HiddenPinEscapes(spec, bad, last);
    }
  }
}
