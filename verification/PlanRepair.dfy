/**
 Goal decomposition: the dependency checks on a parsed plan, and the repair of the capabilities a
 model proposed against the real catalogue of profiles.
 */
module PlanRepair {
  import opened Options

  /** A plan item; `doneCriteria` is the parsed block, carried along unread. */
  datatype PlanItem = PlanItem(
    title: string,
    decisionReason: string,
    evidenceRefs: seq<string>,
    domain: Option<string>,
    capability: Option<string>,
    dependsOn: seq<string>,
    priority: string,
    doneCriteria: Option<string>)

  // ---------------------------------------------------------------------------------------
  // Dependencies between items
  // ---------------------------------------------------------------------------------------

  predicate HasTitle(plan: seq<PlanItem>, title: string) {
    exists i | 0 <= i < |plan| :: plan[i].title == title
  }

  /** Every dependency of item i names an item of the plan that has another title. */
  predicate DependsWell(plan: seq<PlanItem>, i: nat)
    requires i < |plan|
  {
    forall d | d in plan[i].dependsOn :: d != plan[i].title && HasTitle(plan, d)
  }

  predicate DependenciesHold(plan: seq<PlanItem>) {
    forall i | 0 <= i < |plan| :: DependsWell(plan, i)
  }

  datatype PlanError = UnknownTitle(item: nat, dep: string) | DependsOnItself(item: nat, dep: string)

  method SeenTitles(plan: seq<PlanItem>) returns (titles: set<string>)
    ensures forall t :: t in titles <==> HasTitle(plan, t)
  {
    titles := {};
    for i := 0 to |plan|
      invariant forall t :: t in titles <==> HasTitle(plan[..i], t)
    {
      titles := titles + {plan[i].title};
      assert plan[..i + 1] == plan[..i] + [plan[i]];
    }
    assert plan[..|plan|] == plan;
  }

  /** Accepts a plan exactly when its dependencies hold; otherwise says what is wrong with it. */
  method CheckDependencies(plan: seq<PlanItem>) returns (error: Option<PlanError>)
    ensures error.None? <==> DependenciesHold(plan)
    ensures error.Some? ==>
              && var i, dep := error.value.item, error.value.dep;
              && i < |plan| && dep in plan[i].dependsOn
              && (error.value.UnknownTitle? <==> !HasTitle(plan, dep))
              && (error.value.DependsOnItself? ==> dep == plan[i].title)
              && forall j: nat | j < i :: DependsWell(plan, j)
  {
    var titles := SeenTitles(plan);
    for i := 0 to |plan|
      invariant forall j: nat | j < i :: DependsWell(plan, j)
    {
      var deps := plan[i].dependsOn;
      for k := 0 to |deps|
        invariant forall d | d in deps[..k] :: d != plan[i].title && HasTitle(plan, d)
      {
        if deps[k] !in titles {
          assert !DependsWell(plan, i);
          return Some(UnknownTitle(i, deps[k]));
        }
        if deps[k] == plan[i].title {
          assert !DependsWell(plan, i);
          return Some(DependsOnItself(i, deps[k]));
        }
        assert deps[..k + 1] == deps[..k] + [deps[k]];
      }
      assert deps[..|deps|] == deps;
    }
    return None;
  }

  // ---------------------------------------------------------------------------------------
  // The catalogue
  // ---------------------------------------------------------------------------------------

  /** A profile key with its capabilities; the catalogue is a dictionary of them in insertion order. */
  datatype Profile = Profile(key: string, caps: seq<string>)

  predicate DistinctKeys(catalog: seq<Profile>) {
    forall i, j | 0 <= i < j < |catalog| :: catalog[i].key != catalog[j].key
  }

  predicate Owned(catalog: seq<Profile>, cap: string) {
    exists k | 0 <= k < |catalog| :: cap in catalog[k].caps
  }

  /** Profile k is the first in catalogue order that has the capability. */
  predicate FirstOwner(catalog: seq<Profile>, cap: string, k: nat) {
    && k < |catalog| && cap in catalog[k].caps
    && forall j: nat | j < k :: cap !in catalog[j].caps
  }

  /** An item without a domain is looked up under the empty key. */
  function DomainKey(domain: Option<string>): string {
    if domain.Some? then domain.value else ""
  }

  /** The profile an item's domain names has the capability. */
  predicate Listed(catalog: seq<Profile>, domain: Option<string>, cap: string) {
    exists k | 0 <= k < |catalog| ::
      catalog[k].key == (if domain.Some? then domain.value else "") && cap in catalog[k].caps
  }

  /** The capabilities filed under a key, none if the key is unknown. */
  function CapsOf(catalog: seq<Profile>, key: string): (caps: seq<string>)
    requires DistinctKeys(catalog)
    ensures forall c :: c in caps <==> exists k | 0 <= k < |catalog| :: catalog[k].key == key && c in catalog[k].caps
  {
    if catalog == [] then []
    else if catalog[0].key == key then catalog[0].caps
    else
      assert forall k | 0 < k < |catalog| :: catalog[k] == catalog[1..][k - 1];
      CapsOf(catalog[1..], key)
  }

  /** Every entry names the first owner among the first n profiles and, of the next, the first m capabilities. */
  ghost predicate OwnersSoFar(catalog: seq<Profile>, owners: map<string, string>, n: nat, m: nat)
    requires n < |catalog| ==> m <= |catalog[n].caps|
    requires n <= |catalog|
  {
    forall cap :: if Owned(catalog[..n], cap)
                  then cap in owners && exists k: nat :: FirstOwner(catalog[..n], cap, k) && owners[cap] == catalog[k].key
                  else if n < |catalog| && cap in catalog[n].caps[..m] then cap in owners && owners[cap] == catalog[n].key
                  else cap !in owners
  }

  lemma NextProfile(catalog: seq<Profile>, owners: map<string, string>, n: nat)
    requires n < |catalog| && OwnersSoFar(catalog, owners, n, |catalog[n].caps|)
    ensures OwnersSoFar(catalog, owners, n + 1, 0)
  {
    var before, after := catalog[..n], catalog[..n + 1];
    assert after == before + [catalog[n]];
    assert catalog[n].caps[..|catalog[n].caps|] == catalog[n].caps;
    forall cap
      ensures if Owned(after, cap)
              then cap in owners && exists k: nat :: FirstOwner(after, cap, k) && owners[cap] == catalog[k].key
              else cap !in owners
    {
      if Owned(before, cap) {
        var k: nat :| FirstOwner(before, cap, k) && owners[cap] == catalog[k].key;
        assert FirstOwner(after, cap, k);
      } else if cap in catalog[n].caps {
        assert FirstOwner(after, cap, n);
      }
    }
  }

  /** The first owner of every capability: an owner found earlier is not replaced. */
  method BuildOwners(catalog: seq<Profile>) returns (owners: map<string, string>)
    ensures forall cap :: cap in owners <==> Owned(catalog, cap)
    ensures forall cap | cap in owners :: exists k: nat :: FirstOwner(catalog, cap, k) && owners[cap] == catalog[k].key
  {
    owners := map[];
    for n := 0 to |catalog|
      invariant OwnersSoFar(catalog, owners, n, 0)
    {
      var caps := catalog[n].caps;
      for m := 0 to |caps|
        invariant OwnersSoFar(catalog, owners, n, m)
      {
        assert caps[..m + 1] == caps[..m] + [caps[m]];
        if caps[m] !in owners {
          owners := owners[caps[m] := catalog[n].key];
        }
      }
      NextProfile(catalog, owners, n);
    }
    assert catalog[..|catalog|] == catalog;
  }

  // ---------------------------------------------------------------------------------------
  // Repair
  // ---------------------------------------------------------------------------------------

  /** What repair promises of one item: only the domain or the capability changes, and only if it must. */
  ghost predicate Repaired(before: PlanItem, after: PlanItem, catalog: seq<Profile>) {
    && after == before.(domain := after.domain, capability := after.capability)
    && (after.capability.Some? ==>
          before.capability == after.capability && Listed(catalog, after.domain, after.capability.value))
    && (after.capability.None? ==>
          after.domain == before.domain && (before.capability.Some? ==> !Owned(catalog, before.capability.value)))
    && (after.domain != before.domain && after.capability.Some? ==>
          && !Listed(catalog, before.domain, after.capability.value)
          && exists k: nat :: FirstOwner(catalog, after.capability.value, k) && after.domain == Some(catalog[k].key))
  }

  ghost predicate PlanRepaired(before: seq<PlanItem>, after: seq<PlanItem>, catalog: seq<Profile>) {
    && |after| == |before|
    && forall i | 0 <= i < |before| :: Repaired(before[i], after[i], catalog)
  }

  method ValidatePlanCapabilities(items: seq<PlanItem>, catalog: seq<Profile>) returns (out: seq<PlanItem>)
    requires forall i, j | 0 <= i < j < |catalog| :: catalog[i].key != catalog[j].key
    ensures PlanRepaired(items, out, catalog)
  {
    var owners := BuildOwners(catalog);
    out := [];
    for i := 0 to |items|
      invariant PlanRepaired(items[..i], out, catalog)
    {
      var cap, domain := items[i].capability, items[i].domain;
      if cap.Some? && cap.value !in owners {
        cap := None;
      } else if cap.Some? && cap.value !in CapsOf(catalog, DomainKey(domain)) {
        domain := Some(owners[cap.value]);
      }
      out := out + [items[i].(domain := domain, capability := cap)];
    }
    assert items[..|items|] == items;
  }

  /** What repair promises leaves it no choice. */
  lemma RepairIsDetermined(before: PlanItem, one: PlanItem, other: PlanItem, catalog: seq<Profile>)
    requires Repaired(before, one, catalog) && Repaired(before, other, catalog)
    ensures one == other
  {
    if one.capability.Some? && other.capability.Some? && one.domain != before.domain {
      var cap := one.capability.value;
      assert other.domain != before.domain;
      var j: nat :| FirstOwner(catalog, cap, j) && one.domain == Some(catalog[j].key);
      var k: nat :| FirstOwner(catalog, cap, k) && other.domain == Some(catalog[k].key);
      assert j <= k && k <= j;
    }
  }

  /** Repair leaves alone exactly the items without a capability and those whose domain has theirs. */
  lemma UnchangedIff(before: PlanItem, after: PlanItem, catalog: seq<Profile>)
    requires Repaired(before, after, catalog)
    ensures after == before <==> before.capability.None? || Listed(catalog, before.domain, before.capability.value)
  {
  }

  lemma RepairIsIdempotent(plan: seq<PlanItem>, once: seq<PlanItem>, twice: seq<PlanItem>, catalog: seq<Profile>)
    requires PlanRepaired(plan, once, catalog) && PlanRepaired(once, twice, catalog)
    ensures twice == once
  {
    forall i | 0 <= i < |plan| ensures twice[i] == once[i] {
      assert Repaired(plan[i], once[i], catalog);
      UnchangedIff(once[i], twice[i], catalog);
    }
  }

  /** A plan passes the dependency checks after repair exactly when it did before. */
  lemma RepairKeepsDependencies(plan: seq<PlanItem>, after: seq<PlanItem>, catalog: seq<Profile>)
    requires PlanRepaired(plan, after, catalog)
    ensures DependenciesHold(after) <==> DependenciesHold(plan)
  {
    assert forall i | 0 <= i < |plan| :: Repaired(plan[i], after[i], catalog);
    SameTitles(plan, after);
  }

  lemma SameTitles(plan: seq<PlanItem>, after: seq<PlanItem>)
    requires |after| == |plan|
    requires forall i | 0 <= i < |plan| :: after[i].title == plan[i].title && after[i].dependsOn == plan[i].dependsOn
    ensures DependenciesHold(after) <==> DependenciesHold(plan)
  {
    assert forall t :: HasTitle(plan, t) ==> HasTitle(after, t) by {
      forall t | HasTitle(plan, t) ensures HasTitle(after, t) {
        var i :| 0 <= i < |plan| && plan[i].title == t;
        assert after[i].title == t;
      }
    }
    assert forall t :: HasTitle(after, t) ==> HasTitle(plan, t);
    assert forall i: nat | i < |plan| :: DependsWell(after, i) <==> DependsWell(plan, i);
  }
}
