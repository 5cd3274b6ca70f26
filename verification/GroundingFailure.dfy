/** When grounding a compiled plan fails, told from the plan's units and the adapter's
    answers. */
module GroundingFailure {
  import opened Wrappers
  import opened AuthorityTypes
  import opened PolicyCompiler
  import opened PlanCompiler
  import opened PlanTheorems
  import opened AdapterFacts
  import opened Grounding
  import opened FactOrder
  import opened AuthorityTheorems
  import opened DeliveryTheorems

  /** The units mean one place and the same products. */
  ghost predicate OnePlace(u: ExecUnit, v: ExecUnit) {
    match (u.scope, v.scope)
    case (DistributionScope(ref, channel, _, products, _), DistributionScope(ref', channel', _, products', _)) =>
      ref == ref' && channel == channel' && products == products'
    case (UnscopedScope, UnscopedScope) => true
    case _ => false
  }

  ghost predicate ResolvesPackFor(u: ExecUnit, v: ExecUnit) {
    OnePlace(u, v) && exists r :: r in u.resolves && r.resolveType == MaterialPack
  }

  /** Unit `k` is the first that resolves the pack for unit `i`. */
  ghost predicate FirstForPack(units: seq<ExecUnit>, i: nat, k: nat) {
    && i < |units| && k < |units| && ResolvesPackFor(units[k], units[i])
    && forall j :: 0 <= j < k ==> !ResolvesPackFor(units[j], units[i])
  }

  ghost predicate AsksForEmpty(unit: ExecUnit) {
    unit.scope.DistributionScope? && unit.scope.materialOption == Some("")
  }

  lemma ResolvesPackExactly(u: ExecUnit, v: ExecUnit)
    ensures ResolvesPackFor(u, v) <==> Asks(u, MaterialPack, |u.resolves|) && Alike(u.scope, v.scope)
  {
    if j :| 0 <= j < |u.resolves| && u.resolves[j].resolveType == MaterialPack {
      assert u.resolves[j] in u.resolves;
    }
  }

  lemma {:induction false} FirstForPackIs(units: seq<ExecUnit>, v: ExecUnit, k: nat)
    requires k < |units| && ResolvesPackFor(units[k], v) && forall j :: 0 <= j < k ==> !ResolvesPackFor(units[j], v)
    ensures FirstAlike(units, v.scope, MaterialPack) == Some(units[k])
  {
    hide ResolvesPackFor, Asks, Alike;
    var front, last := units[..|units| - 1], units[|units| - 1];
    ResolvesPackExactly(last, v);
    if k < |front| {
      FirstForPackIs(front, v, k);
    } else {
      NoneForPack(front, v);
    }
  }

  lemma {:induction false} NoneForPack(units: seq<ExecUnit>, v: ExecUnit)
    requires forall j :: 0 <= j < |units| ==> !ResolvesPackFor(units[j], v)
    ensures FirstAlike(units, v.scope, MaterialPack).None?
  {
    hide ResolvesPackFor, Asks, Alike;
    if |units| > 0 {
      ResolvesPackExactly(units[|units| - 1], v);
      NoneForPack(units[..|units| - 1], v);
    }
  }

  /** The first of the units that resolve the pack for a unit, if there is one. */
  lemma FindForPack(units: seq<ExecUnit>, i: nat) returns (k: nat)
    requires i < |units| && exists j :: 0 <= j < |units| && ResolvesPackFor(units[j], units[i])
    ensures FirstForPack(units, i, k)
  {
    hide ResolvesPackFor;
    k := 0;
    while !ResolvesPackFor(units[k], units[i])
      invariant k < |units| && forall j :: 0 <= j < k ==> !ResolvesPackFor(units[j], units[i])
      decreases |units| - k
    {
      k := k + 1;
    }
  }

  /** What a unit of a compiled plan asks for is no longer than 80 characters. */
  lemma OptionShort(registry: seq<Manifest>, policy: Policy, authority: ScopeAuthority, source: PlanSource, i: nat, unit: ExecUnit)
    requires i < SourceCount(source) && FinalizeAt(registry, policy, authority, source, i) == Ok(unit)
    ensures unit.scope.DistributionScope? ==> !TooLong(unit.scope.materialOption)
  {
    hide FindManifest, PolicyRef, RuntimeCapability;
  }

  lemma OptionUnfit(unit: ExecUnit)
    requires unit.scope.DistributionScope? ==> !TooLong(unit.scope.materialOption)
    ensures AsksForEmpty(unit) <==> !OptionFits(if unit.scope.DistributionScope? then unit.scope.materialOption else None)
  {
  }

  lemma SpoiledExactly(units: seq<ExecUnit>, i: nat)
    requires i < |units| && forall u :: u in units && u.scope.DistributionScope? ==> !TooLong(u.scope.materialOption)
    ensures Spoiled(units, i) <==>
      units[i].manifestRef.id == MaterialPackSend && exists k: nat :: FirstForPack(units, i, k) && AsksForEmpty(units[k])
  {
    hide ResolvesPackFor, AsksForEmpty, OptionFits, TooLong;
    forall k: nat | FirstForPack(units, i, k)
      ensures AsksForEmpty(units[k]) <==> !OptionFits(FirstOption(units, units[i].scope, MaterialPack))
    {
      FirstForPackIs(units, units[i], k);
      assert units[k] in units;
      OptionUnfit(units[k]);
    }
    if exists j :: 0 <= j < |units| && ResolvesPackFor(units[j], units[i]) {
      var k := FindForPack(units, i);
    } else {
      NoneForPack(units, units[i]);
      NoOptionFits();
    }
  }

  lemma NoOptionFits()
    ensures OptionFits(None)
  {
  }

  /** On small, distinct and readable evidence, grounding a compiled plan fails exactly if
      the adapter resolved the pack and, for some pack unit, the first unit that resolves
      it for the same place and products asks for an option of no characters. */
  lemma GroundingFailsWhen(request: Request, authority: ScopeAuthority, recall: RecallMode, source: PlanSource, origin: PlanOrigin,
                           planHash: PlanBody -> string, a: Attempt)
    requires SealedRegistry(a.w.registry) && SealedContracts(a.w.registry)
    requires CompilePolicy(a.w.registry, request, authority, recall) == Ok(a.policy)
    requires Compile(a.w.registry, a.policy, authority, source, origin, planHash) == Ok(a.plan)
    requires AdapterEvidence(a.h, a.plan, a.items) == Ok((a.facts, a.bindings))
    requires FaithfulHashes(a.h) && AdapterOnlyHere(a)
    requires DistinctFacts(a.facts + a.others) && |a.facts + a.others| <= 32 && ReadsAll(a.w.dates)
    ensures var units := a.plan.body.units;
      Grounded(a).Err? <==>
        && (exists n: nat :: LastUsable(a.items, MaterialPack, n))
        && exists i: nat, k: nat ::
             FirstForPack(units, i, k) && units[i].manifestRef.id == MaterialPackSend && AsksForEmpty(units[k])
  {
    hide *;
    var units := a.plan.body.units;
    FirstForPackBounds(units);
    GroundingFailsExactly(request, authority, recall, source, origin, planHash, a);
    CompiledUnits(a.w.registry, a.policy, authority, source, origin, planHash, a.plan);
    forall u | u in units && u.scope.DistributionScope? ensures !TooLong(u.scope.materialOption) {
      var i :| 0 <= i < |units| && units[i] == u;
      OptionShort(a.w.registry, a.policy, authority, source, i, u);
    }
    forall i: nat | i < |units|
      ensures Spoiled(units, i) <==>
        units[i].manifestRef.id == MaterialPackSend && exists k: nat :: FirstForPack(units, i, k) && AsksForEmpty(units[k])
    {
      SpoiledExactly(units, i);
    }
    UsableExactly(a.items);
  }

  lemma FirstForPackBounds(units: seq<ExecUnit>)
    ensures forall i: nat, k: nat :: FirstForPack(units, i, k) ==> i < |units| && k < |units|
  {
  }

  lemma UsableExactly(items: seq<PreflightItem>)
    ensures MaterialPack in Results(items) <==> exists n: nat :: LastUsable(items, MaterialPack, n)
  {
    if MaterialPack in Results(items) {
      var n := ResultIsLastUsable(items, MaterialPack);
    }
    if n: nat :| LastUsable(items, MaterialPack, n) {
      UsableHasResult(items, n);
    }
  }
}
