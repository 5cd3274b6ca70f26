/** End-to-end results about the authority pipeline: where an action's reference
    came from, which checks can never fire, and when an action is delivered. */
module AuthorityTheorems {
  import opened Wrappers
  import opened AuthorityTypes
  import opened PolicyCompiler
  import opened PlanCompiler
  import opened PlanTheorems
  import opened AdapterFacts
  import opened Grounding
  import opened ActionReply

  /** Every manifest a policy lists is registered under the listed version. */
  ghost predicate RegisteredRefs(registry: seq<Manifest>, policy: Policy) {
    forall ref :: ref in policy.eligible ==>
      FindManifest(registry, ref.id).Some? && FindManifest(registry, ref.id).value.version == ref.version
  }

  lemma DraftRefsRegistered(registry: seq<Manifest>, request: Request, recall: RecallMode)
    requires UniqueManifests(registry)
    ensures RegisteredRefs(registry, DraftPolicy(registry, request, recall))
  {
    var policy := DraftPolicy(registry, request, recall);
    forall ref | ref in policy.eligible
      ensures FindManifest(registry, ref.id).Some? && FindManifest(registry, ref.id).value.version == ref.version
    {
      var m :| m in registry && ref == ManifestRef(m.id, m.version) && Eligible(m.id, request, policy.knowledgeEnabled);
      var found := FindManifest(registry, ref.id);
      var i :| 0 <= i < |registry| && registry[i] == m;
      var j :| 0 <= j < |registry| && registry[j] == found.value;
    }
  }

  /** The evidence of one attempt: what the adapter gave, and anything else. */
  datatype Attempt = Attempt(h: Hashes, w: World, plan: ExecPlan, policy: Policy, items: seq<PreflightItem>,
                             facts: seq<Fact>, bindings: seq<Binding>, others: seq<Fact>)

  ghost predicate ValidAttempt(a: Attempt) {
    && AdapterEvidence(a.h, a.plan, a.items) == Ok((a.facts, a.bindings))
    && UnitsWithin(a.plan, a.policy)
    && RegisteredRefs(a.w.registry, a.policy)
  }

  ghost function Grounded(a: Attempt): Result<seq<UnitGrounding>, GroundError> {
    Ground(a.w, a.plan, a.policy, a.facts + a.others, a.bindings)
  }

  // ----- checks that never fire -----

  lemma DistinctPrefix(facts: seq<Fact>, others: seq<Fact>)
    requires DistinctFacts(facts + others)
    ensures forall f, g :: f in facts + others && g in facts + others && f.id == g.id ==> f == g
  {
  }

  /** Whatever subset of the canonical facts a unit admits, the bindings grounding
      selects for it pass the binding check. */
  lemma BindingsAccepted(a: Attempt, allowed: seq<Fact>)
    requires ValidAttempt(a) && DistinctFacts(a.facts + a.others)
    requires DistinctFacts(allowed) && forall f :: f in allowed ==> f in a.facts + a.others
    ensures ValidBindings(allowed, BindingsOf(a.bindings, allowed)).Ok?
  {
    hide AdapterEvidence, UnitsWithin, RegisteredRefs, ValidBindings, Derived;
    EvidenceAligned(a.h, a.plan, a.items, a.facts, a.bindings);
    DistinctPrefix(a.facts, a.others);
    var chosen := BindingsOf(a.bindings, allowed);
    forall b | b in chosen ensures exists f :: f in allowed && Matches(f, b) {
      var i :| 0 <= i < |a.bindings| && a.bindings[i] == b;
      var f :| f in allowed && f.id == b.id;
      assert a.facts[i] in a.facts + a.others;
      assert Matches(f, b);
    }
    assert DistinctBindings(a.bindings) by {
      forall i, j | 0 <= i < j < |a.bindings| ensures a.bindings[i].id != a.bindings[j].id {
        assert Matches(a.facts[i], a.bindings[i]) && Matches(a.facts[j], a.bindings[j]);
      }
    }
    ValidBindingsExact(allowed, chosen);
  }

  /** The option of the first material-pack fact a unit meets. */
  function PackOption(unit: ExecUnit, manifest: Manifest, facts: seq<Fact>): Option<string> {
    var first := FirstResolvable(facts, MaterialPack);
    if DeclaredOrAdmitted(unit, manifest, MaterialPack) && first.Some? then first.value.scope.materialOption else None
  }

  lemma PackOptionIs(unit: ExecUnit, manifest: Manifest, facts: seq<Fact>, bound: map<string, Binding>)
    ensures UnitResolvable(unit, manifest, facts, bound, MaterialPack).materialOption == PackOption(unit, manifest, facts)
  {
    hide DeclaredOrAdmitted, FirstResolvable;
  }

  lemma DeriveErrors(unit: ExecUnit, manifest: Manifest, policy: Policy, facts: seq<Fact>, bindings: seq<Binding>,
                     dates: string -> Option<string>)
    requires unit.manifestRef == ManifestRef(manifest.id, manifest.version)
    requires ValidBindings(facts, bindings).Ok?
    ensures var r := DeriveBusinessFacts(unit, manifest, policy, facts, bindings, dates);
      && (r.Err? ==> r.error in {EvidenceLimitExceeded, InvalidIsoDate, OptionBounds})
      && (r.Err? && r.error == OptionBounds <==> |facts| <= 32 && !OptionFits(PackOption(unit, manifest, facts)))
      && (r.Err? && r.error == EvidenceLimitExceeded <==> |facts| > 32)
      && (r.Err? && r.error == InvalidIsoDate ==> !ReadsAll(dates))
      && (r.Ok? ==> r.value.factCount == |facts|)
  {
    hide ValidBindings, UnitResolvable, UnitReport, UnitRecent, UnitPermission, DeclaredOrAdmitted, PackOption, OptionFits;
    PackOptionIs(unit, manifest, facts, ValidBindings(facts, bindings).value);
  }

  /** No material-pack fact carries an empty option, nor one that is too long. */
  ghost predicate OptionsFit(facts: seq<Fact>) {
    forall f :: f in facts && f.factType == MaterialPackResolvable ==> OptionFits(f.scope.materialOption)
  }

  /** The three complaints that depend on the evidence: more facts than a unit may have,
      a date the reader does not accept, or an option that a state does not accept. */
  ghost predicate LateError(a: Attempt, e: GroundError) {
    || (e == Business(EvidenceLimitExceeded) && |a.facts + a.others| > 32)
    || (e == Business(InvalidIsoDate) && !ReadsAll(a.w.dates))
    || (e == Business(OptionBounds) && !OptionsFit(a.facts + a.others))
  }

  lemma OptionOfSome(unit: ExecUnit, manifest: Manifest, facts: seq<Fact>, all: seq<Fact>)
    requires OptionsFit(all) && forall f :: f in facts ==> f in all
    ensures OptionFits(PackOption(unit, manifest, facts))
  {
    hide DeclaredOrAdmitted, FirstResolvable;
    var first := FirstResolvable(facts, MaterialPack);
    assert first.Some? ==> first.value in facts && first.value.factType == MaterialPackResolvable;
  }

  /** What decides the grounding of one unit. */
  lemma GroundUnitOutcome(a: Attempt, unit: ExecUnit, manifest: Manifest)
    requires ValidAttempt(a) && DistinctFacts(a.facts + a.others) && UnitWithin(unit, a.policy)
    requires FindManifest(a.w.registry, unit.manifestRef.id) == Some(manifest)
    ensures var r := GroundUnit(a.w, unit, a.policy, a.facts + a.others, a.bindings);
      var allowed := AdmittedFacts(a.facts + a.others, unit, manifest, a.w.now);
      && (r.Ok? ==> BoundToUnit(r.value, unit))
      && (r.Err? ==> r.error in {Business(EvidenceLimitExceeded), Business(InvalidIsoDate), Business(OptionBounds)})
      && (r == Err(Business(EvidenceLimitExceeded)) <==> |allowed| > 32)
      && (r == Err(Business(OptionBounds)) <==> |allowed| <= 32 && !OptionFits(PackOption(unit, manifest, allowed)))
      && (r == Err(Business(InvalidIsoDate)) ==> !ReadsAll(a.w.dates))
  {
    hide AdmittedFacts, ReadsAll, OptionFits, PackOption, DeriveBusinessFacts, AdapterEvidence, BindingsOf, ValidBindings;
    var allowed := AdmittedFacts(a.facts + a.others, unit, manifest, a.w.now);
    BindingsAccepted(a, allowed);
    DeriveErrors(unit, manifest, a.policy, allowed, BindingsOf(a.bindings, allowed), a.w.dates);
  }

  /** One unit: the only complaints left are too much evidence, a date that is not ISO,
      and an option that does not fit. */
  lemma GroundUnitErrors(a: Attempt, unit: ExecUnit)
    requires ValidAttempt(a) && DistinctFacts(a.facts + a.others) && UnitWithin(unit, a.policy)
    ensures var r := GroundUnit(a.w, unit, a.policy, a.facts + a.others, a.bindings);
      && (r.Err? ==> LateError(a, r.error))
      && (r.Ok? ==> BoundToUnit(r.value, unit))
  {
    hide Admitted, Candidates, RequirementsMet, ReadsAll, OptionFits, PackOption, OptionsFit, AdapterEvidence, GroundUnit, BoundToUnit, DistinctFacts;
    var manifest := FindManifest(a.w.registry, unit.manifestRef.id).value;
    var allowed := AdmittedFacts(a.facts + a.others, unit, manifest, a.w.now);
    assert |allowed| <= |a.facts + a.others|;
    GroundUnitOutcome(a, unit, manifest);
    if OptionsFit(a.facts + a.others) {
      OptionOfSome(unit, manifest, allowed, a.facts + a.others);
    }
  }

  /** Grounding any plan within the policy, with the evidence of the attempt, fails exactly
      if that of some unit fails, when no id is repeated. */
  lemma PlanGroundedByUnits(a: Attempt, plan: ExecPlan)
    requires ValidAttempt(a) && DistinctFacts(a.facts + a.others) && UnitsWithin(plan, a.policy)
    ensures var r := Grounded(a.(plan := plan));
      && (r.Err? <==> exists i ::
            0 <= i < |plan.body.units| && GroundUnit(a.w, plan.body.units[i], a.policy, a.facts + a.others, a.bindings).Err?)
      && (r.Err? ==> SomeFails(a.w, plan.body.units, a.policy, a.facts + a.others, a.bindings, |plan.body.units|, r.error))
  {
    var units := plan.body.units;
    var all := a.facts + a.others;
    forall i | 0 <= i < |units|
      ensures var r := GroundUnit(a.w, units[i], a.policy, all, a.bindings); r.Ok? ==> BoundToUnit(r.value, units[i])
    {
      GroundUnitErrors(a, units[i]);
    }
    hide GroundUnit, BoundToUnit, LateError, ValidAttempt, DistinctFacts;
    GroundUnitsResult(a.w, units, a.policy, all, a.bindings, |units|);
    var r := GroundUnits(a.w, units, a.policy, all, a.bindings, |units|);
    assert r.Ok? ==> PlanBindingFault(plan, r.value).None?;
  }

  /** The same for the attempt's own plan. */
  lemma GroundedByUnits(a: Attempt)
    requires ValidAttempt(a) && DistinctFacts(a.facts + a.others)
    ensures Grounded(a).Err? <==> exists i ::
      0 <= i < |a.plan.body.units| && GroundUnit(a.w, a.plan.body.units[i], a.policy, a.facts + a.others, a.bindings).Err?
    ensures Grounded(a).Err? ==> SomeFails(a.w, a.plan.body.units, a.policy, a.facts + a.others, a.bindings, |a.plan.body.units|, Grounded(a).error)
  {
    hide *;
    OwnUnitsWithin(a);
    PlanGroundedByUnits(a, a.plan);
    assert a.(plan := a.plan) == a;
  }

  lemma OwnUnitsWithin(a: Attempt)
    requires ValidAttempt(a)
    ensures UnitsWithin(a.plan, a.policy)
  {
  }

  /** Grounding a plan that passed the policy check fails in four ways only: the
      canonical facts repeat an id (exactly then), a unit admits more than 32 facts,
      a date is not ISO, or a material-pack fact has an empty option; so it succeeds on
      at most 32 distinct facts with readable dates and options that fit. No binding
      check, no registry check and no validator of grounding's own output ever fires. */
  lemma GroundingErrors(a: Attempt)
    requires ValidAttempt(a)
    ensures Grounded(a).Err? ==> Grounded(a).error == DuplicateCanonicalEvidence || LateError(a, Grounded(a).error)
    ensures Grounded(a) == Err(DuplicateCanonicalEvidence) <==> !DistinctFacts(a.facts + a.others)
  {
    if DistinctFacts(a.facts + a.others) {
      var units := a.plan.body.units;
      forall i | 0 <= i < |units| && GroundUnit(a.w, units[i], a.policy, a.facts + a.others, a.bindings).Err?
        ensures LateError(a, GroundUnit(a.w, units[i], a.policy, a.facts + a.others, a.bindings).error)
      {
        GroundUnitErrors(a, units[i]);
      }
      hide GroundUnit, LateError, ValidAttempt, DistinctFacts;
      GroundedByUnits(a);
      LateIsNotDuplicate(a);
    }
  }

  lemma LateIsNotDuplicate(a: Attempt)
    ensures !LateError(a, DuplicateCanonicalEvidence)
  {
  }

  lemma GroundedAt(a: Attempt, groundings: seq<UnitGrounding>, i: nat)
    requires Grounded(a) == Ok(groundings) && i < |a.plan.body.units|
    ensures |groundings| == |a.plan.body.units| && DistinctFacts(a.facts + a.others)
    ensures GroundUnit(a.w, a.plan.body.units[i], a.policy, a.facts + a.others, a.bindings) == Ok(groundings[i])
  {
    hide GroundUnit, DistinctFacts, PlanBindingFault;
    GroundUnitsResult(a.w, a.plan.body.units, a.policy, a.facts + a.others, a.bindings, |a.plan.body.units|);
  }

  /** What the business facts of a unit are made of. */
  ghost predicate BusinessParts(business: BusinessFacts, unit: ExecUnit, manifest: Manifest, policy: Policy, allowed: seq<Fact>,
                                bound: map<string, Binding>, dates: string -> Option<string>) {
    && business.materialPack == UnitResolvable(unit, manifest, allowed, bound, MaterialPack)
    && Ok(business.weekly) == UnitReport(unit, manifest, allowed, bound, WeeklyReport, dates)
    && Ok(business.monthly) == UnitReport(unit, manifest, allowed, bound, MonthlyReport, dates)
    && business.sales == UnitResolvable(unit, manifest, allowed, bound, SalesMention)
    && business.permission == UnitPermission(unit, policy)
  }

  lemma DerivedParts(unit: ExecUnit, manifest: Manifest, policy: Policy, allowed: seq<Fact>, bindings: seq<Binding>,
                     dates: string -> Option<string>, business: BusinessFacts)
    requires DeriveBusinessFacts(unit, manifest, policy, allowed, bindings, dates) == Ok(business)
    ensures ValidBindings(allowed, bindings).Ok?
    ensures BusinessParts(business, unit, manifest, policy, allowed, ValidBindings(allowed, bindings).value, dates)
  {
    hide ValidBindings, UnitResolvable, UnitReport, UnitRecent, UnitPermission, DeclaredOrAdmitted;
  }

  lemma GroundParts(w: World, unit: ExecUnit, policy: Policy, facts: seq<Fact>, bindings: seq<Binding>, g: UnitGrounding)
    returns (manifest: Manifest)
    requires GroundUnit(w, unit, policy, facts, bindings) == Ok(g)
    ensures FindManifest(w.registry, unit.manifestRef.id) == Some(manifest)
    ensures g.allowed == AdmittedFacts(facts, unit, manifest, w.now) && DistinctFacts(g.allowed)
    ensures DeriveBusinessFacts(unit, manifest, policy, g.allowed, BindingsOf(bindings, g.allowed), w.dates) == Ok(g.business)
  {
    hide AdmittedFacts, DeriveBusinessFacts, BindingsOf, DistinctFacts;
    manifest := FindManifest(w.registry, unit.manifestRef.id).value;
  }

  /** The parts of a successful grounding of unit `i`. */
  lemma GroundedUnit(a: Attempt, groundings: seq<UnitGrounding>, i: nat) returns (manifest: Manifest, bound: map<string, Binding>)
    requires Grounded(a) == Ok(groundings) && i < |a.plan.body.units|
    ensures |groundings| == |a.plan.body.units|
    ensures var unit := a.plan.body.units[i]; var g := groundings[i];
      && FindManifest(a.w.registry, unit.manifestRef.id) == Some(manifest)
      && g.allowed == AdmittedFacts(a.facts + a.others, unit, manifest, a.w.now)
      && ValidBindings(g.allowed, BindingsOf(a.bindings, g.allowed)) == Ok(bound)
      && BusinessParts(g.business, unit, manifest, a.policy, g.allowed, bound, a.w.dates)
      && DistinctFacts(g.allowed) && DistinctFacts(a.facts + a.others)
  {
    hide *;
    GroundedAt(a, groundings, i);
    var unit, g := a.plan.body.units[i], groundings[i];
    manifest := GroundParts(a.w, unit, a.policy, a.facts + a.others, a.bindings, g);
    DerivedParts(unit, manifest, a.policy, g.allowed, BindingsOf(a.bindings, g.allowed), a.w.dates, g.business);
    bound := ValidBindings(g.allowed, BindingsOf(a.bindings, g.allowed)).value;
  }

  // ----- provenance -----

  /** `fact` was admitted for the unit in its own scope, and the reference is that of
      the last usable preflight item of the type. */
  ghost predicate ReferenceFrom(a: Attempt, unit: ExecUnit, allowed: seq<Fact>, t: ResolveType, ref: string, fact: Fact, p: nat) {
    && LastUsable(a.items, t, p)
    && a.items[p].result.value.resolveRef == Some(ref)
    && fact in allowed && fact in a.facts
    && fact.resolveType == Some(t) && fact.factType == FactTypeFor(t)
    && ScopeMatches(fact, unit, {})
  }

  /** A reference in a resolvable state is that of the binding of its fact. */
  lemma StateBinding(unit: ExecUnit, manifest: Manifest, facts: seq<Fact>, bound: map<string, Binding>, t: ResolveType)
    returns (fact: Fact, b: Binding)
    requires UnitResolvable(unit, manifest, facts, bound, t).resolveRef.Some?
    ensures fact in facts && fact.factType == FactTypeFor(t) && fact.resolveType == Some(t)
    ensures fact.id in bound && bound[fact.id] == b && b.resolveType == t
    ensures UnitResolvable(unit, manifest, facts, bound, t).resolveRef == Some(b.resolveRef)
  {
    fact := FirstResolvable(facts, t).value;
    b := bound[fact.id];
  }

  /** An admitted fact with a binding was built from the adapter's result. */
  lemma BindingSource(a: Attempt, fact: Fact, b: Binding)
    requires ValidAttempt(a) && DistinctFacts(a.facts + a.others)
    requires fact in a.facts + a.others && b in a.bindings && b.id == fact.id
    ensures fact in a.facts && UsableResults(Results(a.items))
    ensures b.resolveType in Results(a.items) && Results(a.items)[b.resolveType].resolveRef == Some(b.resolveRef)
  {
    hide AdapterEvidence, UnitsWithin, RegisteredRefs;
    EvidenceAligned(a.h, a.plan, a.items, a.facts, a.bindings);
    DistinctPrefix(a.facts, a.others);
    var i :| 0 <= i < |a.bindings| && a.bindings[i] == b;
    assert a.facts[i] in a.facts + a.others && a.facts[i] == fact;
    assert Derived(a.h, a.plan.body.units, Results(a.items), a.facts[i], a.bindings[i]);
  }

  lemma AdmittedInScope(fact: Fact, unit: ExecUnit, manifest: Manifest, now: Option<int>)
    requires Admitted(fact, unit, manifest, now)
    ensures ScopeMatches(fact, unit, {})
  {
    hide HistoryAllowed, StalenessAllowed, HasProvenance, FieldMatches;
    assert ScopeMatches(fact, unit, manifest.contract.requiredScopeMatch);
  }

  lemma BoundReference(a: Attempt, unit: ExecUnit, manifest: Manifest, allowed: seq<Fact>, bound: map<string, Binding>, t: ResolveType)
    returns (fact: Fact, p: nat)
    requires ValidAttempt(a) && DistinctFacts(a.facts + a.others)
    requires allowed == AdmittedFacts(a.facts + a.others, unit, manifest, a.w.now) && DistinctFacts(allowed)
    requires ValidBindings(allowed, BindingsOf(a.bindings, allowed)) == Ok(bound)
    requires UnitResolvable(unit, manifest, allowed, bound, t).resolveRef.Some?
    ensures ReferenceFrom(a, unit, allowed, t, UnitResolvable(unit, manifest, allowed, bound, t).resolveRef.value, fact, p)
  {
    hide ValidAttempt, Admitted, AdmittedFacts, ValidBindings, UnitResolvable, ScopeMatches, Results, DistinctFacts,
         DistinctBindings, AllMatched, FactTypeFor;
    var b;
    fact, b := StateBinding(unit, manifest, allowed, bound, t);
    ValidBindingsExact(allowed, BindingsOf(a.bindings, allowed));
    assert b in BindingsOf(a.bindings, allowed) && b.id == fact.id;
    BindingSource(a, fact, b);
    p := ResultIsLastUsable(a.items, t);
    AdmittedInScope(fact, unit, manifest, a.w.now);
  }

  /** Everything that must be true of an action the reply carries. */
  ghost predicate Accounted(a: Attempt, groundings: seq<UnitGrounding>, action: OutboundAction, i: nat, j: nat, fact: Fact, p: nat)
    requires |groundings| == |a.plan.body.units|
  {
    && i < |groundings| && j < |a.plan.body.units[i].intents|
    && var unit := a.plan.body.units[i];
    && unit.intents[j].actionType == action.actionType
    && action.actionType in a.policy.actions
    && action.resolveType == ResolveTypeOf(action.actionType)
    && unit.manifestRef in a.policy.eligible
    && UnitPermission(unit, a.policy) == Allowed
    && ReferenceFrom(a, unit, groundings[i].allowed, action.resolveType, action.resolveRef, fact, p)
  }

  lemma {:induction false} UnitActionsFrom(unit: ExecUnit, facts: BusinessFacts, n: nat, action: OutboundAction) returns (j: nat)
    requires n <= |unit.intents| && action in UnitActions(unit, facts, n)
    ensures j < n && ActionFrom(unit.intents[j], facts) == Some(action)
  {
    if ActionFrom(unit.intents[n - 1], facts) == Some(action) {
      j := n - 1;
    } else {
      j := UnitActionsFrom(unit, facts, n - 1, action);
    }
  }

  lemma {:induction false} ActionsFrom(units: seq<ExecUnit>, groundings: seq<UnitGrounding>, n: nat, action: OutboundAction)
    returns (i: nat, j: nat)
    requires n <= |units| == |groundings| && action in Actions(units, groundings, n)
    ensures i < n && j < |units[i].intents|
    ensures groundings[i].business.permission == Allowed
    ensures ActionFrom(units[i].intents[j], groundings[i].business) == Some(action)
  {
    var facts := groundings[n - 1].business;
    if facts.permission == Allowed && action in UnitActions(units[n - 1], facts, |units[n - 1].intents|) {
      i := n - 1;
      j := UnitActionsFrom(units[i], facts, |units[i].intents|, action);
    } else {
      i, j := ActionsFrom(units, groundings, n - 1, action);
    }
  }

  lemma ReportReference(unit: ExecUnit, manifest: Manifest, facts: seq<Fact>, bound: map<string, Binding>, t: ResolveType,
                        dates: string -> Option<string>)
    requires UnitReport(unit, manifest, facts, bound, t, dates).Ok?
    ensures UnitReport(unit, manifest, facts, bound, t, dates).value.base.resolveRef
      == UnitResolvable(unit, manifest, facts, bound, t).resolveRef
  {
  }

  /** Action provenance: for every plan within its policy, every preflight and any
      other evidence, each action of the reply belongs to an allowed unit, is of a
      type the policy allows, and carries the reference of the last usable preflight
      item of its resolve type, reached through a fact admitted in the unit's scope. */
  lemma ActionProvenance(a: Attempt, groundings: seq<UnitGrounding>, action: OutboundAction)
    returns (i: nat, j: nat, fact: Fact, p: nat)
    requires ValidAttempt(a) && Grounded(a) == Ok(groundings) && |groundings| == |a.plan.body.units|
    requires action in Actions(a.plan.body.units, groundings, |groundings|)
    ensures Accounted(a, groundings, action, i, j, fact, p)
  {
    i, j := ActionsFrom(a.plan.body.units, groundings, |groundings|, action);
    var unit := a.plan.body.units[i];
    var manifest, bound := GroundedUnit(a, groundings, i);
    UnitOfPlan(a, i, j);
    ActionReference(unit, manifest, a.policy, groundings[i].allowed, bound, a.w.dates, groundings[i].business, unit.intents[j], action);
    fact, p := BoundReference(a, unit, manifest, groundings[i].allowed, bound, ResolveTypeOf(action.actionType));
  }

  lemma UnitOfPlan(a: Attempt, i: nat, j: nat)
    requires ValidAttempt(a) && i < |a.plan.body.units| && j < |a.plan.body.units[i].intents|
    ensures a.plan.body.units[i].manifestRef in a.policy.eligible
    ensures a.plan.body.units[i].intents[j].actionType in a.policy.actions
  {
    assert UnitWithin(a.plan.body.units[i], a.policy);
    assert a.plan.body.units[i].intents[j] in a.plan.body.units[i].intents;
  }

  /** An emitted action repeats the reference of the resolvable state of its type. */
  lemma ActionReference(unit: ExecUnit, manifest: Manifest, policy: Policy, facts: seq<Fact>, bound: map<string, Binding>,
                        dates: string -> Option<string>, business: BusinessFacts, intent: ActionIntent, action: OutboundAction)
    requires business.materialPack == UnitResolvable(unit, manifest, facts, bound, MaterialPack)
    requires Ok(business.weekly) == UnitReport(unit, manifest, facts, bound, WeeklyReport, dates)
    requires Ok(business.monthly) == UnitReport(unit, manifest, facts, bound, MonthlyReport, dates)
    requires ActionFrom(intent, business) == Some(action)
    ensures action.actionType == intent.actionType && action.resolveType == ResolveTypeOf(action.actionType)
    ensures UnitResolvable(unit, manifest, facts, bound, action.resolveType).resolveRef == Some(action.resolveRef)
  {
    match intent.actionType
    case SendMaterialPack =>
    case SendWeeklyReport => ReportReference(unit, manifest, facts, bound, WeeklyReport, dates);
    case SendMonthlyReport => ReportReference(unit, manifest, facts, bound, MonthlyReport, dates);
  }

  /** All actions of one type in a reply carry the same reference, whatever options
      their units asked for. */
  lemma OneReferencePerType(a: Attempt, groundings: seq<UnitGrounding>, x: OutboundAction, y: OutboundAction)
    requires ValidAttempt(a) && Grounded(a) == Ok(groundings) && |groundings| == |a.plan.body.units|
    requires x in Actions(a.plan.body.units, groundings, |groundings|)
    requires y in Actions(a.plan.body.units, groundings, |groundings|)
    requires x.actionType == y.actionType
    ensures x.resolveRef == y.resolveRef
  {
    var i, _, f, p := ActionProvenance(a, groundings, x);
    var j, _, g, q := ActionProvenance(a, groundings, y);
    assert ReferenceFrom(a, a.plan.body.units[i], groundings[i].allowed, x.resolveType, x.resolveRef, f, p);
    assert ReferenceFrom(a, a.plan.body.units[j], groundings[j].allowed, y.resolveType, y.resolveRef, g, q);
    assert p == q;
  }

  /** A direct conversation never sends anything. */
  lemma DirectSendsNothing(a: Attempt, groundings: seq<UnitGrounding>)
    requires ValidAttempt(a) && Grounded(a) == Ok(groundings) && |groundings| == |a.plan.body.units|
    requires CompiledPolicy(a.policy) && a.policy.scene == Direct
    ensures Actions(a.plan.body.units, groundings, |groundings|) == []
  {
    var actions := Actions(a.plan.body.units, groundings, |groundings|);
    if actions != [] {
      var _, _, _, _ := ActionProvenance(a, groundings, actions[0]);
    }
  }

  // ----- permission -----

  /** The unit check of the plan and the permission check of the business facts use
      separate tables; a unit that passed the first is never denied by the second,
      and a unit with an intent is always allowed. */
  lemma PermissionNeverDenied(unit: ExecUnit, policy: Policy)
    requires CompiledPolicy(policy) && UnitWithin(unit, policy)
    ensures UnitPermission(unit, policy) == UnknownPermission <==>
      unit.runtimeCapabilities == [] && unit.answerCapabilities == [] && unit.resolves == [] && unit.intents == []
    ensures UnitPermission(unit, policy) != Denied
  {
    assert EarnedRef(unit.manifestRef, policy);
    assert forall i :: 0 <= i < |unit.resolves| ==> unit.resolves[i] in unit.resolves;
    assert forall i :: 0 <= i < |unit.intents| ==> unit.intents[i] in unit.intents;
  }

  /** Enlarging a policy keeps an allowed unit allowed. */
  lemma PermissionIsMonotone(unit: ExecUnit, small: Policy, large: Policy)
    requires PolicyWithin(small, large) && UnitPermission(unit, small) == Allowed
    ensures UnitPermission(unit, large) == Allowed
  {
  }
}
