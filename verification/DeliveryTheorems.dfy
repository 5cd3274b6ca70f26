/** When an action is delivered, and why no reply built without the composer can
    exceed its policy. */
module DeliveryTheorems {
  import opened Wrappers
  import opened AuthorityTypes
  import opened PolicyCompiler
  import opened PlanCompiler
  import opened PlanMeaning
  import opened PlanTheorems
  import opened AdapterFacts
  import opened Grounding
  import opened ActionReply
  import opened AuthorityTheorems
  import opened FactOrder
  import MarkerScanner

  // ----- the evidence contracts the registry is sealed with -----

  const NO_HISTORY := HistoryConstraints(None, None, {})
  const NEVER_STALE := StalePolicy(None, true, false)

  function Contract(facts: set<FactType>, sources: set<SourceType>, forbidden: set<SourceType>, artifacts: set<ArtifactType>,
                    minFacts: nat): EvidenceContract
  {
    EvidenceContract(facts, {}, facts, {}, sources, forbidden, artifacts, artifacts, {}, minFacts,
                     false, NO_HISTORY, false, true, NEVER_STALE)
  }

  const SEND_FORBIDS: set<SourceType> := {FromAdapterReportScope, FromConversationHistory, FromDocumentMcp}
  const LIST_FORBIDS: set<SourceType> := {FromAdapterResolve, FromDocumentMcp}

  function SealedContract(id: ManifestId): EvidenceContract {
    match id
    case MaterialPackSend => Contract({MaterialPackResolvable}, {FromAdapterResolve}, SEND_FORBIDS, {ArtifactMaterialPack}, 1)
    case WeeklyReportSend => Contract({WeeklyReportResolvable}, {FromAdapterResolve}, SEND_FORBIDS, {ArtifactWeeklyReport}, 1)
    case MonthlyReportSend => Contract({MonthlyReportResolvable}, {FromAdapterResolve}, SEND_FORBIDS, {ArtifactMonthlyReport}, 1)
    case SalesHandoff => Contract({SalesMentionResolvable}, {FromAdapterResolve}, {}, {ArtifactAdapterContext}, 1)
    case WeeklyProductList => Contract({ReportScopeProducts}, {FromAdapterReportScope}, LIST_FORBIDS, {ArtifactWeeklyReport}, 1)
    case MonthlyProductList => Contract({ReportScopeProducts}, {FromAdapterReportScope}, LIST_FORBIDS, {ArtifactMonthlyReport}, 1)
    case InternalKnowledge => Contract({DocumentContext}, {FromApprovedStatic, FromDocumentMcp}, {}, {ArtifactDocument}, 1)
    case _ => Contract({}, {}, {}, {}, 0)
  }

  ghost predicate SealedContracts(registry: seq<Manifest>) {
    forall m :: m in registry ==> m.contract == SealedContract(m.id)
  }

  /** The type whose facts the contract of a manifest is for. */
  function OwnType(id: ManifestId): Option<ResolveType> {
    match id
    case MaterialPackSend => Some(MaterialPack)
    case WeeklyReportSend => Some(WeeklyReport)
    case MonthlyReportSend => Some(MonthlyReport)
    case SalesHandoff => Some(SalesMention)
    case _ => None
  }

  ghost predicate Serves(manifest: Manifest, t: ResolveType) {
    manifest.contract == SealedContract(manifest.id) && OwnType(manifest.id) == Some(t)
  }

  lemma SendManifestServes(manifest: Manifest, action: ActionType)
    requires manifest.contract == SealedContract(manifest.id) && ActionRequirement(manifest.id) == Some(action)
    ensures Serves(manifest, ResolveTypeOf(action))
  {
  }

  // ----- delivery -----

  /** A unit compiled to send what its manifest is for. */
  ghost predicate SendUnit(unit: ExecUnit, action: ActionType) {
    && ActionRequirement(unit.manifestRef.id) == Some(action)
    && (exists j :: 0 <= j < |unit.resolves| && unit.resolves[j].resolveType == ResolveTypeOf(action))
    && |unit.intents| == 1 && unit.intents[0].actionType == action
  }

  /** Every unit compiled from a `send` of a send manifest is one, and a unit for a
      material pack asks for the option its source unit asks for. */
  lemma CompiledSendUnit(registry: seq<Manifest>, policy: Policy, authority: ScopeAuthority, source: PlanSource, i: nat)
    requires i < SourceCount(source) && FinalizeAt(registry, policy, authority, source, i).Ok?
    requires SourceAnswerability(source, i) == Send
    requires ActionRequirement(SourceManifest(source, i)).Some?
    ensures var unit, action := FinalizeAt(registry, policy, authority, source, i).value, ActionRequirement(SourceManifest(source, i)).value;
      && SendUnit(unit, action)
      && unit.intents[0].materialOption == (if action == SendMaterialPack then SourceOption(source, i) else None)
  {
    hide ExecutionScope, Blank, FindManifest, SalesFallbackAllowed;
    var unit := FinalizeAt(registry, policy, authority, source, i).value;
    assert unit.manifestRef.id == SourceManifest(source, i);
    assert unit.resolves[0].resolveType == ResolveTypeOf(ActionRequirement(SourceManifest(source, i)).value);
  }

  /** Hashes without collisions, never empty. */
  ghost predicate FaithfulHashes(h: Hashes) {
    && (forall x, y :: h.fact(x) == h.fact(y) ==> x == y)
    && (forall x, y :: h.scope(x) == h.scope(y) ==> x == y)
    && (forall x :: h.record(x) != "")
    && (forall x :: h.scope(x) != "")
  }

  /** The only adapter-resolve facts are those built from this preflight, and the
      adapter names its contract version. */
  ghost predicate AdapterOnlyHere(a: Attempt) {
    && (forall f :: f in a.others ==> f.sourceType != FromAdapterResolve)
    && (forall x :: x in a.items && x.result.Some? ==> x.result.value.contractVersion != "")
  }

  lemma ResolvedVersioned(a: Attempt, t: ResolveType)
    requires AdapterOnlyHere(a) && t in Results(a.items)
    ensures Results(a.items)[t].contractVersion != ""
  {
    var p := ResultIsLastUsable(a.items, t);
    assert a.items[p] in a.items;
  }

  lemma {:induction false} UnitPairCovers(h: Hashes, unit: ExecUnit, results: map<ResolveType, AdapterResult>, n: nat, j: nat)
    returns (p: Pair)
    requires j < n <= |unit.resolves| && UsableResults(results) && UnitPairs(h, unit, results, n).Ok?
    requires unit.resolves[j].resolveType in results
    ensures p in UnitPairs(h, unit, results, n).value
    ensures DerivedFrom(h, unit, unit.resolves[j].resolveType, results, p.fact, p.binding)
  {
    if j < n - 1 {
      p := UnitPairCovers(h, unit, results, n - 1, j);
    } else {
      p := UnitPairs(h, unit, results, n).value[|UnitPairs(h, unit, results, n - 1).value|];
    }
  }

  lemma {:induction false} PlanPairCovers(h: Hashes, units: seq<ExecUnit>, results: map<ResolveType, AdapterResult>,
                                          n: nat, i: nat, j: nat) returns (p: Pair)
    requires i < n <= |units| && j < |units[i].resolves|
    requires UsableResults(results) && PlanPairs(h, units, results, n).Ok?
    requires units[i].resolves[j].resolveType in results
    ensures p in PlanPairs(h, units, results, n).value
    ensures DerivedFrom(h, units[i], units[i].resolves[j].resolveType, results, p.fact, p.binding)
  {
    if i < n - 1 {
      p := PlanPairCovers(h, units, results, n - 1, i, j);
    } else {
      p := UnitPairCovers(h, units[i], results, |units[i].resolves|, j);
    }
  }

  lemma {:induction false} DictCovers(pairs: seq<Pair>, p: Pair)
    requires p in pairs
    ensures exists k :: 0 <= k < |FactDict(pairs)| && FactDict(pairs)[k].0 == p.fact.id
  {
    var front, last := pairs[..|pairs| - 1], pairs[|pairs| - 1];
    var d := FactDict(front);
    var all := FactDict(pairs);
    if p in front {
      DictCovers(front, p);
      var k :| 0 <= k < |d| && d[k].0 == p.fact.id;
      assert all[k].0 == p.fact.id;
    } else {
      assert all[KeyIndex(d, last.fact.id)].0 == p.fact.id;
    }
  }

  /** A resolve of a unit whose type has a result yields a canonical fact with the
      unit's own scope. */
  lemma FactForResolve(a: Attempt, i: nat, j: nat) returns (fact: Fact)
    requires AdapterEvidence(a.h, a.plan, a.items) == Ok((a.facts, a.bindings)) && FaithfulHashes(a.h)
    requires i < |a.plan.body.units| && j < |a.plan.body.units[i].resolves|
    requires a.plan.body.units[i].resolves[j].resolveType in Results(a.items)
    ensures fact in a.facts
    ensures var unit := a.plan.body.units[i]; var t := unit.resolves[j].resolveType;
      && Results(a.items)[t].resolveRef.Some?
      && fact == MakeFact(a.h, unit, t, Results(a.items)[t], Results(a.items)[t].resolveRef.value)
  {
    hide FaithfulHashes, MakeFact, FactDict, BindingDict;
    var units, results := a.plan.body.units, Results(a.items);
    ResultsUsable(a.items);
    var pairs := PlanPairs(a.h, units, results, |units|).value;
    var p := PlanPairCovers(a.h, units, results, |units|, i, j);
    var t := units[i].resolves[j].resolveType;
    DictCovers(pairs, p);
    var k :| 0 <= k < |FactDict(pairs)| && FactDict(pairs)[k].0 == p.fact.id;
    PlanPairsDerived(a.h, units, results, |units|);
    DictsAligned(pairs);
    fact := a.facts[k];
    assert Pair(a.facts[k], a.bindings[k]) in pairs;
    var x, y :| 0 <= x < |units| && 0 <= y < |units[x].resolves|
      && DerivedFrom(a.h, units[x], units[x].resolves[y].resolveType, results, a.facts[k], a.bindings[k]);
    SameIdSameFact(a.h, units[i], t, units[x], units[x].resolves[y].resolveType, results);
  }

  lemma SameIdSameFact(h: Hashes, u: ExecUnit, t: ResolveType, v: ExecUnit, s: ResolveType, results: map<ResolveType, AdapterResult>)
    requires FaithfulHashes(h) && UsableResults(results) && t in results && s in results
    requires FactOf(h, u, t, results).id == FactOf(h, v, s, results).id
    ensures FactOf(h, u, t, results) == FactOf(h, v, s, results)
  {
    var p := MakeProvenance(h, u, t, results[t], results[t].resolveRef.value);
    var q := MakeProvenance(h, v, s, results[s], results[s].resolveRef.value);
    assert FactTypeFor(t) == FactTypeFor(s) && p.scopeRef == q.scopeRef;
    assert t == s;
    assert ScopeForUnit(u, ArtifactFor(t)) == ScopeForUnit(v, ArtifactFor(s));
  }

  /** A canonical adapter fact of the manifest's own type is admitted exactly when it
      was made for a unit with a like scope. */
  lemma OwnFactAdmitted(a: Attempt, from: ExecUnit, unit: ExecUnit, manifest: Manifest, t: ResolveType)
    requires FaithfulHashes(a.h) && AdapterOnlyHere(a) && UsableResults(Results(a.items))
    requires Serves(manifest, t)
    requires t in Results(a.items)
    ensures Admitted(FactOf(a.h, from, t, Results(a.items)), unit, manifest, a.w.now) <==>
      Alike(from.scope, unit.scope)
  {
    ResolvedVersioned(a, t);
  }

  /** What the contract of a send manifest lets in. */
  lemma SendContractAdmits(unit: ExecUnit, manifest: Manifest, t: ResolveType, f: Fact, now: Option<int>)
    requires Serves(manifest, t)
    requires Admitted(f, unit, manifest, now)
    ensures f.sourceType == FromAdapterResolve && f.factType == FactTypeFor(t)
  {
  }

  /** A binding that carries the winning result of a type. */
  ghost predicate Carries(b: Binding, result: AdapterResult) {
    Some(b.resolveRef) == result.resolveRef && b.period == result.period && b.reportDate == result.reportDate
  }

  ghost predicate AdapterFact(f: Fact, t: ResolveType) {
    f.resolveType == Some(t) && f.value == BooleanValue(true) && f.summary.None?
  }

  /** Evidence of a send unit: nothing but adapter facts of its type, each bound to
      the winning result. */
  lemma SendEvidence(a: Attempt, unit: ExecUnit, manifest: Manifest, t: ResolveType, f: Fact) returns (b: Binding)
    requires ValidAttempt(a) && AdapterOnlyHere(a)
    requires Serves(manifest, t)
    requires f in a.facts + a.others && Admitted(f, unit, manifest, a.w.now)
    ensures AdapterFact(f, t) && f.factType == FactTypeFor(t)
    ensures t in Results(a.items)
    ensures b in a.bindings && Matches(f, b) && Carries(b, Results(a.items)[t])
  {
    hide Admitted, SealedContract, Derived, AdapterEvidence, UnitsWithin, RegisteredRefs, Results, UsableResults;
    SendContractAdmits(unit, manifest, t, f, a.w.now);
    assert f in a.facts;
    EvidenceAligned(a.h, a.plan, a.items, a.facts, a.bindings);
    var i :| 0 <= i < |a.facts| && a.facts[i] == f;
    b := a.bindings[i];
    DerivedEvidence(a.h, a.plan.body.units, Results(a.items), f, b);
    assert b.resolveType == t;
  }

  lemma DerivedEvidence(h: Hashes, units: seq<ExecUnit>, results: map<ResolveType, AdapterResult>, f: Fact, b: Binding)
    requires UsableResults(results) && Derived(h, units, results, f, b)
    ensures b.resolveType in results && Carries(b, results[b.resolveType])
    ensures AdapterFact(f, b.resolveType) && f.factType == FactTypeFor(b.resolveType)
  {
  }

  lemma NoSummary(facts: seq<Fact>, t: ResolveType)
    requires forall f :: f in facts ==> f.summary.None?
    ensures FirstSummary(facts, t).None?
  {
    if facts != [] {
      assert facts[0] in facts;
      NoSummary(facts[1..], t);
    }
  }

  /** The first fact of the type is bound to the winning result. */
  ghost predicate BoundToResult(facts: seq<Fact>, bound: map<string, Binding>, t: ResolveType, result: AdapterResult) {
    var f := FirstResolvable(facts, t);
    && f.Some? && AdapterFact(f.value, t)
    && BindingFor(f.value, bound, t).Some? && Carries(BindingFor(f.value, bound, t).value, result)
  }

  lemma OwnFactAllowed(a: Attempt, i: nat, manifest: Manifest, t: ResolveType) returns (own: Fact)
    requires ValidAttempt(a) && i < |a.plan.body.units|
    requires FaithfulHashes(a.h) && AdapterOnlyHere(a)
    requires Serves(manifest, t)
    requires Asks(a.plan.body.units[i], t, |a.plan.body.units[i].resolves|)
    requires t in Results(a.items)
    ensures own in AdmittedFacts(a.facts + a.others, a.plan.body.units[i], manifest, a.w.now)
    ensures own.factType == FactTypeFor(t) && own.resolveType == Some(t)
  {
    var unit := a.plan.body.units[i];
    var j :| 0 <= j < |unit.resolves| && unit.resolves[j].resolveType == t;
    own := FactForResolve(a, i, j);
    ResultsUsable(a.items);
    OwnFactAdmitted(a, unit, unit, manifest, t);
    assert own in a.facts + a.others;
    SendRequirements(Candidates(a.facts + a.others, unit, manifest, a.w.now), manifest, t, own);
  }

  lemma SendUnitAsks(unit: ExecUnit, action: ActionType)
    requires SendUnit(unit, action)
    ensures Asks(unit, ResolveTypeOf(action), |unit.resolves|)
  {
  }

  lemma SendBound(a: Attempt, i: nat, manifest: Manifest, allowed: seq<Fact>, bound: map<string, Binding>, t: ResolveType)
    requires ValidAttempt(a) && i < |a.plan.body.units|
    requires FaithfulHashes(a.h) && AdapterOnlyHere(a) && DistinctFacts(allowed)
    requires Serves(manifest, t)
    requires Asks(a.plan.body.units[i], t, |a.plan.body.units[i].resolves|)
    requires allowed == AdmittedFacts(a.facts + a.others, a.plan.body.units[i], manifest, a.w.now)
    requires ValidBindings(allowed, BindingsOf(a.bindings, allowed)) == Ok(bound)
    requires t in Results(a.items)
    ensures BoundToResult(allowed, bound, t, Results(a.items)[t])
  {
    hide ValidAttempt, FaithfulHashes, AdapterOnlyHere, SendUnit, Asks, Admitted, SealedContract, Results, DistinctFacts, AllMatched,
         DistinctBindings, FactTypeFor;
    var unit := a.plan.body.units[i];
    var own := OwnFactAllowed(a, i, manifest, t);
    var f := FirstResolvable(allowed, t).value;
    var b := SendEvidence(a, unit, manifest, t, f);
    assert b in BindingsOf(a.bindings, allowed);
    ValidBindingsExact(allowed, BindingsOf(a.bindings, allowed));
    assert bound[f.id] == b;
  }

  /** Equal ids mean equal facts. */
  lemma FactsConsistent(a: Attempt, pairs: seq<Pair>)
    requires FaithfulHashes(a.h) && UsableResults(Results(a.items))
    requires PlanPairs(a.h, a.plan.body.units, Results(a.items), |a.plan.body.units|) == Ok(pairs)
    ensures OneFactPerId(FactsOf(pairs))
  {
    hide FaithfulHashes, FactOf, FactsOf, PlanPairs, Results, UsableResults;
    forall f, g | f in FactsOf(pairs) && g in FactsOf(pairs) && f.id == g.id ensures f == g {
      var u, t := FactSource(a, pairs, f);
      var v, r := FactSource(a, pairs, g);
      SameIdSameFact(a.h, u, t, v, r, Results(a.items));
    }
  }

  lemma FactSource(a: Attempt, pairs: seq<Pair>, f: Fact) returns (unit: ExecUnit, t: ResolveType)
    requires UsableResults(Results(a.items)) && f in FactsOf(pairs)
    requires PlanPairs(a.h, a.plan.body.units, Results(a.items), |a.plan.body.units|) == Ok(pairs)
    ensures t in Results(a.items) && f == FactOf(a.h, unit, t, Results(a.items))
  {
    hide MakeFact, MakeBinding, Results, PlanPairs;
    var units, results := a.plan.body.units, Results(a.items);
    PlanPairsDerived(a.h, units, results, |units|);
    var i :| 0 <= i < |pairs| && FactsOf(pairs)[i] == f;
    assert pairs[i] in pairs;
    var u, x :| 0 <= u < |units| && 0 <= x < |units[u].resolves|
      && DerivedFrom(a.h, units[u], units[u].resolves[x].resolveType, results, f, pairs[i].binding);
    unit, t := units[u], units[u].resolves[x].resolveType;
  }

  /** The first canonical fact of a type that fits a scope comes from the first unit of
      the plan that resolves the type in a like scope. */
  lemma FirstCanonicalFact(a: Attempt, t: ResolveType, scope: ExecScope, p: Fact -> bool)
    requires AdapterEvidence(a.h, a.plan, a.items) == Ok((a.facts, a.bindings)) && FaithfulHashes(a.h)
    requires UsableResults(Results(a.items)) && t in Results(a.items)
    requires forall f :: p(f) ==> f.resolveType == Some(t)
    requires forall u :: u in a.plan.body.units ==> (p(FactOf(a.h, u, t, Results(a.items))) <==> Alike(u.scope, scope))
    ensures First(a.facts, p) ==
      match FirstAlike(a.plan.body.units, scope, t) case None => None case Some(u) => Some(FactOf(a.h, u, t, Results(a.items)))
  {
    hide FaithfulHashes, FactOf, Alike, Results, FactDict, BindingDict, PlanPairs, First, OneFactPerId, UsableResults;
    var units := a.plan.body.units;
    var pairs := PlanPairs(a.h, units, Results(a.items), |units|).value;
    FactsConsistent(a, pairs);
    DictInOrder(pairs, p);
    PlanInOrder(a.h, units, Results(a.items), |units|, t, scope, p);
    assert units[..|units|] == units;
  }

  /** The first fact of its own type a send unit meets was made for the first unit of the
      plan that resolves the type in a like scope, which may be an earlier one. */
  lemma FirstFactMet(a: Attempt, unit: ExecUnit, manifest: Manifest, t: ResolveType)
    requires ValidAttempt(a) && FaithfulHashes(a.h) && AdapterOnlyHere(a)
    requires Serves(manifest, t)
    requires t in Results(a.items) && UsableResults(Results(a.items))
    requires AdmittedFacts(a.facts + a.others, unit, manifest, a.w.now) != []
    ensures var from := FirstAlike(a.plan.body.units, unit.scope, t);
      FirstResolvable(AdmittedFacts(a.facts + a.others, unit, manifest, a.w.now), t) ==
        if from.None? then None else Some(FactOf(a.h, from.value, t, Results(a.items)))
  {
    hide Admitted, SealedContract, FaithfulHashes, AdapterOnlyHere, Alike, UsableResults, Results, AdapterEvidence, First,
         UnitsWithin, RegisteredRefs, FirstResolvable, Candidates;
    var all := a.facts + a.others;
    var p: Fact -> bool := f => OfType(f, t) && Admitted(f, unit, manifest, a.w.now);
    CandidatesInOrder(all, unit, manifest, a.w.now, t, p);
    forall u | u in a.plan.body.units ensures p(FactOf(a.h, u, t, Results(a.items))) <==> Alike(u.scope, unit.scope) {
      OwnFactAdmitted(a, u, unit, manifest, t);
    }
    FirstCanonicalFact(a, t, unit.scope, p);
    OthersNotMet(a, unit, manifest, t, p);
    FirstConcat(a.facts, a.others, p);
  }

  lemma OthersNotMet(a: Attempt, unit: ExecUnit, manifest: Manifest, t: ResolveType, p: Fact -> bool)
    requires AdapterOnlyHere(a)
    requires Serves(manifest, t)
    requires forall f :: p(f) ==> Admitted(f, unit, manifest, a.w.now)
    ensures First(a.others, p).None?
  {
    hide Admitted, SealedContract;
    forall f | f in a.others ensures !p(f) {
      if p(f) {
        SendContractAdmits(unit, manifest, t, f, a.w.now);
      }
    }
    FirstNone(a.others, p);
  }

  /** The option in the scope of the first unit that resolves the type in a like scope. */
  function FirstOption(units: seq<ExecUnit>, scope: ExecScope, t: ResolveType): Option<string> {
    var from := FirstAlike(units, scope, t);
    if from.Some? && from.value.scope.DistributionScope? then from.value.scope.materialOption else None
  }

  lemma FirstOptionMet(a: Attempt, unit: ExecUnit, manifest: Manifest, t: ResolveType)
    requires ValidAttempt(a) && FaithfulHashes(a.h) && AdapterOnlyHere(a)
    requires Serves(manifest, t)
    requires t in Results(a.items)
    ensures var f := FirstResolvable(AdmittedFacts(a.facts + a.others, unit, manifest, a.w.now), t);
      f.Some? ==> f.value.scope.materialOption == FirstOption(a.plan.body.units, unit.scope, t)
  {
    hide ValidAttempt, FaithfulHashes, AdapterOnlyHere, SealedContract, Results, AdmittedFacts, MakeProvenance;
    ResultsUsable(a.items);
    if AdmittedFacts(a.facts + a.others, unit, manifest, a.w.now) != [] {
      FirstFactMet(a, unit, manifest, t);
    }
  }

  /** The state of the type a send unit resolves. */
  ghost predicate SendStateIs(a: Attempt, unit: ExecUnit, manifest: Manifest, g: UnitGrounding, bound: map<string, Binding>, t: ResolveType) {
    && DeclaredOrAdmitted(unit, manifest, t)
    && FirstSummary(g.allowed, t).None?
    && (if t in Results(a.items)
        then BoundToResult(g.allowed, bound, t, Results(a.items)[t])
          && FirstResolvable(g.allowed, t).value.scope.materialOption == FirstOption(a.plan.body.units, unit.scope, t)
        else FirstResolvable(g.allowed, t).None?)
  }

  lemma SendState(a: Attempt, i: nat, manifest: Manifest, g: UnitGrounding, bound: map<string, Binding>, t: ResolveType)
    requires ValidAttempt(a) && i < |a.plan.body.units|
    requires FaithfulHashes(a.h) && AdapterOnlyHere(a) && DistinctFacts(g.allowed)
    requires Serves(manifest, t)
    requires Asks(a.plan.body.units[i], t, |a.plan.body.units[i].resolves|)
    requires g.allowed == AdmittedFacts(a.facts + a.others, a.plan.body.units[i], manifest, a.w.now)
    requires ValidBindings(g.allowed, BindingsOf(a.bindings, g.allowed)) == Ok(bound)
    ensures SendStateIs(a, a.plan.body.units[i], manifest, g, bound, t)
  {
    var unit := a.plan.body.units[i];
    forall f | f in g.allowed ensures f.summary.None? && t in Results(a.items) {
      var _ := SendEvidence(a, unit, manifest, t, f);
    }
    NoSummary(g.allowed, t);
    if t in Results(a.items) {
      SendBound(a, i, manifest, g.allowed, bound, t);
      FirstOptionMet(a, unit, manifest, t);
    }
  }

  lemma SendRequirements(facts: seq<Fact>, manifest: Manifest, t: ResolveType, own: Fact)
    requires Serves(manifest, t)
    requires own in facts && own.factType == FactTypeFor(t) && own.artifactType == ArtifactFor(t)
    ensures RequirementsMet(facts, manifest.contract)
  {
  }

  /** What a result must give for its action to be complete. */
  ghost predicate Complete(t: ResolveType, result: AdapterResult) {
    IsReport(t) ==> result.period.Some? && result.reportDate.Some?
  }

  /** Everything the action of a send unit holds: the reference of the winning result;
      for a report its period and its date as the date reader gives it; for a material
      pack the option asked for, or else the option of the first unit that resolves the
      pack in a like scope. */
  ghost predicate Delivers(a: Attempt, unit: ExecUnit, intent: ActionIntent, sent: OutboundAction) {
    var t := ResolveTypeOf(intent.actionType);
    && t in Results(a.items)
    && var result := Results(a.items)[t];
    && result.resolveRef.Some?
    && sent.actionType == intent.actionType && sent.resolveType == t && Some(sent.resolveRef) == result.resolveRef
    && (IsReport(t) ==>
          sent.period == result.period && result.reportDate.Some? && sent.reportDate == a.w.dates(result.reportDate.value))
    && (!IsReport(t) ==> sent.period.None? && sent.reportDate.None?)
    && sent.materialOption ==
         (if IsReport(t) then None
          else if AsksOption(intent) then intent.materialOption
          else FirstOption(a.plan.body.units, unit.scope, t))
  }

  /** An empty option counts as none. */
  predicate AsksOption(intent: ActionIntent) {
    intent.materialOption.Some? && intent.materialOption.value != ""
  }

  /** From the state of its type to the action of a send unit. */
  lemma SentFromState(a: Attempt, unit: ExecUnit, manifest: Manifest, g: UnitGrounding, bound: map<string, Binding>,
                      intent: ActionIntent)
    requires SendStateIs(a, unit, manifest, g, bound, ResolveTypeOf(intent.actionType))
    requires g.business.materialPack == UnitResolvable(unit, manifest, g.allowed, bound, MaterialPack)
    requires Ok(g.business.weekly) == UnitReport(unit, manifest, g.allowed, bound, WeeklyReport, a.w.dates)
    requires Ok(g.business.monthly) == UnitReport(unit, manifest, g.allowed, bound, MonthlyReport, a.w.dates)
    ensures var t := ResolveTypeOf(intent.actionType); var sent := ActionFrom(intent, g.business);
      && (sent.Some? <==> (t in Results(a.items) && Complete(t, Results(a.items)[t])))
      && (sent.Some? ==> Delivers(a, unit, intent, sent.value))
  {
    match intent.actionType
    case SendMaterialPack =>
    case SendWeeklyReport =>
    case SendMonthlyReport =>
  }

  lemma {:induction false} IntentIsListed(unit: ExecUnit, facts: BusinessFacts, n: nat, j: nat, action: OutboundAction)
    requires j < n <= |unit.intents| && ActionFrom(unit.intents[j], facts) == Some(action)
    ensures action in UnitActions(unit, facts, n)
  {
    if j < n - 1 {
      IntentIsListed(unit, facts, n - 1, j, action);
    }
  }

  /** What an allowed unit sends leaves with the reply. */
  lemma {:induction false} SentIsListed(units: seq<ExecUnit>, groundings: seq<UnitGrounding>, n: nat, i: nat, j: nat,
                                        action: OutboundAction)
    requires i < n <= |units| == |groundings| && j < |units[i].intents|
    requires groundings[i].business.permission == Allowed && ActionFrom(units[i].intents[j], groundings[i].business) == Some(action)
    ensures action in Actions(units, groundings, n)
  {
    if i < n - 1 {
      SentIsListed(units, groundings, n - 1, i, j, action);
    } else {
      IntentIsListed(units[i], groundings[i].business, |units[i].intents|, j, action);
    }
  }

  /** Unit `i` sends its one action if and only if the preflight resolved its type
      completely; the action holds exactly what the adapter gave last and the option, and
      is among the actions of the reply. */
  ghost predicate DeliveredExactly(a: Attempt, groundings: seq<UnitGrounding>, i: nat, action: ActionType)
    requires i < |a.plan.body.units| == |groundings| && |a.plan.body.units[i].intents| == 1
  {
    var t, sent := ResolveTypeOf(action), ActionFrom(a.plan.body.units[i].intents[0], groundings[i].business);
    && groundings[i].business.permission == Allowed
    && (sent.Some? <==> (t in Results(a.items) && Complete(t, Results(a.items)[t])))
    && (sent.Some? ==>
          && sent.value.actionType == action && Delivers(a, a.plan.body.units[i], a.plan.body.units[i].intents[0], sent.value)
          && sent.value in Actions(a.plan.body.units, groundings, |groundings|))
  }

  /** Delivery: a send unit of a plan within a compiled policy yields an action
      exactly when the preflight holds a usable item of its resolve type and, for a
      report, the last such item gives both period and date; the action then carries
      the reference of that item and leaves with the reply. */
  lemma SendDeliveredExactly(a: Attempt, groundings: seq<UnitGrounding>, i: nat, action: ActionType)
    requires ValidAttempt(a) && Grounded(a) == Ok(groundings) && i < |a.plan.body.units| == |groundings|
    requires CompiledPolicy(a.policy)
    requires FaithfulHashes(a.h) && AdapterOnlyHere(a) && SealedContracts(a.w.registry)
    requires SendUnit(a.plan.body.units[i], action)
    ensures DeliveredExactly(a, groundings, i, action)
  {
    var unit := a.plan.body.units[i];
    assert UnitWithin(unit, a.policy);
    PermissionNeverDenied(unit, a.policy);
    var manifest, bound := GroundedUnit(a, groundings, i);
    assert manifest in a.w.registry;
    SendManifestServes(manifest, action);
    SendUnitAsks(unit, action);
    SendState(a, i, manifest, groundings[i], bound, ResolveTypeOf(action));
    SentFromState(a, unit, manifest, groundings[i], bound, unit.intents[0]);
    var sent := ActionFrom(unit.intents[0], groundings[i].business);
    if sent.Some? {
      SentIsListed(a.plan.body.units, groundings, |groundings|, i, 0, sent.value);
    }
  }

  /** A plan compiled under a compiled policy makes a valid attempt. */
  lemma CompiledAttempt(request: Request, authority: ScopeAuthority, recall: RecallMode, source: PlanSource, origin: PlanOrigin,
                        planHash: PlanBody -> string, a: Attempt)
    requires SealedRegistry(a.w.registry)
    requires CompilePolicy(a.w.registry, request, authority, recall) == Ok(a.policy)
    requires Compile(a.w.registry, a.policy, authority, source, origin, planHash) == Ok(a.plan)
    requires AdapterEvidence(a.h, a.plan, a.items) == Ok((a.facts, a.bindings))
    ensures ValidAttempt(a) && CompiledPolicy(a.policy)
  {
    hide SealedRegistry, Compile, AdapterEvidence, CompiledPolicy, UnitsWithin, RegisteredRefs, DraftPolicy, UniqueManifests;
    DraftIsCompiled(a.w.registry, request, recall);
    SealedRegistryUnique(a.w.registry);
    DraftRefsRegistered(a.w.registry, request, recall);
    CompiledUnitsWithin(a.w.registry, a.policy, authority, source, origin, planHash, a.plan);
  }

  /** The whole pipeline, from grants to the outbound action: over the sealed registry,
      a plan unit that asks to send a send manifest's artifact is delivered exactly
      when the adapter resolved it, with the reference the adapter gave last. */
  lemma SendEndToEnd(request: Request, authority: ScopeAuthority, recall: RecallMode, source: PlanSource, origin: PlanOrigin,
                     planHash: PlanBody -> string, a: Attempt, groundings: seq<UnitGrounding>, i: nat)
    requires SealedRegistry(a.w.registry) && SealedContracts(a.w.registry)
    requires CompilePolicy(a.w.registry, request, authority, recall) == Ok(a.policy)
    requires Compile(a.w.registry, a.policy, authority, source, origin, planHash) == Ok(a.plan)
    requires AdapterEvidence(a.h, a.plan, a.items) == Ok((a.facts, a.bindings))
    requires FaithfulHashes(a.h) && AdapterOnlyHere(a)
    requires Grounded(a) == Ok(groundings)
    requires i < SourceCount(source) && SourceAnswerability(source, i) == Send
    requires ActionRequirement(SourceManifest(source, i)).Some?
    ensures i < |a.plan.body.units| == |groundings| && |a.plan.body.units[i].intents| == 1
    ensures DeliveredExactly(a, groundings, i, ActionRequirement(SourceManifest(source, i)).value)
    ensures SourceManifest(source, i) == MaterialPackSend ==>
      a.plan.body.units[i].intents[0].materialOption == SourceOption(source, i)
  {
    hide *;
    CompiledAttempt(request, authority, recall, source, origin, planHash, a);
    CompiledUnits(a.w.registry, a.policy, authority, source, origin, planHash, a.plan);
    CompiledSendUnit(a.w.registry, a.policy, authority, source, i);
    var _, _ := GroundedUnit(a, groundings, i);
    var action := ActionRequirement(SourceManifest(source, i)).value;
    SendUnitHasIntent(a.plan.body.units[i], action);
    SendDeliveredExactly(a, groundings, i, action);
    PackRequirement(SourceManifest(source, i));
  }

  lemma SendUnitHasIntent(unit: ExecUnit, action: ActionType)
    requires SendUnit(unit, action)
    ensures |unit.intents| == 1
  {
  }

  lemma PackRequirement(id: ManifestId)
    ensures ActionRequirement(id) == Some(SendMaterialPack) <==> id == MaterialPackSend
  {
  }

  // ----- who sends -----

  /** What the contract of a manifest must be like to let in the fact of a sendable type. */
  lemma OnlySendManifestsAdmit(unit: ExecUnit, manifest: Manifest, action: ActionType, f: Fact, now: Option<int>)
    requires manifest.contract == SealedContract(manifest.id)
    requires Admitted(f, unit, manifest, now) && f.factType == FactTypeFor(ResolveTypeOf(action))
    ensures ActionRequirement(manifest.id) == Some(action)
  {
    hide ScopeMatches, HistoryAllowed, StalenessAllowed, HasProvenance;
  }

  /** Only a unit of the send manifest of its type yields an action; a product-list unit
      that asks to send carries the intent but never yields one. */
  lemma OnlySendManifestsSend(a: Attempt, groundings: seq<UnitGrounding>, i: nat, j: nat)
    requires Grounded(a) == Ok(groundings) && SealedContracts(a.w.registry)
    requires i < |a.plan.body.units| == |groundings| && j < |a.plan.body.units[i].intents|
    ensures var unit := a.plan.body.units[i];
      ActionFrom(unit.intents[j], groundings[i].business).Some? ==>
        ActionRequirement(unit.manifestRef.id) == Some(unit.intents[j].actionType)
  {
    hide SealedContract, Admitted, AdmittedFacts, UnitResolvable, UnitReport, UnitPermission, DistinctFacts, ValidBindings, BindingsOf,
         Grounded, FindManifest, FactTypeFor;
    var unit, g := a.plan.body.units[i], groundings[i];
    var manifest, bound := GroundedUnit(a, groundings, i);
    var sent := ActionFrom(unit.intents[j], g.business);
    if sent.Some? {
      ActionReference(unit, manifest, a.policy, g.allowed, bound, a.w.dates, g.business, unit.intents[j], sent.value);
      var f, _ := StateBinding(unit, manifest, g.allowed, bound, sent.value.resolveType);
      OnlySendManifestsAdmit(unit, manifest, unit.intents[j].actionType, f, a.w.now);
    }
  }

  lemma {:induction false} NoUnitActions(unit: ExecUnit, facts: BusinessFacts, n: nat)
    requires n <= |unit.intents| && forall j :: 0 <= j < n ==> ActionFrom(unit.intents[j], facts).None?
    ensures UnitActions(unit, facts, n) == []
  {
    hide ActionFrom;
    if n > 0 {
      NoUnitActions(unit, facts, n - 1);
    }
  }

  /** A unit of any other manifest adds nothing to the reply. */
  lemma OthersSendNothing(a: Attempt, groundings: seq<UnitGrounding>, i: nat)
    requires Grounded(a) == Ok(groundings) && SealedContracts(a.w.registry)
    requires i < |a.plan.body.units| == |groundings|
    requires ActionRequirement(a.plan.body.units[i].manifestRef.id).None?
    ensures UnitActions(a.plan.body.units[i], groundings[i].business, |a.plan.body.units[i].intents|) == []
  {
    hide Grounded, SealedContracts, ActionFrom;
    forall j | 0 <= j < |a.plan.body.units[i].intents|
      ensures ActionFrom(a.plan.body.units[i].intents[j], groundings[i].business).None?
    {
      OnlySendManifestsSend(a, groundings, i, j);
    }
    NoUnitActions(a.plan.body.units[i], groundings[i].business, |a.plan.body.units[i].intents|);
  }

  // ----- an option of no characters -----

  /** A material-pack unit whose first pack fact would carry an option that a state does
      not accept. */
  predicate Spoiled(units: seq<ExecUnit>, i: nat)
    requires i < |units|
  {
    units[i].manifestRef.id == MaterialPackSend && !OptionFits(FirstOption(units, units[i].scope, MaterialPack))
  }

  /** Every material-pack unit resolves its pack. */
  ghost predicate PacksResolve(units: seq<ExecUnit>) {
    forall i :: 0 <= i < |units| && units[i].manifestRef.id == MaterialPackSend ==>
      Asks(units[i], MaterialPack, |units[i].resolves|)
  }

  lemma CompiledPacksResolve(registry: seq<Manifest>, policy: Policy, authority: ScopeAuthority, source: PlanSource,
                             origin: PlanOrigin, planHash: PlanBody -> string, plan: ExecPlan)
    requires Compile(registry, policy, authority, source, origin, planHash) == Ok(plan)
    ensures PacksResolve(plan.body.units)
  {
    hide Compile;
    CompiledUnits(registry, policy, authority, source, origin, planHash, plan);
    forall i | 0 <= i < |plan.body.units| && plan.body.units[i].manifestRef.id == MaterialPackSend
      ensures Asks(plan.body.units[i], MaterialPack, |plan.body.units[i].resolves|)
    {
      PackUnitResolves(registry, policy, authority, source, i);
    }
  }

  lemma PackUnitResolves(registry: seq<Manifest>, policy: Policy, authority: ScopeAuthority, source: PlanSource, i: nat)
    requires i < SourceCount(source) && FinalizeAt(registry, policy, authority, source, i).Ok?
    ensures var unit := FinalizeAt(registry, policy, authority, source, i).value;
      unit.manifestRef.id == MaterialPackSend ==> Asks(unit, MaterialPack, |unit.resolves|)
  {
    var unit := FinalizeAt(registry, policy, authority, source, i).value;
    if unit.manifestRef.id == MaterialPackSend {
      assert unit.resolves[0].resolveType == MaterialPack;
    }
  }

  lemma OtherManifestsMeetNoPack(unit: ExecUnit, manifest: Manifest, facts: seq<Fact>, now: Option<int>)
    requires manifest.contract == SealedContract(manifest.id) && manifest.id != MaterialPackSend
    requires forall f :: f in facts ==> Admitted(f, unit, manifest, now)
    ensures PackOption(unit, manifest, facts).None?
  {
    hide Admitted, SealedContract, DeclaredOrAdmitted;
    var first := FirstResolvable(facts, MaterialPack);
    if first.Some? {
      OnlySendManifestsAdmit(unit, manifest, SendMaterialPack, first.value, now);
      PackRequirement(manifest.id);
    }
  }

  /** The option a pack unit meets, when the pack is resolved. */
  lemma PackOptionMet(a: Attempt, i: nat, manifest: Manifest)
    requires ValidAttempt(a) && FaithfulHashes(a.h) && AdapterOnlyHere(a) && i < |a.plan.body.units|
    requires manifest.contract == SealedContract(manifest.id) && manifest.id == MaterialPackSend
    requires Asks(a.plan.body.units[i], MaterialPack, |a.plan.body.units[i].resolves|)
    ensures var unit := a.plan.body.units[i];
      PackOption(unit, manifest, AdmittedFacts(a.facts + a.others, unit, manifest, a.w.now)) ==
        if MaterialPack in Results(a.items) then FirstOption(a.plan.body.units, unit.scope, MaterialPack) else None
  {
    hide ValidAttempt, FaithfulHashes, AdapterOnlyHere, SealedContract, Results, Admitted, FirstOption, AdmittedFacts;
    var unit := a.plan.body.units[i];
    var allowed := AdmittedFacts(a.facts + a.others, unit, manifest, a.w.now);
    if MaterialPack in Results(a.items) {
      var _ := OwnFactAllowed(a, i, manifest, MaterialPack);
      FirstOptionMet(a, unit, manifest, MaterialPack);
    } else if FirstResolvable(allowed, MaterialPack).Some? {
      var _ := SendEvidence(a, unit, manifest, MaterialPack, FirstResolvable(allowed, MaterialPack).value);
    }
  }

  lemma UnitSpoiledExactly(a: Attempt, i: nat)
    requires ValidAttempt(a) && FaithfulHashes(a.h) && AdapterOnlyHere(a) && SealedContracts(a.w.registry)
    requires DistinctFacts(a.facts + a.others) && |a.facts + a.others| <= 32 && ReadsAll(a.w.dates)
    requires PacksResolve(a.plan.body.units) && i < |a.plan.body.units|
    ensures GroundUnit(a.w, a.plan.body.units[i], a.policy, a.facts + a.others, a.bindings).Err? <==>
      MaterialPack in Results(a.items) && Spoiled(a.plan.body.units, i)
  {
    hide FaithfulHashes, AdapterOnlyHere, SealedContract, Results, Admitted, FirstOption, PackOption, GroundUnit, Candidates,
         AdapterEvidence, DistinctFacts, ReadsAll, Asks, RequirementsMet, BoundToUnit;
    var unit := a.plan.body.units[i];
    assert UnitWithin(unit, a.policy);
    var manifest := FindManifest(a.w.registry, unit.manifestRef.id).value;
    var allowed := AdmittedFacts(a.facts + a.others, unit, manifest, a.w.now);
    assert |allowed| <= |a.facts + a.others|;
    GroundUnitOutcome(a, unit, manifest);
    if manifest.id == MaterialPackSend {
      PackOptionMet(a, i, manifest);
    } else {
      OtherManifestsMeetNoPack(unit, manifest, allowed, a.w.now);
    }
  }

  /** When the evidence is small, distinct and readable, grounding a compiled plan fails
      exactly if the adapter resolved the material pack and, for some pack unit, the
      first unit that resolves the pack in a like scope asks for an option of no
      characters. The plan and every check before let such an option pass. */
  lemma GroundingFailsExactly(request: Request, authority: ScopeAuthority, recall: RecallMode, source: PlanSource, origin: PlanOrigin,
                              planHash: PlanBody -> string, a: Attempt)
    requires SealedRegistry(a.w.registry) && SealedContracts(a.w.registry)
    requires CompilePolicy(a.w.registry, request, authority, recall) == Ok(a.policy)
    requires Compile(a.w.registry, a.policy, authority, source, origin, planHash) == Ok(a.plan)
    requires AdapterEvidence(a.h, a.plan, a.items) == Ok((a.facts, a.bindings))
    requires FaithfulHashes(a.h) && AdapterOnlyHere(a)
    requires DistinctFacts(a.facts + a.others) && |a.facts + a.others| <= 32 && ReadsAll(a.w.dates)
    ensures Grounded(a).Err? <==>
      MaterialPack in Results(a.items) && exists i :: 0 <= i < |a.plan.body.units| && Spoiled(a.plan.body.units, i)
  {
    hide *;
    CompiledAttempt(request, authority, recall, source, origin, planHash, a);
    CompiledPacksResolve(a.w.registry, a.policy, authority, source, origin, planHash, a.plan);
    GroundedByUnits(a);
    forall i | 0 <= i < |a.plan.body.units|
      ensures GroundUnit(a.w, a.plan.body.units[i], a.policy, a.facts + a.others, a.bindings).Err? <==>
        MaterialPack in Results(a.items) && Spoiled(a.plan.body.units, i)
    {
      UnitSpoiledExactly(a, i);
    }
  }

  // ----- replies that need no composer -----

  lemma OnlyHandoffAllowsSales(registry: seq<Manifest>, manifest: Manifest, unit: ExecUnit, f: Fact, now: Option<int>)
    requires SealedContracts(registry) && manifest in registry
    requires Admitted(f, unit, manifest, now) && f.factType == FactTypeFor(SalesMention)
    ensures manifest.id == SalesHandoff
  {
    hide ScopeMatches, HistoryAllowed, StalenessAllowed, HasProvenance;
  }

  lemma AvailableNeedsFact(unit: ExecUnit, manifest: Manifest, facts: seq<Fact>, bound: map<string, Binding>, t: ResolveType)
    requires UnitResolvable(unit, manifest, facts, bound, t).availability == Available
    ensures FirstResolvable(facts, t).Some?
  {
  }

  /** Sales can be mentioned only by a unit of the handoff manifest. */
  lemma SalesNeedsHandoffManifest(a: Attempt, groundings: seq<UnitGrounding>, i: nat)
    requires ValidAttempt(a) && Grounded(a) == Ok(groundings) && i < |a.plan.body.units| == |groundings|
    requires SealedContracts(a.w.registry)
    requires groundings[i].business.sales.availability == Available
    ensures a.plan.body.units[i].manifestRef.id == SalesHandoff
  {
    hide ValidAttempt, Grounded, SealedContracts, UnitResolvable, UnitReport, UnitPermission, AdmittedFacts, Admitted, ValidBindings,
         BindingsOf, DistinctFacts, FindManifest, SealedContract, FactTypeFor;
    var unit := a.plan.body.units[i];
    var manifest, bound := GroundedUnit(a, groundings, i);
    AvailableNeedsFact(unit, manifest, groundings[i].allowed, bound, SalesMention);
    var f := FirstResolvable(groundings[i].allowed, SalesMention).value;
    OnlyHandoffAllowsSales(a.w.registry, manifest, unit, f, a.w.now);
  }

  lemma ActionsNeedPolicy(a: Attempt, groundings: seq<UnitGrounding>)
    requires ValidAttempt(a) && Grounded(a) == Ok(groundings) && |groundings| == |a.plan.body.units|
    requires CompiledPolicy(a.policy)
    requires Actions(a.plan.body.units, groundings, |groundings|) != []
    ensures a.policy.actionsAllowed && a.policy.scene == Group
  {
    var action := Actions(a.plan.body.units, groundings, |groundings|)[0];
    var i, j, f, p := ActionProvenance(a, groundings, action);
    assert action.actionType in a.policy.actions;
  }

  lemma MentionsNeedPolicy(a: Attempt, groundings: seq<UnitGrounding>)
    requires ValidAttempt(a) && Grounded(a) == Ok(groundings) && |groundings| == |a.plan.body.units|
    requires CompiledPolicy(a.policy) && SealedContracts(a.w.registry)
    requires SalesAvailable(groundings)
    ensures a.policy.mentionsAllowed && a.policy.scene == Group
  {
    var i :| 0 <= i < |groundings| && groundings[i].business.sales.availability == Available;
    SalesNeedsHandoffManifest(a, groundings, i);
    assert UnitWithin(a.plan.body.units[i], a.policy);
    assert EarnedRef(a.plan.body.units[i].manifestRef, a.policy);
  }

  /** The fixed texts a direct conversation can get hold no double percent sign. */
  ghost predicate UnmarkedTexts(texts: Texts) {
    && MarkerScanner.Free(texts.refusal) && MarkerScanner.Free(texts.clarification)
    && MarkerScanner.Free(texts.directHandoff) && MarkerScanner.Free(texts.unable)
  }

  lemma FreeIsUnmarked(word: char -> bool, text: string)
    requires MarkerScanner.Free(text)
    ensures !HasImageMarker(word, text)
  {
  }

  lemma EmptyIsFree()
    ensures MarkerScanner.Free("")
  {
  }

  /** For a plan within a compiled policy, a reply built without the composer can be
      faulted for one thing only: an action plan that ended up without an action. */
  lemma DeterministicRepliesStayWithinPolicy(a: Attempt, groundings: seq<UnitGrounding>, word: char -> bool, texts: Texts)
    requires ValidAttempt(a) && Grounded(a) == Ok(groundings) && |groundings| == |a.plan.body.units|
    requires CompiledPolicy(a.policy) && SealedContracts(a.w.registry)
    requires a.plan.body.mode !in {KnowledgeMode, SmalltalkMode}
    requires UnmarkedTexts(texts)
    ensures var reply := DeterministicReply(a.policy.scene, texts, a.plan, groundings);
      ReplyIssues(word, a.policy.scene, a.policy, a.plan, reply) ==
        if a.plan.body.mode == ActionMode && reply.actions == [] then [ActionPlanWithoutAction] else []
  {
    hide ValidAttempt, Grounded, Actions, SalesAvailable, CompiledPolicy, SealedContracts, HasImageMarker, MarkerScanner.Free;
    if a.policy.scene == Direct {
      EmptyIsFree();
      FreeIsUnmarked(word, DeterministicReply(a.policy.scene, texts, a.plan, groundings).text);
    }
    if Actions(a.plan.body.units, groundings, |groundings|) != [] {
      ActionsNeedPolicy(a, groundings);
    }
    if SalesAvailable(groundings) {
      MentionsNeedPolicy(a, groundings);
    }
  }

  /** The plan that replaces an unresolved material-pack plan sends nothing, so it can
      never turn into a second delivery. */
  lemma ResolutionPlanSendsNothing(plan: ExecPlan, items: seq<PreflightItem>, registry: seq<Manifest>, policy: Policy,
                                   authority: ScopeAuthority, planHash: PlanBody -> string)
    requires ResolutionPlan(plan, items, registry, policy, authority, planHash).Some?
    requires ResolutionPlan(plan, items, registry, policy, authority, planHash).value.Ok?
    ensures var other := ResolutionPlan(plan, items, registry, policy, authority, planHash).value.value;
      && other.body.mode in {ClarificationMode, HandoffMode, UnableMode}
      && other.body.intents == []
      && |other.body.units| == 1 && other.body.units[0].intents == []
  {
    hide Compile;
    var source := ResolutionSource(plan, items).value;
    var other := ResolutionPlan(plan, items, registry, policy, authority, planHash).value.value;
    CompiledUnits(registry, policy, authority, source, FromDeterministic, planHash, other);
    FinalizedShape(registry, policy, authority, source, 0);
    assert SourceAnswerabilities(source) == {SourceAnswerability(source, 0)};
    CompiledIntents(registry, policy, authority, source, FromDeterministic, planHash, other);
    assert FlatIntents(other.body.units[..0]) == [];
  }

  lemma CompiledIntents(registry: seq<Manifest>, policy: Policy, authority: ScopeAuthority, source: PlanSource,
                        origin: PlanOrigin, planHash: PlanBody -> string, plan: ExecPlan)
    requires Compile(registry, policy, authority, source, origin, planHash) == Ok(plan)
    ensures plan.body.intents == FlatIntents(plan.body.units)
  {
  }
}
