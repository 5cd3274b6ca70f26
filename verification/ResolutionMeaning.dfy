/** The plan that replaces a pack that could not be resolved: what it asks, and when its
    handoff finds sales in evidence gathered for the plan it replaces. */
module ResolutionMeaning {
  import opened Wrappers
  import opened AuthorityTypes
  import opened PolicyCompiler
  import opened PlanCompiler
  import opened PlanMeaning
  import opened PlanTheorems
  import opened AdapterFacts
  import opened Grounding
  import opened FactOrder
  import opened ActionReply
  import opened AuthorityTheorems
  import opened DeliveryTheorems
  import opened ReplyMeaning

  // ----- what it asks -----

  /** Item `k` is the first of its type, and it holds a result with this status. */
  ghost predicate FirstAnswer(items: seq<PreflightItem>, t: ResolveType, k: nat, status: ResolveStatus) {
    && k < |items| && items[k].resolveType == t && items[k].result.Some? && items[k].result.value.status == status
    && forall j :: 0 <= j < k ==> items[j].resolveType != t
  }

  ghost predicate Answered(items: seq<PreflightItem>, t: ResolveType, status: ResolveStatus) {
    exists k: nat :: FirstAnswer(items, t, k, status)
  }

  lemma FirstAnswerLater(items: seq<PreflightItem>, t: ResolveType, status: ResolveStatus, k: nat)
    requires items != [] && items[0].resolveType != t
    ensures FirstAnswer(items, t, k + 1, status) <==> FirstAnswer(items[1..], t, k, status)
    ensures !FirstAnswer(items, t, 0, status)
  {
    if FirstAnswer(items[1..], t, k, status) {
      forall j | 0 <= j < k + 1 ensures items[j].resolveType != t {
        assert j > 0 ==> items[j] == items[1..][j - 1];
      }
    }
    if FirstAnswer(items, t, k + 1, status) {
      forall j | 0 <= j < k ensures items[1..][j].resolveType != t {
        assert items[1..][j] == items[j + 1];
      }
    }
  }

  lemma {:induction false} FirstResultAnswers(items: seq<PreflightItem>, t: ResolveType, status: ResolveStatus)
    ensures Answered(items, t, status) <==> FirstResult(items, t).Some? && FirstResult(items, t).value.status == status
  {
    if items == [] {
    } else if items[0].resolveType == t {
      if FirstResult(items, t).Some? && FirstResult(items, t).value.status == status {
        assert FirstAnswer(items, t, 0, status);
      }
    } else {
      FirstResultAnswers(items[1..], t, status);
      hide FirstAnswer;
      if k: nat :| FirstAnswer(items, t, k, status) {
        FirstAnswerLater(items, t, status, 0);
        FirstAnswerLater(items, t, status, k - 1);
      }
      if k: nat :| FirstAnswer(items[1..], t, k, status) {
        FirstAnswerLater(items, t, status, k);
      }
    }
  }

  /** One unit without an option or a query. */
  ghost predicate AsksJust(source: PlanSource, id: ManifestId, p: Answerability) {
    source == Determined([DeterministicUnit("material-pack-resolution", id, p, None, None)])
  }

  /** A plan whose one intent is a material pack is replaced exactly if the adapter's first
      answer about the pack is not that it is resolved: by a question when the pack is
      ambiguous, and otherwise by a handoff if sales are resolved, or by an abstention. */
  lemma ResolutionExactly(plan: ExecPlan, items: seq<PreflightItem>)
    ensures var source := ResolutionSource(plan, items);
      var asked := |plan.body.intents| == 1 && plan.body.intents[0].actionType == SendMaterialPack;
      var ambiguous := Answered(items, MaterialPack, AmbiguousResult);
      var unresolved := Answered(items, MaterialPack, Missing) || Answered(items, MaterialPack, Forbidden)
                        || Answered(items, MaterialPack, TemporarilyUnavailable);
      && (source.Some? <==> asked && (ambiguous || unresolved))
      && (asked && ambiguous ==> AsksJust(source.value, GeneralClarification, Clarify))
      && (asked && unresolved && Answered(items, SalesMention, Resolved) ==> AsksJust(source.value, SalesHandoff, Handoff))
      && (asked && unresolved && !Answered(items, SalesMention, Resolved) ==> AsksJust(source.value, GeneralAbstention, Abstain))
  {
    hide Answered, FirstResult;
    FirstResultAnswers(items, MaterialPack, AmbiguousResult);
    FirstResultAnswers(items, MaterialPack, Missing);
    FirstResultAnswers(items, MaterialPack, Forbidden);
    FirstResultAnswers(items, MaterialPack, TemporarilyUnavailable);
    FirstResultAnswers(items, SalesMention, Resolved);
  }

  // ----- when its handoff finds sales -----

  /** The replacement is grounded with the evidence of the plan it replaces. */
  ghost function Replaced(a: Attempt, other: ExecPlan): Attempt {
    a.(plan := other)
  }

  lemma AvailableByFact(unit: ExecUnit, manifest: Manifest, facts: seq<Fact>, bound: map<string, Binding>)
    requires manifest.id == SalesHandoff && manifest.contract == SealedContract(manifest.id)
    requires FirstResolvable(facts, SalesMention).Some? ==> FirstResolvable(facts, SalesMention).value.value == BooleanValue(true)
    ensures UnitResolvable(unit, manifest, facts, bound, SalesMention).availability == Available <==>
      FirstResolvable(facts, SalesMention).Some?
  {
    hide FirstResolvable;
  }

  lemma FactAt(a: Attempt, unit: ExecUnit, t: ResolveType) returns (i: nat, j: nat)
    requires unit in a.plan.body.units && Asks(unit, t, |unit.resolves|)
    ensures i < |a.plan.body.units| && a.plan.body.units[i] == unit && j < |unit.resolves| && unit.resolves[j].resolveType == t
  {
    i :| 0 <= i < |a.plan.body.units| && a.plan.body.units[i] == unit;
    j :| 0 <= j < |unit.resolves| && unit.resolves[j].resolveType == t;
  }

  lemma {:induction false} FirstAlikeFound(units: seq<ExecUnit>, scope: ExecScope, t: ResolveType)
    ensures FirstAlike(units, scope, t).Some? ==>
      var u := FirstAlike(units, scope, t).value; u in units && Asks(u, t, |u.resolves|) && Alike(u.scope, scope)
    ensures FirstAlike(units, scope, t).None? ==> forall u :: u in units ==> !(Asks(u, t, |u.resolves|) && Alike(u.scope, scope))
  {
    hide Asks, Alike;
    if units != [] {
      var front, last := units[..|units| - 1], units[|units| - 1];
      FirstAlikeFound(front, scope, t);
      assert units == front + [last];
    }
  }

  /** The fact an old unit resolved is admitted by a unit with a like scope. */
  lemma OldFactAdmitted(a: Attempt, from: ExecUnit, unit: ExecUnit, manifest: Manifest, t: ResolveType)
    requires ValidAttempt(a) && FaithfulHashes(a.h) && AdapterOnlyHere(a) && Serves(manifest, t) && t in Results(a.items)
    requires from in a.plan.body.units && Asks(from, t, |from.resolves|) && Alike(from.scope, unit.scope)
    ensures AdmittedFacts(a.facts + a.others, unit, manifest, a.w.now) != []
  {
    hide Admitted, FaithfulHashes, AdapterOnlyHere, Serves, Results, Asks, Alike, FactOf, RequirementsMet, AdapterEvidence,
         UnitsWithin, RegisteredRefs;
    var i, j := FactAt(a, from, t);
    var own := FactForResolve(a, i, j);
    ResultsUsable(a.items);
    OwnFactAdmitted(a, from, unit, manifest, t);
    OldFactIs(a, from, t, own);
    assert own in a.facts + a.others;
    SendRequirements(Candidates(a.facts + a.others, unit, manifest, a.w.now), manifest, t, own);
  }

  lemma OldFactIs(a: Attempt, from: ExecUnit, t: ResolveType, own: Fact)
    requires t in Results(a.items) && Results(a.items)[t].resolveRef.Some? && UsableResults(Results(a.items))
    requires own == MakeFact(a.h, from, t, Results(a.items)[t], Results(a.items)[t].resolveRef.value)
    ensures own == FactOf(a.h, from, t, Results(a.items))
    ensures own.factType == FactTypeFor(t) && own.artifactType == ArtifactFor(t)
  {
    hide Results;
  }

  /** A unit of the handoff manifest, grounded with evidence of another plan, finds sales
      exactly if the adapter resolved them for a unit of that plan with a like scope. */
  lemma SalesInOldEvidence(a: Attempt, other: ExecPlan, groundings: seq<UnitGrounding>, i: nat)
    requires ValidAttempt(a) && FaithfulHashes(a.h) && AdapterOnlyHere(a) && SealedContracts(a.w.registry)
    requires Grounded(Replaced(a, other)) == Ok(groundings) && i < |other.body.units| == |groundings|
    requires other.body.units[i].manifestRef.id == SalesHandoff
    ensures groundings[i].business.sales.availability == Available <==>
      SalesMention in Results(a.items) && FirstAlike(a.plan.body.units, other.body.units[i].scope, SalesMention).Some?
  {
    hide ValidAttempt, FaithfulHashes, AdapterOnlyHere, Grounded, Results, AdmittedFacts, UnitResolvable, UnitReport, UnitPermission,
         ValidBindings, BindingsOf, DistinctFacts, FirstAlike, FirstResolvable, SealedContract, FactOf;
    var b, unit := Replaced(a, other), other.body.units[i];
    var manifest, bound := GroundedUnit(b, groundings, i);
    assert manifest in a.w.registry;
    var allowed := groundings[i].allowed;
    HandoffServes(manifest);
    ResultsUsable(a.items);
    FirstAlikeFound(a.plan.body.units, unit.scope, SalesMention);
    if FirstResolvable(allowed, SalesMention).Some? {
      ResolvableIsListed(allowed, SalesMention);
      var _ := SendEvidence(a, unit, manifest, SalesMention, FirstResolvable(allowed, SalesMention).value);
    }
    AvailableByFact(unit, manifest, allowed, bound);
    if SalesMention in Results(a.items) {
      if FirstAlike(a.plan.body.units, unit.scope, SalesMention).Some? {
        OldFactAdmitted(a, FirstAlike(a.plan.body.units, unit.scope, SalesMention).value, unit, manifest, SalesMention);
      }
      if allowed == [] {
        NoneResolvable(SalesMention);
      } else {
        FirstFactMet(a, unit, manifest, SalesMention);
      }
    }
  }

  lemma HandoffServes(manifest: Manifest)
    requires manifest.id == SalesHandoff && manifest.contract == SealedContract(manifest.id)
    ensures Serves(manifest, SalesMention)
  {
  }

  lemma ResolvableIsListed(facts: seq<Fact>, t: ResolveType)
    ensures FirstResolvable(facts, t).Some? ==> FirstResolvable(facts, t).value in facts
  {
  }

  lemma NoneResolvable(t: ResolveType)
    ensures FirstResolvable([], t).None?
  {
  }

  lemma UnitScopeIs(unit: ExecUnit, policy: Policy, authority: ScopeAuthority, source: PlanSource, i: nat)
    requires i < SourceCount(source) && UnitIs(unit, policy, authority, source, i) && authority.scope.Distribution?
    ensures unit.manifestRef.id == SourceManifest(source, i)
    ensures unit.scope ==
      DistributionScope(authority.ref, authority.scope.channel, SourceOption(source, i), SourceProducts(source, i), None)
  {
    hide RunBy, ResolvedBy, SentBy, SentKind, KindAlone;
  }

  lemma ResolutionUnit(a: Attempt, other: ExecPlan, authority: ScopeAuthority, planHash: PlanBody -> string)
    requires ResolutionPlan(a.plan, a.items, a.w.registry, a.policy, authority, planHash) == Some(Ok(other))
    requires authority.scope.Distribution? && other.body.mode == HandoffMode
    ensures |other.body.units| == 1 && other.body.units[0].manifestRef.id == SalesHandoff
    ensures other.body.units[0].scope == DistributionScope(authority.ref, authority.scope.channel, None, [], None)
  {
    hide Compile, UnitIs, KindFits, ModeRanks, Answered;
    var source := ResolutionSource(a.plan, a.items).value;
    KindExactly(a.w.registry, a.policy, authority, source, FromDeterministic, planHash, other);
    ModeExactly(a.w.registry, a.policy, authority, source, FromDeterministic, planHash, other);
    UnitScopeIs(other.body.units[0], a.policy, authority, source, 0);
    HandoffIsAsked(source, other.body.mode);
  }

  lemma HandoffIsAsked(source: PlanSource, mode: ResponseMode)
    requires ModeRanks(source, mode) && mode == HandoffMode && SourceCount(source) == 1
    ensures SourceAnswerability(source, 0) == Handoff
  {
    var i: nat :| i < SourceCount(source) && SourceAnswerability(source, i) == Handoff;
  }

  lemma ScopesAlike(units: seq<ExecUnit>, policy: Policy, authority: ScopeAuthority, source: PlanSource, i: nat)
    requires i < |units| == SourceCount(source) && UnitIs(units[i], policy, authority, source, i) && authority.scope.Distribution?
    ensures Alike(units[i].scope, DistributionScope(authority.ref, authority.scope.channel, None, [], None)) <==>
      SourceProducts(source, i) == []
  {
    UnitScopeIs(units[i], policy, authority, source, i);
  }

  /** The reply when a pack could not be resolved and sales could: it hands over exactly if
      some unit of the original plan that resolves sales names no products. A request
      for the pack of certain products is told that there is no answer. */
  lemma ResolutionHandsOver(authority: ScopeAuthority, source: PlanSource, origin: PlanOrigin, planHash: PlanBody -> string,
                            a: Attempt, other: ExecPlan, groundings: seq<UnitGrounding>, texts: Texts)
    requires ValidAttempt(a) && FaithfulHashes(a.h) && AdapterOnlyHere(a) && SealedContracts(a.w.registry)
    requires Compile(a.w.registry, a.policy, authority, source, origin, planHash) == Ok(a.plan)
    requires authority.scope.Distribution?
    requires ResolutionPlan(a.plan, a.items, a.w.registry, a.policy, authority, planHash) == Some(Ok(other))
    requires other.body.mode == HandoffMode
    requires Grounded(Replaced(a, other)) == Ok(groundings) && |groundings| == |other.body.units|
    ensures |a.plan.body.units| == SourceCount(source)
    ensures var reply := DeterministicReply(Group, texts, other, groundings);
      if SalesMention in Results(a.items) && exists i: nat ::
           i < |a.plan.body.units| && Asks(a.plan.body.units[i], SalesMention, |a.plan.body.units[i].resolves|)
           && SourceProducts(source, i) == []
      then reply.kind == HandoffReply && reply.text == texts.salesHandoff && reply.mentions == [Sales] && reply.actions == []
      else JustSays(reply, UnableReply, texts.unable)
  {
    hide *;
    var units := a.plan.body.units;
    ResolutionUnit(a, other, authority, planHash);
    KindExactly(a.w.registry, a.policy, authority, source, origin, planHash, a.plan);
    SalesInOldEvidence(a, other, groundings, 0);
    SomeAlike(units, a.policy, authority, source);
    SalesFoundOne(groundings);
    ReplyExactly(Group, texts, other, groundings);
    HandoffSaysMeans(texts, groundings, DeterministicReply(Group, texts, other, groundings));
  }

  /** Grounding the replacement can fail no more once the evidence of the plan it replaces
      is small, distinct and readable: it meets no pack. */
  lemma ResolutionGrounds(authority: ScopeAuthority, planHash: PlanBody -> string, a: Attempt, other: ExecPlan)
    requires ValidAttempt(a) && SealedContracts(a.w.registry) && CompiledPolicy(a.policy)
    requires ResolutionPlan(a.plan, a.items, a.w.registry, a.policy, authority, planHash) == Some(Ok(other))
    requires DistinctFacts(a.facts + a.others) && |a.facts + a.others| <= 32 && ReadsAll(a.w.dates)
    ensures Grounded(Replaced(a, other)).Ok? && |Grounded(Replaced(a, other)).value| == |other.body.units|
  {
    hide *;
    var unit := ReplacementUnit(a, other, authority, planHash);
    var all := a.facts + a.others;
    GroundsWithoutPack(a, unit);
    PlanGroundedByUnits(a, other);
    ReplacedIs(a, other);
    GroundingsOfAll(Replaced(a, other));
  }

  lemma ReplacedIs(a: Attempt, other: ExecPlan)
    ensures Replaced(a, other) == a.(plan := other)
  {
  }

  lemma GroundingsOfAll(b: Attempt)
    ensures Grounded(b).Ok? ==> |Grounded(b).value| == |b.plan.body.units|
  {
    hide GroundUnit, DistinctFacts, PlanBindingFault;
    GroundUnitsResult(b.w, b.plan.body.units, b.policy, b.facts + b.others, b.bindings, |b.plan.body.units|);
  }

  /** The one unit of the replacement, which is within the policy and is of no manifest
      that admits packs. */
  lemma ReplacementUnit(a: Attempt, other: ExecPlan, authority: ScopeAuthority, planHash: PlanBody -> string) returns (unit: ExecUnit)
    requires ResolutionPlan(a.plan, a.items, a.w.registry, a.policy, authority, planHash) == Some(Ok(other))
    requires CompiledPolicy(a.policy)
    ensures other.body.units == [unit] && UnitsWithin(other, a.policy) && UnitWithin(unit, a.policy)
    ensures unit.manifestRef.id != MaterialPackSend
  {
    hide Compile, UnitIs, KindFits, Answered, CompiledPolicy, UnitWithin, FirstResult;
    var source := ResolutionSource(a.plan, a.items).value;
    KindExactly(a.w.registry, a.policy, authority, source, FromDeterministic, planHash, other);
    CompiledUnitsWithin(a.w.registry, a.policy, authority, source, FromDeterministic, planHash, other);
    unit := other.body.units[0];
    assert unit in other.body.units;
    ManifestOfUnit(unit, a.policy, authority, source);
  }

  lemma ManifestOfUnit(unit: ExecUnit, policy: Policy, authority: ScopeAuthority, source: PlanSource)
    requires SourceCount(source) > 0 && UnitIs(unit, policy, authority, source, 0)
    ensures unit.manifestRef.id == SourceManifest(source, 0)
  {
    hide RunBy, ResolvedBy, SentBy, SentKind, KindAlone;
  }

  lemma GroundsWithoutPack(a: Attempt, unit: ExecUnit)
    requires ValidAttempt(a) && SealedContracts(a.w.registry) && UnitWithin(unit, a.policy)
    requires unit.manifestRef.id != MaterialPackSend
    requires DistinctFacts(a.facts + a.others) && |a.facts + a.others| <= 32 && ReadsAll(a.w.dates)
    ensures GroundUnit(a.w, unit, a.policy, a.facts + a.others, a.bindings).Ok?
  {
    hide SealedContract, Admitted, PackOption, GroundUnit, Candidates, AdapterEvidence, DistinctFacts, ReadsAll, RequirementsMet,
         BoundToUnit;
    var manifest := FindManifest(a.w.registry, unit.manifestRef.id).value;
    var allowed := AdmittedFacts(a.facts + a.others, unit, manifest, a.w.now);
    assert |allowed| <= |a.facts + a.others|;
    GroundUnitOutcome(a, unit, manifest);
    OtherManifestsMeetNoPack(unit, manifest, allowed, a.w.now);
  }

  lemma SalesFoundOne(groundings: seq<UnitGrounding>)
    requires |groundings| == 1
    ensures SalesFound(groundings) <==> groundings[0].business.sales.availability == Available
  {
  }

  lemma HandoffSaysMeans(texts: Texts, groundings: seq<UnitGrounding>, reply: Reply)
    requires HandoffSays(Group, texts, groundings, reply)
    ensures SalesFound(groundings) ==>
      reply.kind == HandoffReply && reply.text == texts.salesHandoff && reply.mentions == [Sales] && reply.actions == []
    ensures !SalesFound(groundings) ==> JustSays(reply, UnableReply, texts.unable)
  {
  }

  lemma SomeAlike(units: seq<ExecUnit>, policy: Policy, authority: ScopeAuthority, source: PlanSource)
    requires |units| == SourceCount(source) && authority.scope.Distribution?
    requires forall i: nat :: i < |units| ==> UnitIs(units[i], policy, authority, source, i)
    ensures FirstAlike(units, DistributionScope(authority.ref, authority.scope.channel, None, [], None), SalesMention).Some? <==>
      exists i: nat :: i < |units| && Asks(units[i], SalesMention, |units[i].resolves|) && SourceProducts(source, i) == []
  {
    hide UnitIs, Asks, Alike, FirstAlike;
    var scope := DistributionScope(authority.ref, authority.scope.channel, None, [], None);
    FirstAlikeFound(units, scope, SalesMention);
    forall i: nat | i < |units| ensures Alike(units[i].scope, scope) <==> SourceProducts(source, i) == [] {
      ScopesAlike(units, policy, authority, source, i);
    }
    if FirstAlike(units, scope, SalesMention).Some? {
      var u := FirstAlike(units, scope, SalesMention).value;
      var i :| 0 <= i < |units| && units[i] == u;
      assert SourceProducts(source, i) == [];
    }
  }
}
