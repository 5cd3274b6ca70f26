/** What compilation under a compiled policy guarantees: which checks of the plan
    model and of the policy check can still fire, and exactly when. */
module PlanTheorems {
  import opened Wrappers
  import opened AuthorityTypes
  import opened PolicyCompiler
  import opened PlanCompiler

  /** What the policy compiler establishes about every policy it returns. */
  ghost predicate CompiledPolicy(policy: Policy) {
    && policy.replyModes == ReplyModes(policy.eligible)
    && policy.resolves == AllowedResolves(policy.eligible, policy.scene)
    && policy.actionsAllowed == (policy.actions != {})
    && policy.mentionsAllowed == (policy.mentions != {})
    && (policy.scene == Direct ==> policy.actions == {} && policy.mentions == {})
    && forall ref :: ref in policy.eligible ==> EarnedRef(ref, policy)
  }

  /** Every requirement of a listed manifest is met by the policy that lists it. */
  ghost predicate EarnedRef(ref: ManifestRef, policy: Policy) {
    && (ReadRequirement(ref.id).Some? ==> ReadRequirement(ref.id).value in policy.readCaps)
    && (ActionRequirement(ref.id).Some? ==> ActionRequirement(ref.id).value in policy.actions)
    && (ref.id == SalesHandoff ==> Sales in policy.mentions)
    && (ResolveRequirement(ref.id).Some? ==> policy.scene == Group)
  }

  lemma DraftIsCompiled(registry: seq<Manifest>, request: Request, recall: RecallMode)
    ensures CompiledPolicy(DraftPolicy(registry, request, recall))
  {
    var policy := DraftPolicy(registry, request, recall);
    forall ref | ref in policy.eligible ensures EarnedRef(ref, policy) {
      var m :| m in registry && ref == ManifestRef(m.id, m.version) && Eligible(m.id, request, policy.knowledgeEnabled);
    }
  }

  lemma ListedResolveAllowed(ref: ManifestRef, policy: Policy)
    requires CompiledPolicy(policy) && ref in policy.eligible && ResolveRequirement(ref.id).Some?
    ensures ResolveRequirement(ref.id).value in policy.resolves
  {
    assert EarnedRef(ref, policy);
    var i :| 0 <= i < |policy.eligible| && policy.eligible[i] == ref;
    assert ResolveRequirement(policy.eligible[i].id).value in policy.resolves;
  }

  /** The capability table and the requirement table of the policy compiler are
      maintained apart; they agree on what a manifest resolves and sends. */
  lemma TablesAgree(id: ManifestId)
    ensures RuntimeCapability(id).Some? ==> RuntimeCapability(id).value.resolveType == ResolveRequirement(id)
    ensures RuntimeCapability(id).None? ==> ResolveRequirement(id).None? && ReadRequirement(id).None?
    ensures ActionRequirement(id).Some? ==>
      RuntimeCapability(id).Some? && RuntimeCapability(id).value.action == ActionRequirement(id)
  {
  }

  /** Where the parts of a compiled unit come from. */
  lemma FinalizedParts(registry: seq<Manifest>, policy: Policy, authority: ScopeAuthority, source: PlanSource, i: nat)
    requires i < SourceCount(source) && FinalizeAt(registry, policy, authority, source, i).Ok?
    ensures var unit, c := FinalizeAt(registry, policy, authority, source, i).value, RuntimeCapability(SourceManifest(source, i));
      && unit.manifestRef in policy.eligible && unit.manifestRef.id == SourceManifest(source, i)
      && (forall r :: r in unit.resolves ==>
            (r == SALES_FALLBACK && SalesFallbackAllowed(policy)) || (c.Some? && c.value.resolveType == Some(r.resolveType)))
      && (forall a :: a in unit.intents ==> a.actionType in policy.actions)
  {
    hide ExecutionScope, RuntimeCapability, Blank, FindManifest, SalesFallbackAllowed;
  }

  lemma FallbackAllowed(policy: Policy)
    ensures SalesFallbackAllowed(policy) ==> SALES_FALLBACK.resolveType in policy.resolves
  {
  }

  /** A unit that compiles carries only what its policy allows, has at most one
      resolve of its own besides the sales fallback, and at most one intent. */
  lemma FinalizedUnitWithin(registry: seq<Manifest>, policy: Policy, authority: ScopeAuthority, source: PlanSource, i: nat)
    requires CompiledPolicy(policy) && i < SourceCount(source)
    requires FinalizeAt(registry, policy, authority, source, i).Ok?
    ensures UnitWithin(FinalizeAt(registry, policy, authority, source, i).value, policy)
  {
    hide FinalizeAt, CompiledPolicy, AllowedResolves;
    var unit := FinalizeAt(registry, policy, authority, source, i).value;
    FinalizedParts(registry, policy, authority, source, i);
    TablesAgree(SourceManifest(source, i));
    FallbackAllowed(policy);
    forall r | r in unit.resolves ensures r.resolveType in policy.resolves {
      if r != SALES_FALLBACK || !SalesFallbackAllowed(policy) {
        ListedResolveAllowed(unit.manifestRef, policy);
      }
    }
  }

  /** The shape of a compiled unit, whatever the policy. */
  ghost predicate CompiledShape(unit: ExecUnit, id: string, answerability: Answerability) {
    && unit.unitId == id
    && unit.answerability == answerability
    && |unit.intents| <= (if answerability == Send then 1 else 0)
    && (|unit.resolves| <= 1 || (|unit.resolves| == 2 && unit.resolves[1] == SALES_FALLBACK))
  }

  lemma FinalizedShape(registry: seq<Manifest>, policy: Policy, authority: ScopeAuthority, source: PlanSource, i: nat)
    requires i < SourceCount(source) && FinalizeAt(registry, policy, authority, source, i).Ok?
    ensures CompiledShape(FinalizeAt(registry, policy, authority, source, i).value,
                          SourceId(source, i), SourceAnswerability(source, i))
  {
  }

  lemma AllFinalizedShapes(registry: seq<Manifest>, policy: Policy, authority: ScopeAuthority, source: PlanSource, units: seq<ExecUnit>)
    requires FinalizeUnits(registry, policy, authority, source, SourceCount(source)) == Ok(units)
    ensures |units| == SourceCount(source)
    ensures forall i :: 0 <= i < |units| ==> CompiledShape(units[i], SourceId(source, i), SourceAnswerability(source, i))
  {
    forall i | 0 <= i < |units|
      ensures CompiledShape(units[i], SourceId(source, i), SourceAnswerability(source, i))
    {
      FinalizedShape(registry, policy, authority, source, i);
    }
  }

  /** At most one distinct resolve per unit, and one sales fallback for them all. */
  lemma {:induction false} DistinctResolvesBound(units: seq<ExecUnit>)
    requires forall u :: u in units ==>
      |u.resolves| <= 1 || (|u.resolves| == 2 && u.resolves[1] == SALES_FALLBACK)
    ensures |Dedup(FlatResolves(units))| <= |units| + (if SALES_FALLBACK in Dedup(FlatResolves(units)) then 1 else 0)
  {
    hide Dedup, FlatResolves;
    if units == [] {
      NothingCollected();
    } else {
      var n := |units| - 1;
      var last := units[n];
      assert last in units;
      DistinctResolvesBound(units[..n]);
      ResolveEnds(units, n);
      assert units[..n + 1] == units;
      if |last.resolves| >= 1 {
        DedupStep(FlatResolves(units[..n]), last.resolves, 0);
        if |last.resolves| == 2 {
          DedupStep(FlatResolves(units[..n]), last.resolves, 1);
        }
      }
    }
  }

  /** The mode derived from a set of answerabilities is the mode of one of them,
      so the search for a unit of that mode always finds one. */
  lemma SomeUnitHasTheMode(policies: set<Answerability>) returns (p: Answerability)
    requires policies != {}
    ensures p in policies && ModeFor({p}) == ModeFor(policies)
  {
    p :| p in policies;
    if Refuse in policies { p := Refuse; }
    else if Send in policies { p := Send; }
    else if Clarify in policies { p := Clarify; }
    else if Answer in policies { p := Answer; }
    else if Handoff in policies { p := Handoff; }
    else if Smalltalk in policies { p := Smalltalk; }
    else if NoReply in policies { p := NoReply; }
  }

  lemma {:induction false} FirstUnitFound(units: seq<ExecUnit>, i: nat, mode: ResponseMode)
    requires i < |units| && ModeFor({units[i].answerability}) == mode
    ensures FirstUnitOfMode(units, mode).Some?
  {
    if ModeFor({units[0].answerability}) != mode {
      FirstUnitFound(units[1..], i - 1, mode);
    }
  }

  lemma KindAlwaysFound(registry: seq<Manifest>, source: PlanSource, units: seq<ExecUnit>)
    requires SourceCount(source) == |units| >= 1
    requires forall i :: 0 <= i < |units| ==> units[i].answerability == SourceAnswerability(source, i)
    ensures PlanKind(registry, source, units, ModeFor(SourceAnswerabilities(source))).Ok?
  {
    assert SourceAnswerability(source, 0) in SourceAnswerabilities(source);
    var p := SomeUnitHasTheMode(SourceAnswerabilities(source));
    var i: nat :| i < SourceCount(source) && SourceAnswerability(source, i) == p;
    FirstUnitFound(units, i, ModeFor(SourceAnswerabilities(source)));
  }

  lemma AssembledExact(origin: PlanOrigin, kind: ArtifactKind, mode: ResponseMode, units: seq<ExecUnit>, planned: bool,
                       planHash: PlanBody -> string)
    requires (origin == FromPlanner) == planned
    requires |units| >= 1 && |Dedup(FlatResolves(units))| <= |units| + 1
    ensures var r := Accepted(Assemble(origin, kind, mode, units, planned), planHash);
      && (r.Ok? <==> |units| <= 4 && DistinctUnitIds(units) && |FlatIntents(units)| <= 3)
      && (r.Ok? ==> r.value.body.units == units && |r.value.body.resolves| <= |units| + 1)
      && (r.Err? ==> r.error in {PlanModel(UnitCountOutOfBounds), PlanModel(DuplicateUnitId), PlanModel(TooManyIntents)})
  {
  }

  /** Once every unit of a non-empty source has compiled, the plan model can object
      to three things only: more than four units, a repeated unit id, or more than
      three intents. The lookup of a unit for the mode, the limits on references and
      resolves, and every cross-check between a derived field and its recomputation
      never fire. */
  lemma CompilationExact(registry: seq<Manifest>, policy: Policy, authority: ScopeAuthority, source: PlanSource,
                         origin: PlanOrigin, planHash: PlanBody -> string, units: seq<ExecUnit>)
    requires (origin == FromPlanner) == source.Planned?
    requires SourceCount(source) >= 1
    requires FinalizeUnits(registry, policy, authority, source, SourceCount(source)) == Ok(units)
    ensures var r := Compile(registry, policy, authority, source, origin, planHash);
      && (r.Ok? <==> |units| <= 4 && DistinctUnitIds(units) && |FlatIntents(units)| <= 3)
      && (r.Ok? ==> r.value.body.units == units && |r.value.body.resolves| <= |units| + 1)
      && (r.Err? ==> r.error in {PlanModel(UnitCountOutOfBounds), PlanModel(DuplicateUnitId), PlanModel(TooManyIntents)})
  {
    AllFinalizedShapes(registry, policy, authority, source, units);
    KindAlwaysFound(registry, source, units);
    DistinctResolvesBound(units);
    var mode := ModeFor(SourceAnswerabilities(source));
    AssembledExact(origin, PlanKind(registry, source, units, mode).value, mode, units, source.Planned?, planHash);
  }

  /** Three send units at most means three intents at most. */
  lemma {:induction false} IntentsBoundedBySends(units: seq<ExecUnit>)
    requires forall u :: u in units ==> |u.intents| <= (if u.answerability == Send then 1 else 0)
    ensures |FlatIntents(units)| <= |SendUnits(units)|
  {
    if units != [] {
      var front := units[..|units| - 1];
      IntentsBoundedBySends(front);
      SendUnitsSnoc(front, units[|units| - 1]);
      assert units == front + [units[|units| - 1]];
    }
  }

  lemma {:induction false} SendUnitsSnoc(units: seq<ExecUnit>, u: ExecUnit)
    ensures SendUnits(units + [u]) == SendUnits(units) + (if u.answerability == Send then [u] else [])
  {
    if units != [] {
      SendUnitsSnoc(units[1..], u);
      assert (units + [u])[1..] == units[1..] + [u];
    }
  }

  /** A plan compiled under a compiled policy can draw one complaint from the policy
      check: its mode. It does exactly when the plan sends and no send manifest is
      eligible, or answers and no knowledge manifest is. */
  lemma CompileThenValidate(registry: seq<Manifest>, policy: Policy, authority: ScopeAuthority, source: PlanSource,
                            origin: PlanOrigin, planHash: PlanBody -> string, plan: ExecPlan)
    requires CompiledPolicy(policy)
    requires Compile(registry, policy, authority, source, origin, planHash) == Ok(plan)
    ensures UnitsWithin(plan, policy)
    ensures AllPlanIssues(plan, policy) ==
      if (plan.body.mode == ActionMode && !HasSendManifest(policy.eligible))
         || (plan.body.mode == KnowledgeMode && !HasKnowledgeManifest(policy.eligible))
      then [ResponseModeNotAllowed] else []
  {
    CompiledUnitsWithin(registry, policy, authority, source, origin, planHash, plan);
    ModeAllowed(plan.body.mode, policy.eligible);
    WithinAll(plan, policy);
    PlanIssuesExact(plan, policy, |plan.body.units|);
  }

  lemma ModeAllowed(mode: ResponseMode, refs: seq<ManifestRef>)
    ensures mode !in ReplyModes(refs) <==>
      (mode == ActionMode && !HasSendManifest(refs)) || (mode == KnowledgeMode && !HasKnowledgeManifest(refs))
  {
  }

  lemma CompiledUnitsWithin(registry: seq<Manifest>, policy: Policy, authority: ScopeAuthority, source: PlanSource,
                            origin: PlanOrigin, planHash: PlanBody -> string, plan: ExecPlan)
    requires CompiledPolicy(policy)
    requires Compile(registry, policy, authority, source, origin, planHash) == Ok(plan)
    ensures UnitsWithin(plan, policy)
  {
    CompiledUnits(registry, policy, authority, source, origin, planHash, plan);
    var units := plan.body.units;
    forall u | u in units ensures UnitWithin(u, policy) {
      var i :| 0 <= i < |units| && units[i] == u;
      FinalizedUnitWithin(registry, policy, authority, source, i);
    }
  }

  /** The units of a compiled plan are the compiled units of its source. */
  lemma CompiledUnits(registry: seq<Manifest>, policy: Policy, authority: ScopeAuthority, source: PlanSource,
                      origin: PlanOrigin, planHash: PlanBody -> string, plan: ExecPlan)
    requires Compile(registry, policy, authority, source, origin, planHash) == Ok(plan)
    ensures |plan.body.units| == SourceCount(source)
    ensures forall i :: 0 <= i < |plan.body.units| ==>
      FinalizeAt(registry, policy, authority, source, i) == Ok(plan.body.units[i])
    ensures plan.body.mode == ModeFor(SourceAnswerabilities(source))
  {
    var units := FinalizeUnits(registry, policy, authority, source, SourceCount(source)).value;
    assert plan.body.units == units;
  }
}
