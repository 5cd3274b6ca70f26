/** Compiling plan units under a policy into an execution plan, the plan's own
    validator, and the policy check a plan passes before evidence is gathered. */
module PlanCompiler {
  import opened Wrappers
  import opened AuthorityTypes
  import opened PolicyCompiler

  datatype CompileError =
    | OriginSourceMismatch
    | MultipleEvidenceQueries
    | ProductListQueryForbidden
    | CapabilityNotEligible
    | ManifestUnknown
    | BusinessScopeMismatch
    | FieldBounds
    | DuplicateProductId
    | InvalidProductId
    | ActionNotAllowed
    | DirectSendForbidden
    | NoUnitForMode
    | PlanModel(fault: PlanFault)

  /** What the plan model's bounds and aggregate validator can report. */
  datatype PlanFault =
    | UnitCountOutOfBounds
    | RefCountOutOfBounds
    | TooManyResolves
    | TooManyIntents
    | DuplicateUnitId
    | SelectedRefsMismatch
    | ResolvesMismatch
    | IntentsMismatch
    | PlanSpecOriginMismatch
    | PlanIdMismatch

  datatype PlanScope =
    | DistributionPlan(ref: string, materialOption: Option<string>, products: seq<string>)
    | UnscopedPlan

  datatype PlannerUnit = PlannerUnit(
    unitId: string, capabilityId: ManifestId, scope: PlanScope, answerability: Answerability, stepQueries: seq<string>)

  datatype DeterministicUnit = DeterministicUnit(
    unitId: string, manifestId: ManifestId, answerability: Answerability,
    materialOption: Option<string>, evidenceQuery: Option<string>)

  datatype PlanSource = Planned(planUnits: seq<PlannerUnit>) | Determined(units: seq<DeterministicUnit>)

  // ----- one unit -----

  /** The reference a policy lists for a manifest id. */
  function PolicyRef(eligible: seq<ManifestRef>, id: ManifestId): (r: Option<ManifestRef>)
    ensures r.Some? ==> r.value in eligible && r.value.id == id
    ensures r.None? ==> forall ref :: ref in eligible ==> ref.id != id
  {
    if eligible == [] then None
    else
      var last := eligible[|eligible| - 1];
      if last.id == id then Some(last)
      else
        assert forall ref :: ref in eligible ==> ref == last || ref in eligible[..|eligible| - 1];
        PolicyRef(eligible[..|eligible| - 1], id)
  }

  predicate Repeats(texts: seq<string>) {
    exists i, j :: 0 <= i < j < |texts| && texts[i] == texts[j]
  }

  /** Longer than the 80 characters every model allows an option. */
  predicate TooLong(materialOption: Option<string>) {
    materialOption.Some? && |materialOption.value| > 80
  }

  /** The validators of an execution scope: field bounds first, then the products. */
  function ScopeFault(materialOption: Option<string>, products: seq<string>): Option<CompileError> {
    if TooLong(materialOption) || |products| > 1000 then Some(FieldBounds)
    else if Repeats(products) then Some(DuplicateProductId)
    else if exists p :: p in products && (p == "" || |p| > 160) then Some(InvalidProductId)
    else None
  }

  function ExecutionScope(plan: Option<PlanScope>, authority: ScopeAuthority, materialOption: Option<string>)
    : Result<ExecScope, CompileError>
  {
    match authority.scope
    case Distribution(_, channel, _) =>
      if plan.Some? && (plan.value.UnscopedPlan? || plan.value.ref != authority.ref) then Err(BusinessScopeMismatch)
      else
        var products := if plan.Some? then plan.value.products else [];
        (match ScopeFault(materialOption, products)
         case Some(e) => Err(e)
         case None => Ok(DistributionScope(authority.ref, channel, materialOption, products, None)))
    case Unscoped =>
      if plan.Some? && plan.value.DistributionPlan? then Err(BusinessScopeMismatch) else Ok(UnscopedScope)
  }

  function ActionIntents(answerability: Answerability, capability: Option<Capability>, policy: Policy,
                         materialOption: Option<string>): Result<seq<ActionIntent>, CompileError>
  {
    if answerability != Send || capability.None? || capability.value.action.None? then Ok([])
    else if capability.value.action.value !in policy.actions then Err(ActionNotAllowed)
    else
      var c := capability.value;
      var option := if c.supportsOption then materialOption else None;
      if TooLong(option) then Err(FieldBounds) else Ok([ActionIntent(c.action.value, c.name, option)])
  }

  predicate SalesFallbackAllowed(policy: Policy) {
    SalesMention in policy.resolves && Sales in policy.mentions
  }

  const SALES_FALLBACK := AdapterResolve(SalesMention, None, None)

  /** The resolve of the unit's own capability. */
  function OwnResolves(capability: Option<Capability>, materialOption: Option<string>): Result<seq<AdapterResolve>, CompileError> {
    if capability.None? || capability.value.resolveType.None? then Ok([])
    else
      var c := capability.value;
      var option := if c.supportsOption then materialOption else None;
      if TooLong(option) then Err(FieldBounds) else Ok([AdapterResolve(c.resolveType.value, option, None)])
  }

  function KindForAnswerability(answerability: Answerability): ArtifactKind {
    match answerability
    case Answer => KindKnowledgeAnswer
    case Send => KindMultiAction
    case Clarify => KindUnclear
    case Abstain => KindUnclear
    case Refuse => KindRefusal
    case Handoff => KindHumanSupport
    case Smalltalk => KindSmalltalk
    case NoReply => KindSmalltalk
  }

  function FinalizeUnit(registry: seq<Manifest>, policy: Policy, authority: ScopeAuthority,
                        unitId: string, manifestId: ManifestId, answerability: Answerability,
                        materialOption: Option<string>, evidenceQuery: Option<string>,
                        planScope: Option<PlanScope>): Result<ExecUnit, CompileError>
  {
    match PolicyRef(policy.eligible, manifestId)
    case None => Err(CapabilityNotEligible)
    case Some(ref) =>
      var manifest := FindManifest(registry, manifestId);
      if manifest.None? || manifest.value.version != ref.version then Err(ManifestUnknown)
      else
        var scope :- ExecutionScope(planScope, authority, materialOption);
        var capability := RuntimeCapability(manifestId);
        var names := if capability.None? then [] else [capability.value.name];
        var resolves :- OwnResolves(capability, materialOption);
        var intents :- ActionIntents(answerability, capability, policy, materialOption);
        if answerability == Send && policy.scene == Direct then Err(DirectSendForbidden)
        else
          var fallback := if answerability == Send && SalesFallbackAllowed(policy) then [SALES_FALLBACK] else [];
          Ok(ExecUnit(unitId, ref, answerability,
                      if capability.Some? then capability.value.kind else KindForAnswerability(answerability),
                      names, if answerability == Answer then names else [],
                      resolves + fallback,
                      intents, scope, evidenceQuery))
  }

  predicate Blank(text: string) {
    forall i :: 0 <= i < |text| ==> text[i] in " \t\r\n"
  }

  function FinalizePlannerUnit(registry: seq<Manifest>, policy: Policy, authority: ScopeAuthority, unit: PlannerUnit)
    : Result<ExecUnit, CompileError>
  {
    if |unit.stepQueries| > 1 then Err(MultipleEvidenceQueries)
    else
      var query := if unit.stepQueries == [] then None else Some(unit.stepQueries[0]);
      if (unit.capabilityId == WeeklyProductList || unit.capabilityId == MonthlyProductList)
         && query.Some? && !Blank(query.value)
      then Err(ProductListQueryForbidden)
      else FinalizeUnit(registry, policy, authority, unit.unitId, unit.capabilityId, unit.answerability,
                        if unit.scope.DistributionPlan? then unit.scope.materialOption else None,
                        query, Some(unit.scope))
  }

  function FinalizeDeterministicUnit(registry: seq<Manifest>, policy: Policy, authority: ScopeAuthority,
                                     unit: DeterministicUnit): Result<ExecUnit, CompileError>
  {
    FinalizeUnit(registry, policy, authority, unit.unitId, unit.manifestId, unit.answerability,
                 unit.materialOption, unit.evidenceQuery, None)
  }

  function SourceCount(source: PlanSource): nat {
    match source
    case Planned(us) => |us|
    case Determined(us) => |us|
  }

  function SourceId(source: PlanSource, i: nat): string
    requires i < SourceCount(source)
  {
    match source
    case Planned(us) => us[i].unitId
    case Determined(us) => us[i].unitId
  }

  function SourceManifest(source: PlanSource, i: nat): ManifestId
    requires i < SourceCount(source)
  {
    match source
    case Planned(us) => us[i].capabilityId
    case Determined(us) => us[i].manifestId
  }

  function SourceAnswerability(source: PlanSource, i: nat): Answerability
    requires i < SourceCount(source)
  {
    match source
    case Planned(us) => us[i].answerability
    case Determined(us) => us[i].answerability
  }

  function FinalizeAt(registry: seq<Manifest>, policy: Policy, authority: ScopeAuthority, source: PlanSource, i: nat)
    : Result<ExecUnit, CompileError>
    requires i < SourceCount(source)
  {
    match source
    case Planned(us) => FinalizePlannerUnit(registry, policy, authority, us[i])
    case Determined(us) => FinalizeDeterministicUnit(registry, policy, authority, us[i])
  }

  /** The units in source order; the first unit that fails decides the error. */
  function FinalizeUnits(registry: seq<Manifest>, policy: Policy, authority: ScopeAuthority, source: PlanSource, n: nat)
    : (r: Result<seq<ExecUnit>, CompileError>)
    requires n <= SourceCount(source)
    ensures r.Ok? ==> |r.value| == n
    ensures r.Ok? ==> forall i :: 0 <= i < n ==> FinalizeAt(registry, policy, authority, source, i) == Ok(r.value[i])
  {
    if n == 0 then Ok([])
    else
      var front :- FinalizeUnits(registry, policy, authority, source, n - 1);
      var last :- FinalizeAt(registry, policy, authority, source, n - 1);
      Ok(front + [last])
  }

  // ----- derivations over all units -----

  function ModeFor(policies: set<Answerability>): ResponseMode {
    if Refuse in policies then RefusalMode
    else if Send in policies then ActionMode
    else if Clarify in policies then ClarificationMode
    else if Answer in policies then KnowledgeMode
    else if Handoff in policies then HandoffMode
    else if Smalltalk in policies then SmalltalkMode
    else if NoReply in policies then NoReplyMode
    else UnableMode
  }

  function SourceAnswerabilities(source: PlanSource): set<Answerability> {
    set i: nat | i < SourceCount(source) :: SourceAnswerability(source, i)
  }

  /** The first unit whose own answerability maps to the plan's mode. */
  function FirstUnitOfMode(units: seq<ExecUnit>, mode: ResponseMode): Option<ExecUnit> {
    if units == [] then None
    else if ModeFor({units[0].answerability}) == mode then Some(units[0])
    else FirstUnitOfMode(units[1..], mode)
  }

  function SendUnits(units: seq<ExecUnit>): seq<ExecUnit> {
    if units == [] then []
    else (if units[0].answerability == Send then [units[0]] else []) + SendUnits(units[1..])
  }

  function PlannedSends(units: seq<PlannerUnit>): seq<PlannerUnit> {
    if units == [] then []
    else (if units[0].answerability == Send then [units[0]] else []) + PlannedSends(units[1..])
  }

  function KindForPlanSpec(registry: seq<Manifest>, units: seq<PlannerUnit>, mode: ResponseMode): ArtifactKind {
    match mode
    case ActionMode =>
      var sends := PlannedSends(units);
      if |sends| != 1 then KindMultiAction
      else
        var manifest := FindManifest(registry, sends[0].capabilityId);
        var capability := if manifest.None? then None else RuntimeCapability(manifest.value.id);
        if capability.Some? then capability.value.kind else KindMultiAction
    case KnowledgeMode => KindKnowledgeAnswer
    case HandoffMode => KindHumanSupport
    case RefusalMode => KindRefusal
    case SmalltalkMode => KindSmalltalk
    case NoReplyMode => KindSmalltalk
    case ClarificationMode => KindUnclear
    case UnableMode => KindUnclear
  }

  function PlanKind(registry: seq<Manifest>, source: PlanSource, units: seq<ExecUnit>, mode: ResponseMode)
    : Result<ArtifactKind, CompileError>
  {
    if source.Planned? && source.planUnits != [] then Ok(KindForPlanSpec(registry, source.planUnits, mode))
    else if mode == ActionMode then
      var sends := SendUnits(units);
      Ok(if |sends| == 1 then sends[0].kind else KindMultiAction)
    else
      match FirstUnitOfMode(units, mode)
      case Some(unit) => Ok(KindForAnswerability(unit.answerability))
      case None => Err(NoUnitForMode)
  }

  /** Keep the first occurrence of every value. */
  function Dedup<T(==, !new)>(s: seq<T>): (r: seq<T>)
    ensures forall x :: x in r <==> x in s
    ensures forall i, j :: 0 <= i < j < |r| ==> r[i] != r[j]
    ensures |r| <= |s|
  {
    if s == [] then []
    else
      var last := s[|s| - 1];
      var front := Dedup(s[..|s| - 1]);
      assert s == s[..|s| - 1] + [last];
      if last in front then front else front + [last]
  }

  function FlatResolves(units: seq<ExecUnit>): seq<AdapterResolve> {
    if units == [] then [] else FlatResolves(units[..|units| - 1]) + units[|units| - 1].resolves
  }

  function FlatIntents(units: seq<ExecUnit>): seq<ActionIntent> {
    if units == [] then [] else FlatIntents(units[..|units| - 1]) + units[|units| - 1].intents
  }

  predicate HasId(refs: seq<ManifestRef>, id: ManifestId) {
    exists i :: 0 <= i < |refs| && refs[i].id == id
  }

  /** The first reference of every manifest id, in unit order. */
  function SelectedRefs(units: seq<ExecUnit>): (refs: seq<ManifestRef>)
    ensures |refs| <= |units|
    ensures units != [] ==> refs != []
    ensures forall u :: u in units ==> HasId(refs, u.manifestRef.id)
    ensures UniqueRefs(refs)
  {
    if units == [] then []
    else
      var last := units[|units| - 1];
      var front := SelectedRefs(units[..|units| - 1]);
      assert units == units[..|units| - 1] + [last];
      var refs := if HasId(front, last.manifestRef.id) then front else front + [last.manifestRef];
      assert refs[..|front|] == front;
      assert forall u :: u in units ==> HasId(refs, u.manifestRef.id) by {
        forall u | u in units ensures HasId(refs, u.manifestRef.id) {
          if u in units[..|units| - 1] {
            var i :| 0 <= i < |front| && front[i].id == u.manifestRef.id;
            assert refs[i].id == u.manifestRef.id;
          } else if HasId(front, last.manifestRef.id) {
            assert u == last;
          } else {
            assert refs[|front|].id == u.manifestRef.id;
          }
        }
      }
      refs
  }

  lemma HasIdOfMore(refs: seq<ManifestRef>, ref: ManifestRef)
    ensures forall id :: HasId(refs + [ref], id) <==> HasId(refs, id) || id == ref.id
  {
    var more := refs + [ref];
    assert more[|refs|] == ref;
    forall id | HasId(refs, id) ensures HasId(more, id) {
      var i :| 0 <= i < |refs| && refs[i].id == id;
      assert more[i].id == id;
    }
  }

  lemma SelectedRefsStep(units: seq<ExecUnit>, i: nat)
    requires i < |units|
    ensures SelectedRefs(units[..i + 1]) == (
      if HasId(SelectedRefs(units[..i]), units[i].manifestRef.id) then SelectedRefs(units[..i])
      else SelectedRefs(units[..i]) + [units[i].manifestRef])
  {
    assert units[..i + 1][..i] == units[..i];
  }

  lemma NothingSelected()
    ensures SelectedRefs([]) == [] && Seen({}, [])
  {
  }

  /** The set holds the ids of the references. */
  ghost predicate Seen(seen: set<ManifestId>, refs: seq<ManifestRef>) {
    forall id :: id in seen <==> HasId(refs, id)
  }

  lemma SeenMore(seen: set<ManifestId>, refs: seq<ManifestRef>, ref: ManifestRef)
    requires Seen(seen, refs)
    ensures ref.id in seen <==> HasId(refs, ref.id)
    ensures Seen(seen + {ref.id}, refs + [ref])
  {
    hide HasId;
    HasIdOfMore(refs, ref);
  }

  /** The loop with a `seen` set of manifest ids. */
  method CollectSelectedRefs(units: seq<ExecUnit>) returns (selected: seq<ManifestRef>)
    ensures selected == SelectedRefs(units)
  {
    hide SelectedRefs, HasId, UniqueRefs, Seen;
    NothingSelected();
    assert units[..0] == [];
    selected := [];
    var seen: set<ManifestId> := {};
    for i := 0 to |units|
      invariant selected == SelectedRefs(units[..i])
      invariant Seen(seen, selected)
    {
      SelectedRefsStep(units, i);
      var ref := units[i].manifestRef;
      SeenMore(seen, selected, ref);
      if ref.id !in seen {
        seen := seen + {ref.id};
        selected := selected + [ref];
      }
    }
    assert units[..|units|] == units;
  }

  lemma DedupSnoc<T(!new)>(s: seq<T>, x: T)
    ensures Dedup(s + [x]) == if x in s then Dedup(s) else Dedup(s) + [x]
  {
    assert (s + [x])[..|s|] == s;
  }

  lemma FlatResolvesStep(units: seq<ExecUnit>, i: nat)
    requires i < |units|
    ensures FlatResolves(units[..i + 1]) == FlatResolves(units[..i]) + units[i].resolves
  {
    assert units[..i + 1][..i] == units[..i];
  }

  /** Consuming `more` after `before`, one value at a time. */
  lemma DedupStep<T(!new)>(before: seq<T>, more: seq<T>, j: nat)
    requires j < |more|
    ensures Dedup(before + more[..j + 1]) ==
      if more[j] in Dedup(before + more[..j]) then Dedup(before + more[..j]) else Dedup(before + more[..j]) + [more[j]]
  {
    assert before + more[..j + 1] == (before + more[..j]) + [more[j]];
    DedupSnoc(before + more[..j], more[j]);
  }

  /** The resolves of one more unit, none of them consumed and all of them consumed. */
  lemma ResolveEnds(units: seq<ExecUnit>, i: nat)
    requires i < |units|
    ensures FlatResolves(units[..i]) + units[i].resolves[..0] == FlatResolves(units[..i])
    ensures FlatResolves(units[..i]) + units[i].resolves[..|units[i].resolves|] == FlatResolves(units[..i + 1])
  {
    FlatResolvesStep(units, i);
    assert units[i].resolves[..|units[i].resolves|] == units[i].resolves;
  }

  lemma NothingCollected()
    ensures Dedup(FlatResolves([])) == []
  {
  }

  /** The nested loop over units and resolves computes the same list the plan
      model recomputes from one flattened list. */
  method CollectResolves(units: seq<ExecUnit>) returns (output: seq<AdapterResolve>)
    ensures output == Dedup(FlatResolves(units))
  {
    hide Dedup, FlatResolves;
    NothingCollected();
    assert units[..0] == [];
    output := [];
    var seen: set<AdapterResolve> := {};
    for i := 0 to |units|
      invariant output == Dedup(FlatResolves(units[..i]))
      invariant forall r :: r in seen <==> r in output
    {
      var resolves := units[i].resolves;
      ghost var before := FlatResolves(units[..i]);
      ResolveEnds(units, i);
      for j := 0 to |resolves|
        invariant output == Dedup(before + resolves[..j])
        invariant forall r :: r in seen <==> r in output
      {
        DedupStep(before, resolves, j);
        if resolves[j] !in seen {
          seen := seen + {resolves[j]};
          output := output + [resolves[j]];
        }
      }
    }
    assert units[..|units|] == units;
  }

  // ----- the plan and its own validator -----

  ghost predicate DistinctUnitIds(units: seq<ExecUnit>) {
    forall i, j :: 0 <= i < j < |units| ==> units[i].unitId != units[j].unitId
  }

  ghost function PlanFaultOf(plan: ExecPlan, planHash: PlanBody -> string): Option<PlanFault> {
    var body := plan.body;
    if !(1 <= |body.units| <= 4) then Some(UnitCountOutOfBounds)
    else if !(1 <= |body.selectedRefs| <= 4) then Some(RefCountOutOfBounds)
    else if |body.resolves| > 8 then Some(TooManyResolves)
    else if |body.intents| > 3 then Some(TooManyIntents)
    else if !DistinctUnitIds(body.units) then Some(DuplicateUnitId)
    else if body.selectedRefs != SelectedRefs(body.units) then Some(SelectedRefsMismatch)
    else if body.resolves != Dedup(FlatResolves(body.units)) then Some(ResolvesMismatch)
    else if body.intents != FlatIntents(body.units) then Some(IntentsMismatch)
    else if (body.origin == FromPlanner) != body.hasPlanSpec then Some(PlanSpecOriginMismatch)
    else if plan.planId != planHash(body) then Some(PlanIdMismatch)
    else None
  }

  function Assemble(origin: PlanOrigin, kind: ArtifactKind, mode: ResponseMode, units: seq<ExecUnit>, planned: bool)
    : PlanBody
  {
    PlanBody(origin, kind, mode, mode != RefusalMode, units, SelectedRefs(units),
             Dedup(FlatResolves(units)), FlatIntents(units), planned)
  }

  ghost function Accepted(body: PlanBody, planHash: PlanBody -> string): Result<ExecPlan, CompileError> {
    var plan := ExecPlan(planHash(body), body);
    match PlanFaultOf(plan, planHash)
    case Some(fault) => Err(PlanModel(fault))
    case None => Ok(plan)
  }

  ghost function Compile(registry: seq<Manifest>, policy: Policy, authority: ScopeAuthority, source: PlanSource,
                         origin: PlanOrigin, planHash: PlanBody -> string): Result<ExecPlan, CompileError>
  {
    if (origin == FromPlanner) != source.Planned? then Err(OriginSourceMismatch)
    else
      var units :- FinalizeUnits(registry, policy, authority, source, SourceCount(source));
      var mode := ModeFor(SourceAnswerabilities(source));
      var kind :- PlanKind(registry, source, units, mode);
      Accepted(Assemble(origin, kind, mode, units, source.Planned?), planHash)
  }

  // ----- the policy check -----

  datatype PlanIssue =
    | ResponseModeNotAllowed
    | CapabilityNotAllowed(unitId: string)
    | ResolveNotAllowed(unitId: string)
    | ActionIssue(unitId: string)

  function ResolveIssues(unit: ExecUnit, policy: Policy, n: nat): seq<PlanIssue>
    requires n <= |unit.resolves|
  {
    if n == 0 then []
    else
      var last := if unit.resolves[n - 1].resolveType in policy.resolves then [] else [ResolveNotAllowed(unit.unitId)];
      ResolveIssues(unit, policy, n - 1) + last
  }

  function IntentIssues(unit: ExecUnit, policy: Policy, n: nat): seq<PlanIssue>
    requires n <= |unit.intents|
  {
    if n == 0 then []
    else
      var last := if unit.intents[n - 1].actionType in policy.actions then [] else [ActionIssue(unit.unitId)];
      IntentIssues(unit, policy, n - 1) + last
  }

  function UnitIssues(unit: ExecUnit, policy: Policy): seq<PlanIssue> {
    (if unit.manifestRef in policy.eligible then [] else [CapabilityNotAllowed(unit.unitId)])
    + ResolveIssues(unit, policy, |unit.resolves|)
    + IntentIssues(unit, policy, |unit.intents|)
  }

  function PlanIssues(plan: ExecPlan, policy: Policy, n: nat): seq<PlanIssue>
    requires n <= |plan.body.units|
  {
    if n == 0 then (if plan.body.mode in policy.replyModes then [] else [ResponseModeNotAllowed])
    else PlanIssues(plan, policy, n - 1) + UnitIssues(plan.body.units[n - 1], policy)
  }

  lemma UnitStarts(unit: ExecUnit, policy: Policy)
    ensures ResolveIssues(unit, policy, 0) == [] && IntentIssues(unit, policy, 0) == []
  {
  }

  lemma ResolveStep(unit: ExecUnit, policy: Policy, j: nat)
    requires j < |unit.resolves|
    ensures ResolveIssues(unit, policy, j + 1) == ResolveIssues(unit, policy, j)
      + (if unit.resolves[j].resolveType in policy.resolves then [] else [ResolveNotAllowed(unit.unitId)])
  {
  }

  lemma IntentStep(unit: ExecUnit, policy: Policy, j: nat)
    requires j < |unit.intents|
    ensures IntentIssues(unit, policy, j + 1) == IntentIssues(unit, policy, j)
      + (if unit.intents[j].actionType in policy.actions then [] else [ActionIssue(unit.unitId)])
  {
  }

  lemma PlanStarts(plan: ExecPlan, policy: Policy)
    ensures PlanIssues(plan, policy, 0) == if plan.body.mode in policy.replyModes then [] else [ResponseModeNotAllowed]
  {
  }

  lemma PlanStep(plan: ExecPlan, policy: Policy, i: nat)
    requires i < |plan.body.units|
    ensures PlanIssues(plan, policy, i + 1) == PlanIssues(plan, policy, i) + UnitIssues(plan.body.units[i], policy)
  {
  }

  /** Everything the check reports, in order. */
  function AllPlanIssues(plan: ExecPlan, policy: Policy): seq<PlanIssue> {
    PlanIssues(plan, policy, |plan.body.units|)
  }

  lemma IssuesInOrder(before: seq<PlanIssue>, unit: ExecUnit, policy: Policy)
    ensures var own := if unit.manifestRef in policy.eligible then [] else [CapabilityNotAllowed(unit.unitId)];
      before + UnitIssues(unit, policy) ==
        ((before + own) + ResolveIssues(unit, policy, |unit.resolves|)) + IntentIssues(unit, policy, |unit.intents|)
  {
    hide ResolveIssues, IntentIssues;
  }

  method ValidatePlan(plan: ExecPlan, policy: Policy) returns (issues: seq<PlanIssue>)
    ensures issues == AllPlanIssues(plan, policy)
  {
    hide UnitIssues, ResolveIssues, IntentIssues, PlanIssues;
    issues := [];
    PlanStarts(plan, policy);
    if plan.body.mode !in policy.replyModes {
      issues := issues + [ResponseModeNotAllowed];
    }
    var units := plan.body.units;
    for i := 0 to |units|
      invariant issues == PlanIssues(plan, policy, i)
    {
      var unit := units[i];
      ghost var before := issues;
      if unit.manifestRef !in policy.eligible {
        issues := issues + [CapabilityNotAllowed(unit.unitId)];
      }
      ghost var head := issues;
      UnitStarts(unit, policy);
      for j := 0 to |unit.resolves|
        invariant issues == head + ResolveIssues(unit, policy, j)
      {
        ResolveStep(unit, policy, j);
        if unit.resolves[j].resolveType !in policy.resolves {
          issues := issues + [ResolveNotAllowed(unit.unitId)];
        }
      }
      ghost var middle := issues;
      for j := 0 to |unit.intents|
        invariant issues == middle + IntentIssues(unit, policy, j)
      {
        IntentStep(unit, policy, j);
        if unit.intents[j].actionType !in policy.actions {
          issues := issues + [ActionIssue(unit.unitId)];
        }
      }
      IssuesInOrder(before, unit, policy);
      PlanStep(plan, policy, i);
    }
  }

  /** A plan the check lets through. */
  ghost predicate UnitWithin(unit: ExecUnit, policy: Policy) {
    && unit.manifestRef in policy.eligible
    && (forall r :: r in unit.resolves ==> r.resolveType in policy.resolves)
    && (forall a :: a in unit.intents ==> a.actionType in policy.actions)
  }

  ghost predicate UnitsWithin(plan: ExecPlan, policy: Policy) {
    forall u :: u in plan.body.units ==> UnitWithin(u, policy)
  }

  lemma ResolveIssuesEmpty(unit: ExecUnit, policy: Policy, n: nat)
    requires n <= |unit.resolves|
    ensures ResolveIssues(unit, policy, n) == [] <==>
      forall j :: 0 <= j < n ==> unit.resolves[j].resolveType in policy.resolves
    ensures forall x :: x in ResolveIssues(unit, policy, n) ==> x.ResolveNotAllowed?
  {
  }

  lemma IntentIssuesEmpty(unit: ExecUnit, policy: Policy, n: nat)
    requires n <= |unit.intents|
    ensures IntentIssues(unit, policy, n) == [] <==>
      forall j :: 0 <= j < n ==> unit.intents[j].actionType in policy.actions
    ensures forall x :: x in IntentIssues(unit, policy, n) ==> x.ActionIssue?
  {
  }

  lemma UnitIssuesEmpty(unit: ExecUnit, policy: Policy)
    ensures UnitIssues(unit, policy) == [] <==> UnitWithin(unit, policy)
    ensures ResponseModeNotAllowed !in UnitIssues(unit, policy)
  {
    ResolveIssuesEmpty(unit, policy, |unit.resolves|);
    IntentIssuesEmpty(unit, policy, |unit.intents|);
  }

  ghost predicate WithinUpTo(plan: ExecPlan, policy: Policy, n: nat)
    requires n <= |plan.body.units|
  {
    forall i :: 0 <= i < n ==> UnitWithin(plan.body.units[i], policy)
  }

  lemma WithinStep(plan: ExecPlan, policy: Policy, n: nat)
    requires n < |plan.body.units|
    ensures WithinUpTo(plan, policy, n + 1) <==> WithinUpTo(plan, policy, n) && UnitWithin(plan.body.units[n], policy)
  {
    hide UnitWithin;
  }

  lemma NoneToCheck(plan: ExecPlan, policy: Policy)
    ensures WithinUpTo(plan, policy, 0)
  {
  }

  lemma {:induction false} PlanIssuesExact(plan: ExecPlan, policy: Policy, n: nat)
    requires n <= |plan.body.units|
    ensures PlanIssues(plan, policy, n) == [] <==> plan.body.mode in policy.replyModes && WithinUpTo(plan, policy, n)
    ensures WithinUpTo(plan, policy, n) ==>
      PlanIssues(plan, policy, n) == if plan.body.mode in policy.replyModes then [] else [ResponseModeNotAllowed]
  {
    hide UnitWithin, UnitIssues, PlanIssues, WithinUpTo;
    if n == 0 {
      PlanStarts(plan, policy);
      NoneToCheck(plan, policy);
    } else {
      PlanIssuesExact(plan, policy, n - 1);
      PlanStep(plan, policy, n - 1);
      WithinStep(plan, policy, n - 1);
      UnitIssuesEmpty(plan.body.units[n - 1], policy);
    }
  }

  lemma WithinAll(plan: ExecPlan, policy: Policy)
    ensures WithinUpTo(plan, policy, |plan.body.units|) <==> UnitsWithin(plan, policy)
  {
    hide UnitWithin;
    if WithinUpTo(plan, policy, |plan.body.units|) {
      forall u | u in plan.body.units ensures UnitWithin(u, policy) {
        var i :| 0 <= i < |plan.body.units| && plan.body.units[i] == u;
      }
    }
  }

  /** The check is silent exactly on plans whose mode, manifests, resolves and
      actions all lie inside the policy. */
  lemma PlanValidExact(plan: ExecPlan, policy: Policy)
    ensures AllPlanIssues(plan, policy) == [] <==> plan.body.mode in policy.replyModes && UnitsWithin(plan, policy)
  {
    hide PlanIssues, WithinUpTo, UnitsWithin;
    PlanIssuesExact(plan, policy, |plan.body.units|);
    WithinAll(plan, policy);
  }

  /** A plan valid under a policy stays valid under one that authorises more. */
  lemma ValidityIsMonotone(plan: ExecPlan, small: Policy, large: Policy)
    requires PolicyWithin(small, large) && AllPlanIssues(plan, small) == []
    ensures AllPlanIssues(plan, large) == []
  {
    PlanValidExact(plan, small);
    PlanValidExact(plan, large);
  }
}
