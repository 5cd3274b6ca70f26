/** Admitting facts unit by unit, validating bindings, deriving business facts,
    and the checks grounding makes on its own output. */
module Grounding {
  import opened Numbers
  import opened Wrappers
  import opened AuthorityTypes
  import opened PolicyCompiler
  import opened PlanCompiler
  import opened AdapterFacts
  import CanonicalJson
  import Sorting

  // ----- admission -----

  predicate HasProvenance(fact: Fact) {
    var p := fact.provenance;
    p.sourceClass != "" && p.recordRef != "" && p.producerVersion != "" && p.operation != "" && p.scopeRef != ""
  }

  predicate WithinAge(fact: Fact, maxAge: nat, now: Option<int>) {
    now.Some? && fact.observedAt.Some? && now.value - fact.observedAt.value <= maxAge
  }

  predicate HistoryAllowed(fact: Fact, c: EvidenceContract, now: Option<int>) {
    if fact.sourceType !in {FromConversationHistory, FromUserMessage, FromAssistantMessage, FromHistorySummary} then true
    else if !c.allowHistory then false
    else if fact.sourceType == FromConversationHistory || fact.sourceType == FromHistorySummary then false
    else
      var role := if fact.sourceType == FromUserMessage then UserRole else AssistantRole;
      && role in c.history.roles
      && c.history.maxTurns.None?
      && (c.history.maxAge.Some? ==> WithinAge(fact, c.history.maxAge.value, now))
  }

  predicate StalenessAllowed(fact: Fact, c: EvidenceContract, now: Option<int>) {
    if c.stale.requireObservedAt && fact.observedAt.None? then false
    else if c.stale.maxAge.None? then true
    else if now.None? || fact.observedAt.None? then false
    else WithinAge(fact, c.stale.maxAge.value, now) || c.stale.allowStale
  }

  /** Artifact kinds of a plan compared by name with artifact types of a scope. */
  predicate KindNamesArtifact(kind: ArtifactKind, t: ArtifactType) {
    || (kind == KindMaterialPack && t == ArtifactMaterialPack)
    || (kind == KindWeeklyReport && t == ArtifactWeeklyReport)
    || (kind == KindMonthlyReport && t == ArtifactMonthlyReport)
  }

  predicate FieldMatches(field: ScopeField, unit: ExecUnit, scope: EvidenceScope)
    requires unit.scope.DistributionScope? && scope.DistributionEvidence?
  {
    match field
    case ChannelIdField => true
    case ChannelKindField => true
    case ProductIdsField => true
    case ProductIdField => |unit.scope.products| == 1 && unit.scope.products == scope.products
    case MaterialOptionField => unit.scope.materialOption == scope.materialOption
    case TimeRangeField => unit.scope.timeRange.Some? && unit.scope.timeRange.value.period == scope.period
    case ArtifactTypeField => KindNamesArtifact(unit.kind, scope.artifactType)
  }

  predicate ScopeMatches(fact: Fact, unit: ExecUnit, required: set<ScopeField>) {
    match (unit.scope, fact.scope)
    case (DistributionScope(ref, channel, _, products, _), DistributionEvidence(fref, fchannel, fproducts, _, _, _)) =>
      && ref == fref && channel == fchannel && products == fproducts
      && forall field :: field in required ==> FieldMatches(field, unit, fact.scope)
    case (UnscopedScope, UnscopedEvidence(t, _)) => required == {} && fact.artifactType == t
    case _ => false
  }

  predicate Admitted(fact: Fact, unit: ExecUnit, manifest: Manifest, now: Option<int>) {
    var c := manifest.contract;
    && fact.factType in c.allowedFacts
    && fact.factType !in c.forbiddenFacts
    && (c.provenanceRequired ==> HasProvenance(fact))
    && (c.allowedSources != {} ==> fact.sourceType in c.allowedSources)
    && fact.sourceType !in c.forbiddenSources
    && (c.allowedArtifacts != {} ==> fact.artifactType in c.allowedArtifacts)
    && ScopeMatches(fact, unit, c.requiredScopeMatch)
    && HistoryAllowed(fact, c, now)
    && StalenessAllowed(fact, c, now)
    && (c.citationRequired ==> fact.publicUrls != [])
  }

  /** The admitted facts, in canonical order. */
  function Candidates(facts: seq<Fact>, unit: ExecUnit, manifest: Manifest, now: Option<int>): (r: seq<Fact>)
    ensures forall f :: f in r <==> f in facts && Admitted(f, unit, manifest, now)
    ensures DistinctFacts(facts) ==> DistinctFacts(r)
    ensures |r| <= |facts|
  {
    hide Admitted;
    if facts == [] then []
    else
      var last := facts[|facts| - 1];
      var front := Candidates(facts[..|facts| - 1], unit, manifest, now);
      assert facts == facts[..|facts| - 1] + [last];
      assert DistinctFacts(facts) ==> forall f :: f in facts[..|facts| - 1] ==> f.id != last.id;
      assert forall i :: 0 <= i < |front| ==> front[i] in front;
      if Admitted(last, unit, manifest, now) then front + [last] else front
  }

  predicate RequirementsMet(facts: seq<Fact>, c: EvidenceContract) {
    var types := set f | f in facts :: f.factType;
    var artifacts := set f | f in facts :: f.artifactType;
    && c.requiredFacts <= types
    && (c.anyOfFacts != {} ==> c.anyOfFacts * types != {})
    && c.requiredArtifacts <= artifacts
    && |facts| >= c.minFacts
  }

  /** All or nothing: an incomplete set of evidence is no evidence. */
  function AdmittedFacts(facts: seq<Fact>, unit: ExecUnit, manifest: Manifest, now: Option<int>): (r: seq<Fact>)
    ensures forall f :: f in r ==> f in facts && Admitted(f, unit, manifest, now)
    ensures DistinctFacts(facts) ==> DistinctFacts(r)
  {
    var candidates := Candidates(facts, unit, manifest, now);
    if RequirementsMet(candidates, manifest.contract) then candidates else []
  }

  // ----- bindings -----

  datatype BusinessError =
    | EvidenceLimitExceeded
    | ManifestMismatch
    | ManifestVersionMismatch
    | BindingEvidenceNotAdmitted
    | BindingDuplicateEvidence
    | BindingProvenanceMismatch
    | InvalidIsoDate
    | OptionBounds

  function FactById(facts: seq<Fact>, id: string): (r: Option<Fact>)
    ensures r.Some? ==> r.value in facts && r.value.id == id
    ensures r.None? ==> forall f :: f in facts ==> f.id != id
  {
    if facts == [] then None
    else if facts[|facts| - 1].id == id then Some(facts[|facts| - 1])
    else
      assert facts == facts[..|facts| - 1] + [facts[|facts| - 1]];
      FactById(facts[..|facts| - 1], id)
  }

  function BindingFault(facts: seq<Fact>, seen: set<string>, b: Binding): Option<BusinessError> {
    match FactById(facts, b.id)
    case None => Some(BindingEvidenceNotAdmitted)
    case Some(fact) =>
      if b.id in seen then Some(BindingDuplicateEvidence)
      else if Some(b.resolveType) != fact.resolveType || b.recordRef != fact.provenance.recordRef
              || b.scopeRef != fact.provenance.scopeRef
      then Some(BindingProvenanceMismatch)
      else None
  }

  function ValidBindings(facts: seq<Fact>, bindings: seq<Binding>): Result<map<string, Binding>, BusinessError> {
    if bindings == [] then Ok(map[])
    else
      var output :- ValidBindings(facts, bindings[..|bindings| - 1]);
      var last := bindings[|bindings| - 1];
      match BindingFault(facts, output.Keys, last)
      case Some(e) => Err(e)
      case None => Ok(output[last.id := last])
  }

  lemma {:induction false} BindingErrorStays(facts: seq<Fact>, bindings: seq<Binding>, n: nat)
    requires n <= |bindings| && ValidBindings(facts, bindings[..n]).Err?
    ensures ValidBindings(facts, bindings) == ValidBindings(facts, bindings[..n])
  {
    if n < |bindings| {
      var front := bindings[..|bindings| - 1];
      assert front[..n] == bindings[..n];
      BindingErrorStays(facts, front, n);
    } else {
      assert bindings[..n] == bindings;
    }
  }

  lemma ValidBindingsStep(facts: seq<Fact>, bindings: seq<Binding>, i: nat)
    requires i < |bindings| && ValidBindings(facts, bindings[..i]).Ok?
    ensures var output := ValidBindings(facts, bindings[..i]).value;
      ValidBindings(facts, bindings[..i + 1]) ==
        match BindingFault(facts, output.Keys, bindings[i])
        case Some(e) => Err(e)
        case None => Ok(output[bindings[i].id := bindings[i]])
  {
    assert bindings[..i + 1][..i] == bindings[..i];
  }

  lemma NoBindings(facts: seq<Fact>)
    ensures ValidBindings(facts, []) == Ok(map[])
  {
  }

  method ValidatedResolveBindings(facts: seq<Fact>, bindings: seq<Binding>)
    returns (r: Result<map<string, Binding>, BusinessError>)
    ensures r == ValidBindings(facts, bindings)
  {
    hide ValidBindings, FactById;
    NoBindings(facts);
    assert bindings[..0] == [];
    var output: map<string, Binding> := map[];
    for i := 0 to |bindings|
      invariant ValidBindings(facts, bindings[..i]) == Ok(output)
    {
      var binding := bindings[i];
      ValidBindingsStep(facts, bindings, i);
      var fact := FactById(facts, binding.id);
      if fact.None? {
        BindingErrorStays(facts, bindings, i + 1);
        return Err(BindingEvidenceNotAdmitted);
      }
      if binding.id in output {
        BindingErrorStays(facts, bindings, i + 1);
        return Err(BindingDuplicateEvidence);
      }
      if Some(binding.resolveType) != fact.value.resolveType || binding.recordRef != fact.value.provenance.recordRef
         || binding.scopeRef != fact.value.provenance.scopeRef {
        BindingErrorStays(facts, bindings, i + 1);
        return Err(BindingProvenanceMismatch);
      }
      output := output[binding.id := binding];
    }
    assert bindings[..|bindings|] == bindings;
    r := Ok(output);
  }

  /** No two bindings for one piece of evidence. */
  ghost predicate DistinctBindings(bindings: seq<Binding>) {
    forall i, j :: 0 <= i < j < |bindings| ==> bindings[i].id != bindings[j].id
  }

  ghost predicate AllMatched(facts: seq<Fact>, bindings: seq<Binding>) {
    forall b :: b in bindings ==> exists f :: f in facts && Matches(f, b)
  }

  /** The binding check passes exactly on distinct bindings each of which matches a
      fact of the unit, and then returns every binding under its evidence id. */
  lemma {:induction false} ValidBindingsExact(facts: seq<Fact>, bindings: seq<Binding>)
    requires DistinctFacts(facts)
    ensures ValidBindings(facts, bindings).Ok? <==> DistinctBindings(bindings) && AllMatched(facts, bindings)
    ensures ValidBindings(facts, bindings).Ok? ==>
      forall id, b :: (id in ValidBindings(facts, bindings).value && ValidBindings(facts, bindings).value[id] == b)
        <==> (b in bindings && b.id == id)
  {
    hide AllMatched, DistinctBindings, DistinctFacts, FactById;
    NothingBound(facts);
    if bindings != [] {
      var n := |bindings| - 1;
      var front, last := bindings[..n], bindings[n];
      ValidBindingsExact(facts, front);
      assert bindings == front + [last];
      SplitLast(facts, front, last);
      MatchedExact(facts, last);
    }
  }

  lemma NothingBound(facts: seq<Fact>)
    ensures AllMatched(facts, []) && DistinctBindings([])
  {
  }

  lemma SplitLast(facts: seq<Fact>, front: seq<Binding>, last: Binding)
    ensures AllMatched(facts, front + [last]) <==> AllMatched(facts, front) && exists f :: f in facts && Matches(f, last)
    ensures DistinctBindings(front + [last]) <==> DistinctBindings(front) && forall b :: b in front ==> b.id != last.id
  {
    var all := front + [last];
    assert last in all;
    assert forall b :: b in all <==> b in front || b == last;
    if DistinctBindings(all) {
      forall i, j | 0 <= i < j < |front| ensures front[i].id != front[j].id {
        assert all[i] == front[i] && all[j] == front[j];
      }
      forall b | b in front ensures b.id != last.id {
        var i :| 0 <= i < |front| && front[i] == b;
        assert all[i] == b && all[|front|] == last;
      }
    }
  }

  lemma MatchedExact(facts: seq<Fact>, b: Binding)
    requires DistinctFacts(facts)
    ensures (exists f :: f in facts && Matches(f, b)) <==>
      FactById(facts, b.id).Some? && Matches(FactById(facts, b.id).value, b)
  {
    if f :| f in facts && Matches(f, b) {
      assert FactById(facts, b.id).value == f;
    }
  }

  // ----- resolvable state -----

  datatype Availability = Available | Unavailable | UnknownAvailability

  datatype ResolvableState = ResolvableState(
    availability: Availability, resolveRef: Option<string>, materialOption: Option<string>, recordRef: Option<string>)

  datatype ReportState = ReportState(
    base: ResolvableState, reasonCode: string, period: Option<string>, reportDate: Option<string>,
    periodStart: Option<string>, periodEnd: Option<string>)

  const NO_STATE := ResolvableState(UnknownAvailability, None, None, None)
  const NO_REPORT := ReportState(NO_STATE, "", None, None, None, None)

  predicate DeclaredOrAdmitted(unit: ExecUnit, manifest: Manifest, t: ResolveType) {
    || (exists i :: 0 <= i < |unit.resolves| && unit.resolves[i].resolveType == t)
    || FactTypeFor(t) in manifest.contract.requiredFacts
    || FactTypeFor(t) in manifest.contract.anyOfFacts
  }

  function FirstResolvable(facts: seq<Fact>, t: ResolveType): (r: Option<Fact>)
    ensures r.Some? ==> r.value in facts && r.value.factType == FactTypeFor(t) && r.value.resolveType == Some(t)
    ensures r.None? ==> forall f :: f in facts ==> !(f.factType == FactTypeFor(t) && f.resolveType == Some(t))
  {
    if facts == [] then None
    else if facts[0].factType == FactTypeFor(t) && facts[0].resolveType == Some(t) then Some(facts[0])
    else FirstResolvable(facts[1..], t)
  }

  function FirstSummary(facts: seq<Fact>, t: ResolveType): Option<ReportSummary> {
    if facts == [] then None
    else if facts[0].factType == ReportScopeSummary && facts[0].resolveType == Some(t) && facts[0].summary.Some?
            && facts[0].summary.value.weekly == (t == WeeklyReport)
    then facts[0].summary
    else FirstSummary(facts[1..], t)
  }

  function AvailabilityOf(fact: Fact): Availability {
    match fact.value
    case BooleanValue(flag) => if flag then Available else Unavailable
    case _ => UnknownAvailability
  }

  /** The binding stored for a fact, when it is for this resolve type. */
  function BindingFor(fact: Fact, bindings: map<string, Binding>, t: ResolveType): Option<Binding> {
    if fact.id in bindings && bindings[fact.id].resolveType == t then Some(bindings[fact.id]) else None
  }

  function UnitResolvable(unit: ExecUnit, manifest: Manifest, facts: seq<Fact>, bindings: map<string, Binding>, t: ResolveType)
    : ResolvableState
  {
    if !DeclaredOrAdmitted(unit, manifest, t) then NO_STATE
    else
      match FirstResolvable(facts, t)
      case None => NO_STATE
      case Some(fact) =>
        var binding := BindingFor(fact, bindings, t);
        ResolvableState(AvailabilityOf(fact),
                        if binding.Some? then Some(binding.value.resolveRef) else None,
                        if t == MaterialPack then fact.scope.materialOption else None,
                        Some(fact.provenance.recordRef))
  }

  /** No text fails to be a date. */
  ghost predicate ReadsAll(dates: string -> Option<string>) {
    forall text :: dates(text).Some?
  }

  /** `dates` reads a strict ISO date and gives its canonical text, or fails. */
  function StrictDate(dates: string -> Option<string>, text: Option<string>): Result<Option<string>, BusinessError> {
    if text.None? then Ok(None)
    else if dates(text.value).None? then Err(InvalidIsoDate)
    else Ok(dates(text.value))
  }

  function UnitReport(unit: ExecUnit, manifest: Manifest, facts: seq<Fact>, bindings: map<string, Binding>, t: ResolveType,
                      dates: string -> Option<string>): (r: Result<ReportState, BusinessError>)
    ensures r.Err? ==> r.error == InvalidIsoDate && !ReadsAll(dates)
  {
    var base := UnitResolvable(unit, manifest, facts, bindings, t);
    if !DeclaredOrAdmitted(unit, manifest, t) then Ok(NO_REPORT)
    else
      match FirstSummary(facts, t)
      case None =>
        var fact := FirstResolvable(facts, t);
        var binding := if fact.Some? then BindingFor(fact.value, bindings, t) else None;
        if binding.None? then Ok(ReportState(base, "", None, None, None, None))
        else
          var date :- StrictDate(dates, binding.value.reportDate);
          Ok(ReportState(base, "", binding.value.period, date, None, None))
      case Some(summary) =>
        var date :- StrictDate(dates, summary.reportDate);
        var start :- StrictDate(dates, summary.periodStart);
        var end :- StrictDate(dates, summary.periodEnd);
        Ok(ReportState(base.(availability := if summary.available then Available else base.availability,
                             materialOption := None),
                       summary.reasonCode, summary.period, date, start, end))
  }

  // ----- recently executed actions -----

  const MAX_RECENT_FACTS: nat := 20

  datatype RecentState = RecentState(actionType: ActionType, reportDate: Option<string>, receivedAt: nat, recordRef: string)

  predicate AdmitsType(manifest: Manifest, t: FactType) {
    t in manifest.contract.allowedFacts && t !in manifest.contract.forbiddenFacts
  }

  /** The facts of recent actions in the unit's scope. */
  function RecentFacts(facts: seq<Fact>, unit: ExecUnit): (r: seq<Fact>)
    ensures forall f :: f in r ==> f in facts && f.recent.Some?
  {
    if facts == [] then []
    else
      var last := facts[|facts| - 1];
      var front := RecentFacts(facts[..|facts| - 1], unit);
      assert facts == facts[..|facts| - 1] + [last];
      if last.factType == RecentExecutedAction && last.recent.Some? && ScopeMatches(last, unit, {}) then front + [last] else front
  }

  function ReceivedAt(f: Fact): int {
    if f.recent.Some? then f.recent.value.receivedAt else -1
  }

  /** `f` goes before `g`: received later, or at the same time with the greater id. */
  predicate Newer(f: Fact, g: Fact) {
    ReceivedAt(f) > ReceivedAt(g) || (ReceivedAt(f) == ReceivedAt(g) && !CanonicalJson.AtMost(f.id, g.id))
  }

  ghost predicate AllRecent(facts: seq<Fact>) {
    forall f :: f in facts ==> f.recent.Some?
  }

  lemma NewerIsOrder()
    ensures Sorting.Order(Newer)
  {
    hide CanonicalJson.AtMost;
    forall f, g | Newer(f, g) ensures !Newer(g, f) {
      CanonicalJson.AtMostTotal(f.id, g.id);
    }
    forall f, g, k | !Newer(f, g) && !Newer(g, k) ensures !Newer(f, k) {
      if CanonicalJson.AtMost(f.id, g.id) && CanonicalJson.AtMost(g.id, k.id) {
        CanonicalJson.AtMostTransitive(f.id, g.id, k.id);
      }
    }
  }

  /** The recent facts come newest first, none lost and none added. */
  lemma NewestFirstOrdered(facts: seq<Fact>)
    ensures Sorting.Sorted(Sorting.Sort(facts, Newer), Newer) && multiset(Sorting.Sort(facts, Newer)) == multiset(facts)
  {
    NewerIsOrder();
    Sorting.SortSorts(facts, Newer);
  }

  lemma SortKeepsRecent(facts: seq<Fact>, n: nat)
    requires AllRecent(facts) && n <= |facts|
    ensures AllRecent(Sorting.Sort(facts, Newer)[..n])
  {
    hide Sorting.Sort, Newer;
    var sorted := Sorting.Sort(facts, Newer);
    forall f | f in sorted[..n] ensures f.recent.Some? {
      assert f in multiset(sorted);
      assert f in facts;
    }
  }

  function RecentStates(facts: seq<Fact>, dates: string -> Option<string>): (r: Result<seq<RecentState>, BusinessError>)
    requires AllRecent(facts)
    ensures r.Err? ==> r.error == InvalidIsoDate && !ReadsAll(dates)
    ensures r.Ok? ==> |r.value| == |facts|
  {
    if facts == [] then Ok([])
    else
      var last := facts[|facts| - 1];
      assert facts == facts[..|facts| - 1] + [last];
      var front :- RecentStates(facts[..|facts| - 1], dates);
      var date :- StrictDate(dates, last.recent.value.reportDate);
      Ok(front + [RecentState(last.recent.value.actionType, date, last.recent.value.receivedAt, last.provenance.recordRef)])
  }

  /** The newest recent actions a unit may see. */
  function UnitRecent(unit: ExecUnit, manifest: Manifest, facts: seq<Fact>, dates: string -> Option<string>)
    : (r: Result<seq<RecentState>, BusinessError>)
    ensures r.Err? ==> r.error == InvalidIsoDate && !ReadsAll(dates)
    ensures r.Ok? ==> |r.value| <= MAX_RECENT_FACTS
  {
    if !AdmitsType(manifest, RecentExecutedAction) then Ok([])
    else
      var recent := RecentFacts(facts, unit);
      var n := Min(|recent|, MAX_RECENT_FACTS);
      SortKeepsRecent(recent, n);
      RecentStates(Sorting.Sort(recent, Newer)[..n], dates)
  }

  // ----- permission -----

  datatype Permission = Allowed | Denied | UnknownPermission

  function UnitPermission(unit: ExecUnit, policy: Policy): Permission {
    if unit.runtimeCapabilities == [] && unit.answerCapabilities == [] && unit.resolves == [] && unit.intents == []
    then UnknownPermission
    else
      var id := unit.manifestRef.id;
      var read := ReadRequirement(id);
      var action := ActionRequirement(id);
      if && unit.manifestRef in policy.eligible
         && (read.Some? ==> read.value in policy.readCaps)
         && (action.Some? ==> action.value in policy.actions)
         && (id == SalesHandoff ==> policy.mentionsAllowed && Sales in policy.mentions)
         && (forall i :: 0 <= i < |unit.resolves| ==> unit.resolves[i].resolveType in policy.resolves)
         && (forall i :: 0 <= i < |unit.intents| ==> unit.intents[i].actionType in policy.actions)
      then Allowed else Denied
  }

  // ----- business facts -----

  datatype BusinessFacts = BusinessFacts(
    materialPack: ResolvableState,
    weekly: ReportState,
    monthly: ReportState,
    sales: ResolvableState,
    recent: seq<RecentState>,
    optionStatus: Availability,
    permission: Permission,
    factCount: nat)

  /** What a state accepts as a material option, unlike the plan, which accepts an empty
      one. */
  predicate OptionFits(option: Option<string>) {
    option.Some? ==> 1 <= |option.value| <= 80
  }

  function DeriveBusinessFacts(unit: ExecUnit, manifest: Manifest, policy: Policy, facts: seq<Fact>,
                               bindings: seq<Binding>, dates: string -> Option<string>): Result<BusinessFacts, BusinessError>
  {
    if |facts| > 32 then Err(EvidenceLimitExceeded)
    else if unit.manifestRef.id != manifest.id then Err(ManifestMismatch)
    else if unit.manifestRef.version != manifest.version then Err(ManifestVersionMismatch)
    else
      var bound :- ValidBindings(facts, bindings);
      var pack := UnitResolvable(unit, manifest, facts, bound, MaterialPack);
      if !OptionFits(pack.materialOption) then Err(OptionBounds) else
      var weekly :- UnitReport(unit, manifest, facts, bound, WeeklyReport, dates);
      var monthly :- UnitReport(unit, manifest, facts, bound, MonthlyReport, dates);
      var sales := UnitResolvable(unit, manifest, facts, bound, SalesMention);
      var recent :- UnitRecent(unit, manifest, facts, dates);
      var option := if DeclaredOrAdmitted(unit, manifest, MaterialPack) && pack.recordRef.Some?
                    then pack.availability else UnknownAvailability;
      Ok(BusinessFacts(pack, weekly, monthly, sales, recent, option, UnitPermission(unit, policy), |facts|))
  }

  // ----- grounding -----

  datatype GroundError =
    | DuplicateCanonicalEvidence
    | ManifestNotEligible
    | ManifestUnregistered
    | RegistryVersionMismatch
    | Business(e: BusinessError)
    | EvidenceIdBindingMismatch
    | DuplicateEvidenceId
    | BusinessFactCountMismatch
    | TooMuchEvidence
    | UnitCountMismatch
    | PlanBindingMismatch

  datatype UnitGrounding = UnitGrounding(
    unitId: string, manifestRef: ManifestRef, answerability: Answerability, scope: ExecScope,
    evidenceQuery: Option<string>, intents: seq<ActionIntent>,
    allowedIds: seq<string>, allowed: seq<Fact>, business: BusinessFacts)

  function Ids(facts: seq<Fact>): (r: seq<string>)
    ensures |r| == |facts| && forall i :: 0 <= i < |r| ==> r[i] == facts[i].id
  {
    seq(|facts|, i requires 0 <= i < |facts| => facts[i].id)
  }

  /** The validator of one unit's grounding. */
  ghost function GroundingFault(g: UnitGrounding): Option<GroundError> {
    if |g.allowedIds| > 32 || |g.allowed| > 32 then Some(TooMuchEvidence)
    else if g.allowedIds != Ids(g.allowed) then Some(EvidenceIdBindingMismatch)
    else if !DistinctFacts(g.allowed) then Some(DuplicateEvidenceId)
    else if g.business.factCount != |g.allowed| then Some(BusinessFactCountMismatch)
    else None
  }

  predicate BoundToUnit(g: UnitGrounding, unit: ExecUnit) {
    && g.unitId == unit.unitId && g.manifestRef == unit.manifestRef && g.answerability == unit.answerability
    && g.scope == unit.scope && g.evidenceQuery == unit.evidenceQuery && g.intents == unit.intents
  }

  /** The validator that ties groundings to the plan they were made for. */
  ghost function PlanBindingFault(plan: ExecPlan, groundings: seq<UnitGrounding>): Option<GroundError> {
    if |plan.body.units| != |groundings| then Some(UnitCountMismatch)
    else if exists i :: 0 <= i < |groundings| && !BoundToUnit(groundings[i], plan.body.units[i]) then Some(PlanBindingMismatch)
    else None
  }

  function BindingsOf(bindings: seq<Binding>, facts: seq<Fact>): (r: seq<Binding>)
    ensures forall b :: b in r <==> b in bindings && exists f :: f in facts && f.id == b.id
    ensures DistinctBindings(bindings) ==> DistinctBindings(r)
  {
    if bindings == [] then []
    else
      var last := bindings[|bindings| - 1];
      var front := BindingsOf(bindings[..|bindings| - 1], facts);
      assert bindings == bindings[..|bindings| - 1] + [last];
      if FactById(facts, last.id).Some? then front + [last] else front
  }

  datatype World = World(registry: seq<Manifest>, now: Option<int>, dates: string -> Option<string>)

  ghost function GroundUnit(w: World, unit: ExecUnit, policy: Policy, facts: seq<Fact>, bindings: seq<Binding>)
    : Result<UnitGrounding, GroundError>
  {
    if unit.manifestRef !in policy.eligible then Err(ManifestNotEligible)
    else
      match FindManifest(w.registry, unit.manifestRef.id)
      case None => Err(ManifestUnregistered)
      case Some(manifest) =>
        if manifest.version != unit.manifestRef.version then Err(RegistryVersionMismatch)
        else
          var allowed := AdmittedFacts(facts, unit, manifest, w.now);
          match DeriveBusinessFacts(unit, manifest, policy, allowed, BindingsOf(bindings, allowed), w.dates)
          case Err(e) => Err(Business(e))
          case Ok(business) =>
            var g := UnitGrounding(unit.unitId, unit.manifestRef, unit.answerability, unit.scope, unit.evidenceQuery,
                                   unit.intents, Ids(allowed), allowed, business);
            match GroundingFault(g)
            case Some(e) => Err(e)
            case None => Ok(g)
  }

  ghost predicate EachGrounded(w: World, units: seq<ExecUnit>, policy: Policy, facts: seq<Fact>, bindings: seq<Binding>,
                               groundings: seq<UnitGrounding>)
    requires |groundings| <= |units|
  {
    forall i :: 0 <= i < |groundings| ==> GroundUnit(w, units[i], policy, facts, bindings) == Ok(groundings[i])
  }

  ghost predicate SomeFails(w: World, units: seq<ExecUnit>, policy: Policy, facts: seq<Fact>, bindings: seq<Binding>,
                            n: nat, e: GroundError)
    requires n <= |units|
  {
    exists i :: 0 <= i < n && GroundUnit(w, units[i], policy, facts, bindings) == Err(e)
  }

  ghost function GroundUnits(w: World, units: seq<ExecUnit>, policy: Policy, facts: seq<Fact>, bindings: seq<Binding>, n: nat)
    : (r: Result<seq<UnitGrounding>, GroundError>)
    requires n <= |units|
    ensures r.Ok? ==> |r.value| == n
  {
    if n == 0 then Ok([])
    else
      var front :- GroundUnits(w, units, policy, facts, bindings, n - 1);
      var last :- GroundUnit(w, units[n - 1], policy, facts, bindings);
      Ok(front + [last])
  }

  lemma {:induction false} GroundUnitsResult(w: World, units: seq<ExecUnit>, policy: Policy, facts: seq<Fact>,
                                             bindings: seq<Binding>, n: nat)
    requires n <= |units|
    ensures var r := GroundUnits(w, units, policy, facts, bindings, n);
      && (r.Ok? ==> EachGrounded(w, units, policy, facts, bindings, r.value))
      && (r.Err? ==> SomeFails(w, units, policy, facts, bindings, n, r.error))
  {
    hide GroundUnit;
    if n > 0 {
      GroundUnitsResult(w, units, policy, facts, bindings, n - 1);
    }
  }

  ghost function Ground(w: World, plan: ExecPlan, policy: Policy, facts: seq<Fact>, bindings: seq<Binding>)
    : Result<seq<UnitGrounding>, GroundError>
  {
    if !DistinctFacts(facts) then Err(DuplicateCanonicalEvidence)
    else
      var groundings :- GroundUnits(w, plan.body.units, policy, facts, bindings, |plan.body.units|);
      match PlanBindingFault(plan, groundings)
      case Some(e) => Err(e)
      case None => Ok(groundings)
  }
}
