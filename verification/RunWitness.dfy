/** Complete runs of the pipeline over the sealed registry, from grants to outbound
    actions: every hypothesis of the end-to-end theorems holds of them. In a group two
    units ask for a material pack and one for a weekly report, and all three leave; in a
    direct conversation nothing does. */
module RunWitness {
  import opened Wrappers
  import opened Json
  import opened CanonicalJson
  import opened AuthorityTypes
  import opened PolicyCompiler
  import opened PlanCompiler
  import opened PlanTheorems
  import opened AdapterFacts
  import opened Grounding
  import opened ActionReply
  import opened AuthorityTheorems
  import opened DeliveryTheorems
  import opened FactOrder

  // ----- hashes that do not collide: the canonical text of what is hashed -----

  function ChannelCode(c: ChannelKind): int {
    match c case Bank => 0 case NonBank => 1 case UnknownChannel => 2
  }

  function ArtifactCode(t: ArtifactType): int {
    match t
    case ArtifactMaterialPack => 0
    case ArtifactWeeklyReport => 1
    case ArtifactMonthlyReport => 2
    case ArtifactDocument => 3
    case ArtifactAdapterContext => 4
    case ArtifactHistory => 5
    case ArtifactUpload => 6
    case ArtifactUnknown => 7
  }

  function FactCode(t: FactType): int {
    match t
    case MaterialPackResolvable => 0
    case WeeklyReportResolvable => 1
    case MonthlyReportResolvable => 2
    case SalesMentionResolvable => 3
    case ReportPeriod => 4
    case ReportScopeSummary => 5
    case ReportScopeMatch => 6
    case ReportScopeProducts => 7
    case ReportScopeUnavailable => 8
    case RecentExecutedAction => 9
    case DocumentContext => 10
    case DocumentContextUnavailable => 11
  }

  function OptionalText(o: Option<string>): Json {
    if o.Some? then JString(o.value) else JNull
  }

  function TextList(texts: seq<string>): (r: Json)
    ensures r.JArray? && |r.items| == |texts| && forall i :: 0 <= i < |texts| ==> r.items[i] == JString(texts[i])
  {
    JArray(seq(|texts|, i requires 0 <= i < |texts| => JString(texts[i])))
  }

  function ScopeValue(s: EvidenceScope): Json {
    match s
    case DistributionEvidence(ref, channel, products, artifactType, option, period) =>
      JArray([JString(ref), JInt(ChannelCode(channel)), TextList(products), JInt(ArtifactCode(artifactType)),
              OptionalText(option), OptionalText(period)])
    case UnscopedEvidence(artifactType, option) => JArray([JInt(ArtifactCode(artifactType)), OptionalText(option)])
  }

  function FactValue(f: FactIdentity): Json {
    JArray([JString(f.recordRef), JInt(FactCode(f.factType)), JInt(ArtifactCode(f.artifactType)), JString(f.scopeRef),
            if f.asOf.Some? then JInt(f.asOf.value) else JNull, JString(f.valueHash), JString(f.provenanceHash)])
  }

  lemma ScopeValueInjective(x: EvidenceScope, y: EvidenceScope)
    requires ScopeValue(x) == ScopeValue(y)
    ensures x == y
  {
    var v, w := ScopeValue(x).items, ScopeValue(y).items;
    if x.DistributionEvidence? {
      assert |w| == 6 && v[0] == w[0] && v[1] == w[1] && v[2] == w[2] && v[3] == w[3] && v[4] == w[4] && v[5] == w[5];
      assert |x.products| == |y.products|;
      forall i | 0 <= i < |x.products| ensures x.products[i] == y.products[i] {
        assert TextList(x.products).items[i] == TextList(y.products).items[i];
      }
    } else {
      assert |w| == 2 && v[0] == w[0] && v[1] == w[1];
    }
  }

  lemma FactValueInjective(x: FactIdentity, y: FactIdentity)
    requires FactValue(x) == FactValue(y)
    ensures x == y
  {
    var v, w := FactValue(x).items, FactValue(y).items;
    assert v[0] == w[0] && v[1] == w[1] && v[2] == w[2] && v[3] == w[3] && v[4] == w[4] && v[5] == w[5] && v[6] == w[6];
  }

  ghost function ScopeText(s: EvidenceScope): string {
    Print(ScopeValue(s), false)
  }

  ghost function FactText(f: FactIdentity): string {
    Print(FactValue(f), false)
  }

  ghost function PlainHashes(): Hashes {
    Hashes(_ => "record", ScopeText, _ => "value", _ => "provenance", FactText)
  }

  lemma PlainHashesFaithful()
    ensures FaithfulHashes(PlainHashes())
  {
    forall x, y | FactText(x) == FactText(y) ensures x == y {
      PrintInjective(FactValue(x), FactValue(y), false);
      FactValueInjective(x, y);
    }
    forall x, y | ScopeText(x) == ScopeText(y) ensures x == y {
      PrintInjective(ScopeValue(x), ScopeValue(y), false);
      ScopeValueInjective(x, y);
    }
    forall x ensures ScopeText(x) != "" {
      PrintStarts(ScopeValue(x), false);
    }
  }

  // ----- every plan that compiles runs through -----

  function Sealed(): (r: seq<Manifest>)
    ensures |r| == SEALED_COUNT
    ensures forall i :: 0 <= i < |r| ==> r[i] == Manifest(SealedId(i), VERSION, SealedContract(SealedId(i)))
  {
    seq(SEALED_COUNT, i requires 0 <= i < SEALED_COUNT => Manifest(SealedId(i), VERSION, SealedContract(SealedId(i))))
  }

  lemma SealedAsClaimed()
    ensures SealedRegistry(Sealed()) && SealedContracts(Sealed())
  {
    hide SealedContract, SealedId;
  }

  lemma {:induction false} DictBounded(pairs: seq<Pair>)
    ensures |FactDict(pairs)| <= |pairs|
  {
    if pairs != [] {
      DictBounded(pairs[..|pairs| - 1]);
    }
  }

  lemma {:induction false} PairsBounded(h: Hashes, units: seq<ExecUnit>, results: map<ResolveType, AdapterResult>, n: nat)
    requires n <= |units| && UsableResults(results) && PlanPairs(h, units, results, n).Ok?
    ensures |PlanPairs(h, units, results, n).value| <= |FlatResolves(units[..n])|
  {
    if n > 0 {
      PairsBounded(h, units, results, n - 1);
      UnitPairsFail(h, units[n - 1], results, |units[n - 1].resolves|);
      FlatResolvesStep(units, n - 1);
    }
  }

  /** A plan has no more canonical facts than its units have resolves. */
  lemma EvidenceBounded(h: Hashes, plan: ExecPlan, items: seq<PreflightItem>)
    requires AdapterEvidence(h, plan, items).Ok?
    ensures |AdapterEvidence(h, plan, items).value.0| <= |FlatResolves(plan.body.units)|
  {
    hide PlanPairs, FactDict, BindingDict, Results;
    ResultsUsable(items);
    var pairs := PlanPairs(h, plan.body.units, Results(items), |plan.body.units|).value;
    PairsBounded(h, plan.body.units, Results(items), |plan.body.units|);
    DictBounded(pairs);
    assert plan.body.units[..|plan.body.units|] == plan.body.units;
  }

  /** What a run starts from: the request, its scope, a plan source, and what the adapter
      answers. */
  datatype Setup = Setup(request: Request, authority: ScopeAuthority, source: PlanSource, items: seq<PreflightItem>)

  ghost const PLAN_HASH: PlanBody -> string := _ => "plan"

  lemma {:induction false} FinalizedFrom(policy: Policy, authority: ScopeAuthority, source: PlanSource, units: seq<ExecUnit>, n: nat)
    requires n <= |units| == SourceCount(source)
    requires forall i: nat :: i < n ==> FinalizeAt(Sealed(), policy, authority, source, i) == Ok(units[i])
    ensures FinalizeUnits(Sealed(), policy, authority, source, n) == Ok(units[..n])
  {
    hide FinalizeAt;
    if n > 0 {
      FinalizedFrom(policy, authority, source, units, n - 1);
      assert units[..n] == units[..n - 1] + [units[n - 1]];
    }
  }

  function OriginOf(source: PlanSource): PlanOrigin {
    if source.Planned? then FromPlanner else FromDeterministic
  }

  /** Everything up to the evidence. */
  ghost predicate Prepared(s: Setup, a: Attempt) {
    && SealedRegistry(a.w.registry) && SealedContracts(a.w.registry)
    && CompilePolicy(a.w.registry, s.request, s.authority, RecallOff) == Ok(a.policy)
    && Compile(a.w.registry, a.policy, s.authority, s.source, OriginOf(s.source), PLAN_HASH) == Ok(a.plan)
    && a.items == s.items && AdapterEvidence(a.h, a.plan, a.items) == Ok((a.facts, a.bindings))
    && FaithfulHashes(a.h) && AdapterOnlyHere(a)
    && ValidAttempt(a) && CompiledPolicy(a.policy)
  }

  /** Everything the end-to-end theorems ask for, at once. */
  ghost predicate CompleteRun(s: Setup, a: Attempt, groundings: seq<UnitGrounding>) {
    Prepared(s, a) && Grounded(a) == Ok(groundings) && |groundings| == |a.plan.body.units|
  }

  /** The adapter answers within the bounds of its fields. */
  ghost predicate WellAnswered(items: seq<PreflightItem>) {
    && (forall x :: x in items && x.result.Some? ==> x.result.value.contractVersion != "")
    && (forall t :: !Misfit(Results(items), t))
  }

  /** Units that have compiled make a plan. */
  ghost predicate Fits(units: seq<ExecUnit>) {
    && 1 <= |units| <= 4 && DistinctUnitIds(units) && |FlatIntents(units)| <= 3 && |FlatResolves(units)| <= 32
  }

  lemma NoMisfits(unit: ExecUnit, results: map<ResolveType, AdapterResult>)
    requires forall t :: !Misfit(results, t)
    ensures !UnitMisfits(unit, results, |unit.resolves|)
  {
  }

  /** From a policy and units that compile and an adapter that answers within bounds
      there is an attempt, and grounding is the last thing that can stop it: it does
      exactly if an option that a state does not accept meets a pack. */
  lemma AttemptOf(s: Setup, policy: Policy, units: seq<ExecUnit>) returns (a: Attempt)
    requires CompilePolicy(Sealed(), s.request, s.authority, RecallOff) == Ok(policy)
    requires SourceCount(s.source) == |units|
    requires forall i: nat :: i < |units| ==> FinalizeAt(Sealed(), policy, s.authority, s.source, i) == Ok(units[i])
    requires Fits(units) && WellAnswered(s.items)
    ensures Prepared(s, a) && a.plan.body.units == units && a.policy == policy && a.w.dates == (text => Some(text))
    ensures a.w.registry == Sealed() && a.others == [] && |a.facts| <= 32
    ensures Grounded(a).Err? <==> MaterialPack in Results(s.items) && exists i :: 0 <= i < |units| && Spoiled(units, i)
  {
    hide SealedRegistry, SealedContracts, CompilePolicy, Compile, AdapterEvidence, FaithfulHashes, ValidAttempt, FinalizeUnits, Spoiled,
         CompiledPolicy, Grounded, PlainHashes, FinalizeAt, DistinctUnitIds, FlatIntents, FlatResolves, Misfit, Results, UnitMisfits;
    SealedAsClaimed();
    PlainHashesFaithful();
    FinalizedFrom(policy, s.authority, s.source, units, |units|);
    assert units[..|units|] == units;
    CompilationExact(Sealed(), policy, s.authority, s.source, OriginOf(s.source), PLAN_HASH, units);
    var plan := Compile(Sealed(), policy, s.authority, s.source, OriginOf(s.source), PLAN_HASH).value;
    forall i | 0 <= i < |units| ensures !UnitMisfits(units[i], Results(s.items), |units[i].resolves|) {
      NoMisfits(units[i], Results(s.items));
    }
    EvidenceFailsExactly(PlainHashes(), plan, s.items);
    EvidenceBounded(PlainHashes(), plan, s.items);
    var evidence := AdapterEvidence(PlainHashes(), plan, s.items).value;
    a := Attempt(PlainHashes(), World(Sealed(), None, text => Some(text)), plan, policy, s.items, evidence.0, evidence.1, []);
    CompiledAttempt(s.request, s.authority, RecallOff, s.source, OriginOf(s.source), PLAN_HASH, a);
    EvidenceAligned(a.h, a.plan, a.items, a.facts, a.bindings);
    assert a.facts + a.others == a.facts;
    GroundingFailsExactly(s.request, s.authority, RecallOff, s.source, OriginOf(s.source), PLAN_HASH, a);
  }

  /** Without such an option there is a complete run. */
  lemma RunOf(s: Setup, policy: Policy, units: seq<ExecUnit>) returns (a: Attempt, groundings: seq<UnitGrounding>)
    requires CompilePolicy(Sealed(), s.request, s.authority, RecallOff) == Ok(policy)
    requires SourceCount(s.source) == |units|
    requires forall i: nat :: i < |units| ==> FinalizeAt(Sealed(), policy, s.authority, s.source, i) == Ok(units[i])
    requires Fits(units) && WellAnswered(s.items)
    requires forall i :: 0 <= i < |units| ==> !Spoiled(units, i)
    ensures CompleteRun(s, a, groundings) && a.plan.body.units == units && a.policy == policy
    ensures a.w.dates == (text => Some(text)) && |groundings| == |units|
  {
    hide CompilePolicy, FinalizeAt, Prepared, WellAnswered, Spoiled, Grounded, Results, DistinctUnitIds, FlatIntents, FlatResolves;
    a := AttemptOf(s, policy, units);
    groundings := Grounded(a).value;
    var _, _ := GroundedUnit(a, groundings, 0);
  }

  // ----- a group: two material packs and a weekly report -----

  const SCOPE := Distribution("channel", Bank, [Artifact(OffersMaterialPack, ["A", "B"]), Artifact(OffersWeeklyReport, [])])
  const AUTHORITY := ScopeAuthority(SCOPE, "scope")
  const REQUEST := Request(Group, SCOPE, Grants({ResolveMaterialPack, ResolveWeeklyReport}, {SendMaterialPack, SendWeeklyReport}, {}))
  const PACK := AdapterResult(Resolved, "v1", 0, Some("pack-1"), None, None)
  const WEEKLY := AdapterResult(Resolved, "v1", 0, Some("weekly-1"), Some("2026-W29"), Some("2026-07-17"))
  const ITEMS := [PreflightItem(MaterialPack, Some(PACK)), PreflightItem(WeeklyReport, Some(WEEKLY))]

  /** Two pack units with the options they ask for, and a report unit. */
  function GroupSource(first: Option<string>, second: Option<string>): PlanSource {
    Determined([DeterministicUnit("u1", MaterialPackSend, Send, first, None),
                DeterministicUnit("u2", MaterialPackSend, Send, second, None),
                DeterministicUnit("u3", WeeklyReportSend, Send, None, None)])
  }

  function GroupSetup(first: Option<string>, second: Option<string>): Setup {
    Setup(REQUEST, AUTHORITY, GroupSource(first, second), ITEMS)
  }

  function GroupPolicy(): Policy {
    DraftPolicy(Sealed(), REQUEST, RecallOff)
  }

  lemma SendersListed()
    ensures ManifestRef(MaterialPackSend, VERSION) in GroupPolicy().eligible
    ensures ManifestRef(WeeklyReportSend, VERSION) in GroupPolicy().eligible
    ensures forall ref :: ref in GroupPolicy().eligible ==> ref.version == VERSION
  {
    hide SealedContract, SealedContracts, SealedRegistry, ReplyModes, AllowedResolves;
    assert SCOPE.artifacts[0].offer == OffersMaterialPack && SCOPE.artifacts[1].offer == OffersWeeklyReport;
    assert Sealed()[0] in Sealed() && Eligible(MaterialPackSend, REQUEST, false);
    assert Sealed()[1] in Sealed() && Eligible(WeeklyReportSend, REQUEST, false);
  }

  lemma GroupPolicyCompiles()
    ensures CompilePolicy(Sealed(), REQUEST, AUTHORITY, RecallOff) == Ok(GroupPolicy())
    ensures GroupPolicy().scene == Group && GroupPolicy().actions == {SendMaterialPack, SendWeeklyReport} && GroupPolicy().mentions == {}
  {
    hide SealedContract, SealedContracts, SealedRegistry, CompilePolicy, EligibleRefs, ReplyModes, AllowedResolves;
    SealedAsClaimed();
    GroupCompilationTotal(Sealed(), REQUEST, AUTHORITY, RecallOff);
  }

  /** What a unit of a send manifest compiles to in the scope of the run. */
  function Sending(id: string, manifestId: ManifestId, option: Option<string>): ExecUnit
    requires manifestId in {MaterialPackSend, WeeklyReportSend}
  {
    var c := RuntimeCapability(manifestId).value;
    var own := if c.supportsOption then option else None;
    ExecUnit(id, ManifestRef(manifestId, VERSION), Send, c.kind, [c.name], [], [AdapterResolve(c.resolveType.value, own, None)],
             [ActionIntent(c.action.value, c.name, own)], DistributionScope("scope", Bank, option, [], None), None)
  }

  lemma SendingCompiles(id: string, manifestId: ManifestId, option: Option<string>)
    requires manifestId in {MaterialPackSend, WeeklyReportSend} && !TooLong(option)
    ensures FinalizeUnit(Sealed(), GroupPolicy(), AUTHORITY, id, manifestId, Send, option, None, None) == Ok(Sending(id, manifestId, option))
  {
    hide GroupPolicy, SealedContract, SealedRegistry, SealedContracts, CompilePolicy, ScopeFault;
    SendersListed();
    GroupPolicyCompiles();
    NoScopeFault(option);
    var at := if manifestId == MaterialPackSend then 0 else 1;
    assert Sealed()[at].id == manifestId && Sealed()[at] in Sealed();
    var own := Sending(id, manifestId, option).resolves;
    assert own + [] == own;
  }

  lemma NoScopeFault(option: Option<string>)
    requires !TooLong(option)
    ensures ScopeFault(option, []).None?
  {
  }

  function GroupUnits(first: Option<string>, second: Option<string>): seq<ExecUnit> {
    [Sending("u1", MaterialPackSend, first), Sending("u2", MaterialPackSend, second), Sending("u3", WeeklyReportSend, None)]
  }

  lemma GroupUnitCompiles(first: Option<string>, second: Option<string>, i: nat)
    requires !TooLong(first) && !TooLong(second) && i < 3
    ensures FinalizeAt(Sealed(), GroupPolicy(), AUTHORITY, GroupSource(first, second), i) == Ok(GroupUnits(first, second)[i])
  {
    hide FinalizeUnit, GroupPolicy, Sending;
    SendingCompiles("u1", MaterialPackSend, first);
    SendingCompiles("u2", MaterialPackSend, second);
    SendingCompiles("u3", WeeklyReportSend, None);
  }

  lemma {:induction false} OneEach(units: seq<ExecUnit>)
    requires forall u :: u in units ==> |u.intents| == 1 && |u.resolves| == 1
    ensures |FlatIntents(units)| == |units| && |FlatResolves(units)| == |units|
  {
    if |units| > 0 {
      OneEach(units[..|units| - 1]);
    }
  }

  lemma GroupFits(first: Option<string>, second: Option<string>)
    ensures Fits(GroupUnits(first, second))
  {
    var units := GroupUnits(first, second);
    assert "u1"[1] != "u2"[1] && "u2"[1] != "u3"[1] && "u1"[1] != "u3"[1];
    assert units[0].unitId == "u1" && units[1].unitId == "u2" && units[2].unitId == "u3";
    OneEach(units);
  }

  lemma GroupSpoiled(first: Option<string>, second: Option<string>, i: nat)
    requires i < 3
    ensures Spoiled(GroupUnits(first, second), i) <==> i < 2 && !OptionFits(first)
  {
    hide FirstAlike, OptionFits;
    var units := GroupUnits(first, second);
    assert units[0].resolves[0].resolveType == MaterialPack;
    FirstUnitLeads(units, units[i].scope, MaterialPack);
  }

  lemma GroupResults()
    ensures Results(ITEMS) == map[MaterialPack := PACK, WeeklyReport := WEEKLY]
  {
    var one := [ITEMS[0]];
    assert one[..0] == [] && Results(one) == map[MaterialPack := PACK];
    assert ITEMS[..1] == one;
  }

  lemma GroupWellAnswered()
    ensures WellAnswered(ITEMS)
  {
    hide Results;
    GroupResults();
    assert ResultFault(MaterialPack, PACK, "pack-1").None?;
    assert ResultFault(WeeklyReport, WEEKLY, "weekly-1").None?;
  }

  /** The action of each unit. The second pack carries the option asked for, or that of
      the first unit. */
  function GroupAction(option: Option<string>, i: nat): OutboundAction
    requires i < 3
  {
    if i == 0 then OutboundAction(SendMaterialPack, MaterialPack, "pack-1", Some("A"), None, None)
    else if i == 1 then
      OutboundAction(SendMaterialPack, MaterialPack, "pack-1", if option.Some? && option.value != "" then option else Some("A"), None, None)
    else OutboundAction(SendWeeklyReport, WeeklyReport, "weekly-1", None, Some("2026-W29"), Some("2026-07-17"))
  }

  lemma Delivered(option: Option<string>, a: Attempt, i: nat, sent: OutboundAction)
    requires i < 3 && a.plan.body.units == GroupUnits(Some("A"), option) && a.items == ITEMS && a.w.dates == (text => Some(text))
    requires Delivers(a, GroupUnits(Some("A"), option)[i], GroupUnits(Some("A"), option)[i].intents[0], sent)
    ensures sent == GroupAction(option, i)
  {
    hide Results, FirstAlike;
    GroupResults();
    var units := GroupUnits(Some("A"), option);
    if i < 2 {
      assert units[0].resolves[0].resolveType == MaterialPack;
      FirstUnitLeads(units, units[i].scope, MaterialPack);
      assert FirstAlike(units, units[i].scope, MaterialPack) == Some(units[0]);
    }
  }

  lemma GroupUnitSends(option: Option<string>, a: Attempt, groundings: seq<UnitGrounding>, i: nat)
    requires i < 3 && CompleteRun(GroupSetup(Some("A"), option), a, groundings)
    requires a.plan.body.units == GroupUnits(Some("A"), option) && a.w.dates == (text => Some(text))
    ensures GroupAction(option, i) in Actions(a.plan.body.units, groundings, |groundings|)
  {
    hide SealedRegistry, SealedContracts, CompilePolicy, Compile, AdapterEvidence, FaithfulHashes, AdapterOnlyHere, ValidAttempt,
         CompiledPolicy, Grounded, Actions, Results, Delivers, GroupAction;
    GroupResults();
    SendEndToEnd(REQUEST, AUTHORITY, RecallOff, GroupSource(Some("A"), option), FromDeterministic, PLAN_HASH, a, groundings, i);
    Delivered(option, a, i, ActionFrom(a.plan.body.units[i].intents[0], groundings[i].business).value);
  }

  /** The run sends all three; a second pack whose unit asked for no option, or for an
      empty one, carries the option of the first, although its own scope does not name it. */
  lemma GroupSends(option: Option<string>) returns (a: Attempt, groundings: seq<UnitGrounding>)
    requires !TooLong(option)
    ensures CompleteRun(GroupSetup(Some("A"), option), a, groundings)
    ensures forall i: nat :: i < 3 ==> GroupAction(option, i) in Actions(a.plan.body.units, groundings, |groundings|)
    ensures |a.plan.body.units| == 3 && a.plan.body.units[1].scope.DistributionScope?
    ensures a.plan.body.units[1].scope.materialOption == option
  {
    hide CompleteRun, CompilePolicy, Actions, Fits, WellAnswered, GroupPolicy, GroupAction, FinalizeAt, Spoiled;
    GroupPolicyCompiles();
    var first, units := Some("A"), GroupUnits(Some("A"), option);
    forall i: nat | i < 3 ensures FinalizeAt(Sealed(), GroupPolicy(), AUTHORITY, GroupSource(first, option), i) == Ok(units[i]) {
      GroupUnitCompiles(first, option, i);
    }
    GroupFits(first, option);
    GroupWellAnswered();
    forall i: nat | i < 3 ensures !Spoiled(units, i) {
      GroupSpoiled(first, option, i);
    }
    a, groundings := RunOf(GroupSetup(first, option), GroupPolicy(), units);
    forall i: nat | i < 3 ensures GroupAction(option, i) in Actions(a.plan.body.units, groundings, |groundings|) {
      GroupUnitSends(option, a, groundings, i);
    }
  }

  /** With an empty option in the first unit policy, plan and evidence are fine, and
      grounding fails. */
  lemma EmptyOptionFails() returns (a: Attempt)
    ensures Prepared(GroupSetup(Some(""), None), a) && Grounded(a).Err?
  {
    hide Prepared, CompilePolicy, Fits, WellAnswered, GroupPolicy, FinalizeAt, Spoiled, Results, Grounded;
    GroupPolicyCompiles();
    var units := GroupUnits(Some(""), None);
    forall i: nat | i < 3 ensures FinalizeAt(Sealed(), GroupPolicy(), AUTHORITY, GroupSource(Some(""), None), i) == Ok(units[i]) {
      GroupUnitCompiles(Some(""), None, i);
    }
    GroupFits(Some(""), None);
    GroupWellAnswered();
    GroupResults();
    GroupSpoiled(Some(""), None, 0);
    a := AttemptOf(GroupSetup(Some(""), None), GroupPolicy(), units);
  }

  // ----- a direct conversation -----

  const DIRECT_AUTHORITY := ScopeAuthority(BusinessScope.Unscoped, "none")
  const DIRECT_REQUEST := Request(Direct, BusinessScope.Unscoped, Grants({}, {SendMaterialPack}, {Sales}))
  const DIRECT_SOURCE := Determined([DeterministicUnit("u1", GeneralClarification, Clarify, None, None)])
  const DIRECT := Setup(DIRECT_REQUEST, DIRECT_AUTHORITY, DIRECT_SOURCE, [])

  function DirectPolicy(): Policy {
    DraftPolicy(Sealed(), DIRECT_REQUEST, RecallOff)
  }

  function DirectUnit(): ExecUnit {
    ExecUnit("u1", ManifestRef(GeneralClarification, VERSION), Clarify, KindUnclear, [], [], [], [], ExecScope.UnscopedScope, None)
  }

  lemma DirectPolicyCompiles()
    ensures CompilePolicy(Sealed(), DIRECT_REQUEST, DIRECT_AUTHORITY, RecallOff) == Ok(DirectPolicy())
    ensures PolicyRef(DirectPolicy().eligible, GeneralClarification) == Some(ManifestRef(GeneralClarification, VERSION))
  {
    hide SealedContract, CompilePolicy, ReplyModes, EligibleRefs, SealedRegistry, SealedContracts;
    SealedAsClaimed();
    DirectCompilationExact(Sealed(), DIRECT_REQUEST, DIRECT_AUTHORITY, RecallOff);
    DirectDraftEligible(Sealed(), DIRECT_REQUEST, RecallOff);
    assert DirectPolicy().eligible[0] == ManifestRef(GeneralClarification, VERSION);
  }

  lemma DirectUnitCompiles()
    ensures FinalizeAt(Sealed(), DirectPolicy(), DIRECT_AUTHORITY, DIRECT_SOURCE, 0) == Ok(DirectUnit())
  {
    hide DirectPolicy, SealedContract, PolicyRef, SealedRegistry, SealedContracts, CompilePolicy;
    DirectPolicyCompiles();
    assert Sealed()[4].id == GeneralClarification && Sealed()[4] in Sealed();
    var none: seq<AdapterResolve> := [];
    assert none + [] == none;
  }

  lemma DirectFits()
    ensures Fits([DirectUnit()]) && WellAnswered([]) && !Spoiled([DirectUnit()], 0)
  {
    assert [DirectUnit()][..0] == [];
  }

  /** A direct run with every hypothesis of the theorem about direct conversations: its
      grants name an action, and nothing leaves. */
  lemma DirectRuns() returns (a: Attempt, groundings: seq<UnitGrounding>)
    ensures CompleteRun(DIRECT, a, groundings) && a.policy.scene == Direct
    ensures Actions(a.plan.body.units, groundings, |groundings|) == []
  {
    hide SealedRegistry, SealedContracts, CompilePolicy, Compile, AdapterEvidence, FaithfulHashes, AdapterOnlyHere, ValidAttempt,
         CompiledPolicy, Grounded, Actions, FinalizeAt, Fits, WellAnswered;
    DirectPolicyCompiles();
    DirectUnitCompiles();
    DirectFits();
    a, groundings := RunOf(DIRECT, DirectPolicy(), [DirectUnit()]);
    DirectSendsNothing(a, groundings);
  }
}
