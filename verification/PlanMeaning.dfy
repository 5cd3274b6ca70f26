/** What a compiled plan is, said of the plan source and without the functions that
    derive it: its mode, its artifact kind, its lists, and each of its units. */
module PlanMeaning {
  import opened Wrappers
  import opened AuthorityTypes
  import opened PolicyCompiler
  import opened PlanCompiler
  import opened PlanTheorems
  import opened Concatenation

  // ----- the mode -----

  /** Some unit of the source asks for this. */
  ghost predicate Asked(source: PlanSource, p: Answerability) {
    exists i: nat :: i < SourceCount(source) && SourceAnswerability(source, i) == p
  }

  lemma AskedMeans(source: PlanSource)
    ensures forall p :: p in SourceAnswerabilities(source) <==> Asked(source, p)
  {
  }

  /** The first of these that some unit asks for decides the mode: a refusal, a send, a
      clarification, an answer, a handoff, small talk, silence. */
  ghost predicate ModeRanks(source: PlanSource, mode: ResponseMode) {
    && (mode == RefusalMode <==> Asked(source, Refuse))
    && (mode == ActionMode <==> Asked(source, Send) && !Asked(source, Refuse))
    && (mode == ClarificationMode <==> Asked(source, Clarify) && !Asked(source, Refuse) && !Asked(source, Send))
    && (mode == KnowledgeMode <==>
          Asked(source, Answer) && !Asked(source, Refuse) && !Asked(source, Send) && !Asked(source, Clarify))
    && (mode == HandoffMode <==>
          && Asked(source, Handoff) && !Asked(source, Refuse) && !Asked(source, Send) && !Asked(source, Clarify)
          && !Asked(source, Answer))
    && (mode == SmalltalkMode <==>
          && Asked(source, Smalltalk) && !Asked(source, Refuse) && !Asked(source, Send) && !Asked(source, Clarify)
          && !Asked(source, Answer) && !Asked(source, Handoff))
    && (mode == NoReplyMode <==>
          && Asked(source, NoReply) && !Asked(source, Refuse) && !Asked(source, Send) && !Asked(source, Clarify)
          && !Asked(source, Answer) && !Asked(source, Handoff) && !Asked(source, Smalltalk))
    && (mode == UnableMode <==>
          && !Asked(source, Refuse) && !Asked(source, Send) && !Asked(source, Clarify)
          && !Asked(source, Answer) && !Asked(source, Handoff) && !Asked(source, Smalltalk) && !Asked(source, NoReply))
  }

  /** The mode of a compiled plan, and that it is compliant unless some unit refuses. */
  lemma ModeExactly(registry: seq<Manifest>, policy: Policy, authority: ScopeAuthority, source: PlanSource,
                    origin: PlanOrigin, planHash: PlanBody -> string, plan: ExecPlan)
    requires Compile(registry, policy, authority, source, origin, planHash) == Ok(plan)
    ensures ModeRanks(source, plan.body.mode)
    ensures plan.body.compliant <==> !Asked(source, Refuse)
    ensures plan.body.origin == origin && plan.body.hasPlanSpec == source.Planned?
  {
    hide Asked, ModeRanks, Compile, FinalizeUnits, PlanKind, ModeFor, SelectedRefs, Dedup, FlatResolves, FlatIntents;
    CompiledBody(registry, policy, authority, source, origin, planHash, plan);
    ModeOfSource(source);
    RefusalRanks(source, plan.body.mode);
  }

  lemma ModeOfSource(source: PlanSource)
    ensures ModeRanks(source, ModeFor(SourceAnswerabilities(source)))
  {
    hide Asked, SourceAnswerabilities;
    AskedMeans(source);
  }

  lemma RefusalRanks(source: PlanSource, mode: ResponseMode)
    requires ModeRanks(source, mode)
    ensures mode == RefusalMode <==> Asked(source, Refuse)
  {
    hide Asked;
  }

  lemma CompiledBody(registry: seq<Manifest>, policy: Policy, authority: ScopeAuthority, source: PlanSource,
                     origin: PlanOrigin, planHash: PlanBody -> string, plan: ExecPlan)
    requires Compile(registry, policy, authority, source, origin, planHash) == Ok(plan)
    ensures var mode := ModeFor(SourceAnswerabilities(source));
      && FinalizeUnits(registry, policy, authority, source, SourceCount(source)) == Ok(plan.body.units)
      && PlanKind(registry, source, plan.body.units, mode).Ok?
      && plan.body == Assemble(origin, PlanKind(registry, source, plan.body.units, mode).value, mode, plan.body.units, source.Planned?)
  {
    hide FinalizeUnits, PlanKind, ModeFor;
  }

  // ----- the lists -----

  function ResolvesOf(units: seq<ExecUnit>): (r: seq<seq<AdapterResolve>>)
    ensures |r| == |units| && forall i :: 0 <= i < |r| ==> r[i] == units[i].resolves
  {
    seq(|units|, i requires 0 <= i < |units| => units[i].resolves)
  }

  function IntentsOf(units: seq<ExecUnit>): (r: seq<seq<ActionIntent>>)
    ensures |r| == |units| && forall i :: 0 <= i < |r| ==> r[i] == units[i].intents
  {
    seq(|units|, i requires 0 <= i < |units| => units[i].intents)
  }

  function UnitManifests(units: seq<ExecUnit>): (r: seq<ManifestId>)
    ensures |r| == |units| && forall i :: 0 <= i < |r| ==> r[i] == units[i].manifestRef.id
  {
    seq(|units|, i requires 0 <= i < |units| => units[i].manifestRef.id)
  }

  function RefIds(refs: seq<ManifestRef>): (r: seq<ManifestId>)
    ensures |r| == |refs| && forall i :: 0 <= i < |r| ==> r[i] == refs[i].id
  {
    seq(|refs|, i requires 0 <= i < |refs| => refs[i].id)
  }

  lemma {:induction false} FlatResolvesLaidOut(units: seq<ExecUnit>)
    ensures Concatenates(FlatResolves(units), ResolvesOf(units))
  {
    hide Concatenates;
    if units == [] {
      NoParts<AdapterResolve>([]);
      assert ResolvesOf([]) == [];
    } else {
      var front, last := units[..|units| - 1], units[|units| - 1];
      FlatResolvesLaidOut(front);
      OnePartMore(FlatResolves(front), ResolvesOf(front), last.resolves);
      assert ResolvesOf(units) == ResolvesOf(front) + [last.resolves];
    }
  }

  lemma {:induction false} FlatIntentsLaidOut(units: seq<ExecUnit>)
    ensures Concatenates(FlatIntents(units), IntentsOf(units))
  {
    hide Concatenates;
    if units == [] {
      NoParts<ActionIntent>([]);
      assert IntentsOf([]) == [];
    } else {
      var front, last := units[..|units| - 1], units[|units| - 1];
      FlatIntentsLaidOut(front);
      OnePartMore(FlatIntents(front), IntentsOf(front), last.intents);
      assert IntentsOf(units) == IntentsOf(front) + [last.intents];
    }
  }

  lemma {:induction false} DedupKeepsFirst<T(!new)>(s: seq<T>)
    ensures FirstOccurrences(Dedup(s), s)
  {
    hide FirstOccurrences;
    if s == [] {
      NoOccurrences<T>();
    } else {
      var front, last := s[..|s| - 1], s[|s| - 1];
      DedupKeepsFirst(front);
      OneMoreOccurrence(Dedup(front), front, last);
      assert s == front + [last];
    }
  }

  lemma HasIdListed(refs: seq<ManifestRef>, id: ManifestId)
    ensures HasId(refs, id) <==> id in RefIds(refs)
  {
    if HasId(refs, id) {
      var i :| 0 <= i < |refs| && refs[i].id == id;
      assert RefIds(refs)[i] == id;
    }
  }

  lemma {:induction false} SelectedKeepsFirst(units: seq<ExecUnit>)
    ensures FirstOccurrences(RefIds(SelectedRefs(units)), UnitManifests(units))
  {
    hide FirstOccurrences, HasId, UniqueRefs;
    if units == [] {
      NoOccurrences<ManifestId>();
      assert RefIds(SelectedRefs(units)) == [] && UnitManifests(units) == [];
    } else {
      var front, last := units[..|units| - 1], units[|units| - 1].manifestRef;
      var refs := SelectedRefs(front);
      SelectedKeepsFirst(front);
      OneMoreOccurrence(RefIds(refs), UnitManifests(front), last.id);
      HasIdListed(refs, last.id);
      assert RefIds(refs + [last]) == RefIds(refs) + [last.id];
      assert UnitManifests(units) == UnitManifests(front) + [last.id];
    }
  }

  /** The lists of a compiled plan: every manifest of its units once, in the order of
      first use; every resolve once, likewise; and all intents, unit after unit. */
  lemma ListsExactly(registry: seq<Manifest>, policy: Policy, authority: ScopeAuthority, source: PlanSource,
                     origin: PlanOrigin, planHash: PlanBody -> string, plan: ExecPlan) returns (all: seq<AdapterResolve>)
    requires Compile(registry, policy, authority, source, origin, planHash) == Ok(plan)
    ensures FirstOccurrences(RefIds(plan.body.selectedRefs), UnitManifests(plan.body.units))
    ensures Concatenates(all, ResolvesOf(plan.body.units)) && FirstOccurrences(plan.body.resolves, all)
    ensures Concatenates(plan.body.intents, IntentsOf(plan.body.units))
  {
    hide Compile, FirstOccurrences, Concatenates, SelectedRefs, FlatResolves, FlatIntents, Dedup, PlanKind, ModeFor, FinalizeUnits;
    CompiledBody(registry, policy, authority, source, origin, planHash, plan);
    SelectedKeepsFirst(plan.body.units);
    FlatResolvesLaidOut(plan.body.units);
    FlatIntentsLaidOut(plan.body.units);
    all := FlatResolves(plan.body.units);
    DedupKeepsFirst(all);
  }

  // ----- the artifact kind -----

  /** Unit `i` is the only one that asks to send. */
  ghost predicate OnlySend(source: PlanSource, i: nat) {
    && i < SourceCount(source) && SourceAnswerability(source, i) == Send
    && forall j: nat :: j < SourceCount(source) && SourceAnswerability(source, j) == Send ==> j == i
  }

  /** The kind of what a unit of this manifest sends. */
  function SentKind(id: ManifestId): ArtifactKind {
    match id
    case MaterialPackSend => KindMaterialPack
    case WeeklyReportSend => KindWeeklyReport
    case WeeklyProductList => KindWeeklyReport
    case MonthlyReportSend => KindMonthlyReport
    case MonthlyProductList => KindMonthlyReport
    case SalesHandoff => KindHumanSupport
    case InternalKnowledge => KindKnowledgeAnswer
    case _ => KindMultiAction
  }

  /** The kind that goes with a mode in which nothing is sent. */
  function QuietKind(mode: ResponseMode): ArtifactKind {
    match mode
    case KnowledgeMode => KindKnowledgeAnswer
    case HandoffMode => KindHumanSupport
    case RefusalMode => KindRefusal
    case SmalltalkMode => KindSmalltalk
    case NoReplyMode => KindSmalltalk
    case ClarificationMode => KindUnclear
    case UnableMode => KindUnclear
    case ActionMode => KindMultiAction
  }

  ghost predicate KindFits(source: PlanSource, mode: ResponseMode, kind: ArtifactKind) {
    && (mode != ActionMode ==> kind == QuietKind(mode))
    && (mode == ActionMode ==>
          && (forall i: nat :: OnlySend(source, i) ==> kind == SentKind(SourceManifest(source, i)))
          && ((forall i: nat :: !OnlySend(source, i)) ==> kind == KindMultiAction))
  }

  lemma {:induction false} FirstOfModeHasIt(units: seq<ExecUnit>, mode: ResponseMode)
    ensures FirstUnitOfMode(units, mode).Some? ==> ModeFor({FirstUnitOfMode(units, mode).value.answerability}) == mode
  {
    if units != [] {
      FirstOfModeHasIt(units[1..], mode);
    }
  }

  lemma QuietKindOf(p: Answerability)
    ensures p != Send ==> KindForAnswerability(p) == QuietKind(ModeFor({p})) && ModeFor({p}) != ActionMode
    ensures p == Send ==> ModeFor({p}) == ActionMode
  {
  }

  lemma {:induction false} SendUnitsAre(units: seq<ExecUnit>)
    ensures forall u :: u in SendUnits(units) <==> u in units && u.answerability == Send
    ensures |SendUnits(units)| <= |units|
    ensures forall i, j :: 0 <= i < j < |units| && units[i].answerability == Send && units[j].answerability == Send ==> |SendUnits(units)| >= 2
    ensures forall i :: 0 <= i < |units| && units[i].answerability == Send && |SendUnits(units)| == 1 ==> SendUnits(units) == [units[i]]
  {
    if units != [] {
      SendUnitsAre(units[1..]);
      var rest := SendUnits(units[1..]);
      assert units == [units[0]] + units[1..];
      forall i, j | 0 <= i < j < |units| && units[i].answerability == Send && units[j].answerability == Send
        ensures |SendUnits(units)| >= 2
      {
        assert units[1..][j - 1] in rest;
        if i > 0 {
          assert units[1..][i - 1].answerability == Send;
        }
      }
      forall i | 0 <= i < |units| && units[i].answerability == Send && |SendUnits(units)| == 1
        ensures SendUnits(units) == [units[i]]
      {
        if i > 0 {
          assert units[1..][i - 1] in rest;
        }
      }
    }
  }

  lemma {:induction false} PlannedSendsAre(units: seq<PlannerUnit>)
    ensures forall u :: u in PlannedSends(units) <==> u in units && u.answerability == Send
    ensures forall i, j :: 0 <= i < j < |units| && units[i].answerability == Send && units[j].answerability == Send ==> |PlannedSends(units)| >= 2
    ensures forall i :: 0 <= i < |units| && units[i].answerability == Send && |PlannedSends(units)| == 1 ==> PlannedSends(units) == [units[i]]
  {
    if units != [] {
      PlannedSendsAre(units[1..]);
      var rest := PlannedSends(units[1..]);
      assert units == [units[0]] + units[1..];
      forall i, j | 0 <= i < j < |units| && units[i].answerability == Send && units[j].answerability == Send
        ensures |PlannedSends(units)| >= 2
      {
        assert units[1..][j - 1] in rest;
        if i > 0 {
          assert units[1..][i - 1].answerability == Send;
        }
      }
      forall i | 0 <= i < |units| && units[i].answerability == Send && |PlannedSends(units)| == 1
        ensures PlannedSends(units) == [units[i]]
      {
        if i > 0 {
          assert units[1..][i - 1] in rest;
        }
      }
    }
  }

  // ----- one unit -----

  /** The material option a source unit asks for. */
  function SourceOption(source: PlanSource, i: nat): Option<string>
    requires i < SourceCount(source)
  {
    match source
    case Planned(us) => if us[i].scope.DistributionPlan? then us[i].scope.materialOption else None
    case Determined(us) => us[i].materialOption
  }

  function SourceProducts(source: PlanSource, i: nat): seq<string>
    requires i < SourceCount(source)
  {
    match source
    case Planned(us) => if us[i].scope.DistributionPlan? then us[i].scope.products else []
    case Determined(_) => []
  }

  function SourceQuery(source: PlanSource, i: nat): Option<string>
    requires i < SourceCount(source)
  {
    match source
    case Planned(us) => if us[i].stepQueries == [] then None else Some(us[i].stepQueries[0])
    case Determined(us) => us[i].evidenceQuery
  }

  /** The kind of a unit that runs no capability. */
  function KindAlone(p: Answerability): ArtifactKind {
    match p
    case Answer => KindKnowledgeAnswer
    case Send => KindMultiAction
    case Refuse => KindRefusal
    case Handoff => KindHumanSupport
    case Smalltalk => KindSmalltalk
    case NoReply => KindSmalltalk
    case Clarify => KindUnclear
    case Abstain => KindUnclear
  }

  /** By manifest: the capabilities a unit runs, what it resolves, what it sends. */
  function RunBy(id: ManifestId): seq<CapabilityName> {
    match id
    case MaterialPackSend => [MaterialPackCapability]
    case WeeklyReportSend => [WeeklyReportCapability]
    case WeeklyProductList => [WeeklyReportCapability]
    case MonthlyReportSend => [MonthlyReportCapability]
    case MonthlyProductList => [MonthlyReportCapability]
    case SalesHandoff => [SalesMentionCapability]
    case InternalKnowledge => [DocumentContextCapability]
    case _ => []
  }

  function ResolvedBy(id: ManifestId, option: Option<string>): seq<AdapterResolve> {
    match id
    case MaterialPackSend => [AdapterResolve(MaterialPack, option, None)]
    case WeeklyReportSend => [AdapterResolve(WeeklyReport, None, None)]
    case WeeklyProductList => [AdapterResolve(WeeklyReport, None, None)]
    case MonthlyReportSend => [AdapterResolve(MonthlyReport, None, None)]
    case MonthlyProductList => [AdapterResolve(MonthlyReport, None, None)]
    case SalesHandoff => [AdapterResolve(SalesMention, None, None)]
    case _ => []
  }

  function SentBy(id: ManifestId, option: Option<string>): seq<ActionIntent> {
    match id
    case MaterialPackSend => [ActionIntent(SendMaterialPack, MaterialPackCapability, option)]
    case WeeklyReportSend => [ActionIntent(SendWeeklyReport, WeeklyReportCapability, None)]
    case WeeklyProductList => [ActionIntent(SendWeeklyReport, WeeklyReportCapability, None)]
    case MonthlyReportSend => [ActionIntent(SendMonthlyReport, MonthlyReportCapability, None)]
    case MonthlyProductList => [ActionIntent(SendMonthlyReport, MonthlyReportCapability, None)]
    case _ => []
  }

  /** A send also resolves the sales mention when the policy resolves and mentions sales. */
  function Fallback(policy: Policy, p: Answerability): seq<AdapterResolve> {
    if p == Send && SalesMention in policy.resolves && Sales in policy.mentions then [AdapterResolve(SalesMention, None, None)] else []
  }

  /** Everything a compiled unit holds. */
  ghost predicate UnitIs(unit: ExecUnit, policy: Policy, authority: ScopeAuthority, source: PlanSource, i: nat)
    requires i < SourceCount(source)
  {
    var id, p, option := SourceManifest(source, i), SourceAnswerability(source, i), SourceOption(source, i);
    && unit.unitId == SourceId(source, i) && unit.answerability == p && unit.evidenceQuery == SourceQuery(source, i)
    && unit.manifestRef in policy.eligible && unit.manifestRef.id == id
    && unit.kind == (if RunBy(id) == [] then KindAlone(p) else SentKind(id))
    && unit.runtimeCapabilities == RunBy(id)
    && unit.answerCapabilities == (if p == Answer then RunBy(id) else [])
    && unit.resolves == ResolvedBy(id, option) + Fallback(policy, p)
    && unit.intents == (if p == Send then SentBy(id, option) else [])
    && unit.scope == match authority.scope
                     case Distribution(_, channel, _) =>
                       DistributionScope(authority.ref, channel, option, SourceProducts(source, i), None)
                     case Unscoped => ExecScope.UnscopedScope
  }

  lemma UnitExactly(registry: seq<Manifest>, policy: Policy, authority: ScopeAuthority, source: PlanSource, i: nat)
    requires i < SourceCount(source) && FinalizeAt(registry, policy, authority, source, i).Ok?
    ensures UnitIs(FinalizeAt(registry, policy, authority, source, i).value, policy, authority, source, i)
  {
    hide FindManifest, ScopeFault, Blank, TooLong, RuntimeCapability, RunBy, ResolvedBy, SentBy, SentKind, KindAlone,
         KindForAnswerability;
    ByCapability(SourceManifest(source, i), SourceOption(source, i), SourceAnswerability(source, i));
  }

  /** The tables by manifest against the capability behind it. */
  lemma ByCapability(id: ManifestId, option: Option<string>, p: Answerability)
    ensures var c := RuntimeCapability(id); var own := if c.Some? && c.value.supportsOption then option else None;
      && RunBy(id) == (if c.None? then [] else [c.value.name])
      && ResolvedBy(id, option) == (if c.None? || c.value.resolveType.None? then [] else [AdapterResolve(c.value.resolveType.value, own, None)])
      && SentBy(id, option) == (if c.None? || c.value.action.None? then [] else [ActionIntent(c.value.action.value, c.value.name, own)])
      && (if RunBy(id) == [] then KindAlone(p) else SentKind(id))
         == (if c.Some? then c.value.kind else KindForAnswerability(p))
  {
  }

  // ----- which units compile -----

  predicate ProductList(id: ManifestId) {
    id == WeeklyProductList || id == MonthlyProductList
  }

  /** A planner unit carries one query at most, and a product list none but blank. */
  predicate QueryFits(source: PlanSource, i: nat)
    requires i < SourceCount(source)
  {
    source.Planned? ==>
      var queries := source.planUnits[i].stepQueries;
      |queries| <= 1 && (ProductList(SourceManifest(source, i)) && queries != [] ==> Blank(queries[0]))
  }

  /** The manifest is eligible under the version it is registered with. */
  ghost predicate ManifestFits(registry: seq<Manifest>, policy: Policy, id: ManifestId) {
    exists m :: m in registry && m.id == id && ManifestRef(id, m.version) in policy.eligible
  }

  /** A planner unit names the business scope of the request, or none when there is none. */
  predicate ScopeFits(authority: ScopeAuthority, source: PlanSource, i: nat)
    requires i < SourceCount(source)
  {
    source.Planned? ==>
      var scope := source.planUnits[i].scope;
      if authority.scope.Distribution? then scope.DistributionPlan? && scope.ref == authority.ref else scope.UnscopedPlan?
  }

  predicate ShortOption(option: Option<string>) {
    option.Some? ==> |option.value| <= 80
  }

  /** Option and products within the bounds of the models that hold them. */
  ghost predicate FieldsFit(authority: ScopeAuthority, id: ManifestId, option: Option<string>, products: seq<string>) {
    && (id == MaterialPackSend || authority.scope.Distribution? ==> ShortOption(option))
    && (authority.scope.Distribution? ==>
          && |products| <= 1000
          && (forall i, j :: 0 <= i < j < |products| ==> products[i] != products[j])
          && (forall p :: p in products ==> 1 <= |p| <= 160))
  }

  /** A send is for a group and, of a manifest that sends, for an allowed action. */
  predicate SendFits(policy: Policy, id: ManifestId, p: Answerability) {
    p == Send ==> policy.scene == Group && forall a :: a in SentBy(id, None) ==> a.actionType in policy.actions
  }

  /** A unit compiles exactly if its query, manifest, scope, fields and send fit. */
  lemma UnitCompilesExactly(registry: seq<Manifest>, policy: Policy, authority: ScopeAuthority, source: PlanSource, i: nat)
    requires UniqueManifests(registry) && UniqueRefs(policy.eligible) && i < SourceCount(source)
    ensures var id, p := SourceManifest(source, i), SourceAnswerability(source, i);
      FinalizeAt(registry, policy, authority, source, i).Ok? <==>
        && QueryFits(source, i) && ManifestFits(registry, policy, id) && ScopeFits(authority, source, i)
        && FieldsFit(authority, id, SourceOption(source, i), SourceProducts(source, i))
        && SendFits(policy, id, p)
  {
    hide ManifestFits, UniqueManifests, UniqueRefs, Blank, ScopeFault, FindManifest, PolicyRef, FieldsFit, SendFits, FinalizeUnit;
    var id, p := SourceManifest(source, i), SourceAnswerability(source, i);
    var option, products := SourceOption(source, i), SourceProducts(source, i);
    ManifestFound(registry, policy, id);
    FieldsFitMeans(authority, id, option, products);
    FinalizeOk(registry, policy, authority, SourceId(source, i), id, p, option, SourceQuery(source, i),
               if source.Planned? then Some(source.planUnits[i].scope) else None);
  }

  /** The same for the call the two kinds of source share. */
  lemma FinalizeOk(registry: seq<Manifest>, policy: Policy, authority: ScopeAuthority, unitId: string, id: ManifestId,
                   p: Answerability, option: Option<string>, query: Option<string>, planScope: Option<PlanScope>)
    ensures FinalizeUnit(registry, policy, authority, unitId, id, p, option, query, planScope).Ok? <==>
      && PolicyRef(policy.eligible, id).Some? && FindManifest(registry, id).Some?
      && FindManifest(registry, id).value.version == PolicyRef(policy.eligible, id).value.version
      && ExecutionScope(planScope, authority, option).Ok?
      && (id == MaterialPackSend ==> !TooLong(option))
      && SendFits(policy, id, p)
  {
    hide FindManifest, PolicyRef, ExecutionScope, TooLong, SendFits;
    SendFitsMeans(policy, id, p);
    NoneIsShort();
  }

  lemma NoneIsShort()
    ensures !TooLong(None)
  {
  }

  lemma SendFitsMeans(policy: Policy, id: ManifestId, p: Answerability)
    ensures SendFits(policy, id, p) <==>
      (p == Send ==> policy.scene == Group && (ActionOf(id).Some? ==> ActionOf(id).value in policy.actions))
    ensures var c := RuntimeCapability(id); ActionOf(id) == if c.Some? then c.value.action else None
  {
    match id
    case MaterialPackSend => assert SentBy(id, None)[0] in SentBy(id, None);
    case WeeklyReportSend => assert SentBy(id, None)[0] in SentBy(id, None);
    case WeeklyProductList => assert SentBy(id, None)[0] in SentBy(id, None);
    case MonthlyReportSend => assert SentBy(id, None)[0] in SentBy(id, None);
    case MonthlyProductList => assert SentBy(id, None)[0] in SentBy(id, None);
    case _ =>
  }

  function ActionOf(id: ManifestId): Option<ActionType> {
    if SentBy(id, None) == [] then None else Some(SentBy(id, None)[0].actionType)
  }

  lemma FieldsFitMeans(authority: ScopeAuthority, id: ManifestId, option: Option<string>, products: seq<string>)
    ensures FieldsFit(authority, id, option, products) <==>
      && (id == MaterialPackSend ==> !TooLong(option))
      && (authority.scope.Distribution? ==> ScopeFault(option, products).None?)
  {
    NoScopeFaultExactly(option, products);
  }

  lemma NoScopeFaultExactly(option: Option<string>, products: seq<string>)
    ensures ScopeFault(option, products).None? <==>
      && ShortOption(option) && |products| <= 1000
      && (forall i, j :: 0 <= i < j < |products| ==> products[i] != products[j])
      && (forall p :: p in products ==> 1 <= |p| <= 160)
  {
  }

  lemma ManifestFound(registry: seq<Manifest>, policy: Policy, id: ManifestId)
    requires UniqueManifests(registry) && UniqueRefs(policy.eligible)
    ensures ManifestFits(registry, policy, id) <==>
      var ref, m := PolicyRef(policy.eligible, id), FindManifest(registry, id);
      ref.Some? && m.Some? && m.value.version == ref.value.version
  {
    var ref, found := PolicyRef(policy.eligible, id), FindManifest(registry, id);
    if m :| m in registry && m.id == id && ManifestRef(id, m.version) in policy.eligible {
      OneManifest(registry, m, found.value);
      OneRef(policy.eligible, ManifestRef(id, m.version), ref.value);
    }
    if ref.Some? && found.Some? && found.value.version == ref.value.version {
      assert ManifestRef(id, found.value.version) == ref.value;
    }
  }

  lemma OneManifest(registry: seq<Manifest>, m: Manifest, n: Manifest)
    requires UniqueManifests(registry) && m in registry && n in registry && m.id == n.id
    ensures m == n
  {
    var i :| 0 <= i < |registry| && registry[i] == m;
    var j :| 0 <= j < |registry| && registry[j] == n;
    assert i == j;
  }

  lemma OneRef(refs: seq<ManifestRef>, x: ManifestRef, y: ManifestRef)
    requires UniqueRefs(refs) && x in refs && y in refs && x.id == y.id
    ensures x == y
  {
    var i :| 0 <= i < |refs| && refs[i] == x;
    var j :| 0 <= j < |refs| && refs[j] == y;
    assert i == j;
  }

  /** The first unit that does not compile decides the error. */
  lemma {:induction false} FirstFailureDecides(registry: seq<Manifest>, policy: Policy, authority: ScopeAuthority, source: PlanSource, n: nat)
    requires n <= SourceCount(source)
    ensures var r := FinalizeUnits(registry, policy, authority, source, n);
      && (r.Ok? <==> forall i: nat :: i < n ==> FinalizeAt(registry, policy, authority, source, i).Ok?)
      && (r.Err? ==> exists i: nat :: i < n && FinalizeAt(registry, policy, authority, source, i) == Err(r.error)
                       && forall j: nat :: j < i ==> FinalizeAt(registry, policy, authority, source, j).Ok?)
  {
    hide FinalizeAt;
    if n > 0 {
      FirstFailureDecides(registry, policy, authority, source, n - 1);
    }
  }

  // ----- the kind of a compiled plan -----

  lemma PlannedKind(registry: seq<Manifest>, us: seq<PlannerUnit>, mode: ResponseMode)
    requires mode == ActionMode ==> forall u :: u in us && u.answerability == Send ==> FindManifest(registry, u.capabilityId).Some?
    ensures KindFits(Planned(us), mode, KindForPlanSpec(registry, us, mode))
  {
    hide PlannedSends;
    PlannedSendsAre(us);
    var sends := PlannedSends(us);
    if mode == ActionMode && |sends| == 1 {
      assert sends[0] in sends;
      var i :| 0 <= i < |us| && us[i] == sends[0];
      forall j: nat | j < |us| && us[j].answerability == Send ensures j == i {
      }
      assert OnlySend(Planned(us), i);
      assert FindManifest(registry, sends[0].capabilityId).value.id == sends[0].capabilityId;
    } else if mode == ActionMode {
      forall i: nat | OnlySend(Planned(us), i) ensures false {
        OnlyOnePlanned(us, i);
      }
    }
  }

  lemma OnlyOnePlanned(us: seq<PlannerUnit>, i: nat)
    requires OnlySend(Planned(us), i)
    ensures |PlannedSends(us)| == 1
  {
    forall j: nat | j < |us| && us[j].answerability == Send ensures j == i {
      assert SourceAnswerability(Planned(us), j) == Send;
    }
    PlannedCount(us, i);
  }

  lemma {:induction false} PlannedCount(us: seq<PlannerUnit>, i: nat)
    requires i < |us| && us[i].answerability == Send && forall j :: 0 <= j < |us| && us[j].answerability == Send ==> j == i
    ensures PlannedSends(us) == [us[i]]
  {
    if i == 0 {
      NonePlanned(us[1..]);
    } else {
      PlannedCount(us[1..], i - 1);
    }
  }

  lemma {:induction false} NonePlanned(us: seq<PlannerUnit>)
    requires forall j :: 0 <= j < |us| ==> us[j].answerability != Send
    ensures PlannedSends(us) == []
  {
    if us != [] {
      NonePlanned(us[1..]);
    }
  }

  lemma {:induction false} SendCount(units: seq<ExecUnit>, i: nat)
    requires i < |units| && units[i].answerability == Send
    requires forall j: nat :: j < |units| && units[j].answerability == Send ==> j == i
    ensures SendUnits(units) == [units[i]]
  {
    if i == 0 {
      NoneSend(units[1..]);
    } else {
      SendCount(units[1..], i - 1);
    }
  }

  lemma {:induction false} NoneSend(units: seq<ExecUnit>)
    requires forall j :: 0 <= j < |units| ==> units[j].answerability != Send
    ensures SendUnits(units) == []
  {
    if units != [] {
      NoneSend(units[1..]);
    }
  }

  /** The units of a compiled plan sit where their source units do. */
  ghost predicate FromSource(units: seq<ExecUnit>, source: PlanSource) {
    && |units| == SourceCount(source)
    && (forall i: nat :: i < |units| ==> units[i].answerability == SourceAnswerability(source, i))
    && (forall i: nat :: i < |units| && units[i].answerability == Send ==> units[i].kind == SentKind(SourceManifest(source, i)))
  }

  lemma DeterminedSendKind(units: seq<ExecUnit>, source: PlanSource)
    requires FromSource(units, source)
    ensures KindFits(source, ActionMode, if |SendUnits(units)| == 1 then SendUnits(units)[0].kind else KindMultiAction)
  {
    hide SendUnits;
    var sends := SendUnits(units);
    SendUnitsAre(units);
    forall i: nat | OnlySend(source, i) ensures sends == [units[i]] {
      SendCount(units, i);
    }
    if |sends| == 1 {
      assert sends[0] in sends;
      var i :| 0 <= i < |units| && units[i] == sends[0];
      assert OnlySend(source, i);
    }
  }

  lemma DeterminedKind(registry: seq<Manifest>, units: seq<ExecUnit>, source: PlanSource, mode: ResponseMode)
    requires FromSource(units, source) && (source.Planned? ==> source.planUnits == [])
    requires PlanKind(registry, source, units, mode).Ok?
    ensures KindFits(source, mode, PlanKind(registry, source, units, mode).value)
  {
    hide FromSource, FirstUnitOfMode, ModeFor, SendUnits, OnlySend, KindForAnswerability, QuietKind;
    if mode == ActionMode {
      DeterminedSendKind(units, source);
    } else {
      FirstOfModeHasIt(units, mode);
      QuietKindOf(FirstUnitOfMode(units, mode).value.answerability);
    }
  }

  lemma UnitsFromSource(registry: seq<Manifest>, policy: Policy, authority: ScopeAuthority, source: PlanSource, units: seq<ExecUnit>)
    requires FinalizeUnits(registry, policy, authority, source, SourceCount(source)) == Ok(units)
    ensures FromSource(units, source)
    ensures forall i: nat :: i < |units| ==> UnitIs(units[i], policy, authority, source, i)
    ensures forall i: nat :: i < |units| ==> FindManifest(registry, SourceManifest(source, i)).Some?
  {
    forall i: nat | i < |units|
      ensures UnitIs(units[i], policy, authority, source, i) && FindManifest(registry, SourceManifest(source, i)).Some?
    {
      UnitExactly(registry, policy, authority, source, i);
      ManifestIsFound(registry, policy, authority, source, i);
    }
    hide UnitIs, FinalizeAt, FinalizeUnits, FindManifest;
    forall i: nat | i < |units|
      ensures units[i].answerability == SourceAnswerability(source, i)
      ensures units[i].answerability == Send ==> units[i].kind == SentKind(SourceManifest(source, i))
    {
      UnitSendKind(units[i], policy, authority, source, i);
    }
  }

  lemma UnitSendKind(unit: ExecUnit, policy: Policy, authority: ScopeAuthority, source: PlanSource, i: nat)
    requires i < SourceCount(source) && UnitIs(unit, policy, authority, source, i)
    ensures unit.answerability == SourceAnswerability(source, i)
    ensures unit.answerability == Send ==> unit.kind == SentKind(SourceManifest(source, i))
  {
    hide ResolvedBy, SentBy;
  }

  lemma ManifestIsFound(registry: seq<Manifest>, policy: Policy, authority: ScopeAuthority, source: PlanSource, i: nat)
    requires i < SourceCount(source) && FinalizeAt(registry, policy, authority, source, i).Ok?
    ensures FindManifest(registry, SourceManifest(source, i)).Some?
  {
    hide ExecutionScope, OwnResolves, ActionIntents, PolicyRef, Blank;
  }

  /** The artifact kind of a compiled plan, by whatever way it was derived: that of the one
      unit that sends, a collective one for several, and one for each quiet mode. */
  lemma KindExactly(registry: seq<Manifest>, policy: Policy, authority: ScopeAuthority, source: PlanSource,
                    origin: PlanOrigin, planHash: PlanBody -> string, plan: ExecPlan)
    requires Compile(registry, policy, authority, source, origin, planHash) == Ok(plan)
    ensures KindFits(source, plan.body.mode, plan.body.kind)
    ensures |plan.body.units| == SourceCount(source)
    ensures forall i: nat :: i < |plan.body.units| ==> UnitIs(plan.body.units[i], policy, authority, source, i)
  {
    hide Compile, FinalizeUnits, KindFits, FromSource, UnitIs, ModeFor, SelectedRefs, Dedup, FlatResolves, FlatIntents,
         KindForPlanSpec, FindManifest;
    CompiledBody(registry, policy, authority, source, origin, planHash, plan);
    UnitsFromSource(registry, policy, authority, source, plan.body.units);
    var mode := ModeFor(SourceAnswerabilities(source));
    if source.Planned? && source.planUnits != [] {
      forall u | u in source.planUnits ensures FindManifest(registry, u.capabilityId).Some? {
        var i :| 0 <= i < |source.planUnits| && source.planUnits[i] == u;
        assert SourceManifest(source, i) == u.capabilityId;
      }
      PlannedKind(registry, source.planUnits, mode);
    } else {
      DeterminedKind(registry, plan.body.units, source, mode);
    }
  }
}
