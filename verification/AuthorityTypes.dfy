/** The closed vocabularies of the authority pipeline and the records that move
    through it: manifests, requests, policies, execution plans. */
module AuthorityTypes {
  import opened Wrappers

  datatype Scene = Group | Direct
  datatype ChannelKind = Bank | NonBank | UnknownChannel
  datatype ResolveType = MaterialPack | WeeklyReport | MonthlyReport | SalesMention
  datatype ActionType = SendMaterialPack | SendWeeklyReport | SendMonthlyReport
  datatype MentionType = Sales
  datatype ArtifactOffer = OffersMaterialPack | OffersWeeklyReport | OffersMonthlyReport

  datatype ReadCapability =
    | ResolveMaterialPack | ResolveWeeklyReport | ResolveMonthlyReport | ResolveSalesMention
    | QueryInternalCompanyInfo | QueryWeeklyProductList | QueryMonthlyProductList

  datatype CapabilityName =
    | MaterialPackCapability | WeeklyReportCapability | MonthlyReportCapability
    | SalesMentionCapability | DocumentContextCapability

  datatype ArtifactKind =
    | KindMaterialPack | KindWeeklyReport | KindMonthlyReport | KindMultiAction
    | KindKnowledgeAnswer | KindHumanSupport | KindRefusal | KindUnclear | KindSmalltalk

  datatype ResponseMode =
    | ActionMode | ClarificationMode | HandoffMode | RefusalMode
    | UnableMode | KnowledgeMode | SmalltalkMode | NoReplyMode

  datatype Answerability = Answer | Send | Clarify | Abstain | Refuse | Handoff | Smalltalk | NoReply

  /** The thirteen registered manifest ids; `Unregistered` is any other text a
      planner may name. */
  datatype ManifestId =
    | MaterialPackSend | WeeklyReportSend | MonthlyReportSend | SalesHandoff
    | GeneralClarification | GeneralAbstention | GeneralRefusal | GeneralSmalltalk | GeneralNoReply
    | WeeklyProductList | MonthlyProductList | InternalKnowledge | GeneralHandoff
    | Unregistered(name: string)

  datatype ManifestRef = ManifestRef(id: ManifestId, version: string)

  datatype FactType =
    | MaterialPackResolvable | WeeklyReportResolvable | MonthlyReportResolvable | SalesMentionResolvable
    | ReportPeriod | ReportScopeSummary | ReportScopeMatch | ReportScopeProducts | ReportScopeUnavailable
    | RecentExecutedAction | DocumentContext | DocumentContextUnavailable

  datatype SourceType =
    | FromAdapterResolve | FromAdapterReportScope | FromActionLedger | FromDocumentMcp
    | FromApprovedStatic | FromConversationHistory | FromUserUpload | FromCurrentArtifact
    | FromAdapterContext | FromUserMessage | FromAssistantMessage | FromHistorySummary
    | FromRetrievedDoc | FromToolResult

  datatype ArtifactType =
    | ArtifactMaterialPack | ArtifactWeeklyReport | ArtifactMonthlyReport | ArtifactDocument
    | ArtifactAdapterContext | ArtifactHistory | ArtifactUpload | ArtifactUnknown

  datatype ScopeField =
    | ChannelIdField | ChannelKindField | MaterialOptionField | TimeRangeField
    | ProductIdField | ProductIdsField | ArtifactTypeField

  datatype HistoryRole = UserRole | AssistantRole

  datatype HistoryConstraints = HistoryConstraints(maxTurns: Option<nat>, maxAge: Option<nat>, roles: set<HistoryRole>)

  datatype StalePolicy = StalePolicy(maxAge: Option<nat>, allowStale: bool, requireObservedAt: bool)

  datatype EvidenceContract = EvidenceContract(
    requiredFacts: set<FactType>,
    anyOfFacts: set<FactType>,
    allowedFacts: set<FactType>,
    forbiddenFacts: set<FactType>,
    allowedSources: set<SourceType>,
    forbiddenSources: set<SourceType>,
    requiredArtifacts: set<ArtifactType>,
    allowedArtifacts: set<ArtifactType>,
    requiredScopeMatch: set<ScopeField>,
    minFacts: nat,
    allowHistory: bool,
    history: HistoryConstraints,
    citationRequired: bool,
    provenanceRequired: bool,
    stale: StalePolicy)

  datatype Manifest = Manifest(id: ManifestId, version: string, contract: EvidenceContract)

  /** Registry rows have pairwise distinct ids (checked when the registry is built). */
  ghost predicate UniqueManifests(registry: seq<Manifest>) {
    forall i, j :: 0 <= i < j < |registry| ==> registry[i].id != registry[j].id
  }

  /** The first registered manifest with this id. */
  function FindManifest(registry: seq<Manifest>, id: ManifestId): (r: Option<Manifest>)
    ensures r.Some? ==> r.value in registry && r.value.id == id
    ensures r.None? ==> forall m :: m in registry ==> m.id != id
  {
    if registry == [] then None
    else if registry[0].id == id then Some(registry[0])
    else FindManifest(registry[1..], id)
  }

  // ----- requirement tables -----

  function ReadRequirement(id: ManifestId): Option<ReadCapability> {
    match id
    case MaterialPackSend => Some(ResolveMaterialPack)
    case WeeklyReportSend => Some(ResolveWeeklyReport)
    case MonthlyReportSend => Some(ResolveMonthlyReport)
    case SalesHandoff => Some(ResolveSalesMention)
    case InternalKnowledge => Some(QueryInternalCompanyInfo)
    case WeeklyProductList => Some(QueryWeeklyProductList)
    case MonthlyProductList => Some(QueryMonthlyProductList)
    case _ => None
  }

  function ActionRequirement(id: ManifestId): Option<ActionType> {
    match id
    case MaterialPackSend => Some(SendMaterialPack)
    case WeeklyReportSend => Some(SendWeeklyReport)
    case MonthlyReportSend => Some(SendMonthlyReport)
    case _ => None
  }

  function ResolveRequirement(id: ManifestId): Option<ResolveType> {
    match id
    case MaterialPackSend => Some(MaterialPack)
    case WeeklyReportSend => Some(WeeklyReport)
    case MonthlyReportSend => Some(MonthlyReport)
    case SalesHandoff => Some(SalesMention)
    case WeeklyProductList => Some(WeeklyReport)
    case MonthlyProductList => Some(MonthlyReport)
    case _ => None
  }

  datatype Capability = Capability(
    name: CapabilityName,
    kind: ArtifactKind,
    resolveType: Option<ResolveType>,
    action: Option<ActionType>,
    supportsOption: bool)

  /** The runtime capability behind a manifest: the name table followed by the
      projection of that name. */
  function RuntimeCapability(id: ManifestId): Option<Capability> {
    match id
    case MaterialPackSend =>
      Some(Capability(MaterialPackCapability, KindMaterialPack, Some(MaterialPack), Some(SendMaterialPack), true))
    case WeeklyReportSend | WeeklyProductList =>
      Some(Capability(WeeklyReportCapability, KindWeeklyReport, Some(WeeklyReport), Some(SendWeeklyReport), false))
    case MonthlyReportSend | MonthlyProductList =>
      Some(Capability(MonthlyReportCapability, KindMonthlyReport, Some(MonthlyReport), Some(SendMonthlyReport), false))
    case SalesHandoff =>
      Some(Capability(SalesMentionCapability, KindHumanSupport, Some(SalesMention), None, false))
    case InternalKnowledge =>
      Some(Capability(DocumentContextCapability, KindKnowledgeAnswer, None, None, false))
    case _ => None
  }

  // ----- request and policy -----

  datatype Artifact = Artifact(offer: ArtifactOffer, options: seq<string>)

  datatype BusinessScope = Distribution(channelName: string, channel: ChannelKind, artifacts: seq<Artifact>) | Unscoped

  datatype ScopeAuthority = ScopeAuthority(scope: BusinessScope, ref: string)

  datatype Grants = Grants(readCaps: set<ReadCapability>, actions: set<ActionType>, mentions: set<MentionType>)

  datatype Request = Request(scene: Scene, scope: BusinessScope, grants: Grants)

  datatype RecallMode = RecallOff | RecallAdvisory | RecallShortcut

  /** Tuples the program keeps sorted and free of repeats are sets here. */
  datatype Policy = Policy(
    scene: Scene,
    replyModes: set<ResponseMode>,
    eligible: seq<ManifestRef>,
    readCaps: set<ReadCapability>,
    actions: set<ActionType>,
    mentions: set<MentionType>,
    resolves: set<ResolveType>,
    knowledgeEnabled: bool,
    recallMode: RecallMode,
    evidenceCallLimit: nat,
    actionsAllowed: bool,
    mentionsAllowed: bool,
    materialOptions: seq<string>,
    scope: BusinessScope)

  // ----- execution plan -----

  datatype TimeRange = TimeRange(period: Option<string>)

  datatype ExecScope =
    | DistributionScope(ref: string, channel: ChannelKind, materialOption: Option<string>,
                        products: seq<string>, timeRange: Option<TimeRange>)
    | UnscopedScope

  datatype AdapterResolve = AdapterResolve(resolveType: ResolveType, materialOption: Option<string>, artifactId: Option<string>)

  datatype ActionIntent = ActionIntent(actionType: ActionType, capability: CapabilityName, materialOption: Option<string>)

  datatype ExecUnit = ExecUnit(
    unitId: string,
    manifestRef: ManifestRef,
    answerability: Answerability,
    kind: ArtifactKind,
    runtimeCapabilities: seq<CapabilityName>,
    answerCapabilities: seq<CapabilityName>,
    resolves: seq<AdapterResolve>,
    intents: seq<ActionIntent>,
    scope: ExecScope,
    evidenceQuery: Option<string>)

  datatype PlanOrigin = FromPlanner | FromInputPolicy | FromDirectSend | FromApprovedShortcut | FromDeterministic | FromRemediation

  datatype PlanBody = PlanBody(
    origin: PlanOrigin,
    kind: ArtifactKind,
    mode: ResponseMode,
    compliant: bool,
    units: seq<ExecUnit>,
    selectedRefs: seq<ManifestRef>,
    resolves: seq<AdapterResolve>,
    intents: seq<ActionIntent>,
    hasPlanSpec: bool)

  datatype ExecPlan = ExecPlan(planId: string, body: PlanBody)
}
