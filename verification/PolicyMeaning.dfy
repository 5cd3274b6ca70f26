/** What a compiled policy is, said of the request: a table of the thirteen registered
    manifests, and every other field. */
module PolicyMeaning {
  import opened Numbers
  import opened Wrappers
  import opened AuthorityTypes
  import opened PolicyCompiler

  /** The business scope offers this kind of artifact. */
  predicate ScopeOffers(scope: BusinessScope, offer: ArtifactOffer) {
    scope.Distribution? && exists i :: 0 <= i < |scope.artifacts| && scope.artifacts[i].offer == offer
  }

  /** When a registered manifest is granted. */
  predicate Granted(id: ManifestId, request: Request) {
    var g := request.grants;
    match id
    case MaterialPackSend =>
      && request.scene == Group && ResolveMaterialPack in g.readCaps && SendMaterialPack in g.actions
      && ScopeOffers(request.scope, OffersMaterialPack)
    case WeeklyReportSend =>
      && request.scene == Group && ResolveWeeklyReport in g.readCaps && SendWeeklyReport in g.actions
      && ScopeOffers(request.scope, OffersWeeklyReport)
    case MonthlyReportSend =>
      && request.scene == Group && ResolveMonthlyReport in g.readCaps && SendMonthlyReport in g.actions
      && ScopeOffers(request.scope, OffersMonthlyReport)
    case SalesHandoff => request.scene == Group && ResolveSalesMention in g.readCaps && Sales in g.mentions
    case WeeklyProductList =>
      request.scene == Group && QueryWeeklyProductList in g.readCaps && ScopeOffers(request.scope, OffersWeeklyReport)
    case MonthlyProductList =>
      request.scene == Group && QueryMonthlyProductList in g.readCaps && ScopeOffers(request.scope, OffersMonthlyReport)
    case InternalKnowledge => QueryInternalCompanyInfo in g.readCaps && (request.scene == Group || request.scope.Unscoped?)
    case GeneralHandoff => request.scene == Direct
    case GeneralClarification => true
    case GeneralAbstention => true
    case GeneralRefusal => true
    case GeneralSmalltalk => true
    case GeneralNoReply => true
    case Unregistered(_) => false
  }

  /** A listed reference is that of a granted manifest, and every granted one is listed. */
  ghost predicate ListsGranted(eligible: seq<ManifestRef>, request: Request) {
    forall ref :: ref in eligible <==> ref.version == "2026-07-18.1" && Granted(ref.id, request)
  }

  /** What the adapter may be asked to resolve. */
  ghost predicate ResolvesGranted(resolves: set<ResolveType>, request: Request) {
    && (MaterialPack in resolves <==> Granted(MaterialPackSend, request))
    && (WeeklyReport in resolves <==> Granted(WeeklyReportSend, request) || Granted(WeeklyProductList, request))
    && (MonthlyReport in resolves <==> Granted(MonthlyReportSend, request) || Granted(MonthlyProductList, request))
    && (SalesMention in resolves <==> Granted(SalesHandoff, request))
  }

  /** The modes a reply may have. */
  ghost predicate ModesGranted(modes: set<ResponseMode>, request: Request) {
    && {ClarificationMode, HandoffMode, NoReplyMode, RefusalMode, SmalltalkMode, UnableMode} <= modes
    && (ActionMode in modes <==>
          Granted(MaterialPackSend, request) || Granted(WeeklyReportSend, request) || Granted(MonthlyReportSend, request))
    && (KnowledgeMode in modes <==>
          Granted(InternalKnowledge, request) || Granted(WeeklyProductList, request) || Granted(MonthlyProductList, request))
  }

  /** In a group the grants pass as they are; in a direct conversation only the query of
      internal knowledge does, and only without a business scope. */
  ghost predicate GrantsPass(policy: Policy, request: Request, recall: RecallMode) {
    if request.scene == Group then
      && policy.readCaps == request.grants.readCaps && policy.actions == request.grants.actions
      && policy.mentions == request.grants.mentions && policy.recallMode == recall
    else
      && policy.actions == {} && policy.mentions == {} && policy.recallMode == RecallOff
      && policy.readCaps == (if Granted(InternalKnowledge, request) then {QueryInternalCompanyInfo} else {})
  }

  lemma EligibleIsGranted(id: ManifestId, request: Request, k: bool)
    requires k == Granted(InternalKnowledge, request) && !id.Unregistered?
    ensures Eligible(id, request, k) <==> Granted(id, request)
  {
  }

  lemma KnowledgeGranted(registry: seq<Manifest>, request: Request, recall: RecallMode)
    ensures DraftPolicy(registry, request, recall).knowledgeEnabled == Granted(InternalKnowledge, request)
    ensures GrantsPass(DraftPolicy(registry, request, recall), request, recall)
  {
    hide EligibleRefs, ReplyModes, AllowedResolves;
  }

  lemma {:induction false} SealedIndex(id: ManifestId) returns (i: nat)
    requires !id.Unregistered?
    ensures i < SEALED_COUNT && SealedId(i) == id
  {
    i := match id
      case MaterialPackSend => 0 case WeeklyReportSend => 1 case MonthlyReportSend => 2 case SalesHandoff => 3
      case GeneralClarification => 4 case GeneralAbstention => 5 case GeneralRefusal => 6 case GeneralSmalltalk => 7
      case GeneralNoReply => 8 case WeeklyProductList => 9 case MonthlyProductList => 10 case InternalKnowledge => 11
      case GeneralHandoff => 12;
  }

  lemma SealedIsRegistered(i: nat)
    requires i < SEALED_COUNT
    ensures !SealedId(i).Unregistered?
  {
  }

  lemma EligibleListsGranted(registry: seq<Manifest>, request: Request)
    requires SealedRegistry(registry)
    ensures ListsGranted(EligibleRefs(registry, request, Granted(InternalKnowledge, request)), request)
  {
    hide Eligible, Granted, SealedId;
    var k := Granted(InternalKnowledge, request);
    var refs := EligibleRefs(registry, request, k);
    forall ref ensures ref in refs <==> ref.version == VERSION && Granted(ref.id, request) {
      if ref in refs {
        var m :| m in registry && ref == ManifestRef(m.id, m.version) && Eligible(m.id, request, k);
        var i :| 0 <= i < |registry| && registry[i] == m;
        SealedIsRegistered(i);
        EligibleIsGranted(m.id, request, k);
      }
      NotGranted(ref.id, request);
      if ref.version == VERSION && Granted(ref.id, request) {
        var i := SealedIndex(ref.id);
        EligibleIsGranted(ref.id, request, k);
        assert registry[i] in registry && ref == ManifestRef(registry[i].id, registry[i].version);
      }
    }
  }

  lemma NotGranted(id: ManifestId, request: Request)
    ensures Granted(id, request) ==> !id.Unregistered?
  {
  }

  /** A manifest is listed in some place exactly if it is granted. */
  lemma ListedExactly(refs: seq<ManifestRef>, request: Request, id: ManifestId)
    requires ListsGranted(refs, request)
    ensures Granted(id, request) <==> exists i :: 0 <= i < |refs| && refs[i].id == id
  {
    hide Granted;
    if Granted(id, request) {
      assert ManifestRef(id, VERSION) in refs;
    }
    if i :| 0 <= i < |refs| && refs[i].id == id {
      assert refs[i] in refs;
    }
  }

  lemma ResolvesOfList(refs: seq<ManifestRef>, request: Request)
    requires ListsGranted(refs, request) && request.scene == Group
    ensures ResolvesGranted(AllowedResolves(refs, Group), request)
  {
    hide Granted, ListsGranted;
    ListedExactly(refs, request, MaterialPackSend);
    ListedExactly(refs, request, WeeklyReportSend);
    ListedExactly(refs, request, WeeklyProductList);
    ListedExactly(refs, request, MonthlyReportSend);
    ListedExactly(refs, request, MonthlyProductList);
    ListedExactly(refs, request, SalesHandoff);
    var resolves := AllowedResolves(refs, Group);
    forall t ensures t in resolves <==> exists i :: 0 <= i < |refs| && ResolveRequirement(refs[i].id) == Some(t) {
    }
  }

  lemma NoResolves(request: Request)
    requires request.scene == Direct
    ensures ResolvesGranted({}, request)
  {
  }

  lemma ModesOfList(refs: seq<ManifestRef>, request: Request)
    requires ListsGranted(refs, request)
    ensures ModesGranted(ReplyModes(refs), request)
  {
    hide Granted, ListsGranted;
    ListedExactly(refs, request, MaterialPackSend);
    ListedExactly(refs, request, WeeklyReportSend);
    ListedExactly(refs, request, WeeklyProductList);
    ListedExactly(refs, request, MonthlyReportSend);
    ListedExactly(refs, request, MonthlyProductList);
    ListedExactly(refs, request, InternalKnowledge);
  }

  /** The manifest with this id is number `p` of the registry. */
  ghost predicate RegisteredAt(registry: seq<Manifest>, id: ManifestId, p: nat) {
    p < |registry| && registry[p].id == id
  }

  /** The references stand in the order of the registry. */
  ghost predicate RegistryOrder(refs: seq<ManifestRef>, registry: seq<Manifest>) {
    forall i, j, p: nat, q: nat ::
      0 <= i < j < |refs| && RegisteredAt(registry, refs[i].id, p) && RegisteredAt(registry, refs[j].id, q) ==> p < q
  }

  ghost predicate Registered(registry: seq<Manifest>, id: ManifestId) {
    exists p: nat :: RegisteredAt(registry, id, p)
  }

  ghost predicate AllRegistered(refs: seq<ManifestRef>, registry: seq<Manifest>) {
    forall i :: 0 <= i < |refs| ==> Registered(registry, refs[i].id)
  }

  lemma OnePlace(registry: seq<Manifest>, id: ManifestId, p: nat, q: nat)
    requires UniqueManifests(registry) && RegisteredAt(registry, id, p) && RegisteredAt(registry, id, q)
    ensures p == q
  {
  }

  lemma PlaceStays(front: seq<Manifest>, m: Manifest, id: ManifestId, p: nat)
    ensures RegisteredAt(front + [m], id, p) <==> RegisteredAt(front, id, p) || (p == |front| && m.id == id)
  {
  }

  lemma OrderStays(refs: seq<ManifestRef>, front: seq<Manifest>, m: Manifest)
    requires UniqueManifests(front + [m]) && RegistryOrder(refs, front) && AllRegistered(refs, front)
    ensures RegistryOrder(refs, front + [m]) && AllRegistered(refs, front + [m])
    ensures forall i :: 0 <= i < |refs| ==> refs[i].id != m.id
  {
    hide RegisteredAt, UniqueManifests;
    var all := front + [m];
    forall i | 0 <= i < |refs| ensures refs[i].id != m.id && Registered(all, refs[i].id) {
      var p: nat :| RegisteredAt(front, refs[i].id, p);
      PlaceStays(front, m, refs[i].id, p);
      PlaceStays(front, m, refs[i].id, |front|);
      NotBeyond(front, refs[i].id, p);
      assert RegisteredAt(all, refs[i].id, p);
      if refs[i].id == m.id {
        OnePlace(all, m.id, p, |front|);
      }
    }
    forall i, j, p: nat, q: nat |
      0 <= i < j < |refs| && RegisteredAt(all, refs[i].id, p) && RegisteredAt(all, refs[j].id, q)
      ensures p < q
    {
      PlaceStays(front, m, refs[i].id, p);
      PlaceStays(front, m, refs[j].id, q);
    }
  }

  lemma NotBeyond(front: seq<Manifest>, id: ManifestId, p: nat)
    requires RegisteredAt(front, id, p)
    ensures p < |front|
  {
  }

  lemma OrderGrows(refs: seq<ManifestRef>, front: seq<Manifest>, m: Manifest, last: ManifestRef)
    requires UniqueManifests(front + [m]) && RegistryOrder(refs, front) && AllRegistered(refs, front) && last.id == m.id
    ensures RegistryOrder(refs + [last], front + [m]) && AllRegistered(refs + [last], front + [m])
  {
    hide RegisteredAt, UniqueManifests;
    var more, all := refs + [last], front + [m];
    OrderStays(refs, front, m);
    PlaceStays(front, m, m.id, |front|);
    forall i, j, p: nat, q: nat |
      0 <= i < j < |more| && RegisteredAt(all, more[i].id, p) && RegisteredAt(all, more[j].id, q)
      ensures p < q
    {
      assert more[i] == refs[i];
      if j == |refs| {
        OnePlace(all, m.id, q, |front|);
        PlaceStays(front, m, refs[i].id, p);
        assert RegisteredAt(front, refs[i].id, p);
        NotBeyond(front, refs[i].id, p);
      }
    }
    forall i | 0 <= i < |more| ensures Registered(all, more[i].id) {
      if i < |refs| {
        assert more[i] == refs[i];
      } else {
        assert RegisteredAt(all, more[i].id, |front|);
      }
    }
  }

  lemma {:induction false} RefsInOrder(registry: seq<Manifest>, request: Request, k: bool)
    requires UniqueManifests(registry)
    ensures RegistryOrder(EligibleRefs(registry, request, k), registry) && AllRegistered(EligibleRefs(registry, request, k), registry)
  {
    hide RegistryOrder, AllRegistered, Eligible;
    if registry == [] {
      NothingListed();
    } else {
      var front, m := registry[..|registry| - 1], registry[|registry| - 1];
      assert registry == front + [m];
      RefsInOrder(front, request, k);
      OrderStays(EligibleRefs(front, request, k), front, m);
      OrderGrows(EligibleRefs(front, request, k), front, m, ManifestRef(m.id, m.version));
    }
  }

  lemma NothingListed()
    ensures RegistryOrder([], []) && AllRegistered([], [])
  {
  }

  /** The options a policy offers are those of the first material pack of the scope. */
  ghost predicate FirstPackOptions(artifacts: seq<Artifact>, options: seq<string>) {
    if forall i :: 0 <= i < |artifacts| ==> artifacts[i].offer != OffersMaterialPack then options == []
    else exists i :: 0 <= i < |artifacts| && artifacts[i].offer == OffersMaterialPack && options == artifacts[i].options
           && forall j :: 0 <= j < i ==> artifacts[j].offer != OffersMaterialPack
  }

  lemma {:induction false} MaterialOptionsFirst(artifacts: seq<Artifact>)
    ensures FirstPackOptions(artifacts, MaterialOptions(artifacts))
  {
    if artifacts != [] && artifacts[0].offer != OffersMaterialPack {
      var rest := artifacts[1..];
      MaterialOptionsFirst(rest);
      if i :| 0 <= i < |rest| && rest[i].offer == OffersMaterialPack && MaterialOptions(artifacts) == rest[i].options
              && forall j :: 0 <= j < i ==> rest[j].offer != OffersMaterialPack {
        assert artifacts[i + 1] == rest[i];
        forall j | 0 <= j < i + 1 ensures artifacts[j].offer != OffersMaterialPack {
          assert j > 0 ==> artifacts[j] == rest[j - 1];
        }
      } else {
        forall j | 0 <= j < |artifacts| ensures artifacts[j].offer != OffersMaterialPack {
          assert j > 0 ==> artifacts[j] == rest[j - 1];
        }
      }
    }
  }

  /** Everything a compiled policy holds. */
  ghost predicate PolicyIs(policy: Policy, registry: seq<Manifest>, request: Request, recall: RecallMode) {
    && policy.scene == request.scene && policy.scope == request.scope
    && ListsGranted(policy.eligible, request) && RegistryOrder(policy.eligible, registry)
    && GrantsPass(policy, request, recall)
    && ResolvesGranted(policy.resolves, request) && ModesGranted(policy.replyModes, request)
    && (policy.knowledgeEnabled <==> Granted(InternalKnowledge, request))
    && (policy.actionsAllowed <==> policy.actions != {}) && (policy.mentionsAllowed <==> policy.mentions != {})
    && policy.evidenceCallLimit == |policy.resolves|
    && FirstPackOptions(if request.scope.Distribution? then request.scope.artifacts else [], policy.materialOptions)
  }

  lemma FewResolves(resolves: set<ResolveType>)
    ensures |resolves| <= 4
  {
    var all := {MaterialPack, WeeklyReport, MonthlyReport, SalesMention};
    forall t: ResolveType ensures t in all {
      match t case MaterialPack => case WeeklyReport => case MonthlyReport => case SalesMention =>
    }
    assert resolves <= all;
    assert all == resolves + (all - resolves);
  }

  lemma PolicyExactly(registry: seq<Manifest>, request: Request, authority: ScopeAuthority, recall: RecallMode, policy: Policy)
    requires SealedRegistry(registry) && CompilePolicy(registry, request, authority, recall) == Ok(policy)
    ensures PolicyIs(policy, registry, request, recall)
  {
    hide SealedRegistry, EligibleRefs, Granted, ListsGranted, RegistryOrder, GrantsPass, ResolvesGranted, ModesGranted, FirstPackOptions,
         MaterialOptions, ReplyModes, AllowedResolves, PolicyFault;
    KnowledgeGranted(registry, request, recall);
    EligibleListsGranted(registry, request);
    SealedRegistryUnique(registry);
    RefsInOrder(registry, request, policy.knowledgeEnabled);
    ModesOfList(policy.eligible, request);
    FewResolves(policy.resolves);
    MaterialOptionsFirst(AvailableArtifacts(request.scope));
    if request.scene == Group {
      ResolvesOfList(policy.eligible, request);
    } else {
      NoResolves(request);
      NothingInDirect(policy.eligible);
    }
  }

  lemma NothingInDirect(refs: seq<ManifestRef>)
    ensures AllowedResolves(refs, Direct) == {}
  {
  }
}
