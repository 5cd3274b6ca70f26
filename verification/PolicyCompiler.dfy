/** Compiling grants into a policy, the ceilings a policy must respect, and what
    a larger set of grants can and cannot change. */
module PolicyCompiler {
  import opened Numbers
  import opened Wrappers
  import opened AuthorityTypes

  datatype PolicyError =
    | ScopeAuthorityMismatch
    | NoEligibleManifest
    | TooManyManifests
    | DuplicateManifestRef
    | ActionsAllowedMismatch
    | MentionsAllowedMismatch
    | KnowledgeGrantMismatch
    | DirectCeilingViolation

  function AvailableArtifacts(scope: BusinessScope): seq<Artifact> {
    match scope
    case Distribution(_, _, artifacts) => artifacts
    case Unscoped => []
  }

  predicate Offers(artifacts: seq<Artifact>, offer: ArtifactOffer) {
    exists i :: 0 <= i < |artifacts| && artifacts[i].offer == offer
  }

  predicate ArtifactMissing(id: ManifestId, artifacts: seq<Artifact>) {
    || (id == MaterialPackSend && !Offers(artifacts, OffersMaterialPack))
    || ((id == WeeklyReportSend || id == WeeklyProductList) && !Offers(artifacts, OffersWeeklyReport))
    || ((id == MonthlyReportSend || id == MonthlyProductList) && !Offers(artifacts, OffersMonthlyReport))
  }

  const DIRECT_EXCLUDED: set<ManifestId> :=
    {MaterialPackSend, WeeklyReportSend, MonthlyReportSend, SalesHandoff, WeeklyProductList, MonthlyProductList}

  /** One pass of the eligibility loop body. */
  predicate Eligible(id: ManifestId, request: Request, knowledgeEnabled: bool) {
    var read := ReadRequirement(id);
    var action := ActionRequirement(id);
    && (read.Some? ==> read.value in request.grants.readCaps)
    && (read == Some(QueryInternalCompanyInfo) ==> knowledgeEnabled)
    && (action.Some? ==> action.value in request.grants.actions)
    && (id == SalesHandoff ==> Sales in request.grants.mentions)
    && !ArtifactMissing(id, AvailableArtifacts(request.scope))
    && (id == GeneralHandoff ==> request.scene == Direct)
    && (request.scene == Direct ==> id !in DIRECT_EXCLUDED)
  }

  function EligibleRefs(registry: seq<Manifest>, request: Request, knowledgeEnabled: bool): (refs: seq<ManifestRef>)
    ensures forall ref :: ref in refs <==>
      exists m :: m in registry && ref == ManifestRef(m.id, m.version) && Eligible(m.id, request, knowledgeEnabled)
  {
    if registry == [] then []
    else
      var m := registry[|registry| - 1];
      var front := EligibleRefs(registry[..|registry| - 1], request, knowledgeEnabled);
      assert registry == registry[..|registry| - 1] + [m];
      if Eligible(m.id, request, knowledgeEnabled) then front + [ManifestRef(m.id, m.version)] else front
  }

  /** The loop that appends eligible manifests in registry order. */
  method CollectEligibleRefs(registry: seq<Manifest>, request: Request, knowledgeEnabled: bool)
    returns (eligible: seq<ManifestRef>)
    ensures eligible == EligibleRefs(registry, request, knowledgeEnabled)
  {
    eligible := [];
    for i := 0 to |registry|
      invariant eligible == EligibleRefs(registry[..i], request, knowledgeEnabled)
    {
      var manifest := registry[i];
      assert registry[..i + 1][..i] == registry[..i];
      if Eligible(manifest.id, request, knowledgeEnabled) {
        eligible := eligible + [ManifestRef(manifest.id, manifest.version)];
      }
    }
    assert registry[..|registry|] == registry;
  }

  ghost predicate UniqueRefs(refs: seq<ManifestRef>) {
    forall i, j :: 0 <= i < j < |refs| ==> refs[i].id != refs[j].id
  }

  lemma {:induction false} EligibleRefsUnique(registry: seq<Manifest>, request: Request, knowledgeEnabled: bool)
    requires UniqueManifests(registry)
    ensures UniqueRefs(EligibleRefs(registry, request, knowledgeEnabled))
    ensures |EligibleRefs(registry, request, knowledgeEnabled)| <= |registry|
  {
    if registry != [] {
      var last := |registry| - 1;
      EligibleRefsUnique(registry[..last], request, knowledgeEnabled);
      var front := EligibleRefs(registry[..last], request, knowledgeEnabled);
      forall i | 0 <= i < |front| ensures front[i].id != registry[last].id {
        assert front[i] in front;
      }
    }
  }

  function AllowedResolves(refs: seq<ManifestRef>, scene: Scene): set<ResolveType> {
    if scene == Direct then {}
    else set i | 0 <= i < |refs| && ResolveRequirement(refs[i].id).Some? :: ResolveRequirement(refs[i].id).value
  }

  predicate HasSendManifest(refs: seq<ManifestRef>) {
    exists i :: 0 <= i < |refs| && refs[i].id in {MaterialPackSend, WeeklyReportSend, MonthlyReportSend}
  }

  predicate HasKnowledgeManifest(refs: seq<ManifestRef>) {
    exists i :: 0 <= i < |refs| && refs[i].id in {InternalKnowledge, WeeklyProductList, MonthlyProductList}
  }

  function ReplyModes(refs: seq<ManifestRef>): set<ResponseMode> {
    {ClarificationMode, HandoffMode, NoReplyMode, RefusalMode, SmalltalkMode, UnableMode}
    + (if HasSendManifest(refs) then {ActionMode} else {})
    + (if HasKnowledgeManifest(refs) then {KnowledgeMode} else {})
  }

  function MaterialOptions(artifacts: seq<Artifact>): seq<string> {
    if artifacts == [] then []
    else if artifacts[0].offer == OffersMaterialPack then artifacts[0].options
    else MaterialOptions(artifacts[1..])
  }

  /** The core before its own validator has run. */
  function DraftPolicy(registry: seq<Manifest>, request: Request, groupRecall: RecallMode): Policy {
    var readCaps :=
      if request.scene == Direct
      then set c | c in request.grants.readCaps && c == QueryInternalCompanyInfo && request.scope.Unscoped?
      else request.grants.readCaps;
    var enabled := QueryInternalCompanyInfo in readCaps;
    var refs := EligibleRefs(registry, request, enabled);
    var actions := if request.scene == Direct then {} else request.grants.actions;
    var mentions := if request.scene == Direct then {} else request.grants.mentions;
    var resolves := AllowedResolves(refs, request.scene);
    Policy(request.scene, ReplyModes(refs), refs, readCaps, actions, mentions, resolves, enabled,
           if request.scene == Direct then RecallOff else groupRecall,
           Min(|resolves|, 16), actions != {}, mentions != {},
           MaterialOptions(AvailableArtifacts(request.scope)), request.scope)
  }

  // ----- the validator of a policy core -----

  const VERSION: string := "2026-07-18.1"

  function Versioned(ids: seq<ManifestId>): (refs: seq<ManifestRef>)
    ensures |refs| == |ids| && forall i :: 0 <= i < |ids| ==> refs[i] == ManifestRef(ids[i], VERSION)
  {
    seq(|ids|, i requires 0 <= i < |ids| => ManifestRef(ids[i], VERSION))
  }

  const DIRECT_GENERAL: seq<ManifestId> :=
    [GeneralClarification, GeneralAbstention, GeneralRefusal, GeneralSmalltalk, GeneralNoReply]

  /** The one policy a direct conversation may have, with or without knowledge. */
  predicate WithinDirectCeiling(policy: Policy) {
    var general := {ClarificationMode, HandoffMode, NoReplyMode, RefusalMode, SmalltalkMode, UnableMode};
    var k := policy.knowledgeEnabled;
    && policy.replyModes == (if k then general + {KnowledgeMode} else general)
    && policy.eligible == Versioned(DIRECT_GENERAL + (if k then [InternalKnowledge] else []) + [GeneralHandoff])
    && policy.readCaps == (if k then {QueryInternalCompanyInfo} else {})
    && policy.recallMode == RecallOff
    && policy.actions == {} && policy.mentions == {} && policy.resolves == {}
    && !policy.actionsAllowed && !policy.mentionsAllowed
    && policy.materialOptions == []
    && policy.evidenceCallLimit == 0
    && policy.scope.Unscoped?
  }

  ghost function PolicyFault(policy: Policy): Option<PolicyError> {
    if |policy.eligible| == 0 then Some(NoEligibleManifest)
    else if |policy.eligible| > 32 then Some(TooManyManifests)
    else if !UniqueRefs(policy.eligible) then Some(DuplicateManifestRef)
    else if policy.actionsAllowed != (policy.actions != {}) then Some(ActionsAllowedMismatch)
    else if policy.mentionsAllowed != (policy.mentions != {}) then Some(MentionsAllowedMismatch)
    else if policy.knowledgeEnabled != (QueryInternalCompanyInfo in policy.readCaps) then Some(KnowledgeGrantMismatch)
    else if policy.scene == Direct && !WithinDirectCeiling(policy) then Some(DirectCeilingViolation)
    else None
  }

  ghost function CompilePolicy(registry: seq<Manifest>, request: Request, authority: ScopeAuthority,
                               groupRecall: RecallMode): Result<Policy, PolicyError>
  {
    if request.scope != authority.scope then Err(ScopeAuthorityMismatch)
    else
      var draft := DraftPolicy(registry, request, groupRecall);
      match PolicyFault(draft)
      case Some(e) => Err(e)
      case None => Ok(draft)
  }

  const SEALED_COUNT := 13

  /** The manifest order the registry is sealed with. */
  function SealedId(i: nat): ManifestId
    requires i < SEALED_COUNT
  {
    if i == 0 then MaterialPackSend else if i == 1 then WeeklyReportSend
    else if i == 2 then MonthlyReportSend else if i == 3 then SalesHandoff
    else if i == 4 then GeneralClarification else if i == 5 then GeneralAbstention
    else if i == 6 then GeneralRefusal else if i == 7 then GeneralSmalltalk
    else if i == 8 then GeneralNoReply else if i == 9 then WeeklyProductList
    else if i == 10 then MonthlyProductList else if i == 11 then InternalKnowledge
    else GeneralHandoff
  }

  ghost predicate SealedRegistry(registry: seq<Manifest>) {
    && |registry| == SEALED_COUNT
    && forall i :: 0 <= i < |registry| ==> registry[i].id == SealedId(i) && registry[i].version == VERSION
  }

  lemma SealedRegistryUnique(registry: seq<Manifest>)
    requires SealedRegistry(registry)
    ensures UniqueManifests(registry)
  {
    assert forall i, j :: 0 <= i < j < SEALED_COUNT ==> SealedId(i) != SealedId(j);
  }

  /** Unrolling the eligibility filter one manifest at a time. */
  lemma EligibleRefsStep(registry: seq<Manifest>, n: nat, request: Request, k: bool)
    requires n < |registry|
    ensures EligibleRefs(registry[..n + 1], request, k) ==
      EligibleRefs(registry[..n], request, k)
      + (if Eligible(registry[n].id, request, k) then [ManifestRef(registry[n].id, registry[n].version)] else [])
  {
    assert registry[..n + 1][..n] == registry[..n];
  }

  /** Which sealed positions survive the filter in a direct conversation. */
  predicate KeptInDirect(i: nat, k: bool) {
    4 <= i < 9 || (i == 11 && k) || i == 12
  }

  ghost function DirectIds(n: nat, k: bool): seq<ManifestId>
    requires n <= SEALED_COUNT
  {
    (if n <= 4 then [] else if n <= 9 then DIRECT_GENERAL[..n - 4] else DIRECT_GENERAL)
    + (if n >= 12 && k then [InternalKnowledge] else [])
    + (if n >= 13 then [GeneralHandoff] else [])
  }

  lemma DirectIdsStep(n: nat, k: bool)
    requires 0 < n <= SEALED_COUNT
    ensures DirectIds(n, k) == DirectIds(n - 1, k) + (if KeptInDirect(n - 1, k) then [SealedId(n - 1)] else [])
  {
    if 5 <= n <= 9 {
      assert DIRECT_GENERAL[n - 5] == SealedId(n - 1);
      assert DIRECT_GENERAL[..n - 4] == DIRECT_GENERAL[..n - 5] + [DIRECT_GENERAL[n - 5]];
    } else if n == 10 {
      assert DIRECT_GENERAL[..5] == DIRECT_GENERAL;
    }
  }

  lemma DirectEligibility(i: nat, request: Request, k: bool)
    requires i < SEALED_COUNT && request.scene == Direct
    requires k ==> QueryInternalCompanyInfo in request.grants.readCaps
    ensures Eligible(SealedId(i), request, k) <==> KeptInDirect(i, k)
  {
  }

  lemma {:induction false} DirectRefs(registry: seq<Manifest>, request: Request, k: bool, n: nat)
    requires SealedRegistry(registry) && request.scene == Direct && n <= |registry|
    requires k ==> QueryInternalCompanyInfo in request.grants.readCaps
    ensures EligibleRefs(registry[..n], request, k) == Versioned(DirectIds(n, k))
  {
    if n > 0 {
      DirectRefs(registry, request, k, n - 1);
      EligibleRefsStep(registry, n - 1, request, k);
      DirectEligibility(n - 1, request, k);
      DirectIdsStep(n, k);
    }
  }

  lemma DirectDraftEligible(registry: seq<Manifest>, request: Request, recall: RecallMode)
    requires SealedRegistry(registry) && request.scene == Direct
    ensures var draft := DraftPolicy(registry, request, recall);
      draft.eligible == Versioned(DIRECT_GENERAL + (if draft.knowledgeEnabled then [InternalKnowledge] else []) + [GeneralHandoff])
  {
    var k := DraftPolicy(registry, request, recall).knowledgeEnabled;
    DirectRefs(registry, request, k, |registry|);
    assert registry[..|registry|] == registry;
  }

  lemma DirectReplyModes(refs: seq<ManifestRef>, k: bool)
    requires refs == Versioned(DIRECT_GENERAL + (if k then [InternalKnowledge] else []) + [GeneralHandoff])
    ensures ReplyModes(refs) ==
      {ClarificationMode, HandoffMode, NoReplyMode, RefusalMode, SmalltalkMode, UnableMode}
      + (if k then {KnowledgeMode} else {})
  {
    var ids := DIRECT_GENERAL + (if k then [InternalKnowledge] else []) + [GeneralHandoff];
    assert forall i :: 0 <= i < |refs| ==> refs[i].id == ids[i];
    assert !HasSendManifest(refs);
    assert k ==> refs[5].id == InternalKnowledge;
    assert HasKnowledgeManifest(refs) <==> k;
  }

  lemma DirectDraftCeiling(registry: seq<Manifest>, request: Request, recall: RecallMode)
    requires SealedRegistry(registry) && request.scene == Direct
    ensures WithinDirectCeiling(DraftPolicy(registry, request, recall)) <==> request.scope.Unscoped?
  {
    var draft := DraftPolicy(registry, request, recall);
    DirectDraftEligible(registry, request, recall);
    DirectReplyModes(draft.eligible, draft.knowledgeEnabled);
  }

  /** In a direct conversation compilation is refused exactly when the business
      scope is not unscoped: every other clause of the direct ceiling, and every
      other check of the core validator, holds of whatever the compiler built. */
  lemma DirectCompilationExact(registry: seq<Manifest>, request: Request, authority: ScopeAuthority, recall: RecallMode)
    requires SealedRegistry(registry) && request.scene == Direct && request.scope == authority.scope
    ensures CompilePolicy(registry, request, authority, recall) ==
      if request.scope.Unscoped? then Ok(DraftPolicy(registry, request, recall)) else Err(DirectCeilingViolation)
  {
    SealedRegistryUnique(registry);
    EligibleRefsUnique(registry, request, DraftPolicy(registry, request, recall).knowledgeEnabled);
    DirectDraftEligible(registry, request, recall);
    DirectDraftCeiling(registry, request, recall);
  }

  /** In a group no check of the core validator can fire. */
  lemma GroupCompilationTotal(registry: seq<Manifest>, request: Request, authority: ScopeAuthority, recall: RecallMode)
    requires SealedRegistry(registry) && request.scene == Group && request.scope == authority.scope
    ensures CompilePolicy(registry, request, authority, recall) == Ok(DraftPolicy(registry, request, recall))
  {
    var draft := DraftPolicy(registry, request, recall);
    SealedRegistryUnique(registry);
    EligibleRefsUnique(registry, request, draft.knowledgeEnabled);
    assert registry[4] in registry && Eligible(registry[4].id, request, draft.knowledgeEnabled);
    assert ManifestRef(registry[4].id, registry[4].version) in draft.eligible;
  }

  // ----- grants -----

  ghost predicate GrantsWithin(a: Grants, b: Grants) {
    a.readCaps <= b.readCaps && a.actions <= b.actions && a.mentions <= b.mentions
  }

  /** `b` authorises whatever `a` authorises. */
  ghost predicate PolicyWithin(a: Policy, b: Policy) {
    && (forall ref :: ref in a.eligible ==> ref in b.eligible)
    && a.replyModes <= b.replyModes
    && a.readCaps <= b.readCaps
    && a.actions <= b.actions
    && a.mentions <= b.mentions
    && a.resolves <= b.resolves
    && (a.actionsAllowed ==> b.actionsAllowed)
    && (a.mentionsAllowed ==> b.mentionsAllowed)
  }

  /** Enlarging the grants of a request never withdraws a manifest, a resolve, a
      reply mode or a permission; in the direct scene as well as in the group. */
  lemma GrantsAreMonotone(registry: seq<Manifest>, small: Request, large: Request, recall: RecallMode)
    requires small.scene == large.scene && small.scope == large.scope
    requires GrantsWithin(small.grants, large.grants)
    ensures PolicyWithin(DraftPolicy(registry, small, recall), DraftPolicy(registry, large, recall))
  {
    var a, b := DraftPolicy(registry, small, recall), DraftPolicy(registry, large, recall);
    assert a.knowledgeEnabled ==> b.knowledgeEnabled;
    forall ref | ref in a.eligible ensures ref in b.eligible {
      var m :| m in registry && ref == ManifestRef(m.id, m.version) && Eligible(m.id, small, a.knowledgeEnabled);
      assert Eligible(m.id, large, b.knowledgeEnabled);
    }
    RefsWithin(a.eligible, b.eligible, small.scene);
  }

  lemma RefsWithin(a: seq<ManifestRef>, b: seq<ManifestRef>, scene: Scene)
    requires forall ref :: ref in a ==> ref in b
    ensures AllowedResolves(a, scene) <= AllowedResolves(b, scene)
    ensures ReplyModes(a) <= ReplyModes(b)
  {
    forall r | r in AllowedResolves(a, scene) ensures r in AllowedResolves(b, scene) {
      var i :| 0 <= i < |a| && ResolveRequirement(a[i].id) == Some(r);
      assert a[i] in b;
      var j :| 0 <= j < |b| && b[j] == a[i];
      assert ResolveRequirement(b[j].id).value == r;
    }
    if HasSendManifest(a) {
      var i :| 0 <= i < |a| && a[i].id in {MaterialPackSend, WeeklyReportSend, MonthlyReportSend};
      assert a[i] in b;
    }
    if HasKnowledgeManifest(a) {
      var i :| 0 <= i < |a| && a[i].id in {InternalKnowledge, WeeklyProductList, MonthlyProductList};
      assert a[i] in b;
    }
  }
}
