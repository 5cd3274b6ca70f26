/** A complete run whose pack cannot be resolved while sales can: the replacement plan is
    a handoff, and the reply is one exactly if the pack was asked for no products. */
module ResolutionWitness {
  import opened Wrappers
  import opened AuthorityTypes
  import opened PolicyCompiler
  import opened PolicyMeaning
  import opened PlanCompiler
  import opened PlanMeaning
  import opened PlanTheorems
  import opened AdapterFacts
  import opened Grounding
  import opened FactOrder
  import opened ActionReply
  import opened AuthorityTheorems
  import opened DeliveryTheorems
  import opened ReplyMeaning
  import opened ResolutionMeaning
  import Runs = RunWitness

  const ASKED := Request(Group, Runs.SCOPE, Grants({ResolveMaterialPack, ResolveSalesMention}, {SendMaterialPack}, {Sales}))
  const NO_PACK := AdapterResult(Missing, "v1", 0, None, None, None)
  const SALES := AdapterResult(Resolved, "v1", 0, Some("sales-1"), None, None)
  const ANSWERS := [PreflightItem(MaterialPack, Some(NO_PACK)), PreflightItem(SalesMention, Some(SALES))]

  /** The planner's one unit sends the pack of these products. */
  function PackSource(products: seq<string>): PlanSource {
    Planned([PlannerUnit("u1", MaterialPackSend, DistributionPlan("scope", None, products), Send, [])])
  }

  function PackSetup(products: seq<string>): Runs.Setup {
    Runs.Setup(ASKED, Runs.AUTHORITY, PackSource(products), ANSWERS)
  }

  function HandoffSource(): PlanSource {
    Determined([DeterministicUnit("material-pack-resolution", SalesHandoff, Handoff, None, None)])
  }

  function AskedPolicy(): Policy {
    DraftPolicy(Runs.Sealed(), ASKED, RecallOff)
  }

  lemma AskedIsGranted()
    ensures Granted(MaterialPackSend, ASKED) && Granted(SalesHandoff, ASKED)
  {
    assert Runs.SCOPE.artifacts[0].offer == OffersMaterialPack;
  }

  lemma AskedPolicyCompiles()
    ensures CompilePolicy(Runs.Sealed(), ASKED, Runs.AUTHORITY, RecallOff) == Ok(AskedPolicy())
    ensures AskedPolicy().scene == Group && AskedPolicy().actions == {SendMaterialPack} && AskedPolicy().mentions == {Sales}
    ensures SalesMention in AskedPolicy().resolves && UniqueRefs(AskedPolicy().eligible)
    ensures ManifestRef(MaterialPackSend, VERSION) in AskedPolicy().eligible && ManifestRef(SalesHandoff, VERSION) in AskedPolicy().eligible
  {
    hide SealedRegistry, SealedContracts, CompilePolicy, Granted, RegistryOrder, ModesGranted, FirstPackOptions, DraftPolicy;
    Runs.SealedAsClaimed();
    GroupCompilationTotal(Runs.Sealed(), ASKED, Runs.AUTHORITY, RecallOff);
    PolicyExactly(Runs.Sealed(), ASKED, Runs.AUTHORITY, RecallOff, AskedPolicy());
    AskedIsGranted();
    AskedRefsUnique();
  }

  lemma AskedRefsUnique()
    ensures UniqueRefs(AskedPolicy().eligible)
  {
    hide SealedRegistry, SealedContracts, EligibleRefs, ReplyModes, AllowedResolves;
    Runs.SealedAsClaimed();
    SealedRegistryUnique(Runs.Sealed());
    EligibleRefsUnique(Runs.Sealed(), ASKED, AskedPolicy().knowledgeEnabled);
  }

  /** Products that a scope may name. */
  ghost predicate Products(products: seq<string>) {
    && |products| <= 1000 && (forall i, j :: 0 <= i < j < |products| ==> products[i] != products[j])
    && (forall p :: p in products ==> 1 <= |p| <= 160)
  }

  lemma SealedHas(id: ManifestId)
    requires id in {MaterialPackSend, SalesHandoff}
    ensures exists m :: m in Runs.Sealed() && m.id == id && m.version == VERSION
  {
    hide SealedContract;
    var at := if id == MaterialPackSend then 0 else 3;
    assert Runs.Sealed()[at].id == id && Runs.Sealed()[at].version == VERSION;
  }

  lemma BothFit(products: seq<string>)
    requires Products(products)
    ensures ManifestFits(Runs.Sealed(), AskedPolicy(), MaterialPackSend) && ManifestFits(Runs.Sealed(), AskedPolicy(), SalesHandoff)
    ensures FieldsFit(Runs.AUTHORITY, MaterialPackSend, None, products) && FieldsFit(Runs.AUTHORITY, SalesHandoff, None, [])
    ensures SendFits(AskedPolicy(), MaterialPackSend, Send) && SendFits(AskedPolicy(), SalesHandoff, Handoff)
  {
    hide CompilePolicy, DraftPolicy, Runs.Sealed, UniqueRefs;
    AskedPolicyCompiles();
    SealedHas(MaterialPackSend);
    SealedHas(SalesHandoff);
  }

  lemma BothCompile(products: seq<string>)
    requires Products(products)
    ensures FinalizeAt(Runs.Sealed(), AskedPolicy(), Runs.AUTHORITY, PackSource(products), 0).Ok?
    ensures FinalizeAt(Runs.Sealed(), AskedPolicy(), Runs.AUTHORITY, HandoffSource(), 0).Ok?
  {
    hide CompilePolicy, DraftPolicy, Runs.Sealed, ManifestFits, FieldsFit, SendFits, FinalizeAt, UniqueManifests, UniqueRefs,
         SealedRegistry, SealedContracts;
    Runs.SealedAsClaimed();
    SealedRegistryUnique(Runs.Sealed());
    AskedPolicyCompiles();
    BothFit(products);
    UnitCompilesExactly(Runs.Sealed(), AskedPolicy(), Runs.AUTHORITY, PackSource(products), 0);
    UnitCompilesExactly(Runs.Sealed(), AskedPolicy(), Runs.AUTHORITY, HandoffSource(), 0);
  }

  /** What the unit resolves and intends. */
  lemma PackUnitIs(products: seq<string>, unit: ExecUnit)
    requires FinalizeAt(Runs.Sealed(), AskedPolicy(), Runs.AUTHORITY, PackSource(products), 0) == Ok(unit)
    ensures unit.resolves == [AdapterResolve(MaterialPack, None, None), AdapterResolve(SalesMention, None, None)]
    ensures unit.intents == [ActionIntent(SendMaterialPack, MaterialPackCapability, None)]
  {
    hide CompilePolicy, DraftPolicy, Runs.Sealed, FinalizeAt, UniqueRefs;
    AskedPolicyCompiles();
    UnitExactly(Runs.Sealed(), AskedPolicy(), Runs.AUTHORITY, PackSource(products), 0);
    var own, more := [AdapterResolve(MaterialPack, None, None)], [AdapterResolve(SalesMention, None, None)];
    assert own + more == [AdapterResolve(MaterialPack, None, None), AdapterResolve(SalesMention, None, None)];
  }

  lemma AnswersResolve()
    ensures Results(ANSWERS) == map[SalesMention := SALES] && Runs.WellAnswered(ANSWERS)
  {
    assert ANSWERS[..1] == [ANSWERS[0]] && [ANSWERS[0]][..0] == [];
    assert Results([ANSWERS[0]]) == map[];
    assert ResultFault(SalesMention, SALES, "sales-1").None?;
  }

  lemma OneUnitFits(unit: ExecUnit)
    requires |unit.resolves| == 2 && |unit.intents| == 1
    ensures Runs.Fits([unit])
  {
    assert [unit][..0] == [];
  }

  /** The run up to the evidence. */
  lemma PackAttempt(products: seq<string>) returns (a: Attempt)
    requires Products(products)
    ensures Runs.Prepared(PackSetup(products), a) && a.policy == AskedPolicy() && a.items == ANSWERS
    ensures a.w.registry == Runs.Sealed() && a.others == [] && |a.facts| <= 32 && ReadsAll(a.w.dates)
    ensures a.plan.body.intents == [ActionIntent(SendMaterialPack, MaterialPackCapability, None)]
    ensures |a.plan.body.units| == 1 && Asks(a.plan.body.units[0], SalesMention, |a.plan.body.units[0].resolves|)
  {
    hide CompilePolicy, Compile, FinalizeAt, DraftPolicy, Runs.Sealed, Runs.Fits, Runs.WellAnswered, Products, Grounded, Results,
         SealedRegistry, SealedContracts, AdapterEvidence, FaithfulHashes, AdapterOnlyHere, ValidAttempt, CompiledPolicy;
    AskedPolicyCompiles();
    BothCompile(products);
    var unit := FinalizeAt(Runs.Sealed(), AskedPolicy(), Runs.AUTHORITY, PackSource(products), 0).value;
    PackUnitIs(products, unit);
    OneUnitFits(unit);
    AnswersResolve();
    a := Runs.AttemptOf(PackSetup(products), AskedPolicy(), [unit]);
    CompiledBody(Runs.Sealed(), AskedPolicy(), Runs.AUTHORITY, PackSource(products), FromPlanner, Runs.PLAN_HASH, a.plan);
    OneUnitIntents(unit);
    assert unit.resolves[1].resolveType == SalesMention;
  }

  lemma OneUnitIntents(unit: ExecUnit)
    ensures FlatIntents([unit]) == unit.intents
  {
    assert [unit][..0] == [];
  }

  /** The plan that replaces it is a handoff. */
  lemma Replacement(products: seq<string>, a: Attempt) returns (other: ExecPlan)
    requires Products(products) && a.policy == AskedPolicy() && a.items == ANSWERS && a.w.registry == Runs.Sealed()
    requires a.plan.body.intents == [ActionIntent(SendMaterialPack, MaterialPackCapability, None)]
    ensures ResolutionPlan(a.plan, a.items, a.w.registry, a.policy, Runs.AUTHORITY, Runs.PLAN_HASH) == Some(Ok(other))
    ensures other.body.mode == HandoffMode
  {
    hide Compile, FinalizeAt, DraftPolicy, Runs.Sealed, Products, DistinctUnitIds, FirstResult;
    BothCompile(products);
    var unit := FinalizeAt(Runs.Sealed(), AskedPolicy(), Runs.AUTHORITY, HandoffSource(), 0).value;
    Runs.FinalizedFrom(AskedPolicy(), Runs.AUTHORITY, HandoffSource(), [unit], 1);
    assert [unit][..1] == [unit];
    HandoffFits(unit);
    CompilationExact(Runs.Sealed(), AskedPolicy(), Runs.AUTHORITY, HandoffSource(), FromDeterministic, Runs.PLAN_HASH, [unit]);
    FirstAnswers();
    other := Compile(Runs.Sealed(), AskedPolicy(), Runs.AUTHORITY, HandoffSource(), FromDeterministic, Runs.PLAN_HASH).value;
    ModeExactly(Runs.Sealed(), AskedPolicy(), Runs.AUTHORITY, HandoffSource(), FromDeterministic, Runs.PLAN_HASH, other);
    HandoffRanks(other.body.mode);
  }

  lemma FirstAnswers()
    ensures FirstResult(ANSWERS, MaterialPack) == Some(NO_PACK) && FirstResult(ANSWERS, SalesMention) == Some(SALES)
  {
    assert ANSWERS[1..] == [ANSWERS[1]];
  }

  lemma HandoffFits(unit: ExecUnit)
    requires FinalizeAt(Runs.Sealed(), AskedPolicy(), Runs.AUTHORITY, HandoffSource(), 0) == Ok(unit)
    ensures DistinctUnitIds([unit]) && |FlatIntents([unit])| <= 3
  {
    hide DraftPolicy, Runs.Sealed, FinalizeAt, RunBy, ResolvedBy, SentKind, KindAlone;
    UnitExactly(Runs.Sealed(), AskedPolicy(), Runs.AUTHORITY, HandoffSource(), 0);
    OneUnitIntents(unit);
  }

  lemma HandoffRanks(mode: ResponseMode)
    requires ModeRanks(HandoffSource(), mode)
    ensures mode == HandoffMode
  {
    assert SourceAnswerability(HandoffSource(), 0) == Handoff;
  }

  /** The adapter says that the pack is missing and sales are there. Asked for no products,
      the pack is replaced by the sales mention; asked for any, by the answer that there
      is none, although policy, plan, evidence and grounding are the same. */
  lemma ResolutionRuns(products: seq<string>, texts: Texts) returns (a: Attempt, other: ExecPlan, groundings: seq<UnitGrounding>)
    requires Products(products)
    ensures Runs.Prepared(PackSetup(products), a)
    ensures ResolutionPlan(a.plan, a.items, a.w.registry, a.policy, Runs.AUTHORITY, Runs.PLAN_HASH) == Some(Ok(other))
    ensures other.body.mode == HandoffMode && Grounded(Replaced(a, other)) == Ok(groundings) && |groundings| == |other.body.units|
    ensures var reply := DeterministicReply(Group, texts, other, groundings);
      if products == [] then
        reply.kind == HandoffReply && reply.text == texts.salesHandoff && reply.mentions == [Sales] && reply.actions == []
      else JustSays(reply, UnableReply, texts.unable)
  {
    hide CompilePolicy, Compile, DraftPolicy, Runs.Sealed, Products, Grounded, Results, SealedRegistry, SealedContracts,
         AdapterEvidence, FaithfulHashes, AdapterOnlyHere, ValidAttempt, CompiledPolicy, ResolutionPlan, Asks, DeterministicReply,
         JustSays, Replaced, ReadsAll;
    a := PackAttempt(products);
    other := Replacement(products, a);
    AnswersResolve();
    EvidenceAligned(a.h, a.plan, a.items, a.facts, a.bindings);
    assert a.facts + a.others == a.facts;
    ResolutionGrounds(Runs.AUTHORITY, Runs.PLAN_HASH, a, other);
    groundings := Grounded(Replaced(a, other)).value;
    ResolutionHandsOver(Runs.AUTHORITY, PackSource(products), FromPlanner, Runs.PLAN_HASH, a, other, groundings, texts);
  }
}
