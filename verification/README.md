# Verified model of the market-support reply harness

The harness lets a language model plan and write replies, and keeps the model's
freedom small with deterministic code around it. This project models that code in
Dafny and proves what it promises.

- **Authority pipeline** (`AuthorityTypes`, `PolicyCompiler`, `PlanCompiler`,
  `PlanTheorems`, `AdapterFacts`, `Grounding`, `FactOrder`, `ActionReply`,
  `AuthorityTheorems`, `DeliveryTheorems`, `RunWitness`,
  `ResolutionWitness`): grants are compiled into a policy, a plan is compiled under it
  and checked again, adapter results become facts and bindings, facts are admitted unit
  by unit, and actions go out. The theorems run end to end: where an action's reference
  came from, exactly when an action is delivered and with what, which of the many
  re-checks can never fire, and what stays true as grants grow. Complete runs show the
  hypotheses of all of them holding together. `PolicyMeaning`, `PlanMeaning`,
  `EvidenceMeaning`, `GroundingMeaning`, `GroundingFailure`, `ReplyMeaning` and
  `ResolutionMeaning` say what each stage produces, without the functions that produce it.
- **Descriptor capture and provider gate** (`IoKernel`, `IoTable`, `IoCapture`,
  `ProviderGate`): the capture is a class over a kernel object whose calls may fail one
  by one, as an oracle decides. `IoTable` holds the reasoning about descriptor tables as
  values; `IoCapture` holds install, close and abort. The gate is a step relation over
  tasks, their worker threads and the lock.
- **Schema canonicalization** (`Json`, `SchemaCanonicalization`, `SchemaMeaning`,
  `SchemaTransport`): the transformation, a validator for JSON Schema 2020-12 (types,
  sizes, required and dependent properties, all applicators that need no annotations,
  and references within the document), the proof that both agree, and the hashes that
  rely on idempotence.
- **Canonical JSON and frames** (`CanonicalJson`, `CanonicalText`, `HashFrames`,
  `FrameLayout`): printer, parser and round trip (sections 4 to 7 of RFC 8259), the text
  and the order of its keys, UTF-8, and the frames that are hashed, byte by byte.
- **Health** (`Health`): the mutable outage state and the measure it reports.
- **Bounded stores and budgets** (`PayloadStore`, `SelectorCache`, `InvocationJournal`).
- **Scanner, sanitizers, selection** (`MarkerScanner`, `Sanitizers`, `SanitizerMeaning`,
  `RecentActions`).
- **Shared** (`Wrappers`, `Numbers`, `Sorting`, `Concatenation`).

Code that updates objects is a class here, code that loops is a method with a loop, and
each is proved against a specification function whose own properties are the theorems.

## What the proofs found

Each of these is a lemma or a contract, with the exact condition where there is one.

- A drainer whose selector fails before its first read loses written bytes without a
  trace, and the call returns normally (`IoCapture.DeadDrainerCall`). That is the only
  way to lose bytes: a normal return with bytes in a pipe means that the pipe's drainer
  died so (`IoCapture.CaptureCall`). Even then a dying stdout drainer is noticed if its
  report reaches the stderr pipe and the other drainer reads it.
- An install that overlaps another capture fails, and its abort switches off the log
  redaction of the other one (`IoCapture.Capture.Install`).
- A second cancellation while a task waits for its worker loses the provider gate for
  good (`ProviderGate.LockComesBack`).
- Two actions of one type in a reply share one reference, even if their units asked for
  different material options (`AuthorityTheorems.OneReferencePerType`), and a pack unit that
  asks for no option is sent with that of the first pack unit in the same business scope
  (`DeliveryTheorems.SendEndToEnd`). `RunWitness.GroupSends` is a complete run with both.
- When a material pack cannot be resolved and sales can, the replacement plan is grounded
  with the evidence of the plan it replaces, whose facts carry the products its units
  named. A request for the pack of certain products therefore finds no sales and is told
  that there is no answer, although a handoff was planned; it hands over exactly if some
  unit of the original plan that resolves sales names no products
  (`ResolutionMeaning.ResolutionHandsOver`; `ResolutionWitness.ResolutionRuns` is a run of each).
- An empty material option passes policy, plan and evidence, and makes grounding fail once
  the adapter resolves the pack (`GroundingFailure.GroundingFailsWhen`,
  `RunWitness.EmptyOptionFails`).
- A product-list unit that asks to send gets a report intent and never delivers
  (`DeliveryTheorems.OthersSendNothing`).
- Canonicalization does not keep `dependentRequired` entries of documentation-named
  properties, nor references that pass through documentation
  (`SchemaMeaning.DependentRequiredExactly`, `SchemaCanonicalization.PathExactly`; documents
  whose meaning changes are in `SchemaMeaning.DependencyLost` and
  `SchemaMeaning.ReferenceLostEverywhere`).
- The adapter-result sanitizer does not always accept its own output unchanged, because
  composing and case-folding a key is not idempotent; the exact condition on the input is
  in `Sanitizers.OutputFixedExactly`, a key that breaks it in `Sanitizers.OutputNotFixed`.
- In a direct conversation every policy compilation with a distribution scope is refused
  (`PolicyCompiler.DirectCompilationExact`).
- The check that the row budget is at most 18 cannot fire within the field bounds
  (`InvocationJournal.RowCheckNeverFires`), the lower clamp of the availability never acts
  (`Health.ClampNeverActs`), and neither the test on the character before a marker
  (`MarkerScanner.BeforeTestRedundant`) nor the test on a scheme separator
  (`SanitizerMeaning.LocatesExactly`) ever decides.

## Model

| member | source | states |
|---|---|---|
| PolicyCompiler.EligibleRefs | src/market_support_crewai_agent/runtime/policy/manifest_compiler.py:129-175 | a reference is listed exactly if some registered manifest has it and meets every grant, artifact and scene condition |
| PolicyCompiler.CollectEligibleRefs | src/market_support_crewai_agent/runtime/policy/manifest_compiler.py:129-175 | the appending loop computes that list, in registry order |
| PolicyCompiler.EligibleRefsUnique | src/market_support_crewai_agent/runtime/policy/manifest_compiler.py:129-175 | no manifest id is listed twice when the registry has none twice |
| PolicyCompiler.DirectCompilationExact | src/market_support_crewai_agent/runtime/policy/direct_constraints.py:105-135 | in a direct conversation compilation succeeds exactly for an unscoped request; no other check of the ceiling or the core can fire |
| PolicyCompiler.GroupCompilationTotal | src/market_support_crewai_agent/runtime/policy/manifest_models.py:76-119 | in a group no check of the policy core can fire on what the compiler built |
| PolicyCompiler.GrantsAreMonotone | src/market_support_crewai_agent/runtime/policy/manifest_compiler.py:73-232 | more grants never withdraw a manifest, a resolve, a reply mode or a permission |
| PolicyMeaning.PolicyExactly | src/market_support_crewai_agent/runtime/policy/manifest_compiler.py:73-232 | the whole compiled policy from the request: which of the thirteen manifests are granted, their order, the resolves, the reply modes and the material options, and in a direct conversation what the ceiling leaves |
| PlanCompiler.CollectSelectedRefs | src/market_support_crewai_agent/runtime/planning/compiler_derivations.py:139-148 | the loop with its `seen` set lists the selected references without repetition, in first-use order |
| PlanCompiler.CollectResolves | src/market_support_crewai_agent/runtime/planning/compiler_derivations.py:151-166 | the nested loop computes the same list of distinct resolves that the plan model recomputes |
| PlanCompiler.ValidatePlan | src/market_support_crewai_agent/runtime/planning/validation.py:11-55 | the nested loops report the issues in plan order, each exactly when its condition fails |
| PlanCompiler.PlanValidExact | src/market_support_crewai_agent/runtime/planning/validation.py:11-55 | the check is silent exactly on plans whose mode, manifests, resolves and actions lie inside the policy |
| PlanCompiler.ValidityIsMonotone | src/market_support_crewai_agent/runtime/planning/validation.py:11-55 | a plan valid under a policy stays valid under one that authorises more |
| PlanTheorems.TablesAgree | src/market_support_crewai_agent/runtime/policy/capabilities/runtime_projection.py:39-102 | the capability table and the requirement tables of the policy compiler agree for every manifest |
| PlanTheorems.FinalizedUnitWithin | src/market_support_crewai_agent/runtime/planning/compiler_units.py:107-172 | a unit that compiles under a compiled policy carries only manifests, resolves and actions of that policy |
| PlanTheorems.DistinctResolvesBound | src/market_support_crewai_agent/runtime/planning/compiler_derivations.py:151-166 | a compiled plan has at most one distinct resolve per unit plus the sales fallback |
| PlanTheorems.KindAlwaysFound | src/market_support_crewai_agent/runtime/planning/compiler_derivations.py:87-108 | the search for a unit of the plan's mode always finds one |
| PlanTheorems.CompilationExact | src/market_support_crewai_agent/runtime/planning/models.py:182-234 | once all units compiled, the plan model accepts exactly plans of at most four distinct units and three intents; its cross-checks never fire |
| PlanTheorems.IntentsBoundedBySends | src/market_support_crewai_agent/runtime/planning/compiler_units.py:200-222 | there are at most as many intents as send units |
| PlanTheorems.CompileThenValidate | src/market_support_crewai_agent/runtime/planning/compiler.py:47-121 | a compiled plan can be faulted for its response mode only, and exactly when it sends or answers without an eligible send or knowledge manifest; which mode that is says PlanMeaning.ModeExactly |
| PlanMeaning.ModeExactly | src/market_support_crewai_agent/runtime/planning/compiler_derivations.py:67-84 | which answerability wins: the mode is a refusal exactly if some unit refuses, an action exactly if none refuses and some sends, then clarification, knowledge answer, handoff, smalltalk, no reply, and unable when no unit asks for any of these; and the plan is compliant exactly if none refuses |
| PlanMeaning.KindExactly | src/market_support_crewai_agent/runtime/planning/compiler_derivations.py:87-136 | the artifact kind of a compiled plan: that of the one unit that sends, a collective one for several, and one for each quiet mode |
| PlanMeaning.ListsExactly | src/market_support_crewai_agent/runtime/planning/compiler_derivations.py:139-166 | the selected manifests and the resolves of a compiled plan are those of its units, each once and in the order of first use, and its intents those of the units one after another |
| PlanMeaning.UnitExactly | src/market_support_crewai_agent/runtime/planning/compiler_units.py:107-222 | everything a compiled unit carries, from the source unit: manifest, capabilities, resolves with the sales fallback, intents, scope and query |
| PlanMeaning.UnitCompilesExactly | src/market_support_crewai_agent/runtime/planning/compiler_units.py:107-172 | a unit compiles exactly if its query, manifest, scope, fields and send fit |
| PlanMeaning.FirstFailureDecides | src/market_support_crewai_agent/runtime/planning/compiler_units.py:45-98 | the first unit that does not compile decides the error of the whole plan |
| AdapterFacts.CanonicalAdapterFacts | src/market_support_crewai_agent/runtime/evidence/adapter_facts.py:37-100 | the loops that fill results, facts, bindings and the two dictionaries compute the evidence function, errors included |
| AdapterFacts.ResultIsLastUsable | src/market_support_crewai_agent/runtime/evidence/adapter_facts.py:41-48 | the result kept for a resolve type is that of the last usable preflight item of the type |
| AdapterFacts.EvidenceFailsExactly | src/market_support_crewai_agent/runtime/evidence/canonical_models.py:112-143 | building the evidence fails exactly if a unit resolves a type whose winning result has a version, reference, period or date outside the field rules, or a period or date on a type that is no report |
| AdapterFacts.DictsAligned | src/market_support_crewai_agent/runtime/evidence/adapter_facts.py:87-100 | the two dictionaries keep the same keys in the same order and matching values, even when ids repeat |
| AdapterFacts.EvidenceAligned | src/market_support_crewai_agent/runtime/evidence/adapter_facts.py:37-100 | fact i and binding i belong together and were derived from a unit's resolve and the winning result |
| EvidenceMeaning.EvidenceSays | src/market_support_crewai_agent/runtime/evidence/adapter_facts.py:49-86 | every field of every canonical fact and binding, from the unit and resolve they were made for and the last usable answer to the type: names, scope, provenance, time, reference, period and date |
| EvidenceMeaning.NoEvidenceExactly | src/market_support_crewai_agent/runtime/evidence/canonical_models.py:112-143 | there is no evidence at all exactly if some unit resolves a type whose last usable answer is unfit |
| EvidenceMeaning.UnfitExactly | src/market_support_crewai_agent/runtime/evidence/canonical_models.py:112-143 | when an answer is unfit and which fault it is: a version, reference, period or date out of its bounds, or otherwise a period or date on a type that is no report |
| EvidenceMeaning.EvidenceComplete | src/market_support_crewai_agent/runtime/evidence/adapter_facts.py:49-86 | every resolve of a unit whose type has a usable answer has a fact that speaks of it |
| EvidenceMeaning.OneFactExactly | src/market_support_crewai_agent/runtime/evidence/adapter_facts.py:87-100 | with hashes that do not collide, two resolves share one fact exactly if they are of one type and their units mean the same place, products, option and period |
| Grounding.Candidates | src/market_support_crewai_agent/runtime/evidence/admission.py:21-53 | exactly the canonical facts that pass type, source, artifact, scope, history and staleness conditions are candidates |
| Grounding.AdmittedFacts | src/market_support_crewai_agent/runtime/evidence/requirements.py:47-62 | an incomplete set of evidence admits nothing; whatever is admitted was a candidate |
| Grounding.NewestFirstOrdered | src/market_support_crewai_agent/runtime/decisions/business_fact_policy.py:41-86 | the recent-action facts a unit sees come newest first, ties by id, none lost and none added |
| GroundingMeaning.SealedAdmissionExactly | src/market_support_crewai_agent/runtime/evidence/admission.py:21-53 | which facts each of the registered manifests admits, in a table |
| GroundingMeaning.ScopeExactly | src/market_support_crewai_agent/runtime/evidence/admission.py:122-190 | when the scope of a fact is that of a unit, whatever fields a contract requires |
| GroundingMeaning.CandidatesExactly | src/market_support_crewai_agent/runtime/evidence/requirements.py:47-62 | the candidates are the admitted facts and no others, in the order they had |
| GroundingMeaning.CompleteExactly | src/market_support_crewai_agent/runtime/evidence/requirements.py:47-62 | a unit gets all its candidates or none: all exactly if they hold every required fact type and artifact, one of the alternatives if there are any, and enough facts |
| GroundingMeaning.HistoryExactly | src/market_support_crewai_agent/runtime/evidence/admission.py:67-100 | which facts from a conversation a contract admits, whatever the contract |
| GroundingMeaning.StalenessExactly | src/market_support_crewai_agent/runtime/evidence/admission.py:103-119 | which facts are too old for a contract, whatever the contract |
| GroundingMeaning.PermissionExactly | src/market_support_crewai_agent/runtime/decisions/business_fact_policy.py:121-163 | a unit that carries nothing has no known permission; any other is allowed exactly if the policy authorises all it carries, and denied otherwise |
| GroundingMeaning.ResolvableExactly | src/market_support_crewai_agent/runtime/decisions/business_fact_resolve.py:63-88 | the state a resolve type has for a unit, field by field, from the first fact of the type and its binding |
| GroundingMeaning.ReportExactly | src/market_support_crewai_agent/runtime/decisions/business_fact_resolve.py:91-141 | the state of a report that has a summary: available if the summary says so or the first adapter fact does, with period and dates of the summary |
| GroundingMeaning.UnsummedReportExactly | src/market_support_crewai_agent/runtime/decisions/business_fact_resolve.py:91-141 | the state of a report without a summary: period and date of the binding |
| GroundingMeaning.OptionStatusExactly | src/market_support_crewai_agent/runtime/decisions/business_facts.py:54-61 | the status of the option a unit asked for is that of its pack, once a pack fact with a binding is there |
| GroundingMeaning.SortedIsNewestFirst | src/market_support_crewai_agent/runtime/decisions/business_fact_policy.py:41-86 | recent-action facts are sorted newest first, and those of one time by descending id, code point by code point |
| GroundingMeaning.RecentExactly | src/market_support_crewai_agent/runtime/decisions/business_fact_policy.py:41-86 | the recent actions a unit sees: the newest twenty of those in its scope, in order, and all of them if there are no more; nothing if its manifest admits none |
| Grounding.ValidatedResolveBindings | src/market_support_crewai_agent/runtime/decisions/business_fact_resolve.py:35-60 | the loop over bindings returns the checked map or the first fault |
| Grounding.ValidBindingsExact | src/market_support_crewai_agent/runtime/decisions/business_fact_resolve.py:35-60 | the binding check passes exactly on distinct bindings that each match a fact, and then returns all of them |
| ActionReply.BuildActionReply | src/market_support_crewai_agent/runtime/v2_attempt.py:376-396 | the loops collect the actions of allowed units in order; a length mismatch is an error |
| AuthorityTheorems.BindingsAccepted | src/market_support_crewai_agent/runtime/decisions/business_fact_resolve.py:35-60 | the bindings grounding selects for a unit always pass the binding check |
| AuthorityTheorems.GroundingErrors | src/market_support_crewai_agent/runtime/evidence/grounding.py:112-193 | grounding a plan within its policy can fail for repeated fact ids (exactly then), more than 32 facts of a unit, an unreadable date, or a material option out of bounds; so it succeeds on at most 32 distinct facts with readable dates and fitting options, and its own validators never fire |
| AuthorityTheorems.ActionProvenance | src/market_support_crewai_agent/runtime/v2_attempt.py:460-506 | every action comes from an allowed unit of an allowed type, with the reference of the last usable preflight item of its type, reached through a fact admitted in the unit's scope |
| AuthorityTheorems.OneReferencePerType | src/market_support_crewai_agent/runtime/v2_attempt.py:460-506 | two actions of one type in a reply carry one reference, whatever options their units asked for |
| FactOrder.DictInOrder | src/market_support_crewai_agent/runtime/evidence/adapter_facts.py:87-100 | when ids determine facts, a dictionary holds a repeated fact where it came first, so the first fact of any kind is the same before and after |
| DeliveryTheorems.FirstFactMet | src/market_support_crewai_agent/runtime/decisions/business_fact_resolve.py:159-172 | the first fact of its type a send unit meets was made for the first unit of the plan that resolves the type in a like scope, which may be an earlier unit |
| AuthorityTheorems.DirectSendsNothing | src/market_support_crewai_agent/runtime/v2_attempt.py:376-396 | under a direct policy no action is emitted |
| AuthorityTheorems.PermissionNeverDenied | src/market_support_crewai_agent/runtime/decisions/business_fact_policy.py:121-163 | a unit that passed the plan check is never denied by the permission check |
| AuthorityTheorems.PermissionIsMonotone | src/market_support_crewai_agent/runtime/decisions/business_fact_policy.py:121-163 | an allowed unit stays allowed under a larger policy |
| DeliveryTheorems.SendDeliveredExactly | src/market_support_crewai_agent/runtime/v2_attempt.py:376-396 | a send unit yields its action exactly when the preflight holds a usable item of its type (with period and date for reports); the action is in the reply's list and carries that item's reference, a report its period and its date as read, a material pack the option its intent asks for or else the option of the first unit that resolves the pack in a like scope |
| DeliveryTheorems.SendEndToEnd | src/market_support_crewai_agent/runtime/planning/compiler.py:47-121 | the same from grants through compilation and grounding to the outbound action, the intent's option being the one the source unit asks for |
| DeliveryTheorems.GroundingFailsExactly | src/market_support_crewai_agent/runtime/decisions/business_fact_resolve.py:63-88 | on small, distinct and readable evidence, grounding a compiled plan fails exactly if the pack is resolved and, for some pack unit, the first unit that resolves it in a like scope asks for an option that the state does not accept, an empty one |
| GroundingFailure.GroundingFailsWhen | src/market_support_crewai_agent/runtime/decisions/business_fact_resolve.py:63-88 | the same from the units and the answers alone: the pack has a usable answer and, for some pack unit, the first unit that resolves the pack for the same place and products asks for an option of no characters |
| DeliveryTheorems.OnlySendManifestsSend | src/market_support_crewai_agent/runtime/v2_attempt.py:460-506 | an intent yields an action only in a unit of the send manifest of its type |
| DeliveryTheorems.OthersSendNothing | src/market_support_crewai_agent/runtime/policy/capabilities/runtime_projection.py:39-102 | a unit of any other manifest adds nothing to the reply: a product-list unit that asks to send carries the report intent and never delivers |
| DeliveryTheorems.SalesNeedsHandoffManifest | src/market_support_crewai_agent/runtime/v2_attempt.py:349-373 | sales become available only to a unit of the handoff manifest; what the reply then is says ReplyMeaning.ReplyExactly |
| ReplyMeaning.ReplyExactly | src/market_support_crewai_agent/runtime/v2_attempt.py:199-238 | kind, text, mentions and actions of the reply for every mode that calls no composer: in a group a handoff plan is answered by a handoff that mentions exactly sales if some unit's sales are available and by an unable reply without a mention otherwise, in a direct conversation by a handoff without a mention |
| ReplyMeaning.SalesAvailableExactly | src/market_support_crewai_agent/runtime/v2_attempt.py:349-373 | sales are available to a unit exactly if it is one of the handoff manifest and the adapter resolved the mention |
| ReplyMeaning.HandoffEndToEnd | src/market_support_crewai_agent/runtime/v2_attempt.py:349-373 | from grants to the reply: in a group, a compiled plan whose mode is a handoff is answered with the sales mention exactly if some unit is one of the handoff manifest and the adapter resolved the mention |
| ReplyMeaning.RefusalSendsNothing | src/market_support_crewai_agent/runtime/v2_attempt.py:199-213 | a compiled plan with a refusing unit gets the refusal, without actions and mentions, whatever else its units ask for |
| ReplyMeaning.ActionsLaidOut | src/market_support_crewai_agent/runtime/v2_attempt.py:376-396 | the actions of a reply are those of the allowed units, unit after unit and intent after intent |
| ReplyMeaning.ReplyIssuesExactly | src/market_support_crewai_agent/runtime/v2_attempt.py:509-530 | the reply check reports each of its five faults exactly when it is there, once, in a fixed order |
| DeliveryTheorems.DeterministicRepliesStayWithinPolicy | src/market_support_crewai_agent/runtime/v2_attempt.py:509-535 | the five faults of the reply check, in order: a reply built without the composer can be faulted only for an action plan without an action, given that the fixed texts hold no double percent sign |
| DeliveryTheorems.ResolutionPlanSendsNothing | src/market_support_crewai_agent/runtime/v2_attempt.py:399-457 | the plan that replaces an unresolved material-pack plan has one unit, a mode that sends nothing, and no intent |
| ResolutionMeaning.ResolutionExactly | src/market_support_crewai_agent/runtime/v2_attempt.py:399-457 | a plan whose one intent is a material pack is replaced exactly if the adapter's first answer about the pack is not that it is resolved: by a question when the pack is ambiguous, otherwise by a handoff if sales are resolved and else by an abstention |
| ResolutionMeaning.SalesInOldEvidence | src/market_support_crewai_agent/runtime/v2_attempt.py:137-196 | a handoff unit grounded with the evidence of another plan finds sales exactly if the adapter resolved them for a unit of that plan in a like scope |
| ResolutionMeaning.ResolutionHandsOver | src/market_support_crewai_agent/runtime/v2_attempt.py:399-457 | the reply when a pack could not be resolved and sales could: it hands over exactly if some unit of the original plan that resolves sales names no products |
| ResolutionMeaning.ResolutionGrounds | src/market_support_crewai_agent/runtime/v2_attempt.py:163-178 | grounding the replacement with the evidence of the plan it replaces cannot fail on small, distinct and readable evidence |
| ResolutionWitness.ResolutionRuns | src/market_support_crewai_agent/runtime/v2_attempt.py:137-196 | complete runs in which the pack is missing and sales are resolved: the replacement is a handoff plan, and its reply mentions sales exactly if the pack was asked for no products |
| RunWitness.EvidenceBounded | src/market_support_crewai_agent/runtime/evidence/adapter_facts.py:51-100 | a plan has at most as many canonical facts as its units have resolves |
| RunWitness.AttemptOf | src/market_support_crewai_agent/runtime/planning/compiler.py:47-121 | from every policy and every deterministic source that compile, and an adapter that answers within bounds, there is an attempt with all hypotheses of the end-to-end theorems; only grounding can still stop it, and exactly for a material option out of bounds |
| RunWitness.GroupSends | src/market_support_crewai_agent/runtime/v2_attempt.py:376-396 | complete runs that send two packs with one reference and a weekly report with its period and date; a second pack asked for without an option carries the option of the first |
| RunWitness.EmptyOptionFails | src/market_support_crewai_agent/runtime/decisions/business_fact_resolve.py:63-88 | a run with an empty option whose policy, plan and evidence are fine and whose grounding fails |
| RunWitness.DirectRuns | src/market_support_crewai_agent/runtime/v2_attempt.py:376-396 | a complete direct run, with a grant for an action, that sends nothing |
| IoKernel.RecordBytes | src/market_support_crewai_agent/runtime/prompts/direct_provider_io_capture.py:287-297 | a counter and flag that account for some total account for the larger total after the step, also once the counter is stuck at its limit |
| IoKernel.Drain | src/market_support_crewai_agent/runtime/prompts/direct_provider_io_capture.py:259-285 | however bytes arrive, the counter is the saturated total, the overflow flag says whether it passed the limit, and only a failing read leaves an error mark |
| IoKernel.WriteAll | src/market_support_crewai_agent/runtime/prompts/direct_provider_io_capture.py:559-569 | what was sent is a prefix of the payload, all of it exactly on success; failure means a write made no progress |
| IoTable.LoopHasCourse | src/market_support_crewai_agent/runtime/prompts/direct_provider_io_capture.py:259-285 | whatever a drainer's loop meets, it is joined with what the loop read, how it ended and what it marked; the four courses cover every loop |
| IoTable.CourseHasLoop | src/market_support_crewai_agent/runtime/prompts/direct_provider_io_capture.py:259-285 | each of the four courses is that of a loop, so the counts of a capture are those the loop computes |
| IoTable.GiveUpAllIsShed | src/market_support_crewai_agent/runtime/prompts/direct_provider_io_capture.py:404-413 | closing slots touches only owned descriptors, empties the named slots and leaks exactly the descriptors whose close failed |
| IoTable.EndIsRestored | src/market_support_crewai_agent/runtime/prompts/direct_provider_io_capture.py:188-233 | the closes and joins of close leave the restored table and nothing owned; nothing leaks unless a close failed |
| IoTable.EndSilence | src/market_support_crewai_agent/runtime/prompts/direct_provider_io_capture.py:387-402 | joins without a trace mean silent drainers, and conversely when nobody else can write to the pipes |
| IoTable.EndVerdict | src/market_support_crewai_agent/runtime/prompts/direct_provider_io_capture.py:463-478 | the verdict is clean only if nothing leaked and both drainers were silent, and exactly then on an undisturbed capture |
| IoTable.AbortLeavesIntact | src/market_support_crewai_agent/runtime/prompts/direct_provider_io_capture.py:424-446 | giving up all slots of a capture under construction leaves the table install found, plus leaked and lost descriptors |
| IoTable.CloseLeavesIntact | src/market_support_crewai_agent/runtime/prompts/direct_provider_io_capture.py:188-233 | closing a fully installed capture leaves the table install found, plus leaked and lost descriptors |
| IoCapture.Capture.RestoreTarget | src/market_support_crewai_agent/runtime/prompts/direct_provider_io_capture.py:299-321 | one to three attempts, twice with the primary copy and then with the emergency copy, change at most the target; success means the original open file and flag, and a success that was not the first attempt goes on record as a recovery |
| IoCapture.Capture.RestoreProcessGlobals | src/market_support_crewai_agent/runtime/prompts/direct_provider_io_capture.py:323-336 | unless the process ends, streams, record factory, root handlers and their filters are those saved and the log flag is off |
| IoCapture.Capture.RestoreLogging | src/market_support_crewai_agent/runtime/prompts/direct_provider_io_capture.py:362-385 | factory, handlers and the filters of the saved handlers come back from any state; a replaced factory or handler list goes on record, and nothing else does |
| IoCapture.Capture.FinishDrainer | src/market_support_crewai_agent/runtime/prompts/direct_provider_io_capture.py:387-402 | a joined drainer is logged with the counts and flags of its loop; one that is too slow is recorded and gives up its read end |
| IoCapture.Capture.CloseOwned | src/market_support_crewai_agent/runtime/prompts/direct_provider_io_capture.py:404-413 | the slot and the ownership go away whether or not the close works; a failing close is recorded |
| IoCapture.Capture.FlushStreams | src/market_support_crewai_agent/runtime/prompts/direct_provider_io_capture.py:415-422 | buffered bytes go to the open files of 1 and 2 and nowhere else; a failing flush is recorded |
| IoCapture.Capture.DupOwned | src/market_support_crewai_agent/runtime/prompts/direct_provider_io_capture.py:235-239 | a duplicate lands in its slot or is lost; the rest of the table is kept |
| IoCapture.Capture.PipeOwned | src/market_support_crewai_agent/runtime/prompts/direct_provider_io_capture.py:241-247 | both ends of a new pipe land in their slots or are lost; the pipe starts empty |
| IoCapture.Capture.InstallLogRedaction | src/market_support_crewai_agent/runtime/prompts/direct_provider_io_capture.py:338-360 | factory, handlers and filters are saved, every root handler gets the redacting filter, and only then the call fails, exactly if the log flag was already on |
| IoCapture.Capture.InstallSteps | src/market_support_crewai_agent/runtime/prompts/direct_provider_io_capture.py:161-181 | after any number of steps the state is one abort can undo; after all of them both descriptors go to empty pipes |
| IoCapture.Capture.RestoreIfRedirected | src/market_support_crewai_agent/runtime/prompts/direct_provider_io_capture.py:448-458 | a target without a backup is untouched; otherwise success means it is as install found it |
| IoCapture.Capture.Abort | src/market_support_crewai_agent/runtime/prompts/direct_provider_io_capture.py:424-446 | from every intermediate state, unless the process ends, the table is as found plus leaked and lost descriptors, no slot is filled, and replaced globals are back |
| IoCapture.Capture.Install | src/market_support_crewai_agent/runtime/prompts/direct_provider_io_capture.py:154-186 | raises without effect when repeated; otherwise redirects both descriptors and puts two new stream objects, one writing to each descriptor, in the place of sys.stdout and sys.stderr, or raises with table and globals undone, or ends the process; without failures it raises exactly on overlap |
| IoCapture.Capture.CloseInstalled | src/market_support_crewai_agent/runtime/prompts/direct_provider_io_capture.py:193-233 | under every pattern of failing calls 1 and 2 are restored and nothing is owned, or the process ends; a normal return means no failure, no leak and silent drainers |
| IoCapture.Capture.Close | src/market_support_crewai_agent/runtime/prompts/direct_provider_io_capture.py:188-233 | the same for close in every phase |
| IoCapture.CaptureCall | src/market_support_crewai_agent/runtime/prompts/direct_provider_io_capture.py:140-152 | install, writes and close: whatever fails, the table comes back with at most eight descriptors left behind, and so do the globals; what the provider prints through sys.stdout and sys.stderr and what it writes to the descriptors goes to the pipes; a normal return with bytes in a pipe means that pipe's drainer died of its selector before its first read; without failures the call raises exactly if a drainer is not silent about its pipe, reports of dying drainers included |
| IoCapture.DeadDrainerCall | src/market_support_crewai_agent/runtime/prompts/direct_provider_io_capture.py:259-285 | complete calls in which one drainer dies unread: whatever the pipe took is lost and the call returns normally, unless it was the stdout drainer and its report reached the stderr pipe |
| ProviderGate.AtMostOneInside | src/market_support_crewai_agent/runtime/prompts/direct_provider_io_capture.py:501-540 | in every interleaving at most one task is at or inside the capture |
| ProviderGate.CancelledNeverEnters | src/market_support_crewai_agent/runtime/prompts/direct_provider_io_capture.py:532-540 | a cancelled acquisition never enters the capture |
| ProviderGate.OrphansExactly | src/market_support_crewai_agent/runtime/prompts/direct_provider_io_capture.py:536-540 | a worker is left behind exactly by a second cancellation that does not withdraw its job |
| ProviderGate.Progress | src/market_support_crewai_agent/runtime/prompts/direct_provider_io_capture.py:501-540 | while a task is unfinished something other than a cancellation can happen, unless a left-behind worker holds the lock |
| ProviderGate.LockComesBack | src/market_support_crewai_agent/runtime/prompts/direct_provider_io_capture.py:526-540 | when nothing more can happen the lock is taken exactly if a second cancellation left a worker behind; otherwise all tasks are finished |
| ProviderGate.SecondCancellationLosesTheGate | src/market_support_crewai_agent/runtime/prompts/direct_provider_io_capture.py:536-540 | a four-step run after which the lock is taken for good |
| ProviderGate.RunsEnd | src/market_support_crewai_agent/runtime/prompts/direct_provider_io_capture.py:501-540 | no run of n tasks has more than 8n events |
| SchemaCanonicalization.CanonicalizeSchemaValue | src/market_support_crewai_agent/runtime/prompts/schema_canonicalization.py:20-37 | the recursive procedure with its dictionary loop computes the canonical form |
| SchemaCanonicalization.CanonIdempotent | src/market_support_crewai_agent/runtime/prompts/schema_canonicalization.py:20-37 | canonicalizing twice is canonicalizing once, on every JSON value |
| SchemaCanonicalization.CanonExactly | src/market_support_crewai_agent/runtime/prompts/schema_canonicalization.py:9-37 | the canonical form, and no other value, is the schema in which exactly the keys title, description, examples and $comment of objects in a schema's place are gone at every depth, while constants, defaults, enumerations and the names in schema maps are kept |
| SchemaCanonicalization.PathExactly | src/market_support_crewai_agent/runtime/prompts/schema_canonicalization.py:26-36 | a pointer into the canonical form leads nowhere if it passes a documentation keyword, and otherwise to the canonical view of where it led |
| SchemaMeaning.MeaningPreserved | src/market_support_crewai_agent/runtime/prompts/schema_canonicalization.py:16-37 | for every schema, value and number of steps the canonical form gives the same verdict, if each reference that resolves leads to a schema, or to data that canonicalization would leave alone and that holds no reference, and no documentation-named property requires another one |
| SchemaMeaning.AcceptsTheSame | src/market_support_crewai_agent/runtime/prompts/schema_canonicalization.py:16-37 | a document and its canonical form accept and reject the same values under that condition |
| SchemaMeaning.PlainAcceptsTheSame | src/market_support_crewai_agent/runtime/prompts/schema_canonicalization.py:16-37 | without references and `dependentRequired` the two accept and reject the same values, with no condition |
| SchemaMeaning.ReferenceLostEverywhere | src/market_support_crewai_agent/runtime/prompts/schema_canonicalization.py:27-28 | a document that refers to its own description accepts every value and its canonical form accepts none |
| SchemaMeaning.DependentRequiredExactly | src/market_support_crewai_agent/runtime/prompts/schema_canonicalization.py:27-36 | `dependentRequired` keeps its verdict on every value exactly if each documentation-named property requires at most itself |
| SchemaMeaning.DependencyLost | src/market_support_crewai_agent/runtime/prompts/schema_canonicalization.py:27-36 | a concrete document that rejects a concrete value which its canonical form accepts |
| SchemaMeaning.ReferenceLost | src/market_support_crewai_agent/runtime/prompts/schema_canonicalization.py:27-28 | a reference into documentation never reaches a verdict in the canonical form |
| SchemaTransport.HashesAgree | src/market_support_crewai_agent/runtime/prompts/provider_transport.py:28-66 | for both transports the envelope hashes the schema the synthesis hashes, and its provider schema is the object in the body |
| SchemaTransport.PreimagesDistinguish | src/market_support_crewai_agent/runtime/prompts/program_models.py:267-272 | two programs share a schema preimage exactly if their schemas have one canonical form |
| SchemaTransport.SchemaPreimageIs | src/market_support_crewai_agent/runtime/prompts/program_models.py:267-272 | what is hashed for a schema: the domain's tag, a zero byte and the canonical text |
| SchemaTransport.BodyHolds | src/market_support_crewai_agent/runtime/prompts/provider_transport.py:110-152 | the request body of each transport, field by field: who says what, the settings of the target and the schema, each in its place |
| CanonicalJson.SortedKeysUnique | src/market_support_crewai_agent/runtime/hashing.py:28-31 | sorting keys leaves one possible order; which one says CanonicalText.ObjectText |
| CanonicalJson.EscapeReads | src/market_support_crewai_agent/runtime/hashing.py:28-31 | reading undoes escaping for every character, with raw or escaped non-ASCII text |
| CanonicalJson.ParsePrint | src/market_support_crewai_agent/runtime/hashing.py:28-31 | the parser recovers every value from its canonical text and stops right after it |
| CanonicalJson.PrintInjective | src/market_support_crewai_agent/runtime/identity/state_key.py:22-23 | equal canonical texts are texts of equal values, in both printing modes |
| CanonicalText.AtMostExactly | src/market_support_crewai_agent/runtime/hashing.py:28-31 | the comparison of keys is the order by code point: a proper prefix comes first, and otherwise the smaller character where the keys first differ |
| CanonicalText.ObjectText | src/market_support_crewai_agent/runtime/hashing.py:28-31 | the text of an object: its fields between braces in the ascending order of their keys by code point, however that order was found, with commas and colons and nothing else between them |
| CanonicalText.ArrayText | src/market_support_crewai_agent/runtime/hashing.py:28-31 | the text of an array: its items in their order between brackets |
| CanonicalText.EscapeShape | src/market_support_crewai_agent/runtime/hashing.py:28-31 | how every character of a string is written: as itself, with one of seven short escapes, as its UTF-16 unit in lower-case hexadecimal, or as the surrogate pair that stands for it |
| CanonicalText.DigitsShape | src/market_support_crewai_agent/runtime/hashing.py:28-31 | a number is written in decimal digits that stand for it, without a leading zero |
| HashFrames.EncodeRoundTrip | src/market_support_crewai_agent/runtime/hashing.py:28-31 | UTF-8 decoding undoes encoding |
| HashFrames.BytesInjective | src/market_support_crewai_agent/runtime/hashing.py:28-31 | equal canonical bytes are bytes of equal values |
| HashFrames.BytesHaveNoZero | src/market_support_crewai_agent/runtime/hashing.py:28-31 | canonical bytes hold no zero byte, whatever the strings hold |
| HashFrames.TaggedFrameInjective | src/market_support_crewai_agent/runtime/hashing.py:34-38 | equal tagged frames have equal tags and values |
| HashFrames.IdsDistinguish | src/market_support_crewai_agent/runtime/hashing.py:34-38 | with a collision-free hash, ids are equal exactly for equal tags and values |
| HashFrames.AuditMessageInjective | src/market_support_crewai_agent/runtime/observability/direct_audit.py:79-97 | equal audit messages have equal purpose, state key and content, even when the content holds zero bytes |
| FrameLayout.EncodeExactly | src/market_support_crewai_agent/runtime/hashing.py:28-31 | the bytes of a text are the shortest forms of its characters by section 3 of RFC 3629, one after another, and no other bytes are |
| FrameLayout.TaggedLayout | src/market_support_crewai_agent/runtime/hashing.py:34-38 | what is hashed, byte by byte: the tag, a zero byte and the UTF-8 form of the canonical text |
| FrameLayout.AuditLaidOut | src/market_support_crewai_agent/runtime/observability/direct_audit.py:75-97 | what is signed, byte by byte: the domain, the purpose, the escaped text of the state key's seven fields and the content, with zero bytes between them; nothing exactly for an unlisted purpose |
| Health.StatusOfOutages | src/market_support_crewai_agent/health/models.py:90-93 | the last outage is open exactly while the status is unhealthy, whatever the clock does |
| Health.OutagesOrdered | src/market_support_crewai_agent/health/models.py:56-88 | outages stay ordered and disjoint and only the last can be open |
| Health.OutagesCover | src/market_support_crewai_agent/health/models.py:56-88 | the outages cover exactly the times at which the last event was a failure |
| Health.DowntimeIsUnhealthyTime | src/market_support_crewai_agent/health/formatting.py:137-171 | the reported downtime is the measure of the unhealthy time in the window, up to now |
| Health.OverlapExactly | src/market_support_crewai_agent/health/formatting.py:159-171 | the overlap of an outage and a report window spans exactly the times they share, up to now for an open outage, and there is none exactly if they share no time |
| Health.DowntimeAdds | src/market_support_crewai_agent/health/formatting.py:137-171 | downtime adds up over adjacent windows |
| Health.ClampNeverActs | src/market_support_crewai_agent/health/formatting.py:28-35 | availability lies between 0 and 100 before the clamp, and is 0 exactly for full downtime |
| Health.WarningsApart | src/market_support_crewai_agent/health/models.py:69-98 | two warnings inside one outage are at least the cooldown of the later call apart |
| Health.WarnedInTime | src/market_support_crewai_agent/health/models.py:69-98 | every outage starts with a warning, and at every failure the outage has had one that is the failure's own or less than its cooldown ago |
| Health.LlmHealthState.RecordSuccess | src/market_support_crewai_agent/health/models.py:56-67 | closes the open outage in place and returns it exactly if the status was unhealthy; all fields agree with the history |
| Health.LlmHealthState.RecordFailure | src/market_support_crewai_agent/health/models.py:69-88 | opens an outage exactly on a first failure and warns exactly when due; all fields agree with the history |
| Health.LlmHealthState.OutageSecondsBetween | src/market_support_crewai_agent/health/formatting.py:137-148 | the loop sums the overlaps of all outages |
| Health.ReportDowntime | src/market_support_crewai_agent/health/formatting.py:21-35 | the downtime is that of the history, and availability times the length of the window is a hundred times its healthy part, a window shorter than a second counting as a second |
| Health.AvailabilityAdds | src/market_support_crewai_agent/health/formatting.py:28-35 | over two adjacent windows of at least a second, the availability of the whole is the mean of the parts weighted by their lengths |
| InvocationJournal.CostsDescend | src/market_support_crewai_agent/settings_model.py:132-142 | the costs are listed dearest first, so sorting them before the slice changes nothing |
| InvocationJournal.BudgetSuffices | src/market_support_crewai_agent/settings_model.py:132-142 | no sequence of remediations within the caps costs more rows than the budget, a replan costing five, a refetch three and a recomposition two beside the first eight |
| InvocationJournal.BudgetIsAttained | src/market_support_crewai_agent/settings_model.py:132-142 | some sequence within the caps needs the whole budget |
| InvocationJournal.RowCheckNeverFires | src/market_support_crewai_agent/settings_model.py:115-130 | within the field bounds the budget lies between 8 and 18, is 18 exactly for two replans, and the row check cannot fire, so the settings are refused exactly if some cap exceeds the total |
| InvocationJournal.ChecksExactly | src/market_support_crewai_agent/settings_model.py:115-130 | for any caps, the first check fails exactly if some cap exceeds the total, and the second exactly if the first passes and the budget exceeds 18 |
| InvocationJournal.CreateJournal | src/market_support_crewai_agent/runtime/prompts/invocation_journal.py:113-118 | a capacity is accepted exactly from 1 to 18 |
| InvocationJournal.Journal.Reserve | src/market_support_crewai_agent/runtime/prompts/invocation_journal.py:124-147 | appends a numbered row exactly while there is room and the row's fields are within bounds, in that order; earlier rows are kept |
| InvocationJournal.Journal.ReplaceReserved | src/market_support_crewai_agent/runtime/prompts/invocation_journal.py:149-161 | replaces a row exactly if it exists, is reserved and keeps its number; finished rows never change |
| InvocationJournal.TurnFits | src/market_support_crewai_agent/settings_model.py:132-142 | a turn within its caps never exhausts a journal of the budgeted size, whatever the programs and purposes of its rows |
| SelectorCache.RecentStep | src/market_support_crewai_agent/runtime/prompts/invocation_journal.py:225-229 | one more use moves a recent key to the end or pushes the oldest out |
| SelectorCache.TurnSelectorOutcomeCache.Get | src/market_support_crewai_agent/runtime/prompts/invocation_journal.py:218-223 | hits exactly on the four most recently used keys with a non-null outcome, and returns the outcome last put |
| SelectorCache.TurnSelectorOutcomeCache.Put | src/market_support_crewai_agent/runtime/prompts/invocation_journal.py:225-229 | keeps exactly the four most recently used keys in order of use, each with its last outcome |
| PayloadStore.PutEvictsFirst | src/market_support_crewai_agent/runtime/context/payload_store.py:76-97 | a put evicts at most one live entry, the first to expire, and only when the store is full |
| PayloadStore.RunKeepsSound | src/market_support_crewai_agent/runtime/context/payload_store.py:76-145 | every run of calls keeps the store within capacity, sorted by expiry, with one entry for a key |
| PayloadStore.Retained | src/market_support_crewai_agent/runtime/context/payload_store.py:76-145 | an entry neither deleted nor cleared nor expired is found with its payload until as many newer ones were put as there is room for |
| PayloadStore.PutThenGet | src/market_support_crewai_agent/runtime/context/payload_store.py:76-113 | a payload that was put is found with its key after any run that does not delete it, clear the store, outlive it or put as many newer ones as there is room for |
| PayloadStore.FoundWasPut | src/market_support_crewai_agent/runtime/context/payload_store.py:76-113 | whatever is found after a run of a new store was put during the run, under that state key and handle |
| PayloadStore.ScopedContextPayloadStore.Put | src/market_support_crewai_agent/runtime/context/payload_store.py:76-97 | stores under a handle not in use and then holds the newest live entries that fit |
| PayloadStore.ScopedContextPayloadStore.Get | src/market_support_crewai_agent/runtime/context/payload_store.py:99-113 | returns exactly what is stored alive under state key and handle |
| PayloadStore.ScopedContextPayloadStore.Delete | src/market_support_crewai_agent/runtime/context/payload_store.py:115-118 | removes the entry and says whether it was there alive |
| PayloadStore.ScopedContextPayloadStore.RemoveExpired | src/market_support_crewai_agent/runtime/context/payload_store.py:133-141 | removes exactly the expired entries and counts them |
| MarkerScanner.ScanSound | src/market_support_crewai_agent/runtime/evidence/internal_company_knowledge_admission.py:206-231 | what the scanner reads off is a split of the text into clean segments and untouched markers |
| MarkerScanner.ScanComplete | src/market_support_crewai_agent/runtime/evidence/internal_company_knowledge_admission.py:206-231 | every such split is the one the scanner finds |
| MarkerScanner.SplitUnique | src/market_support_crewai_agent/runtime/evidence/internal_company_knowledge_admission.py:206-231 | a text has at most one split |
| MarkerScanner.SelectedExactly | src/market_support_crewai_agent/runtime/evidence/internal_company_knowledge_admission.py:206-231 | a text is accepted exactly if it splits and its markers are, as a set, the selected ones |
| MarkerScanner.BeforeTestRedundant | src/market_support_crewai_agent/runtime/evidence/internal_company_knowledge_admission.py:220-223 | the test on the character before a marker never decides the result |
| MarkerScanner.SelectedMarkers | src/market_support_crewai_agent/runtime/evidence/internal_company_knowledge_admission.py:206-231 | the cursor loop computes that answer |
| Sanitizers.OutputIsSafe | src/market_support_crewai_agent/runtime/observability/runtime_trace_sanitization.py:41-57 | at every depth the output has no sensitive key and stays within the text, list and dictionary bounds |
| Sanitizers.FixedExactlyOnSafe | src/market_support_crewai_agent/runtime/observability/runtime_trace_sanitization.py:41-57 | the sanitizer changes exactly the values that are not safe, and is idempotent |
| SanitizerMeaning.SafeValueExactly | src/market_support_crewai_agent/runtime/observability/runtime_trace_sanitization.py:41-57 | what is left of every value, at every depth: texts of up to 300 characters, the first 297 and three dots of longer ones, the first twenty items of lists, and of the first fifty entries of dictionaries those whose lower-cased key holds none of api_key, token, secret and password, in their order |
| Sanitizers.SanitizeObject | src/market_support_crewai_agent/schemas/feedback_sanitization.py:81-99 | the loop that fills the normalized dictionary computes the sanitized object or the first refusal |
| Sanitizers.SanitizeValue | src/market_support_crewai_agent/schemas/feedback_sanitization.py:110-144 | the recursive procedure computes the sanitized value or the first refusal |
| Sanitizers.AcceptedIsClean | src/market_support_crewai_agent/schemas/feedback_sanitization.py:81-144 | an accepted result is at most four deep and sixteen wide, with clean texts and distinct keys that are not denied |
| SanitizerMeaning.AcceptedExactly | src/market_support_crewai_agent/schemas/feedback_sanitization.py:81-144 | a value is accepted with an output exactly if it is within the bounds of depth and width, its texts are short, hold no secret and look like no address or path, its folded keys are distinct and none is empty or one of the twenty-four denied names; the output has the same shape with folded keys |
| SanitizerMeaning.RefusedExactly | src/market_support_crewai_agent/schemas/feedback_sanitization.py:81-144 | a value is refused with a reason exactly if that is the first fault met in reading it |
| SanitizerMeaning.ValidatedExactly | src/market_support_crewai_agent/schemas/feedback_sanitization.py:17-38 | a whole result passes exactly if it is accepted from depth 1 and its canonical encoding has at most 4096 bytes |
| SanitizerMeaning.LocatesExactly | src/market_support_crewai_agent/schemas/adapter.py:195-205 | what looks like an address or a path, and that the test on a scheme separator never decides |
| Sanitizers.OutputFixedExactly | src/market_support_crewai_agent/schemas/feedback_sanitization.py:81-107 | the output of an accepted value or whole result is accepted again and unchanged exactly if folding twice is folding once for every key of the input |
| Sanitizers.OutputNotFixed | src/market_support_crewai_agent/schemas/feedback_sanitization.py:102-107 | a concrete key, a sharp s with an acute accent, whose accepted output is accepted again but changed |
| Sanitizers.LeavesFit | src/market_support_crewai_agent/schemas/feedback_sanitization.py:81-99 | a clean result has at most 16^4 leaves |
| RecentActions.RecentActionSummaries | src/market_support_crewai_agent/runtime/context/action_history.py:19-35 | the loop with its break returns the first twenty executed rows by recency, each with its kind and its age in whole seconds rounded down, none for a row ahead of the clock and at most thirty days, in an order the other stage accepts |
| RecentActions.SelectionUnique | src/market_support_crewai_agent/runtime/context/action_history.py:24-35 | there is one such selection only |
| RecentActions.OrderValidExactly | src/market_support_crewai_agent/runtime/context/stage_input_validation.py:37-44 | the order check passes exactly if the known ages never fall |
| RecentActions.SelectionAges | src/market_support_crewai_agent/runtime/context/action_history.py:38-52 | rounding down and both clamps keep the ages in order |

## Left out

- IoCapture.Capture.PipeOwned: when setting up a new pipe fails midway, the read end counts as lost although the code also puts it in its set of owned descriptors; nothing reads that set after an aborted install.
- IoCapture.Capture.RestoreProcessGlobals: one failing call stands for every way of restoring the globals that raises; the comparisons after the restoration are not repeated, since they compare what was just assigned.
- IoCapture.Capture.Abort: setting the stop events and joining the drainers for at most a second each is not modelled; it changes neither the descriptor table nor the globals, and an aborted capture has no verdict.
- PlanTheorems.CompilationExact: the plan model's bounds on the user need, the confidence and the guardrail decisions are not modelled, since those fields are not.
- IoCapture.CaptureCall: the capacity of a pipe is not modelled: a write that finds its pipe full with nobody reading waits for ever, so what is said about drainers that stop early holds for as many bytes as their pipe takes. Which descriptors are left behind is in the ghost fields `leaked` (its close failed) and `lost` (its set-up failed) of the capture. The report of a dying drainer is written with the provider's own bytes, at one moment while descriptor 2 names the pipe.
- IoCapture.Capture.Install: the new stream objects write whole strings through their descriptor; their encoding, buffering interface and error handling are not modelled.
- IoCapture.DeadDrainerCall: beyond the capacity of the pipe the real writer waits for ever instead.
- IoCapture.Capture.FinishDrainer: the drainer's whole course until the join is one choice made in advance, not an interleaving with the writer.
- IoKernel.WriteAll: how long the loop waits for a full pipe is not modelled; the outcomes of successive writes are given.
- ProviderGate.RunsEnd: the thread pool is unbounded and the step relation does not say who is served first.
- Health.LlmHealthState.RecordFailure: the reason of a failure is not kept. Times are whole microseconds and sums are exact, where the code adds floating-point seconds.
- InvocationJournal.Journal.Reserve: rows have an ordinal, an attempt, a program, a purpose and a status; the hashes and sizes of finished rows are not part of them.
- PayloadStore.ScopedContextPayloadStore.Put: calls are sequential with a clock that does not run backwards; the random handles are a given sequence with one that is not in use, and copying of payloads is not modelled because values cannot be shared here.
- SchemaMeaning.MeaningPreserved: `unevaluatedProperties`, `unevaluatedItems`, `minContains`, `maxContains`, `format`, anchors, dynamic references, references to other documents and numbers other than integers are not modelled. The condition is sufficient, not necessary: a reference into data that itself holds references, or that canonicalization changes, is excluded, and a schema no value ever reaches may break it without harm.
- SchemaMeaning.AcceptsTheSame: the same keywords and the same sufficient condition.
- SanitizerMeaning.SafeValueExactly: lower-casing is an arbitrary function of the key, and keys are strings already.
- SanitizerMeaning.AcceptedExactly: composition and case folding of keys and the length of the canonical encoding are arbitrary functions.
- MarkerScanner.SelectedMarkers: the catalogue that maps asset ids to markers is the given set of selected markers.
- CanonicalJson.ParsePrint: strings with lone surrogates are not modelled, since they cannot be encoded; the value type of the frames has no floating-point numbers.
- HashFrames.IdsDistinguish: SHA-256 and HMAC are arbitrary functions; that the hash does not collide is a hypothesis.
- AuthorityTheorems.ActionProvenance: evidence slots and risk flags are not modelled.
- DeliveryTheorems.DeterministicRepliesStayWithinPolicy: the fixed reply texts are given, and which characters are word characters is up to the regular-expression library.
- Grounding.Candidates: plan and evidence text patterns, most length limits of plain strings and date parsing are outside; a date reader is an arbitrary function.
- Report section copying, view projections and trace bookkeeping: copying field by field.
- The text of outage lists and daily reports: formatting of the same overlaps that the downtime sums.
- Planner, composer and verifier calls, routes, settings parsing, HTTP and notification clients: input and output.
- The transaction coordinator, action ledger, preflight and report-scope services are not part of this model; their results are arbitrary inputs.
