/** From grounded units to outbound actions, the replies that need no language
    model, and the last check before a reply leaves. */
module ActionReply {
  import opened Wrappers
  import opened AuthorityTypes
  import opened PolicyCompiler
  import opened PlanCompiler
  import opened AdapterFacts
  import opened Grounding
  import MarkerScanner

  datatype OutboundAction = OutboundAction(
    actionType: ActionType, resolveType: ResolveType, resolveRef: string,
    materialOption: Option<string>, period: Option<string>, reportDate: Option<string>)

  datatype ReplyKind = AnswerReply | ClarificationReply | HandoffReply | UnableReply | SilentReply

  datatype Reply = Reply(kind: ReplyKind, text: string, mentions: seq<MentionType>, actions: seq<OutboundAction>)

  /** The fixed texts: the refusal for the plan's compliance reason, the clarification for
      its slots, and the text of an input policy that blocked a group message. */
  datatype Texts = Texts(refusal: string, clarification: string, directHandoff: string, salesHandoff: string,
                         unable: string, blocked: Option<string>)

  /** An image marker: a file name in word characters, ending in `.png`, between double
      percent signs. What a word character is, the regular expression library says. */
  predicate ImageMarkerAt(word: char -> bool, text: string, i: nat, n: nat) {
    && n >= 5 && i + n + 4 <= |text|
    && MarkerScanner.DoubleAt(text, i) && MarkerScanner.DoubleAt(text, i + 2 + n)
    && text[i + n - 2..i + n + 2] == ".png"
    && forall k :: i + 2 <= k < i + n - 2 ==> word(text[k]) || text[k] in "_.-"
  }

  predicate HasImageMarker(word: char -> bool, text: string) {
    exists i, n | 0 <= i < |text| && 0 <= n < |text| :: ImageMarkerAt(word, text, i, n)
  }

  function ResolveTypeOf(a: ActionType): ResolveType {
    match a
    case SendMaterialPack => MaterialPack
    case SendWeeklyReport => WeeklyReport
    case SendMonthlyReport => MonthlyReport
  }

  function ReportAction(a: ActionType, state: ReportState): Option<OutboundAction> {
    if state.base.availability != Available || state.base.resolveRef.None? || state.period.None? || state.reportDate.None?
    then None
    else Some(OutboundAction(a, ResolveTypeOf(a), state.base.resolveRef.value, None, state.period, state.reportDate))
  }

  function ActionFrom(intent: ActionIntent, facts: BusinessFacts): Option<OutboundAction> {
    match intent.actionType
    case SendMaterialPack =>
      var state := facts.materialPack;
      if state.availability != Available || state.resolveRef.None? then None
      else
        var asked := intent.materialOption.Some? && intent.materialOption.value != "";
        Some(OutboundAction(SendMaterialPack, MaterialPack, state.resolveRef.value,
                            if asked then intent.materialOption else state.materialOption, None, None))
    case SendWeeklyReport => ReportAction(SendWeeklyReport, facts.weekly)
    case SendMonthlyReport => ReportAction(SendMonthlyReport, facts.monthly)
  }

  function UnitActions(unit: ExecUnit, facts: BusinessFacts, n: nat): seq<OutboundAction>
    requires n <= |unit.intents|
  {
    if n == 0 then []
    else
      var action := ActionFrom(unit.intents[n - 1], facts);
      UnitActions(unit, facts, n - 1) + (if action.Some? then [action.value] else [])
  }

  function Actions(units: seq<ExecUnit>, groundings: seq<UnitGrounding>, n: nat): seq<OutboundAction>
    requires n <= |units| == |groundings|
  {
    if n == 0 then []
    else
      var facts := groundings[n - 1].business;
      Actions(units, groundings, n - 1)
      + (if facts.permission == Allowed then UnitActions(units[n - 1], facts, |units[n - 1].intents|) else [])
  }

  function ReplyForActions(texts: Texts, actions: seq<OutboundAction>): Reply {
    if actions == [] then Reply(UnableReply, texts.unable, [], []) else Reply(AnswerReply, "", [], actions)
  }

  /** The loop over units and intents; a length mismatch is an error of the zip. */
  method BuildActionReply(texts: Texts, plan: ExecPlan, groundings: seq<UnitGrounding>) returns (r: Option<Reply>)
    ensures r == if |plan.body.units| != |groundings| then None
                 else Some(ReplyForActions(texts, Actions(plan.body.units, groundings, |groundings|)))
  {
    var units := plan.body.units;
    if |units| != |groundings| {
      return None;
    }
    var actions: seq<OutboundAction> := [];
    for i := 0 to |units|
      invariant actions == Actions(units, groundings, i)
    {
      var unit := units[i];
      var facts := groundings[i].business;
      if facts.permission == Allowed {
        ghost var before := actions;
        for j := 0 to |unit.intents|
          invariant actions == before + UnitActions(unit, facts, j)
        {
          var action := ActionFrom(unit.intents[j], facts);
          if action.Some? {
            actions := actions + [action.value];
          }
        }
      }
    }
    r := Some(ReplyForActions(texts, actions));
  }

  predicate SalesAvailable(groundings: seq<UnitGrounding>) {
    exists i :: 0 <= i < |groundings| && groundings[i].business.sales.availability == Available
  }

  function HandoffFor(scene: Scene, texts: Texts, groundings: seq<UnitGrounding>): Reply {
    if scene == Direct then Reply(HandoffReply, texts.directHandoff, [], [])
    else if SalesAvailable(groundings) then Reply(HandoffReply, texts.salesHandoff, [Sales], [])
    else Reply(UnableReply, texts.unable, [], [])
  }

  /** The reply of every mode that does not call the composer. */
  function DeterministicReply(scene: Scene, texts: Texts, plan: ExecPlan, groundings: seq<UnitGrounding>): Reply
    requires plan.body.mode !in {KnowledgeMode, SmalltalkMode}
    requires |plan.body.units| == |groundings|
  {
    match plan.body.mode
    case RefusalMode => Reply(UnableReply, texts.refusal, [], [])
    case ClarificationMode => Reply(ClarificationReply, texts.clarification, [], [])
    case HandoffMode => HandoffFor(scene, texts, groundings)
    case NoReplyMode => Reply(SilentReply, "", [], [])
    case ActionMode => ReplyForActions(texts, Actions(plan.body.units, groundings, |groundings|))
    case UnableMode =>
      Reply(UnableReply, if scene == Group && plan.body.origin == FromInputPolicy && texts.blocked.Some? then texts.blocked.value else texts.unable, [], [])
  }

  datatype ReplyIssue =
    | DirectHasActionsOrMentions | DirectHasImageMarker | ActionPlanWithoutAction | ActionsOutsidePolicy | MentionsOutsidePolicy

  function ReplyIssues(word: char -> bool, scene: Scene, policy: Policy, plan: ExecPlan, reply: Reply): seq<ReplyIssue> {
    (if scene == Direct && (reply.actions != [] || reply.mentions != []) then [DirectHasActionsOrMentions] else [])
    + (if scene == Direct && HasImageMarker(word, reply.text) then [DirectHasImageMarker] else [])
    + (if plan.body.mode == ActionMode && reply.actions == [] then [ActionPlanWithoutAction] else [])
    + (if reply.actions != [] && !policy.actionsAllowed then [ActionsOutsidePolicy] else [])
    + (if reply.mentions != [] && !policy.mentionsAllowed then [MentionsOutsidePolicy] else [])
  }

  method ValidateReply(word: char -> bool, scene: Scene, policy: Policy, plan: ExecPlan, reply: Reply)
    returns (issues: seq<ReplyIssue>)
    ensures issues == ReplyIssues(word, scene, policy, plan, reply)
  {
    hide HasImageMarker;
    issues := [];
    if scene == Direct && (reply.actions != [] || reply.mentions != []) {
      issues := issues + [DirectHasActionsOrMentions];
    }
    if scene == Direct && HasImageMarker(word, reply.text) {
      issues := issues + [DirectHasImageMarker];
    }
    if plan.body.mode == ActionMode && reply.actions == [] {
      issues := issues + [ActionPlanWithoutAction];
    }
    if reply.actions != [] && !policy.actionsAllowed {
      issues := issues + [ActionsOutsidePolicy];
    }
    if reply.mentions != [] && !policy.mentionsAllowed {
      issues := issues + [MentionsOutsidePolicy];
    }
  }

  // ----- the plan that replaces an unresolved material-pack plan -----

  /** The result of the first preflight item of a type. */
  function FirstResult(items: seq<PreflightItem>, t: ResolveType): Option<AdapterResult> {
    if items == [] then None
    else if items[0].resolveType == t then items[0].result
    else FirstResult(items[1..], t)
  }

  function ResolutionSource(plan: ExecPlan, items: seq<PreflightItem>): Option<PlanSource> {
    if |plan.body.intents| != 1 || plan.body.intents[0].actionType != SendMaterialPack then None
    else
      var pack := FirstResult(items, MaterialPack);
      if pack.None? || pack.value.status == Resolved then None
      else
        var sales := FirstResult(items, SalesMention);
        var (id, answerability) :=
          if pack.value.status == AmbiguousResult then (GeneralClarification, Clarify)
          else if sales.Some? && sales.value.status == Resolved then (SalesHandoff, Handoff)
          else (GeneralAbstention, Abstain);
        Some(Determined([DeterministicUnit("material-pack-resolution", id, answerability, None, None)]))
  }

  ghost function ResolutionPlan(plan: ExecPlan, items: seq<PreflightItem>, registry: seq<Manifest>, policy: Policy,
                                authority: ScopeAuthority, planHash: PlanBody -> string): Option<Result<ExecPlan, CompileError>>
  {
    match ResolutionSource(plan, items)
    case None => None
    case Some(source) => Some(Compile(registry, policy, authority, source, FromDeterministic, planHash))
  }
}
