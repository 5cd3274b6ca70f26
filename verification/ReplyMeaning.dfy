/** What a reply that needs no composer says: its kind, text, mentions and actions for
    every mode, and when it hands over to sales. */
module ReplyMeaning {
  import opened Wrappers
  import opened AuthorityTypes
  import opened PolicyCompiler
  import opened PlanCompiler
  import opened PlanMeaning
  import opened PlanTheorems
  import opened AdapterFacts
  import opened Grounding
  import opened FactOrder
  import opened ActionReply
  import opened AuthorityTheorems
  import opened DeliveryTheorems
  import opened Concatenation

  // ----- the kinds of reply -----

  /** Some unit found sales available. */
  ghost predicate SalesFound(groundings: seq<UnitGrounding>) {
    exists i :: 0 <= i < |groundings| && groundings[i].business.sales.availability == Available
  }

  /** Nothing but a text of some kind. */
  predicate JustSays(reply: Reply, kind: ReplyKind, text: string) {
    reply.kind == kind && reply.text == text && reply.mentions == [] && reply.actions == []
  }

  /** The reply to a handoff plan: in a direct conversation a text, in a group the sales
      mention if sales are available, and otherwise that there is no answer. */
  ghost predicate HandoffSays(scene: Scene, texts: Texts, groundings: seq<UnitGrounding>, reply: Reply) {
    && (scene == Direct ==> JustSays(reply, HandoffReply, texts.directHandoff))
    && (scene == Group && SalesFound(groundings) ==>
          reply.kind == HandoffReply && reply.text == texts.salesHandoff && reply.mentions == [Sales] && reply.actions == [])
    && (scene == Group && !SalesFound(groundings) ==> JustSays(reply, UnableReply, texts.unable))
  }

  /** What is said when there is no answer: in a group, what an input policy that blocked
      the message says, if it says something. */
  function UnableText(scene: Scene, texts: Texts, origin: PlanOrigin): string {
    if scene == Group && origin == FromInputPolicy && texts.blocked.Some? then texts.blocked.value else texts.unable
  }

  /** The reply for every mode that calls no composer. */
  lemma ReplyExactly(scene: Scene, texts: Texts, plan: ExecPlan, groundings: seq<UnitGrounding>)
    requires plan.body.mode !in {KnowledgeMode, SmalltalkMode} && |plan.body.units| == |groundings|
    ensures var reply, mode := DeterministicReply(scene, texts, plan, groundings), plan.body.mode;
      && (mode == RefusalMode ==> JustSays(reply, UnableReply, texts.refusal))
      && (mode == ClarificationMode ==> JustSays(reply, ClarificationReply, texts.clarification))
      && (mode == NoReplyMode ==> JustSays(reply, SilentReply, ""))
      && (mode == UnableMode ==> JustSays(reply, UnableReply, UnableText(scene, texts, plan.body.origin)))
      && (mode == HandoffMode ==> HandoffSays(scene, texts, groundings, reply))
      && (mode == ActionMode ==>
            var actions := Actions(plan.body.units, groundings, |groundings|);
            if actions == [] then JustSays(reply, UnableReply, texts.unable)
            else reply.kind == AnswerReply && reply.text == "" && reply.mentions == [] && reply.actions == actions)
  {
    hide Actions;
  }

  /** A plan with a refusing unit is answered with the refusal, whatever else it asks. */
  lemma RefusalSendsNothing(registry: seq<Manifest>, policy: Policy, authority: ScopeAuthority, source: PlanSource,
                            origin: PlanOrigin, planHash: PlanBody -> string, plan: ExecPlan,
                            scene: Scene, texts: Texts, groundings: seq<UnitGrounding>)
    requires Compile(registry, policy, authority, source, origin, planHash) == Ok(plan)
    requires Asked(source, Refuse) && |plan.body.units| == |groundings|
    ensures plan.body.mode == RefusalMode && JustSays(DeterministicReply(scene, texts, plan, groundings), UnableReply, texts.refusal)
  {
    hide Compile, Asked, DeterministicReply, JustSays;
    ModeExactly(registry, policy, authority, source, origin, planHash, plan);
    ReplyExactly(scene, texts, plan, groundings);
  }

  // ----- the list of actions -----

  function OptionSeq<T>(o: Option<T>): seq<T> {
    if o.Some? then [o.value] else []
  }

  /** What each intent of a unit yields. */
  function SentByIntents(unit: ExecUnit, facts: BusinessFacts, n: nat): (r: seq<seq<OutboundAction>>)
    requires n <= |unit.intents|
    ensures |r| == n && forall j :: 0 <= j < n ==> r[j] == OptionSeq(ActionFrom(unit.intents[j], facts))
  {
    seq(n, j requires 0 <= j < n => OptionSeq(ActionFrom(unit.intents[j], facts)))
  }

  lemma {:induction false} UnitActionsLaidOut(unit: ExecUnit, facts: BusinessFacts, n: nat)
    requires n <= |unit.intents|
    ensures Concatenates(UnitActions(unit, facts, n), SentByIntents(unit, facts, n))
  {
    hide Concatenates, ActionFrom;
    if n == 0 {
      NoParts<OutboundAction>([]);
      assert SentByIntents(unit, facts, 0) == [];
    } else {
      UnitActionsLaidOut(unit, facts, n - 1);
      var last := OptionSeq(ActionFrom(unit.intents[n - 1], facts));
      OnePartMore(UnitActions(unit, facts, n - 1), SentByIntents(unit, facts, n - 1), last);
      assert SentByIntents(unit, facts, n) == SentByIntents(unit, facts, n - 1) + [last];
    }
  }

  /** What each unit adds to a reply: what its intents yield, if it is allowed. */
  ghost predicate UnitParts(units: seq<ExecUnit>, groundings: seq<UnitGrounding>, parts: seq<seq<OutboundAction>>)
    requires |units| == |groundings|
  {
    && |parts| <= |units|
    && forall i :: 0 <= i < |parts| ==>
         if groundings[i].business.permission == Allowed
         then Concatenates(parts[i], SentByIntents(units[i], groundings[i].business, |units[i].intents|))
         else parts[i] == []
  }

  /** The actions of a reply: unit after unit, intent after intent, each that yields one. */
  lemma {:induction false} ActionsLaidOut(units: seq<ExecUnit>, groundings: seq<UnitGrounding>, n: nat) returns (parts: seq<seq<OutboundAction>>)
    requires n <= |units| == |groundings|
    ensures |parts| == n && UnitParts(units, groundings, parts) && Concatenates(Actions(units, groundings, n), parts)
  {
    hide Concatenates, UnitActions, SentByIntents;
    if n == 0 {
      parts := [];
      NoParts<OutboundAction>([]);
    } else {
      var front := ActionsLaidOut(units, groundings, n - 1);
      var unit, facts := units[n - 1], groundings[n - 1].business;
      UnitActionsLaidOut(unit, facts, |unit.intents|);
      var last := if facts.permission == Allowed then UnitActions(unit, facts, |unit.intents|) else [];
      OnePartMore(Actions(units, groundings, n - 1), front, last);
      parts := front + [last];
    }
  }

  // ----- the reply check -----

  function Rank(issue: ReplyIssue): nat {
    match issue
    case DirectHasActionsOrMentions => 0
    case DirectHasImageMarker => 1
    case ActionPlanWithoutAction => 2
    case ActionsOutsidePolicy => 3
    case MentionsOutsidePolicy => 4
  }

  /** In the fixed order, each once, and only faults before rank `r`. */
  ghost predicate Ranked(issues: seq<ReplyIssue>, r: nat) {
    && (forall i, j :: 0 <= i < j < |issues| ==> Rank(issues[i]) < Rank(issues[j]))
    && (forall x :: x in issues ==> Rank(x) < r)
  }

  function Also(issues: seq<ReplyIssue>, found: bool, x: ReplyIssue): seq<ReplyIssue> {
    issues + (if found then [x] else [])
  }

  lemma OneMoreIssue(issues: seq<ReplyIssue>, found: bool, x: ReplyIssue)
    requires Ranked(issues, Rank(x))
    ensures Ranked(Also(issues, found, x), Rank(x) + 1)
    ensures forall y :: y in Also(issues, found, x) <==> y in issues || (found && y == x)
  {
    forall i | 0 <= i < |issues| ensures Rank(issues[i]) < Rank(x) {
      assert issues[i] in issues;
    }
  }

  /** A file name without its ending: word characters, underscores, dots and hyphens. */
  ghost predicate FileStem(word: char -> bool, name: string) {
    name != "" && forall c :: c in name ==> word(c) || c == '_' || c == '.' || c == '-'
  }

  ghost predicate SplitAtImage(text: string, before: string, name: string, after: string) {
    text == before + "%%" + name + ".png%%" + after
  }

  /** Somewhere in the text an image file is named between double percent signs. */
  ghost predicate NamesImage(word: char -> bool, text: string) {
    exists before: string, name: string, after: string :: FileStem(word, name) && SplitAtImage(text, before, name, after)
  }

  lemma NamesImageExactly(word: char -> bool, text: string)
    ensures NamesImage(word, text) <==> HasImageMarker(word, text)
  {
    if HasImageMarker(word, text) {
      var i, n :| 0 <= i < |text| && 0 <= n < |text| && ImageMarkerAt(word, text, i, n);
      ImageSplits(word, text, i, n);
    }
    if NamesImage(word, text) {
      var before, name, after :| FileStem(word, name) && SplitAtImage(text, before, name, after);
      SplitIsImage(word, text, before, name, after);
    }
  }

  lemma ImageSplits(word: char -> bool, text: string, i: nat, n: nat)
    requires ImageMarkerAt(word, text, i, n)
    ensures NamesImage(word, text)
  {
    var name := text[i + 2..i + n - 2];
    assert text[i..i + 2] == "%%" && text[i + n + 2..i + n + 4] == "%%";
    assert text == text[..i] + text[i..i + 2] + name + text[i + n - 2..i + n + 2] + text[i + n + 2..i + n + 4] + text[i + n + 4..];
    assert ".png%%" == ".png" + "%%";
    assert SplitAtImage(text, text[..i], name, text[i + n + 4..]);
    forall c | c in name ensures word(c) || c == '_' || c == '.' || c == '-' {
      var k :| 0 <= k < |name| && name[k] == c;
      assert text[i + 2 + k] == c;
    }
    assert FileStem(word, name);
  }

  lemma SplitIsImage(word: char -> bool, text: string, before: string, name: string, after: string)
    requires FileStem(word, name) && SplitAtImage(text, before, name, after)
    ensures HasImageMarker(word, text)
  {
    var i, n := |before|, |name| + 4;
    var end := ".png%%";
    assert text[i..] == "%%" + name + end + after;
    assert text[i + 2..] == name + end + after && text[i + 2..i + n - 2] == name;
    assert text[i + n - 2..] == end + after && text[i + n - 2..i + n + 2] == ".png";
    assert text[i + n + 2] == '%' && text[i + n + 3] == '%';
    forall k | i + 2 <= k < i + n - 2 ensures word(text[k]) || text[k] in "_.-" {
      assert text[k] == name[k - i - 2] && text[k] in name;
    }
    assert ImageMarkerAt(word, text, i, n);
  }

  /** The check reports each of its five faults exactly when it is there, once, in a
      fixed order. */
  lemma ReplyIssuesExactly(word: char -> bool, scene: Scene, policy: Policy, plan: ExecPlan, reply: Reply)
    ensures var issues := ReplyIssues(word, scene, policy, plan, reply);
      && (DirectHasActionsOrMentions in issues <==> scene == Direct && (reply.actions != [] || reply.mentions != []))
      && (DirectHasImageMarker in issues <==> scene == Direct && NamesImage(word, reply.text))
      && (ActionPlanWithoutAction in issues <==> plan.body.mode == ActionMode && reply.actions == [])
      && (ActionsOutsidePolicy in issues <==> reply.actions != [] && !policy.actionsAllowed)
      && (MentionsOutsidePolicy in issues <==> reply.mentions != [] && !policy.mentionsAllowed)
      && Ranked(issues, 5)
  {
    hide HasImageMarker, Ranked, Also, ReplyIssues;
    NamesImageExactly(word, reply.text);
    NoIssues();
    var a := Also([], scene == Direct && (reply.actions != [] || reply.mentions != []), DirectHasActionsOrMentions);
    OneMoreIssue([], scene == Direct && (reply.actions != [] || reply.mentions != []), DirectHasActionsOrMentions);
    var b := Also(a, scene == Direct && HasImageMarker(word, reply.text), DirectHasImageMarker);
    OneMoreIssue(a, scene == Direct && HasImageMarker(word, reply.text), DirectHasImageMarker);
    var c := Also(b, plan.body.mode == ActionMode && reply.actions == [], ActionPlanWithoutAction);
    OneMoreIssue(b, plan.body.mode == ActionMode && reply.actions == [], ActionPlanWithoutAction);
    var d := Also(c, reply.actions != [] && !policy.actionsAllowed, ActionsOutsidePolicy);
    OneMoreIssue(c, reply.actions != [] && !policy.actionsAllowed, ActionsOutsidePolicy);
    OneMoreIssue(d, reply.mentions != [] && !policy.mentionsAllowed, MentionsOutsidePolicy);
    IssuesAdded(word, scene, policy, plan, reply);
  }

  lemma NoIssues()
    ensures Ranked([], 0)
  {
  }

  lemma IssuesAdded(word: char -> bool, scene: Scene, policy: Policy, plan: ExecPlan, reply: Reply)
    ensures ReplyIssues(word, scene, policy, plan, reply) ==
      Also(Also(Also(Also(Also([], scene == Direct && (reply.actions != [] || reply.mentions != []), DirectHasActionsOrMentions),
                          scene == Direct && HasImageMarker(word, reply.text), DirectHasImageMarker),
                     plan.body.mode == ActionMode && reply.actions == [], ActionPlanWithoutAction),
                reply.actions != [] && !policy.actionsAllowed, ActionsOutsidePolicy),
           reply.mentions != [] && !policy.mentionsAllowed, MentionsOutsidePolicy)
  {
    hide HasImageMarker;
    var first := if scene == Direct && (reply.actions != [] || reply.mentions != []) then [DirectHasActionsOrMentions] else [];
    assert [] + first == first;
  }

  // ----- when sales are available -----

  /** Every handoff unit resolves the sales mention. */
  ghost predicate HandoffsResolve(units: seq<ExecUnit>) {
    forall i :: 0 <= i < |units| && units[i].manifestRef.id == SalesHandoff ==> Asks(units[i], SalesMention, |units[i].resolves|)
  }

  lemma SalesStateMeans(a: Attempt, unit: ExecUnit, manifest: Manifest, g: UnitGrounding, bound: map<string, Binding>)
    requires SendStateIs(a, unit, manifest, g, bound, SalesMention)
    requires g.business.sales == UnitResolvable(unit, manifest, g.allowed, bound, SalesMention)
    ensures g.business.sales.availability == Available <==> SalesMention in Results(a.items)
  {
    hide Results;
  }

  /** Sales are available to a unit exactly if it is one of the handoff manifest and the
      adapter resolved the mention. */
  lemma SalesAvailableExactly(a: Attempt, groundings: seq<UnitGrounding>, i: nat)
    requires ValidAttempt(a) && Grounded(a) == Ok(groundings) && i < |a.plan.body.units| == |groundings|
    requires FaithfulHashes(a.h) && AdapterOnlyHere(a) && SealedContracts(a.w.registry) && HandoffsResolve(a.plan.body.units)
    ensures groundings[i].business.sales.availability == Available <==>
      a.plan.body.units[i].manifestRef.id == SalesHandoff && SalesMention in Results(a.items)
  {
    hide ValidAttempt, Grounded, FaithfulHashes, AdapterOnlyHere, SendStateIs, UnitResolvable, UnitReport, UnitPermission, Results,
         AdmittedFacts, ValidBindings, BindingsOf, DistinctFacts, SealedContract, Asks;
    var unit := a.plan.body.units[i];
    var manifest, bound := GroundedUnit(a, groundings, i);
    assert manifest in a.w.registry;
    if unit.manifestRef.id == SalesHandoff {
      SendState(a, i, manifest, groundings[i], bound, SalesMention);
      SalesStateMeans(a, unit, manifest, groundings[i], bound);
    } else if groundings[i].business.sales.availability == Available {
      SalesNeedsHandoffManifest(a, groundings, i);
    }
  }

  lemma CompiledHandoffsResolve(registry: seq<Manifest>, policy: Policy, authority: ScopeAuthority, source: PlanSource,
                                origin: PlanOrigin, planHash: PlanBody -> string, plan: ExecPlan)
    requires Compile(registry, policy, authority, source, origin, planHash) == Ok(plan)
    ensures HandoffsResolve(plan.body.units) && |plan.body.units| == SourceCount(source)
    ensures forall i: nat :: i < |plan.body.units| ==> plan.body.units[i].manifestRef.id == SourceManifest(source, i)
  {
    hide Compile, UnitIs, KindFits, Asks;
    KindExactly(registry, policy, authority, source, origin, planHash, plan);
    forall i: nat | i < |plan.body.units|
      ensures plan.body.units[i].manifestRef.id == SourceManifest(source, i)
      ensures SourceManifest(source, i) == SalesHandoff ==> Asks(plan.body.units[i], SalesMention, |plan.body.units[i].resolves|)
    {
      HandoffUnitResolves(plan.body.units[i], policy, authority, source, i);
    }
  }

  lemma HandoffUnitResolves(unit: ExecUnit, policy: Policy, authority: ScopeAuthority, source: PlanSource, i: nat)
    requires i < SourceCount(source) && UnitIs(unit, policy, authority, source, i)
    ensures unit.manifestRef.id == SourceManifest(source, i)
    ensures SourceManifest(source, i) == SalesHandoff ==> Asks(unit, SalesMention, |unit.resolves|)
  {
    if SourceManifest(source, i) == SalesHandoff {
      assert unit.resolves[0].resolveType == SalesMention;
    }
  }

  /** Handing over, from grants to the reply: when the plan's mode is a handoff, a group
      reply mentions sales exactly if some unit is one of the handoff manifest and the
      adapter resolved the mention; otherwise it says that there is no answer. */
  lemma HandoffEndToEnd(request: Request, authority: ScopeAuthority, recall: RecallMode, source: PlanSource, origin: PlanOrigin,
                        planHash: PlanBody -> string, a: Attempt, groundings: seq<UnitGrounding>, texts: Texts)
    requires SealedRegistry(a.w.registry) && SealedContracts(a.w.registry)
    requires CompilePolicy(a.w.registry, request, authority, recall) == Ok(a.policy)
    requires Compile(a.w.registry, a.policy, authority, source, origin, planHash) == Ok(a.plan)
    requires AdapterEvidence(a.h, a.plan, a.items) == Ok((a.facts, a.bindings))
    requires FaithfulHashes(a.h) && AdapterOnlyHere(a)
    requires Grounded(a) == Ok(groundings) && |groundings| == |a.plan.body.units|
    requires a.plan.body.mode == HandoffMode
    ensures var reply := DeterministicReply(request.scene, texts, a.plan, groundings);
      if request.scene == Direct then JustSays(reply, HandoffReply, texts.directHandoff)
      else if SalesMention in Results(a.items) && exists i: nat :: i < SourceCount(source) && SourceManifest(source, i) == SalesHandoff
      then reply.kind == HandoffReply && reply.text == texts.salesHandoff && reply.mentions == [Sales] && reply.actions == []
      else JustSays(reply, UnableReply, texts.unable)
  {
    hide SealedRegistry, SealedContracts, CompilePolicy, Compile, AdapterEvidence, FaithfulHashes, AdapterOnlyHere, Grounded, Results,
         ValidAttempt, CompiledPolicy, HandoffsResolve, DeterministicReply, JustSays;
    CompiledAttempt(request, authority, recall, source, origin, planHash, a);
    CompiledHandoffsResolve(a.w.registry, a.policy, authority, source, origin, planHash, a.plan);
    forall i: nat | i < |groundings|
      ensures groundings[i].business.sales.availability == Available <==>
        SourceManifest(source, i) == SalesHandoff && SalesMention in Results(a.items)
    {
      SalesAvailableExactly(a, groundings, i);
    }
    ReplyExactly(request.scene, texts, a.plan, groundings);
  }
}
