/** What grounding lets in and what it makes of it, said field by field: the facts every
    registered manifest admits, the permission of a unit, the state of a report, and the
    recent actions a unit sees. */
module GroundingMeaning {
  import opened Numbers
  import opened Wrappers
  import opened AuthorityTypes
  import opened AdapterFacts
  import opened Grounding
  import opened Concatenation
  import opened DeliveryTheorems
  import CanonicalJson
  import CanonicalText
  import Sorting

  // ----- admission -----

  /** A fact with this type, source and artifact, with full provenance, in the business
      scope of the unit. */
  predicate Fits(fact: Fact, unit: ExecUnit, factType: FactType, sources: set<SourceType>, artifact: ArtifactType) {
    && fact.factType == factType && fact.sourceType in sources && fact.artifactType == artifact
    && fact.provenance.sourceClass != "" && fact.provenance.recordRef != "" && fact.provenance.producerVersion != ""
    && fact.provenance.operation != "" && fact.provenance.scopeRef != ""
    && match unit.scope
       case DistributionScope(ref, channel, _, products, _) =>
         && fact.scope.DistributionEvidence? && fact.scope.ref == ref && fact.scope.channel == channel
         && fact.scope.products == products
       case UnscopedScope => fact.scope.UnscopedEvidence? && fact.scope.artifactType == artifact
  }

  /** What each registered manifest admits. */
  predicate Admits(id: ManifestId, fact: Fact, unit: ExecUnit) {
    match id
    case MaterialPackSend => Fits(fact, unit, MaterialPackResolvable, {FromAdapterResolve}, ArtifactMaterialPack)
    case WeeklyReportSend => Fits(fact, unit, WeeklyReportResolvable, {FromAdapterResolve}, ArtifactWeeklyReport)
    case MonthlyReportSend => Fits(fact, unit, MonthlyReportResolvable, {FromAdapterResolve}, ArtifactMonthlyReport)
    case SalesHandoff => Fits(fact, unit, SalesMentionResolvable, {FromAdapterResolve}, ArtifactAdapterContext)
    case WeeklyProductList => Fits(fact, unit, ReportScopeProducts, {FromAdapterReportScope}, ArtifactWeeklyReport)
    case MonthlyProductList => Fits(fact, unit, ReportScopeProducts, {FromAdapterReportScope}, ArtifactMonthlyReport)
    case InternalKnowledge => Fits(fact, unit, DocumentContext, {FromApprovedStatic, FromDocumentMcp}, ArtifactDocument)
    case _ => false
  }

  lemma SealedAdmissionExactly(fact: Fact, unit: ExecUnit, manifest: Manifest, now: Option<int>)
    requires manifest.contract == SealedContract(manifest.id)
    ensures Admitted(fact, unit, manifest, now) <==> Admits(manifest.id, fact, unit)
  {
  }

  /** When the scope of a fact is that of a unit, whatever fields a contract requires. */
  lemma ScopeExactly(fact: Fact, unit: ExecUnit, required: set<ScopeField>)
    ensures ScopeMatches(fact, unit, required) <==>
      match (unit.scope, fact.scope)
      case (DistributionScope(ref, channel, option, products, range), DistributionEvidence(fref, fchannel, fproducts, t, foption, fperiod)) =>
        && ref == fref && channel == fchannel && products == fproducts
        && (ProductIdField in required ==> |products| == 1)
        && (MaterialOptionField in required ==> option == foption)
        && (TimeRangeField in required ==> range == Some(TimeRange(fperiod)))
        && (ArtifactTypeField in required ==>
              || (unit.kind == KindMaterialPack && t == ArtifactMaterialPack)
              || (unit.kind == KindWeeklyReport && t == ArtifactWeeklyReport)
              || (unit.kind == KindMonthlyReport && t == ArtifactMonthlyReport))
      case (UnscopedScope, UnscopedEvidence(t, _)) => required == {} && fact.artifactType == t
      case _ => false
  {
    match (unit.scope, fact.scope)
    case (DistributionScope(_, _, _, _, range), DistributionEvidence(_, _, _, _, _, fperiod)) =>
      assert range == Some(TimeRange(fperiod)) <==> range.Some? && range.value.period == fperiod;
    case _ =>
  }

  /** The positions of the admitted facts. */
  ghost predicate AdmittedAt(facts: seq<Fact>, unit: ExecUnit, manifest: Manifest, now: Option<int>, at: seq<nat>) {
    forall i: nat :: i in at <==> i < |facts| && Admitted(facts[i], unit, manifest, now)
  }

  lemma AdmittedStep(facts: seq<Fact>, last: Fact, unit: ExecUnit, manifest: Manifest, now: Option<int>, at: seq<nat>)
    requires AdmittedAt(facts, unit, manifest, now, at)
    ensures AdmittedAt(facts + [last], unit, manifest, now, if Admitted(last, unit, manifest, now) then at + [|facts|] else at)
  {
    hide Admitted;
    var more := if Admitted(last, unit, manifest, now) then at + [|facts|] else at;
    forall i: nat ensures i in more <==> i < |facts| + 1 && Admitted((facts + [last])[i], unit, manifest, now) {
      assert i in at <==> i < |facts| && Admitted(facts[i], unit, manifest, now);
    }
  }

  lemma NoCandidates(unit: ExecUnit, manifest: Manifest, now: Option<int>)
    ensures Candidates([], unit, manifest, now) == [] && AdmittedAt([], unit, manifest, now, [])
  {
    hide Admitted;
  }

  lemma CandidatesStep(front: seq<Fact>, last: Fact, unit: ExecUnit, manifest: Manifest, now: Option<int>)
    ensures var r := Candidates(front, unit, manifest, now);
      Candidates(front + [last], unit, manifest, now) == if Admitted(last, unit, manifest, now) then r + [last] else r
  {
    hide Admitted, DistinctFacts;
    assert (front + [last])[..|front|] == front && (front + [last])[|front|] == last;
  }

  /** The candidates are the admitted facts and no others, in the order they had. */
  lemma {:induction false} CandidatesExactly(facts: seq<Fact>, unit: ExecUnit, manifest: Manifest, now: Option<int>) returns (at: seq<nat>)
    ensures PickedAt(Candidates(facts, unit, manifest, now), facts, at)
    ensures AdmittedAt(facts, unit, manifest, now, at)
  {
    hide *;
    if facts == [] {
      at := [];
      NoCandidates(unit, manifest, now);
      NonePicked(facts);
    } else {
      var front, last := facts[..|facts| - 1], facts[|facts| - 1];
      at := CandidatesExactly(front, unit, manifest, now);
      OneMorePicked(Candidates(front, unit, manifest, now), front, at, last);
      AdmittedStep(front, last, unit, manifest, now, at);
      CandidatesStep(front, last, unit, manifest, now);
      assert facts == front + [last];
      if Admitted(last, unit, manifest, now) {
        at := at + [|front|];
      }
    }
  }

  /** A unit gets all its candidates or none: all if they hold every fact type and artifact
      its contract requires, one of the alternatives if it names any, and enough facts. */
  lemma CompleteExactly(facts: seq<Fact>, unit: ExecUnit, manifest: Manifest, now: Option<int>)
    ensures var c, all := manifest.contract, Candidates(facts, unit, manifest, now);
      var complete :=
        && (forall t :: t in c.requiredFacts ==> exists f :: f in all && f.factType == t)
        && (c.anyOfFacts != {} ==> exists f :: f in all && f.factType in c.anyOfFacts)
        && (forall t :: t in c.requiredArtifacts ==> exists f :: f in all && f.artifactType == t)
        && |all| >= c.minFacts;
      AdmittedFacts(facts, unit, manifest, now) == if complete then all else []
  {
    hide Admitted, Candidates;
    var c, all := manifest.contract, Candidates(facts, unit, manifest, now);
    var types := set f | f in all :: f.factType;
    if t :| t in c.anyOfFacts * types {
      assert t in types;
    }
    if f :| f in all && f.factType in c.anyOfFacts {
      assert f.factType in c.anyOfFacts * types;
    }
  }

  /** Which facts from a conversation a contract admits, whatever the contract. */
  lemma HistoryExactly(fact: Fact, c: EvidenceContract, now: Option<int>)
    ensures HistoryAllowed(fact, c, now) <==>
      && fact.sourceType !in {FromConversationHistory, FromHistorySummary}
      && (fact.sourceType in {FromUserMessage, FromAssistantMessage} ==>
            && c.allowHistory && c.history.maxTurns.None?
            && (if fact.sourceType == FromUserMessage then UserRole else AssistantRole) in c.history.roles
            && (c.history.maxAge.Some? ==>
                  now.Some? && fact.observedAt.Some? && now.value - fact.observedAt.value <= c.history.maxAge.value))
  {
  }

  /** Which facts are too old for a contract, whatever the contract. */
  lemma StalenessExactly(fact: Fact, c: EvidenceContract, now: Option<int>)
    ensures StalenessAllowed(fact, c, now) <==>
      && (c.stale.requireObservedAt || c.stale.maxAge.Some? ==> fact.observedAt.Some?)
      && (c.stale.maxAge.Some? ==>
            now.Some? && (c.stale.allowStale || now.value - fact.observedAt.value <= c.stale.maxAge.value))
  {
  }

  // ----- permission -----

  /** The policy authorises everything the unit carries. */
  ghost predicate Authorised(unit: ExecUnit, policy: Policy) {
    var id := unit.manifestRef.id;
    && unit.manifestRef in policy.eligible
    && (ReadRequirement(id).Some? ==> ReadRequirement(id).value in policy.readCaps)
    && (ActionRequirement(id).Some? ==> ActionRequirement(id).value in policy.actions)
    && (id == SalesHandoff ==> policy.mentionsAllowed && Sales in policy.mentions)
    && (forall r :: r in unit.resolves ==> r.resolveType in policy.resolves)
    && (forall a :: a in unit.intents ==> a.actionType in policy.actions)
  }

  /** A unit that carries nothing has no known permission; any other is allowed if the
      policy authorises all it carries, and denied otherwise. */
  lemma PermissionExactly(unit: ExecUnit, policy: Policy)
    ensures var idle := unit.runtimeCapabilities == [] && unit.answerCapabilities == [] && unit.resolves == [] && unit.intents == [];
      && (UnitPermission(unit, policy) == UnknownPermission <==> idle)
      && (UnitPermission(unit, policy) == Allowed <==> !idle && Authorised(unit, policy))
      && (UnitPermission(unit, policy) == Denied <==> !idle && !Authorised(unit, policy))
  {
    assert (forall r :: r in unit.resolves ==> r.resolveType in policy.resolves) <==>
      forall i :: 0 <= i < |unit.resolves| ==> unit.resolves[i].resolveType in policy.resolves;
    assert (forall a :: a in unit.intents ==> a.actionType in policy.actions) <==>
      forall i :: 0 <= i < |unit.intents| ==> unit.intents[i].actionType in policy.actions;
  }

  // ----- resolvable and report states -----

  /** Fact `k` is the first adapter fact of the type. */
  ghost predicate FirstFactAt(facts: seq<Fact>, t: ResolveType, k: nat) {
    && k < |facts| && facts[k].factType == FactTypeFor(t) && facts[k].resolveType == Some(t)
    && forall j :: 0 <= j < k ==> !(facts[j].factType == FactTypeFor(t) && facts[j].resolveType == Some(t))
  }

  predicate SummaryFact(f: Fact, t: ResolveType) {
    f.factType == ReportScopeSummary && f.resolveType == Some(t) && f.summary.Some? && f.summary.value.weekly == (t == WeeklyReport)
  }

  /** Fact `k` is the first summary of the report type. */
  ghost predicate FirstSummaryAt(facts: seq<Fact>, t: ResolveType, k: nat) {
    k < |facts| && SummaryFact(facts[k], t) && forall j :: 0 <= j < k ==> !SummaryFact(facts[j], t)
  }

  lemma {:induction false} FirstResolvableAt(facts: seq<Fact>, t: ResolveType, k: nat)
    ensures FirstFactAt(facts, t, k) ==> FirstResolvable(facts, t) == Some(facts[k])
  {
    if FirstFactAt(facts, t, k) && k > 0 {
      forall j | 0 <= j < k - 1 ensures !(facts[1..][j].factType == FactTypeFor(t) && facts[1..][j].resolveType == Some(t)) {
        assert facts[1..][j] == facts[j + 1];
      }
      assert facts[1..][k - 1] == facts[k];
      FirstResolvableAt(facts[1..], t, k - 1);
    }
  }

  lemma {:induction false} FirstSummaryIs(facts: seq<Fact>, t: ResolveType, k: nat)
    ensures FirstSummaryAt(facts, t, k) ==> FirstSummary(facts, t) == facts[k].summary
  {
    hide SummaryFact;
    if FirstSummaryAt(facts, t, k) {
      SummaryStep(facts, t);
      if k > 0 {
        forall j | 0 <= j < k - 1 ensures !SummaryFact(facts[1..][j], t) {
          assert facts[1..][j] == facts[j + 1];
        }
        assert facts[1..][k - 1] == facts[k];
        FirstSummaryIs(facts[1..], t, k - 1);
      }
    }
  }

  lemma SummaryStep(facts: seq<Fact>, t: ResolveType)
    requires facts != []
    ensures FirstSummary(facts, t) == if SummaryFact(facts[0], t) then facts[0].summary else FirstSummary(facts[1..], t)
  {
  }

  lemma {:induction false} NoSummaryNone(facts: seq<Fact>, t: ResolveType)
    requires forall f :: f in facts ==> !SummaryFact(f, t)
    ensures FirstSummary(facts, t).None?
  {
    hide SummaryFact;
    if facts != [] {
      SummaryStep(facts, t);
      assert facts[0] in facts;
      NoSummaryNone(facts[1..], t);
    }
  }

  /** What a fact's value says about availability. */
  ghost predicate SaysAvailability(value: EvidenceValue, availability: Availability) {
    && (availability == Available <==> value == BooleanValue(true))
    && (availability == Unavailable <==> value == BooleanValue(false))
  }

  /** The fact type that states that a type can be resolved. */
  predicate StatesResolvable(factType: FactType, t: ResolveType) {
    match t
    case MaterialPack => factType == MaterialPackResolvable
    case WeeklyReport => factType == WeeklyReportResolvable
    case MonthlyReport => factType == MonthlyReportResolvable
    case SalesMention => factType == SalesMentionResolvable
  }

  /** The unit resolves the type, or its contract requires a fact of it, alone or as one of
      several. */
  ghost predicate Concerned(unit: ExecUnit, manifest: Manifest, t: ResolveType) {
    || (exists r :: r in unit.resolves && r.resolveType == t)
    || (exists f :: f in manifest.contract.requiredFacts + manifest.contract.anyOfFacts && StatesResolvable(f, t))
  }

  lemma ConcernedExactly(unit: ExecUnit, manifest: Manifest, t: ResolveType)
    ensures Concerned(unit, manifest, t) <==> DeclaredOrAdmitted(unit, manifest, t)
  {
    assert StatesResolvable(FactTypeFor(t), t);
    if i :| 0 <= i < |unit.resolves| && unit.resolves[i].resolveType == t {
      assert unit.resolves[i] in unit.resolves;
    }
  }

  /** The state a resolve type has for a unit that declares it or whose contract asks for
      it: nothing without a fact, and otherwise what the first fact and its binding say. */
  lemma ResolvableExactly(unit: ExecUnit, manifest: Manifest, facts: seq<Fact>, bound: map<string, Binding>, t: ResolveType, k: nat)
    requires Concerned(unit, manifest, t)
    ensures var state := UnitResolvable(unit, manifest, facts, bound, t);
      && ((forall f :: f in facts ==> !(f.factType == FactTypeFor(t) && f.resolveType == Some(t))) ==>
            state == ResolvableState(UnknownAvailability, None, None, None))
      && (FirstFactAt(facts, t, k) ==>
            var f := facts[k];
            && SaysAvailability(f.value, state.availability) && state.recordRef == Some(f.provenance.recordRef)
            && state.materialOption == (if t == MaterialPack then f.scope.materialOption else None)
            && (if f.id in bound && bound[f.id].resolveType == t then state.resolveRef == Some(bound[f.id].resolveRef)
                else state.resolveRef.None?))
  {
    ConcernedExactly(unit, manifest, t);
    FirstResolvableAt(facts, t, k);
  }

  /** Otherwise nothing is known of it. */
  lemma UndeclaredUnknown(unit: ExecUnit, manifest: Manifest, facts: seq<Fact>, bound: map<string, Binding>, t: ResolveType,
                          dates: string -> Option<string>)
    requires !Concerned(unit, manifest, t)
    ensures UnitResolvable(unit, manifest, facts, bound, t) == ResolvableState(UnknownAvailability, None, None, None)
    ensures UnitReport(unit, manifest, facts, bound, t, dates) ==
      Ok(ReportState(ResolvableState(UnknownAvailability, None, None, None), "", None, None, None, None))
  {
    ConcernedExactly(unit, manifest, t);
  }

  /** The state of a report that has a summary: available if the summary says so or the
      first adapter fact does, with period and dates of the summary. */
  lemma ReportExactly(unit: ExecUnit, manifest: Manifest, facts: seq<Fact>, bound: map<string, Binding>, t: ResolveType,
                      dates: string -> Option<string>, k: nat)
    requires Concerned(unit, manifest, t) && FirstSummaryAt(facts, t, k)
    requires UnitReport(unit, manifest, facts, bound, t, dates).Ok?
    ensures var state, s := UnitReport(unit, manifest, facts, bound, t, dates).value, facts[k].summary.value;
      var base := UnitResolvable(unit, manifest, facts, bound, t);
      && state.base.availability == (if s.available then Available else base.availability)
      && state.base.resolveRef == base.resolveRef && state.base.recordRef == base.recordRef && state.base.materialOption.None?
      && state.period == s.period && state.reasonCode == s.reasonCode
      && Reads(dates, s.reportDate, state.reportDate)
      && Reads(dates, s.periodStart, state.periodStart) && Reads(dates, s.periodEnd, state.periodEnd)
  {
    hide UnitResolvable, DeclaredOrAdmitted, Concerned;
    ConcernedExactly(unit, manifest, t);
    FirstSummaryIs(facts, t, k);
  }

  /** No text gives no date, and a text the date that the reader makes of it. */
  ghost predicate Reads(dates: string -> Option<string>, text: Option<string>, date: Option<string>) {
    if text.None? then date.None? else dates(text.value).Some? && date == dates(text.value)
  }

  /** The state of a report without a summary: period and date of the binding. */
  lemma UnsummedReportExactly(unit: ExecUnit, manifest: Manifest, facts: seq<Fact>, bound: map<string, Binding>, t: ResolveType,
                              dates: string -> Option<string>, k: nat)
    requires Concerned(unit, manifest, t) && (forall f :: f in facts ==> !SummaryFact(f, t)) && FirstFactAt(facts, t, k)
    requires UnitReport(unit, manifest, facts, bound, t, dates).Ok?
    ensures var state, f := UnitReport(unit, manifest, facts, bound, t, dates).value, facts[k];
      && state.base == UnitResolvable(unit, manifest, facts, bound, t)
      && (if f.id in bound && bound[f.id].resolveType == t
          then state.period == bound[f.id].period && Reads(dates, bound[f.id].reportDate, state.reportDate)
          else state.period.None? && state.reportDate.None?)
  {
    hide UnitResolvable, DeclaredOrAdmitted, Concerned;
    ConcernedExactly(unit, manifest, t);
    NoSummaryNone(facts, t);
    FirstResolvableAt(facts, t, k);
  }

  /** The status of the option a unit asked for is that of its pack, once a pack fact is
      there. */
  lemma OptionStatusExactly(unit: ExecUnit, manifest: Manifest, policy: Policy, facts: seq<Fact>, bindings: seq<Binding>,
                            dates: string -> Option<string>)
    requires DeriveBusinessFacts(unit, manifest, policy, facts, bindings, dates).Ok?
    ensures var b := DeriveBusinessFacts(unit, manifest, policy, facts, bindings, dates).value;
      && (b.materialPack.recordRef.None? ==> b.optionStatus == UnknownAvailability)
      && (b.materialPack.recordRef.Some? ==> b.optionStatus == b.materialPack.availability)
  {
    hide ValidBindings, UnitReport, UnitRecent, UnitPermission, DeclaredOrAdmitted, FirstResolvable;
  }

  // ----- recent actions -----

  /** `f` was received after `g`, or at the same time under an id that `g`'s precedes. */
  ghost predicate After(f: Fact, g: Fact) {
    || ReceivedAt(f) > ReceivedAt(g)
    || (ReceivedAt(f) == ReceivedAt(g) && CanonicalText.Precedes(g.id, f.id))
  }

  lemma NewerIsAfter(f: Fact, g: Fact)
    ensures !Newer(g, f) <==> (f.id == g.id && ReceivedAt(f) == ReceivedAt(g)) || After(f, g)
  {
    hide CanonicalText.Precedes, CanonicalJson.AtMost;
    CanonicalText.AtMostExactly(g.id, f.id);
  }

  /** Newest first, of equal age by descending id. */
  ghost predicate NewestFirst(facts: seq<Fact>) {
    forall i, j :: 0 <= i < j < |facts| ==>
      (facts[i].id == facts[j].id && ReceivedAt(facts[i]) == ReceivedAt(facts[j])) || After(facts[i], facts[j])
  }

  lemma SortedIsNewestFirst(facts: seq<Fact>)
    ensures NewestFirst(Sorting.Sort(facts, Newer)) && multiset(Sorting.Sort(facts, Newer)) == multiset(facts)
  {
    hide Newer, Sorting.Sort, After;
    NewestFirstOrdered(facts);
    var sorted := Sorting.Sort(facts, Newer);
    forall i, j | 0 <= i < j < |sorted|
      ensures (sorted[i].id == sorted[j].id && ReceivedAt(sorted[i]) == ReceivedAt(sorted[j])) || After(sorted[i], sorted[j])
    {
      NewerIsAfter(sorted[i], sorted[j]);
    }
  }

  /** A recent action in the scope of the unit. */
  predicate RecentHere(f: Fact, unit: ExecUnit) {
    f.factType == RecentExecutedAction && f.recent.Some? && ScopeMatches(f, unit, {})
  }

  lemma {:induction false} RecentFactsAre(facts: seq<Fact>, unit: ExecUnit, f: Fact)
    ensures multiset(RecentFacts(facts, unit))[f] == if RecentHere(f, unit) then multiset(facts)[f] else 0
  {
    hide ScopeMatches;
    if facts != [] {
      var front, last := facts[..|facts| - 1], facts[|facts| - 1];
      RecentFactsAre(front, unit, f);
      assert facts == front + [last];
    }
  }

  lemma {:induction false} RecentStatesAre(facts: seq<Fact>, dates: string -> Option<string>)
    requires AllRecent(facts) && RecentStates(facts, dates).Ok?
    ensures var r := RecentStates(facts, dates).value;
      |r| == |facts| && forall i :: 0 <= i < |r| ==> StateOf(facts[i], dates, r[i])
  {
    hide StateOf;
    if facts != [] {
      var front, last := facts[..|facts| - 1], facts[|facts| - 1];
      assert facts == front + [last] && last in facts;
      assert forall f :: f in front ==> f in facts;
      RecentStatesAre(front, dates);
      LastState(facts, dates);
    }
  }

  lemma LastState(facts: seq<Fact>, dates: string -> Option<string>)
    requires AllRecent(facts) && facts != [] && RecentStates(facts, dates).Ok?
    ensures var r := RecentStates(facts, dates).value; StateOf(facts[|facts| - 1], dates, r[|r| - 1])
  {
    assert facts[|facts| - 1] in facts;
  }

  /** The state of a recent action holds its kind, date, time and record. */
  ghost predicate StateOf(f: Fact, dates: string -> Option<string>, state: RecentState) {
    && f.recent.Some?
    && state.actionType == f.recent.value.actionType && state.receivedAt == f.recent.value.receivedAt
    && state.recordRef == f.provenance.recordRef && Reads(dates, f.recent.value.reportDate, state.reportDate)
  }

  /** The recent actions a unit sees, if its manifest admits them: the newest twenty of
      those in its scope, in order, and all of them if there are no more. */
  lemma RecentExactly(unit: ExecUnit, manifest: Manifest, facts: seq<Fact>, dates: string -> Option<string>)
    returns (all: seq<Fact>)
    requires UnitRecent(unit, manifest, facts, dates).Ok?
    ensures forall f :: multiset(all)[f] == if RecentHere(f, unit) then multiset(facts)[f] else 0
    ensures NewestFirst(all)
    ensures var r, c := UnitRecent(unit, manifest, facts, dates).value, manifest.contract;
      if RecentExecutedAction in c.allowedFacts && RecentExecutedAction !in c.forbiddenFacts then
        |r| == Min(|all|, 20) && forall i :: 0 <= i < |r| ==> StateOf(all[i], dates, r[i])
      else r == []
  {
    hide StateOf, NewestFirst, RecentStates, Newer, Sorting.Sort, RecentHere;
    var recent := RecentFacts(facts, unit);
    all := Sorting.Sort(recent, Newer);
    SortedIsNewestFirst(recent);
    forall f ensures multiset(all)[f] == if RecentHere(f, unit) then multiset(facts)[f] else 0 {
      RecentFactsAre(facts, unit, f);
    }
    var n := Min(|recent|, MAX_RECENT_FACTS);
    SortKeepsRecent(recent, n);
    if AdmitsType(manifest, RecentExecutedAction) {
      RecentStatesAre(all[..n], dates);
    }
  }
}
