/** What a canonical fact and its binding say, in terms of the unit and the resolve they
    were made for and of the adapter's answer. */
module EvidenceMeaning {
  import opened Wrappers
  import opened AuthorityTypes
  import opened AdapterFacts
  import opened AuthorityTheorems
  import opened DeliveryTheorems

  /** What a fact about a resolve of this type is called, and the artifact it is about. */
  ghost predicate CalledFor(t: ResolveType, factType: FactType, artifact: ArtifactType) {
    || (t == MaterialPack && factType == MaterialPackResolvable && artifact == ArtifactMaterialPack)
    || (t == WeeklyReport && factType == WeeklyReportResolvable && artifact == ArtifactWeeklyReport)
    || (t == MonthlyReport && factType == MonthlyReportResolvable && artifact == ArtifactMonthlyReport)
    || (t == SalesMention && factType == SalesMentionResolvable && artifact == ArtifactAdapterContext)
  }

  /** The scope of the evidence is that of the unit: where, which products, which option
      and which period. */
  ghost predicate ScopeSays(unit: ExecUnit, artifact: ArtifactType, scope: EvidenceScope) {
    match scope
    case UnscopedEvidence(a, option) => unit.scope.UnscopedScope? && a == artifact && option.None?
    case DistributionEvidence(ref, channel, products, a, option, period) =>
      && unit.scope.DistributionScope? && a == artifact
      && ref == unit.scope.ref && channel == unit.scope.channel && products == unit.scope.products
      && option == unit.scope.materialOption
      && (period.Some? <==> unit.scope.timeRange.Some? && unit.scope.timeRange.value.period.Some?)
      && (period.Some? ==> unit.scope.timeRange.value.period == period)
  }

  ghost predicate ProvenanceSays(h: Hashes, t: ResolveType, answer: AdapterResult, scope: EvidenceScope, p: Provenance)
    requires answer.resolveRef.Some?
  {
    && p.sourceClass == "adapter" && p.operation == "adapter_resolve"
    && p.producerVersion == answer.contractVersion && p.asOf == Some(answer.resolvedAt)
    && p.scopeRef == h.scope(scope)
    && p.recordRef == h.record(SourceRecord(answer.contractVersion, t, answer.resolveRef.value))
  }

  /** The fact states that the type can be resolved in the unit's scope, as of the
      adapter's answer, and carries nothing else; its id covers all of this. */
  ghost predicate FactSays(h: Hashes, unit: ExecUnit, t: ResolveType, answer: AdapterResult, f: Fact)
    requires answer.resolveRef.Some?
  {
    && CalledFor(t, f.factType, f.artifactType) && f.resolveType == Some(t)
    && f.sourceType == FromAdapterResolve && f.value == BooleanValue(true) && f.observedAt == Some(answer.resolvedAt)
    && f.publicUrls == [] && f.summary.None? && f.recent.None?
    && ScopeSays(unit, f.artifactType, f.scope) && ProvenanceSays(h, t, answer, f.scope, f.provenance)
    && f.id == h.fact(FactIdentity(f.provenance.recordRef, f.factType, f.artifactType, f.provenance.scopeRef,
                                   f.provenance.asOf, h.value(f.value), h.provenance(f.provenance)))
  }

  /** The binding carries the adapter's reference, and of reports the period and the date. */
  ghost predicate BindingSays(t: ResolveType, answer: AdapterResult, f: Fact, b: Binding)
    requires answer.resolveRef.Some?
  {
    && b.id == f.id && b.resolveType == t && b.resolveRef == answer.resolveRef.value
    && b.recordRef == f.provenance.recordRef && b.scopeRef == f.provenance.scopeRef
    && b.period == answer.period && b.reportDate == answer.reportDate
    && (t == MaterialPack || t == SalesMention ==> b.period.None? && b.reportDate.None?)
  }

  lemma FactExactly(h: Hashes, unit: ExecUnit, t: ResolveType, answer: AdapterResult, f: Fact)
    requires answer.resolveRef.Some?
    ensures FactSays(h, unit, t, answer, f) <==> f == MakeFact(h, unit, t, answer, answer.resolveRef.value)
  {
  }

  lemma BindingExactly(h: Hashes, unit: ExecUnit, t: ResolveType, answer: AdapterResult, f: Fact, b: Binding)
    requires answer.resolveRef.Some? && FactSays(h, unit, t, answer, f)
    requires MakeBinding(h, unit, t, answer, answer.resolveRef.value).Ok?
    ensures BindingSays(t, answer, f, b) <==> MakeBinding(h, unit, t, answer, answer.resolveRef.value) == Ok(b)
  {
    FactExactly(h, unit, t, answer, f);
  }

  lemma MadeFor(h: Hashes, units: seq<ExecUnit>, results: map<ResolveType, AdapterResult>, f: Fact, b: Binding) returns (i: nat, j: nat)
    requires UsableResults(results) && Derived(h, units, results, f, b)
    ensures i < |units| && j < |units[i].resolves|
    ensures DerivedFrom(h, units[i], units[i].resolves[j].resolveType, results, f, b)
  {
    hide DerivedFrom;
    i, j :| 0 <= i < |units| && 0 <= j < |units[i].resolves| && DerivedFrom(h, units[i], units[i].resolves[j].resolveType, results, f, b);
  }

  /** Fact `k` and its binding speak of a resolve of some unit and of the last usable
      answer to its type. */
  lemma EvidenceSays(h: Hashes, plan: ExecPlan, items: seq<PreflightItem>, facts: seq<Fact>, bindings: seq<Binding>, k: nat)
    returns (i: nat, j: nat, n: nat)
    requires AdapterEvidence(h, plan, items) == Ok((facts, bindings)) && k < |facts|
    ensures |bindings| == |facts| && i < |plan.body.units| && j < |plan.body.units[i].resolves|
    ensures LastUsable(items, plan.body.units[i].resolves[j].resolveType, n)
    ensures FactSays(h, plan.body.units[i], plan.body.units[i].resolves[j].resolveType, items[n].result.value, facts[k])
    ensures BindingSays(plan.body.units[i].resolves[j].resolveType, items[n].result.value, facts[k], bindings[k])
  {
    hide FactSays, BindingSays, MakeFact, MakeBinding, AdapterEvidence, Results;
    EvidenceAligned(h, plan, items, facts, bindings);
    var units, results := plan.body.units, Results(items);
    i, j := MadeFor(h, units, results, facts[k], bindings[k]);
    var t := units[i].resolves[j].resolveType;
    n := ResultIsLastUsable(items, t);
    FactExactly(h, units[i], t, results[t], facts[k]);
    BindingExactly(h, units[i], t, results[t], facts[k], bindings[k]);
  }

  /** Every resolve of a unit whose type has a usable answer has a fact that speaks of it. */
  lemma EvidenceComplete(a: Attempt, i: nat, j: nat, n: nat) returns (k: nat)
    requires AdapterEvidence(a.h, a.plan, a.items) == Ok((a.facts, a.bindings)) && FaithfulHashes(a.h)
    requires i < |a.plan.body.units| && j < |a.plan.body.units[i].resolves|
    requires LastUsable(a.items, a.plan.body.units[i].resolves[j].resolveType, n)
    ensures k < |a.facts|
    ensures FactSays(a.h, a.plan.body.units[i], a.plan.body.units[i].resolves[j].resolveType, a.items[n].result.value, a.facts[k])
  {
    hide FactSays, MakeFact, AdapterEvidence, Results, FaithfulHashes;
    var t := a.plan.body.units[i].resolves[j].resolveType;
    UsableHasResult(a.items, n);
    var m := ResultIsLastUsable(a.items, t);
    assert m == n;
    var f := FactForResolve(a, i, j);
    k :| 0 <= k < |a.facts| && a.facts[k] == f;
    FactExactly(a.h, a.plan.body.units[i], t, a.items[n].result.value, f);
  }

  // ----- when there is no evidence at all -----

  /** A reference is 1 to 160 letters, digits, underscores, dots, colons, tildes and
      hyphens, begins with a letter or digit, and has no two dots in a row. */
  predicate GoodReference(ref: string) {
    && 1 <= |ref| <= 160 && LetterOrDigit(ref[0])
    && (forall c :: c in ref ==> LetterOrDigit(c) || c == '.' || c == '_' || c == ':' || c == '~' || c == '-')
    && !exists i :: 1 <= i < |ref| && ref[i - 1] == '.' == ref[i]
  }

  predicate LetterOrDigit(c: char) {
    'A' <= c <= 'Z' || 'a' <= c <= 'z' || '0' <= c <= '9'
  }

  /** No text, or one of 1 to 40 characters. */
  predicate GoodText(text: Option<string>) {
    text.None? || (text.value != "" && |text.value| <= 40)
  }

  /** An answer that cannot be made into evidence, and why: a field out of its bounds, or
      otherwise a period or date on a type that is no report. */
  ghost predicate Unfit(t: ResolveType, answer: AdapterResult, e: FactsError)
    requires answer.resolveRef.Some?
  {
    var fields := 1 <= |answer.contractVersion| <= 120 && GoodReference(answer.resolveRef.value)
                  && GoodText(answer.period) && GoodText(answer.reportDate);
    match e
    case FieldBounds => !fields
    case NonReportMetadata => fields && (t == MaterialPack || t == SalesMention) && !(answer.period.None? && answer.reportDate.None?)
  }

  lemma ReferenceExactly(ref: string)
    ensures GoodReference(ref) <==> OpaqueRef(ref)
  {
    if 1 <= |ref| <= 160 {
      assert LetterOrDigit(ref[0]) <==> RefChar(ref[0]) && ref[0] !in "._:~-";
      assert (forall c :: c in ref ==> RefChar(c)) <==> forall i :: 0 <= i < |ref| ==> RefChar(ref[i]);
      assert forall c :: RefChar(c) <==> LetterOrDigit(c) || c == '.' || c == '_' || c == ':' || c == '~' || c == '-';
    }
  }

  lemma UnfitExactly(t: ResolveType, answer: AdapterResult, e: FactsError)
    requires answer.resolveRef.Some?
    ensures Unfit(t, answer, e) <==> ResultFault(t, answer, answer.resolveRef.value) == Some(e)
  {
    hide GoodReference, OpaqueRef;
    ReferenceExactly(answer.resolveRef.value);
  }

  /** The last usable answer of the type is unfit. */
  ghost predicate UnfitAnswer(items: seq<PreflightItem>, t: ResolveType) {
    exists n: nat, e: FactsError :: LastUsable(items, t, n) && Unfit(t, items[n].result.value, e)
  }

  lemma MisfitExactly(items: seq<PreflightItem>, t: ResolveType)
    ensures Misfit(Results(items), t) <==> UnfitAnswer(items, t)
  {
    hide Unfit, Results, ResultFault;
    ResultsUsable(items);
    if t in Results(items) {
      var n := ResultIsLastUsable(items, t);
      var answer := items[n].result.value;
      forall e ensures Unfit(t, answer, e) <==> ResultFault(t, answer, answer.resolveRef.value) == Some(e) {
        UnfitExactly(t, answer, e);
      }
      if Misfit(Results(items), t) {
        assert Unfit(t, answer, ResultFault(t, answer, answer.resolveRef.value).value);
      }
    } else if n: nat :| LastUsable(items, t, n) {
      UsableHasResult(items, n);
      assert false;
    }
  }

  /** There is no evidence exactly if some unit resolves a type whose last usable answer is
      unfit. */
  lemma NoEvidenceExactly(h: Hashes, plan: ExecPlan, items: seq<PreflightItem>)
    ensures AdapterEvidence(h, plan, items).Err? <==>
      exists i, j :: 0 <= i < |plan.body.units| && 0 <= j < |plan.body.units[i].resolves|
        && UnfitAnswer(items, plan.body.units[i].resolves[j].resolveType)
  {
    hide AdapterEvidence, UnfitAnswer, Misfit, Results;
    EvidenceFailsExactly(h, plan, items);
    forall t ensures Misfit(Results(items), t) <==> UnfitAnswer(items, t) {
      MisfitExactly(items, t);
    }
  }

  /** The units mean the same scope: the same place, products, option and period. */
  ghost predicate OneScope(u: ExecUnit, v: ExecUnit) {
    match u.scope
    case UnscopedScope => v.scope.UnscopedScope?
    case DistributionScope(ref, channel, option, products, range) =>
      && v.scope.DistributionScope? && v.scope.ref == ref && v.scope.channel == channel
      && v.scope.products == products && v.scope.materialOption == option
      && (range == v.scope.timeRange
          || (range.None? && v.scope.timeRange == Some(TimeRange(None)))
          || (v.scope.timeRange.None? && range == Some(TimeRange(None))))
  }

  /** Two resolves share one fact exactly if they are of one type and their units mean
      the same scope, whatever option or artifact the resolves themselves name. */
  lemma OneFactExactly(h: Hashes, u: ExecUnit, t: ResolveType, v: ExecUnit, s: ResolveType,
                       x: AdapterResult, y: AdapterResult, f: Fact, g: Fact)
    requires FaithfulHashes(h) && x.resolveRef.Some? && y.resolveRef.Some? && (t == s ==> x == y)
    requires FactSays(h, u, t, x, f) && FactSays(h, v, s, y, g)
    ensures f.id == g.id <==> t == s && OneScope(u, v)
  {
    if f.id == g.id {
      assert f.factType == g.factType && f.provenance.scopeRef == g.provenance.scopeRef;
      assert t == s && f.scope == g.scope;
    }
    if t == s && OneScope(u, v) {
      assert f.scope == g.scope;
    }
  }
}
