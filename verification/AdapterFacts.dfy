/** Turning adapter results into canonical facts and the bindings that carry their
    opaque references, through two dictionaries filled side by side. */
module AdapterFacts {
  import opened Wrappers
  import opened AuthorityTypes

  datatype ResolveStatus = Resolved | Missing | AmbiguousResult | Forbidden | TemporarilyUnavailable

  datatype AdapterResult = AdapterResult(
    status: ResolveStatus, contractVersion: string, resolvedAt: nat, resolveRef: Option<string>,
    period: Option<string>, reportDate: Option<string>)

  datatype PreflightItem = PreflightItem(resolveType: ResolveType, result: Option<AdapterResult>)

  datatype EvidenceScope =
    | DistributionEvidence(ref: string, channel: ChannelKind, products: seq<string>, artifactType: ArtifactType,
                           materialOption: Option<string>, period: Option<string>)
    | UnscopedEvidence(artifactType: ArtifactType, materialOption: Option<string>)

  datatype EvidenceValue = NullValue | BooleanValue(flag: bool) | OtherValue(text: string)

  datatype Provenance = Provenance(
    sourceClass: string, recordRef: string, producerVersion: string, operation: string,
    scopeRef: string, asOf: Option<nat>)

  datatype ReportSummary = ReportSummary(
    weekly: bool, available: bool, reasonCode: string, period: Option<string>, reportDate: Option<string>,
    periodStart: Option<string>, periodEnd: Option<string>)

  /** The payload of a recently executed action. */
  datatype RecentAction = RecentAction(actionType: ActionType, reportDate: Option<string>, receivedAt: nat)

  datatype Fact = Fact(
    id: string, factType: FactType, sourceType: SourceType, artifactType: ArtifactType,
    resolveType: Option<ResolveType>, value: EvidenceValue, scope: EvidenceScope, provenance: Provenance,
    observedAt: Option<nat>, publicUrls: seq<string>, summary: Option<ReportSummary>, recent: Option<RecentAction>)

  datatype Binding = Binding(
    id: string, resolveType: ResolveType, recordRef: string, scopeRef: string, resolveRef: string,
    period: Option<string>, reportDate: Option<string>)

  datatype FactsError = FieldBounds | NonReportMetadata

  datatype SourceRecord = SourceRecord(contractVersion: string, resolveType: ResolveType, resolveRef: string)

  datatype FactIdentity = FactIdentity(
    recordRef: string, factType: FactType, artifactType: ArtifactType, scopeRef: string,
    asOf: Option<nat>, valueHash: string, provenanceHash: string)

  /** The hashes that name things. Nothing below assumes that they never collide,
      unless a lemma says so. */
  datatype Hashes = Hashes(
    record: SourceRecord -> string,
    scope: EvidenceScope -> string,
    value: EvidenceValue -> string,
    provenance: Provenance -> string,
    fact: FactIdentity -> string)

  function ArtifactFor(t: ResolveType): ArtifactType {
    match t
    case MaterialPack => ArtifactMaterialPack
    case WeeklyReport => ArtifactWeeklyReport
    case MonthlyReport => ArtifactMonthlyReport
    case SalesMention => ArtifactAdapterContext
  }

  function FactTypeFor(t: ResolveType): FactType {
    match t
    case MaterialPack => MaterialPackResolvable
    case WeeklyReport => WeeklyReportResolvable
    case MonthlyReport => MonthlyReportResolvable
    case SalesMention => SalesMentionResolvable
  }

  function ScopeForUnit(unit: ExecUnit, artifactType: ArtifactType): EvidenceScope {
    match unit.scope
    case DistributionScope(ref, channel, option, products, timeRange) =>
      DistributionEvidence(ref, channel, products, artifactType, option,
                           if timeRange.Some? then timeRange.value.period else None)
    case UnscopedScope => UnscopedEvidence(artifactType, None)
  }

  function MakeProvenance(h: Hashes, unit: ExecUnit, t: ResolveType, result: AdapterResult, resolveRef: string): Provenance {
    Provenance("adapter", h.record(SourceRecord(result.contractVersion, t, resolveRef)), result.contractVersion,
               "adapter_resolve", h.scope(ScopeForUnit(unit, ArtifactFor(t))), Some(result.resolvedAt))
  }

  function MakeFact(h: Hashes, unit: ExecUnit, t: ResolveType, result: AdapterResult, resolveRef: string): Fact {
    var p := MakeProvenance(h, unit, t, result, resolveRef);
    var identity := FactIdentity(p.recordRef, FactTypeFor(t), ArtifactFor(t), p.scopeRef, p.asOf,
                                 h.value(BooleanValue(true)), h.provenance(p));
    Fact(h.fact(identity), FactTypeFor(t), FromAdapterResolve, ArtifactFor(t), Some(t), BooleanValue(true),
         ScopeForUnit(unit, ArtifactFor(t)), p, Some(result.resolvedAt), [], None, None)
  }

  predicate IsReport(t: ResolveType) {
    t == WeeklyReport || t == MonthlyReport
  }

  predicate RefChar(c: char) {
    'A' <= c <= 'Z' || 'a' <= c <= 'z' || '0' <= c <= '9' || c in "._:~-"
  }

  /** A reference of at most 160 plain characters that starts with a letter or digit and
      has no two dots in a row. */
  predicate OpaqueRef(ref: string) {
    && 1 <= |ref| <= 160 && ref[0] !in "._:~-"
    && (forall i :: 0 <= i < |ref| ==> RefChar(ref[i]))
    && (forall i :: 0 < i < |ref| ==> !(ref[i - 1] == '.' && ref[i] == '.'))
  }

  predicate ShortText(text: Option<string>) {
    text.Some? ==> 1 <= |text.value| <= 40
  }

  /** What the record key and the binding of a result object to: a field out of bounds,
      or report metadata on a type that is no report. */
  function ResultFault(t: ResolveType, result: AdapterResult, resolveRef: string): Option<FactsError> {
    if !(1 <= |result.contractVersion| <= 120) || !OpaqueRef(resolveRef) || !ShortText(result.period) || !ShortText(result.reportDate)
    then Some(FieldBounds)
    else if !IsReport(t) && (result.period.Some? || result.reportDate.Some?) then Some(NonReportMetadata)
    else None
  }

  function MakeBinding(h: Hashes, unit: ExecUnit, t: ResolveType, result: AdapterResult, resolveRef: string)
    : Result<Binding, FactsError>
  {
    match ResultFault(t, result, resolveRef)
    case Some(e) => Err(e)
    case None =>
      var fact := MakeFact(h, unit, t, result, resolveRef);
      Ok(Binding(fact.id, t, fact.provenance.recordRef, fact.provenance.scopeRef, resolveRef,
                 result.period, result.reportDate))
  }

  // ----- the results dictionary -----

  predicate Usable(item: PreflightItem) {
    item.result.Some? && item.result.value.status == Resolved && item.result.value.resolveRef.Some?
  }

  /** For every resolve type the last usable result wins. */
  function Results(items: seq<PreflightItem>): map<ResolveType, AdapterResult> {
    if items == [] then map[]
    else
      var last := items[|items| - 1];
      var front := Results(items[..|items| - 1]);
      if Usable(last) then front[last.resolveType := last.result.value] else front
  }

  /** `i` is the last usable item of type `t`. */
  ghost predicate LastUsable(items: seq<PreflightItem>, t: ResolveType, i: nat) {
    && i < |items| && Usable(items[i]) && items[i].resolveType == t
    && forall j :: i < j < |items| && items[j].resolveType == t ==> !Usable(items[j])
  }

  lemma {:induction false} ResultIsLastUsable(items: seq<PreflightItem>, t: ResolveType) returns (i: nat)
    requires t in Results(items)
    ensures LastUsable(items, t, i) && Results(items)[t] == items[i].result.value
  {
    var n := |items| - 1;
    if Usable(items[n]) && items[n].resolveType == t {
      i := n;
    } else {
      i := ResultIsLastUsable(items[..n], t);
    }
  }

  lemma {:induction false} UsableHasResult(items: seq<PreflightItem>, i: nat)
    requires i < |items| && Usable(items[i])
    ensures items[i].resolveType in Results(items)
  {
    if i < |items| - 1 {
      UsableHasResult(items[..|items| - 1], i);
    }
  }

  lemma {:induction false} ResultsUsable(items: seq<PreflightItem>)
    ensures forall t :: t in Results(items) ==> Results(items)[t].status == Resolved && Results(items)[t].resolveRef.Some?
  {
    if items != [] {
      ResultsUsable(items[..|items| - 1]);
    }
  }

  // ----- the pairs the nested loop appends -----

  datatype Pair = Pair(fact: Fact, binding: Binding)

  ghost predicate UsableResults(results: map<ResolveType, AdapterResult>) {
    forall t :: t in results ==> results[t].resolveRef.Some?
  }

  function UnitPairs(h: Hashes, unit: ExecUnit, results: map<ResolveType, AdapterResult>, n: nat)
    : Result<seq<Pair>, FactsError>
    requires n <= |unit.resolves| && UsableResults(results)
  {
    if n == 0 then Ok([])
    else
      var front :- UnitPairs(h, unit, results, n - 1);
      var t := unit.resolves[n - 1].resolveType;
      if t !in results then Ok(front)
      else
        var ref := results[t].resolveRef.value;
        var binding :- MakeBinding(h, unit, t, results[t], ref);
        Ok(front + [Pair(MakeFact(h, unit, t, results[t], ref), binding)])
  }

  function PlanPairs(h: Hashes, units: seq<ExecUnit>, results: map<ResolveType, AdapterResult>, n: nat)
    : Result<seq<Pair>, FactsError>
    requires n <= |units| && UsableResults(results)
  {
    if n == 0 then Ok([])
    else
      var front :- PlanPairs(h, units, results, n - 1);
      var own :- UnitPairs(h, units[n - 1], results, |units[n - 1].resolves|);
      Ok(front + own)
  }

  // ----- insertion-ordered dictionaries -----

  /** Position of the first entry with this key, or the length. */
  function KeyIndex<V>(d: seq<(string, V)>, k: string): (i: nat)
    ensures i <= |d|
    ensures i < |d| ==> d[i].0 == k
    ensures forall j :: 0 <= j < i ==> d[j].0 != k
  {
    if d == [] then 0 else if d[0].0 == k then 0 else 1 + KeyIndex(d[1..], k)
  }

  /** `d[k] = v`: an existing key keeps its position. */
  function Put<V>(d: seq<(string, V)>, k: string, v: V): seq<(string, V)> {
    var i := KeyIndex(d, k);
    if i < |d| then d[i := (k, v)] else d + [(k, v)]
  }

  function FactDict(pairs: seq<Pair>): seq<(string, Fact)> {
    if pairs == [] then []
    else Put(FactDict(pairs[..|pairs| - 1]), pairs[|pairs| - 1].fact.id, pairs[|pairs| - 1].fact)
  }

  function BindingDict(pairs: seq<Pair>): seq<(string, Binding)> {
    if pairs == [] then []
    else Put(BindingDict(pairs[..|pairs| - 1]), pairs[|pairs| - 1].binding.id, pairs[|pairs| - 1].binding)
  }

  function Values<V>(d: seq<(string, V)>): (r: seq<V>)
    ensures |r| == |d| && forall i :: 0 <= i < |r| ==> r[i] == d[i].1
  {
    seq(|d|, i requires 0 <= i < |d| => d[i].1)
  }

  function AdapterEvidence(h: Hashes, plan: ExecPlan, items: seq<PreflightItem>)
    : Result<(seq<Fact>, seq<Binding>), FactsError>
  {
    ResultsUsable(items);
    var pairs :- PlanPairs(h, plan.body.units, Results(items), |plan.body.units|);
    Ok((Values(FactDict(pairs)), Values(BindingDict(pairs))))
  }

  lemma {:induction false} PlanPairsStuck(h: Hashes, units: seq<ExecUnit>, results: map<ResolveType, AdapterResult>, n: nat, m: nat)
    requires n <= m <= |units| && UsableResults(results)
    requires PlanPairs(h, units, results, n).Err?
    ensures PlanPairs(h, units, results, m) == PlanPairs(h, units, results, n)
  {
    if n < m {
      PlanPairsStuck(h, units, results, n, m - 1);
    }
  }

  lemma {:induction false} UnitPairsStuck(h: Hashes, unit: ExecUnit, results: map<ResolveType, AdapterResult>, n: nat, m: nat)
    requires n <= m <= |unit.resolves| && UsableResults(results)
    requires UnitPairs(h, unit, results, n).Err?
    ensures UnitPairs(h, unit, results, m) == UnitPairs(h, unit, results, n)
  {
    if n < m {
      UnitPairsStuck(h, unit, results, n, m - 1);
    }
  }

  /** The winning result of a type cannot be bound. */
  predicate Misfit(results: map<ResolveType, AdapterResult>, t: ResolveType) {
    t in results && results[t].resolveRef.Some? && ResultFault(t, results[t], results[t].resolveRef.value).Some?
  }

  ghost predicate UnitMisfits(unit: ExecUnit, results: map<ResolveType, AdapterResult>, n: nat)
    requires n <= |unit.resolves|
  {
    exists j :: 0 <= j < n && Misfit(results, unit.resolves[j].resolveType)
  }

  lemma {:induction false} UnitPairsFail(h: Hashes, unit: ExecUnit, results: map<ResolveType, AdapterResult>, n: nat)
    requires n <= |unit.resolves| && UsableResults(results)
    ensures UnitPairs(h, unit, results, n).Err? <==> UnitMisfits(unit, results, n)
    ensures UnitPairs(h, unit, results, n).Ok? ==> |UnitPairs(h, unit, results, n).value| <= n
  {
    hide MakeFact;
    if n > 0 {
      UnitPairsFail(h, unit, results, n - 1);
    }
  }

  lemma {:induction false} PlanPairsFail(h: Hashes, units: seq<ExecUnit>, results: map<ResolveType, AdapterResult>, n: nat)
    requires n <= |units| && UsableResults(results)
    ensures PlanPairs(h, units, results, n).Err? <==>
      exists i :: 0 <= i < n && UnitMisfits(units[i], results, |units[i].resolves|)
  {
    hide UnitPairs, UnitMisfits;
    if n > 0 {
      PlanPairsFail(h, units, results, n - 1);
      UnitPairsFail(h, units[n - 1], results, |units[n - 1].resolves|);
    }
  }

  /** Building the evidence fails exactly if some unit resolves a type whose last usable
      result has a field out of bounds, or report metadata without being a report. */
  lemma EvidenceFailsExactly(h: Hashes, plan: ExecPlan, items: seq<PreflightItem>)
    ensures AdapterEvidence(h, plan, items).Err? <==>
      exists i :: 0 <= i < |plan.body.units| && UnitMisfits(plan.body.units[i], Results(items), |plan.body.units[i].resolves|)
  {
    ResultsUsable(items);
    PlanPairsFail(h, plan.body.units, Results(items), |plan.body.units|);
  }

  /** The loops as written: results, then facts and bindings appended together,
      then one dictionary for each list. */
  method CanonicalAdapterFacts(h: Hashes, plan: ExecPlan, items: seq<PreflightItem>)
    returns (r: Result<(seq<Fact>, seq<Binding>), FactsError>)
    ensures r == AdapterEvidence(h, plan, items)
  {
    hide MakeFact, MakeBinding, FactDict, BindingDict;
    var results: map<ResolveType, AdapterResult> := map[];
    for i := 0 to |items|
      invariant results == Results(items[..i])
    {
      assert items[..i + 1][..i] == items[..i];
      if Usable(items[i]) {
        results := results[items[i].resolveType := items[i].result.value];
      }
    }
    assert items[..|items|] == items;
    ResultsUsable(items);
    var units := plan.body.units;
    var facts: seq<Fact> := [];
    var bindings: seq<Binding> := [];
    ghost var pairs: seq<Pair> := [];
    for i := 0 to |units|
      invariant PlanPairs(h, units, results, i) == Ok(pairs) && Halves(pairs, facts, bindings)
    {
      var unit := units[i];
      ghost var before := pairs;
      ghost var own: seq<Pair> := [];
      for j := 0 to |unit.resolves|
        invariant UnitPairs(h, unit, results, j) == Ok(own) && pairs == before + own && Halves(pairs, facts, bindings)
      {
        var t := unit.resolves[j].resolveType;
        if t in results {
          var ref := results[t].resolveRef.value;
          var fact := MakeFact(h, unit, t, results[t], ref);
          facts := facts + [fact];
          var binding := MakeBinding(h, unit, t, results[t], ref);
          if binding.Err? {
            UnitPairsStuck(h, unit, results, j + 1, |unit.resolves|);
            PlanPairsStuck(h, units, results, i + 1, |units|);
            return Err(binding.error);
          }
          bindings := bindings + [binding.value];
          own := own + [Pair(fact, binding.value)];
          pairs := before + own;
        }
      }
    }
    var factById := FactsById(facts, pairs, bindings);
    var bindingById := BindingsById(bindings, pairs, facts);
    r := Ok((Values(factById), Values(bindingById)));
  }

  /** The first dictionary, filled in order. */
  method FactsById(facts: seq<Fact>, ghost pairs: seq<Pair>, ghost bindings: seq<Binding>) returns (factById: seq<(string, Fact)>)
    requires Halves(pairs, facts, bindings)
    ensures factById == FactDict(pairs)
  {
    factById := [];
    for i := 0 to |facts|
      invariant factById == FactDict(pairs[..i])
    {
      assert pairs[..i + 1][..i] == pairs[..i];
      factById := Put(factById, facts[i].id, facts[i]);
    }
    assert pairs[..|pairs|] == pairs;
  }

  /** The second dictionary, filled in order. */
  method BindingsById(bindings: seq<Binding>, ghost pairs: seq<Pair>, ghost facts: seq<Fact>)
    returns (bindingById: seq<(string, Binding)>)
    requires Halves(pairs, facts, bindings)
    ensures bindingById == BindingDict(pairs)
  {
    bindingById := [];
    for i := 0 to |bindings|
      invariant bindingById == BindingDict(pairs[..i])
    {
      assert pairs[..i + 1][..i] == pairs[..i];
      bindingById := Put(bindingById, bindings[i].id, bindings[i]);
    }
    assert pairs[..|pairs|] == pairs;
  }

  ghost predicate Halves(pairs: seq<Pair>, facts: seq<Fact>, bindings: seq<Binding>) {
    && |facts| == |bindings| == |pairs|
    && forall i :: 0 <= i < |pairs| ==> pairs[i] == Pair(facts[i], bindings[i])
  }

  // ----- alignment -----

  /** The binding names exactly the evidence and provenance of the fact. */
  ghost predicate Matches(f: Fact, b: Binding) {
    && b.id == f.id
    && f.resolveType == Some(b.resolveType)
    && b.recordRef == f.provenance.recordRef
    && b.scopeRef == f.provenance.scopeRef
  }

  /** Where a fact and its binding came from: a unit of the plan, one of its
      resolves, and the winning result of that type. */
  ghost predicate Derived(h: Hashes, units: seq<ExecUnit>, results: map<ResolveType, AdapterResult>, f: Fact, b: Binding)
    requires UsableResults(results)
  {
    exists i, j ::
      && 0 <= i < |units| && 0 <= j < |units[i].resolves|
      && DerivedFrom(h, units[i], units[i].resolves[j].resolveType, results, f, b)
  }

  ghost predicate DerivedFrom(h: Hashes, unit: ExecUnit, t: ResolveType, results: map<ResolveType, AdapterResult>, f: Fact, b: Binding)
    requires UsableResults(results)
  {
    && t in results
    && f == MakeFact(h, unit, t, results[t], results[t].resolveRef.value)
    && MakeBinding(h, unit, t, results[t], results[t].resolveRef.value) == Ok(b)
  }

  lemma {:induction false} UnitPairsDerived(h: Hashes, unit: ExecUnit, results: map<ResolveType, AdapterResult>, n: nat)
    requires n <= |unit.resolves| && UsableResults(results) && UnitPairs(h, unit, results, n).Ok?
    ensures forall p :: p in UnitPairs(h, unit, results, n).value ==>
      exists j :: 0 <= j < n && DerivedFrom(h, unit, unit.resolves[j].resolveType, results, p.fact, p.binding)
  {
    if n > 0 {
      UnitPairsDerived(h, unit, results, n - 1);
      var front := UnitPairs(h, unit, results, n - 1).value;
      forall p | p in UnitPairs(h, unit, results, n).value
        ensures exists j :: 0 <= j < n && DerivedFrom(h, unit, unit.resolves[j].resolveType, results, p.fact, p.binding)
      {
        if p !in front {
          assert DerivedFrom(h, unit, unit.resolves[n - 1].resolveType, results, p.fact, p.binding);
        }
      }
    }
  }

  lemma {:induction false} PlanPairsDerived(h: Hashes, units: seq<ExecUnit>, results: map<ResolveType, AdapterResult>, n: nat)
    requires n <= |units| && UsableResults(results) && PlanPairs(h, units, results, n).Ok?
    ensures forall p :: p in PlanPairs(h, units, results, n).value ==> Derived(h, units, results, p.fact, p.binding)
  {
    if n > 0 {
      PlanPairsDerived(h, units, results, n - 1);
      UnitPairsDerived(h, units[n - 1], results, |units[n - 1].resolves|);
      var front := PlanPairs(h, units, results, n - 1).value;
      forall p | p in PlanPairs(h, units, results, n).value ensures Derived(h, units, results, p.fact, p.binding) {
        if p !in front {
          var j :| 0 <= j < |units[n - 1].resolves|
            && DerivedFrom(h, units[n - 1], units[n - 1].resolves[j].resolveType, results, p.fact, p.binding);
        }
      }
    }
  }

  /** Entry by entry, the two dictionaries hold the two halves of one pair. */
  ghost predicate Aligned(pairs: seq<Pair>, facts: seq<(string, Fact)>, bindings: seq<(string, Binding)>) {
    && |facts| == |bindings|
    && (forall i :: 0 <= i < |facts| ==> facts[i].0 == facts[i].1.id == bindings[i].0)
    && (forall i :: 0 <= i < |facts| ==> Pair(facts[i].1, bindings[i].1) in pairs)
    && (forall i, j :: 0 <= i < j < |facts| ==> facts[i].0 != facts[j].0)
  }

  lemma {:induction false} SameKeysSameIndex<V, W>(d: seq<(string, V)>, e: seq<(string, W)>, k: string)
    requires |d| == |e| && forall i :: 0 <= i < |d| ==> d[i].0 == e[i].0
    ensures KeyIndex(d, k) == KeyIndex(e, k)
  {
    if d != [] {
      SameKeysSameIndex(d[1..], e[1..], k);
    }
  }

  /** Storing both halves of one more pair keeps the dictionaries aligned. */
  lemma PutAligned(pairs: seq<Pair>, facts: seq<(string, Fact)>, bindings: seq<(string, Binding)>, last: Pair)
    requires Aligned(pairs, facts, bindings) && last.binding.id == last.fact.id
    ensures Aligned(pairs + [last], Put(facts, last.fact.id, last.fact), Put(bindings, last.binding.id, last.binding))
  {
    SameKeysSameIndex(facts, bindings, last.fact.id);
    var newFacts, newBindings := Put(facts, last.fact.id, last.fact), Put(bindings, last.binding.id, last.binding);
    var at := KeyIndex(facts, last.fact.id);
    forall i | 0 <= i < |newFacts| ensures Pair(newFacts[i].1, newBindings[i].1) in pairs + [last] {
      if i == at {
        assert Pair(newFacts[i].1, newBindings[i].1) == (pairs + [last])[|pairs|];
      } else {
        assert Pair(facts[i].1, bindings[i].1) in pairs;
      }
    }
  }

  lemma {:induction false} DictsAligned(pairs: seq<Pair>)
    requires forall p :: p in pairs ==> p.binding.id == p.fact.id
    ensures Aligned(pairs, FactDict(pairs), BindingDict(pairs))
  {
    if pairs != [] {
      var front, last := pairs[..|pairs| - 1], pairs[|pairs| - 1];
      assert last in pairs;
      DictsAligned(front);
      PutAligned(front, FactDict(front), BindingDict(front), last);
      assert pairs == front + [last];
    }
  }

  ghost predicate DistinctFacts(facts: seq<Fact>) {
    forall i, j :: 0 <= i < j < |facts| ==> facts[i].id != facts[j].id
  }

  /** Fact number i and binding number i belong together, for every plan and every
      preflight, even when evidence ids repeat or hashes collide. */
  lemma EvidenceAligned(h: Hashes, plan: ExecPlan, items: seq<PreflightItem>, facts: seq<Fact>, bindings: seq<Binding>)
    requires AdapterEvidence(h, plan, items) == Ok((facts, bindings))
    ensures |facts| == |bindings| && DistinctFacts(facts)
    ensures UsableResults(Results(items))
    ensures forall i :: 0 <= i < |facts| ==>
      Matches(facts[i], bindings[i]) && Derived(h, plan.body.units, Results(items), facts[i], bindings[i])
  {
    ResultsUsable(items);
    var units, results := plan.body.units, Results(items);
    var pairs := PlanPairs(h, units, results, |units|).value;
    PlanPairsDerived(h, units, results, |units|);
    DictsAligned(pairs);
    forall i | 0 <= i < |facts|
      ensures Matches(facts[i], bindings[i]) && Derived(h, units, results, facts[i], bindings[i])
    {
      assert Pair(facts[i], bindings[i]) in pairs;
    }
  }
}
