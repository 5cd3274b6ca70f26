/** Which of several canonical facts a unit meets first: the dictionaries and the
    admission keep the order of the plan's units. */
module FactOrder {
  import opened Wrappers
  import opened AuthorityTypes
  import opened AdapterFacts
  import opened Grounding

  /** The first value that satisfies `p`. */
  function First<T>(s: seq<T>, p: T -> bool): Option<T> {
    if |s| == 0 then None
    else
      var front := First(s[..|s| - 1], p);
      if front.Some? then front else if p(s[|s| - 1]) then Some(s[|s| - 1]) else None
  }

  lemma FirstSnoc<T>(s: seq<T>, x: T, p: T -> bool)
    ensures First(s + [x], p) == if First(s, p).Some? then First(s, p) else if p(x) then Some(x) else None
  {
    assert (s + [x])[..|s|] == s;
  }

  lemma {:induction false} FirstConcat<T>(s: seq<T>, t: seq<T>, p: T -> bool)
    ensures First(s + t, p) == if First(s, p).Some? then First(s, p) else First(t, p)
  {
    if |t| == 0 {
      assert s + t == s;
    } else {
      var front, last := t[..|t| - 1], t[|t| - 1];
      FirstConcat(s, front, p);
      FirstSnoc(s + front, last, p);
      assert s + t == s + front + [last] && t == front + [last];
    }
  }

  lemma {:induction false} FirstNone<T>(s: seq<T>, p: T -> bool)
    requires forall x :: x in s ==> !p(x)
    ensures First(s, p).None?
  {
    if |s| > 0 {
      FirstNone(s[..|s| - 1], p);
    }
  }

  lemma {:induction false} FirstExists<T>(s: seq<T>, x: T, p: T -> bool)
    requires x in s && p(x)
    ensures First(s, p).Some?
  {
    if x in s[..|s| - 1] {
      FirstExists(s[..|s| - 1], x, p);
    }
  }

  // ----- admission keeps the order -----

  predicate OfType(f: Fact, t: ResolveType) {
    f.factType == FactTypeFor(t) && f.resolveType == Some(t)
  }

  lemma {:induction false} ResolvableSnoc(s: seq<Fact>, x: Fact, t: ResolveType)
    ensures FirstResolvable(s + [x], t) ==
      if FirstResolvable(s, t).Some? then FirstResolvable(s, t) else if OfType(x, t) then Some(x) else None
  {
    if |s| > 0 {
      ResolvableSnoc(s[1..], x, t);
      assert (s + [x])[1..] == s[1..] + [x];
    }
  }

  /** The first admitted fact of a type is the first canonical fact that is of the type
      and is admitted. */
  lemma {:induction false} CandidatesInOrder(facts: seq<Fact>, unit: ExecUnit, manifest: Manifest, now: Option<int>,
                                             t: ResolveType, p: Fact -> bool)
    requires forall f :: p(f) <==> OfType(f, t) && Admitted(f, unit, manifest, now)
    ensures FirstResolvable(Candidates(facts, unit, manifest, now), t) == First(facts, p)
  {
    hide Admitted, FirstResolvable, OfType;
    if |facts| > 0 {
      var front, last := facts[..|facts| - 1], facts[|facts| - 1];
      CandidatesInOrder(front, unit, manifest, now, t, p);
      ResolvableSnoc(Candidates(front, unit, manifest, now), last, t);
    } else {
      NothingResolvable(t);
    }
  }

  lemma NothingResolvable(t: ResolveType)
    ensures FirstResolvable([], t).None?
  {
  }

  // ----- the dictionary keeps the order -----

  function FactsOf(pairs: seq<Pair>): (r: seq<Fact>)
    ensures |r| == |pairs| && forall i :: 0 <= i < |r| ==> r[i] == pairs[i].fact
  {
    seq(|pairs|, i requires 0 <= i < |pairs| => pairs[i].fact)
  }

  /** One id never stands for two facts. */
  ghost predicate OneFactPerId(facts: seq<Fact>) {
    forall f, g :: f in facts && g in facts && f.id == g.id ==> f == g
  }

  lemma ValuesAppend<V>(d: seq<(string, V)>, e: (string, V))
    ensures Values(d + [e]) == Values(d) + [e.1]
  {
  }

  /** What the dictionary holds was appended under its own id. */
  lemma {:induction false} DictOfFacts(pairs: seq<Pair>)
    ensures forall i :: 0 <= i < |FactDict(pairs)| ==>
      FactDict(pairs)[i].0 == FactDict(pairs)[i].1.id && FactDict(pairs)[i].1 in FactsOf(pairs)
  {
    if |pairs| > 0 {
      var front, last := pairs[..|pairs| - 1], pairs[|pairs| - 1];
      DictOfFacts(front);
      assert FactsOf(pairs) == FactsOf(front) + [last.fact];
    }
  }

  /** The dictionary holds a repeated fact where it came first. */
  lemma {:induction false} DictInOrder(pairs: seq<Pair>, p: Fact -> bool)
    requires OneFactPerId(FactsOf(pairs))
    ensures First(Values(FactDict(pairs)), p) == First(FactsOf(pairs), p)
  {
    if |pairs| > 0 {
      var front, last := pairs[..|pairs| - 1], pairs[|pairs| - 1];
      assert FactsOf(pairs) == FactsOf(front) + [last.fact];
      DictInOrder(front, p);
      FirstSnoc(FactsOf(front), last.fact, p);
      PutInOrder(front, last, p);
    }
  }

  lemma PutInOrder(front: seq<Pair>, last: Pair, p: Fact -> bool)
    requires OneFactPerId(FactsOf(front) + [last.fact])
    ensures var values := Values(FactDict(front));
      First(Values(Put(FactDict(front), last.fact.id, last.fact)), p) ==
        if First(values, p).Some? then First(values, p) else if p(last.fact) then Some(last.fact) else None
  {
    hide OneFactPerId;
    var d, f := FactDict(front), last.fact;
    var at := KeyIndex(d, f.id);
    DictOfFacts(front);
    if at < |d| {
      SameFact(FactsOf(front) + [f], d[at].1, f);
      assert d[at := (f.id, f)] == d;
      if p(f) {
        assert Values(d)[at] == f;
        FirstExists(Values(d), f, p);
      }
    } else {
      ValuesAppend(d, (f.id, f));
      FirstSnoc(Values(d), f, p);
    }
  }

  lemma SameFact(facts: seq<Fact>, f: Fact, g: Fact)
    requires OneFactPerId(facts) && f in facts && g in facts && f.id == g.id
    ensures f == g
  {
  }

  // ----- the pairs come in plan order -----

  predicate Asks(unit: ExecUnit, t: ResolveType, n: nat)
    requires n <= |unit.resolves|
  {
    exists j :: 0 <= j < n && unit.resolves[j].resolveType == t
  }

  /** The fact a unit contributes for a type. */
  function FactOf(h: Hashes, unit: ExecUnit, t: ResolveType, results: map<ResolveType, AdapterResult>): Fact
    requires UsableResults(results) && t in results
  {
    MakeFact(h, unit, t, results[t], results[t].resolveRef.value)
  }

  /** One more resolve of the unit. */
  lemma UnitPairsStep(h: Hashes, unit: ExecUnit, results: map<ResolveType, AdapterResult>, n: nat)
    requires 0 < n <= |unit.resolves| && UsableResults(results) && UnitPairs(h, unit, results, n).Ok?
    ensures UnitPairs(h, unit, results, n - 1).Ok?
    ensures var front, s := UnitPairs(h, unit, results, n - 1).value, unit.resolves[n - 1].resolveType;
      FactsOf(UnitPairs(h, unit, results, n).value) ==
        FactsOf(front) + if s in results then [FactOf(h, unit, s, results)] else []
  {
    hide MakeFact, MakeProvenance, ResultFault;
  }

  lemma AsksStep(unit: ExecUnit, t: ResolveType, n: nat)
    requires 0 < n <= |unit.resolves|
    ensures Asks(unit, t, n) <==> Asks(unit, t, n - 1) || unit.resolves[n - 1].resolveType == t
  {
  }

  lemma {:induction false} UnitInOrder(h: Hashes, unit: ExecUnit, results: map<ResolveType, AdapterResult>, n: nat, t: ResolveType,
                                       p: Fact -> bool)
    requires n <= |unit.resolves| && UsableResults(results) && t in results && UnitPairs(h, unit, results, n).Ok?
    requires forall f :: p(f) ==> f.resolveType == Some(t)
    ensures First(FactsOf(UnitPairs(h, unit, results, n).value), p) ==
      if Asks(unit, t, n) && p(FactOf(h, unit, t, results)) then Some(FactOf(h, unit, t, results)) else None
  {
    if n == 0 {
      FirstNone(FactsOf([]), p);
    } else {
      hide UnitPairs, FactsOf, First, Asks, MakeProvenance;
      UnitPairsStep(h, unit, results, n);
      UnitInOrder(h, unit, results, n - 1, t, p);
      AsksStep(unit, t, n);
      var front, s := FactsOf(UnitPairs(h, unit, results, n - 1).value), unit.resolves[n - 1].resolveType;
      if s in results {
        FirstSnoc(front, FactOf(h, unit, s, results), p);
      } else {
        assert front + [] == front;
      }
    }
  }

  /** The same business scope, whatever the material option and the period. */
  predicate Alike(x: ExecScope, y: ExecScope) {
    match (x, y)
    case (DistributionScope(ref, channel, _, products, _), DistributionScope(ref', channel', _, products', _)) =>
      ref == ref' && channel == channel' && products == products'
    case (UnscopedScope, UnscopedScope) => true
    case _ => false
  }

  /** The first unit of the plan that resolves a type in a scope like this one. */
  function FirstAlike(units: seq<ExecUnit>, scope: ExecScope, t: ResolveType): Option<ExecUnit> {
    if |units| == 0 then None
    else
      var front, last := FirstAlike(units[..|units| - 1], scope, t), units[|units| - 1];
      if front.Some? then front else if Asks(last, t, |last.resolves|) && Alike(last.scope, scope) then Some(last) else None
  }

  /** A plan's first unit comes before all others. */
  lemma {:induction false} FirstUnitLeads(units: seq<ExecUnit>, scope: ExecScope, t: ResolveType)
    requires |units| > 0 && Asks(units[0], t, |units[0].resolves|) && Alike(units[0].scope, scope)
    ensures FirstAlike(units, scope, t) == Some(units[0])
  {
    hide Asks, Alike;
    if |units| > 1 {
      FirstUnitLeads(units[..|units| - 1], scope, t);
    }
  }

  lemma {:induction false} PlanInOrder(h: Hashes, units: seq<ExecUnit>, results: map<ResolveType, AdapterResult>, n: nat,
                                       t: ResolveType, scope: ExecScope, p: Fact -> bool)
    requires n <= |units| && UsableResults(results) && t in results && PlanPairs(h, units, results, n).Ok?
    requires forall f :: p(f) ==> f.resolveType == Some(t)
    requires forall u :: u in units ==> (p(FactOf(h, u, t, results)) <==> Alike(u.scope, scope))
    ensures First(FactsOf(PlanPairs(h, units, results, n).value), p) ==
      match FirstAlike(units[..n], scope, t) case None => None case Some(u) => Some(FactOf(h, u, t, results))
  {
    hide MakeFact, UnitPairs, Asks, Alike, First;
    if n == 0 {
      FirstNone<Fact>([], p);
    } else {
      PlanInOrder(h, units, results, n - 1, t, scope, p);
      var front := PlanPairs(h, units, results, n - 1).value;
      var unit := units[n - 1];
      var own := UnitPairs(h, unit, results, |unit.resolves|).value;
      UnitInOrder(h, unit, results, |unit.resolves|, t, p);
      FirstConcat(FactsOf(front), FactsOf(own), p);
      assert FactsOf(front + own) == FactsOf(front) + FactsOf(own);
      assert units[..n][..n - 1] == units[..n - 1] && unit in units;
    }
  }
}
