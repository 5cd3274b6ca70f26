/** Validation against a JSON Schema (draft 2020-12), for the assertion and applicator
    keywords and references within the document, and what canonicalization keeps of it. */
module SchemaMeaning {
  import opened Wrappers
  import opened Json
  import opened SchemaCanonicalization

  /** Regular expressions, pointer syntax and array indices are library code. */
  datatype Kit = Kit(matches: (string, string) -> bool, pointer: string -> seq<string>, index: IndexReader)

  /** A verdict, or none when the steps ran out or a reference leads nowhere. */
  type Verdict = Option<bool>

  /** How a subschema judges a value. */
  type Judge = (Json, Json) -> Verdict

  const YES: Verdict := Some(true)

  function Both(a: Verdict, b: Verdict): Verdict {
    if a.None? || b.None? then None else Some(a.value && b.value)
  }

  function Negated(a: Verdict): Verdict {
    if a.None? then None else Some(!a.value)
  }

  // ----- assertions -----

  function TypeName(v: Json): string {
    match v
    case JNull => "null"
    case JBool(_) => "boolean"
    case JInt(_) => "integer"
    case JString(_) => "string"
    case JArray(_) => "array"
    case JObject(_) => "object"
  }

  predicate HasType(name: string, v: Json) {
    name == TypeName(v) || (name == "number" && v.JInt?)
  }

  ghost predicate TypeHolds(t: Json, v: Json) {
    match t
    case JString(name) => HasType(name, v)
    case JArray(items) => exists i :: 0 <= i < |items| && items[i].JString? && HasType(items[i].text, v)
    case _ => true
  }

  /** The number under a keyword, if there is one. */
  function NumberAt(f: map<string, Json>, key: string): Option<int> {
    if key in f && f[key].JInt? then Some(f[key].number) else None
  }

  predicate AtLeastAt(f: map<string, Json>, key: string, n: int) {
    var bound := NumberAt(f, key);
    bound.Some? ==> n >= bound.value
  }

  predicate AtMostAt(f: map<string, Json>, key: string, n: int) {
    var bound := NumberAt(f, key);
    bound.Some? ==> n <= bound.value
  }

  predicate AboveAt(f: map<string, Json>, key: string, n: int) {
    var bound := NumberAt(f, key);
    bound.Some? ==> n > bound.value
  }

  predicate BelowAt(f: map<string, Json>, key: string, n: int) {
    var bound := NumberAt(f, key);
    bound.Some? ==> n < bound.value
  }

  predicate MultipleAt(f: map<string, Json>, key: string, n: int) {
    var step := NumberAt(f, key);
    step.Some? && step.value > 0 ==> n % step.value == 0
  }

  predicate NumberHolds(f: map<string, Json>, n: int) {
    && AtLeastAt(f, "minimum", n) && AtMostAt(f, "maximum", n)
    && AboveAt(f, "exclusiveMinimum", n) && BelowAt(f, "exclusiveMaximum", n) && MultipleAt(f, "multipleOf", n)
  }

  ghost predicate NamesPresent(names: Json, fields: map<string, Json>) {
    names.JArray? ==> forall i :: 0 <= i < |names.items| && names.items[i].JString? ==> names.items[i].text in fields
  }

  predicate TextHolds(kit: Kit, f: map<string, Json>, text: string) {
    && AtLeastAt(f, "minLength", |text|) && AtMostAt(f, "maxLength", |text|)
    && ("pattern" in f && f["pattern"].JString? ==> kit.matches(f["pattern"].text, text))
  }

  ghost predicate ItemsHold(f: map<string, Json>, items: seq<Json>) {
    && AtLeastAt(f, "minItems", |items|) && AtMostAt(f, "maxItems", |items|)
    && ("uniqueItems" in f && f["uniqueItems"] == JBool(true) ==>
          forall i, j :: 0 <= i < j < |items| ==> items[i] != items[j])
  }

  ghost predicate FieldsHold(f: map<string, Json>, fields: map<string, Json>) {
    && AtLeastAt(f, "minProperties", |fields|) && AtMostAt(f, "maxProperties", |fields|)
    && ("required" in f ==> NamesPresent(f["required"], fields))
  }

  ghost predicate SizesHold(kit: Kit, f: map<string, Json>, v: Json) {
    match v
    case JInt(n) => NumberHolds(f, n)
    case JString(text) => TextHolds(kit, f, text)
    case JArray(items) => ItemsHold(f, items)
    case JObject(fields) => FieldsHold(f, fields)
    case _ => true
  }

  /** If a property is there, so are the properties listed for it. */
  ghost predicate DependentRequiredHolds(deps: Json, v: Json) {
    deps.JObject? && v.JObject? ==> forall n :: n in deps.fields && n in v.fields ==> NamesPresent(deps.fields[n], v.fields)
  }

  ghost predicate AssertionsHold(kit: Kit, f: map<string, Json>, v: Json) {
    && ("type" in f ==> TypeHolds(f["type"], v))
    && ("enum" in f && f["enum"].JArray? ==> v in f["enum"].items)
    && ("const" in f ==> v == f["const"])
    && SizesHold(kit, f, v)
    && ("dependentRequired" in f ==> DependentRequiredHolds(f["dependentRequired"], v))
  }

  // ----- applicators -----

  /** The verdicts of several schemas on one value. */
  function Judged(items: seq<Json>, v: Json, judge: Judge): (r: seq<Verdict>)
    ensures |r| == |items| && forall i :: 0 <= i < |r| ==> r[i] == judge(items[i], v)
  {
    seq(|items|, i requires 0 <= i < |items| => judge(items[i], v))
  }

  ghost function AllOf(verdicts: seq<Verdict>): Verdict {
    if None in verdicts then None else Some(Some(false) !in verdicts)
  }

  ghost function AnyOf(verdicts: seq<Verdict>): Verdict {
    if None in verdicts then None else Some(YES in verdicts)
  }

  /** Exactly one schema holds. */
  ghost function OneOf(verdicts: seq<Verdict>): Verdict {
    if None in verdicts then None
    else Some(exists i :: 0 <= i < |verdicts| && verdicts[i] == YES
                && forall j :: 0 <= j < |verdicts| && j != i ==> verdicts[j] != YES)
  }

  function ItemsAt(f: map<string, Json>, key: string): seq<Json> {
    if key in f && f[key].JArray? then f[key].items else []
  }

  /** Combinations of schemas. */
  ghost function Combined(f: map<string, Json>, v: Json, judge: Judge): Verdict {
    Both(AllOf(Judged(ItemsAt(f, "allOf"), v, judge)),
      Both(if ItemsAt(f, "anyOf") != [] then AnyOf(Judged(ItemsAt(f, "anyOf"), v, judge)) else YES,
        if ItemsAt(f, "oneOf") != [] then OneOf(Judged(ItemsAt(f, "oneOf"), v, judge)) else YES))
  }

  function Under(f: map<string, Json>, key: string, v: Json, judge: Judge): Verdict {
    if key in f then judge(f[key], v) else YES
  }

  function Conditional(f: map<string, Json>, v: Json, judge: Judge): Verdict {
    Both(if "not" in f then Negated(judge(f["not"], v)) else YES,
      if "if" !in f then YES
      else
        match judge(f["if"], v)
        case None => None
        case Some(holds) => Under(f, if holds then "then" else "else", v, judge))
  }

  /** The schema an element of an array has to meet: its own, or the common one. */
  function ElementSchema(f: map<string, Json>, i: nat): Option<Json> {
    var prefix := ItemsAt(f, "prefixItems");
    if i < |prefix| then Some(prefix[i])
    else if "items" in f then Some(f["items"])
    else None
  }

  function JudgeElement(f: map<string, Json>, i: nat, v: Json, judge: Judge): Verdict {
    match ElementSchema(f, i)
    case None => YES
    case Some(s) => judge(s, v)
  }

  ghost function Elements(f: map<string, Json>, elems: seq<Json>, judge: Judge): Verdict {
    if exists i: nat :: i < |elems| && JudgeElement(f, i, elems[i], judge).None? then None
    else Some(forall i: nat :: i < |elems| ==> JudgeElement(f, i, elems[i], judge) == YES)
  }

  ghost function Contained(s: Json, elems: seq<Json>, judge: Judge): Verdict {
    if exists i :: 0 <= i < |elems| && judge(s, elems[i]).None? then None
    else Some(exists i :: 0 <= i < |elems| && judge(s, elems[i]) == YES)
  }

  ghost function ArrayRules(f: map<string, Json>, elems: seq<Json>, judge: Judge): Verdict {
    Both(Elements(f, elems, judge), if "contains" in f then Contained(f["contains"], elems, judge) else YES)
  }

  function FieldsAt(f: map<string, Json>, key: string): map<string, Json> {
    if key in f && f[key].JObject? then f[key].fields else map[]
  }

  ghost function Properties(m: map<string, Json>, fields: map<string, Json>, judge: Judge): Verdict {
    if exists n :: n in m && n in fields && judge(m[n], fields[n]).None? then None
    else Some(forall n :: n in m && n in fields ==> judge(m[n], fields[n]) == YES)
  }

  ghost function Patterns(kit: Kit, m: map<string, Json>, fields: map<string, Json>, judge: Judge): Verdict {
    if exists p, n :: p in m && n in fields && kit.matches(p, n) && judge(m[p], fields[n]).None? then None
    else Some(forall p, n :: p in m && n in fields && kit.matches(p, n) ==> judge(m[p], fields[n]) == YES)
  }

  /** Properties neither named nor matched. */
  ghost predicate Extra(kit: Kit, named: set<string>, patterns: set<string>, n: string) {
    n !in named && forall p :: p in patterns ==> !kit.matches(p, n)
  }

  ghost function Additional(kit: Kit, s: Json, named: set<string>, patterns: set<string>, fields: map<string, Json>, judge: Judge): Verdict {
    if exists n :: n in fields && Extra(kit, named, patterns, n) && judge(s, fields[n]).None? then None
    else Some(forall n :: n in fields && Extra(kit, named, patterns, n) ==> judge(s, fields[n]) == YES)
  }

  ghost function Names(s: Json, fields: map<string, Json>, judge: Judge): Verdict {
    if exists n :: n in fields && judge(s, JString(n)).None? then None
    else Some(forall n :: n in fields ==> judge(s, JString(n)) == YES)
  }

  ghost function Dependent(m: map<string, Json>, fields: map<string, Json>, judge: Judge): Verdict {
    if exists n :: n in m && n in fields && judge(m[n], JObject(fields)).None? then None
    else Some(forall n :: n in m && n in fields ==> judge(m[n], JObject(fields)) == YES)
  }

  /** Named, matched and remaining properties. */
  ghost function PropertyRules(kit: Kit, f: map<string, Json>, fields: map<string, Json>, judge: Judge): Verdict {
    var named, patterns := FieldsAt(f, "properties"), FieldsAt(f, "patternProperties");
    Both(Properties(named, fields, judge),
      Both(Patterns(kit, patterns, fields, judge),
        if "additionalProperties" in f
        then Additional(kit, f["additionalProperties"], named.Keys, patterns.Keys, fields, judge) else YES))
  }

  ghost function ObjectRules(kit: Kit, f: map<string, Json>, fields: map<string, Json>, judge: Judge): Verdict {
    Both(PropertyRules(kit, f, fields, judge),
      Both(if "propertyNames" in f then Names(f["propertyNames"], fields, judge) else YES,
        Dependent(FieldsAt(f, "dependentSchemas"), fields, judge)))
  }

  ghost function Applied(kit: Kit, f: map<string, Json>, v: Json, judge: Judge): Verdict {
    Both(Combined(f, v, judge),
      Both(Conditional(f, v, judge),
        match v
        case JArray(elems) => ArrayRules(f, elems, judge)
        case JObject(fields) => ObjectRules(kit, f, fields, judge)
        case _ => YES))
  }

  ghost function Referenced(kit: Kit, root: Json, f: map<string, Json>, v: Json, judge: Judge): Verdict {
    if "$ref" in f && f["$ref"].JString? then
      match Resolve(kit.index, root, kit.pointer(f["$ref"].text))
      case None => None
      case Some(target) => judge(target, v)
    else YES
  }

  /** The verdict of a schema on a value within a number of steps down. */
  ghost function Validate(kit: Kit, steps: nat, root: Json, s: Json, v: Json): Verdict
    decreases steps
  {
    if steps == 0 then None
    else
      match s
      case JBool(all) => Some(all)
      case JObject(f) =>
        var judge := (t: Json, w: Json) => Validate(kit, steps - 1, root, t, w);
        Both(Some(AssertionsHold(kit, f, v)), Both(Referenced(kit, root, f, v, judge), Applied(kit, f, v, judge)))
      case _ => YES
  }

  ghost predicate Accepts(kit: Kit, s: Json, v: Json) {
    exists steps: nat :: Validate(kit, steps, s, s, v) == Some(true)
  }

  ghost predicate Rejects(kit: Kit, s: Json, v: Json) {
    exists steps: nat :: Validate(kit, steps, s, s, v) == Some(false)
  }

  // ----- a verdict does not depend on the number of steps -----

  /** `b` repeats every verdict of `a`. */
  ghost predicate Refines(a: Judge, b: Judge) {
    forall t, w :: a(t, w).Some? ==> b(t, w) == a(t, w)
  }

  lemma CombinedStable(f: map<string, Json>, v: Json, a: Judge, b: Judge)
    requires Refines(a, b) && Combined(f, v, a).Some?
    ensures Combined(f, v, b) == Combined(f, v, a)
  {
    JudgedStable(ItemsAt(f, "allOf"), v, a, b);
    JudgedStable(ItemsAt(f, "anyOf"), v, a, b);
    JudgedStable(ItemsAt(f, "oneOf"), v, a, b);
    hide ItemsAt, Refines, Judged;
  }

  lemma JudgedStable(items: seq<Json>, v: Json, a: Judge, b: Judge)
    requires Refines(a, b)
    ensures None !in Judged(items, v, a) ==> Judged(items, v, b) == Judged(items, v, a)
  {
    if None !in Judged(items, v, a) {
      forall i | 0 <= i < |items| ensures b(items[i], v) == a(items[i], v) {
        assert Judged(items, v, a)[i] == a(items[i], v);
      }
    }
  }

  lemma ArrayRulesStable(f: map<string, Json>, elems: seq<Json>, a: Judge, b: Judge)
    requires Refines(a, b) && ArrayRules(f, elems, a).Some?
    ensures ArrayRules(f, elems, b) == ArrayRules(f, elems, a)
  {
    hide ElementSchema;
    forall i: nat | i < |elems| ensures JudgeElement(f, i, elems[i], b) == JudgeElement(f, i, elems[i], a) {
      assert JudgeElement(f, i, elems[i], a).Some?;
    }
    if "contains" in f {
      forall i | 0 <= i < |elems| ensures b(f["contains"], elems[i]) == a(f["contains"], elems[i]) {
        assert a(f["contains"], elems[i]).Some?;
      }
    }
  }

  lemma PropertyRulesStable(kit: Kit, f: map<string, Json>, fields: map<string, Json>, a: Judge, b: Judge)
    requires Refines(a, b) && PropertyRules(kit, f, fields, a).Some?
    ensures PropertyRules(kit, f, fields, b) == PropertyRules(kit, f, fields, a)
  {
    hide FieldsAt;
    var named, patterns := FieldsAt(f, "properties"), FieldsAt(f, "patternProperties");
    assert forall n :: n in named && n in fields ==> b(named[n], fields[n]) == a(named[n], fields[n]);
    assert forall p, n :: p in patterns && n in fields && kit.matches(p, n) ==> b(patterns[p], fields[n]) == a(patterns[p], fields[n]);
  }

  lemma ObjectRulesStable(kit: Kit, f: map<string, Json>, fields: map<string, Json>, a: Judge, b: Judge)
    requires Refines(a, b) && ObjectRules(kit, f, fields, a).Some?
    ensures ObjectRules(kit, f, fields, b) == ObjectRules(kit, f, fields, a)
  {
    hide FieldsAt, PropertyRules;
    PropertyRulesStable(kit, f, fields, a, b);
    var dependent := FieldsAt(f, "dependentSchemas");
    assert forall n :: n in dependent && n in fields ==> b(dependent[n], JObject(fields)) == a(dependent[n], JObject(fields));
  }

  lemma AppliedStable(kit: Kit, f: map<string, Json>, v: Json, a: Judge, b: Judge)
    requires Refines(a, b) && Applied(kit, f, v, a).Some?
    ensures Applied(kit, f, v, b) == Applied(kit, f, v, a)
  {
    hide Combined, ArrayRules, ObjectRules;
    CombinedStable(f, v, a, b);
    if v.JArray? {
      ArrayRulesStable(f, v.items, a, b);
    } else if v.JObject? {
      ObjectRulesStable(kit, f, v.fields, a, b);
    }
  }

  /** A verdict once reached stays the same with more steps. */
  lemma {:induction false} VerdictStable(kit: Kit, steps: nat, more: nat, root: Json, s: Json, v: Json)
    requires steps <= more && Validate(kit, steps, root, s, v).Some?
    ensures Validate(kit, more, root, s, v) == Validate(kit, steps, root, s, v)
    decreases steps
  {
    hide Applied, AssertionsHold;
    if s.JObject? {
      var a := (t: Json, w: Json) => Validate(kit, steps - 1, root, t, w);
      var b := (t: Json, w: Json) => Validate(kit, more - 1, root, t, w);
      forall t, w | a(t, w).Some? ensures b(t, w) == a(t, w) {
        VerdictStable(kit, steps - 1, more - 1, root, t, w);
      }
      assert Refines(a, b);
      AppliedStable(kit, s.fields, v, a, b);
    }
  }

  /** No value is both accepted and rejected; it is neither if a reference leads nowhere
      or never ends. */
  lemma NeverBoth(kit: Kit, s: Json, v: Json)
    requires Rejects(kit, s, v)
    ensures !Accepts(kit, s, v)
  {
    hide Validate;
    var m: nat :| Validate(kit, m, s, s, v) == Some(false);
    if Accepts(kit, s, v) {
      var n: nat :| Validate(kit, n, s, s, v) == Some(true);
      var most := if m <= n then n else m;
      VerdictStable(kit, m, most, s, s, v);
      VerdictStable(kit, n, most, s, s, v);
    }
  }

  // ----- what has to hold for the meaning to be kept -----

  /** The strings of a list. */
  ghost predicate Lists(names: Json, name: string) {
    names.JArray? && exists i :: 0 <= i < |names.items| && names.items[i] == JString(name)
  }

  /** Dropping the documentation-named properties loses nothing: such a property
      requires at most itself. */
  ghost predicate DependenciesKept(deps: Json) {
    deps.JObject? ==> forall n, other :: n in deps.fields && n in DOC_KEYS && Lists(deps.fields[n], other) ==> other == n
  }

  /** No reference and no `dependentRequired` anywhere below. */
  ghost predicate Plain(v: Json)
    decreases v
  {
    match v
    case JArray(items) => forall i :: 0 <= i < |items| ==> Plain(items[i])
    case JObject(fields) => forall k :: k in fields ==> k != "$ref" && k != "dependentRequired" && Plain(fields[k])
    case _ => true
  }

  /** A reference that resolves leads to a schema; or to data or a map of schemas that
      canonicalization treats as it would treat a schema, with no reference inside. It
      never leads through documentation. */
  ghost predicate ReferenceKept(kit: Kit, root: Json, text: string) {
    var target, end := Resolve(kit.index, root, kit.pointer(text)), Destination(kit.index, SchemaPlace, root, kit.pointer(text));
    target.Some? ==>
      && end.Some?
      && (end == Some(SchemaPlace) || (View(end.value, target.value) == Canon(target.value) && Plain(target.value)))
  }

  ghost predicate LocallyKept(kit: Kit, root: Json, s: Json) {
    s.JObject? ==>
      && ("$ref" in s.fields && s.fields["$ref"].JString? ==> ReferenceKept(kit, root, s.fields["$ref"].text))
      && ("dependentRequired" in s.fields ==> DependenciesKept(s.fields["dependentRequired"]))
  }

  /** Every schema at or below a value at a place is locally kept. */
  ghost predicate Kept(kit: Kit, root: Json, place: Place, v: Json)
    decreases v
  {
    && (place == SchemaPlace ==> LocallyKept(kit, root, v))
    && (place == MapPlace ==> v.JObject?)
    && match v
       case JArray(items) => forall i :: 0 <= i < |items| ==> Kept(kit, root, if place == DataPlace then DataPlace else SchemaPlace, items[i])
       case JObject(fields) =>
         forall k :: k in fields && Step(place, v, k).Some? ==> Kept(kit, root, Step(place, v, k).value, fields[k])
       case _ => true
  }

  lemma {:induction false} PlainIsKept(kit: Kit, root: Json, place: Place, v: Json)
    requires Plain(v) && (place == MapPlace ==> v.JObject?)
    ensures Kept(kit, root, place, v)
    decreases v
  {
    match v
    case JArray(items) =>
      forall i | 0 <= i < |items| ensures Kept(kit, root, if place == DataPlace then DataPlace else SchemaPlace, items[i]) {
        PlainIsKept(kit, root, if place == DataPlace then DataPlace else SchemaPlace, items[i]);
      }
    case JObject(fields) =>
      forall k | k in fields && Step(place, v, k).Some? ensures Kept(kit, root, Step(place, v, k).value, fields[k]) {
        PlainIsKept(kit, root, Step(place, v, k).value, fields[k]);
      }
    case _ =>
  }

  lemma KeptChild(kit: Kit, root: Json, place: Place, v: Json, token: string)
    requires Kept(kit, root, place, v) && Step(place, v, token).Some? && Child(kit.index, v, token).Some?
    ensures Kept(kit, root, Step(place, v, token).value, Child(kit.index, v, token).value)
  {
  }

  /** Wherever a path ends, what is there is kept too. */
  lemma {:induction false} KeptAlong(kit: Kit, root: Json, place: Place, v: Json, path: seq<string>)
    requires Kept(kit, root, place, v)
    requires Destination(kit.index, place, v, path).Some? && Resolve(kit.index, v, path).Some?
    ensures Kept(kit, root, Destination(kit.index, place, v, path).value, Resolve(kit.index, v, path).value)
    decreases |path|
  {
    hide Kept, Step, Child;
    if path != [] {
      KeptChild(kit, root, place, v, path[0]);
      KeptAlong(kit, root, Step(place, v, path[0]).value, Child(kit.index, v, path[0]).value, path[1..]);
    }
  }

  // ----- assertions are kept -----

  /** A field that is neither a schema map nor data. */
  lemma PlainField(s: Json, key: string)
    requires s.JObject? && key !in DOC_KEYS + MAP_KEYS + DATA_KEYS
    ensures key in Canon(s).fields <==> key in s.fields
    ensures key in s.fields ==> Canon(s).fields[key] == Canon(s.fields[key])
  {
    CanonFields(s, key);
  }

  lemma PlainNumber(s: Json, key: string)
    requires s.JObject? && key !in DOC_KEYS + MAP_KEYS + DATA_KEYS
    ensures NumberAt(Canon(s).fields, key) == NumberAt(s.fields, key)
  {
    PlainField(s, key);
  }

  lemma TypeKept(t: Json, v: Json)
    ensures TypeHolds(Canon(t), v) <==> TypeHolds(t, v)
  {
    CanonKeepsKind(t);
    if t.JArray? {
      forall i | 0 <= i < |t.items| ensures Canon(t).items[i].JString? == t.items[i].JString? {
        CanonKeepsKind(t.items[i]);
      }
      assert forall i :: 0 <= i < |t.items| && t.items[i].JString? ==> Canon(t).items[i] == t.items[i];
    }
  }

  lemma NamesKept(names: Json, fields: map<string, Json>)
    ensures NamesPresent(Canon(names), fields) <==> NamesPresent(names, fields)
  {
    CanonKeepsKind(names);
    if names.JArray? {
      forall i | 0 <= i < |names.items|
        ensures Canon(names).items[i].JString? == names.items[i].JString?
        ensures names.items[i].JString? ==> Canon(names).items[i] == names.items[i]
      {
        CanonKeepsKind(names.items[i]);
      }
    }
  }

  /** All numeric bounds are kept. */
  ghost predicate SameNumbers(f: map<string, Json>, g: map<string, Json>) {
    && NumberAt(g, "minimum") == NumberAt(f, "minimum") && NumberAt(g, "maximum") == NumberAt(f, "maximum")
    && NumberAt(g, "exclusiveMinimum") == NumberAt(f, "exclusiveMinimum")
    && NumberAt(g, "exclusiveMaximum") == NumberAt(f, "exclusiveMaximum")
    && NumberAt(g, "multipleOf") == NumberAt(f, "multipleOf")
    && NumberAt(g, "minLength") == NumberAt(f, "minLength") && NumberAt(g, "maxLength") == NumberAt(f, "maxLength")
    && NumberAt(g, "minItems") == NumberAt(f, "minItems") && NumberAt(g, "maxItems") == NumberAt(f, "maxItems")
    && NumberAt(g, "minProperties") == NumberAt(f, "minProperties") && NumberAt(g, "maxProperties") == NumberAt(f, "maxProperties")
  }

  lemma NumbersKept(s: Json)
    requires s.JObject?
    ensures Canon(s).JObject? && SameNumbers(s.fields, Canon(s).fields)
  {
    hide Canon, NumberAt;
    CanonKeepsKind(s);
    PlainNumber(s, "minimum");
    PlainNumber(s, "maximum");
    PlainNumber(s, "exclusiveMinimum");
    PlainNumber(s, "exclusiveMaximum");
    PlainNumber(s, "multipleOf");
    PlainNumber(s, "minLength");
    PlainNumber(s, "maxLength");
    PlainNumber(s, "minItems");
    PlainNumber(s, "maxItems");
    PlainNumber(s, "minProperties");
    PlainNumber(s, "maxProperties");
  }

  lemma NumberKept(s: Json, n: int)
    requires s.JObject?
    ensures Canon(s).JObject? && (NumberHolds(Canon(s).fields, n) <==> NumberHolds(s.fields, n))
  {
    hide Canon, NumberAt;
    NumbersKept(s);
  }

  lemma TextKept(kit: Kit, s: Json, text: string)
    requires s.JObject?
    ensures Canon(s).JObject? && (TextHolds(kit, Canon(s).fields, text) <==> TextHolds(kit, s.fields, text))
  {
    hide Canon, NumberAt;
    NumbersKept(s);
    ScalarKept(s, "pattern");
  }

  lemma ItemsKept(s: Json, items: seq<Json>)
    requires s.JObject?
    ensures Canon(s).JObject? && (ItemsHold(Canon(s).fields, items) <==> ItemsHold(s.fields, items))
  {
    hide Canon, NumberAt;
    NumbersKept(s);
    ScalarKept(s, "uniqueItems");
  }

  lemma FieldsKept(s: Json, fields: map<string, Json>)
    requires s.JObject?
    ensures Canon(s).JObject? && (FieldsHold(Canon(s).fields, fields) <==> FieldsHold(s.fields, fields))
  {
    hide Canon, NumberAt, NamesPresent;
    NumbersKept(s);
    PlainField(s, "required");
    if "required" in s.fields {
      NamesKept(s.fields["required"], fields);
    }
  }

  lemma SizesKept(kit: Kit, s: Json, v: Json)
    requires s.JObject?
    ensures SizesHold(kit, Canon(s).fields, v) <==> SizesHold(kit, s.fields, v)
  {
    hide Canon, NumberHolds, TextHolds, ItemsHold, FieldsHold;
    match v
    case JInt(n) => NumberKept(s, n);
    case JString(text) => TextKept(kit, s, text);
    case JArray(items) => ItemsKept(s, items);
    case JObject(fields) => FieldsKept(s, fields);
    case _ =>
  }

  lemma ScalarKept(s: Json, key: string)
    requires s.JObject? && key !in DOC_KEYS + MAP_KEYS + DATA_KEYS
    ensures key in Canon(s).fields <==> key in s.fields
    ensures key in s.fields ==> Canon(s).fields[key].JString? == s.fields[key].JString?
    ensures key in s.fields && (s.fields[key].JString? || s.fields[key].JBool?) ==> Canon(s).fields[key] == s.fields[key]
    ensures key in s.fields ==> Canon(s).fields[key].JBool? == s.fields[key].JBool?
  {
    PlainField(s, key);
    if key in s.fields {
      CanonKeepsKind(s.fields[key]);
    }
  }

  /** What becomes of the value of `dependentRequired`. */
  lemma DependencyField(deps: Json, n: string)
    requires deps.JObject?
    ensures n in Canon(deps).fields <==> n in deps.fields && n !in DOC_KEYS
    ensures n in Canon(deps).fields ==>
      forall fields :: NamesPresent(Canon(deps).fields[n], fields) <==> NamesPresent(deps.fields[n], fields)
  {
    CanonFields(deps, n);
    if n in deps.fields && n !in DOC_KEYS {
      forall fields ensures NamesPresent(Canon(deps).fields[n], fields) <==> NamesPresent(deps.fields[n], fields) {
        NamesKept(deps.fields[n], fields);
      }
    }
  }

  lemma DependenciesSame(deps: Json, v: Json)
    requires DependenciesKept(deps)
    ensures DependentRequiredHolds(Canon(deps), v) <==> DependentRequiredHolds(deps, v)
  {
    hide Canon;
    CanonKeepsKind(deps);
    if deps.JObject? && v.JObject? {
      forall n ensures n in Canon(deps).fields <==> n in deps.fields && n !in DOC_KEYS {
        DependencyField(deps, n);
      }
      forall n | n in Canon(deps).fields
        ensures NamesPresent(Canon(deps).fields[n], v.fields) <==> NamesPresent(deps.fields[n], v.fields)
      {
        DependencyField(deps, n);
      }
      forall n | n in deps.fields && n in DOC_KEYS && n in v.fields ensures NamesPresent(deps.fields[n], v.fields) {
        var names := deps.fields[n];
        if names.JArray? {
          forall i | 0 <= i < |names.items| && names.items[i].JString? ensures names.items[i].text in v.fields {
            assert Lists(names, names.items[i].text);
          }
        }
      }
    }
  }

  /** The exact condition for `dependentRequired` on its own: canonicalization keeps its
      verdict on every value exactly if each documentation-named property requires at
      most itself. */
  lemma DependentRequiredExactly(deps: Json)
    ensures (forall v :: DependentRequiredHolds(Canon(deps), v) <==> DependentRequiredHolds(deps, v)) <==> DependenciesKept(deps)
  {
    if DependenciesKept(deps) {
      forall v ensures DependentRequiredHolds(Canon(deps), v) <==> DependentRequiredHolds(deps, v) {
        DependenciesSame(deps, v);
      }
    } else {
      var n, other :| n in deps.fields && n in DOC_KEYS && Lists(deps.fields[n], other) && other != n;
      var v := JObject(map[n := JNull]);
      CanonKeepsKind(deps);
      DependencyField(deps, n);
      assert DependentRequiredHolds(Canon(deps), v);
      assert !NamesPresent(deps.fields[n], v.fields);
      assert !DependentRequiredHolds(deps, v);
    }
  }

  lemma AssertionsKept(kit: Kit, s: Json, v: Json)
    requires s.JObject? && ("dependentRequired" in s.fields ==> DependenciesKept(s.fields["dependentRequired"]))
    ensures AssertionsHold(kit, Canon(s).fields, v) <==> AssertionsHold(kit, s.fields, v)
  {
    hide Canon, SizesHold, TypeHolds, DependentRequiredHolds, DependenciesKept;
    SizesKept(kit, s, v);
    PlainField(s, "type");
    if "type" in s.fields {
      TypeKept(s.fields["type"], v);
    }
    PlainField(s, "dependentRequired");
    if "dependentRequired" in s.fields {
      DependenciesSame(s.fields["dependentRequired"], v);
    }
    CanonFields(s, "enum");
    CanonFields(s, "const");
  }

  // ----- applicators are kept -----

  /** `after` judges canonical subschemas as `before` judges the original ones. */
  ghost predicate Agree(kit: Kit, root: Json, before: Judge, after: Judge) {
    forall t, w :: Kept(kit, root, SchemaPlace, t) ==> after(Canon(t), w) == before(t, w)
  }

  lemma KeptField(kit: Kit, root: Json, s: Json, key: string)
    requires s.JObject? && Kept(kit, root, SchemaPlace, s) && key in s.fields && key !in DOC_KEYS + DATA_KEYS
    ensures !(key in MAP_KEYS && s.fields[key].JObject?) ==> Kept(kit, root, SchemaPlace, s.fields[key])
    ensures key in MAP_KEYS && s.fields[key].JObject? ==>
      forall n :: n in s.fields[key].fields ==> Kept(kit, root, SchemaPlace, s.fields[key].fields[n])
  {
    assert Step(SchemaPlace, s, key).Some?;
    if key in MAP_KEYS && s.fields[key].JObject? {
      assert Kept(kit, root, MapPlace, s.fields[key]);
      assert forall n :: n in s.fields[key].fields ==> Step(MapPlace, s.fields[key], n) == Some(SchemaPlace);
    }
  }

  lemma KeptItems(kit: Kit, root: Json, s: Json, key: string)
    requires s.JObject? && Kept(kit, root, SchemaPlace, s) && key !in DOC_KEYS + DATA_KEYS + MAP_KEYS
    ensures |ItemsAt(Canon(s).fields, key)| == |ItemsAt(s.fields, key)|
    ensures forall i :: 0 <= i < |ItemsAt(s.fields, key)| ==>
      ItemsAt(Canon(s).fields, key)[i] == Canon(ItemsAt(s.fields, key)[i]) && Kept(kit, root, SchemaPlace, ItemsAt(s.fields, key)[i])
  {
    hide Canon;
    PlainField(s, key);
    if key in s.fields {
      CanonKeepsKind(s.fields[key]);
      KeptField(kit, root, s, key);
    }
  }

  lemma CombinedKept(kit: Kit, root: Json, s: Json, v: Json, before: Judge, after: Judge)
    requires s.JObject? && Kept(kit, root, SchemaPlace, s) && Agree(kit, root, before, after)
    ensures Combined(Canon(s).fields, v, after) == Combined(s.fields, v, before)
  {
    hide Canon, Kept, AllOf, AnyOf, OneOf;
    JudgedTheSame(kit, root, s, "allOf", v, before, after);
    JudgedTheSame(kit, root, s, "anyOf", v, before, after);
    JudgedTheSame(kit, root, s, "oneOf", v, before, after);
  }

  lemma JudgedTheSame(kit: Kit, root: Json, s: Json, key: string, v: Json, before: Judge, after: Judge)
    requires s.JObject? && Kept(kit, root, SchemaPlace, s) && key !in DOC_KEYS + DATA_KEYS + MAP_KEYS
    requires Agree(kit, root, before, after)
    ensures Canon(s).JObject? && |ItemsAt(Canon(s).fields, key)| == |ItemsAt(s.fields, key)|
    ensures Judged(ItemsAt(Canon(s).fields, key), v, after) == Judged(ItemsAt(s.fields, key), v, before)
  {
    hide Canon, Kept, ItemsAt;
    CanonKeepsKind(s);
    KeptItems(kit, root, s, key);
  }

  /** A keyword whose value is one schema. */
  lemma SchemaField(kit: Kit, root: Json, s: Json, key: string, before: Judge, after: Judge)
    requires s.JObject? && Kept(kit, root, SchemaPlace, s) && key !in DOC_KEYS + DATA_KEYS + MAP_KEYS
    requires Agree(kit, root, before, after)
    ensures key in Canon(s).fields <==> key in s.fields
    ensures key in s.fields ==> forall w :: after(Canon(s).fields[key], w) == before(s.fields[key], w)
  {
    hide Canon, Kept;
    PlainField(s, key);
    if key in s.fields {
      KeptField(kit, root, s, key);
    }
  }

  lemma ConditionalKept(kit: Kit, root: Json, s: Json, v: Json, before: Judge, after: Judge)
    requires s.JObject? && Kept(kit, root, SchemaPlace, s) && Agree(kit, root, before, after)
    ensures Conditional(Canon(s).fields, v, after) == Conditional(s.fields, v, before)
  {
    hide Canon, Kept, Agree;
    SchemaField(kit, root, s, "not", before, after);
    SchemaField(kit, root, s, "if", before, after);
    SchemaField(kit, root, s, "then", before, after);
    SchemaField(kit, root, s, "else", before, after);
  }

  lemma ElementsKept(kit: Kit, root: Json, s: Json, elems: seq<Json>, before: Judge, after: Judge)
    requires s.JObject? && Kept(kit, root, SchemaPlace, s) && Agree(kit, root, before, after)
    ensures Elements(Canon(s).fields, elems, after) == Elements(s.fields, elems, before)
  {
    forall i: nat | i < |elems|
      ensures JudgeElement(Canon(s).fields, i, elems[i], after) == JudgeElement(s.fields, i, elems[i], before)
    {
      ElementKept(kit, root, s, i, elems[i], before, after);
    }
  }

  lemma ElementKept(kit: Kit, root: Json, s: Json, i: nat, w: Json, before: Judge, after: Judge)
    requires s.JObject? && Kept(kit, root, SchemaPlace, s) && Agree(kit, root, before, after)
    ensures JudgeElement(Canon(s).fields, i, w, after) == JudgeElement(s.fields, i, w, before)
  {
    hide Canon, Kept, ItemsAt;
    KeptItems(kit, root, s, "prefixItems");
    SchemaField(kit, root, s, "items", before, after);
  }

  lemma ArrayRulesKept(kit: Kit, root: Json, s: Json, elems: seq<Json>, before: Judge, after: Judge)
    requires s.JObject? && Kept(kit, root, SchemaPlace, s) && Agree(kit, root, before, after)
    ensures ArrayRules(Canon(s).fields, elems, after) == ArrayRules(s.fields, elems, before)
  {
    hide Canon, Kept, Agree, Elements;
    ElementsKept(kit, root, s, elems, before, after);
    SchemaField(kit, root, s, "contains", before, after);
  }

  /** A keyword whose value is a map of schemas. */
  lemma MapField(kit: Kit, root: Json, s: Json, key: string, before: Judge, after: Judge)
    requires s.JObject? && Kept(kit, root, SchemaPlace, s) && key in MAP_KEYS && Agree(kit, root, before, after)
    ensures FieldsAt(Canon(s).fields, key).Keys == FieldsAt(s.fields, key).Keys
    ensures forall n, w :: n in FieldsAt(s.fields, key) ==>
      after(FieldsAt(Canon(s).fields, key)[n], w) == before(FieldsAt(s.fields, key)[n], w)
  {
    hide Canon, Kept;
    CanonFields(s, key);
    if key in s.fields {
      CanonKeepsKind(s.fields[key]);
      KeptField(kit, root, s, key);
    }
  }

  lemma PropertyRulesKept(kit: Kit, root: Json, s: Json, fields: map<string, Json>, before: Judge, after: Judge)
    requires s.JObject? && Kept(kit, root, SchemaPlace, s) && Agree(kit, root, before, after)
    ensures PropertyRules(kit, Canon(s).fields, fields, after) == PropertyRules(kit, s.fields, fields, before)
  {
    hide Canon, Kept, Agree, FieldsAt;
    MapField(kit, root, s, "properties", before, after);
    MapField(kit, root, s, "patternProperties", before, after);
    SchemaField(kit, root, s, "additionalProperties", before, after);
  }

  lemma ObjectRulesKept(kit: Kit, root: Json, s: Json, fields: map<string, Json>, before: Judge, after: Judge)
    requires s.JObject? && Kept(kit, root, SchemaPlace, s) && Agree(kit, root, before, after)
    ensures ObjectRules(kit, Canon(s).fields, fields, after) == ObjectRules(kit, s.fields, fields, before)
  {
    hide Canon, Kept, Agree, FieldsAt, PropertyRules;
    PropertyRulesKept(kit, root, s, fields, before, after);
    MapField(kit, root, s, "dependentSchemas", before, after);
    SchemaField(kit, root, s, "propertyNames", before, after);
  }

  lemma AppliedKept(kit: Kit, root: Json, s: Json, v: Json, before: Judge, after: Judge)
    requires s.JObject? && Kept(kit, root, SchemaPlace, s) && Agree(kit, root, before, after)
    ensures Applied(kit, Canon(s).fields, v, after) == Applied(kit, s.fields, v, before)
  {
    hide Canon, Kept, Agree, Combined, Conditional, ArrayRules, ObjectRules;
    CombinedKept(kit, root, s, v, before, after);
    ConditionalKept(kit, root, s, v, before, after);
    if v.JArray? {
      ArrayRulesKept(kit, root, s, v.items, before, after);
    } else if v.JObject? {
      ObjectRulesKept(kit, root, s, v.fields, before, after);
    }
  }

  lemma ReferencedKept(kit: Kit, root: Json, s: Json, v: Json, before: Judge, after: Judge)
    requires s.JObject? && Kept(kit, root, SchemaPlace, s) && Kept(kit, root, SchemaPlace, root)
    requires Agree(kit, root, before, after)
    ensures Referenced(kit, Canon(root), Canon(s).fields, v, after) == Referenced(kit, root, s.fields, v, before)
  {
    assert LocallyKept(kit, root, s);
    ScalarKept(s, "$ref");
    if "$ref" in s.fields && s.fields["$ref"].JString? {
      var path := kit.pointer(s.fields["$ref"].text);
      PathExactly(kit.index, SchemaPlace, root, path);
      var target, end := Resolve(kit.index, root, path), Destination(kit.index, SchemaPlace, root, path);
      if target.Some? && end == Some(SchemaPlace) {
        KeptAlong(kit, root, SchemaPlace, root, path);
      } else if target.Some? {
        PlainIsKept(kit, root, SchemaPlace, target.value);
      }
    }
  }

  // ----- the meaning is kept -----

  /** For every schema, value and number of steps: the schema and its canonical form
      give the same verdict, whenever every reference leads to a schema and no
      documentation-named property requires another one. */
  lemma {:induction false} MeaningPreserved(kit: Kit, steps: nat, root: Json, s: Json, v: Json)
    requires Kept(kit, root, SchemaPlace, root) && Kept(kit, root, SchemaPlace, s)
    ensures Validate(kit, steps, Canon(root), Canon(s), v) == Validate(kit, steps, root, s, v)
    decreases steps
  {
    hide Canon, Kept, Applied, Referenced, AssertionsHold;
    CanonKeepsKind(s);
    if steps > 0 && s.JObject? {
      var before := (t: Json, w: Json) => Validate(kit, steps - 1, root, t, w);
      var after := (t: Json, w: Json) => Validate(kit, steps - 1, Canon(root), t, w);
      forall t, w | Kept(kit, root, SchemaPlace, t) ensures after(Canon(t), w) == before(t, w) {
        MeaningPreserved(kit, steps - 1, root, t, w);
      }
      assert Agree(kit, root, before, after);
      KeptDependencies(kit, root, s);
      AssertionsKept(kit, s, v);
      ReferencedKept(kit, root, s, v, before, after);
      AppliedKept(kit, root, s, v, before, after);
    }
  }

  lemma KeptDependencies(kit: Kit, root: Json, s: Json)
    requires s.JObject? && Kept(kit, root, SchemaPlace, s)
    ensures "dependentRequired" in s.fields ==> DependenciesKept(s.fields["dependentRequired"])
  {
  }

  /** A whole document and its canonical form accept and reject the same values. */
  lemma AcceptsTheSame(kit: Kit, s: Json, v: Json)
    requires Kept(kit, s, SchemaPlace, s)
    ensures Accepts(kit, Canon(s), v) <==> Accepts(kit, s, v)
    ensures Rejects(kit, Canon(s), v) <==> Rejects(kit, s, v)
  {
    forall steps: nat ensures Validate(kit, steps, Canon(s), Canon(s), v) == Validate(kit, steps, s, s, v) {
      MeaningPreserved(kit, steps, s, s, v);
    }
  }

  /** Without references and `dependentRequired` there is no condition at all. */
  lemma PlainAcceptsTheSame(kit: Kit, s: Json, v: Json)
    requires Plain(s)
    ensures Accepts(kit, Canon(s), v) <==> Accepts(kit, s, v)
    ensures Rejects(kit, Canon(s), v) <==> Rejects(kit, s, v)
  {
    PlainIsKept(kit, s, SchemaPlace, s);
    AcceptsTheSame(kit, s, v);
  }

  // ----- documents whose meaning changes -----

  /** None of the keywords that take schemas is there. */
  ghost predicate NoApplicators(f: map<string, Json>) {
    f.Keys <= {"$ref", "description", "dependentRequired"}
  }

  lemma NoArrayRules(f: map<string, Json>, elems: seq<Json>, judge: Judge)
    requires NoApplicators(f)
    ensures ArrayRules(f, elems, judge) == YES
  {
    assert ItemsAt(f, "prefixItems") == [];
    assert forall i: nat :: i < |elems| ==> JudgeElement(f, i, elems[i], judge) == YES;
  }

  lemma NoObjectRules(kit: Kit, f: map<string, Json>, fields: map<string, Json>, judge: Judge)
    requires NoApplicators(f)
    ensures ObjectRules(kit, f, fields, judge) == YES
  {
    assert FieldsAt(f, "properties") == FieldsAt(f, "patternProperties") == FieldsAt(f, "dependentSchemas") == map[];
    assert PropertyRules(kit, f, fields, judge) == YES;
  }

  lemma NothingCombined(f: map<string, Json>, v: Json, judge: Judge)
    requires NoApplicators(f)
    ensures Combined(f, v, judge) == YES && Conditional(f, v, judge) == YES
  {
    assert ItemsAt(f, "allOf") == ItemsAt(f, "anyOf") == ItemsAt(f, "oneOf") == [];
  }

  /** A schema without applicators says nothing beyond its assertions and reference. */
  lemma NothingApplied(kit: Kit, f: map<string, Json>, v: Json, judge: Judge)
    requires NoApplicators(f)
    ensures Applied(kit, f, v, judge) == YES
  {
    hide NoApplicators, Combined, Conditional, ArrayRules, ObjectRules;
    NothingCombined(f, v, judge);
    match v
    case JArray(elems) => NoArrayRules(f, elems, judge);
    case JObject(fields) => NoObjectRules(kit, f, fields, judge);
    case _ =>
  }

  /** Such a schema on its own, without a reference. */
  lemma AssertedOnly(kit: Kit, s: Json, v: Json)
    requires s.JObject? && s.fields.Keys <= {"dependentRequired"}
    ensures if AssertionsHold(kit, s.fields, v) then Accepts(kit, s, v) else Rejects(kit, s, v)
  {
    hide Applied, AssertionsHold;
    var judge := (t: Json, w: Json) => Validate(kit, 0, s, t, w);
    NothingApplied(kit, s.fields, v, judge);
    assert Validate(kit, 1, s, s, v) == Some(AssertionsHold(kit, s.fields, v));
  }

  /** The schema that asks for an author wherever there is a title stops asking: a title
      alone is refused by the schema and accepted by its canonical form. */
  lemma DependencyLost(kit: Kit)
    ensures var s := JObject(map["dependentRequired" := JObject(map["title" := JArray([JString("author")])])]);
      var v := JObject(map["title" := JNull]);
      Rejects(kit, s, v) && !Accepts(kit, s, v) && Accepts(kit, Canon(s), v)
  {
    hide Canon, Accepts, AssertionsHold;
    var names := JArray([JString("author")]);
    var s, v := JObject(map["dependentRequired" := JObject(map["title" := names])]), JObject(map["title" := JNull]);
    NothingRequired(s);
    TitleAlone(kit, v);
    AssertedOnly(kit, s, v);
    NeverBoth(kit, s, v);
    AssertedOnly(kit, Canon(s), v);
  }

  lemma NothingRequired(s: Json)
    requires s == JObject(map["dependentRequired" := JObject(map["title" := JArray([JString("author")])])])
    ensures Canon(s) == JObject(map["dependentRequired" := JObject(map[])])
  {
    var deps := s.fields["dependentRequired"];
    assert Canon(deps).fields == map[];
    assert CanonField(s, "dependentRequired") == Canon(deps);
    assert Canon(s).fields == map["dependentRequired" := Canon(deps)];
  }

  lemma TitleAlone(kit: Kit, v: Json)
    requires v == JObject(map["title" := JNull])
    ensures AssertionsHold(kit, map["dependentRequired" := JObject(map[])], v)
    ensures !AssertionsHold(kit, map["dependentRequired" := JObject(map["title" := JArray([JString("author")])])], v)
  {
    hide NamesPresent;
    AuthorMissing();
    var deps := JObject(map["title" := JArray([JString("author")])]);
    assert "title" in deps.fields && "title" in v.fields;
    assert !DependentRequiredHolds(deps, v);
  }

  lemma AuthorMissing()
    ensures !NamesPresent(JArray([JString("author")]), map["title" := JNull])
  {
    var names := JArray([JString("author")]);
    assert names.items[0].JString? && names.items[0].text == "author";
  }

  /** A reference into documentation leads nowhere in the canonical form, so the
      canonical schema never reaches a verdict. */
  lemma ReferenceLost(kit: Kit, root: Json, text: string, steps: nat, v: Json)
    requires Destination(kit.index, SchemaPlace, root, kit.pointer(text)).None?
    ensures Validate(kit, steps, Canon(root), JObject(map["$ref" := JString(text)]), v).None?
  {
    PathExactly(kit.index, SchemaPlace, root, kit.pointer(text));
  }

  /** A document that refers to its own description: it accepts every value, and its
      canonical form accepts none. */
  lemma ReferenceLostEverywhere(kit: Kit, v: Json)
    requires kit.pointer("#/description") == ["description"]
    ensures var s := JObject(map["description" := JBool(true), "$ref" := JString("#/description")]);
      Accepts(kit, s, v) && !Accepts(kit, Canon(s), v)
  {
    hide Canon, Validate;
    var s := JObject(map["description" := JBool(true), "$ref" := JString("#/description")]);
    ReferenceHolds(kit, s, v);
    OnlyTheReference(s);
    forall steps: nat ensures Validate(kit, steps, Canon(s), Canon(s), v).None? {
      ReferenceLost(kit, s, "#/description", steps, v);
    }
  }

  lemma ReferenceHolds(kit: Kit, s: Json, v: Json)
    requires kit.pointer("#/description") == ["description"]
    requires s == JObject(map["description" := JBool(true), "$ref" := JString("#/description")])
    ensures Validate(kit, 2, s, s, v) == Some(true)
  {
    hide Applied, AssertionsHold;
    var judge := (t: Json, w: Json) => Validate(kit, 1, s, t, w);
    NothingApplied(kit, s.fields, v, judge);
    NothingAsserted(kit, s.fields, v);
    assert Resolve(kit.index, s, ["description"]) == Some(JBool(true));
    assert judge(JBool(true), v) == YES;
    assert Referenced(kit, s, s.fields, v, judge) == YES;
  }

  lemma NothingAsserted(kit: Kit, f: map<string, Json>, v: Json)
    requires f.Keys <= {"$ref", "description"}
    ensures AssertionsHold(kit, f, v)
  {
  }

  lemma OnlyTheReference(s: Json)
    requires s == JObject(map["description" := JBool(true), "$ref" := JString("#/description")])
    ensures Canon(s) == JObject(map["$ref" := JString("#/description")])
  {
    assert Canon(s).fields == map["$ref" := JString("#/description")];
  }
}
