/** Canonical JSON Schema: documentation keywords are dropped, names in schema maps and
    data values are kept. */
module SchemaCanonicalization {
  import opened Wrappers
  import opened Json

  const DOC_KEYS: set<string> := {"title", "description", "examples", "$comment"}
  const MAP_KEYS: set<string> := {"$defs", "definitions", "properties", "patternProperties", "dependentSchemas"}
  const DATA_KEYS: set<string> := {"const", "default", "enum"}

  function Canon(v: Json): Json
    decreases v, 1
  {
    match v
    case JArray(items) => JArray(seq(|items|, i requires 0 <= i < |items| => Canon(items[i])))
    case JObject(fields) => JObject(map k | k in fields && k !in DOC_KEYS :: CanonField(v, k))
    case _ => v
  }

  /** The value under one kept key. */
  function CanonField(v: Json, key: string): Json
    requires v.JObject? && key in v.fields
    decreases v, 0
  {
    var item := v.fields[key];
    if key in MAP_KEYS && item.JObject? then JObject(map name | name in item.fields :: Canon(item.fields[name]))
    else if key in DATA_KEYS then item
    else Canon(item)
  }

  /** A map of schemas: every name is kept. */
  function CanonMap(v: Json): Json
    requires v.JObject?
  {
    JObject(map name | name in v.fields :: Canon(v.fields[name]))
  }

  // ----- the recursive procedure -----

  method CanonicalizeSchemaValue(v: Json) returns (r: Json)
    ensures r == Canon(v)
    decreases v
  {
    if v.JArray? {
      var items: seq<Json> := [];
      for i := 0 to |v.items|
        invariant |items| == i && forall j :: 0 <= j < i ==> items[j] == Canon(v.items[j])
      {
        var item := CanonicalizeSchemaValue(v.items[i]);
        items := items + [item];
      }
      r := JArray(items);
    } else if !v.JObject? {
      r := v;
    } else {
      var canonical: map<string, Json> := map[];
      var rest := v.fields.Keys;
      while rest != {}
        invariant rest <= v.fields.Keys
        invariant forall k :: k in canonical <==> k in v.fields.Keys - rest && k !in DOC_KEYS
        invariant forall k :: k in canonical ==> canonical[k] == CanonField(v, k)
        decreases |rest|
      {
        var key :| key in rest;
        rest := rest - {key};
        if key !in DOC_KEYS {
          var item := v.fields[key];
          if key in MAP_KEYS && item.JObject? {
            var children := CanonicalizeChildren(item);
            canonical := canonical[key := children];
          } else if key in DATA_KEYS {
            canonical := canonical[key := item];
          } else {
            var value := CanonicalizeSchemaValue(item);
            canonical := canonical[key := value];
          }
        }
      }
      r := JObject(canonical);
    }
  }

  method CanonicalizeChildren(v: Json) returns (r: Json)
    requires v.JObject?
    ensures r == CanonMap(v)
    decreases v
  {
    var children: map<string, Json> := map[];
    var rest := v.fields.Keys;
    while rest != {}
      invariant rest <= v.fields.Keys && children.Keys == v.fields.Keys - rest
      invariant forall k :: k in children ==> children[k] == Canon(v.fields[k])
      decreases |rest|
    {
      var name :| name in rest;
      rest := rest - {name};
      var child := CanonicalizeSchemaValue(v.fields[name]);
      children := children[name := child];
    }
    r := JObject(children);
  }

  // ----- basic facts -----

  lemma CanonKeepsKind(v: Json)
    ensures Canon(v).JObject? == v.JObject? && Canon(v).JArray? == v.JArray?
    ensures !v.JObject? && !v.JArray? ==> Canon(v) == v
    ensures v.JArray? ==> |Canon(v).items| == |v.items| && forall i :: 0 <= i < |v.items| ==> Canon(v).items[i] == Canon(v.items[i])
  {
  }

  lemma CanonFields(v: Json, key: string)
    requires v.JObject?
    ensures key in Canon(v).fields <==> key in v.fields && key !in DOC_KEYS
    ensures key in Canon(v).fields ==> Canon(v).fields[key] == CanonField(v, key)
  {
  }

  /** Canonicalizing twice is canonicalizing once, on every JSON value. */
  lemma {:induction false} CanonIdempotent(v: Json)
    ensures Canon(Canon(v)) == Canon(v)
    decreases v, 1
  {
    match v
    case JArray(items) =>
      forall i | 0 <= i < |items| ensures Canon(Canon(items[i])) == Canon(items[i]) {
        CanonIdempotent(items[i]);
      }
    case JObject(fields) =>
      var w := Canon(v);
      forall k | k in fields && k !in DOC_KEYS ensures CanonField(w, k) == CanonField(v, k) {
        FieldIdempotent(v, k);
      }
      assert Canon(w).fields == w.fields;
    case _ =>
  }

  lemma {:induction false} FieldIdempotent(v: Json, key: string)
    requires v.JObject? && key in v.fields && key !in DOC_KEYS
    ensures key in Canon(v).fields && CanonField(Canon(v), key) == CanonField(v, key)
    decreases v, 0
  {
    CanonFields(v, key);
    var item := v.fields[key];
    if key in MAP_KEYS && item.JObject? {
      forall name | name in item.fields ensures Canon(Canon(item.fields[name])) == Canon(item.fields[name]) {
        CanonIdempotent(item.fields[name]);
      }
      assert CanonMap(CanonMap(item)) == CanonMap(item);
    } else if key !in DATA_KEYS {
      CanonIdempotent(item);
      CanonKeepsKind(item);
    }
  }

  // ----- what is dropped and what is kept -----

  /** `w` is the schema `v` without its documentation: of every object in a schema's place
      the four documentation keywords are gone and every other keyword is there; constants,
      defaults and enumerations are the same values; maps of schemas have the same names,
      whatever the names are. */
  ghost predicate Undocumented(v: Json, w: Json)
    decreases v, 1
  {
    match v
    case JArray(items) => w.JArray? && |w.items| == |items| && forall i :: 0 <= i < |items| ==> Undocumented(items[i], w.items[i])
    case JObject(fields) =>
      && w.JObject?
      && (forall k :: k in w.fields <==>
            k in fields && k != "title" && k != "description" && k != "examples" && k != "$comment")
      && forall k :: k in w.fields && k in fields ==> UndocumentedField(v, k, w.fields[k])
    case _ => w == v
  }

  ghost predicate UndocumentedField(v: Json, key: string, w: Json)
    requires v.JObject? && key in v.fields
    decreases v, 0
  {
    var item := v.fields[key];
    if key == "const" || key == "default" || key == "enum" then w == item
    else if item.JObject? && (key == "$defs" || key == "definitions" || key == "properties"
                              || key == "patternProperties" || key == "dependentSchemas") then
      w.JObject? && w.fields.Keys == item.fields.Keys
      && forall name :: name in item.fields && name in w.fields ==> Undocumented(item.fields[name], w.fields[name])
    else Undocumented(item, w)
  }

  /** The canonical form is the schema without its documentation, and nothing else is. */
  lemma {:induction false} CanonExactly(v: Json, w: Json)
    ensures Undocumented(v, w) <==> w == Canon(v)
    decreases v, 1
  {
    match v
    case JArray(items) =>
      if w.JArray? && |w.items| == |items| {
        forall i | 0 <= i < |items| ensures Undocumented(items[i], w.items[i]) <==> w.items[i] == Canon(v).items[i] {
          CanonExactly(items[i], w.items[i]);
        }
        assert w.items == Canon(v).items <==> forall i :: 0 <= i < |items| ==> w.items[i] == Canon(v).items[i];
      }
    case JObject(fields) =>
      if w.JObject? && w.fields.Keys == Canon(v).fields.Keys {
        forall k | k in w.fields ensures UndocumentedField(v, k, w.fields[k]) <==> w.fields[k] == Canon(v).fields[k] {
          CanonFieldExactly(v, k, w.fields[k]);
        }
        assert w.fields == Canon(v).fields <==> forall k :: k in w.fields ==> w.fields[k] == Canon(v).fields[k];
      }
      if Undocumented(v, w) {
        assert w.fields.Keys == Canon(v).fields.Keys;
      }
    case _ =>
  }

  lemma {:induction false} CanonFieldExactly(v: Json, key: string, w: Json)
    requires v.JObject? && key in v.fields
    ensures UndocumentedField(v, key, w) <==> w == CanonField(v, key)
    decreases v, 0
  {
    var item := v.fields[key];
    if key in MAP_KEYS && item.JObject? {
      if w.JObject? && w.fields.Keys == item.fields.Keys {
        var c := CanonMap(item).fields;
        forall name | name in item.fields ensures Undocumented(item.fields[name], w.fields[name]) <==> w.fields[name] == c[name] {
          CanonExactly(item.fields[name], w.fields[name]);
        }
        assert w.fields == c <==> forall name :: name in item.fields ==> w.fields[name] == c[name];
      }
    } else if key !in DATA_KEYS {
      CanonExactly(item, w);
    }
  }

  // ----- paths into a schema -----

  /** What a value is, seen from its place: a schema, a map of schemas, or plain data. */
  datatype Place = SchemaPlace | MapPlace | DataPlace

  /** The canonical form of a value at a place. */
  function View(place: Place, v: Json): Json {
    match place
    case SchemaPlace => Canon(v)
    case MapPlace => if v.JObject? then CanonMap(v) else Canon(v)
    case DataPlace => v
  }

  /** Array indices are written in decimal; reading them is left to the caller. */
  type IndexReader = string -> Option<nat>

  function Child(index: IndexReader, v: Json, token: string): Option<Json> {
    match v
    case JObject(fields) => if token in fields then Some(fields[token]) else None
    case JArray(items) =>
      (match index(token)
       case Some(i) => if i < |items| then Some(items[i]) else None
       case None => None)
    case _ => None
  }

  /** Follow a JSON pointer. */
  function Resolve(index: IndexReader, v: Json, path: seq<string>): Option<Json>
    decreases |path|
  {
    if path == [] then Some(v)
    else
      var child :- Child(index, v, path[0]);
      Resolve(index, child, path[1..])
  }

  /** The place a step leads to; none when it leads through a documentation keyword. */
  function Step(place: Place, v: Json, token: string): Option<Place> {
    match place
    case DataPlace => Some(DataPlace)
    case MapPlace => Some(SchemaPlace)
    case SchemaPlace =>
      if !v.JObject? then Some(SchemaPlace)
      else if token in DOC_KEYS then None
      else if token in DATA_KEYS then Some(DataPlace)
      else if token in MAP_KEYS && token in v.fields && v.fields[token].JObject? then Some(MapPlace)
      else Some(SchemaPlace)
  }

  /** The place a path ends at, as long as it exists. */
  function Destination(index: IndexReader, place: Place, v: Json, path: seq<string>): Option<Place>
    decreases |path|
  {
    if path == [] then Some(place)
    else
      var next :- Step(place, v, path[0]);
      match Child(index, v, path[0])
      case None => Some(next)
      case Some(child) => Destination(index, next, child, path[1..])
  }

  lemma StepView(index: IndexReader, place: Place, v: Json, token: string)
    requires place == MapPlace ==> v.JObject?
    ensures Step(place, v, token).None? ==> Child(index, View(place, v), token).None?
    ensures Step(place, v, token).Some? && Child(index, v, token).None? ==> Child(index, View(place, v), token).None?
    ensures Step(place, v, token).Some? && Child(index, v, token).Some? ==>
      var next, child := Step(place, v, token).value, Child(index, v, token).value;
      && Child(index, View(place, v), token) == Some(View(next, child))
      && (next == MapPlace ==> child.JObject?)
  {
    CanonKeepsKind(v);
    if v.JObject? {
      CanonFields(v, token);
    }
  }

  /** Where every path leads in the canonical form: nowhere if it goes through a
      documentation keyword, and otherwise to the canonical view of where it led. */
  lemma {:induction false} PathExactly(index: IndexReader, place: Place, v: Json, path: seq<string>)
    requires place == MapPlace ==> v.JObject?
    ensures Resolve(index, View(place, v), path) ==
      match Destination(index, place, v, path)
      case None => None
      case Some(end) =>
        match Resolve(index, v, path)
        case None => None
        case Some(target) => Some(View(end, target))
    decreases |path|
  {
    hide View, Step, Child;
    if path != [] {
      StepView(index, place, v, path[0]);
      if Step(place, v, path[0]).Some? && Child(index, v, path[0]).Some? {
        PathExactly(index, Step(place, v, path[0]).value, Child(index, v, path[0]).value, path[1..]);
      }
    }
  }
}
