/** Where canonical schemas travel: the synthesis, the request bodies of the two
    transports, and the envelope; and the hashes that identify them. */
module SchemaTransport {
  import opened Wrappers
  import opened Json
  import opened SchemaCanonicalization
  import opened HashFrames
  import CanonicalJson
  import FrameLayout

  /** The schema format of a program. Whatever schema it is built from, it holds the
      canonical one. */
  datatype SchemaFormat = SchemaFormat(name: string, jsonSchema: Json)

  function MakeFormat(name: string, schema: Json): SchemaFormat {
    SchemaFormat(name, Canon(schema))
  }

  /** The parts of a synthesis and a target that the request bodies use. */
  datatype Synthesis = Synthesis(format: SchemaFormat, system: string, user: string)

  datatype Variant = OpenAi | Gemini

  datatype Target = Target(variant: Variant, model: string, temperature: Json, maxTokens: int, thinking: Option<Json>)

  function Message(role: string, content: string): Json {
    JObject(map["role" := JString(role), "content" := JString(content), "tool_call_id" := JNull])
  }

  function OpenAiBody(s: Synthesis, t: Target): Json {
    JObject(map[
      "model" := JString(t.model),
      "messages" := JArray([Message("system", s.system), Message("user", s.user)]),
      "temperature" := t.temperature,
      "max_tokens" := JInt(t.maxTokens),
      "response_format" := JObject(map[
        "type" := JString("json_schema"),
        "json_schema" := JObject(map[
          "name" := JString(s.format.name), "schema" := s.format.jsonSchema, "strict" := JBool(true)])])])
  }

  function GeminiBody(s: Synthesis, t: Target): Json {
    var config := map[
      "temperature" := t.temperature,
      "max_output_tokens" := JInt(t.maxTokens),
      "response_mime_type" := JString("application/json"),
      "response_json_schema" := s.format.jsonSchema];
    JObject(map[
      "model" := JString(t.model),
      "system_instruction" := JString(s.system),
      "contents" := JArray([JObject(map["role" := JString("user"), "parts" := JArray([JObject(map["text" := JString(s.user)])])])]),
      "config" := JObject(if t.thinking.Some? then config["thinking_config" := t.thinking.value] else config)])
  }

  function FieldOf(v: Json, key: string): Option<Json> {
    if v.JObject? && key in v.fields then Some(v.fields[key]) else None
  }

  /** The schema object that goes out with a body. */
  function SentSchema(variant: Variant, body: Json): Option<Json> {
    match variant
    case OpenAi =>
      var format :- FieldOf(body, "response_format");
      FieldOf(format, "json_schema")
    case Gemini =>
      var config :- FieldOf(body, "config");
      FieldOf(config, "response_json_schema")
  }

  function BodyFor(s: Synthesis, t: Target): Json {
    match t.variant
    case OpenAi => OpenAiBody(s, t)
    case Gemini => GeminiBody(s, t)
  }

  datatype Envelope = Envelope(variant: Variant, canonicalSchema: Json, providerSchema: Json, body: Json)

  /** The envelope canonicalizes both schema fields again. */
  function BuildEnvelope(s: Synthesis, t: Target): Option<Envelope> {
    var body := BodyFor(s, t);
    var sent :- SentSchema(t.variant, body);
    Some(Envelope(t.variant, Canon(s.format.jsonSchema), Canon(sent), body))
  }

  // ----- agreement -----

  const SCHEMA_TAG: string := "output-schema.v1"

  ghost function SchemaPreimage(schema: Json): seq<Byte> {
    TaggedFrame(Encode(SCHEMA_TAG), schema)
  }

  /** The object that wraps a canonical schema for the chat transport is canonical too. */
  lemma WrapperIsCanonical(name: string, schema: Json)
    ensures var w := JObject(map["name" := JString(name), "schema" := Canon(schema), "strict" := JBool(true)]);
      Canon(w) == w
  {
    var w := JObject(map["name" := JString(name), "schema" := Canon(schema), "strict" := JBool(true)]);
    CanonIdempotent(schema);
    CanonFields(w, "name");
    CanonFields(w, "schema");
    CanonFields(w, "strict");
    assert Canon(w).fields.Keys == w.fields.Keys;
    assert CanonField(w, "schema") == Canon(Canon(schema));
    assert CanonField(w, "name") == JString(name) && CanonField(w, "strict") == JBool(true);
    assert Canon(w).fields == w.fields;
  }

  lemma SentSchemaIs(s: Synthesis, t: Target)
    ensures SentSchema(t.variant, BodyFor(s, t)) == Some(
      if t.variant == OpenAi
      then JObject(map["name" := JString(s.format.name), "schema" := s.format.jsonSchema, "strict" := JBool(true)])
      else s.format.jsonSchema)
  {
    match t.variant
    case OpenAi =>
      var body := OpenAiBody(s, t);
      assert "response_format" in body.fields && "json_schema" in body.fields["response_format"].fields;
    case Gemini =>
      var body := GeminiBody(s, t);
      assert "config" in body.fields && "response_json_schema" in body.fields["config"].fields;
  }

  /** What is hashed for a schema: the tag of the domain, a zero byte and the schema's
      canonical text. */
  lemma SchemaPreimageIs(schema: Json, f: seq<Byte>)
    requires f == SchemaPreimage(schema)
    ensures exists i: nat ::
      && i < |f| && f[i] == 0 && FrameLayout.Utf8Text(f[..i], "output-schema.v1")
      && FrameLayout.Utf8Text(f[i + 1..], CanonicalJson.Print(schema, false))
  {
    hide FrameLayout.Utf8Text, Encode;
    var tag := Encode("output-schema.v1");
    FrameLayout.TaggedLayout(tag, schema, f);
    FrameLayout.EncodeExactly("output-schema.v1", f[..|tag|]);
    assert f[|tag|] == 0;
  }

  /** A body holds the messages, the settings of the target and the synthesis's schema,
      each in its place, and nothing else. */
  ghost predicate BodySays(s: Synthesis, t: Target, body: Json) {
    && body.JObject? && "model" in body.fields && body.fields["model"] == JString(t.model)
    && match t.variant
       case OpenAi =>
         && body.fields.Keys == {"model", "messages", "temperature", "max_tokens", "response_format"}
         && body.fields["messages"].JArray? && |body.fields["messages"].items| == 2
         && Says("system", s.system, body.fields["messages"].items[0]) && Says("user", s.user, body.fields["messages"].items[1])
         && body.fields["temperature"] == t.temperature && body.fields["max_tokens"] == JInt(t.maxTokens)
         && FormatSays(s.format, body.fields["response_format"])
       case Gemini =>
         && body.fields.Keys == {"model", "system_instruction", "contents", "config"}
         && body.fields["system_instruction"] == JString(s.system) && ContentsSay(s.user, body.fields["contents"])
         && ConfigSays(s.format, t, body.fields["config"])
  }

  ghost predicate Says(role: string, content: string, message: Json) {
    && message.JObject? && message.fields.Keys == {"role", "content", "tool_call_id"}
    && message.fields["role"] == JString(role) && message.fields["content"] == JString(content)
    && message.fields["tool_call_id"].JNull?
  }

  /** The schema travels strictly, under its name. */
  ghost predicate FormatSays(format: SchemaFormat, v: Json) {
    && v.JObject? && v.fields.Keys == {"type", "json_schema"} && v.fields["type"] == JString("json_schema")
    && v.fields["json_schema"].JObject? && v.fields["json_schema"].fields.Keys == {"name", "schema", "strict"}
    && v.fields["json_schema"].fields["name"] == JString(format.name)
    && v.fields["json_schema"].fields["schema"] == format.jsonSchema
    && v.fields["json_schema"].fields["strict"] == JBool(true)
  }

  ghost predicate ContentsSay(user: string, v: Json) {
    && v.JArray? && |v.items| == 1 && v.items[0].JObject? && v.items[0].fields.Keys == {"role", "parts"}
    && v.items[0].fields["role"] == JString("user")
    && v.items[0].fields["parts"].JArray? && |v.items[0].fields["parts"].items| == 1
    && v.items[0].fields["parts"].items[0] == JObject(map["text" := JString(user)])
  }

  ghost predicate ConfigSays(format: SchemaFormat, t: Target, v: Json) {
    && v.JObject? && v.fields.Keys - {"thinking_config"} == {"temperature", "max_output_tokens", "response_mime_type", "response_json_schema"}
    && v.fields["temperature"] == t.temperature && v.fields["max_output_tokens"] == JInt(t.maxTokens)
    && v.fields["response_mime_type"] == JString("application/json") && v.fields["response_json_schema"] == format.jsonSchema
    && ("thinking_config" in v.fields <==> t.thinking.Some?)
    && (t.thinking.Some? ==> v.fields["thinking_config"] == t.thinking.value)
  }

  lemma BodyHolds(s: Synthesis, t: Target)
    ensures BodySays(s, t, BodyFor(s, t))
  {
    match t.variant
    case OpenAi =>
    case Gemini =>
  }

  /** For both transports: the schema the envelope hashes is the one the synthesis
      hashes, so the two preimages are equal, and the provider schema it hashes is the
      very object sent in the body. */
  lemma HashesAgree(name: string, schema: Json, system: string, user: string, t: Target)
    ensures var s := Synthesis(MakeFormat(name, schema), system, user); var e := BuildEnvelope(s, t);
      && e.Some?
      && SchemaPreimage(e.value.canonicalSchema) == SchemaPreimage(s.format.jsonSchema)
      && SentSchema(t.variant, e.value.body) == Some(e.value.providerSchema)
  {
    var s := Synthesis(MakeFormat(name, schema), system, user);
    SentSchemaIs(s, t);
    CanonIdempotent(schema);
    WrapperIsCanonical(name, schema);
  }

  /** Two programs share a schema preimage exactly if their schemas differ in
      documentation only. */
  lemma PreimagesDistinguish(name: string, schema: Json, name': string, schema': Json)
    ensures SchemaPreimage(MakeFormat(name, schema).jsonSchema) == SchemaPreimage(MakeFormat(name', schema').jsonSchema)
      <==> Canon(schema) == Canon(schema')
  {
    if SchemaPreimage(Canon(schema)) == SchemaPreimage(Canon(schema')) {
      TaggedFrameInjective(Encode(SCHEMA_TAG), Canon(schema), Encode(SCHEMA_TAG), Canon(schema'));
    }
  }
}
