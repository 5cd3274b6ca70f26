/** UTF-8, and the byte frames that are hashed: a tag, a zero byte and canonical JSON;
    and the four-part frame of the direct audit digest. */
module HashFrames {
  import opened Wrappers
  import opened Json
  import opened CanonicalJson

  type Byte = b: int | 0 <= b < 256

  // ----- UTF-8 -----

  function EncodeChar(c: char): (r: seq<Byte>)
    ensures r != []
  {
    var n := c as int;
    if n < 0x80 then [n]
    else if n < 0x800 then [0xC0 + n / 64, 0x80 + n % 64]
    else if n < 0x10000 then [0xE0 + n / 4096, 0x80 + n / 64 % 64, 0x80 + n % 64]
    else [0xF0 + n / 262144, 0x80 + n / 4096 % 64, 0x80 + n / 64 % 64, 0x80 + n % 64]
  }

  function Encode(s: string): seq<Byte> {
    if s == [] then [] else EncodeChar(s[0]) + Encode(s[1..])
  }

  function Tail(b: Byte): Option<nat> {
    if 0x80 <= b < 0xC0 then Some(b - 0x80) else None
  }

  function WithRest(code: nat, rest: seq<Byte>): Option<(char, seq<Byte>)> {
    if code < 0xD800 || 0xE000 <= code < 0x110000 then Some((code as char, rest)) else None
  }

  function DecodeChar(b: seq<Byte>): (r: Option<(char, seq<Byte>)>)
    ensures r.Some? ==> |r.value.1| < |b|
  {
    if b == [] then None
    else if b[0] < 0x80 then WithRest(b[0], b[1..])
    else if 0xC0 <= b[0] < 0xE0 && |b| >= 2 then
      var x :- Tail(b[1]);
      WithRest((b[0] - 0xC0) * 64 + x, b[2..])
    else if 0xE0 <= b[0] < 0xF0 && |b| >= 3 then
      var x :- Tail(b[1]);
      var y :- Tail(b[2]);
      WithRest((b[0] - 0xE0) * 4096 + x * 64 + y, b[3..])
    else if 0xF0 <= b[0] && |b| >= 4 then
      var x :- Tail(b[1]);
      var y :- Tail(b[2]);
      var z :- Tail(b[3]);
      WithRest((b[0] - 0xF0) * 262144 + x * 4096 + y * 64 + z, b[4..])
    else None
  }

  function Decode(b: seq<Byte>): Option<string>
    decreases |b|
  {
    if b == [] then Some([])
    else
      var (c, rest) :- DecodeChar(b);
      var s :- Decode(rest);
      Some([c] + s)
  }

  lemma Base64Digits(n: nat)
    requires n < 0x110000
    ensures n / 64 == n / 4096 * 64 + n / 64 % 64
    ensures n / 4096 == n / 262144 * 64 + n / 4096 % 64
    ensures n == n / 64 * 64 + n % 64
  {
  }

  /** Reading one to four bytes. */
  lemma ReadBytes(e: seq<Byte>, rest: seq<Byte>)
    requires 1 <= |e| <= 4
    ensures var b := e + rest;
      && |b| == |e| + |rest| && b[|e|..] == rest && b[0] == e[0]
      && (|e| >= 2 ==> b[1] == e[1]) && (|e| >= 3 ==> b[2] == e[2]) && (|e| >= 4 ==> b[3] == e[3])
  {
  }

  lemma CharReads(c: char, rest: seq<Byte>)
    ensures DecodeChar(EncodeChar(c) + rest) == Some((c, rest))
  {
    Base64Digits(c as int);
    ReadBytes(EncodeChar(c), rest);
  }

  /** Decoding undoes encoding. */
  lemma {:induction false} EncodeRoundTrip(s: string)
    ensures Decode(Encode(s)) == Some(s)
  {
    hide EncodeChar, DecodeChar;
    if s != [] {
      CharReads(s[0], Encode(s[1..]));
      EncodeRoundTrip(s[1..]);
      assert [s[0]] + s[1..] == s;
    }
  }

  lemma EncodeInjective(s: string, t: string)
    requires Encode(s) == Encode(t)
    ensures s == t
  {
    EncodeRoundTrip(s);
    EncodeRoundTrip(t);
  }

  // ----- zero bytes -----

  ghost predicate NoControls(s: string) {
    forall i :: 0 <= i < |s| ==> s[i] as int >= 32
  }

  lemma {:induction false} NoZeroBytes(s: string)
    requires NoControls(s)
    ensures 0 !in Encode(s)
  {
    if s != [] {
      assert 0 !in EncodeChar(s[0]);
      NoZeroBytes(s[1..]);
    }
  }

  lemma NoControlsConcat(a: string, b: string)
    requires NoControls(a) && NoControls(b)
    ensures NoControls(a + b)
  {
  }

  /** The fixed parts of canonical text. */
  lemma FixedPartsNoControls()
    ensures NoControls("") && NoControls("null") && NoControls("true") && NoControls("false")
    ensures NoControls("[]") && NoControls("{}") && NoControls("[") && NoControls("{") && NoControls("]") && NoControls("}")
    ensures NoControls(",") && NoControls("-") && NoControls("\"") && NoControls("\":")
  {
  }

  lemma EscapeNoControls(c: char, ascii: bool)
    ensures NoControls(Escape(c, ascii))
  {
  }

  lemma {:induction false} EscapeAllNoControls(s: string, ascii: bool)
    ensures NoControls(EscapeAll(s, ascii))
  {
    hide Escape, NoControls;
    FixedPartsNoControls();
    if s != [] {
      EscapeNoControls(s[0], ascii);
      EscapeAllNoControls(s[1..], ascii);
      NoControlsConcat(Escape(s[0], ascii), EscapeAll(s[1..], ascii));
    }
  }

  lemma QuotedNoControls(s: string, end: string, ascii: bool)
    requires NoControls(end)
    ensures NoControls("\"" + EscapeAll(s, ascii) + end)
  {
    hide EscapeAll, NoControls;
    FixedPartsNoControls();
    EscapeAllNoControls(s, ascii);
    NoControlsConcat("\"", EscapeAll(s, ascii));
    NoControlsConcat("\"" + EscapeAll(s, ascii), end);
  }

  lemma IntNoControls(n: int)
    ensures NoControls(PrintInt(n))
  {
    hide Digits, NoControls;
    FixedPartsNoControls();
    DigitsNoControls(if n < 0 then -n else n);
    NoControlsConcat("-", Digits(if n < 0 then -n else n));
  }

  lemma DigitsNoControls(n: nat)
    ensures NoControls(Digits(n))
  {
    hide Digits;
  }

  /** Canonical text holds no control character, whatever its strings hold. */
  lemma {:induction false} PrintNoControls(v: Json, ascii: bool)
    ensures NoControls(Print(v, ascii))
    decreases v, 1, 0
  {
    hide EscapeAll, PrintInt, PrintItems, PrintFields, SortedKeys, NoControls;
    FixedPartsNoControls();
    match v
    case JNull =>
    case JBool(_) =>
    case JInt(n) => IntNoControls(n);
    case JString(s) => QuotedNoControls(s, "\"", ascii);
    case JArray(items) =>
      if items != [] {
        ItemsNoControls(v, 0, ascii);
        NoControlsConcat("[", PrintItems(v, 0, ascii));
      }
    case JObject(fields) =>
      if fields != map[] {
        PrintedObject(v, ascii);
        FieldsNoControls(v, SortedKeys(fields.Keys), ascii);
        NoControlsConcat("{", PrintFields(v, SortedKeys(fields.Keys), ascii));
      }
  }

  lemma {:induction false} ItemsNoControls(v: Json, i: nat, ascii: bool)
    requires v.JArray? && i < |v.items|
    ensures NoControls(PrintItems(v, i, ascii))
    decreases v, 0, |v.items| - i
  {
    hide Print, NoControls;
    FixedPartsNoControls();
    PrintNoControls(v.items[i], ascii);
    var rest := if i + 1 < |v.items| then "," + PrintItems(v, i + 1, ascii) else "]";
    if i + 1 < |v.items| {
      ItemsNoControls(v, i + 1, ascii);
      NoControlsConcat(",", PrintItems(v, i + 1, ascii));
    }
    NoControlsConcat(Print(v.items[i], ascii), rest);
  }

  lemma {:induction false} FieldsNoControls(v: Json, keys: seq<string>, ascii: bool)
    requires v.JObject? && keys != [] && forall k :: k in keys ==> k in v.fields
    ensures NoControls(PrintFields(v, keys, ascii))
    decreases v, 0, |keys|
  {
    hide Print, EscapeAll, NoControls;
    FixedPartsNoControls();
    var value := Print(v.fields[keys[0]], ascii);
    var rest := if |keys| > 1 then "," + PrintFields(v, keys[1..], ascii) else "}";
    PrintNoControls(v.fields[keys[0]], ascii);
    if |keys| > 1 {
      FieldsNoControls(v, keys[1..], ascii);
      NoControlsConcat(",", PrintFields(v, keys[1..], ascii));
    }
    QuotedNoControls(keys[0], "\":", ascii);
    NoControlsConcat("\"" + EscapeAll(keys[0], ascii) + "\":", value);
    NoControlsConcat("\"" + EscapeAll(keys[0], ascii) + "\":" + value, rest);
  }

  ghost function CanonicalBytes(v: Json, ascii: bool): seq<Byte> {
    Encode(Print(v, ascii))
  }

  lemma BytesInjective(v: Json, w: Json, ascii: bool)
    requires CanonicalBytes(v, ascii) == CanonicalBytes(w, ascii)
    ensures v == w
  {
    EncodeInjective(Print(v, ascii), Print(w, ascii));
    PrintInjective(v, w, ascii);
  }

  lemma BytesHaveNoZero(v: Json, ascii: bool)
    ensures 0 !in CanonicalBytes(v, ascii)
  {
    PrintNoControls(v, ascii);
    NoZeroBytes(Print(v, ascii));
  }

  // ----- splitting at a zero byte -----

  function Framed(a: seq<Byte>, b: seq<Byte>): seq<Byte> {
    a + [0] + b
  }

  lemma FramedParts(f: seq<Byte>, a: seq<Byte>, x: seq<Byte>)
    requires f == Framed(a, x)
    ensures |f| == |a| + 1 + |x| && f[..|a|] == a && f[|a|] == 0 && f[|a| + 1..] == x
  {
  }

  /** The zero that ends `a` is the last one of the frame. */
  lemma NoZeroAfter(f: seq<Byte>, a: seq<Byte>, x: seq<Byte>, i: nat)
    requires f == Framed(a, x) && 0 !in x
    ensures |a| < i < |f| ==> f[i] != 0
  {
    if |a| < i < |f| {
      assert f[i] == x[i - |a| - 1];
    }
  }

  /** The zero that ends `a` is the first one of the frame. */
  lemma NoZeroBefore(f: seq<Byte>, a: seq<Byte>, x: seq<Byte>, i: nat)
    requires f == Framed(a, x) && 0 !in a
    ensures i < |a| ==> f[i] != 0
  {
    if i < |a| {
      assert f[i] == a[i];
    }
  }

  lemma SplitAtLast(a: seq<Byte>, x: seq<Byte>, b: seq<Byte>, y: seq<Byte>)
    requires Framed(a, x) == Framed(b, y) && 0 !in x && 0 !in y
    ensures a == b && x == y
  {
    hide Framed;
    var f := Framed(a, x);
    FramedParts(f, a, x);
    FramedParts(f, b, y);
    NoZeroAfter(f, a, x, |b|);
    NoZeroAfter(f, b, y, |a|);
  }

  lemma SplitAtFirst(a: seq<Byte>, x: seq<Byte>, b: seq<Byte>, y: seq<Byte>)
    requires Framed(a, x) == Framed(b, y) && 0 !in a && 0 !in b
    ensures a == b && x == y
  {
    hide Framed;
    var f := Framed(a, x);
    FramedParts(f, a, x);
    FramedParts(f, b, y);
    NoZeroBefore(f, a, x, |b|);
    NoZeroBefore(f, b, y, |a|);
  }

  // ----- the tagged frame -----

  /** What is hashed for a domain tag and a value. */
  ghost function TaggedFrame(tag: seq<Byte>, v: Json): seq<Byte> {
    Framed(tag, CanonicalBytes(v, false))
  }

  /** Equal frames have equal tags and equal values, whatever bytes the tags hold. */
  lemma TaggedFrameInjective(tag: seq<Byte>, v: Json, tag': seq<Byte>, v': Json)
    requires TaggedFrame(tag, v) == TaggedFrame(tag', v')
    ensures tag == tag' && v == v'
  {
    BytesHaveNoZero(v, false);
    BytesHaveNoZero(v', false);
    SplitAtLast(tag, CanonicalBytes(v, false), tag', CanonicalBytes(v', false));
    BytesInjective(v, v', false);
  }

  /** With a hash that does not collide, ids with one prefix are equal exactly for equal
      tags and values. */
  lemma IdsDistinguish(hash: seq<Byte> -> string, prefix: string, tag: seq<Byte>, v: Json, tag': seq<Byte>, v': Json)
    requires forall x, y :: hash(x) == hash(y) ==> x == y
    ensures prefix + ":" + hash(TaggedFrame(tag, v)) == prefix + ":" + hash(TaggedFrame(tag', v')) <==> tag == tag' && v == v'
  {
    var p := prefix + ":";
    var a, b := p + hash(TaggedFrame(tag, v)), p + hash(TaggedFrame(tag', v'));
    assert a[|p|..] == hash(TaggedFrame(tag, v)) && b[|p|..] == hash(TaggedFrame(tag', v'));
    if a == b {
      TaggedFrameInjective(tag, v, tag', v');
    }
  }

  // ----- the direct audit frame -----

  datatype StateKey = StateKey(surface: string, adapterNamespace: string, tenantRef: string, scene: string,
                               subjectRef: string, principalRef: string)

  function StateKeyPayload(key: StateKey): Json {
    JObject(map[
      "version" := JInt(1),
      "surface" := JString(key.surface),
      "adapter_namespace" := JString(key.adapterNamespace),
      "tenant_ref" := JString(key.tenantRef),
      "scene" := JString(key.scene),
      "subject_ref" := JString(key.subjectRef),
      "principal_ref" := JString(key.principalRef)])
  }

  lemma PayloadInjective(k: StateKey, k': StateKey)
    requires StateKeyPayload(k) == StateKeyPayload(k')
    ensures k == k'
  {
    var f, g := StateKeyPayload(k).fields, StateKeyPayload(k').fields;
    assert f["surface"] == g["surface"] && f["adapter_namespace"] == g["adapter_namespace"];
    assert f["tenant_ref"] == g["tenant_ref"] && f["scene"] == g["scene"];
    assert f["subject_ref"] == g["subject_ref"] && f["principal_ref"] == g["principal_ref"];
  }

  const PURPOSES: set<string> := {
    "message", "request_id", "request", "reply", "evidence", "directive", "plan", "planner_input", "planner_output",
    "composer_input", "composer_output", "verifier_input", "verifier_output", "approved_selector_input",
    "approved_selector_output", "document_selector_input", "document_selector_output" }

  const AUDIT_DOMAIN: string := "direct-audit.v1"

  /** What the digest of a purpose, a state key and a content signs; nothing for a
      purpose that is not listed. */
  ghost function AuditMessage(purpose: string, key: StateKey, content: seq<Byte>): Option<seq<Byte>> {
    if purpose !in PURPOSES then None
    else Some(Framed(Encode(AUDIT_DOMAIN),
                     Framed(Encode(purpose), Framed(CanonicalBytes(StateKeyPayload(key), true), content))))
  }

  lemma PurposesHaveNoControls(purpose: string)
    requires purpose in PURPOSES
    ensures NoControls(purpose)
  {
  }

  /** Equal messages have equal purpose, state key and content, even when the content
      holds zero bytes. */
  lemma AuditMessageInjective(p: string, k: StateKey, c: seq<Byte>, p': string, k': StateKey, c': seq<Byte>)
    requires p in PURPOSES && p' in PURPOSES
    requires AuditMessage(p, k, c) == AuditMessage(p', k', c')
    ensures p == p' && k == k' && c == c'
  {
    hide Encode, CanonicalBytes, StateKeyPayload, NoControls, Framed;
    var j, j' := CanonicalBytes(StateKeyPayload(k), true), CanonicalBytes(StateKeyPayload(k'), true);
    DomainHasNoControls();
    NoZeroBytes(AUDIT_DOMAIN);
    PurposesHaveNoControls(p);
    PurposesHaveNoControls(p');
    NoZeroBytes(p);
    NoZeroBytes(p');
    BytesHaveNoZero(StateKeyPayload(k), true);
    BytesHaveNoZero(StateKeyPayload(k'), true);
    SplitAtFirst(Encode(AUDIT_DOMAIN), Framed(Encode(p), Framed(j, c)), Encode(AUDIT_DOMAIN), Framed(Encode(p'), Framed(j', c')));
    SplitAtFirst(Encode(p), Framed(j, c), Encode(p'), Framed(j', c'));
    SplitAtFirst(j, c, j', c');
    EncodeInjective(p, p');
    BytesInjective(StateKeyPayload(k), StateKeyPayload(k'), true);
    PayloadInjective(k, k');
  }

  lemma DomainHasNoControls()
    ensures NoControls(AUDIT_DOMAIN)
  {
  }
}
