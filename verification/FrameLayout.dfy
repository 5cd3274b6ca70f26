/** The bytes that are hashed, told position by position. */
module FrameLayout {
  import opened Wrappers
  import opened Json
  import opened CanonicalJson
  import opened HashFrames
  import opened Concatenation

  // ----- UTF-8 -----

  /** The low six bits of a byte that continues a character. */
  ghost predicate Trailing(b: Byte, bits: int) {
    0 <= bits < 64 && b as int == 0x80 + bits
  }

  /** The shortest form of a code point, section 3 of RFC 3629. */
  ghost predicate Utf8Char(b: seq<Byte>, n: int) {
    if n <= 0x7F then |b| == 1 && b[0] as int == n
    else if n <= 0x7FF then |b| == 2 && exists x, y :: Sextets(n, 0, 0, x, y) && b[0] as int == 0xC0 + x && Trailing(b[1], y)
    else if n <= 0xFFFF then
      |b| == 3 && exists w, x, y :: Sextets(n, 0, w, x, y) && b[0] as int == 0xE0 + w && Trailing(b[1], x) && Trailing(b[2], y)
    else
      |b| == 4 && exists v, w, x, y ::
        Sextets(n, v, w, x, y) && b[0] as int == 0xF0 + v && Trailing(b[1], w) && Trailing(b[2], x) && Trailing(b[3], y)
  }

  /** The number in base 64. */
  ghost predicate Sextets(n: int, v: int, w: int, x: int, y: int) {
    0 <= v && 0 <= w < 64 && 0 <= x < 64 && 0 <= y < 64 && n == v * 262144 + w * 4096 + x * 64 + y
  }

  lemma SextetsOf(n: nat)
    ensures Sextets(n, n / 262144, n / 4096 % 64, n / 64 % 64, n % 64)
  {
    assert n / 64 == n / 4096 * 64 + n / 64 % 64;
    assert n / 4096 == n / 262144 * 64 + n / 4096 % 64;
  }

  ghost predicate Utf8Chars(parts: seq<seq<Byte>>, s: string) {
    |parts| == |s| && forall i :: 0 <= i < |s| ==> Utf8Char(parts[i], s[i] as int)
  }

  /** The bytes are the characters of the text, one after another. */
  ghost predicate Utf8Text(b: seq<Byte>, s: string) {
    exists parts: seq<seq<Byte>> :: Utf8Chars(parts, s) && Concatenates(b, parts)
  }

  lemma Utf8CharIs(c: char)
    ensures Utf8Char(EncodeChar(c), c as int)
  {
    hide Sextets;
    var n := c as int;
    SextetsOf(n);
    if n < 0x10000 {
      assert n / 262144 == 0;
    }
    if n < 0x1000 {
      assert n / 4096 % 64 == 0;
    }
    if 0x80 <= n < 0x800 {
      assert n / 64 % 64 == n / 64;
      assert Sextets(n, 0, 0, n / 64, n % 64);
    } else if 0x800 <= n < 0x10000 {
      assert n / 4096 % 64 == n / 4096;
      assert Sextets(n, 0, n / 4096, n / 64 % 64, n % 64);
    }
  }

  lemma SextetsUnique(n: int, v: int, w: int, x: int, y: int, v': int, w': int, x': int, y': int)
    requires Sextets(n, v, w, x, y) && Sextets(n, v', w', x', y')
    ensures v == v' && w == w' && x == x' && y == y'
  {
    SextetUnique(v * 4096 + w * 64 + x, y, v' * 4096 + w' * 64 + x', y');
    SextetUnique(v * 64 + w, x, v' * 64 + w', x');
    SextetUnique(v, w, v', w');
  }

  lemma SextetUnique(a: int, x: int, b: int, y: int)
    requires 0 <= x < 64 && 0 <= y < 64 && a * 64 + x == b * 64 + y
    ensures a == b && x == y
  {
  }

  lemma Utf8CharUnique(a: seq<Byte>, b: seq<Byte>, n: int)
    requires Utf8Char(a, n) && Utf8Char(b, n)
    ensures a == b
  {
    hide Sextets;
    if n <= 0x7F {
    } else if n <= 0x7FF {
      var x, y :| Sextets(n, 0, 0, x, y) && a[0] as int == 0xC0 + x && Trailing(a[1], y);
      var x', y' :| Sextets(n, 0, 0, x', y') && b[0] as int == 0xC0 + x' && Trailing(b[1], y');
      SextetsUnique(n, 0, 0, x, y, 0, 0, x', y');
    } else if n <= 0xFFFF {
      var w, x, y :| Sextets(n, 0, w, x, y) && a[0] as int == 0xE0 + w && Trailing(a[1], x) && Trailing(a[2], y);
      var w', x', y' :| Sextets(n, 0, w', x', y') && b[0] as int == 0xE0 + w' && Trailing(b[1], x') && Trailing(b[2], y');
      SextetsUnique(n, 0, w, x, y, 0, w', x', y');
    } else {
      var v, w, x, y :| Sextets(n, v, w, x, y) && a[0] as int == 0xF0 + v && Trailing(a[1], w) && Trailing(a[2], x) && Trailing(a[3], y);
      var v', w', x', y' :| Sextets(n, v', w', x', y') && b[0] as int == 0xF0 + v' && Trailing(b[1], w') && Trailing(b[2], x') && Trailing(b[3], y');
      SextetsUnique(n, v, w, x, y, v', w', x', y');
    }
  }

  function CharBytes(s: string): (r: seq<seq<Byte>>)
    ensures |r| == |s| && forall i :: 0 <= i < |r| ==> r[i] == EncodeChar(s[i])
  {
    seq(|s|, i requires 0 <= i < |s| => EncodeChar(s[i]))
  }

  lemma EncodeLast(s: string, c: char)
    ensures Encode(s + [c]) == Encode(s) + EncodeChar(c)
    decreases |s|
  {
    hide EncodeChar;
    if s == [] {
      assert s + [c] == [c] && Encode([c]) == EncodeChar(c) + Encode([]);
    } else {
      EncodeLast(s[1..], c);
      assert (s + [c])[0] == s[0] && (s + [c])[1..] == s[1..] + [c];
    }
  }

  lemma {:induction false} EncodeLaidOut(s: string)
    ensures Concatenates(Encode(s), CharBytes(s))
    decreases |s|
  {
    hide EncodeChar, Concatenates;
    if s == [] {
      NoParts(Encode(s));
      assert CharBytes(s) == [];
    } else {
      var front, c := s[..|s| - 1], s[|s| - 1];
      EncodeLaidOut(front);
      OnePartMore(Encode(front), CharBytes(front), EncodeChar(c));
      EncodeLast(front, c);
      assert front + [c] == s && CharBytes(front) + [EncodeChar(c)] == CharBytes(s);
    }
  }

  /** Encoding a text gives its UTF-8 form, and nothing else is one. */
  lemma EncodeExactly(s: string, b: seq<Byte>)
    ensures Utf8Text(b, s) <==> b == Encode(s)
  {
    hide Utf8Char, EncodeChar, Encode, Concatenates;
    var own := CharBytes(s);
    EncodeLaidOut(s);
    forall i | 0 <= i < |s| ensures Utf8Char(own[i], s[i] as int) {
      Utf8CharIs(s[i]);
    }
    assert Utf8Chars(own, s);
    if Utf8Text(b, s) {
      var parts: seq<seq<Byte>> :| Utf8Chars(parts, s) && Concatenates(b, parts);
      forall i | 0 <= i < |s| ensures parts[i] == own[i] {
        Utf8CharUnique(parts[i], own[i], s[i] as int);
      }
      assert parts == own;
      ConcatenationUnique(b, Encode(s), own);
    }
  }

  // ----- the frames -----

  /** A tagged frame is the tag, a zero byte and the UTF-8 form of the canonical text. */
  lemma TaggedLayout(tag: seq<Byte>, v: Json, f: seq<Byte>)
    ensures f == TaggedFrame(tag, v) <==>
      |f| > |tag| && f[..|tag|] == tag && f[|tag|] == 0 && Utf8Text(f[|tag| + 1..], Print(v, false))
  {
    hide Utf8Text, Encode;
    FramedParts(TaggedFrame(tag, v), tag, CanonicalBytes(v, false));
    if |f| > |tag| {
      EncodeExactly(Print(v, false), f[|tag| + 1..]);
      assert f == f[..|tag|] + [f[|tag|]] + f[|tag| + 1..];
    }
  }

  ghost predicate Purpose(p: string) {
    p in [
      "message", "request_id", "request", "reply", "evidence", "directive", "plan", "planner_input", "planner_output",
      "composer_input", "composer_output", "verifier_input", "verifier_output", "approved_selector_input",
      "approved_selector_output", "document_selector_input", "document_selector_output"]
  }

  /** The object that stands for a state key: its six parts under their names, and the
      version. */
  ghost predicate NamesKey(v: Json, key: StateKey) {
    && v.JObject? && v.fields.Keys == {"version", "surface", "adapter_namespace", "tenant_ref", "scene", "subject_ref", "principal_ref"}
    && v.fields["version"] == JInt(1) && v.fields["surface"] == JString(key.surface)
    && v.fields["adapter_namespace"] == JString(key.adapterNamespace) && v.fields["tenant_ref"] == JString(key.tenantRef)
    && v.fields["scene"] == JString(key.scene) && v.fields["subject_ref"] == JString(key.subjectRef)
    && v.fields["principal_ref"] == JString(key.principalRef)
  }

  /** Four parts with zero bytes between them, at `i`, `j` and `k`: the domain, the
      purpose, the escaped text of the state key, and the content. */
  ghost predicate AuditLayout(m: seq<Byte>, purpose: string, key: StateKey, content: seq<Byte>, i: nat, j: nat, k: nat, v: Json) {
    && i < j < k < |m| && m[i] == 0 && m[j] == 0 && m[k] == 0
    && Utf8Text(m[..i], "direct-audit.v1")
    && Utf8Text(m[i + 1..j], purpose)
    && NamesKey(v, key) && Utf8Text(m[j + 1..k], Print(v, true))
    && m[k + 1..] == content
  }

  lemma PurposeExactly(p: string)
    ensures Purpose(p) <==> p in PURPOSES
  {
  }

  lemma NamesKeyIs(key: StateKey)
    ensures NamesKey(StateKeyPayload(key), key)
  {
  }

  /** Three zero bytes and four parts. */
  ghost predicate FourParts(m: seq<Byte>, a: seq<Byte>, b: seq<Byte>, c: seq<Byte>, d: seq<Byte>, i: nat, j: nat, k: nat) {
    && i < j < k < |m| && m[i] == 0 && m[j] == 0 && m[k] == 0
    && m[..i] == a && m[i + 1..j] == b && m[j + 1..k] == c && m[k + 1..] == d
  }

  lemma FourPartsOf(m: seq<Byte>, a: seq<Byte>, b: seq<Byte>, c: seq<Byte>, d: seq<Byte>)
    requires m == Framed(a, Framed(b, Framed(c, d)))
    ensures FourParts(m, a, b, c, d, |a|, |a| + 1 + |b|, |a| + 1 + |b| + 1 + |c|)
  {
    assert m == a + [0] + b + [0] + c + [0] + d;
  }

  lemma LaidOutAs(purpose: string, key: StateKey, content: seq<Byte>, m: seq<Byte>, i: nat, j: nat, k: nat)
    requires FourParts(m, Encode("direct-audit.v1"), Encode(purpose), CanonicalBytes(StateKeyPayload(key), true), content, i, j, k)
    ensures AuditLayout(m, purpose, key, content, i, j, k, StateKeyPayload(key))
  {
    hide Encode, StateKeyPayload, NamesKey, Utf8Text;
    EncodeExactly("direct-audit.v1", m[..i]);
    EncodeExactly(purpose, m[i + 1..j]);
    EncodeExactly(Print(StateKeyPayload(key), true), m[j + 1..k]);
    NamesKeyIs(key);
  }

  /** What is signed for a purpose, a state key and a content; nothing exactly for an
      unlisted purpose. */
  lemma AuditLaidOut(purpose: string, key: StateKey, content: seq<Byte>)
    ensures AuditMessage(purpose, key, content).Some? <==> Purpose(purpose)
    ensures Purpose(purpose) ==>
      exists i: nat, j: nat, k: nat, v :: AuditLayout(AuditMessage(purpose, key, content).value, purpose, key, content, i, j, k, v)
  {
    hide Purpose, Encode, StateKeyPayload, AuditLayout, FourParts, CanonicalBytes, Framed;
    PurposeExactly(purpose);
    if Purpose(purpose) {
      var a, b, c := Encode("direct-audit.v1"), Encode(purpose), CanonicalBytes(StateKeyPayload(key), true);
      var m := AuditMessage(purpose, key, content).value;
      FourPartsOf(m, a, b, c, content);
      LaidOutAs(purpose, key, content, m, |a|, |a| + 1 + |b|, |a| + 1 + |b| + 1 + |c|);
    }
  }
}
