/** The two recursive sanitizers: trace attributes, cut down to a bounded safe shape,
    and adapter results, refused unless they already are bounded and clean. */
module Sanitizers {
  import opened Numbers
  import opened Wrappers

  // ----- trace values -----

  /** A trace value; dictionaries are ordered and their keys distinct. */
  datatype TraceValue =
    | Atom(id: int)
    | Text(text: string)
    | Many(items: seq<TraceValue>)
    | Dict(entries: seq<(string, TraceValue)>)

  const MAX_TEXT: nat := 300
  const MAX_ITEMS: nat := 20
  const MAX_ENTRIES: nat := 50
  const SENSITIVE_PARTS: seq<string> := ["api_key", "token", "secret", "password"]

  predicate OccursAt(s: string, part: string, i: int) {
    0 <= i <= |s| - |part| && s[i..i + |part|] == part
  }

  predicate Contains(s: string, part: string) {
    exists i | 0 <= i <= |s| :: OccursAt(s, part, i)
  }

  /** `lower` is the text library's lower-casing, whatever it is. */
  predicate LooksSensitive(lower: string -> string, key: string) {
    exists p :: p in SENSITIVE_PARTS && Contains(lower(key), p)
  }

  function SafeValue(lower: string -> string, v: TraceValue): TraceValue
    decreases v, 1, 0
  {
    match v
    case Atom(_) => v
    case Text(text) => if |text| <= MAX_TEXT then v else Text(text[..MAX_TEXT - 3] + "...")
    case Many(items) => Many(SafeItems(lower, v, Min(|items|, MAX_ITEMS)))
    case Dict(entries) => Dict(SafeEntries(lower, v, Min(|entries|, MAX_ENTRIES)))
  }

  function SafeItems(lower: string -> string, v: TraceValue, n: nat): (r: seq<TraceValue>)
    requires v.Many? && n <= |v.items|
    ensures |r| == n
    decreases v, 0, n
  {
    if n == 0 then [] else SafeItems(lower, v, n - 1) + [SafeValue(lower, v.items[n - 1])]
  }

  function SafeEntries(lower: string -> string, v: TraceValue, n: nat): (r: seq<(string, TraceValue)>)
    requires v.Dict? && n <= |v.entries|
    ensures |r| <= n
    decreases v, 0, n
  {
    if n == 0 then []
    else
      var (key, item) := v.entries[n - 1];
      SafeEntries(lower, v, n - 1) + (if LooksSensitive(lower, key) then [] else [(key, SafeValue(lower, item))])
  }

  /** At every depth: no sensitive key, and texts, lists and dictionaries within their
      bounds. */
  ghost predicate Safe(lower: string -> string, v: TraceValue)
    decreases v
  {
    match v
    case Atom(_) => true
    case Text(text) => |text| <= MAX_TEXT
    case Many(items) => |items| <= MAX_ITEMS && forall i :: 0 <= i < |items| ==> Safe(lower, items[i])
    case Dict(entries) =>
      |entries| <= MAX_ENTRIES && forall i :: 0 <= i < |entries| ==> !LooksSensitive(lower, entries[i].0) && Safe(lower, entries[i].1)
  }

  lemma {:induction false} SafeItemsAreSafe(lower: string -> string, v: TraceValue, n: nat)
    requires v.Many? && n <= |v.items|
    ensures forall i :: 0 <= i < n ==> Safe(lower, SafeItems(lower, v, n)[i])
    decreases v, 0, n
  {
    if n > 0 {
      SafeItemsAreSafe(lower, v, n - 1);
      OutputIsSafe(lower, v.items[n - 1]);
    }
  }

  lemma {:induction false} SafeEntriesAreSafe(lower: string -> string, v: TraceValue, n: nat)
    requires v.Dict? && n <= |v.entries|
    ensures forall i :: 0 <= i < |SafeEntries(lower, v, n)| ==> !LooksSensitive(lower, SafeEntries(lower, v, n)[i].0) && Safe(lower, SafeEntries(lower, v, n)[i].1)
    decreases v, 0, n
  {
    if n > 0 {
      SafeEntriesAreSafe(lower, v, n - 1);
      OutputIsSafe(lower, v.entries[n - 1].1);
    }
  }

  /** The output is safe, whatever the input. */
  lemma {:induction false} OutputIsSafe(lower: string -> string, v: TraceValue)
    ensures Safe(lower, SafeValue(lower, v))
    decreases v, 1, 0
  {
    match v
    case Atom(_) =>
    case Text(_) =>
    case Many(items) => SafeItemsAreSafe(lower, v, Min(|items|, MAX_ITEMS));
    case Dict(entries) => SafeEntriesAreSafe(lower, v, Min(|entries|, MAX_ENTRIES));
  }

  lemma {:induction false} SafeItemsKeep(lower: string -> string, v: TraceValue, n: nat)
    requires v.Many? && n <= |v.items| && forall i :: 0 <= i < |v.items| ==> Safe(lower, v.items[i])
    ensures SafeItems(lower, v, n) == v.items[..n]
    decreases v, 0, n
  {
    if n > 0 {
      SafeItemsKeep(lower, v, n - 1);
      SafeIsKept(lower, v.items[n - 1]);
      assert v.items[..n] == v.items[..n - 1] + [v.items[n - 1]];
    }
  }

  lemma {:induction false} SafeEntriesKeep(lower: string -> string, v: TraceValue, n: nat)
    requires v.Dict? && n <= |v.entries|
    requires forall i :: 0 <= i < |v.entries| ==> !LooksSensitive(lower, v.entries[i].0) && Safe(lower, v.entries[i].1)
    ensures SafeEntries(lower, v, n) == v.entries[..n]
    decreases v, 0, n
  {
    if n > 0 {
      SafeEntriesKeep(lower, v, n - 1);
      SafeIsKept(lower, v.entries[n - 1].1);
      assert v.entries[..n] == v.entries[..n - 1] + [v.entries[n - 1]];
    }
  }

  lemma {:induction false} SafeIsKept(lower: string -> string, v: TraceValue)
    requires Safe(lower, v)
    ensures SafeValue(lower, v) == v
    decreases v, 1, 0
  {
    match v
    case Atom(_) =>
    case Text(_) =>
    case Many(items) =>
      SafeItemsKeep(lower, v, |items|);
      assert items[..|items|] == items;
    case Dict(entries) =>
      SafeEntriesKeep(lower, v, |entries|);
      assert entries[..|entries|] == entries;
  }

  /** The sanitizer changes exactly the values that are not safe, so it is idempotent. */
  lemma FixedExactlyOnSafe(lower: string -> string, v: TraceValue)
    ensures SafeValue(lower, v) == v <==> Safe(lower, v)
    ensures SafeValue(lower, SafeValue(lower, v)) == SafeValue(lower, v)
  {
    OutputIsSafe(lower, v);
    SafeIsKept(lower, SafeValue(lower, v));
    if Safe(lower, v) {
      SafeIsKept(lower, v);
    }
  }

  // ----- adapter results -----

  datatype AdapterValue =
    | JAtom(id: int)                           // null, booleans, finite numbers
    | JNotFinite
    | JText(text: string)
    | JList(items: seq<AdapterValue>)
    | JObject(entries: seq<(string, AdapterValue)>)

  datatype Refusal = Bounds | DuplicateKeys | ForbiddenKey | TextTooLong | HoldsSecret | HoldsLocator | NotFinite | TooLong

  /** The parts that are library code: composition and case folding of a key, and the
      length of the canonical encoding; and the secrets the deployment configured. */
  datatype Rules = Rules(casefold: string -> string, bytes: AdapterValue -> nat, secrets: set<string>)

  const MAX_DEPTH: nat := 4
  const MAX_WIDTH: nat := 16
  const MAX_BYTES: nat := 4096
  const DENIED_KEYS: set<string> := {
    "authorization", "api_key", "apikey", "access_token", "token", "secret", "signature", "sig", "key", "cookie",
    "set_cookie", "url", "uri", "path", "file_path", "group_id", "sender_id", "tenant_ref", "principal_ref",
    "direct_thread_ref", "target_id", "receiver", "webhook", "resolve_ref" }

  /** Hyphens and spaces become underscores. */
  function Underscored(s: string): string {
    seq(|s|, i requires 0 <= i < |s| => if s[i] == '-' || s[i] == ' ' then '_' else s[i])
  }

  function Folded(rules: Rules, raw: string): string {
    Underscored(rules.casefold(raw))
  }

  /** The text looks like an address or a path. */
  predicate RawLocator(text: string) {
    text != "" &&
    (Contains(text, "://") || Contains(text, "/") || Contains(text, "\\") || Contains(text, "file:") || text[0] == '~')
  }

  function CanonicalKey(rules: Rules, raw: string): Result<string, Refusal> {
    var key := Folded(rules, raw);
    if key == "" || key in DENIED_KEYS then Err(ForbiddenKey) else Ok(key)
  }

  function TextFault(rules: Rules, text: string): Option<Refusal> {
    if |text| > 256 then Some(TextTooLong)
    else if exists s :: s in rules.secrets && Contains(text, s) then Some(HoldsSecret)
    else if RawLocator(text) then Some(HoldsLocator)
    else None
  }

  function Sanitize(rules: Rules, v: AdapterValue, depth: nat): Result<AdapterValue, Refusal>
    decreases v, 1, 0
  {
    match v
    case JObject(entries) =>
      if depth > MAX_DEPTH || |entries| > MAX_WIDTH then Err(Bounds)
      else
        var r :- SanitizeEntries(rules, v, |entries|, depth);
        Ok(JObject(r))
    case JList(items) =>
      if depth > MAX_DEPTH || |items| > MAX_WIDTH then Err(Bounds)
      else
        var r :- SanitizeItems(rules, v, |items|, depth);
        Ok(JList(r))
    case JText(text) => (match TextFault(rules, text) case Some(e) => Err(e) case None => Ok(v))
    case JAtom(_) => Ok(v)
    case JNotFinite => Err(NotFinite)
  }

  function SanitizeItems(rules: Rules, v: AdapterValue, n: nat, depth: nat): (r: Result<seq<AdapterValue>, Refusal>)
    requires v.JList? && n <= |v.items|
    ensures r.Ok? ==> |r.value| == n
    decreases v, 0, n
  {
    if n == 0 then Ok([])
    else
      var front :- SanitizeItems(rules, v, n - 1, depth);
      var last :- Sanitize(rules, v.items[n - 1], depth + 1);
      Ok(front + [last])
  }

  predicate HasKey(entries: seq<(string, AdapterValue)>, key: string) {
    exists i :: 0 <= i < |entries| && entries[i].0 == key
  }

  function SanitizeEntries(rules: Rules, v: AdapterValue, n: nat, depth: nat): (r: Result<seq<(string, AdapterValue)>, Refusal>)
    requires v.JObject? && n <= |v.entries|
    ensures r.Ok? ==> |r.value| == n
    decreases v, 0, n
  {
    if n == 0 then Ok([])
    else
      var front :- SanitizeEntries(rules, v, n - 1, depth);
      var key :- CanonicalKey(rules, v.entries[n - 1].0);
      if HasKey(front, key) then Err(DuplicateKeys)
      else
        var last :- Sanitize(rules, v.entries[n - 1].1, depth + 1);
        Ok(front + [(key, last)])
  }

  lemma {:induction false} ItemsErrorStays(rules: Rules, v: AdapterValue, n: nat, m: nat, depth: nat)
    requires v.JList? && n <= m <= |v.items| && SanitizeItems(rules, v, n, depth).Err?
    ensures SanitizeItems(rules, v, m, depth) == SanitizeItems(rules, v, n, depth)
  {
    if n < m {
      ItemsErrorStays(rules, v, n, m - 1, depth);
    }
  }

  lemma {:induction false} EntriesErrorStays(rules: Rules, v: AdapterValue, n: nat, m: nat, depth: nat)
    requires v.JObject? && n <= m <= |v.entries| && SanitizeEntries(rules, v, n, depth).Err?
    ensures SanitizeEntries(rules, v, m, depth) == SanitizeEntries(rules, v, n, depth)
  {
    if n < m {
      EntriesErrorStays(rules, v, n, m - 1, depth);
    }
  }

  /** The two recursive procedures, with their loops. */
  method SanitizeValue(rules: Rules, v: AdapterValue, depth: nat) returns (r: Result<AdapterValue, Refusal>)
    ensures r == Sanitize(rules, v, depth)
    decreases v, 1
  {
    if v.JObject? {
      r := SanitizeObject(rules, v, depth);
    } else if v.JList? {
      if depth > MAX_DEPTH || |v.items| > MAX_WIDTH {
        return Err(Bounds);
      }
      var out: seq<AdapterValue> := [];
      for i := 0 to |v.items|
        invariant SanitizeItems(rules, v, i, depth) == Ok(out)
      {
        var item := SanitizeValue(rules, v.items[i], depth + 1);
        if item.Err? {
          ItemsErrorStays(rules, v, i + 1, |v.items|, depth);
          return item;
        }
        out := out + [item.value];
      }
      r := Ok(JList(out));
    } else if v.JText? {
      var fault := TextFault(rules, v.text);
      r := if fault.Some? then Err(fault.value) else Ok(v);
    } else if v.JAtom? {
      r := Ok(v);
    } else {
      r := Err(NotFinite);
    }
  }

  method SanitizeObject(rules: Rules, v: AdapterValue, depth: nat) returns (r: Result<AdapterValue, Refusal>)
    requires v.JObject?
    ensures r == Sanitize(rules, v, depth)
    decreases v, 0
  {
    if depth > MAX_DEPTH || |v.entries| > MAX_WIDTH {
      return Err(Bounds);
    }
    var normalized: seq<(string, AdapterValue)> := [];
    for i := 0 to |v.entries|
      invariant SanitizeEntries(rules, v, i, depth) == Ok(normalized)
    {
      var key := CanonicalKey(rules, v.entries[i].0);
      if key.Err? {
        EntriesErrorStays(rules, v, i + 1, |v.entries|, depth);
        return Err(key.error);
      }
      if HasKey(normalized, key.value) {
        EntriesErrorStays(rules, v, i + 1, |v.entries|, depth);
        return Err(DuplicateKeys);
      }
      var nested := SanitizeValue(rules, v.entries[i].1, depth + 1);
      if nested.Err? {
        EntriesErrorStays(rules, v, i + 1, |v.entries|, depth);
        return nested;
      }
      normalized := normalized + [(key.value, nested.value)];
    }
    r := Ok(JObject(normalized));
  }

  /** The validator of a whole result: sanitize from depth 1, then bound the size. */
  function Validated(rules: Rules, v: AdapterValue): Result<AdapterValue, Refusal> {
    var w :- Sanitize(rules, v, 1);
    if rules.bytes(w) > MAX_BYTES then Err(TooLong) else Ok(w)
  }

  method ValidateValues(rules: Rules, v: AdapterValue) returns (r: Result<AdapterValue, Refusal>)
    requires v.JObject?
    ensures r == Validated(rules, v)
  {
    r := SanitizeObject(rules, v, 1);
    if r.Ok? && rules.bytes(r.value) > MAX_BYTES {
      r := Err(TooLong);
    }
  }

  // ----- what an accepted result looks like -----

  /** At this depth and below: containers at most four deep and sixteen wide, clean
      texts, finite numbers, and distinct keys that are neither empty nor denied. */
  ghost predicate Clean(rules: Rules, v: AdapterValue, depth: nat)
    decreases v
  {
    match v
    case JObject(entries) =>
      && depth <= MAX_DEPTH && |entries| <= MAX_WIDTH
      && (forall i :: 0 <= i < |entries| ==> entries[i].0 != "" && entries[i].0 !in DENIED_KEYS && Clean(rules, entries[i].1, depth + 1))
      && (forall i, j :: 0 <= i < j < |entries| ==> entries[i].0 != entries[j].0)
    case JList(items) =>
      depth <= MAX_DEPTH && |items| <= MAX_WIDTH && forall i :: 0 <= i < |items| ==> Clean(rules, items[i], depth + 1)
    case JText(text) => TextFault(rules, text).None?
    case JAtom(_) => true
    case JNotFinite => false
  }

  /** Folding leaves every key of the value alone. */
  ghost predicate FoldedKeys(rules: Rules, v: AdapterValue)
    decreases v
  {
    match v
    case JObject(entries) => forall i :: 0 <= i < |entries| ==> Folded(rules, entries[i].0) == entries[i].0 && FoldedKeys(rules, entries[i].1)
    case JList(items) => forall i :: 0 <= i < |items| ==> FoldedKeys(rules, items[i])
    case _ => true
  }

  lemma {:induction false} ItemsClean(rules: Rules, v: AdapterValue, n: nat, depth: nat)
    requires v.JList? && n <= |v.items| && SanitizeItems(rules, v, n, depth).Ok?
    ensures forall i :: 0 <= i < n ==> Clean(rules, SanitizeItems(rules, v, n, depth).value[i], depth + 1)
    decreases v, 0, n
  {
    if n > 0 {
      ItemsClean(rules, v, n - 1, depth);
      AcceptedIsClean(rules, v.items[n - 1], depth + 1);
    }
  }

  lemma {:induction false} EntriesClean(rules: Rules, v: AdapterValue, n: nat, depth: nat)
    requires v.JObject? && n <= |v.entries| && SanitizeEntries(rules, v, n, depth).Ok?
    ensures var r := SanitizeEntries(rules, v, n, depth).value;
      && (forall i :: 0 <= i < n ==> r[i].0 != "" && r[i].0 !in DENIED_KEYS && Clean(rules, r[i].1, depth + 1))
      && (forall i, j :: 0 <= i < j < n ==> r[i].0 != r[j].0)
    decreases v, 0, n
  {
    if n > 0 {
      EntriesClean(rules, v, n - 1, depth);
      AcceptedIsClean(rules, v.entries[n - 1].1, depth + 1);
    }
  }

  /** Everything the sanitizer accepts comes out clean. */
  lemma {:induction false} AcceptedIsClean(rules: Rules, v: AdapterValue, depth: nat)
    requires Sanitize(rules, v, depth).Ok?
    ensures Clean(rules, Sanitize(rules, v, depth).value, depth)
    decreases v, 1, 0
  {
    match v
    case JObject(entries) => EntriesClean(rules, v, |entries|, depth);
    case JList(items) => ItemsClean(rules, v, |items|, depth);
    case JText(_) =>
    case JAtom(_) =>
    case JNotFinite =>
  }

  lemma {:induction false} ItemsFixed(rules: Rules, v: AdapterValue, n: nat, depth: nat)
    requires v.JList? && n <= |v.items| && forall i :: 0 <= i < |v.items| ==> Clean(rules, v.items[i], depth + 1)
    ensures SanitizeItems(rules, v, n, depth) == Ok(v.items[..n]) <==> forall i :: 0 <= i < n ==> FoldedKeys(rules, v.items[i])
    decreases v, 0, n
  {
    hide Clean, FoldedKeys, Sanitize, SanitizeEntries;
    if n > 0 {
      ItemsFixed(rules, v, n - 1, depth);
      CleanFixedExactly(rules, v.items[n - 1], depth + 1);
      assert v.items[..n] == v.items[..n - 1] + [v.items[n - 1]];
      var r := SanitizeItems(rules, v, n, depth);
      if r == Ok(v.items[..n]) {
        assert r.value[..n - 1] == v.items[..n - 1];
        assert SanitizeItems(rules, v, n - 1, depth).value == r.value[..n - 1];
      }
    }
  }

  lemma {:induction false} EntriesFixed(rules: Rules, v: AdapterValue, n: nat, depth: nat)
    requires v.JObject? && n <= |v.entries|
    requires forall i :: 0 <= i < |v.entries| ==>
      v.entries[i].0 != "" && v.entries[i].0 !in DENIED_KEYS && Clean(rules, v.entries[i].1, depth + 1)
    requires forall i, j :: 0 <= i < j < |v.entries| ==> v.entries[i].0 != v.entries[j].0
    ensures SanitizeEntries(rules, v, n, depth) == Ok(v.entries[..n]) <==>
      forall i :: 0 <= i < n ==> Folded(rules, v.entries[i].0) == v.entries[i].0 && FoldedKeys(rules, v.entries[i].1)
    decreases v, 0, n
  {
    hide Clean, FoldedKeys, Sanitize, SanitizeItems;
    if n > 0 {
      EntriesFixed(rules, v, n - 1, depth);
      CleanFixedExactly(rules, v.entries[n - 1].1, depth + 1);
      assert v.entries[..n] == v.entries[..n - 1] + [v.entries[n - 1]];
      assert !HasKey(v.entries[..n - 1], v.entries[n - 1].0);
      var r := SanitizeEntries(rules, v, n, depth);
      if r == Ok(v.entries[..n]) {
        assert r.value[..n - 1] == v.entries[..n - 1];
        assert SanitizeEntries(rules, v, n - 1, depth).value == r.value[..n - 1];
      }
    }
  }

  /** A clean value passes unchanged exactly if folding leaves its keys alone. */
  lemma {:induction false} CleanFixedExactly(rules: Rules, v: AdapterValue, depth: nat)
    requires Clean(rules, v, depth)
    ensures Sanitize(rules, v, depth) == Ok(v) <==> FoldedKeys(rules, v)
    decreases v, 1, 0
  {
    match v
    case JObject(entries) =>
      EntriesFixed(rules, v, |entries|, depth);
      assert entries[..|entries|] == entries;
    case JList(items) =>
      ItemsFixed(rules, v, |items|, depth);
      assert items[..|items|] == items;
    case JText(_) =>
    case JAtom(_) =>
  }

  /** Folding a key of this value twice is folding it once, at every depth. */
  ghost predicate StableFolding(rules: Rules, v: AdapterValue)
    decreases v
  {
    match v
    case JObject(entries) =>
      forall i :: 0 <= i < |entries| ==>
        Folded(rules, Folded(rules, entries[i].0)) == Folded(rules, entries[i].0) && StableFolding(rules, entries[i].1)
    case JList(items) => forall i :: 0 <= i < |items| ==> StableFolding(rules, items[i])
    case _ => true
  }

  lemma {:induction false} ItemAt(rules: Rules, v: AdapterValue, n: nat, depth: nat, i: nat)
    requires v.JList? && i < n <= |v.items| && SanitizeItems(rules, v, n, depth).Ok?
    ensures Sanitize(rules, v.items[i], depth + 1) == Ok(SanitizeItems(rules, v, n, depth).value[i])
  {
    if i < n - 1 {
      ItemAt(rules, v, n - 1, depth, i);
    }
  }

  lemma {:induction false} EntryAt(rules: Rules, v: AdapterValue, n: nat, depth: nat, i: nat)
    requires v.JObject? && i < n <= |v.entries| && SanitizeEntries(rules, v, n, depth).Ok?
    ensures SanitizeEntries(rules, v, n, depth).value[i].0 == Folded(rules, v.entries[i].0)
    ensures Sanitize(rules, v.entries[i].1, depth + 1) == Ok(SanitizeEntries(rules, v, n, depth).value[i].1)
  {
    if i < n - 1 {
      EntryAt(rules, v, n - 1, depth, i);
    }
  }

  /** Whether the output has only folded keys can be read off the input. */
  lemma {:induction false} FoldedExactly(rules: Rules, v: AdapterValue, depth: nat)
    requires Sanitize(rules, v, depth).Ok?
    ensures FoldedKeys(rules, Sanitize(rules, v, depth).value) <==> StableFolding(rules, v)
    decreases v
  {
    match v
    case JObject(entries) =>
      forall i | 0 <= i < |entries|
        ensures var e := Sanitize(rules, v, depth).value.entries[i];
          && e.0 == Folded(rules, entries[i].0)
          && (FoldedKeys(rules, e.1) <==> StableFolding(rules, entries[i].1))
      {
        EntryAt(rules, v, |entries|, depth, i);
        FoldedExactly(rules, entries[i].1, depth + 1);
      }
    case JList(items) =>
      forall i | 0 <= i < |items|
        ensures FoldedKeys(rules, Sanitize(rules, v, depth).value.items[i]) <==> StableFolding(rules, items[i])
      {
        ItemAt(rules, v, |items|, depth, i);
        FoldedExactly(rules, items[i], depth + 1);
      }
    case JText(_) =>
    case JAtom(_) =>
    case JNotFinite =>
  }

  /** An accepted value's output is accepted again and unchanged exactly if folding is
      stable on the keys of the input; the same for whole results. */
  lemma OutputFixedExactly(rules: Rules, v: AdapterValue, depth: nat)
    ensures Sanitize(rules, v, depth).Ok? ==>
      (Sanitize(rules, Sanitize(rules, v, depth).value, depth) == Sanitize(rules, v, depth) <==> StableFolding(rules, v))
    ensures Validated(rules, v).Ok? ==>
      (Validated(rules, Validated(rules, v).value) == Validated(rules, v) <==> StableFolding(rules, v))
  {
    if Sanitize(rules, v, depth).Ok? {
      AcceptedIsClean(rules, v, depth);
      CleanFixedExactly(rules, Sanitize(rules, v, depth).value, depth);
      FoldedExactly(rules, v, depth);
    }
    if Validated(rules, v).Ok? {
      AcceptedIsClean(rules, v, 1);
      CleanFixedExactly(rules, Validated(rules, v).value, 1);
      FoldedExactly(rules, v, 1);
    }
  }

  const SHARP_S_ACUTE: string := "\U{00DF}\U{0301}"
  const SS_ACUTE: string := "ss\U{0301}"
  const S_S_ACUTE: string := "s\U{015B}"

  /** Folding that acts on these keys as composition and case folding do: case folding
      takes the first to the second, composing the second gives the third. */
  ghost predicate FoldsSharpS(rules: Rules) {
    rules.casefold(SHARP_S_ACUTE) == SS_ACUTE && rules.casefold(SS_ACUTE) == S_S_ACUTE
  }

  /** A result that is accepted, and whose output is accepted again but changed. */
  lemma OutputNotFixed(rules: Rules)
    requires FoldsSharpS(rules)
    requires rules.bytes(JObject([(SS_ACUTE, JAtom(0))])) <= MAX_BYTES && rules.bytes(JObject([(S_S_ACUTE, JAtom(0))])) <= MAX_BYTES
    ensures Validated(rules, JObject([(SHARP_S_ACUTE, JAtom(0))])) == Ok(JObject([(SS_ACUTE, JAtom(0))]))
    ensures Validated(rules, JObject([(SS_ACUTE, JAtom(0))])) == Ok(JObject([(S_S_ACUTE, JAtom(0))]))
    ensures JObject([(SS_ACUTE, JAtom(0))]) != JObject([(S_S_ACUTE, JAtom(0))])
  {
    assert Underscored(SS_ACUTE) == SS_ACUTE && Underscored(S_S_ACUTE) == S_S_ACUTE;
    OneKey(rules, SHARP_S_ACUTE);
    OneKey(rules, SS_ACUTE);
    assert |SS_ACUTE| == 3 && |S_S_ACUTE| == 2;
  }

  lemma OneKey(rules: Rules, key: string)
    requires Folded(rules, key) != "" && Folded(rules, key) !in DENIED_KEYS
    ensures Sanitize(rules, JObject([(key, JAtom(0))]), 1) == Ok(JObject([(Folded(rules, key), JAtom(0))]))
  {
    var v := JObject([(key, JAtom(0))]);
    assert SanitizeEntries(rules, v, 0, 1) == Ok([]);
    assert !HasKey([], Folded(rules, key));
    assert SanitizeEntries(rules, v, 1, 1) == Ok([] + [(Folded(rules, key), JAtom(0))]);
    assert [] + [(Folded(rules, key), JAtom(0))] == [(Folded(rules, key), JAtom(0))];
  }

  // ----- size -----

  function Leaves(v: AdapterValue): nat
    decreases v, 1, 0
  {
    match v
    case JObject(entries) => EntryLeaves(v, |entries|)
    case JList(items) => ItemLeaves(v, |items|)
    case _ => 1
  }

  function ItemLeaves(v: AdapterValue, n: nat): nat
    requires v.JList? && n <= |v.items|
    decreases v, 0, n
  {
    if n == 0 then 0 else ItemLeaves(v, n - 1) + Leaves(v.items[n - 1])
  }

  function EntryLeaves(v: AdapterValue, n: nat): nat
    requires v.JObject? && n <= |v.entries|
    decreases v, 0, n
  {
    if n == 0 then 0 else EntryLeaves(v, n - 1) + Leaves(v.entries[n - 1].1)
  }

  /** How many leaves fit below a value at this depth. */
  function Room(depth: nat): nat {
    if depth <= 1 then 65536 else if depth == 2 then 4096 else if depth == 3 then 256 else if depth == 4 then 16 else 1
  }

  lemma {:induction false} ItemsFit(rules: Rules, v: AdapterValue, n: nat, depth: nat)
    requires v.JList? && n <= |v.items| && Clean(rules, v, depth) && depth >= 1
    ensures ItemLeaves(v, n) <= n * Room(depth + 1)
    decreases v, 0, n
  {
    if n > 0 {
      ItemsFit(rules, v, n - 1, depth);
      LeavesFit(rules, v.items[n - 1], depth + 1);
    }
  }

  lemma {:induction false} EntriesFit(rules: Rules, v: AdapterValue, n: nat, depth: nat)
    requires v.JObject? && n <= |v.entries| && Clean(rules, v, depth) && depth >= 1
    ensures EntryLeaves(v, n) <= n * Room(depth + 1)
    decreases v, 0, n
  {
    if n > 0 {
      EntriesFit(rules, v, n - 1, depth);
      LeavesFit(rules, v.entries[n - 1].1, depth + 1);
    }
  }

  /** A clean result has at most 16^4 leaves. */
  lemma {:induction false} LeavesFit(rules: Rules, v: AdapterValue, depth: nat)
    requires Clean(rules, v, depth) && depth >= 1
    ensures Leaves(v) <= Room(depth)
    decreases v, 1, 0
  {
    match v
    case JObject(entries) =>
      EntriesFit(rules, v, |entries|, depth);
      assert |entries| * Room(depth + 1) <= 16 * Room(depth + 1) == Room(depth);
    case JList(items) =>
      ItemsFit(rules, v, |items|, depth);
      assert |items| * Room(depth + 1) <= 16 * Room(depth + 1) == Room(depth);
    case JText(_) =>
    case JAtom(_) =>
  }
}
