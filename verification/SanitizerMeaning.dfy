/** What the two sanitizers make of a value, told from the value alone. */
module SanitizerMeaning {
  import opened Concatenation
  import opened Sanitizers
  import opened Numbers
  import opened Wrappers

  // ----- texts that hold a text -----

  ghost predicate SplitAround(s: string, before: string, part: string, after: string) {
    s == before + part + after
  }

  ghost predicate Holds(s: string, part: string) {
    exists before: string, after: string :: SplitAround(s, before, part, after)
  }

  lemma HoldsExactly(s: string, part: string)
    ensures Holds(s, part) <==> Contains(s, part)
  {
    if Contains(s, part) {
      var i :| 0 <= i <= |s| && OccursAt(s, part, i);
      assert s == s[..i] + s[i..i + |part|] + s[i + |part|..];
      assert SplitAround(s, s[..i], part, s[i + |part|..]);
    }
    if Holds(s, part) {
      var before, after :| SplitAround(s, before, part, after);
      assert OccursAt(s, part, |before|);
    }
  }

  // ----- trace values -----

  ghost predicate Sensitive(lower: string -> string, key: string) {
    Holds(lower(key), "api_key") || Holds(lower(key), "token") || Holds(lower(key), "secret") || Holds(lower(key), "password")
  }

  lemma SensitiveExactly(lower: string -> string, key: string)
    ensures Sensitive(lower, key) <==> LooksSensitive(lower, key)
  {
    hide Holds, Contains;
    HoldsExactly(lower(key), "api_key");
    HoldsExactly(lower(key), "token");
    HoldsExactly(lower(key), "secret");
    HoldsExactly(lower(key), "password");
    assert forall p :: p in SENSITIVE_PARTS <==> p == SENSITIVE_PARTS[0] || p == SENSITIVE_PARTS[1] || p == SENSITIVE_PARTS[2] || p == SENSITIVE_PARTS[3];
  }

  /** The first `n` entries without those of a sensitive key stand at these positions. */
  ghost predicate KeptAt(lower: string -> string, entries: seq<(string, TraceValue)>, n: nat, at: seq<nat>) {
    && Ascending(at)
    && forall i: nat :: i in at <==> i < n && i < |entries| && !Sensitive(lower, entries[i].0)
  }

  /** `w` is what is left of `v`: texts of up to 300 characters as they are, longer ones
      their first 297 and three dots; of lists the first twenty items, and of dictionaries
      those of the first fifty entries whose key is not sensitive, in their order, each
      cut down in the same way. */
  ghost predicate CutDown(lower: string -> string, v: TraceValue, w: TraceValue)
    decreases v
  {
    match v
    case Atom(_) => w == v
    case Text(text) => w.Text? && (if |text| <= 300 then w.text == text else w.text == text[..297] + "...")
    case Many(items) =>
      && w.Many? && |w.items| <= |items| && |w.items| <= 20 && (|w.items| == |items| || |w.items| == 20)
      && forall i :: 0 <= i < |w.items| ==> CutDown(lower, items[i], w.items[i])
    case Dict(entries) =>
      && w.Dict?
      && exists at: seq<nat> ::
           && KeptAt(lower, entries, 50, at) && |at| == |w.entries|
           && forall k :: 0 <= k < |at| && at[k] < |entries| ==>
                w.entries[k].0 == entries[at[k]].0 && CutDown(lower, entries[at[k]].1, w.entries[k].1)
  }

  lemma {:induction false} SafeItemAt(lower: string -> string, v: TraceValue, n: nat, i: nat)
    requires v.Many? && i < n <= |v.items|
    ensures SafeItems(lower, v, n)[i] == SafeValue(lower, v.items[i])
  {
    if i < n - 1 {
      SafeItemAt(lower, v, n - 1, i);
    }
  }

  ghost predicate EntriesFrom(lower: string -> string, v: TraceValue, at: seq<nat>, out: seq<(string, TraceValue)>)
    requires v.Dict?
  {
    && |at| == |out|
    && forall k :: 0 <= k < |at| ==>
         at[k] < |v.entries| && out[k] == (v.entries[at[k]].0, SafeValue(lower, v.entries[at[k]].1))
  }

  lemma KeptStep(lower: string -> string, entries: seq<(string, TraceValue)>, n: nat, at: seq<nat>)
    requires n < |entries| && KeptAt(lower, entries, n, at)
    ensures KeptAt(lower, entries, n + 1, if Sensitive(lower, entries[n].0) then at else at + [n])
  {
    hide Sensitive;
    var more := if Sensitive(lower, entries[n].0) then at else at + [n];
    assert forall k :: 0 <= k < |at| ==> at[k] in at;
    forall i: nat ensures i in more <==> i < n + 1 && !Sensitive(lower, entries[i].0) {
      assert i in more <==> i in at || (i == n && !Sensitive(lower, entries[n].0));
    }
  }

  lemma EntriesStep(lower: string -> string, v: TraceValue, n: nat, at: seq<nat>)
    requires v.Dict? && n < |v.entries| && EntriesFrom(lower, v, at, SafeEntries(lower, v, n))
    ensures EntriesFrom(lower, v, if Sensitive(lower, v.entries[n].0) then at else at + [n], SafeEntries(lower, v, n + 1))
  {
    hide Sensitive, LooksSensitive, SafeValue;
    SensitiveExactly(lower, v.entries[n].0);
    var out, more := SafeEntries(lower, v, n), SafeEntries(lower, v, n + 1);
    assert more == out + (if LooksSensitive(lower, v.entries[n].0) then [] else [(v.entries[n].0, SafeValue(lower, v.entries[n].1))]);
  }

  lemma NoEntries(lower: string -> string, v: TraceValue)
    requires v.Dict?
    ensures KeptAt(lower, v.entries, 0, []) && EntriesFrom(lower, v, [], SafeEntries(lower, v, 0))
  {
    hide Sensitive, LooksSensitive, SafeValue;
  }

  lemma {:induction false} SafeEntriesAt(lower: string -> string, v: TraceValue, n: nat) returns (at: seq<nat>)
    requires v.Dict? && n <= |v.entries|
    ensures KeptAt(lower, v.entries, n, at) && EntriesFrom(lower, v, at, SafeEntries(lower, v, n))
  {
    hide *;
    if n == 0 {
      at := [];
      NoEntries(lower, v);
    } else {
      var front := SafeEntriesAt(lower, v, n - 1);
      KeptStep(lower, v.entries, n - 1, front);
      EntriesStep(lower, v, n - 1, front);
      at := if Sensitive(lower, v.entries[n - 1].0) then front else front + [n - 1];
    }
  }

  /** The sanitizer returns what is left, and nothing else is. */
  lemma {:induction false} SafeValueExactly(lower: string -> string, v: TraceValue, w: TraceValue)
    ensures CutDown(lower, v, w) <==> w == SafeValue(lower, v)
    decreases v
  {
    match v
    case Atom(_) =>
    case Text(_) =>
    case Many(items) =>
      var n := Min(|items|, 20);
      if w.Many? && |w.items| == n {
        forall i | 0 <= i < n
          ensures CutDown(lower, items[i], w.items[i]) <==> w.items[i] == SafeItems(lower, v, n)[i]
        {
          SafeItemAt(lower, v, n, i);
          SafeValueExactly(lower, items[i], w.items[i]);
        }
        assert w.items == SafeItems(lower, v, n) <==> forall i :: 0 <= i < n ==> w.items[i] == SafeItems(lower, v, n)[i];
      }
    case Dict(entries) => SafeDictExactly(lower, v, w);
  }

  lemma {:induction false} SafeDictExactly(lower: string -> string, v: TraceValue, w: TraceValue)
    requires v.Dict?
    ensures CutDown(lower, v, w) <==> w == SafeValue(lower, v)
    decreases v, 0
  {
    hide Sensitive, LooksSensitive, KeptAt;
    var n := Min(|v.entries|, 50);
    var at := SafeEntriesAt(lower, v, n);
    var out := SafeEntries(lower, v, n);
    SamePositions(lower, v.entries, n, at, at);
    if w.Dict? {
      forall k | 0 <= k < |at| && k < |w.entries|
        ensures CutDown(lower, v.entries[at[k]].1, w.entries[k].1) <==> w.entries[k].1 == out[k].1
      {
        SafeValueExactly(lower, v.entries[at[k]].1, w.entries[k].1);
      }
      if CutDown(lower, v, w) {
        var other: seq<nat> :| KeptAt(lower, v.entries, 50, other) && |other| == |w.entries| && forall k :: 0 <= k < |other| && other[k] < |v.entries| ==>
          w.entries[k].0 == v.entries[other[k]].0 && CutDown(lower, v.entries[other[k]].1, w.entries[k].1);
        SamePositions(lower, v.entries, n, at, other);
        assert w.entries == out;
      }
    }
  }

  lemma SamePositions(lower: string -> string, entries: seq<(string, TraceValue)>, n: nat, a: seq<nat>, b: seq<nat>)
    requires n == Min(|entries|, 50) && KeptAt(lower, entries, n, a)
    ensures KeptAt(lower, entries, 50, a)
    ensures KeptAt(lower, entries, 50, b) ==> a == b
  {
    if KeptAt(lower, entries, 50, b) {
      AscendingUnique(a, b);
    }
  }

  // ----- adapter results -----

  /** A text with this in it would be an address or a path. */
  ghost predicate Locates(text: string) {
    Holds(text, "/") || Holds(text, "\\") || Holds(text, "file:") || "~" <= text
  }

  /** The test on a scheme separator never decides: there is a slash in it. */
  lemma LocatesExactly(text: string)
    ensures Locates(text) <==> RawLocator(text)
  {
    HoldsExactly(text, "/");
    HoldsExactly(text, "\\");
    HoldsExactly(text, "file:");
    HoldsExactly(text, "://");
    if Contains(text, "://") {
      var i :| 0 <= i <= |text| && OccursAt(text, "://", i);
      assert text[i..i + 3][1] == text[i + 1];
      assert text[i + 1..i + 2] == [text[i + 1]];
      assert OccursAt(text, "/", i + 1);
    }
  }

  ghost predicate ForbiddenName(key: string) {
    key == "" || key in [
      "authorization", "api_key", "apikey", "access_token", "token", "secret", "signature", "sig", "key", "cookie",
      "set_cookie", "url", "uri", "path", "file_path", "group_id", "sender_id", "tenant_ref", "principal_ref",
      "direct_thread_ref", "target_id", "receiver", "webhook", "resolve_ref"]
  }

  /** The text is refused for this reason. */
  ghost predicate RefusedText(rules: Rules, text: string, e: Refusal) {
    var secret := exists s :: s in rules.secrets && Holds(text, s);
    match e
    case TextTooLong => |text| > 256
    case HoldsSecret => |text| <= 256 && secret
    case HoldsLocator => |text| <= 256 && !secret && Locates(text)
    case _ => false
  }

  lemma RefusedTextExactly(rules: Rules, text: string, e: Refusal)
    ensures RefusedText(rules, text, e) <==> TextFault(rules, text) == Some(e)
  {
    hide Holds, Contains, Locates, RawLocator;
    LocatesExactly(text);
    forall s | s in rules.secrets ensures Holds(text, s) <==> Contains(text, s) {
      HoldsExactly(text, s);
    }
  }

  /** Accepted at this depth as `w`: the same shape with folded keys. */
  ghost predicate Accepted(rules: Rules, v: AdapterValue, depth: nat, w: AdapterValue)
    decreases v
  {
    match v
    case JObject(entries) =>
      && depth <= 4 && |entries| <= 16 && w.JObject? && |w.entries| == |entries|
      && (forall i :: 0 <= i < |entries| ==> AcceptedEntry(rules, v, i, depth, w.entries[i]))
      && forall i, j :: 0 <= i < j < |entries| ==> w.entries[i].0 != w.entries[j].0
    case JList(items) =>
      && depth <= 4 && |items| <= 16 && w.JList? && |w.items| == |items|
      && forall i :: 0 <= i < |items| ==> Accepted(rules, items[i], depth + 1, w.items[i])
    case JText(text) => w == v && forall e :: !RefusedText(rules, text, e)
    case JAtom(_) => w == v
    case JNotFinite => false
  }

  ghost predicate AcceptedEntry(rules: Rules, v: AdapterValue, i: nat, depth: nat, e: (string, AdapterValue))
    requires v.JObject? && i < |v.entries|
    decreases v, 0
  {
    && e.0 == Folded(rules, v.entries[i].0) && !ForbiddenName(e.0)
    && Accepted(rules, v.entries[i].1, depth + 1, e.1)
  }

  /** Refused at this depth for this reason, which is the first one met in reading. */
  ghost predicate Refused(rules: Rules, v: AdapterValue, depth: nat, e: Refusal)
    decreases v, 1
  {
    match v
    case JObject(entries) =>
      if depth > 4 || |entries| > 16 then e == Bounds
      else exists n: nat :: n < |entries| && EntriesRead(rules, v, n, depth) && RefusedEntry(rules, v, n, depth, e)
    case JList(items) =>
      if depth > 4 || |items| > 16 then e == Bounds
      else exists n: nat :: n < |items| && ItemsRead(rules, v, n, depth) && Refused(rules, items[n], depth + 1, e)
    case JText(text) => RefusedText(rules, text, e)
    case JAtom(_) => false
    case JNotFinite => e == NotFinite
  }

  ghost predicate RefusedEntry(rules: Rules, v: AdapterValue, n: nat, depth: nat, e: Refusal)
    requires v.JObject? && n < |v.entries|
    decreases v, 0
  {
    var key := Folded(rules, v.entries[n].0);
    if ForbiddenName(key) then e == ForbiddenKey
    else if exists i :: 0 <= i < n && Folded(rules, v.entries[i].0) == key then e == DuplicateKeys
    else Refused(rules, v.entries[n].1, depth + 1, e)
  }

  /** The first `n` items are accepted. */
  ghost predicate ItemsRead(rules: Rules, v: AdapterValue, n: nat, depth: nat)
    requires v.JList? && n <= |v.items|
  {
    forall i :: 0 <= i < n ==> AcceptedSomehow(rules, v.items[i], depth + 1)
  }

  /** The first `n` entries are accepted and their keys differ. */
  ghost predicate EntriesRead(rules: Rules, v: AdapterValue, n: nat, depth: nat)
    requires v.JObject? && n <= |v.entries|
  {
    && (forall i :: 0 <= i < n ==>
          !ForbiddenName(Folded(rules, v.entries[i].0)) && AcceptedSomehow(rules, v.entries[i].1, depth + 1))
    && forall i, j :: 0 <= i < j < n ==> Folded(rules, v.entries[i].0) != Folded(rules, v.entries[j].0)
  }

  ghost predicate AcceptedSomehow(rules: Rules, v: AdapterValue, depth: nat) {
    exists w :: Accepted(rules, v, depth, w)
  }

  lemma ForbiddenNameExactly(rules: Rules, raw: string)
    ensures ForbiddenName(Folded(rules, raw)) <==> CanonicalKey(rules, raw).Err?
    ensures CanonicalKey(rules, raw) == if ForbiddenName(Folded(rules, raw)) then Err(ForbiddenKey) else Ok(Folded(rules, raw))
  {
    hide Folded;
  }

  /** The loop over the items stops at the first one refused. */
  lemma {:induction false} ItemsStopAt(rules: Rules, v: AdapterValue, n: nat, depth: nat) returns (k: nat)
    requires v.JList? && n <= |v.items| && SanitizeItems(rules, v, n, depth).Err?
    ensures k < n && forall i :: 0 <= i < k ==> Sanitize(rules, v.items[i], depth + 1).Ok?
    ensures Sanitize(rules, v.items[k], depth + 1).Err?
    ensures Sanitize(rules, v.items[k], depth + 1).error == SanitizeItems(rules, v, n, depth).error
  {
    hide Sanitize;
    var front := SanitizeItems(rules, v, n - 1, depth);
    if front.Err? {
      k := ItemsStopAt(rules, v, n - 1, depth);
    } else {
      k := n - 1;
      forall i | 0 <= i < k ensures Sanitize(rules, v.items[i], depth + 1).Ok? {
        ItemAt(rules, v, n - 1, depth, i);
      }
    }
  }

  /** What is wrong with entry `n`, once those before it have passed. */
  function EntryFault(rules: Rules, v: AdapterValue, n: nat, depth: nat): Option<Refusal>
    requires v.JObject? && n < |v.entries|
  {
    var key := Folded(rules, v.entries[n].0);
    if CanonicalKey(rules, v.entries[n].0).Err? then Some(ForbiddenKey)
    else if exists i :: 0 <= i < n && Folded(rules, v.entries[i].0) == key then Some(DuplicateKeys)
    else
      match Sanitize(rules, v.entries[n].1, depth + 1)
      case Ok(_) => None
      case Err(e) => Some(e)
  }

  lemma EntryFaultIs(rules: Rules, v: AdapterValue, n: nat, depth: nat)
    requires v.JObject? && n < |v.entries| && SanitizeEntries(rules, v, n, depth).Ok?
    ensures SanitizeEntries(rules, v, n + 1, depth).Ok? <==> EntryFault(rules, v, n, depth).None?
    ensures SanitizeEntries(rules, v, n + 1, depth).Err? ==> Some(SanitizeEntries(rules, v, n + 1, depth).error) == EntryFault(rules, v, n, depth)
  {
    hide Sanitize, Folded;
    var front := SanitizeEntries(rules, v, n, depth).value;
    forall i | 0 <= i < n ensures front[i].0 == Folded(rules, v.entries[i].0) {
      EntryAt(rules, v, n, depth, i);
    }
    ForbiddenNameExactly(rules, v.entries[n].0);
  }

  lemma {:induction false} EntriesStopAt(rules: Rules, v: AdapterValue, n: nat, depth: nat) returns (k: nat)
    requires v.JObject? && n <= |v.entries| && SanitizeEntries(rules, v, n, depth).Err?
    ensures k < n && forall i :: 0 <= i < k ==> EntryFault(rules, v, i, depth).None?
    ensures EntryFault(rules, v, k, depth) == Some(SanitizeEntries(rules, v, n, depth).error)
  {
    hide Sanitize, EntryFault;
    var front := SanitizeEntries(rules, v, n - 1, depth);
    if front.Err? {
      k := EntriesStopAt(rules, v, n - 1, depth);
    } else {
      k := n - 1;
      EntriesPassed(rules, v, k, depth);
      EntryFaultIs(rules, v, k, depth);
    }
  }

  lemma {:induction false} EntriesPassed(rules: Rules, v: AdapterValue, n: nat, depth: nat)
    requires v.JObject? && n <= |v.entries| && SanitizeEntries(rules, v, n, depth).Ok?
    ensures forall i :: 0 <= i < n ==> EntryFault(rules, v, i, depth).None?
  {
    hide Sanitize, EntryFault;
    if n > 0 {
      EntriesPassed(rules, v, n - 1, depth);
      EntryFaultIs(rules, v, n - 1, depth);
    }
  }

  /** The sanitizer accepts with this output exactly if the value is accepted with it. */
  lemma {:induction false} AcceptedExactly(rules: Rules, v: AdapterValue, depth: nat, w: AdapterValue)
    ensures Accepted(rules, v, depth, w) <==> Sanitize(rules, v, depth) == Ok(w)
    decreases v, 1
  {
    match v
    case JObject(_) => AcceptedObject(rules, v, depth, w);
    case JList(_) => AcceptedList(rules, v, depth, w);
    case JText(text) =>
      hide RefusedText, TextFault;
      forall e ensures RefusedText(rules, text, e) <==> TextFault(rules, text) == Some(e) {
        RefusedTextExactly(rules, text, e);
      }
      if TextFault(rules, text).Some? {
        assert RefusedText(rules, text, TextFault(rules, text).value);
      }
    case JAtom(_) =>
    case JNotFinite =>
  }

  lemma {:induction false} AcceptedList(rules: Rules, v: AdapterValue, depth: nat, w: AdapterValue)
    requires v.JList?
    ensures Accepted(rules, v, depth, w) <==> Sanitize(rules, v, depth) == Ok(w)
    decreases v, 0
  {
    var n := |v.items|;
    if depth <= MAX_DEPTH && n <= MAX_WIDTH && w.JList? && |w.items| == n {
      forall i | 0 <= i < n
        ensures Accepted(rules, v.items[i], depth + 1, w.items[i]) <==> Sanitize(rules, v.items[i], depth + 1) == Ok(w.items[i])
      {
        AcceptedExactly(rules, v.items[i], depth + 1, w.items[i]);
      }
      var r := SanitizeItems(rules, v, n, depth);
      if r.Ok? {
        forall i | 0 <= i < n ensures Sanitize(rules, v.items[i], depth + 1) == Ok(r.value[i]) {
          ItemAt(rules, v, n, depth, i);
        }
        assert w.items == r.value <==> forall i :: 0 <= i < n ==> w.items[i] == r.value[i];
      } else {
        var k := ItemsStopAt(rules, v, n, depth);
      }
    }
  }

  lemma EntriesAsRead(rules: Rules, v: AdapterValue, n: nat, depth: nat)
    requires v.JObject? && n <= |v.entries| && SanitizeEntries(rules, v, n, depth).Ok?
    ensures var r := SanitizeEntries(rules, v, n, depth).value;
      && (forall i :: 0 <= i < n ==>
            CanonicalKey(rules, v.entries[i].0) == Ok(r[i].0) && Sanitize(rules, v.entries[i].1, depth + 1) == Ok(r[i].1))
      && forall i, j :: 0 <= i < j < n ==> r[i].0 != r[j].0
  {
    hide Folded, CanonicalKey, Sanitize, SanitizeEntries, Clean;
    EntriesClean(rules, v, n, depth);
    EntriesPassed(rules, v, n, depth);
    var r := SanitizeEntries(rules, v, n, depth).value;
    forall i | 0 <= i < n
      ensures CanonicalKey(rules, v.entries[i].0) == Ok(r[i].0) && Sanitize(rules, v.entries[i].1, depth + 1) == Ok(r[i].1)
    {
      EntryAt(rules, v, n, depth, i);
      ForbiddenNameExactly(rules, v.entries[i].0);
    }
  }

  lemma {:induction false} AcceptedObject(rules: Rules, v: AdapterValue, depth: nat, w: AdapterValue)
    requires v.JObject?
    ensures Accepted(rules, v, depth, w) <==> Sanitize(rules, v, depth) == Ok(w)
    decreases v, 0
  {
    hide Folded, ForbiddenName, CanonicalKey;
    var n := |v.entries|;
    if depth <= MAX_DEPTH && n <= MAX_WIDTH && w.JObject? && |w.entries| == n {
      forall i | 0 <= i < n
        ensures AcceptedEntry(rules, v, i, depth, w.entries[i]) <==>
          CanonicalKey(rules, v.entries[i].0) == Ok(w.entries[i].0) && Sanitize(rules, v.entries[i].1, depth + 1) == Ok(w.entries[i].1)
      {
        ForbiddenNameExactly(rules, v.entries[i].0);
        AcceptedExactly(rules, v.entries[i].1, depth + 1, w.entries[i].1);
      }
      var r := SanitizeEntries(rules, v, n, depth);
      if r.Ok? {
        EntriesAsRead(rules, v, n, depth);
        assert w.entries == r.value <==> forall i :: 0 <= i < n ==> w.entries[i] == r.value[i];
      } else {
        var k := EntriesStopAt(rules, v, n, depth);
      }
    }
  }

  lemma SomehowExactly(rules: Rules, v: AdapterValue, depth: nat)
    ensures AcceptedSomehow(rules, v, depth) <==> Sanitize(rules, v, depth).Ok?
  {
    if Sanitize(rules, v, depth).Ok? {
      AcceptedExactly(rules, v, depth, Sanitize(rules, v, depth).value);
    }
    if AcceptedSomehow(rules, v, depth) {
      var w :| Accepted(rules, v, depth, w);
      AcceptedExactly(rules, v, depth, w);
    }
  }

  /** The sanitizer refuses for this reason exactly if the value is refused for it. */
  lemma {:induction false} RefusedExactly(rules: Rules, v: AdapterValue, depth: nat, e: Refusal)
    ensures Refused(rules, v, depth, e) <==> Sanitize(rules, v, depth) == Err(e)
    decreases v, 1
  {
    match v
    case JObject(_) => RefusedObject(rules, v, depth, e);
    case JList(_) => RefusedList(rules, v, depth, e);
    case JText(text) => RefusedTextExactly(rules, text, e);
    case JAtom(_) =>
    case JNotFinite =>
  }

  lemma ItemsReadExactly(rules: Rules, v: AdapterValue, n: nat, depth: nat)
    requires v.JList? && n <= |v.items|
    ensures ItemsRead(rules, v, n, depth) <==> forall i :: 0 <= i < n ==> Sanitize(rules, v.items[i], depth + 1).Ok?
  {
    hide Sanitize, AcceptedSomehow;
    forall i | 0 <= i < n
      ensures AcceptedSomehow(rules, v.items[i], depth + 1) <==> Sanitize(rules, v.items[i], depth + 1).Ok?
    {
      SomehowExactly(rules, v.items[i], depth + 1);
    }
  }

  /** The loop over the items stops with the first one refused. */
  lemma FirstRefused(rules: Rules, v: AdapterValue, depth: nat, e: Refusal)
    requires v.JList?
    ensures SanitizeItems(rules, v, |v.items|, depth) == Err(e) <==>
      exists k: nat :: k < |v.items| && ItemsRead(rules, v, k, depth) && Sanitize(rules, v.items[k], depth + 1) == Err(e)
  {
    hide Sanitize, ItemsRead, SanitizeItems;
    var r := SanitizeItems(rules, v, |v.items|, depth);
    forall k: nat | k < |v.items|
      ensures ItemsRead(rules, v, k, depth) <==> forall i :: 0 <= i < k ==> Sanitize(rules, v.items[i], depth + 1).Ok?
    {
      ItemsReadExactly(rules, v, k, depth);
    }
    if r.Ok? {
      forall i | 0 <= i < |v.items| ensures Sanitize(rules, v.items[i], depth + 1).Ok? {
        ItemAt(rules, v, |v.items|, depth, i);
      }
    } else {
      var k := ItemsStopAt(rules, v, |v.items|, depth);
      assert ItemsRead(rules, v, k, depth);
    }
  }

  lemma {:induction false} RefusedList(rules: Rules, v: AdapterValue, depth: nat, e: Refusal)
    requires v.JList?
    ensures Refused(rules, v, depth, e) <==> Sanitize(rules, v, depth) == Err(e)
    decreases v, 0
  {
    hide ItemsRead, SanitizeItems;
    if depth <= MAX_DEPTH && |v.items| <= MAX_WIDTH {
      FirstRefused(rules, v, depth, e);
      forall i | 0 <= i < |v.items|
        ensures Refused(rules, v.items[i], depth + 1, e) <==> Sanitize(rules, v.items[i], depth + 1) == Err(e)
      {
        RefusedExactly(rules, v.items[i], depth + 1, e);
      }
      if Refused(rules, v, depth, e) {
        var m: nat :| m < |v.items| && ItemsRead(rules, v, m, depth) && Refused(rules, v.items[m], depth + 1, e);
        assert Sanitize(rules, v, depth) == Err(e);
      }
      if Sanitize(rules, v, depth) == Err(e) {
        var k: nat :| k < |v.items| && ItemsRead(rules, v, k, depth) && Sanitize(rules, v.items[k], depth + 1) == Err(e);
        assert Refused(rules, v, depth, e);
      }
    }
  }

  lemma RefusedEntryExactly(rules: Rules, v: AdapterValue, n: nat, depth: nat, e: Refusal)
    requires v.JObject? && n < |v.entries|
    requires Refused(rules, v.entries[n].1, depth + 1, e) <==> Sanitize(rules, v.entries[n].1, depth + 1) == Err(e)
    ensures RefusedEntry(rules, v, n, depth, e) <==> EntryFault(rules, v, n, depth) == Some(e)
  {
    hide Folded, ForbiddenName, CanonicalKey, Sanitize;
    ForbiddenNameExactly(rules, v.entries[n].0);
  }

  lemma EntriesReadExactly(rules: Rules, v: AdapterValue, n: nat, depth: nat)
    requires v.JObject? && n <= |v.entries|
    ensures EntriesRead(rules, v, n, depth) <==> forall i :: 0 <= i < n ==> EntryFault(rules, v, i, depth).None?
  {
    hide Folded, ForbiddenName, CanonicalKey, Sanitize, AcceptedSomehow;
    forall i | 0 <= i < n
      ensures AcceptedSomehow(rules, v.entries[i].1, depth + 1) <==> Sanitize(rules, v.entries[i].1, depth + 1).Ok?
      ensures ForbiddenName(Folded(rules, v.entries[i].0)) <==> CanonicalKey(rules, v.entries[i].0).Err?
    {
      SomehowExactly(rules, v.entries[i].1, depth + 1);
      ForbiddenNameExactly(rules, v.entries[i].0);
    }
    if forall i :: 0 <= i < n ==> EntryFault(rules, v, i, depth).None? {
      forall i | 0 <= i < n
        ensures !ForbiddenName(Folded(rules, v.entries[i].0)) && AcceptedSomehow(rules, v.entries[i].1, depth + 1)
      {
        assert EntryFault(rules, v, i, depth).None?;
      }
      forall i, j | 0 <= i < j < n ensures Folded(rules, v.entries[i].0) != Folded(rules, v.entries[j].0) {
        assert EntryFault(rules, v, j, depth).None?;
      }
    }
  }

  /** The loop over the entries stops with the first fault. */
  lemma FirstFault(rules: Rules, v: AdapterValue, depth: nat, e: Refusal)
    requires v.JObject?
    ensures SanitizeEntries(rules, v, |v.entries|, depth) == Err(e) <==>
      exists k: nat :: k < |v.entries| && EntriesRead(rules, v, k, depth) && EntryFault(rules, v, k, depth) == Some(e)
  {
    hide EntryFault, EntriesRead, SanitizeEntries;
    var r := SanitizeEntries(rules, v, |v.entries|, depth);
    forall k: nat | k < |v.entries|
      ensures EntriesRead(rules, v, k, depth) <==> forall i :: 0 <= i < k ==> EntryFault(rules, v, i, depth).None?
    {
      EntriesReadExactly(rules, v, k, depth);
    }
    if r.Ok? {
      EntriesPassed(rules, v, |v.entries|, depth);
    } else {
      var k := EntriesStopAt(rules, v, |v.entries|, depth);
      assert EntriesRead(rules, v, k, depth);
    }
  }

  lemma {:induction false} RefusedObject(rules: Rules, v: AdapterValue, depth: nat, e: Refusal)
    requires v.JObject?
    ensures Refused(rules, v, depth, e) <==> Sanitize(rules, v, depth) == Err(e)
    decreases v, 0
  {
    hide EntryFault, EntriesRead, SanitizeEntries;
    if depth <= MAX_DEPTH && |v.entries| <= MAX_WIDTH {
      FirstFault(rules, v, depth, e);
      forall i: nat | i < |v.entries|
        ensures RefusedEntry(rules, v, i, depth, e) <==> EntryFault(rules, v, i, depth) == Some(e)
      {
        RefusedExactly(rules, v.entries[i].1, depth + 1, e);
        RefusedEntryExactly(rules, v, i, depth, e);
      }
      if Refused(rules, v, depth, e) {
        var m: nat :| m < |v.entries| && EntriesRead(rules, v, m, depth) && RefusedEntry(rules, v, m, depth, e);
        assert EntryFault(rules, v, m, depth) == Some(e);
        assert Sanitize(rules, v, depth) == Err(e);
      }
      if Sanitize(rules, v, depth) == Err(e) {
        var k: nat :| k < |v.entries| && EntriesRead(rules, v, k, depth) && EntryFault(rules, v, k, depth) == Some(e);
        assert RefusedEntry(rules, v, k, depth, e);
        assert Refused(rules, v, depth, e);
      }
    }
  }

  /** A whole result passes exactly if it is accepted from depth 1 and the canonical
      encoding of what comes out has at most 4096 bytes. */
  lemma ValidatedExactly(rules: Rules, v: AdapterValue, w: AdapterValue, e: Refusal)
    ensures Validated(rules, v) == Ok(w) <==> Accepted(rules, v, 1, w) && rules.bytes(w) <= 4096
    ensures Validated(rules, v) == Err(e) <==>
      Refused(rules, v, 1, e) || (e == TooLong && exists w :: Accepted(rules, v, 1, w) && rules.bytes(w) > 4096)
  {
    AcceptedExactly(rules, v, 1, w);
    RefusedExactly(rules, v, 1, e);
    if Sanitize(rules, v, 1).Ok? {
      AcceptedExactly(rules, v, 1, Sanitize(rules, v, 1).value);
    }
    forall u | Accepted(rules, v, 1, u) ensures Sanitize(rules, v, 1) == Ok(u) {
      AcceptedExactly(rules, v, 1, u);
    }
  }
}
