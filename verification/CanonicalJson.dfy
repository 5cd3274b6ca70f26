/** Canonical JSON text: sorted keys, no white space, and either raw or escaped
    characters outside ASCII; and the parser that undoes it. */
module CanonicalJson {
  import opened Wrappers
  import opened Json

  // ----- sorted keys -----

  /** Lexicographic order by code point. */
  predicate AtMost(a: string, b: string) {
    a == [] || (b != [] && (a[0] < b[0] || (a[0] == b[0] && AtMost(a[1..], b[1..]))))
  }

  lemma {:induction false} AtMostTotal(a: string, b: string)
    ensures AtMost(a, b) || AtMost(b, a)
  {
    if a != [] && b != [] && a[0] == b[0] {
      AtMostTotal(a[1..], b[1..]);
    }
  }

  lemma {:induction false} AtMostAntisymmetric(a: string, b: string)
    requires AtMost(a, b) && AtMost(b, a)
    ensures a == b
  {
    if a != [] && b != [] {
      AtMostAntisymmetric(a[1..], b[1..]);
      assert a == [a[0]] + a[1..] && b == [b[0]] + b[1..];
    }
  }

  lemma {:induction false} AtMostTransitive(a: string, b: string, c: string)
    requires AtMost(a, b) && AtMost(b, c)
    ensures AtMost(a, c)
  {
    if a != [] && a[0] == b[0] && b[0] == c[0] {
      AtMostTransitive(a[1..], b[1..], c[1..]);
    }
  }

  lemma {:induction false} FindLeast(keys: set<string>) returns (least: string)
    requires keys != {}
    ensures least in keys && forall k :: k in keys ==> AtMost(least, k)
    decreases |keys|
  {
    var some :| some in keys;
    var rest := keys - {some};
    AtMostTotal(some, some);
    if rest == {} {
      least := some;
      assert keys == {some};
    } else {
      var other := FindLeast(rest);
      AtMostTotal(some, other);
      least := if AtMost(some, other) then some else other;
      forall k | k in keys ensures AtMost(least, k) {
        if k != some && least == some {
          AtMostTransitive(some, other, k);
        }
      }
    }
  }

  lemma LeastExists(keys: set<string>)
    requires keys != {}
    ensures exists least :: least in keys && forall k :: k in keys ==> AtMost(least, k)
  {
    var _ := FindLeast(keys);
  }

  ghost function Least(keys: set<string>): (least: string)
    requires keys != {}
    ensures least in keys && forall k :: k in keys ==> AtMost(least, k)
  {
    LeastExists(keys);
    var least :| least in keys && forall k :: k in keys ==> AtMost(least, k);
    least
  }

  /** The keys in sorted order. */
  ghost function SortedKeys(keys: set<string>): (r: seq<string>)
    ensures |r| == |keys| && Lists(r, keys) && SortedListing(r)
    decreases |keys|
  {
    hide AtMost, Lists, SortedListing;
    EmptyLists(keys);
    NothingSorted();
    if keys == {} then []
    else
      var least := Least(keys);
      var rest := SortedKeys(keys - {least});
      LeastFirst(keys, least, rest);
      [least] + rest
  }

  lemma NothingSorted()
    ensures SortedListing([])
  {
  }

  lemma LeastFirst(keys: set<string>, least: string, rest: seq<string>)
    requires least in keys && forall k :: k in keys ==> AtMost(least, k)
    requires Lists(rest, keys - {least}) && SortedListing(rest)
    ensures Lists([least] + rest, keys) && SortedListing([least] + rest)
  {
    hide AtMost;
    assert forall i :: 0 <= i < |rest| ==> rest[i] in rest;
  }

  ghost predicate SortedListing(listing: seq<string>) {
    forall i, j :: 0 <= i < j < |listing| ==> listing[i] != listing[j] && AtMost(listing[i], listing[j])
  }

  ghost predicate Lists(listing: seq<string>, keys: set<string>) {
    forall k :: k in listing <==> k in keys
  }

  lemma EmptyLists(keys: set<string>)
    ensures Lists([], keys) <==> keys == {}
  {
    if k :| k in keys {
      assert k !in [];
    }
  }

  lemma FirstIsLeast(keys: set<string>, listing: seq<string>)
    requires listing != [] && SortedListing(listing) && Lists(listing, keys)
    ensures keys != {} && listing[0] == Least(keys)
  {
    assert listing[0] in listing;
    var least := Least(keys);
    var i :| 0 <= i < |listing| && listing[i] == least;
    if i > 0 {
      AtMostAntisymmetric(listing[0], least);
    }
  }

  lemma RestOfListing(keys: set<string>, listing: seq<string>)
    requires listing != [] && SortedListing(listing) && Lists(listing, keys)
    ensures SortedListing(listing[1..]) && Lists(listing[1..], keys - {listing[0]})
  {
    hide AtMost;
    forall k ensures k in listing[1..] <==> k in keys - {listing[0]} {
      if k in keys - {listing[0]} {
        var j :| 0 <= j < |listing| && listing[j] == k;
        assert listing[1..][j - 1] == k;
      }
    }
  }

  /** There is only one sorted listing of a set of keys. */
  lemma {:induction false} SortedKeysUnique(keys: set<string>, listing: seq<string>)
    requires SortedListing(listing) && Lists(listing, keys)
    ensures listing == SortedKeys(keys)
    decreases |listing|
  {
    hide AtMost, Least, SortedListing, Lists;
    if listing == [] {
      EmptyLists(keys);
    } else {
      FirstIsLeast(keys, listing);
      RestOfListing(keys, listing);
      SortedKeysUnique(keys - {listing[0]}, listing[1..]);
      assert listing == [listing[0]] + listing[1..];
    }
  }

  // ----- characters -----

  function HexDigit(d: nat): char
    requires d < 16
  {
    if d < 10 then ('0' as int + d) as char else ('a' as int + d - 10) as char
  }

  function Hex4(n: nat): (r: string)
    requires n < 0x10000
    ensures |r| == 4
  {
    [HexDigit(n / 4096), HexDigit(n / 256 % 16), HexDigit(n / 16 % 16), HexDigit(n % 16)]
  }

  function HexValue(c: char): (r: Option<nat>)
    ensures r.Some? ==> r.value < 16
  {
    if '0' <= c <= '9' then Some(c as int - '0' as int)
    else if 'a' <= c <= 'f' then Some(c as int - 'a' as int + 10)
    else None
  }

  function ReadHex4(t: string): (r: Option<nat>)
    requires |t| >= 4
    ensures r.Some? ==> r.value < 0x10000
  {
    var a :- HexValue(t[0]);
    var b :- HexValue(t[1]);
    var c :- HexValue(t[2]);
    var d :- HexValue(t[3]);
    Some(a * 4096 + b * 256 + c * 16 + d)
  }

  lemma HexDigitReads(d: nat)
    requires d < 16
    ensures HexValue(HexDigit(d)) == Some(d)
  {
  }

  lemma Base16(n: nat)
    requires n < 0x10000
    ensures n / 4096 < 16 && n == n / 4096 * 4096 + n / 256 % 16 * 256 + n / 16 % 16 * 16 + n % 16
  {
    assert n / 16 == n / 256 * 16 + n / 16 % 16;
    assert n / 256 == n / 4096 * 16 + n / 256 % 16;
  }

  lemma Hex4Reads(n: nat, rest: string)
    requires n < 0x10000
    ensures ReadHex4(Hex4(n) + rest) == Some(n)
  {
    hide HexDigit, HexValue;
    Base16(n);
    HexDigitReads(n / 4096);
    HexDigitReads(n / 256 % 16);
    HexDigitReads(n / 16 % 16);
    HexDigitReads(n % 16);
  }

  /** One character of a string. Quotes, backslashes and control characters are always
      escaped; with `ascii` everything outside printable ASCII is, in UTF-16 units. */
  function Escape(c: char, ascii: bool): (r: string)
    ensures r != []
  {
    if c == '"' then "\\\""
    else if c == '\\' then "\\\\"
    else if c == '\n' then "\\n"
    else if c == '\r' then "\\r"
    else if c == '\t' then "\\t"
    else if c as int == 8 then "\\b"
    else if c as int == 12 then "\\f"
    else if c as int < 32 || (ascii && 126 < c as int < 0x10000) then "\\u" + Hex4(c as int)
    else if ascii && c as int >= 0x10000 then
      "\\u" + Hex4(0xD800 + (c as int - 0x10000) / 0x400) + "\\u" + Hex4(0xDC00 + (c as int - 0x10000) % 0x400)
    else [c]
  }

  function CharOf(n: nat): (r: Option<char>) {
    if n < 0xD800 || 0xE000 <= n < 0x110000 then Some(n as char) else None
  }

  function ReadUnit(t: string): (r: Option<nat>)
    ensures r.Some? ==> |t| >= 6
  {
    if |t| >= 6 && t[0] == '\\' && t[1] == 'u' then ReadHex4(t[2..]) else None
  }

  /** Read one character inside a string. */
  function Unescape(t: string): (r: Option<(char, string)>)
    ensures r.Some? ==> |r.value.1| < |t|
  {
    if t == [] || t[0] == '"' then None
    else if t[0] != '\\' then Some((t[0], t[1..]))
    else if |t| < 2 then None
    else if t[1] == '"' || t[1] == '\\' then Some((t[1], t[2..]))
    else if t[1] == 'n' then Some(('\n', t[2..]))
    else if t[1] == 'r' then Some(('\r', t[2..]))
    else if t[1] == 't' then Some(('\t', t[2..]))
    else if t[1] == 'b' then Some((8 as char, t[2..]))
    else if t[1] == 'f' then Some((12 as char, t[2..]))
    else
      var high :- ReadUnit(t);
      if 0xD800 <= high < 0xDC00 then
        var low :- ReadUnit(t[6..]);
        if !(0xDC00 <= low < 0xE000) then None
        else
          var c :- CharOf(0x10000 + (high - 0xD800) * 0x400 + (low - 0xDC00));
          Some((c, t[12..]))
      else
        var c :- CharOf(high);
        Some((c, t[6..]))
  }

  lemma UnitReads(n: nat, rest: string)
    requires n < 0x10000
    ensures ReadUnit("\\u" + Hex4(n) + rest) == Some(n)
    ensures ("\\u" + Hex4(n) + rest)[6..] == rest
  {
    Hex4Reads(n, rest);
    assert ("\\u" + Hex4(n) + rest)[2..] == Hex4(n) + rest;
  }

  lemma PairCode(n: nat)
    requires 0x10000 <= n < 0x110000
    ensures var high, low := (n - 0x10000) / 0x400, (n - 0x10000) % 0x400;
      high < 0x400 && low < 0x400 && 0x10000 + high * 0x400 + low == n
  {
  }

  lemma PairReads(c: char, rest: string)
    requires c as int >= 0x10000
    ensures Unescape(Escape(c, true) + rest) == Some((c, rest))
  {
    hide Hex4, ReadHex4, ReadUnit;
    PairCode(c as int);
    var high, low := 0xD800 + (c as int - 0x10000) / 0x400, 0xDC00 + (c as int - 0x10000) % 0x400;
    var tail := "\\u" + Hex4(low) + rest;
    var t := "\\u" + Hex4(high) + tail;
    assert Escape(c, true) + rest == t;
    UnitReads(high, tail);
    UnitReads(low, rest);
    assert t[12..] == t[6..][6..];
  }

  /** Reading undoes escaping, whatever follows. */
  lemma EscapeReads(c: char, ascii: bool, rest: string)
    ensures Unescape(Escape(c, ascii) + rest) == Some((c, rest))
  {
    var e := Escape(c, ascii);
    if ascii && c as int >= 0x10000 {
      PairReads(c, rest);
    } else if |e| == 6 {
      UnitReads(c as int, rest);
      assert e + rest == "\\u" + Hex4(c as int) + rest;
    } else if |e| == 2 {
      assert (e + rest)[2..] == rest;
    } else {
      assert (e + rest)[1..] == rest;
    }
  }

  function EscapeAll(s: string, ascii: bool): string {
    if s == [] then [] else Escape(s[0], ascii) + EscapeAll(s[1..], ascii)
  }

  /** Read up to the closing quote. */
  function UnescapeAll(t: string): (r: Option<(string, string)>)
    ensures r.Some? ==> |r.value.1| < |t|
    decreases |t|
  {
    if t == [] then None
    else if t[0] == '"' then Some(([], t[1..]))
    else
      var (c, after) :- Unescape(t);
      var (s, rest) :- UnescapeAll(after);
      Some(([c] + s, rest))
  }

  lemma {:induction false} StringReads(s: string, ascii: bool, rest: string)
    ensures UnescapeAll(EscapeAll(s, ascii) + "\"" + rest) == Some((s, rest))
  {
    hide Escape, Unescape;
    if s == [] {
      assert EscapeAll(s, ascii) + "\"" + rest == "\"" + rest;
    } else {
      var tail := EscapeAll(s[1..], ascii) + "\"" + rest;
      assert EscapeAll(s, ascii) + "\"" + rest == Escape(s[0], ascii) + tail;
      EscapeReads(s[0], ascii, tail);
      StringReads(s[1..], ascii, rest);
      NotAQuote(s[0], ascii, tail);
      assert [s[0]] + s[1..] == s;
    }
  }

  lemma NotAQuote(c: char, ascii: bool, rest: string)
    ensures |Escape(c, ascii)| > 0
    ensures (Escape(c, ascii) + rest)[0] != '"'
  {
  }

  // ----- integers -----

  function DigitChar(d: nat): char
    requires d < 10
  {
    (d + '0' as int) as char
  }

  predicate IsDigit(c: char) {
    '0' <= c <= '9'
  }

  function DigitValue(c: char): nat
    requires IsDigit(c)
  {
    c as int - '0' as int
  }

  function Digits(n: nat): (r: string)
    ensures r != [] && forall i :: 0 <= i < |r| ==> IsDigit(r[i])
  {
    if n < 10 then [DigitChar(n)] else Digits(n / 10) + [DigitChar(n % 10)]
  }

  function NumberOf(ds: string): nat
    requires forall i :: 0 <= i < |ds| ==> IsDigit(ds[i])
  {
    if ds == [] then 0 else NumberOf(ds[..|ds| - 1]) * 10 + DigitValue(ds[|ds| - 1])
  }

  lemma {:induction false} DigitsRead(n: nat)
    ensures NumberOf(Digits(n)) == n
  {
    if n >= 10 {
      DigitsRead(n / 10);
      assert Digits(n)[..|Digits(n)| - 1] == Digits(n / 10);
    } else {
      assert Digits(n)[..0] == [];
    }
  }

  function DigitRun(t: string): (n: nat)
    ensures n <= |t| && forall i :: 0 <= i < n ==> IsDigit(t[i])
  {
    if t == [] || !IsDigit(t[0]) then 0 else 1 + DigitRun(t[1..])
  }

  /** Nothing that could continue a number. */
  predicate Ends(rest: string) {
    rest == [] || !IsDigit(rest[0])
  }

  lemma {:induction false} RunOfDigits(ds: string, rest: string)
    requires Ends(rest) && forall i :: 0 <= i < |ds| ==> IsDigit(ds[i])
    ensures DigitRun(ds + rest) == |ds|
  {
    if ds == [] {
      assert ds + rest == rest;
    } else {
      assert (ds + rest)[1..] == ds[1..] + rest;
      RunOfDigits(ds[1..], rest);
    }
  }

  function PrintInt(n: int): string {
    if n < 0 then "-" + Digits(-n) else Digits(n)
  }

  function ReadNat(t: string): (r: Option<(nat, string)>)
    ensures r.Some? ==> |r.value.1| < |t|
  {
    var n := DigitRun(t);
    if n == 0 then None else Some((NumberOf(t[..n]), t[n..]))
  }

  lemma NatReads(n: nat, rest: string)
    requires Ends(rest)
    ensures ReadNat(Digits(n) + rest) == Some((n, rest))
  {
    RunOfDigits(Digits(n), rest);
    DigitsRead(n);
    assert (Digits(n) + rest)[..|Digits(n)|] == Digits(n);
    assert (Digits(n) + rest)[|Digits(n)|..] == rest;
  }

  // ----- printing -----

  ghost function Print(v: Json, ascii: bool): string
    decreases v, 1, 0
  {
    match v
    case JNull => "null"
    case JBool(flag) => if flag then "true" else "false"
    case JInt(n) => PrintInt(n)
    case JString(s) => "\"" + EscapeAll(s, ascii) + "\""
    case JArray(items) => if items == [] then "[]" else "[" + PrintItems(v, 0, ascii)
    case JObject(fields) => if fields == map[] then "{}" else "{" + PrintFields(v, SortedKeys(fields.Keys), ascii)
  }

  ghost function PrintItems(v: Json, i: nat, ascii: bool): string
    requires v.JArray? && i < |v.items|
    decreases v, 0, |v.items| - i
  {
    Print(v.items[i], ascii) + (if i + 1 < |v.items| then "," + PrintItems(v, i + 1, ascii) else "]")
  }

  ghost function PrintFields(v: Json, keys: seq<string>, ascii: bool): string
    requires v.JObject? && keys != [] && forall k :: k in keys ==> k in v.fields
    decreases v, 0, |keys|
  {
    "\"" + EscapeAll(keys[0], ascii) + "\":" + Print(v.fields[keys[0]], ascii)
    + (if |keys| > 1 then "," + PrintFields(v, keys[1..], ascii) else "}")
  }

  // ----- parsing -----

  predicate StartsWith(t: string, prefix: string) {
    prefix <= t
  }

  function Parse(t: string): (r: Option<(Json, string)>)
    ensures r.Some? ==> |r.value.1| < |t|
    decreases |t|, 1
  {
    if t == [] then None
    else if StartsWith(t, "null") then Some((JNull, t[4..]))
    else if StartsWith(t, "true") then Some((JBool(true), t[4..]))
    else if StartsWith(t, "false") then Some((JBool(false), t[5..]))
    else if t[0] == '"' then
      var (s, rest) :- UnescapeAll(t[1..]);
      Some((JString(s), rest))
    else if t[0] == '-' then
      var (n, rest) :- ReadNat(t[1..]);
      Some((JInt(0 - n as int), rest))
    else if IsDigit(t[0]) then
      var (n, rest) :- ReadNat(t);
      Some((JInt(n), rest))
    else if StartsWith(t, "[]") then Some((JArray([]), t[2..]))
    else if t[0] == '[' then
      var (items, rest) :- ParseItems(t[1..]);
      Some((JArray(items), rest))
    else if StartsWith(t, "{}") then Some((JObject(map[]), t[2..]))
    else if t[0] == '{' then
      var (fields, rest) :- ParseFields(t[1..]);
      Some((JObject(fields), rest))
    else None
  }

  function ParseItems(t: string): (r: Option<(seq<Json>, string)>)
    ensures r.Some? ==> |r.value.1| < |t|
    decreases |t|, 2
  {
    var (v, after) :- Parse(t);
    if after == [] then None
    else if after[0] == ']' then Some(([v], after[1..]))
    else if after[0] == ',' then
      var (items, rest) :- ParseItems(after[1..]);
      Some(([v] + items, rest))
    else None
  }

  /** A key, a colon and a value. */
  function ParseField(t: string): (r: Option<(string, Json, string)>)
    ensures r.Some? ==> |r.value.2| < |t|
    decreases |t|, 2
  {
    if t == [] || t[0] != '"' then None
    else
      var (key, colon) :- UnescapeAll(t[1..]);
      if colon == [] || colon[0] != ':' then None
      else
        var (v, after) :- Parse(colon[1..]);
        Some((key, v, after))
  }

  function ParseFields(t: string): (r: Option<(map<string, Json>, string)>)
    ensures r.Some? ==> |r.value.1| < |t|
    decreases |t|, 3
  {
    var (key, v, after) :- ParseField(t);
    if after == [] then None
    else if after[0] == '}' then Some((map[key := v], after[1..]))
    else if after[0] == ',' then
      var (fields, rest) :- ParseFields(after[1..]);
      Some((fields[key := v], rest))
    else None
  }

  // ----- the round trip -----

  /** The part of an object under some of its keys. */
  ghost function Only(fields: map<string, Json>, keys: seq<string>): map<string, Json>
    requires forall k :: k in keys ==> k in fields
  {
    map k | k in fields && k in keys :: fields[k]
  }

  /** What a printed value can start with. */
  lemma PrintStarts(v: Json, ascii: bool)
    ensures Print(v, ascii) != []
    ensures v.JInt? ==> Print(v, ascii)[0] == '-' || IsDigit(Print(v, ascii)[0])
    ensures Print(v, ascii)[0] != ']'
  {
  }

  // Each of these unfolds the parser once.

  lemma ParseWord(v: Json, ascii: bool, rest: string)
    requires v.JNull? || v.JBool?
    ensures Parse(Print(v, ascii) + rest) == Some((v, rest))
  {
    hide ParseItems, ParseFields, UnescapeAll, ReadNat, IsDigit;
    var n := |Print(v, ascii)|;
    var t := Print(v, ascii) + rest;
    assert t[..n] == Print(v, ascii) && t[n..] == rest && t[0] == Print(v, ascii)[0];
    assert "null"[0] == 'n' && "true"[0] == 't' && "false"[0] == 'f';
    assert Print(v, ascii) <= t;
  }

  lemma ParseQuote(t: string, s: string, rest: string)
    requires t != [] && t[0] == '"' && UnescapeAll(t[1..]) == Some((s, rest))
    ensures Parse(t) == Some((JString(s), rest))
  {
    hide ParseItems, ParseFields, UnescapeAll, ReadNat;
  }

  lemma ParseMinus(t: string, n: nat, rest: string)
    requires t != [] && t[0] == '-' && ReadNat(t[1..]) == Some((n, rest))
    ensures Parse(t) == Some((JInt(-(n as int)), rest))
  {
    hide ParseItems, ParseFields, UnescapeAll, ReadNat;
  }

  lemma ParseDigits(t: string, n: nat, rest: string)
    requires t != [] && IsDigit(t[0]) && ReadNat(t) == Some((n, rest))
    ensures Parse(t) == Some((JInt(n), rest))
  {
    hide ParseItems, ParseFields, UnescapeAll, ReadNat;
  }

  lemma StartsByFirst(t: string, prefix: string)
    requires t != [] && prefix != [] && t[0] != prefix[0]
    ensures !StartsWith(t, prefix)
  {
  }

  lemma StartsPair(rest: string, pair: string)
    requires |pair| == 2
    ensures var t := pair + rest; StartsWith(t, pair) && t[0] == pair[0] && t[2..] == rest
  {
  }

  lemma ParseEmptyArray(rest: string)
    ensures Parse("[]" + rest) == Some((JArray([]), rest))
  {
    hide ParseItems, ParseFields, UnescapeAll, ReadNat, StartsWith;
    var t := "[]" + rest;
    StartsPair(rest, "[]");
    StartsByFirst(t, "null");
    StartsByFirst(t, "true");
    StartsByFirst(t, "false");
  }

  lemma ParseEmptyObject(rest: string)
    ensures Parse("{}" + rest) == Some((JObject(map[]), rest))
  {
    hide ParseItems, ParseFields, UnescapeAll, ReadNat, StartsWith;
    var t := "{}" + rest;
    StartsPair(rest, "{}");
    StartsByFirst(t, "null");
    StartsByFirst(t, "true");
    StartsByFirst(t, "false");
    StartsByFirst(t, "[]");
  }

  lemma ParseArray(t: string, items: seq<Json>, rest: string)
    requires |t| > 1 && t[0] == '[' && t[1] != ']' && ParseItems(t[1..]) == Some((items, rest))
    ensures Parse(t) == Some((JArray(items), rest))
  {
    hide ParseItems, ParseFields, UnescapeAll, ReadNat;
  }

  lemma ParseObject(t: string, fields: map<string, Json>, rest: string)
    requires |t| > 1 && t[0] == '{' && t[1] != '}' && ParseFields(t[1..]) == Some((fields, rest))
    ensures Parse(t) == Some((JObject(fields), rest))
  {
    hide ParseItems, ParseFields, UnescapeAll, ReadNat;
  }

  lemma ItemsStep(t: string, v: Json, after: string)
    requires Parse(t) == Some((v, after)) && after != []
    ensures after[0] == ']' ==> ParseItems(t) == Some(([v], after[1..]))
    ensures after[0] == ',' && ParseItems(after[1..]).Some? ==>
      ParseItems(t) == Some(([v] + ParseItems(after[1..]).value.0, ParseItems(after[1..]).value.1))
  {
    hide Parse;
  }

  lemma FieldsStep(t: string, key: string, v: Json, after: string)
    requires ParseField(t) == Some((key, v, after)) && after != []
    ensures after[0] == '}' ==> ParseFields(t) == Some((map[key := v], after[1..]))
    ensures after[0] == ',' && ParseFields(after[1..]).Some? ==>
      ParseFields(t) == Some((ParseFields(after[1..]).value.0[key := v], ParseFields(after[1..]).value.1))
  {
    hide ParseField;
  }

  lemma FieldStep(t: string, key: string, colon: string, v: Json, after: string)
    requires t != [] && t[0] == '"' && UnescapeAll(t[1..]) == Some((key, colon))
    requires colon != [] && colon[0] == ':' && Parse(colon[1..]) == Some((v, after))
    ensures ParseField(t) == Some((key, v, after))
  {
    hide UnescapeAll, Parse;
  }

  lemma IntReads(n: int, rest: string)
    requires Ends(rest)
    ensures Parse(PrintInt(n) + rest) == Some((JInt(n), rest))
  {
    hide Parse, ReadNat, Digits;
    var t := PrintInt(n) + rest;
    if n < 0 {
      NatReads(-n, rest);
      assert t[1..] == Digits(-n) + rest;
      ParseMinus(t, -n, rest);
    } else {
      NatReads(n, rest);
      assert t[0] == Digits(n)[0];
      ParseDigits(t, n, rest);
    }
  }

  lemma QuotedReads(s: string, ascii: bool, rest: string)
    ensures var t := "\"" + EscapeAll(s, ascii) + "\"" + rest;
      t[0] == '"' && UnescapeAll(t[1..]) == Some((s, rest))
  {
    hide EscapeAll, UnescapeAll;
    var t := "\"" + EscapeAll(s, ascii) + "\"" + rest;
    assert t[1..] == EscapeAll(s, ascii) + "\"" + rest;
    StringReads(s, ascii, rest);
  }

  // And each of these unfolds the printer once.

  lemma PrintedArray(v: Json, ascii: bool)
    requires v.JArray? && v.items != []
    ensures Print(v, ascii) == "[" + PrintItems(v, 0, ascii)
    ensures PrintItems(v, 0, ascii) != [] && PrintItems(v, 0, ascii)[0] != ']'
  {
    PrintStarts(v.items[0], ascii);
  }

  lemma PrintedObject(v: Json, ascii: bool)
    requires v.JObject? && v.fields != map[]
    ensures SortedKeys(v.fields.Keys) != []
    ensures Print(v, ascii) == "{" + PrintFields(v, SortedKeys(v.fields.Keys), ascii)
    ensures PrintFields(v, SortedKeys(v.fields.Keys), ascii)[0] == '"'
  {
    var some :| some in v.fields;
    assert some in v.fields.Keys && some in SortedKeys(v.fields.Keys);
  }

  function Member(key: string, ascii: bool, value: string): string {
    "\"" + EscapeAll(key, ascii) + "\":" + value
  }

  lemma PrintedItems(v: Json, i: nat, ascii: bool, rest: string)
    requires v.JArray? && i < |v.items|
    ensures PrintItems(v, i, ascii) + rest ==
      Print(v.items[i], ascii) + (if i + 1 < |v.items| then "," + (PrintItems(v, i + 1, ascii) + rest) else "]" + rest)
  {
    hide Print;
  }

  lemma PrintedFields(v: Json, keys: seq<string>, ascii: bool, rest: string)
    requires v.JObject? && keys != [] && forall k :: k in keys ==> k in v.fields
    ensures PrintFields(v, keys, ascii) + rest ==
      Member(keys[0], ascii, Print(v.fields[keys[0]], ascii))
      + (if |keys| > 1 then "," + (PrintFields(v, keys[1..], ascii) + rest) else "}" + rest)
  {
    hide Print, EscapeAll;
  }

  /** The parser recovers every value from its canonical text, and stops right after it. */
  lemma {:induction false} ParsePrint(v: Json, ascii: bool, rest: string)
    requires Ends(rest)
    ensures Parse(Print(v, ascii) + rest) == Some((v, rest))
    decreases v, 1, 0
  {
    hide Parse, ParseItems, ParseFields, PrintItems, PrintFields, EscapeAll, UnescapeAll, PrintInt, SortedKeys, Only;
    var t := Print(v, ascii) + rest;
    match v
    case JNull => ParseWord(v, ascii, rest);
    case JBool(_) => ParseWord(v, ascii, rest);
    case JInt(n) => IntReads(n, rest);
    case JString(s) =>
      assert t == "\"" + EscapeAll(s, ascii) + "\"" + rest;
      QuotedReads(s, ascii, rest);
      ParseQuote(t, s, rest);
    case JArray(items) =>
      if items == [] {
        ParseEmptyArray(rest);
      } else {
        ItemsRead(v, 0, ascii, rest);
        PrintedArray(v, ascii);
        assert t[1..] == PrintItems(v, 0, ascii) + rest && items[0..] == items;
        ParseArray(t, items, rest);
      }
    case JObject(fields) =>
      if fields == map[] {
        ParseEmptyObject(rest);
      } else {
        var keys := SortedKeys(fields.Keys);
        PrintedObject(v, ascii);
        FieldsRead(v, keys, ascii, rest);
        assert t[1..] == PrintFields(v, keys, ascii) + rest;
        OnlyAll(fields, keys);
        ParseObject(t, fields, rest);
      }
  }

  lemma OnlyAll(fields: map<string, Json>, keys: seq<string>)
    requires forall k :: k in keys <==> k in fields
    ensures Only(fields, keys) == fields
  {
  }

  lemma OnlyStep(fields: map<string, Json>, keys: seq<string>)
    requires keys != [] && forall k :: k in keys ==> k in fields
    ensures forall k :: k in keys[1..] ==> k in fields
    ensures Only(fields, keys) == Only(fields, keys[1..])[keys[0] := fields[keys[0]]]
    ensures |keys| == 1 ==> Only(fields, keys) == map[keys[0] := fields[keys[0]]]
  {
    assert keys == [keys[0]] + keys[1..];
  }

  lemma {:induction false} ItemsRead(v: Json, i: nat, ascii: bool, rest: string)
    requires v.JArray? && i < |v.items|
    ensures ParseItems(PrintItems(v, i, ascii) + rest) == Some((v.items[i..], rest))
    decreases v, 0, |v.items| - i
  {
    hide Parse, ParseItems, Print, PrintItems;
    PrintedItems(v, i, ascii, rest);
    if i + 1 < |v.items| {
      var later := PrintItems(v, i + 1, ascii) + rest;
      ParsePrint(v.items[i], ascii, "," + later);
      ItemsRead(v, i + 1, ascii, rest);
      Behind(',', later);
      ItemsStep(PrintItems(v, i, ascii) + rest, v.items[i], "," + later);
      SliceCons(v.items, i);
    } else {
      ParsePrint(v.items[i], ascii, "]" + rest);
      Behind(']', rest);
      ItemsStep(PrintItems(v, i, ascii) + rest, v.items[i], "]" + rest);
      SliceCons(v.items, i);
    }
  }

  lemma Behind(c: char, rest: string)
    ensures ([c] + rest)[1..] == rest
  {
  }

  lemma SliceCons(items: seq<Json>, i: nat)
    requires i < |items|
    ensures items[i..] == [items[i]] + items[i + 1..]
    ensures i + 1 == |items| ==> items[i..] == [items[i]]
  {
  }

  lemma {:induction false} FieldReads(v: Json, key: string, ascii: bool, tail: string)
    requires v.JObject? && key in v.fields && Ends(tail)
    ensures ParseField(Member(key, ascii, Print(v.fields[key], ascii)) + tail) == Some((key, v.fields[key], tail))
    decreases v, 0, 0
  {
    hide Parse, ParseField, Print, EscapeAll, UnescapeAll;
    var value := Print(v.fields[key], ascii);
    var t := Member(key, ascii, value) + tail;
    var colon := ":" + (value + tail);
    assert t == "\"" + EscapeAll(key, ascii) + "\"" + colon;
    QuotedReads(key, ascii, colon);
    assert colon[1..] == value + tail;
    ParsePrint(v.fields[key], ascii, tail);
    FieldStep(t, key, colon, v.fields[key], tail);
  }

  lemma {:induction false} FieldsRead(v: Json, keys: seq<string>, ascii: bool, rest: string)
    requires v.JObject? && keys != [] && forall k :: k in keys ==> k in v.fields
    ensures ParseFields(PrintFields(v, keys, ascii) + rest) == Some((Only(v.fields, keys), rest))
    decreases v, 0, |keys|
  {
    hide ParseField, ParseFields, Print, PrintFields, Member, Only;
    PrintedFields(v, keys, ascii, rest);
    OnlyStep(v.fields, keys);
    var t := PrintFields(v, keys, ascii) + rest;
    if |keys| > 1 {
      var tail := "," + (PrintFields(v, keys[1..], ascii) + rest);
      FieldReads(v, keys[0], ascii, tail);
      assert tail[1..] == PrintFields(v, keys[1..], ascii) + rest;
      FieldsRead(v, keys[1..], ascii, rest);
      FieldsStep(t, keys[0], v.fields[keys[0]], tail);
    } else {
      var tail := "}" + rest;
      FieldReads(v, keys[0], ascii, tail);
      assert tail[1..] == rest;
      FieldsStep(t, keys[0], v.fields[keys[0]], tail);
    }
  }

  /** Equal canonical texts are texts of equal values. */
  lemma PrintInjective(v: Json, w: Json, ascii: bool)
    requires Print(v, ascii) == Print(w, ascii)
    ensures v == w
  {
    assert Print(v, ascii) == Print(v, ascii) + [] && Print(w, ascii) == Print(w, ascii) + [];
    ParsePrint(v, ascii, []);
    ParsePrint(w, ascii, []);
  }
}
