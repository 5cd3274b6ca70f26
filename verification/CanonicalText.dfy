/** What canonical JSON text looks like, said without the printer: the order of its keys,
    the form of its strings and numbers, and where its punctuation stands. */
module CanonicalText {
  import opened Wrappers
  import opened Json
  import opened CanonicalJson

  // ----- the order of keys -----

  /** `a` is a proper prefix of `b`, or has the smaller code point where they first differ. */
  ghost predicate Precedes(a: string, b: string) {
    a < b || exists i: nat :: i < |a| && i < |b| && FirstDifference(a, b, i)
  }

  predicate FirstDifference(a: string, b: string, i: nat)
    requires i < |a| && i < |b|
  {
    a[..i] == b[..i] && a[i] < b[i]
  }

  lemma FirstDifferenceLater(a: string, b: string, i: nat)
    requires a != [] && b != [] && a[0] == b[0] && i + 1 < |a| && i + 1 < |b|
    ensures FirstDifference(a, b, i + 1) <==> FirstDifference(a[1..], b[1..], i)
  {
    assert a[..i + 1] == [a[0]] + a[1..][..i] && b[..i + 1] == [b[0]] + b[1..][..i];
  }

  lemma PrefixLater(a: string, b: string)
    requires a != [] && b != [] && a[0] == b[0]
    ensures a < b <==> a[1..] < b[1..]
  {
    assert a == [a[0]] + a[1..] && b == [b[0]] + b[1..];
    if a < b {
      assert a[1..] == b[..|a|][1..];
    }
    if a[1..] < b[1..] {
      assert a == [b[0]] + b[1..][..|a| - 1] == b[..|a|];
    }
  }

  lemma PrecedesLater(a: string, b: string)
    requires a != [] && b != [] && a[0] == b[0]
    ensures Precedes(a, b) <==> Precedes(a[1..], b[1..])
  {
    hide FirstDifference;
    PrefixLater(a, b);
    if i: nat :| i < |a| && i < |b| && FirstDifference(a, b, i) {
      NotAtFirst(a, b, i);
      FirstDifferenceLater(a, b, i - 1);
      assert FirstDifference(a[1..], b[1..], i - 1);
    }
    if i: nat :| i < |a[1..]| && i < |b[1..]| && FirstDifference(a[1..], b[1..], i) {
      FirstDifferenceLater(a, b, i);
      assert FirstDifference(a, b, i + 1);
    }
  }

  lemma NotAtFirst(a: string, b: string, i: nat)
    requires i < |a| && i < |b| && a[0] == b[0] && FirstDifference(a, b, i)
    ensures i > 0
  {
  }

  lemma HeadsOfPrefix(a: string, b: string, i: nat)
    requires 0 < i < |a| && i < |b|
    ensures a[..i] == b[..i] ==> a[0] == b[0]
  {
    assert a[..i][0] == a[0] && b[..i][0] == b[0];
  }

  lemma OnlyAtFirst(a: string, b: string, i: nat)
    requires i < |a| && i < |b| && a[0] != b[0] && FirstDifference(a, b, i)
    ensures a[0] < b[0]
  {
    if i > 0 {
      HeadsOfPrefix(a, b, i);
    }
  }

  lemma PrecedesAtFirst(a: string, b: string)
    requires a == [] || b == [] || a[0] != b[0]
    ensures Precedes(a, b) <==> (a == [] && b != []) || (a != [] && b != [] && a[0] < b[0])
  {
    if a != [] && b != [] {
      if a[0] < b[0] {
        assert FirstDifference(a, b, 0);
      }
      forall i: nat | i < |a| && i < |b| && FirstDifference(a, b, i) ensures a[0] < b[0] {
        OnlyAtFirst(a, b, i);
      }
    }
  }

  /** The comparison of keys is the order of texts by code point. */
  lemma {:induction false} AtMostExactly(a: string, b: string)
    ensures AtMost(a, b) <==> a == b || Precedes(a, b)
  {
    hide Precedes;
    if a != [] && b != [] && a[0] == b[0] {
      AtMostExactly(a[1..], b[1..]);
      PrecedesLater(a, b);
      assert a == [a[0]] + a[1..] && b == [b[0]] + b[1..];
    } else {
      PrecedesAtFirst(a, b);
    }
  }

  /** Keys that ascend by code point. */
  ghost predicate Ascending(keys: seq<string>) {
    forall i, j :: 0 <= i < j < |keys| ==> Precedes(keys[i], keys[j])
  }

  lemma PrecedesIrreflexive(a: string)
    ensures !Precedes(a, a)
  {
  }

  lemma AscendingExactly(keys: seq<string>)
    ensures Ascending(keys) <==> SortedListing(keys)
  {
    hide Precedes, AtMost;
    forall i, j | 0 <= i < j < |keys|
      ensures Precedes(keys[i], keys[j]) <==> keys[i] != keys[j] && AtMost(keys[i], keys[j])
    {
      AtMostExactly(keys[i], keys[j]);
      PrecedesIrreflexive(keys[i]);
    }
  }

  // ----- strings -----

  predicate LowerHex(t: string) {
    forall i :: 0 <= i < |t| ==> '0' <= t[i] <= '9' || 'a' <= t[i] <= 'f'
  }

  function DigitWorth(c: char): nat {
    if '0' <= c <= '9' then c as int - '0' as int
    else if 'a' <= c <= 'f' then 10 + (c as int - 'a' as int)
    else 0
  }

  /** The number a text of digits stands for in a base, the last digit counting once. */
  function Worth(t: string, base: nat): nat {
    if t == [] then 0 else Worth(t[..|t| - 1], base) * base + DigitWorth(t[|t| - 1])
  }

  /** An escape of four hexadecimal digits, in lower case, for this UTF-16 unit. */
  ghost predicate UnitEscape(e: string, unit: int) {
    |e| == 6 && e[..2] == "\\u" && LowerHex(e[2..]) && Worth(e[2..], 16) == unit
  }

  /** A character stands for itself unless it is a quote, a backslash, a control
      character or, in escaped text, outside printable ASCII. */
  predicate Plain(c: char, ascii: bool) {
    c != '"' && c != '\\' && c as int >= 32 && (ascii ==> c as int <= 126)
  }

  /** The seven characters with a short escape, and their letters. */
  const SHORT: map<int, char> := map[34 := '"', 92 := '\\', 8 := 'b', 9 := 't', 10 := 'n', 12 := 'f', 13 := 'r']

  /** How every character of a string is written: as itself, with a short escape, as its
      UTF-16 unit, or as the surrogate pair that stands for it. */
  lemma EscapeShape(c: char, ascii: bool)
    ensures var e := Escape(c, ascii);
      && (Plain(c, ascii) ==> e == [c])
      && (c as int in SHORT ==> e == ['\\', SHORT[c as int]])
      && (!Plain(c, ascii) && c as int !in SHORT && c as int < 0x10000 ==> UnitEscape(e, c as int))
      && (!Plain(c, ascii) && c as int >= 0x10000 ==>
            exists high, low ::
              && 0xD800 <= high < 0xDC00 && 0xDC00 <= low < 0xE000
              && c as int == 0x10000 + (high - 0xD800) * 0x400 + (low - 0xDC00)
              && |e| == 12 && UnitEscape(e[..6], high) && UnitEscape(e[6..], low))
  {
    hide UnitEscape;
    if !Plain(c, ascii) && c as int !in SHORT {
      if c as int < 0x10000 {
        HexUnit(c as int);
      } else {
        var n := c as int - 0x10000;
        PairCode(c as int);
        var high, low := 0xD800 + n / 0x400, 0xDC00 + n % 0x400;
        HexUnit(high);
        HexUnit(low);
        PairSplits("\\u" + Hex4(high), "\\u" + Hex4(low));
        assert Escape(c, ascii) == "\\u" + Hex4(high) + ("\\u" + Hex4(low));
      }
    }
  }

  lemma PairSplits(a: string, b: string)
    requires |a| == 6 && |b| == 6
    ensures |a + b| == 12 && (a + b)[..6] == a && (a + b)[6..] == b
  {
  }

  lemma HexUnit(n: nat)
    requires n < 0x10000
    ensures UnitEscape("\\u" + Hex4(n), n)
  {
    hide Hex4, Worth, LowerHex;
    HexIsLower(n);
    var e := "\\u" + Hex4(n);
    assert e[..2] == "\\u" && e[2..] == Hex4(n);
  }

  lemma HexIsLower(n: nat)
    requires n < 0x10000
    ensures LowerHex(Hex4(n)) && Worth(Hex4(n), 16) == n
  {
    var a, b, c, d := HexDigit(n / 4096), HexDigit(n / 256 % 16), HexDigit(n / 16 % 16), HexDigit(n % 16);
    FourDigits(a, b, c, d, 16);
    Base16(n);
  }

  lemma FourDigits(a: char, b: char, c: char, d: char, base: nat)
    ensures Worth([a, b, c, d], base) == ((DigitWorth(a) * base + DigitWorth(b)) * base + DigitWorth(c)) * base + DigitWorth(d)
  {
    hide DigitWorth;
    assert [a, b, c, d][..3] == [a, b, c] && [a, b, c][..2] == [a, b] && [a, b][..1] == [a] && [a][..0] == [];
    assert Worth([a], base) == DigitWorth(a);
    assert Worth([a, b], base) == DigitWorth(a) * base + DigitWorth(b);
    assert Worth([a, b, c], base) == (DigitWorth(a) * base + DigitWorth(b)) * base + DigitWorth(c);
  }

  // ----- numbers -----

  /** A number is written in decimal digits without a leading zero. */
  lemma {:induction false} DigitsShape(n: nat)
    ensures var t := Digits(n);
      && (forall i :: 0 <= i < |t| ==> '0' <= t[i] <= '9')
      && Worth(t, 10) == n && |t| > 0 && (t[0] == '0' ==> n == 0 && t == "0")
  {
    var t := Digits(n);
    if n < 10 {
      assert t[..0] == [];
    } else {
      DigitsShape(n / 10);
      var front := Digits(n / 10);
      assert t == front + [DigitChar(n % 10)] && t[..|t| - 1] == front;
    }
  }

  // ----- arrays and objects -----

  function Joined(parts: seq<string>, separator: string): string {
    if |parts| == 0 then ""
    else if |parts| == 1 then parts[0]
    else parts[0] + separator + Joined(parts[1..], separator)
  }

  lemma JoinedStep(parts: seq<string>, separator: string)
    requires |parts| > 0
    ensures Joined(parts, separator) == if |parts| == 1 then parts[0] else parts[0] + separator + Joined(parts[1..], separator)
  {
  }

  function CharTexts(s: string, ascii: bool): (r: seq<string>)
    ensures |r| == |s| && forall i :: 0 <= i < |r| ==> r[i] == Escape(s[i], ascii)
  {
    seq(|s|, i requires 0 <= i < |s| => Escape(s[i], ascii))
  }

  /** A string: its characters between quotes, one after another. */
  function Quoted(s: string, ascii: bool): string {
    "\"" + Joined(CharTexts(s, ascii), "") + "\""
  }

  lemma {:induction false} CharsJoined(s: string, ascii: bool)
    ensures EscapeAll(s, ascii) == Joined(CharTexts(s, ascii), "")
  {
    hide Escape;
    if s != [] {
      CharsJoined(s[1..], ascii);
      assert CharTexts(s, ascii)[1..] == CharTexts(s[1..], ascii);
      assert |s| == 1 ==> EscapeAll(s[1..], ascii) == "";
    }
  }

  ghost function ItemTexts(items: seq<Json>, ascii: bool): (r: seq<string>)
    ensures |r| == |items| && forall i :: 0 <= i < |r| ==> r[i] == Print(items[i], ascii)
  {
    seq(|items|, i requires 0 <= i < |items| => Print(items[i], ascii))
  }

  ghost function FieldTexts(fields: map<string, Json>, keys: seq<string>, ascii: bool): (r: seq<string>)
    requires forall k :: k in keys ==> k in fields
    ensures |r| == |keys| && forall i :: 0 <= i < |r| ==> r[i] == Quoted(keys[i], ascii) + ":" + Print(fields[keys[i]], ascii)
  {
    seq(|keys|, i requires 0 <= i < |keys| => Quoted(keys[i], ascii) + ":" + Print(fields[keys[i]], ascii))
  }

  lemma {:induction false} ItemsJoined(v: Json, i: nat, ascii: bool)
    requires v.JArray? && i < |v.items|
    ensures PrintItems(v, i, ascii) == Joined(ItemTexts(v.items[i..], ascii), ",") + "]"
    decreases |v.items| - i
  {
    hide Print;
    var rest := v.items[i..];
    if i + 1 < |v.items| {
      ItemsJoined(v, i + 1, ascii);
      assert rest[1..] == v.items[i + 1..];
      assert ItemTexts(rest, ascii)[1..] == ItemTexts(rest[1..], ascii);
    }
  }

  lemma {:induction false} FieldsJoined(v: Json, keys: seq<string>, ascii: bool)
    requires v.JObject? && keys != [] && forall k :: k in keys ==> k in v.fields
    ensures PrintFields(v, keys, ascii) == Joined(FieldTexts(v.fields, keys, ascii), ",") + "}"
    decreases |keys|
  {
    hide Print, PrintFields, EscapeAll, Joined, Quoted;
    var parts := FieldTexts(v.fields, keys, ascii);
    FieldsStart(v, keys, ascii);
    JoinedStep(parts, ",");
    if |keys| > 1 {
      FieldsJoined(v, keys[1..], ascii);
      assert parts[1..] == FieldTexts(v.fields, keys[1..], ascii);
    }
  }

  lemma FieldsStart(v: Json, keys: seq<string>, ascii: bool)
    requires v.JObject? && keys != [] && forall k :: k in keys ==> k in v.fields
    ensures var first := Quoted(keys[0], ascii) + ":" + Print(v.fields[keys[0]], ascii);
      PrintFields(v, keys, ascii) == first + if |keys| > 1 then "," + PrintFields(v, keys[1..], ascii) else "}"
  {
    hide Print, EscapeAll, Joined;
    CharsJoined(keys[0], ascii);
    var text := EscapeAll(keys[0], ascii);
    assert "\"" + text + "\":" == "\"" + text + "\"" + ":";
  }

  /** An array: its items between brackets, with commas and nothing else between them. */
  lemma ArrayText(items: seq<Json>, ascii: bool)
    ensures Print(JArray(items), ascii) == "[" + Joined(ItemTexts(items, ascii), ",") + "]"
  {
    if items != [] {
      ItemsJoined(JArray(items), 0, ascii);
      assert items[0..] == items;
    }
  }

  /** An object: its fields between braces, in the ascending order of the keys by code
      point, whatever way that order was found. */
  lemma ObjectText(fields: map<string, Json>, keys: seq<string>, ascii: bool)
    requires Ascending(keys) && forall k :: k in keys <==> k in fields
    ensures Print(JObject(fields), ascii) == "{" + Joined(FieldTexts(fields, keys, ascii), ",") + "}"
  {
    hide Ascending, PrintFields, Joined;
    AscendingExactly(keys);
    SortedKeysUnique(fields.Keys, keys);
    if fields == map[] {
      NoFields(fields, keys, ascii);
    } else {
      var some :| some in fields;
      assert some in keys;
      FieldsJoined(JObject(fields), keys, ascii);
    }
  }

  lemma SomeKey(keys: seq<string>)
    requires keys != []
    ensures exists k :: k in keys
  {
    assert keys[0] in keys;
  }

  lemma NoFields(fields: map<string, Json>, keys: seq<string>, ascii: bool)
    requires fields == map[] && forall k :: k in keys <==> k in fields
    ensures keys == [] && "{" + Joined(FieldTexts(fields, keys, ascii), ",") + "}" == "{}"
  {
    if keys != [] {
      SomeKey(keys);
    }
  }

  /** And the keys of an object can be put in that order. */
  lemma KeysAscend(fields: map<string, Json>) returns (keys: seq<string>)
    ensures Ascending(keys) && forall k :: k in keys <==> k in fields
  {
    keys := SortedKeys(fields.Keys);
    AscendingExactly(keys);
  }

  /** The texts of the values without parts. */
  lemma LeafText(n: int, s: string, ascii: bool)
    ensures Print(JNull, ascii) == "null" && Print(JBool(true), ascii) == "true" && Print(JBool(false), ascii) == "false"
    ensures Print(JInt(n), ascii) == if n < 0 then "-" + Digits(-n) else Digits(n)
    ensures Print(JString(s), ascii) == Quoted(s, ascii)
  {
    CharsJoined(s, ascii);
  }
}
