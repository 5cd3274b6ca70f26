/** The scanner for image markers in approved text: `%%name%%`, where the name has 1 to
    160 characters other than percent signs and line breaks. */
module MarkerScanner {
  import opened Wrappers

  const MAX_NAME: nat := 160

  // ----- the declarative reading -----

  predicate DoubleAt(text: string, i: nat) {
    i + 1 < |text| && text[i] == '%' && text[i + 1] == '%'
  }

  /** No two percent signs in a row. */
  ghost predicate Free(text: string) {
    forall i: nat :: !DoubleAt(text, i)
  }

  predicate NameChar(c: char) {
    c != '%' && c != '\r' && c != '\n'
  }

  predicate IsMarker(m: string) {
    && 5 <= |m| <= 164
    && m[0] == '%' && m[1] == '%' && m[|m| - 2] == '%' && m[|m| - 1] == '%'
    && forall i :: 2 <= i < |m| - 2 ==> m[i] != '%' && m[i] != '\r' && m[i] != '\n'
  }

  function Join(segs: seq<string>, marks: seq<string>): string
    requires |segs| == |marks| + 1
  {
    if marks == [] then segs[0] else segs[0] + marks[0] + Join(segs[1..], marks[1..])
  }

  /** The text is segments without double percent signs around markers, and no marker
      touches another percent sign. */
  ghost predicate IsSplit(text: string, segs: seq<string>, marks: seq<string>) {
    && |segs| == |marks| + 1 && Join(segs, marks) == text
    && (forall i :: 0 <= i < |segs| ==> Free(segs[i]))
    && (forall i :: 0 <= i < |marks| ==> IsMarker(marks[i]))
    && (forall i :: 0 <= i < |marks| && segs[i] != [] ==> segs[i][|segs[i]| - 1] != '%')
    && (forall i :: 0 < i <= |marks| && segs[i] != [] ==> segs[i][0] != '%')
    && (forall i :: 0 < i < |marks| ==> segs[i] != [])
  }

  // ----- the scanner -----

  function Find(text: string, from: nat): (r: Option<nat>)
    requires from <= |text|
    ensures r.Some? ==> from <= r.value && DoubleAt(text, r.value) && forall i: nat :: from <= i < r.value ==> !DoubleAt(text, i)
    ensures r.None? ==> forall i: nat :: from <= i ==> !DoubleAt(text, i)
    decreases |text| - from
  {
    if DoubleAt(text, from) then Some(from)
    else if from == |text| then None
    else Find(text, from + 1)
  }

  function NameLength(text: string, from: nat): (n: nat)
    requires from <= |text|
    ensures from + n <= |text| && forall i :: from <= i < from + n ==> NameChar(text[i])
    ensures from + n == |text| || !NameChar(text[from + n])
    decreases |text| - from
  {
    if from == |text| || !NameChar(text[from]) then 0 else 1 + NameLength(text, from + 1)
  }

  /** The end of the marker that starts here, as the pattern matches it. */
  function MatchMarker(text: string, start: nat): (r: Option<nat>)
    requires DoubleAt(text, start)
    ensures r.Some? ==> start + 5 <= r.value <= |text|
  {
    var n := NameLength(text, start + 2);
    if 1 <= n <= MAX_NAME && DoubleAt(text, start + 2 + n) then Some(start + 4 + n) else None
  }

  lemma MatchIsMarker(text: string, start: nat, end: nat)
    requires DoubleAt(text, start) && start <= end <= |text|
    ensures MatchMarker(text, start) == Some(end) <==> IsMarker(text[start..end])
  {
    var m := text[start..end];
    if IsMarker(m) {
      assert forall i :: start + 2 <= i < end - 2 ==> text[i] == m[i - start];
      assert text[end - 2] == m[|m| - 2] && text[end - 1] == m[|m| - 1];
    }
  }

  datatype Parsed = Parsed(segs: seq<string>, marks: seq<string>)

  /** What the scanner reads off a text: the whole split, or nothing. */
  function Scan(text: string): Option<Parsed>
    decreases |text|
  {
    match Find(text, 0)
    case None => Some(Parsed([text], []))
    case Some(start) =>
      match MatchMarker(text, start)
      case None => None
      case Some(end) =>
        if end < |text| && text[end] == '%' then None
        else
          match Scan(text[end..])
          case None => None
          case Some(rest) => Some(Parsed([text[..start]] + rest.segs, [text[start..end]] + rest.marks))
  }

  lemma {:induction false} ScanSound(text: string)
    requires Scan(text).Some?
    ensures IsSplit(text, Scan(text).value.segs, Scan(text).value.marks)
    decreases |text|
  {
    hide Free, IsMarker, Join, MatchMarker;
    var p := Scan(text).value;
    if Find(text, 0).Some? {
      var start := Find(text, 0).value;
      var end := MatchMarker(text, start).value;
      ScanSound(text[end..]);
      var rest := Scan(text[end..]).value;
      FirstSegment(text, start);
      MatchIsMarker(text, start, end);
      AfterMarker(text[end..], rest.segs, rest.marks);
      SplitCons(text[..start], text[start..end], text[end..], rest.segs, rest.marks);
      assert text == text[..start] + text[start..end] + text[end..];
    } else {
      WholeIsSplit(text);
    }
  }

  lemma WholeIsSplit(text: string)
    requires Find(text, 0).None?
    ensures IsSplit(text, [text], [])
  {
  }

  lemma FirstSegment(text: string, start: nat)
    requires start <= |text| && DoubleAt(text, start) && forall i: nat :: i < start ==> !DoubleAt(text, i)
    ensures Free(text[..start]) && (start > 0 ==> text[start - 1] != '%')
  {
    forall i: nat ensures !DoubleAt(text[..start], i) {
      if i < start {
        assert !DoubleAt(text, i);
      }
    }
    if start > 0 {
      assert !DoubleAt(text, start - 1);
    }
  }

  /** What follows a marker does not start with a percent sign. */
  lemma AfterMarker(text: string, segs: seq<string>, marks: seq<string>)
    requires IsSplit(text, segs, marks) && (text != [] ==> text[0] != '%')
    ensures segs[0] != [] ==> segs[0][0] != '%'
    ensures marks != [] ==> segs[0] != []
  {
    if segs[0] != [] {
      assert text[0] == segs[0][0];
    }
    if segs[0] == [] && marks != [] {
      StartsWithMarker(segs, marks);
    }
  }

  lemma StartsWithMarker(segs: seq<string>, marks: seq<string>)
    requires |segs| == |marks| + 1 && segs[0] == [] && marks != [] && IsMarker(marks[0])
    ensures Join(segs, marks) != [] && Join(segs, marks)[0] == '%'
  {
  }

  lemma SplitCons(seg: string, mark: string, rest: string, segs: seq<string>, marks: seq<string>)
    requires Free(seg) && (seg != [] ==> seg[|seg| - 1] != '%') && IsMarker(mark)
    requires IsSplit(rest, segs, marks)
    requires segs[0] != [] ==> segs[0][0] != '%'
    requires marks != [] ==> segs[0] != []
    ensures IsSplit(seg + mark + rest, [seg] + segs, [mark] + marks)
  {
    var allSegs, allMarks := [seg] + segs, [mark] + marks;
    assert allSegs[1..] == segs && allMarks[1..] == marks;
    forall i | 0 <= i < |allSegs| ensures Free(allSegs[i]) {
    }
  }

  /** One marker off the front of the text. */
  lemma ScanCons(seg: string, mark: string, rest: string)
    requires Free(seg) && (seg != [] ==> seg[|seg| - 1] != '%') && IsMarker(mark)
    requires rest != [] ==> rest[0] != '%'
    ensures Scan(seg + mark + rest) ==
      (if Scan(rest).None? then None else Some(Parsed([seg] + Scan(rest).value.segs, [mark] + Scan(rest).value.marks)))
  {
    hide Free, IsMarker;
    var text := seg + mark + rest;
    var start, end := |seg|, |seg| + |mark|;
    FindsFirst(seg, mark, rest);
    assert text[start..end] == mark && text[end..] == rest && text[..start] == seg;
    MatchIsMarker(text, start, end);
  }

  lemma ScanWhole(text: string, segs: seq<string>)
    requires IsSplit(text, segs, [])
    ensures Scan(text) == Some(Parsed(segs, []))
  {
    assert Free(segs[0]) && text == segs[0];
    assert segs == [text];
  }

  /** The first segment and the first marker of a split. */
  lemma SplitHead(text: string, segs: seq<string>, marks: seq<string>)
    requires IsSplit(text, segs, marks) && marks != []
    ensures |segs| == |marks| + 1 && text == segs[0] + marks[0] + Join(segs[1..], marks[1..])
    ensures Free(segs[0]) && (segs[0] != [] ==> segs[0][|segs[0]| - 1] != '%') && IsMarker(marks[0])
    ensures Join(segs[1..], marks[1..]) != [] ==> Join(segs[1..], marks[1..])[0] != '%'
  {
    SplitTail(text, segs, marks);
    StartsClean(Join(segs[1..], marks[1..]), segs[1..], marks[1..]);
  }

  /** Every split of a text is the one the scanner finds. */
  lemma {:induction false} ScanComplete(text: string, segs: seq<string>, marks: seq<string>)
    requires IsSplit(text, segs, marks)
    ensures Scan(text) == Some(Parsed(segs, marks))
    decreases |marks|
  {
    hide IsSplit, Scan, Join, Free, IsMarker;
    if marks == [] {
      ScanWhole(text, segs);
    } else {
      SplitHead(text, segs, marks);
      var rest := Join(segs[1..], marks[1..]);
      SplitTail(text, segs, marks);
      ScanComplete(rest, segs[1..], marks[1..]);
      ScanCons(segs[0], marks[0], rest);
      assert segs == [segs[0]] + segs[1..] && marks == [marks[0]] + marks[1..];
    }
  }

  lemma FindsFirst(seg: string, mark: string, rest: string)
    requires Free(seg) && (seg != [] ==> seg[|seg| - 1] != '%') && IsMarker(mark)
    ensures Find(seg + mark + rest, 0) == Some(|seg|)
  {
    var text := seg + mark + rest;
    forall i: nat | i < |seg| ensures !DoubleAt(text, i) {
      assert !DoubleAt(seg, i);
      assert text[i] == seg[i] && (i + 1 < |seg| ==> text[i + 1] == seg[i + 1]);
    }
    assert text[|seg|] == mark[0] && text[|seg| + 1] == mark[1];
    assert DoubleAt(text, |seg|);
  }

  lemma SplitTail(text: string, segs: seq<string>, marks: seq<string>)
    requires IsSplit(text, segs, marks) && marks != []
    ensures IsSplit(Join(segs[1..], marks[1..]), segs[1..], marks[1..])
    ensures segs[1] != [] ==> segs[1][0] != '%'
    ensures |marks| > 1 ==> segs[1] != []
  {
    var s, m := segs[1..], marks[1..];
    forall i | 0 <= i < |s| ensures Free(s[i]) {
      assert s[i] == segs[i + 1];
    }
    assert forall i :: 0 <= i < |m| ==> s[i] == segs[i + 1] && m[i] == marks[i + 1];
    assert s[|m|] == segs[|m| + 1];
  }

  lemma StartsClean(text: string, segs: seq<string>, marks: seq<string>)
    requires |segs| == |marks| + 1 && Join(segs, marks) == text
    requires segs[0] != [] ==> segs[0][0] != '%'
    requires marks != [] ==> segs[0] != []
    ensures text != [] ==> text[0] != '%'
  {
  }

  /** A text has at most one split. */
  lemma SplitUnique(text: string, segs: seq<string>, marks: seq<string>, segs': seq<string>, marks': seq<string>)
    requires IsSplit(text, segs, marks) && IsSplit(text, segs', marks')
    ensures segs == segs' && marks == marks'
  {
    ScanComplete(text, segs, marks);
    ScanComplete(text, segs', marks');
  }

  // ----- the loop -----

  function SetOf(marks: seq<string>): (r: set<string>)
    ensures forall m :: m in r <==> m in marks
  {
    if marks == [] then {}
    else
      assert marks == [marks[0]] + marks[1..];
      {marks[0]} + SetOf(marks[1..])
  }

  /** What the loop computes: the markers, when they are exactly the selected ones. */
  function Selected(text: string, selected: set<string>): Option<set<string>> {
    match Scan(text)
    case None => None
    case Some(p) => if SetOf(p.marks) == selected then Some(selected) else None
  }

  /** The scanner accepts exactly the texts that split into segments and markers whose
      markers are, as a set, the selected ones. */
  lemma SelectedExactly(text: string, selected: set<string>)
    ensures Selected(text, selected).Some? <==>
      exists segs, marks :: IsSplit(text, segs, marks) && SetOf(marks) == selected
  {
    if Selected(text, selected).Some? {
      ScanSound(text);
    }
    if segs, marks :| IsSplit(text, segs, marks) && SetOf(marks) == selected {
      ScanComplete(text, segs, marks);
    }
  }

  /** The scan of a whole text, given what the loop has passed and what is left. */
  ghost function Ahead(marks: seq<string>, rest: Option<Parsed>): Option<seq<string>> {
    if rest.None? then None else Some(marks + rest.value.marks)
  }

  lemma {:induction false} FindShift(text: string, cursor: nat, from: nat)
    requires cursor <= from <= |text|
    ensures Find(text, from) ==
      (if Find(text[cursor..], from - cursor).None? then None else Some(Find(text[cursor..], from - cursor).value + cursor))
    decreases |text| - from
  {
    assert forall i: nat :: DoubleAt(text[cursor..], i) <==> DoubleAt(text, i + cursor);
    if !DoubleAt(text, from) && from < |text| {
      FindShift(text, cursor, from + 1);
    }
  }

  lemma {:induction false} NameShift(text: string, cursor: nat, from: nat)
    requires cursor <= from <= |text|
    ensures NameLength(text, from) == NameLength(text[cursor..], from - cursor)
    decreases |text| - from
  {
    if from < |text| {
      NameShift(text, cursor, from + 1);
    }
  }

  lemma MatchShift(text: string, cursor: nat, start: nat)
    requires cursor <= start && DoubleAt(text, start)
    ensures DoubleAt(text[cursor..], start - cursor)
    ensures MatchMarker(text, start) ==
      (if MatchMarker(text[cursor..], start - cursor).None? then None
       else Some(MatchMarker(text[cursor..], start - cursor).value + cursor))
  {
    NameShift(text, cursor, start + 2);
  }

  /** What the scan of a text makes of its first marker, ending at `end`. */
  ghost predicate TurnOf(now: Option<Parsed>, blocked: bool, marker: string, later: Option<Parsed>) {
    if blocked then now.None?
    else (later.None? ==> now.None?) && (later.Some? ==> now.Some? && now.value.marks == [marker] + later.value.marks)
  }

  lemma ScanFront(text: string, start: nat)
    requires Find(text, 0) == Some(start)
    ensures MatchMarker(text, start).None? ==> Scan(text).None?
    ensures MatchMarker(text, start).Some? ==>
      var end := MatchMarker(text, start).value;
      TurnOf(Scan(text), end < |text| && text[end] == '%', text[start..end], Scan(text[end..]))
  {
    hide Find, MatchMarker;
  }

  lemma ScanNothing(text: string)
    ensures Find(text, 0).None? ==> Scan(text) == Some(Parsed([text], []))
  {
  }

  lemma ShiftSlices(text: string, cursor: nat, a: nat, b: nat)
    requires cursor <= a <= b <= |text|
    ensures text[cursor..][a - cursor..b - cursor] == text[a..b] && text[cursor..][b - cursor..] == text[b..]
  {
  }

  /** One turn of the loop, on the text from the cursor on. */
  lemma ScanStep(text: string, cursor: nat)
    requires cursor <= |text|
    ensures Find(text, cursor).None? ==> Scan(text[cursor..]) == Some(Parsed([text[cursor..]], []))
    ensures Find(text, cursor).Some? ==>
      var start := Find(text, cursor).value; var end := MatchMarker(text, start);
      && (end.None? ==> Scan(text[cursor..]).None?)
      && (end.Some? ==> TurnOf(Scan(text[cursor..]), end.value < |text| && text[end.value] == '%',
                               text[start..end.value], Scan(text[end.value..])))
  {
    hide Find, MatchMarker, TurnOf, Scan;
    ScanNothing(text[cursor..]);
    var rest := text[cursor..];
    FindShift(text, cursor, cursor);
    var found := Find(text, cursor);
    if found.Some? {
      MatchShift(text, cursor, found.value);
      ScanFront(rest, found.value - cursor);
      var end := MatchMarker(text, found.value);
      if end.Some? {
        ShiftSlices(text, cursor, found.value, end.value);
      }
    }
  }

  /** Between two turns the cursor stands at the start, or after a marker that no
      percent sign follows. */
  predicate AtBoundary(text: string, cursor: nat) {
    && cursor <= |text|
    && (cursor > 0 && cursor < |text| ==> text[cursor] != '%')
  }

  /** The test on the character before a marker never decides the result. */
  lemma BeforeTestRedundant(text: string, cursor: nat)
    requires AtBoundary(text, cursor) && Find(text, cursor).Some?
    ensures Find(text, cursor).value > 0 ==> text[Find(text, cursor).value - 1] != '%'
  {
    var start := Find(text, cursor).value;
    if start > cursor {
      assert !DoubleAt(text, start - 1);
    }
  }

  lemma AheadStep(marks: seq<string>, marker: string, now: Option<Parsed>, later: Option<Parsed>)
    requires TurnOf(now, false, marker, later)
    ensures Ahead(marks, now) == Ahead(marks + [marker], later)
  {
    if later.Some? {
      assert marks + ([marker] + later.value.marks) == marks + [marker] + later.value.marks;
    }
  }

  method SelectedMarkers(text: string, selected: set<string>) returns (r: Option<set<string>>)
    ensures r == Selected(text, selected)
  {
    hide Find, MatchMarker, SetOf, Scan;
    NoMarkers();
    var observed: set<string> := {};
    var cursor := 0;
    ghost var marks: seq<string> := [];
    assert text[0..] == text;
    while true
      invariant AtBoundary(text, cursor)
      invariant observed == SetOf(marks) && observed <= selected
      invariant Ahead([], Scan(text)) == Ahead(marks, Scan(text[cursor..]))
      decreases |text| - cursor
    {
      ScanStep(text, cursor);
      var found := Find(text, cursor);
      if found.None? {
        break;
      }
      var start := found.value;
      BeforeTestRedundant(text, cursor);
      var match_ := MatchMarker(text, start);
      if match_.None? {
        return None;
      }
      var end := match_.value;
      if (start > 0 && text[start - 1] == '%') || (end < |text| && text[end] == '%') {
        return None;
      }
      var marker := text[start..end];
      ghost var more := marks + [marker];
      AheadStep(marks, marker, Scan(text[cursor..]), Scan(text[end..]));
      AddMarker(marks, marker);
      if marker !in selected {
        if Scan(text).Some? {
          assert marker in more + Scan(text[end..]).value.marks;
        }
        return None;
      }
      observed := observed + {marker};
      marks := more;
      cursor := end;
    }
    assert marks + [] == marks;
    r := if observed != selected then None else Some(observed);
  }

  lemma NoMarkers()
    ensures SetOf([]) == {}
  {
  }

  lemma AddMarker(marks: seq<string>, marker: string)
    ensures SetOf(marks + [marker]) == SetOf(marks) + {marker}
  {
  }
}
