/** Stable insertion sort by a strict order. */
module Sorting {

  /** Incomparable values may be swapped for one another. */
  ghost predicate Order<T(!new)>(before: (T, T) -> bool) {
    && (forall x, y :: before(x, y) ==> !before(y, x))
    && (forall x, y, z :: !before(x, y) && !before(y, z) ==> !before(x, z))
  }

  /** Nothing comes before an earlier value. */
  ghost predicate Sorted<T>(s: seq<T>, before: (T, T) -> bool) {
    forall i, j :: 0 <= i < j < |s| ==> !before(s[j], s[i])
  }

  /** Insert behind everything that does not have to come later. */
  function Insert<T>(s: seq<T>, x: T, before: (T, T) -> bool): (r: seq<T>)
    ensures multiset(r) == multiset(s) + multiset{x}
  {
    if |s| == 0 || !before(x, s[|s| - 1]) then s + [x]
    else
      assert s == s[..|s| - 1] + [s[|s| - 1]];
      Insert(s[..|s| - 1], x, before) + [s[|s| - 1]]
  }

  function Sort<T>(s: seq<T>, before: (T, T) -> bool): (r: seq<T>)
    ensures multiset(r) == multiset(s) && |r| == |s|
  {
    if |s| == 0 then []
    else
      assert s == s[..|s| - 1] + [s[|s| - 1]];
      var r := Insert(Sort(s[..|s| - 1], before), s[|s| - 1], before);
      assert |r| == |multiset(r)|;
      r
  }

  lemma PrefixSorted<T>(s: seq<T>, n: nat, before: (T, T) -> bool)
    requires Sorted(s, before) && n <= |s|
    ensures Sorted(s[..n], before)
    ensures 0 < n < |s| ==> !before(s[n], s[n - 1])
  {
  }

  lemma AppendSorted<T>(s: seq<T>, x: T, before: (T, T) -> bool)
    requires Sorted(s, before) && forall i :: 0 <= i < |s| ==> !before(x, s[i])
    ensures Sorted(s + [x], before)
  {
  }

  /** What does not come before the last value comes before none. */
  lemma AfterLast<T(!new)>(s: seq<T>, x: T, before: (T, T) -> bool)
    requires Order(before) && Sorted(s, before) && |s| > 0 && !before(x, s[|s| - 1])
    ensures forall i :: 0 <= i < |s| ==> !before(x, s[i])
  {
    forall i | 0 <= i < |s| - 1 ensures !before(x, s[i]) {
      assert !before(s[|s| - 1], s[i]);
    }
  }

  lemma {:induction false} InsertSorts<T(!new)>(s: seq<T>, x: T, before: (T, T) -> bool)
    requires Order(before) && Sorted(s, before)
    ensures Sorted(Insert(s, x, before), before)
  {
    hide Sorted;
    if |s| == 0 {
      AppendSorted(s, x, before);
    } else if before(x, s[|s| - 1]) {
      var front, last := s[..|s| - 1], s[|s| - 1];
      PrefixSorted(s, |s| - 1, before);
      InsertSorts(front, x, before);
      AllAfter(s, x, before);
      AppendSorted(Insert(front, x, before), last, before);
    } else {
      AfterLast(s, x, before);
      AppendSorted(s, x, before);
    }
  }

  /** The last value still comes last when another one was inserted before it. */
  lemma AllAfter<T(!new)>(s: seq<T>, x: T, before: (T, T) -> bool)
    requires Order(before) && Sorted(s, before) && |s| > 0 && before(x, s[|s| - 1])
    ensures var r := Insert(s[..|s| - 1], x, before); forall i :: 0 <= i < |r| ==> !before(s[|s| - 1], r[i])
  {
    hide Insert;
    var front, last := s[..|s| - 1], s[|s| - 1];
    var r := Insert(front, x, before);
    forall i | 0 <= i < |r| ensures !before(last, r[i]) {
      assert r[i] in multiset(r);
      if r[i] != x {
        assert r[i] in front;
        var k :| 0 <= k < |front| && front[k] == r[i];
        assert s[k] == r[i];
      }
    }
  }

  /** The result is in order, whatever the input. */
  lemma {:induction false} SortSorts<T(!new)>(s: seq<T>, before: (T, T) -> bool)
    requires Order(before)
    ensures Sorted(Sort(s, before), before)
  {
    if |s| > 0 {
      SortSorts(s[..|s| - 1], before);
      InsertSorts(Sort(s[..|s| - 1], before), s[|s| - 1], before);
    }
  }

  /** What is in order stays as it is. */
  lemma {:induction false} SortedStays<T>(s: seq<T>, before: (T, T) -> bool)
    requires Sorted(s, before)
    ensures Sort(s, before) == s
  {
    hide Sorted;
    if |s| > 0 {
      var n := |s| - 1;
      PrefixSorted(s, n, before);
      SortedStays(s[..n], before);
      assert s == s[..n] + [s[n]];
    }
  }
}
