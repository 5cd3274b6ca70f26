/** One list laid out from several: where the parts begin, and what stands there. */
module Concatenation {

  /** Part `i` of the list begins at `offsets[i]` and is `parts[i]`; nothing else is in it. */
  ghost predicate LaidOut<T>(all: seq<T>, parts: seq<seq<T>>, offsets: seq<nat>) {
    && |offsets| == |parts| + 1 && offsets[0] == 0 && offsets[|parts|] == |all|
    && forall i :: 0 <= i < |parts| ==> PartAt(all, parts[i], offsets[i], offsets[i + 1])
  }

  ghost predicate PartAt<T>(all: seq<T>, part: seq<T>, from: nat, to: nat) {
    from <= to <= |all| && all[from..to] == part
  }

  /** The list is its parts, one after another. */
  ghost predicate Concatenates<T>(all: seq<T>, parts: seq<seq<T>>) {
    exists offsets: seq<nat> :: LaidOut(all, parts, offsets)
  }

  lemma NoParts<T>(all: seq<T>)
    requires all == []
    ensures Concatenates(all, [])
  {
    var offsets: seq<nat> := [0];
    assert LaidOut(all, [], offsets);
  }

  lemma OnePartMore<T>(all: seq<T>, parts: seq<seq<T>>, last: seq<T>)
    requires Concatenates(all, parts)
    ensures Concatenates(all + last, parts + [last])
  {
    var offsets: seq<nat> :| LaidOut(all, parts, offsets);
    var end: nat := |all + last|;
    var longer: seq<nat> := offsets + [end];
    forall i | 0 <= i < |parts| + 1
      ensures PartAt(all + last, (parts + [last])[i], longer[i], longer[i + 1])
    {
      if i < |parts| {
        assert PartAt(all, parts[i], offsets[i], offsets[i + 1]);
        assert (all + last)[offsets[i]..offsets[i + 1]] == all[offsets[i]..offsets[i + 1]];
      } else {
        assert (all + last)[|all|..] == last;
      }
    }
    assert LaidOut(all + last, parts + [last], longer);
  }

  /** There is one such list only. */
  lemma {:induction false} LaidOutUnique<T>(a: seq<T>, b: seq<T>, parts: seq<seq<T>>, s: seq<nat>, t: seq<nat>, n: nat)
    requires LaidOut(a, parts, s) && LaidOut(b, parts, t) && n <= |parts|
    ensures s[n] == t[n] <= |a| && t[n] <= |b| && a[..s[n]] == b[..t[n]]
  {
    if n > 0 {
      LaidOutUnique(a, b, parts, s, t, n - 1);
      assert PartAt(a, parts[n - 1], s[n - 1], s[n]) && PartAt(b, parts[n - 1], t[n - 1], t[n]);
      assert a[..s[n]] == a[..s[n - 1]] + parts[n - 1] && b[..t[n]] == b[..t[n - 1]] + parts[n - 1];
    }
  }

  lemma ConcatenationUnique<T>(a: seq<T>, b: seq<T>, parts: seq<seq<T>>)
    requires Concatenates(a, parts) && Concatenates(b, parts)
    ensures a == b
  {
    var s: seq<nat> :| LaidOut(a, parts, s);
    var t: seq<nat> :| LaidOut(b, parts, t);
    LaidOutUnique(a, b, parts, s, t, |parts|);
    assert a[..|a|] == a && b[..|b|] == b;
  }

  // ----- first occurrences -----

  /** `k` is where `x` stands first. */
  ghost predicate FirstAt<T>(s: seq<T>, x: T, k: nat) {
    k < |s| && s[k] == x && x !in s[..k]
  }

  /** Every value of `s` once, in the order in which they come first. */
  ghost predicate FirstOccurrences<T(!new)>(r: seq<T>, s: seq<T>) {
    && (forall x :: x in r <==> x in s)
    && forall i, j, k: nat, l: nat :: 0 <= i < j < |r| && FirstAt(s, r[i], k) && FirstAt(s, r[j], l) ==> k < l
  }

  lemma FirstAtMore<T>(s: seq<T>, last: T, x: T, k: nat)
    ensures FirstAt(s + [last], x, k) <==> FirstAt(s, x, k) || (x !in s && x == last && k == |s|)
  {
    if k <= |s| {
      assert (s + [last])[..k] == s[..k];
    }
  }

  lemma NoOccurrences<T(!new)>()
    ensures FirstOccurrences<T>([], [])
  {
  }

  lemma OneMoreOccurrence<T(!new)>(r: seq<T>, s: seq<T>, last: T)
    requires FirstOccurrences(r, s)
    ensures FirstOccurrences(if last in r then r else r + [last], s + [last])
  {
    var more := if last in r then r else r + [last];
    hide FirstAt;
    forall i, j, k: nat, l: nat | 0 <= i < j < |more| && FirstAt(s + [last], more[i], k) && FirstAt(s + [last], more[j], l)
      ensures k < l
    {
      assert more[i] == r[i] && r[i] in r;
      FirstAtMore(s, last, r[i], k);
      FirstAtMore(s, last, more[j], l);
      FirstAtBefore(s, r[i], k);
      FirstAtBefore(s, more[j], l);
      if j < |r| {
        assert r[j] in r;
      }
    }
  }

  lemma FirstAtBefore<T>(s: seq<T>, x: T, k: nat)
    ensures FirstAt(s, x, k) ==> k < |s| && x in s
  {
  }

  // ----- parts kept in order -----

  ghost predicate Ascending(at: seq<nat>) {
    forall i, j :: 0 <= i < j < |at| ==> at[i] < at[j]
  }

  lemma {:induction false} AscendingUnique(a: seq<nat>, b: seq<nat>)
    requires Ascending(a) && Ascending(b) && forall x: nat :: x in a <==> x in b
    ensures a == b
  {
    if a != [] && b != [] {
      var x, y := a[|a| - 1], b[|b| - 1];
      assert x in b && y in a && x == y;
      AllButLast(a);
      AllButLast(b);
      var c, d := a[..|a| - 1], b[..|b| - 1];
      forall z: nat ensures z in c <==> z in d {
        assert z in a <==> z in b;
      }
      AscendingUnique(c, d);
    } else if a != b {
      var x := FirstOf(if a == [] then b else a);
      assert false;
    }
  }

  lemma AllButLast(s: seq<nat>)
    requires Ascending(s) && s != []
    ensures Ascending(s[..|s| - 1]) && s == s[..|s| - 1] + [s[|s| - 1]]
    ensures forall x: nat :: x in s[..|s| - 1] <==> x in s && x != s[|s| - 1]
  {
  }

  lemma FirstOf(s: seq<nat>) returns (x: nat)
    requires s != []
    ensures x in s
  {
    x := s[0];
  }

  /** `r` is what `s` holds at the positions `at`, in order. */
  ghost predicate PickedAt<T>(r: seq<T>, s: seq<T>, at: seq<nat>) {
    && Ascending(at) && |r| == |at|
    && forall k :: 0 <= k < |at| ==> at[k] < |s| && r[k] == s[at[k]]
  }

  lemma NonePicked<T>(s: seq<T>)
    ensures PickedAt([], s, [])
  {
  }

  lemma OneMorePicked<T>(r: seq<T>, s: seq<T>, at: seq<nat>, last: T)
    requires PickedAt(r, s, at)
    ensures PickedAt(r, s + [last], at) && PickedAt(r + [last], s + [last], at + [|s|])
  {
  }
}
