/** The cache of selector outcomes of one turn: an ordered dictionary of at most four
    entries, least recently used first. */
module SelectorCache {
  import opened Wrappers

  datatype Outcome = Null | Json(text: string)

  const MAX_ENTRIES: nat := 4

  type Entries = seq<(string, Outcome)>

  function Keys(entries: Entries): (r: seq<string>)
    ensures |r| == |entries| && forall i :: 0 <= i < |r| ==> r[i] == entries[i].0
  {
    seq(|entries|, i requires 0 <= i < |entries| => entries[i].0)
  }

  // ----- the specification: the last distinct keys of a trace of uses -----

  function Without(keys: seq<string>, key: string): (r: seq<string>)
    ensures forall k :: k in r <==> k in keys && k != key
    ensures key !in keys ==> r == keys
    ensures |r| <= |keys|
  {
    if keys == [] then []
    else
      var front := Without(keys[..|keys| - 1], key);
      assert keys == keys[..|keys| - 1] + [keys[|keys| - 1]];
      if keys[|keys| - 1] == key then front else front + [keys[|keys| - 1]]
  }

  /** The distinct keys of a trace, ordered by their last use. */
  function ByLastUse(uses: seq<string>): seq<string> {
    if uses == [] then []
    else Without(ByLastUse(uses[..|uses| - 1]), uses[|uses| - 1]) + [uses[|uses| - 1]]
  }

  function LastOf(keys: seq<string>, n: nat): seq<string> {
    if |keys| <= n then keys else keys[|keys| - n..]
  }

  /** The keys a cache of `n` entries should hold after these uses. */
  function Recent(uses: seq<string>, n: nat): seq<string> {
    LastOf(ByLastUse(uses), n)
  }

  ghost predicate NoRepeats(keys: seq<string>) {
    forall i, j :: 0 <= i < j < |keys| ==> keys[i] != keys[j]
  }

  lemma NoneRepeats()
    ensures NoRepeats([])
  {
  }

  lemma AppendNoRepeats(keys: seq<string>, key: string)
    requires NoRepeats(keys) && key !in keys
    ensures NoRepeats(keys + [key])
  {
  }

  lemma {:induction false} WithoutNoRepeats(keys: seq<string>, key: string)
    requires NoRepeats(keys)
    ensures NoRepeats(Without(keys, key))
    ensures |Without(keys, key)| == |keys| - if key in keys then 1 else 0
  {
    if keys != [] {
      var front, last := keys[..|keys| - 1], keys[|keys| - 1];
      WithoutNoRepeats(front, key);
      assert last !in front;
      assert keys == front + [last];
      AppendNoRepeats(Without(front, key), last);
    }
  }

  lemma {:induction false} ByLastUseNoRepeats(uses: seq<string>)
    ensures NoRepeats(ByLastUse(uses))
  {
    hide Without, NoRepeats;
    if uses == [] {
      NoneRepeats();
    } else {
      var front, last := uses[..|uses| - 1], uses[|uses| - 1];
      ByLastUseNoRepeats(front);
      WithoutNoRepeats(ByLastUse(front), last);
      AppendNoRepeats(Without(ByLastUse(front), last), last);
    }
  }

  lemma {:induction false} WithoutAt(keys: seq<string>, i: nat)
    requires i < |keys| && NoRepeats(keys)
    ensures Without(keys, keys[i]) == keys[..i] + keys[i + 1..]
  {
    var n := |keys| - 1;
    var front := keys[..n];
    if i == n {
      assert keys[n] !in front;
    } else {
      WithoutAt(front, i);
      assert front[..i] + front[i + 1..] + [keys[n]] == keys[..i] + keys[i + 1..];
    }
  }

  lemma LastOfConcat(a: seq<string>, b: seq<string>, n: nat)
    requires n <= |b|
    ensures LastOf(a + b, n) == LastOf(b, n)
  {
  }

  lemma SplitAt(keys: seq<string>, cut: nat, i: nat)
    requires cut <= i < |keys|
    ensures keys[..i] + keys[i + 1..] == keys[..cut] + (keys[cut..][..i - cut] + keys[cut..][i - cut + 1..])
  {
  }

  lemma SplitBefore(keys: seq<string>, cut: nat, i: nat)
    requires i < cut <= |keys|
    ensures keys[..i] + keys[i + 1..] == (keys[..i] + keys[i + 1..cut]) + keys[cut..]
  {
  }

  /** Dropping a key before or after cutting off all but the last entries. */
  lemma {:induction false} WithoutLast(keys: seq<string>, key: string, n: nat)
    requires n > 0 && NoRepeats(keys)
    ensures LastOf(Without(keys, key), n - 1) == LastOf(Without(LastOf(keys, n), key), n - 1)
  {
    hide Without, NoRepeats;
    if |keys| > n {
      var cut := |keys| - n;
      CutWithout(keys, key, cut);
    }
  }

  lemma {:induction false} CutWithout(keys: seq<string>, key: string, cut: nat)
    requires cut < |keys| && NoRepeats(keys)
    ensures LastOf(Without(keys, key), |keys| - cut - 1) == LastOf(Without(keys[cut..], key), |keys| - cut - 1)
  {
    hide Without, LastOf;
    var kept := keys[cut..];
    assert keys == keys[..cut] + kept;
    if i :| 0 <= i < |keys| && keys[i] == key {
      WithoutAt(keys, i);
      if i >= cut {
        assert kept[i - cut] == key;
        WithoutAt(kept, i - cut);
        SplitAt(keys, cut, i);
        LastOfConcat(keys[..cut], Without(kept, key), |kept| - 1);
      } else {
        assert key !in kept;
        SplitBefore(keys, cut, i);
        LastOfConcat(keys[..i] + keys[i + 1..cut], kept, |kept| - 1);
      }
    } else {
      assert key !in keys && key !in kept;
      LastOfConcat(keys[..cut], kept, |kept| - 1);
    }
  }

  lemma LastOfAppend(keys: seq<string>, key: string, n: nat)
    requires n > 0
    ensures LastOf(keys + [key], n) == LastOf(keys, n - 1) + [key]
  {
  }

  /** One more use moves a recent key to the end, or pushes the oldest out. */
  lemma RecentStep(uses: seq<string>, key: string, n: nat)
    requires n > 0
    ensures Recent(uses + [key], n) == LastOf(Without(Recent(uses, n), key) + [key], n)
    ensures NoRepeats(Recent(uses, n)) && |Recent(uses, n)| <= n
  {
    hide Without, LastOf;
    assert (uses + [key])[..|uses|] == uses;
    ByLastUseNoRepeats(uses);
    WithoutLast(ByLastUse(uses), key, n);
    LastOfAppend(Without(ByLastUse(uses), key), key, n);
    LastOfAppend(Without(Recent(uses, n), key), key, n);
    LastOfNoRepeats(ByLastUse(uses), n);
  }

  lemma LastOfNoRepeats(keys: seq<string>, n: nat)
    requires NoRepeats(keys)
    ensures NoRepeats(LastOf(keys, n)) && |LastOf(keys, n)| <= n
  {
  }

  // ----- the cache -----

  function IndexOf(entries: Entries, key: string): (r: Option<nat>)
    ensures r.Some? ==> r.value < |entries| && entries[r.value].0 == key
    ensures r.None? ==> key !in Keys(entries)
  {
    if entries == [] then None
    else if entries[|entries| - 1].0 == key then Some(|entries| - 1)
    else
      var r := IndexOf(entries[..|entries| - 1], key);
      assert Keys(entries) == Keys(entries[..|entries| - 1]) + [entries[|entries| - 1].0];
      r
  }

  /** The entries without a key, then the key with an outcome. */
  function Touched(entries: Entries, key: string, outcome: Outcome): Entries {
    var i := IndexOf(entries, key);
    (if i.Some? then entries[..i.value] + entries[i.value + 1..] else entries) + [(key, outcome)]
  }

  lemma KeysOfRest(entries: Entries, i: nat)
    requires i < |entries|
    ensures Keys(entries[..i] + entries[i + 1..]) == Keys(entries)[..i] + Keys(entries)[i + 1..]
    ensures Keys(entries)[i] == entries[i].0
  {
  }

  lemma KeysOfMore(entries: Entries, key: string, outcome: Outcome)
    ensures Keys(entries + [(key, outcome)]) == Keys(entries) + [key]
  {
  }

  lemma TouchedKeys(entries: Entries, key: string, outcome: Outcome)
    requires NoRepeats(Keys(entries))
    ensures Keys(Touched(entries, key, outcome)) == Without(Keys(entries), key) + [key]
  {
    hide Keys, Without, NoRepeats;
    var i := IndexOf(entries, key);
    if i.Some? {
      var rest := entries[..i.value] + entries[i.value + 1..];
      KeysOfRest(entries, i.value);
      KeysOfMore(rest, key, outcome);
      WithoutAt(Keys(entries), i.value);
    } else {
      KeysOfMore(entries, key, outcome);
    }
  }

  /** Every entry holds the outcome last put for its key. */
  ghost predicate Current(entries: Entries, lastPut: map<string, Outcome>) {
    forall e :: e in entries ==> e.0 in lastPut && lastPut[e.0] == e.1
  }

  lemma TouchedCurrent(entries: Entries, key: string, outcome: Outcome, lastPut: map<string, Outcome>)
    requires Current(entries, lastPut) && NoRepeats(Keys(entries))
    ensures Current(Touched(entries, key, outcome), lastPut[key := outcome])
  {
    TouchedKeys(entries, key, outcome);
    var r := Touched(entries, key, outcome);
    forall j | 0 <= j < |r| ensures r[j].0 in lastPut[key := outcome] && lastPut[key := outcome][r[j].0] == r[j].1 {
      if j < |r| - 1 {
        assert Keys(r)[j] in Without(Keys(entries), key);
        assert r[j] in entries;
      }
    }
  }

  lemma KeyPresent(entries: Entries, key: string)
    ensures key in Keys(entries) <==> IndexOf(entries, key).Some?
  {
    if IndexOf(entries, key).Some? {
      assert Keys(entries)[IndexOf(entries, key).value] in Keys(entries);
    }
  }

  class TurnSelectorOutcomeCache {
    var entries: Entries
    ghost var uses: seq<string>              // keys put, and keys found by a get
    ghost var lastPut: map<string, Outcome>

    constructor ()
      ensures Valid() && entries == [] && uses == []
    {
      entries, uses, lastPut := [], [], map[];
    }

    /** The cache holds exactly the four most recently used keys, in order of use, each
        with the outcome last put for it. */
    ghost predicate Valid()
      reads this
    {
      && Keys(entries) == Recent(uses, 4)
      && Current(entries, lastPut)
    }

    /** A hit moves the entry to the end; a stored null is a miss. */
    method Get(key: string) returns (r: Option<Outcome>)
      requires Valid()
      modifies this
      ensures Valid() && lastPut == old(lastPut)
      ensures r.Some? <==> key in Recent(old(uses), 4) && key in lastPut && lastPut[key] != Null
      ensures r.Some? ==> r.value == lastPut[key] && uses == old(uses) + [key]
      ensures r.None? ==> uses == old(uses) && entries == old(entries)
    {
      hide Recent, IndexOf, Touched, NoRepeats, Without, Keys;
      KeyPresent(entries, key);
      var i := IndexOf(entries, key);
      if i.None? || entries[i.value].1 == Null {
        return None;
      }
      var outcome := entries[i.value].1;
      assert entries[i.value] in entries;
      RecentStep(uses, key, MAX_ENTRIES);
      TouchedKeys(entries, key, outcome);
      TouchedCurrent(entries, key, outcome, lastPut);
      HitFits(entries, key, outcome);
      assert lastPut[key := outcome] == lastPut;
      entries := Touched(entries, key, outcome);
      uses := uses + [key];
      r := Some(outcome);
    }

    method Put(key: string, outcome: Outcome)
      requires Valid()
      modifies this
      ensures Valid() && uses == old(uses) + [key] && lastPut == old(lastPut)[key := outcome]
    {
      hide Recent, IndexOf, Touched, NoRepeats, Without;
      RecentStep(uses, key, MAX_ENTRIES);
      TouchedKeys(entries, key, outcome);
      TouchedCurrent(entries, key, outcome, lastPut);
      entries := Touched(entries, key, outcome);
      lastPut := lastPut[key := outcome];
      uses := uses + [key];
      ghost var full := entries;
      while |entries| > MAX_ENTRIES
        invariant |entries| <= |full| && entries == full[|full| - |entries|..]
        invariant |entries| >= MAX_ENTRIES || entries == full
        invariant uses == old(uses) + [key] && lastPut == old(lastPut)[key := outcome]
        decreases |entries|
      {
        entries := entries[1..];
      }
      assert Keys(entries) == LastOf(Keys(full), MAX_ENTRIES);
    }
  }

  /** Moving an entry that is there needs no eviction. */
  lemma HitFits(entries: Entries, key: string, outcome: Outcome)
    requires IndexOf(entries, key).Some? && |entries| <= MAX_ENTRIES
    ensures LastOf(Keys(Touched(entries, key, outcome)), MAX_ENTRIES) == Keys(Touched(entries, key, outcome))
  {
  }
}
