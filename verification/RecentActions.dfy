/** The most recent executed actions of a conversation, and the check another stage
    makes on their order. */
module RecentActions {
  import opened AuthorityTypes
  import opened Numbers
  import opened Sorting
  import opened Wrappers

  datatype ActionRow = ActionRow(kind: ActionType, executed: bool, receivedAt: int)

  datatype ActionSummary = ActionSummary(kind: ActionType, ageSeconds: Option<int>)

  const MAX_RECENT: nat := 20
  const MAX_AGE: int := 2_592_000

  function AgeOf(row: ActionRow, snapshotAt: int): int {
    Min(Max(0, snapshotAt - row.receivedAt) / 1_000, MAX_AGE)
  }

  /** Whole seconds since the row, rounded down: none if it lies ahead of the clock, and
      never more than thirty days. */
  ghost predicate SecondsSince(row: ActionRow, snapshotAt: int, age: int) {
    var elapsed := snapshotAt - row.receivedAt;
    if elapsed < 0 then age == 0
    else if elapsed >= 1_000 * 30 * 24 * 60 * 60 then age == 30 * 24 * 60 * 60
    else 1_000 * age <= elapsed < 1_000 * (age + 1)
  }

  lemma AgeExactly(row: ActionRow, snapshotAt: int, age: int)
    ensures SecondsSince(row, snapshotAt, age) <==> age == AgeOf(row, snapshotAt)
  {
    var elapsed := snapshotAt - row.receivedAt;
    if 0 <= elapsed < 1_000 * MAX_AGE {
      assert Max(0, elapsed) == elapsed && elapsed / 1_000 < MAX_AGE;
      assert elapsed == 1_000 * (elapsed / 1_000) + elapsed % 1_000;
    }
  }

  function Summarize(row: ActionRow, snapshotAt: int): Option<ActionSummary> {
    if !row.executed then None else Some(ActionSummary(row.kind, Some(AgeOf(row, snapshotAt))))
  }

  // ----- sorting by a key with a tie breaker -----

  datatype Keyed = Keyed(key: int, tie: int)

  predicate Less(a: Keyed, b: Keyed) {
    a.key < b.key || (a.key == b.key && a.tie < b.tie)
  }

  lemma LessIsOrder()
    ensures Order(Less)
  {
  }

  // ----- the selection -----

  /** Row `i` is more recent than row `j`; of equal rows the earlier listed comes first. */
  predicate Before(rows: seq<ActionRow>, i: nat, j: nat)
    requires i < |rows| && j < |rows|
  {
    rows[i].receivedAt > rows[j].receivedAt || (rows[i].receivedAt == rows[j].receivedAt && i < j)
  }

  ghost predicate Indices(rows: seq<ActionRow>, s: seq<nat>) {
    forall k :: 0 <= k < |s| ==> s[k] < |rows|
  }

  ghost predicate InOrder(rows: seq<ActionRow>, s: seq<nat>) {
    Indices(rows, s) && forall a, b :: 0 <= a < b < |s| ==> Before(rows, s[a], s[b])
  }

  /** The executed rows that come first: in order of recency, at most twenty, and every
      executed row left out comes after all of them. */
  ghost predicate IsSelection(rows: seq<ActionRow>, kept: seq<nat>) {
    && InOrder(rows, kept) && |kept| <= MAX_RECENT
    && (forall k :: 0 <= k < |kept| ==> rows[kept[k]].executed)
    && (forall j: nat :: j < |rows| && rows[j].executed && j !in kept ==>
          |kept| == MAX_RECENT && forall k :: 0 <= k < |kept| ==> Before(rows, kept[k], j))
  }

  /** There is one such selection only. */
  lemma {:induction false} SelectionUnique(rows: seq<ActionRow>, a: seq<nat>, b: seq<nat>, k: nat)
    requires IsSelection(rows, a) && IsSelection(rows, b) && k <= |a| && k <= |b|
    ensures a[..k] == b[..k]
  {
    if k > 0 {
      SelectionUnique(rows, a, b, k - 1);
      var x, y := a[k - 1], b[k - 1];
      NotEarlier(rows, a, b, k);
      NotEarlier(rows, b, a, k);
      assert a[..k] == a[..k - 1] + [x] && b[..k] == b[..k - 1] + [y];
    }
  }

  lemma NotEarlier(rows: seq<ActionRow>, a: seq<nat>, b: seq<nat>, k: nat)
    requires IsSelection(rows, a) && IsSelection(rows, b) && 0 < k <= |a| && k <= |b| && a[..k - 1] == b[..k - 1]
    ensures a[k - 1] == b[k - 1] || Before(rows, b[k - 1], a[k - 1])
  {
    var x := a[k - 1];
    forall j | 0 <= j < k - 1 ensures b[j] != x {
      assert a[..k - 1][j] == b[..k - 1][j];
      assert Before(rows, a[j], a[k - 1]);
    }
    if x in b {
      var j :| 0 <= j < |b| && b[j] == x;
      assert j >= k - 1;
    }
  }

  function ExecutedOf(rows: seq<ActionRow>, order: seq<nat>): (r: seq<nat>)
    requires forall k :: 0 <= k < |order| ==> order[k] < |rows|
    ensures forall j :: j in r <==> j in order && rows[j].executed
  {
    if order == [] then []
    else
      var front, last := order[..|order| - 1], order[|order| - 1];
      assert order == front + [last];
      ExecutedOf(rows, front) + (if rows[last].executed then [last] else [])
  }

  lemma {:induction false} ExecutedInOrder(rows: seq<ActionRow>, order: seq<nat>)
    requires InOrder(rows, order)
    ensures InOrder(rows, ExecutedOf(rows, order))
  {
    hide Before;
    if order != [] {
      var front, last := order[..|order| - 1], order[|order| - 1];
      ExecutedInOrder(rows, front);
      var r := ExecutedOf(rows, front);
      forall a | 0 <= a < |r| ensures r[a] < |rows| && Before(rows, r[a], last) {
        assert r[a] in front;
      }
    }
  }

  function KeysOf(rows: seq<ActionRow>): (r: seq<Keyed>)
    ensures |r| == |rows| && forall i :: 0 <= i < |r| ==> r[i] == Keyed(-rows[i].receivedAt, i)
  {
    seq(|rows|, i requires 0 <= i < |rows| => Keyed(-rows[i].receivedAt, i))
  }

  function Ties(sorted: seq<Keyed>): (r: seq<int>)
    ensures |r| == |sorted| && forall k :: 0 <= k < |r| ==> r[k] == sorted[k].tie
  {
    seq(|sorted|, k requires 0 <= k < |sorted| => sorted[k].tie)
  }

  /** The sorted keys are those of the rows, each row once. */
  lemma SortedKeysOf(rows: seq<ActionRow>, sorted: seq<Keyed>)
    requires multiset(sorted) == multiset(KeysOf(rows))
    ensures forall k :: 0 <= k < |sorted| ==> 0 <= sorted[k].tie < |rows| && sorted[k].key == -rows[sorted[k].tie].receivedAt
    ensures forall a, b :: 0 <= a < b < |sorted| ==> sorted[a] != sorted[b]
  {
    forall k | 0 <= k < |sorted|
      ensures 0 <= sorted[k].tie < |rows| && sorted[k].key == -rows[sorted[k].tie].receivedAt
    {
      assert sorted[k] in multiset(sorted);
      assert sorted[k] in KeysOf(rows);
    }
    NoRepeats(KeysOf(rows), sorted);
  }

  lemma EveryRowSorted(rows: seq<ActionRow>, sorted: seq<Keyed>, j: nat) returns (k: nat)
    requires multiset(sorted) == multiset(KeysOf(rows)) && j < |rows|
    ensures k < |sorted| && sorted[k].tie == j
  {
    assert KeysOf(rows)[j] in multiset(sorted);
    k :| 0 <= k < |sorted| && sorted[k] == KeysOf(rows)[j];
  }

  lemma SortedRows(rows: seq<ActionRow>) returns (order: seq<nat>)
    ensures var sorted := Sort(KeysOf(rows), Less);
      |order| == |sorted| && forall k :: 0 <= k < |sorted| ==> sorted[k].tie == order[k]
    ensures InOrder(rows, order)
    ensures forall j: nat :: j < |rows| ==> j in order
  {
    hide Sort, KeysOf, Ties;
    var sorted := Sort(KeysOf(rows), Less);
    LessIsOrder();
    SortSorts(KeysOf(rows), Less);
    SortedKeysOf(rows, sorted);
    order := Ties(sorted);
    forall j: nat | j < |rows| ensures j in order {
      var k := EveryRowSorted(rows, sorted, j);
      assert order[k] == j;
    }
    forall a, b | 0 <= a < b < |order| ensures Before(rows, order[a], order[b]) {
      assert !Less(sorted[b], sorted[a]) && sorted[a] != sorted[b];
    }
  }

  lemma NoRepeats(keys: seq<Keyed>, sorted: seq<Keyed>)
    requires multiset(keys) == multiset(sorted)
    requires forall i, j :: 0 <= i < j < |keys| ==> keys[i] != keys[j]
    ensures forall i, j :: 0 <= i < j < |sorted| ==> sorted[i] != sorted[j]
  {
    forall i, j | 0 <= i < j < |sorted| ensures sorted[i] != sorted[j] {
      if sorted[i] == sorted[j] {
        TwiceInMultiset(sorted, i, j);
        OnceInMultiset(keys, sorted[i]);
      }
    }
  }

  lemma TwiceInMultiset(s: seq<Keyed>, i: nat, j: nat)
    requires i < j < |s| && s[i] == s[j]
    ensures multiset(s)[s[i]] >= 2
  {
    assert s == s[..j] + [s[j]] + s[j + 1..];
    assert s[i] in s[..j];
  }

  lemma {:induction false} OnceInMultiset(s: seq<Keyed>, x: Keyed)
    requires forall i, j :: 0 <= i < j < |s| ==> s[i] != s[j]
    ensures multiset(s)[x] <= 1
  {
    if s != [] {
      var front := s[..|s| - 1];
      OnceInMultiset(front, x);
      assert s == front + [s[|s| - 1]];
      if s[|s| - 1] == x {
        assert x !in front;
      }
    }
  }

  function Summaries(rows: seq<ActionRow>, kept: seq<nat>, snapshotAt: int): (r: seq<ActionSummary>)
    requires forall k :: 0 <= k < |kept| ==> kept[k] < |rows|
    ensures |r| == |kept|
    ensures forall k :: 0 <= k < |r| ==> r[k] == ActionSummary(rows[kept[k]].kind, Some(AgeOf(rows[kept[k]], snapshotAt)))
  {
    seq(|kept|, k requires 0 <= k < |kept| => ActionSummary(rows[kept[k]].kind, Some(AgeOf(rows[kept[k]], snapshotAt))))
  }

  lemma OrderIndices(rows: seq<ActionRow>, order: seq<nat>)
    requires InOrder(rows, order)
    ensures Indices(rows, order)
  {
  }

  lemma NoneExecuted(rows: seq<ActionRow>, snapshotAt: int)
    ensures ExecutedOf(rows, []) == [] && Summaries(rows, [], snapshotAt) == []
  {
  }

  /** One more row in the order. */
  lemma ExecutedStep(rows: seq<ActionRow>, order: seq<nat>, i: nat)
    requires i < |order| && forall k :: 0 <= k < |order| ==> order[k] < |rows|
    ensures ExecutedOf(rows, order[..i + 1]) == ExecutedOf(rows, order[..i]) + (if rows[order[i]].executed then [order[i]] else [])
  {
    assert order[..i + 1][..i] == order[..i];
  }

  lemma MoreSummaries(rows: seq<ActionRow>, kept: seq<nat>, j: nat, snapshotAt: int)
    requires Indices(rows, kept) && j < |rows|
    ensures Indices(rows, kept + [j])
    ensures Summaries(rows, kept + [j], snapshotAt) ==
      Summaries(rows, kept, snapshotAt) + [ActionSummary(rows[j].kind, Some(AgeOf(rows[j], snapshotAt)))]
  {
  }

  /** The summaries of the kept rows, in their order: what each row did, and how long ago. */
  ghost predicate Summarizes(rows: seq<ActionRow>, kept: seq<nat>, snapshotAt: int, summaries: seq<ActionSummary>) {
    && |summaries| == |kept|
    && forall k :: 0 <= k < |kept| ==>
         && kept[k] < |rows| && summaries[k].kind == rows[kept[k]].kind && summaries[k].ageSeconds.Some?
         && SecondsSince(rows[kept[k]], snapshotAt, summaries[k].ageSeconds.value)
  }

  lemma SummariesExactly(rows: seq<ActionRow>, kept: seq<nat>, snapshotAt: int)
    requires Indices(rows, kept)
    ensures Summarizes(rows, kept, snapshotAt, Summaries(rows, kept, snapshotAt))
  {
    var s := Summaries(rows, kept, snapshotAt);
    forall k | 0 <= k < |kept|
      ensures s[k].ageSeconds.Some? && SecondsSince(rows[kept[k]], snapshotAt, s[k].ageSeconds.value)
    {
      AgeExactly(rows[kept[k]], snapshotAt, AgeOf(rows[kept[k]], snapshotAt));
    }
  }

  /** The loop with its early break. Its result are the summaries of the one selection
      of the rows, and they pass the order check whatever the clock says. */
  method RecentActionSummaries(rows: seq<ActionRow>, snapshotAt: int) returns (summaries: seq<ActionSummary>, ghost kept: seq<nat>)
    ensures IsSelection(rows, kept) && Summarizes(rows, kept, snapshotAt, summaries)
    ensures |summaries| <= 20 && OrderValid(summaries)
  {
    hide Sorting.Sort, Before, OrderValid, IsSelection, ExecutedOf, Summaries, Summarizes, KeysOf, InOrder;
    var sorted := Sort(KeysOf(rows), Less);
    ghost var order := SortedRows(rows);
    OrderIndices(rows, order);
    NoneExecuted(rows, snapshotAt);
    summaries, kept := [], [];
    var i := 0;
    while i < |sorted|
      invariant 0 <= i <= |sorted| && |kept| < MAX_RECENT
      invariant kept == ExecutedOf(rows, order[..i])
      invariant Indices(rows, kept) && summaries == Summaries(rows, kept, snapshotAt)
    {
      ExecutedStep(rows, order, i);
      MoreSummaries(rows, kept, order[i], snapshotAt);
      var row := rows[sorted[i].tie];
      var summary := Summarize(row, snapshotAt);
      if summary.Some? {
        kept := kept + [order[i]];
        summaries := summaries + [summary.value];
      }
      i := i + 1;
      if |summaries| == MAX_RECENT {
        break;
      }
    }
    ChosenSelection(rows, order, i);
    SelectionInOrder(rows, kept);
    SelectionAges(rows, kept, snapshotAt);
    SummariesExactly(rows, kept, snapshotAt);
  }

  lemma SelectionInOrder(rows: seq<ActionRow>, kept: seq<nat>)
    requires IsSelection(rows, kept)
    ensures InOrder(rows, kept)
  {
  }

  lemma ChosenSelection(rows: seq<ActionRow>, order: seq<nat>, i: nat)
    requires InOrder(rows, order) && i <= |order| && forall j: nat :: j < |rows| ==> j in order
    requires |ExecutedOf(rows, order[..i])| == MAX_RECENT || (i == |order| && |ExecutedOf(rows, order[..i])| < MAX_RECENT)
    ensures IsSelection(rows, ExecutedOf(rows, order[..i]))
  {
    var kept := ExecutedOf(rows, order[..i]);
    ExecutedInOrder(rows, order[..i]);
    assert forall k :: 0 <= k < |kept| ==> kept[k] in kept;
    assert i == |order| ==> order[..i] == order;
    forall j: nat | j < |rows| && rows[j].executed && j !in kept
      ensures |kept| == MAX_RECENT && forall k :: 0 <= k < |kept| ==> Before(rows, kept[k], j)
    {
      assert j in order;
      var b :| 0 <= b < |order| && order[b] == j;
      assert forall c :: 0 <= c < i ==> order[..i][c] == order[c] && order[c] in order[..i];
      assert b >= i;
      forall k | 0 <= k < |kept| ensures Before(rows, kept[k], j) {
        assert kept[k] in order[..i];
        var a :| 0 <= a < i && order[..i][a] == kept[k];
        assert order[a] == kept[k];
      }
    }
  }

  // ----- the check of the other stage -----

  function KnownAges(actions: seq<ActionSummary>): seq<Keyed> {
    if actions == [] then []
    else
      KnownAges(actions[..|actions| - 1])
      + (match actions[|actions| - 1].ageSeconds case Some(age) => [Keyed(age, 0)] case None => [])
  }

  /** The known ages equal their sorted copy. */
  predicate OrderValid(actions: seq<ActionSummary>) {
    KnownAges(actions) == Sort(KnownAges(actions), Less)
  }

  ghost predicate AgesRise(actions: seq<ActionSummary>) {
    forall i, j :: 0 <= i < j < |actions| && actions[i].ageSeconds.Some? && actions[j].ageSeconds.Some? ==>
      actions[i].ageSeconds.value <= actions[j].ageSeconds.value
  }

  lemma {:induction false} KnownAgesFrom(actions: seq<ActionSummary>, k: nat) returns (i: nat)
    requires k < |KnownAges(actions)|
    ensures i < |actions| && actions[i].ageSeconds == Some(KnownAges(actions)[k].key)
  {
    var n := |actions| - 1;
    if k < |KnownAges(actions[..n])| {
      i := KnownAgesFrom(actions[..n], k);
    } else {
      i := n;
    }
  }

  lemma {:induction false} RisingIsSorted(actions: seq<ActionSummary>)
    ensures AgesRise(actions) <==> Sorted(KnownAges(actions), Less)
  {
    if actions != [] {
      var n := |actions| - 1;
      var front, ages := actions[..n], KnownAges(actions[..n]);
      RisingIsSorted(front);
      if AgesRise(actions) {
        assert AgesRise(front);
        forall k | 0 <= k < |ages| && actions[n].ageSeconds.Some?
          ensures !Less(Keyed(actions[n].ageSeconds.value, 0), ages[k])
        {
          var i := KnownAgesFrom(front, k);
          KnownTies(front, k);
        }
      }
      if Sorted(KnownAges(actions), Less) {
        assert Sorted(ages, Less) by {
          forall i, j | 0 <= i < j < |ages| ensures !Less(ages[j], ages[i]) {
            assert KnownAges(actions)[i] == ages[i] && KnownAges(actions)[j] == ages[j];
          }
        }
        forall i | 0 <= i < n && actions[i].ageSeconds.Some? && actions[n].ageSeconds.Some?
          ensures actions[i].ageSeconds.value <= actions[n].ageSeconds.value
        {
          var k := KnownAt(front, i);
          assert KnownAges(actions)[k] == ages[k] && KnownAges(actions)[|ages|] == Keyed(actions[n].ageSeconds.value, 0);
        }
      }
    }
  }

  lemma {:induction false} KnownTies(actions: seq<ActionSummary>, k: nat)
    requires k < |KnownAges(actions)|
    ensures KnownAges(actions)[k].tie == 0
  {
    var n := |actions| - 1;
    if k < |KnownAges(actions[..n])| {
      KnownTies(actions[..n], k);
    }
  }

  lemma {:induction false} KnownAt(actions: seq<ActionSummary>, i: nat) returns (k: nat)
    requires i < |actions| && actions[i].ageSeconds.Some?
    ensures k < |KnownAges(actions)| && KnownAges(actions)[k] == Keyed(actions[i].ageSeconds.value, 0)
  {
    var n := |actions| - 1;
    if i < n {
      k := KnownAt(actions[..n], i);
    } else {
      k := |KnownAges(actions[..n])|;
    }
  }

  /** The check passes exactly if the known ages never fall. */
  lemma OrderValidExactly(actions: seq<ActionSummary>)
    ensures OrderValid(actions) <==> AgesRise(actions)
  {
    RisingIsSorted(actions);
    LessIsOrder();
    SortSorts(KnownAges(actions), Less);
    if AgesRise(actions) {
      SortedStays(KnownAges(actions), Less);
    }
  }

  /** Rounding down and both clamps keep the ages in order. */
  lemma SelectionAges(rows: seq<ActionRow>, kept: seq<nat>, snapshotAt: int)
    requires InOrder(rows, kept)
    ensures OrderValid(Summaries(rows, kept, snapshotAt))
  {
    var s := Summaries(rows, kept, snapshotAt);
    forall a, b | 0 <= a < b < |s| ensures s[a].ageSeconds.value <= s[b].ageSeconds.value {
      assert Before(rows, kept[a], kept[b]);
    }
    OrderValidExactly(s);
  }
}
