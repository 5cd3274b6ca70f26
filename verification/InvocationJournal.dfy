/** The journal of provider calls of one turn, and the row budget that sizes it. */
module InvocationJournal {
  import opened Numbers
  import opened Wrappers
  import Sorting

  // ----- the row budget -----

  datatype Caps = Caps(replans: nat, refetches: nat, recomposes: nat, total: nat)

  datatype Remediation = Replan | Refetch | Recompose

  const BASE_ROWS: nat := 8

  function CostOf(r: Remediation): nat {
    match r
    case Replan => 5
    case Refetch => 3
    case Recompose => 2
  }

  function Repeat(value: nat, times: nat): (r: seq<nat>)
    ensures |r| == times && forall i :: 0 <= i < times ==> r[i] == value
  {
    seq(times, _ => value)
  }

  /** One entry for each remediation the caps allow, dearest first. */
  function AllCosts(caps: Caps): seq<nat> {
    Repeat(5, caps.replans) + Repeat(3, caps.refetches) + Repeat(2, caps.recomposes)
  }

  function Sum(s: seq<nat>): nat {
    if s == [] then 0 else Sum(s[..|s| - 1]) + s[|s| - 1]
  }

  predicate Dearer(a: nat, b: nat) {
    a > b
  }

  function MaximumRows(caps: Caps): nat {
    var costs := Sorting.Sort(AllCosts(caps), Dearer);
    BASE_ROWS + Sum(costs[..Min(caps.total, |costs|)])
  }

  /** The costs are listed dearest first, so sorting them changes nothing. */
  lemma CostsDescend(caps: Caps)
    ensures Sorting.Sort(AllCosts(caps), Dearer) == AllCosts(caps)
    ensures MaximumRows(caps) == BASE_ROWS + Sum(AllCosts(caps)[..Min(caps.total, |AllCosts(caps)|)])
  {
    hide Sorting.Sort, Sorting.Sorted, AllCosts, Sum;
    AllCostsSorted(caps);
    Sorting.SortedStays(AllCosts(caps), Dearer);
  }

  lemma AllCostsSorted(caps: Caps)
    ensures Sorting.Sorted(AllCosts(caps), Dearer)
  {
  }

  function Count(plan: seq<Remediation>, r: Remediation): nat {
    if plan == [] then 0 else Count(plan[..|plan| - 1], r) + if plan[|plan| - 1] == r then 1 else 0
  }

  function Spent(plan: seq<Remediation>): nat {
    if plan == [] then 0 else Spent(plan[..|plan| - 1]) + CostOf(plan[|plan| - 1])
  }

  /** A sequence of remediations within every cap. */
  predicate WithinCaps(plan: seq<Remediation>, caps: Caps) {
    && Count(plan, Replan) <= caps.replans && Count(plan, Refetch) <= caps.refetches
    && Count(plan, Recompose) <= caps.recomposes && |plan| <= caps.total
  }

  lemma {:induction false} SpentByKind(plan: seq<Remediation>)
    ensures Spent(plan) == 5 * Count(plan, Replan) + 3 * Count(plan, Refetch) + 2 * Count(plan, Recompose)
    ensures |plan| == Count(plan, Replan) + Count(plan, Refetch) + Count(plan, Recompose)
  {
    if plan != [] {
      SpentByKind(plan[..|plan| - 1]);
    }
  }

  lemma {:induction false} SumOfPrefix(caps: Caps, n: nat)
    requires n <= |AllCosts(caps)|
    ensures var x := Min(n, caps.replans); var y := Min(n - x, caps.refetches);
      Sum(AllCosts(caps)[..n]) == 5 * x + 3 * y + 2 * (n - x - y)
  {
    if n > 0 {
      SumOfPrefix(caps, n - 1);
      assert AllCosts(caps)[..n][..n - 1] == AllCosts(caps)[..n - 1];
    }
  }

  /** No sequence of remediations within the caps costs more than the budget has. */
  lemma BudgetSuffices(caps: Caps, plan: seq<Remediation>)
    requires WithinCaps(plan, caps)
    ensures 8 + Spent(plan) <= MaximumRows(caps)
    ensures Spent(plan) == 5 * Count(plan, Replan) + 3 * Count(plan, Refetch) + 2 * Count(plan, Recompose)
  {
    hide MaximumRows, AllCosts, Sum, Spent, Count;
    SpentByKind(plan);
    CostsDescend(caps);
    CostCount(caps);
    SumOfPrefix(caps, Min(caps.total, |AllCosts(caps)|));
  }

  function NextDearest(caps: Caps, n: nat): Remediation {
    if n <= caps.replans then Replan else if n <= caps.replans + caps.refetches then Refetch else Recompose
  }

  function Dearest(caps: Caps, n: nat): seq<Remediation> {
    if n == 0 then [] else Dearest(caps, n - 1) + [NextDearest(caps, n)]
  }

  lemma {:induction false} DearestCounts(caps: Caps, n: nat)
    ensures |Dearest(caps, n)| == n
    ensures Count(Dearest(caps, n), Replan) == Min(n, caps.replans)
    ensures Count(Dearest(caps, n), Refetch) == Min(n - Min(n, caps.replans), caps.refetches)
  {
    if n > 0 {
      DearestCounts(caps, n - 1);
      assert Dearest(caps, n)[..n - 1] == Dearest(caps, n - 1);
    }
  }

  /** The budget is no larger than it has to be: some sequence needs all of it. */
  lemma BudgetIsAttained(caps: Caps) returns (plan: seq<Remediation>)
    ensures WithinCaps(plan, caps) && 8 + Spent(plan) == MaximumRows(caps)
  {
    var n := Min(caps.total, |AllCosts(caps)|);
    plan := Dearest(caps, n);
    DearestCounts(caps, n);
    SpentByKind(plan);
    CostsDescend(caps);
    SumOfPrefix(caps, n);
  }

  // ----- the settings check -----

  datatype SettingsError = ActionCapExceedsTotal | MaximumRowsExceeded

  /** The field bounds of the settings: every cap is at most two. */
  predicate FieldBounds(caps: Caps) {
    caps.replans <= 2 && caps.refetches <= 2 && caps.recomposes <= 2 && caps.total <= 2
  }

  function CapOf(caps: Caps, r: Remediation): nat {
    match r
    case Replan => caps.replans
    case Refetch => caps.refetches
    case Recompose => caps.recomposes
  }

  function CheckCaps(caps: Caps): Option<SettingsError> {
    if caps.replans > caps.total || caps.refetches > caps.total || caps.recomposes > caps.total then Some(ActionCapExceedsTotal)
    else if MaximumRows(caps) > 18 then Some(MaximumRowsExceeded)
    else None
  }

  /** Within the field bounds the second check can never fire: the budget is between 8
      and 18 rows, and 18 exactly for two replans. So the settings are refused exactly if
      some cap exceeds the total. */
  lemma RowCheckNeverFires(caps: Caps)
    requires caps.replans <= 2 && caps.refetches <= 2 && caps.recomposes <= 2 && caps.total <= 2
    ensures 8 <= MaximumRows(caps) <= 18 && (MaximumRows(caps) == 18 <==> caps.replans == 2 == caps.total)
    ensures FieldBounds(caps) && CheckCaps(caps) != Some(MaximumRowsExceeded)
    ensures CheckCaps(caps).Some? <==> exists r :: CapOf(caps, r) > caps.total
  {
    hide MaximumRows, AllCosts, Sum;
    CostsDescend(caps);
    CostCount(caps);
    SumOfPrefix(caps, Min(caps.total, |AllCosts(caps)|));
    ChecksExactly(caps);
  }

  lemma CostCount(caps: Caps)
    ensures |AllCosts(caps)| == caps.replans + caps.refetches + caps.recomposes
  {
  }

  /** The two checks for any caps, within the field bounds or not. */
  lemma ChecksExactly(caps: Caps)
    ensures CheckCaps(caps) == Some(ActionCapExceedsTotal) <==>
      exists r :: CapOf(caps, r) > caps.total
    ensures CheckCaps(caps) == Some(MaximumRowsExceeded) <==>
      MaximumRows(caps) > 18 && forall r :: CapOf(caps, r) <= caps.total
  {
    hide MaximumRows;
    assert CapOf(caps, Replan) == caps.replans && CapOf(caps, Refetch) == caps.refetches && CapOf(caps, Recompose) == caps.recomposes;
  }

  // ----- the journal -----

  datatype RowStatus = Reserved | Finished(code: string)

  datatype Row = Row(ordinal: int, attempt: int, program: string, purpose: string, status: RowStatus)

  datatype JournalError = CapacityInvalid | CapacityExceeded | RowInvalid | OrdinalInvalid | RowClosed | OrdinalMismatch

  /** The field bounds of a row. */
  predicate ValidRow(row: Row) {
    && 1 <= row.ordinal <= 18 && 1 <= row.attempt <= 18
    && ValidTexts(row.program, row.purpose)
  }

  predicate ValidTexts(program: string, purpose: string) {
    1 <= |program| <= 180 && 1 <= |purpose| <= 80
  }

  ghost predicate Numbered(rows: seq<Row>) {
    forall i :: 0 <= i < |rows| ==> rows[i].ordinal == i + 1
  }

  /** What a journal may become: rows are never removed, and a finished row is never
      touched again. */
  ghost predicate Grew(a: seq<Row>, b: seq<Row>) {
    |a| <= |b| && forall i :: 0 <= i < |a| && a[i].status.Finished? ==> b[i] == a[i]
  }

  lemma GrewTransitive(a: seq<Row>, b: seq<Row>, c: seq<Row>)
    requires Grew(a, b) && Grew(b, c)
    ensures Grew(a, c)
  {
  }

  class Journal {
    const maxRows: nat
    var rows: seq<Row>

    constructor (maxRows: nat)
      requires 1 <= maxRows <= 18
      ensures Valid() && this.maxRows == maxRows && rows == []
    {
      this.maxRows, rows := maxRows, [];
    }

    ghost predicate Valid()
      reads this
    {
      |rows| <= maxRows <= 18 && Numbered(rows)
    }

    /** The row a reservation asks for. */
    function NextRow(program: string, purpose: string, logicalAttempt: Option<int>): Row
      reads this
    {
      Row(|rows| + 1, if logicalAttempt.Some? then logicalAttempt.value else |rows| + 1, program, purpose, Reserved)
    }

    /** Capacity is checked before the fields of the row; without an attempt of its own a
        row can only fail for its texts. */
    method Reserve(program: string, purpose: string, logicalAttempt: Option<int>) returns (r: Result<Row, JournalError>)
      requires Valid()
      modifies this
      ensures Valid() && Grew(old(rows), rows)
      ensures r == (if |old(rows)| >= maxRows then Err(CapacityExceeded)
                    else if 1 <= |program| <= 180 && 1 <= |purpose| <= 80 && (logicalAttempt.Some? ==> 1 <= logicalAttempt.value <= 18)
                    then Ok(Row(|old(rows)| + 1, if logicalAttempt.Some? then logicalAttempt.value else |old(rows)| + 1,
                                program, purpose, Reserved))
                    else Err(RowInvalid))
      ensures rows == if r.Ok? then old(rows) + [r.value] else old(rows)
    {
      var row := NextRow(program, purpose, logicalAttempt);
      if row.ordinal > maxRows {
        return Err(CapacityExceeded);
      }
      if !ValidRow(row) {
        return Err(RowInvalid);
      }
      rows := rows + [row];
      r := Ok(row);
    }

    method ReplaceReserved(ordinal: int, replacement: Row) returns (e: Option<JournalError>)
      requires Valid()
      modifies this
      ensures Valid() && Grew(old(rows), rows)
      ensures e.None? <==>
        1 <= ordinal <= |old(rows)| && old(rows)[ordinal - 1].status == Reserved && replacement.ordinal == ordinal
      ensures rows == if e.None? then old(rows)[ordinal - 1 := replacement] else old(rows)
      ensures e == Some(OrdinalInvalid) <==> !(1 <= ordinal <= |old(rows)|)
      ensures e == Some(RowClosed) <==> 1 <= ordinal <= |old(rows)| && old(rows)[ordinal - 1].status.Finished?
    {
      if ordinal < 1 || ordinal > |rows| {
        return Some(OrdinalInvalid);
      }
      var current := rows[ordinal - 1];
      if current.status != Reserved {
        return Some(RowClosed);
      }
      if replacement.ordinal != ordinal {
        return Some(OrdinalMismatch);
      }
      rows := rows[ordinal - 1 := replacement];
      e := None;
    }
  }

  /** A capacity outside 1..18 is refused. */
  method CreateJournal(maxRows: int) returns (r: Result<Journal, JournalError>)
    ensures r.Ok? <==> 1 <= maxRows <= 18
    ensures r.Err? ==> r.error == CapacityInvalid
    ensures r.Ok? ==> fresh(r.value) && r.value.Valid() && r.value.maxRows == maxRows && r.value.rows == []
  {
    if maxRows < 1 || maxRows > 18 {
      return Err(CapacityInvalid);
    }
    var journal := new Journal(maxRows);
    r := Ok(journal);
  }

  /** What a provider call says about itself when it reserves its row. */
  datatype Call = Call(program: string, purpose: string)

  predicate AllValid(calls: seq<Call>) {
    forall i :: 0 <= i < |calls| ==> ValidTexts(calls[i].program, calls[i].purpose)
  }

  /** The rows a turn asks for, one call after another; `ok` says that no call raised. */
  method ReserveAll(journal: Journal, calls: seq<Call>) returns (ok: bool)
    requires journal.Valid()
    modifies journal
    ensures journal.Valid() && Grew(old(journal.rows), journal.rows)
    ensures ok <==> AllValid(calls) && |old(journal.rows)| + |calls| <= journal.maxRows
    ensures ok ==> |journal.rows| == |old(journal.rows)| + |calls|
  {
    ok := true;
    var i := 0;
    while i < |calls| && ok
      invariant i <= |calls| && journal.Valid() && Grew(old(journal.rows), journal.rows)
      invariant ok ==> |journal.rows| == |old(journal.rows)| + i && AllValid(calls[..i])
      invariant !ok ==> !AllValid(calls) || |old(journal.rows)| + |calls| > journal.maxRows
      decreases |calls| - i, ok
    {
      ghost var before := journal.rows;
      var row := journal.Reserve(calls[i].program, calls[i].purpose, None);
      GrewTransitive(old(journal.rows), before, journal.rows);
      ok := row.Ok?;
      i := i + 1;
    }
  }

  /** A turn that stays within its caps never runs out of rows: with settings that pass
      the check, a journal of the budgeted size takes the base rows and the rows of
      every remediation, and refuses a row only for its texts. */
  method TurnFits(caps: Caps, plan: seq<Remediation>, calls: seq<Call>) returns (ok: bool)
    requires FieldBounds(caps) && CheckCaps(caps).None? && |calls| == BASE_ROWS + Spent(plan)
    ensures WithinCaps(plan, caps) ==> (ok <==> AllValid(calls))
  {
    RowCheckNeverFires(caps);
    var created := CreateJournal(MaximumRows(caps));
    ok := ReserveAll(created.value, calls);
    if WithinCaps(plan, caps) {
      BudgetSuffices(caps, plan);
    }
  }
}
