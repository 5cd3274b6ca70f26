/** The gate that serialises provider calls: coroutines that acquire a process-wide
    lock through worker threads, cancellation while waiting, and release. */
module ProviderGate {
  /** Where a coroutine is: waiting for its worker, waiting for it after a
      cancellation, holding the gate while the capture is installed, inside the capture
      scope, or done. */
  datatype Coroutine = Idle | Waiting | Recovering | Entering | Inside | Finished

  /** The thread that acquires the lock on behalf of a coroutine. `Spent` after the
      coroutine took the lock over or gave it back, or the job was withdrawn. */
  datatype Worker = Unborn | Blocked | Got | Spent

  datatype Task = Task(co: Coroutine, worker: Worker)

  datatype Gate = Gate(locked: bool, tasks: seq<Task>)

  /** One atomic event. `Cancel` is a first cancellation while waiting; `CancelAgain`
      hits the coroutine while it awaits its worker in the handler, and withdraws the
      job if no thread had picked it up. */
  datatype Step =
    | Start(t: nat)
    | Obtain(t: nat)
    | Resume(t: nat)
    | Cancel(t: nat)
    | Recover(t: nat)
    | CancelAgain(t: nat, withdrawn: bool)
    | InstallWorks(t: nat)
    | InstallFails(t: nat)
    | Leave(t: nat)

  predicate Enabled(g: Gate, s: Step) {
    && s.t < |g.tasks|
    && var task := g.tasks[s.t];
    match s
    case Start(_) => task.co == Idle
    case Obtain(_) => task.worker == Blocked && !g.locked
    case Resume(_) => task.co == Waiting && task.worker == Got
    case Cancel(_) => task.co == Waiting
    case Recover(_) => task.co == Recovering && task.worker == Got
    case CancelAgain(_, withdrawn) => task.co == Recovering && (withdrawn ==> task.worker == Blocked)
    case InstallWorks(_) => task.co == Entering
    case InstallFails(_) => task.co == Entering
    case Leave(_) => task.co == Inside
  }

  function Set(g: Gate, t: nat, task: Task, locked: bool): Gate
    requires t < |g.tasks|
  {
    Gate(locked, g.tasks[t := task])
  }

  function Apply(g: Gate, s: Step): (r: Gate)
    requires Enabled(g, s)
    ensures |r.tasks| == |g.tasks|
  {
    var task := g.tasks[s.t];
    match s
    case Start(t) => Set(g, t, Task(Waiting, Blocked), g.locked)
    case Obtain(t) => Set(g, t, task.(worker := Got), true)
    case Resume(t) => Set(g, t, Task(Entering, Spent), g.locked)
    case Cancel(t) => Set(g, t, task.(co := Recovering), g.locked)
    case Recover(t) => Set(g, t, Task(Finished, Spent), false)
    case CancelAgain(t, withdrawn) => Set(g, t, Task(Finished, if withdrawn then Spent else task.worker), g.locked)
    case InstallWorks(t) => Set(g, t, task.(co := Inside), g.locked)
    case InstallFails(t) => Set(g, t, task.(co := Finished), false)
    case Leave(t) => Set(g, t, task.(co := Finished), false)
  }

  // ----- runs -----

  ghost predicate IsRun(g: Gate, steps: seq<Step>)
    decreases |steps|
  {
    steps != [] ==> Enabled(g, steps[0]) && IsRun(Apply(g, steps[0]), steps[1..])
  }

  ghost function After(g: Gate, steps: seq<Step>): (r: Gate)
    requires IsRun(g, steps)
    ensures |r.tasks| == |g.tasks|
    decreases |steps|
  {
    if steps == [] then g else After(Apply(g, steps[0]), steps[1..])
  }

  function Fresh(n: nat): Gate {
    Gate(false, seq(n, _ => Task(Idle, Unborn)))
  }

  // ----- the invariant -----

  /** The task answers for the lock: its worker got it, or it holds it itself. */
  predicate Owns(task: Task) {
    task.worker == Got || task.co == Entering || task.co == Inside
  }

  predicate WellFormed(task: Task) {
    match task.co
    case Idle => task.worker == Unborn
    case Waiting => task.worker in {Blocked, Got}
    case Recovering => task.worker in {Blocked, Got}
    case Entering => task.worker == Spent
    case Inside => task.worker == Spent
    case Finished => task.worker != Unborn
  }

  ghost predicate Inv(g: Gate) {
    && (forall i :: 0 <= i < |g.tasks| ==> WellFormed(g.tasks[i]))
    && (forall i, j :: 0 <= i < |g.tasks| && 0 <= j < |g.tasks| && Owns(g.tasks[i]) && Owns(g.tasks[j]) ==> i == j)
    && (g.locked <==> exists i :: 0 <= i < |g.tasks| && Owns(g.tasks[i]))
  }

  /** What a step does to ownership. */
  lemma OwnerChange(g: Gate, s: Step)
    requires Enabled(g, s) && WellFormed(g.tasks[s.t])
    ensures var r := Apply(g, s); var before, after := Owns(g.tasks[s.t]), Owns(r.tasks[s.t]);
      && WellFormed(r.tasks[s.t]) && r.tasks == g.tasks[s.t := r.tasks[s.t]]
      && (if s.Obtain? then !g.locked && after && r.locked
          else if s.Recover? || s.InstallFails? || s.Leave? then before && !after && !r.locked
          else after == before && r.locked == g.locked)
  {
  }

  /** Whatever happens next, the lock has one owner or none. */
  lemma StepKeepsInv(g: Gate, s: Step)
    requires Inv(g) && Enabled(g, s)
    ensures Inv(Apply(g, s))
  {
    hide Apply, WellFormed, Owns;
    var r := Apply(g, s);
    OwnerChange(g, s);
    if r.locked && !s.Obtain? {
      var i :| 0 <= i < |g.tasks| && Owns(g.tasks[i]);
      assert Owns(r.tasks[i]);
    }
  }

  lemma {:induction false} RunKeepsInv(g: Gate, steps: seq<Step>)
    requires Inv(g) && IsRun(g, steps)
    ensures Inv(After(g, steps))
    decreases |steps|
  {
    if steps != [] {
      StepKeepsInv(g, steps[0]);
      RunKeepsInv(Apply(g, steps[0]), steps[1..]);
    }
  }

  lemma FreshInv(n: nat)
    ensures Inv(Fresh(n))
  {
  }

  /** Mutual exclusion, in every interleaving and with any number of cancellations: two
      tasks are never both at or inside the capture. */
  lemma AtMostOneInside(n: nat, steps: seq<Step>, i: nat, j: nat)
    requires IsRun(Fresh(n), steps) && i < n && j < n
    requires After(Fresh(n), steps).tasks[i].co in {Entering, Inside} && After(Fresh(n), steps).tasks[j].co in {Entering, Inside}
    ensures i == j
  {
    FreshInv(n);
    RunKeepsInv(Fresh(n), steps);
    var g := After(Fresh(n), steps);
    assert Owns(g.tasks[i]) && Owns(g.tasks[j]);
  }

  // ----- cancelled acquisitions -----

  predicate GivenUp(task: Task) {
    task.co in {Recovering, Finished}
  }

  /** A cancelled acquisition never enters the capture, however the run goes on. */
  lemma {:induction false} CancelledNeverEnters(g: Gate, steps: seq<Step>, t: nat)
    requires IsRun(g, steps) && t < |g.tasks| && GivenUp(g.tasks[t])
    ensures GivenUp(After(g, steps).tasks[t])
    decreases |steps|
  {
    if steps != [] {
      CancelledNeverEnters(Apply(g, steps[0]), steps[1..], t);
    }
  }

  // ----- the lock comes back -----

  /** A worker whose coroutine is gone: it has the lock, or will take it. */
  predicate Orphan(task: Task) {
    task.co == Finished && task.worker in {Blocked, Got}
  }

  predicate Leaves(s: Step) {
    s.CancelAgain? && !s.withdrawn
  }

  ghost predicate HasOrphan(g: Gate) {
    exists i :: 0 <= i < |g.tasks| && Orphan(g.tasks[i])
  }

  ghost predicate HasLeaver(steps: seq<Step>) {
    exists s :: s in steps && Leaves(s)
  }

  /** An orphan stays one. */
  lemma {:induction false} OrphanStays(g: Gate, steps: seq<Step>, t: nat)
    requires IsRun(g, steps) && t < |g.tasks| && Orphan(g.tasks[t])
    ensures Orphan(After(g, steps).tasks[t])
    decreases |steps|
  {
    if steps != [] {
      OrphanStays(Apply(g, steps[0]), steps[1..], t);
    }
  }

  /** Orphans come from second cancellations that withdraw nothing, and from nothing else. */
  lemma {:induction false} OrphansExactly(g: Gate, steps: seq<Step>)
    requires Inv(g) && IsRun(g, steps) && !HasOrphan(g)
    ensures HasOrphan(After(g, steps)) <==> HasLeaver(steps)
    decreases |steps|
  {
    if steps != [] {
      var s, rest := steps[0], steps[1..];
      var h := Apply(g, s);
      StepKeepsInv(g, s);
      assert steps == [s] + rest;
      assert After(g, steps) == After(h, rest);
      if Leaves(s) {
        assert s in steps;
        assert Orphan(h.tasks[s.t]);
        OrphanStays(h, rest, s.t);
      } else {
        assert !HasOrphan(h) by {
          forall i | 0 <= i < |h.tasks| ensures !Orphan(h.tasks[i]) {
            assert !Orphan(g.tasks[i]);
          }
        }
        OrphansExactly(h, rest);
        assert forall x :: x in steps && Leaves(x) <==> x in rest && Leaves(x);
      }
    }
  }

  ghost predicate AllFinished(g: Gate) {
    forall i :: 0 <= i < |g.tasks| ==> g.tasks[i].co == Finished
  }

  /** No event is possible any more. */
  ghost predicate Quiet(g: Gate) {
    forall s :: !Enabled(g, s)
  }

  /** No deadlock: as long as a task has not finished, something can happen that is
      not a cancellation, unless an orphan sits on the lock. */
  lemma Progress(g: Gate, t: nat) returns (s: Step)
    requires Inv(g) && t < |g.tasks| && g.tasks[t].co != Finished
    requires forall i :: 0 <= i < |g.tasks| ==> !(Orphan(g.tasks[i]) && g.tasks[i].worker == Got)
    ensures Enabled(g, s) && !s.Cancel? && !s.CancelAgain?
  {
    var task := g.tasks[t];
    assert WellFormed(task);
    if g.locked {
      var i :| 0 <= i < |g.tasks| && Owns(g.tasks[i]);
      assert WellFormed(g.tasks[i]);
      var co := g.tasks[i].co;
      s := if co == Waiting then Resume(i) else if co == Recovering then Recover(i)
           else if co == Entering then InstallWorks(i) else Leave(i);
    } else {
      assert !Owns(task);
      s := if task.co == Idle then Start(t) else Obtain(t);
    }
  }

  /** When nothing more can happen, the lock is free exactly if no second cancellation
      left a worker behind; and then every task has finished. */
  lemma LockComesBack(n: nat, steps: seq<Step>)
    requires IsRun(Fresh(n), steps) && Quiet(After(Fresh(n), steps))
    ensures After(Fresh(n), steps).locked <==> HasLeaver(steps)
    ensures !HasLeaver(steps) ==> AllFinished(After(Fresh(n), steps))
  {
    FreshInv(n);
    RunKeepsInv(Fresh(n), steps);
    OrphansExactly(Fresh(n), steps);
    var g := After(Fresh(n), steps);
    if i :| 0 <= i < |g.tasks| && Orphan(g.tasks[i]) {
      assert !Enabled(g, Obtain(i));
    } else {
      forall i | 0 <= i < |g.tasks| ensures g.tasks[i].co == Finished {
        if g.tasks[i].co != Finished {
          var s := Progress(g, i);
        }
      }
      forall i | 0 <= i < |g.tasks| ensures !Owns(g.tasks[i]) {
        assert WellFormed(g.tasks[i]) && !Orphan(g.tasks[i]);
      }
    }
  }

  /** One task cancelled twice is enough to lose the gate for good. */
  lemma SecondCancellationLosesTheGate()
    ensures var steps := [Start(0), Obtain(0), Cancel(0), CancelAgain(0, false)];
      IsRun(Fresh(2), steps) && After(Fresh(2), steps).locked
      && forall s :: Enabled(After(Fresh(2), steps), s) ==> s == Start(1)
  {
    var g0 := Fresh(2);
    var g1 := Apply(g0, Start(0));
    var g2 := Apply(g1, Obtain(0));
    var g3 := Apply(g2, Cancel(0));
    var g4 := Apply(g3, CancelAgain(0, false));
    assert IsRun(g3, [CancelAgain(0, false)]) && After(g3, [CancelAgain(0, false)]) == g4;
    var s3 := [Cancel(0), CancelAgain(0, false)];
    assert s3[1..] == [CancelAgain(0, false)];
    var s2 := [Obtain(0), Cancel(0), CancelAgain(0, false)];
    assert s2[1..] == s3;
    var s1 := [Start(0), Obtain(0), Cancel(0), CancelAgain(0, false)];
    assert s1[1..] == s2;
    assert g4.tasks[1] == Task(Idle, Unborn) && g4.tasks[0] == Task(Finished, Got);
  }

  // ----- every run ends -----

  function Rank(task: Task): nat {
    match task.co
    case Idle => 8
    case Waiting => if task.worker == Blocked then 7 else 6
    case Recovering => if task.worker == Blocked then 5 else 4
    case Entering => 3
    case Inside => 2
    case Finished => if task.worker == Blocked then 1 else 0
  }

  function Work(tasks: seq<Task>): nat {
    if tasks == [] then 0 else Work(tasks[..|tasks| - 1]) + Rank(tasks[|tasks| - 1])
  }

  lemma {:induction false} WorkUpdate(tasks: seq<Task>, t: nat, task: Task)
    requires t < |tasks|
    ensures Work(tasks[t := task]) == Work(tasks) - Rank(tasks[t]) + Rank(task)
  {
    var n := |tasks| - 1;
    if t == n {
      assert tasks[t := task][..n] == tasks[..n];
    } else {
      assert tasks[t := task][..n] == tasks[..n][t := task];
      WorkUpdate(tasks[..n], t, task);
    }
  }

  lemma {:induction false} FreshWork(n: nat)
    ensures Work(Fresh(n).tasks) == 8 * n
  {
    if n > 0 {
      FreshWork(n - 1);
      assert Fresh(n).tasks[..n - 1] == Fresh(n - 1).tasks;
    }
  }

  lemma StepUsesWork(g: Gate, s: Step)
    requires Enabled(g, s) && WellFormed(g.tasks[s.t])
    ensures Rank(Apply(g, s).tasks[s.t]) < Rank(g.tasks[s.t])
    ensures Apply(g, s).tasks == g.tasks[s.t := Apply(g, s).tasks[s.t]]
  {
  }

  /** Every event uses up work, so no interleaving goes on forever. */
  lemma {:induction false} WorkIsUsedUp(g: Gate, steps: seq<Step>)
    requires Inv(g) && IsRun(g, steps)
    ensures Work(After(g, steps).tasks) + |steps| <= Work(g.tasks)
    decreases |steps|
  {
    hide Apply, Owns, Rank, WellFormed, Work;
    if steps != [] {
      var s := steps[0];
      StepUsesWork(g, s);
      WorkUpdate(g.tasks, s.t, Apply(g, s).tasks[s.t]);
      StepKeepsInv(g, s);
      WorkIsUsedUp(Apply(g, s), steps[1..]);
    }
  }

  lemma RunsEnd(n: nat, steps: seq<Step>)
    requires IsRun(Fresh(n), steps)
    ensures |steps| <= 8 * n
  {
    FreshInv(n);
    FreshWork(n);
    WorkIsUsedUp(Fresh(n), steps);
  }
}
