/** Process-wide capture of descriptors 1 and 2 around a provider call: install,
    close, abort, and what is left behind under every pattern of failing calls. */
module IoCapture {
  import opened Wrappers
  import opened IoKernel
  import opened IoTable

  datatype Phase = Created | Installed | Restoring | Closed

  datatype Reason = RestorationRecovered | GlobalsRecovered | DrainerError | JoinTimeout | CloseError | FlushError | Unrecoverable

  /** How a call ends: returns, raises, or the process is gone. */
  datatype Flow = Done | Raised | Exited

  class Capture {
    const kernel: Kernel
    const fates: Stream -> Fate
    const endsLate: Stream -> bool
    var phase: Phase
    var slots: map<Slot, nat>
    var owned: set<nat>
    var inheritable1: bool
    var inheritable2: bool
    var savedStdout: nat
    var savedStderr: nat
    var sinkStdout: Option<nat>
    var sinkStderr: Option<nat>
    var savedLogging: Option<Logging>
    var ownFactory: Option<nat>
    var logFilter: Option<nat>
    var pipes: map<Stream, nat>          // the open file behind the write end of each pipe
    var started: set<Stream>
    var log: map<Stream, StreamLog>
    var attempts1: nat                   // restoration attempts for descriptor 1
    var attempts2: nat
    var recovered: bool
    var fatal: bool
    var error: Option<Reason>
    ghost var entry: Entry               // the descriptor table install found
    ghost var leaked: set<nat>           // descriptors whose close failed
    ghost var lost: set<nat>             // descriptors created and dropped when a follow-up call failed

    constructor (kernel: Kernel, fates: Stream -> Fate, endsLate: Stream -> bool)
      ensures this.kernel == kernel && this.fates == fates && this.endsLate == endsLate
      ensures Fresh()
    {
      this.kernel, this.fates, this.endsLate := kernel, fates, endsLate;
      phase, slots, owned, inheritable1, inheritable2 := Created, map[], {}, true, true;
      savedStdout, savedStderr, sinkStdout, sinkStderr := 0, 0, None, None;
      savedLogging, ownFactory, logFilter, pipes, started := None, None, None, map[], {};
      log := map[Stdout := StreamLog(0, false, false, false), Stderr := StreamLog(0, false, false, false)];
      attempts1, attempts2, recovered, fatal, error := 0, 0, false, false, None;
      entry, leaked, lost := Entry(map[], 0, 0, true, true), {}, {};
    }

    ghost predicate Fresh()
      reads this`phase, this`slots, this`owned, this`leaked, this`lost, this`pipes, this`started, this`savedLogging, this`ownFactory
      reads this`log, this`attempts1, this`attempts2, this`recovered, this`error, this`sinkStdout, this`sinkStderr
    {
      && phase == Created && slots == map[] && owned == {} && leaked == {} && lost == {}
      && pipes == map[] && started == {} && savedLogging.None? && ownFactory.None?
      && log == map[Stdout := StreamLog(0, false, false, false), Stderr := StreamLog(0, false, false, false)]
      && attempts1 == 0 && attempts2 == 0
      && !recovered && error.None? && sinkStdout.None? && sinkStderr.None?
    }

    ghost predicate Tracked()
      reads this`slots, this`owned, this`leaked, this`log, kernel`fds, kernel`files, kernel`received
    {
      kernel.Valid() && Consistent(Snap()) && log.Keys == {Stdout, Stderr}
    }

    ghost predicate BackedUp()
      reads this`slots, this`owned, this`leaked, this`entry, kernel`fds
    {
      Backed(Snap(), entry.file1, entry.file2)
    }

    ghost function Snap(): Snapshot
      reads this`slots, this`owned, this`leaked, kernel`fds
    {
      Snapshot(slots, owned, leaked, kernel.fds)
    }

    function PipeOf(s: Stream): nat
      reads this`pipes
    {
      if s in pipes then pipes[s] else 0
    }

    /** No error is on record and nothing had to be recovered. */
    predicate Clean()
      reads this`error, this`recovered
    {
      error.None? && !recovered
    }

    /** How many descriptors the capture created and has not closed. */
    ghost function Count(): nat
      reads this`owned, this`leaked, this`lost
    {
      Total(owned, leaked, lost)
    }

    lemma CountMeans()
      ensures Count() == Total(owned, leaked, lost) == Total(Snap().owned, Snap().leaked, lost)
      ensures owned == leaked == lost == {} ==> Count() == 0
    {
    }

    method CloseOwned(slot: Slot) returns (ghost ok: bool)
      requires Tracked()
      modifies this`slots, this`owned, this`error, this`leaked, kernel`calls, kernel`fds
      ensures Tracked()
      ensures Snap() == GiveUp(old(Snap()), slot, ok) && Shed(old(Snap()), Snap())
      ensures error == if ok then old(error) else Some(CloseError)
      ensures Clean() <==> old(Clean()) && ok
      ensures kernel.Faultless() ==> ok
    {
      GiveUpIsShed(Snap(), slot, true);
      GiveUpIsShed(Snap(), slot, false);
      ok := true;
      if slot !in slots {
        return;
      }
      var fd := slots[slot];
      var closed := kernel.Close(fd);
      ok := closed;
      if !closed {
        error := Some(CloseError);
        leaked := leaked + {fd};
      }
      owned := owned - {fd};
      slots := slots - {slot};
    }

    method CloseAll(names: seq<Slot>) returns (ghost oks: seq<bool>)
      requires Tracked()
      modifies this`slots, this`owned, this`error, this`leaked, kernel`calls, kernel`fds
      ensures Tracked() && |oks| == |names|
      ensures Snap() == GiveUpAll(old(Snap()), names, oks)
      ensures error == if AllTrue(oks) then old(error) else Some(CloseError)
      ensures Clean() <==> old(Clean()) && AllTrue(oks)
      ensures kernel.Faultless() ==> AllTrue(oks)
    {
      var i := 0;
      oks := [];
      while i < |names|
        invariant i <= |names| && |oks| == i
        invariant Tracked() && Snap() == GiveUpAll(old(Snap()), names[..i], oks)
        invariant error == if AllTrue(oks) then old(error) else Some(CloseError)
        invariant Clean() <==> old(Clean()) && AllTrue(oks)
        invariant kernel.Faultless() ==> AllTrue(oks)
      {
        var ok := CloseOwned(names[i]);
        assert names[..i + 1][..i] == names[..i];
        assert (oks + [ok])[..i] == oks;
        oks := oks + [ok];
        i := i + 1;
      }
      assert names[..|names|] == names;
    }

    /** Flushing writes what is buffered for 1 and 2 to the open files they name, and to
        nothing else; a failing flush goes on record. */
    method FlushStreams()
      requires Tracked()
      modifies this`error, kernel`calls, kernel`received, kernel`buffered
      ensures Tracked()
      ensures error == old(error) || error == Some(FlushError)
      ensures forall f :: kernel.Received(f) >= old(kernel.Received(f))
      ensures forall f :: f !in kernel.received || f in old(kernel.received) || Behind(kernel.fds, f)
      ensures kernel.Faultless() && 1 in kernel.fds && 2 in kernel.fds ==> error == old(error)
      ensures kernel.Faultless() && 1 in kernel.fds && 2 in kernel.fds && kernel.fds[1].file != kernel.fds[2].file ==>
        && kernel.Received(kernel.fds[1].file) == old(kernel.Received(kernel.fds[1].file) + kernel.Buffered(1))
        && kernel.Received(kernel.fds[2].file) == old(kernel.Received(kernel.fds[2].file) + kernel.Buffered(2))
      ensures kernel.Faultless() && 1 in kernel.fds && 2 in kernel.fds ==> kernel.Buffered(1) == 0 && kernel.Buffered(2) == 0
    {
      hide Consistent;
      var ok := kernel.Flush(1);
      if !ok {
        error := Some(FlushError);
      }
      ok := kernel.Flush(2);
      if !ok {
        error := Some(FlushError);
      }
    }

    /** The same for an installed capture: the bytes end up in its pipes. */
    method FlushInstalled()
      requires Tracked()
      modifies this`error, kernel`calls, kernel`received, kernel`buffered
      ensures Tracked()
      ensures Clean() ==> old(Clean())
      ensures kernel.Received(PipeOf(Stdout)) >= old(kernel.Received(PipeOf(Stdout)))
      ensures kernel.Received(PipeOf(Stderr)) >= old(kernel.Received(PipeOf(Stderr)))
      ensures kernel.Faultless() && old(Undisturbed()) ==> Undisturbed() && (AllSilent() <==> old(PendingSilent()))
    {
      hide Undisturbed, Tracked, BothSilent;
      if Undisturbed() {
        UndisturbedMeans();
      }
      FlushStreams();
    }

    /** One attempt to give the target its original open file and flag back. */
    method TryRestore(source: Slot, target: nat, inheritable: bool) returns (ok: bool)
      requires Tracked() && BackedUp() && target in {1, 2} && source in SAVED && Target(source) == target
      modifies kernel`calls, kernel`fds
      ensures Tracked() && BackedUp() && DiffersAt(old(kernel.fds), kernel.fds, target)
      ensures ok ==> target in kernel.fds
      ensures ok ==> kernel.fds[target] == Descriptor(if target == 1 then entry.file1 else entry.file2, inheritable)
      ensures kernel.Faultless() && source in slots ==> ok
      ensures source !in slots ==> !ok
    {
      ghost var before := Snap();
      if source !in slots {
        return false;
      }
      assert slots[source] in owned;
      ok := kernel.Dup2(slots[source], target, true);
      if ok {
        ok := kernel.SetInheritable(target, inheritable);
      }
      if ok {
        var same := kernel.SameOpenFile(target, slots[source]);
        ok := same == Some(true);
      }
      TargetChangeKeeps(before, kernel.fds, target, entry.file1, entry.file2);
    }

    function Attempts(target: nat): nat
      reads this`attempts1, this`attempts2
    {
      if target == 1 then attempts1 else attempts2
    }

    /** One counted attempt; success on a later attempt is recorded as a recovery. */
    method CountedAttempt(source: Slot, target: nat, inheritable: bool) returns (ok: bool)
      requires Tracked() && BackedUp() && target in {1, 2} && source in SAVED && Target(source) == target
      modifies this`attempts1, this`attempts2, this`recovered, this`error, kernel`calls, kernel`fds
      ensures Tracked() && BackedUp() && DiffersAt(old(kernel.fds), kernel.fds, target)
      ensures ok ==> target in kernel.fds
      ensures ok ==> kernel.fds[target] == Descriptor(if target == 1 then entry.file1 else entry.file2, inheritable)
      ensures Attempts(target) == old(Attempts(target)) + 1 && Attempts(3 - target) == old(Attempts(3 - target))
      ensures Clean() <==> old(Clean()) && (ok ==> Attempts(target) == 1)
      ensures recovered == (old(recovered) || (ok && Attempts(target) > 1))
      ensures error == if ok && Attempts(target) > 1 then Some(RestorationRecovered) else old(error)
      ensures kernel.Faultless() && source in slots ==> ok
      ensures source !in slots ==> !ok
    {
      hide Tracked, BackedUp, Consistent, Backed, DiffersAt;
      if target == 1 {
        attempts1 := attempts1 + 1;
      } else {
        attempts2 := attempts2 + 1;
      }
      ok := TryRestore(source, target, inheritable);
      if ok && Attempts(target) > 1 {
        recovered := true;
        error := Some(RestorationRecovered);
      }
    }

    /** Up to three attempts: the primary copy twice, then the emergency copy. */
    method RestoreTarget(target: nat, primary: Slot, emergency: Slot, inheritable: bool) returns (ok: bool)
      requires Tracked() && BackedUp() && target in {1, 2} && Attempts(target) == 0
      requires primary in SAVED && Target(primary) == target
      requires emergency in SAVED && Target(emergency) == target
      modifies this`attempts1, this`attempts2, this`recovered, this`error, kernel`calls, kernel`fds
      ensures Tracked() && BackedUp() && DiffersAt(old(kernel.fds), kernel.fds, target)
      ensures ok ==> target in kernel.fds
      ensures ok ==> kernel.fds[target] == Descriptor(if target == 1 then entry.file1 else entry.file2, inheritable)
      ensures Attempts(3 - target) == old(Attempts(3 - target))
      ensures 1 <= Attempts(target) <= 3 && (!ok ==> Attempts(target) == 3)
      ensures Clean() <==> old(Clean()) && (ok ==> Attempts(target) == 1)
      ensures recovered == (old(recovered) || (ok && Attempts(target) > 1))
      ensures error == if ok && Attempts(target) > 1 then Some(RestorationRecovered) else old(error)
      ensures kernel.Faultless() && primary in slots ==> ok && Attempts(target) == 1
      ensures kernel.Faultless() && primary !in slots && emergency in slots ==> ok && Attempts(target) == 3
      ensures primary !in slots && emergency !in slots ==> !ok
    {
      hide Tracked, BackedUp, Consistent, Backed, DiffersAt;
      var i := 0;
      ok := false;
      assert DiffersAt(old(kernel.fds), kernel.fds, target) by { DiffersRefl(kernel.fds, target); }
      while i < 3 && !ok
        invariant 0 <= i <= 3
        invariant Tracked() && BackedUp() && DiffersAt(old(kernel.fds), kernel.fds, target)
        invariant ok ==> target in kernel.fds
        invariant ok ==> kernel.fds[target] == Descriptor(if target == 1 then entry.file1 else entry.file2, inheritable)
        invariant Attempts(target) == i && Attempts(3 - target) == old(Attempts(3 - target))
        invariant ok ==> i > 0
        invariant Clean() <==> old(Clean()) && (ok ==> i == 1)
        invariant recovered == (old(recovered) || (ok && i > 1))
        invariant error == if ok && i > 1 then Some(RestorationRecovered) else old(error)
        invariant kernel.Faultless() && primary in slots && i > 0 ==> ok && i == 1
        invariant primary !in slots && (i < 3 || emergency !in slots) ==> !ok
        invariant kernel.Faultless() && primary !in slots && emergency in slots && i == 3 ==> ok
      {
        ghost var before := kernel.fds;
        ok := CountedAttempt(if i < 2 then primary else emergency, target, inheritable);
        DiffersTransitive(old(kernel.fds), before, kernel.fds, target);
        i := i + 1;
      }
    }

    method FatalExit()
      modifies this`fatal, this`error
      ensures fatal && error == Some(Unrecoverable)
    {
      fatal := true;
      error := Some(Unrecoverable);
    }

    ghost predicate GlobalsUntouched()
      reads this`sinkStdout, this`sinkStderr, this`savedStdout, this`savedStderr, this`ownFactory, this`savedLogging
      reads kernel`stdoutObject, kernel`stderrObject, kernel`logging
    {
      && kernel.stdoutObject == (if sinkStdout.Some? then sinkStdout.value else savedStdout)
      && kernel.stderrObject == (if sinkStderr.Some? then sinkStderr.value else savedStderr)
      && Some(kernel.logging.factory) == ownFactory
      && savedLogging.Some? && kernel.logging.handlers == savedLogging.value.handlers
    }

    /** The interpreter's streams, the log record factory, the root handlers and their
        filters are those saved. */
    ghost predicate GlobalsBack()
      reads this`savedStdout, this`savedStderr, this`savedLogging
      reads kernel`stdoutObject, kernel`stderrObject, kernel`logging, kernel`logActive
    {
      && kernel.stdoutObject == savedStdout && kernel.stderrObject == savedStderr
      && savedLogging.Some? && LoggingBack(savedLogging.value, kernel.logging) && !kernel.logActive
    }

    /** Give every saved handler the filters it had. */
    method RestoreFilters(saved: Logging)
      modifies kernel`logging
      ensures kernel.logging.factory == old(kernel.logging.factory) && kernel.logging.handlers == old(kernel.logging.handlers)
      ensures forall h :: FiltersOf(kernel.logging, h) == FiltersOf(if h in saved.handlers then saved else old(kernel.logging), h)
    {
      var i := 0;
      while i < |saved.handlers|
        invariant 0 <= i <= |saved.handlers|
        invariant kernel.logging.factory == old(kernel.logging.factory) && kernel.logging.handlers == old(kernel.logging.handlers)
        invariant forall h :: FiltersOf(kernel.logging, h) == FiltersOf(if h in saved.handlers[..i] then saved else old(kernel.logging), h)
      {
        kernel.logging := WithFilters(kernel.logging, saved.handlers[i], FiltersOf(saved, saved.handlers[i]));
        assert saved.handlers[..i + 1] == saved.handlers[..i] + [saved.handlers[i]];
        i := i + 1;
      }
      assert saved.handlers[..|saved.handlers|] == saved.handlers;
    }

    /** Put the record factory, the handlers and their filters back; a factory or handler
        list that somebody else replaced is a recovery. */
    method RestoreLogging(saved: Logging)
      modifies this`recovered, this`error, kernel`logging, kernel`logActive
      ensures LoggingBack(saved, kernel.logging) && !kernel.logActive
      ensures Clean() <==>
        old(Clean() && kernel.logging.handlers == saved.handlers && Some(kernel.logging.factory) == ownFactory)
      ensures if old(kernel.logging.handlers == saved.handlers && Some(kernel.logging.factory) == ownFactory)
        then recovered == old(recovered) && error == old(error) else recovered && error == Some(GlobalsRecovered)
    {
      kernel.logActive := false;
      if kernel.logging.handlers != saved.handlers {
        recovered, error := true, Some(GlobalsRecovered);
        kernel.logging := kernel.logging.(handlers := saved.handlers);
      }
      RestoreFilters(saved);
      if Some(kernel.logging.factory) != ownFactory {
        recovered, error := true, Some(GlobalsRecovered);
      }
      kernel.logging := kernel.logging.(factory := saved.factory);
    }

    /** Put the interpreter's streams and the logging state back. The checks that follow
        in the program compare what was just assigned, so they pass. */
    method RestoreProcessGlobals() returns (alive: bool)
      requires savedLogging.Some?
      modifies this`recovered, this`error, this`fatal
      modifies kernel`calls, kernel`stdoutObject, kernel`stderrObject, kernel`logging, kernel`logActive
      ensures alive ==> GlobalsBack()
      ensures !alive ==> fatal && error == Some(Unrecoverable)
      ensures alive ==> fatal == old(fatal)
      ensures alive ==>
        if old(GlobalsUntouched()) then recovered == old(recovered) && error == old(error)
        else recovered && error == Some(GlobalsRecovered)
      ensures Clean() ==> old(Clean())
      ensures kernel.Faultless() ==> alive
      ensures kernel.Faultless() && old(GlobalsUntouched()) ==> (Clean() <==> old(Clean()))
    {
      var expectedOut := if sinkStdout.Some? then sinkStdout.value else savedStdout;
      var expectedErr := if sinkStderr.Some? then sinkStderr.value else savedStderr;
      if kernel.stdoutObject != expectedOut || kernel.stderrObject != expectedErr {
        recovered, error := true, Some(GlobalsRecovered);
      }
      kernel.stdoutObject := savedStdout;
      kernel.stderrObject := savedStderr;
      var raises, _ := kernel.Call();
      if raises {
        FatalExit();
        return false;
      }
      RestoreLogging(savedLogging.value);
      alive := true;
    }

    // ----- drainers -----

    /** What the loop of a drainer has counted by the time it is joined goes on record. */
    method JoinDrainer(s: Stream) returns (c: Joined)
      modifies this`log, this`error
      ensures c == Course(fates(s), kernel.Received(PipeOf(s)), Held(kernel.fds, PipeOf(s)))
      ensures log == old(log)[s := LogOf(c, endsLate(s))]
      ensures error == if !c.ended then Some(JoinTimeout) else if c.marked then Some(DrainerError) else old(error)
      ensures Clean() <==> old(Clean()) && c.ended && !c.marked
    {
      var pending, held := kernel.Received(PipeOf(s)), Held(kernel.fds, PipeOf(s));
      var events := EventsOf(fates(s), pending, held);
      CourseHasLoop(fates(s), pending, held);
      c := LoopResult(events);
      var count, overflow, marked, ending := Drain(events);
      if marked {
        error := Some(DrainerError);
      }
      log := log[s := StreamLog(count, overflow, ending == Polling, ending == Polling && !endsLate(s))];
      if ending == Polling {
        error := Some(JoinTimeout);
      }
    }

    /** Join one drainer, whose loop has counted what it read; a thread that is too slow is
        told to stop, loses its pipe and is joined once more. */
    method FinishDrainer(s: Stream) returns (c: Joined, ghost ok: bool)
      requires Tracked() && s in pipes && s in started
      modifies this`log, this`error, this`slots, this`owned, this`leaked, kernel`calls, kernel`fds
      ensures Tracked()
      ensures c == Course(fates(s), kernel.Received(PipeOf(s)), Held(old(kernel.fds), PipeOf(s)))
      ensures log == old(log)[s := LogOf(c, endsLate(s))]
      ensures Snap() == JoinStep(old(Snap()), ReadSlot(s), c, ok)
      ensures error ==
        if !c.ended then (if ok then Some(JoinTimeout) else Some(CloseError))
        else if c.marked then Some(DrainerError) else old(error)
      ensures Clean() <==> old(Clean()) && c.ended && !c.marked
      ensures kernel.Faultless() ==> ok
    {
      hide Consistent, GiveUp, Shed, Course, Held, LogOf, ReadSlot;
      ok := true;
      c := JoinDrainer(s);
      if !c.ended {
        ok := CloseOwned(ReadSlot(s));
      }
    }

    // ----- close -----

    /** What a successful install leaves for close to undo. */
    ghost predicate Ready()
      reads this`slots, this`owned, this`leaked, this`log, this`entry, this`pipes, this`started
      reads this`savedLogging, this`attempts1, this`attempts2, kernel`fds, kernel`files, kernel`received
    {
      && Tracked() && BackedUp()
      && slots.Keys == SAVED + {OutRead, ErrRead}
      && pipes.Keys == {Stdout, Stderr} && started == {Stdout, Stderr}
      && savedLogging.Some? && attempts1 == 0 && attempts2 == 0
    }

    /** Nothing but the provider's own writes has happened since install. */
    ghost predicate Undisturbed()
      reads this`error, this`recovered, this`pipes, this`entry, kernel`fds
      reads this`sinkStdout, this`sinkStderr, this`savedStdout, this`savedStderr, this`ownFactory, this`savedLogging
      reads kernel`stdoutObject, kernel`stderrObject, kernel`logging
    {
      && Clean() && GlobalsUntouched() && pipes.Keys == {Stdout, Stderr}
      && 1 in kernel.fds && kernel.fds[1].file == PipeOf(Stdout)
      && 2 in kernel.fds && kernel.fds[2].file == PipeOf(Stderr)
      && PipeOf(Stdout) != PipeOf(Stderr)
      && {entry.file1, entry.file2} !! {PipeOf(Stdout), PipeOf(Stderr)}
      && forall fd :: fd in kernel.fds && kernel.fds[fd].file in {PipeOf(Stdout), PipeOf(Stderr)} ==> fd == 1 || fd == 2
    }

    /** Bytes that reach a pipe: those already written and those still buffered. */
    ghost function Pending(s: Stream): nat
      reads this`pipes, kernel`received, kernel`buffered
    {
      kernel.Received(PipeOf(s)) + kernel.Buffered(if s == Stdout then 1 else 2)
    }

    method RestoreBoth() returns (ok: bool)
      requires Tracked() && BackedUp() && SAVED <= slots.Keys && attempts1 == 0 && attempts2 == 0
      modifies this`attempts1, this`attempts2, this`recovered, this`error, kernel`calls, kernel`fds
      ensures Tracked() && BackedUp()
      ensures ok ==> Back(old(kernel.fds), kernel.fds, Descriptor(entry.file1, inheritable1), Descriptor(entry.file2, inheritable2))
      ensures Snap() == old(Snap()).(fds := kernel.fds)
      ensures Clean() ==> old(Clean())
      ensures !ok ==> attempts1 == 3 || attempts2 == 3
      ensures kernel.Faultless() ==> ok && (Clean() <==> old(Clean()))
    {
      hide Tracked, BackedUp, Consistent, Backed, DiffersAt, DiffersAtStdio;
      var ok1 := RestoreTarget(1, Saved1Primary, Saved1Emergency, inheritable1);
      ghost var middle := kernel.fds;
      var ok2 := RestoreTarget(2, Saved2Primary, Saved2Emergency, inheritable2);
      ok := ok1 && ok2;
      DiffersAtBoth(old(kernel.fds), middle, kernel.fds);
    }

    /** Join both drainers, one after the other. */
    method JoinBoth() returns (c: Joined, d: Joined, ghost ok: bool, ghost ok2: bool)
      requires Tracked() && pipes.Keys == {Stdout, Stderr} == started
      modifies this`log, this`error, this`slots, this`owned, this`leaked, kernel`calls, kernel`fds
      ensures Tracked()
      ensures Snap() == JoinStep(JoinStep(old(Snap()), OutRead, c, ok), ErrRead, d, ok2)
      ensures Clean() <==> old(Clean()) && c.ended && !c.marked && d.ended && !d.marked
      ensures log == map[Stdout := LogOf(c, endsLate(Stdout)), Stderr := LogOf(d, endsLate(Stderr))]
      ensures kernel.Faultless() ==> ok && ok2
      ensures c == Course(fates(Stdout), kernel.Received(PipeOf(Stdout)), Held(old(kernel.fds), PipeOf(Stdout)))
      ensures d == Course(fates(Stderr), kernel.Received(PipeOf(Stderr)),
                          Held(JoinStep(old(Snap()), OutRead, c, ok).fds, PipeOf(Stderr)))
    {
      hide *;
      SlotSets();
      TrackedMeans();
      StateMeans();
      c, ok := FinishDrainer(Stdout);
      StateMeans();
      d, ok2 := FinishDrainer(Stderr);
      return;
    }

    /** Join both drainers, then close the read ends. */
    method FinishDrainers() returns (c: Joined, d: Joined, ghost ok: bool, ghost ok2: bool, ghost oks: seq<bool>)
      requires Tracked() && pipes.Keys == {Stdout, Stderr} == started
      modifies this`log, this`error, this`slots, this`owned, this`leaked, kernel`calls, kernel`fds
      ensures Tracked() && |oks| == 2
      ensures Snap() == FinishAll(old(Snap()), c, ok, d, ok2, oks)
      ensures Clean() <==> old(Clean()) && c.ended && !c.marked && d.ended && !d.marked && AllTrue(oks)
      ensures log == map[Stdout := LogOf(c, endsLate(Stdout)), Stderr := LogOf(d, endsLate(Stderr))]
      ensures kernel.Faultless() ==> ok && ok2 && AllTrue(oks)
      ensures c == Course(fates(Stdout), kernel.Received(PipeOf(Stdout)), Held(old(kernel.fds), PipeOf(Stdout)))
      ensures d == Course(fates(Stderr), kernel.Received(PipeOf(Stderr)),
                          Held(JoinStep(old(Snap()), OutRead, c, ok).fds, PipeOf(Stderr)))
    {
      c, d, ok, ok2 := JoinBoth();
      oks := CloseAll([OutRead, ErrRead]);
    }

    /** Restore 1 and 2, close what is not needed to join the drainers, and put the
        process globals back. `restored` is the table after the first step. */
    method UndoInstall() returns (alive: bool, ghost restored: map<nat, Descriptor>, ghost oks: seq<bool>)
      requires Tracked() && BackedUp() && SAVED <= slots.Keys && attempts1 == 0 && attempts2 == 0 && savedLogging.Some?
      modifies this`attempts1, this`attempts2, this`recovered, this`error, this`slots, this`owned, this`leaked, this`fatal
      modifies kernel`calls, kernel`fds
      modifies kernel`stdoutObject, kernel`stderrObject, kernel`logging, kernel`logActive
      ensures Tracked()
      ensures alive ==> Back(old(kernel.fds), restored, Descriptor(entry.file1, inheritable1), Descriptor(entry.file2, inheritable2))
      ensures alive ==> |oks| == |CLOSED_FIRST| && Snap() == GiveUpAll(old(Snap()).(fds := restored), CLOSED_FIRST, oks)
      ensures alive ==> GlobalsBack()
      ensures !alive ==> fatal
      ensures alive && Clean() ==> old(Clean()) && AllTrue(oks)
      ensures kernel.Faultless() ==> alive
      ensures alive && kernel.Faultless() ==> AllTrue(oks)
      ensures kernel.Faultless() && old(GlobalsUntouched()) ==> (Clean() <==> old(Clean()))
    {
      hide *;
      oks := [];
      alive := RestoreBoth();
      restored := kernel.fds;
      if !alive {
        FatalExit();
        return;
      }
      oks := CloseAll(CLOSED_FIRST);
      alive := RestoreProcessGlobals();
      return;
    }

    lemma ReadyMeans()
      requires Ready()
      ensures Tracked() && BackedUp() && slots.Keys == SAVED + {OutRead, ErrRead} && log.Keys == {Stdout, Stderr}
      ensures Consistent(Snap())
      ensures pipes.Keys == {Stdout, Stderr} == started && savedLogging.Some? && attempts1 == 0 && attempts2 == 0
    {
    }

    lemma ReadyFrom()
      requires Tracked() && BackedUp() && slots.Keys == SAVED + {OutRead, ErrRead}
      requires pipes.Keys == {Stdout, Stderr} == started && savedLogging.Some? && attempts1 == 0 && attempts2 == 0
      ensures Ready()
    {
    }

    /** Everything after the flush. */
    method UndoAndFinish() returns (alive: bool, ghost e: Ending)
      requires Ready()
      modifies this`attempts1, this`attempts2, this`recovered, this`error, this`slots, this`owned, this`leaked, this`fatal, this`log
      modifies kernel`calls, kernel`fds
      modifies kernel`stdoutObject, kernel`stderrObject, kernel`logging, kernel`logActive
      ensures alive ==> Ended(old(Snap()), Snap(), e, Descriptor(entry.file1, inheritable1), Descriptor(entry.file2, inheritable2), fates,
                              PipeOf(Stdout), kernel.Received(PipeOf(Stdout)), PipeOf(Stderr), kernel.Received(PipeOf(Stderr)))
      ensures alive ==> GlobalsBack() && log == LogFor(e, endsLate)
      ensures !alive ==> fatal
      ensures alive && Clean() ==> old(Clean()) && Smooth(e)
      ensures kernel.Faultless() ==> alive && NothingFailed(e)
      ensures kernel.Faultless() && old(GlobalsUntouched() && Clean()) && Traceless(e.c) && Traceless(e.d) ==> Clean()
    {
      hide *;
      ReadyMeans();
      StateMeans();
      e := Ending(map[], [], Joined(0, false, false), Joined(0, false, false), true, true, []);
      ghost var restored, oks;
      alive, restored, oks := UndoInstall();
      if alive {
        ghost var middle := Snap();
        StateMeans();
        ghost var ok, ok2, oks2;
        var c, d;
        c, d, ok, ok2, oks2 := FinishDrainers();
        e := Ending(restored, oks, c, d, ok, ok2, oks2);
        EndedFrom(old(Snap()), middle, Snap(), e, Descriptor(entry.file1, inheritable1), Descriptor(entry.file2, inheritable2), fates,
                  PipeOf(Stdout), kernel.Received(PipeOf(Stdout)), PipeOf(Stderr), kernel.Received(PipeOf(Stderr)), log, endsLate);
      }
      return;
    }

    /** Both drainers are silent about the bytes their pipes received. */
    ghost predicate AllSilent()
      reads this`pipes, kernel`received
    {
      BothSilent(fates, kernel.Received(PipeOf(Stdout)), kernel.Received(PipeOf(Stderr)))
    }

    lemma StateMeans()
      ensures AllSilent() <==> BothSilent(fates, kernel.Received(PipeOf(Stdout)), kernel.Received(PipeOf(Stderr)))
      ensures Snap() == Snapshot(slots, owned, leaked, kernel.fds)
    {
    }

    /** Both drainers are silent about what was written and what is still buffered. */
    ghost predicate PendingSilent()
      reads this`pipes, kernel`received, kernel`buffered
    {
      BothSilent(fates, Pending(Stdout), Pending(Stderr))
    }

    /** What the pipes of an undisturbed capture are joined with. */
    lemma UndisturbedMeans()
      requires Undisturbed()
      ensures Clean() && GlobalsUntouched() && 1 in kernel.fds && 2 in kernel.fds
      ensures kernel.fds[1].file == PipeOf(Stdout) != PipeOf(Stderr) == kernel.fds[2].file
      ensures OnlyStdio(kernel.fds, PipeOf(Stdout)) && OnlyStdio(kernel.fds, PipeOf(Stderr))
      ensures {entry.file1, entry.file2} !! {PipeOf(Stdout), PipeOf(Stderr)}
      ensures pipes.Keys == {Stdout, Stderr} && Snap().fds == kernel.fds
    {
    }

    /** Close after the flush, up to and including the verdict. */
    method CloseFlushed() returns (flow: Flow)
      requires Ready()
      modifies this`phase, this`attempts1, this`attempts2, this`recovered, this`error, this`slots, this`owned, this`leaked,
               this`fatal, this`log
      modifies kernel`calls, kernel`fds
      modifies kernel`stdoutObject, kernel`stderrObject, kernel`logging, kernel`logActive
      ensures flow == Exited ==> fatal
      ensures flow != Exited ==> phase == Closed && GlobalsBack()
      ensures flow != Exited ==> Restored(old(Snap()), Snap(), Descriptor(entry.file1, inheritable1), Descriptor(entry.file2, inheritable2))
      ensures flow == Done ==> leaked == old(leaked) && old(Clean()) && AllSilent()
      ensures kernel.Faultless() ==> flow != Exited && leaked == old(leaked)
      ensures kernel.Faultless() && old(Undisturbed()) ==> flow == if AllSilent() then Done else Raised
    {
      hide *;
      ReadyMeans();
      StateMeans();
      if Undisturbed() {
        UndisturbedMeans();
      }
      var alive; ghost var e;
      alive, e := UndoAndFinish();
      if !alive {
        return Exited;
      }
      EndVerdict(old(Snap()), Snap(), e, Descriptor(entry.file1, inheritable1), Descriptor(entry.file2, inheritable2), fates,
                 PipeOf(Stdout), kernel.Received(PipeOf(Stdout)), PipeOf(Stderr), kernel.Received(PipeOf(Stderr)), endsLate, Clean());
      StateMeans();
      phase := Closed;
      flow := if Violated(log, owned, Clean()) then Raised else Done;
      return;
    }

    /** Closing an installed capture. Unless the process ends, descriptors 1 and 2 are
        their original open files with their original flags, nothing created by the
        capture is owned, only descriptors whose close failed remain, and the process
        globals are back. A normal return says that no close failed, that nothing had
        to be recovered and that both drainers were silent. */
    method CloseInstalled() returns (flow: Flow)
      requires Ready()
      modifies this`phase, this`attempts1, this`attempts2, this`recovered, this`error, this`slots, this`owned, this`leaked,
               this`fatal, this`log
      modifies kernel`calls, kernel`fds, kernel`received, kernel`buffered
      modifies kernel`stdoutObject, kernel`stderrObject, kernel`logging, kernel`logActive
      ensures flow == Exited ==> fatal
      ensures flow != Exited ==> phase == Closed && GlobalsBack()
      ensures flow != Exited ==> Restored(old(Snap()), Snap(), Descriptor(entry.file1, inheritable1), Descriptor(entry.file2, inheritable2))
      ensures flow == Done ==> leaked == old(leaked) && old(Clean()) && AllSilent()
      ensures kernel.Received(PipeOf(Stdout)) >= old(kernel.Received(PipeOf(Stdout)))
      ensures kernel.Received(PipeOf(Stderr)) >= old(kernel.Received(PipeOf(Stderr)))
      ensures kernel.Faultless() ==> flow != Exited && leaked == old(leaked)
      ensures kernel.Faultless() && old(Undisturbed()) ==> flow == if old(PendingSilent()) then Done else Raised
    {
      hide *;
      phase := Restoring;
      ReadyMeans();
      FlushInstalled();
      ReadyFrom();
      flow := CloseFlushed();
      return;
    }

    /** Close in any phase: a second close does nothing, a close before a successful
        install raises, and closing an installed capture is `CloseInstalled`. */
    method Close() returns (flow: Flow)
      requires phase == Installed ==> Ready()
      modifies this`phase, this`attempts1, this`attempts2, this`recovered, this`error, this`slots, this`owned, this`leaked,
               this`fatal, this`log
      modifies kernel`calls, kernel`fds, kernel`received, kernel`buffered
      modifies kernel`stdoutObject, kernel`stderrObject, kernel`logging, kernel`logActive
      ensures old(phase) == Closed ==> flow == Done && unchanged(this) && unchanged(kernel)
      ensures old(phase) in {Created, Restoring} ==> flow == Raised && unchanged(this) && unchanged(kernel)
      ensures flow == Exited ==> fatal
      ensures old(phase) == Installed && flow != Exited ==> phase == Closed && GlobalsBack()
      ensures old(phase) == Installed && flow != Exited ==>
        Restored(old(Snap()), Snap(), Descriptor(entry.file1, inheritable1), Descriptor(entry.file2, inheritable2))
      ensures old(phase) == Installed && flow == Done ==> leaked == old(leaked) && old(Clean()) && AllSilent()
      ensures kernel.Received(PipeOf(Stdout)) >= old(kernel.Received(PipeOf(Stdout)))
      ensures kernel.Received(PipeOf(Stderr)) >= old(kernel.Received(PipeOf(Stderr)))
      ensures kernel.Faultless() ==> flow != Exited && leaked == old(leaked)
      ensures kernel.Faultless() && old(phase == Installed && Undisturbed()) ==> flow == if old(PendingSilent()) then Done else Raised
    {
      hide *;
      if phase == Closed {
        return Done;
      }
      if phase != Installed {
        return Raised;
      }
      flow := CloseInstalled();
      return;
    }

    // ----- install -----

    /** Between two steps of install. */
    ghost predicate Underway()
      reads this`slots, this`owned, this`leaked, this`lost, this`log, this`pipes, this`entry, this`inheritable1, this`inheritable2
      reads kernel`fds, kernel`files, kernel`received
    {
      && kernel.Valid() && log.Keys == {Stdout, Stderr}
      && Building(entry, Snap(), lost) && OwnPipes(entry, Snap(), pipes, kernel.files)
      && entry.inheritable1 == inheritable1 && entry.inheritable2 == inheritable2
    }

    /** Descriptors 1 and 2 are still as install found them. */
    ghost predicate Direct()
      reads this`entry, kernel`fds
    {
      && 1 in kernel.fds && 1 in entry.fds && kernel.fds[1] == entry.fds[1]
      && 2 in kernel.fds && 2 in entry.fds && kernel.fds[2] == entry.fds[2]
    }

    lemma UnderwayMeans()
      requires Underway()
      ensures kernel.Valid() && log.Keys == {Stdout, Stderr} && FilesBelow(kernel.fds, kernel.files)
      ensures forall f :: f in kernel.received ==> f < kernel.files
      ensures Building(entry, Snap(), lost) && OwnPipes(entry, Snap(), pipes, kernel.files)
      ensures entry.inheritable1 == inheritable1 && entry.inheritable2 == inheritable2
      ensures Snap() == Snapshot(slots, owned, leaked, kernel.fds)
      ensures Tracked() && BackedUp() && 1 in kernel.fds && 2 in kernel.fds && 1 in entry.fds && 2 in entry.fds
      ensures ValidEntry(entry)
      ensures entry.fds[1] == Descriptor(entry.file1, inheritable1) && entry.fds[2] == Descriptor(entry.file2, inheritable2)
      ensures forall slot :: slot in slots ==> slots[slot] in kernel.fds && slots[slot] != 1 && slots[slot] != 2
    {
      SlotsBeyond(Snap());
      forall slot | slot in slots ensures slots[slot] in kernel.fds && slots[slot] != 1 && slots[slot] != 2 {
        assert InPlace(Snap(), slot);
      }
    }

    lemma DirectMeans()
      requires 1 in kernel.fds && 1 in entry.fds && 2 in kernel.fds && 2 in entry.fds
      ensures Direct() <==> kernel.fds[1] == entry.fds[1] && kernel.fds[2] == entry.fds[2]
    {
    }

    lemma UnderwayFrom(x: Snapshot)
      requires kernel.Valid() && log.Keys == {Stdout, Stderr} && x == Snapshot(slots, owned, leaked, kernel.fds)
      requires Building(entry, x, lost) && OwnPipes(entry, x, pipes, kernel.files)
      requires entry.inheritable1 == inheritable1 && entry.inheritable2 == inheritable2
      ensures Underway()
    {
    }

    lemma WriteEndNames(s: Stream)
      requires Underway() && s in pipes && WriteSlot(s) in slots
      ensures slots[WriteSlot(s)] in kernel.fds && kernel.fds[slots[WriteSlot(s)]].file == pipes[s]
    {
      assert OwnPipe(entry, Snap(), s, pipes[s], kernel.files);
    }

    /** Before the kernel's table changed the state was `x`, between two steps, with
        `files` open files. */
    ghost predicate Changed(x: Snapshot, files: nat)
      reads this`slots, this`owned, this`leaked, this`lost, this`log, this`pipes, this`entry, this`inheritable1, this`inheritable2
    {
      && log.Keys == {Stdout, Stderr}
      && x.slots == slots && x.owned == owned && x.leaked == leaked
      && Building(entry, x, lost) && OwnPipes(entry, x, pipes, files) && FilesBelow(x.fds, files)
      && entry.inheritable1 == inheritable1 && entry.inheritable2 == inheritable2
    }

    lemma ChangedStarts()
      requires Underway()
      ensures Changed(Snap(), kernel.files) && Snap().fds == kernel.fds && Snap().slots == slots && kernel.Valid()
    {
      hide Building, OwnPipes;
    }

    lemma ChangedNothing(x: Snapshot)
      requires kernel.Valid() && Changed(x, kernel.files) && kernel.fds == x.fds
      ensures Underway()
    {
      hide Building, OwnPipes;
      assert Snap() == x;
    }

    /** A new duplicate goes into its slot. */
    method KeepDup(slot: Slot, fd: nat, ghost x: Snapshot)
      requires kernel.Valid() && Changed(x, kernel.files) && slot in SAVED && slot !in slots && fd !in x.fds
      requires Target(slot) in x.fds && Target(slot) in entry.fds && x.fds[Target(slot)] == entry.fds[Target(slot)]
      requires kernel.fds == x.fds[fd := Descriptor(x.fds[Target(slot)].file, false)]
      modifies this`slots, this`owned
      ensures Underway() && slots.Keys == old(slots.Keys) + {slot} && Count() <= old(Count()) + 1
    {
      hide Building, OwnPipes, Consistent, Target, Total;
      OneMore(owned, leaked, lost, fd);
      DupKept(entry, x, lost, pipes, kernel.files, slot, fd);
      WithSlotShape(x, kernel.fds, slot, fd);
      owned := owned + {fd};
      slots := slots[slot := fd];
      assert Snap() == WithSlot(x, kernel.fds, slot, fd);
    }

    /** A new duplicate is lost. */
    method LoseDup(slot: Slot, fd: nat, ghost x: Snapshot)
      requires kernel.Valid() && Changed(x, kernel.files) && slot in SAVED && fd !in x.fds
      requires Target(slot) in x.fds && Target(slot) in entry.fds && x.fds[Target(slot)] == entry.fds[Target(slot)]
      requires kernel.fds == x.fds[fd := Descriptor(x.fds[Target(slot)].file, false)]
      modifies this`lost
      ensures Underway() && Count() <= old(Count()) + 1
    {
      hide Building, OwnPipes, Consistent, Target, Total;
      OneMore(owned, leaked, lost, fd);
      DupLost(entry, x, lost, pipes, kernel.files, slot, fd);
      lost := lost + {fd};
      assert Snap() == x.(fds := kernel.fds);
    }

    /** Duplicate a target into a slot; a duplicate whose flag cannot be set is lost. */
    method DupOwned(slot: Slot) returns (ok: bool)
      requires Underway() && Direct() && slot in SAVED && slot !in slots
      modifies this`slots, this`owned, this`lost, kernel`calls, kernel`fds
      ensures Underway() && Direct()
      ensures slots.Keys == old(slots.Keys) + (if ok then {slot} else {}) && Count() <= old(Count()) + 1
      ensures ok ==> lost == old(lost)
      ensures kernel.Faultless() ==> ok
    {
      hide *;
      ChangedStarts();
      TargetsOpen();
      SavedTarget(slot);
      ghost var x := Snap();
      var copy := kernel.Dup(Target(slot));
      if copy.None? {
        ChangedNothing(x);
        return false;
      }
      ok := kernel.SetInheritable(copy.value, false);
      assert kernel.fds == x.fds[copy.value := Descriptor(x.fds[Target(slot)].file, false)];
      if ok {
        KeepDup(slot, copy.value, x);
      } else {
        LoseDup(slot, copy.value, x);
      }
      DirectMeans();
      return;
    }

    lemma TargetsOpen()
      requires Underway()
      ensures 1 in kernel.fds && 2 in kernel.fds && 1 in entry.fds && 2 in entry.fds
      ensures Direct() ==> kernel.fds[1] == entry.fds[1] && kernel.fds[2] == entry.fds[2]
    {
      hide Consistent, Backed, OthersKept;
    }

    /** The two calls that prepare a new pipe descriptor. */
    method SetUp(fd: nat) returns (ok: bool)
      requires kernel.Valid() && fd in kernel.fds && !kernel.fds[fd].inheritable
      modifies kernel`calls, kernel`fds
      ensures kernel.Valid() && kernel.fds == old(kernel.fds)
      ensures kernel.Faultless() ==> ok
    {
      ok := kernel.SetInheritable(fd, false);
      assert kernel.fds == old(kernel.fds);
      if ok {
        var raises, _ := kernel.Call();
        ok := !raises;
      }
    }

    method SetUpBoth(r: nat, w: nat) returns (ok: bool)
      requires kernel.Valid() && r in kernel.fds && !kernel.fds[r].inheritable && w in kernel.fds && !kernel.fds[w].inheritable
      modifies kernel`calls, kernel`fds
      ensures kernel.Valid() && kernel.fds == old(kernel.fds)
      ensures kernel.Faultless() ==> ok
    {
      ok := SetUp(r);
      if ok {
        ok := SetUp(w);
      }
    }

    /** A new pipe goes into its two slots. */
    method KeepPipe(s: Stream, r: nat, w: nat, ghost x: Snapshot)
      requires kernel.Valid() && kernel.files >= 2 && Changed(x, kernel.files - 2) && s !in pipes && ReadSlot(s) !in slots && WriteSlot(s) !in slots
      requires r !in x.fds && w !in x.fds && r != w && kernel.fds == PipeTable(x.fds, r, w, kernel.files - 2)
      modifies this`slots, this`owned, this`pipes
      ensures Underway() && slots.Keys == old(slots.Keys) + {ReadSlot(s), WriteSlot(s)} && Count() <= old(Count()) + 2
      ensures pipes == old(pipes)[s := kernel.files - 1]
    {
      hide Building, OwnPipes, Consistent, PipeTable, WithPipe, ReadSlot, WriteSlot, Total;
      PipeShape(x, s, r, w, kernel.files - 2);
      PipeAdded(entry, x, lost, pipes, kernel.files - 2, s, r, w);
      TwoMore(owned, leaked, lost, r, w);
      owned := owned + {r, w};
      slots := slots[ReadSlot(s) := r][WriteSlot(s) := w];
      pipes := pipes[s := kernel.files - 1];
      assert Snap() == WithPipe(x, s, r, w, kernel.files - 2);
    }

    /** A new pipe is lost. */
    method LosePipe(r: nat, w: nat, ghost x: Snapshot)
      requires kernel.Valid() && kernel.files >= 2 && Changed(x, kernel.files - 2)
      requires r !in x.fds && w !in x.fds && r != w && kernel.fds == PipeTable(x.fds, r, w, kernel.files - 2)
      modifies this`lost
      ensures Underway() && Count() <= old(Count()) + 2
    {
      hide Building, OwnPipes, Consistent, PipeTable, Total;
      TwoMore(owned, leaked, lost, r, w);
      PipeLost(entry, x, lost, pipes, kernel.files - 2, r, w);
      lost := lost + {r, w};
      assert Snap() == x.(fds := kernel.fds);
    }

    method PipeOwned(s: Stream) returns (ok: bool)
      requires Underway() && Direct() && s !in pipes && ReadSlot(s) !in slots && WriteSlot(s) !in slots
      modifies this`slots, this`owned, this`lost, this`pipes, kernel`calls, kernel`fds, kernel`files
      ensures Underway() && Direct()
      ensures slots.Keys == old(slots.Keys) + (if ok then {ReadSlot(s), WriteSlot(s)} else {}) && Count() <= old(Count()) + 2
      ensures !ok ==> pipes == old(pipes)
      ensures ok ==> s in pipes && pipes == old(pipes)[s := pipes[s]] && pipes[s] !in kernel.received
      ensures ok ==> lost == old(lost)
      ensures kernel.Faultless() ==> ok
    {
      hide *;
      ChangedStarts();
      TargetsOpen();
      ReceivedBelow();
      ghost var x := Snap();
      var made := kernel.Pipe();
      if made.None? {
        ChangedNothing(x);
        return false;
      }
      var (r, w) := made.value;
      PipeShape(x, s, r, w, kernel.files - 2);
      ok := SetUpBoth(r, w);
      if ok {
        KeepPipe(s, r, w, x);
      } else {
        LosePipe(r, w, x);
      }
      DirectMeans();
      return;
    }

    lemma ReceivedBelow()
      requires kernel.Valid()
      ensures forall f :: f in kernel.received ==> f < kernel.files
    {
    }

    method StartDrainer(s: Stream) returns (ok: bool)
      modifies this`started, kernel`calls
      ensures started == if ok then old(started) + {s} else old(started)
      ensures kernel.Faultless() ==> ok
    {
      var raises, _ := kernel.Call();
      ok := !raises;
      if ok {
        started := started + {s};
      }
    }

    /** A handler appends a filter that it does not have yet. */
    method AddFilter(handler: nat, filter: nat)
      modifies kernel`logging
      ensures kernel.logging.factory == old(kernel.logging.factory) && kernel.logging.handlers == old(kernel.logging.handlers)
      ensures filter in FiltersOf(kernel.logging, handler)
      ensures FiltersOf(kernel.logging, handler) == old(FiltersOf(kernel.logging, handler))
        || FiltersOf(kernel.logging, handler) == old(FiltersOf(kernel.logging, handler)) + [filter]
      ensures forall h :: h != handler ==> FiltersOf(kernel.logging, h) == old(FiltersOf(kernel.logging, h))
    {
      var filters := FiltersOf(kernel.logging, handler);
      if filter !in filters {
        kernel.logging := WithFilters(kernel.logging, handler, filters + [filter]);
      }
    }

    /** From now on every root handler redacts: it has the filter of this capture. */
    method AddFilters(filter: nat)
      modifies kernel`logging
      ensures kernel.logging.factory == old(kernel.logging.factory) && kernel.logging.handlers == old(kernel.logging.handlers)
      ensures forall h :: h in kernel.logging.handlers ==> filter in FiltersOf(kernel.logging, h)
      ensures forall h :: h !in kernel.logging.handlers ==> FiltersOf(kernel.logging, h) == old(FiltersOf(kernel.logging, h))
    {
      var handlers := kernel.logging.handlers;
      var i := 0;
      while i < |handlers|
        invariant 0 <= i <= |handlers|
        invariant kernel.logging.factory == old(kernel.logging.factory) && kernel.logging.handlers == old(kernel.logging.handlers)
        invariant forall h :: h in handlers[..i] ==> filter in FiltersOf(kernel.logging, h)
        invariant forall h :: h !in handlers ==> FiltersOf(kernel.logging, h) == old(FiltersOf(kernel.logging, h))
      {
        AddFilter(handlers[i], filter);
        i := i + 1;
      }
    }

    /** Every root handler has the redacting filter of this capture. */
    ghost predicate Redacting()
      reads this`logFilter, kernel`logging
    {
      logFilter.Some? && forall h :: h in kernel.logging.handlers ==> logFilter.value in FiltersOf(kernel.logging, h)
    }

    /** The new record factory and the filters are in place before the overlap check
        fails. */
    method InstallLogRedaction() returns (ok: bool)
      modifies this`savedLogging, this`ownFactory, this`logFilter, kernel`objects, kernel`logging, kernel`logActive
      ensures savedLogging == Some(old(kernel.logging)) && ownFactory == Some(kernel.logging.factory)
      ensures kernel.logging.handlers == old(kernel.logging.handlers)
      ensures Redacting() && kernel.logActive && (ok <==> !old(kernel.logActive))
      ensures kernel.objects >= old(kernel.objects)
    {
      savedLogging := Some(kernel.logging);
      var factory, filter := kernel.objects, kernel.objects + 1;
      kernel.objects := kernel.objects + 2;
      ownFactory := Some(factory);
      kernel.logging := kernel.logging.(factory := factory);
      logFilter := Some(filter);
      AddFilters(filter);
      ok := !kernel.logActive;
      kernel.logActive := true;
    }

    /** Point a target at the write end of its pipe, with the flag it had. */
    method Redirect(s: Stream) returns (ok: bool)
      requires Underway() && SAVED <= slots.Keys && s in pipes && WriteSlot(s) in slots
      modifies kernel`calls, kernel`fds
      ensures Underway()
      ensures DiffersAt(old(kernel.fds), kernel.fds, TargetOf(s))
      ensures ok ==> TargetOf(s) in kernel.fds
      ensures ok ==> kernel.fds[TargetOf(s)] == Descriptor(pipes[s], if s == Stdout then inheritable1 else inheritable2)
      ensures kernel.Faultless() ==> ok
    {
      hide *;
      UnderwayMeans();
      WriteEndNames(s);
      ghost var x := Snap();
      var flag := if s == Stdout then inheritable1 else inheritable2;
      ghost var full, final := x.fds[TargetOf(s) := Descriptor(pipes[s], true)], x.fds[TargetOf(s) := Descriptor(pipes[s], flag)];
      Redirected(entry, x, lost, pipes, kernel.files, s, true);
      Redirected(entry, x, lost, pipes, kernel.files, s, flag);
      TargetIsStandard(s);
      EntryChange(x.fds, TargetOf(s), Descriptor(pipes[s], true));
      EntryChange(x.fds, TargetOf(s), Descriptor(pipes[s], flag));
      DiffersRefl(x.fds, TargetOf(s));
      ok := kernel.Dup2(slots[WriteSlot(s)], TargetOf(s), false);
      if ok {
        ok := kernel.SetInheritable(TargetOf(s), flag);
        if ok {
          assert kernel.fds == final;
          UnderwayFrom(x.(fds := final));
        } else {
          UnderwayFrom(x.(fds := full));
        }
      } else {
        UnderwayFrom(x);
      }
      return;
    }

    /** Both targets go to their pipes, with the flags they had. */
    ghost predicate Hooked()
      reads this`pipes, this`inheritable1, this`inheritable2, kernel`fds
    {
      && pipes.Keys == {Stdout, Stderr}
      && 1 in kernel.fds && kernel.fds[1] == Descriptor(pipes[Stdout], inheritable1)
      && 2 in kernel.fds && kernel.fds[2] == Descriptor(pipes[Stderr], inheritable2)
    }

    /** Nothing has been written to the pipes. */
    ghost predicate EmptyPipes()
      reads this`pipes, kernel`received
    {
      forall s :: s in pipes ==> pipes[s] !in kernel.received
    }

    lemma EmptyMeans()
      requires pipes.Keys == {Stdout, Stderr}
      ensures EmptyPipes() <==> pipes[Stdout] !in kernel.received && pipes[Stderr] !in kernel.received
    {
    }

    method BackUp() returns (ok: bool)
      requires Underway() && Direct() && slots == map[]
      modifies this`slots, this`owned, this`lost, kernel`calls, kernel`fds
      ensures Underway() && Direct() && Count() <= old(Count()) + 4
      ensures ok ==> slots.Keys == SAVED
      ensures ok ==> lost == old(lost)
      ensures kernel.Faultless() ==> ok
    {
      hide Underway, Direct, Count;
      ok := DupOwned(Saved1Primary);
      if !ok { return; }
      ok := DupOwned(Saved1Emergency);
      if !ok { return; }
      ok := DupOwned(Saved2Primary);
      if !ok { return; }
      ok := DupOwned(Saved2Emergency);
      return;
    }

    method OpenBoth() returns (ok: bool)
      requires Underway() && Direct() && slots.Keys == SAVED && pipes == map[]
      modifies this`slots, this`owned, this`lost, this`pipes, kernel`calls, kernel`fds, kernel`files
      ensures Underway() && Direct() && Count() <= old(Count()) + 4
      ensures ok ==> slots.Keys == SAVED + {OutRead, OutWrite, ErrRead, ErrWrite}
      ensures ok ==> pipes.Keys == {Stdout, Stderr} && EmptyPipes()
      ensures ok ==> lost == old(lost)
      ensures kernel.Faultless() ==> ok
    {
      hide *;
      SlotSets();
      ok := PipeOwned(Stdout);
      if !ok { return; }
      ok := PipeOwned(Stderr);
      if ok {
        EmptyMeans();
      }
      return;
    }

    method StartBoth() returns (ok: bool)
      requires started == {}
      modifies this`started, kernel`calls
      ensures ok ==> started == {Stdout, Stderr}
      ensures kernel.Faultless() ==> ok
    {
      ok := StartDrainer(Stdout);
      if ok {
        ok := StartDrainer(Stderr);
      }
    }

    method OpenPipes() returns (ok: bool)
      requires Underway() && Direct() && slots.Keys == SAVED && pipes == map[] && started == {}
      modifies this`slots, this`owned, this`lost, this`pipes, this`started, kernel`calls, kernel`fds, kernel`files
      ensures Underway() && Direct() && Count() <= old(Count()) + 4
      ensures ok ==> slots.Keys == SAVED + {OutRead, OutWrite, ErrRead, ErrWrite}
      ensures ok ==> pipes.Keys == {Stdout, Stderr} == started && EmptyPipes()
      ensures ok ==> lost == old(lost)
      ensures kernel.Faultless() ==> ok
    {
      hide *;
      ok := OpenBoth();
      if !ok { return; }
      ok := StartBoth();
      return;
    }

    /** The flush before the redirection writes to the original files only. */
    method FlushDirect()
      requires Underway() && Direct() && EmptyPipes()
      modifies this`error, kernel`calls, kernel`received, kernel`buffered
      ensures Underway() && Direct() && EmptyPipes()
      ensures Clean() ==> old(Clean())
      ensures kernel.Faultless() ==> error == old(error) && kernel.Buffered(1) == 0 && kernel.Buffered(2) == 0
    {
      hide Underway, Tracked, BackedUp, Consistent, Building;
      UnderwayMeans();
      FlushStreams();
      UnderwayFrom(Snap());
      assert forall s :: s in pipes ==> OwnPipe(entry, Snap(), s, pipes[s], kernel.files);
      return;
    }

    method RedirectBoth() returns (ok: bool)
      requires Underway() && SAVED + {OutWrite, ErrWrite} <= slots.Keys && pipes.Keys == {Stdout, Stderr}
      modifies kernel`calls, kernel`fds
      ensures Underway()
      ensures ok ==> Hooked()
      ensures kernel.Faultless() ==> ok
    {
      hide Underway;
      ok := Redirect(Stdout);
      if !ok { return; }
      ok := Redirect(Stderr);
      assert 1 in kernel.fds.Keys - {2};
      return;
    }

    method CloseWriteEnd(s: Stream)
      requires Underway() && Hooked()
      modifies this`slots, this`owned, this`error, this`leaked, kernel`calls, kernel`fds
      ensures Underway() && Hooked()
      ensures slots.Keys == old(slots.Keys) - {WriteSlot(s)} && Count() <= old(Count())
      ensures Clean() ==> old(Clean()) && leaked == old(leaked)
      ensures kernel.Faultless() ==> leaked == old(leaked) && (Clean() <==> old(Clean()))
    {
      hide *;
      ChangedStarts();
      HookMeans();
      CountMeans();
      WriteSlots(s);
      ghost var x := Snap();
      BuildingOf(x);
      WriteEndClosed(entry, x, lost, pipes, kernel.files, WriteSlot(s), true);
      WriteEndClosed(entry, x, lost, pipes, kernel.files, WriteSlot(s), false);
      ghost var ok := CloseOwned(WriteSlot(s));
      StateMeans();
      CountMeans();
      HookMeans();
      TrackedMeans();
      UnderwayFrom(Snap());
      return;
    }

    lemma BuildingOf(x: Snapshot)
      requires Underway() && x == Snap()
      ensures Building(entry, x, lost) && OwnPipes(entry, x, pipes, kernel.files) && x.fds == kernel.fds
      ensures log.Keys == {Stdout, Stderr} && entry.inheritable1 == inheritable1 && entry.inheritable2 == inheritable2
      ensures Tracked() && x == Snapshot(slots, owned, leaked, kernel.fds)
    {
      hide OwnPipes, Consistent, Backed, OthersKept;
    }

    lemma WriteSlots(s: Stream)
      ensures WriteSlot(s) == OutWrite || WriteSlot(s) == ErrWrite
    {
    }

    lemma HookMeans()
      ensures Hooked() <==>
        && pipes.Keys == {Stdout, Stderr}
        && 1 in kernel.fds && kernel.fds[1] == Descriptor(pipes[Stdout], inheritable1)
        && 2 in kernel.fds && kernel.fds[2] == Descriptor(pipes[Stderr], inheritable2)
    {
    }

    lemma TrackedMeans()
      requires Tracked()
      ensures kernel.Valid() && log.Keys == {Stdout, Stderr} && Consistent(Snap())
    {
    }

    method InstallSinks()
      modifies this`sinkStdout, this`sinkStderr, kernel`objects, kernel`stdoutObject, kernel`stderrObject, kernel`bound
      ensures sinkStdout == Some(kernel.stdoutObject) && sinkStderr == Some(kernel.stderrObject)
      ensures SinksSince(old(kernel.objects))
    {
      sinkStdout, sinkStderr := Some(kernel.objects), Some(kernel.objects + 1);
      kernel.bound := kernel.bound[kernel.objects := 1][kernel.objects + 1 := 2];
      kernel.objects := kernel.objects + 2;
      kernel.stdoutObject, kernel.stderrObject := sinkStdout.value, sinkStderr.value;
    }

    /** The interpreter's streams are two different objects made after the first `n`, one
        that writes to descriptor 1 and one that writes to descriptor 2. */
    ghost predicate SinksSince(n: nat)
      reads kernel`stdoutObject, kernel`stderrObject, kernel`bound
    {
      && n <= kernel.stdoutObject && n <= kernel.stderrObject && kernel.stdoutObject != kernel.stderrObject
      && kernel.stdoutObject in kernel.bound && kernel.bound[kernel.stdoutObject] == 1
      && kernel.stderrObject in kernel.bound && kernel.bound[kernel.stderrObject] == 2
    }

    lemma SinksSinceLess(n: nat, m: nat)
      requires SinksSince(n) && m <= n
      ensures SinksSince(m) && SinksSince(0)
    {
    }

    /** One attempt to undo a redirection of a target that has a backup. */
    method RestoreIfRedirected(target: nat, inheritable: bool) returns (ok: bool)
      requires Underway() && target in {1, 2} && inheritable == if target == 1 then inheritable1 else inheritable2
      modifies kernel`calls, kernel`fds
      ensures Underway() && DiffersAt(old(kernel.fds), kernel.fds, target)
      ensures ok ==> target in entry.fds && target in kernel.fds && kernel.fds[target] == entry.fds[target]
      ensures kernel.Faultless() ==> ok
    {
      hide *;
      UnderwayMeans();
      ghost var x := Snap();
      DiffersRefl(x.fds, target);
      if PrimaryOf(target) !in slots {
        BuildingDirect(entry, x, lost, target);
        return true;
      }
      ghost var file := if target == 1 then entry.file1 else entry.file2;
      ghost var full, final := x.fds[target := Descriptor(file, true)], x.fds[target := Descriptor(file, inheritable)];
      PutBack(entry, x, lost, pipes, kernel.files, target, true);
      PutBack(entry, x, lost, pipes, kernel.files, target, inheritable);
      EntryChange(x.fds, target, Descriptor(file, true));
      EntryChange(x.fds, target, Descriptor(file, inheritable));
      BackupNames(target);
      ok := kernel.Dup2(slots[PrimaryOf(target)], target, false);
      if !ok {
        UnderwayFrom(x);
        return;
      }
      ok := kernel.SetInheritable(target, inheritable);
      if !ok {
        UnderwayFrom(x.(fds := full));
        return;
      }
      assert kernel.fds == final;
      UnderwayFrom(x.(fds := final));
      var same := kernel.SameOpenFile(target, slots[PrimaryOf(target)]);
      return same == Some(true);
    }

    lemma BackupNames(target: nat)
      requires Underway() && target in {1, 2} && PrimaryOf(target) in slots
      ensures PrimaryOf(target) in SAVED && Target(PrimaryOf(target)) == target
      ensures slots[PrimaryOf(target)] in kernel.fds && slots[PrimaryOf(target)] != 1 && slots[PrimaryOf(target)] != 2
      ensures kernel.fds[slots[PrimaryOf(target)]].file == if target == 1 then entry.file1 else entry.file2
    {
      SlotsBeyond(Snap());
      assert InPlace(Snap(), PrimaryOf(target));
    }

    method PutBothBack() returns (ok: bool)
      requires Underway()
      modifies kernel`calls, kernel`fds
      ensures Underway() && (ok ==> Direct())
      ensures kernel.Faultless() ==> ok
    {
      hide Underway;
      UnderwayMeans();
      var ok1 := RestoreIfRedirected(1, inheritable1);
      assert 1 in kernel.fds ==> 1 in kernel.fds.Keys - {2};
      ghost var middle := kernel.fds;
      var ok2 := RestoreIfRedirected(2, inheritable2);
      assert 1 in kernel.fds.Keys - {2} <==> 1 in middle.Keys - {2};
      ok := ok1 && ok2;
      return;
    }

    /** Close everything the capture created; 1 and 2 are already back. */
    method GiveEverythingUp()
      requires Underway() && Direct()
      modifies this`slots, this`owned, this`error, this`leaked, kernel`calls, kernel`fds
      ensures slots == map[] && Intact(entry.fds, kernel.fds, leaked + lost) && |leaked + lost| <= old(Count())
      ensures kernel.Faultless() ==> leaked == old(leaked)
    {
      hide *;
      UnderwayMeans();
      DirectMeans();
      CountMeans();
      ghost var x := Snap();
      ghost var oks := CloseAll(ALL_SLOTS);
      StateMeans();
      AbortLeavesIntact(entry, x, lost, oks);
      AbortLeaves(entry, x, lost, oks);
      return;
    }

    /** Undo an install that failed between two steps. Unless the process ends, the
        descriptor table is the one install found, apart from descriptors that leaked or
        were lost, and nothing is left in a slot. */
    method Abort() returns (flow: Flow)
      requires Underway()
      modifies this`phase, this`slots, this`owned, this`leaked, this`error, this`recovered, this`fatal
      modifies kernel`calls, kernel`fds, kernel`stdoutObject, kernel`stderrObject, kernel`logging, kernel`logActive
      ensures flow == Exited ==> fatal
      ensures flow != Exited ==> phase == Closed && slots == map[] && Intact(entry.fds, kernel.fds, leaked + lost)
      ensures flow != Exited ==> |leaked + lost| <= old(Count())
      ensures flow != Exited && savedLogging.Some? ==> GlobalsBack()
      ensures savedLogging.None? ==> kernel.stdoutObject == old(kernel.stdoutObject) && kernel.stderrObject == old(kernel.stderrObject)
      ensures savedLogging.None? ==> kernel.logging == old(kernel.logging) && kernel.logActive == old(kernel.logActive)
      ensures kernel.Faultless() ==> flow != Exited && leaked == old(leaked)
    {
      hide *;
      var ok := PutBothBack();
      if !ok {
        FatalExit();
        return Exited;
      }
      GiveEverythingUp();
      if savedLogging.Some? {
        var alive := RestoreProcessGlobals();
        if !alive {
          return Exited;
        }
      }
      phase := Closed;
      return Done;
    }

    lemma HookedMeans()
      requires Underway() && Hooked() && slots.Keys == SAVED + {OutRead, ErrRead} && leaked == {}
      requires Clean() && GlobalsUntouched()
      ensures Undisturbed()
    {
      hide Building, Consistent;
      assert OwnPipe(entry, Snap(), Stdout, pipes[Stdout], kernel.files);
      assert OwnPipe(entry, Snap(), Stderr, pipes[Stderr], kernel.files);
    }

    /** The steps before any redirection. */
    method Prepare() returns (ok: bool)
      requires Underway() && Direct() && slots == map[] && pipes == map[] && started == {} && savedLogging.None?
      modifies this`slots, this`owned, this`lost, this`pipes, this`started, this`savedLogging, this`ownFactory, this`logFilter
      modifies kernel`calls, kernel`fds, kernel`files, kernel`objects, kernel`logging, kernel`logActive
      ensures Underway() && Direct() && Count() <= old(Count()) + 8
      ensures ok ==> EmptyPipes() && pipes.Keys == {Stdout, Stderr} == started
      ensures ok ==> slots.Keys == SAVED + {OutRead, OutWrite, ErrRead, ErrWrite}
      ensures ok ==> savedLogging == Some(old(kernel.logging)) && ownFactory == Some(kernel.logging.factory)
      ensures ok ==> kernel.logging.handlers == old(kernel.logging.handlers) && Redacting()
      ensures ok ==> kernel.logActive && !old(kernel.logActive)
      ensures kernel.objects >= old(kernel.objects)
      ensures savedLogging == Some(old(kernel.logging))
        || (savedLogging.None? && kernel.logging == old(kernel.logging) && kernel.logActive == old(kernel.logActive))
      ensures ok ==> lost == old(lost)
      ensures kernel.Faultless() ==> (ok <==> !old(kernel.logActive)) && lost == old(lost) && savedLogging.Some?
    {
      hide *;
      ok := BackUp();
      if !ok { return; }
      ok := OpenPipes();
      if !ok { return; }
      ok := InstallLogRedaction();
      return;
    }

    /** Flush to the original streams, then redirect. */
    method FlushAndRedirect() returns (ok: bool)
      requires Underway() && Direct() && EmptyPipes() && pipes.Keys == {Stdout, Stderr}
      requires slots.Keys == SAVED + {OutRead, OutWrite, ErrRead, ErrWrite}
      modifies this`error, kernel`calls, kernel`fds, kernel`received, kernel`buffered
      ensures Underway()
      ensures ok ==> Hooked() && EmptyPipes()
      ensures Clean() ==> old(Clean())
      ensures kernel.Faultless() ==> ok && kernel.Buffered(1) == 0 && kernel.Buffered(2) == 0 && (Clean() <==> old(Clean()))
    {
      hide *;
      SlotSets();
      CleanMeans();
      FlushDirect();
      CleanMeans();
      ok := RedirectBoth();
      return;
    }

    method DropWriteEnds()
      requires Underway() && Hooked() && leaked == {} && slots.Keys == SAVED + {OutRead, OutWrite, ErrRead, ErrWrite}
      modifies this`slots, this`owned, this`error, this`leaked, kernel`calls, kernel`fds
      ensures Underway() && Hooked() && slots.Keys == SAVED + {OutRead, ErrRead} && Count() <= old(Count())
      ensures Clean() ==> old(Clean()) && leaked == {}
      ensures kernel.Faultless() ==> leaked == {} && (Clean() <==> old(Clean()))
    {
      hide *;
      SlotSets();
      CloseWriteEnd(Stdout);
      CloseWriteEnd(Stderr);
      return;
    }

    /** Drop the write ends, then put the sinks in place. */
    method Detach()
      requires Underway() && Hooked() && leaked == {} && savedLogging.Some?
      requires slots.Keys == SAVED + {OutRead, OutWrite, ErrRead, ErrWrite} && ownFactory == Some(kernel.logging.factory)
      requires kernel.logging.handlers == savedLogging.value.handlers
      modifies this`slots, this`owned, this`leaked, this`error, this`sinkStdout, this`sinkStderr
      modifies kernel`calls, kernel`fds, kernel`objects, kernel`stdoutObject, kernel`stderrObject, kernel`bound
      ensures Underway() && Hooked() && slots.Keys == SAVED + {OutRead, ErrRead} && GlobalsUntouched() && Count() <= old(Count())
      ensures SinksSince(old(kernel.objects))
      ensures Clean() ==> leaked == {}
      ensures kernel.Faultless() ==> leaked == {} && (Clean() <==> old(Clean()))
    {
      hide *;
      DropWriteEnds();
      CleanMeans();
      InstallSinks();
      CleanMeans();
      SinksMean();
      return;
    }

    /** The steps from the flush on. */
    method Hook() returns (ok: bool)
      requires Underway() && Direct() && EmptyPipes() && pipes.Keys == {Stdout, Stderr} && leaked == {}
      requires slots.Keys == SAVED + {OutRead, OutWrite, ErrRead, ErrWrite} && ownFactory == Some(kernel.logging.factory)
      requires savedLogging.Some? && kernel.logging.handlers == savedLogging.value.handlers
      modifies this`slots, this`owned, this`leaked, this`error, this`sinkStdout, this`sinkStderr
      modifies kernel`calls, kernel`fds, kernel`received, kernel`buffered
      modifies kernel`objects, kernel`stdoutObject, kernel`stderrObject, kernel`bound
      ensures Underway() && Count() <= old(Count())
      ensures ok ==> Hooked() && EmptyPipes() && slots.Keys == SAVED + {OutRead, ErrRead} && GlobalsUntouched()
      ensures ok ==> SinksSince(old(kernel.objects))
      ensures !ok ==> kernel.stdoutObject == old(kernel.stdoutObject) && kernel.stderrObject == old(kernel.stderrObject)
      ensures ok && Clean() ==> leaked == {}
      ensures kernel.Faultless() ==> ok && leaked == {} && kernel.Buffered(1) == 0 && kernel.Buffered(2) == 0
      ensures kernel.Faultless() && old(Clean()) ==> Clean()
    {
      hide *;
      ok := FlushAndRedirect();
      if !ok { return; }
      Detach();
      return;
    }

    lemma CleanMeans()
      ensures Clean() <==> error.None? && !recovered
    {
    }

    lemma SlotSets()
      ensures ReadSlot(Stdout) == OutRead && WriteSlot(Stdout) == OutWrite && ReadSlot(Stderr) == ErrRead && WriteSlot(Stderr) == ErrWrite
      ensures SAVED !! {OutRead, OutWrite, ErrRead, ErrWrite}
      ensures var all := SAVED + {OutRead, OutWrite, ErrRead, ErrWrite};
        all - {WriteSlot(Stdout)} - {WriteSlot(Stderr)} == SAVED + {OutRead, ErrRead} && SAVED + {OutWrite, ErrWrite} <= all
    {
    }

    /** The steps inside the `try` of install, up to the first that fails. */
    method InstallSteps() returns (ok: bool)
      requires Underway() && Direct() && slots == map[] && pipes == map[] && started == {} && savedLogging.None?
      requires leaked == {} && lost == {} && Clean() && Count() == 0
      modifies this`slots, this`owned, this`lost, this`leaked, this`pipes, this`started, this`error
      modifies this`savedLogging, this`ownFactory, this`logFilter, this`sinkStdout, this`sinkStderr
      modifies kernel`calls, kernel`fds, kernel`files, kernel`received, kernel`buffered
      modifies kernel`objects, kernel`stdoutObject, kernel`stderrObject, kernel`bound, kernel`logging, kernel`logActive
      ensures Underway() && Count() <= 8
      ensures ok ==> Hooked() && EmptyPipes() && slots.Keys == SAVED + {OutRead, ErrRead} && started == {Stdout, Stderr}
      ensures ok ==> GlobalsUntouched() && Redacting() && kernel.logActive && !old(kernel.logActive)
      ensures ok ==> SinksSince(old(kernel.objects))
      ensures ok ==> savedLogging == Some(old(kernel.logging))
      ensures !ok ==> kernel.stdoutObject == old(kernel.stdoutObject) && kernel.stderrObject == old(kernel.stderrObject)
      ensures savedLogging == Some(old(kernel.logging))
        || (savedLogging.None? && kernel.logging == old(kernel.logging) && kernel.logActive == old(kernel.logActive))
      ensures ok ==> lost == {} && (Clean() ==> leaked == {})
      ensures kernel.Faultless() ==> (ok <==> !old(kernel.logActive)) && leaked == {} && lost == {} && savedLogging.Some?
      ensures kernel.Faultless() && ok ==> Clean() && kernel.Buffered(1) == 0 && kernel.Buffered(2) == 0
    {
      hide *;
      ok := Prepare();
      if !ok { return; }
      ghost var objects := kernel.objects;
      ok := Hook();
      if ok {
        SinksSinceLess(objects, old(kernel.objects));
      }
      return;
    }

    lemma SinksMean()
      requires sinkStdout == Some(kernel.stdoutObject) && sinkStderr == Some(kernel.stderrObject)
      requires ownFactory == Some(kernel.logging.factory)
      requires savedLogging.Some? && kernel.logging.handlers == savedLogging.value.handlers
      ensures GlobalsUntouched()
    {
    }

    lemma FreshMeans()
      requires Fresh()
      ensures phase == Created && slots == map[] && pipes == map[] && started == {} && savedLogging.None?
      ensures leaked == {} && lost == {} && Clean() && attempts1 == 0 && attempts2 == 0
      ensures owned == {} && log.Keys == {Stdout, Stderr} && Count() == 0
    {
    }

    lemma UnderwayStarts()
      requires kernel.Valid() && ValidEntry(entry) && entry.fds == kernel.fds && log.Keys == {Stdout, Stderr}
      requires slots == map[] && owned == {} && leaked == {} && lost == {} && pipes == map[]
      requires entry.inheritable1 == inheritable1 && entry.inheritable2 == inheritable2
      ensures Underway() && Direct()
    {
      BuildingStarts(entry);
      assert Snap() == Snapshot(map[], {}, {}, entry.fds);
    }

    /** The streams and the flags of descriptors 1 and 2. */
    method ReadFlags() returns (ok: bool)
      modifies this`savedStdout, this`savedStderr, this`inheritable1, this`inheritable2, this`entry, kernel`calls
      ensures savedStdout == kernel.stdoutObject && savedStderr == kernel.stderrObject
      ensures ok ==> 1 in kernel.fds && 2 in kernel.fds && inheritable1 == kernel.fds[1].inheritable && inheritable2 == kernel.fds[2].inheritable
      ensures ok ==> entry == Entry(kernel.fds, kernel.fds[1].file, kernel.fds[2].file, inheritable1, inheritable2)
      ensures kernel.Faultless() && 1 in kernel.fds && 2 in kernel.fds ==> ok
    {
      hide *;
      savedStdout, savedStderr := kernel.stdoutObject, kernel.stderrObject;
      var one := kernel.GetInheritable(1);
      if one.None? {
        return false;
      }
      var two := kernel.GetInheritable(2);
      if two.None? {
        return false;
      }
      inheritable1, inheritable2, entry := one.value, two.value,
        Entry(kernel.fds, kernel.fds[1].file, kernel.fds[2].file, one.value, two.value);
      return true;
    }

    /** The reads before the `try` of install. */
    method ReadOriginals() returns (ok: bool)
      requires kernel.Valid() && Fresh()
      modifies this`savedStdout, this`savedStderr, this`inheritable1, this`inheritable2, this`entry, kernel`calls
      ensures savedStdout == kernel.stdoutObject && savedStderr == kernel.stderrObject
      ensures ok ==> Underway() && Direct() && entry.fds == kernel.fds
      ensures kernel.Faultless() && 1 in kernel.fds && 2 in kernel.fds ==> ok
    {
      hide *;
      FreshMeans();
      ok := ReadFlags();
      if ok {
        EntryOf(kernel.fds);
        UnderwayStarts();
      }
      return;
    }

    /** A capture nobody has used yet: undisturbed, and nothing waits to be flushed. */
    ghost predicate Pristine()
      reads this`error, this`recovered, this`pipes, this`entry, kernel`fds, kernel`buffered
      reads this`sinkStdout, this`sinkStderr, this`savedStdout, this`savedStderr, this`ownFactory, this`savedLogging
      reads kernel`stdoutObject, kernel`stderrObject, kernel`logging
    {
      Undisturbed() && kernel.Buffered(1) == 0 && kernel.Buffered(2) == 0
    }

    /** What a successful install promises. */
    ghost predicate Installing()
      reads this`slots, this`owned, this`leaked, this`lost, this`log, this`pipes, this`entry, this`inheritable1, this`inheritable2
      reads this`started, this`attempts1, this`attempts2, this`error, this`recovered
      reads this`sinkStdout, this`sinkStderr, this`savedStdout, this`savedStderr, this`ownFactory, this`savedLogging
      reads kernel`fds, kernel`files, kernel`received, kernel`stdoutObject, kernel`stderrObject, kernel`bound
      reads kernel`logging, kernel`logActive, this`logFilter
    {
      && Ready() && Underway() && Hooked() && EmptyPipes() && GlobalsUntouched() && SinksSince(0) && Redacting() && kernel.logActive
      && lost == {} && (Clean() ==> leaked == {}) && Count() <= 8
    }

    lemma InstallingFrom()
      requires Underway() && Hooked() && EmptyPipes() && GlobalsUntouched() && SinksSince(0) && Redacting() && kernel.logActive
      requires Count() <= 8
      requires lost == {} && (Clean() ==> leaked == {})
      requires slots.Keys == SAVED + {OutRead, ErrRead} && started == {Stdout, Stderr} && savedLogging.Some?
      requires attempts1 == 0 && attempts2 == 0
      ensures Installing()
      ensures Clean() && kernel.Buffered(1) == 0 && kernel.Buffered(2) == 0 ==> Pristine()
    {
      hide Undisturbed, Building, OwnPipes, GlobalsUntouched, EmptyPipes, Count, Clean;
      UnderwayMeans();
      if Clean() {
        HookedMeans();
      }
    }

    /** The table and the globals after an install that raised. */
    ghost predicate Undone(found: map<nat, Descriptor>, globals: ProcessGlobals)
      reads this`entry, this`leaked, this`lost, kernel`fds, kernel`stdoutObject, kernel`stderrObject, kernel`logging
    {
      && (kernel.fds == found || (entry.fds == found && Intact(entry.fds, kernel.fds, leaked + lost) && |leaked + lost| <= 8))
      && BackTo(globals, kernel.Globals())
    }

    /** The globals install saved, once it has saved all of them. */
    ghost function Saved(): Option<ProcessGlobals>
      reads this`savedStdout, this`savedStderr, this`savedLogging
    {
      if savedLogging.None? then None else Some(ProcessGlobals(savedStdout, savedStderr, savedLogging.value))
    }

    lemma SavedMeans()
      ensures savedLogging.Some? ==> Saved() == Some(ProcessGlobals(savedStdout, savedStderr, savedLogging.value))
      ensures savedLogging.None? <==> Saved().None?
      ensures kernel.Globals() == ProcessGlobals(kernel.stdoutObject, kernel.stderrObject, kernel.logging)
      ensures BackTo(kernel.Globals(), kernel.Globals())
      ensures GlobalsBack() ==> Saved().Some? && BackTo(Saved().value, kernel.Globals()) && !kernel.logActive
    {
    }

    /** The handler of install: abort, then raise again. */
    method AbortInstall(ghost found: map<nat, Descriptor>, ghost globals: ProcessGlobals) returns (flow: Flow)
      requires Underway() && entry.fds == found && Count() <= 8
      requires Saved() == Some(globals) || (Saved().None? && BackTo(globals, kernel.Globals()))
      modifies this`phase, this`slots, this`owned, this`leaked, this`error, this`recovered, this`fatal
      modifies kernel`calls, kernel`fds, kernel`stdoutObject, kernel`stderrObject, kernel`logging, kernel`logActive
      ensures flow == Exited ==> fatal
      ensures flow != Exited ==> flow == Raised && phase == Closed && Undone(found, globals)
      ensures flow != Exited && Saved().Some? ==> !kernel.logActive
      ensures kernel.Faultless() ==> flow != Exited && (old(leaked) == {} && lost == {} ==> kernel.fds == found)
    {
      hide *;
      phase := Restoring;
      SavedMeans();
      flow := Abort();
      SavedMeans();
      if flow != Exited {
        flow := Raised;
        UndoneFrom(found, globals);
      }
      return;
    }

    /** The steps, with what they promise. */
    method InstallPromised(ghost globals: ProcessGlobals, ghost objects: nat, ghost overlap: bool) returns (ok: bool)
      requires Underway() && Direct() && slots == map[] && pipes == map[] && started == {} && savedLogging.None?
      requires leaked == {} && lost == {} && Clean() && Count() == 0 && attempts1 == 0 && attempts2 == 0
      requires globals == kernel.Globals() && objects == kernel.objects && overlap == kernel.logActive
      requires savedStdout == kernel.stdoutObject && savedStderr == kernel.stderrObject
      modifies this`slots, this`owned, this`lost, this`leaked, this`pipes, this`started, this`error
      modifies this`savedLogging, this`ownFactory, this`logFilter, this`sinkStdout, this`sinkStderr
      modifies kernel`calls, kernel`fds, kernel`files, kernel`received, kernel`buffered
      modifies kernel`objects, kernel`stdoutObject, kernel`stderrObject, kernel`bound, kernel`logging, kernel`logActive
      ensures Underway() && Count() <= 8
      ensures Saved() == Some(globals) || (Saved().None? && BackTo(globals, kernel.Globals()))
      ensures ok ==> Installing() && Saved() == Some(globals) && !overlap && SinksSince(objects)
      ensures kernel.Faultless() ==> (ok <==> !overlap) && leaked == {} && lost == {} && Saved().Some? && (ok ==> Pristine())
    {
      hide *;
      SavedMeans();
      ok := InstallSteps();
      SavedMeans();
      if ok {
        SinksSinceLess(objects, 0);
        InstallingFrom();
      }
      return;
    }

    /** The reads and the steps of install, before the handler. */
    method TryInstall(ghost found: map<nat, Descriptor>, ghost globals: ProcessGlobals, ghost objects: nat, ghost overlap: bool)
      returns (started: bool, ok: bool)
      requires Fresh() && kernel.Valid() && found == kernel.fds && globals == kernel.Globals()
      requires objects == kernel.objects && overlap == kernel.logActive
      modifies this, kernel
      ensures !started ==> !ok && kernel.fds == found && BackTo(globals, kernel.Globals())
      ensures started ==> Underway() && entry.fds == found && Count() <= 8
      ensures started ==> Saved() == Some(globals) || (Saved().None? && BackTo(globals, kernel.Globals()))
      ensures ok ==> started && Installing() && Saved() == Some(globals) && !overlap && SinksSince(objects)
      ensures kernel.Faultless() && 1 in found && 2 in found ==>
        started && (ok <==> !overlap) && leaked == {} && lost == {} && Saved().Some? && (ok ==> Pristine())
    {
      hide *;
      FreshMeans();
      SavedMeans();
      started := ReadOriginals();
      if !started {
        SavedMeans();
        return started, false;
      }
      ok := InstallPromised(globals, objects, overlap);
      return;
    }

    /** Install of a fresh capture: it either redirects both descriptors, or raises with
        the table as it was apart from leaked and lost descriptors and with the
        interpreter's globals back, or the process ends. */
    method InstallFresh() returns (flow: Flow)
      requires Fresh() && kernel.Valid()
      modifies this, kernel
      ensures flow == Exited ==> fatal
      ensures flow == Done ==> phase == Installed && Installing() && entry.fds == old(kernel.fds) && !old(kernel.logActive)
      ensures flow == Done ==> Saved() == Some(old(kernel.Globals())) && SinksSince(old(kernel.objects))
      ensures flow == Raised ==> Undone(old(kernel.fds), old(kernel.Globals()))
      ensures kernel.Faultless() && 1 in old(kernel.fds) && 2 in old(kernel.fds) ==>
        && flow == (if old(kernel.logActive) then Raised else Done)
        && (flow == Done ==> Pristine())
        && (flow == Raised ==> kernel.fds == old(kernel.fds) && !kernel.logActive)
    {
      hide *;
      var started, ok := TryInstall(kernel.fds, kernel.Globals(), kernel.objects, kernel.logActive);
      if !started {
        UndoneFrom(old(kernel.fds), old(kernel.Globals()));
        return Raised;
      }
      if !ok {
        flow := AbortInstall(old(kernel.fds), old(kernel.Globals()));
        return;
      }
      phase := Installed;
      return Done;
    }

    /** Install. It raises without effect in any phase but the first. When no call fails
        it raises exactly if another capture holds the log flag, which the abort then
        clears. */
    method Install() returns (flow: Flow)
      requires phase == Created ==> Fresh() && kernel.Valid()
      modifies this, kernel
      ensures old(phase) != Created ==> flow == Raised && unchanged(this) && unchanged(kernel)
      ensures old(phase) == Created && flow == Exited ==> fatal
      ensures flow == Done ==> phase == Installed && Installing() && entry.fds == old(kernel.fds) && !old(kernel.logActive)
      ensures flow == Done ==> Saved() == Some(old(kernel.Globals())) && SinksSince(old(kernel.objects))
      ensures old(phase) == Created && flow == Raised ==> Undone(old(kernel.fds), old(kernel.Globals()))
      ensures kernel.Faultless() && old(phase) == Created && 1 in old(kernel.fds) && 2 in old(kernel.fds) ==>
        && flow == (if old(kernel.logActive) then Raised else Done)
        && (flow == Done ==> Pristine())
        && (flow == Raised ==> kernel.fds == old(kernel.fds) && !kernel.logActive)
    {
      hide *;
      if phase != Created {
        return Raised;
      }
      flow := InstallFresh();
      return;
    }

    lemma UndoneFrom(found: map<nat, Descriptor>, globals: ProcessGlobals)
      requires kernel.fds == found || (entry.fds == found && Intact(entry.fds, kernel.fds, leaked + lost) && |leaked + lost| <= 8)
      requires BackTo(globals, kernel.Globals())
      ensures Undone(found, globals)
      ensures entry.fds == found && leaked == {} && lost == {} && Intact(entry.fds, kernel.fds, leaked + lost) ==> kernel.fds == found
    {
      if entry.fds == found && leaked == {} && lost == {} && Intact(entry.fds, kernel.fds, leaked + lost) {
        assert leaked + lost == {};
        IntactExactly(entry.fds, kernel.fds);
      }
    }

    // ----- a whole call -----

    /** The provider's own bytes, and the reports of dying drainers, while the capture is
        installed. */
    method ProviderWrites(out: Output, err: Output)
      requires Installing()
      modifies kernel`received
      ensures Ready() && Underway() && Hooked()
      ensures kernel.Received(PipeOf(Stdout)) == Bytes(out) && kernel.Received(PipeOf(Stderr)) == Bytes(err) + Outbursts(fates)
    {
      hide Building, OwnPipes, Ready, Underway, Tracked, BackedUp, Count;
      UnderwayMeans();
      ReadyMeans();
      PipesDiffer();
      kernel.Emit(1, kernel.stdoutObject, out);
      kernel.Emit(2, kernel.stderrObject, Output(err.written, err.printed + Outburst(fates(Stdout)) + Outburst(fates(Stderr))));
      UnderwayFrom(Snap());
      UnderwayMeans();
      ReadyFrom();
      return;
    }

    lemma PipesDiffer()
      requires Underway() && pipes.Keys == {Stdout, Stderr}
      ensures pipes[Stdout] != pipes[Stderr]
    {
    }

    lemma UndoneMeans(found: map<nat, Descriptor>, globals: ProcessGlobals) returns (left: set<nat>)
      requires Undone(found, globals)
      ensures Intact(found, kernel.fds, left) && |left| <= 8 && BackTo(globals, kernel.Globals())
    {
      left := if kernel.fds == found then {} else leaked + lost;
    }

    lemma InstallingMeans()
      requires Installing()
      ensures Underway() && pipes.Keys == {Stdout, Stderr} && lost == {} && (Clean() ==> leaked == {}) && Count() <= 8
    {
    }

    lemma PendingMeans()
      ensures PendingSilent() <==>
        BothSilent(fates, kernel.Received(PipeOf(Stdout)) + kernel.Buffered(1), kernel.Received(PipeOf(Stderr)) + kernel.Buffered(2))
      ensures Undisturbed() ==> Clean()
      ensures Pristine() ==> Undisturbed() && kernel.Buffered(1) == 0 && kernel.Buffered(2) == 0
    {
    }

    /** What is left once an installed capture that lost nothing has been closed. */
    lemma ClosedIntact(a: Snapshot, one: Descriptor, two: Descriptor)
      requires ValidEntry(entry) && one == entry.fds[1] && two == entry.fds[2] && lost == {}
      requires Building(entry, a, lost) && Restored(a, Snap(), one, two) && Total(a.owned, a.leaked, lost) <= 8
      ensures Intact(entry.fds, kernel.fds, leaked) && |leaked| <= 8
      ensures leaked == {} ==> kernel.fds == entry.fds
    {
      hide Building, Restored;
      CloseLeavesIntact(entry, a, Snap(), lost);
      LeftOfOwned(a, Snap(), one, two, lost);
      assert leaked + lost == leaked;
      IntactExactly(entry.fds, kernel.fds);
    }

    /** The provider writes; `a` is the state close will find. */
    method WriteAll(out: Output, err: Output) returns (ghost a: Snapshot)
      requires Installing()
      modifies kernel`received
      ensures Ready() && a == Snap() && Building(entry, a, lost) && lost == {} && Total(a.owned, a.leaked, lost) <= 8
      ensures ValidEntry(entry) && entry.fds[1] == Descriptor(entry.file1, inheritable1) && entry.fds[2] == Descriptor(entry.file2, inheritable2)
      ensures kernel.Received(PipeOf(Stdout)) == Bytes(out) && kernel.Received(PipeOf(Stderr)) == Bytes(err) + Outbursts(fates)
      ensures Clean() ==> leaked == {}
      ensures old(Pristine()) ==> Undisturbed() && (PendingSilent() <==> BothSilent(fates, Bytes(out), Bytes(err) + Outbursts(fates)))
    {
      hide *;
      InstallingMeans();
      PendingMeans();
      ProviderWrites(out, err);
      UnderwayMeans();
      PendingMeans();
      CountMeans();
      a := Snap();
      return;
    }

    /** The provider writes, then close: what is known when the process is still there. */
    method WriteAndClose(out: Output, err: Output) returns (flow: Flow, ghost a: Snapshot)
      requires phase == Installed && Installing()
      modifies this, kernel
      ensures unchanged(this`entry, this`inheritable1, this`inheritable2, this`savedStdout, this`savedStderr, this`savedLogging, this`lost)
      ensures Building(entry, a, lost) && lost == {} && Total(a.owned, a.leaked, lost) <= 8
      ensures flow != Exited ==> GlobalsBack()
      ensures flow != Exited ==> Restored(a, Snap(), Descriptor(entry.file1, inheritable1), Descriptor(entry.file2, inheritable2))
      ensures ValidEntry(entry) && entry.fds[1] == Descriptor(entry.file1, inheritable1) && entry.fds[2] == Descriptor(entry.file2, inheritable2)
      ensures flow == Done ==> leaked == {} && BothSilent(fates, Bytes(out), Bytes(err) + Outbursts(fates))
      ensures kernel.Faultless() && old(Pristine()) ==>
        leaked == {} && flow == if BothSilent(fates, Bytes(out), Bytes(err) + Outbursts(fates)) then Done else Raised
    {
      hide *;
      PendingMeans();
      a := WriteAll(out, err);
      PendingMeans();
      flow := Close();
      StateMeans();
      if flow == Done {
        SilentDown(fates, Bytes(out), Bytes(err) + Outbursts(fates), kernel.Received(PipeOf(Stdout)), kernel.Received(PipeOf(Stderr)));
      }
      return;
    }

    /** The part of a call after a successful install. */
    method FinishCall(out: Output, err: Output) returns (flow: Flow, ghost left: set<nat>)
      requires phase == Installed && Installing()
      modifies this, kernel
      ensures flow != Exited ==> Intact(old(entry.fds), kernel.fds, left)
      ensures |left| <= 8
      ensures flow != Exited ==> old(Saved()).Some? && BackTo(old(Saved()).value, kernel.Globals())
      ensures flow == Done ==> kernel.fds == old(entry.fds) && BothSilent(fates, Bytes(out), Bytes(err) + Outbursts(fates))
      ensures kernel.Faultless() && old(Pristine()) ==>
        kernel.fds == old(entry.fds) && flow == if BothSilent(fates, Bytes(out), Bytes(err) + Outbursts(fates)) then Done else Raised
    {
      hide *;
      ghost var a;
      flow, a := WriteAndClose(out, err);
      if flow == Exited {
        return flow, {};
      }
      SavedMeans();
      ClosedIntact(a, Descriptor(entry.file1, inheritable1), Descriptor(entry.file2, inheritable2));
      left := leaked;
      return;
    }
  }

  /** One provider call under a capture: install, the provider's writes to descriptors 1
      and 2, close. Whatever fails, unless the process ends the descriptor table is the
      one before plus at most eight descriptors left behind, as many as a capture creates,
      and the globals are back. A normal return
      leaves nothing behind, and bytes that reached a pipe can then only have been lost
      to a drainer that died of its selector before it read any. When no call fails the
      table is exactly restored and the call raises exactly if some drainer is not
      silent about its pipe; reports of dying drainers belong to the stderr pipe. */
  method CaptureCall(kernel: Kernel, fates: Stream -> Fate, endsLate: Stream -> bool, out: Output, err: Output)
    returns (flow: Flow, ghost left: set<nat>)
    requires kernel.Valid()
    modifies kernel
    ensures flow != Exited ==> Intact(old(kernel.fds), kernel.fds, left)
    ensures |left| <= 8
    ensures flow != Exited ==> BackTo(old(kernel.Globals()), kernel.Globals())
    ensures flow == Done ==> kernel.fds == old(kernel.fds)
    ensures flow == Done && Bytes(out) > 0 ==> DiesUnread(fates(Stdout))
    ensures flow == Done && Bytes(err) + Outbursts(fates) > 0 ==> DiesUnread(fates(Stderr))
    ensures kernel.Faultless() && 1 in old(kernel.fds) && 2 in old(kernel.fds) && !old(kernel.logActive) ==>
      kernel.fds == old(kernel.fds) && flow == if BothSilent(fates, Bytes(out), Bytes(err) + Outbursts(fates)) then Done else Raised
  {
    hide *;
    SilenceMeans(fates, Bytes(out), Bytes(err) + Outbursts(fates));
    var capture := new Capture(kernel, fates, endsLate);
    capture.FreshMeans();
    left := {};
    flow := capture.Install();
    if flow != Done {
      if flow == Raised {
        left := capture.UndoneMeans(old(kernel.fds), old(kernel.Globals()));
      }
      return;
    }
    flow, left := capture.FinishCall(out, err);
    return;
  }

  /** A process whose calls all work, with descriptors 1 and 2 open. */
  method FaultlessKernel() returns (kernel: Kernel)
    ensures fresh(kernel) && kernel.Valid() && kernel.Faultless() && !kernel.logActive
    ensures 1 in kernel.fds && 2 in kernel.fds
  {
    kernel := new Kernel(_ => Works);
    kernel.fds, kernel.files := map[1 := Descriptor(0, true), 2 := Descriptor(1, true)], 2;
  }

  /** Complete calls in which nothing fails but the selector of one drainer, before its
      first read, and the provider writes to that drainer's stream only. The bytes are
      lost and the call returns normally, unless it was the stdout drainer and its
      report reached the stderr pipe. */
  method DeadDrainerCall(s: Stream, bytes: Output, report: Report) returns (flow: Flow)
    ensures flow == if s == Stdout && report.IntoPipe? then Raised else Done
  {
    hide *;
    var kernel := FaultlessKernel();
    var fates := t => if t == s then SelectorFails(0, report) else ReachesEnd;
    var out, err := if s == Stdout then bytes else Output(0, 0), if s == Stderr then bytes else Output(0, 0);
    NoBytes();
    DeadIsSilent(fates, s, report, Bytes(out), Bytes(err));
    ghost var left;
    flow, left := CaptureCall(kernel, fates, _ => false, out, err);
  }
}
