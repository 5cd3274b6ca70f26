/** What a provider capture may do to the descriptor table, as relations on values:
    giving descriptors up, restoring 1 and 2, joining the drainers, and the verdict. */
module IoTable {
  import opened IoKernel
  import opened Numbers

  /** The attributes that hold descriptors the capture created. */
  datatype Slot =
    | Saved1Primary | Saved1Emergency | Saved2Primary | Saved2Emergency
    | OutRead | OutWrite | ErrRead | ErrWrite

  /** The course of a drainer thread until it is joined: it polls until the pipe has no
      writer left and is empty, it stops early at a failing read, it dies of a selector
      call that raises, or it is too slow. */
  datatype Fate = ReachesEnd | ReadFails(read: nat) | SelectorFails(read: nat, report: Report) | Lags(read: nat)

  datatype Joined = Joined(read: nat, ended: bool, marked: bool)

  /** A drainer joined with `pending` bytes written and the write end held or not. */
  function Course(fate: Fate, pending: nat, held: bool): Joined {
    match fate
    case ReachesEnd => Joined(pending, !held, false)
    case ReadFails(n) => Joined(Min(n, pending), true, true)
    case SelectorFails(n, _) => Joined(Min(n, pending), true, false)
    case Lags(n) => Joined(Min(n, pending), false, false)
  }

  /** What the loop of a drainer on this course meets. */
  function EventsOf(fate: Fate, pending: nat, held: bool): seq<Event> {
    match fate
    case ReachesEnd => [Chunk(pending), if held then WouldBlock else EndOfFile]
    case ReadFails(n) => [Chunk(Min(n, pending)), ReadError]
    case SelectorFails(n, report) => [Chunk(Min(n, pending)), SelectorError(report)]
    case Lags(n) => [Chunk(Min(n, pending))]
  }

  /** The course that a sequence of events amounts to. */
  function FateOf(events: seq<Event>): Fate {
    match EndingOf(events)
    case AtEnd => ReachesEnd
    case AfterReadError => ReadFails(BytesRead(events))
    case AfterSelectorError(report) => SelectorFails(BytesRead(events), report)
    case Polling => Lags(BytesRead(events))
  }

  /** What a loop over these events leaves to be joined. */
  function LoopResult(events: seq<Event>): Joined {
    Joined(BytesRead(events), EndingOf(events) != Polling, EndingOf(events) == AfterReadError)
  }

  /** Every loop is one of the courses: reading no more than was written, and everything
      if it met the end of the pipe, it is joined with what it counted and marked. */
  lemma LoopHasCourse(events: seq<Event>, pending: nat)
    requires BytesRead(events) <= pending && (EndingOf(events) == AtEnd ==> BytesRead(events) == pending)
    ensures Course(FateOf(events), pending, EndingOf(events) != AtEnd) == LoopResult(events)
  {
  }

  /** Every course is that of such a loop. */
  lemma CourseHasLoop(fate: Fate, pending: nat, held: bool)
    ensures var events := EventsOf(fate, pending, held);
      && LoopResult(events) == Course(fate, pending, held)
      && BytesRead(events) <= pending && (EndingOf(events) == AtEnd ==> BytesRead(events) == pending && !held)
  {
    match fate
    case ReachesEnd => ChunkThen(pending, if held then WouldBlock else EndOfFile);
    case ReadFails(n) => ChunkThen(Min(n, pending), ReadError);
    case SelectorFails(n, report) => ChunkThen(Min(n, pending), SelectorError(report));
    case Lags(n) =>
      assert [Chunk(Min(n, pending))][1..] == [];
      assert EndingOf([]) == Polling && BytesRead([]) == 0;
  }

  lemma ChunkThen(size: nat, e: Event)
    requires !e.Chunk?
    ensures BytesRead([Chunk(size), e]) == size
    ensures EndingOf([Chunk(size), e]) == EndingOf([e])
    ensures e.WouldBlock? ==> EndingOf([e]) == Polling
  {
    assert [e][1..] == [];
    assert BytesRead([e]) == BytesRead([]) == 0;
    assert [Chunk(size), e][1..] == [e];
  }

  /** Bytes that the report of a dying drainer adds to the stderr pipe. */
  function Outburst(fate: Fate): nat {
    if fate.SelectorFails? && fate.report.IntoPipe? then fate.report.size else 0
  }

  /** Both reports go to one place, descriptor 2. */
  ghost function Outbursts(fates: Stream -> Fate): nat {
    Outburst(fates(Stdout)) + Outburst(fates(Stderr))
  }

  /** A drainer on this course leaves no trace of the bytes written to its pipe. */
  predicate Silent(fate: Fate, pending: nat) {
    match fate
    case ReachesEnd => pending == 0
    case SelectorFails(n, _) => n == 0 || pending == 0
    case ReadFails(_) => false
    case Lags(_) => false
  }

  /** The drainer died of its selector before it had read anything. */
  predicate DiesUnread(fate: Fate) {
    fate.SelectorFails? && fate.read == 0
  }

  /** A join that leaves neither a count, nor a timeout, nor a mark. */
  predicate Traceless(c: Joined) {
    c.read == 0 && c.ended && !c.marked
  }

  lemma TracelessIsSilent(fate: Fate, pending: nat, held: bool)
    ensures Traceless(Course(fate, pending, held)) ==> Silent(fate, pending)
    ensures !held ==> (Traceless(Course(fate, pending, held)) <==> Silent(fate, pending))
  {
  }

  datatype StreamLog = StreamLog(bytes: nat, overflow: bool, timedOut: bool, alive: bool)

  function Target(slot: Slot): nat
    requires slot in SAVED
  {
    if slot == Saved1Primary || slot == Saved1Emergency then 1 else 2
  }

  function ReadSlot(s: Stream): Slot { if s == Stdout then OutRead else ErrRead }
  function WriteSlot(s: Stream): Slot { if s == Stdout then OutWrite else ErrWrite }

  const SAVED: set<Slot> := {Saved1Primary, Saved1Emergency, Saved2Primary, Saved2Emergency}
  const CLOSED_FIRST: seq<Slot> := [Saved1Primary, Saved1Emergency, Saved2Primary, Saved2Emergency, OutWrite, ErrWrite]
  const ALL_SLOTS: seq<Slot> := [Saved1Primary, Saved1Emergency, Saved2Primary, Saved2Emergency, OutRead, OutWrite, ErrRead, ErrWrite]

  /** The part of the state that closing descriptors touches. */
  datatype Snapshot = Snapshot(slots: map<Slot, nat>, owned: set<nat>, leaked: set<nat>, fds: map<nat, Descriptor>)

  /** From `a` to `b` only owned descriptors were closed or leaked; whatever is still
      owned, and everything else, is untouched. */
  ghost predicate Shed(a: Snapshot, b: Snapshot) {
    && b.slots.Keys <= a.slots.Keys
    && (forall s :: s in b.slots ==> b.slots[s] == a.slots[s])
    && b.owned <= a.owned
    && a.leaked <= b.leaked <= a.leaked + (a.owned - b.owned)
    && b.fds == a.fds - ((a.owned - b.owned) - b.leaked)
  }

  /** The bookkeeping agrees with the descriptor table. */
  ghost predicate Consistent(x: Snapshot) {
    && x.owned == x.slots.Values
    && (forall s, t :: s in x.slots && t in x.slots && s != t ==> x.slots[s] != x.slots[t])
    && x.owned <= x.fds.Keys
    && 1 !in x.owned && 2 !in x.owned
    && x.owned !! x.leaked
    && 1 !in x.leaked && 2 !in x.leaked
  }

  /** Giving up one slot, with a close that works or fails. */
  ghost function GiveUp(x: Snapshot, slot: Slot, ok: bool): Snapshot {
    if slot !in x.slots then x
    else
      var fd := x.slots[slot];
      Snapshot(x.slots - {slot}, x.owned - {fd}, if ok then x.leaked else x.leaked + {fd},
               if ok then x.fds - {fd} else x.fds)
  }

  lemma GiveUpValues(x: Snapshot, slot: Slot)
    requires x.owned == x.slots.Values && slot in x.slots
    requires forall s, t :: s in x.slots && t in x.slots && s != t ==> x.slots[s] != x.slots[t]
    ensures (x.slots - {slot}).Values == x.owned - {x.slots[slot]}
  {
    var rest, fd := x.slots - {slot}, x.slots[slot];
    forall v ensures v in rest.Values <==> v in x.owned - {fd} {
      if v in x.owned - {fd} {
        var s :| s in x.slots && x.slots[s] == v;
        assert s in rest && rest[s] == v;
      }
      if v in rest.Values {
        var s :| s in rest && rest[s] == v;
        assert s in x.slots && x.slots[s] == v;
      }
    }
  }

  lemma GiveUpIsShed(x: Snapshot, slot: Slot, ok: bool)
    requires Consistent(x)
    ensures Consistent(GiveUp(x, slot, ok)) && Shed(x, GiveUp(x, slot, ok))
  {
    if slot in x.slots {
      GiveUpValues(x, slot);
      assert x.slots[slot] in x.owned;
    }
  }

  /** Saved descriptors name the original open files. */
  ghost predicate Backed(x: Snapshot, file1: nat, file2: nat) {
    forall s :: s in x.slots && s in SAVED && x.slots[s] in x.fds ==>
      x.fds[x.slots[s]].file == if Target(s) == 1 then file1 else file2
  }

  /** Two descriptor tables that differ at most in the entries of 1 and 2. */
  ghost predicate DiffersAtStdio(a: map<nat, Descriptor>, b: map<nat, Descriptor>) {
    && a.Keys - {1, 2} == b.Keys - {1, 2}
    && forall fd :: fd in a && fd in b && fd != 1 && fd != 2 ==> b[fd] == a[fd]
  }

  /** Descriptors 1 and 2 are back, the rest of the table is as it was. */
  ghost predicate Back(a: map<nat, Descriptor>, b: map<nat, Descriptor>, one: Descriptor, two: Descriptor) {
    DiffersAtStdio(a, b) && 1 in b && 2 in b && b[1] == one && b[2] == two
  }

  lemma BackKeeps(x: Snapshot, fds: map<nat, Descriptor>, one: Descriptor, two: Descriptor)
    requires Consistent(x) && Back(x.fds, fds, one, two)
    ensures Consistent(x.(fds := fds))
  {
    forall v | v in x.owned ensures v in fds.Keys {
      assert v in x.fds.Keys - {1, 2};
    }
  }

  lemma DiffersAtBoth(a: map<nat, Descriptor>, b: map<nat, Descriptor>, c: map<nat, Descriptor>)
    requires DiffersAt(a, b, 1) && DiffersAt(b, c, 2)
    ensures DiffersAtStdio(a, c)
    ensures 1 in b ==> 1 in c && c[1] == b[1]
  {
    forall fd | fd != 1 && fd != 2 ensures fd in a <==> fd in c {
      assert fd in a.Keys - {1} <==> fd in b.Keys - {1};
      assert fd in b.Keys - {2} <==> fd in c.Keys - {2};
    }
    forall fd | fd in a && fd in c && fd != 1 && fd != 2 ensures c[fd] == a[fd] {
      assert fd in b.Keys - {1};
    }
    assert 1 in b.Keys - {2} <==> 1 in c.Keys - {2};
  }

  /** What restoring a target may do to the rest of the state: nothing. */
  lemma TargetChangeKeeps(x: Snapshot, fds: map<nat, Descriptor>, target: nat, file1: nat, file2: nat)
    requires Consistent(x) && Backed(x, file1, file2) && target in {1, 2} && DiffersAt(x.fds, fds, target)
    ensures Consistent(x.(fds := fds)) && Backed(x.(fds := fds), file1, file2)
  {
    forall v | v in x.owned ensures v in fds.Keys {
      assert v in x.fds.Keys - {target};
    }
    forall s | s in x.slots && s in SAVED ensures x.slots[s] in x.owned && x.slots[s] in fds && fds[x.slots[s]] == x.fds[x.slots[s]] {
      assert x.slots[s] in x.owned;
      assert x.slots[s] in fds.Keys - {target};
    }
  }

  /** Joining a drainer gives up its read end when it had to be stopped. */
  ghost function JoinStep(x: Snapshot, slot: Slot, c: Joined, ok: bool): Snapshot {
    if c.ended then x else GiveUp(x, slot, ok)
  }

  lemma JoinStepIsShed(x: Snapshot, slot: Slot, c: Joined, ok: bool)
    requires Consistent(x)
    ensures Consistent(JoinStep(x, slot, c, ok)) && Shed(x, JoinStep(x, slot, c, ok))
    ensures x.slots.Keys - {slot} <= JoinStep(x, slot, c, ok).slots.Keys
  {
    GiveUpIsShed(x, slot, ok);
  }

  /** Two joins and two closes leave nothing owned. */
  ghost function FinishAll(x: Snapshot, c: Joined, ok: bool, d: Joined, ok2: bool, oks: seq<bool>): Snapshot {
    GiveUpAll(JoinStep(JoinStep(x, OutRead, c, ok), ErrRead, d, ok2), [OutRead, ErrRead], oks)
  }

  lemma JoinsAreShed(x: Snapshot, c: Joined, ok: bool, d: Joined, ok2: bool)
    requires Consistent(x)
    ensures var y := JoinStep(JoinStep(x, OutRead, c, ok), ErrRead, d, ok2);
      Consistent(y) && Shed(x, y) && y.slots.Keys <= x.slots.Keys
    ensures Shed(x, JoinStep(x, OutRead, c, ok))
  {
    var y := JoinStep(x, OutRead, c, ok);
    JoinStepIsShed(x, OutRead, c, ok);
    JoinStepIsShed(y, ErrRead, d, ok2);
    ShedTransitive(x, y, JoinStep(y, ErrRead, d, ok2));
  }

  lemma ReadEndsGone(x: Snapshot, y: Snapshot, oks: seq<bool>)
    requires Consistent(x) && x.slots.Keys == {OutRead, ErrRead} && |oks| == 2
    requires Consistent(y) && Shed(x, y)
    ensures var z := GiveUpAll(y, [OutRead, ErrRead], oks);
      Consistent(z) && Shed(x, z) && z.slots == map[]
  {
    var z := GiveUpAll(y, [OutRead, ErrRead], oks);
    GiveUpAllIsShed(y, [OutRead, ErrRead], oks);
    ShedTransitive(x, y, z);
    assert forall s :: s in z.slots ==> s in x.slots.Keys;
    assert z.slots.Keys == {};
  }

  lemma FinishAllIsShed(x: Snapshot, c: Joined, ok: bool, d: Joined, ok2: bool, oks: seq<bool>)
    requires Consistent(x) && x.slots.Keys == {OutRead, ErrRead} && |oks| == 2
    ensures var z := FinishAll(x, c, ok, d, ok2, oks); Consistent(z) && Shed(x, z) && z.slots == map[]
    ensures Shed(x, JoinStep(x, OutRead, c, ok))
  {
    JoinsAreShed(x, c, ok, d, ok2);
    ReadEndsGone(x, JoinStep(JoinStep(x, OutRead, c, ok), ErrRead, d, ok2), oks);
  }

  /** A descriptor is leaked at the end only when a close failed. */
  lemma FinishLeak(x: Snapshot, c: Joined, ok: bool, d: Joined, ok2: bool, oks: seq<bool>)
    requires Consistent(x) && |oks| == 2 && AllTrue(oks) && (c.ended || ok) && (d.ended || ok2)
    ensures FinishAll(x, c, ok, d, ok2, oks).leaked == x.leaked
  {
    var y := JoinStep(JoinStep(x, OutRead, c, ok), ErrRead, d, ok2);
    JoinsAreShed(x, c, ok, d, ok2);
    GiveUpAllIsShed(y, [OutRead, ErrRead], oks);
  }

  lemma ShedReleases(a: Snapshot, b: Snapshot, file: nat)
    requires Shed(a, b) && !Held(a.fds, file)
    ensures !Held(b.fds, file)
  {
  }

  lemma ShedTransitive(a: Snapshot, b: Snapshot, c: Snapshot)
    requires Shed(a, b) && Shed(b, c) && a.owned !! a.leaked && b.owned !! b.leaked
    ensures Shed(a, c)
  {
    forall fd | fd in a.fds
      ensures fd in c.fds <==> fd !in (a.owned - c.owned) - c.leaked
    {
      assert fd in b.fds <==> fd !in (a.owned - b.owned) - b.leaked;
      assert fd in b.fds ==> (fd in c.fds <==> fd !in (b.owned - c.owned) - c.leaked);
    }
  }

  /** Two descriptor tables that differ at most in one entry. */
  ghost predicate DiffersAt(a: map<nat, Descriptor>, b: map<nat, Descriptor>, target: nat) {
    && a.Keys - {target} == b.Keys - {target}
    && forall fd :: fd in a && fd in b && fd != target ==> b[fd] == a[fd]
  }

  /** Giving up slots one after another; `oks` says which closes work. */
  ghost function GiveUpAll(x: Snapshot, names: seq<Slot>, oks: seq<bool>): Snapshot {
    if names == [] || |oks| != |names| then x
    else
      var n := |names| - 1;
      GiveUp(GiveUpAll(x, names[..n], oks[..n]), names[n], oks[n])
  }

  ghost predicate AllTrue(oks: seq<bool>) {
    forall i :: 0 <= i < |oks| ==> oks[i]
  }

  lemma {:induction false} GiveUpAllIsShed(x: Snapshot, names: seq<Slot>, oks: seq<bool>)
    requires Consistent(x) && |names| == |oks|
    ensures Consistent(GiveUpAll(x, names, oks)) && Shed(x, GiveUpAll(x, names, oks))
    ensures forall s :: s in GiveUpAll(x, names, oks).slots <==> s in x.slots && s !in names
    ensures AllTrue(oks) ==> GiveUpAll(x, names, oks).leaked == x.leaked
  {
    if names != [] {
      var n := |names| - 1;
      var y := GiveUpAll(x, names[..n], oks[..n]);
      GiveUpAllIsShed(x, names[..n], oks[..n]);
      GiveUpIsShed(y, names[n], oks[n]);
      ShedTransitive(x, y, GiveUp(y, names[n], oks[n]));
      assert names == names[..n] + [names[n]];
    }
  }

  lemma DiffersRefl(a: map<nat, Descriptor>, target: nat)
    ensures DiffersAt(a, a, target)
  {
  }

  lemma DiffersTransitive(a: map<nat, Descriptor>, b: map<nat, Descriptor>, c: map<nat, Descriptor>, target: nat)
    requires DiffersAt(a, b, target) && DiffersAt(b, c, target)
    ensures DiffersAt(a, c, target)
  {
    forall fd | fd in a && fd in c && fd != target ensures c[fd] == a[fd] {
      assert fd in b.Keys - {target};
    }
  }

  // ----- what close amounts to -----

  /** Descriptors 1 and 2 are back, nothing is owned any more, and apart from leaked
      descriptors the table is what it was without the owned ones. */
  ghost predicate Restored(a: Snapshot, z: Snapshot, one: Descriptor, two: Descriptor) {
    && z.slots == map[] && z.owned == {}
    && a.leaked <= z.leaked <= a.leaked + a.owned
    && z.fds.Keys == (a.fds.Keys - (a.owned - z.leaked)) + {1, 2}
    && z.fds[1] == one && z.fds[2] == two
    && forall fd :: fd in z.fds && fd != 1 && fd != 2 ==> fd in a.fds && z.fds[fd] == a.fds[fd]
  }

  /** What a closed capture leaves it had created. */
  lemma LeftOfOwned(a: Snapshot, z: Snapshot, one: Descriptor, two: Descriptor, lost: set<nat>)
    requires Restored(a, z, one, two)
    ensures |z.leaked| <= Total(a.owned, a.leaked, lost)
  {
    NoMore(a.owned + a.leaked + lost, z.leaked);
  }

  /** After restoring the two targets, closing and joining give `Restored`. */
  lemma ShedRestores(a: Snapshot, fds: map<nat, Descriptor>, z: Snapshot, one: Descriptor, two: Descriptor)
    requires Consistent(a) && Back(a.fds, fds, one, two)
    requires Shed(a.(fds := fds), z) && Consistent(z) && z.slots == map[]
    ensures Restored(a, z, one, two)
  {
    assert z.owned == {};
    forall fd ensures fd in z.fds <==> fd in (a.fds.Keys - (a.owned - z.leaked)) + {1, 2} {
      if fd != 1 && fd != 2 {
        assert fd in a.fds.Keys - {1, 2} <==> fd in fds.Keys - {1, 2};
      }
    }
    forall fd | fd in z.fds && fd != 1 && fd != 2 ensures fd in a.fds && z.fds[fd] == a.fds[fd] {
      assert fd in fds.Keys - {1, 2};
    }
  }

  lemma ReadEndsRemain()
    ensures forall s: Slot :: s in SAVED + {OutRead, ErrRead} && s !in CLOSED_FIRST <==> s in {OutRead, ErrRead}
  {
  }

  lemma ClosedFirst(x: Snapshot, oks: seq<bool>)
    requires Consistent(x) && x.slots.Keys == SAVED + {OutRead, ErrRead} && |oks| == |CLOSED_FIRST|
    ensures var y := GiveUpAll(x, CLOSED_FIRST, oks);
      Consistent(y) && Shed(x, y) && y.slots.Keys == {OutRead, ErrRead}
    ensures AllTrue(oks) ==> GiveUpAll(x, CLOSED_FIRST, oks).leaked == x.leaked
  {
    hide Consistent, Shed, GiveUpAll;
    GiveUpAllIsShed(x, CLOSED_FIRST, oks);
    ReadEndsRemain();
    var y := GiveUpAll(x, CLOSED_FIRST, oks);
    forall s ensures s in y.slots.Keys <==> s in {OutRead, ErrRead} {
      assert s in y.slots <==> s in x.slots && s !in CLOSED_FIRST;
    }
  }

  /** Everything close does to the table after the targets are restored. */
  lemma CloseShed(x: Snapshot, oks: seq<bool>, c: Joined, ok: bool, d: Joined, ok2: bool, oks2: seq<bool>)
    requires Consistent(x) && x.slots.Keys == SAVED + {OutRead, ErrRead} && |oks| == |CLOSED_FIRST| && |oks2| == 2
    ensures var z := FinishAll(GiveUpAll(x, CLOSED_FIRST, oks), c, ok, d, ok2, oks2);
      Consistent(z) && Shed(x, z) && z.slots == map[]
  {
    var y := GiveUpAll(x, CLOSED_FIRST, oks);
    ClosedFirst(x, oks);
    FinishAllIsShed(y, c, ok, d, ok2, oks2);
    ShedTransitive(x, y, FinishAll(y, c, ok, d, ok2, oks2));
  }

  /** A pipe nobody can write to any more once descriptors 1 and 2 are back. */
  lemma PipesReleased(a: Snapshot, fds: map<nat, Descriptor>, z: Snapshot, one: Descriptor, two: Descriptor, pipe: nat)
    requires Back(a.fds, fds, one, two)
    requires Shed(a.(fds := fds), z) && pipe != one.file && pipe != two.file
    requires OnlyStdio(a.fds, pipe)
    ensures !Held(z.fds, pipe)
  {
    forall fd | fd in z.fds ensures z.fds[fd].file != pipe {
      if fd != 1 && fd != 2 {
        assert fd in fds.Keys - {1, 2};
      }
    }
  }

  /** Only descriptors 1 and 2 name this open file. */
  ghost predicate OnlyStdio(fds: map<nat, Descriptor>, file: nat) {
    forall fd :: fd in fds && fds[fd].file == file ==> fd == 1 || fd == 2
  }

  /** Descriptor 1 or 2 names this open file. */
  ghost predicate Behind(fds: map<nat, Descriptor>, file: nat) {
    (1 in fds && fds[1].file == file) || (2 in fds && fds[2].file == file)
  }

  /** The closes and joins that follow, from the state right after the targets are back. */
  datatype Ending = Ending(restored: map<nat, Descriptor>, oks: seq<bool>, c: Joined, d: Joined,
                           ok: bool, ok2: bool, oks2: seq<bool>)

  ghost function AfterCloses(a: Snapshot, e: Ending): Snapshot {
    GiveUpAll(a.(fds := e.restored), CLOSED_FIRST, e.oks)
  }

  ghost function AtTheEnd(a: Snapshot, e: Ending): Snapshot {
    FinishAll(AfterCloses(a, e), e.c, e.ok, e.d, e.ok2, e.oks2)
  }

  /** The two joins, given how much had been written to each pipe. */
  ghost predicate JoinedAs(a: Snapshot, e: Ending, fates: Stream -> Fate, pipe1: nat, pending1: nat, pipe2: nat, pending2: nat) {
    && e.c == Course(fates(Stdout), pending1, Held(AfterCloses(a, e).fds, pipe1))
    && e.d == Course(fates(Stderr), pending2, Held(JoinStep(AfterCloses(a, e), OutRead, e.c, e.ok).fds, pipe2))
  }

  lemma EndIsRestored(a: Snapshot, e: Ending, one: Descriptor, two: Descriptor)
    requires Consistent(a) && a.slots.Keys == SAVED + {OutRead, ErrRead} && Back(a.fds, e.restored, one, two)
    requires |e.oks| == |CLOSED_FIRST| && |e.oks2| == 2
    ensures Restored(a, AtTheEnd(a, e), one, two)
    ensures AllTrue(e.oks) && AllTrue(e.oks2) && (e.c.ended || e.ok) && (e.d.ended || e.ok2) ==>
      AtTheEnd(a, e).leaked == a.leaked
  {
    var x := a.(fds := e.restored);
    BackKeeps(a, e.restored, one, two);
    CloseShed(x, e.oks, e.c, e.ok, e.d, e.ok2, e.oks2);
    ShedRestores(a, e.restored, AtTheEnd(a, e), one, two);
    ClosedFirst(x, e.oks);
    if AllTrue(e.oks2) && (e.c.ended || e.ok) && (e.d.ended || e.ok2) {
      FinishLeak(AfterCloses(a, e), e.c, e.ok, e.d, e.ok2, e.oks2);
    }
  }

  /** Both joins leave no trace only if both drainers are silent; and then too, if
      nobody else can still write. */
  lemma EndSilence(a: Snapshot, e: Ending, one: Descriptor, two: Descriptor, fates: Stream -> Fate,
                   pipe1: nat, pending1: nat, pipe2: nat, pending2: nat)
    requires Consistent(a) && a.slots.Keys == SAVED + {OutRead, ErrRead} && Back(a.fds, e.restored, one, two)
    requires |e.oks| == |CLOSED_FIRST|
    requires JoinedAs(a, e, fates, pipe1, pending1, pipe2, pending2)
    ensures Traceless(e.c) ==> Silent(fates(Stdout), pending1)
    ensures Traceless(e.d) ==> Silent(fates(Stderr), pending2)
    ensures OnlyStdio(a.fds, pipe1) && OnlyStdio(a.fds, pipe2) && {one.file, two.file} !! {pipe1, pipe2} ==>
      (Traceless(e.c) <==> Silent(fates(Stdout), pending1)) && (Traceless(e.d) <==> Silent(fates(Stderr), pending2))
  {
    var x, y := a.(fds := e.restored), AfterCloses(a, e);
    var m := JoinStep(y, OutRead, e.c, e.ok);
    BackKeeps(a, e.restored, one, two);
    ClosedFirst(x, e.oks);
    JoinStepIsShed(y, OutRead, e.c, e.ok);
    TracelessIsSilent(fates(Stdout), pending1, Held(y.fds, pipe1));
    TracelessIsSilent(fates(Stderr), pending2, Held(m.fds, pipe2));
    if OnlyStdio(a.fds, pipe1) && OnlyStdio(a.fds, pipe2) && {one.file, two.file} !! {pipe1, pipe2} {
      assert one.file != pipe1 && one.file != pipe2 && two.file != pipe1 && two.file != pipe2;
      PipesReleased(a, e.restored, y, one, two, pipe1);
      PipesReleased(a, e.restored, y, one, two, pipe2);
      ShedReleases(y, m, pipe2);
    }
  }

  /** Everything between the flush and the verdict, as one relation. */
  ghost predicate Ended(a: Snapshot, z: Snapshot, e: Ending, one: Descriptor, two: Descriptor, fates: Stream -> Fate,
                        pipe1: nat, pending1: nat, pipe2: nat, pending2: nat) {
    && Back(a.fds, e.restored, one, two)
    && |e.oks| == |CLOSED_FIRST| && |e.oks2| == 2 && z == AtTheEnd(a, e)
    && JoinedAs(a, e, fates, pipe1, pending1, pipe2, pending2)
  }

  /** No close failed and both drainers came to an end without an error mark. */
  ghost predicate Smooth(e: Ending) {
    AllTrue(e.oks) && AllTrue(e.oks2) && e.c.ended && !e.c.marked && e.d.ended && !e.d.marked
  }

  lemma EndedFrom(a: Snapshot, m: Snapshot, z: Snapshot, e: Ending, one: Descriptor, two: Descriptor, fates: Stream -> Fate,
                  pipe1: nat, pending1: nat, pipe2: nat, pending2: nat, log: map<Stream, StreamLog>, endsLate: Stream -> bool)
    requires Back(a.fds, e.restored, one, two)
    requires |e.oks| == |CLOSED_FIRST| && m == GiveUpAll(a.(fds := e.restored), CLOSED_FIRST, e.oks)
    requires |e.oks2| == 2 && z == FinishAll(m, e.c, e.ok, e.d, e.ok2, e.oks2)
    requires e.c == Course(fates(Stdout), pending1, Held(m.fds, pipe1))
    requires e.d == Course(fates(Stderr), pending2, Held(JoinStep(m, OutRead, e.c, e.ok).fds, pipe2))
    requires log == map[Stdout := LogOf(e.c, endsLate(Stdout)), Stderr := LogOf(e.d, endsLate(Stderr))]
    ensures Ended(a, z, e, one, two, fates, pipe1, pending1, pipe2, pending2)
    ensures log == LogFor(e, endsLate)
    ensures NothingFailed(e) <==> AllTrue(e.oks) && AllTrue(e.oks2) && e.ok && e.ok2
    ensures Smooth(e) <==> AllTrue(e.oks) && AllTrue(e.oks2) && e.c.ended && !e.c.marked && e.d.ended && !e.d.marked
    ensures Traceless(e.c) ==> e.c.ended && !e.c.marked
    ensures Traceless(e.d) ==> e.d.ended && !e.d.marked
  {
  }

  ghost predicate NothingFailed(e: Ending) {
    AllTrue(e.oks) && AllTrue(e.oks2) && e.ok && e.ok2
  }

  /** The verdict of close on a drainer log and the state of the error record. */
  predicate Violated(log: map<Stream, StreamLog>, owned: set<nat>, clean: bool) {
    || !clean || owned != {}
    || exists s :: s in log && (log[s].bytes > 0 || log[s].overflow || log[s].timedOut || log[s].alive)
  }

  ghost predicate BothSilent(fates: Stream -> Fate, pending1: nat, pending2: nat) {
    Silent(fates(Stdout), pending1) && Silent(fates(Stderr), pending2)
  }

  function LogOf(c: Joined, late: bool): StreamLog {
    StreamLog(Counted(c.read), c.read > MAX_CAPTURE, !c.ended, !c.ended && !late)
  }

  function LogFor(e: Ending, endsLate: Stream -> bool): map<Stream, StreamLog> {
    map[Stdout := LogOf(e.c, endsLate(Stdout)), Stderr := LogOf(e.d, endsLate(Stderr))]
  }

  /** The verdict is clean exactly when the closes and joins were smooth, left no count,
      and nothing else had gone on record. */
  lemma VerdictExact(e: Ending, endsLate: Stream -> bool, clean: bool)
    ensures Violated(LogFor(e, endsLate), {}, clean) <==> !clean || !e.c.ended || !e.d.ended || e.c.read > 0 || e.d.read > 0
  {
    var log := LogFor(e, endsLate);
    assert Stdout in log && Stderr in log;
  }

  lemma EndVerdict(a: Snapshot, z: Snapshot, e: Ending, one: Descriptor, two: Descriptor, fates: Stream -> Fate,
                pipe1: nat, pending1: nat, pipe2: nat, pending2: nat, endsLate: Stream -> bool, clean: bool)
    requires Consistent(a) && a.slots.Keys == SAVED + {OutRead, ErrRead}
    requires Ended(a, z, e, one, two, fates, pipe1, pending1, pipe2, pending2)
    requires clean ==> Smooth(e)
    ensures Restored(a, z, one, two)
    ensures NothingFailed(e) ==> z.leaked == a.leaked
    ensures !Violated(LogFor(e, endsLate), z.owned, clean) ==>
      clean && z.leaked == a.leaked && BothSilent(fates, pending1, pending2)
    ensures OnlyStdio(a.fds, pipe1) && OnlyStdio(a.fds, pipe2) && {one.file, two.file} !! {pipe1, pipe2}
            && (Traceless(e.c) && Traceless(e.d) ==> clean) ==>
      (Violated(LogFor(e, endsLate), z.owned, clean) <==> !BothSilent(fates, pending1, pending2))
  {
    EndIsRestored(a, e, one, two);
    EndSilence(a, e, one, two, fates, pipe1, pending1, pipe2, pending2);
    VerdictExact(e, endsLate, clean);
  }

  // ----- a capture under construction -----

  /** What install knows of the table it started from. */
  datatype Entry = Entry(fds: map<nat, Descriptor>, file1: nat, file2: nat, inheritable1: bool, inheritable2: bool)

  ghost predicate ValidEntry(entry: Entry) {
    && 1 in entry.fds && entry.fds[1] == Descriptor(entry.file1, entry.inheritable1)
    && 2 in entry.fds && entry.fds[2] == Descriptor(entry.file2, entry.inheritable2)
  }

  lemma EntryOf(fds: map<nat, Descriptor>)
    requires 1 in fds && 2 in fds
    ensures ValidEntry(Entry(fds, fds[1].file, fds[2].file, fds[1].inheritable, fds[2].inheritable))
  {
  }

  lemma BuildingDirect(entry: Entry, x: Snapshot, lost: set<nat>, target: nat)
    requires Building(entry, x, lost) && target in {1, 2} && PrimaryOf(target) !in x.slots
    ensures target in entry.fds && target in x.fds && x.fds[target] == entry.fds[target]
  {
  }

  /** Apart from 1 and 2 the table is the one install started from, plus descriptors the
      capture owns, leaked or lost. */
  ghost predicate OthersKept(entry: Entry, x: Snapshot, lost: set<nat>) {
    && entry.fds.Keys !! x.owned + x.leaked + lost
    && x.owned !! lost && x.leaked + lost <= x.fds.Keys
    && x.fds.Keys <= entry.fds.Keys + x.owned + x.leaked + lost
    && forall fd :: fd in entry.fds && fd != 1 && fd != 2 ==> fd in x.fds && x.fds[fd] == entry.fds[fd]
  }

  /** Between any two steps of install: a target that no longer is as it was has its
      original open file saved. */
  ghost predicate Building(entry: Entry, x: Snapshot, lost: set<nat>) {
    && ValidEntry(entry) && Consistent(x) && Backed(x, entry.file1, entry.file2) && OthersKept(entry, x, lost)
    && 1 in x.fds && (Saved1Primary !in x.slots ==> x.fds[1] == entry.fds[1])
    && 2 in x.fds && (Saved2Primary !in x.slots ==> x.fds[2] == entry.fds[2])
  }

  lemma NoMore(s: set<nat>, t: set<nat>)
    requires t <= s
    ensures |t| <= |s|
  {
    assert s == t + (s - t);
  }

  /** How many descriptors are owned, leaked or lost. */
  ghost function Total(owned: set<nat>, leaked: set<nat>, lost: set<nat>): nat {
    |owned + leaked + lost|
  }

  lemma OneMore(owned: set<nat>, leaked: set<nat>, lost: set<nat>, fd: nat)
    ensures Total(owned + {fd}, leaked, lost) <= Total(owned, leaked, lost) + 1
    ensures Total(owned, leaked, lost + {fd}) <= Total(owned, leaked, lost) + 1
  {
    var all := owned + leaked + lost;
    NoMore(all + {fd}, owned + {fd} + leaked + lost);
    NoMore(all + {fd}, owned + leaked + (lost + {fd}));
  }

  lemma TwoMore(owned: set<nat>, leaked: set<nat>, lost: set<nat>, r: nat, w: nat)
    ensures Total(owned + {r, w}, leaked, lost) <= Total(owned, leaked, lost) + 2
    ensures Total(owned, leaked, lost + {r, w}) <= Total(owned, leaked, lost) + 2
  {
    hide Total;
    OneMore(owned, leaked, lost, r);
    OneMore(owned + {r}, leaked, lost, w);
    OneMore(owned, leaked, lost + {r}, w);
    assert owned + {r} + {w} == owned + {r, w} && lost + {r} + {w} == lost + {r, w};
  }

  /** Closing creates no descriptor. */
  lemma ShedCounts(a: Snapshot, b: Snapshot, lost: set<nat>)
    requires Shed(a, b)
    ensures Total(b.owned, b.leaked, lost) <= Total(a.owned, a.leaked, lost)
  {
    NoMore(a.owned + a.leaked + lost, b.owned + b.leaked + lost);
  }

  /** The table install started from, plus descriptors left behind. */
  ghost predicate Intact(found: map<nat, Descriptor>, fds: map<nat, Descriptor>, left: set<nat>) {
    && found.Keys !! left
    && fds.Keys <= found.Keys + left
    && forall fd :: fd in found ==> fd in fds && fds[fd] == found[fd]
  }

  lemma IntactExactly(found: map<nat, Descriptor>, fds: map<nat, Descriptor>)
    ensures Intact(found, fds, {}) <==> fds == found
  {
  }

  lemma BuildingStarts(entry: Entry)
    requires ValidEntry(entry)
    ensures Building(entry, Snapshot(map[], {}, {}, entry.fds), {})
  {
    var none: map<Slot, nat> := map[];
    assert none.Values == {};
  }

  /** A descriptor the capture creates but fails to set up. */
  lemma LosingKeeps(entry: Entry, x: Snapshot, lost: set<nat>, fds: map<nat, Descriptor>, fd: nat)
    requires Building(entry, x, lost) && Grows(x.fds, fds, fd)
    ensures Building(entry, x.(fds := fds), lost + {fd})
  {
  }

  /** A table with one more descriptor. */
  ghost predicate Grows(a: map<nat, Descriptor>, b: map<nat, Descriptor>, fd: nat) {
    fd !in a && b.Keys == a.Keys + {fd} && forall k :: k in a ==> b[k] == a[k]
  }

  function WithSlot(x: Snapshot, fds: map<nat, Descriptor>, slot: Slot, fd: nat): Snapshot {
    Snapshot(x.slots[slot := fd], x.owned + {fd}, x.leaked, fds)
  }

  lemma ValuesWith(slots: map<Slot, nat>, slot: Slot, fd: nat)
    requires slot !in slots
    ensures slots[slot := fd].Values == slots.Values + {fd}
  {
    var more := slots[slot := fd];
    forall v | v in slots.Values + {fd} ensures v in more.Values {
      if v in slots.Values {
        var s :| s in slots && slots[s] == v;
        assert s in more && more[s] == v;
      } else {
        assert slot in more && more[slot] == v;
      }
    }
  }

  lemma WithSlotConsistent(x: Snapshot, fds: map<nat, Descriptor>, slot: Slot, fd: nat)
    requires Consistent(x) && Grows(x.fds, fds, fd) && fd !in x.leaked && slot !in x.slots && fd != 1 && fd != 2
    ensures Consistent(WithSlot(x, fds, slot, fd))
  {
    ValuesWith(x.slots, slot, fd);
    forall s | s in x.slots ensures x.slots[s] != fd {
      assert x.slots[s] in x.owned;
    }
  }

  lemma WithSlotBacked(x: Snapshot, fds: map<nat, Descriptor>, slot: Slot, fd: nat, file1: nat, file2: nat)
    requires Consistent(x) && Backed(x, file1, file2) && Grows(x.fds, fds, fd) && slot !in x.slots
    requires slot in SAVED ==> fds[fd].file == if Target(slot) == 1 then file1 else file2
    ensures Backed(WithSlot(x, fds, slot, fd), file1, file2)
  {
    forall s | s in x.slots ensures x.slots[s] in x.fds {
      assert x.slots[s] in x.owned;
    }
  }

  /** A descriptor the capture creates and keeps in a slot. */
  lemma AddingKeeps(entry: Entry, x: Snapshot, lost: set<nat>, fds: map<nat, Descriptor>, slot: Slot, fd: nat)
    requires Building(entry, x, lost) && Grows(x.fds, fds, fd) && slot !in x.slots
    requires slot in SAVED ==> fds[fd].file == if Target(slot) == 1 then entry.file1 else entry.file2
    ensures Building(entry, WithSlot(x, fds, slot, fd), lost)
  {
    WithSlotConsistent(x, fds, slot, fd);
    WithSlotBacked(x, fds, slot, fd, entry.file1, entry.file2);
    hide Consistent, Backed;
  }

  function PrimaryOf(target: nat): Slot { if target == 1 then Saved1Primary else Saved2Primary }

  /** Any change of entry 1 or 2 is fine once the original is saved. */
  lemma RedirectKeeps(entry: Entry, x: Snapshot, lost: set<nat>, fds: map<nat, Descriptor>, target: nat)
    requires Building(entry, x, lost) && target in {1, 2} && PrimaryOf(target) in x.slots
    requires target in fds && DiffersAt(x.fds, fds, target)
    ensures Building(entry, x.(fds := fds), lost)
  {
    TargetChangeKeeps(x, fds, target, entry.file1, entry.file2);
    hide Consistent, Backed;
    forall fd | fd != target ensures fd in fds <==> fd in x.fds {
      assert fd in x.fds.Keys - {target} <==> fd in fds.Keys - {target};
    }
    assert 1 in x.fds && 2 in x.fds;
  }

  lemma GiveUpKeepsBacked(x: Snapshot, slot: Slot, ok: bool, file1: nat, file2: nat)
    requires Consistent(x) && Backed(x, file1, file2)
    ensures Backed(GiveUp(x, slot, ok), file1, file2)
  {
  }

  /** The descriptor in a slot is open, owned, and neither leaked nor a standard one. */
  ghost predicate InPlace(x: Snapshot, s: Slot)
    requires s in x.slots
  {
    var fd := x.slots[s];
    fd in x.owned && fd in x.fds && fd !in x.leaked && fd != 1 && fd != 2
  }

  lemma GiveUpKeepsOthers(entry: Entry, x: Snapshot, lost: set<nat>, slot: Slot, ok: bool)
    requires OthersKept(entry, x, lost) && (slot in x.slots ==> InPlace(x, slot))
    ensures OthersKept(entry, GiveUp(x, slot, ok), lost)
  {
  }

  /** What giving up a slot does to the slots, to 1 and 2, and to the leaks. */
  lemma GiveUpParts(x: Snapshot, slot: Slot, ok: bool)
    requires Consistent(x) && 1 in x.fds && 2 in x.fds
    ensures var y := GiveUp(x, slot, ok);
      && y.slots.Keys == x.slots.Keys - {slot}
      && 1 in y.fds && y.fds[1] == x.fds[1] && 2 in y.fds && y.fds[2] == x.fds[2]
      && (ok ==> y.leaked == x.leaked)
  {
    SlotsBeyond(x);
  }

  lemma WriteEndKeeps(entry: Entry, x: Snapshot, lost: set<nat>, slot: Slot, ok: bool)
    requires Building(entry, x, lost) && slot in {OutWrite, ErrWrite}
    ensures Building(entry, GiveUp(x, slot, ok), lost)
  {
    hide Consistent, Backed, OthersKept, Shed;
    GiveUpIsShed(x, slot, ok);
    GiveUpKeepsBacked(x, slot, ok, entry.file1, entry.file2);
    SlotsBeyond(x);
    assert slot in x.slots ==> InPlace(x, slot);
    GiveUpKeepsOthers(entry, x, lost, slot, ok);
  }

  /** Giving up every slot of an aborted capture leaves the table install started from,
      plus what was leaked or lost. */
  lemma AbortLeavesIntact(entry: Entry, x: Snapshot, lost: set<nat>, oks: seq<bool>)
    requires Building(entry, x, lost) && x.fds[1] == entry.fds[1] && x.fds[2] == entry.fds[2]
    requires |oks| == |ALL_SLOTS|
    ensures var z := GiveUpAll(x, ALL_SLOTS, oks);
      && Consistent(z) && z.slots == map[] && Intact(entry.fds, z.fds, z.leaked + lost)
      && (AllTrue(oks) ==> z.leaked == x.leaked)
  {
    GiveUpAllIsShed(x, ALL_SLOTS, oks);
    var z := GiveUpAll(x, ALL_SLOTS, oks);
    forall s: Slot ensures s in ALL_SLOTS {
      match s { case Saved1Primary => case Saved1Emergency => case Saved2Primary => case Saved2Emergency =>
                case OutRead => case OutWrite => case ErrRead => case ErrWrite => }
    }
    assert z.slots.Keys == {};
    assert z.owned == {};
  }

  /** And no more of them than there were. */
  lemma AbortLeaves(entry: Entry, x: Snapshot, lost: set<nat>, oks: seq<bool>)
    requires Building(entry, x, lost) && |oks| == |ALL_SLOTS|
    ensures |GiveUpAll(x, ALL_SLOTS, oks).leaked + lost| <= Total(x.owned, x.leaked, lost)
  {
    hide GiveUpAll, Consistent, Backed, OthersKept;
    GiveUpAllIsShed(x, ALL_SLOTS, oks);
    NoMore(x.owned + x.leaked + lost, GiveUpAll(x, ALL_SLOTS, oks).leaked + lost);
  }

  // ----- the pipes of a capture under construction -----

  function TargetOf(s: Stream): nat { if s == Stdout then 1 else 2 }

  /** A pipe is a new open file; only its own write slot, a leaked descriptor or the
      target it was made for names it. */
  ghost predicate OwnPipe(entry: Entry, x: Snapshot, s: Stream, pipe: nat, files: nat) {
    && pipe < files && pipe != entry.file1 && pipe != entry.file2
    && (WriteSlot(s) in x.slots ==> x.slots[WriteSlot(s)] in x.fds && x.fds[x.slots[WriteSlot(s)]].file == pipe)
    && (forall fd :: fd in x.fds && x.fds[fd].file == pipe ==>
          fd == TargetOf(s) || fd in x.leaked || (WriteSlot(s) in x.slots && fd == x.slots[WriteSlot(s)]))
  }

  ghost predicate OwnPipes(entry: Entry, x: Snapshot, pipes: map<Stream, nat>, files: nat) {
    && entry.file1 < files && entry.file2 < files
    && (forall s :: s in pipes ==> OwnPipe(entry, x, s, pipes[s], files))
    && (Stdout in pipes && Stderr in pipes ==> pipes[Stdout] != pipes[Stderr])
  }

  /** One more descriptor for a file that is not the pipe. */
  lemma AddingKeepsPipe(entry: Entry, x: Snapshot, fds: map<nat, Descriptor>, slot: Slot, fd: nat, s: Stream, pipe: nat, files: nat)
    requires OwnPipe(entry, x, s, pipe, files) && Grows(x.fds, fds, fd)
    requires fds[fd].file != pipe && slot !in x.slots && slot != WriteSlot(s)
    ensures OwnPipe(entry, WithSlot(x, fds, slot, fd), s, pipe, files)
  {
  }

  lemma PipeIsOwn(entry: Entry, x: Snapshot, fds: map<nat, Descriptor>, fd: nat, s: Stream, files: nat)
    requires Grows(x.fds, fds, fd) && WriteSlot(s) !in x.slots && fds[fd].file == files
    requires (forall k :: k in x.fds ==> x.fds[k].file < files) && entry.file1 < files && entry.file2 < files
    ensures OwnPipe(entry, WithSlot(x, fds, WriteSlot(s), fd), s, files, files + 1)
  {
  }

  lemma RedirectKeepsPipe(entry: Entry, x: Snapshot, fds: map<nat, Descriptor>, target: nat, s: Stream, pipe: nat, files: nat)
    requires OwnPipe(entry, x, s, pipe, files) && Consistent(x)
    requires target in {1, 2} && target in fds && DiffersAt(x.fds, fds, target)
    requires fds[target].file == pipe ==> target == TargetOf(s)
    ensures OwnPipe(entry, x.(fds := fds), s, pipe, files)
  {
    hide Consistent;
    SlotsBeyond(x);
    forall fd | fd != target ensures fd in fds <==> fd in x.fds {
      assert fd in x.fds.Keys - {target} <==> fd in fds.Keys - {target};
    }
  }

  lemma SlotsBeyond(x: Snapshot)
    requires Consistent(x)
    ensures forall s :: s in x.slots ==> InPlace(x, s)
  {
    forall s | s in x.slots ensures InPlace(x, s) {
      assert x.slots[s] in x.owned;
    }
  }

  lemma CloseKeepsPipe(entry: Entry, x: Snapshot, slot: Slot, ok: bool, s: Stream, pipe: nat, files: nat)
    requires OwnPipe(entry, x, s, pipe, files) && Consistent(x)
    ensures OwnPipe(entry, GiveUp(x, slot, ok), s, pipe, files)
  {
  }

  // ----- one step of install, for the table and the pipes together -----

  ghost predicate FilesBelow(fds: map<nat, Descriptor>, files: nat) {
    forall fd :: fd in fds ==> fds[fd].file < files
  }

  lemma DupKept(entry: Entry, x: Snapshot, lost: set<nat>, pipes: map<Stream, nat>, files: nat, slot: Slot, fd: nat)
    requires Building(entry, x, lost) && OwnPipes(entry, x, pipes, files)
    requires slot in SAVED && slot !in x.slots && fd !in x.fds
    requires Target(slot) in x.fds && x.fds[Target(slot)] == entry.fds[Target(slot)]
    ensures var fds := x.fds[fd := Descriptor(x.fds[Target(slot)].file, false)];
      Building(entry, WithSlot(x, fds, slot, fd), lost) && OwnPipes(entry, WithSlot(x, fds, slot, fd), pipes, files)
  {
    hide Consistent, Backed, OthersKept;
    var fds := x.fds[fd := Descriptor(x.fds[Target(slot)].file, false)];
    AddingKeeps(entry, x, lost, fds, slot, fd);
    forall s | s in pipes ensures OwnPipe(entry, WithSlot(x, fds, slot, fd), s, pipes[s], files) {
      AddingKeepsPipe(entry, x, fds, slot, fd, s, pipes[s], files);
    }
  }

  lemma DupLost(entry: Entry, x: Snapshot, lost: set<nat>, pipes: map<Stream, nat>, files: nat, slot: Slot, fd: nat)
    requires Building(entry, x, lost) && OwnPipes(entry, x, pipes, files)
    requires slot in SAVED && fd !in x.fds
    requires Target(slot) in x.fds && x.fds[Target(slot)] == entry.fds[Target(slot)]
    ensures var y := x.(fds := x.fds[fd := Descriptor(x.fds[Target(slot)].file, false)]);
      Building(entry, y, lost + {fd}) && OwnPipes(entry, y, pipes, files)
  {
    hide Consistent, Backed, OthersKept;
    LosingKeeps(entry, x, lost, x.fds[fd := Descriptor(x.fds[Target(slot)].file, false)], fd);
  }

  function PipeTable(fds: map<nat, Descriptor>, r: nat, w: nat, files: nat): map<nat, Descriptor> {
    fds[r := Descriptor(files, false)][w := Descriptor(files + 1, false)]
  }

  function WithPipe(x: Snapshot, s: Stream, r: nat, w: nat, files: nat): Snapshot {
    WithSlot(WithSlot(x, x.fds[r := Descriptor(files, false)], ReadSlot(s), r), PipeTable(x.fds, r, w, files), WriteSlot(s), w)
  }

  lemma PipeAdded(entry: Entry, x: Snapshot, lost: set<nat>, pipes: map<Stream, nat>, files: nat, s: Stream, r: nat, w: nat)
    requires Building(entry, x, lost) && OwnPipes(entry, x, pipes, files) && FilesBelow(x.fds, files)
    requires s !in pipes && ReadSlot(s) !in x.slots && WriteSlot(s) !in x.slots
    requires r !in x.fds && w !in x.fds && r != w
    ensures var y := WithPipe(x, s, r, w, files);
      Building(entry, y, lost) && OwnPipes(entry, y, pipes[s := files + 1], files + 2)
  {
    hide Consistent, Backed, OthersKept;
    var m := x.fds[r := Descriptor(files, false)];
    var fds := PipeTable(x.fds, r, w, files);
    var x1 := WithSlot(x, m, ReadSlot(s), r);
    AddingKeeps(entry, x, lost, m, ReadSlot(s), r);
    AddingKeeps(entry, x1, lost, fds, WriteSlot(s), w);
    PipesWithNew(entry, x, pipes, files, s, r, w);
  }

  lemma PipesWithNew(entry: Entry, x: Snapshot, pipes: map<Stream, nat>, files: nat, s: Stream, r: nat, w: nat)
    requires OwnPipes(entry, x, pipes, files) && FilesBelow(x.fds, files)
    requires s !in pipes && ReadSlot(s) !in x.slots && WriteSlot(s) !in x.slots
    requires r !in x.fds && w !in x.fds && r != w
    ensures OwnPipes(entry, WithPipe(x, s, r, w, files), pipes[s := files + 1], files + 2)
  {
    hide OwnPipe;
    var m := x.fds[r := Descriptor(files, false)];
    var fds := PipeTable(x.fds, r, w, files);
    var x1 := WithSlot(x, m, ReadSlot(s), r);
    PipeIsOwn(entry, x1, fds, w, s, files + 1);
    forall t | t in pipes
      ensures OwnPipe(entry, WithSlot(x1, fds, WriteSlot(s), w), t, pipes[t], files + 2) && pipes[t] < files
    {
      OldPipeStays(entry, x, m, fds, s, r, w, t, pipes[t], files);
    }
  }

  lemma OldPipeStays(entry: Entry, x: Snapshot, m: map<nat, Descriptor>, fds: map<nat, Descriptor>, s: Stream, r: nat, w: nat,
                     t: Stream, pipe: nat, files: nat)
    requires OwnPipe(entry, x, t, pipe, files) && t != s && ReadSlot(s) !in x.slots && WriteSlot(s) !in x.slots
    requires r !in x.fds && w !in x.fds && r != w
    requires m == x.fds[r := Descriptor(files, false)] && fds == m[w := Descriptor(files + 1, false)]
    ensures OwnPipe(entry, WithSlot(WithSlot(x, m, ReadSlot(s), r), fds, WriteSlot(s), w), t, pipe, files + 2) && pipe < files
  {
    var x1 := WithSlot(x, m, ReadSlot(s), r);
    AddingKeepsPipe(entry, x, m, ReadSlot(s), r, t, pipe, files);
    AddingKeepsPipe(entry, x1, fds, WriteSlot(s), w, t, pipe, files);
  }

  lemma PipeLost(entry: Entry, x: Snapshot, lost: set<nat>, pipes: map<Stream, nat>, files: nat, r: nat, w: nat)
    requires Building(entry, x, lost) && OwnPipes(entry, x, pipes, files) && FilesBelow(x.fds, files)
    requires r !in x.fds && w !in x.fds && r != w
    ensures var y := x.(fds := PipeTable(x.fds, r, w, files));
      Building(entry, y, lost + {r, w}) && OwnPipes(entry, y, pipes, files + 2)
  {
    hide Consistent, Backed, OthersKept;
    var m := x.fds[r := Descriptor(files, false)];
    LosingKeeps(entry, x, lost, m, r);
    LosingKeeps(entry, x.(fds := m), lost + {r}, PipeTable(x.fds, r, w, files), w);
    assert lost + {r} + {w} == lost + {r, w};
  }

  lemma PipeShape(x: Snapshot, s: Stream, r: nat, w: nat, files: nat)
    ensures WithPipe(x, s, r, w, files)
      == Snapshot(x.slots[ReadSlot(s) := r][WriteSlot(s) := w], x.owned + {r, w}, x.leaked, PipeTable(x.fds, r, w, files))
    ensures PipeTable(x.fds, r, w, files) == x.fds[r := Descriptor(files, false)][w := Descriptor(files + 1, false)]
    ensures ReadSlot(s) != WriteSlot(s)
  {
    assert x.owned + {r} + {w} == x.owned + {r, w};
  }

  lemma WithSlotShape(x: Snapshot, fds: map<nat, Descriptor>, slot: Slot, fd: nat)
    ensures WithSlot(x, fds, slot, fd) == Snapshot(x.slots[slot := fd], x.owned + {fd}, x.leaked, fds)
  {
  }

  lemma SavedTarget(slot: Slot)
    requires slot in SAVED
    ensures Target(slot) == 1 || Target(slot) == 2
  {
  }

  lemma TargetIsStandard(s: Stream)
    ensures TargetOf(s) == (if s == Stdout then 1 else 2)
  {
  }

  lemma EntryChange(fds: map<nat, Descriptor>, target: nat, d: Descriptor)
    ensures DiffersAt(fds, fds[target := d], target)
  {
  }

  lemma Redirected(entry: Entry, x: Snapshot, lost: set<nat>, pipes: map<Stream, nat>, files: nat, s: Stream, flag: bool)
    requires Building(entry, x, lost) && OwnPipes(entry, x, pipes, files)
    requires SAVED <= x.slots.Keys && s in pipes
    ensures var y := x.(fds := x.fds[TargetOf(s) := Descriptor(pipes[s], flag)]);
      Building(entry, y, lost) && OwnPipes(entry, y, pipes, files)
  {
    hide Consistent, Backed, OthersKept;
    var fds := x.fds[TargetOf(s) := Descriptor(pipes[s], flag)];
    RedirectKeeps(entry, x, lost, fds, TargetOf(s));
    forall t | t in pipes ensures OwnPipe(entry, x.(fds := fds), t, pipes[t], files) {
      RedirectKeepsPipe(entry, x, fds, TargetOf(s), t, pipes[t], files);
    }
  }

  /** Giving up a write end, with everything it keeps. */
  lemma WriteEndClosed(entry: Entry, x: Snapshot, lost: set<nat>, pipes: map<Stream, nat>, files: nat, slot: Slot, ok: bool)
    requires Building(entry, x, lost) && OwnPipes(entry, x, pipes, files) && (slot == OutWrite || slot == ErrWrite)
    requires 1 in x.fds && 2 in x.fds
    ensures var y := GiveUp(x, slot, ok);
      && Building(entry, y, lost) && OwnPipes(entry, y, pipes, files)
      && y.slots.Keys == x.slots.Keys - {slot} && (ok ==> y.leaked == x.leaked)
      && Total(y.owned, y.leaked, lost) <= Total(x.owned, x.leaked, lost)
      && 1 in y.fds && y.fds[1] == x.fds[1] && 2 in y.fds && y.fds[2] == x.fds[2]
  {
    hide Consistent, Backed, OthersKept, GiveUp, OwnPipe, Shed, Total;
    GiveUpParts(x, slot, ok);
    GiveUpIsShed(x, slot, ok);
    ShedCounts(x, GiveUp(x, slot, ok), lost);
    WriteEndKeeps(entry, x, lost, slot, ok);
    forall t | t in pipes ensures OwnPipe(entry, GiveUp(x, slot, ok), t, pipes[t], files) {
      CloseKeepsPipe(entry, x, slot, ok, t, pipes[t], files);
    }
  }

  lemma PutBack(entry: Entry, x: Snapshot, lost: set<nat>, pipes: map<Stream, nat>, files: nat, target: nat, flag: bool)
    requires Building(entry, x, lost) && OwnPipes(entry, x, pipes, files)
    requires target in {1, 2} && PrimaryOf(target) in x.slots
    ensures var y := x.(fds := x.fds[target := Descriptor(if target == 1 then entry.file1 else entry.file2, flag)]);
      Building(entry, y, lost) && OwnPipes(entry, y, pipes, files)
  {
    hide Consistent, Backed, OthersKept;
    var fds := x.fds[target := Descriptor(if target == 1 then entry.file1 else entry.file2, flag)];
    RedirectKeeps(entry, x, lost, fds, target);
    forall t | t in pipes ensures OwnPipe(entry, x.(fds := fds), t, pipes[t], files) {
      RedirectKeepsPipe(entry, x, fds, target, t, pipes[t], files);
    }
  }

  /** Closing a fully installed capture leaves the table install started from. */
  lemma CloseLeavesIntact(entry: Entry, a: Snapshot, z: Snapshot, lost: set<nat>)
    requires Building(entry, a, lost) && Restored(a, z, entry.fds[1], entry.fds[2])
    ensures Intact(entry.fds, z.fds, z.leaked + lost)
  {
    hide Backed;
  }

  /** What silence on both pipes means, pipe by pipe. */
  lemma SilenceMeans(fates: Stream -> Fate, out: nat, err: nat)
    ensures BothSilent(fates, out, err) ==> (out > 0 ==> DiesUnread(fates(Stdout))) && (err > 0 ==> DiesUnread(fates(Stderr)))
  {
  }

  lemma NoBytes()
    ensures Bytes(Output(0, 0)) == 0
  {
  }

  /** One drainer dies unread, the other stream stays quiet. */
  lemma DeadIsSilent(fates: Stream -> Fate, s: Stream, report: Report, out: nat, err: nat)
    requires forall t :: fates(t) == if t == s then SelectorFails(0, report) else ReachesEnd
    requires if s == Stdout then err == 0 else out == 0
    ensures BothSilent(fates, out, err + Outbursts(fates)) <==> !(s == Stdout && report.IntoPipe?)
  {
  }

  lemma SilentDown(fates: Stream -> Fate, out: nat, err: nat, pending1: nat, pending2: nat)
    requires BothSilent(fates, pending1, pending2) && out <= pending1 && err <= pending2
    ensures BothSilent(fates, out, err)
  {
  }
}
