/** The part of the operating system and interpreter that the provider capture
    touches: the descriptor table with calls that may fail, the drainer threads and
    the retrying write. */
module IoKernel {
  import opened Wrappers

  /** What a system call does. `Ignored` is a replacement of dup2 that reports success
      and changes nothing; every other call treats it as success. */
  datatype Outcome = Works | Raises | Ignored

  /** An open descriptor: the open file it names, and its inheritable flag. */
  datatype Descriptor = Descriptor(file: nat, inheritable: bool)

  datatype Stream = Stdout | Stderr

  /** What capture touches of the logging module: the record factory, the handlers of
      the root logger, and the filters of every handler. */
  datatype Logging = Logging(factory: nat, handlers: seq<nat>, filters: map<nat, seq<nat>>)

  function FiltersOf(logging: Logging, handler: nat): seq<nat> {
    if handler in logging.filters then logging.filters[handler] else []
  }

  function WithFilters(logging: Logging, handler: nat, filters: seq<nat>): Logging {
    logging.(filters := logging.filters[handler := filters])
  }

  /** Factory, handlers and the filters of those handlers are the saved ones. */
  predicate LoggingBack(saved: Logging, now: Logging) {
    && now.factory == saved.factory && now.handlers == saved.handlers
    && forall h :: h in saved.handlers ==> FiltersOf(now, h) == FiltersOf(saved, h)
  }

  /** The process globals: identities of the interpreter's streams, and the logging state. */
  datatype ProcessGlobals = ProcessGlobals(stdout: nat, stderr: nat, logging: Logging)

  predicate BackTo(saved: ProcessGlobals, now: ProcessGlobals) {
    now.stdout == saved.stdout && now.stderr == saved.stderr && LoggingBack(saved.logging, now.logging)
  }

  /** What a provider emits on one stream: bytes it writes to the descriptor itself, and
      bytes of text it prints through the interpreter's stream object. */
  datatype Output = Output(written: nat, printed: nat)

  function Bytes(o: Output): nat { o.written + o.printed }

  /** Some descriptor still names this open file. */
  predicate Held(fds: map<nat, Descriptor>, file: nat) {
    exists fd :: fd in fds && fds[fd].file == file
  }

  /** The descriptor table and interpreter globals of the process. The n-th system
      call is decided by `oracle(n)`. */
  class Kernel {
    const oracle: nat -> Outcome
    var calls: nat
    var fds: map<nat, Descriptor>
    var files: nat                     // open files 0 .. files-1 have been created
    var received: map<nat, nat>        // bytes written to an open file so far
    var buffered: map<nat, nat>        // bytes the interpreter still buffers for descriptor 1 or 2
    var objects: nat                   // object identities 0 .. objects-1 are in use
    var stdoutObject: nat
    var stderrObject: nat
    var bound: map<nat, nat>           // the descriptor that a text stream object writes to
    var logging: Logging
    var logActive: bool

    constructor (oracle: nat -> Outcome)
      ensures this.oracle == oracle && fds == map[] && files == 0 && received == map[] && !logActive
    {
      this.oracle := oracle;
      calls, fds, files, received, buffered := 0, map[], 0, map[], map[];
      objects, stdoutObject, stderrObject, bound, logging, logActive := 2, 0, 1, map[], Logging(0, [], map[]), false;
    }

    ghost predicate Faultless() {
      forall n :: oracle(n) == Works
    }

    /** Open files that exist were created. */
    ghost predicate Valid()
      reads this`fds, this`files, this`received
    {
      && (forall fd :: fd in fds ==> fds[fd].file < files)
      && (forall f :: f in received ==> f < files)
    }

    function Globals(): ProcessGlobals
      reads this`stdoutObject, this`stderrObject, this`logging
    {
      ProcessGlobals(stdoutObject, stderrObject, logging)
    }

    function Received(file: nat): nat
      reads this`received
    {
      if file in received then received[file] else 0
    }

    function Buffered(fd: nat): nat
      reads this`buffered
    {
      if fd in buffered then buffered[fd] else 0
    }

    method Call() returns (raises: bool, ignored: bool)
      modifies this`calls
      ensures Faultless() ==> !raises && !ignored
    {
      raises, ignored := oracle(calls) == Raises, oracle(calls) == Ignored;
      calls := calls + 1;
    }

    /** The lowest unused descriptor number. */
    method Unused() returns (fd: nat)
      ensures fd !in fds && forall k :: 0 <= k < fd ==> k in fds
    {
      fd := 0;
      while fd in fds
        invariant forall k :: 0 <= k < fd ==> k in fds
        decreases set k | k in fds.Keys && fd <= k
      {
        ghost var above := set k | k in fds.Keys && fd <= k;
        fd := fd + 1;
        assert fd - 1 in above && fd - 1 !in (set k | k in fds.Keys && fd <= k);
      }
    }

    method Dup(fd: nat) returns (r: Option<nat>)
      requires Valid()
      modifies this`calls, this`fds
      ensures Valid()
      ensures r.None? ==> fds == old(fds)
      ensures r.Some? ==> fd in old(fds) && r.value !in old(fds)
      ensures r.Some? ==> fds == old(fds)[r.value := Descriptor(old(fds)[fd].file, false)]
      ensures Faultless() && fd in old(fds) ==> r.Some?
    {
      var raises, _ := Call();
      if raises || fd !in fds {
        return None;
      }
      var copy := Unused();
      fds := fds[copy := Descriptor(fds[fd].file, false)];
      r := Some(copy);
    }

    method Pipe() returns (r: Option<(nat, nat)>)
      requires Valid()
      modifies this`calls, this`fds, this`files
      ensures Valid()
      ensures r.None? ==> fds == old(fds) && files == old(files)
      ensures r.Some? ==>
        && files == old(files) + 2
        && r.value.0 != r.value.1 && r.value.0 !in old(fds) && r.value.1 !in old(fds)
        && fds == old(fds)[r.value.0 := Descriptor(old(files), false)][r.value.1 := Descriptor(old(files) + 1, false)]
      ensures Faultless() ==> r.Some?
    {
      var raises, _ := Call();
      if raises {
        return None;
      }
      var readEnd := Unused();
      fds := fds[readEnd := Descriptor(files, false)];
      var writeEnd := Unused();
      fds := fds[writeEnd := Descriptor(files + 1, false)];
      files := files + 2;
      r := Some((readEnd, writeEnd));
    }

    method SetInheritable(fd: nat, flag: bool) returns (ok: bool)
      requires Valid()
      modifies this`calls, this`fds
      ensures Valid()
      ensures !ok ==> fds == old(fds)
      ensures ok ==> fd in old(fds) && fds == old(fds)[fd := Descriptor(old(fds)[fd].file, flag)]
      ensures Faultless() && fd in old(fds) ==> ok
    {
      var raises, _ := Call();
      ok := !raises && fd in fds;
      if ok {
        fds := fds[fd := Descriptor(fds[fd].file, flag)];
      }
    }

    method GetInheritable(fd: nat) returns (r: Option<bool>)
      modifies this`calls
      ensures r.Some? ==> fd in fds && r.value == fds[fd].inheritable
      ensures Faultless() && fd in fds ==> r.Some?
    {
      var raises, _ := Call();
      r := if raises || fd !in fds then None else Some(fds[fd].inheritable);
    }

    /** dup2 makes the target inheritable; the hook used for restoring may also be one
        that does nothing. */
    method Dup2(source: nat, target: nat, hook: bool) returns (ok: bool)
      requires Valid() && source != target
      modifies this`calls, this`fds
      ensures Valid()
      ensures fds == old(fds) || (source in old(fds) && fds == old(fds)[target := Descriptor(old(fds)[source].file, true)])
      ensures ok && !hook ==> source in old(fds) && fds == old(fds)[target := Descriptor(old(fds)[source].file, true)]
      ensures !ok ==> fds == old(fds)
      ensures Faultless() && source in old(fds) ==> ok && fds == old(fds)[target := Descriptor(old(fds)[source].file, true)]
    {
      var raises, ignored := Call();
      ok := !raises && source in fds;
      if ok && !(hook && ignored) {
        fds := fds[target := Descriptor(fds[source].file, true)];
      }
    }

    method SameOpenFile(a: nat, b: nat) returns (r: Option<bool>)
      modifies this`calls
      ensures r.Some? ==> a in fds && b in fds && (r.value <==> fds[a].file == fds[b].file)
      ensures Faultless() && a in fds && b in fds ==> r.Some?
    {
      var raises, _ := Call();
      if raises || a !in fds || b !in fds {
        return None;
      }
      r := Some(fds[a].file == fds[b].file);
    }

    /** A failing close leaves the descriptor open. */
    method Close(fd: nat) returns (ok: bool)
      requires Valid()
      modifies this`calls, this`fds
      ensures Valid()
      ensures fds == if ok then old(fds) - {fd} else old(fds)
      ensures Faultless() && fd in old(fds) ==> ok
    {
      var raises, _ := Call();
      ok := !raises && fd in fds;
      if ok {
        fds := fds - {fd};
      }
    }

    /** Bytes written through a descriptor reach the open file it names. */
    method Write(fd: nat, n: nat)
      requires Valid() && fd in fds
      modifies this`received
      ensures Valid()
      ensures received == old(received)[fds[fd].file := old(Received(fds[fd].file)) + n]
    {
      received := received[fds[fd].file := Received(fds[fd].file) + n];
    }

    /** Text printed through a stream object goes to the descriptor the object writes to. */
    method Say(writer: nat, n: nat)
      requires Valid()
      modifies this`received
      ensures Valid()
      ensures received ==
        if writer in bound && bound[writer] in fds
        then old(received)[fds[bound[writer]].file := old(Received(fds[bound[writer]].file)) + n] else old(received)
    {
      if writer in bound && bound[writer] in fds {
        Write(bound[writer], n);
      }
    }

    /** Everything a provider emits on a stream whose object writes to the descriptor. */
    method Emit(fd: nat, writer: nat, o: Output)
      requires Valid() && fd in fds && writer in bound && bound[writer] == fd
      modifies this`received
      ensures Valid()
      ensures received == old(received)[fds[fd].file := old(Received(fds[fd].file)) + Bytes(o)]
    {
      ghost var before, f: nat := received, fds[fd].file;
      ghost var once: nat := Received(f) + o.written;
      ghost var both: nat := Received(f) + Bytes(o);
      Write(fd, o.written);
      assert Received(f) == once;
      Say(writer, o.printed);
      ghost var middle: map<nat, nat> := before[f := once];
      assert received == middle[f := both];
    }

    /** Flush the interpreter's own buffer for descriptor 1 or 2. */
    method Flush(fd: nat) returns (ok: bool)
      requires Valid()
      modifies this`calls, this`received, this`buffered
      ensures Valid()
      ensures !ok ==> received == old(received) && buffered == old(buffered)
      ensures ok ==> fd in fds && buffered == old(buffered)[fd := 0]
      ensures ok ==> received == old(received)[fds[fd].file := old(Received(fds[fd].file)) + old(Buffered(fd))]
      ensures Faultless() && fd in fds ==> ok
    {
      var raises, _ := Call();
      ok := !raises && fd in fds;
      if ok {
        Write(fd, Buffered(fd));
        buffered := buffered[fd := 0];
      }
    }
  }

  // ----- the drainer threads -----

  const MAX_CAPTURE: nat := 65536
  const SATURATED: nat := 65537

  /** The counter after some number of bytes: exact up to the limit, then stuck. */
  function Counted(total: nat): nat {
    if total > MAX_CAPTURE then SATURATED else total
  }

  /** Counter and overflow flag of a drainer that has read `total` bytes. */
  predicate Accounts(count: nat, overflow: bool, total: nat) {
    count == (if total <= 65_536 then total else 65_537) && (overflow <==> total > 65_536)
  }

  /** One accounting step: correct for a total, it is correct for the larger total, also
      once the counter is stuck. */
  method RecordBytes(count: nat, overflow: bool, size: nat) returns (count': nat, overflow': bool)
    ensures forall total: nat :: Accounts(count, overflow, total) ==> Accounts(count', overflow', total + size)
  {
    var total := count + size;
    if total > MAX_CAPTURE {
      count', overflow' := SATURATED, true;
    } else {
      count', overflow' := total, overflow;
    }
  }

  type Positive = n: nat | n > 0 witness 1

  /** An exception that escapes a thread is reported on the interpreter's stderr. While
      descriptor 2 names the stderr pipe the report adds to that pipe; before the
      redirection and after the restoration it goes to the original stderr. */
  datatype Report = Outside | IntoPipe(size: Positive)

  /** What a drainer thread meets, one event after another. */
  datatype Event = Chunk(size: nat) | WouldBlock | ReadError | EndOfFile | SelectorError(report: Report)

  /** How a drainer stands: still polling, or returned for a reason. */
  datatype DrainEnd = Polling | AtEnd | AfterReadError | AfterSelectorError(report: Report)

  function EndingOf(events: seq<Event>): DrainEnd {
    if events == [] then Polling
    else
      match events[0]
      case EndOfFile => AtEnd
      case ReadError => AfterReadError
      case SelectorError(report) => AfterSelectorError(report)
      case Chunk(_) => EndingOf(events[1..])
      case WouldBlock => EndingOf(events[1..])
  }

  /** Bytes read before the thread stops. */
  function BytesRead(events: seq<Event>): nat {
    if events == [] || !(events[0].Chunk? || events[0].WouldBlock?) then 0
    else (if events[0].Chunk? then events[0].size else 0) + BytesRead(events[1..])
  }

  /** The drainer loop. However the bytes arrive in chunks, the counter ends as the
      saturated total and the overflow flag says whether the total passed the limit;
      an error is marked for a failing read and for nothing else. */
  method Drain(events: seq<Event>) returns (count: nat, overflow: bool, marked: bool, ending: DrainEnd)
    ensures ending == EndingOf(events)
    ensures count == Counted(BytesRead(events)) && Accounts(count, overflow, BytesRead(events))
    ensures overflow <==> BytesRead(events) > 65_536
    ensures marked <==> ending == AfterReadError
  {
    count, overflow, marked, ending := 0, false, false, Polling;
    var i := 0;
    ghost var total := 0;
    while i < |events|
      invariant 0 <= i <= |events|
      invariant ending == Polling && !marked
      invariant Accounts(count, overflow, total)
      invariant total + BytesRead(events[i..]) == BytesRead(events)
      invariant EndingOf(events[i..]) == EndingOf(events)
    {
      match events[i] {
        case WouldBlock =>
        case Chunk(size) =>
          count, overflow := RecordBytes(count, overflow, size);
          total := total + size;
        case EndOfFile =>
          return count, overflow, false, AtEnd;
        case ReadError =>
          return count, overflow, true, AfterReadError;
        case SelectorError(report) =>
          return count, overflow, false, AfterSelectorError(report);
      }
      i := i + 1;
    }
  }

  /** Writing everything: short writes and full pipes are retried, a write that makes
      no progress is an error. `outcomes` are the results of successive writes; the
      loop runs out of them while bytes remain only if it is still waiting. */
  datatype WriteOutcome = Wrote(n: nat) | Full

  datatype WriteEnd = WroteAll | WriteFailed | StillWaiting

  method WriteAll(payload: seq<int>, outcomes: seq<WriteOutcome>) returns (sent: seq<int>, end: WriteEnd)
    ensures sent <= payload
    ensures end == WroteAll <==> sent == payload
    ensures end == WriteFailed ==> Wrote(0) in outcomes
    ensures Wrote(0) !in outcomes && (forall o :: o in outcomes ==> o.Wrote?) && |outcomes| >= |payload| ==> end == WroteAll
  {
    sent := [];
    var i := 0;
    while |sent| < |payload| && i < |outcomes|
      invariant 0 <= i <= |outcomes| && |sent| <= |payload| && sent == payload[..|sent|]
      invariant Wrote(0) !in outcomes && (forall o :: o in outcomes ==> o.Wrote?) ==> |sent| >= i || sent == payload
    {
      assert outcomes[i] in outcomes;
      match outcomes[i] {
        case Full =>
        case Wrote(n) =>
          if n == 0 {
            return sent, WriteFailed;
          }
          var taken := if n <= |payload| - |sent| then n else |payload| - |sent|;
          sent := payload[..|sent| + taken];
      }
      i := i + 1;
    }
    end := if |sent| == |payload| then WroteAll else StillWaiting;
  }
}
