/**
 What a user of the engine sees over whole runs: the calls of a program, and the deaths of its
 process, are runs of module Recovery's state machine, so the engine recovers.
 */
module EngineRuns {
  import opened Types
  import opened OpCodec
  import opened LogStore
  import opened Recovery
  import opened Nearest
  import opened VectorStore
  import opened HnswGraph
  import opened HnswIndex
  import opened Engine

  // ---------------------------------------------------------------- calls are runs

  /** One call of a program that uses the engine. */
  datatype Call =
    | CallInsert(ext: Str, vec: Vector, meta: Metadata)
    | CallUpdate(ext: Str, vec: Vector, newMeta: Option<Metadata>)
    | CallErase(ext: Str)
    | CallSnapshot
    | CallCompact
    | CallReopen

  /** A call that runs to its end, or during which the process dies, to be opened again afterwards. */
  datatype Event =
    | Called(call: Call)
    | Died(call: Call, progress: nat)   // after so many bytes of the record; after publishing, if not 0

  function CallStep(c: Call): Step {
    match c
    case CallInsert(ext, vec, meta) => Write(Op(Insert, ext, vec, Some(meta)))
    case CallUpdate(ext, vec, meta) => Write(Op(Update, ext, vec, meta))
    case CallErase(ext) => Write(Op(Delete, ext, [], None))
    case CallSnapshot => Step.Snapshot
    case CallCompact => Step.Snapshot
    case CallReopen => Step.Reopen
  }

  /** The step an event is; a death before anything is written is one between calls. */
  function EventStep(db: Db, e: Event): Step {
    match e
    case Called(c) => CallStep(c)
    case Died(c, progress) =>
      match CallStep(c)
      case Write(op) => if Logged(db, op) then CrashInWrite(op) else Step.Reopen
      case Snapshot => if progress > 0 then CrashInSnapshot else Step.Reopen
      case _ => Step.Reopen
  }

  /** A call that is not a reopening takes its step on the engine itself. */
  method Perform(e: Engine, c: Call)
    requires e.Valid() && e.durable && e.dim > 0 && !c.CallReopen?
    modifies e.Parts()
    ensures e.Valid() && Next(e.dim, old(e.Model()), CallStep(c), e.Model())
    ensures forall o | o in e.Parts() :: o in old(e.Parts()) || fresh(o)
  {
    hide Rows, Count, SlotMap, GoodGraph, GoodEntry, LiveIds, WriteStep, SnapshotStep, Recovery.Recover;
    match c
    case CallInsert(ext, vec, meta) => var _ := e.Insert(ext, vec, meta);
    case CallUpdate(ext, vec, meta) => var _ := e.Update(ext, vec, meta);
    case CallErase(ext) => var _ := e.Erase(ext);
    case CallSnapshot => ghost var _ := e.Snapshot();
    case CallCompact => e.Compact();
  }

  /** The disk as the process leaves it when it dies in an append: some first bytes of the frame are there. */
  method TornLog(e: Engine, op: Op, progress: nat) returns (disk: Disk)
    requires e.Valid() && Logged(e.Contents(), op)
    ensures Leaves(e.Model(), CrashInWrite(op), disk)
  {
    hide Rows, Count, SlotMap, GoodGraph, GoodEntry, LiveIds, IsEncoding, Frame;
    var rec := EncodeOp(op);
    var log := new FileLogStore(e.log.file);
    log.Append(rec);
    var size := |e.log.file| + progress;
    var cut := if size < |log.file| then progress else |log.file| - |e.log.file|;
    disk := Disk(e.blob, log.file[..|e.log.file| + cut]);
    assert disk.log == e.log.file + Frame(rec)[..cut];
  }

  /** The disk on which the engine is opened after a reopening, or a death during a call. */
  method DiskLeft(e: Engine, ev: Event) returns (disk: Disk)
    requires e.Valid() && (ev.Called? ==> ev.call.CallReopen?)
    ensures Leaves(e.Model(), EventStep(e.Contents(), ev), disk)
  {
    hide Rows, Count, SlotMap, GoodGraph, GoodEntry, LiveIds, IsEncoding, Frame, IsSnapshot;
    disk := Disk(e.blob, e.log.file);
    var step := CallStep(ev.call);
    if ev.Died? && step.Write? {
      var id := e.store.Resolve(step.op.ext);
      if step.op.kind.Insert? || id.Some? { disk := TornLog(e, step.op, ev.progress); }
    } else if ev.Died? && step.Snapshot? && ev.progress > 0 {
      var bytes := e.SnapshotBytes();
      disk := Disk(Some(bytes), e.log.file);
    }
  }

  /** One event: its step, or an opening that throws on the disk that was left. */
  method Happen(e: Engine, ev: Event) returns (r: Result<Engine>)
    requires e.Valid() && e.durable && e.dim > 0
    modifies e.Parts()
    ensures r.Ok? ==> r.value.Valid() && r.value.durable && r.value.dim == e.dim
    ensures r.Ok? ==> r.value.metric == e.metric && r.value.kind == e.kind
    ensures r.Ok? ==> Next(e.dim, old(e.Model()), EventStep(old(e.Contents()), ev), r.value.Model())
    ensures r.Ok? ==> forall o | o in r.value.Parts() :: o in old(e.Parts()) || fresh(o)
    ensures r.Err? ==> Refused(e.dim, old(e.Model()), ev)
  {
    hide Rows, Count, SlotMap, GoodGraph, GoodEntry, LiveIds, Next, Leaves, CallStep, EventStep, Recovery.Recover;
    if ev.Called? && !ev.call.CallReopen? {
      CalledStep(e.Contents(), ev.call);
      Perform(e, ev.call);
      return Ok(e);
    }
    ghost var s := e.Model();
    var disk := DiskLeft(e, ev);
    r := Open(e.dim, e.metric, e.kind, disk);
    if r.Ok? { OpenedIsNext(e.dim, s, EventStep(s.db, ev), r.value.Model()); }
  }

  lemma CalledStep(db: Db, c: Call)
    ensures EventStep(db, Called(c)) == CallStep(c)
  {}

  /** The event leaves a disk on which opening throws. */
  ghost predicate Refused(dim: nat, s: State, ev: Event) {
    exists disk :: Leaves(s, EventStep(s.db, ev), disk) && Recover(dim, disk).Err?
  }

  /** The steps of the first n events are a run that ends in s. */
  ghost predicate Traces(dim: nat, states: seq<State>, steps: seq<Step>, events: seq<Event>, n: nat, s: State) {
    && |steps| == n <= |events| && |states| == n + 1 && IsRun(dim, states, steps) && states[n] == s
    && forall i | 0 <= i < n :: steps[i] == EventStep(states[i].db, events[i])
  }

  /**
   Whatever a program calls on a new durable engine, and wherever its process dies, is a run of the
   state machine, up to the first opening that throws.
   */
  method Execute(dim: nat, metric: Metric, kind: IndexKind, events: seq<Event>)
    returns (r: Result<Engine>, ghost states: seq<State>, ghost steps: seq<Step>)
    requires dim > 0
    ensures |states| == |steps| + 1 && Traces(dim, states, steps, events, |steps|, states[|steps|])
    ensures r.Ok? ==> |steps| == |events| && r.value.Valid() && r.value.dim == dim && r.value.Model() == states[|steps|]
    ensures r.Ok? ==> r.value.metric == metric && r.value.kind == kind && r.value.durable
    ensures r.Err? ==> |steps| < |events| && Refused(dim, states[|steps|], events[|steps|])
  {
    hide Rows, Count, SlotMap, GoodGraph, GoodEntry, LiveIds, Next, Recovery.Recover, IsRun, EventStep, Refused;
    hide Engine.Valid, Engine.Parts, Traces;
    var e := new Engine(dim, metric, kind, true, Disk(None, []));
    states, steps := [e.Model()], [];
    TraceStart(dim, events);
    for i := 0 to |events|
      invariant e.Valid() && e.durable && e.dim == dim && e.metric == metric && e.kind == kind && fresh(e.Parts())
      invariant |steps| == i && |states| == i + 1 && states[i] == e.Model()
      invariant Traces(dim, states, steps, events, i, e.Model())
    {
      ghost var s, parts := e.Model(), e.Parts();
      var x := Happen(e, events[i]);
      if x.Err? { return x, states, steps; }
      e := x.value;
      assert forall o | o in e.Parts() :: o in parts || fresh(o);
      TraceSnoc(dim, states, steps, events, i, s, e.Model());
      states, steps := states + [e.Model()], steps + [EventStep(s.db, events[i])];
    }
    return Ok(e), states, steps;
  }

  lemma TraceStart(dim: nat, events: seq<Event>)
    ensures var s := State(map[], Disk(None, [])); Traces(dim, [s], [], events, 0, s)
  {}

  lemma TraceSnoc(dim: nat, states: seq<State>, steps: seq<Step>, events: seq<Event>, n: nat, s: State, t: State)
    requires Traces(dim, states, steps, events, n, s) && n < |events| && Next(dim, s, EventStep(s.db, events[n]), t)
    ensures Traces(dim, states + [t], steps + [EventStep(s.db, events[n])], events, n + 1, t)
  {
    hide Next, EventStep;
  }

  // ---------------------------------------------------------------- the engine recovers

  /** The event writes, if its id is live or it is an insert. */
  predicate Writes(e: Event) { CallStep(e.call).Write? }

  function OpOf(e: Event): Op
    requires Writes(e)
  {
    CallStep(e.call).op
  }

  /** A call that writes died since the last snapshot or compaction ran to its end. */
  predicate DiedWriting(events: seq<Event>, n: nat)
    requires n <= |events|
  {
    n != 0 &&
    var last := events[n - 1];
    (last.Died? && Writes(last))
    || (!(last.Called? && CallStep(last.call).Snapshot?) && DiedWriting(events, n - 1))
  }

  /** Records stay below 4 GiB, and after a death in a write comes a snapshot or compaction before the next one. */
  ghost predicate Prudent(events: seq<Event>) {
    forall i | 0 <= i < |events| && Writes(events[i]) :: Fits(OpOf(events[i])) && !DiedWriting(events, i)
  }

  lemma {:induction false} TornOnlyByDeath(dim: nat, states: seq<State>, steps: seq<Step>, events: seq<Event>, n: nat,
                                           m: nat, s: State)
    requires Traces(dim, states, steps, events, m, s) && n <= m && MayBeTorn(steps, n)
    ensures DiedWriting(events, n)
    decreases n
  {
    hide IsRun;
    assert steps[n - 1] == EventStep(states[n - 1].db, events[n - 1]);
    if !steps[n - 1].CrashInWrite? { TornOnlyByDeath(dim, states, steps, events, n - 1, m, s); }
  }

  lemma PrudentIsOrderly(dim: nat, states: seq<State>, steps: seq<Step>, events: seq<Event>, s: State)
    requires Traces(dim, states, steps, events, |steps|, s) && Prudent(events)
    ensures Orderly(steps)
  {
    hide IsRun, Fits;
    forall i | 0 <= i < |steps| && (steps[i].Write? || steps[i].CrashInWrite?)
      ensures Fits(steps[i].op) && !MayBeTorn(steps, i)
    {
      assert steps[i] == EventStep(states[i].db, events[i]);
      if MayBeTorn(steps, i) { TornOnlyByDeath(dim, states, steps, events, i, |steps|, s); }
    }
  }

  /** With vectors of the right length, no opening along a prudent sequence of events throws. */
  lemma NeverRefused(dim: nat, states: seq<State>, steps: seq<Step>, events: seq<Event>, s: State)
    requires Traces(dim, states, steps, events, |steps|, s) && Prudent(events) && |steps| < |events|
    requires forall e | e in events && Writes(e) :: Sized(dim, OpOf(e))
    ensures !Refused(dim, s, events[|steps|])
  {
    hide IsRun, Fits, Recovery.Recover, Leaves, Inv, WholeRecords, Orderly, Careful, Prudent;
    var n, ev := |steps|, events[|steps|];
    var step := EventStep(s.db, ev);
    PrudentIsOrderly(dim, states, steps, events, s);
    OrderlyIsCareful(dim, states, steps);
    RunKeepsInv(dim, states, steps, n);
    SizedSteps(dim, states, steps, events, s);
    StaysClean(dim, states, steps, n);
    assert ev in events;
    PrudentStepAllowed(dim, states, steps, events, s);
    forall disk | Leaves(s, step, disk)
      ensures Recover(dim, disk).Ok?
    {
      CleanStateReopens(dim, s, step, disk);
    }
  }

  lemma SizedSteps(dim: nat, states: seq<State>, steps: seq<Step>, events: seq<Event>, s: State)
    requires Traces(dim, states, steps, events, |steps|, s)
    requires forall e | e in events && Writes(e) :: Sized(dim, OpOf(e))
    ensures forall step | step in steps && step.Write? :: Sized(dim, step.op)
  {
    hide IsRun;
    forall i | 0 <= i < |steps| && steps[i].Write?
      ensures Sized(dim, steps[i].op)
    {
      assert steps[i] == EventStep(states[i].db, events[i]) && events[i] in events;
    }
  }

  lemma PrudentStepAllowed(dim: nat, states: seq<State>, steps: seq<Step>, events: seq<Event>, s: State)
    requires Traces(dim, states, steps, events, |steps|, s) && Prudent(events) && |steps| < |events|
    ensures Allowed(s, EventStep(s.db, events[|steps|]))
  {
    hide IsRun, Fits, WholeRecords, Orderly;
    var n := |steps|;
    PrudentIsOrderly(dim, states, steps, events, s);
    if Writes(events[n]) {
      if MayBeTorn(steps, n) { TornOnlyByDeath(dim, states, steps, events, n, n, s); }
      WholeUnlessTorn(dim, states, steps, n);
    }
  }

  /**
   The engine recovers.  Let a program make any calls on a new durable engine, and let its process
   die in any of them, with a snapshot or compaction after each death in a write.  The engine then
   holds every completed write in order, and each interrupted one wholly or not at all; opening its
   disk again throws exactly when the log is poisoned by a rejected vector, and otherwise gives back
   what it holds.  With vectors of the right length no opening ever throws.
   */
  method ExecuteRecovers(dim: nat, metric: Metric, kind: IndexKind, events: seq<Event>)
    returns (r: Result<Engine>, ghost states: seq<State>, ghost steps: seq<Step>, ghost kept: seq<bool>)
    requires dim > 0 && Prudent(events)
    ensures |states| == |steps| + 1 && |kept| == |steps|
    ensures Traces(dim, states, steps, events, |steps|, states[|steps|])
    ensures r.Ok? ==> r.value.Valid() && |steps| == |events| && r.value.durable
    ensures r.Ok? ==> r.value.dim == dim && r.value.metric == metric && r.value.kind == kind
    ensures r.Ok? ==> r.value.Contents() == Carried(dim, map[], Done(steps, kept, |steps|))
    ensures r.Ok? ==> if HealthAfter(dim, states, steps, |steps|).Poisoned? then Recover(dim, r.value.OnDisk()).Err?
                      else Recover(dim, r.value.OnDisk()) == Ok(r.value.Contents())
    ensures (forall e | e in events && Writes(e) :: Sized(dim, OpOf(e))) ==>
              r.Ok? && Recover(dim, r.value.OnDisk()) == Ok(r.value.Contents())
  {
    hide Rows, Count, SlotMap, GoodGraph, GoodEntry, LiveIds, IsRun, Recovery.Recover, Refused;
    hide Prudent, Orderly, Careful, Engine.Valid, Carried;
    r, states, steps := Execute(dim, metric, kind, events);
    ghost var s := states[|steps|];
    PrudentIsOrderly(dim, states, steps, events, s);
    OrderlyIsCareful(dim, states, steps);
    kept := RunIsItsWrites(dim, states, steps, |steps|);
    OrderlyRunRecovers(dim, states, steps, |steps|);
    if forall e | e in events && Writes(e) :: Sized(dim, OpOf(e)) {
      SizedSteps(dim, states, steps, events, s);
      if r.Err? { NeverRefused(dim, states, steps, events, s); }
    }
  }
}
