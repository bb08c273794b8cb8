/** The backpressure bound (ADR-009): how far the active MemTable can grow while the frozen queue stays full. */
module EngineBackpressure {
  import opened Types
  import opened WalLog
  import opened MemTable
  import opened EngineState

  predicate PastGate(pc: WriterPc) {
    !pc.Idle? && !pc.Checked?
  }

  /** The record a writer is going to put. */
  function RecordOf(pc: WriterPc): LogRecord
    requires !pc.Idle?
  {
    if pc.Checked? || pc.Gated? then pc.rec else pc.e.rec
  }

  ghost predicate Small(writers: seq<WriterPc>, s: nat) {
    forall t :: 0 <= t < |writers| && !writers[t].Idle? ==> RecordSize(RecordOf(writers[t])) <= s
  }

  /** What the writers past the gate may still add, at s bytes each. */
  function Reserve(writers: seq<WriterPc>, s: nat): nat {
    if writers == [] then 0
    else (if PastGate(writers[|writers| - 1]) then s else 0) + Reserve(writers[..|writers| - 1], s)
  }

  lemma {:induction false} ReserveUpdate(writers: seq<WriterPc>, s: nat, t: nat, pc: WriterPc)
    requires t < |writers|
    ensures Reserve(writers[t := pc], s) + (if PastGate(writers[t]) then s else 0) ==
            Reserve(writers, s) + (if PastGate(pc) then s else 0)
    decreases |writers|
  {
    var n := |writers| - 1;
    if t == n {
      assert writers[t := pc][..n] == writers[..n];
    } else {
      assert writers[t := pc][..n] == writers[..n][t := pc];
      ReserveUpdate(writers[..n], s, t, pc);
    }
  }

  lemma {:induction false} ReserveBound(writers: seq<WriterPc>, s: nat)
    ensures Reserve(writers, s) <= |writers| * s
  {
    if writers != [] {
      ReserveBound(writers[..|writers| - 1], s);
      assert |writers| * s == (|writers| - 1) * s + s;
    }
  }

  /** Somebody is not past the gate: their share of the reserve is free. */
  lemma ReserveWithFree(writers: seq<WriterPc>, s: nat, t: nat)
    requires t < |writers| && !PastGate(writers[t])
    ensures Reserve(writers, s) + s <= |writers| * s
  {
    ReserveUpdate(writers, s, t, Gated(LogRecord(0, "", "", "", map[])));
    ReserveBound(writers[t := Gated(LogRecord(0, "", "", "", map[]))], s);
  }

  ghost predicate QueueFull(cfg: Config, w: World) {
    w.node.Up? && |w.node.mem.frozen| >= cfg.maxFrozen
  }

  /** A stretch of a run in which the queue stays full and every writer brings at most s bytes. */
  ghost predicate FullRun(env: Env, w: World, steps: seq<Step>, w': World, s: nat)
    decreases |steps|
  {
    && QueueFull(env.cfg, w)
    && if steps == [] then w' == w
       else
         && Enabled(env, w, steps[0])
         && (steps[0].Check? ==> RecordSize(steps[0].rec) <= s)
         && FullRun(env, Do(env, w, steps[0]), steps[1..], w', s)
  }

  lemma FullCannotRotate(env: Env, w: World)
    requires QueueFull(env.cfg, w)
    ensures !Enabled(env, w, Freeze)
  {
  }

  lemma WritersKeepBound(env: Env, w: World, step: Step, s: nat, bound: int)
    requires QueueFull(env.cfg, w) && Enabled(env, w, step) && WriterStep(step)
    requires step.Check? ==> RecordSize(step.rec) <= s
    requires Small(w.node.mem.writers, s)
    requires w.node.mem.active.size + Reserve(w.node.mem.writers, s) <= bound
    requires env.cfg.hardLimit + |w.node.mem.writers| * s <= bound
    ensures var m' := Do(env, w, step).node.mem;
      && |m'.writers| == |w.node.mem.writers|
      && Small(m'.writers, s)
      && m'.active.size + Reserve(m'.writers, s) <= bound
  {
    hide RecordSize, Reserve, SegBytes, Frame, Fits, CanSwap, CanCommit, InFlight, CanCrash, CanFreeze, CanSnap,
         CreateDisk, CommitDisk, DeleteDisk, FlushFailDisk, AppendFailDisk, AppendDisk, CrashDisk, RotateMem;
    var m := w.node.mem;
    var m' := Do(env, w, step).node.mem;
    match step {
      case Check(t, rec) => ReserveUpdate(m.writers, s, t, m'.writers[t]);
      case GiveUp(t) => ReserveUpdate(m.writers, s, t, Idle);
      case Gate(t) =>
        ReserveUpdate(m.writers, s, t, m'.writers[t]);
        ReserveWithFree(m.writers, s, t);
      case Alloc(t) => ReserveUpdate(m.writers, s, t, m'.writers[t]);
      case Lock(t) => ReserveUpdate(m.writers, s, t, m'.writers[t]);
      case Append(t) => ReserveUpdate(m.writers, s, t, m'.writers[t]);
      case AppendFails(t, _) => ReserveUpdate(m.writers, s, t, Idle);
      case Put(t) => ReserveUpdate(m.writers, s, t, Idle);
    }
  }

  /** With the queue full nothing but writers touches the active table's size. */
  lemma OthersKeepSize(env: Env, w: World, step: Step)
    requires QueueFull(env.cfg, w) && Enabled(env, w, step) && QueueFull(env.cfg, Do(env, w, step)) && !WriterStep(step)
    ensures Do(env, w, step).node.mem.active.size == w.node.mem.active.size
    ensures Do(env, w, step).node.mem.writers == w.node.mem.writers
  {
    hide RecordSize, Reserve, SegBytes, Frame, Fits, CanSwap, CanCommit, InFlight, CanCrash, CanFreeze, CanSnap,
         CreateDisk, CommitDisk, DeleteDisk, FlushFailDisk, AppendFailDisk, AppendDisk, CrashDisk, RotateMem, PutTable, Stalled;
    if step.Freeze? {
      FullCannotRotate(env, w);
    }
  }

  lemma StepKeepsBound(env: Env, w: World, step: Step, s: nat, bound: int)
    requires QueueFull(env.cfg, w) && Enabled(env, w, step) && QueueFull(env.cfg, Do(env, w, step))
    requires step.Check? ==> RecordSize(step.rec) <= s
    requires Small(w.node.mem.writers, s)
    requires w.node.mem.active.size + Reserve(w.node.mem.writers, s) <= bound
    requires env.cfg.hardLimit + |w.node.mem.writers| * s <= bound
    ensures var m' := Do(env, w, step).node.mem;
      && |m'.writers| == |w.node.mem.writers|
      && Small(m'.writers, s)
      && m'.active.size + Reserve(m'.writers, s) <= bound
  {
    hide Small, Reserve, Enabled, Do, RecordSize, QueueFull;
    if WriterStep(step) {
      WritersKeepBound(env, w, step, s, bound);
    } else {
      OthersKeepSize(env, w, step);
    }
  }

  lemma {:induction false} RunKeepsBound(env: Env, w: World, steps: seq<Step>, w': World, s: nat, bound: int)
    requires FullRun(env, w, steps, w', s)
    requires Small(w.node.mem.writers, s)
    requires w.node.mem.active.size + Reserve(w.node.mem.writers, s) <= bound
    requires env.cfg.hardLimit + |w.node.mem.writers| * s <= bound
    ensures w'.node.Up? && w'.node.mem.active.size <= bound
    decreases |steps|
  {
    hide Small, Enabled, Do;
    if steps != [] {
      StepKeepsBound(env, w, steps[0], s, bound);
      RunKeepsBound(env, Do(env, w, steps[0]), steps[1..], w', s, bound);
    }
  }

  /**
   The active table is bounded over the whole stretch, whatever the writers and the flush worker do: by the
   larger of its size at the start and MemTableHardLimit, plus one record for each of the writers.
   */
  lemma ActiveIsBounded(env: Env, w: World, steps: seq<Step>, w': World, s: nat)
    requires FullRun(env, w, steps, w', s) && Small(w.node.mem.writers, s)
    ensures w'.node.Up?
    ensures var start := w.node.mem.active.size;
      w'.node.mem.active.size <=
        (if start > env.cfg.hardLimit then start else env.cfg.hardLimit) + |w.node.mem.writers| * s
  {
    hide Small, Enabled, Do;
    ReserveBound(w.node.mem.writers, s);
    var start := w.node.mem.active.size;
    RunKeepsBound(env, w, steps, w', s,
                  (if start > env.cfg.hardLimit then start else env.cfg.hardLimit) + |w.node.mem.writers| * s);
  }

  /** The bound is about the writers past the gate: a gated writer has seen the stall predicate false. */
  lemma GateMeansRoom(env: Env, w: World, t: nat)
    requires QueueFull(env.cfg, w) && Enabled(env, w, Gate(t))
    ensures w.node.mem.active.size < env.cfg.hardLimit
  {
  }

  /** The gate is shut exactly while the active table is at MemTableHardLimit and the queue is full. */
  lemma GateOpensIff(env: Env, w: World, t: nat)
    requires w.node.Up? && t < |w.node.mem.writers| && w.node.mem.writers[t].Checked?
    ensures Enabled(env, w, Gate(t)) <==>
      w.node.mem.active.size < env.cfg.hardLimit || |w.node.mem.frozen| < env.cfg.maxFrozen
  {
  }

  /** The rotation steps are there exactly when the table has reached MemTableSizeLimit and the queue has room. */
  lemma RotatesIff(env: Env, w: World, created: bool)
    requires w.node.Up? && NoReaders(w.node.mem)
    ensures Enabled(env, w, Freeze) <==>
      && !w.node.mem.fatal && w.node.mem.walOpen
      && w.node.mem.active.size >= env.cfg.softLimit && |w.node.mem.frozen| < env.cfg.maxFrozen
    ensures Enabled(env, w, SealFails(created)) <==> Enabled(env, w, Freeze)
  {
  }

  /** Once the fatal flag is up no write passes its check, no table rotates and no flush begins. */
  lemma FatalStartsNothing(env: Env, w: World, s: Step)
    requires w.node.Up? && w.node.mem.fatal && Enabled(env, w, s)
    ensures !s.Check? && !s.Freeze? && !s.SealFails? && !s.FlushCheck?
    ensures Do(env, w, s).node.Up? ==> Do(env, w, s).node.mem.fatal
  {
    hide SegBytes, Frame, Fits, CanSwap, CanCommit, InFlight, CanCrash, PutTable;
  }

  // ---- waitForStallClear ------------------------------------------------------------------------

  /** What one turn of the condition loop reads: the context, the two flags, the stall predicate, the context again. */
  datatype Turn = Turn(ctxDone: bool, closed: bool, fatal: bool, stalled: bool, ctxDoneAfter: bool)

  datatype GateResult = Clear | Backpressure | ErrClosed | ErrFatal | StillWaiting

  predicate Waits(o: Turn) {
    !o.ctxDone && !o.closed && !o.fatal && o.stalled && !o.ctxDoneAfter
  }

  /**
   The gate over whatever its environment does: stalled is the fast-path read, turns are the reads of each
   wake-up. It opens only on a read that saw no stall, and that read is the last thing it did.
   */
  method WaitForStallClear(stalled: bool, turns: seq<Turn>) returns (r: GateResult, i: nat)
    ensures !stalled ==> r == Clear && i == 0
    ensures stalled ==> i <= |turns| && forall j :: 0 <= j < i ==> Waits(turns[j])
    ensures stalled && i == |turns| ==> r == StillWaiting
    ensures stalled && i < |turns| ==> !Waits(turns[i]) && r != StillWaiting
    ensures stalled && r == Clear ==>
      !turns[i].stalled && !turns[i].ctxDone && !turns[i].closed && !turns[i].fatal
    ensures r == Backpressure ==> turns[i].ctxDone || (turns[i].stalled && turns[i].ctxDoneAfter)
    ensures r == ErrClosed ==> turns[i].closed && !turns[i].ctxDone
    ensures r == ErrFatal ==> turns[i].fatal && !turns[i].closed && !turns[i].ctxDone
  {
    i := 0;
    if !stalled {
      return Clear, 0;
    }
    while i < |turns|
      invariant i <= |turns|
      invariant forall j :: 0 <= j < i ==> Waits(turns[j])
    {
      if turns[i].ctxDone {
        return Backpressure, i;
      }
      if turns[i].closed {
        return ErrClosed, i;
      }
      if turns[i].fatal {
        return ErrFatal, i;
      }
      if !turns[i].stalled {
        return Clear, i;
      }
      if turns[i].ctxDoneAfter {
        return Backpressure, i;
      }
      i := i + 1;
    }
    return StillWaiting, i;
  }
}
