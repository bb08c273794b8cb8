/** Structure and read refinement: what holds in every reachable state, under any interleaving, with no proviso. */
module EngineReads {
  import opened Bytes
  import opened Types
  import opened MemTable
  import opened EngineState
  import opened WalLog
  import opened Wal

  /** Get's search order: the first layer that has the DocID answers. */
  function SearchLayers(layers: seq<map<DocID, LogRecord>>, d: DocID): Option<LogRecord> {
    if layers == [] then None
    else if d in layers[0] then Some(layers[0][d])
    else SearchLayers(layers[1..], d)
  }

  lemma {:induction false} SearchIsLookup(layers: seq<map<DocID, LogRecord>>, d: DocID)
    ensures SearchLayers(layers, d) == Lookup(Overlay(layers), d)
  {
    if layers != [] {
      SearchIsLookup(layers[1..], d);
    }
  }

  lemma {:induction false} OverlayConcat(a: seq<map<DocID, LogRecord>>, b: seq<map<DocID, LogRecord>>)
    ensures Overlay(a + b) == Overlay(b) + Overlay(a)
    decreases |a|
  {
    if a == [] {
      assert a + b == b;
    } else {
      assert (a + b)[1..] == a[1..] + b;
      OverlayConcat(a[1..], b);
    }
  }

  /** The oldest frozen table is the last of the frozen layers. */
  lemma {:induction false} FrozenLayersOldest(frozen: seq<Table>)
    requires frozen != []
    ensures FrozenLayers(frozen) == FrozenLayers(frozen[1..]) + [frozen[0].contents]
    decreases |frozen|
  {
    var n := |frozen| - 1;
    if n > 0 {
      FrozenLayersOldest(frozen[..n]);
      assert frozen[..n][1..] == frozen[1..][..n - 1];
    } else {
      assert frozen[..0] == [] && frozen[1..] == [];
    }
  }

  /** The engine's numbered invariants 2, 3, 4, 7 and 8 and the flush worker's snapshot. */
  ghost predicate Structure(cfg: Config, m: Mem) {
    && |m.frozen| == |m.frozenWALs| <= cfg.maxFrozen
    && (forall i :: 0 <= i < |m.frozen| ==> m.frozen[i].frozen)
    && (m.active.frozen <==> !m.walOpen)
    && (!m.walOpen ==> m.fatal)
    && (forall t :: 0 <= t < |m.writers| && HoldsReadLock(m.writers[t]) ==> m.walOpen)
    && (FlushHasSnapshot(m.flush) ==>
          m.frozen != [] && m.frozen[0] == m.flush.table && m.frozenWALs[0] == m.flush.seg)
    && (m.flush.FCommitted? ==> m.flush.sst.contents == m.flush.table.contents)
  }

  ghost predicate ReadInv(env: Env, w: World) {
    w.node.Up? ==> Structure(env.cfg, w.node.mem) && w.view == View(w.node.mem)
  }

  lemma RotateKeepsView(m: Mem, n: nat)
    ensures View(RotateMem(m, n)) == View(m)
  {
    var m' := RotateMem(m, n);
    assert m'.frozen[..|m.frozen|] == m.frozen;
    var rest := FrozenLayers(m.frozen) + SstLayers(m.sstables);
    assert Layers(m') == [map[]] + Layers(m);
    OverlayConcat([map[]], Layers(m));
    assert Overlay([map[]]) == map[];
  }

  /** The phase-4 swap leaves the list of layers as it is. */
  lemma SwapKeepsLayers(m: Mem, sst: Sst)
    requires m.frozen != [] && m.frozenWALs != [] && sst.contents == m.frozen[0].contents
    ensures Layers(SwapMem(m, sst)) == Layers(m)
  {
    FrozenLayersOldest(m.frozen);
    assert SstLayers([sst] + m.sstables) == [sst.contents] + SstLayers(m.sstables);
  }

  lemma PutUpdatesView(m: Mem, id: DocID, rec: LogRecord)
    ensures View(m.(active := PutTable(m.active, id, rec))) == View(m)[id := rec]
  {
    hide FrozenLayers, SstLayers, PutTable, Overlay;
    var m' := m.(active := PutTable(m.active, id, rec));
    var rest := FrozenLayers(m.frozen) + SstLayers(m.sstables);
    assert Layers(m) == [m.active.contents] + rest;
    assert Layers(m') == [m'.active.contents] + rest;
    OverlayConcat([m.active.contents], rest);
    OverlayConcat([m'.active.contents], rest);
    OverlayOne(m.active.contents);
    OverlayOne(m'.active.contents);
  }

  lemma OverlayOne(layer: map<DocID, LogRecord>)
    ensures Overlay([layer]) == layer
  {
    var one: seq<map<DocID, LogRecord>> := [layer];
    assert one[1..] == [] && Overlay(one) == Overlay([]) + layer;
  }

  /** What a step in the running node does to the answers of Get. */
  lemma UpStepView(env: Env, w: World, s: Step)
    requires ReadInv(env, w) && Enabled(env, w, s) && w.node.Up? && !s.Crash?
    ensures Do(env, w, s).node.Up?
    ensures View(Do(env, w, s).node.mem) == if s.Put? then PutView(w.node.mem, w.view, s.t) else w.view
  {
    hide View, SegBytes, Structure;
    var m := w.node.mem;
    match s {
      case Put(t) =>
        PutUpdatesView(m, m.writers[t].e.id, m.writers[t].e.rec);
        SameLayers(m.(active := PutTable(m.active, m.writers[t].e.id, m.writers[t].e.rec)), PutMem(m, t));
      case Freeze => RotateKeepsView(m, |SegBytes(w.disk, m.nextSeg)|);
      case FlushSwap => SwappedKeepsView(env.cfg, m);
      case SealFails(_) => SealFailKeepsView(m);
      case Open(_) =>
      case Crash(_, _, _) =>
      case _ => SameLayers(m, Do(env, w, s).node.mem);
    }
  }

  lemma SameLayers(m: Mem, m': Mem)
    requires m'.active == m.active && m'.frozen == m.frozen && m'.sstables == m.sstables
    ensures View(m') == View(m)
  {
  }

  lemma SealFailKeepsView(m: Mem)
    ensures View(SealFailMem(m)) == View(m)
  {
  }

  lemma SwappedKeepsView(cfg: Config, m: Mem)
    requires Structure(cfg, m) && CanSwap(m)
    ensures View(SwappedMem(m)) == View(m)
  {
    hide Overlay;
    SwapKeepsLayers(m, m.flush.sst);
    SameLayers(SwapMem(m, m.flush.sst), SwappedMem(m));
  }

  lemma RotateKeepsStructure(cfg: Config, m: Mem, n: nat)
    requires Structure(cfg, m) && CanFreeze(cfg, m)
    ensures Structure(cfg, RotateMem(m, n))
  {
  }

  lemma SwapKeepsStructure(cfg: Config, m: Mem)
    requires Structure(cfg, m) && CanSwap(m)
    ensures Structure(cfg, SwappedMem(m))
  {
  }

  /** Steps of a writer t: the tables stay as frozen as they were. */
  lemma WriterKeepsStructure(cfg: Config, m: Mem, m': Mem, t: nat)
    requires Structure(cfg, m) && t < |m.writers| && |m'.writers| == |m.writers|
    requires forall u :: 0 <= u < |m.writers| && u != t ==> m'.writers[u] == m.writers[u]
    requires HoldsReadLock(m'.writers[t]) ==> m.walOpen || HoldsReadLock(m.writers[t])
    requires m'.active.frozen == m.active.frozen && m'.frozen == m.frozen && m'.frozenWALs == m.frozenWALs
    requires m'.walOpen == m.walOpen && m'.fatal == m.fatal && m'.flush == m.flush
    ensures Structure(cfg, m')
  {
  }

  lemma FlushKeepsStructure(cfg: Config, m: Mem)
    requires Structure(cfg, m)
    ensures CanSnap(m) ==> Structure(cfg, SnapMem(m))
    ensures m.flush.FSnapped? ==> Structure(cfg, CreateMem(m))
    ensures Structure(cfg, m.(flush := FIdle)) && Structure(cfg, m.(flush := FChecked))
  {
  }

  lemma CommitKeepsStructure(cfg: Config, m: Mem, sst: Sst)
    requires Structure(cfg, m) && CanCommit(m, sst)
    ensures Structure(cfg, CommitMem(m, sst))
  {
  }

  lemma FlushFailKeepsStructure(cfg: Config, m: Mem, fatal: bool)
    requires Structure(cfg, m)
    ensures Structure(cfg, m.(flush := FIdle, fatal := m.fatal || fatal))
  {
  }

  lemma SealFailKeepsStructure(cfg: Config, m: Mem)
    requires Structure(cfg, m) && CanFreeze(cfg, m)
    ensures Structure(cfg, SealFailMem(m))
  {
  }

  lemma WritersKeepStructure(env: Env, w: World, s: Step)
    requires w.node.Up? && Structure(env.cfg, w.node.mem) && Enabled(env, w, s) && WriterStep(s)
    ensures Do(env, w, s).node.Up? && Structure(env.cfg, Do(env, w, s).node.mem)
  {
    hide SegBytes, Exact, PutTable, Fits, Frame, AppendDisk, AppendFailDisk, PutView, Stalled, MayRotate, RotateMem, SwappedMem, SealFailMem, CanSwap, CanFreeze,
         CanCommit, NextID, Structure;
    var m := w.node.mem;
    match s {
      case Check(t, rec) => WriterKeepsStructure(env.cfg, m, SetWriter(m, t, Checked(rec)), t);
      case GiveUp(t) => WriterKeepsStructure(env.cfg, m, SetWriter(m, t, Idle), t);
      case Gate(t) => WriterKeepsStructure(env.cfg, m, SetWriter(m, t, Gated(m.writers[t].rec)), t);
      case Alloc(t) => WriterKeepsStructure(env.cfg, m, AllocMem(m, t), t);
      case Lock(t) => WriterKeepsStructure(env.cfg, m, SetWriter(m, t, Locked(m.writers[t].e)), t);
      case Append(t) => WriterKeepsStructure(env.cfg, m, AppendMem(env.c, m, w.disk, t), t);
      case AppendFails(t, _) => WriterKeepsStructure(env.cfg, m, SetWriter(m, t, Idle), t);
      case Put(t) => WriterKeepsStructure(env.cfg, m, PutMem(m, t), t);
    }
  }

  lemma OthersKeepStructure(env: Env, w: World, s: Step)
    requires w.node.Up? && Structure(env.cfg, w.node.mem) && Enabled(env, w, s) && !WriterStep(s) && !s.Crash?
    ensures Do(env, w, s).node.Up? && Structure(env.cfg, Do(env, w, s).node.mem)
  {
    hide SegBytes, Exact, CreateDisk, CommitDisk, DeleteDisk, FlushFailDisk, WriteSeg, Stalled, MayRotate, RotateMem, SwappedMem, SealFailMem, CanSwap, CanFreeze,
         CanCommit, NextID, Structure;
    var m := w.node.mem;
    match s {
      case Freeze => RotateKeepsStructure(env.cfg, m, |SegBytes(w.disk, m.nextSeg)|);
      case SealFails(_) => SealFailKeepsStructure(env.cfg, m);
      case FlushSwap => SwapKeepsStructure(env.cfg, m);
      case FlushCheck => FlushKeepsStructure(env.cfg, m);
      case FlushNothing => FlushKeepsStructure(env.cfg, m);
      case FlushSnap => FlushKeepsStructure(env.cfg, m);
      case FlushCreate => FlushKeepsStructure(env.cfg, m);
      case FlushCommit(sst) => CommitKeepsStructure(env.cfg, m, sst);
      case FlushDelete(_) => FlushKeepsStructure(env.cfg, m);
      case FlushFails(_, fatal) => FlushFailKeepsStructure(env.cfg, m, fatal);
      case Open(_) =>
    }
  }

  lemma StepKeepsStructure(env: Env, w: World, s: Step)
    requires w.node.Up? && Structure(env.cfg, w.node.mem) && Enabled(env, w, s) && !s.Crash?
    ensures Do(env, w, s).node.Up? && Structure(env.cfg, Do(env, w, s).node.mem)
  {
    hide Structure, Enabled, Do;
    if WriterStep(s) {
      WritersKeepStructure(env, w, s);
    } else {
      OthersKeepStructure(env, w, s);
    }
  }

  lemma OpenedStructure(env: Env, d: Disk, ch: OpenChoice)
    requires CanOpen(env, d, ch)
    ensures Structure(env.cfg, OpenedMem(env, d, ch))
  {
    hide ReplaySegs, AdoptedSegs;
    ReplaySegsNotFrozen(env.c, AdoptedSegs(d), ch.ids, Cutoff(ch.order), EMPTY);
  }

  lemma StepKeepsReads(env: Env, w: World, s: Step)
    requires ReadInv(env, w) && Enabled(env, w, s)
    ensures ReadInv(env, Do(env, w, s))
  {
    hide View, Structure, CanOpen, OpenedMem, OpenedDisk;
    if w.node.Down? {
      OpenedStructure(env, w.disk, s.ch);
    } else if !s.Crash? {
      UpStepView(env, w, s);
      StepKeepsStructure(env, w, s);
    }
  }

  lemma {:induction false} ReplayRecordsNotFrozen(c: Codec, rs: seq<Record>, cutoff: DocID, t: Table)
    requires !t.frozen
    ensures var r := ReplayRecords(c, rs, cutoff, t); r.Some? ==> !r.value.frozen
    decreases |rs|
  {
    hide PutTable, DecodePayload;
    if rs != [] {
      var p := DecodePayload(rs[0].payload);
      if p.Some? && c.unmarshal(p.value.1).Some? {
        ReplayRecordsNotFrozen(c, rs[1..], cutoff, PutTable(t, p.value.0, c.unmarshal(p.value.1).value));
      }
      ReplayRecordsNotFrozen(c, rs[1..], cutoff, t);
    }
  }

  lemma {:induction false} ReplaySegsNotFrozen(c: Codec, segs: map<nat, seq<byte>>, ids: seq<nat>, cutoff: DocID,
                                               t: Table)
    requires forall id | id in ids :: id in segs
    requires !t.frozen
    ensures var r := ReplaySegs(c, segs, ids, cutoff, t); r.Some? ==> !r.value.frozen
    decreases |ids|
  {
    hide ReplayRecords, Replay;
    if ids != [] {
      var rs := Replay(segs[ids[0]], 0);
      ReplayRecordsNotFrozen(c, rs, cutoff, t);
      if ReplayRecords(c, rs, cutoff, t).Some? {
        ReplaySegsNotFrozen(c, segs, ids[1..], cutoff, ReplayRecords(c, rs, cutoff, t).value);
      }
    }
  }

  /** Reads refine the abstract map over every run whatsoever. */
  lemma {:induction false} RunKeepsReads(env: Env, w: World, steps: seq<Step>, w': World)
    requires ReadInv(env, w) && Runs(env, w, steps, w')
    ensures ReadInv(env, w')
    decreases |steps|
  {
    hide ReadInv, Enabled, Do;
    if steps != [] {
      StepKeepsReads(env, w, steps[0]);
      RunKeepsReads(env, Do(env, w, steps[0]), steps[1..], w');
    }
  }

  /**
   From the empty directory on, in every reachable state, Get answers from the abstract map: what the last Open
   recovered, and the puts since.
   */
  lemma GetRefinesView(env: Env, steps: seq<Step>, w: World, d: DocID)
    requires Runs(env, INITIAL, steps, w) && w.node.Up?
    ensures SearchLayers(Layers(w.node.mem), d) == Lookup(w.view, d)
    ensures Structure(env.cfg, w.node.mem)
  {
    RunKeepsReads(env, INITIAL, steps, w);
    SearchIsLookup(Layers(w.node.mem), d);
  }

  // ---- segment ids ------------------------------------------------------------------------------

  ghost predicate SegmentsFromOne(w: World) {
    && 0 !in w.disk.segs
    && (w.node.Up? ==> w.node.mem.activeSeg > 0 && w.node.mem.nextSeg > 0)
  }

  lemma StepKeepsFromOne(env: Env, w: World, s: Step)
    requires SegmentsFromOne(w) && Enabled(env, w, s)
    ensures SegmentsFromOne(Do(env, w, s))
  {
    hide Recovered, LoadedAs, View, PutTable, Fits, Frame, Exact, InFlight, IsMaxOrZero;
    if s.Open? {
      assert s.ch.ids[|s.ch.ids| - 1] in s.ch.ids;
    }
  }

  /** No run creates segment 0, the one id recovery reads as "no segment". */
  lemma {:induction false} RunKeepsFromOne(env: Env, w: World, steps: seq<Step>, w': World)
    requires SegmentsFromOne(w) && Runs(env, w, steps, w')
    ensures SegmentsFromOne(w')
    decreases |steps|
  {
    hide SegmentsFromOne, Enabled, Do;
    if steps != [] {
      StepKeepsFromOne(env, w, steps[0]);
      RunKeepsFromOne(env, Do(env, w, steps[0]), steps[1..], w');
    }
  }

  lemma NoSegmentZero(env: Env, steps: seq<Step>, w: World)
    requires Runs(env, INITIAL, steps, w)
    ensures 0 !in w.disk.segs
  {
    hide Runs;
    RunKeepsFromOne(env, INITIAL, steps, w);
  }

  // ---- completed puts ---------------------------------------------------------------------------

  ghost function DonePut(w: World, s: Step, done: map<DocID, LogRecord>): map<DocID, LogRecord> {
    if w.node.Up? && s.Put? && CanPut(w.node.mem, s.t) then PutView(w.node.mem, done, s.t) else done
  }

  /** The puts a list of steps completes from w on, on top of done. No recovery resets it. */
  ghost function Completed(env: Env, w: World, steps: seq<Step>, done: map<DocID, LogRecord>): map<DocID, LogRecord>
    decreases |steps|
  {
    if steps == [] || !Enabled(env, w, steps[0]) then done
    else Completed(env, Do(env, w, steps[0]), steps[1..], DonePut(w, steps[0], done))
  }

  lemma {:induction false} ViewIsCompleted(env: Env, w: World, steps: seq<Step>, w': World)
    requires ReadInv(env, w) && w.node.Up? && Runs(env, w, steps, w')
    requires forall s | s in steps :: !s.Crash?
    ensures w'.node.Up? && w'.view == Completed(env, w, steps, w.view)
    decreases |steps|
  {
    hide ReadInv, Do, Enabled, View;
    if steps != [] {
      assert steps[0] in steps;
      StepKeepsReads(env, w, steps[0]);
      StepView(env, w, steps[0]);
      ViewIsCompleted(env, Do(env, w, steps[0]), steps[1..], w');
    }
  }

  lemma StepView(env: Env, w: World, s: Step)
    requires w.node.Up? && Enabled(env, w, s) && !s.Crash?
    ensures Do(env, w, s).node.Up? && Do(env, w, s).view == DonePut(w, s, w.view)
  {
  }

  /**
   Between two recoveries, with no proviso at all, Get answers exactly from what the last Open recovered and the
   puts completed since.
   */
  lemma GetAnswersCompletedPuts(env: Env, before: seq<Step>, w: World, steps: seq<Step>, w': World, d: DocID)
    requires Runs(env, INITIAL, before, w) && w.node.Up?
    requires Runs(env, w, steps, w') && forall s | s in steps :: !s.Crash?
    ensures w'.node.Up?
    ensures SearchLayers(Layers(w'.node.mem), d) == Lookup(Completed(env, w, steps, View(w.node.mem)), d)
  {
    hide View, Layers, Runs, Structure;
    RunKeepsReads(env, INITIAL, before, w);
    ViewIsCompleted(env, w, steps, w');
    RunKeepsReads(env, w, steps, w');
    SearchIsLookup(Layers(w'.node.mem), d);
    ViewIsOverlay(w'.node.mem);
  }

  lemma ViewIsOverlay(m: Mem)
    ensures View(m) == Overlay(Layers(m))
  {
    hide Overlay, Layers;
  }

  /** No step but a completed put changes what Get answers while the node is up: not a rotation, not the swap,
      not a failed flush or its retry, not a write that fails. */
  lemma StepAnswers(env: Env, w: World, s: Step, d: DocID)
    requires ReadInv(env, w) && Enabled(env, w, s)
    requires w.node.Up? && !s.Crash?
    ensures Do(env, w, s).node.Up?
    ensures SearchLayers(Layers(Do(env, w, s).node.mem), d) ==
            if s.Put? && d == w.node.mem.writers[s.t].e.id then Some(w.node.mem.writers[s.t].e.rec)
            else SearchLayers(Layers(w.node.mem), d)
  {
    hide Layers, SearchLayers, Overlay, Do, Enabled, Structure;
    UpStepView(env, w, s);
    SearchIsLookup(Layers(w.node.mem), d);
    SearchIsLookup(Layers(Do(env, w, s).node.mem), d);
  }

  /** The retry loop of Write is dead code: a writer between append and put never meets a frozen table. */
  lemma LoggedWriterCanPut(env: Env, steps: seq<Step>, w: World, t: nat)
    requires Runs(env, INITIAL, steps, w) && w.node.Up?
    requires t < |w.node.mem.writers| && w.node.mem.writers[t].Logged?
    ensures Enabled(env, w, Put(t))
  {
    hide View;
    RunKeepsReads(env, INITIAL, steps, w);
    assert HoldsReadLock(w.node.mem.writers[t]);
  }

  /** The "frozen list mutated" error of phase 4 is dead code: an open SSTable can be swapped in as soon as no
      writer holds the read lock. */
  lemma CommittedFlushCanSwap(env: Env, steps: seq<Step>, w: World)
    requires Runs(env, INITIAL, steps, w) && w.node.Up?
    requires w.node.mem.flush.FCommitted? && NoReaders(w.node.mem)
    ensures Enabled(env, w, FlushSwap)
  {
    hide View, Runs;
    RunKeepsReads(env, INITIAL, steps, w);
  }
}
