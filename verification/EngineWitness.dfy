/** Runs from the empty directory into the failing cases of EngineLoss and EngineTail, each losing a write. */
module EngineWitness {
  import opened Bytes
  import opened Types
  import opened Wal
  import opened WalRecord
  import opened WalLog
  import opened MemTable
  import opened EngineState
  import opened EngineReads
  import opened EngineInv
  import opened EngineDurability
  import opened EngineLoss
  import opened EngineTail

  // ---- opening a directory that holds nothing yet -----------------------------------------------

  function FreshMem(n: nat, synced: nat): Mem {
    Mem(EMPTY, [], [], [], 0, 1, 2, synced, 0, true, false, seq(n, _ => Idle), FIdle)
  }

  function FreshChoice(n: nat): OpenChoice {
    OpenChoice([], {}, [1], {}, 0, 0, n)
  }

  /** A directory without SSTables whose one segment replays to nothing opens as a fresh engine. */
  lemma OpensFresh(env: Env, w: World, s: seq<byte>, n: nat)
    requires w.node.Down? && AdoptedSegs(w.disk) == map[1 := s] && Replay(s, 0) == []
    requires w.disk.ssts == map[] && w.disk.tmps == {}
    ensures Enabled(env, w, Open(FreshChoice(n)))
    ensures Do(env, w, Open(FreshChoice(n)))
            == World(Up(FreshMem(n, |s|)), Disk(map[1 := s], map[], {}), map[], w.attempted)
  {
    hide Replay;
    var ch, d := FreshChoice(n), w.disk;
    assert ch.ids[1..] == [] && ch.order == [];
    assert ReplayRecords(env.c, [], 0, EMPTY) == Some(EMPTY);
    assert ReplaySegs(env.c, AdoptedSegs(d), [1], 0, EMPTY) == ReplaySegs(env.c, AdoptedSegs(d), [], 0, EMPTY);
    assert Cutoff([]) == 0;
    assert Recovered(env, d, ch) == Some(EMPTY);
    var idle: seq<WriterPc> := seq(n, _ => Idle);
    assert OpenedMem(env, d, ch).writers == idle;
    assert OpenedMem(env, d, ch) == FreshMem(n, |s|);
    assert OpenedDisk(d, ch).segs == map[1 := s];
    FreshView(n, |s|);
  }

  lemma FreshView(n: nat, synced: nat)
    ensures View(FreshMem(n, synced)) == map[]
  {
    assert Layers(FreshMem(n, synced)) == [map[]];
    OverlayOne(map[]);
  }

  // ---- writers on a fresh engine ----------------------------------------------------------------

  /** Writers on an engine that has put nothing yet; its only segment holds the bytes s. */
  ghost function Fresh(writers: seq<WriterPc>, alloc: DocID, s: seq<byte>, attempted: set<Entry>): World {
    World(Up(FreshMem(|writers|, |s|).(writers := writers, alloc := alloc)), Disk(map[1 := s], map[], {}), map[], attempted)
  }

  lemma Moves(env: Env, writers: seq<WriterPc>, t: nat, alloc: DocID, s: seq<byte>, attempted: set<Entry>, rec: LogRecord)
    requires env.cfg.maxFrozen > 0 && t < |writers| && alloc + 1 < U64
    ensures var w := Fresh(writers, alloc, s, attempted);
      && (writers[t] == Idle ==> Leads(env, w, Check(t, rec), Fresh(writers[t := Checked(rec)], alloc, s, attempted)))
      && (writers[t] == Checked(rec) ==> Leads(env, w, Gate(t), Fresh(writers[t := Gated(rec)], alloc, s, attempted)))
      && (writers[t] == Gated(rec) ==>
            var e := Entry(alloc + 1, rec);
            Leads(env, w, Alloc(t), Fresh(writers[t := Allocated(e)], alloc + 1, s, attempted + {e})))
      && (writers[t].Allocated? ==>
            Leads(env, w, Lock(t), Fresh(writers[t := Locked(writers[t].e)], alloc, s, attempted)))
  {
  }

  ghost predicate Leads(env: Env, w: World, s: Step, w': World) {
    Enabled(env, w, s) && Careful(env, w, s) && Do(env, w, s) == w'
  }

  lemma Then(env: Env, steps: seq<Step>, w: World, s: Step, w': World)
    requires CarefulRun(env, INITIAL, steps, w) && Leads(env, w, s, w')
    ensures CarefulRun(env, INITIAL, steps + [s], w')
  {
    hide CarefulRun, Enabled, Careful, Do;
    One(env, w, s);
    Join(env, INITIAL, steps, w, [s], w');
  }

  /** A writer passes the fatal check and the gate. */
  function Enter(t: nat, rec: LogRecord): seq<Step> {
    [Check(t, rec)] + [Gate(t)]
  }

  lemma Enters(env: Env, steps: seq<Step>, writers: seq<WriterPc>, t: nat, alloc: DocID, s: seq<byte>,
               attempted: set<Entry>, rec: LogRecord)
    requires env.cfg.maxFrozen > 0 && t < |writers| && alloc + 1 < U64 && writers[t] == Idle
    requires CarefulRun(env, INITIAL, steps, Fresh(writers, alloc, s, attempted))
    ensures CarefulRun(env, INITIAL, steps + Enter(t, rec), Fresh(writers[t := Gated(rec)], alloc, s, attempted))
  {
    hide CarefulRun, Leads, Fresh;
    var mid := writers[t := Checked(rec)];
    Moves(env, writers, t, alloc, s, attempted, rec);
    Then(env, steps, Fresh(writers, alloc, s, attempted), Check(t, rec), Fresh(mid, alloc, s, attempted));
    Moves(env, mid, t, alloc, s, attempted, rec);
    assert mid[t := Gated(rec)] == writers[t := Gated(rec)];
    Then(env, steps + [Check(t, rec)], Fresh(mid, alloc, s, attempted), Gate(t),
         Fresh(writers[t := Gated(rec)], alloc, s, attempted));
    assert steps + [Check(t, rec)] + [Gate(t)] == steps + Enter(t, rec);
  }

  lemma Allocates(env: Env, steps: seq<Step>, writers: seq<WriterPc>, t: nat, alloc: DocID, s: seq<byte>,
                  attempted: set<Entry>, rec: LogRecord)
    requires env.cfg.maxFrozen > 0 && t < |writers| && alloc + 1 < U64 && writers[t] == Gated(rec)
    requires CarefulRun(env, INITIAL, steps, Fresh(writers, alloc, s, attempted))
    ensures var e := Entry(alloc + 1, rec);
      CarefulRun(env, INITIAL, steps + [Alloc(t)], Fresh(writers[t := Allocated(e)], alloc + 1, s, attempted + {e}))
  {
    hide CarefulRun, Leads, Fresh;
    var e := Entry(alloc + 1, rec);
    Moves(env, writers, t, alloc, s, attempted, rec);
    Then(env, steps, Fresh(writers, alloc, s, attempted), Alloc(t),
         Fresh(writers[t := Allocated(e)], alloc + 1, s, attempted + {e}));
  }

  lemma Locks(env: Env, steps: seq<Step>, writers: seq<WriterPc>, t: nat, alloc: DocID, s: seq<byte>,
              attempted: set<Entry>)
    requires env.cfg.maxFrozen > 0 && t < |writers| && alloc + 1 < U64 && writers[t].Allocated?
    requires CarefulRun(env, INITIAL, steps, Fresh(writers, alloc, s, attempted))
    ensures CarefulRun(env, INITIAL, steps + [Lock(t)], Fresh(writers[t := Locked(writers[t].e)], alloc, s, attempted))
  {
    hide CarefulRun, Leads, Fresh;
    Moves(env, writers, t, alloc, s, attempted, writers[t].e.rec);
    Then(env, steps, Fresh(writers, alloc, s, attempted), Lock(t),
         Fresh(writers[t := Locked(writers[t].e)], alloc, s, attempted));
  }

  lemma NoStepsRun(env: Env)
    ensures CarefulRun(env, INITIAL, [], INITIAL)
  {
  }

  /** Open on a directory whose one segment replays to nothing. */
  lemma Opens(env: Env, steps: seq<Step>, w: World, s: seq<byte>, n: nat)
    requires CarefulRun(env, INITIAL, steps, w)
    requires w.node.Down? && AdoptedSegs(w.disk) == map[1 := s] && Replay(s, 0) == []
    requires w.disk.ssts == map[] && w.disk.tmps == {}
    ensures CarefulRun(env, INITIAL, steps + [Open(FreshChoice(n))], Fresh(seq(n, _ => Idle), 0, s, w.attempted))
  {
    hide CarefulRun, Replay, Enabled, Careful, Do, AdoptedSegs;
    OpensFresh(env, w, s, n);
    OpenCareful(env, w, FreshChoice(n));
    Then(env, steps, w, Open(FreshChoice(n)), Fresh(seq(n, _ => Idle), 0, s, w.attempted));
  }

  // ---- out of order -----------------------------------------------------------------------------

  function OutOfOrderSteps(rec: LogRecord): seq<Step> {
    [Open(FreshChoice(2))] + Enter(0, rec) + Enter(1, rec) + [Alloc(0)] + [Alloc(1)] + [Lock(1)] + [Append(1)] + [Put(1)]
  }

  /** Writer 0 holds DocID 1, writer 1 has put DocID 2. */
  ghost function OutOfOrderWorld(env: Env, rec: LogRecord): World
    requires Fits(env.c, Entry(2, rec))
  {
    var frame := Frame(env.c, Entry(2, rec));
    World(Up(FreshMem(2, |frame|).(active := PutTable(EMPTY, 2, rec), alloc := 2,
                                   writers := [Allocated(Entry(1, rec)), Idle])),
          Disk(map[1 := frame], map[], {}), map[2 := rec], {Entry(1, rec), Entry(2, rec)})
  }

  /** The input of OutOfOrderRotationLoses is real: two writers reach it from the empty directory in ten steps. */
  lemma OutOfOrderIsReachable(env: Env, rec: LogRecord)
    requires Fits(env.c, Entry(2, rec)) && env.cfg.maxFrozen > 0
    ensures CarefulRun(env, INITIAL, OutOfOrderSteps(rec), OutOfOrderWorld(env, rec))
  {
    hide Fits, CarefulRun, Fresh, OutOfOrderWorld, Replay;
    var one, two := Entry(1, rec), Entry(2, rec);
    EmptyReplay();
    NoStepsRun(env);
    Opens(env, [], INITIAL, [], 2);
    var idle: seq<WriterPc> := seq(2, _ => Idle);
    assert idle == [Idle, Idle];
    var steps := [Open(FreshChoice(2))];
    assert [] + steps == steps;
    Enters(env, steps, [Idle, Idle], 0, 0, [], {}, rec);
    assert [Idle, Idle][0 := Gated(rec)] == [Gated(rec), Idle];
    steps := steps + Enter(0, rec);
    Enters(env, steps, [Gated(rec), Idle], 1, 0, [], {}, rec);
    assert [Gated(rec), Idle][1 := Gated(rec)] == [Gated(rec), Gated(rec)];
    steps := steps + Enter(1, rec);
    Allocates(env, steps, [Gated(rec), Gated(rec)], 0, 0, [], {}, rec);
    assert [Gated(rec), Gated(rec)][0 := Allocated(one)] == [Allocated(one), Gated(rec)] && {} + {one} == {one};
    steps := steps + [Alloc(0)];
    Allocates(env, steps, [Allocated(one), Gated(rec)], 1, 1, [], {one}, rec);
    assert [Allocated(one), Gated(rec)][1 := Allocated(two)] == [Allocated(one), Allocated(two)];
    assert {one} + {two} == {one, two};
    steps := steps + [Alloc(1)];
    Locks(env, steps, [Allocated(one), Allocated(two)], 1, 2, [], {one, two});
    assert [Allocated(one), Allocated(two)][1 := Locked(two)] == [Allocated(one), Locked(two)];
    Finish(env, steps + [Lock(1)], rec);
  }

  /** Writer 1 overtakes writer 0. */
  lemma Finish(env: Env, steps: seq<Step>, rec: LogRecord)
    requires Fits(env.c, Entry(2, rec))
    requires var e, f := Entry(1, rec), Entry(2, rec);
      CarefulRun(env, INITIAL, steps, Fresh([Allocated(e), Locked(f)], 2, [], {e, f}))
    ensures CarefulRun(env, INITIAL, steps + [Append(1)] + [Put(1)], OutOfOrderWorld(env, rec))
  {
    hide Fits, Frame, PutTable, CarefulRun, AtBoundary;
    var one, two := Entry(1, rec), Entry(2, rec);
    var w := Fresh([Allocated(one), Locked(two)], 2, [], {one, two});
    EmptyReplay();
    var w1 := Do(env, w, Append(1));
    assert [] + Frame(env.c, two) == Frame(env.c, two);
    var w2 := Do(env, w1, Put(1));
    assert w2.disk.segs == map[1 := Frame(env.c, two)];
    assert w2.node.mem.writers == [Allocated(one), Idle];
    assert w2 == OutOfOrderWorld(env, rec);
    Then(env, steps, w, Append(1), w1);
    Then(env, steps + [Append(1)], w1, Put(1), w2);
  }

  /**
   Out of order from end to end, from the empty directory: writer 0 takes DocID 1, writer 1 writes DocID 2 and
   fills the table, the table rotates, writer 0's write completes - and a crash loses it.
   */
  lemma OutOfOrderLoses(env: Env, rec: LogRecord) returns (steps: seq<Step>, w': World)
    requires Invertible(env.c) && Fits(env.c, Entry(1, rec)) && Fits(env.c, Entry(2, rec))
    requires 0 < env.cfg.softLimit <= RecordSize(rec) && env.cfg.maxFrozen > 0
    ensures CarefulRun(env, INITIAL, OutOfOrderSteps(rec), OutOfOrderWorld(env, rec))
    ensures BehindSteps(0) <= steps && CarefulRun(env, OutOfOrderWorld(env, rec), steps, w')
    ensures w'.node.Up? && SearchLayers(Layers(w'.node.mem), 1) == None
  {
    hide CarefulRun, Fits, Frame, Layers, RecordSize;
    OutOfOrderIsReachable(env, rec);
    FullEnough(env, rec);
    var t;
    t, steps, w' := OutOfOrderRotationLoses(env, OutOfOrderSteps(rec), OutOfOrderWorld(env, rec));
  }

  lemma FullEnough(env: Env, rec: LogRecord)
    requires Fits(env.c, Entry(1, rec)) && Fits(env.c, Entry(2, rec)) && env.cfg.softLimit <= RecordSize(rec) && env.cfg.maxFrozen > 0
    ensures Enabled(env, OutOfOrderWorld(env, rec), Freeze)
    ensures !InOrder(env.c, OutOfOrderWorld(env, rec), Freeze)
  {
    hide Fits, Frame, RecordSize;
    var m := OutOfOrderWorld(env, rec).node.mem;
    assert MayPut(env.c, m.writers[0]) && 2 in m.active.contents;
    assert !AllBelow(m.active.contents, m.writers[0].e.id);
  }

  // ---- the torn tail ----------------------------------------------------------------------------

  /** One writer takes a DocID and the read lock. */
  function ToLock(rec: LogRecord): seq<Step> {
    Enter(0, rec) + [Alloc(0)] + [Lock(0)]
  }

  /** The node stops one byte into the first append; the next one is about to append behind that byte. */
  function TornTailSteps(rec: LogRecord): seq<Step> {
    [Open(FreshChoice(1))] + ToLock(rec) + [Crash(0, 1, 1)] + [Open(FreshChoice(1))] + ToLock(rec)
  }

  lemma RunsToLock(env: Env, steps: seq<Step>, rec: LogRecord, s: seq<byte>, attempted: set<Entry>)
    requires env.cfg.maxFrozen > 0 && CarefulRun(env, INITIAL, steps, Fresh([Idle], 0, s, attempted))
    ensures CarefulRun(env, INITIAL, steps + ToLock(rec),
                       Fresh([Locked(Entry(1, rec))], 1, s, attempted + {Entry(1, rec)}))
  {
    hide CarefulRun, Fresh;
    var e := Entry(1, rec);
    Enters(env, steps, [Idle], 0, 0, s, attempted, rec);
    assert [Idle][0 := Gated(rec)] == [Gated(rec)];
    Allocates(env, steps + Enter(0, rec), [Gated(rec)], 0, 0, s, attempted, rec);
    assert [Gated(rec)][0 := Allocated(e)] == [Allocated(e)];
    Locks(env, steps + Enter(0, rec) + [Alloc(0)], [Allocated(e)], 0, 1, s, attempted + {e});
    assert [Allocated(e)][0 := Locked(e)] == [Locked(e)];
    assert steps + Enter(0, rec) + [Alloc(0)] + [Lock(0)] == steps + ToLock(rec);
  }

  function FirstByte(c: Codec, e: Entry): seq<byte>
    requires Fits(c, e)
  {
    Frame(c, e)[..1]
  }

  lemma FirstByteIsTorn(c: Codec, e: Entry)
    requires Fits(c, e)
    ensures Replay(FirstByte(c, e), 0) == [] && Leftover(FirstByte(c, e)) == FirstByte(c, e) && |FirstByte(c, e)| == 1
  {
    FrameIsLong(c, e);
    hide Replay, Leftover, Encode, Payload;
    ReplayTornOne(RECORD_PUT, Payload(c, e), 1, 0);
  }

  /** The crash one byte into the append, on an engine whose segment is empty. */
  lemma TornCrash(env: Env, e: Entry, attempted: set<Entry>)
    requires Fits(env.c, e)
    ensures Leads(env, Fresh([Locked(e)], 1, [], attempted), Crash(0, 1, 1),
                  World(Down, Disk(map[1 := FirstByte(env.c, e)], map[], {}), map[], attempted))
  {
    hide Fits, Frame, AtBoundary, Payload;
    FrameIsLong(env.c, e);
    EmptyReplay();
    var w := Fresh([Locked(e)], 1, [], attempted);
    var x := FirstByte(env.c, e);
    assert InFlight(env.c, w.node.mem, 0, 1) == x;
    assert ([] + x)[..1] == x;
    assert w.disk.segs[1 := x] == map[1 := x];
  }

  /** The engine recovered over one torn byte, no writer at work yet. */
  lemma TornOpenIsReachable(env: Env, rec: LogRecord)
    requires Fits(env.c, Entry(1, rec)) && env.cfg.maxFrozen > 0
    ensures var e := Entry(1, rec); var o := [Open(FreshChoice(1))];
      CarefulRun(env, INITIAL, o + ToLock(rec) + [Crash(0, 1, 1)] + o, Fresh([Idle], 0, FirstByte(env.c, e), {e}))
  {
    hide CarefulRun, Fits, Payload, Leads, Replay, Leftover, FirstByte, ToLock, Fresh;
    var e := Entry(1, rec);
    FirstByteIsTorn(env.c, e);
    EmptyReplay();
    NoStepsRun(env);
    var o := [Open(FreshChoice(1))];
    assert [] + o == o;
    var idle: seq<WriterPc> := seq(1, _ => Idle);
    assert idle == [Idle];
    Opens(env, [], INITIAL, [], 1);
    RunsToLock(env, o, rec, [], {});
    assert {} + {e} == {e};
    TornCrash(env, e, {e});
    var w := World(Down, Disk(map[1 := FirstByte(env.c, e)], map[], {}), map[], {e});
    Then(env, o + ToLock(rec), Fresh([Locked(e)], 1, [], {e}), Crash(0, 1, 1), w);
    Opens(env, o + ToLock(rec) + [Crash(0, 1, 1)], w, FirstByte(env.c, e), 1);
  }

  lemma TornTailIsReachable(env: Env, rec: LogRecord)
    requires Fits(env.c, Entry(1, rec)) && env.cfg.maxFrozen > 0
    ensures var e := Entry(1, rec); var w := Fresh([Locked(e)], 1, FirstByte(env.c, e), {e});
      && CarefulRun(env, INITIAL, TornTailSteps(rec), w)
      && Tail(w) == FirstByte(env.c, e) && |Tail(w)| == 1
  {
    hide CarefulRun, Fits, Leftover, Replay, FirstByte, ToLock;
    var e := Entry(1, rec);
    FirstByteIsTorn(env.c, e);
    TornOpenIsReachable(env, rec);
    var o := [Open(FreshChoice(1))];
    RunsToLock(env, o + ToLock(rec) + [Crash(0, 1, 1)] + o, rec, FirstByte(env.c, e), {e});
    assert {e} + {e} == {e};
  }

  /** From the empty directory: a write of any record below 16 MiB is acknowledged and does not survive the crash. */
  lemma TornTailLoses(env: Env, rec: LogRecord) returns (w: World, s: Step, ch: OpenChoice, w': World)
    requires Invertible(env.c) && env.cfg.maxFrozen > 0
    requires Fits(env.c, Entry(1, rec)) && |Payload(env.c, Entry(1, rec))| < 0x100_0000
    ensures CarefulRun(env, INITIAL, TornTailSteps(rec), w)
    ensures s.Crash? && s.k == 0 && Runs(env, w, AckThenCrash(0, s, ch), w') && w'.node.Up?
    ensures SearchLayers(Layers(w'.node.mem), 1) == None
  {
    hide CarefulRun, Runs, Fits, Payload, Layers, SearchLayers, Tail, TornTailSteps, AckThenCrash, FirstByte;
    TornTailIsReachable(env, rec);
    var torn := FirstByte(env.c, Entry(1, rec));
    w := Fresh([Locked(Entry(1, rec))], 1, torn, {Entry(1, rec)});
    assert torn == [torn[0]];
    s, ch, w' := TornByteLosesAcknowledged(env, TornTailSteps(rec), w, 0, torn[0]);
  }

  // ---- a DocID twice ----------------------------------------------------------------------------

  function OnceSteps(rec: LogRecord): seq<Step> {
    [Open(FreshChoice(1))] + Enter(0, rec)
  }

  function TwiceSteps(rec: LogRecord): seq<Step> {
    [Open(FreshChoice(1))] + ToLock(rec) + [Crash(0, 1, 1)] + [Open(FreshChoice(1))] + Enter(0, rec)
  }

  /** From the empty directory: DocID 1 is handed out, the crash tears its append, and after recovery it is handed
      out again. No put completes on the way. */
  lemma DocIDHandedOutTwice(env: Env, rec: LogRecord)
    requires Fits(env.c, Entry(1, rec)) && env.cfg.maxFrozen > 0
    ensures OnceSteps(rec) + [Alloc(0)] <= TwiceSteps(rec)
    ensures var w := Fresh([Gated(rec)], 0, [], {});
      CarefulRun(env, INITIAL, OnceSteps(rec), w) && CanAlloc(w.node.mem, 0) && AllocEntry(w.node.mem, 0).id == 1
    ensures var w := Fresh([Gated(rec)], 0, FirstByte(env.c, Entry(1, rec)), {Entry(1, rec)});
      CarefulRun(env, INITIAL, TwiceSteps(rec), w) && CanAlloc(w.node.mem, 0) && AllocEntry(w.node.mem, 0).id == 1
    ensures Completed(env, INITIAL, TwiceSteps(rec), map[]) == map[]
  {
    hide CarefulRun, Fits, Replay, FirstByte, Completed;
    var o, torn := [Open(FreshChoice(1))], FirstByte(env.c, Entry(1, rec));
    EmptyReplay();
    NoStepsRun(env);
    Opens(env, [], INITIAL, [], 1);
    var idle: seq<WriterPc> := seq(1, _ => Idle);
    assert idle == [Idle] && [] + o == o && [Idle][0 := Gated(rec)] == [Gated(rec)];
    Enters(env, o, [Idle], 0, 0, [], {}, rec);
    TornOpenIsReachable(env, rec);
    Enters(env, o + ToLock(rec) + [Crash(0, 1, 1)] + o, [Idle], 0, 0, torn, {Entry(1, rec)}, rec);
    NothingPut(env, INITIAL, TwiceSteps(rec), map[]);
  }

  lemma {:induction false} NothingPut(env: Env, w: World, steps: seq<Step>, done: map<DocID, LogRecord>)
    requires forall s | s in steps :: !s.Put?
    ensures Completed(env, w, steps, done) == done
    decreases |steps|
  {
    hide Enabled, Do;
    if steps != [] && Enabled(env, w, steps[0]) {
      assert steps[0] in steps;
      NothingPut(env, Do(env, w, steps[0]), steps[1..], done);
    }
  }
}
