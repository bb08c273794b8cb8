/**
 Recovery always finds its choices, and rotation out of DocID order does lose acknowledged writes: from every
 state in which it can happen there is a run that loses one.
 */
module EngineLoss {
  import opened Types
  import opened Wal
  import opened WalLog
  import opened MemTable
  import opened EngineState
  import opened EngineReads
  import opened EngineInv
  import opened EngineOpen
  import opened EngineDurability
  import opened EngineSizes

  // ---- Open can always be run -------------------------------------------------------------------

  lemma {:induction false} LargestNat(keys: set<nat>) returns (x: nat)
    requires keys != {}
    ensures x in keys && forall k | k in keys :: k <= x
    decreases |keys|
  {
    x :| x in keys;
    if keys != {x} {
      var y: nat := LargestNat(keys - {x});
      assert forall k | k in keys :: k == x || k in keys - {x};
      x := if x < y then y else x;
    }
  }

  lemma {:induction false} LargestDoc(keys: set<DocID>) returns (x: DocID)
    requires keys != {}
    ensures x in keys && forall k | k in keys :: k <= x
    decreases |keys|
  {
    x :| x in keys;
    if keys != {x} {
      var y: DocID := LargestDoc(keys - {x});
      assert forall k | k in keys :: k == x || k in keys - {x};
      x := if x < y then y else x;
    }
  }

  lemma {:induction false} SortIDs(keys: set<nat>) returns (ids: seq<nat>)
    ensures SortedIDs(ids, keys)
    decreases |keys|
  {
    if keys == {} {
      ids := [];
    } else {
      var x := LargestNat(keys);
      var rest := SortIDs(keys - {x});
      ids := rest + [x];
      assert forall i :: 0 <= i < |rest| ==> rest[i] in rest;
      assert forall id :: id in ids <==> id in rest || id == x;
    }
  }

  lemma {:induction false} NewestSst(ssts: map<nat, Sst>) returns (id: nat)
    requires ssts != map[]
    ensures id in ssts && forall k | k in ssts :: NotNewer(ssts[k], ssts[id])
    decreases |ssts|
  {
    id :| id in ssts;
    if ssts.Keys != {id} {
      var rest := ssts - {id};
      var other :| other in ssts.Keys && other != id;
      assert other in rest;
      var k: nat := NewestSst(rest);
      assert forall j | j in ssts :: j == id || j in rest;
      id := if NotNewer(ssts[id], ssts[k]) then k else id;
    }
  }

  lemma {:induction false} SortSsts(ssts: map<nat, Sst>) returns (order: seq<Sst>)
    requires forall id | id in ssts :: ssts[id].id == id
    ensures LoadedAs(order, ssts, {})
    decreases |ssts|
  {
    if ssts == map[] {
      order := [];
    } else {
      var id := NewestSst(ssts);
      var rest := SortSsts(ssts - {id});
      order := [ssts[id]] + rest;
      NewestInFront(ssts, id, rest);
    }
  }

  lemma NewestInFront(ssts: map<nat, Sst>, id: nat, rest: seq<Sst>)
    requires id in ssts && ssts[id].id == id
    requires forall k | k in ssts :: NotNewer(ssts[k], ssts[id])
    requires LoadedAs(rest, ssts - {id}, {})
    ensures LoadedAs([ssts[id]] + rest, ssts, {})
  {
    hide NotNewer;
    var order := [ssts[id]] + rest;
    forall i | 0 <= i < |rest|
      ensures rest[i].id in ssts && rest[i].id != id && ssts[rest[i].id] == rest[i]
    {
      assert rest[i] in rest;
    }
    forall k | k in ssts ensures ssts[k] in order {
      if k != id {
        assert (ssts - {id})[k] in rest;
      }
    }
    forall i, j | 0 <= i < j < |order| ensures order[i].id != order[j].id && NotNewer(order[j], order[i]) {
      assert order[j] == rest[j - 1];
      if i > 0 {
        assert order[i] == rest[i - 1];
      }
    }
  }

  lemma ChooseSeq(d: Disk) returns (n: nat)
    ensures (forall id | id in d.ssts :: id <= n) && (forall id | id in d.tmps :: id <= n)
    ensures n == 0 || n in d.ssts || n in d.tmps
  {
    var keys := d.ssts.Keys + d.tmps;
    if keys == {} {
      n := 0;
      assert d.ssts.Keys <= keys && d.tmps <= keys;
    } else {
      n := LargestNat(keys);
    }
  }

  /** Recovery never fails on a disk an engine left behind: Open is enabled, whatever deletes may fail. */
  lemma OpenIsEnabled(env: Env, w: World, undeleted: set<nat>, writers: nat) returns (ch: OpenChoice)
    requires Inv(env, w) && w.node.Down?
    ensures ch.quarantined == {} && ch.undeleted == undeleted && ch.writers == writers
    ensures Enabled(env, w, Open(ch))
  {
    hide MemInv, Logs, AllFramed, UniqueIDs, LogsAgree, Exact, ReplaySegs, Cutoff;
    var d := w.disk;
    var order := SortSsts(d.ssts);
    var ids := SortIDs(AdoptedSegs(d).Keys);
    var n := ChooseSeq(d);
    ch := OpenChoice(order, {}, ids, undeleted, n, 0, writers);
    OpenRebuilds(env, d, ch, w.view, w.attempted);
    var keys := Recovered(env, d, ch).value.contents.Keys;
    if keys != {} {
      var x := LargestDoc(keys);
      ch := ch.(memMax := x);
    }
    AdoptedNonEmpty(d, ids);
    assert IsMaxOrZero(ch.memMax, keys);
  }

  lemma AdoptedNonEmpty(d: Disk, ids: seq<nat>)
    requires SortedIDs(ids, AdoptedSegs(d).Keys)
    ensures ids != []
  {
    if d.segs == map[] {
      assert 1 in AdoptedSegs(d).Keys;
    } else {
      var s :| s in d.segs;
      assert s in AdoptedSegs(d).Keys;
    }
  }

  // ---- building runs ----------------------------------------------------------------------------

  /** A run that respects every proviso but the one on rotation order. */
  ghost predicate CarefulRun(env: Env, w: World, steps: seq<Step>, w': World)
    decreases |steps|
  {
    if steps == [] then w' == w
    else
      && Enabled(env, w, steps[0]) && Careful(env, w, steps[0])
      && CarefulRun(env, Do(env, w, steps[0]), steps[1..], w')
  }

  lemma {:induction false} RunKeepsInv(env: Env, w: World, steps: seq<Step>, w': World)
    requires Invertible(env.c) && Inv(env, w) && Positive(w.attempted) && CarefulRun(env, w, steps, w')
    ensures Inv(env, w') && Positive(w'.attempted)
    decreases |steps|
  {
    hide Inv, Positive, Enabled, Careful, Do;
    if steps != [] {
      StepKeepsInv(env, w, steps[0]);
      StepHistories(env, w, steps[0]);
      RunKeepsInv(env, Do(env, w, steps[0]), steps[1..], w');
    }
  }

  lemma CarefulRunInv(env: Env, steps: seq<Step>, w: World)
    requires Invertible(env.c) && CarefulRun(env, INITIAL, steps, w)
    ensures Inv(env, w) && Positive(w.attempted)
  {
    hide Inv, Positive, CarefulRun;
    InitialDurable(env);
    RunKeepsInv(env, INITIAL, steps, w);
  }

  lemma {:induction false} RunKeepsSized(env: Env, w: World, steps: seq<Step>, w': World)
    requires env.cfg.softLimit > 0 && Sized(w) && CarefulRun(env, w, steps, w')
    ensures Sized(w')
    decreases |steps|
  {
    hide Sized, Enabled, Careful, Do;
    if steps != [] {
      StepKeepsSized(env, w, steps[0]);
      RunKeepsSized(env, Do(env, w, steps[0]), steps[1..], w');
    }
  }

  lemma {:induction false} Join(env: Env, w: World, a: seq<Step>, mid: World, b: seq<Step>, w': World)
    requires CarefulRun(env, w, a, mid) && CarefulRun(env, mid, b, w')
    ensures CarefulRun(env, w, a + b, w')
    decreases |a|
  {
    hide Enabled, Careful, Do;
    if a == [] {
      assert a + b == b;
    } else {
      assert (a + b)[1..] == a[1..] + b;
      Join(env, Do(env, w, a[0]), a[1..], mid, b, w');
    }
  }

  lemma One(env: Env, w: World, s: Step)
    requires Enabled(env, w, s) && Careful(env, w, s)
    ensures CarefulRun(env, w, [s], Do(env, w, s))
  {
    hide Enabled, Careful, Do;
    assert [s][1..] == [];
  }

  // ---- the losing run ---------------------------------------------------------------------------

  lemma {:induction false} Extremes(m: map<DocID, LogRecord>) returns (lo: DocID, hi: DocID, early: DocID, late: DocID)
    requires m != map[]
    ensures lo in m && hi in m && early in m && late in m
    ensures forall d | d in m :: lo <= d <= hi && m[early].timestamp <= m[d].timestamp <= m[late].timestamp
    decreases |m|
  {
    var x :| x in m;
    lo, hi, early, late := x, x, x, x;
    var rest := m - {x};
    if rest != map[] {
      var a, b, c, d := Extremes(rest);
      lo := if a < x then a else x;
      hi := if b > x then b else x;
      early := if m[c].timestamp < m[x].timestamp then c else x;
      late := if m[d].timestamp > m[x].timestamp then d else x;
    }
    assert forall d | d in m :: d == x || d in rest;
  }

  lemma SomeExactSst(id: nat, m: map<DocID, LogRecord>) returns (s: Sst)
    requires m != map[]
    ensures s.id == id && s.contents == m && Exact(s)
  {
    var lo, hi, early, late := Extremes(m);
    s := Sst(id, m, lo, hi, m[early].timestamp, m[late].timestamp);
  }

  /** What stays put while the flush worker runs alone. */
  ghost predicate SameButFlushed(w: World, w': World) {
    && w.node.Up? && w'.node.Up?
    && w'.node.mem.active == w.node.mem.active
    && w'.node.mem.writers == w.node.mem.writers
    && w'.node.mem.fatal == w.node.mem.fatal
    && w'.view == w.view && w'.attempted == w.attempted
  }

  /** The flush worker can give up or finish what it is doing. */
  lemma GoIdle(env: Env, w: World) returns (steps: seq<Step>, w': World)
    requires w.node.Up?
    ensures CarefulRun(env, w, steps, w') && SameButFlushed(w, w')
    ensures w'.node.mem.flush.FIdle? || w'.node.mem.flush.FChecked?
    ensures w'.node.mem.frozen == w.node.mem.frozen && w'.node.mem.frozenWALs == w.node.mem.frozenWALs
  {
    var s := if w.node.mem.flush.FSwapped? then FlushDelete(false) else FlushFails(false, false);
    if w.node.mem.flush.FIdle? || w.node.mem.flush.FChecked? {
      steps, w' := [], w;
    } else {
      steps, w' := [s], Do(env, w, s);
      One(env, w, s);
    }
  }

  /** While the engine is not fatal the flush worker can get to the point where it looks at the queue. */
  lemma GoChecked(env: Env, w: World) returns (steps: seq<Step>, w': World)
    requires w.node.Up? && !w.node.mem.fatal
    ensures CarefulRun(env, w, steps, w') && SameButFlushed(w, w')
    ensures w'.node.mem.flush.FChecked?
    ensures w'.node.mem.frozen == w.node.mem.frozen && w'.node.mem.frozenWALs == w.node.mem.frozenWALs
  {
    hide CarefulRun;
    steps, w' := GoIdle(env, w);
    if w'.node.mem.flush.FIdle? {
      var w1 := w';
      w' := Do(env, w1, FlushCheck);
      One(env, w1, FlushCheck);
      Join(env, w, steps, w1, [FlushCheck], w');
      steps := steps + [FlushCheck];
    }
  }

  /** From there, the oldest frozen table can be brought to disk. */
  lemma FlushOldest(env: Env, w: World) returns (steps: seq<Step>, w': World)
    requires Invertible(env.c) && Inv(env, w) && Positive(w.attempted)
    requires w.node.Up? && w.node.mem.flush.FChecked?
    requires w.node.mem.frozen != [] && w.node.mem.frozenWALs != [] && w.node.mem.frozen[0].contents != map[]
    ensures CarefulRun(env, w, steps, w') && SameButFlushed(w, w')
    ensures w'.node.mem.frozen == w.node.mem.frozen && w'.node.mem.frozenWALs == w.node.mem.frozenWALs
    ensures w'.node.mem.flush.FCommitted? && w'.node.mem.flush.table == w.node.mem.frozen[0]
    ensures w'.node.mem.flush.sst.id in w'.disk.ssts
    ensures w'.disk.ssts[w'.node.mem.flush.sst.id].contents == w.node.mem.frozen[0].contents
  {
    hide Inv, Exact, InFlight, AtBoundary, SegBytes;
    var w1 := Do(env, w, FlushSnap);
    var w2 := Do(env, w1, FlushCreate);
    var sst := SomeExactSst(w2.node.mem.flush.sstID, w.node.mem.frozen[0].contents);
    w' := Do(env, w2, FlushCommit(sst));
    One(env, w, FlushSnap);
    One(env, w1, FlushCreate);
    One(env, w2, FlushCommit(sst));
    hide Enabled, Careful, Do;
    Join(env, w, [FlushSnap], w1, [FlushCreate], w2);
    steps := [FlushSnap] + [FlushCreate] + [FlushCommit(sst)];
    Join(env, w, [FlushSnap] + [FlushCreate], w2, [FlushCommit(sst)], w');
  }

  lemma Swap(env: Env, w: World) returns (w': World)
    requires w.node.Up? && CanSwap(w.node.mem)
    ensures CarefulRun(env, w, [FlushSwap], w') && SameButFlushed(w, w')
    ensures w'.node.mem.frozen == w.node.mem.frozen[1..] && w'.node.mem.frozenWALs == w.node.mem.frozenWALs[1..]
  {
    hide Exact, InFlight, AtBoundary, SegBytes;
    One(env, w, FlushSwap);
    w' := Do(env, w, FlushSwap);
  }

  /** With no writer in the way the flush worker alone brings the whole queue to disk, the newest table last. */
  lemma {:induction false} FlushQueue(env: Env, w: World) returns (steps: seq<Step>, w': World)
    requires Invertible(env.c) && Inv(env, w) && Positive(w.attempted)
    requires w.node.Up? && !w.node.mem.fatal && NoReaders(w.node.mem) && w.node.mem.frozen != []
    requires forall i :: 0 <= i < |w.node.mem.frozen| ==> w.node.mem.frozen[i].contents != map[]
    ensures CarefulRun(env, w, steps, w') && SameButFlushed(w, w')
    ensures exists id :: id in w'.disk.ssts &&
              w'.disk.ssts[id].contents == w.node.mem.frozen[|w.node.mem.frozen| - 1].contents
    decreases |w.node.mem.frozen|
  {
    hide Inv, Positive, CarefulRun, Exact;
    var a, w1 := GoChecked(env, w);
    RunKeepsInv(env, w, a, w1);
    assert |w1.node.mem.frozenWALs| == |w1.node.mem.frozen| by { QueuePaired(env, w1); }
    var b, w2 := FlushOldest(env, w1);
    Join(env, w, a, w1, b, w2);
    RunKeepsInv(env, w1, b, w2);
    if |w.node.mem.frozen| == 1 {
      steps, w' := a + b, w2;
    } else {
      var w3 := Swap(env, w2);
      RunKeepsInv(env, w2, [FlushSwap], w3);
      var c;
      c, w' := FlushQueue(env, w3);
      Join(env, w, a + b, w2, [FlushSwap], w3);
      Join(env, w, a + b + [FlushSwap], w3, c, w');
      steps := a + b + [FlushSwap] + c;
    }
  }

  lemma QueuePaired(env: Env, w: World)
    requires Inv(env, w) && w.node.Up?
    ensures |w.node.mem.frozenWALs| == |w.node.mem.frozen|
  {
    hide DiskInv, Logs, View, TablesInv, CoverInv, SyncInv, AllocInv, SegsInv, SstsInv, WritersInv;
  }

  /** A crash that loses nothing on disk. */
  lemma PullThePlug(env: Env, w: World) returns (s: Step)
    requires Inv(env, w) && w.node.Up?
    ensures s.Crash? && Enabled(env, w, s) && Careful(env, w, s)
  {
    hide DiskInv, Logs, View, TablesInv, CoverInv, AllocInv, SegsInv, SstsInv, WritersInv, Structure, Log;
    var m := w.node.mem;
    var file := SegBytes(w.disk, m.activeSeg);
    assert file + [] == file;
    assert InFlight(env.c, m, |m.writers|, 0) == [];
    s := Crash(|m.writers|, 0, |file|);
  }

  function BehindSteps(t: nat): seq<Step> {
    [Freeze] + [Lock(t)] + [Append(t)] + [Put(t)]
  }

  /** Rotation, then the writer that was left behind finishes its write in the new table. */
  ghost function Behind(env: Env, w: World, t: nat): World
    requires w.node.Up? && t < |w.node.mem.writers| && w.node.mem.writers[t].Allocated?
    requires Fits(env.c, w.node.mem.writers[t].e)
  {
    var m, e := w.node.mem, w.node.mem.writers[t].e;
    var frame := Frame(env.c, e);
    World(Up(RotateMem(m, |frame|).(active := PutTable(EMPTY, e.id, e.rec), writers := m.writers[t := Idle])),
          w.disk.(segs := w.disk.segs[m.nextSeg := frame]), w.view[e.id := e.rec], w.attempted)
  }

  lemma BehindRuns(env: Env, w: World, t: nat)
    requires w.node.Up? && CanFreeze(env.cfg, w.node.mem) && w.node.mem.nextSeg !in w.disk.segs
    requires t < |w.node.mem.writers| && w.node.mem.writers[t].Allocated? && Fits(env.c, w.node.mem.writers[t].e)
    ensures CarefulRun(env, w, BehindSteps(t), Behind(env, w, t))
  {
    hide Fits, Frame, AtBoundary, PutTable, CarefulRun;
    var e := w.node.mem.writers[t].e;
    var w1 := Do(env, w, Freeze);
    var w2 := Do(env, w1, Lock(t));
    var w3 := Do(env, w2, Append(t));
    var w' := Do(env, w3, Put(t));
    assert SegBytes(w2.disk, w2.node.mem.activeSeg) == [];
    EmptyReplay();
    assert [] + Frame(env.c, e) == Frame(env.c, e);
    assert w'.node.mem.writers == w.node.mem.writers[t := Idle];
    assert w'.disk.segs == w.disk.segs[w.node.mem.nextSeg := Frame(env.c, e)];
    assert w' == Behind(env, w, t);
    One(env, w, Freeze);
    One(env, w1, Lock(t));
    One(env, w2, Append(t));
    One(env, w3, Put(t));
    Join(env, w, [Freeze], w1, [Lock(t)], w2);
    Join(env, w, [Freeze] + [Lock(t)], w2, [Append(t)], w3);
    Join(env, w, [Freeze] + [Lock(t)] + [Append(t)], w3, [Put(t)], w');
  }

  lemma BehindFacts(env: Env, w: World, t: nat)
    requires w.node.Up? && CanFreeze(env.cfg, w.node.mem)
    requires t < |w.node.mem.writers| && w.node.mem.writers[t].Allocated? && Fits(env.c, w.node.mem.writers[t].e)
    ensures !Behind(env, w, t).node.mem.fatal && NoReaders(Behind(env, w, t).node.mem)
  {
    hide Fits, Frame;
  }

  /** With exact sizes the queue behind the rotation holds no empty table. */
  lemma QueueAfter(env: Env, w: World, t: nat)
    requires env.cfg.softLimit > 0 && Sized(w) && w.node.Up? && Enabled(env, w, Freeze)
    requires t < |w.node.mem.writers| && w.node.mem.writers[t].Allocated? && Fits(env.c, w.node.mem.writers[t].e)
    ensures NoneEmpty(Behind(env, w, t).node.mem.frozen)
  {
    hide SizeExact, Fits, Frame, PutTable;
    EmptySize();
  }

  lemma FreshNextSeg(env: Env, w: World)
    requires Inv(env, w) && w.node.Up? && CanFreeze(env.cfg, w.node.mem)
    ensures w.node.mem.nextSeg !in w.disk.segs
  {
    hide DiskInv, Logs, View, TablesInv, CoverInv, SyncInv, AllocInv, WritersInv, SstsInv, Structure;
  }

  /** A DocID of the active table is in no SSTable on disk. */
  lemma ActiveNotOnSst(env: Env, w: World, x: DocID)
    requires Inv(env, w) && w.node.Up? && x in w.node.mem.active.contents
    ensures !OnSst(w.disk.ssts, x)
  {
    hide DiskInv, Logs, View, CoverInv, SyncInv, AllocInv, WritersInv, SegsInv, Structure, TableInv, SstHas;
    var m := w.node.mem;
    assert !SstHas(m.sstables, x);
  }

  lemma BelowSstNotAbove(env: Env, w: World, id: nat, x: DocID, y: DocID)
    requires Inv(env, w) && id in w.disk.ssts && y in w.disk.ssts[id].contents && x < y
    ensures !AboveSsts(w.disk.ssts, x)
  {
    hide MemInv, Logs, AllFramed, UniqueIDs, LogsAgree;
    assert Exact(w.disk.ssts[id]);
  }

  lemma FreezeEnabled(env: Env, w: World)
    requires w.node.Up? && Enabled(env, w, Freeze)
    ensures CanFreeze(env.cfg, w.node.mem)
  {
  }

  lemma CrashGoesDown(env: Env, w: World, s: Step)
    requires w.node.Up? && s.Crash? && Enabled(env, w, s)
    ensures Do(env, w, s).node.Down?
  {
  }

  lemma OpenCareful(env: Env, w: World, ch: OpenChoice)
    requires w.node.Down?
    ensures Careful(env, w, Open(ch))
  {
  }

  lemma OpenedNode(env: Env, w: World, ch: OpenChoice)
    requires w.node.Down? && Enabled(env, w, Open(ch))
    ensures CanOpen(env, w.disk, ch)
    ensures Do(env, w, Open(ch)).node == Up(OpenedMem(env, w.disk, ch))
  {
    hide CanOpen, OpenedMem, OpenedDisk;
  }

  /** A rotation out of order leaves a writer behind that holds a DocID below one in the table. */
  lemma LeftBehind(env: Env, w: World) returns (t: nat, y: DocID)
    requires Inv(env, w) && w.node.Up? && Enabled(env, w, Freeze) && !InOrder(env.c, w, Freeze)
    ensures t < |w.node.mem.writers| && w.node.mem.writers[t].Allocated? && Fits(env.c, w.node.mem.writers[t].e)
    ensures y in w.node.mem.active.contents && w.node.mem.writers[t].e.id < y
  {
    hide DiskInv, Logs, View, CoverInv, SyncInv, AllocInv, SegsInv, SstsInv, Structure, Fits, Apart;
    var m, logs := w.node.mem, Logs(env.c, w.disk.segs);
    t :| 0 <= t < |m.writers| && MayPut(env.c, m.writers[t]) && !AllBelow(m.active.contents, m.writers[t].e.id);
    y :| y in m.active.contents && !(y < m.writers[t].e.id);
    assert !HoldsReadLock(m.writers[t]);
    assert WriterInv(m.writers[t], m.alloc, logs, m.activeSeg, w.view, w.attempted);
    assert TableInv(m.active.contents, logs, w.view);
  }

  /** From any state of a running node: crash between two appends, and recover. */
  lemma Recovers(env: Env, w: World) returns (s: Step, ch: OpenChoice, w': World)
    requires Invertible(env.c) && Inv(env, w) && w.node.Up?
    ensures s.Crash? && Enabled(env, w, s) && Careful(env, w, s)
    ensures CanOpen(env, Do(env, w, s).disk, ch) && ch.quarantined == {}
    ensures CarefulRun(env, w, [s] + [Open(ch)], w')
    ensures w'.node == Up(OpenedMem(env, Do(env, w, s).disk, ch))
  {
    hide Inv, Enabled, Careful, CarefulRun, Do, CanOpen, OpenedMem;
    s := PullThePlug(env, w);
    var down := Do(env, w, s);
    StepKeepsInv(env, w, s);
    CrashGoesDown(env, w, s);
    ch := OpenIsEnabled(env, down, {}, 0);
    OpenCareful(env, down, ch);
    OpenedNode(env, down, ch);
    w' := Do(env, down, Open(ch));
    One(env, w, s);
    One(env, down, Open(ch));
    Join(env, w, [s], down, [Open(ch)], w');
  }

  /**
   The converse of the durability theorem. In any reachable state in which a rotation can happen out of order, the
   record of a writer it leaves behind can be acknowledged and lost: some run freezes, completes the write, flushes
   the queue, crashes, recovers - and Get no longer finds the record.
   */
  lemma OutOfOrderRotationLoses(env: Env, before: seq<Step>, w: World)
    returns (t: nat, steps: seq<Step>, w': World)
    requires Invertible(env.c) && env.cfg.softLimit > 0 && CarefulRun(env, INITIAL, before, w)
    requires w.node.Up? && Enabled(env, w, Freeze) && !InOrder(env.c, w, Freeze)
    ensures t < |w.node.mem.writers| && w.node.mem.writers[t].Allocated?
    ensures |steps| > 4 && BehindSteps(t) <= steps
    ensures CarefulRun(env, w, steps, w') && w'.node.Up?
    ensures SearchLayers(Layers(w'.node.mem), w.node.mem.writers[t].e.id) == None
  {
    hide Inv, Positive, Enabled, Careful, CarefulRun, Do, Exact, Layers, Fits, InOrder;
    CarefulRunInv(env, before, w);
    var y;
    t, y := LeftBehind(env, w);
    RunKeepsSized(env, INITIAL, before, w);
    QueueAfter(env, w, t);
    var x := w.node.mem.writers[t].e.id;
    assert CanFreeze(env.cfg, w.node.mem) by { FreezeEnabled(env, w); }
    FreshNextSeg(env, w);
    var a := BehindSteps(t);
    var w1 := Behind(env, w, t);
    BehindRuns(env, w, t);
    BehindFacts(env, w, t);
    RunKeepsInv(env, w, a, w1);
    var b, w2 := FlushQueue(env, w1);
    RunKeepsInv(env, w1, b, w2);
    Join(env, w, a, w1, b, w2);
    var s, ch;
    s, ch, w' := Recovers(env, w2);
    steps := a + b + ([s] + [Open(ch)]);
    Join(env, w, a + b, w2, [s] + [Open(ch)], w');
    var id :| id in w2.disk.ssts && w2.disk.ssts[id].contents == w1.node.mem.frozen[|w1.node.mem.frozen| - 1].contents;
    BelowSstNotAbove(env, w2, id, x, y);
    ActiveNotOnSst(env, w2, x);
    CrashLosesExactly(env, w2, s, ch, x);
    SearchIsLookup(Layers(w'.node.mem), x);
  }
}
