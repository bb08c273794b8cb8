/**
 Durability: no crash and no recovery loses an acknowledged write, as long as MemTables are rotated in DocID
 order (InOrder), no SSTable is quarantined (NothingQuarantined) and the provisos of Careful hold. Without
 InOrder, EngineLoss builds a run that loses one.
 */
module EngineDurability {
  import opened Bytes
  import opened Types
  import opened Wal
  import opened WalLog
  import opened MemTable
  import opened EngineState
  import opened EngineReads
  import opened EngineInv
  import opened EngineSteps
  import opened EngineFlush
  import opened EngineRecovery
  import opened EngineOpen

  ghost predicate AllBelow(a: map<DocID, LogRecord>, d: DocID) {
    forall x | x in a :: x < d
  }

  ghost predicate SstsBelow(sstables: seq<Sst>, d: DocID) {
    forall x: DocID | SstHas(sstables, x) :: x < d
  }

  /** d is newer than everything that has been rotated out of the active table. */
  ghost predicate AboveSealed(m: Mem, d: DocID) {
    && (forall i :: 0 <= i < |m.frozen| ==> AllBelow(m.frozen[i].contents, d))
    && SstsBelow(m.sstables, d)
  }

  ghost predicate Above(m: Mem, t: map<DocID, LogRecord>) {
    forall d | d in t :: AboveSealed(m, d)
  }

  /** A writer whose record can still become visible: one too large for the WAL never does. */
  predicate MayPut(c: Codec, pc: WriterPc) {
    Pending(pc) && (pc.Logged? || Fits(c, pc.e))
  }

  /** DocIDs grow from the SSTables through the frozen queue to the active table and the writers under way. */
  ghost predicate OrderInv(c: Codec, m: Mem) {
    && Above(m, m.active.contents)
    && (forall i, j, d :: 0 <= i < j < |m.frozen| && d in m.frozen[j].contents ==> AllBelow(m.frozen[i].contents, d))
    && (forall i, d :: 0 <= i < |m.frozen| && d in m.frozen[i].contents ==> SstsBelow(m.sstables, d))
    && (forall t :: 0 <= t < |m.writers| && MayPut(c, m.writers[t]) ==> AboveSealed(m, m.writers[t].e.id))
    && NewestFirst(m.sstables)
  }

  /** The proviso on rotation: no writer whose record can still become visible holds a DocID below one already in
      the table being frozen. */
  ghost predicate InOrder(c: Codec, w: World, s: Step) {
    w.node.Up? && s.Freeze? ==>
      forall t :: 0 <= t < |w.node.mem.writers| && MayPut(c, w.node.mem.writers[t]) ==>
        AllBelow(w.node.mem.active.contents, w.node.mem.writers[t].e.id)
  }

  /** The proviso on recovery: every SSTable on disk opens. */
  ghost predicate NothingQuarantined(s: Step) {
    s.Open? ==> s.ch.quarantined == {}
  }

  ghost predicate OnSst(ssts: map<nat, Sst>, d: DocID) {
    exists id :: id in ssts && d in ssts[id].contents
  }

  ghost predicate AboveSsts(ssts: map<nat, Sst>, d: DocID) {
    forall id | id in ssts :: ssts[id].maxDoc < d
  }

  /** The cut-off invariant: at or below the largest SSTable DocID everything is in an SSTable, above it
      everything is in a WAL segment that has not been deleted. */
  ghost predicate Durable(c: Codec, d: Disk, view: map<DocID, LogRecord>) {
    forall x | x in view ::
      || OnSst(d.ssts, x)
      || (AboveSsts(d.ssts, x) && InLogs(Logs(c, d.segs), Entry(x, view[x])))
  }

  ghost predicate Positive(attempted: set<Entry>) {
    forall e | e in attempted :: e.id > 0
  }

  ghost predicate DurInv(env: Env, w: World) {
    && Inv(env, w)
    && Positive(w.attempted)
    && (w.node.Up? ==> OrderInv(env.c, w.node.mem))
    && (w.node.Down? ==> Durable(env.c, w.disk, w.view))
  }

  // ---- the cut-off invariant of the running node ------------------------------------------------

  lemma {:induction false} OverlayHas(layers: seq<map<DocID, LogRecord>>, x: DocID) returns (i: nat)
    requires x in Overlay(layers)
    ensures i < |layers| && x in layers[i]
  {
    if x in layers[0] {
      i := 0;
    } else {
      i := OverlayHas(layers[1..], x);
      i := i + 1;
    }
  }

  lemma {:induction false} FrozenLayerOf(frozen: seq<Table>, i: nat) returns (j: nat)
    requires i < |FrozenLayers(frozen)|
    ensures j < |frozen| && FrozenLayers(frozen)[i] == frozen[j].contents
    decreases |frozen|
  {
    var n := |frozen| - 1;
    if i == 0 {
      j := n;
    } else {
      j := FrozenLayerOf(frozen[..n], i - 1);
    }
  }

  /** A visible DocID is in the active table, in a frozen one or in a listed SSTable. */
  lemma VisibleWhere(m: Mem, x: DocID)
    requires x in View(m)
    ensures || x in m.active.contents
            || (exists j :: 0 <= j < |m.frozen| && x in m.frozen[j].contents)
            || SstHas(m.sstables, x)
  {
    hide Overlay;
    var i := OverlayHas(Layers(m), x);
    if 1 <= i < 1 + |FrozenLayers(m.frozen)| {
      var j := FrozenLayerOf(m.frozen, i - 1);
      assert x in m.frozen[j].contents;
    } else if i > 0 {
      assert x in m.sstables[i - 1 - |FrozenLayers(m.frozen)|].contents;
    }
  }

  lemma ListedOnSst(m: Mem, d: Disk, x: DocID)
    requires SstsInv(m, d.ssts, d.tmps) && SstHas(m.sstables, x)
    ensures OnSst(d.ssts, x)
  {
    var i :| 0 <= i < |m.sstables| && x in m.sstables[i].contents;
    assert m.sstables[i] in m.sstables;
    assert x in d.ssts[m.sstables[i].id].contents;
  }

  /** Above the sealed tables means above every SSTable on disk, orphans included. */
  lemma SealedAboveSsts(m: Mem, d: Disk, view: map<DocID, LogRecord>, x: DocID)
    requires SstsInv(m, d.ssts, d.tmps) && SstsAgree(d.ssts, view)
    requires SstsBelow(m.sstables, x) && (m.frozen != [] ==> AllBelow(m.frozen[0].contents, x))
    ensures AboveSsts(d.ssts, x)
  {
    hide SstHas;
    forall id | id in d.ssts ensures d.ssts[id].maxDoc < x {
      assert d.ssts[id].maxDoc in d.ssts[id].contents;
    }
  }

  lemma TableIsDurable(c: Codec, m: Mem, d: Disk, t: map<DocID, LogRecord>, view: map<DocID, LogRecord>, x: DocID)
    requires SstsInv(m, d.ssts, d.tmps) && SstsAgree(d.ssts, view)
    requires TableInv(t, Logs(c, d.segs), view) && x in t
    requires SstsBelow(m.sstables, x) && (m.frozen != [] ==> AllBelow(m.frozen[0].contents, x))
    ensures AboveSsts(d.ssts, x) && InLogs(Logs(c, d.segs), Entry(x, view[x]))
  {
    hide Logs, InLogs, SstHas, Exact;
    SealedAboveSsts(m, d, view, x);
  }

  lemma OldestIsDurable(c: Codec, m: Mem, d: Disk, view: map<DocID, LogRecord>, x: DocID)
    requires SstsInv(m, d.ssts, d.tmps) && SstsAgree(d.ssts, view)
    requires m.frozen != [] && TableInv(m.frozen[0].contents, Logs(c, d.segs), view) && x in m.frozen[0].contents
    requires SstsBelow(m.sstables, x)
    ensures OnSst(d.ssts, x) || (AboveSsts(d.ssts, x) && InLogs(Logs(c, d.segs), Entry(x, view[x])))
  {
    hide Logs, InLogs, SstHas;
    if !OnSst(d.ssts, x) {
      forall id | id in d.ssts ensures d.ssts[id].maxDoc < x {
        assert d.ssts[id].maxDoc in d.ssts[id].contents;
      }
    }
  }

  lemma RunningIsDurable(env: Env, m: Mem, d: Disk, view: map<DocID, LogRecord>, attempted: set<Entry>)
    requires DiskInv(env.c, d, view, attempted) && MemInv(env, m, d, view, attempted) && OrderInv(env.c, m)
    ensures Durable(env.c, d, view)
  {
    hide Logs, InLogs, SstHas, View, Exact, AllFramed, UniqueIDs, LogsAgree, SegsInv, CoverInv, WritersInv, SyncInv,
         AllocInv, OnSst, AboveSsts, TableInv, Structure, SstsInv, AllBelow, SstsBelow;
    forall x | x in view
      ensures OnSst(d.ssts, x) || (AboveSsts(d.ssts, x) && InLogs(Logs(env.c, d.segs), Entry(x, view[x])))
    {
      VisibleWhere(m, x);
      if SstHas(m.sstables, x) {
        ListedOnSst(m, d, x);
      } else if x in m.active.contents {
        TableIsDurable(env.c, m, d, m.active.contents, view, x);
      } else {
        var j :| 0 <= j < |m.frozen| && x in m.frozen[j].contents;
        if j == 0 {
          OldestIsDurable(env.c, m, d, view, x);
        } else {
          TableIsDurable(env.c, m, d, m.frozen[j].contents, view, x);
        }
      }
    }
  }

  // ---- steps ------------------------------------------------------------------------------------

  lemma SameOrder(c: Codec, m: Mem, m': Mem)
    requires OrderInv(c, m)
    requires m'.active.contents == m.active.contents && m'.frozen == m.frozen && m'.sstables == m.sstables
    requires |m'.writers| == |m.writers|
    requires forall t :: 0 <= t < |m.writers| && MayPut(c, m'.writers[t]) ==>
               MayPut(c, m.writers[t]) && m'.writers[t].e == m.writers[t].e
    ensures OrderInv(c, m')
  {
    hide Fits, AboveSealed, AllBelow, SstsBelow, NewestFirst;
    assert forall d :: AboveSealed(m', d) == AboveSealed(m, d) by { SameSealed(m, m'); }
  }

  lemma SameSealed(m: Mem, m': Mem)
    requires m'.frozen == m.frozen && m'.sstables == m.sstables
    ensures forall d :: AboveSealed(m', d) == AboveSealed(m, d)
  {
  }

  lemma AllocKeepsOrder(env: Env, m: Mem, d: Disk, view: map<DocID, LogRecord>, attempted: set<Entry>, t: nat)
    requires DiskInv(env.c, d, view, attempted) && MemInv(env, m, d, view, attempted) && OrderInv(env.c, m)
    requires CanAlloc(m, t) && m.alloc + 1 < U64
    ensures OrderInv(env.c, AllocMem(m, t))
  {
    hide Logs, View, NewestFirst, Structure, SegsInv, CoverInv, WritersInv, SyncInv, AllFramed, UniqueIDs, LogsAgree,
         Exact,
         SstsAgree, ViewAttempted, SstsInv;
    assert SstsAgree(d.ssts, view) by { DiskSsts(env.c, d, view, attempted); }
    ListedIsVisible(m, d, view);
    hide SstHas, InLogs;
    var m', e := AllocMem(m, t), AllocEntry(m, t);
    SameSealed(m, m');
    forall i | 0 <= i < |m.frozen| ensures AllBelow(m.frozen[i].contents, e.id) {
      assert TableInv(m.frozen[i].contents, Logs(env.c, d.segs), view);
    }
    assert AboveSealed(m, e.id);
  }

  lemma PutKeepsOrder(c: Codec, m: Mem, t: nat)
    requires OrderInv(c, m) && CanPut(m, t)
    ensures OrderInv(c, PutMem(m, t))
  {
    hide Fits, AboveSealed, AllBelow, SstsBelow, NewestFirst;
    var m' := PutMem(m, t);
    SameSealed(m, m');
    assert AboveSealed(m, m.writers[t].e.id);
  }

  lemma RotateKeepsOrder(c: Codec, m: Mem, n: nat)
    requires OrderInv(c, m)
    requires forall t :: 0 <= t < |m.writers| && MayPut(c, m.writers[t]) ==>
               AllBelow(m.active.contents, m.writers[t].e.id)
    ensures OrderInv(c, RotateMem(m, n))
  {
    hide Fits, AllBelow, SstsBelow, NewestFirst;
    var m' := RotateMem(m, n);
    forall i, j, d | 0 <= i < j < |m'.frozen| && d in m'.frozen[j].contents ensures AllBelow(m'.frozen[i].contents, d) {
      if j == |m.frozen| {
        assert AboveSealed(m, d);
      }
    }
    forall i, d | 0 <= i < |m'.frozen| && d in m'.frozen[i].contents ensures SstsBelow(m'.sstables, d) {
      if i == |m.frozen| {
        assert AboveSealed(m, d);
      }
    }
    forall t | 0 <= t < |m.writers| && MayPut(c, m.writers[t]) ensures AboveSealed(m', m.writers[t].e.id) {
      assert AboveSealed(m, m.writers[t].e.id);
    }
  }

  /** x has left the sealed tables behind when the oldest of them becomes an SSTable. */
  lemma SwapSealed(cfg: Config, m: Mem, x: DocID)
    requires Structure(cfg, m) && CanSwap(m)
    ensures AboveSealed(SwappedMem(m), x) == AboveSealed(m, x)
  {
    hide SstHas;
    var m' := SwappedMem(m);
    SstHasAfterSwap(m, m.flush.sst);
    if AboveSealed(m, x) {
      forall i | 0 <= i < |m'.frozen| ensures AllBelow(m'.frozen[i].contents, x) {
        assert m'.frozen[i] == m.frozen[i + 1];
      }
      assert AllBelow(m.frozen[0].contents, x);
    }
    if AboveSealed(m', x) {
      forall i | 0 <= i < |m.frozen| ensures AllBelow(m.frozen[i].contents, x) {
        if i > 0 {
          assert m'.frozen[i - 1] == m.frozen[i];
        }
      }
    }
  }

  lemma SwapKeepsOrder(env: Env, m: Mem, d: Disk, view: map<DocID, LogRecord>)
    requires Structure(env.cfg, m) && CanSwap(m) && OrderInv(env.c, m)
    requires SstsInv(m, d.ssts, d.tmps) && SstsAgree(d.ssts, view)
    ensures OrderInv(env.c, SwappedMem(m))
  {
    hide SstHas, AboveSealed, NewestFirst, SstsInv, SstsAgree, SstsBelow, AllBelow;
    var m' := SwappedMem(m);
    forall x: DocID ensures AboveSealed(m', x) == AboveSealed(m, x) {
      SwapSealed(env.cfg, m, x);
    }
    forall i, x | 0 <= i < |m'.frozen| && x in m'.frozen[i].contents ensures SstsBelow(m'.sstables, x) {
      assert m'.frozen[i] == m.frozen[i + 1];
      BelowAfterSwap(m, m.flush.sst, x);
    }
    forall i, j, x | 0 <= i < j < |m'.frozen| && x in m'.frozen[j].contents ensures AllBelow(m'.frozen[i].contents, x) {
      assert m'.frozen[i] == m.frozen[i + 1] && m'.frozen[j] == m.frozen[j + 1];
    }
    SwapNewestFirst(env.c, m, d, view);
  }

  lemma BelowAfterSwap(m: Mem, sst: Sst, x: DocID)
    requires SstsBelow(m.sstables, x) && AllBelow(sst.contents, x)
    ensures SstsBelow([sst] + m.sstables, x)
  {
    hide SstHas;
    SstHasAfterSwap(m, sst);
  }

  lemma SwapNewestFirst(c: Codec, m: Mem, d: Disk, view: map<DocID, LogRecord>)
    requires CanSwap(m) && OrderInv(c, m) && m.flush.sst.contents == m.frozen[0].contents
    requires SstsInv(m, d.ssts, d.tmps) && SstsAgree(d.ssts, view)
    ensures NewestFirst([m.flush.sst] + m.sstables)
  {
    assert Exact(m.flush.sst) && SstsBelow(m.sstables, m.flush.sst.maxDoc);
    forall s | s in m.sstables ensures NotNewer(s, m.flush.sst) {
      assert Exact(s);
      var i :| 0 <= i < |m.sstables| && m.sstables[i] == s;
      assert SstHas(m.sstables, s.maxDoc);
    }
    NewestPrepended(m.flush.sst, m.sstables);
  }

  lemma NewestPrepended(sst: Sst, sstables: seq<Sst>)
    requires NewestFirst(sstables) && forall s | s in sstables :: NotNewer(s, sst)
    ensures NewestFirst([sst] + sstables)
  {
    hide NotNewer;
  }

  lemma OpenedOrder(env: Env, d: Disk, ch: OpenChoice, view: map<DocID, LogRecord>, attempted: set<Entry>)
    requires DiskInv(env.c, d, view, attempted) && CanOpen(env, d, ch)
    ensures OrderInv(env.c, OpenedMem(env, d, ch))
  {
    hide Logs, Exact, ReplaySegs, SstHas, InLogs;
    OpenRebuilds(env, d, ch, view, attempted);
    CutoffBoundsHas(ch.order);
  }

  /** Recovery brings back everything the cut-off invariant speaks of. */
  lemma OpenKeepsView(env: Env, d: Disk, ch: OpenChoice, view: map<DocID, LogRecord>, attempted: set<Entry>)
    requires DiskInv(env.c, d, view, attempted) && CanOpen(env, d, ch) && ch.quarantined == {}
    requires Durable(env.c, d, view) && Positive(attempted)
    ensures SubMap(view, View(OpenedMem(env, d, ch)))
  {
    hide Logs, Exact, ReplaySegs, SstHas, InLogs, View, Rebuild, Cutoff;
    OpenRebuilds(env, d, ch, view, attempted);
    OpenedView(env, d, ch);
    var a := Recovered(env, d, ch).value.contents;
    RebuildFacts(env.c, d, ch.order, a, view, attempted);
    AdoptedKeepsDiskInv(env.c, d, view, attempted);
    forall x | x in view ensures x in Rebuild(ch.order, a) && Rebuild(ch.order, a)[x] == view[x] {
      if OnSst(d.ssts, x) {
        var id :| id in d.ssts && x in d.ssts[id].contents;
        assert d.ssts[id] in ch.order;
        ListedHas(ch.order, d.ssts[id]);
      } else {
        assert InLogs(Logs(env.c, AdoptedSegs(d)), Entry(x, view[x]));
        assert Entry(x, view[x]) in attempted;
        AboveCutoff(d, ch, x);
        UniqueEntry(Logs(env.c, AdoptedSegs(d)), Entry(x, view[x]), Entry(x, a[x]));
      }
    }
  }

  lemma {:induction false} AboveCutoffList(order: seq<Sst>, x: DocID)
    requires x > 0 && forall s | s in order :: s.maxDoc < x
    ensures Cutoff(order) < x
  {
    if order != [] {
      assert order[0] in order;
      AboveCutoffList(order[1..], x);
    }
  }

  lemma AboveCutoff(d: Disk, ch: OpenChoice, x: DocID)
    requires LoadedAs(ch.order, d.ssts, ch.quarantined) && AboveSsts(d.ssts, x) && x > 0
    ensures Cutoff(ch.order) < x
  {
    AboveCutoffList(ch.order, x);
  }

  lemma CrashKeepsDurable(env: Env, m: Mem, d: Disk, view: map<DocID, LogRecord>, attempted: set<Entry>, t: nat,
                          k: nat, keep: nat)
    requires DiskInv(env.c, d, view, attempted) && MemInv(env, m, d, view, attempted) && OrderInv(env.c, m)
    requires CanCrash(env.c, m, d, t, k, keep)
    ensures Durable(env.c, CrashDisk(env.c, m, d, t, k, keep), view)
  {
    hide Logs, InLogs, View, Exact, DiskInv, MemInv, InFlight, OrderInv, SegBytes;
    RunningIsDurable(env, m, d, view, attempted);
    var d' := CrashDisk(env.c, m, d, t, k, keep);
    assert d'.ssts == d.ssts;
    forall x | x in view && !OnSst(d'.ssts, x) ensures InLogs(Logs(env.c, d'.segs), Entry(x, view[x])) {
      CrashKeepsVisible(env, m, d, view, attempted, t, k, keep, Entry(x, view[x]));
    }
  }

  lemma WritersKeepOrder(env: Env, w: World, s: Step)
    requires Inv(env, w) && w.node.Up? && OrderInv(env.c, w.node.mem)
    requires Enabled(env, w, s) && Careful(env, w, s) && WriterStep(s)
    ensures Do(env, w, s).node.Up? && OrderInv(env.c, Do(env, w, s).node.mem)
  {
    hide DiskInv, OrderInv, SegBytes, AtBoundary, Exact, PutMem, RotateMem, SwappedMem, View, AllocMem, Logs,
         TablesInv, CoverInv,
         AllocInv, SyncInv, SegsInv, InFlight, WriterInv, SstsAgree, SstsInv, AppendDisk, AppendFailDisk, CreateDisk,
         CommitDisk, DeleteDisk, FlushFailDisk, PutView, Frame, Fits, CanCrash;
    var m, d := w.node.mem, w.disk;
    match s {
      case Check(t, rec) => SameOrder(env.c, m, SetWriter(m, t, Checked(rec)));
      case GiveUp(t) => SameOrder(env.c, m, SetWriter(m, t, Idle));
      case Gate(t) => SameOrder(env.c, m, SetWriter(m, t, Gated(m.writers[t].rec)));
      case Alloc(t) => AllocKeepsOrder(env, m, d, w.view, w.attempted, t);
      case Lock(t) => SameOrder(env.c, m, SetWriter(m, t, Locked(m.writers[t].e)));
      case Append(t) => SameOrder(env.c, m, AppendMem(env.c, m, d, t));
      case AppendFails(t, _) => SameOrder(env.c, m, SetWriter(m, t, Idle));
      case Put(t) => PutKeepsOrder(env.c, m, t);
    }
  }

  lemma OthersKeepOrder(env: Env, w: World, s: Step)
    requires Inv(env, w) && w.node.Up? && OrderInv(env.c, w.node.mem)
    requires Enabled(env, w, s) && InOrder(env.c, w, s) && !WriterStep(s) && !s.Crash?
    ensures Do(env, w, s).node.Up? && OrderInv(env.c, Do(env, w, s).node.mem)
  {
    hide DiskInv, OrderInv, SegBytes, AtBoundary, Exact, PutMem, RotateMem, SwappedMem, View, AllocMem, Logs,
         TablesInv, CoverInv,
         AllocInv, SyncInv, SegsInv, InFlight, WriterInv, SstsAgree, SstsInv, AppendDisk, AppendFailDisk, CreateDisk,
         CommitDisk, DeleteDisk, FlushFailDisk, PutView, Frame, Fits, CanCrash;
    var m, d := w.node.mem, w.disk;
    DiskSsts(env.c, d, w.view, w.attempted);
    match s {
      case Freeze => RotateKeepsOrder(env.c, m, |SegBytes(d, m.nextSeg)|);
      case SealFails(_) => SameOrder(env.c, m, SealFailMem(m));
      case FlushCheck => SameOrder(env.c, m, m.(flush := FChecked));
      case FlushNothing => SameOrder(env.c, m, m.(flush := FIdle));
      case FlushSnap => SameOrder(env.c, m, SnapMem(m));
      case FlushCreate => SameOrder(env.c, m, CreateMem(m));
      case FlushCommit(sst) => SameOrder(env.c, m, CommitMem(m, sst));
      case FlushSwap => SwapKeepsOrder(env, m, d, w.view);
      case FlushDelete(_) => SameOrder(env.c, m, m.(flush := FIdle));
      case FlushFails(_, fatal) => SameOrder(env.c, m, m.(flush := FIdle, fatal := m.fatal || fatal));
      case Open(_) =>
    }
  }

  lemma StepKeepsOrder(env: Env, w: World, s: Step)
    requires Inv(env, w) && w.node.Up? && OrderInv(env.c, w.node.mem)
    requires Enabled(env, w, s) && Careful(env, w, s) && InOrder(env.c, w, s) && !s.Crash?
    ensures Do(env, w, s).node.Up? && OrderInv(env.c, Do(env, w, s).node.mem)
  {
    hide Inv, OrderInv, Enabled, Careful, InOrder, Do;
    if WriterStep(s) {
      WritersKeepOrder(env, w, s);
    } else {
      OthersKeepOrder(env, w, s);
    }
  }

  /** Attempted DocIDs are never 0, and the abstract map only changes by puts and by Open. */
  lemma StepHistories(env: Env, w: World, s: Step)
    requires Enabled(env, w, s) && Careful(env, w, s) && Positive(w.attempted)
    ensures Positive(Do(env, w, s).attempted)
    ensures w.attempted <= Do(env, w, s).attempted
    ensures !s.Put? && !s.Open? ==> Do(env, w, s).view == w.view
  {
    hide CanOpen, OpenedMem, OpenedDisk, SegBytes, AtBoundary, InFlight, View, Exact, CanCommit, CanFreeze, CanSwap;
  }

  /** A put never overwrites: its DocID was not visible before. */
  lemma PutIsNew(env: Env, w: World, t: nat)
    requires Inv(env, w) && w.node.Up? && CanPut(w.node.mem, t)
    ensures w.node.mem.writers[t].e.id !in w.view
  {
    hide DiskInv, Logs, View, TablesInv, CoverInv, SyncInv, AllocInv, SegsInv, SstsInv, Structure;
    var m := w.node.mem;
    assert WriterInv(m.writers[t], m.alloc, Logs(env.c, w.disk.segs), m.activeSeg, w.view, w.attempted);
  }

  /** One step: the invariants hold again, and nothing visible is lost or changed. */
  lemma StepKeepsDurable(env: Env, w: World, s: Step)
    requires Invertible(env.c) && DurInv(env, w)
    requires Enabled(env, w, s) && Careful(env, w, s) && InOrder(env.c, w, s) && NothingQuarantined(s)
    ensures DurInv(env, Do(env, w, s))
    ensures SubMap(w.view, Do(env, w, s).view)
  {
    hide Inv, Positive, Durable, OrderInv, Careful, InOrder, Enabled, Do;
    StepKeepsInv(env, w, s);
    StepHistories(env, w, s);
    if w.node.Down? {
      OpenStepDurable(env, w, s);
    } else if s.Crash? {
      CrashStepDurable(env, w, s);
    } else {
      StepKeepsOrder(env, w, s);
      StepKeepsSubMap(env, w, s);
    }
  }

  lemma OpenStepDurable(env: Env, w: World, s: Step)
    requires DurInv(env, w) && w.node.Down? && Enabled(env, w, s) && NothingQuarantined(s)
    ensures Do(env, w, s).node.Up? && OrderInv(env.c, Do(env, w, s).node.mem)
    ensures SubMap(w.view, Do(env, w, s).view)
  {
    hide Inv, Positive, Durable, OrderInv, CanOpen, OpenedMem, OpenedDisk, View;
    InvParts(env, w);
    OpenedOrder(env, w.disk, s.ch, w.view, w.attempted);
    OpenKeepsView(env, w.disk, s.ch, w.view, w.attempted);
  }

  lemma CrashStepDurable(env: Env, w: World, s: Step)
    requires DurInv(env, w) && w.node.Up? && s.Crash? && Enabled(env, w, s)
    ensures var w' := Do(env, w, s); w'.node.Down? && w'.view == w.view && Durable(env.c, w'.disk, w.view)
  {
    hide Inv, Positive, Durable, OrderInv, CanCrash, CrashDisk, Enabled, Do;
    InvParts(env, w);
    CrashStepShape(env, w, s);
    CrashKeepsDurable(env, w.node.mem, w.disk, w.view, w.attempted, s.t, s.k, s.keep);
  }

  lemma CrashStepShape(env: Env, w: World, s: Step)
    requires w.node.Up? && s.Crash? && Enabled(env, w, s)
    ensures CanCrash(env.c, w.node.mem, w.disk, s.t, s.k, s.keep)
    ensures Do(env, w, s) == w.(node := Down, disk := CrashDisk(env.c, w.node.mem, w.disk, s.t, s.k, s.keep))
  {
    hide CanCrash, CrashDisk;
  }

  lemma StepKeepsSubMap(env: Env, w: World, s: Step)
    requires Inv(env, w) && w.node.Up? && Enabled(env, w, s) && Careful(env, w, s) && Positive(w.attempted)
    ensures SubMap(w.view, Do(env, w, s).view)
  {
    hide Inv, Positive, Enabled, Careful, Do;
    StepHistories(env, w, s);
    if s.Put? {
      PutStepView(env, w, s);
      PutIsNew(env, w, s.t);
    }
    NoOpenWhileUp(env, w, s);
  }

  lemma PutStepView(env: Env, w: World, s: Step)
    requires w.node.Up? && Enabled(env, w, s) && s.Put?
    ensures CanPut(w.node.mem, s.t) && Do(env, w, s).view == PutView(w.node.mem, w.view, s.t)
  {
  }

  lemma NoOpenWhileUp(env: Env, w: World, s: Step)
    requires w.node.Up? && Enabled(env, w, s)
    ensures !s.Open?
  {
  }

  lemma InvParts(env: Env, w: World)
    requires Inv(env, w)
    ensures DiskInv(env.c, w.disk, w.view, w.attempted)
    ensures w.node.Up? ==> MemInv(env, w.node.mem, w.disk, w.view, w.attempted)
  {
    hide DiskInv, MemInv;
  }

  // ---- runs -------------------------------------------------------------------------------------

  /** A run all of whose steps respect the provisos. */
  ghost predicate OrderedRun(env: Env, w: World, steps: seq<Step>, w': World)
    decreases |steps|
  {
    if steps == [] then w' == w
    else
      && Enabled(env, w, steps[0]) && Careful(env, w, steps[0])
      && InOrder(env.c, w, steps[0]) && NothingQuarantined(steps[0])
      && OrderedRun(env, Do(env, w, steps[0]), steps[1..], w')
  }

  lemma InitialDurable(env: Env)
    ensures DurInv(env, INITIAL)
  {
  }

  lemma {:induction false} RunKeepsDurable(env: Env, w: World, steps: seq<Step>, w': World)
    requires Invertible(env.c) && DurInv(env, w) && OrderedRun(env, w, steps, w')
    ensures DurInv(env, w')
    ensures SubMap(w.view, w'.view)
    decreases |steps|
  {
    hide DurInv, Enabled, Careful, InOrder, Do;
    if steps != [] {
      StepKeepsDurable(env, w, steps[0]);
      RunKeepsDurable(env, Do(env, w, steps[0]), steps[1..], w');
    }
  }

  /**
   The durability theorem. Take any run from an empty directory to a state in which some Write completes, then
   any run on from there - with any number of crashes and recoveries in it - to a state that serves reads:
   Get still answers with the record that was written.
   */
  lemma AcknowledgedWritesSurvive(env: Env, before: seq<Step>, w: World, t: nat, after: seq<Step>, w': World)
    requires Invertible(env.c)
    requires OrderedRun(env, INITIAL, before, w)
    requires w.node.Up? && CanPut(w.node.mem, t)
    requires OrderedRun(env, Do(env, w, Put(t)), after, w') && w'.node.Up?
    ensures var e := w.node.mem.writers[t].e;
      SearchLayers(Layers(w'.node.mem), e.id) == Some(e.rec)
  {
    hide DurInv, Layers, Careful;
    InitialDurable(env);
    RunKeepsDurable(env, INITIAL, before, w);
    assert Careful(env, w, Put(t)) && InOrder(env.c, w, Put(t)) by { PutIsCareful(env, w, t); }
    StepKeepsDurable(env, w, Put(t));
    RunKeepsDurable(env, Do(env, w, Put(t)), after, w');
    assert w'.view == View(w'.node.mem) by { DurableView(env, w'); }
    SearchIsLookup(Layers(w'.node.mem), w.node.mem.writers[t].e.id);
  }

  lemma PutIsCareful(env: Env, w: World, t: nat)
    requires Enabled(env, w, Put(t))
    ensures Careful(env, w, Put(t))
  {
  }

  lemma DurableView(env: Env, w: World)
    requires DurInv(env, w) && w.node.Up?
    ensures w.view == View(w.node.mem)
    ensures DiskInv(env.c, w.disk, w.view, w.attempted)
  {
    hide View, DiskInv, Logs, TablesInv, CoverInv, SyncInv, AllocInv, SegsInv, SstsInv, Structure, WritersInv, OrderInv;
  }

  /** Along a run every completed put stays in the abstract map, across all its crashes and recoveries. */
  lemma {:induction false} CompletedStays(env: Env, w: World, steps: seq<Step>, w': World, done: map<DocID, LogRecord>)
    requires Invertible(env.c) && DurInv(env, w) && OrderedRun(env, w, steps, w') && SubMap(done, w.view)
    ensures SubMap(Completed(env, w, steps, done), w'.view)
    decreases |steps|
  {
    hide DurInv, Enabled, Careful, InOrder, NothingQuarantined, Do;
    if steps != [] {
      StepKeepsDurable(env, w, steps[0]);
      DoneStays(env, w, steps[0], done);
      CompletedStays(env, Do(env, w, steps[0]), steps[1..], w', DonePut(w, steps[0], done));
    }
  }

  lemma DoneStays(env: Env, w: World, s: Step, done: map<DocID, LogRecord>)
    requires Enabled(env, w, s) && SubMap(done, w.view) && SubMap(w.view, Do(env, w, s).view)
    ensures SubMap(DonePut(w, s, done), Do(env, w, s).view)
  {
    hide Do, Enabled;
    if w.node.Up? && s.Put? {
      PutStepView(env, w, s);
    }
  }

  /**
   The recovery refinement over whole runs: what Get answers in a running state includes every put completed since
   the directory was empty, with its record, however many crashes and recoveries lie between.
   */
  lemma CompletedPutsAreAnswered(env: Env, steps: seq<Step>, w: World, d: DocID)
    requires Invertible(env.c) && OrderedRun(env, INITIAL, steps, w) && w.node.Up?
    ensures var done := Completed(env, INITIAL, steps, map[]);
      d in done ==> SearchLayers(Layers(w.node.mem), d) == Some(done[d])
  {
    hide DurInv, Layers, OrderedRun;
    InitialDurable(env);
    CompletedStays(env, INITIAL, steps, w, map[]);
    RunKeepsDurable(env, INITIAL, steps, w);
    DurableView(env, w);
    SearchIsLookup(Layers(w.node.mem), d);
  }

  lemma DiskViewAttempted(c: Codec, d: Disk, view: map<DocID, LogRecord>, attempted: set<Entry>)
    requires DiskInv(c, d, view, attempted)
    ensures ViewAttempted(view, attempted)
  {
  }

  /**
   The cut-off invariant on disk, in every state of every run, up or down: an acknowledged DocID not above the
   largest SSTable DocID is in an SSTable, a larger one is in an undeleted segment.
   */
  lemma CutoffInvariant(env: Env, steps: seq<Step>, w: World, d: DocID)
    requires Invertible(env.c)
    requires OrderedRun(env, INITIAL, steps, w) && d in w.view
    ensures if AboveSsts(w.disk.ssts, d) then InLogs(Logs(env.c, w.disk.segs), Entry(d, w.view[d])) else OnSst(w.disk.ssts, d)
  {
    hide Inv, OrderInv, Logs, InLogs;
    InitialDurable(env);
    RunKeepsDurable(env, INITIAL, steps, w);
    InvParts(env, w);
    if w.node.Up? {
      RunningIsDurable(env, w.node.mem, w.disk, w.view, w.attempted);
    }
    if OnSst(w.disk.ssts, d) {
      OnSstNotAbove(env.c, w.disk, w.view, w.attempted, d);
    }
  }

  lemma OnSstNotAbove(c: Codec, d: Disk, view: map<DocID, LogRecord>, attempted: set<Entry>, x: DocID)
    requires DiskInv(c, d, view, attempted) && OnSst(d.ssts, x)
    ensures !AboveSsts(d.ssts, x)
  {
    hide Logs, AllFramed, UniqueIDs, LogsAgree;
    var id :| id in d.ssts && x in d.ssts[id].contents;
    assert Exact(d.ssts[id]);
  }

  /**
   Exactly what one crash costs, with or without rotation in order: a visible record is visible again after
   recovery if and only if it is in an SSTable or above every SSTable.
   */
  lemma CrashLosesExactly(env: Env, w: World, s: Step, ch: OpenChoice, x: DocID)
    requires Invertible(env.c) && Inv(env, w) && Positive(w.attempted)
    requires w.node.Up? && s.Crash? && Enabled(env, w, s) && Careful(env, w, s)
    requires CanOpen(env, Do(env, w, s).disk, ch) && ch.quarantined == {}
    requires x in w.view
    ensures var m' := OpenedMem(env, Do(env, w, s).disk, ch);
      && (x in View(m') <==> OnSst(w.disk.ssts, x) || AboveSsts(w.disk.ssts, x))
      && (x in View(m') ==> View(m')[x] == w.view[x])
  {
    hide Logs, Exact, ReplaySegs, SstHas, InLogs, View, Rebuild, Cutoff, DiskInv, MemInv, SegBytes, InFlight,
         AtBoundary, OrderInv;
    StepKeepsInv(env, w, s);
    var d, d' := w.disk, Do(env, w, s).disk;
    assert d'.ssts == d.ssts;
    OpenRebuilds(env, d', ch, w.view, w.attempted);
    OpenedView(env, d', ch);
    var a := Recovered(env, d', ch).value.contents;
    RebuildFacts(env.c, d', ch.order, a, w.view, w.attempted);
    AdoptedKeepsDiskInv(env.c, d', w.view, w.attempted);
    DiskSsts(env.c, d, w.view, w.attempted);
    DiskParts(env.c, d'.(segs := AdoptedSegs(d')), w.view, w.attempted);
    if OnSst(d.ssts, x) {
      var id :| id in d.ssts && x in d.ssts[id].contents;
      assert d.ssts[id] in ch.order;
      ListedHas(ch.order, d.ssts[id]);
    } else {
      NotOnSstInLogs(env, w, x);
      CrashKeepsVisible(env, w.node.mem, d, w.view, w.attempted, s.t, s.k, s.keep, Entry(x, w.view[x]));
      NotListed(d.ssts, ch, x);
      assert InLogs(Logs(env.c, AdoptedSegs(d')), Entry(x, w.view[x]));
      if AboveSsts(d.ssts, x) {
        VisiblePositive(env, w, x);
        AboveCutoff(d', ch, x);
      } else {
        NotAboveCutoff(d', ch, x, w.view);
      }
      if x in a {
        UniqueEntry(Logs(env.c, AdoptedSegs(d')), Entry(x, w.view[x]), Entry(x, a[x]));
      }
    }
  }

  lemma VisiblePositive(env: Env, w: World, x: DocID)
    requires Inv(env, w) && Positive(w.attempted) && x in w.view
    ensures x > 0
  {
    hide MemInv, Logs, AllFramed, UniqueIDs, LogsAgree, SstsAgree;
    assert Entry(x, w.view[x]) in w.attempted;
  }

  lemma NotListed(ssts: map<nat, Sst>, ch: OpenChoice, x: DocID)
    requires LoadedAs(ch.order, ssts, ch.quarantined) && !OnSst(ssts, x)
    ensures !SstHas(ch.order, x)
  {
    forall i | 0 <= i < |ch.order| ensures x !in ch.order[i].contents {
      assert ch.order[i] in ch.order;
      assert ssts[ch.order[i].id] == ch.order[i];
    }
  }

  lemma NotAboveCutoff(d: Disk, ch: OpenChoice, x: DocID, view: map<DocID, LogRecord>)
    requires LoadedAs(ch.order, d.ssts, ch.quarantined) && ch.quarantined == {}
    requires SstsAgree(d.ssts, view) && !AboveSsts(d.ssts, x)
    ensures x <= Cutoff(ch.order)
  {
    hide Exact;
    var id :| id in d.ssts && x <= d.ssts[id].maxDoc;
    CutoffBounds(ch.order);
    assert d.ssts[id] in ch.order;
  }

  /** A visible record that is in no SSTable is readable in the WAL. */
  lemma NotOnSstInLogs(env: Env, w: World, x: DocID)
    requires Inv(env, w) && w.node.Up? && x in w.view && !OnSst(w.disk.ssts, x)
    ensures InLogs(Logs(env.c, w.disk.segs), Entry(x, w.view[x]))
  {
    hide DiskInv, Logs, InLogs, View, CoverInv, SyncInv, AllocInv, SegsInv, Structure, WritersInv, SstsInv, OnSst,
         SstHas, Apart;
    var m, logs := w.node.mem, Logs(env.c, w.disk.segs);
    VisibleWhere(m, x);
    if SstHas(m.sstables, x) {
      ListedOnSst(m, w.disk, x);
    } else if x in m.active.contents {
      assert TableInv(m.active.contents, logs, w.view);
    } else {
      var j :| 0 <= j < |m.frozen| && x in m.frozen[j].contents;
      assert TableInv(m.frozen[j].contents, logs, w.view);
    }
  }
}
