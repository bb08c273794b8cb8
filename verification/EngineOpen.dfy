/** Open re-establishes the invariant, and what it makes visible is exactly what the disk determines. */
module EngineOpen {
  import opened Types
  import opened Wal
  import opened WalLog
  import opened MemTable
  import opened EngineState
  import opened EngineReads
  import opened EngineInv
  import opened EngineSteps
  import opened EngineFlush
  import opened EngineRecovery

  /** Loaded SSTables, the recovered table and the cut-off between them. */
  ghost predicate Rebuilt(c: Codec, d: Disk, order: seq<Sst>, a: map<DocID, LogRecord>, view: map<DocID, LogRecord>) {
    var logs := Logs(c, AdoptedSegs(d));
    && (forall s | s in order :: Exact(s) && SubMap(s.contents, view))
    && (forall e | InLogs(logs, e) && e.id > Cutoff(order) :: e.id in a)
    && (forall x | x in a :: x > Cutoff(order) && InLogs(logs, Entry(x, a[x])))
  }

  /** The abstract map of a fresh engine. */
  function Rebuild(order: seq<Sst>, a: map<DocID, LogRecord>): map<DocID, LogRecord> {
    Overlay(SstLayers(order)) + a
  }

  lemma AdoptedKeepsDiskInv(c: Codec, d: Disk, view: map<DocID, LogRecord>, attempted: set<Entry>)
    requires DiskInv(c, d, view, attempted)
    ensures DiskInv(c, d.(segs := AdoptedSegs(d)), view, attempted)
    ensures forall e | InLogs(Logs(c, d.segs), e) :: InLogs(Logs(c, AdoptedSegs(d)), e)
    ensures forall e | InLogs(Logs(c, AdoptedSegs(d)), e) :: InLogs(Logs(c, d.segs), e)
  {
    hide Log, WellFramed, SstsAgree;
    if d.segs == map[] {
      EmptySegment(c);
      assert Logs(c, AdoptedSegs(d)) == map[1 := []];
    }
  }

  /** Open always succeeds on a disk the engine left behind. */
  lemma OpenRebuilds(env: Env, d: Disk, ch: OpenChoice, view: map<DocID, LogRecord>, attempted: set<Entry>)
    requires DiskInv(env.c, d, view, attempted) && OpenChoiceOk(env, d, ch)
    ensures Recovered(env, d, ch).Some?
    ensures Rebuilt(env.c, d, ch.order, Recovered(env, d, ch).value.contents, view)
  {
    hide Log, Exact, ReplaySegs;
    AdoptedKeepsDiskInv(env.c, d, view, attempted);
    var segs := AdoptedSegs(d);
    RecoverSegs(env.c, segs, ch.ids, Cutoff(ch.order), EMPTY);
    var a := Recovered(env, d, ch).value.contents;
    forall e | InLogs(Logs(env.c, segs), e) && e.id > Cutoff(ch.order) ensures e.id in a {
      var s :| s in segs && e in Log(env.c, segs[s]);
      assert s in ch.ids;
    }
  }

  /** What the recovered map takes from the recovered table and what from the loaded SSTables. */
  lemma RebuildFacts(c: Codec, d: Disk, order: seq<Sst>, a: map<DocID, LogRecord>, view: map<DocID, LogRecord>,
                     attempted: set<Entry>)
    requires DiskInv(c, d, view, attempted) && Rebuilt(c, d, order, a, view)
    ensures var v := Rebuild(order, a);
      && (forall x | x in v :: (x in a && v[x] == a[x]) || (x !in a && SstHas(order, x) && x in view && v[x] == view[x]))
      && (forall x | x in a :: x in v && v[x] == a[x] && !SstHas(order, x))
      && (forall x: DocID | SstHas(order, x) :: x <= Cutoff(order) && x !in a && x in v && x in view && v[x] == view[x])
  {
    hide Exact, Log;
    CutoffBoundsHas(order);
    SstOverlay(order, view);
  }

  lemma CutoffBoundsHas(order: seq<Sst>)
    requires forall s | s in order :: Exact(s)
    ensures forall x: DocID | SstHas(order, x) :: x <= Cutoff(order)
  {
    hide Exact;
    CutoffBounds(order);
    forall x: DocID | SstHas(order, x) ensures x <= Cutoff(order) {
      var i :| 0 <= i < |order| && x in order[i].contents;
      assert order[i] in order;
    }
  }

  lemma RebuildAgreesWithLogs(c: Codec, d: Disk, order: seq<Sst>, a: map<DocID, LogRecord>,
                              view: map<DocID, LogRecord>, attempted: set<Entry>)
    requires DiskInv(c, d, view, attempted) && Rebuilt(c, d, order, a, view)
    ensures LogsAgree(Logs(c, AdoptedSegs(d)), Rebuild(order, a), attempted)
    ensures ViewAttempted(Rebuild(order, a), attempted)
  {
    hide Exact, Logs, SstHas, Rebuild, SstsAgree, AllFramed;
    RebuildFacts(c, d, order, a, view, attempted);
    AdoptedKeepsDiskInv(c, d, view, attempted);
    var logs, v := Logs(c, AdoptedSegs(d)), Rebuild(order, a);
    forall s, e | s in logs && e in logs[s] ensures e in attempted && (e.id in v ==> v[e.id] == e.rec) {
      assert InLogs(logs, e);
      if e.id in a {
        UniqueEntry(logs, e, Entry(e.id, a[e.id]));
      }
    }
    forall x | x in v ensures Entry(x, v[x]) in attempted {
      if x in a {
        assert InLogs(logs, Entry(x, a[x]));
      }
    }
  }

  /** The segments left after recovery step 6 still hold every entry above the cut-off. */
  lemma OpenedLogs(env: Env, d: Disk, ch: OpenChoice)
    requires OpenChoiceOk(env, d, ch)
    ensures var logs, logs' := Logs(env.c, AdoptedSegs(d)), Logs(env.c, OpenedDisk(d, ch).segs);
      && (forall s | s in logs' :: s in logs && logs'[s] == logs[s])
      && (forall e | InLogs(logs, e) && e.id > Cutoff(ch.order) :: InLogs(logs', e))
  {
    hide Log, FullyCovered, OpenChoiceOk;
    var segs, segs' := AdoptedSegs(d), OpenedDisk(d, ch).segs;
    var logs, logs' := Logs(env.c, segs), Logs(env.c, segs');
    forall e | InLogs(logs, e) && e.id > Cutoff(ch.order) ensures InLogs(logs', e) {
      var s :| s in logs && e in logs[s];
      if DeletedAtOpen(d, ch, s) {
        CoveredIsBelow(env.c, segs[s], Cutoff(ch.order), e);
      }
      assert s in logs' && e in logs'[s];
    }
  }

  lemma FewerLogs(logs: map<nat, seq<Entry>>, logs': map<nat, seq<Entry>>)
    requires UniqueIDs(logs) && forall s | s in logs' :: s in logs && logs'[s] == logs[s]
    ensures UniqueIDs(logs')
    ensures forall e | InLogs(logs', e) :: InLogs(logs, e)
  {
  }

  lemma OpenKeepsDiskInv(env: Env, d: Disk, ch: OpenChoice, a: map<DocID, LogRecord>, view: map<DocID, LogRecord>,
                         attempted: set<Entry>)
    requires DiskInv(env.c, d, view, attempted) && OpenChoiceOk(env, d, ch) && Rebuilt(env.c, d, ch.order, a, view)
    ensures DiskInv(env.c, OpenedDisk(d, ch), Rebuild(ch.order, a), attempted)
  {
    hide Exact, Log, Logs, Rebuild, SstHas, Rebuilt, UniqueIDs;
    var d' := OpenedDisk(d, ch);
    var v := Rebuild(ch.order, a);
    AdoptedKeepsDiskInv(env.c, d, view, attempted);
    RebuildAgreesWithLogs(env.c, d, ch.order, a, view, attempted);
    OpenedLogs(env, d, ch);
    FewerLogs(Logs(env.c, AdoptedSegs(d)), Logs(env.c, d'.segs));
    RebuildFacts(env.c, d, ch.order, a, view, attempted);
    forall id | id in d'.ssts ensures SubMap(d'.ssts[id].contents, v) {
      assert d.ssts[id] in ch.order;
      ListedHas(ch.order, d.ssts[id]);
    }
  }

  lemma ListedHas(order: seq<Sst>, s: Sst)
    requires s in order
    ensures forall x | x in s.contents :: SstHas(order, x)
  {
    var i :| 0 <= i < |order| && order[i] == s;
  }

  lemma OpenedTables(env: Env, d: Disk, ch: OpenChoice, m: Mem, view: map<DocID, LogRecord>, attempted: set<Entry>)
    requires DiskInv(env.c, d, view, attempted) && OpenChoiceOk(env, d, ch)
    requires Rebuilt(env.c, d, ch.order, m.active.contents, view)
    requires m.frozen == [] && m.frozenWALs == [] && m.sstables == ch.order && m.flush == FIdle
    ensures var v := Rebuild(ch.order, m.active.contents);
      TablesInv(m, Logs(env.c, OpenedDisk(d, ch).segs), v) && CoverInv(m, Logs(env.c, OpenedDisk(d, ch).segs), v)
  {
    hide Exact, Log, Logs, Rebuild, SstHas, OpenedDisk;
    RebuildFacts(env.c, d, ch.order, m.active.contents, view, attempted);
    OpenedLogs(env, d, ch);
  }

  lemma OpenedAlloc(env: Env, d: Disk, ch: OpenChoice, m: Mem, view: map<DocID, LogRecord>, attempted: set<Entry>)
    requires DiskInv(env.c, d, view, attempted) && OpenChoiceOk(env, d, ch)
    requires Rebuilt(env.c, d, ch.order, m.active.contents, view)
    requires IsMaxOrZero(ch.memMax, m.active.contents.Keys)
    requires m.alloc == MaxID(Cutoff(ch.order), ch.memMax)
    ensures AllocInv(m, Logs(env.c, OpenedDisk(d, ch).segs), Rebuild(ch.order, m.active.contents))
  {
    hide Exact, Log, Logs, Rebuild, SstHas, OpenedDisk;
    RebuildFacts(env.c, d, ch.order, m.active.contents, view, attempted);
    OpenedLogs(env, d, ch);
    var logs, logs' := Logs(env.c, AdoptedSegs(d)), Logs(env.c, OpenedDisk(d, ch).segs);
    forall s: nat, e: Entry | s in logs' && e in logs'[s] ensures e.id <= m.alloc {
      assert InLogs(logs, e);
    }
  }

  lemma OpenedSegs(env: Env, d: Disk, ch: OpenChoice, m: Mem)
    requires OpenChoiceOk(env, d, ch) && ch.ids != []
    requires m.activeSeg == ch.ids[|ch.ids| - 1] && m.nextSeg == m.activeSeg + 1
    requires m.frozenWALs == [] && m.flush == FIdle
    ensures SegsInv(m, OpenedDisk(d, ch).segs.Keys)
  {
    hide FullyCovered, LoadedAs;
    var segs' := OpenedDisk(d, ch).segs;
    assert m.activeSeg in ch.ids;
    forall s | s in segs' ensures s < m.nextSeg {
      assert s in ch.ids;
    }
  }

  lemma OpenedSsts(env: Env, d: Disk, ch: OpenChoice, m: Mem)
    requires OpenChoiceOk(env, d, ch)
    requires m.sstables == ch.order && m.flush == FIdle && m.sstSeq == ch.sstSeq
    ensures SstsInv(m, OpenedDisk(d, ch).ssts, OpenedDisk(d, ch).tmps)
  {
    hide NewestFirst, SortedIDs, DeletedAtOpen, SstHas;
    var ssts' := OpenedDisk(d, ch).ssts;
    forall id | id in ssts' ensures forall x | x in ssts'[id].contents :: SstHas(m.sstables, x) {
      ListedHas(ch.order, d.ssts[id]);
    }
  }

  lemma OpenedView(env: Env, d: Disk, ch: OpenChoice)
    requires OpenChoiceOk(env, d, ch) && Recovered(env, d, ch).Some? && ch.ids != []
    ensures View(OpenedMem(env, d, ch)) == Rebuild(ch.order, Recovered(env, d, ch).value.contents)
  {
    hide OpenChoiceOk, Recovered, SstLayers;
    var m := OpenedMem(env, d, ch);
    assert FrozenLayers([]) == [];
    assert Layers(m) == [m.active.contents] + SstLayers(ch.order);
    OverlayConcat([m.active.contents], SstLayers(ch.order));
    assert Overlay([m.active.contents]) == m.active.contents;
  }

  lemma OpenKeepsInv(env: Env, d: Disk, ch: OpenChoice, view: map<DocID, LogRecord>, attempted: set<Entry>)
    requires DiskInv(env.c, d, view, attempted) && CanOpen(env, d, ch)
    ensures DiskInv(env.c, OpenedDisk(d, ch), View(OpenedMem(env, d, ch)), attempted)
    ensures MemInv(env, OpenedMem(env, d, ch), OpenedDisk(d, ch), View(OpenedMem(env, d, ch)), attempted)
  {
    hide Exact, Log, Logs, View, DiskInv, OpenChoiceOk, ReplaySegs, TablesInv, CoverInv, AllocInv, SegsInv, SstsInv,
         Structure,
         OpenedDisk, Rebuild, SyncInv, IDInLogs;
    var m := OpenedMem(env, d, ch);
    OpenRebuilds(env, d, ch, view, attempted);
    OpenedView(env, d, ch);
    OpenKeepsDiskInv(env, d, ch, m.active.contents, view, attempted);
    OpenedStructure(env, d, ch);
    OpenedSegs(env, d, ch, m);
    OpenedTables(env, d, ch, m, view, attempted);
    OpenedSsts(env, d, ch, m);
    OpenedAlloc(env, d, ch, m, view, attempted);
    OpenedSync(env, d, ch, View(m));
  }

  lemma OpenedSync(env: Env, d: Disk, ch: OpenChoice, view: map<DocID, LogRecord>)
    requires CanOpen(env, d, ch)
    ensures SyncInv(env.c, OpenedMem(env, d, ch), OpenedDisk(d, ch), view)
  {
    hide Log, ReplaySegs, LoadedAs, FullyCovered, SyncInv;
    var last := ch.ids[|ch.ids| - 1];
    assert last in ch.ids;
    assert SegBytes(OpenedDisk(d, ch), last) == AdoptedSegs(d)[last];
    FreshSync(env.c, OpenedMem(env, d, ch), OpenedDisk(d, ch), view);
  }

  // ---- the invariant over runs ------------------------------------------------------------------

  lemma StepKeepsInv(env: Env, w: World, s: Step)
    requires Invertible(env.c) && Inv(env, w) && Enabled(env, w, s) && Careful(env, w, s)
    ensures Inv(env, Do(env, w, s))
  {
    hide DiskInv, MemInv, CanOpen, OpenedMem, OpenedDisk, CanCommit, CanSwap, CanFreeze, SegBytes, AtBoundary, InFlight,
         Structure, Exact, AppendDisk, AppendFailDisk, AppendMem, AllocMem, CrashDisk, PutMem, RotateMem, SwappedMem, View;
    if w.node.Down? {
      OpenKeepsInv(env, w.disk, s.ch, w.view, w.attempted);
    } else {
      var m, d, v, att := w.node.mem, w.disk, w.view, w.attempted;
      match s {
        case Check(t, rec) => WriterStepKeepsInv(env, m, SetWriter(m, t, Checked(rec)), d, v, att, t, Checked(rec));
        case GiveUp(t) => WriterStepKeepsInv(env, m, SetWriter(m, t, Idle), d, v, att, t, Idle);
        case Gate(t) =>
          WriterStepKeepsInv(env, m, SetWriter(m, t, Gated(m.writers[t].rec)), d, v, att, t, Gated(m.writers[t].rec));
        case Alloc(t) => AllocKeepsInv(env, m, d, v, att, t);
        case Lock(t) =>
          WriterStepKeepsInv(env, m, SetWriter(m, t, Locked(m.writers[t].e)), d, v, att, t, Locked(m.writers[t].e));
        case Append(t) => AppendKeepsInv(env, m, d, v, att, t);
        case AppendFails(t, k) => AppendFailsKeepsInv(env, m, d, v, att, t, k);
        case Put(t) => PutKeepsInv(env, m, d, v, att, t);
        case Freeze => FreezeKeepsInv(env, m, d, v, att);
        case SealFails(created) => SealFailsKeepsInv(env, m, d, v, att, created);
        case FlushCheck => FlushLookKeepsInv(env, m, d, v, att, FChecked);
        case FlushNothing => FlushLookKeepsInv(env, m, d, v, att, FIdle);
        case FlushSnap => FlushStepKeepsInv(env, m, d, v, att);
        case FlushCreate => FlushStepKeepsInv(env, m, d, v, att);
        case FlushCommit(sst) => CommitKeepsInv(env, m, d, v, att, sst);
        case FlushSwap => SwapKeepsInv(env, m, d, v, att);
        case FlushDelete(ok) => DeleteKeepsInv(env, m, d, v, att, ok);
        case FlushFails(dropTmp, fatal) => FlushFailsKeepsInv(env, m, d, v, att, dropTmp, fatal);
        case Crash(t, k, keep) => CrashKeepsInv(env, m, d, v, att, t, k, keep);
        case Open(_) =>
      }
    }
  }
}
